/**
 How one insertion changes the nodes reachable by path: the subtree at a
 path that is not a prefix of the inserted word is untouched, and the node
 at a path that is a prefix is the old node (or a fresh one) with the rest
 of the word inserted into it.
 */
module TriePaths {
  import opened Wrappers
  import opened Tries

  /** The node at `p`, or the fresh node an insertion along `p` would
      create where the path leaves the trie. */
  function Base(t: Trie, p: string): Trie
    decreases |p|
  {
    if |p| == 0 then t else Base(ChildOrFresh(t, p[0]), p[1..])
  }

  /** Inserts the residual `v` of a word into the node reached so far; an
      empty residual leaves the node as it is. */
  function Descend(t: Trie, v: string): Trie
  {
    if |v| == 0 then t else Put(t, v)
  }

  lemma {:induction false} WalkFresh(k: Option<char>, p: string)
    requires |p| > 0
    ensures Walk(Fresh(k), p) == None
  {
  }

  /** Base agrees with Walk where the path exists, and is a fresh node
      labelled with the last character of the path where it does not. */
  lemma {:induction false} BaseWalk(t: Trie, p: string)
    ensures Walk(t, p).Some? ==> Base(t, p) == Walk(t, p).value
    ensures Walk(t, p).None? ==> |p| > 0 && Base(t, p) == Fresh(Some(p[|p| - 1]))
    decreases |p|
  {
    if |p| > 0 {
      var c := p[0];
      BaseWalk(ChildOrFresh(t, c), p[1..]);
      if c !in t.children && |p| > 1 {
        WalkFresh(Some(c), p[1..]);
        BaseFresh(Some(c), p[1..]);
      }
    }
  }

  /** Below a fresh node every base is a fresh node labelled with the
      path's last character. */
  lemma {:induction false} BaseFresh(k: Option<char>, p: string)
    requires |p| > 0
    ensures Base(Fresh(k), p) == Fresh(Some(p[|p| - 1]))
    decreases |p|
  {
    if |p| > 1 {
      BaseFresh(Some(p[0]), p[1..]);
    }
  }

  /** Walking `p + q` is walking `p` and then walking `q` from there. */
  lemma {:induction false} WalkAppend(t: Trie, p: string, q: string)
    ensures Walk(t, p + q) == if Walk(t, p).Some? then Walk(Walk(t, p).value, q) else None
    decreases |p|
  {
    if |p| > 0 {
      assert (p + q)[0] == p[0];
      assert (p + q)[1..] == p[1..] + q;
      if p[0] in t.children {
        WalkAppend(t.children[p[0]], p[1..], q);
      }
    } else {
      assert p + q == q;
    }
  }

  /** The effect of one insertion on every path of the trie. */
  lemma {:induction false} PutWalk(t: Trie, w: string, p: string)
    requires |w| > 0
    ensures !(p <= w) ==> Walk(Put(t, w), p) == Walk(t, p)
    ensures p <= w ==> Walk(Put(t, w), p) == Some(Descend(Base(t, p), w[|p|..]))
    decreases |p|
  {
    if |p| == 0 {
      assert w[0..] == w;
    } else {
      var c := p[0];
      var r := Put(t, w);
      if c != w[0] {
        assert !(p <= w);
      } else {
        var child := ChildOrFresh(t, c);
        assert r.children[c] == Descend(child, w[1..]);
        assert p <= w <==> p[1..] <= w[1..] by {
          if |p| <= |w| {
            assert w[..|p|] == [c] + w[1..][..|p| - 1];
            assert p == [c] + p[1..];
          }
        }
        if |p| <= |w| {
          assert w[|p|..] == w[1..][|p| - 1..];
        }
        if |w| == 1 {
          if |p| > 1 && c !in t.children {
            WalkFresh(Some(c), p[1..]);
          }
        } else {
          PutWalk(child, w[1..], p[1..]);
          if !(p <= w) && c !in t.children {
            WalkFresh(Some(c), p[1..]);
          }
        }
      }
    }
  }

  /** The node-level effect of inserting a residual: the label is kept,
      the word flag can only be lowered (and is lowered exactly when at
      least two characters remain), and the node stops being a leaf as
      soon as anything is inserted into it. */
  lemma {:induction false} DescendFlags(t: Trie, v: string)
    ensures Descend(t, v).key == t.key
    ensures Descend(t, v).isWord <==> t.isWord && |v| <= 1
    ensures Descend(t, v).isLeaf <==> t.isLeaf && |v| == 0
    ensures t.children.Keys <= Descend(t, v).children.Keys
  {
  }

  /** Monotonicity of insertion: every path that was present stays
      present and keeps its label and all of its children. */
  lemma {:induction false} PutMonotone(t: Trie, w: string, p: string)
    requires |w| > 0
    requires Walk(t, p).Some?
    ensures Walk(Put(t, w), p).Some?
    ensures Walk(Put(t, w), p).value.key == Walk(t, p).value.key
    ensures Walk(t, p).value.children.Keys <= Walk(Put(t, w), p).value.children.Keys
  {
    PutWalk(t, w, p);
    BaseWalk(t, p);
    if p <= w {
      DescendFlags(Base(t, p), w[|p|..]);
    }
  }

  /** Lookup started at an inner node: finding `p` and then `q` from the
      node reached is finding `p + q` from the start. */
  lemma {:induction false} FindCompose(t: Trie, p: string, q: string)
    requires |q| > 0
    requires FindWord(t, p).Some?
    ensures FindWord(t, p + q) == FindWord(FindWord(t, p).value, q)
  {
    WalkAppend(t, p, q);
  }

  /** A present node's children are exactly the characters that extend
      its path to another present node. */
  lemma {:induction false} ChildrenArePaths(t: Trie, p: string, c: char)
    requires Walk(t, p).Some?
    ensures c in Walk(t, p).value.children <==> Walk(t, p + [c]).Some?
  {
    WalkAppend(t, p, [c]);
    assert [c][1..] == [];
  }
}
