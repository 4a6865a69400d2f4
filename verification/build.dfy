/**
 What a bulk build produces, path by path: which paths are present, how
 their nodes are labelled, and the exact meaning of the leaf and word
 flags in terms of the inserted words.
 */
module TrieBuild {
  import opened Wrappers
  import opened Tries
  import opened TriePaths

  /** Some word of `ws` has `p` as a prefix and is at least `k`
      characters longer than `p`. */
  ghost predicate Extends(ws: seq<string>, p: string, k: nat)
  {
    exists w :: w in ws && p <= w && |w| >= |p| + k
  }

  /** The same, over the source's nullable collection: `null` entries
      extend nothing. */
  ghost predicate Extended(words: seq<Option<string>>, p: string, k: nat)
  {
    exists w :: Some(w) in words && p <= w && |w| >= |p| + k
  }

  lemma ExtendsSnoc(ws: seq<string>, w: string, p: string, k: nat)
    ensures Extends(ws + [w], p, k) <==> Extends(ws, p, k) || (p <= w && |w| >= |p| + k)
  {
    if Extends(ws + [w], p, k) {
      var u :| u in ws + [w] && p <= u && |u| >= |p| + k;
      if u != w {
        assert u in ws;
      }
    }
    if Extends(ws, p, k) {
      var u :| u in ws && p <= u && |u| >= |p| + k;
      assert u in ws + [w];
    }
    if p <= w && |w| >= |p| + k {
      assert w in ws + [w];
    }
  }

  lemma ExtendedNonNull(words: seq<Option<string>>, p: string, k: nat)
    ensures Extends(NonNull(words), p, k) <==> Extended(words, p, k)
  {
    if Extended(words, p, k) {
      var w :| Some(w) in words && p <= w && |w| >= |p| + k;
      assert w in NonNull(words);
    }
  }

  /** The shape of the trie obtained by inserting `ws` into a fresh root,
      for every path `p`. */
  ghost predicate Shaped(ws: seq<string>, t: Trie, p: string)
  {
    && (Walk(t, p).Some? <==> |p| == 0 || Extends(ws, p, 0))
    && (Walk(t, p).Some? ==>
          && Walk(t, p).value.key == (if |p| == 0 then None else Some(p[|p| - 1]))
          && (Walk(t, p).value.isLeaf <==> !Extends(ws, p, 1))
          && (Walk(t, p).value.isWord <==> !Extends(ws, p, 2)))
  }

  /** The central characterisation, by induction over the insertions:
      exactly the prefixes of inserted words are present, each labelled by
      its last character; a node is a leaf iff no inserted word continues
      past it, and its word flag is down iff some inserted word continues
      at least two characters past it. */
  lemma {:induction false} InsertAllShape(ws: seq<string>, p: string)
    requires forall w :: w in ws ==> |w| > 0
    ensures Shaped(ws, InsertAll(Root(), ws), p)
    decreases |ws|
  {
    if |ws| == 0 {
      if |p| > 0 {
        WalkFresh(None, p);
      }
    } else {
      var ws0 := ws[..|ws| - 1];
      var w := ws[|ws| - 1];
      assert ws == ws0 + [w];
      assert forall u :: u in ws0 ==> u in ws;
      var t0 := InsertAll(Root(), ws0);
      InsertAllShape(ws0, p);
      PutWalk(t0, w, p);
      BaseWalk(t0, p);
      ExtendsSnoc(ws0, w, p, 0);
      ExtendsSnoc(ws0, w, p, 1);
      ExtendsSnoc(ws0, w, p, 2);
      if p <= w {
        DescendFlags(Base(t0, p), w[|p|..]);
      }
    }
  }

  /** The shape of a built trie, stated on the source's nullable
      collection. */
  lemma {:induction false} BuildShape(words: seq<Option<string>>, p: string)
    requires NoEmptyWord(Some(words))
    requires |words| > 0
    ensures Build(Some(words)).Some?
    ensures Walk(Build(Some(words)).value, p).Some? <==> |p| == 0 || Extended(words, p, 0)
    ensures Walk(Build(Some(words)).value, p).Some? ==>
      var n := Walk(Build(Some(words)).value, p).value;
      && n.key == (if |p| == 0 then None else Some(p[|p| - 1]))
      && (n.isLeaf <==> !Extended(words, p, 1))
      && (n.isWord <==> !Extended(words, p, 2))
  {
    var nn := NonNull(words);
    assert forall w :: w in nn ==> |w| > 0 by {
      forall w | w in nn ensures |w| > 0 {
        var i :| 0 <= i < |words| && words[i] == Some(w);
      }
    }
    InsertAllShape(nn, p);
    ExtendedNonNull(words, p, 0);
    ExtendedNonNull(words, p, 1);
    ExtendedNonNull(words, p, 2);
  }

  /** Completeness: every non-null input word is found from the built
      root, at a node labelled with the word's last character. */
  lemma {:induction false} BuildFindsEveryWord(words: seq<Option<string>>, w: string)
    requires NoEmptyWord(Some(words))
    requires Some(w) in words
    ensures Build(Some(words)).Some?
    ensures FindWord(Build(Some(words)).value, w).Some?
    ensures FindWord(Build(Some(words)).value, w).value.key == Some(w[|w| - 1])
  {
    BuildShape(words, w);
    assert w <= w;
  }

  /** Soundness and prefix closure: lookup from the built root succeeds
      exactly on the non-empty prefixes of the non-null input words. */
  lemma {:induction false} BuildFindIff(words: seq<Option<string>>, p: string)
    requires NoEmptyWord(Some(words))
    requires |words| > 0
    ensures Build(Some(words)).Some?
    ensures FindWord(Build(Some(words)).value, p).Some? <==> |p| > 0 && Extended(words, p, 0)
  {
    BuildShape(words, p);
  }

  /** The word flag, exactly as the source computes it: the node at `p` is
      not a "word" iff some input word runs at least two characters past
      `p`; whether `p` itself was inserted plays no part. */
  lemma {:induction false} BuildIsWord(words: seq<Option<string>>, p: string)
    requires NoEmptyWord(Some(words))
    requires |words| > 0
    ensures Build(Some(words)).Some?
    ensures Walk(Build(Some(words)).value, p).Some? ==>
      (Walk(Build(Some(words)).value, p).value.isWord <==> !Extended(words, p, 2))
  {
    BuildShape(words, p);
  }

  /** The leaf flag: the node at `p` is a leaf iff no input word runs past
      `p`, which is also iff it has no children. */
  lemma {:induction false} BuildIsLeaf(words: seq<Option<string>>, p: string)
    requires NoEmptyWord(Some(words))
    requires |words| > 0
    ensures Build(Some(words)).Some?
    ensures Walk(Build(Some(words)).value, p).Some? ==>
      && (Walk(Build(Some(words)).value, p).value.isLeaf <==> !Extended(words, p, 1))
      && (Walk(Build(Some(words)).value, p).value.isLeaf <==> Walk(Build(Some(words)).value, p).value.children == map[])
  {
    BuildShape(words, p);
    if Walk(Build(Some(words)).value, p).Some? {
      ValidWalk(Build(Some(words)).value, p);
    }
  }

  /** Every node reachable in a valid trie is itself valid. */
  lemma {:induction false} ValidWalk(t: Trie, p: string)
    requires Valid(t)
    requires Walk(t, p).Some?
    ensures Valid(Walk(t, p).value)
    decreases |p|
  {
    if |p| > 0 {
      ValidWalk(t.children[p[0]], p[1..]);
    }
  }
}
