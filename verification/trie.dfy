/**
 A model of the map-based trie of `org.teraflopx.jsandboox.struct.Trie`.

 Every node of the source is an object that the bulk builder mutates in
 place; here a node is an immutable value and each insertion returns the
 updated node. A child object in the source is reachable from exactly one
 parent, so replacing the child in the parent's map is equivalent to
 mutating it.
 */
module Tries {
  import opened Wrappers

  /** A trie node: the edge character leading into it (`None` at the root),
      its children keyed by their edge character, and the two flags. */
  datatype Trie = Node(key: Option<char>, children: map<char, Trie>, isWord: bool, isLeaf: bool)

  /** A freshly allocated node: no children and both flags at their
      optimistic default `true`. */
  function Fresh(key: Option<char>): (r: Trie)
    ensures r.key == key && r.children == map[]
    ensures r.isWord && r.isLeaf
    ensures Valid(r)
    ensures forall p :: |p| > 0 ==> Walk(r, p) == None
  {
    Node(key, map[], true, true)
  }

  /** The node a bulk build starts from. */
  function Root(): Trie
  {
    Fresh(None)
  }

  /** The child under `c`, or the fresh node the insertion would create. */
  function ChildOrFresh(t: Trie, c: char): (r: Trie)
    ensures c in t.children ==> r == t.children[c]
    ensures c !in t.children ==> r == Fresh(Some(c))
    ensures Walk(t, [c]).Some? ==> Walk(t, [c]) == Some(r)
    ensures Walk(t, [c]).None? ==> r == Fresh(Some(c))
    ensures Valid(t) ==> r.key == Some(c) && Valid(r)
  {
    if c in t.children then t.children[c] else Fresh(Some(c))
  }

  /** The structural invariants every built trie keeps: a child stored
      under `c` is labelled `Some(c)`, and a node is a leaf exactly when it
      has no children. */
  ghost predicate Valid(t: Trie)
    decreases t
  {
    && (t.isLeaf <==> t.children == map[])
    && forall c :: c in t.children ==> t.children[c].key == Some(c) && Valid(t.children[c])
  }

  /** The recursive insertion: consumes the first character of `w`,
      creating its child when missing, marks the receiver as a non-leaf and,
      when more characters follow, recurses into the child and clears the
      receiver's word flag. The source throws on an empty word. */
  function Put(t: Trie, w: string): (r: Trie)
    requires |w| > 0
    ensures r.key == t.key
    ensures !r.isLeaf
    ensures r.isWord <==> t.isWord && |w| == 1
    ensures r.children.Keys == t.children.Keys + {w[0]}
    ensures forall c :: c in t.children && c != w[0] ==> r.children[c] == t.children[c]
    ensures r.children[w[0]].key == ChildOrFresh(t, w[0]).key
    ensures Valid(t) ==> Valid(r)
    decreases |w|
  {
    var c := w[0];
    var child := ChildOrFresh(t, c);
    var child' := if |w| > 1 then Put(child, w[1..]) else child;
    Node(t.key, t.children[c := child'], if |w| > 1 then false else t.isWord, false)
  }

  /** The node reached from `t` by following every character of `p`; the
      empty path reaches `t` itself. This is the reference notion of
      "the node at a path" that lookup is measured against. */
  ghost function Walk(t: Trie, p: string): Option<Trie>
    decreases |p|
  {
    if |p| == 0 then Some(t)
    else if p[0] in t.children then Walk(t.children[p[0]], p[1..])
    else None
  }

  /** Lookup as the source performs it: an empty word finds nothing;
      otherwise follow one child per character, stopping with nothing at
      the first missing child. */
  function FindWord(t: Trie, s: string): (r: Option<Trie>)
    ensures |s| == 0 ==> r == None
    ensures |s| > 0 ==> r == Walk(t, s)
    decreases |s|
  {
    if |s| == 0 then None
    else if s[0] !in t.children then None
    else if |s| > 1 then FindWord(t.children[s[0]], s[1..])
    else Some(t.children[s[0]])
  }

  /** Lookup with the source's nullable argument: `null` finds nothing. */
  function Find(t: Trie, word: Option<string>): (r: Option<Trie>)
    ensures r == if word.Some? && |word.value| > 0 then Walk(t, word.value) else None
  {
    match word
    case None => None
    case Some(s) => FindWord(t, s)
  }

  /** The non-null entries of a collection, in iteration order, each as
      often as it occurs. */
  function NonNull(ws: seq<Option<string>>): (r: seq<string>)
    ensures |r| <= |ws|
    ensures forall w :: w in r <==> Some(w) in ws
    decreases |ws|
  {
    if |ws| == 0 then []
    else
      var init := ws[..|ws| - 1];
      var rest := NonNull(init);
      assert ws == init + [ws[|ws| - 1]];
      match ws[|ws| - 1]
      case None => rest
      case Some(w) => rest + [w]
  }

  /** The filter keeps the non-null entries in their original order: it
      distributes over concatenation, keeps a single word and drops a
      single `null`. */
  lemma {:induction false} NonNullAppend(a: seq<Option<string>>, b: seq<Option<string>>)
    ensures NonNull(a + b) == NonNull(a) + NonNull(b)
    ensures forall w :: NonNull([Some(w)]) == [w]
    ensures NonNull([None]) == []
    decreases |b|
  {
    if |b| > 0 {
      var b0, x := b[..|b| - 1], b[|b| - 1];
      var ab := a + b;
      assert ab[..|ab| - 1] == a + b0;
      assert ab[|ab| - 1] == x;
      NonNullAppend(a, b0);
      var tail := if x.Some? then [x.value] else [];
      assert NonNull(ab) == NonNull(a + b0) + tail;
      assert NonNull(b) == NonNull(b0) + tail;
    } else {
      assert a + b == a;
    }
    forall w
      ensures NonNull([Some(w)]) == [w]
    {
      assert [Some(w)][..0] == [];
    }
    var nothing: seq<Option<string>> := [None];
    assert nothing[..0] == [];
  }

  /** The filter keeps every non-null word exactly as often as the
      collection holds it. */
  lemma {:induction false} NonNullCount(ws: seq<Option<string>>, w: string)
    ensures multiset(NonNull(ws))[w] == multiset(ws)[Some(w)]
    decreases |ws|
  {
    if |ws| > 0 {
      var init, x := ws[..|ws| - 1], ws[|ws| - 1];
      assert ws == init + [x];
      NonNullCount(init, w);
      if x.Some? {
        assert NonNull(ws) == NonNull(init) + [x.value];
      } else {
        assert NonNull(ws) == NonNull(init);
      }
    }
  }

  /** Inserts the words into `t` one after another, first word first. */
  function InsertAll(t: Trie, ws: seq<string>): (r: Trie)
    requires forall w :: w in ws ==> |w| > 0
    ensures r.key == t.key
    ensures Valid(t) ==> Valid(r)
    ensures |ws| > 0 ==> !r.isLeaf
    decreases |ws|
  {
    if |ws| == 0 then t
    else Put(InsertAll(t, ws[..|ws| - 1]), ws[|ws| - 1])
  }

  /** The source's contract on its input: every non-null word is
      non-empty (an empty one makes `put` throw). */
  predicate NoEmptyWord(words: Option<seq<Option<string>>>)
  {
    words.Some? ==> forall i :: 0 <= i < |words.value| && words.value[i].Some? ==> |words.value[i].value| > 0
  }

  /** Bulk build: nothing for an absent or empty collection, otherwise a
      root into which every non-null word is inserted in order. */
  function Build(words: Option<seq<Option<string>>>): (r: Option<Trie>)
    requires NoEmptyWord(words)
    ensures r.None? <==> words.None? || |words.value| == 0
    ensures r.Some? ==> r.value.key == None && Valid(r.value)
    ensures r.Some? && (forall i :: 0 <= i < |words.value| ==> words.value[i].None?) ==> r.value == Fresh(None)
  {
    match words
    case None => None
    case Some(ws) =>
      if |ws| == 0 then None
      else
        var nn := NonNull(ws);
        assert forall w :: w in nn ==> |w| > 0 by {
          forall w | w in nn ensures |w| > 0 {
            var i :| 0 <= i < |ws| && ws[i] == Some(w);
          }
        }
        assert (forall i :: 0 <= i < |ws| ==> ws[i].None?) ==> nn == [] by {
          if |nn| > 0 {
            assert nn[0] in nn;
          }
        }
        Some(InsertAll(Root(), nn))
  }
}
