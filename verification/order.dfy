/**
 Insertion order does not matter: two insertions commute, repeating an
 insertion changes nothing, and so a bulk build depends only on the
 multiset of its non-null words.
 */
module TrieOrder {
  import opened Wrappers
  import opened Tries
  import opened TriePaths

  /** One insertion, written out as the node it produces. */
  lemma PutUnfold(t: Trie, w: string)
    requires |w| > 0
    ensures Put(t, w) == Node(t.key, t.children[w[0] := Descend(ChildOrFresh(t, w[0]), w[1..])], t.isWord && |w| == 1, false)
  {
  }

  /** Two insertions into the same node commute. */
  lemma {:induction false} PutCommute(t: Trie, u: string, v: string)
    requires |u| > 0 && |v| > 0
    ensures Put(Put(t, u), v) == Put(Put(t, v), u)
    decreases |u|, 0
  {
    if u[0] == v[0] {
      var child := ChildOrFresh(t, u[0]);
      DescendCommute(child, u[1..], v[1..]);
      PutCommuteSameEdge(t, u, v);
    } else {
      PutCommuteDistinctEdges(t, u, v);
    }
  }

  /** Insertions through the same child commute when their residuals
      commute inside that child. */
  lemma PutCommuteSameEdge(t: Trie, u: string, v: string)
    requires |u| > 0 && |v| > 0 && u[0] == v[0]
    requires var child := ChildOrFresh(t, u[0]);
      Descend(Descend(child, u[1..]), v[1..]) == Descend(Descend(child, v[1..]), u[1..])
    ensures Put(Put(t, u), v) == Put(Put(t, v), u)
  {
    var a := u[0];
    var child := ChildOrFresh(t, a);
    var tu, tv := Put(t, u), Put(t, v);
    PutUnfold(t, u);
    PutUnfold(t, v);
    PutUnfold(tu, v);
    PutUnfold(tv, u);
    assert ChildOrFresh(tu, a) == Descend(child, u[1..]);
    assert ChildOrFresh(tv, a) == Descend(child, v[1..]);
    assert Put(tu, v).children[a] == Descend(Descend(child, u[1..]), v[1..]);
    assert Put(tv, u).children[a] == Descend(Descend(child, v[1..]), u[1..]);
    assert Put(tu, v).children == Put(tv, u).children;
  }

  /** Insertions through different children touch disjoint parts of the
      node. */
  lemma PutCommuteDistinctEdges(t: Trie, u: string, v: string)
    requires |u| > 0 && |v| > 0 && u[0] != v[0]
    ensures Put(Put(t, u), v) == Put(Put(t, v), u)
  {
    var a, b := u[0], v[0];
    var tu, tv := Put(t, u), Put(t, v);
    var ca := Descend(ChildOrFresh(t, a), u[1..]);
    var cb := Descend(ChildOrFresh(t, b), v[1..]);
    var flag := t.isWord && |u| == 1 && |v| == 1;
    PutUnfold(t, u);
    PutUnfold(t, v);
    assert tu.children == t.children[a := ca];
    assert tv.children == t.children[b := cb];
    assert ChildOrFresh(tu, b) == ChildOrFresh(t, b);
    assert ChildOrFresh(tv, a) == ChildOrFresh(t, a);
    PutUnfold(tu, v);
    PutUnfold(tv, u);
    UpdateCommute(t.children, a, ca, b, cb);
    assert Put(tu, v) == Node(t.key, t.children[a := ca][b := cb], flag, false);
    assert Put(tv, u) == Node(t.key, t.children[b := cb][a := ca], flag, false);
  }

  lemma UpdateCommute<K, V>(m: map<K, V>, a: K, x: V, b: K, y: V)
    requires a != b
    ensures m[a := x][b := y] == m[b := y][a := x]
  {
  }

  lemma {:induction false} DescendCommute(t: Trie, u: string, v: string)
    ensures Descend(Descend(t, u), v) == Descend(Descend(t, v), u)
    decreases |u|, 1
  {
    if |u| > 0 && |v| > 0 {
      PutCommute(t, u, v);
    }
  }

  /** Inserting the same word twice is inserting it once. */
  lemma {:induction false} PutIdempotent(t: Trie, w: string)
    requires |w| > 0
    ensures Put(Put(t, w), w) == Put(t, w)
    decreases |w|
  {
    var c := w[0];
    var child := ChildOrFresh(t, c);
    assert ChildOrFresh(Put(t, w), c) == Descend(child, w[1..]);
    if |w| > 1 {
      PutIdempotent(child, w[1..]);
    }
    assert Put(Put(t, w), w).children == Put(t, w).children;
  }

  lemma {:induction false} InsertAllAppend(t: Trie, xs: seq<string>, ys: seq<string>)
    requires forall w :: w in xs + ys ==> |w| > 0
    ensures forall w :: w in xs ==> |w| > 0
    ensures InsertAll(t, xs + ys) == InsertAll(InsertAll(t, xs), ys)
    decreases |ys|
  {
    assert forall w :: w in xs ==> w in xs + ys;
    if |ys| == 0 {
      assert xs + ys == xs;
    } else {
      var ys0 := ys[..|ys| - 1];
      assert (xs + ys)[..|xs + ys| - 1] == xs + ys0;
      assert forall w :: w in xs + ys0 ==> w in xs + ys;
      InsertAllAppend(t, xs, ys0);
    }
  }

  /** An insertion made first can be moved to the end. */
  lemma {:induction false} PutThrough(t: Trie, a: string, xs: seq<string>)
    requires |a| > 0
    requires forall w :: w in xs ==> |w| > 0
    ensures Put(InsertAll(t, xs), a) == InsertAll(Put(t, a), xs)
    decreases |xs|
  {
    if |xs| > 0 {
      var xs0 := xs[..|xs| - 1];
      var x := xs[|xs| - 1];
      assert forall w :: w in xs0 ==> w in xs;
      PutCommute(InsertAll(t, xs0), x, a);
      PutThrough(t, a, xs0);
    }
  }

  /** A word inserted anywhere in the sequence can be moved to the end. */
  lemma {:induction false} MoveToEnd(t: Trie, pre: seq<string>, a: string, post: seq<string>)
    requires forall w :: w in pre + [a] + post ==> |w| > 0
    ensures |a| > 0 && forall w :: w in pre + post ==> |w| > 0
    ensures InsertAll(t, pre + [a] + post) == Put(InsertAll(t, pre + post), a)
  {
    var ys := pre + [a] + post;
    assert a in ys;
    assert forall w :: w in pre ==> w in ys;
    assert forall w :: w in post ==> w in ys;
    assert forall w :: w in pre + post ==> w in pre || w in post;
    calc {
      InsertAll(t, ys);
      { InsertAllAppend(t, pre + [a], post); }
      InsertAll(InsertAll(t, pre + [a]), post);
      { assert (pre + [a])[..|pre + [a]| - 1] == pre; }
      InsertAll(Put(InsertAll(t, pre), a), post);
      { PutThrough(t, a, pre); }
      InsertAll(InsertAll(Put(t, a), pre), post);
      { InsertAllAppend(Put(t, a), pre, post); }
      InsertAll(Put(t, a), pre + post);
      { PutThrough(t, a, pre + post); }
      Put(InsertAll(t, pre + post), a);
    }
  }

  lemma RemoveOne<T>(xs0: seq<T>, a: T, pre: seq<T>, post: seq<T>)
    requires multiset(xs0 + [a]) == multiset(pre + [a] + post)
    ensures multiset(xs0) == multiset(pre + post)
  {
    assert multiset(xs0 + [a]) == multiset(xs0) + multiset{a};
    assert multiset(pre + [a] + post) == multiset(pre + post) + multiset{a};
    assert multiset(xs0) == multiset(xs0 + [a]) - multiset{a};
    assert multiset(pre + post) == multiset(pre + [a] + post) - multiset{a};
  }

  /** Permuting the words does not change the trie. */
  lemma {:induction false} InsertAllPermutation(t: Trie, xs: seq<string>, ys: seq<string>)
    requires forall w :: w in xs ==> |w| > 0
    requires multiset(xs) == multiset(ys)
    ensures forall w :: w in ys ==> |w| > 0
    ensures InsertAll(t, xs) == InsertAll(t, ys)
    decreases |xs|
  {
    assert forall w :: w in ys ==> w in multiset(xs);
    if |xs| > 0 {
      var xs0 := xs[..|xs| - 1];
      var a := xs[|xs| - 1];
      assert xs == xs0 + [a];
      assert a in multiset(ys);
      var i :| 0 <= i < |ys| && ys[i] == a;
      var pre, post := ys[..i], ys[i + 1..];
      assert ys == pre + [a] + post;
      RemoveOne(xs0, a, pre, post);
      assert forall w :: w in xs0 ==> w in xs;
      InsertAllPermutation(t, xs0, pre + post);
      MoveToEnd(t, pre, a, post);
    }
  }

  /** A word already inserted can be inserted again without effect. */
  lemma {:induction false} InsertAllDuplicate(t: Trie, xs: seq<string>, a: string)
    requires forall w :: w in xs ==> |w| > 0
    requires a in xs
    ensures InsertAll(t, xs + [a]) == InsertAll(t, xs)
  {
    var i :| 0 <= i < |xs| && xs[i] == a;
    var rest := xs[..i] + xs[i + 1..];
    assert xs == xs[..i] + [a] + xs[i + 1..];
    assert forall w :: w in rest ==> w in xs;
    InsertAllPermutation(t, rest + [a], xs);
    assert (rest + [a])[..|rest|] == rest;
    assert (xs + [a])[..|xs|] == xs;
    PutIdempotent(InsertAll(t, rest), a);
  }

  /** Words already inserted can be inserted again without effect. */
  lemma {:induction false} InsertAllAbsorb(t: Trie, xs: seq<string>, ys: seq<string>)
    requires forall w :: w in xs ==> |w| > 0
    requires forall w :: w in ys ==> w in xs
    ensures InsertAll(t, xs + ys) == InsertAll(t, xs)
    decreases |ys|
  {
    if |ys| == 0 {
      assert xs + ys == xs;
    } else {
      var ys0 := ys[..|ys| - 1];
      var y := ys[|ys| - 1];
      assert xs + ys == (xs + ys0) + [y];
      assert forall w :: w in xs + ys0 ==> w in xs;
      InsertAllAbsorb(t, xs, ys0);
      InsertAllDuplicate(t, xs, y);
    }
  }

  /** The trie depends only on the set of inserted words: neither their
      order nor their repetition matters. */
  lemma {:induction false} InsertAllSetDetermined(t: Trie, xs: seq<string>, ys: seq<string>)
    requires forall w :: w in xs ==> |w| > 0
    requires forall w :: w in xs <==> w in ys
    ensures InsertAll(t, xs) == InsertAll(t, ys)
  {
    InsertAllAbsorb(t, xs, ys);
    InsertAllAbsorb(t, ys, xs);
    InsertAllPermutation(t, xs + ys, ys + xs);
  }

  /** A bulk build depends only on which non-null words the collection
      holds: not on their order, their repetitions or the nulls between
      them. */
  lemma {:induction false} BuildSetDetermined(ws1: seq<Option<string>>, ws2: seq<Option<string>>)
    requires NoEmptyWord(Some(ws1)) && NoEmptyWord(Some(ws2))
    requires |ws1| > 0 && |ws2| > 0
    requires forall w :: Some(w) in ws1 <==> Some(w) in ws2
    ensures Build(Some(ws1)) == Build(Some(ws2))
  {
    var n1, n2 := NonNull(ws1), NonNull(ws2);
    assert forall w :: w in n1 ==> |w| > 0 by {
      forall w | w in n1 ensures |w| > 0 {
        var i :| 0 <= i < |ws1| && ws1[i] == Some(w);
      }
    }
    InsertAllSetDetermined(Root(), n1, n2);
  }
}
