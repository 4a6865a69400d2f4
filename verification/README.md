# Map-based trie

A Dafny model of `org.teraflopx.jsandboox.struct.Trie`, a prefix tree whose
nodes keep their children in a map from character to node. The model covers
the whole class apart from `toString`:

- the node (`Tries.Trie`): the incoming edge character `key` (`None` at the
  root), the `children` map, and the flags `isWord` and `isLeaf`, which both
  start out `true`; the accessors `getKey`, `getChildren`, `isLeaf` and
  `isWord` are the datatype's fields;
- the bulk build `build` with its private constructor (`Tries.Build`,
  `Tries.InsertAll`, `Tries.NonNull`);
- the recursive insertion `put` (`Tries.Put`);
- the lookup `find` (`Tries.FindWord`, and `Tries.Find` for a `null`
  argument).

The source mutates nodes in place. Here a node is an immutable value and an
insertion returns the updated node; because every child object is reachable
from exactly one parent, putting the updated child back into its parent's map
is the same thing. Lookup is a pure function, so "find never changes the tree"
holds by construction.

Files: `wrappers.dfy` (`Option`), `trie.dfy` (data model and operations),
`paths.dfy` (how one insertion changes every path), `build.dfy` (the exact
shape of a built trie), `order.dfy` (insertion order and repetition do not
matter), `examples.dfy` (small concrete builds).

## The word flag

The flag is modelled as the code computes it, not as its name suggests.
`put` clears `isWord` on the receiving node, and only when at least two
characters of the word remain; a node never changes its child's flag, and nothing ever
sets the flag back to `true`. The consequence, proved in
`TrieBuild.BuildIsWord`, is that the node at path `p` has `isWord == false`
exactly when some inserted word extends `p` by two or more characters.
Whether `p` itself was inserted plays no part: after building from "cat"
alone, "ca" and "cat" report `true` and the root and "c" report `false`
(`TrieExamples.BuildCat`).

The field's name and its comment at `Trie.java:16` suggest the flag marks the
end of an inserted word; the code does not do that. Because the flag only
goes down, and goes down only depending on which words exist, the built trie
does not depend on insertion order (`TrieOrder.BuildSetDetermined`). With
"cat" and "cats" in either order, "cat" reports `true` and "ca" reports
`false` (`TrieExamples.BuildCatCats`). The model follows the code.

## Model

| member | source | states |
|---|---|---|
| Tries.Fresh | src/main/java/org/teraflopx/jsandboox/struct/Trie.java:13-17 | a new node carries the given key, has no children and both flags at their default `true`; it already satisfies the label and leaf invariants, and no non-empty path leads anywhere from it |
| Tries.ChildOrFresh | src/main/java/org/teraflopx/jsandboox/struct/Trie.java:68-72 | get-or-create of one edge: where the one-character path `[c]` is present the result is the node it reaches, otherwise a fresh node labelled `Some(c)`; in a trie satisfying the invariants the result is labelled `Some(c)` and satisfies them too |
| Tries.Put | src/main/java/org/teraflopx/jsandboox/struct/Trie.java:65-79 | insertion keeps the receiver's key; the receiver is no longer a leaf; its word flag survives iff it was up and only one character was left; its children gain exactly the first character and every other child is unchanged; the label and leaf invariants (`Valid`) are preserved |
| Tries.FindWord | src/main/java/org/teraflopx/jsandboox/struct/Trie.java:28-39 | the empty word finds nothing; any other word finds exactly the node reached by following its characters from the receiver, or nothing if a child is missing |
| Tries.Find | src/main/java/org/teraflopx/jsandboox/struct/Trie.java:28-39 | a `null` or empty word finds nothing; any other word finds exactly the node reached by following its characters from the receiver |
| Tries.NonNull | src/main/java/org/teraflopx/jsandboox/struct/Trie.java:58 | the filtered words are exactly the words held by non-null entries, and never more words than entries |
| Tries.NonNullAppend | src/main/java/org/teraflopx/jsandboox/struct/Trie.java:58 | the filter keeps entries in their original order: it distributes over concatenation, keeps a single non-null word and drops a single `null` |
| Tries.NonNullCount | src/main/java/org/teraflopx/jsandboox/struct/Trie.java:58 | every non-null word is kept exactly as many times as the collection holds it |
| Tries.InsertAll | src/main/java/org/teraflopx/jsandboox/struct/Trie.java:57-59 | inserting words one by one keeps the root's key and the structural invariants, and a root that received any word is not a leaf |
| Tries.Build | src/main/java/org/teraflopx/jsandboox/struct/Trie.java:20-25 | the build is absent iff the collection is `null` or empty; a built root has no key and satisfies the label and leaf invariants; a non-empty collection of only `null`s gives a childless root with both flags `true` |
| TriePaths.BaseWalk | src/main/java/org/teraflopx/jsandboox/struct/Trie.java:68-72 | along any path an insertion starts from the existing node, or from a fresh node labelled with the path's last character where the path leaves the trie |
| TriePaths.WalkAppend | src/main/java/org/teraflopx/jsandboox/struct/Trie.java:32-38 | following `p + q` is following `p` and then `q` from the node reached |
| TriePaths.PutWalk | src/main/java/org/teraflopx/jsandboox/struct/Trie.java:65-79 | one insertion leaves the subtree at every path that is not a prefix of the word unchanged; at a prefix `p` it yields the old (or fresh) node with the rest of the word inserted into it |
| TriePaths.DescendFlags | src/main/java/org/teraflopx/jsandboox/struct/Trie.java:73-78 | inserting a residual keeps the node's key and every existing child key, lowers `isWord` exactly when two or more characters remain, and clears `isLeaf` exactly when anything is inserted |
| TriePaths.PutMonotone | src/main/java/org/teraflopx/jsandboox/struct/Trie.java:68-72 | an insertion never removes a path, relabels a node or drops a child |
| TriePaths.FindCompose | src/main/java/org/teraflopx/jsandboox/struct/Trie.java:38 | a lookup continued from an inner node agrees with the lookup of the concatenated word from the root |
| TriePaths.ChildrenArePaths | src/main/java/org/teraflopx/jsandboox/struct/Trie.java:34-36 | a node has a child under `c` iff its path extended by `c` is present |
| TrieBuild.InsertAllShape | src/main/java/org/teraflopx/jsandboox/struct/Trie.java:57-79 | after inserting a list of words into a fresh root, a path is present iff it is empty or a prefix of some word; each present node is labelled by its path's last character; it is a leaf iff no word runs past it; its word flag is down iff some word runs two or more characters past it |
| TrieBuild.BuildShape | src/main/java/org/teraflopx/jsandboox/struct/Trie.java:20-25 | the same characterisation for the source's nullable collection, where `null` entries contribute nothing |
| TrieBuild.BuildFindsEveryWord | src/main/java/org/teraflopx/jsandboox/struct/Trie.java:57-58 | completeness: every non-null input word is found from the built root, at a node labelled with its last character |
| TrieBuild.BuildFindIff | src/main/java/org/teraflopx/jsandboox/struct/Trie.java:28-39 | soundness and prefix closure: lookup from the built root succeeds iff the word is a non-empty prefix of some non-null input word |
| TrieBuild.BuildIsWord | src/main/java/org/teraflopx/jsandboox/struct/Trie.java:75-78 | the node at `p` has `isWord == false` iff some input word has `p` as a prefix and is at least two characters longer |
| TrieBuild.BuildIsLeaf | src/main/java/org/teraflopx/jsandboox/struct/Trie.java:73 | the node at `p` is a leaf iff no input word runs past `p`, iff it has no children |
| TrieBuild.ValidWalk | src/main/java/org/teraflopx/jsandboox/struct/Trie.java:13-14 | every node reachable in a trie that satisfies the label and leaf invariants satisfies them too |
| TrieOrder.PutCommute | src/main/java/org/teraflopx/jsandboox/struct/Trie.java:65-79 | two insertions into the same node give the same node in either order |
| TrieOrder.PutIdempotent | src/main/java/org/teraflopx/jsandboox/struct/Trie.java:68-78 | inserting a word a second time changes nothing |
| TrieOrder.PutThrough | src/main/java/org/teraflopx/jsandboox/struct/Trie.java:58 | a word inserted before a sequence of words gives the same trie as inserting it after them |
| TrieOrder.InsertAllAppend | src/main/java/org/teraflopx/jsandboox/struct/Trie.java:58 | inserting `xs + ys` is inserting `xs` and then `ys` |
| TrieOrder.MoveToEnd | src/main/java/org/teraflopx/jsandboox/struct/Trie.java:58 | a word anywhere in the sequence can be moved to the end without changing the trie |
| TrieOrder.InsertAllPermutation | src/main/java/org/teraflopx/jsandboox/struct/Trie.java:58 | two sequences with the same multiset of words build the same trie |
| TrieOrder.InsertAllDuplicate | src/main/java/org/teraflopx/jsandboox/struct/Trie.java:58 | re-inserting a word already in the sequence changes nothing |
| TrieOrder.InsertAllAbsorb | src/main/java/org/teraflopx/jsandboox/struct/Trie.java:58 | re-inserting any words already in the sequence changes nothing |
| TrieOrder.InsertAllSetDetermined | src/main/java/org/teraflopx/jsandboox/struct/Trie.java:58 | two sequences with the same set of words build the same trie |
| TrieOrder.BuildSetDetermined | src/main/java/org/teraflopx/jsandboox/struct/Trie.java:20-25 | two non-empty collections with the same non-null words build equal tries, whatever their order, repetitions or `null` entries |
| TrieExamples.BuildCat | src/main/java/org/teraflopx/jsandboox/struct/Trie.java:75-78 | from "cat" alone: the root and "c" are not words, "ca" and "cat" are, and only "cat" is a leaf |
| TrieExamples.BuildCatCats | src/main/java/org/teraflopx/jsandboox/struct/Trie.java:75-78 | from "cat" and "cats" in either order: "cat" is a word and not a leaf, and "ca" is not a word |
| TrieExamples.BuildCatCar | src/main/java/org/teraflopx/jsandboox/struct/Trie.java:68-73 | from "cat" and "car": "ca" is not a leaf, and "cat" and "car" are leaves that are words |
| TrieExamples.BuildCatCarBranches | src/main/java/org/teraflopx/jsandboox/struct/Trie.java:68-72 | in the same trie, the "ca" node has exactly the children 't' and 'r' |
| TrieExamples.FindDog | src/main/java/org/teraflopx/jsandboox/struct/Trie.java:28-39 | from "dog": "do" is found with key 'o'; "dogs", the empty word and `null` are not found |

## Left out

- The empty word: `put` reads the first character unguarded and throws on an empty string (the source's own to-do list notes the missing guard). `Tries.Put` requires a non-empty word and `Tries.Build` requires every non-null entry to be non-empty; the exception itself is not modelled.
- `HashMap` hashing, Java streams, `Optional` and the `Objects::nonNull` filter are replaced by a Dafny `map`, the `Option` datatype and `Tries.NonNull`. The collection is a sequence in its iteration order; `TrieOrder.BuildSetDetermined` shows the order does not matter.
- `Collections.unmodifiableMap` in `getChildren`: the children are an immutable Dafny map, so no read-only wrapper is needed.
- `toString`: debug output only. It depends on Java's rendering of `Character`, `boolean`, `int` and `null`.
- Characters are Dafny `char` values, which are Unicode scalar values: no surrogate code point, paired or lone, is a `char`. Java's `char` is a UTF-16 code unit, so a Java word holding a supplementary character (an emoji is two `char`s, giving two trie levels in `put` and `find`) has no input in the model, and the Dafny string for the same text makes one edge where Java makes two. The model covers words made of characters in the Basic Multilingual Plane outside the surrogate range.
- The items on the source's to-do list (removal, parent links, array children, DAWG, auto-complete, `equals`/`hashCode`, word payloads) are not implemented in the source and are not modelled.
