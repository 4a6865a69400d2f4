/**
 Concrete builds, derived from the general characterisation: they pin the
 flags the source produces on small inputs.
 */
module TrieExamples {
  import opened Wrappers
  import opened Tries
  import opened TriePaths
  import opened TrieBuild

  /** Building from "cat" alone: the root and "c" lose their word flag
      (a word runs two or more characters past them), while "ca" and "cat"
      keep it; only "cat" is a leaf. */
  lemma {:induction false} BuildCat()
    ensures Build(Some([Some("cat")])).Some?
    ensures var r := Build(Some([Some("cat")])).value;
      && !r.isWord && !r.isLeaf
      && FindWord(r, "c").Some? && !FindWord(r, "c").value.isWord && !FindWord(r, "c").value.isLeaf
      && FindWord(r, "ca").Some? && FindWord(r, "ca").value.isWord && !FindWord(r, "ca").value.isLeaf
      && FindWord(r, "cat").Some? && FindWord(r, "cat").value.isWord && FindWord(r, "cat").value.isLeaf
  {
    var words := [Some("cat")];
    assert "" <= "cat" && "c" <= "cat" && "ca" <= "cat" && "cat" <= "cat";
    BuildShape(words, "");
    BuildShape(words, "c");
    BuildShape(words, "ca");
    BuildShape(words, "cat");
  }

  /** "cat" and "cats", in either order: "cat" is reported as a word and
      "ca" is not, because "cats" runs two characters past "ca" but only
      one past "cat". */
  lemma {:induction false} BuildCatCats(words: seq<Option<string>>)
    requires words == [Some("cat"), Some("cats")] || words == [Some("cats"), Some("cat")]
    ensures Build(Some(words)).Some?
    ensures var r := Build(Some(words)).value;
      && FindWord(r, "cat").Some? && FindWord(r, "cat").value.isWord && !FindWord(r, "cat").value.isLeaf
      && FindWord(r, "ca").Some? && !FindWord(r, "ca").value.isWord
  {
    assert "ca" <= "cats" && "cat" <= "cats";
    assert Some("cats") in words;
    assert forall w :: Some(w) in words ==> w == "cat" || w == "cats";
    assert !Extended(words, "cat", 2);
    BuildShape(words, "ca");
    BuildShape(words, "cat");
  }

  /** "cat" and "car" share "ca", which branches into two leaves that
      both keep their word flag. */
  lemma {:induction false} BuildCatCar()
    ensures Build(Some([Some("cat"), Some("car")])).Some?
    ensures var r := Build(Some([Some("cat"), Some("car")])).value;
      && FindWord(r, "ca").Some? && !FindWord(r, "ca").value.isLeaf
      && FindWord(r, "cat").Some? && FindWord(r, "cat").value.isLeaf && FindWord(r, "cat").value.isWord
      && FindWord(r, "car").Some? && FindWord(r, "car").value.isLeaf && FindWord(r, "car").value.isWord
  {
    var words := [Some("cat"), Some("car")];
    assert "ca" <= "cat" && "cat" <= "cat" && "car" <= "car";
    assert forall w :: Some(w) in words ==> w == "cat" || w == "car";
    assert !Extended(words, "cat", 1);
    assert !Extended(words, "car", 1);
    BuildShape(words, "ca");
    BuildShape(words, "cat");
    BuildShape(words, "car");
  }

  /** The "ca" node of the same trie has exactly the children 't' and
      'r'. */
  lemma {:induction false} BuildCatCarBranches(words: seq<Option<string>>, c: char)
    requires words == [Some("cat"), Some("car")]
    ensures Build(Some(words)).Some?
    ensures Walk(Build(Some(words)).value, "ca").Some?
    ensures c in Walk(Build(Some(words)).value, "ca").value.children <==> c == 't' || c == 'r'
  {
    var p := "ca" + [c];
    assert |p| == 3 && p[2] == c;
    assert "ca" <= "cat";
    assert Extended(words, p, 0) <==> c == 't' || c == 'r' by {
      if Extended(words, p, 0) {
        var w :| Some(w) in words && p <= w;
        assert w == "cat" || w == "car";
        assert w[2] == c;
      }
      if c == 't' {
        assert Some("cat") in words && p <= "cat";
      } else if c == 'r' {
        assert Some("car") in words && p <= "car";
      }
    }
    BuildShape(words, "ca");
    BuildShape(words, p);
    ChildrenArePaths(Build(Some(words)).value, "ca", c);
  }

  /** Lookup in a trie built from "dog": a proper prefix is found, a
      longer word, the empty word and `null` are not. */
  lemma {:induction false} FindDog()
    ensures Build(Some([Some("dog")])).Some?
    ensures var r := Build(Some([Some("dog")])).value;
      && FindWord(r, "do").Some? && FindWord(r, "do").value.key == Some('o')
      && FindWord(r, "dogs").None?
      && Find(r, Some("")).None?
      && Find(r, None).None?
  {
    var words := [Some("dog")];
    assert "do" <= "dog";
    BuildShape(words, "do");
    BuildFindIff(words, "dogs");
  }
}
