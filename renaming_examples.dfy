/** Worked cases of the rename planner. */
module RenamingExamples {
  import opened Wrappers
  import opened JavaString
  import opened Renaming

  /** `replace` substitutes every occurrence, scanning from the left without overlap. */
  lemma ReplaceExamples()
    ensures Replace("banana", "an", "AN") == "bANANa"
    ensures Replace("aaa", "aa", "b") == "ba"
  {
  }

  /**
   * Searching "a" and replacing it by "x" in the names "a.txt", "ab.txt" and "b.txt":
   * the first two get an entry with every "a" replaced, the third gets none.
   */
  lemma SubstitutionExample()
    ensures Plan(Current, ["a.txt", "ab.txt", "b.txt"], "a", "x") ==
      map["a.txt" := "x.txt", "ab.txt" := "xb.txt"]
    ensures Preview(["a.txt", "ab.txt", "b.txt"], "a", "x") == ["x.txt", "xb.txt", "b.txt"]
  {
    var names := ["a.txt", "ab.txt", "b.txt"];
    assert Replace("a.txt", "a", "x") == "x.txt";
    assert Replace("ab.txt", "a", "x") == "xb.txt";
    assert !Contains("b.txt", "a");
    assert Entry(Current, "a.txt", "a", "x") == Some("x.txt");
    assert Entry(Current, "ab.txt", "a", "x") == Some("xb.txt");
    assert Entry(Current, "b.txt", "a", "x") == None;
    assert names[..0] == [] && names[..1] == ["a.txt"] && names[..2] == ["a.txt", "ab.txt"];
    assert names[..3] == names;
    PlanStep(Current, names, "a", "x", 0);
    PlanStep(Current, names, "a", "x", 1);
    PlanStep(Current, names, "a", "x", 2);
  }

  /** An empty search string prefixes every name with the replacement. */
  lemma PrefixExample()
    ensures Plan(Current, ["x", "y"], "", "pre_") == map["x" := "pre_x", "y" := "pre_y"]
  {
    EmptySearch(Current, ["x", "y"], "pre_");
    assert forall k :: k in ["x", "y"] <==> k == "x" || k == "y";
    assert "pre_" + "x" == "pre_x" && "pre_" + "y" == "pre_y";
  }

  /**
   * Identity entries occur: a substitution that would leave an empty name or "/" falls
   * back to the name itself, and the pair is still put into the map.
   */
  lemma IdentityEntryExample()
    ensures Plan(Current, ["a", "dir/"], "a", "") == map["a" := "a"]
    ensures Plan(Current, ["dir/"], "dir", "") == map["dir/" := "dir/"]
  {
    assert Replace("a", "a", "") == "";
    assert !Contains("dir/", "a");
    assert Replace("dir/", "dir", "") == "/";
  }
}
