/**
 * The rename planner of `MainWindow.updateRenaming`: for every listed name it
 * decides what (if anything) goes into the map of renames and what the preview
 * list shows at the same position.
 */
module Renaming {
  import opened Wrappers
  import opened JavaString

  /** The two versions of `updateRenaming` in the repository. */
  datatype Variant =
    | Current  // src/main/java: an empty search string adds an entry only for a non-empty replacement
    | Legacy   // src/source: an empty search string always adds an entry

  /** The substitution branch: the search string is non-empty and occurs in the name. */
  predicate Matches(name: string, str: string)
  {
    Contains(name, str) && |str| > 0
  }

  /** The substituted name, falling back to the name itself instead of "" or "/". */
  function Substituted(name: string, str: string, replacement: string): (r: string)
    requires |str| > 0
  {
    var replaced := Replace(name, str, replacement);
    var nonEmpty := if |replaced| <= 0 then name else replaced;
    if nonEmpty == "/" then name else nonEmpty
  }

  /** What one iteration of the loop puts into the map for `name`, if anything. */
  function Entry(v: Variant, name: string, str: string, replacement: string): (r: Option<string>)
  {
    if Matches(name, str) then Some(Substituted(name, str, replacement))
    else if |str| == 0 then
      if v == Legacy || |replacement| > 0 then Some(replacement + name) else None
    else None
  }

  /** What one iteration of the loop appends to the preview list for `name`. */
  function Shown(name: string, str: string, replacement: string): (r: string)
  {
    if Matches(name, str) then Substituted(name, str, replacement)
    else if |str| == 0 then replacement + name
    else name
  }

  /** The map after the loop has visited `names` in order; a later put of the same key overwrites. */
  function Plan(v: Variant, names: seq<string>, str: string, replacement: string): (r: map<string, string>)
  {
    if |names| == 0 then map[]
    else
      var last := names[|names| - 1];
      var earlier := Plan(v, names[..|names| - 1], str, replacement);
      match Entry(v, last, str, replacement)
      case Some(x) => earlier[last := x]
      case None => earlier
  }

  /** The preview list: position `i` shows what the loop appended for `names[i]`. */
  function Preview(names: seq<string>, str: string, replacement: string): (r: seq<string>)
  {
    seq(|names|, i requires 0 <= i < |names| => Shown(names[i], str, replacement))
  }

  /** One more iteration of the loop: the plan of a longer prefix of the names. */
  lemma PlanStep(v: Variant, names: seq<string>, str: string, replacement: string, i: nat)
    requires i < |names|
    ensures Plan(v, names[..i + 1], str, replacement) ==
      match Entry(v, names[i], str, replacement)
      case Some(x) => Plan(v, names[..i], str, replacement)[names[i] := x]
      case None => Plan(v, names[..i], str, replacement)
  {
    assert names[..i + 1][..i] == names[..i];
  }

  /** One more iteration of the loop: the preview of a longer prefix of the names. */
  lemma PreviewStep(names: seq<string>, str: string, replacement: string, i: nat)
    requires i < |names|
    ensures Preview(names[..i + 1], str, replacement) ==
      Preview(names[..i], str, replacement) + [Shown(names[i], str, replacement)]
  {
  }

  /** The keys of the plan are exactly the listed names that get an entry, each with that entry. */
  lemma {:induction false} PlanKeys(v: Variant, names: seq<string>, str: string, replacement: string)
    ensures forall k :: k in Plan(v, names, str, replacement) <==>
      k in names && Entry(v, k, str, replacement).Some?
    ensures forall k :: k in Plan(v, names, str, replacement) ==>
      Plan(v, names, str, replacement)[k] == Entry(v, k, str, replacement).value
  {
    if |names| > 0 {
      var init := names[..|names| - 1];
      PlanKeys(v, init, str, replacement);
      assert names == init + [names[|names| - 1]];
      forall k ensures k in names <==> k in init || k == names[|names| - 1] {
        if k in names {
          var j :| 0 <= j < |names| && names[j] == k;
          if j < |names| - 1 { assert init[j] == k; }
        }
      }
    }
  }

  /** The preview shows the planned name where there is one, and the name itself otherwise. */
  lemma ShownIsEntryOrName(v: Variant, name: string, str: string, replacement: string)
    ensures Shown(name, str, replacement) ==
      match Entry(v, name, str, replacement)
      case Some(x) => x
      case None => name
  {
    if !Matches(name, str) && |str| == 0 && |replacement| == 0 {
      assert replacement + name == name;
    }
  }

  /**
   * The preview lines up with the listed names: one element per name, in the same order,
   * showing the plan's value for that name when the plan has one and the name otherwise.
   */
  lemma PreviewAligned(v: Variant, names: seq<string>, str: string, replacement: string)
    ensures |Preview(names, str, replacement)| == |names|
    ensures forall i :: 0 <= i < |names| ==>
      Preview(names, str, replacement)[i] ==
        if names[i] in Plan(v, names, str, replacement)
        then Plan(v, names, str, replacement)[names[i]]
        else names[i]
  {
    PlanKeys(v, names, str, replacement);
    forall i | 0 <= i < |names|
      ensures Preview(names, str, replacement)[i] ==
        if names[i] in Plan(v, names, str, replacement)
        then Plan(v, names, str, replacement)[names[i]]
        else names[i]
    {
      ShownIsEntryOrName(v, names[i], str, replacement);
    }
  }

  /** A non-empty search string that does not occur in a name adds no entry and leaves it as shown. */
  lemma NoMatchNoEntry(v: Variant, names: seq<string>, str: string, replacement: string, name: string)
    requires |str| > 0 && !Contains(name, str)
    ensures name !in Plan(v, names, str, replacement)
    ensures Shown(name, str, replacement) == name
  {
    PlanKeys(v, names, str, replacement);
  }

  /**
   * A listed name containing the non-empty search string is mapped to the name with
   * every occurrence replaced, unless that is "" or "/", when it is mapped to itself.
   * The value is never empty, is "/" only for the name "/", and equals the name exactly
   * when the replacement equals the search string or the fallback applied.
   */
  lemma MatchEntry(v: Variant, names: seq<string>, str: string, replacement: string, name: string)
    requires name in names && |str| > 0 && Contains(name, str)
    ensures name in Plan(v, names, str, replacement)
    ensures var replaced := Replace(name, str, replacement);
      Plan(v, names, str, replacement)[name] ==
        if replaced == "" || replaced == "/" then name else replaced
    ensures var replaced := Replace(name, str, replacement);
      replaced != "" && replaced != "/" ==>
        Plan(v, names, str, replacement)[name] == Join(Pieces(name, str), replacement)
    ensures Plan(v, names, str, replacement)[name] != ""
    ensures Plan(v, names, str, replacement)[name] == "/" ==> name == "/"
    ensures var replaced := Replace(name, str, replacement);
      Plan(v, names, str, replacement)[name] == name <==>
        (replacement == str || replaced == "" || replaced == "/")
  {
    PlanKeys(v, names, str, replacement);
    ReplaceIsJoinOfPieces(name, str, replacement);
    ReplaceUnchangedIff(name, str, replacement);
    assert |name| >= |str|;
  }

  /**
   * With an empty search string every listed name is prefixed with the replacement,
   * except that the current version adds nothing when the replacement is empty too.
   */
  lemma EmptySearch(v: Variant, names: seq<string>, replacement: string)
    ensures Plan(v, names, "", replacement) ==
      if v == Current && replacement == "" then map[]
      else map k | k in names :: replacement + k
  {
    PlanKeys(v, names, "", replacement);
    forall k ensures !Matches(k, "") {
    }
  }

  /**
   * The two versions plan the same renames except when both strings are empty: then
   * the current version plans nothing and the older one maps every name to itself.
   */
  lemma VariantsDiffer(names: seq<string>, str: string, replacement: string)
    ensures !(str == "" && replacement == "") ==>
      Plan(Current, names, str, replacement) == Plan(Legacy, names, str, replacement)
    ensures str == "" && replacement == "" ==>
      Plan(Current, names, str, replacement) == map[] &&
      Plan(Legacy, names, str, replacement) == map k | k in names :: k
  {
    PlanKeys(Current, names, str, replacement);
    PlanKeys(Legacy, names, str, replacement);
    if str == "" && replacement == "" {
      EmptySearch(Current, names, replacement);
      EmptySearch(Legacy, names, replacement);
      assert forall k :: replacement + k == k;
    }
  }
}
