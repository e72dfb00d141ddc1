/**
 * `MainWindow` of the older version (src/source): the same folder loader, and a
 * rename planner that also puts an entry for every name when the search text is
 * empty, even when the replacement is empty too.
 */
module FileManagerV1 {
  import opened Wrappers
  import opened JavaString
  import opened Listing
  import opened Renaming

  class MainWindow {
    /** The text of `pathTextField`. */
    var pathText: string
    /** `model`: the names shown in the list of current names. */
    var model: seq<string>
    /** `model2`: the names shown in the preview list. */
    var model2: seq<string>

    /**
     * The constructor fills the window at once: it loads the folder `new File("C:")`,
     * whose absolute path is `absolutePath` and whose listing is `listing`, and runs the planner with the initial
     * search text `str` and replacement text `replacement`.
     */
    constructor (absolutePath: string, listing: seq<Entry>, str: string, replacement: string)
      ensures pathText == absolutePath
      ensures model == Listed(listing)
      ensures model2 == Preview(model, str, replacement)
    {
      pathText := [];
      model := [];
      model2 := [];
      new;
      var ok := LoadFiles(absolutePath, Some(listing));
      var renames := UpdateRenaming(str, replacement);
    }

    /**
     * `loadFiles(folder)`: shows the folder's path, then refills `model` with its
     * subdirectories (suffixed "/") and then its other entries, each group in
     * enumeration order; `None` is a `null` listing, on which the method throws
     * after clearing `model`.
     */
    method LoadFiles(absolutePath: string, listing: Option<seq<Entry>>) returns (ok: bool)
      modifies this
      ensures pathText == absolutePath
      ensures ok <==> listing.Some?
      ensures model == if listing.Some? then Listed(listing.value) else []
      ensures model2 == old(model2)
    {
      pathText := absolutePath;
      model := [];
      if listing.None? {
        return false;
      }
      var files := listing.value;
      var directories: seq<string> := [];
      var fileNames: seq<string> := [];
      for i := 0 to |files|
        invariant directories == DirectoryNames(files[..i])
        invariant fileNames == FileNames(files[..i])
      {
        assert files[..i + 1][..i] == files[..i];
        if files[i].isDirectory {
          directories := directories + [files[i].name + "/"];
        } else {
          fileNames := fileNames + [files[i].name];
        }
      }
      assert files[..|files|] == files;
      for i := 0 to |directories|
        invariant model == directories[..i]
        invariant pathText == absolutePath && model2 == old(model2)
      {
        model := model + [directories[i]];
      }
      for i := 0 to |fileNames|
        invariant model == directories + fileNames[..i]
        invariant pathText == absolutePath && model2 == old(model2)
      {
        model := model + [fileNames[i]];
      }
      assert fileNames[..|fileNames|] == fileNames;
      ok := true;
    }

    /**
     * `updateRenaming()`: refills the preview `model2` from `model` and returns the map
     * of renames; the empty-search branch puts `replacement + name` unconditionally.
     */
    method UpdateRenaming(str: string, replacement: string) returns (renames: map<string, string>)
      modifies this
      ensures model == old(model) && pathText == old(pathText)
      ensures model2 == Preview(model, str, replacement)
      ensures renames == Plan(Legacy, model, str, replacement)
    {
      model2 := [];
      renames := map[];
      for i := 0 to |model|
        invariant model == old(model) && pathText == old(pathText)
        invariant model2 == Preview(model[..i], str, replacement)
        invariant renames == Plan(Legacy, model[..i], str, replacement)
      {
        var name := model[i];
        PlanStep(Legacy, model, str, replacement, i);
        PreviewStep(model, str, replacement, i);
        if Contains(name, str) && |str| > 0 {
          var tmp := Replace(name, str, replacement);
          // prevent an empty name
          if |tmp| <= 0 {
            tmp := name;
          }
          // prevent "/" as a name
          if tmp == "/" {
            tmp := name;
          }
          renames := renames[name := tmp];
          name := tmp;
        } else if |str| == 0 {
          var tmp := replacement + name;
          renames := renames[name := tmp];
          name := tmp;
        }
        model2 := model2 + [name];
      }
      assert model[..|model|] == model;
    }
  }
}
