/**
 * `MainWindow` of the current version (src/main/java/source): the two list models
 * behind the "files" and "preview" lists, the folder loader, the rename planner and
 * the size statistics. Widgets, dialogs and listeners are outside the model; the
 * texts the user typed are passed in as parameters, and the file system is passed
 * in as data.
 */
module FileManager {
  import opened Wrappers
  import opened JavaString
  import opened Listing
  import opened Renaming
  import opened DirectoryRecord
  import opened FileTree
  import opened SizeOrder

  class MainWindow {
    /** The text of `pathTextField`. */
    var pathText: string
    /** `model`: the names shown in the list of current names. */
    var model: seq<string>
    /** `model2`: the names shown in the preview list. */
    var model2: seq<string>

    /** Both list models start empty. */
    constructor ()
      ensures pathText == [] && model == [] && model2 == []
    {
      pathText := [];
      model := [];
      model2 := [];
    }

    /**
     * `loadFiles(folder)`: shows the folder's path, then refills `model` with its
     * subdirectories (suffixed "/") and then its other entries, each group in the order
     * `listFiles()` returned them. `listing` is that result; `None` is the `null`
     * returned for a path that cannot be listed, on which `Objects.requireNonNull`
     * throws after `model` has been cleared (`ok` is then false).
     */
    method LoadFiles(absolutePath: string, listing: Option<seq<Entry>>) returns (ok: bool)
      modifies this
      ensures pathText == absolutePath
      ensures ok <==> listing.Some?
      ensures model == if listing.Some? then Listed(listing.value) else []
      ensures model2 == old(model2)
    {
      pathText := absolutePath;
      model := [];
      if listing.None? {
        return false;
      }
      var files := listing.value;
      var directories: seq<string> := [];
      var fileNames: seq<string> := [];
      for i := 0 to |files|
        invariant directories == DirectoryNames(files[..i])
        invariant fileNames == FileNames(files[..i])
      {
        assert files[..i + 1][..i] == files[..i];
        if files[i].isDirectory {
          directories := directories + [files[i].name + "/"];
        } else {
          fileNames := fileNames + [files[i].name];
        }
      }
      assert files[..|files|] == files;
      for i := 0 to |directories|
        invariant model == directories[..i]
        invariant pathText == absolutePath && model2 == old(model2)
      {
        model := model + [directories[i]];
      }
      for i := 0 to |fileNames|
        invariant model == directories + fileNames[..i]
        invariant pathText == absolutePath && model2 == old(model2)
      {
        model := model + [fileNames[i]];
      }
      assert fileNames[..|fileNames|] == fileNames;
      ok := true;
    }

    /**
     * `updateRenaming()`: refills the preview `model2` from `model` and returns the map
     * of renames, for the search text `str` and the replacement text `replacement`.
     */
    method UpdateRenaming(str: string, replacement: string) returns (renames: map<string, string>)
      modifies this
      ensures model == old(model) && pathText == old(pathText)
      ensures model2 == Preview(model, str, replacement)
      ensures renames == Plan(Current, model, str, replacement)
    {
      model2 := [];
      renames := map[];
      for i := 0 to |model|
        invariant model == old(model) && pathText == old(pathText)
        invariant model2 == Preview(model[..i], str, replacement)
        invariant renames == Plan(Current, model[..i], str, replacement)
      {
        var name := model[i];
        PlanStep(Current, model, str, replacement, i);
        PreviewStep(model, str, replacement, i);
        if Contains(name, str) && |str| > 0 {
          var tmp := Replace(name, str, replacement);
          // prevent an empty name
          if |tmp| <= 0 {
            tmp := name;
          }
          // prevent "/" as a name
          if tmp == "/" {
            tmp := name;
          }
          renames := renames[name := tmp];
          name := tmp;
        } else if |str| == 0 {
          var tmp := replacement + name;
          if |replacement| > 0 {
            renames := renames[name := tmp];
          }
          name := tmp;
        }
        model2 := model2 + [name];
      }
      assert model[..|model|] == model;
    }

    /**
     * `getFolderSize(directory)`: lists `directory` and adds up, child by child, the
     * length of each file and the recursively computed size of everything else.
     * `None` is the NullPointerException that `Objects.requireNonNull` throws when some
     * listing on the way returns `null`; otherwise the result is the number of bytes
     * in all files anywhere below `directory`.
     */
    static method GetFolderSize(directory: Node) returns (r: Option<nat>)
      ensures r.Some? <==> Walkable(directory)
      ensures r.Some? ==> r.value == Total(directory)
      decreases directory
    {
      if !directory.Dir? {
        return None;
      }
      var files := directory.children;
      var length: nat := 0;
      for i := 0 to |files|
        invariant length == ForestTotal(files[..i])
        invariant forall k :: 0 <= k < i ==> files[k].File? || Walkable(files[k])
      {
        var file := files[i];
        assert files[..i + 1][..i] == files[..i];
        if file.File? {
          length := length + file.length;
        } else {
          var sub := GetFolderSize(file);
          if sub.None? {
            return None;
          }
          length := length + sub.value;
        }
      }
      assert files[..|files|] == files;
      r := Some(length);
    }

    /**
     * `getDirectorySizes(path)`: one `Directory` record per child of `directory` that is
     * a file (its length) or a directory (its folder size), other children skipped, then
     * sorted by size, largest first, records of equal size in listing order.
     * `None` is the NullPointerException thrown when `directory` or a directory below it
     * cannot be listed.
     */
    static method GetDirectorySizes(directory: Node) returns (r: Option<seq<Directory>>)
      ensures r.Some? <==> directory.Dir? && forall c :: c in directory.children ==> Sizable(c)
      ensures r.Some? ==> r.value == SortBySize(ChildRecords(directory.children))
      ensures r.Some? ==> NonIncreasing(r.value)
      ensures r.Some? ==> multiset(r.value) == multiset(ChildRecords(directory.children))
      ensures r.Some? ==> forall k :: WithSize(r.value, k) == WithSize(ChildRecords(directory.children), k)
    {
      if !directory.Dir? {
        return None;
      }
      var files := directory.children;
      var fList: seq<Directory> := [];
      for i := 0 to |files|
        invariant fList == ChildRecords(files[..i])
        invariant forall k :: 0 <= k < i ==> Sizable(files[k])
      {
        var file := files[i];
        assert files[..i + 1][..i] == files[..i];
        if file.File? {
          fList := fList + [Directory(file.name, file.length)];
        } else if IsDirectory(file) {
          var directorySize := GetFolderSize(file);
          if directorySize.None? {
            assert file in directory.children && !Sizable(file);
            return None;
          }
          fList := fList + [Directory(file.name, directorySize.value)];
        }
        // any other kind of node is only reported on the console
      }
      assert files[..|files|] == files;
      SortBySizeCorrect(fList);
      r := Some(SortBySize(fList));
    }
  }
}
