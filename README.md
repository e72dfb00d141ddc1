# FileManager core in Dafny

FileManager is a small Swing tool for bulk renaming. It lists the entries of one folder. The user types a search text and a replacement text, and the tool shows the names before and after substitution side by side. It can then apply the renames. A second button shows how large each child of the folder is.

This project models the logic behind those two features, taken out of the window class:

- **Listing** (`loadFiles`). Subdirectories come first, each name followed by `/`, then all other entries. Each group keeps the order in which `listFiles()` returned it.
- **Rename planner** (`updateRenaming`), in both versions found in the repository. It builds the map of renames and the index-aligned preview list. `String.contains` and `String.replace` are modelled as functions (`JavaString`).
- **Size statistics** (`getFolderSize`, `getDirectorySizes`). A recursive byte count over a finite tree of file-system nodes, one `Directory(name, size)` record per child, and a stable sort with the largest first.
- **`Directory`**, an immutable (name, size) record.

Layout: one module per component. `Wrappers` holds `Option`. `JavaString`, `Renaming`, `Listing`, `FileTree`, `SizeOrder` and `DirectoryRecord` hold the specification functions and the lemmas. `FileManager.MainWindow` models src/main/java/source/MainWindow.java and `FileManagerV1.MainWindow` models src/source/MainWindow.java. Each is a class with the fields `pathText`, `model` and `model2`. Its methods update those fields in loops, as the Java code does, and are proved against the specification functions. `RenamingExamples` works through concrete cases.

The file system is passed in as data:

- A listing is `Option<seq<Entry>>`. `None` is the `null` that `listFiles()` returns for a path that cannot be listed.
- A tree is a `FileTree.Node`, one of four kinds:
  - `File(name, length)`
  - `Dir(name, children)`
  - `Locked(name)`: a directory whose listing is `null`
  - `Special(name)`: neither a file nor a directory
- The texts the user typed into the two fields are parameters.
- Every `NullPointerException` raised by `Objects.requireNonNull` is modelled as `None`, or as `ok == false`.

The planner can map a name to itself. It does so in three cases:
  - a substitution falls back to the name because the result would be `""` or `"/"`;
  - the replacement equals the search text;
  - in the older version, the search text and the replacement are both empty.
`Renaming.MatchEntry`, `Renaming.EmptySearch` and `RenamingExamples.IdentityEntryExample` state when.

`getFolderSize` skips nothing. It recurses into every child that is not a file. It throws when a folder below the analysed one cannot be listed, and also on any child that is neither a file nor a directory. `FileManager.MainWindow.GetFolderSize` states exactly when the walk completes.

## Model

| member | source | states |
|---|---|---|
| `JavaString.Contains` | src/main/java/source/MainWindow.java:270 | `name.contains(str)`, defined as `indexOf(str) >= 0`; `IndexOfFirst` and `ContainsIff` specify it |
| `JavaString.Replace` | src/main/java/source/MainWindow.java:271 | `name.replace(str, replacement)` for a non-empty target, as a left-to-right scan that substitutes each occurrence and resumes after it; `ReplaceNoMatch`, `ReplaceAtFirst`, `ReplaceIsJoinOfPieces`, `ReplaceLength` and `ReplaceUnchangedIff` specify it |
| `JavaString.IndexOf` | src/main/java/source/MainWindow.java:270 | `indexOf`, on which `contains` rests, returns -1 or an index where the whole target still fits in the string |
| `JavaString.IndexOfFirst` | src/main/java/source/MainWindow.java:270 | `indexOf` returns the first index at which the target occurs, and returns -1 exactly when it occurs nowhere |
| `JavaString.ContainsIff` | src/main/java/source/MainWindow.java:270 | `name.contains(str)` holds exactly when `str` occurs somewhere in `name` |
| `JavaString.Pieces` | src/main/java/source/MainWindow.java:271 | splitting at the leftmost non-overlapping occurrences always yields at least one piece |
| `JavaString.ReplaceNoMatch` | src/main/java/source/MainWindow.java:271 | `replace` returns the string unchanged when the target does not occur in it |
| `JavaString.ReplaceAtFirst` | src/main/java/source/MainWindow.java:271 | `replace` keeps everything before the first occurrence, substitutes that occurrence, then continues after it |
| `JavaString.ReplaceIsJoinOfPieces` | src/main/java/source/MainWindow.java:271 | `replace` equals splitting at every leftmost non-overlapping occurrence and joining the pieces with the replacement: all occurrences are replaced |
| `JavaString.ReplaceSelf` | src/main/java/source/MainWindow.java:271 | replacing the target by itself leaves every string unchanged |
| `JavaString.PiecesRoundTrip` | src/main/java/source/MainWindow.java:271 | joining the pieces with the target gives back the original string |
| `JavaString.PiecesLeftmost` | src/main/java/source/MainWindow.java:271 | the split is leftmost: the last piece holds no occurrence, and the first occurrence in each other piece followed by the target is that separator |
| `JavaString.FirstOccurrenceOfPrefix` | src/main/java/source/MainWindow.java:271 | cutting a string right after its first occurrence keeps that occurrence first |
| `JavaString.ReplaceLength` | src/main/java/source/MainWindow.java:271 | each substitution changes the length by the difference between the replacement's and the target's lengths |
| `JavaString.ReplaceSameLengthChanges` | src/main/java/source/MainWindow.java:271 | a replacement of the target's length that differs from the target changes any string that contains the target |
| `JavaString.ReplaceOtherLengthChanges` | src/main/java/source/MainWindow.java:271 | a replacement of another length changes the length of any string that contains the target |
| `JavaString.ReplaceUnchangedIff` | src/main/java/source/MainWindow.java:271 | `replace` leaves a name unchanged if and only if the target is absent or equals the replacement |
| `Renaming.Matches` | src/main/java/source/MainWindow.java:270 | the guard `name.contains(str) && str.length() > 0` of the substitution branch |
| `Renaming.Substituted` | src/main/java/source/MainWindow.java:271-275 | the substituted name, with the fallback to the name when the result is empty or `"/"`; `MatchEntry` specifies it |
| `Renaming.Entry` | src/main/java/source/MainWindow.java:270-283 | what one iteration puts into the map for a name, if anything, in the current (:278-283) or the older (src/source/MainWindow.java:130-133) version; `MatchEntry`, `NoMatchNoEntry`, `EmptySearch` and `VariantsDiffer` specify it |
| `Renaming.Shown` | src/main/java/source/MainWindow.java:270-285 | what one iteration appends to `model2` for a name; `ShownIsEntryOrName` ties it to `Entry` |
| `Renaming.Plan` | src/main/java/source/MainWindow.java:265-287 | the `renames` map after the loop, later puts overwriting earlier ones; specified by `PlanKeys`, `MatchEntry`, `NoMatchNoEntry` and `EmptySearch` |
| `Renaming.Preview` | src/main/java/source/MainWindow.java:264-286 | `model2` after the loop; specified by `PreviewAligned` and `ShownIsEntryOrName` |
| `Renaming.PlanStep` | src/main/java/source/MainWindow.java:268-286 | one more loop iteration adds the entry for the next name to the map, or leaves the map as it was |
| `Renaming.PreviewStep` | src/main/java/source/MainWindow.java:268-286 | one more loop iteration appends exactly the shown name of the next listed name to the preview |
| `Renaming.PlanKeys` | src/main/java/source/MainWindow.java:264-287 | the map's keys are exactly the listed names that get an entry, and each key maps to its entry; every key is a listed name |
| `Renaming.ShownIsEntryOrName` | src/main/java/source/MainWindow.java:270-285 | each name is shown as its entry when it has one and unchanged otherwise, in both versions |
| `Renaming.PreviewAligned` | src/main/java/source/MainWindow.java:264-286 | the preview has one element per listed name, in the same order; position `i` shows the map's value for `names[i]` when the map has one, else `names[i]` |
| `Renaming.NoMatchNoEntry` | src/main/java/source/MainWindow.java:270-285 | a non-empty search text absent from a name adds no entry for it, and the preview shows the name unchanged |
| `Renaming.MatchEntry` | src/main/java/source/MainWindow.java:270-277 | a listed name containing the non-empty search text maps to the all-occurrence substitution, or to itself when that is `""` or `"/"`; the value is never empty; it is `"/"` only for the name `"/"`; it equals the name exactly when the replacement equals the search text or the fallback applied |
| `Renaming.EmptySearch` | src/main/java/source/MainWindow.java:278-283 | with an empty search text every listed name maps to `replacement + name`; in the current version the map is empty when the replacement is empty too |
| `Renaming.VariantsDiffer` | src/source/MainWindow.java:130-133 | the older planner plans the same renames as the current one unless both texts are empty; then it maps every listed name to itself while the current one plans nothing |
| `RenamingExamples.ReplaceExamples` | src/main/java/source/MainWindow.java:271 | `"banana"` with `"an"` replaced by `"AN"` gives `"bANANa"`; `"aaa"` with `"aa"` replaced by `"b"` gives `"ba"` (occurrences do not overlap) |
| `RenamingExamples.SubstitutionExample` | src/main/java/source/MainWindow.java:268-286 | searching `"a"` and replacing it by `"x"` over the names `"a.txt"`, `"ab.txt"` and `"b.txt"` gives the plan `{"a.txt" → "x.txt", "ab.txt" → "xb.txt"}` and the preview `["x.txt", "xb.txt", "b.txt"]` |
| `RenamingExamples.PrefixExample` | src/main/java/source/MainWindow.java:278-283 | an empty search text with replacement `"pre_"` maps `"x"` to `"pre_x"` and `"y"` to `"pre_y"` |
| `RenamingExamples.IdentityEntryExample` | src/main/java/source/MainWindow.java:272-276 | searching `"a"` with an empty replacement maps `"a"` to itself; searching `"dir"` maps `"dir/"` to itself because `"/"` is refused |
| `Listing.Display` | src/main/java/source/MainWindow.java:246-250 | how one entry is displayed: a directory's name with `"/"` appended, any other name unchanged |
| `Listing.DirectoryNames` | src/main/java/source/MainWindow.java:242-251 | the `directories` list after the first loop; `NamesOfPrefix` and `ListedPosition` specify it |
| `Listing.FileNames` | src/main/java/source/MainWindow.java:243-251 | the `files` list after the first loop; `NamesOfPrefix` and `ListedPosition` specify it |
| `Listing.Listed` | src/main/java/source/MainWindow.java:240-257 | `model` after `loadFiles`; specified by `ListedLength`, `ListedPosition` and `ListedIsPermutation` |
| `Listing.ListedLength` | src/main/java/source/MainWindow.java:245-257 | every entry goes into exactly one of the two lists, so the listing has one name per entry |
| `Listing.NamesOfPrefix` | src/main/java/source/MainWindow.java:245-251 | the two lists built from a prefix of the entries are prefixes of the full lists |
| `Listing.ListedPosition` | src/main/java/source/MainWindow.java:242-257 | a directory is shown with `"/"` right after the directories enumerated before it; any other entry is shown unchanged after all directories and after the other entries enumerated before it |
| `Listing.ListedSnoc` | src/main/java/source/MainWindow.java:245-257 | enumerating one more entry adds exactly its display to the listing |
| `Listing.ListedIsPermutation` | src/main/java/source/MainWindow.java:245-257 | the listing holds every displayed entry exactly as many times as it is enumerated |
| `FileManager.MainWindow.constructor` | src/main/java/source/MainWindow.java:32-38 | both list models start empty |
| `FileManager.MainWindow.LoadFiles` | src/main/java/source/MainWindow.java:237-258 | shows the path; `model` becomes the directories with `"/"` and then the files, each group in enumeration order; a `null` listing leaves `model` empty and fails; the preview is not touched |
| `FileManager.MainWindow.UpdateRenaming` | src/main/java/source/MainWindow.java:263-288 | the preview becomes `Preview(model, ...)`, the returned map is the current version's `Plan`, and `model` and the path stay unchanged |
| `FileManager.MainWindow.GetFolderSize` | src/main/java/source/MainWindow.java:190-199 | completes exactly when the folder and every non-file below it can be listed, and then returns the total number of bytes in all files anywhere below it |
| `FileManager.MainWindow.GetDirectorySizes` | src/main/java/source/MainWindow.java:157-182 | completes exactly when the folder can be listed and every child is a file, a skipped node or a walkable directory; it then returns the child records sorted by `SortBySize`, non-increasing by size, a permutation of the records, with the records of each size in listing order |
| `FileManagerV1.MainWindow.constructor` | src/source/MainWindow.java:22-32 | the path field shows the absolute path of `new File("C:")`, `model` holds that folder's listing, and `model2` its preview for the initial texts |
| `FileManagerV1.MainWindow.LoadFiles` | src/source/MainWindow.java:89-110 | the same listing order and `null` behaviour as the current version |
| `FileManagerV1.MainWindow.UpdateRenaming` | src/source/MainWindow.java:115-138 | the preview is the same as in the current version; the returned map is the older version's `Plan`, whose empty-search branch puts an entry unconditionally |
| `FileTree.Walkable` | src/main/java/source/MainWindow.java:190-199 | the trees on which `getFolderSize` completes: a listable folder whose children are files or walkable folders; `FileManager.MainWindow.GetFolderSize` states it |
| `FileTree.Total` | src/main/java/source/MainWindow.java:190-199 | the value `getFolderSize` returns; `TotalIsSumOfFiles` specifies it |
| `FileTree.Record` | src/main/java/source/MainWindow.java:162-166 | the `Directory` record built for a file (its length) or a directory (its folder size) |
| `FileTree.ChildRecords` | src/main/java/source/MainWindow.java:159-170 | `fList` after the loop; specified by `ChildRecordsMembers`, `ChildRecordsCount` and `ChildRecordPosition` |
| `FileTree.SumLengthsAppend` | src/main/java/source/MainWindow.java:191-197 | the total length of two groups of files is the sum of their totals |
| `FileTree.TotalIsSumOfFiles` | src/main/java/source/MainWindow.java:190-199 | the size of a node is the sum of the lengths of all files anywhere below it, collected by a depth-first walk, and that walk meets only files |
| `FileTree.ForestTotalIsSumOfFiles` | src/main/java/source/MainWindow.java:192-197 | the same for all the children of one folder |
| `FileTree.ChildRecordsMembers` | src/main/java/source/MainWindow.java:161-170 | a record is built exactly for each child that is a file or a directory, with that child's size; no record has a negative size |
| `FileTree.ChildRecordsCount` | src/main/java/source/MainWindow.java:161-170 | exactly one record per child, except for the children that are neither files nor directories |
| `FileTree.ChildRecordsOfPrefix` | src/main/java/source/MainWindow.java:161-170 | the records built from a prefix of the children are a prefix of all the records |
| `FileTree.ChildRecordPosition` | src/main/java/source/MainWindow.java:161-170 | the record of a file or directory child comes right after the records of the children listed before it |
| `SizeOrder.InsertBySize` | src/main/java/source/MainWindow.java:172-179 | one insertion step, with the comparator of :174-176 (larger size first); specified by `InsertBySizeMultiset`, `InsertBySizeSorted` and `InsertBySizeWithSize` |
| `SizeOrder.SortBySize` | src/main/java/source/MainWindow.java:172-179 | `Collections.sort(fList, new CustomComparator())` on the list value; specified by `SortBySizeCorrect` and `StableSortIsUnique` |
| `SizeOrder.InsertBySizeMultiset` | src/main/java/source/MainWindow.java:179 | insertion adds exactly the inserted record |
| `SizeOrder.ConsSorted` | src/main/java/source/MainWindow.java:172-179 | a record no smaller than every record of a sorted list can go in front of it |
| `SizeOrder.InsertBySizeBound` | src/main/java/source/MainWindow.java:179 | insertion introduces no size above a common bound |
| `SizeOrder.InsertBySizeSorted` | src/main/java/source/MainWindow.java:172-179 | inserting into a list sorted largest first keeps it sorted |
| `SizeOrder.WithSizeCons` | src/main/java/source/MainWindow.java:179 | the records of one size in a list with one record in front |
| `SizeOrder.InsertBySizeWithSize` | src/main/java/source/MainWindow.java:179 | insertion puts the new record before every record of its size already in the list |
| `SizeOrder.SortBySizeCorrect` | src/main/java/source/MainWindow.java:172-179 | the sorted list is non-increasing by size, a permutation of the input, and keeps records of equal size in input order |
| `SizeOrder.WithSizeNonEmpty` | src/main/java/source/MainWindow.java:179 | the size of every record in a list has at least one record of that size in the list |
| `SizeOrder.WithSizeMember` | src/main/java/source/MainWindow.java:179 | every size with records reported is the size of some record of the list |
| `SizeOrder.WithSizeHead` | src/main/java/source/MainWindow.java:179 | a list's first record comes first among the records of its size |
| `SizeOrder.HeadDominates` | src/main/java/source/MainWindow.java:172-179 | the first record of a sorted list is at least as large as the first record of any list with the same records of each size |
| `SizeOrder.HeadsAgree` | src/main/java/source/MainWindow.java:172-179 | two sorted lists with the same records of each size start with the same record |
| `SizeOrder.TailsAgree` | src/main/java/source/MainWindow.java:179 | dropping a common first record keeps two lists agreeing on the records of each size |
| `SizeOrder.StableSortIsUnique` | src/main/java/source/MainWindow.java:172-179 | any list that is sorted largest first and keeps equal-size records in input order equals `SortBySize`, so the insertion sort gives the same result as Java's stable `Collections.sort` |
| `DirectoryRecord.Directory.GetName` | src/main/java/source/Directory.java:13-15 | `getName()`; `GettersReturnConstructorArguments` specifies it |
| `DirectoryRecord.Directory.GetSize` | src/main/java/source/Directory.java:17-19 | `getSize()`; `GettersReturnConstructorArguments` specifies it |
| `DirectoryRecord.GettersReturnConstructorArguments` | src/main/java/source/Directory.java:8-19 | `getName()` and `getSize()` return the name and size passed to the constructor |
| `DirectoryRecord.GettersDetermineRecord` | src/main/java/source/Directory.java:5-19 | two records are equal exactly when their getters agree; a record is an immutable value |

## Left out

- Size formatting in the statistics handler (src/main/java/source/MainWindow.java:112-148). It uses `double`, `Math.round` and `Double.toString`, which is floating point.
- Rename execution (src/main/java/source/MainWindow.java:40-81, src/source/MainWindow.java:34-54). It consists of `File.renameTo`, backslash path concatenation, the error list and console output, which is file-system I/O. Its guards and dialogs are left out with it.
- GUI scaffolding: listeners, scroll-bar synchronisation, the generated form code (src/main/java/source/MainWindow.java:290-438), resource bundles, look and feel, and `main`. The open-button handler only calls `loadFiles` and then `updateRenaming`, which are both modelled.
- The console message printed for a child that is neither a file nor a directory (src/main/java/source/MainWindow.java:168). The model skips the child, as the code does.
- Real file-system calls (`listFiles`, `isFile`, `isDirectory`, `length`, `getAbsolutePath`) are inputs: an optional list of entries, a finite `Node` tree, and a path string. Symbolic-link cycles cannot be expressed in a finite tree.
- The iteration order of the `HashMap` of renames. The plan is a Dafny `map`. A repeated name overwrites its earlier entry with the same value.
- Strings are sequences of `char`, and a Dafny `char` is a Unicode scalar value, not a UTF-16 code unit. On well-formed text, `contains` and `replace` give the same result whether they scan scalar values or code units: an occurrence of well-formed text never starts or ends inside a surrogate pair. The core compares lengths only with 0 (src/main/java/source/MainWindow.java:270, :273, :280), and that comparison does not depend on the unit. Names or search texts that contain an unpaired surrogate cannot be represented and are not modelled.
- `FileManager.MainWindow.GetFolderSize`: sizes are unbounded naturals. The 64-bit wrap-around of Java's `long` above 2^63 - 1 bytes is not modelled.
- `FileManager.MainWindow.GetDirectorySizes`: `Collections.sort` sorts the `ArrayList` in place. The model sorts the list value with an insertion sort instead, and `SizeOrder.StableSortIsUnique` shows that this gives the same order as any stable sort.
- `JavaString.Replace` models `String.replace` only for a non-empty target, the only way the core calls it. Java's behaviour for an empty target is not modelled.
- `FileManagerV1.MainWindow.constructor`: the older constructor lists the drive "C:". The model takes that listing as a plain sequence. If the listing were `null`, the Java constructor would throw and no window would exist; the model does not cover that case. The initial contents of the two text fields come from the form, which is not part of this model, so they are parameters.
