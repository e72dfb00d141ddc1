/**
 * The display order of `MainWindow.loadFiles`: the names of the subdirectories,
 * each followed by "/", in the order `listFiles()` returned them, then the names of
 * all other entries, unchanged, in that order.
 */
module Listing {

  /** One child of a folder as `listFiles()` reports it. */
  datatype Entry = Entry(name: string, isDirectory: bool)

  /** How one entry is displayed: a directory's name gets a trailing "/". */
  function Display(e: Entry): (r: string)
  {
    if e.isDirectory then e.name + "/" else e.name
  }

  /** Every entry displayed, in enumeration order. */
  function Displays(es: seq<Entry>): (r: seq<string>)
  {
    seq(|es|, i requires 0 <= i < |es| => Display(es[i]))
  }

  /** The `directories` list once the first loop has visited `es`. */
  function DirectoryNames(es: seq<Entry>): (r: seq<string>)
  {
    if |es| == 0 then []
    else
      var last := es[|es| - 1];
      DirectoryNames(es[..|es| - 1]) + if last.isDirectory then [last.name + "/"] else []
  }

  /** The `files` list once the first loop has visited `es`. */
  function FileNames(es: seq<Entry>): (r: seq<string>)
  {
    if |es| == 0 then []
    else
      var last := es[|es| - 1];
      FileNames(es[..|es| - 1]) + if last.isDirectory then [] else [last.name]
  }

  /** The list model after `loadFiles`: the directories, then the files. */
  function Listed(es: seq<Entry>): (r: seq<string>)
  {
    DirectoryNames(es) + FileNames(es)
  }

  /** Each entry lands in exactly one of the two lists. */
  lemma {:induction false} ListedLength(es: seq<Entry>)
    ensures |DirectoryNames(es)| + |FileNames(es)| == |es|
    ensures |Listed(es)| == |es|
  {
    if |es| > 0 {
      ListedLength(es[..|es| - 1]);
    }
  }

  /** The two lists built from a prefix of the entries are prefixes of the full lists. */
  lemma {:induction false} NamesOfPrefix(es: seq<Entry>, n: nat)
    requires n <= |es|
    ensures DirectoryNames(es[..n]) <= DirectoryNames(es)
    ensures FileNames(es[..n]) <= FileNames(es)
    decreases |es| - n
  {
    if n < |es| {
      NamesOfPrefix(es[..|es| - 1], n);
      assert es[..|es| - 1][..n] == es[..n];
    } else {
      assert es[..n] == es;
    }
  }

  /**
   * Where each entry ends up: the `j`-th entry, if a directory, is shown with "/" after
   * all directories enumerated before it; if not, it is shown unchanged after all
   * directories and after the files enumerated before it.
   */
  lemma ListedPosition(es: seq<Entry>, j: nat)
    requires j < |es|
    ensures es[j].isDirectory ==>
      |DirectoryNames(es[..j])| < |DirectoryNames(es)| &&
      Listed(es)[|DirectoryNames(es[..j])|] == es[j].name + "/"
    ensures !es[j].isDirectory ==>
      |DirectoryNames(es)| + |FileNames(es[..j])| < |Listed(es)| &&
      Listed(es)[|DirectoryNames(es)| + |FileNames(es[..j])|] == es[j].name
  {
    NamesOfPrefix(es, j + 1);
    assert es[..j + 1][..j] == es[..j];
    var ds, fs := DirectoryNames(es[..j + 1]), FileNames(es[..j + 1]);
    if es[j].isDirectory {
      assert ds == DirectoryNames(es[..j]) + [es[j].name + "/"];
      assert DirectoryNames(es)[|DirectoryNames(es[..j])|] == ds[|DirectoryNames(es[..j])|];
    } else {
      assert fs == FileNames(es[..j]) + [es[j].name];
      assert FileNames(es)[|FileNames(es[..j])|] == fs[|FileNames(es[..j])|];
    }
  }

  /** Displaying one more entry appends its display to the displays. */
  lemma DisplaysSnoc(es: seq<Entry>, e: Entry)
    ensures Displays(es + [e]) == Displays(es) + [Display(e)]
  {
    assert forall i :: 0 <= i < |es| ==> (es + [e])[i] == es[i];
  }

  /** Listing one more entry adds exactly its display to the listing. */
  lemma ListedSnoc(es: seq<Entry>, e: Entry)
    ensures multiset(Listed(es + [e])) == multiset(Listed(es)) + multiset{Display(e)}
  {
    var ds, fs := DirectoryNames(es), FileNames(es);
    assert (es + [e])[..|es|] == es;
    if e.isDirectory {
      assert DirectoryNames(es + [e]) == ds + [Display(e)];
      assert FileNames(es + [e]) == fs;
    } else {
      assert DirectoryNames(es + [e]) == ds;
      assert FileNames(es + [e]) == fs + [Display(e)];
    }
  }

  /** The listing holds every displayed entry exactly as often as it is enumerated. */
  lemma {:induction false} ListedIsPermutation(es: seq<Entry>)
    ensures multiset(Listed(es)) == multiset(Displays(es))
  {
    if |es| > 0 {
      var init := es[..|es| - 1];
      var last := es[|es| - 1];
      assert es == init + [last];
      ListedIsPermutation(init);
      ListedSnoc(init, last);
      DisplaysSnoc(init, last);
    }
  }
}
