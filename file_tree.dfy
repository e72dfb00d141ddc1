/**
 * The part of the file system that the size statistics read, as a finite tree of
 * what `java.io.File` reports for each path.
 */
module FileTree {
  import opened DirectoryRecord

  /** One path, classified the way `isFile()`, `isDirectory()` and `listFiles()` see it. */
  datatype Node =
    | File(name: string, length: nat)         // isFile(); length() bytes
    | Dir(name: string, children: seq<Node>)  // isDirectory(); listFiles() returns the children
    | Locked(name: string)                    // isDirectory(), but listFiles() returns null
    | Special(name: string)                   // neither a file nor a directory; listFiles() returns null

  /** `isDirectory()` */
  predicate IsDirectory(n: Node)
  {
    n.Dir? || n.Locked?
  }

  /**
   * The recursive size walk completes on `n`: `n` can be listed, and so can every
   * node below it that is not a file.
   */
  predicate Walkable(n: Node)
    decreases n
  {
    n.Dir? && forall i :: 0 <= i < |n.children| ==> n.children[i].File? || Walkable(n.children[i])
  }

  /** The number of bytes in the files at or anywhere below `n`. */
  function Total(n: Node): (r: nat)
    decreases n
  {
    match n
    case File(_, len) => len
    case Dir(_, cs) => ForestTotal(cs)
    case _ => 0
  }

  /** The number of bytes in the files at or anywhere below the nodes `cs`. */
  function ForestTotal(cs: seq<Node>): (r: nat)
    decreases cs
  {
    if cs == [] then 0 else ForestTotal(cs[..|cs| - 1]) + Total(cs[|cs| - 1])
  }

  /** Every file at or anywhere below `n`, in the order of a depth-first walk. */
  function FilesBelow(n: Node): (r: seq<Node>)
    decreases n
  {
    match n
    case File(_, _) => [n]
    case Dir(_, cs) => ForestFiles(cs)
    case _ => []
  }

  /** Every file at or anywhere below the nodes `cs`, in order. */
  function ForestFiles(cs: seq<Node>): (r: seq<Node>)
    decreases cs
  {
    if cs == [] then [] else ForestFiles(cs[..|cs| - 1]) + FilesBelow(cs[|cs| - 1])
  }

  /** The sum of the lengths of the files in `fs`. */
  function SumLengths(fs: seq<Node>): (r: nat)
  {
    if fs == [] then 0
    else SumLengths(fs[..|fs| - 1]) + if fs[|fs| - 1].File? then fs[|fs| - 1].length else 0
  }

  lemma {:induction false} SumLengthsAppend(a: seq<Node>, b: seq<Node>)
    ensures SumLengths(a + b) == SumLengths(a) + SumLengths(b)
    decreases |b|
  {
    if b != [] {
      SumLengthsAppend(a, b[..|b| - 1]);
      assert (a + b)[..|a + b| - 1] == a + b[..|b| - 1];
      assert (a + b)[|a + b| - 1] == b[|b| - 1];
    } else {
      assert a + b == a;
    }
  }

  /**
   * The size of a node is the sum of the lengths of all files anywhere below it,
   * and the walk meets nothing but files.
   */
  lemma {:induction false} TotalIsSumOfFiles(n: Node)
    ensures Total(n) == SumLengths(FilesBelow(n))
    ensures forall f :: f in FilesBelow(n) ==> f.File?
    decreases n
  {
    match n
    case File(_, _) =>
      assert FilesBelow(n) == [n] && [n][..0] == [];
    case Dir(_, cs) =>
      ForestTotalIsSumOfFiles(cs);
    case _ =>
  }

  /** `TotalIsSumOfFiles` for the nodes of one folder. */
  lemma {:induction false} ForestTotalIsSumOfFiles(cs: seq<Node>)
    ensures ForestTotal(cs) == SumLengths(ForestFiles(cs))
    ensures forall f :: f in ForestFiles(cs) ==> f.File?
    decreases cs
  {
    if cs != [] {
      var init, last := cs[..|cs| - 1], cs[|cs| - 1];
      ForestTotalIsSumOfFiles(init);
      TotalIsSumOfFiles(last);
      SumLengthsAppend(ForestFiles(init), FilesBelow(last));
    }
  }

  /** The `Directory` record built for one child of the analysed folder. */
  function Record(c: Node): (r: Directory)
  {
    Directory(c.name, if c.File? then c.length else Total(c))
  }

  /**
   * The records built once the loop of `getDirectorySizes` has visited `cs`: one per
   * file or directory, in listing order; other kinds of node are skipped.
   */
  function ChildRecords(cs: seq<Node>): (r: seq<Directory>)
  {
    if cs == [] then []
    else
      var last := cs[|cs| - 1];
      ChildRecords(cs[..|cs| - 1]) + if last.Special? then [] else [Record(last)]
  }

  /** A record is built exactly for the children that are files or directories. */
  lemma {:induction false} ChildRecordsMembers(cs: seq<Node>)
    ensures forall d :: d in ChildRecords(cs) <==> exists c :: c in cs && !c.Special? && d == Record(c)
    ensures forall d :: d in ChildRecords(cs) ==> d.size >= 0
  {
    if cs != [] {
      var init := cs[..|cs| - 1];
      ChildRecordsMembers(init);
      assert cs == init + [cs[|cs| - 1]];
      assert forall c :: c in cs <==> c in init || c == cs[|cs| - 1];
    }
  }

  /** The number of children that are neither files nor directories. */
  function SkippedCount(cs: seq<Node>): (r: nat)
  {
    if cs == [] then 0
    else SkippedCount(cs[..|cs| - 1]) + if cs[|cs| - 1].Special? then 1 else 0
  }

  /** One record per child, except for the skipped ones. */
  lemma {:induction false} ChildRecordsCount(cs: seq<Node>)
    ensures |ChildRecords(cs)| + SkippedCount(cs) == |cs|
  {
    if cs != [] {
      ChildRecordsCount(cs[..|cs| - 1]);
    }
  }

  /** The records built from a prefix of the children are a prefix of all the records. */
  lemma {:induction false} ChildRecordsOfPrefix(cs: seq<Node>, n: nat)
    requires n <= |cs|
    ensures ChildRecords(cs[..n]) <= ChildRecords(cs)
    decreases |cs| - n
  {
    if n < |cs| {
      ChildRecordsOfPrefix(cs[..|cs| - 1], n);
      assert cs[..|cs| - 1][..n] == cs[..n];
    } else {
      assert cs[..n] == cs;
    }
  }

  /**
   * Where each child's record ends up: the record of the `j`-th child, if that child
   * is not skipped, comes right after the records of the children before it.
   */
  lemma ChildRecordPosition(cs: seq<Node>, j: nat)
    requires j < |cs| && !cs[j].Special?
    ensures |ChildRecords(cs[..j])| < |ChildRecords(cs)|
    ensures ChildRecords(cs)[|ChildRecords(cs[..j])|] == Record(cs[j])
  {
    ChildRecordsOfPrefix(cs, j + 1);
    assert cs[..j + 1][..j] == cs[..j];
    var rs := ChildRecords(cs[..j + 1]);
    assert rs == ChildRecords(cs[..j]) + [Record(cs[j])];
    assert ChildRecords(cs)[|ChildRecords(cs[..j])|] == rs[|ChildRecords(cs[..j])|];
  }

  /** A child for which `getDirectorySizes` completes: a file, a skipped node, or a walkable directory. */
  predicate Sizable(c: Node)
  {
    c.File? || c.Special? || Walkable(c)
  }
}
