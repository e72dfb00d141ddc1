/**
 * `Collections.sort(fList, new CustomComparator())` in `getDirectorySizes`: the
 * comparator `o2.getSize().compareTo(o1.getSize())` orders records by size, largest
 * first, and `Collections.sort` is stable, so records of equal size keep their order.
 * The sort is modelled as an insertion sort; `StableSortIsUnique` shows that every
 * stable sort by this comparator gives the same list.
 */
module SizeOrder {
  import opened DirectoryRecord

  /** Sizes never increase from left to right. */
  predicate NonIncreasing(s: seq<Directory>)
  {
    forall i, j :: 0 <= i < j < |s| ==> s[i].size >= s[j].size
  }

  /** Inserts `x` in front of the first record that is not larger than it. */
  function InsertBySize(x: Directory, s: seq<Directory>): (r: seq<Directory>)
  {
    if s == [] then [x]
    else if x.size >= s[0].size then [x] + s
    else [s[0]] + InsertBySize(x, s[1..])
  }

  /** Sorts by size, largest first, keeping records of equal size in their original order. */
  function SortBySize(s: seq<Directory>): (r: seq<Directory>)
  {
    if s == [] then [] else InsertBySize(s[0], SortBySize(s[1..]))
  }

  /** The records of `s` whose size is `k`, in their order in `s`. */
  function WithSize(s: seq<Directory>, k: int): (r: seq<Directory>)
  {
    if s == [] then []
    else (if s[0].size == k then [s[0]] else []) + WithSize(s[1..], k)
  }

  lemma {:induction false} InsertBySizeMultiset(x: Directory, s: seq<Directory>)
    ensures multiset(InsertBySize(x, s)) == multiset(s) + multiset{x}
  {
    if s != [] && x.size < s[0].size {
      InsertBySizeMultiset(x, s[1..]);
      assert s == [s[0]] + s[1..];
    }
  }

  /** Putting a record no smaller than all of a sorted list in front keeps it sorted. */
  lemma ConsSorted(y: Directory, r: seq<Directory>)
    requires NonIncreasing(r) && forall j :: 0 <= j < |r| ==> r[j].size <= y.size
    ensures NonIncreasing([y] + r)
  {
    var c := [y] + r;
    forall i, j | 0 <= i < j < |c| ensures c[i].size >= c[j].size {
      assert c[j] == r[j - 1];
      if i > 0 {
        assert c[i] == r[i - 1];
      }
    }
  }

  /** Insertion introduces no record larger than a bound on `x` and on all of `s`. */
  lemma {:induction false} InsertBySizeBound(x: Directory, s: seq<Directory>, m: int)
    requires x.size <= m && forall j :: 0 <= j < |s| ==> s[j].size <= m
    ensures forall j :: 0 <= j < |InsertBySize(x, s)| ==> InsertBySize(x, s)[j].size <= m
  {
    if s != [] && x.size < s[0].size {
      InsertBySizeBound(x, s[1..], m);
      var r := InsertBySize(x, s);
      forall j | 0 <= j < |r| ensures r[j].size <= m {
        if j > 0 {
          assert r[j] == InsertBySize(x, s[1..])[j - 1];
        }
      }
    }
  }

  lemma {:induction false} InsertBySizeSorted(x: Directory, s: seq<Directory>)
    requires NonIncreasing(s)
    ensures NonIncreasing(InsertBySize(x, s))
  {
    if s == [] {
    } else if x.size >= s[0].size {
      ConsSorted(x, s);
    } else {
      var tail := s[1..];
      assert NonIncreasing(tail);
      InsertBySizeSorted(x, tail);
      InsertBySizeBound(x, tail, s[0].size);
      ConsSorted(s[0], InsertBySize(x, tail));
    }
  }

  /** The records of size `k` in a list with one record in front. */
  lemma WithSizeCons(y: Directory, r: seq<Directory>, k: int)
    ensures WithSize([y] + r, k) == (if y.size == k then [y] else []) + WithSize(r, k)
  {
    assert ([y] + r)[1..] == r;
  }

  lemma {:induction false} InsertBySizeWithSize(x: Directory, s: seq<Directory>, k: int)
    ensures WithSize(InsertBySize(x, s), k) == (if x.size == k then [x] else []) + WithSize(s, k)
  {
    var front: seq<Directory> := if x.size == k then [x] else [];
    if s == [] {
      WithSizeCons(x, [], k);
      assert [x] + [] == [x];
    } else if x.size >= s[0].size {
      WithSizeCons(x, s, k);
    } else {
      var s0: seq<Directory> := if s[0].size == k then [s[0]] else [];
      var tail := s[1..];
      InsertBySizeWithSize(x, tail, k);
      WithSizeCons(s[0], InsertBySize(x, tail), k);
      WithSizeCons(s[0], tail, k);
      assert s == [s[0]] + tail;
      assert front == [] || s0 == [];
      assert s0 + (front + WithSize(tail, k)) == front + (s0 + WithSize(tail, k));
    }
  }

  /**
   * The sorted list is non-increasing by size, holds the same records as often as the
   * input, and lists the records of each size in their input order.
   */
  lemma {:induction false} SortBySizeCorrect(s: seq<Directory>)
    ensures NonIncreasing(SortBySize(s))
    ensures multiset(SortBySize(s)) == multiset(s)
    ensures forall k :: WithSize(SortBySize(s), k) == WithSize(s, k)
  {
    if s != [] {
      var rest := SortBySize(s[1..]);
      SortBySizeCorrect(s[1..]);
      InsertBySizeSorted(s[0], rest);
      InsertBySizeMultiset(s[0], rest);
      forall k ensures WithSize(SortBySize(s), k) == WithSize(s, k) {
        InsertBySizeWithSize(s[0], rest, k);
      }
      assert s == [s[0]] + s[1..];
    }
  }

  lemma {:induction false} WithSizeNonEmpty(s: seq<Directory>, i: nat)
    requires i < |s|
    ensures WithSize(s, s[i].size) != []
  {
    if i > 0 {
      WithSizeNonEmpty(s[1..], i - 1);
    }
  }

  /** A record of each size that `WithSize` reports is in the list. */
  lemma {:induction false} WithSizeMember(s: seq<Directory>, k: int) returns (i: nat)
    requires WithSize(s, k) != []
    ensures i < |s| && s[i].size == k
  {
    if s[0].size == k {
      i := 0;
    } else {
      var j := WithSizeMember(s[1..], k);
      i := j + 1;
    }
  }

  /** The first record of a sorted list is at least as large as any size in another list that agrees with it. */
  lemma HeadDominates(a: seq<Directory>, b: seq<Directory>)
    requires a != [] && b != [] && NonIncreasing(b)
    requires forall k :: WithSize(a, k) == WithSize(b, k)
    ensures b[0].size >= a[0].size
  {
    WithSizeNonEmpty(a, 0);
    assert WithSize(b, a[0].size) != [];
    var i := WithSizeMember(b, a[0].size);
    assert i == 0 || b[0].size >= b[i].size;
  }

  /** A list's first record is the first one of its size. */
  lemma WithSizeHead(s: seq<Directory>)
    requires s != []
    ensures WithSize(s, s[0].size) != [] && WithSize(s, s[0].size)[0] == s[0]
  {
  }

  /** Two sorted lists that agree on the records of every size start with the same record. */
  lemma HeadsAgree(a: seq<Directory>, b: seq<Directory>)
    requires a != [] && b != [] && NonIncreasing(a) && NonIncreasing(b)
    requires forall k :: WithSize(a, k) == WithSize(b, k)
    ensures a[0] == b[0]
  {
    HeadDominates(a, b);
    HeadDominates(b, a);
    var m := a[0].size;
    assert b[0].size == m;
    WithSizeHead(a);
    WithSizeHead(b);
    assert WithSize(a, m) == WithSize(b, m);
  }

  /** Removing a common first record keeps the lists agreeing on the records of size `k`. */
  lemma TailsAgree(a: seq<Directory>, b: seq<Directory>, k: int)
    requires a != [] && b != [] && a[0] == b[0]
    requires WithSize(a, k) == WithSize(b, k)
    ensures WithSize(a[1..], k) == WithSize(b[1..], k)
  {
    var head := if a[0].size == k then [a[0]] else [];
    assert WithSize(a, k) == head + WithSize(a[1..], k);
    assert WithSize(b, k) == head + WithSize(b[1..], k);
    assert WithSize(a[1..], k) == WithSize(a, k)[|head|..];
    assert WithSize(b[1..], k) == WithSize(b, k)[|head|..];
  }

  /**
   * Uniqueness: two lists that are both non-increasing by size and agree on the records
   * of every size, in order, are equal. So any stable sort by this comparator (Java's
   * own merge sort included) produces exactly `SortBySize`.
   */
  lemma {:induction false} StableSortIsUnique(a: seq<Directory>, b: seq<Directory>)
    requires NonIncreasing(a) && NonIncreasing(b)
    requires forall k :: WithSize(a, k) == WithSize(b, k)
    ensures a == b
    decreases |a|
  {
    if a == [] {
      if b != [] {
        WithSizeNonEmpty(b, 0);
        assert false;
      }
    } else if b == [] {
      WithSizeNonEmpty(a, 0);
      assert false;
    } else {
      HeadsAgree(a, b);
      forall k ensures WithSize(a[1..], k) == WithSize(b[1..], k) {
        TailsAgree(a, b, k);
      }
      StableSortIsUnique(a[1..], b[1..]);
      assert a == [a[0]] + a[1..] && b == [b[0]] + b[1..];
    }
  }
}
