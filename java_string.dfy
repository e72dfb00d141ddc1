/**
 * The three operations of `java.lang.String` that the rename planner relies on:
 * `indexOf`, `contains` and `replace(CharSequence, CharSequence)`.
 * Java strings are sequences of UTF-16 code units; here they are `seq<char>`.
 */
module JavaString {

  /** `t` occurs in `s` starting at index `i`. */
  ghost predicate OccursAt(s: string, t: string, i: int)
  {
    0 <= i && i + |t| <= |s| && s[i..i + |t|] == t
  }

  /** Dropping the first character shifts every occurrence one place to the left. */
  lemma OccursShift(s: string, t: string, j: int)
    requires |s| > 0 && j >= 0
    ensures OccursAt(s[1..], t, j) <==> OccursAt(s, t, j + 1)
  {
    if j + |t| <= |s| - 1 {
      assert s[1..][j..j + |t|] == s[j + 1..j + 1 + |t|];
    }
  }

  /** `s.indexOf(t)`: the first index at which `t` occurs in `s`, or -1 when it occurs nowhere. */
  function IndexOf(s: string, t: string): (r: int)
    ensures -1 <= r && (r >= 0 ==> r + |t| <= |s|)
    decreases |s|
  {
    if |s| < |t| then -1
    else if s[..|t|] == t then 0
    else
      var j := IndexOf(s[1..], t);
      if j < 0 then -1 else j + 1
  }

  /** `indexOf` finds the first occurrence, and reports -1 exactly when there is none. */
  lemma {:induction false} IndexOfFirst(s: string, t: string)
    ensures IndexOf(s, t) >= 0 ==>
      OccursAt(s, t, IndexOf(s, t)) && forall j :: 0 <= j < IndexOf(s, t) ==> !OccursAt(s, t, j)
    ensures IndexOf(s, t) < 0 ==> IndexOf(s, t) == -1 && forall j :: !OccursAt(s, t, j)
    decreases |s|
  {
    if |s| >= |t| && s[..|t|] != t {
      IndexOfFirst(s[1..], t);
      assert !OccursAt(s, t, 0);
      forall k | k >= 1 ensures OccursAt(s, t, k) <==> OccursAt(s[1..], t, k - 1) {
        OccursShift(s, t, k - 1);
      }
    }
  }

  /** `s.contains(t)`, which Java defines as `indexOf(t) >= 0`. */
  function Contains(s: string, t: string): (r: bool)
  {
    IndexOf(s, t) >= 0
  }

  /** `contains` holds exactly when `t` occurs somewhere in `s`. */
  lemma ContainsIff(s: string, t: string)
    ensures Contains(s, t) <==> exists i :: OccursAt(s, t, i)
  {
    IndexOfFirst(s, t);
  }

  /**
   * `s.replace(t, r)` for a non-empty target `t`: the string is scanned from the
   * left and every occurrence of `t` that does not overlap an earlier replaced one
   * is replaced by `r`.
   */
  function Replace(s: string, t: string, r: string): (res: string)
    requires |t| > 0
    decreases |s|
  {
    if |s| < |t| then s
    else if s[..|t|] == t then r + Replace(s[|t|..], t, r)
    else [s[0]] + Replace(s[1..], t, r)
  }

  /** The parts of `s` between the leftmost non-overlapping occurrences of `t`. */
  function Pieces(s: string, t: string): (ps: seq<string>)
    requires |t| > 0
    ensures |ps| >= 1
    decreases |s|
  {
    var i := IndexOf(s, t);
    if i < 0 then [s] else [s[..i]] + Pieces(s[i + |t|..], t)
  }

  /** The pieces glued together with `sep` between each pair of neighbours. */
  function Join(ps: seq<string>, sep: string): (r: string)
  {
    if |ps| == 0 then []
    else if |ps| == 1 then ps[0]
    else ps[0] + sep + Join(ps[1..], sep)
  }

  /** The number of occurrences `replace` substitutes. */
  function Occurrences(s: string, t: string): (r: nat)
    requires |t| > 0
  {
    |Pieces(s, t)| - 1
  }

  /** Without an occurrence of `t`, `replace` returns the string unchanged. */
  lemma {:induction false} ReplaceNoMatch(s: string, t: string, r: string)
    requires |t| > 0 && !Contains(s, t)
    ensures Replace(s, t, r) == s
    decreases |s|
  {
    if |s| >= |t| {
      assert s[..|t|] != t;
      ReplaceNoMatch(s[1..], t, r);
    }
  }

  /** `replace` copies everything before the first occurrence, then substitutes it, then goes on after it. */
  lemma {:induction false} ReplaceAtFirst(s: string, t: string, r: string, i: nat)
    requires |t| > 0 && IndexOf(s, t) == i
    ensures Replace(s, t, r) == s[..i] + r + Replace(s[i + |t|..], t, r)
    decreases i
  {
    if i == 0 {
      assert |s| >= |t| && s[..|t|] == t;
    } else {
      var tail := s[1..];
      assert IndexOf(tail, t) == i - 1 && Replace(s, t, r) == [s[0]] + Replace(tail, t, r) by {
        assert |s| >= |t| && s[..|t|] != t;
      }
      ReplaceAtFirst(tail, t, r, i - 1);
      SliceShift(s, i, |t|);
      SeqAssoc([s[0]], tail[..i - 1], r, Replace(s[i + |t|..], t, r));
    }
  }

  /** How slices of `s[1..]` relate to slices of `s`. */
  lemma SliceShift(s: string, i: int, n: int)
    requires 1 <= i && i + n <= |s| && 0 <= n
    ensures s[1..][i - 1 + n..] == s[i + n..]
    ensures [s[0]] + s[1..][..i - 1] == s[..i]
  {
  }

  lemma SeqAssoc(a: string, b: string, c: string, d: string)
    ensures a + (b + c + d) == (a + b) + c + d
  {
  }

  /** `replace` is splitting at the leftmost occurrences and joining the pieces with the replacement. */
  lemma {:induction false} ReplaceIsJoinOfPieces(s: string, t: string, r: string)
    requires |t| > 0
    ensures Replace(s, t, r) == Join(Pieces(s, t), r)
    decreases |s|
  {
    var i := IndexOf(s, t);
    if i < 0 {
      ReplaceNoMatch(s, t, r);
    } else {
      ReplaceAtFirst(s, t, r, i);
      ReplaceIsJoinOfPieces(s[i + |t|..], t, r);
      var ps := Pieces(s, t);
      assert ps[1..] == Pieces(s[i + |t|..], t);
    }
  }

  /** Replacing the target by itself changes nothing. */
  lemma {:induction false} ReplaceSelf(s: string, t: string)
    requires |t| > 0
    ensures Replace(s, t, t) == s
    decreases |s|
  {
    if |s| >= |t| {
      if s[..|t|] == t {
        ReplaceSelf(s[|t|..], t);
        assert s == s[..|t|] + s[|t|..];
      } else {
        ReplaceSelf(s[1..], t);
      }
    }
  }

  /** Joining the pieces with the target itself gives back the original string. */
  lemma PiecesRoundTrip(s: string, t: string)
    requires |t| > 0
    ensures Join(Pieces(s, t), t) == s
  {
    ReplaceIsJoinOfPieces(s, t, t);
    ReplaceSelf(s, t);
  }

  /**
   * The split is leftmost: `t` occurs nowhere in the last piece, and in each
   * other piece followed by `t` its first occurrence is the separator itself.
   */
  lemma {:induction false} PiecesLeftmost(s: string, t: string)
    requires |t| > 0
    ensures !Contains(Pieces(s, t)[|Pieces(s, t)| - 1], t)
    ensures forall k :: 0 <= k < |Pieces(s, t)| - 1 ==>
      IndexOf(Pieces(s, t)[k] + t, t) == |Pieces(s, t)[k]|
    decreases |s|
  {
    var i := IndexOf(s, t);
    if i >= 0 {
      var ps := Pieces(s, t);
      PiecesLeftmost(s[i + |t|..], t);
      assert ps[1..] == Pieces(s[i + |t|..], t);
      FirstOccurrenceOfPrefix(s, t);
    }
  }

  /** Cutting `s` just after the first occurrence of `t` keeps that occurrence first. */
  lemma FirstOccurrenceOfPrefix(s: string, t: string)
    requires IndexOf(s, t) >= 0
    ensures IndexOf(s[..IndexOf(s, t)] + t, t) == IndexOf(s, t)
  {
    var i := IndexOf(s, t);
    var p := s[..i] + t;
    IndexOfFirst(s, t);
    assert p == s[..i + |t|];
    IndexOfFirst(p, t);
    var k := IndexOf(p, t);
    assert OccursAt(p, t, i);
    if k < i {
      assert p[k..k + |t|] == s[k..k + |t|];
      assert OccursAt(s, t, k);
      assert false;
    }
  }

  /** Each substitution changes the length by the difference of the two strings' lengths. */
  lemma {:induction false} ReplaceLength(s: string, t: string, r: string)
    requires |t| > 0
    ensures |Replace(s, t, r)| + Occurrences(s, t) * |t| == |s| + Occurrences(s, t) * |r|
    decreases |s|
  {
    var i := IndexOf(s, t);
    if i < 0 {
      ReplaceNoMatch(s, t, r);
    } else {
      var rest := s[i + |t|..];
      ReplaceAtFirst(s, t, r, i);
      ReplaceLength(rest, t, r);
      assert Occurrences(s, t) == Occurrences(rest, t) + 1;
      assert |s| == i + |t| + |rest|;
      LengthStep(i, |t|, |r|, |rest|, |Replace(rest, t, r)|, Occurrences(rest, t));
    }
  }

  lemma LengthStep(i: int, lt: int, lr: int, m: int, x: int, n: int)
    requires x + n * lt == m + n * lr
    ensures (i + lr + x) + (n + 1) * lt == (i + lt + m) + (n + 1) * lr
  {
    assert (n + 1) * lt == n * lt + lt;
    assert (n + 1) * lr == n * lr + lr;
  }

  /** A replacement of the same length that differs from the target changes the first occurrence. */
  lemma ReplaceSameLengthChanges(s: string, t: string, r: string)
    requires |t| > 0 && Contains(s, t) && |r| == |t| && r != t
    ensures Replace(s, t, r) != s
  {
    var i := IndexOf(s, t);
    IndexOfFirst(s, t);
    ReplaceAtFirst(s, t, r, i);
    var x := Replace(s, t, r);
    assert x[i..i + |t|] == r;
    assert s[i..i + |t|] == t;
  }

  /** A replacement whose length differs from the target's changes the length. */
  lemma ReplaceOtherLengthChanges(s: string, t: string, r: string)
    requires |t| > 0 && Contains(s, t) && |r| != |t|
    ensures |Replace(s, t, r)| != |s|
  {
    var n := Occurrences(s, t);
    assert n >= 1;
    ReplaceLength(s, t, r);
    if |r| < |t| {
      MulStrict(n, |r|, |t|);
    } else {
      MulStrict(n, |t|, |r|);
    }
  }

  lemma MulStrict(n: nat, a: nat, b: nat)
    requires n >= 1 && a < b
    ensures n * a < n * b
  {
  }

  /** `replace` leaves a string unchanged exactly when the target is absent or is its own replacement. */
  lemma ReplaceUnchangedIff(s: string, t: string, r: string)
    requires |t| > 0
    ensures Replace(s, t, r) == s <==> (!Contains(s, t) || r == t)
  {
    if !Contains(s, t) {
      ReplaceNoMatch(s, t, r);
    } else if r == t {
      ReplaceSelf(s, t);
    } else if |r| == |t| {
      ReplaceSameLengthChanges(s, t, r);
    } else {
      ReplaceOtherLengthChanges(s, t, r);
    }
  }
}
