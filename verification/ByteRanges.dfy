/**
 The bookkeeping of downloaded byte ranges (`MergeIntervals` in
 `src/poetry/inspection/lazy_wheel.py`). Ranges are inclusive at both ends, as in the Range header
 of section 14.1.2 of RFC 9110; a range that ends just before it starts is empty.
 */
module ByteRanges {

  datatype ByteRange = ByteRange(lo: int, hi: int) {
    predicate Has(x: int) {
      lo <= x <= hi
    }
  }

  ghost predicate Sorted(s: seq<int>) {
    forall i, j :: 0 <= i < j < |s| ==> s[i] <= s[j]
  }

  /** The number of elements less than `x`. */
  function BisectLeft(s: seq<int>, x: int): (k: nat)
    ensures k <= |s|
    ensures forall i :: 0 <= i < k ==> s[i] < x
    ensures k < |s| ==> s[k] >= x
  {
    if s == [] || s[0] >= x then 0
    else
      assert forall i :: 0 < i < |s| ==> s[i] == s[1..][i - 1];
      1 + BisectLeft(s[1..], x)
  }

  /** The number of elements up to `x`. */
  function BisectRight(s: seq<int>, x: int): (k: nat)
    ensures k <= |s|
    ensures forall i :: 0 <= i < k ==> s[i] <= x
    ensures k < |s| ==> s[k] > x
  {
    BisectLeft(s, x + 1)
  }

  /** In a sorted list the number of smaller elements is the one position that separates them from the others. */
  lemma {:induction false} BisectSeparates(s: seq<int>, x: int, k: nat)
    requires Sorted(s) && k <= |s|
    ensures k == BisectLeft(s, x) <==>
      (forall i :: 0 <= i < k ==> s[i] < x) && (forall i :: k <= i < |s| ==> s[i] >= x)
  {
    var l := BisectLeft(s, x);
    forall i | l <= i < |s| ensures s[i] >= x {
      assert i > l ==> s[l] <= s[i];
    }
    if k < l {
      assert s[k] < x;
    } else if l < k {
      assert s[l] >= x;
    }
  }

  /** What `bisect_left` does, halving the list again and again. */
  method Bisect(s: seq<int>, x: int) returns (k: nat)
    requires Sorted(s)
    ensures k == BisectLeft(s, x)
  {
    var lo, hi := 0, |s|;
    while lo < hi
      invariant 0 <= lo <= hi <= |s|
      invariant forall i :: 0 <= i < lo ==> s[i] < x
      invariant forall i :: hi <= i < |s| ==> s[i] >= x
    {
      var mid := (lo + hi) / 2;
      if s[mid] < x {
        lo := mid + 1;
      } else {
        hi := mid;
      }
    }
    k := lo;
    BisectSeparates(s, x, k);
  }

  function Min(a: int, b: int): int {
    if a < b then a else b
  }

  function Max(a: int, b: int): int {
    if a < b then b else a
  }

  /** The ranges left[i]..right[i] follow each other without overlap; empty ones are tolerated. */
  ghost predicate Disjoint(left: seq<int>, right: seq<int>) {
    && |left| == |right|
    && (forall i :: 0 <= i < |left| ==> left[i] <= right[i] + 1)
    && (forall i, j :: 0 <= i < j < |left| ==> right[i] < left[j])
  }

  lemma {:induction false} DisjointIsSorted(left: seq<int>, right: seq<int>)
    requires Disjoint(left, right)
    ensures Sorted(left) && Sorted(right)
  {
    forall i, j | 0 <= i < j < |left| ensures left[i] <= left[j] && right[i] <= right[j] {
      assert right[i] < left[j] && left[i] <= right[i] + 1 && left[j] <= right[j] + 1;
    }
  }

  /** Byte `x` lies in the recorded range number `i`. */
  ghost predicate In(left: seq<int>, right: seq<int>, i: int, x: int) {
    0 <= i < |left| && i < |right| && left[i] <= x <= right[i]
  }

  ghost predicate Covers(left: seq<int>, right: seq<int>, x: int) {
    exists i :: In(left, right, i, x)
  }

  ghost predicate InSome(ranges: seq<ByteRange>, x: int) {
    exists i :: 0 <= i < |ranges| && ranges[i].Has(x)
  }

  /** Non-empty, in order, and without overlap. */
  ghost predicate InOrder(ranges: seq<ByteRange>) {
    && (forall i :: 0 <= i < |ranges| ==> ranges[i].lo <= ranges[i].hi)
    && (forall i, j :: 0 <= i < j < |ranges| ==> ranges[i].hi < ranges[j].lo)
  }

  /** The ranges are exactly what the request asks for and is not covered. */
  ghost predicate ExactlyMissing(ranges: seq<ByteRange>, left: seq<int>, right: seq<int>, start: int, end: int) {
    && InOrder(ranges)
    && forall x :: InSome(ranges, x) <==> start <= x <= end && !Covers(left, right, x)
  }

  /** The first and last recorded range that meet the request, as a slice; it may be empty. */
  function Overlap(left: seq<int>, right: seq<int>, start: int, end: int): (slice: (nat, nat))
    requires |left| == |right|
    ensures slice.0 <= slice.1 <= |left|
  {
    var l, r := BisectLeft(right, start), BisectRight(left, end);
    (l, if r < l then l else r)
  }

  lemma {:induction false} OverlapMeaning(left: seq<int>, right: seq<int>, start: int, end: int)
    requires Disjoint(left, right) && start <= end + 1
    ensures var (l, r) := Overlap(left, right, start, end);
            && (forall i :: 0 <= i < l ==> right[i] < start)
            && (forall i :: l <= i < r ==> start <= right[i] && left[i] <= end)
            && (forall i :: r <= i < |left| ==> left[i] > end)
  {
    var (l, r) := Overlap(left, right, start, end);
    forall i | l <= i < |left|
      ensures right[i] >= start
    {
      if l < i {
        assert right[l] < left[i] <= right[i] + 1;
      }
    }
    var q := BisectRight(left, end);
    forall i | q <= i < |left|
      ensures left[i] > end
    {
      if q < i {
        assert left[q] <= right[q] + 1 && right[q] < left[i];
      }
    }
  }

  /** Where the record starts and ends that the request is merged into. */
  function MergedRange(left: seq<int>, right: seq<int>, start: int, end: int): ByteRange
    requires |left| == |right|
  {
    var (l, r) := Overlap(left, right, start, end);
    if l < r then ByteRange(Min(start, left[l]), Max(end, right[r - 1])) else ByteRange(start, end)
  }

  /** The gaps and one more, unless that is empty. */
  function WithGap(gaps: seq<ByteRange>, lo: int, hi: int): seq<ByteRange> {
    if lo <= hi then gaps + [ByteRange(lo, hi)] else gaps
  }

  /** The gaps found so far are the missing parts of the request before position `i`. */
  ghost predicate FoundUpTo(gaps: seq<ByteRange>, left: seq<int>, right: seq<int>, start: int, end: int, i: int) {
    && InOrder(gaps)
    && (forall g <- gaps :: g.hi < i)
    && forall x :: InSome(gaps, x) <==> start <= x < i && x <= end && !Covers(left, right, x)
  }

  class MergeIntervals {
    var left: seq<int>
    var right: seq<int>

    ghost predicate Valid()
      reads this
    {
      Disjoint(left, right)
    }

    ghost predicate Covered(x: int)
      reads this
    {
      Covers(left, right, x)
    }

    constructor ()
      ensures Valid() && left == [] && right == []
    {
      left, right := [], [];
    }

    /** What `minimal_intervals_covering` yields: the parts of the request not covered so far. */
    method Missing(start: int, end: int) returns (gaps: seq<ByteRange>)
      requires Valid() && start <= end + 1
      ensures ExactlyMissing(gaps, left, right, start, end)
    {
      var (l, r) := Overlap(left, right, start, end);
      var merged := MergedRange(left, right, start, end);
      gaps := [];
      var i := merged.lo;
      for k := l to r
        invariant i == if k == l then merged.lo else right[k - 1] + 1
        invariant FoundUpTo(gaps, left, right, start, end, i)
      {
        OneMoreRange(gaps, left, right, start, end, k, i);
        gaps := WithGap(gaps, i, left[k] - 1);
        i := right[k] + 1;
      }
      AfterLastRange(gaps, left, right, start, end, i);
      gaps := WithGap(gaps, i, merged.hi);
    }

    /** What happens once all of them have been consumed: the request is merged into the record. */
    method Record(start: int, end: int)
      requires Valid() && start <= end + 1
      modifies this
      ensures Valid()
      ensures forall x :: Covered(x) <==> old(Covered(x)) || start <= x <= end
      ensures (left, right) == Recorded(old(left), old(right), start, end)
    {
      var (l, r) := Overlap(left, right, start, end);
      var merged := MergedRange(left, right, start, end);
      RecordKeepsDisjoint(left, right, start, end);
      RecordCovers(left, right, start, end);
      left, right := left[..l] + [merged.lo] + left[r..], right[..l] + [merged.hi] + right[r..];
    }
  }

  // ----- the merge as a function

  function Recorded(left: seq<int>, right: seq<int>, start: int, end: int): (seq<int>, seq<int>)
    requires |left| == |right|
  {
    var (l, r) := Overlap(left, right, start, end);
    var merged := MergedRange(left, right, start, end);
    (left[..l] + [merged.lo] + left[r..], right[..l] + [merged.hi] + right[r..])
  }

  /** Position by position: what was before the slice, the merged range, what was after the slice. */
  lemma {:induction false} RecordedAt(left: seq<int>, right: seq<int>, start: int, end: int, i: nat)
    requires |left| == |right| && i < |Recorded(left, right, start, end).0|
    ensures var (l, r) := Overlap(left, right, start, end);
            var (newLeft, newRight) := Recorded(left, right, start, end);
            var at := if i < l then i else i - 1 - l + r;
            && |newLeft| == |newRight|
            && (i == l ==> ByteRange(newLeft[i], newRight[i]) == MergedRange(left, right, start, end))
            && (i != l ==> 0 <= at < |left| && newLeft[i] == left[at] && newRight[i] == right[at])
  {
  }

  lemma {:induction false} RecordKeepsDisjoint(left: seq<int>, right: seq<int>, start: int, end: int)
    requires Disjoint(left, right) && start <= end + 1
    ensures var (newLeft, newRight) := Recorded(left, right, start, end); Disjoint(newLeft, newRight)
  {
    OverlapMeaning(left, right, start, end);
    var (newLeft, newRight) := Recorded(left, right, start, end);
    forall i | 0 <= i < |newLeft|
      ensures newLeft[i] <= newRight[i] + 1
    {
      RecordedAt(left, right, start, end, i);
    }
    forall i, j | 0 <= i < j < |newLeft|
      ensures newRight[i] < newLeft[j]
    {
      RecordedAt(left, right, start, end, i);
      RecordedAt(left, right, start, end, j);
    }
  }

  lemma {:induction false} RecordCovers(left: seq<int>, right: seq<int>, start: int, end: int)
    requires Disjoint(left, right) && start <= end + 1
    ensures var (newLeft, newRight) := Recorded(left, right, start, end);
            forall x :: Covers(newLeft, newRight, x) <==> Covers(left, right, x) || start <= x <= end
  {
    var (l, r) := Overlap(left, right, start, end);
    var (newLeft, newRight) := Recorded(left, right, start, end);
    forall x
      ensures Covers(newLeft, newRight, x) <==> Covers(left, right, x) || start <= x <= end
    {
      if Covers(left, right, x) {
        var i :| In(left, right, i, x);
        NothingLost(left, right, start, end, i, x);
      } else if start <= x <= end {
        assert In(newLeft, newRight, l, x);
      } else if Covers(newLeft, newRight, x) {
        var j :| In(newLeft, newRight, j, x);
        NothingInvented(left, right, start, end, j, x);
      }
    }
  }

  /** What lies in one of the ranges of a slice lies between its ends. */
  lemma {:induction false} WithinSlice(left: seq<int>, right: seq<int>, l: nat, r: nat, i: int, x: int)
    requires Disjoint(left, right) && l <= i < r <= |left| && In(left, right, i, x)
    ensures left[l] <= x <= right[r - 1]
  {
    assert l < i ==> left[l] <= right[l] + 1 && right[l] < left[i];
    assert i < r - 1 ==> right[i] < left[r - 1] <= right[r - 1] + 1;
  }

  lemma {:induction false} NothingLost(left: seq<int>, right: seq<int>, start: int, end: int, i: int, x: int)
    requires Disjoint(left, right) && start <= end + 1 && In(left, right, i, x)
    ensures var (newLeft, newRight) := Recorded(left, right, start, end); Covers(newLeft, newRight, x)
  {
    var (l, r) := Overlap(left, right, start, end);
    var (newLeft, newRight) := Recorded(left, right, start, end);
    var j := if i < l then i else if i < r then l else i - r + l + 1;
    if l <= i < r {
      WithinSlice(left, right, l, r, i, x);
    }
    RecordedAt(left, right, start, end, j);
    assert In(newLeft, newRight, j, x);
  }

  lemma {:induction false} NothingInvented(left: seq<int>, right: seq<int>, start: int, end: int, j: int, x: int)
    requires Disjoint(left, right) && start <= end + 1 && !(start <= x <= end)
    requires var (newLeft, newRight) := Recorded(left, right, start, end); In(newLeft, newRight, j, x)
    ensures Covers(left, right, x)
  {
    OverlapMeaning(left, right, start, end);
    var (l, r) := Overlap(left, right, start, end);
    RecordedAt(left, right, start, end, j);
    if j < l {
      assert In(left, right, j, x);
    } else if j > l {
      assert In(left, right, j - 1 - l + r, x);
    } else if x < start {
      assert In(left, right, l, x);
    } else {
      assert In(left, right, r - 1, x);
    }
  }

  // ----- steps of the gap loop

  /** Between the position reached and the next recorded range nothing is covered. */
  lemma {:induction false} NextRange(left: seq<int>, right: seq<int>, start: int, end: int, k: nat, i: int)
    requires Disjoint(left, right) && start <= end + 1
    requires var (l, r) := Overlap(left, right, start, end);
             && l <= k < r
             && i == if k == l then MergedRange(left, right, start, end).lo else right[k - 1] + 1
    ensures left[k] <= end && left[k] <= right[k] + 1 && i <= right[k] + 1 && (i < left[k] ==> start <= i)
    ensures forall x :: i <= x <= right[k] ==> (Covers(left, right, x) <==> left[k] <= x)
  {
    OverlapMeaning(left, right, start, end);
    forall j | 0 <= j < |left| && j != k
      ensures right[j] < i || left[j] > right[k]
    {
      assert j < k - 1 ==> right[j] < left[k - 1] <= right[k - 1] + 1;
    }
    OnlyRangeAhead(left, right, k, i);
  }

  lemma {:induction false} OneMoreRange(gaps: seq<ByteRange>, left: seq<int>, right: seq<int>, start: int, end: int,
      k: nat, i: int)
    requires Disjoint(left, right) && start <= end + 1
    requires var (l, r) := Overlap(left, right, start, end);
             && l <= k < r
             && i == if k == l then MergedRange(left, right, start, end).lo else right[k - 1] + 1
    requires FoundUpTo(gaps, left, right, start, end, i)
    ensures FoundUpTo(WithGap(gaps, i, left[k] - 1), left, right, start, end, right[k] + 1)
  {
    NextRange(left, right, start, end, k, i);
    ExtendFound(gaps, left, right, start, end, i, left[k], right[k]);
  }

  lemma {:induction false} ExtendFound(gaps: seq<ByteRange>, left: seq<int>, right: seq<int>, start: int, end: int,
      i: int, lo: int, hi: int)
    requires FoundUpTo(gaps, left, right, start, end, i)
    requires lo <= end && lo <= hi + 1 && i <= hi + 1 && (i < lo ==> start <= i)
    requires forall x :: i <= x <= hi ==> (Covers(left, right, x) <==> lo <= x)
    ensures FoundUpTo(WithGap(gaps, i, lo - 1), left, right, start, end, hi + 1)
  {
    AppendRange(gaps, ByteRange(i, lo - 1));
  }

  lemma {:induction false} OnlyRangeAhead(left: seq<int>, right: seq<int>, k: nat, i: int)
    requires k < |left| == |right|
    requires forall j :: 0 <= j < |left| && j != k ==> right[j] < i || left[j] > right[k]
    ensures forall x :: i <= x <= right[k] ==> (Covers(left, right, x) <==> left[k] <= x)
  {
    forall x | i <= x <= right[k] && left[k] <= x
      ensures Covers(left, right, x)
    {
      assert In(left, right, k, x);
    }
  }

  lemma {:induction false} AfterLastRange(gaps: seq<ByteRange>, left: seq<int>, right: seq<int>, start: int,
      end: int, i: int)
    requires Disjoint(left, right) && start <= end + 1
    requires var (l, r) := Overlap(left, right, start, end);
             i == if r == l then MergedRange(left, right, start, end).lo else right[r - 1] + 1
    requires FoundUpTo(gaps, left, right, start, end, i)
    ensures var last := MergedRange(left, right, start, end).hi;
            ExactlyMissing(WithGap(gaps, i, last), left, right, start, end)
  {
    OverlapMeaning(left, right, start, end);
    var (l, r) := Overlap(left, right, start, end);
    forall j | 0 <= j < |left|
      ensures right[j] < i || left[j] > end
    {
      assert l < r && j < r - 1 ==> right[j] < left[r - 1] <= right[r - 1] + 1;
    }
    AppendRange(gaps, ByteRange(i, MergedRange(left, right, start, end).hi));
  }

  lemma {:induction false} AppendRange(ranges: seq<ByteRange>, g: ByteRange)
    ensures forall x :: InSome(ranges + [g], x) <==> InSome(ranges, x) || g.Has(x)
  {
    var longer := ranges + [g];
    forall x
      ensures InSome(longer, x) <==> InSome(ranges, x) || g.Has(x)
    {
      assert longer[|ranges|] == g;
      assert forall i :: 0 <= i < |ranges| ==> longer[i] == ranges[i];
    }
  }
}
