/**
 A file that fetches its bytes from a server when they are read (`LazyFileOverHTTP` in
 `src/poetry/inspection/lazy_wheel.py`). The server is a procedure that returns the requested bytes
 or breaks off after some of them.
 */
module LazyFiles {
  import opened ByteRanges

  newtype Byte = b: int | 0 <= b < 0x100

  /** The file with `data` written over it from position `at` on. */
  function Overwritten(file: seq<Byte>, at: nat, data: seq<Byte>): (after: seq<Byte>)
    requires at + |data| <= |file|
    ensures |after| == |file|
    ensures forall x :: 0 <= x < |file| ==> after[x] == if at <= x < at + |data| then data[x - at] else file[x]
  {
    file[..at] + data + file[at + |data|..]
  }

  /** The gaps lie within the request, which lies within the file. */
  ghost predicate Within(gaps: seq<ByteRange>, start: nat, length: nat) {
    forall g <- gaps :: start <= g.lo <= g.hi < length
  }

  /** The file after each gap's bytes have been written at the start of the request. */
  function Downloaded(file: seq<Byte>, remote: seq<Byte>, start: nat, gaps: seq<ByteRange>): (after: seq<Byte>)
    requires |file| == |remote| && Within(gaps, start, |remote|)
    ensures |after| == |file|
  {
    if gaps == [] then file
    else
      var g := gaps[|gaps| - 1];
      assert g in gaps && forall h <- gaps[..|gaps| - 1] :: h in gaps;
      Overwritten(Downloaded(file, remote, start, gaps[..|gaps| - 1]), start, remote[g.lo..g.hi + 1])
  }

  /** Every byte that is recorded as downloaded is the server's. */
  ghost predicate Mirrors(file: seq<Byte>, remote: seq<Byte>, left: seq<int>, right: seq<int>) {
    |file| == |remote| && forall x :: 0 <= x < |file| && Covers(left, right, x) ==> file[x] == remote[x]
  }

  /** Nothing is missing, or only one gap that begins where the request begins. */
  predicate GapsAreSafe(gaps: seq<ByteRange>, start: int) {
    gaps == [] || gaps[|gaps| - 1].lo == start
  }

  /** The file still mirrors the server's once the request has been downloaded and recorded. */
  ghost predicate MirrorsAfter(
    file: seq<Byte>, remote: seq<Byte>, left: seq<int>, right: seq<int>, start: nat, end: int, gaps: seq<ByteRange>)
    requires |left| == |right| && |file| == |remote| && Within(gaps, start, |remote|)
  {
    var (newLeft, newRight) := Recorded(left, right, start, end);
    Mirrors(Downloaded(file, remote, start, gaps), remote, newLeft, newRight)
  }

  lemma {:induction false} FirstBelowLast(gaps: seq<ByteRange>)
    requires InOrder(gaps) && |gaps| > 1
    ensures gaps[0].lo < gaps[|gaps| - 1].lo && gaps[0] in gaps
  {
  }

  lemma {:induction false} SafeIsOneGap(gaps: seq<ByteRange>, start: int)
    requires InOrder(gaps) && GapsAreSafe(gaps, start) && forall g <- gaps :: start <= g.lo
    ensures |gaps| <= 1
  {
    assert forall i :: 0 <= i < |gaps| ==> gaps[i] in gaps && gaps[i].lo <= gaps[i].hi;
    if |gaps| > 1 {
      FirstBelowLast(gaps);
    }
  }

  lemma {:induction false} MissingWithin(gaps: seq<ByteRange>, left: seq<int>, right: seq<int>, start: nat, end: int,
      length: nat)
    requires ExactlyMissing(gaps, left, right, start, end) && end < length
    ensures Within(gaps, start, length)
  {
    forall g | g in gaps
      ensures start <= g.lo <= g.hi < length
    {
      var i :| 0 <= i < |gaps| && gaps[i] == g;
      assert g.Has(g.lo) && g.Has(g.hi) && InSome(gaps, g.lo) && InSome(gaps, g.hi);
    }
  }

  /** A safe download puts every byte where it belongs. */
  lemma {:induction false} SafeDownloadMirrors(
      file: seq<Byte>, remote: seq<Byte>, left: seq<int>, right: seq<int>, start: nat, end: int, gaps: seq<ByteRange>)
    requires Disjoint(left, right) && start <= end + 1 && end < |remote|
    requires ExactlyMissing(gaps, left, right, start, end) && Within(gaps, start, |remote|)
    requires Mirrors(file, remote, left, right) && GapsAreSafe(gaps, start)
    ensures MirrorsAfter(file, remote, left, right, start, end, gaps)
  {
    SafeIsOneGap(gaps, start);
    RecordCovers(left, right, start, end);
    var after := Downloaded(file, remote, start, gaps);
    forall x | 0 <= x < |file| && (Covers(left, right, x) || start <= x <= end)
      ensures after[x] == remote[x]
    {
      if gaps != [] {
        assert gaps[..0] == [] && Downloaded(file, remote, start, gaps[..0]) == file;
      }
      assert InSome(gaps, x) <==> start <= x <= end && !Covers(left, right, x);
    }
  }

  /** A server's file whose byte at `start` differs from all others. */
  function Marked(length: nat, start: nat): seq<Byte> {
    seq(length, x => if x == start then 0 else 1)
  }

  /** An unsafe download leaves a byte of another gap at the start of the request. */
  lemma {:induction false} UnsafeDownloadCorrupts(
      left: seq<int>, right: seq<int>, start: nat, end: int, gaps: seq<ByteRange>, length: nat)
    requires Disjoint(left, right) && start <= end < length
    requires ExactlyMissing(gaps, left, right, start, end) && Within(gaps, start, length)
    requires !GapsAreSafe(gaps, start)
    ensures var remote := Marked(length, start);
            Mirrors(remote, remote, left, right) && !MirrorsAfter(remote, remote, left, right, start, end, gaps)
  {
    var remote := Marked(length, start);
    RecordCovers(left, right, start, end);
    var g := gaps[|gaps| - 1];
    assert g in gaps;
    var after := Downloaded(remote, remote, start, gaps);
    assert after[start] == remote[g.lo..g.hi + 1][0] == 1;
    var (newLeft, newRight) := Recorded(left, right, start, end);
    assert Covers(newLeft, newRight, start);
  }

  /**
   Exactly the safe requests keep the mirror, whatever the server holds: every byte is written from
   the start of the request on, not from the start of its own gap.
   */
  lemma {:induction false} MirrorKeptExactlyWhenSafe(
      left: seq<int>, right: seq<int>, start: nat, end: int, gaps: seq<ByteRange>, length: nat)
    requires Disjoint(left, right) && start <= end < length
    requires ExactlyMissing(gaps, left, right, start, end) && Within(gaps, start, length)
    ensures GapsAreSafe(gaps, start) <==>
            forall file: seq<Byte>, remote: seq<Byte> ::
              |remote| == length && Mirrors(file, remote, left, right) ==>
                MirrorsAfter(file, remote, left, right, start, end, gaps)
  {
    if GapsAreSafe(gaps, start) {
      forall file: seq<Byte>, remote: seq<Byte> | |remote| == length && Mirrors(file, remote, left, right)
        ensures MirrorsAfter(file, remote, left, right, start, end, gaps)
      {
        SafeDownloadMirrors(file, remote, left, right, start, end, gaps);
      }
    } else {
      UnsafeDownloadCorrupts(left, right, start, end, gaps, length);
      var remote := Marked(length, start);
      assert |remote| == length && Mirrors(remote, remote, left, right);
    }
  }

  /** With bytes 0 to 1 on record, reading bytes 0 to 2 overwrites byte 0 with byte 2. */
  lemma {:induction false} OverlappingReadCorrupts()
    ensures var remote: seq<Byte> := [7, 8, 9];
            var gaps := [ByteRange(2, 2)];
            && ExactlyMissing(gaps, [0], [1], 0, 2)
            && Downloaded(remote, remote, 0, gaps) == [9, 8, 9]
  {
    var remote: seq<Byte> := [7, 8, 9];
    var gaps := [ByteRange(2, 2)];
    assert In([0], [1], 0, 0) && In([0], [1], 0, 1);
    assert Covers([0], [1], 0) && Covers([0], [1], 1);
    assert gaps[0].Has(2) && InSome(gaps, 2);
    assert gaps[..0] == [] && Downloaded(remote, remote, 0, gaps[..0]) == remote;
  }

  /** What the file holds when the server broke off after `n` bytes of gap number `k`. */
  ghost predicate BrokenAt(
    file: seq<Byte>, remote: seq<Byte>, start: nat, gaps: seq<ByteRange>, after: seq<Byte>, k: int, n: nat)
    requires |file| == |remote| && Within(gaps, start, |remote|)
  {
    && 0 <= k < |gaps|
    && (assert gaps[k] in gaps; n <= gaps[k].hi + 1 - gaps[k].lo)
    && (assert forall g <- gaps[..k] :: g in gaps;
        after == Overwritten(Downloaded(file, remote, start, gaps[..k]), start, remote[gaps[k].lo..gaps[k].lo + n]))
  }

  ghost predicate BrokenOff(file: seq<Byte>, remote: seq<Byte>, start: nat, gaps: seq<ByteRange>, after: seq<Byte>)
    requires |file| == |remote| && Within(gaps, start, |remote|)
  {
    exists k: int, n: nat :: BrokenAt(file, remote, start, gaps, after, k, n)
  }

  lemma {:induction false} PrefixOfRange(remote: seq<Byte>, g: ByteRange, data: seq<Byte>)
    requires 0 <= g.lo <= g.hi < |remote| && data <= remote[g.lo..g.hi + 1]
    ensures data == remote[g.lo..g.lo + |data|]
  {
    assert data == remote[g.lo..g.hi + 1][..|data|];
  }

  /** A safe download that is broken off damages nothing that is on record. */
  lemma {:induction false} BrokenOffMirrors(
      file: seq<Byte>, remote: seq<Byte>, left: seq<int>, right: seq<int>, start: nat, end: int, gaps: seq<ByteRange>,
      after: seq<Byte>)
    requires ExactlyMissing(gaps, left, right, start, end)
    requires Mirrors(file, remote, left, right) && Within(gaps, start, |remote|) && GapsAreSafe(gaps, start)
    requires BrokenOff(file, remote, start, gaps, after)
    ensures Mirrors(after, remote, left, right)
  {
    SafeIsOneGap(gaps, start);
    var k: int, n: nat :| BrokenAt(file, remote, start, gaps, after, k, n);
    assert gaps[..0] == [];
    assert forall x :: gaps[0].Has(x) ==> InSome(gaps, x);
    assert forall x :: start <= x < start + n ==> gaps[0].Has(x);
  }

  class LazyFile {
    const remote: seq<Byte>
    const intervals: MergeIntervals
    var file: seq<Byte>
    var position: nat

    ghost predicate Valid()
      reads this, intervals
    {
      && |file| == |remote| && intervals.Valid()
      && forall x :: intervals.Covered(x) ==> 0 <= x < |remote|
    }

    ghost predicate Mirrored()
      reads this, intervals
    {
      Mirrors(file, remote, intervals.left, intervals.right)
    }

    constructor (remote: seq<Byte>)
      ensures Valid() && Mirrored() && fresh(intervals) && this.remote == remote && position == 0
    {
      this.remote := remote;
      intervals := new MergeIntervals();
      file := seq(|remote|, x => 0);
      position := 0;
    }

    /** Requests a range; the server may break off, after any number of bytes. */
    method Fetch(g: ByteRange) returns (data: seq<Byte>, ok: bool)
      requires 0 <= g.lo <= g.hi < |remote|
      ensures data <= remote[g.lo..g.hi + 1]
      ensures ok ==> data == remote[g.lo..g.hi + 1]
    {
      var n: nat :| n <= g.hi + 1 - g.lo;
      data := remote[g.lo..g.lo + n];
      ok := n == g.hi + 1 - g.lo;
    }

    /** Seeks to the start of the request and writes what the server sends of one gap. */
    method DownloadGap(start: nat, g: ByteRange) returns (ok: bool, ghost n: nat)
      requires |file| == |remote| && start <= g.lo <= g.hi < |remote|
      modifies this`file, this`position
      ensures |file| == |remote| && n <= g.hi + 1 - g.lo
      ensures file == Overwritten(old(file), start, remote[g.lo..g.lo + n])
      ensures ok ==> n == g.hi + 1 - g.lo
    {
      position := start;
      var data;
      data, ok := Fetch(g);
      PrefixOfRange(remote, g, data);
      n := |data|;
      file := Overwritten(file, position, data);
      position := position + |data|;
    }

    /** Writes each gap's bytes at the start of the request, until the server breaks off. */
    method DownloadGaps(start: nat, gaps: seq<ByteRange>) returns (ok: bool)
      requires |file| == |remote| && Within(gaps, start, |remote|)
      modifies this`file, this`position
      ensures |file| == |remote|
      ensures ok ==> file == Downloaded(old(file), remote, start, gaps)
      ensures !ok ==> BrokenOff(old(file), remote, start, gaps, file)
    {
      ok := true;
      for k := 0 to |gaps|
        invariant ok && |file| == |remote|
        invariant file == Downloaded(old(file), remote, start, gaps[..k])
      {
        assert gaps[k] in gaps && gaps[..k + 1][..k] == gaps[..k];
        ghost var n;
        ok, n := DownloadGap(start, gaps[k]);
        if !ok {
          assert BrokenAt(old(file), remote, start, gaps, file, k, n);
          return;
        }
      }
      assert gaps[..|gaps|] == gaps;
    }

    /** Makes sure that bytes `start` to `stop - 1` have been downloaded, and keeps the position. */
    method EnsureDownloaded(start: nat, stop: nat) returns (ok: bool, ghost gaps: seq<ByteRange>)
      requires Valid() && start <= stop <= |remote|
      modifies this, intervals
      ensures Valid() && position == old(position)
      ensures ExactlyMissing(gaps, old(intervals.left), old(intervals.right), start, stop - 1)
      ensures Within(gaps, start, |remote|)
      ensures ok ==> file == Downloaded(old(file), remote, start, gaps)
      ensures ok ==> forall x :: intervals.Covered(x) <==> old(intervals.Covered(x)) || start <= x < stop
      ensures !ok ==> unchanged(intervals)
      ensures old(Mirrored()) && GapsAreSafe(gaps, start) ==> Mirrored()
    {
      var stay, end := position, stop - 1;
      var missing := intervals.Missing(start, end);
      gaps := missing;
      MissingWithin(gaps, intervals.left, intervals.right, start, end, |remote|);
      ok := DownloadGaps(start, missing);
      position := stay;
      if old(Mirrored()) && GapsAreSafe(gaps, start) {
        if ok {
          SafeDownloadMirrors(old(file), remote, intervals.left, intervals.right, start, end, gaps);
        } else {
          BrokenOffMirrors(old(file), remote, intervals.left, intervals.right, start, end, gaps, file);
        }
      }
      if ok {
        intervals.Record(start, end);
      }
    }

    /** Reads up to `size` bytes, or all of them if it is negative, downloading what is missing. */
    method Read(size: int) returns (data: seq<Byte>, ok: bool, ghost gaps: seq<ByteRange>)
      requires Valid() && position <= |remote|
      modifies this, intervals
      ensures Valid() && (old(Mirrored()) && GapsAreSafe(gaps, old(position)) ==> Mirrored())
      ensures var stop := if size < 0 || old(position) + size > |remote| then |remote| else old(position) + size;
              && (size != 0 ==>
                    ExactlyMissing(gaps, old(intervals.left), old(intervals.right), old(position), stop - 1))
              && (ok ==> position == stop && |data| == stop - old(position))
              && (!ok ==> position == old(position))
              && (ok && old(Mirrored()) && GapsAreSafe(gaps, old(position)) ==>
                    data == remote[old(position)..stop])
    {
      var cur := position;
      data, ok, gaps := [], true, [];
      if size == 0 {
        return;
      }
      var stop := if size < 0 || cur + size > |remote| then |remote| else cur + size;
      ok, gaps := EnsureDownloaded(cur, stop);
      if ok {
        data := file[cur..stop];
        if old(Mirrored()) && GapsAreSafe(gaps, cur) {
          forall x | cur <= x < stop
            ensures file[x] == remote[x]
          {
            assert intervals.Covered(x);
          }
        }
        position := stop;
      }
    }
  }
}
