/**
  The free list of the locking frame allocator as a value: regions are blocks of frames,
  numbered in frames.
 */
module FreeList {
  import opened Arith
  import opened Regions
  import opened RegionAlgebra

  /** A list that holds exactly the maximal runs of its frames, in ascending order. */
  ghost predicate MaximalRuns(bs: seq<Region>) { Separated(bs) && NonEmpty(bs) }

  /** All frames from `a` to `a + n` are free. */
  ghost predicate IsRun(bs: seq<Region>, a: nat, n: nat) {
    forall f: nat :: a <= f < a + n ==> Covers(bs, f)
  }

  /** There is one list only that represents a set of free frames. */
  lemma RunsUnique(xs: seq<Region>, ys: seq<Region>)
    requires MaximalRuns(xs) && MaximalRuns(ys)
    requires forall f: nat :: Covers(xs, f) <==> Covers(ys, f)
    ensures xs == ys
  {
    Canonical(xs, ys);
  }

  /** A run of free frames lies within one block. */
  lemma {:induction false} RunInBlock(bs: seq<Region>, a: nat, n: nat)
    requires MaximalRuns(bs) && n >= 1 && IsRun(bs, a, n)
    ensures exists k :: 0 <= k < |bs| && bs[k].start <= a && a + n <= bs[k].end
    decreases n
  {
    if n == 1 {
      assert Covers(bs, a);
      var k :| 0 <= k < |bs| && Holds(bs[k], a);
      assert bs[k].start <= a && a + n <= bs[k].end;
    } else {
      RunInBlock(bs, a, n - 1);
      var k :| 0 <= k < |bs| && bs[k].start <= a && a + (n - 1) <= bs[k].end;
      assert Covers(bs, a + n - 1);
      var j :| 0 <= j < |bs| && Holds(bs[j], a + n - 1);
      assert j == k;
    }
  }

  lemma BlockIsRun(bs: seq<Region>, k: nat, n: nat)
    requires k < |bs| && n <= bs[k].end - bs[k].start
    ensures IsRun(bs, bs[k].start, n)
  {
  }

  // ----- allocation -----

  /** `alloc_block`: `None` is the out-of-memory panic, otherwise the start of the block and the new list. */
  datatype AllocResult = OutOfMemory | Allocated(start: nat, bs: seq<Region>)

  ghost function AllocBlock(bs: seq<Region>, n: nat): AllocResult {
    var k := FirstFit(bs, n);
    if k == |bs| then OutOfMemory else Allocated(bs[k].start, Carve(bs, k, n))
  }

  /** Out of memory is reported exactly when no run of `n` consecutive free frames exists. */
  lemma AllocFailsIff(bs: seq<Region>, n: nat)
    requires MaximalRuns(bs) && n >= 1
    ensures AllocBlock(bs, n).OutOfMemory? <==> forall a: nat :: !IsRun(bs, a, n)
  {
    var k := FirstFit(bs, n);
    if k == |bs| {
      forall a: nat ensures !IsRun(bs, a, n) {
        if IsRun(bs, a, n) {
          RunInBlock(bs, a, n);
        }
      }
    } else {
      BlockIsRun(bs, k, n);
    }
  }

  /** The block returned is the lowest run of `n` free frames; exactly its frames leave the list. */
  lemma AllocCorrect(bs: seq<Region>, n: nat)
    requires MaximalRuns(bs) && n >= 1 && AllocBlock(bs, n).Allocated?
    ensures var r := AllocBlock(bs, n);
            && IsRun(bs, r.start, n)
            && (forall a: nat :: a < r.start ==> !IsRun(bs, a, n))
            && MaximalRuns(r.bs)
            && (forall f: nat :: Covers(r.bs, f) <==> Covers(bs, f) && !(r.start <= f < r.start + n))
  {
    var k := FirstFit(bs, n);
    BlockIsRun(bs, k, n);
    forall a: nat | a < bs[k].start ensures !IsRun(bs, a, n) {
      if IsRun(bs, a, n) {
        RunInBlock(bs, a, n);
      }
    }
    CarveSeparated(bs, k, n);
    forall f: nat ensures Covers(Carve(bs, k, n), f) <==> Covers(bs, f) && !(bs[k].start <= f < bs[k].start + n) {
      CarveCovers(bs, k, n, f);
    }
  }

  // ----- freeing -----

  datatype FreeResult = Panic | Freed(bs: seq<Region>)

  ghost predicate Overlaps(s: nat, e: nat, b: Region) { !(e <= b.start || s >= b.end) }

  /** `free_block`: walk the list, fuse with a neighbour or insert; overlap with a block met on the way panics. */
  ghost function FreeBlock(bs: seq<Region>, s: nat, e: nat): FreeResult {
    if bs == [] then Freed([Region(s, e)])
    else
      var b := bs[0];
      if Overlaps(s, e, b) then Panic
      else if e == b.start then Freed([Region(s, b.end)] + bs[1..])
      else if b.end == s then
        if |bs| > 1 && e == bs[1].start then Freed([Region(b.start, bs[1].end)] + bs[2..])
        else Freed([Region(b.start, e)] + bs[1..])
      else if b.end > s then Freed([Region(s, e)] + bs)
      else
        match FreeBlock(bs[1..], s, e)
        case Panic => Panic
        case Freed(rest) => Freed([b] + rest)
  }

  lemma RunsTail(bs: seq<Region>)
    requires MaximalRuns(bs) && bs != []
    ensures MaximalRuns(bs[1..])
    ensures forall k :: 0 <= k < |bs[1..]| ==> bs[0].end < bs[1..][k].start
  {
  }

  lemma RunsCons(b: Region, rest: seq<Region>)
    requires MaximalRuns(rest) && b.start < b.end && (rest != [] ==> b.end < rest[0].start)
    ensures MaximalRuns([b] + rest)
  {
  }

  /** Freeing panics exactly when the range overlaps a block and no block ends where the range starts. */
  lemma {:induction false} FreePanicsIff(bs: seq<Region>, s: nat, e: nat)
    requires MaximalRuns(bs) && s <= e
    ensures FreeBlock(bs, s, e).Panic? <==>
              && (exists k :: 0 <= k < |bs| && Overlaps(s, e, bs[k]))
              && (forall k :: 0 <= k < |bs| ==> bs[k].end != s)
    decreases |bs|
  {
    if bs != [] {
      var b := bs[0];
      RunsTail(bs);
      if Overlaps(s, e, b) {
        assert forall k :: 1 <= k < |bs| ==> bs[k].end > s;
      } else if e == b.start || b.end > s {
        assert forall k :: 0 <= k < |bs| ==> !Overlaps(s, e, bs[k]);
      } else if b.end != s {
        FreePanicsIff(bs[1..], s, e);
        assert forall k :: 1 <= k < |bs| ==> bs[k] == bs[1..][k - 1];
        assert forall k :: 0 <= k < |bs[1..]| ==> bs[1..][k] == bs[k + 1];
      }
    }
  }

  /** A free range that overlaps the block behind its upper neighbour goes unnoticed and corrupts the list. */
  lemma UndetectedOverlap(a: nat, b: nat, c: nat, d: nat, e: nat)
    requires a < b < c < d && c < e < d
    ensures FreeBlock([Region(a, b), Region(c, d)], b, e) == Freed([Region(a, e), Region(c, d)])
    ensures !Separated([Region(a, e), Region(c, d)])
  {
    var bs := [Region(a, b), Region(c, d)];
    assert bs[1..] == [Region(c, d)];
    var out := [Region(a, e), Region(c, d)];
    assert [Region(a, e)] + bs[1..] == out;
    assert out[0].end > out[1].start;
  }

  /** Freeing frames that are not free adds exactly them and keeps the list made of maximal runs. */
  lemma {:induction false} FreeCorrect(bs: seq<Region>, s: nat, e: nat)
    requires MaximalRuns(bs) && s < e
    requires forall k :: 0 <= k < |bs| ==> !Overlaps(s, e, bs[k])
    ensures FreeBlock(bs, s, e).Freed?
    ensures MaximalRuns(FreeBlock(bs, s, e).bs)
    ensures FreeBlock(bs, s, e).bs[0].start == if bs == [] then s else Min(s, bs[0].start)
    decreases |bs|
  {
    if bs == [] {
      RunsCons(Region(s, e), []);
    } else {
      var b, tail := bs[0], bs[1..];
      RunsTail(bs);
      if e == b.start {
        RunsCons(Region(s, b.end), tail);
      } else if b.end == s {
        if |bs| > 1 && e == bs[1].start {
          RunsTail(tail);
          assert tail[1..] == bs[2..];
          RunsCons(Region(b.start, bs[1].end), bs[2..]);
        } else {
          RunsCons(Region(b.start, e), tail);
        }
      } else if b.end > s {
        RunsCons(Region(s, e), bs);
      } else {
        FreeCorrect(tail, s, e);
        RunsCons(b, FreeBlock(tail, s, e).bs);
      }
    }
  }

  lemma {:induction false} FreeCovers(bs: seq<Region>, s: nat, e: nat, f: nat)
    requires MaximalRuns(bs) && s <= e && FreeBlock(bs, s, e).Freed?
    requires forall k :: 0 <= k < |bs| ==> !Overlaps(s, e, bs[k])
    ensures Covers(FreeBlock(bs, s, e).bs, f) <==> Covers(bs, f) || s <= f < e
    decreases |bs|
  {
    if bs == [] {
      CoversOne(Region(s, e), f);
    } else {
      var b, tail := bs[0], bs[1..];
      RunsTail(bs);
      CoversCons(bs, f);
      if e == b.start {
        CoversCons([Region(s, b.end)] + tail, f);
        assert ([Region(s, b.end)] + tail)[1..] == tail;
      } else if b.end == s {
        if |bs| > 1 && e == bs[1].start {
          var out := [Region(b.start, bs[1].end)] + bs[2..];
          CoversCons(tail, f);
          assert tail[1..] == bs[2..] && out[1..] == bs[2..];
          CoversCons(out, f);
        } else {
          CoversCons([Region(b.start, e)] + tail, f);
          assert ([Region(b.start, e)] + tail)[1..] == tail;
        }
      } else if b.end > s {
        CoversCons([Region(s, e)] + bs, f);
        assert ([Region(s, e)] + bs)[1..] == bs;
      } else {
        var rest := FreeBlock(tail, s, e).bs;
        assert forall k :: 0 <= k < |tail| ==> tail[k] == bs[k + 1];
        FreeCovers(tail, s, e, f);
        CoversCons([b] + rest, f);
        assert ([b] + rest)[1..] == rest;
      }
    }
  }

  /** A range that overlaps a block and is taken in all the same leaves blocks that overlap. */
  lemma {:induction false} FreeBreaks(bs: seq<Region>, s: nat, e: nat, j: nat)
    requires MaximalRuns(bs) && s < e && FreeBlock(bs, s, e).Freed? && j < |bs| && Overlaps(s, e, bs[j])
    ensures !MaximalRuns(FreeBlock(bs, s, e).bs)
    decreases |bs|
  {
    var b, tail, out := bs[0], bs[1..], FreeBlock(bs, s, e).bs;
    RunsTail(bs);
    assert tail[j - 1] == bs[j];
    if b.end == s {
      assert out == [Region(b.start, e)] + tail;
      assert out[0].end == e && out[1] == tail[0] && tail[0].start < e;
    } else {
      FreeBreaks(tail, s, e, j - 1);
      var rest := FreeBlock(tail, s, e).bs;
      assert out == [b] + rest && out[1..] == rest;
      if MaximalRuns(out) {
        RunsTail(out);
      }
    }
  }

  /** The list keeps holding maximal runs if and only if no block overlaps the range. */
  lemma FreeKeepsIff(bs: seq<Region>, s: nat, e: nat)
    requires MaximalRuns(bs) && s < e && FreeBlock(bs, s, e).Freed?
    ensures MaximalRuns(FreeBlock(bs, s, e).bs) <==> forall k :: 0 <= k < |bs| ==> !Overlaps(s, e, bs[k])
  {
    if j: nat :| j < |bs| && Overlaps(s, e, bs[j]) {
      FreeBreaks(bs, s, e, j);
    } else {
      FreeCorrect(bs, s, e);
    }
  }
}
