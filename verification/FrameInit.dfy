/** Starting either frame allocator from the finalized boot record. */
module FrameInit {
  import opened Arith
  import opened Regions
  import opened RegionAlgebra
  import opened FreeList
  import FrameAllocator
  import FrameRun
  import FrameLf
  import Dram

  /** A region of addresses as a range of frames. */
  function InFrames(r: Region): Region { Region(r.start / PAGE_SIZE, r.end / PAGE_SIZE) }

  lemma FrameOf(r: Region, f: nat)
    requires r.start % PAGE_SIZE == 0 && r.end % PAGE_SIZE == 0
    ensures Holds(InFrames(r), f) <==> Holds(r, f * PAGE_SIZE)
  {
  }

  // ----- the locking allocator -----

  /** `mark_avail` for one available region. */
  ghost function MarkAvail(bs: seq<Region>, r: Region): FreeResult {
    if r.start >= r.end then Freed(bs)
    else if r.start == 0 && r.end <= PAGE_SIZE then Freed(bs)
    else
      var first := if r.start == 0 then PAGE_SIZE else r.start;
      FreeBlock(bs, first / PAGE_SIZE, r.end / PAGE_SIZE)
  }

  /** The free list after the regions of `av` were freed one by one. */
  ghost function Filled(av: seq<Region>): FreeResult {
    if av == [] then Freed([])
    else
      match Filled(av[..|av| - 1])
      case Panic => Panic
      case Freed(bs) => MarkAvail(bs, av[|av| - 1])
  }

  lemma Below(bs: seq<Region>, av: seq<Region>, s: nat, e: nat)
    requires MaximalRuns(bs) && Disjoint(av) && s < e
    requires forall f: nat :: Covers(bs, f) ==> Covers(av, f * PAGE_SIZE)
    requires forall k :: 0 <= k < |av| ==> av[k].end <= s * PAGE_SIZE
    ensures forall k :: 0 <= k < |bs| ==> !Overlaps(s, e, bs[k])
  {
    forall k | 0 <= k < |bs|
      ensures bs[k].end <= s
    {
      var f := bs[k].end - 1;
      assert Holds(bs[k], f);
      assert Covers(bs, f);
      var j :| 0 <= j < |av| && Holds(av[j], f * PAGE_SIZE);
    }
  }

  /** The list ends up as the maximal runs of the available frames, page 0 aside. */
  lemma {:induction false} FilledCorrect(av: seq<Region>)
    requires Disjoint(av) && Aligned(av)
    ensures Filled(av).Freed? && MaximalRuns(Filled(av).bs)
    ensures forall f: nat :: Covers(Filled(av).bs, f) <==> f >= 1 && Covers(av, f * PAGE_SIZE)
    decreases |av|
  {
    if av != [] {
      var init, r := av[..|av| - 1], av[|av| - 1];
      DisjointInit(av);
      FilledCorrect(init);
      var bs := Filled(init).bs;
      MarkAvailCorrect(bs, init, r);
      forall f: nat
        ensures Covers(av, f * PAGE_SIZE) <==> Covers(init, f * PAGE_SIZE) || Holds(r, f * PAGE_SIZE)
      {
        CoversSplit(init, [r], f * PAGE_SIZE);
        CoversOne(r, f * PAGE_SIZE);
      }
    }
  }

  lemma MarkAvailCorrect(bs: seq<Region>, av: seq<Region>, r: Region)
    requires MaximalRuns(bs) && Disjoint(av)
    requires forall f: nat :: Covers(bs, f) ==> Covers(av, f * PAGE_SIZE)
    requires forall k :: 0 <= k < |av| ==> av[k].end <= r.start
    requires r.start % PAGE_SIZE == 0 && r.end % PAGE_SIZE == 0
    ensures MarkAvail(bs, r).Freed? && MaximalRuns(MarkAvail(bs, r).bs)
    ensures forall f: nat :: Covers(MarkAvail(bs, r).bs, f) <==> Covers(bs, f) || (f >= 1 && Holds(r, f * PAGE_SIZE))
  {
    var first := if r.start == 0 then PAGE_SIZE else r.start;
    if first < r.end {
      var s, e := first / PAGE_SIZE, r.end / PAGE_SIZE;
      Below(bs, av, s, e);
      FreeCorrect(bs, s, e);
      forall f: nat
        ensures Covers(MarkAvail(bs, r).bs, f) <==> Covers(bs, f) || (f >= 1 && Holds(r, f * PAGE_SIZE))
      {
        FreeCovers(bs, s, e, f);
        FrameOf(r, f);
      }
    }
  }

  /** `init` over the available regions; nothing overlaps, so nothing panics. */
  method FreeAll(av: seq<Region>) returns (ok: bool, list: FrameAllocator.PageFrameList)
    requires Disjoint(av) && Aligned(av)
    ensures ok && list.Valid() && MaximalRuns(list.blocks) && Filled(av) == Freed(list.blocks)
  {
    list := new FrameAllocator.PageFrameList();
    ok := true;
    for i := 0 to |av|
      invariant ok && list.Valid() && fresh(list)
      invariant Filled(av[..i]) == Freed(list.blocks)
    {
      FilledPrefix(av, i);
      FilledPrefix(av, i + 1);
      assert av[..i + 1][..i] == av[..i];
      var r := av[i];
      if r.end - r.start == 0 || (r.start == 0 && r.end <= PAGE_SIZE) {
        continue;
      }
      var first := if r.start == 0 then PAGE_SIZE else r.start;
      ok := list.FreeFrames(first / PAGE_SIZE, r.end / PAGE_SIZE);
    }
    assert av[..|av|] == av;
    FilledCorrect(av);
  }

  lemma FilledPrefix(av: seq<Region>, i: nat)
    requires Disjoint(av) && Aligned(av) && i <= |av|
    ensures Filled(av[..i]).Freed? && MaximalRuns(Filled(av[..i]).bs)
  {
    FilledCorrect(av[..i]);
  }

  // ----- the lock-free allocator -----

  /** Frames of the reserved regions. */
  ghost function Reserved(rs: seq<Region>): (fs: set<nat>) {
    if rs == [] then {} else
      var r := InFrames(rs[|rs| - 1]);
      Reserved(rs[..|rs| - 1]) + Span(r.start, r.end)
  }

  lemma {:induction false} ReservedIs(rs: seq<Region>, f: nat)
    requires Aligned(rs)
    ensures f in Reserved(rs) <==> Covers(rs, f * PAGE_SIZE)
    decreases |rs|
  {
    if rs != [] {
      var init, r := rs[..|rs| - 1], rs[|rs| - 1];
      assert rs == init + [r];
      ReservedIs(init, f);
      CoversSplit(init, [r], f * PAGE_SIZE);
      CoversOne(r, f * PAGE_SIZE);
      FrameOf(r, f);
    }
  }

  lemma {:induction false} ReservedBelow(rs: seq<Region>, a: nat)
    requires Aligned(rs) && forall k :: 0 <= k < |rs| ==> rs[k].end <= a
    ensures forall f :: f in Reserved(rs) ==> f * PAGE_SIZE < a
    decreases |rs|
  {
    if rs != [] {
      ReservedBelow(rs[..|rs| - 1], a);
    }
  }

  /**
    `init` and `finalize`: all frames below the limit, less the reserved ones.  No reservation panics
    when the reserved list is what the boot record ends with.
   */
  method ReserveAll(rs: seq<Region>, limit: nat, maxOrder: nat) returns (ok: bool, alloc: FrameLf.LLFree)
    requires Disjoint(rs) && Aligned(rs) && Within(rs, 0, limit)
    requires FrameLf.Pow2(maxOrder) < WORD
    ensures ok && alloc.maxOrder == maxOrder
    ensures alloc.free == Span(0, limit / PAGE_SIZE) - Reserved(rs)
  {
    alloc := new FrameLf.LLFree(limit / PAGE_SIZE, maxOrder);
    ok := true;
    for i := 0 to |rs|
      invariant ok && alloc.maxOrder == maxOrder
      invariant alloc.free == Span(0, limit / PAGE_SIZE) - Reserved(rs[..i])
    {
      var r := rs[i];
      assert rs[..i + 1][..i] == rs[..i];
      if r.end - r.start == 0 {
        continue;
      }
      StillFree(rs, i, limit);
      ghost var chunks;
      ok, chunks := alloc.MarkReserved(r.start, (r.end - r.start) / PAGE_SIZE);
    }
    assert rs[..|rs|] == rs;
  }

  lemma StillFree(rs: seq<Region>, i: nat, limit: nat)
    requires Disjoint(rs) && Aligned(rs) && Within(rs, 0, limit) && i < |rs| && rs[i].start < rs[i].end
    ensures var r := InFrames(rs[i]);
            && r.start + (rs[i].end - rs[i].start) / PAGE_SIZE == r.end && r.start < r.end
            && Span(r.start, r.end) <= Span(0, limit / PAGE_SIZE) - Reserved(rs[..i])
  {
    ReservedBelow(rs[..i], rs[i].start);
  }

  // ----- both start from the same frames -----

  /** Both allocators start with the same free frames, for every finalized boot record. */
  lemma SameStart(st: Dram.State)
    requires Dram.Inv(st) && st.finalized
    requires forall a: nat :: Covers(st.rs, a) <==> a < st.limit && !Covers(st.av, a)
    ensures Filled(st.av).Freed?
    ensures FrameRun.FrameSet(Filled(st.av).bs) == Span(0, st.limit / PAGE_SIZE) - Reserved(st.rs)
  {
    FilledCorrect(st.av);
    var bs := Filled(st.av).bs;
    forall f: nat
      ensures f in FrameRun.FrameSet(bs) <==> f in Span(0, st.limit / PAGE_SIZE) - Reserved(st.rs)
    {
      ReservedIs(st.rs, f);
      assert f < st.limit / PAGE_SIZE <==> f * PAGE_SIZE < st.limit;
      if Covers(st.av, f * PAGE_SIZE) {
        var k :| 0 <= k < |st.av| && Holds(st.av[k], f * PAGE_SIZE);
      }
    }
  }

  /** In particular after every boot run. */
  lemma SameStartAfterBoot(ops: seq<Dram.Op>)
    requires Dram.Boot(ops) && Dram.Apply(Dram.After(ops).st, Dram.Finalize).Next?
    ensures var st := Dram.Apply(Dram.After(ops).st, Dram.Finalize).st;
            && Filled(st.av).Freed?
            && FrameRun.FrameSet(Filled(st.av).bs) == Span(0, st.limit / PAGE_SIZE) - Reserved(st.rs)
  {
    var st := Dram.Apply(Dram.After(ops).st, Dram.Finalize).st;
    Dram.BootFinalize(ops, 0);
    forall a: nat ensures Covers(st.rs, a) <==> a < st.limit && !Covers(st.av, a) {
      Dram.BootFinalize(ops, a);
    }
    SameStart(st);
  }
}
