/**
  Runs of the locking frame allocator under any interleaving of threads.  `alloc_frames` and
  `free_frames` change the counter first and the list, under its lock, in a later atomic step.
 */
module FrameRun {
  import opened Arith
  import opened Regions
  import opened RegionAlgebra
  import opened FreeList
  import opened FrameAllocator

  /** What a thread has announced to the counter but not yet done to the list. */
  datatype Thread = Idle | AllocPending(n: nat) | FreePending(s: nat, e: nat)

  /** `owned` are the frames allocated and not given up for freeing. */
  datatype State = State(blocks: seq<Region>, counter: nat, owned: set<nat>, threads: seq<Thread>)

  datatype Step =
    | BeginAlloc(t: nat, n: nat)
    | TakeAlloc(t: nat)
    | BeginFree(t: nat, s: nat, e: nat)
    | PutFree(t: nat)

  /** A thread frees a non-empty range of frames it owns; an allocation that finds no block stops the kernel. */
  ghost predicate Next(st: State, step: Step, st2: State) {
    && step.t < |st.threads|
    && var th := st.threads[step.t];
    match step
    case BeginAlloc(t, n) =>
      && th.Idle?
      && st2 == st.(counter := Minus(st.counter, n), threads := st.threads[t := AllocPending(n)])
    case TakeAlloc(t) =>
      && th.AllocPending?
      && AllocBlock(st.blocks, th.n).Allocated?
      && var r := AllocBlock(st.blocks, th.n);
         st2 == st.(blocks := r.bs, owned := st.owned + Span(r.start, r.start + th.n), threads := st.threads[t := Idle])
    case BeginFree(t, s, e) =>
      && th.Idle? && s < e && Span(s, e) <= st.owned
      && st2 == st.(counter := Plus(st.counter, e - s), owned := st.owned - Span(s, e),
                    threads := st.threads[t := FreePending(s, e)])
    case PutFree(t) =>
      && th.FreePending?
      && FreeBlock(st.blocks, th.s, th.e).Freed?
      && st2 == st.(blocks := FreeBlock(st.blocks, th.s, th.e).bs, threads := st.threads[t := Idle])
  }

  // ----- sets and sizes -----

  ghost function FrameSet(bs: seq<Region>): (fs: set<nat>)
    ensures forall f: nat :: f in fs <==> Covers(bs, f)
  {
    if bs == [] then {} else
      var init, last := bs[..|bs| - 1], bs[|bs| - 1];
      var fs := FrameSet(init) + Span(last.start, last.end);
      assert forall f: nat :: f in fs <==> Covers(bs, f) by {
        forall f: nat ensures f in fs <==> Covers(bs, f) {
          assert bs == init + [last];
          CoversSplit(init, [last], f);
          CoversOne(last, f);
        }
      }
      fs
  }

  lemma BelowLast(bs: seq<Region>)
    requires MaximalRuns(bs) && bs != []
    ensures FrameSet(bs[..|bs| - 1]) !! Span(bs[|bs| - 1].start, bs[|bs| - 1].end)
  {
  }

  lemma {:induction false} SizeIsCount(bs: seq<Region>)
    requires MaximalRuns(bs)
    ensures |FrameSet(bs)| == Size(bs)
    decreases |bs|
  {
    if bs != [] {
      SizeIsCount(bs[..|bs| - 1]);
      SpanSize(bs[|bs| - 1].start, bs[|bs| - 1].end);
      BelowLast(bs);
    }
  }

  /** Frames a thread has announced as freed and not put into the list yet. */
  ghost function Out(th: Thread): set<nat> {
    if th.FreePending? then Span(th.s, th.e) else {}
  }

  ghost function InFlight(ts: seq<Thread>): set<nat> {
    set t, f | 0 <= t < |ts| && f in Out(ts[t]) :: f
  }

  /** How much the counter is ahead of the list because of one thread. */
  ghost function Ahead(th: Thread): int {
    match th
    case Idle => 0
    case AllocPending(n) => 0 - n
    case FreePending(s, e) => e - s
  }

  ghost function Skew(ts: seq<Thread>): int {
    if ts == [] then 0 else Skew(ts[..|ts| - 1]) + Ahead(ts[|ts| - 1])
  }

  lemma {:induction false} SkewUpdate(ts: seq<Thread>, t: nat, th: Thread)
    requires t < |ts|
    ensures Skew(ts[t := th]) == Skew(ts) - Ahead(ts[t]) + Ahead(th)
    decreases |ts|
  {
    var ts2, n := ts[t := th], |ts| - 1;
    if t < n {
      SkewUpdate(ts[..n], t, th);
      assert ts2[..n] == ts[..n][t := th];
    } else {
      assert ts2[..n] == ts[..n];
    }
  }

  // ----- the invariant -----

  /**
    The list holds the maximal runs of its frames; frames in the list, owned and in flight are apart and make
    up `total`; the counter differs from the size of the list by what is pending, modulo the word size.
   */
  ghost predicate Inv(st: State, total: set<nat>, offset: int) {
    && MaximalRuns(st.blocks)
    && st.counter < WORD
    && Apart(FrameSet(st.blocks), st.owned, st.threads)
    && total == FrameSet(st.blocks) + st.owned + InFlight(st.threads)
    && Balanced(st, offset)
  }

  ghost predicate Apart(free: set<nat>, owned: set<nat>, ts: seq<Thread>) {
    && free !! owned
    && (forall t :: 0 <= t < |ts| ==> Out(ts[t]) !! free && Out(ts[t]) !! owned)
    && (forall t :: 0 <= t < |ts| && ts[t].FreePending? ==> ts[t].s < ts[t].e)
    && (forall t, u :: 0 <= t < u < |ts| ==> Out(ts[t]) !! Out(ts[u]))
  }

  /** The frames of one thread against all other frames in flight. */
  lemma InFlightUpdate(ts: seq<Thread>, t: nat, th: Thread)
    requires t < |ts| && forall a, b :: 0 <= a < b < |ts| ==> Out(ts[a]) !! Out(ts[b])
    ensures InFlight(ts[t := th]) == InFlight(ts) - Out(ts[t]) + Out(th)
    ensures Out(ts[t]) <= InFlight(ts)
  {
    var ts2 := ts[t := th];
    forall f | f in InFlight(ts2)
      ensures f in InFlight(ts) - Out(ts[t]) + Out(th)
    {
      var u :| 0 <= u < |ts2| && f in Out(ts2[u]);
      if u != t {
        assert f in Out(ts[u]);
      }
    }
    forall f | f in InFlight(ts) - Out(ts[t]) + Out(th)
      ensures f in InFlight(ts2)
    {
      if f in Out(th) {
        assert f in Out(ts2[t]);
      } else {
        var u :| 0 <= u < |ts| && f in Out(ts[u]);
        assert f in Out(ts2[u]);
      }
    }
  }

  lemma AllocZero(bs: seq<Region>)
    requires MaximalRuns(bs) && AllocBlock(bs, 0).Allocated?
    ensures AllocBlock(bs, 0).bs == bs
  {
  }

  /** What allocation does to the set of free frames: a range of it leaves. */
  lemma AllocSets(bs: seq<Region>, n: nat)
    requires MaximalRuns(bs) && AllocBlock(bs, n).Allocated?
    ensures var r := AllocBlock(bs, n);
            && MaximalRuns(r.bs)
            && Span(r.start, r.start + n) <= FrameSet(bs)
            && FrameSet(r.bs) == FrameSet(bs) - Span(r.start, r.start + n)
  {
    if n == 0 {
      AllocZero(bs);
    } else {
      AllocCorrect(bs, n);
    }
  }

  lemma SizeAt(bs: seq<Region>, k: nat)
    requires Ordered(bs) && k < |bs|
    ensures Ordered(bs[..k]) && Ordered(bs[k + 1..])
    ensures Size(bs) == Size(bs[..k]) + (bs[k].end - bs[k].start) + Size(bs[k + 1..])
  {
    OrderedParts(bs, k);
    SizeSplice(bs[..k], bs[k], bs[k + 1..]);
  }

  lemma OrderedParts(bs: seq<Region>, k: nat)
    requires Ordered(bs) && k < |bs|
    ensures Ordered(bs[..k]) && Ordered(bs[k + 1..]) && bs[k].start <= bs[k].end
    ensures bs == bs[..k] + [bs[k]] + bs[k + 1..]
  {
  }

  lemma CarveSize(bs: seq<Region>, k: nat, n: nat)
    requires Ordered(bs) && k < |bs| && n <= bs[k].end - bs[k].start
    ensures Ordered(Carve(bs, k, n)) && Size(Carve(bs, k, n)) == Size(bs) - n
  {
    SizeAt(bs, k);
    if bs[k].start + n == bs[k].end {
      SizeConcat(bs[..k], bs[k + 1..]);
    } else {
      var out := bs[k := Region(bs[k].start + n, bs[k].end)];
      assert out[..k] == bs[..k] && out[k + 1..] == bs[k + 1..];
      SizeAt(out, k);
    }
  }

  lemma {:induction false} SizeConcat(xs: seq<Region>, ys: seq<Region>)
    requires Ordered(xs) && Ordered(ys)
    ensures Ordered(xs + ys) && Size(xs + ys) == Size(xs) + Size(ys)
    decreases |ys|
  {
    if ys == [] {
      assert xs + ys == xs;
    } else {
      var init := ys[..|ys| - 1];
      assert (xs + ys)[..|xs + ys| - 1] == xs + init;
      SizeConcat(xs, init);
    }
  }

  lemma SizeSplice(xs: seq<Region>, r: Region, ys: seq<Region>)
    requires Ordered(xs) && Ordered(ys) && r.start <= r.end
    ensures Ordered(xs + [r] + ys) && Size(xs + [r] + ys) == Size(xs) + (r.end - r.start) + Size(ys)
  {
    SizeConcat(xs, [r]);
    SizeConcat(xs + [r], ys);
    assert [r][..0] == [];
  }

  lemma SizeCons(r: Region, ys: seq<Region>)
    requires Ordered(ys) && r.start <= r.end
    ensures Ordered([r] + ys) && Size([r] + ys) == (r.end - r.start) + Size(ys)
  {
    SizeSplice([], r, ys);
    assert [] + [r] + ys == [r] + ys;
  }

  lemma ApartNoOverlap(bs: seq<Region>, s: nat, e: nat)
    requires NonEmpty(bs) && s < e && Span(s, e) !! FrameSet(bs)
    ensures forall k :: 0 <= k < |bs| ==> !Overlaps(s, e, bs[k])
  {
    forall k | 0 <= k < |bs| ensures !Overlaps(s, e, bs[k]) {
      var f := Max(s, bs[k].start);
      assert Holds(bs[k], f) ==> f in FrameSet(bs);
      assert f < e ==> f in Span(s, e);
    }
  }

  /** What freeing does, for frames that are not free; and it does not panic. */
  lemma FreeSets(bs: seq<Region>, s: nat, e: nat)
    requires MaximalRuns(bs) && s < e && Span(s, e) !! FrameSet(bs)
    ensures FreeBlock(bs, s, e).Freed?
    ensures MaximalRuns(FreeBlock(bs, s, e).bs)
    ensures FrameSet(FreeBlock(bs, s, e).bs) == FrameSet(bs) + Span(s, e)
  {
    ApartNoOverlap(bs, s, e);
    FreeCorrect(bs, s, e);
    var bs2 := FreeBlock(bs, s, e).bs;
    forall f: nat ensures Covers(bs2, f) <==> Covers(bs, f) || s <= f < e {
      FreeCovers(bs, s, e, f);
    }
  }

  lemma {:induction false} FreeSize(bs: seq<Region>, s: nat, e: nat)
    requires Ordered(bs) && s < e && FreeBlock(bs, s, e).Freed?
    ensures Ordered(FreeBlock(bs, s, e).bs) && Size(FreeBlock(bs, s, e).bs) == Size(bs) + (e - s)
    decreases |bs|
  {
    if bs == [] {
      SizeCons(Region(s, e), []);
    } else {
      var b, tail := bs[0], bs[1..];
      assert bs == [b] + tail;
      SizeCons(b, tail);
      if e == b.start {
        SizeCons(Region(s, b.end), tail);
      } else if b.end == s {
        if |bs| > 1 && e == bs[1].start {
          assert tail == [bs[1]] + bs[2..];
          SizeCons(bs[1], bs[2..]);
          SizeCons(Region(b.start, bs[1].end), bs[2..]);
        } else {
          SizeCons(Region(b.start, e), tail);
        }
      } else if b.end > s {
        SizeCons(Region(s, e), bs);
      } else {
        FreeSize(tail, s, e);
        SizeCons(b, FreeBlock(tail, s, e).bs);
      }
    }
  }

  // ----- every step -----

  ghost predicate Balanced(st: State, offset: int)
    requires Ordered(st.blocks)
  {
    (st.counter - Size(st.blocks) - Skew(st.threads) - offset) % WORD == 0
  }

  lemma CounterMoves(c: int, size: int, skew: int, offset: int, d: int, c2: int, size2: int, skew2: int)
    requires (c - size - skew - offset) % WORD == 0
    requires c2 == (c + d) % WORD && size2 + skew2 == size + skew + d
    ensures (c2 - size2 - skew2 - offset) % WORD == 0
  {
  }

  /** A beginning step moves counter and skew together; a finishing step moves list and skew against each other. */
  lemma StepAmounts(st: State, step: Step, st2: State)
    requires MaximalRuns(st.blocks) && st.counter < WORD && Next(st, step, st2)
    requires step.PutFree? ==> st.threads[step.t].s < st.threads[step.t].e
    ensures Ordered(st2.blocks)
    ensures var d := if step.BeginAlloc? || step.BeginFree? then Ahead(st2.threads[step.t]) else 0;
            && st2.counter == (st.counter + d) % WORD
            && Size(st2.blocks) + Skew(st2.threads) == Size(st.blocks) + Skew(st.threads) + d
  {
    if step.BeginAlloc? || step.BeginFree? {
      BeginAmounts(st, step, st2);
    } else {
      FinishAmounts(st, step, st2);
      InRange(st.counter);
    }
  }

  lemma InRange(c: nat)
    requires c < WORD
    ensures c % WORD == c
  {
  }

  lemma BeginAmounts(st: State, step: Step, st2: State)
    requires Next(st, step, st2) && (step.BeginAlloc? || step.BeginFree?)
    ensures st2.blocks == st.blocks && st2.counter == (st.counter + Ahead(st2.threads[step.t])) % WORD
    ensures Skew(st2.threads) == Skew(st.threads) + Ahead(st2.threads[step.t])
  {
    SkewUpdate(st.threads, step.t, st2.threads[step.t]);
  }

  lemma FinishAmounts(st: State, step: Step, st2: State)
    requires Ordered(st.blocks) && Next(st, step, st2) && (step.TakeAlloc? || step.PutFree?)
    requires step.PutFree? ==> st.threads[step.t].s < st.threads[step.t].e
    ensures Ordered(st2.blocks) && st2.counter == st.counter
    ensures Size(st2.blocks) + Skew(st2.threads) == Size(st.blocks) + Skew(st.threads)
  {
    var th := st.threads[step.t];
    SkewUpdate(st.threads, step.t, Idle);
    if step.TakeAlloc? {
      AllocSize(st.blocks, th.n);
    } else {
      FreeSize(st.blocks, th.s, th.e);
    }
  }

  lemma AllocSize(bs: seq<Region>, n: nat)
    requires Ordered(bs) && AllocBlock(bs, n).Allocated?
    ensures Ordered(AllocBlock(bs, n).bs) && Size(AllocBlock(bs, n).bs) == Size(bs) - n
  {
    CarveSize(bs, FirstFit(bs, n), n);
  }

  /** Each step moves the counter, the list or the pending amounts, never their balance. */
  lemma StepBalanced(st: State, step: Step, st2: State, offset: int)
    requires MaximalRuns(st.blocks) && st.counter < WORD && Balanced(st, offset) && Next(st, step, st2)
    requires step.PutFree? ==> st.threads[step.t].s < st.threads[step.t].e
    ensures Ordered(st2.blocks) && Balanced(st2, offset)
  {
    var d := if step.BeginAlloc? || step.BeginFree? then Ahead(st2.threads[step.t]) else 0;
    StepAmounts(st, step, st2);
    CounterMoves(st.counter, Size(st.blocks), Skew(st.threads), offset, d, st2.counter, Size(st2.blocks),
                 Skew(st2.threads));
  }

  /** One thread exchanges frames with the list and the owned frames; everyone else's stay put. */
  lemma ApartUpdate(free: set<nat>, owned: set<nat>, ts: seq<Thread>, t: nat, th: Thread, free2: set<nat>,
                    owned2: set<nat>)
    requires Apart(free, owned, ts) && t < |ts|
    requires free2 !! owned2 && free2 !! Out(th) && owned2 !! Out(th)
    requires free2 + owned2 + Out(th) == free + owned + Out(ts[t])
    requires th.FreePending? ==> th.s < th.e
    ensures Apart(free2, owned2, ts[t := th])
    ensures free2 + owned2 + InFlight(ts[t := th]) == free + owned + InFlight(ts)
  {
    var ts2 := ts[t := th];
    InFlightUpdate(ts, t, th);
    forall u | 0 <= u < |ts| && u != t
      ensures Out(ts2[u]) !! free2 && Out(ts2[u]) !! owned2 && Out(ts2[u]) !! Out(th)
    {
      assert Out(ts[u]) !! free && Out(ts[u]) !! owned && Out(ts[u]) !! Out(ts[t]);
      assert Out(ts[u]) !! free2 + owned2 + Out(th);
    }
  }

  /** Moving frames from one of three disjoint sets to another keeps them disjoint and their union the same. */
  lemma Move(from: set<nat>, to: set<nat>, other: set<nat>, x: set<nat>, from2: set<nat>, to2: set<nat>)
    requires from !! to && from !! other && to !! other && x <= from
    requires from2 == from - x && to2 == to + x
    ensures from2 !! to2 && from2 !! other && to2 !! other
    ensures from2 + to2 + other == from + to + other
  {
  }

  /** A step moves frames between the list, the owned frames and the frames in flight of its thread. */
  lemma StepMoves(st: State, step: Step, st2: State, free: set<nat>, free2: set<nat>, mine: set<nat>, mine2: set<nat>)
    requires MaximalRuns(st.blocks) && Next(st, step, st2)
    requires free == FrameSet(st.blocks) && mine == Out(st.threads[step.t])
    requires free2 == FrameSet(st2.blocks) && mine2 == Out(st2.threads[step.t])
    requires free !! st.owned && free !! mine && st.owned !! mine
    requires step.PutFree? ==> st.threads[step.t].s < st.threads[step.t].e
    ensures MaximalRuns(st2.blocks)
    ensures free2 !! st2.owned && free2 !! mine2 && st2.owned !! mine2
    ensures free2 + st2.owned + mine2 == free + st.owned + mine
  {
    match step
    case BeginAlloc(_, _) =>
    case TakeAlloc(_) => TakeMoves(st, step, st2, free, free2, mine, mine2);
    case BeginFree(_, s, e) => Move(st.owned, mine, free, Span(s, e), st2.owned, mine2);
    case PutFree(_) => PutMoves(st, step, st2, free, free2, mine, mine2);
  }

  lemma TakeMoves(st: State, step: Step, st2: State, free: set<nat>, free2: set<nat>, mine: set<nat>, mine2: set<nat>)
    requires MaximalRuns(st.blocks) && step.TakeAlloc? && Next(st, step, st2)
    requires free == FrameSet(st.blocks) && mine == Out(st.threads[step.t])
    requires free2 == FrameSet(st2.blocks) && mine2 == Out(st2.threads[step.t])
    requires free !! st.owned && free !! mine && st.owned !! mine
    ensures MaximalRuns(st2.blocks)
    ensures free2 !! st2.owned && free2 !! mine2 && st2.owned !! mine2
    ensures free2 + st2.owned + mine2 == free + st.owned + mine
  {
    var n := st.threads[step.t].n;
    var r := AllocBlock(st.blocks, n);
    var taken := Span(r.start, r.start + n);
    AllocSets(st.blocks, n);
    assert st2.blocks == r.bs && st2.owned == st.owned + taken && mine == {} && mine2 == {};
    Move(free, st.owned, mine, taken, free2, st2.owned);
  }

  lemma PutMoves(st: State, step: Step, st2: State, free: set<nat>, free2: set<nat>, mine: set<nat>, mine2: set<nat>)
    requires MaximalRuns(st.blocks) && step.PutFree? && Next(st, step, st2)
    requires free == FrameSet(st.blocks) && mine == Out(st.threads[step.t])
    requires free2 == FrameSet(st2.blocks) && mine2 == Out(st2.threads[step.t])
    requires free !! st.owned && free !! mine && st.owned !! mine
    requires st.threads[step.t].s < st.threads[step.t].e
    ensures MaximalRuns(st2.blocks)
    ensures free2 !! st2.owned && free2 !! mine2 && st2.owned !! mine2
    ensures free2 + st2.owned + mine2 == free + st.owned + mine
  {
    var th := st.threads[step.t];
    FreeSets(st.blocks, th.s, th.e);
    Move(mine, free, st.owned, Span(th.s, th.e), mine2, free2);
  }

  lemma StepApart(st: State, step: Step, st2: State)
    requires MaximalRuns(st.blocks) && Apart(FrameSet(st.blocks), st.owned, st.threads) && Next(st, step, st2)
    ensures MaximalRuns(st2.blocks) && Apart(FrameSet(st2.blocks), st2.owned, st2.threads)
    ensures FrameSet(st2.blocks) + st2.owned + InFlight(st2.threads)
            == FrameSet(st.blocks) + st.owned + InFlight(st.threads)
  {
    var t, th, th2 := step.t, st.threads[step.t], st2.threads[step.t];
    StepMoves(st, step, st2, FrameSet(st.blocks), FrameSet(st2.blocks), Out(th), Out(th2));
    ApartUpdate(FrameSet(st.blocks), st.owned, st.threads, t, th2, FrameSet(st2.blocks), st2.owned);
  }

  /** Every atomic step of every thread keeps the invariant, with the same total and the same offset. */
  lemma StepInv(st: State, step: Step, st2: State, total: set<nat>, offset: int)
    requires Inv(st, total, offset) && Next(st, step, st2)
    ensures Inv(st2, total, offset)
  {
    StepApart(st, step, st2);
    StepBalanced(st, step, st2, offset);
  }

  // ----- whole runs -----

  ghost predicate Run(states: seq<State>, steps: seq<Step>) {
    && |states| == |steps| + 1
    && forall i :: 0 <= i < |steps| ==> Next(states[i], steps[i], states[i + 1])
  }

  /** In every run no frame is lost, invented or handed out twice, and the counter keeps its balance. */
  lemma {:induction false} RunInv(states: seq<State>, steps: seq<Step>, total: set<nat>, offset: int)
    requires Run(states, steps) && Inv(states[0], total, offset)
    ensures Inv(states[|steps|], total, offset)
    decreases |steps|
  {
    if steps != [] {
      var k := |steps| - 1;
      assert Run(states[..k + 1], steps[..k]) by {
        forall i | 0 <= i < k ensures Next(states[..k + 1][i], steps[..k][i], states[..k + 1][i + 1]) {
          assert Next(states[i], steps[i], states[i + 1]);
        }
      }
      RunInv(states[..k + 1], steps[..k], total, offset);
      StepInv(states[k], steps[k], states[k + 1], total, offset);
    }
  }

  /** A new allocation shares no frame with anything owned or on its way back, in any reachable state. */
  lemma AllocationsDisjoint(states: seq<State>, steps: seq<Step>, total: set<nat>, offset: int, t: nat)
    requires Run(states, steps) && Inv(states[0], total, offset)
    requires var st := states[|steps|];
             t < |st.threads| && st.threads[t].AllocPending? && AllocBlock(st.blocks, st.threads[t].n).Allocated?
    ensures var st := states[|steps|];
            var r := AllocBlock(st.blocks, st.threads[t].n);
            var taken := Span(r.start, r.start + st.threads[t].n);
            taken <= total && taken !! st.owned && taken !! InFlight(st.threads)
  {
    var st := states[|steps|];
    RunInv(states, steps, total, offset);
    AllocSets(st.blocks, st.threads[t].n);
    assert InFlight(st.threads) !! FrameSet(st.blocks);
  }

  /** Frames that were owned can always be put back: the overlap panic is unreachable. */
  lemma FreeNeverPanics(states: seq<State>, steps: seq<Step>, total: set<nat>, offset: int, t: nat)
    requires Run(states, steps) && Inv(states[0], total, offset)
    requires t < |states[|steps|].threads| && states[|steps|].threads[t].FreePending?
    ensures var st := states[|steps|];
            FreeBlock(st.blocks, st.threads[t].s, st.threads[t].e).Freed?
  {
    var st := states[|steps|];
    RunInv(states, steps, total, offset);
    FreeSets(st.blocks, st.threads[t].s, st.threads[t].e);
  }

  lemma {:induction false} QuietSkew(ts: seq<Thread>)
    requires forall t :: 0 <= t < |ts| ==> ts[t].Idle?
    ensures Skew(ts) == 0
    decreases |ts|
  {
    if ts != [] {
      QuietSkew(ts[..|ts| - 1]);
    }
  }

  /** Whenever no call is under way, a counter set to the size of the list at the start still shows it. */
  lemma CounterShowsSize(states: seq<State>, steps: seq<Step>, total: set<nat>)
    requires Run(states, steps) && Inv(states[0], total, 0)
    requires forall t :: 0 <= t < |states[|steps|].threads| ==> states[|steps|].threads[t].Idle?
    ensures MaximalRuns(states[|steps|].blocks)
    ensures states[|steps|].counter == Size(states[|steps|].blocks) % WORD
  {
    RunInv(states, steps, total, 0);
    QuietSkew(states[|steps|].threads);
  }

  /** The wrappers around the locking allocator, as one thread runs them undisturbed. */
  class FrameMemory {
    const list: PageFrameList
    var counter: nat

    ghost predicate Valid()
      reads this, list
    {
      list.Valid() && MaximalRuns(list.blocks) && counter < WORD
    }

    constructor (list: PageFrameList)
      requires list.Valid() && MaximalRuns(list.blocks)
      ensures this.list == list && Valid() && counter == 0
    {
      this.list, counter := list, 0;
    }

    /** `init_total_free_frames`. */
    method InitCounter()
      requires Valid()
      modifies this
      ensures Valid() && counter == Size(list.blocks) % WORD
    {
      var total := list.TotalFree();
      counter := total % WORD;
    }

    /**
      `alloc_frames`: the counter first, then the list; `None` is the out-of-memory panic. Counter and
      list drop alike.
     */
    method AllocFrames(n: nat) returns (r: Option<Region>)
      requires Valid()
      modifies this, list
      ensures r.None? <==> AllocBlock(old(list.blocks), n).OutOfMemory?
      ensures r.Some? ==> AllocBlock(old(list.blocks), n) == Allocated(r.value.start, list.blocks)
      ensures r.Some? ==> r.value.end == r.value.start + n && Valid()
      ensures counter == Minus(old(counter), n)
      ensures r.Some? ==> Size(list.blocks) == old(Size(list.blocks)) - n
    {
      ghost var was := list.blocks;
      counter := Minus(counter, n);
      r := list.AllocFrames(n);
      if r.Some? {
        AllocSets(was, n);
        AllocSize(was, n);
      }
    }

    /**
      `free_frames`: the counter first, then the list; false is the overlap panic. For frames that are not
      free both grow alike.
     */
    method FreeFrames(s: nat, e: nat) returns (ok: bool)
      requires Valid() && s <= e
      modifies this, list
      ensures ok <==> FreeBlock(old(list.blocks), s, e).Freed?
      ensures ok ==> list.Valid() && FreeBlock(old(list.blocks), s, e) == Freed(list.blocks)
      ensures counter == Plus(old(counter), e - s)
      ensures NotFree(old(list.blocks), s, e) ==> ok && Valid() && Grown(old(list.blocks), list.blocks, s, e)
    {
      if NotFree(list.blocks, s, e) {
        FreeGrows(list.blocks, s, e);
      }
      counter := Plus(counter, e - s);
      ok := list.FreeFrames(s, e);
    }
  }

  /** A non-empty range without a free frame. */
  ghost predicate NotFree(bs: seq<Region>, s: nat, e: nat) {
    s < e && Span(s, e) !! FrameSet(bs)
  }

  /** The list `now` holds the frames of `was` and those of the range, as many more as the range is long. */
  ghost predicate Grown(was: seq<Region>, now: seq<Region>, s: nat, e: nat) {
    && MaximalRuns(was) && MaximalRuns(now)
    && FrameSet(now) == FrameSet(was) + Span(s, e)
    && Size(now) == Size(was) + (e - s)
  }

  lemma FreeGrows(bs: seq<Region>, s: nat, e: nat)
    requires MaximalRuns(bs) && NotFree(bs, s, e)
    ensures FreeBlock(bs, s, e).Freed? && Grown(bs, FreeBlock(bs, s, e).bs, s, e)
  {
    FreeSets(bs, s, e);
    FreeSize(bs, s, e);
  }
}
