/** The boot-time record of available and reserved physical memory. */
module Dram {
  import opened Arith
  import opened Regions
  import opened RegionAlgebra

  const MAX_REGIONS: nat := 1024
  const EMPTY_REGION := Region(0, 0)

  // ----- the operations on values -----

  /** Lists of available and reserved regions, the highest end seen, and whether `finalize` ran. */
  datatype State = State(av: seq<Region>, rs: seq<Region>, limit: nat, finalized: bool)

  const START := State([], [], 0, false)

  datatype Op =
    | Available(start: nat, end: nat)
    | Reserve(start: nat, end: nat)
    | Alloc(frames: nat)
    | Finalize

  /** `Panic` stands for every panic of the source; `granted` is the answer of `boot_alloc`. */
  datatype Outcome = Panic | Next(st: State, granted: seq<Region>)

  datatype Taking = Taking(left: seq<Region>, granted: seq<Region>)

  /** The first `len` addresses of the first region that has as many, and what is left. */
  ghost function Taken(av: seq<Region>, len: nat): Taking {
    var k := FirstFit(av, len);
    if k == |av| then Taking(av, []) else Taking(Carve(av, k, len), [Region(av[k].start, av[k].start + len)])
  }

  /** What `boot_alloc` asserts of every region it looks at, in debug builds. */
  predicate Checked(r: Region) { r.start % PAGE_SIZE == 0 && r.end % PAGE_SIZE == 0 && r.start < r.end }

  /** The search for `len` addresses comes to a region that fails this assertion. */
  ghost predicate MeetsUnchecked(av: seq<Region>, len: nat) {
    exists j :: 0 <= j < |av| && j <= FirstFit(av, len) && !Checked(av[j])
  }

  ghost function Apply(st: State, op: Op): Outcome {
    match op
    case Available(s, e) =>
      if s == 0 && e <= PAGE_SIZE then Next(st, [])
      else if st.finalized || |st.av| >= MAX_REGIONS then Panic
      else Next(st.(av := Insert(st.av, Region(if s == 0 then PAGE_SIZE else s, e)), limit := Max(st.limit, e)), [])
    case Reserve(s, e) =>
      if st.finalized || |st.rs| >= MAX_REGIONS then Panic
      else Next(st.(rs := Insert(st.rs, Region(s, e)), limit := Max(st.limit, e)), [])
    case Alloc(n) =>
      if n == 0 || n * PAGE_SIZE >= WORD then Panic
      else
        var taken := Taken(st.av, n * PAGE_SIZE);
        Next(st.(av := taken.left), taken.granted)
    case Finalize =>
      var av := Subtract(st.av, st.rs);
      var rs := if st.limit == 0 then [] else Complement(av, st.limit);
      if st.finalized || |av| > MAX_REGIONS || |rs| > MAX_REGIONS then Panic
      else Next(State(av, rs, st.limit, true), [])
  }

  /** Page frame ranges are page aligned and not inverted. */
  ghost predicate Proper(op: Op) {
    (op.Available? || op.Reserve?) ==>
      op.start <= op.end && op.start % PAGE_SIZE == 0 && op.end % PAGE_SIZE == 0
  }

  ghost predicate Bounded(rs: seq<Region>, lo: nat, limit: nat) {
    Aligned(rs) && Within(rs, lo, limit) && |rs| <= MAX_REGIONS
  }

  /** What holds after every boot run: page 0 is never available and every end is at most the limit. */
  ghost predicate Inv(st: State) {
    && Bounded(st.av, PAGE_SIZE, st.limit) && Bounded(st.rs, 0, st.limit)
    && st.limit % PAGE_SIZE == 0
    && Separated(st.rs)
    && (if st.finalized then Disjoint(st.av) && NonEmpty(st.av) else Separated(st.av))
  }

  lemma WithinMore(rs: seq<Region>, lo: nat, hi: nat, hi2: nat)
    requires Within(rs, lo, hi) && hi <= hi2
    ensures Within(rs, lo, hi2)
  {
  }

  lemma InsertBounded(rs: seq<Region>, r: Region, lo: nat, limit: nat)
    requires Separated(rs) && Bounded(rs, lo, limit) && |rs| < MAX_REGIONS
    requires lo <= r.start <= r.end && r.start % PAGE_SIZE == 0 && r.end % PAGE_SIZE == 0
    ensures Separated(Insert(rs, r)) && Bounded(Insert(rs, r), lo, Max(limit, r.end))
  {
    InsertCorrect(rs, r);
    WithinMore(rs, lo, limit, Max(limit, r.end));
    InsertBounds(rs, r, lo, Max(limit, r.end));
  }

  lemma CarveBounded(rs: seq<Region>, k: nat, len: nat, lo: nat, limit: nat)
    requires Bounded(rs, lo, limit) && k < |rs| && rs[k].end - rs[k].start >= len && len % PAGE_SIZE == 0
    ensures Bounded(Carve(rs, k, len), lo, limit)
    ensures Separated(rs) ==> Separated(Carve(rs, k, len))
    ensures Disjoint(rs) && NonEmpty(rs) ==> Disjoint(Carve(rs, k, len)) && NonEmpty(Carve(rs, k, len))
  {
    CarveBounds(rs, k, len, lo, limit);
    if Separated(rs) {
      CarveSeparated(rs, k, len);
    }
    if Disjoint(rs) && NonEmpty(rs) {
      CarveDisjoint(rs, k, len);
    }
  }

  lemma FinalizeBounded(av: seq<Region>, rs: seq<Region>, limit: nat)
    requires Separated(av) && Separated(rs) && Aligned(rs)
    requires Aligned(av) && Within(av, PAGE_SIZE, limit) && limit % PAGE_SIZE == 0
    ensures var out := Subtract(av, rs);
            && Aligned(out) && Within(out, PAGE_SIZE, limit) && Disjoint(out) && NonEmpty(out)
            && Separated(Complement(out, limit)) && NonEmpty(Complement(out, limit))
            && Aligned(Complement(out, limit)) && Within(Complement(out, limit), 0, limit)
  {
    var out := Subtract(av, rs);
    SubtractShape(av, rs);
    SubtractBounds(av, rs, PAGE_SIZE, limit);
    ComplementShape(out, limit);
    GapsAligned(out);
  }

  lemma AvailableInv(st: State, s: nat, e: nat)
    requires Inv(st) && Proper(Available(s, e)) && Apply(st, Available(s, e)).Next?
    ensures Inv(Apply(st, Available(s, e)).st)
  {
    if !(s == 0 && e <= PAGE_SIZE) {
      PageOrNone(s);
      InsertBounded(st.av, Region(if s == 0 then PAGE_SIZE else s, e), PAGE_SIZE, st.limit);
      WithinMore(st.rs, 0, st.limit, Max(st.limit, e));
    }
  }

  lemma ReserveInv(st: State, s: nat, e: nat)
    requires Inv(st) && Proper(Reserve(s, e)) && Apply(st, Reserve(s, e)).Next?
    ensures Inv(Apply(st, Reserve(s, e)).st)
  {
    InsertBounded(st.rs, Region(s, e), 0, st.limit);
    WithinMore(st.av, PAGE_SIZE, st.limit, Max(st.limit, e));
  }

  lemma AllocInv(st: State, n: nat)
    requires Inv(st) && Apply(st, Alloc(n)).Next?
    ensures Inv(Apply(st, Alloc(n)).st)
  {
    var len := n * PAGE_SIZE;
    var k := FirstFit(st.av, len);
    if k < |st.av| {
      PageMultiple(n);
      CarveBounded(st.av, k, len, PAGE_SIZE, st.limit);
    }
  }

  lemma FinalizeInv(st: State)
    requires Inv(st) && Apply(st, Finalize).Next?
    ensures Inv(Apply(st, Finalize).st)
  {
    FinalizeBounded(st.av, st.rs, st.limit);
  }

  /** Every operation that does not panic keeps the invariant. */
  lemma ApplyInv(st: State, op: Op)
    requires Inv(st) && Proper(op)
    ensures Apply(st, op).Next? ==> Inv(Apply(st, op).st)
  {
    if Apply(st, op).Next? {
      match op
      case Available(s, e) => AvailableInv(st, s, e);
      case Reserve(s, e) => ReserveInv(st, s, e);
      case Alloc(n) => AllocInv(st, n);
      case Finalize => FinalizeInv(st);
    }
  }

  // ----- whole boot runs -----

  /** The state after the operations `ops`, `Panic` if one of them panicked. */
  ghost function After(ops: seq<Op>): Outcome {
    if ops == [] then Next(START, [])
    else
      match After(ops[..|ops| - 1])
      case Panic => Panic
      case Next(st, _) => Apply(st, ops[|ops| - 1])
  }

  ghost predicate Boot(ops: seq<Op>) {
    && (forall i :: 0 <= i < |ops| ==> Proper(ops[i]) && !ops[i].Finalize?)
    && After(ops).Next?
  }

  /** The addresses the operations made available: everything inserted, page 0 aside, less everything granted since. */
  ghost predicate MadeAvailable(ops: seq<Op>, a: nat)
    requires Boot(ops)
  {
    ops != [] &&
    var rest := ops[..|ops| - 1];
    match ops[|ops| - 1]
    case Available(s, e) => MadeAvailable(rest, a) || (s <= a < e && PAGE_SIZE <= a)
    case Reserve(_, _) => MadeAvailable(rest, a)
    case Alloc(_) => MadeAvailable(rest, a) && !Covers(After(ops).granted, a)
  }

  ghost predicate MadeReserved(ops: seq<Op>, a: nat) {
    exists i :: 0 <= i < |ops| && ops[i].Reserve? && ops[i].start <= a < ops[i].end
  }

  lemma BootPrefix(ops: seq<Op>)
    requires Boot(ops) && ops != []
    ensures Boot(ops[..|ops| - 1])
  {
  }

  lemma {:induction false} BootInv(ops: seq<Op>)
    requires Boot(ops)
    ensures Inv(After(ops).st) && !After(ops).st.finalized
    decreases |ops|
  {
    if ops != [] {
      BootPrefix(ops);
      BootInv(ops[..|ops| - 1]);
      ApplyInv(After(ops[..|ops| - 1]).st, ops[|ops| - 1]);
    }
  }

  /** The operation puts a range into one of the sets; a range within page 0 is dropped. */
  ghost predicate Inserts(op: Op) { op.Reserve? || (op.Available? && (op.start > 0 || op.end > PAGE_SIZE)) }

  /** `limit` is the highest end of a range inserted, or 0 without one. */
  ghost predicate IsHighestEnd(ops: seq<Op>, limit: nat) {
    && (forall i :: 0 <= i < |ops| && Inserts(ops[i]) ==> ops[i].end <= limit)
    && (limit == 0 || exists i :: 0 <= i < |ops| && Inserts(ops[i]) && ops[i].end == limit)
  }

  lemma HighestEndStep(ops: seq<Op>, limit: nat)
    requires ops != [] && IsHighestEnd(ops[..|ops| - 1], limit)
    ensures var last := ops[|ops| - 1];
            IsHighestEnd(ops, if Inserts(last) then Max(limit, last.end) else limit)
  {
    var rest, last := ops[..|ops| - 1], ops[|ops| - 1];
    assert forall i :: 0 <= i < |rest| ==> rest[i] == ops[i];
    if limit > 0 {
      var i :| 0 <= i < |rest| && Inserts(rest[i]) && rest[i].end == limit;
      assert Inserts(ops[i]) && ops[i].end == limit;
    }
  }

  /** After every boot run the limit is the highest end inserted. */
  lemma {:induction false} BootLimit(ops: seq<Op>)
    requires Boot(ops)
    ensures IsHighestEnd(ops, After(ops).st.limit)
    decreases |ops|
  {
    if ops != [] {
      BootPrefix(ops);
      BootLimit(ops[..|ops| - 1]);
      HighestEndStep(ops, After(ops[..|ops| - 1]).st.limit);
    }
  }

  /** Before finalize, a range is taken in exactly as long as its set has a slot left. */
  lemma InsertAnswers(st: State, op: Op)
    requires Inserts(op)
    ensures Apply(st, op).Next? <==> !st.finalized && |if op.Reserve? then st.rs else st.av| < MAX_REGIONS
  {
  }

  /** Every request for at least one frame whose bytes fit a word gets an answer, and no other does. */
  lemma AllocAnswers(st: State, n: nat)
    ensures Apply(st, Alloc(n)).Next? <==> 0 < n < WORD / PAGE_SIZE
    ensures Apply(st, Alloc(n)).Next? && Apply(st, Alloc(n)).granted == [] ==> Apply(st, Alloc(n)).st == st
  {
  }

  /** Once finalized, nothing but allocation changes the record, and that takes available addresses away only. */
  lemma Sealed(st: State, op: Op, a: nat)
    requires Inv(st) && st.finalized && Proper(op) && Apply(st, op).Next?
    ensures var st2 := Apply(st, op).st;
            && st2.finalized && st2.rs == st.rs && st2.limit == st.limit
            && (st2 != st ==> op.Alloc?) && (Covers(st2.av, a) ==> Covers(st.av, a))
  {
    if op.Alloc? {
      AllocCovers(st, op.frames, a);
    }
  }

  lemma ReservedStep(ops: seq<Op>, a: nat)
    requires ops != []
    ensures var last := ops[|ops| - 1];
            MadeReserved(ops, a) <==>
              MadeReserved(ops[..|ops| - 1], a) || (last.Reserve? && last.start <= a < last.end)
  {
  }

  lemma AvailableCovers(st: State, s: nat, e: nat, a: nat)
    requires Inv(st) && Proper(Available(s, e)) && Apply(st, Available(s, e)).Next?
    ensures Covers(Apply(st, Available(s, e)).st.av, a) <==> Covers(st.av, a) || (s <= a < e && PAGE_SIZE <= a)
  {
    if !(s == 0 && e <= PAGE_SIZE) {
      PageOrNone(s);
      InsertCorrect(st.av, Region(if s == 0 then PAGE_SIZE else s, e));
    }
  }

  lemma AllocCovers(st: State, n: nat, a: nat)
    requires Inv(st) && Apply(st, Alloc(n)).Next?
    ensures Covers(Apply(st, Alloc(n)).st.av, a) <==> Covers(st.av, a) && !Covers(Apply(st, Alloc(n)).granted, a)
  {
    var k := FirstFit(st.av, n * PAGE_SIZE);
    if k < |st.av| {
      CarveCovers(st.av, k, n * PAGE_SIZE, a);
      CoversOne(Region(st.av[k].start, st.av[k].start + n * PAGE_SIZE), a);
    }
  }

  /** One operation changes the available and reserved addresses exactly as it should. */
  lemma ApplyCovers(st: State, op: Op, a: nat)
    requires Inv(st) && Proper(op) && !op.Finalize? && Apply(st, op).Next?
    ensures Covers(Apply(st, op).st.rs, a) <==> Covers(st.rs, a) || (op.Reserve? && op.start <= a < op.end)
    ensures Covers(Apply(st, op).st.av, a) <==>
              match op
              case Available(s, e) => Covers(st.av, a) || (s <= a < e && PAGE_SIZE <= a)
              case Reserve(_, _) => Covers(st.av, a)
              case Alloc(_) => Covers(st.av, a) && !Covers(Apply(st, op).granted, a)
              case Finalize => true
  {
    match op
    case Available(s, e) => AvailableCovers(st, s, e, a);
    case Reserve(s, e) => InsertCorrect(st.rs, Region(s, e));
    case Alloc(n) => AllocCovers(st, n, a);
    case Finalize =>
  }

  /** After every boot run each set is the exact fold of the operations. */
  lemma {:induction false} BootFold(ops: seq<Op>, a: nat)
    requires Boot(ops)
    ensures Covers(After(ops).st.av, a) <==> MadeAvailable(ops, a)
    ensures Covers(After(ops).st.rs, a) <==> MadeReserved(ops, a)
    decreases |ops|
  {
    if ops != [] {
      var rest := ops[..|ops| - 1];
      BootPrefix(ops);
      BootInv(rest);
      BootFold(rest, a);
      ApplyCovers(After(rest).st, ops[|ops| - 1], a);
      ReservedStep(ops, a);
    }
  }

  /** A grant comes out of the available addresses, from the lowest region that can hold it. */
  lemma GrantIsFirstFit(st: State, n: nat)
    requires Inv(st) && Apply(st, Alloc(n)).Next?
    ensures var granted := Apply(st, Alloc(n)).granted;
            && (granted == [] <==> forall k :: 0 <= k < |st.av| ==> st.av[k].end - st.av[k].start < n * PAGE_SIZE)
            && (granted != [] ==>
                  && granted[0].end - granted[0].start == n * PAGE_SIZE && Aligned(granted)
                  && (forall a: nat :: Covers(granted, a) ==> Covers(st.av, a))
                  && (forall k :: 0 <= k < |st.av| && st.av[k].start < granted[0].start ==>
                        st.av[k].end - st.av[k].start < n * PAGE_SIZE))
  {
    var len := n * PAGE_SIZE;
    var k := FirstFit(st.av, len);
    if k < |st.av| {
      PageMultiple(n);
      FrontInside(st.av, k, len);
    }
  }

  lemma FrontInside(av: seq<Region>, k: nat, len: nat)
    requires Disjoint(av) && k < |av| && av[k].end - av[k].start >= len
    requires av[k].start % PAGE_SIZE == 0 && len % PAGE_SIZE == 0
    ensures var front := [Region(av[k].start, av[k].start + len)];
            Aligned(front) && forall a: nat :: Covers(front, a) ==> Covers(av, a)
    ensures forall j :: 0 <= j < |av| && av[j].start < av[k].start ==> j < k
  {
    var front := [Region(av[k].start, av[k].start + len)];
    forall a: nat | Covers(front, a) ensures Covers(av, a) {
      CoversOne(front[0], a);
      assert Holds(av[k], a);
    }
  }

  /**
    `finalize` after any boot run: available is what was made available and not reserved, reserved is
    the rest below the limit, so the two partition `[0, limit)` and page 0 is not available.  The limit is
    the highest end inserted.
   */
  lemma BootFinalize(ops: seq<Op>, a: nat)
    requires Boot(ops) && Apply(After(ops).st, Finalize).Next?
    ensures var st := Apply(After(ops).st, Finalize).st;
            && Inv(st)
            && (Covers(st.av, a) <==> MadeAvailable(ops, a) && !MadeReserved(ops, a))
            && (Covers(st.rs, a) <==> a < st.limit && !Covers(st.av, a))
            && (Covers(st.av, a) ==> PAGE_SIZE <= a < st.limit)
            && (MadeReserved(ops, a) ==> !Covers(st.av, a))
            && IsHighestEnd(ops, st.limit)
  {
    var st0 := After(ops).st;
    var st := Apply(st0, Finalize).st;
    BootInv(ops);
    BootLimit(ops);
    BootFold(ops, a);
    ApplyInv(st0, Finalize);
    SubtractCovers(st0.av, st0.rs, a);
    ComplementCovers(st.av, st.limit, a);
  }

  /** `finalize` cannot run out of slots while the two lists together have fewer than `MAX_REGIONS` regions. */
  lemma FinalizeFits(st: State)
    requires Inv(st) && !st.finalized && |st.av| + |st.rs| < MAX_REGIONS
    ensures Apply(st, Finalize).Next?
  {
    FinalizeBounded(st.av, st.rs, st.limit);
    SubtractCount(st.av, st.rs);
    ComplementShape(Subtract(st.av, st.rs), st.limit);
  }

  /**
    The final available list is strictly separated, and so canonical, if and only if no empty
    reserved region lies strictly inside an available one.
   */
  lemma FinalizeSeparated(st: State)
    requires Inv(st) && !st.finalized && Apply(st, Finalize).Next?
    ensures Separated(Apply(st, Finalize).st.av) <==> !SplitsSome(st.av, st.rs)
  {
    SubtractSeparatedIff(st.av, st.rs);
  }

  /** An empty reserved region inside an available one splits it into two that touch. */
  lemma EmptyReservedSplits(s: nat, x: nat, e: nat)
    requires s < x < e
    ensures Subtract([Region(s, e)], [Region(x, x)]) == [Region(s, x), Region(x, e)]
    ensures !Separated(Subtract([Region(s, e)], [Region(x, x)]))
  {
    var av, rs := [Region(s, e)], [Region(x, x)];
    assert rs[1..] == [] && av[..0] == [];
    assert SubtractFrom(x, e, []) == [Region(x, e)];
    assert Subtract(av, rs) == [] + Piece(av[0], rs) == [Region(s, x), Region(x, e)];
    assert Subtract(av, rs)[0].end == Subtract(av, rs)[1].start;
  }

  /**
    Such a boot run: the whole of `[s, e)` is available, an empty range is reserved, and the final list
    has two parts.
   */
  lemma EmptyReservedRun(s: nat, x: nat, e: nat)
    requires 0 < s < x < e && s % PAGE_SIZE == 0 && x % PAGE_SIZE == 0 && e % PAGE_SIZE == 0
    ensures var ops := [Available(s, e), Reserve(x, x)];
            && Boot(ops) && Apply(After(ops).st, Finalize).Next?
            && Apply(After(ops).st, Finalize).st.av == [Region(s, x), Region(x, e)]
            && !Separated(Apply(After(ops).st, Finalize).st.av)
  {
    var ops := [Available(s, e), Reserve(x, x)];
    var one := [Available(s, e)];
    assert ops[..1] == one && one[..0] == [];
    InsertFirst(Region(s, e));
    InsertFirst(Region(x, x));
    assert After([]) == Next(START, []);
    assert After(one) == Next(State([Region(s, e)], [], e, false), []);
    assert After(ops).st == State([Region(s, e)], [Region(x, x)], e, false);
    EmptyReservedSplits(s, x, e);
    BootInv(ops);
    FinalizeFits(After(ops).st);
  }

  lemma InsertFirst(r: Region)
    ensures Insert([], r) == [r]
  {
    assert InsertSorted([], r) == [r] && [r][1..] == [];
  }

  // ----- the assertion of debug builds -----

  /** Some allocation fails the assertion if and only if there is an empty available region. */
  lemma DebugPanicsIff(st: State)
    requires Inv(st)
    ensures (exists len: nat :: len > 0 && MeetsUnchecked(st.av, len)) <==> !NonEmpty(st.av)
  {
    if k :| 0 <= k < |st.av| && st.av[k].start >= st.av[k].end {
      var len := st.limit + 1;
      FirstFitIs(st.av, len, |st.av|);
      assert !Checked(st.av[k]);
      assert MeetsUnchecked(st.av, len);
    }
  }

  /** No range but one at page 0, of which that page is cut off, is inserted as available without containing a frame. */
  ghost predicate NoEmptyRange(ops: seq<Op>) {
    forall i :: 0 <= i < |ops| && ops[i].Available? ==> ops[i].start < ops[i].end || ops[i].start == 0
  }

  lemma ApplyNonEmpty(st: State, op: Op)
    requires Inv(st) && NonEmpty(st.av) && Apply(st, op).Next?
    requires op.Available? ==> op.start < op.end || op.start == 0
    ensures NonEmpty(Apply(st, op).st.av)
  {
    match op
    case Available(s, e) =>
      if !(s == 0 && e <= PAGE_SIZE) {
        InsertNonEmpty(st.av, Region(if s == 0 then PAGE_SIZE else s, e));
      }
    case Reserve(_, _) =>
    case Alloc(n) =>
      var k := FirstFit(st.av, n * PAGE_SIZE);
      if k < |st.av| {
        CarveDisjoint(st.av, k, n * PAGE_SIZE);
      }
    case Finalize => SubtractShape(st.av, st.rs);
  }

  /** A boot run that inserts no such range has no empty available region, so the assertion never fails. */
  lemma {:induction false} BootNonEmpty(ops: seq<Op>)
    requires Boot(ops) && NoEmptyRange(ops)
    ensures NonEmpty(After(ops).st.av)
    decreases |ops|
  {
    if ops != [] {
      var rest := ops[..|ops| - 1];
      BootPrefix(ops);
      BootInv(rest);
      BootNonEmpty(rest);
      ApplyNonEmpty(After(rest).st, ops[|ops| - 1]);
    }
  }

  /** Inserting an empty range makes the next allocation fail the assertion, whatever its size. */
  lemma EmptyRangeRun(x: nat, len: nat)
    requires 0 < x && x % PAGE_SIZE == 0
    ensures Boot([Available(x, x)]) && MeetsUnchecked(After([Available(x, x)]).st.av, len)
  {
    var ops := [Available(x, x)];
    assert ops[..0] == [] && After([]) == Next(START, []);
    InsertFirst(Region(x, x));
    var av := After(ops).st.av;
    assert av == [Region(x, x)] && !Checked(av[0]);
  }
}
