/** Difference, complement and first-fit carving of region lists. */
module RegionAlgebra {
  import opened Arith
  import opened Regions

  function GapBefore(cur: nat, start: nat): (g: seq<Region>) {
    if cur < start then [Region(cur, start)] else []
  }

  lemma GapShape(cur: nat, start: nat)
    ensures Separated(GapBefore(cur, start)) && Disjoint(GapBefore(cur, start)) && NonEmpty(GapBefore(cur, start))
    ensures Within(GapBefore(cur, start), cur, start)
  {
  }

  /** Lists on either side of an address put one after the other. */
  lemma Concat(xs: seq<Region>, ys: seq<Region>, lo: nat, mid: nat, mid2: nat, hi: nat)
    requires Within(xs, lo, mid) && Within(ys, mid2, hi) && lo <= mid2 && mid <= mid2 && mid <= hi
    ensures Within(xs + ys, lo, hi)
    ensures NonEmpty(xs) && NonEmpty(ys) ==> NonEmpty(xs + ys)
    ensures Aligned(xs) && Aligned(ys) ==> Aligned(xs + ys)
    ensures Disjoint(xs) && Disjoint(ys) ==> Disjoint(xs + ys)
    ensures Separated(xs) && Separated(ys) && mid < mid2 ==> Separated(xs + ys)
  {
  }

  // ----- difference -----

  /** What is left of the addresses from `cur` to `end` after taking away every region of `rs`. */
  ghost function SubtractFrom(cur: nat, end: nat, rs: seq<Region>): seq<Region>
    decreases |rs|
  {
    if rs == [] || rs[0].start >= end then GapBefore(cur, end)
    else
      var next := if rs[0].end > cur then Min(rs[0].end, end) else cur;
      GapBefore(cur, rs[0].start) + if next >= end then [] else SubtractFrom(next, end, rs[1..])
  }

  ghost function Piece(f: Region, rs: seq<Region>): seq<Region> {
    if f.start >= f.end then [] else SubtractFrom(f.start, f.end, rs)
  }

  /** Every region of `av`, each with all of `rs` taken away. */
  ghost function Subtract(av: seq<Region>, rs: seq<Region>): seq<Region> {
    if av == [] then [] else Subtract(av[..|av| - 1], rs) + Piece(av[|av| - 1], rs)
  }

  /** Some empty region of `rs` lies strictly between the two addresses. */
  ghost predicate SplitsAt(lo: nat, hi: nat, rs: seq<Region>) {
    exists k :: 0 <= k < |rs| && rs[k].start == rs[k].end && lo < rs[k].start < hi
  }

  lemma SeparatedTail(rs: seq<Region>)
    requires Separated(rs) && rs != []
    ensures Separated(rs[1..])
  {
  }

  lemma SplitsTail(lo: nat, lo2: nat, hi: nat, rs: seq<Region>)
    requires rs != [] && lo <= lo2 && SplitsAt(lo2, hi, rs[1..])
    ensures SplitsAt(lo, hi, rs)
  {
  }

  lemma NothingBefore(rs: seq<Region>, end: nat, a: nat)
    requires Separated(rs) && (rs == [] || rs[0].start >= end) && a < end
    ensures !Covers(rs, a)
  {
  }

  lemma {:induction false} SubtractFromCovers(cur: nat, end: nat, rs: seq<Region>, a: nat)
    requires cur < end && Separated(rs)
    ensures Covers(SubtractFrom(cur, end, rs), a) <==> cur <= a < end && !Covers(rs, a)
    decreases |rs|
  {
    if rs == [] || rs[0].start >= end {
      CoversOne(Region(cur, end), a);
      if a < end {
        NothingBefore(rs, end, a);
      }
    } else {
      var r := rs[0];
      var gap := GapBefore(cur, r.start);
      var next := if r.end > cur then Min(r.end, end) else cur;
      SeparatedTail(rs);
      TailApart(rs, a);
      CoversCons(rs, a);
      CoversOne(Region(cur, r.start), a);
      if next < end {
        SubtractFromCovers(next, end, rs[1..], a);
        CoversSplit(gap, SubtractFrom(next, end, rs[1..]), a);
      } else {
        assert gap + [] == gap;
      }
    }
  }

  lemma GapThenRest(cur: nat, r: Region, next: nat, end: nat, rest: seq<Region>)
    requires r.start <= r.end && next == (if r.end > cur then r.end else cur) && next < end
    requires NonEmpty(rest) && Disjoint(rest) && Within(rest, next, end)
    ensures var out := GapBefore(cur, r.start) + rest;
            && NonEmpty(out) && Disjoint(out) && Within(out, cur, end)
            && (Separated(rest) && !(cur < r.start == r.end) ==> Separated(out))
  {
  }

  /** The pieces are non-empty, ascending and inside the interval; apart unless an empty region split them. */
  lemma {:induction false} SubtractFromShape(cur: nat, end: nat, rs: seq<Region>)
    requires cur < end && Separated(rs)
    ensures NonEmpty(SubtractFrom(cur, end, rs)) && Disjoint(SubtractFrom(cur, end, rs))
    ensures Within(SubtractFrom(cur, end, rs), cur, end)
    ensures !SplitsAt(cur, end, rs) ==> Separated(SubtractFrom(cur, end, rs))
    decreases |rs|
  {
    if rs != [] && rs[0].start < end {
      var r := rs[0];
      var next := if r.end > cur then Min(r.end, end) else cur;
      if next < end {
        SeparatedTail(rs);
        SubtractFromShape(next, end, rs[1..]);
        if SplitsAt(next, end, rs[1..]) {
          SplitsTail(cur, next, end, rs);
        }
        assert cur < r.start == r.end ==> SplitsAt(cur, end, rs);
        GapThenRest(cur, r, next, end, SubtractFrom(next, end, rs[1..]));
      }
    }
  }

  lemma {:induction false} SubtractFromAligned(cur: nat, end: nat, rs: seq<Region>)
    requires Aligned(rs) && cur % PAGE_SIZE == 0 && end % PAGE_SIZE == 0
    ensures Aligned(SubtractFrom(cur, end, rs))
    decreases |rs|
  {
    if rs != [] && rs[0].start < end {
      var next := if rs[0].end > cur then Min(rs[0].end, end) else cur;
      SubtractFromAligned(next, end, rs[1..]);
    }
  }

  /** Regions that end at or before the start contribute nothing, so a walk may skip them. */
  lemma SkipDone(cur: nat, end: nat, rs: seq<Region>)
    requires cur < end && rs != [] && rs[0].start <= rs[0].end <= cur
    ensures SubtractFrom(cur, end, rs) == SubtractFrom(cur, end, rs[1..])
  {
  }

  lemma {:induction false} SkipAllDone(cur: nat, end: nat, rs: seq<Region>, k: nat)
    requires cur < end && k <= |rs|
    requires forall j :: 0 <= j < k ==> rs[j].start <= rs[j].end <= cur
    ensures SubtractFrom(cur, end, rs) == SubtractFrom(cur, end, rs[k..])
    decreases k
  {
    if k == 0 {
      assert rs[0..] == rs;
    } else {
      SkipDone(cur, end, rs);
      SkipAllDone(cur, end, rs[1..], k - 1);
      assert rs[1..][k - 1..] == rs[k..];
    }
  }

  lemma SeparatedInit(av: seq<Region>)
    requires Separated(av) && av != []
    ensures Separated(av[..|av| - 1])
    ensures av == av[..|av| - 1] + [av[|av| - 1]]
  {
  }

  /** The difference covers exactly the available addresses that are not reserved. */
  lemma {:induction false} SubtractCovers(av: seq<Region>, rs: seq<Region>, a: nat)
    requires Separated(av) && Separated(rs)
    ensures Covers(Subtract(av, rs), a) <==> Covers(av, a) && !Covers(rs, a)
    decreases |av|
  {
    if av != [] {
      var init, f := av[..|av| - 1], av[|av| - 1];
      SeparatedInit(av);
      SubtractCovers(init, rs, a);
      CoversSplit(Subtract(init, rs), Piece(f, rs), a);
      CoversSplit(init, [f], a);
      CoversOne(f, a);
      if f.start < f.end {
        SubtractFromCovers(f.start, f.end, rs, a);
      }
    }
  }

  lemma PieceShape(f: Region, rs: seq<Region>)
    requires f.start <= f.end && Separated(rs)
    ensures NonEmpty(Piece(f, rs)) && Disjoint(Piece(f, rs)) && Within(Piece(f, rs), f.start, f.end)
    ensures !SplitsAt(f.start, f.end, rs) ==> Separated(Piece(f, rs))
  {
    if f.start < f.end {
      SubtractFromShape(f.start, f.end, rs);
    }
  }

  ghost predicate SplitsSome(av: seq<Region>, rs: seq<Region>) {
    exists k :: 0 <= k < |av| && SplitsAt(av[k].start, av[k].end, rs)
  }

  ghost function LastEnd(av: seq<Region>): nat { if av == [] then 0 else av[|av| - 1].end }

  lemma InitBefore(av: seq<Region>)
    requires Separated(av) && av != []
    ensures Separated(av[..|av| - 1]) && LastEnd(av[..|av| - 1]) <= av[|av| - 1].start <= av[|av| - 1].end
    ensures |av| > 1 ==> LastEnd(av[..|av| - 1]) < av[|av| - 1].start
  {
  }

  lemma {:induction false} SubtractShape(av: seq<Region>, rs: seq<Region>)
    requires Separated(av) && Separated(rs)
    ensures NonEmpty(Subtract(av, rs)) && Disjoint(Subtract(av, rs))
    ensures Within(Subtract(av, rs), 0, LastEnd(av))
    decreases |av|
  {
    if av != [] {
      var init, f := av[..|av| - 1], av[|av| - 1];
      InitBefore(av);
      SubtractShape(init, rs);
      PieceShape(f, rs);
      Concat(Subtract(init, rs), Piece(f, rs), 0, LastEnd(init), f.start, f.end);
    }
  }

  lemma {:induction false} SubtractSeparated(av: seq<Region>, rs: seq<Region>)
    requires Separated(av) && Separated(rs)
    requires forall k :: 0 <= k < |av| ==> !SplitsAt(av[k].start, av[k].end, rs)
    ensures Separated(Subtract(av, rs))
    decreases |av|
  {
    if av != [] {
      var init, f := av[..|av| - 1], av[|av| - 1];
      InitBefore(av);
      SubtractSeparated(init, rs);
      PieceShape(f, rs);
      if init == [] {
        assert Subtract(av, rs) == Piece(f, rs);
      } else {
        SubtractShape(init, rs);
        Concat(Subtract(init, rs), Piece(f, rs), 0, LastEnd(init), f.start, f.end);
      }
    }
  }

  lemma {:induction false} SubtractBounds(av: seq<Region>, rs: seq<Region>, lo: nat, hi: nat)
    requires Separated(av) && Separated(rs) && Within(av, lo, hi) && Aligned(av) && Aligned(rs)
    ensures Within(Subtract(av, rs), lo, hi) && Aligned(Subtract(av, rs))
    decreases |av|
  {
    if av != [] {
      var init, f := av[..|av| - 1], av[|av| - 1];
      SeparatedInit(av);
      SubtractBounds(init, rs, lo, hi);
      PieceShape(f, rs);
      if f.start < f.end {
        SubtractFromAligned(f.start, f.end, rs);
      }
    }
  }

  /** No piece reaches across the start of a region taken away. */
  lemma {:induction false} SubtractFromStops(cur: nat, end: nat, rs: seq<Region>, x: nat)
    requires Separated(rs) && exists k :: 0 <= k < |rs| && rs[k].start == x
    ensures forall r :: r in SubtractFrom(cur, end, rs) ==> !(r.start < x < r.end)
    decreases |rs|
  {
    if rs != [] && rs[0].start < end {
      var next := if rs[0].end > cur then Min(rs[0].end, end) else cur;
      SeparatedTail(rs);
      if next < end {
        if rs[0].start == x {
          SubtractFromShape(next, end, rs[1..]);
        } else {
          var k :| 0 <= k < |rs| && rs[k].start == x;
          assert rs[1..][k - 1].start == x;
          SubtractFromStops(next, end, rs[1..], x);
        }
      }
    }
  }

  lemma {:induction false} SubtractStops(av: seq<Region>, rs: seq<Region>, x: nat)
    requires Separated(rs) && exists k :: 0 <= k < |rs| && rs[k].start == x
    ensures forall r :: r in Subtract(av, rs) ==> !(r.start < x < r.end)
    decreases |av|
  {
    if av != [] {
      SubtractStops(av[..|av| - 1], rs, x);
      SubtractFromStops(av[|av| - 1].start, av[|av| - 1].end, rs, x);
    }
  }

  /** In a separated list neighbouring addresses are covered by one region. */
  lemma SeparatedNeighbours(rs: seq<Region>, x: nat)
    requires Separated(rs) && x > 0 && Covers(rs, x - 1) && Covers(rs, x)
    ensures exists r :: r in rs && r.start < x < r.end
  {
  }

  /** The difference is strictly separated if and only if no empty region lies strictly inside an available one. */
  lemma SubtractSeparatedIff(av: seq<Region>, rs: seq<Region>)
    requires Separated(av) && Separated(rs)
    ensures Separated(Subtract(av, rs)) <==> !SplitsSome(av, rs)
  {
    if !SplitsSome(av, rs) {
      SubtractSeparated(av, rs);
    }
    if SplitsSome(av, rs) && Separated(Subtract(av, rs)) {
      var f :| 0 <= f < |av| && SplitsAt(av[f].start, av[f].end, rs);
      var k :| 0 <= k < |rs| && rs[k].start == rs[k].end && av[f].start < rs[k].start < av[f].end;
      var x := rs[k].start;
      assert Holds(av[f], x) && Holds(av[f], x - 1);
      assert forall j :: 0 <= j < |rs| && j != k ==> rs[j].end < x || x < rs[j].start;
      assert !Covers(rs, x) && !Covers(rs, x - 1);
      SubtractCovers(av, rs, x);
      SubtractCovers(av, rs, x - 1);
      SeparatedNeighbours(Subtract(av, rs), x);
      SubtractStops(av, rs, x);
      assert false;
    }
  }

  // ----- how many regions a difference has -----

  /** Regions starting strictly between `lo` and `hi`. */
  ghost function CountIn(rs: seq<Region>, lo: int, hi: nat): (n: nat)
    ensures n <= |rs|
  {
    if rs == [] then 0 else (if lo < rs[0].start < hi then 1 else 0) + CountIn(rs[1..], lo, hi)
  }

  lemma {:induction false} SubtractFromCount(lo: nat, cur: nat, end: nat, rs: seq<Region>)
    requires lo <= cur
    ensures |SubtractFrom(cur, end, rs)| <= 1 + CountIn(rs, lo, end)
    decreases |rs|
  {
    if rs != [] && rs[0].start < end {
      var next := if rs[0].end > cur then Min(rs[0].end, end) else cur;
      if next < end {
        SubtractFromCount(lo, next, end, rs[1..]);
      }
    }
  }

  lemma {:induction false} CountInSplit(rs: seq<Region>, lo: int, mid: nat, mid2: nat, hi: nat)
    requires mid <= mid2 <= hi && lo <= mid2
    ensures CountIn(rs, lo, mid) + CountIn(rs, mid2, hi) <= CountIn(rs, lo, hi)
    decreases |rs|
  {
    if rs != [] {
      CountInSplit(rs[1..], lo, mid, mid2, hi);
    }
  }

  lemma PieceCount(f: Region, before: nat, rs: seq<Region>)
    requires before <= f.start <= f.end
    ensures |Piece(f, rs)| + CountIn(rs, -1, before) <= 1 + CountIn(rs, -1, f.end)
  {
    SubtractFromCount(f.start, f.start, f.end, rs);
    CountInSplit(rs, -1, before, f.start, f.end);
  }

  /** A difference has at most one region per available and one per reserved region. */
  lemma {:induction false} SubtractCount(av: seq<Region>, rs: seq<Region>)
    requires Separated(av)
    ensures |Subtract(av, rs)| <= |av| + (if av == [] then 0 else CountIn(rs, -1, av[|av| - 1].end))
    ensures |Subtract(av, rs)| <= |av| + |rs|
    decreases |av|
  {
    if av != [] {
      var init, f := av[..|av| - 1], av[|av| - 1];
      SubtractCount(init, rs);
      var before := if init == [] then 0 else init[|init| - 1].end;
      assert before <= f.start <= f.end;
      PieceCount(f, before, rs);
    }
  }

  // ----- complement -----

  /** Where a scan over `av` stands: the highest end seen. */
  ghost function Reach(av: seq<Region>): nat {
    if av == [] then 0 else Max(Reach(av[..|av| - 1]), av[|av| - 1].end)
  }

  ghost function Gaps(av: seq<Region>): seq<Region> {
    if av == [] then []
    else Gaps(av[..|av| - 1]) + GapBefore(Reach(av[..|av| - 1]), av[|av| - 1].start)
  }

  /** The addresses below `limit` that `av` does not cover. */
  ghost function Complement(av: seq<Region>, limit: nat): seq<Region> {
    Gaps(av) + GapBefore(Reach(av), limit)
  }

  lemma DisjointInit(av: seq<Region>)
    requires Disjoint(av) && av != []
    ensures Disjoint(av[..|av| - 1])
    ensures av == av[..|av| - 1] + [av[|av| - 1]]
  {
  }

  lemma {:induction false} ReachIs(av: seq<Region>)
    requires Disjoint(av)
    ensures Reach(av) == if av == [] then 0 else av[|av| - 1].end
    ensures forall a: nat :: Covers(av, a) ==> a < Reach(av)
    decreases |av|
  {
    if av != [] {
      DisjointInit(av);
      ReachIs(av[..|av| - 1]);
      forall a: nat | Covers(av, a) ensures a < Reach(av) {
        CoversSplit(av[..|av| - 1], [av[|av| - 1]], a);
        CoversOne(av[|av| - 1], a);
      }
    }
  }

  lemma {:induction false} GapsCover(av: seq<Region>, a: nat)
    requires Disjoint(av)
    ensures Covers(Gaps(av), a) <==> a < Reach(av) && !Covers(av, a)
    decreases |av|
  {
    if av != [] {
      var init, f := av[..|av| - 1], av[|av| - 1];
      DisjointInit(av);
      GapsCover(init, a);
      ReachIs(init);
      ReachIs(av);
      CoversSplit(Gaps(init), GapBefore(Reach(init), f.start), a);
      CoversSplit(init, [f], a);
      CoversOne(f, a);
      CoversOne(Region(Reach(init), f.start), a);
    }
  }

  lemma {:induction false} GapsShape(av: seq<Region>)
    requires Disjoint(av) && NonEmpty(av)
    ensures Separated(Gaps(av)) && NonEmpty(Gaps(av))
    ensures av != [] ==> Within(Gaps(av), 0, av[|av| - 1].start)
    decreases |av|
  {
    if av != [] {
      var init, f := av[..|av| - 1], av[|av| - 1];
      DisjointInit(av);
      GapsShape(init);
      ReachIs(init);
      var gap := GapBefore(Reach(init), f.start);
      GapShape(Reach(init), f.start);
      if init == [] {
        assert Gaps(av) == gap;
      } else {
        Concat(Gaps(init), gap, 0, init[|init| - 1].start, Reach(init), f.start);
      }
    }
  }

  lemma {:induction false} GapsCount(av: seq<Region>)
    ensures |Gaps(av)| <= |av|
    decreases |av|
  {
    if av != [] {
      GapsCount(av[..|av| - 1]);
    }
  }

  lemma {:induction false} GapsAligned(av: seq<Region>)
    requires Aligned(av)
    ensures Aligned(Gaps(av)) && Reach(av) % PAGE_SIZE == 0
    decreases |av|
  {
    if av != [] {
      GapsAligned(av[..|av| - 1]);
    }
  }

  /** Complement and original partition the addresses below the limit. */
  lemma ComplementCovers(av: seq<Region>, limit: nat, a: nat)
    requires Disjoint(av) && Within(av, 0, limit)
    ensures Covers(Complement(av, limit), a) <==> a < limit && !Covers(av, a)
  {
    GapsCover(av, a);
    ReachIs(av);
    CoversSplit(Gaps(av), GapBefore(Reach(av), limit), a);
    CoversOne(Region(Reach(av), limit), a);
  }

  lemma ComplementShape(av: seq<Region>, limit: nat)
    requires Disjoint(av) && NonEmpty(av) && Within(av, 0, limit)
    ensures Separated(Complement(av, limit)) && NonEmpty(Complement(av, limit))
    ensures Within(Complement(av, limit), 0, limit)
    ensures |Complement(av, limit)| <= |av| + 1
  {
    GapsShape(av);
    GapsCount(av);
    ReachIs(av);
    var gap := GapBefore(Reach(av), limit);
    GapShape(Reach(av), limit);
    if av == [] {
      assert Complement(av, limit) == gap;
    } else {
      Concat(Gaps(av), gap, 0, av[|av| - 1].start, Reach(av), limit);
    }
  }

  // ----- carving -----

  /** The first region with at least `len` addresses, or the length of the list. */
  ghost function FirstFit(rs: seq<Region>, len: nat): (k: nat)
    ensures k <= |rs|
    ensures forall j :: 0 <= j < k ==> rs[j].end - rs[j].start < len
    ensures k < |rs| ==> rs[k].end - rs[k].start >= len
  {
    FitFrom(rs, len, 0)
  }

  /** The same from region `i` on. */
  ghost function FitFrom(rs: seq<Region>, len: nat, i: nat): (k: nat)
    requires i <= |rs|
    ensures i <= k <= |rs|
    ensures forall j :: i <= j < k ==> rs[j].end - rs[j].start < len
    ensures k < |rs| ==> rs[k].end - rs[k].start >= len
    decreases |rs| - i
  {
    if i == |rs| || rs[i].end - rs[i].start >= len then i else FitFrom(rs, len, i + 1)
  }

  lemma FirstFitIs(rs: seq<Region>, len: nat, k: nat)
    requires k <= |rs|
    requires forall j :: 0 <= j < k ==> rs[j].end - rs[j].start < len
    requires k < |rs| ==> rs[k].end - rs[k].start >= len
    ensures FirstFit(rs, len) == k
  {
  }

  lemma FirstFitAfter(rs: seq<Region>, len: nat, k: nat)
    requires k <= |rs| && forall j :: 0 <= j < k ==> rs[j].end - rs[j].start < len
    ensures k <= FirstFit(rs, len)
  {
  }

  /** `len` addresses taken from the front of region `k`. */
  ghost function Carve(rs: seq<Region>, k: nat, len: nat): seq<Region>
    requires k < |rs| && rs[k].end - rs[k].start >= len
  {
    if rs[k].start + len == rs[k].end then rs[..k] + rs[k + 1..]
    else rs[k := Region(rs[k].start + len, rs[k].end)]
  }

  lemma CarveCovers(rs: seq<Region>, k: nat, len: nat, a: nat)
    requires Disjoint(rs) && k < |rs| && rs[k].end - rs[k].start >= len > 0
    ensures Covers(Carve(rs, k, len), a) <==> Covers(rs, a) && !(rs[k].start <= a < rs[k].start + len)
  {
    var r := rs[k];
    var left := Region(r.start + len, r.end);
    assert rs == rs[..k] + [r] + rs[k + 1..];
    CoversSplit(rs[..k] + [r], rs[k + 1..], a);
    CoversSplit(rs[..k], [r], a);
    CoversOne(r, a);
    if left.start == left.end {
      CoversSplit(rs[..k], rs[k + 1..], a);
    } else {
      assert Carve(rs, k, len) == rs[..k] + [left] + rs[k + 1..];
      CoversSplit(rs[..k] + [left], rs[k + 1..], a);
      CoversSplit(rs[..k], [left], a);
      CoversOne(left, a);
    }
    if r.start <= a < r.end {
      forall j | 0 <= j < |rs| && j != k ensures !Holds(rs[j], a) {
        assert j < k ==> rs[j].end <= rs[k].start;
      }
      assert !Covers(rs[..k], a) && !Covers(rs[k + 1..], a);
    }
  }

  lemma CarveSeparated(rs: seq<Region>, k: nat, len: nat)
    requires Separated(rs) && k < |rs| && rs[k].end - rs[k].start >= len
    ensures Separated(Carve(rs, k, len))
  {
  }

  lemma CarveDisjoint(rs: seq<Region>, k: nat, len: nat)
    requires Disjoint(rs) && NonEmpty(rs) && k < |rs| && rs[k].end - rs[k].start >= len
    ensures Disjoint(Carve(rs, k, len)) && NonEmpty(Carve(rs, k, len))
  {
    var out := Carve(rs, k, len);
    if rs[k].start + len == rs[k].end {
      assert forall i :: 0 <= i < |out| ==> out[i] == rs[if i < k then i else i + 1];
    } else {
      assert forall i :: 0 <= i < |out| ==> out[i].start >= rs[i].start && out[i].end == rs[i].end;
    }
  }

  lemma CarveBounds(rs: seq<Region>, k: nat, len: nat, lo: nat, hi: nat)
    requires k < |rs| && rs[k].end - rs[k].start >= len
    requires Within(rs, lo, hi) && Aligned(rs) && len % PAGE_SIZE == 0
    ensures Within(Carve(rs, k, len), lo, hi) && Aligned(Carve(rs, k, len))
  {
  }
}
