/** The in-place region tables of the boot phase, refining the operations of module `Dram`. */
module DramBoot {
  import opened Arith
  import opened Regions
  import opened RegionAlgebra
  import opened Dram

  /** Moves the regions from `at` on one slot up. */
  method OpenGap(a: array<Region>, at: nat, count: nat)
    requires at <= count < a.Length
    modifies a
    ensures a[..at] == old(a[..at])
    ensures a[at + 1..count + 1] == old(a[at..count])
    ensures a[count + 1..] == old(a[count + 1..])
  {
    for i := count downto at
      invariant forall j :: 0 <= j <= i ==> a[j] == old(a[j])
      invariant forall j :: i < j <= count ==> a[j] == old(a[j - 1])
      invariant forall j :: count < j < a.Length ==> a[j] == old(a[j])
    {
      a[i + 1] := a[i];
    }
  }

  /** What is merged so far and what is still to merge make up the result. */
  ghost predicate Merging(s: seq<Region>, done: seq<Region>, cur: Region, read: nat) {
    1 <= read <= |s| && done + Merge(cur, s[read..]) == Merged(s)
  }

  /** The next region joins the current one. */
  lemma MergeJoins(s: seq<Region>, done: seq<Region>, cur: Region, read: nat, read2: nat)
    requires Merging(s, done, cur, read) && read2 == read + 1 <= |s| && s[read].start <= cur.end
    ensures Merging(s, done, Region(cur.start, Max(cur.end, s[read].end)), read2)
  {
  }

  /** The current region is complete and the next one takes its place. */
  lemma MergeMovesOn(s: seq<Region>, done: seq<Region>, cur: Region, read: nat, read2: nat)
    requires Merging(s, done, cur, read) && read2 == read + 1 <= |s| && s[read].start > cur.end
    ensures Merging(s, done + [cur], s[read], read2)
  {
    assert s[read..][1..] == s[read2..];
    Regroup(done, [cur], Merge(s[read], s[read2..]));
  }

  lemma MergeEnds(s: seq<Region>, done: seq<Region>, cur: Region)
    requires Merging(s, done, cur, |s|)
    ensures done + [cur] == Merged(s)
  {
    assert s[|s|..] == [];
  }

  /** One turn of the merging loop: the region at `read` joins the one at `write` or takes the next slot. */
  method MergeTurn(a: array<Region>, write: nat, read: nat, ghost s: seq<Region>) returns (w: nat)
    requires write < read < a.Length && read < |s| && a[read] == s[read]
    requires Merging(s, a[..write], a[write], read)
    modifies a
    ensures w <= read && Merging(s, a[..w], a[w], read + 1)
    ensures forall j :: read < j < a.Length ==> a[j] == old(a[j])
  {
    var next := a[read];
    ghost var done, cur := a[..write], a[write];
    w := write;
    if next.start <= a[w].end {
      MergeJoins(s, done, cur, read, read + 1);
      if next.end > a[w].end {
        a[w] := Region(a[w].start, next.end);
      }
      assert a[w] == Region(cur.start, Max(cur.end, next.end));
      assert a[..w] == done;
    } else {
      MergeMovesOn(s, done, cur, read, read + 1);
      w := w + 1;
      a[w] := next;
      assert a[..w] == done + [cur];
    }
  }

  /** Merges overlapping or touching neighbours among the first `count` regions, in place. */
  method MergeInPlace(a: array<Region>, count: nat) returns (n: nat)
    requires 1 <= count <= a.Length
    modifies a
    ensures 1 <= n <= count
    ensures a[..n] == Merged(old(a[..count]))
    ensures a[count..] == old(a[count..])
  {
    ghost var s := a[..count];
    var write: nat := 0;
    assert a[..0] + Merge(s[0], s[1..]) == Merged(s);
    for read := 1 to count
      invariant write < read
      invariant forall j :: read <= j < a.Length ==> a[j] == old(a[j])
      invariant Merging(s, a[..write], a[write], read)
    {
      write := MergeTurn(a, write, read, s);
    }
    n := write + 1;
    MergeEnds(s, a[..write], a[write]);
    assert a[..n] == a[..write] + [a[write]];
  }

  /** `insert_at`: the first of the `count` regions that starts at or after `start`. */
  method FindPos(a: array<Region>, count: nat, start: nat) returns (at: nat)
    requires count <= a.Length
    ensures at == InsertPos(a[..count], start)
  {
    at := 0;
    while at < count && a[at].start < start
      invariant at <= count
      invariant forall j :: 0 <= j < at ==> a[j].start < start
    {
      at := at + 1;
    }
    PosIs(a[..count], start, at);
  }

  method InsertInPlace(a: array<Region>, count: nat, r: Region)
    requires count < a.Length
    modifies a
    ensures a[..count + 1] == InsertSorted(old(a[..count]), r)
    ensures a[count + 1..] == old(a[count + 1..])
  {
    ghost var was := a[..count];
    var at := FindPos(a, count, r.start);
    OpenGap(a, at, count);
    a[at] := r;
    assert a[..at] == was[..at];
    assert a[at + 1..count + 1] == was[at..];
    assert a[..count + 1] == a[..at] + [a[at]] + a[at + 1..count + 1];
  }

  method ClearSlots(a: array<Region>, from: nat, to: nat)
    requires from <= to <= a.Length
    modifies a
    ensures a[..from] == old(a[..from]) && a[to..] == old(a[to..])
    ensures forall j :: from <= j < to ==> a[j] == EMPTY_REGION
  {
    for i := from to to
      invariant a[..from] == old(a[..from]) && a[to..] == old(a[to..])
      invariant forall j :: from <= j < i ==> a[j] == EMPTY_REGION
    {
      a[i] := EMPTY_REGION;
    }
  }

  /** Closes the gap left by region `i`. */
  method RemoveInPlace(a: array<Region>, i: nat, count: nat)
    requires i < count <= a.Length
    modifies a
    ensures a[..count - 1] == old(a[..count])[..i] + old(a[..count])[i + 1..]
    ensures a[count - 1] == EMPTY_REGION
    ensures a[count..] == old(a[count..])
  {
    var last := count - 1;
    for j := i to last
      invariant forall m :: 0 <= m < i ==> a[m] == old(a[m])
      invariant forall m :: i <= m < j ==> a[m] == old(a[m + 1])
      invariant forall m :: j <= m < a.Length ==> a[m] == old(a[m])
    {
      a[j] := a[j + 1];
    }
    a[last] := EMPTY_REGION;
  }

  lemma PosIs(rs: seq<Region>, start: nat, at: nat)
    requires at <= |rs|
    requires forall j :: 0 <= j < at ==> rs[j].start < start
    requires at < |rs| ==> start <= rs[at].start
    ensures InsertPos(rs, start) == at
  {
  }

  /** The first `i` regions are too small, and pass the assertion of a debug build. */
  ghost predicate Passed(rs: seq<Region>, len: nat, debug: bool, i: nat) {
    i <= |rs| && forall j :: 0 <= j < i ==> rs[j].end - rs[j].start < len && (debug ==> Checked(rs[j]))
  }

  lemma StopsAt(rs: seq<Region>, len: nat, debug: bool, i: nat)
    requires Passed(rs, len, debug, i) && i < |rs| && !Checked(rs[i])
    ensures MeetsUnchecked(rs, len)
  {
    FirstFitAfter(rs, len, i);
  }

  lemma FoundAt(rs: seq<Region>, len: nat, debug: bool, i: nat)
    requires Passed(rs, len, debug, i)
    requires i < |rs| ==> rs[i].end - rs[i].start >= len && (debug ==> Checked(rs[i]))
    ensures FirstFit(rs, len) == i && !(debug && MeetsUnchecked(rs, len))
  {
    FirstFitIs(rs, len, i);
  }

  class RegionSet {
    var count: nat
    const regions: array<Region>

    ghost predicate Valid()
      reads this, regions
    {
      && regions.Length == MAX_REGIONS
      && count <= MAX_REGIONS
      && forall i :: count <= i < MAX_REGIONS ==> regions[i] == EMPTY_REGION
    }

    ghost function List(): seq<Region>
      reads this, regions
      requires Valid()
    {
      regions[..count]
    }

    constructor ()
      ensures Valid() && List() == [] && fresh(regions)
    {
      count := 0;
      regions := new Region[MAX_REGIONS](_ => EMPTY_REGION);
    }

    /** The table part of `insert_region`; the result is false for the too-many-regions panic. */
    method InsertRegion(start: nat, end: nat) returns (ok: bool)
      requires Valid()
      modifies this, regions
      ensures Valid()
      ensures ok == (|old(List())| < MAX_REGIONS)
      ensures List() == if ok then Insert(old(List()), Region(start, end)) else old(List())
    {
      if count == MAX_REGIONS {
        return false;
      }
      InsertInPlace(regions, count, Region(start, end));
      var n := MergeInPlace(regions, count + 1);
      ClearSlots(regions, n, count + 1);
      count := n;
      return true;
    }

    /**
      Takes `len` addresses off the front of the first region that has them; false is the assertion of
      debug builds.
     */
    method TakeFirstFit(len: nat, debug: bool) returns (ok: bool, granted: seq<Region>)
      requires Valid() && len > 0
      modifies this, regions
      ensures Valid()
      ensures ok <==> !(debug && MeetsUnchecked(old(List()), len))
      ensures ok ==> Taking(List(), granted) == Taken(old(List()), len)
      ensures !ok ==> List() == old(List())
    {
      ghost var was := List();
      for i := 0 to count
        invariant List() == was && Valid()
        invariant Passed(was, len, debug, i)
      {
        var region := regions[i];
        assert region == was[i];
        if debug && !Checked(region) {
          StopsAt(was, len, debug, i);
          return false, [];
        }
        if region.end - region.start < len {
          continue;
        }
        FoundAt(was, len, debug, i);
        CarveFront(i, len);
        return true, [Region(region.start, region.start + len)];
      }
      FoundAt(was, len, debug, count);
      return true, [];
    }

    /** Cuts the first `len` addresses off region `i`. */
    method CarveFront(i: nat, len: nat)
      requires Valid() && len > 0 && i < count && len <= regions[i].end - regions[i].start
      modifies this, regions
      ensures Valid() && List() == Carve(old(List()), i, len)
    {
      ghost var was := List();
      var region := regions[i];
      var allocEnd := region.start + len;
      if allocEnd == region.end {
        RemoveInPlace(regions, i, count);
        count := count - 1;
      } else {
        regions[i] := Region(allocEnd, region.end);
        assert List() == was[i := Region(allocEnd, region.end)];
      }
    }
  }

  // ----- finalize -----

  ghost function Rest(cur: nat, end: nat, rs: seq<Region>): seq<Region> {
    if cur >= end then [] else SubtractFrom(cur, end, rs)
  }

  /** `push_region`: appends a non-empty region; false is the too-many-regions panic. */
  method PushRegion(a: array<Region>, count: nat, start: nat, end: nat) returns (ok: bool, n: nat)
    requires a.Length == MAX_REGIONS && count <= MAX_REGIONS
    modifies a
    ensures count <= n <= MAX_REGIONS
    ensures ok ==> a[..n] == old(a[..count]) + GapBefore(start, end)
    ensures !ok ==> n == count == MAX_REGIONS && start < end
    ensures forall j :: n <= j < MAX_REGIONS ==> a[j] == old(a[j])
  {
    if start >= end {
      return true, count;
    }
    if count >= MAX_REGIONS {
      return false, count;
    }
    a[count] := Region(start, end);
    return true, count + 1;
  }

  /** What the scan has put out and what it has still to put out make up the result `goal`. */
  ghost predicate Scanning(goal: seq<Region>, done: seq<Region>, cur: nat, end: nat, rs: seq<Region>, scan: nat) {
    scan <= |rs| && done + Rest(cur, end, rs[scan..]) == goal
  }

  lemma ScanTurn(goal: seq<Region>, done: seq<Region>, cur: nat, end: nat, rs: seq<Region>, scan: nat, scan2: nat)
    requires Scanning(goal, done, cur, end, rs, scan) && cur < end
    requires scan2 == scan + 1 <= |rs| && rs[scan].start < end
    ensures var next := if rs[scan].end > cur then Min(rs[scan].end, end) else cur;
            Scanning(goal, done + GapBefore(cur, rs[scan].start), next, end, rs, scan2)
    ensures |goal| >= |done + GapBefore(cur, rs[scan].start)|
  {
    var r := rs[scan];
    var next := if r.end > cur then Min(r.end, end) else cur;
    RestStep(cur, end, rs, scan, scan2);
    Regroup(done, GapBefore(cur, r.start), Rest(next, end, rs[scan2..]));
  }

  lemma RestStep(cur: nat, end: nat, rs: seq<Region>, scan: nat, scan2: nat)
    requires cur < end && scan2 == scan + 1 <= |rs| && rs[scan].start < end
    ensures var next := if rs[scan].end > cur then Min(rs[scan].end, end) else cur;
            Rest(cur, end, rs[scan..]) == GapBefore(cur, rs[scan].start) + Rest(next, end, rs[scan2..])
  {
    assert rs[scan..][1..] == rs[scan2..];
  }

  lemma Regroup(a: seq<Region>, b: seq<Region>, c: seq<Region>)
    ensures a + (b + c) == a + b + c
  {
  }

  lemma ScanEnds(goal: seq<Region>, done: seq<Region>, cur: nat, end: nat, rs: seq<Region>, scan: nat)
    requires Scanning(goal, done, cur, end, rs, scan)
    requires cur < end ==> scan == |rs| || rs[scan].start >= end
    ensures goal == done + GapBefore(cur, end)
  {
  }

  /** Subtracts the reserved regions from index `from` on from one available region. */
  method ScanRegion(result: array<Region>, count: nat, f: Region, reserved: RegionSet, from: nat)
    returns (ok: bool, n: nat)
    requires result.Length == MAX_REGIONS && count <= MAX_REGIONS
    requires reserved.Valid() && reserved.regions != result && from <= reserved.count
    requires f.start < f.end
    modifies result
    ensures n <= MAX_REGIONS
    ensures ok ==> result[..n] == old(result[..count]) + SubtractFrom(f.start, f.end, reserved.List()[from..])
    ensures !ok ==> count + |SubtractFrom(f.start, f.end, reserved.List()[from..])| > MAX_REGIONS
  {
    ghost var rs := reserved.List();
    ghost var goal := result[..count] + SubtractFrom(f.start, f.end, rs[from..]);
    var cur: nat := f.start;
    var scan := from;
    ok, n := true, count;
    while scan < reserved.count
      invariant from <= scan <= reserved.count && n <= MAX_REGIONS
      invariant cur < f.end && reserved.List() == rs
      invariant Scanning(goal, result[..n], cur, f.end, rs, scan)
    {
      var r := reserved.regions[scan];
      assert r == rs[scan];
      if r.start >= f.end {
        break;
      }
      ghost var done, gap := result[..n], GapBefore(cur, r.start);
      ScanTurn(goal, done, cur, f.end, rs, scan, scan + 1);
      if cur < r.start {
        ok, n := PushRegion(result, n, cur, r.start);
        if !ok {
          return;
        }
      }
      assert result[..n] == done + gap;
      if r.end > cur {
        cur := if r.end > f.end then f.end else r.end;
      }
      scan := scan + 1;
      if cur >= f.end {
        ScanEnds(goal, result[..n], cur, f.end, rs, scan);
        return;
      }
    }
    ScanEnds(goal, result[..n], cur, f.end, rs, scan);
    if cur < f.end {
      ok, n := PushRegion(result, n, cur, f.end);
    }
  }

  lemma {:induction false} SubtractMore(av: seq<Region>, rs: seq<Region>, k: nat)
    requires k <= |av|
    ensures |Subtract(av[..k], rs)| <= |Subtract(av, rs)|
    decreases |av|
  {
    if k == |av| {
      assert av[..k] == av;
    } else {
      SubtractMore(av[..|av| - 1], rs, k);
      assert av[..|av| - 1][..k] == av[..k];
    }
  }

  lemma SubtractNext(av: seq<Region>, rs: seq<Region>, i: nat, from: nat)
    requires i < |av| && from <= |rs|
    requires forall j :: 0 <= j < from ==> rs[j].start <= rs[j].end <= av[i].start
    ensures Subtract(av[..i + 1], rs) == Subtract(av[..i], rs) + Piece(av[i], rs)
    ensures av[i].start < av[i].end ==> Piece(av[i], rs) == SubtractFrom(av[i].start, av[i].end, rs[from..])
    ensures |Subtract(av[..i], rs)| + |Piece(av[i], rs)| <= |Subtract(av, rs)|
  {
    assert av[..i + 1][..i] == av[..i];
    SubtractMore(av, rs, i + 1);
    if av[i].start < av[i].end {
      SkipAllDone(av[i].start, av[i].end, rs, from);
    }
  }

  /** Moves the cursor past the reserved regions that end at or before `start`. */
  method SkipReserved(reserved: RegionSet, from: nat, start: nat) returns (r: nat)
    requires reserved.Valid() && from <= reserved.count
    requires forall j :: 0 <= j < from ==> reserved.List()[j].end <= start
    ensures from <= r <= reserved.count
    ensures forall j :: 0 <= j < r ==> reserved.List()[j].end <= start
  {
    r := from;
    while r < reserved.count && reserved.regions[r].end <= start
      invariant from <= r <= reserved.count
      invariant forall j :: 0 <= j < r ==> reserved.List()[j].end <= start
    {
      r := r + 1;
    }
  }

  /** One turn of the loop of `finalize_available_regions`, with its forward-only cursor `from`. */
  method SubtractOne(available: RegionSet, reserved: RegionSet, result: array<Region>, count: nat, i: nat, from: nat)
    returns (ok: bool, n: nat, r: nat)
    requires available.Valid() && reserved.Valid() && result.Length == MAX_REGIONS && count <= MAX_REGIONS
    requires result != available.regions && result != reserved.regions
    requires i < available.count && from <= reserved.count && Ordered(reserved.List())
    requires forall j :: 0 <= j < from ==> reserved.List()[j].end <= available.List()[i].start
    requires result[..count] == Subtract(available.List()[..i], reserved.List())
    modifies result
    ensures n <= MAX_REGIONS && r <= reserved.count
    ensures forall j :: 0 <= j < r ==> reserved.List()[j].end <= available.List()[i].start
    ensures ok ==> result[..n] == Subtract(available.List()[..i + 1], reserved.List())
    ensures !ok ==> |Subtract(available.List(), reserved.List())| > MAX_REGIONS
  {
    var f := available.regions[i];
    if f.start >= f.end {
      SubtractNext(available.List(), reserved.List(), i, from);
      return true, count, from;
    }
    r := SkipReserved(reserved, from, f.start);
    SubtractNext(available.List(), reserved.List(), i, r);
    ok, n := ScanRegion(result, count, f, reserved, r);
  }

  method SubtractLists(available: RegionSet, reserved: RegionSet, result: array<Region>) returns (ok: bool, n: nat)
    requires available.Valid() && reserved.Valid() && result.Length == MAX_REGIONS
    requires result != available.regions && result != reserved.regions
    requires Separated(available.List()) && Ordered(reserved.List())
    modifies result
    ensures n <= MAX_REGIONS
    ensures ok == (|Subtract(available.List(), reserved.List())| <= MAX_REGIONS)
    ensures ok ==> result[..n] == Subtract(available.List(), reserved.List())
  {
    var r: nat := 0;
    ok, n := true, 0;
    for i := 0 to available.count
      invariant ok && r <= reserved.count && n <= MAX_REGIONS
      invariant i < available.count ==> forall j :: 0 <= j < r ==> reserved.List()[j].end <= available.List()[i].start
      invariant result[..n] == Subtract(available.List()[..i], reserved.List())
    {
      ok, n, r := SubtractOne(available, reserved, result, n, i, r);
      if !ok {
        return;
      }
      assert i + 1 < available.count ==> available.List()[i].start <= available.List()[i + 1].start;
    }
    assert available.List()[..available.count] == available.List();
  }

  /** Replaces the list by the first `n` regions of `a`. */
  method StoreList(set0: RegionSet, a: array<Region>, n: nat)
    requires set0.Valid() && a.Length == MAX_REGIONS && n <= MAX_REGIONS && a != set0.regions
    modifies set0, set0.regions
    ensures set0.Valid() && set0.List() == a[..n]
  {
    for i := 0 to n
      invariant forall j :: 0 <= j < i ==> set0.regions[j] == a[j]
    {
      set0.regions[i] := a[i];
    }
    ClearSlots(set0.regions, n, MAX_REGIONS);
    set0.count := n;
  }

  lemma {:induction false} GapsMore(av: seq<Region>, k: nat)
    requires k <= |av|
    ensures |Gaps(av[..k])| <= |Gaps(av)|
    decreases |av|
  {
    if k == |av| {
      assert av[..k] == av;
    } else {
      GapsMore(av[..|av| - 1], k);
      assert av[..|av| - 1][..k] == av[..k];
    }
  }

  lemma GapsNext(av: seq<Region>, i: nat)
    requires i < |av|
    ensures Gaps(av[..i + 1]) == Gaps(av[..i]) + GapBefore(Reach(av[..i]), av[i].start)
    ensures Reach(av[..i + 1]) == Max(Reach(av[..i]), av[i].end)
    ensures |Gaps(av[..i])| + |GapBefore(Reach(av[..i]), av[i].start)| <= |Gaps(av)|
  {
    assert av[..i + 1][..i] == av[..i];
    GapsMore(av, i + 1);
  }

  /** `finalize_reserved_regions`: reserved becomes what available leaves of `[0, limit)`. */
  method StoreComplement(available: RegionSet, reserved: RegionSet, limit: nat) returns (ok: bool)
    requires available.Valid() && reserved.Valid() && available != reserved && available.regions != reserved.regions
    modifies reserved, reserved.regions
    ensures ok == (limit == 0 || |Complement(available.List(), limit)| <= MAX_REGIONS)
    ensures ok ==> reserved.Valid() && reserved.List() == if limit == 0 then [] else Complement(available.List(), limit)
  {
    ghost var av := available.List();
    ClearSlots(reserved.regions, 0, MAX_REGIONS);
    reserved.count := 0;
    if limit == 0 {
      return true;
    }
    var cur: nat := 0;
    ok := true;
    for i := 0 to available.count
      invariant ok && available.Valid() && available.List() == av
      invariant reserved.count <= MAX_REGIONS
      invariant forall j :: reserved.count <= j < MAX_REGIONS ==> reserved.regions[j] == EMPTY_REGION
      invariant reserved.regions[..reserved.count] == Gaps(av[..i]) && cur == Reach(av[..i])
    {
      GapsNext(av, i);
      var region := available.regions[i];
      if cur < region.start {
        ok, reserved.count := PushRegion(reserved.regions, reserved.count, cur, region.start);
        if !ok {
          return;
        }
      }
      if region.end > cur {
        cur := region.end;
      }
    }
    assert av[..|av|] == av;
    if cur < limit {
      ok, reserved.count := PushRegion(reserved.regions, reserved.count, cur, limit);
    }
  }

  // ----- the boot record -----

  class Record {
    const available: RegionSet
    const reserved: RegionSet
    var limit: nat
    var finalized: bool

    ghost predicate Valid()
      reads this, available, available.regions, reserved, reserved.regions
    {
      && available != reserved && available.regions != reserved.regions
      && available.Valid() && reserved.Valid()
    }

    ghost function Now(): State
      reads this, available, available.regions, reserved, reserved.regions
      requires Valid()
    {
      State(available.List(), reserved.List(), limit, finalized)
    }

    constructor ()
      ensures Valid() && Now() == START
      ensures fresh(available) && fresh(available.regions) && fresh(reserved) && fresh(reserved.regions)
    {
      var a := new RegionSet();
      var r := new RegionSet();
      available, reserved := a, r;
      limit, finalized := 0, false;
    }

    /** The answer of every method is false for a panic. */
    method InsertAvailable(start: nat, end: nat) returns (ok: bool)
      requires Valid()
      modifies this, available, available.regions
      ensures Valid()
      ensures ok == Apply(old(Now()), Available(start, end)).Next?
      ensures ok ==> Now() == Apply(old(Now()), Available(start, end)).st
    {
      if start == 0 {
        if end <= PAGE_SIZE {
          return true;
        }
        ok := InsertInto(available, PAGE_SIZE, end);
      } else {
        ok := InsertInto(available, start, end);
      }
    }

    method InsertReserved(start: nat, end: nat) returns (ok: bool)
      requires Valid()
      modifies this, reserved, reserved.regions
      ensures Valid()
      ensures ok == Apply(old(Now()), Reserve(start, end)).Next?
      ensures ok ==> Now() == Apply(old(Now()), Reserve(start, end)).st
    {
      ok := InsertInto(reserved, start, end);
    }

    method InsertInto(target: RegionSet, start: nat, end: nat) returns (ok: bool)
      requires Valid() && (target == available || target == reserved)
      modifies this, target, target.regions
      ensures Valid()
      ensures ok == (!old(finalized) && |old(target.List())| < MAX_REGIONS)
      ensures finalized == old(finalized)
      ensures ok ==> limit == Max(old(limit), end) && target.List() == Insert(old(target.List()), Region(start, end))
    {
      if finalized {
        return false;
      }
      limit := Max(limit, end);
      ok := target.InsertRegion(start, end);
    }

    /** `debug` tells a debug build, whose assertions are panics. */
    method BootAlloc(frames: nat, debug: bool) returns (ok: bool, granted: seq<Region>)
      requires Valid()
      modifies available, available.regions
      ensures Valid()
      ensures ok <==> && Apply(old(Now()), Alloc(frames)).Next?
                      && !(debug && MeetsUnchecked(old(Now()).av, frames * PAGE_SIZE))
      ensures ok ==> Now() == Apply(old(Now()), Alloc(frames)).st && granted == Apply(old(Now()), Alloc(frames)).granted
      ensures !ok ==> Now() == old(Now())
    {
      if frames == 0 || frames * PAGE_SIZE >= WORD {
        return false, [];
      }
      ok, granted := available.TakeFirstFit(frames * PAGE_SIZE, debug);
    }

    method FinalizeAll() returns (ok: bool)
      requires Valid() && Inv(Now())
      modifies this, available, available.regions, reserved, reserved.regions
      ensures ok == Apply(old(Now()), Finalize).Next?
      ensures ok ==> Valid() && Now() == Apply(old(Now()), Finalize).st
    {
      if finalized {
        return false;
      }
      ok := FinalizeAvailable();
      if ok {
        ok := StoreComplement(available, reserved, limit);
      }
    }

    method FinalizeAvailable() returns (ok: bool)
      requires Valid() && Separated(available.List()) && Ordered(reserved.List())
      modifies this`finalized, available, available.regions
      ensures finalized && Valid()
      ensures ok == (|Subtract(old(available.List()), old(reserved.List()))| <= MAX_REGIONS)
      ensures ok ==> available.List() == Subtract(old(available.List()), old(reserved.List()))
    {
      finalized := true;
      var result := new Region[MAX_REGIONS](_ => EMPTY_REGION);
      var n;
      ok, n := SubtractLists(available, reserved, result);
      if ok {
        StoreList(available, result, n);
      }
    }
  }
}
