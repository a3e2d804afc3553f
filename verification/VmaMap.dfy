/**
  The virtual memory areas of one address space, in pages.  The ordered map from start addresses
  to areas is the sequence of its values in ascending order of their starts.
 */
module VmaMap {
  import opened Arith
  import opened Paging

  /** First page of user space, at 1 TiB. */
  const FIRST_USER: nat := 0x1000_0000
  /** Pages below 2^64, and pages of the lower half of the canonical addresses. */
  const WORD_PAGES: nat := 0x10_0000_0000_0000
  const HALF_PAGES: nat := 0x8_0000_0000

  predicate Canonical(page: nat) { page < HALF_PAGES || WORD_PAGES - HALF_PAGES <= page < WORD_PAGES }

  datatype VmaType =
    | Code | Heap | Environment | DeviceMemory | UserStack | KernelStack | KernelBuffer | Anonymous
    | SharedMemory(id: nat)

  datatype Vma = Vma(space: MemorySpace, start: nat, end: nat, typ: VmaType, tag: string)

  predicate OverlapsWith(a: Vma, b: Vma) { a.end > b.start && a.start < b.end }

  predicate Holds(v: Vma, page: nat) { v.start <= page < v.end }

  /** The bounds of each space; `last` is the last usable user address. */
  predicate InBounds(v: Vma, last: nat) {
    match v.space
    case User => v.start >= FIRST_USER && v.end * PAGE_SIZE <= last
    case Kernel => v.start < FIRST_USER && v.end <= FIRST_USER
  }

  ghost predicate Sorted(areas: seq<Vma>) {
    && (forall i :: 0 <= i < |areas| ==> areas[i].start < areas[i].end)
    && (forall i, j :: 0 <= i < j < |areas| ==> areas[i].end <= areas[j].start)
  }

  /** What every reachable map satisfies: areas pairwise disjoint, in order, each within its space. */
  ghost predicate AreasOk(areas: seq<Vma>, last: nat) {
    && last < HALF_PAGES * PAGE_SIZE
    && Sorted(areas)
    && (forall i :: 0 <= i < |areas| ==> InBounds(areas[i], last))
  }

  /** How many areas start below `page`: the index of the first that `range(page..)` yields. */
  function Below(areas: seq<Vma>, page: nat): (k: nat)
    requires Sorted(areas)
    ensures k <= |areas|
    ensures forall i :: 0 <= i < k ==> areas[i].start < page
    ensures forall i :: k <= i < |areas| ==> page <= areas[i].start
  {
    BelowAmong(areas, page, |areas|)
  }

  function BelowAmong(areas: seq<Vma>, page: nat, m: nat): (k: nat)
    requires Sorted(areas) && m <= |areas|
    ensures k <= m
    ensures forall i :: 0 <= i < k ==> areas[i].start < page
    ensures forall i :: k <= i < m ==> page <= areas[i].start
  {
    if m == 0 then 0 else if areas[m - 1].start < page then m else BelowAmong(areas, page, m - 1)
  }

  datatype Outcome = Panic | Refused | Granted(areas: seq<Vma>, vma: Vma)

  /** The area at or before the new one ends in time, and the area at or after it starts late enough. */
  predicate NeighboursClear(areas: seq<Vma>, v: Vma)
    requires Sorted(areas)
  {
    var upTo, from := Below(areas, v.start + 1), Below(areas, v.start);
    && (upTo > 0 ==> areas[upTo - 1].end <= v.start)
    && (from < |areas| ==> v.end <= areas[from].start)
  }

  /** Looking at two neighbours is as good as `overlaps_with` against every area. */
  lemma NeighboursSuffice(areas: seq<Vma>, v: Vma)
    requires Sorted(areas) && v.start < v.end
    ensures NeighboursClear(areas, v) <==> forall i :: 0 <= i < |areas| ==> !OverlapsWith(v, areas[i])
  {
  }

  function InsertArea(areas: seq<Vma>, v: Vma): seq<Vma>
    requires Sorted(areas)
  {
    InsertAt(areas, v, Below(areas, v.start + 1))
  }

  function InsertAt(areas: seq<Vma>, v: Vma, k: nat): seq<Vma>
    requires k <= |areas|
  {
    areas[..k] + [v] + areas[k..]
  }

  lemma InsertKeeps(areas: seq<Vma>, v: Vma, k: nat)
    requires Sorted(areas) && v.start < v.end && k <= |areas|
    requires forall i :: 0 <= i < |areas| ==> !OverlapsWith(v, areas[i])
    requires forall i :: 0 <= i < k ==> areas[i].start <= v.start
    requires forall i :: k <= i < |areas| ==> v.start < areas[i].start
    ensures Sorted(InsertAt(areas, v, k))
  {
  }

  lemma AreaInserted(areas: seq<Vma>, v: Vma, last: nat)
    requires AreasOk(areas, last) && v.start < v.end && InBounds(v, last)
    requires forall i :: 0 <= i < |areas| ==> !OverlapsWith(v, areas[i])
    ensures AreasOk(InsertArea(areas, v), last)
    ensures forall w :: w in InsertArea(areas, v) <==> w in areas || w == v
  {
  }

  /** `alloc_at`: word size first, then the bounds, then the neighbours. */
  function AllocAt(areas: seq<Vma>, last: nat, first: nat, n: nat, space: MemorySpace, typ: VmaType,
                   tag: string): Outcome
    requires Sorted(areas)
  {
    if n == 0 || n >= WORD_PAGES || first + n >= WORD_PAGES then Refused
    else if !Canonical(first + n) then Panic
    else
      var v := Vma(space, first, first + n, typ, tag);
      if InBounds(v, last) && NeighboursClear(areas, v) then Granted(InsertArea(areas, v), v) else Refused
  }

  /** The request would lie within its space and overlap no area at all. */
  ghost predicate Fits(areas: seq<Vma>, last: nat, space: MemorySpace, first: nat, n: nat) {
    var v := Vma(space, first, first + n, Anonymous, "");
    && InBounds(v, last)
    && (forall i :: 0 <= i < |areas| ==> !OverlapsWith(v, areas[i]))
  }

  /** `alloc_at` succeeds exactly when the request fits. */
  lemma AllocAtIff(areas: seq<Vma>, last: nat, first: nat, n: nat, space: MemorySpace, typ: VmaType, tag: string)
    requires AreasOk(areas, last)
    ensures var r := AllocAt(areas, last, first, n, space, typ, tag);
            && (r.Granted? <==> n > 0 && Fits(areas, last, space, first, n))
            && (r.Panic? <==> n > 0 && first + n < WORD_PAGES && !Canonical(first + n))
  {
    var v := Vma(space, first, first + n, typ, tag);
    if n > 0 {
      NeighboursSuffice(areas, v);
      var w := Vma(space, first, first + n, Anonymous, "");
      assert forall i :: 0 <= i < |areas| ==> OverlapsWith(v, areas[i]) == OverlapsWith(w, areas[i]);
    }
  }

  /** A granted area is recorded beside all the others, and nothing else changes. */
  lemma AllocAtKeeps(areas: seq<Vma>, last: nat, first: nat, n: nat, space: MemorySpace, typ: VmaType, tag: string)
    requires AreasOk(areas, last) && AllocAt(areas, last, first, n, space, typ, tag).Granted?
    ensures var r := AllocAt(areas, last, first, n, space, typ, tag);
            && AreasOk(r.areas, last)
            && r.vma == Vma(space, first, first + n, typ, tag)
            && (forall w :: w in r.areas <==> w in areas || w == r.vma)
  {
    var v := Vma(space, first, first + n, typ, tag);
    NeighboursSuffice(areas, v);
    AreaInserted(areas, v, last);
  }

  // ----- searching a gap -----

  /** Bounds of the search, in pages and in bytes. */
  function SearchStart(space: MemorySpace): nat { if space.User? then FIRST_USER else 0 }

  function SearchEnd(space: MemorySpace, last: nat): nat {
    if space.User? then last else FIRST_USER * PAGE_SIZE
  }

  /** Adding the size to an address panics past the word and in the hole between the canonical halves. */
  predicate Addable(page: nat, n: nat) { page + n < WORD_PAGES && Canonical(page + n) }

  datatype Gap = At(page: nat) | NoGap | Overflow

  /** Where the search looks for a gap: at the start of the space and behind each of its areas. */
  ghost predicate Candidate(areas: seq<Vma>, last: nat, space: MemorySpace, page: nat) {
    && page * PAGE_SIZE < SearchEnd(space, last)
    && (page == SearchStart(space) || exists i :: 0 <= i < |areas| && areas[i].space == space && areas[i].end == page)
  }

  /** The areas of a space are the ones the search walks over. */
  lemma SpaceOfIndex(areas: seq<Vma>, last: nat, i: nat)
    requires AreasOk(areas, last) && i < |areas|
    ensures areas[i].space.User? <==> i >= Below(areas, FIRST_USER)
    ensures areas[i].start * PAGE_SIZE < SearchEnd(areas[i].space, last)
  {
  }

  /**
    The loop of `alloc`: the lowest page where the request fits; with no such page nothing is found, or the
    sum overflows, which happens exactly when it would behind some area (or at the start) of the space.
   */
  method FindGap(areas: seq<Vma>, last: nat, n: nat, space: MemorySpace) returns (g: Gap)
    requires AreasOk(areas, last) && n > 0
    ensures g.At? <==> exists p: nat :: Fits(areas, last, space, p, n)
    ensures g.At? ==> Fits(areas, last, space, g.page, n)
    ensures g.At? ==> forall p: nat :: Fits(areas, last, space, p, n) ==> g.page <= p
    ensures g.Overflow? <==> && n < WORD_PAGES
                             && !(exists p: nat :: Fits(areas, last, space, p, n))
                             && (exists c: nat :: Candidate(areas, last, space, c) && !Addable(c, n))
  {
    if n >= WORD_PAGES || SearchStart(space) * PAGE_SIZE >= SearchEnd(space, last) {
      return NoGap;
    }
    var firstUser := Below(areas, FIRST_USER);
    var lo: nat := if space.User? then firstUser else 0;
    var hi: nat := if space.User? then |areas| else firstUser;
    var current: nat := SearchStart(space);
    var i := lo;
    while i < hi
      invariant lo <= i <= hi
      invariant Progress(areas, last, space, n, lo, i, current)
    {
      SpaceOfIndex(areas, last, i);
      if !Addable(current, n) {
        NothingFits(areas, last, space, n, lo, i, hi, current);
        return Overflow;
      }
      if current + n <= areas[i].start {
        GapFits(areas, last, space, n, lo, i, hi, current);
        return At(current);
      }
      StepPast(areas, last, space, n, lo, i, hi, current);
      if areas[i].end > current {
        current := areas[i].end;
      }
      i := i + 1;
      if current * PAGE_SIZE >= SearchEnd(space, last) {
        PastTheEnd(areas, last, space, n, lo, i, hi, current);
        return NoGap;
      }
    }
    if !Addable(current, n) {
      NothingFits(areas, last, space, n, lo, i, hi, current);
      return Overflow;
    }
    if (current + n) * PAGE_SIZE <= SearchEnd(space, last) {
      GapFits(areas, last, space, n, lo, i, hi, current);
      return At(current);
    }
    NothingFits(areas, last, space, n, lo, i, hi, current);
    NoCandidateOverflows(areas, last, space, n, lo, i, hi, current);
    return NoGap;
  }

  ghost predicate IsWindow(areas: seq<Vma>, last: nat, space: MemorySpace, lo: nat, hi: nat) {
    && Sorted(areas)
    && lo == (if space.User? then Below(areas, FIRST_USER) else 0)
    && hi == (if space.User? then |areas| else Below(areas, FIRST_USER))
  }

  /** Before area `i`: nothing fits below `current`, and the sums so far were all good. */
  ghost predicate Progress(areas: seq<Vma>, last: nat, space: MemorySpace, n: nat, lo: nat, i: nat, current: nat) {
    && 0 <= lo <= i <= |areas|
    && current * PAGE_SIZE < SearchEnd(space, last)
    && current == (if i == lo then SearchStart(space) else areas[i - 1].end)
    && (i > lo ==> Addable(SearchStart(space), n))
    && (forall k :: lo <= k < i - 1 ==> Addable(areas[k].end, n))
    && (forall p: nat :: p < current ==> !Fits(areas, last, space, p, n))
  }

  lemma CurrentIsClear(areas: seq<Vma>, last: nat, space: MemorySpace, n: nat, lo: nat, i: nat, hi: nat, current: nat)
    requires AreasOk(areas, last) && n > 0 && IsWindow(areas, last, space, lo, hi) && i <= hi
    requires Progress(areas, last, space, n, lo, i, current)
    ensures Candidate(areas, last, space, current)
    ensures forall k :: 0 <= k < i ==> areas[k].end <= current
    ensures i < |areas| ==> current <= areas[i].start
  {
  }

  lemma GapFits(areas: seq<Vma>, last: nat, space: MemorySpace, n: nat, lo: nat, i: nat, hi: nat, current: nat)
    requires AreasOk(areas, last) && n > 0 && IsWindow(areas, last, space, lo, hi) && i <= hi
    requires Progress(areas, last, space, n, lo, i, current)
    requires if i < hi then current + n <= areas[i].start else (current + n) * PAGE_SIZE <= SearchEnd(space, last)
    ensures Fits(areas, last, space, current, n)
  {
    CurrentIsClear(areas, last, space, n, lo, i, hi, current);
    if i < hi {
      SpaceOfIndex(areas, last, i);
    }
    forall k | i <= k < |areas| ensures current + n <= areas[k].start {
      assert k == i || areas[i].end <= areas[k].start;
    }
    assert InBounds(Vma(space, current, current + n, Anonymous, ""), last);
  }

  /** Where the sum is out of range, or the tail too short, nothing above fits either. */
  lemma NothingFits(areas: seq<Vma>, last: nat, space: MemorySpace, n: nat, lo: nat, i: nat, hi: nat, current: nat)
    requires AreasOk(areas, last) && n > 0 && IsWindow(areas, last, space, lo, hi) && i <= hi
    requires Progress(areas, last, space, n, lo, i, current)
    requires !Addable(current, n) || (i == hi && (current + n) * PAGE_SIZE > SearchEnd(space, last))
    ensures forall p: nat :: !Fits(areas, last, space, p, n)
    ensures Candidate(areas, last, space, current)
  {
  }

  lemma StepPast(areas: seq<Vma>, last: nat, space: MemorySpace, n: nat, lo: nat, i: nat, hi: nat, current: nat)
    requires AreasOk(areas, last) && n > 0 && IsWindow(areas, last, space, lo, hi) && i < hi
    requires Progress(areas, last, space, n, lo, i, current)
    requires Addable(current, n) && current + n > areas[i].start
    ensures current < areas[i].end
    ensures forall p: nat :: p < areas[i].end ==> !Fits(areas, last, space, p, n)
  {
  }

  /** An area that ends with its space leaves no room, and it is the last one of it. */
  lemma PastTheEnd(areas: seq<Vma>, last: nat, space: MemorySpace, n: nat, lo: nat, i: nat, hi: nat, current: nat)
    requires AreasOk(areas, last) && n > 0 && IsWindow(areas, last, space, lo, hi) && lo < i <= hi
    requires current == areas[i - 1].end && current * PAGE_SIZE >= SearchEnd(space, last)
    requires Addable(SearchStart(space), n)
    requires forall k :: lo <= k < i - 1 ==> Addable(areas[k].end, n)
    requires forall p: nat :: p < current ==> !Fits(areas, last, space, p, n)
    ensures forall p: nat :: !Fits(areas, last, space, p, n)
    ensures forall c: nat :: Candidate(areas, last, space, c) ==> Addable(c, n)
  {
  }

  lemma NoCandidateOverflows(areas: seq<Vma>, last: nat, space: MemorySpace, n: nat, lo: nat, i: nat, hi: nat,
                             current: nat)
    requires AreasOk(areas, last) && n > 0 && IsWindow(areas, last, space, lo, hi) && i == hi
    requires Progress(areas, last, space, n, lo, i, current) && Addable(current, n)
    ensures forall c: nat :: Candidate(areas, last, space, c) ==> Addable(c, n)
  {
  }

  /** `is_address_within_vma`, on the page of the address: the closest area that starts at or below it. */
  function Lookup(areas: seq<Vma>, page: nat): Option<Vma>
    requires Sorted(areas)
  {
    var upTo := Below(areas, page + 1);
    if upTo > 0 && page < areas[upTo - 1].end then Some(areas[upTo - 1]) else None
  }

  /** The lookup finds the area that holds the page whenever there is one. */
  lemma LookupIff(areas: seq<Vma>, page: nat, v: Vma)
    requires Sorted(areas)
    ensures Lookup(areas, page) == Some(v) <==> v in areas && Holds(v, page)
  {
  }
}
