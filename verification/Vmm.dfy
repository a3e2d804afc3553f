/** A process address space: its recorded areas together with its page tables. */
module Vmm {
  import opened Arith
  import opened PageTable
  import opened PageMap
  import opened PageUnmap
  import opened Paging
  import opened VmaMap
  import AddressSpaces

  const DEPTH: nat := 4

  /** The areas of the address space and the page tables of the machine. */
  datatype State = State(areas: seq<Vma>, pt: AddressSpaces.State)

  /** Which page tables belong to the address space, and the last usable user address. */
  datatype Owner = Owner(id: nat, last: nat)

  /**
    The separate critical sections of the operations.  `MapInside` is every mapping into a recorded
    area, `Elsewhere` is any operation on another address space.
   */
  datatype Event =
    | Record(first: nat, n: nat, space: MemorySpace, typ: VmaType, tag: string)
    | MapInside(vma: Vma, fs: nat, fe: nat, s: nat, e: nat, space: MemorySpace, flags: nat)
    | Fault(page: nat, flags: nat)
    | UnmapPages(s: nat, e: nat, freePhysical: bool)
    | Elsewhere(op: AddressSpaces.Op)

  predicate Growable(typ: VmaType) { typ.UserStack? || typ.Heap? || typ.Anonymous? }

  ghost predicate Step(o: Owner, st: State, ev: Event, st2: State)
    requires Sorted(st.areas)
  {
    match ev
    case Record(first, n, space, typ, tag) =>
      && var r := AllocAt(st.areas, o.last, first, n, space, typ, tag);
      && r.Granted? && st2 == State(r.areas, st.pt)
    case MapInside(vma, fs, fe, s, e, space, flags) =>
      && vma in st.areas && vma.start <= s <= e <= vma.end
      && st2.areas == st.areas
      && AddressSpaces.Step(st.pt, AddressSpaces.MapPages(o.id, fs, fe, s, e, space, flags), st2.pt)
    case Fault(page, flags) =>
      && var found := Lookup(st.areas, page);
      && found.Some? && Growable(found.value.typ)
      && st2.areas == st.areas
      && AddressSpaces.Step(st.pt, AddressSpaces.MapPages(o.id, 0, 0, page, page + 1, User, flags), st2.pt)
    case UnmapPages(s, e, freePhysical) =>
      && s < HALF_PAGES
      && st2.areas == st.areas
      && AddressSpaces.Step(st.pt, AddressSpaces.Unmap(o.id, s, e, freePhysical), st2.pt)
    case Elsewhere(op) =>
      && op.id != o.id && st2.areas == st.areas && AddressSpaces.Step(st.pt, op, st2.pt)
  }

  /** The leaf of a page of the address space. */
  ghost function LeafOf(o: Owner, pt: AddressSpaces.State, page: nat): Entry
    requires o.id in pt.spaces
  {
    AddressSpaces.SpaceLeaf(pt, o.id, page)
  }

  /** Every user page with a mapping lies in a recorded area. */
  ghost predicate Recorded(o: Owner, st: State)
    requires Sorted(st.areas) && o.id in st.pt.spaces
  {
    forall p: nat :: FIRST_USER <= p < HALF_PAGES && Used(LeafOf(o, st.pt, p)) ==> Lookup(st.areas, p).Some?
  }

  ghost predicate Inv(o: Owner, st: State) {
    && AreasOk(st.areas, o.last)
    && AddressSpaces.Inv(st.pt)
    && o.id in st.pt.spaces && st.pt.spaces[o.id].depth == DEPTH
    && Recorded(o, st)
  }

  lemma OneBlock(p: nat)
    requires p < HALF_PAGES
    ensures Block(p, DEPTH) == 0
    ensures HALF_PAGES <= BlockStart(1, DEPTH)
  {
  }

  /** Areas end below the upper half. */
  lemma AreasLow(areas: seq<Vma>, last: nat, v: Vma)
    requires AreasOk(areas, last) && v in areas
    ensures v.start < v.end < HALF_PAGES
  {
  }

  /** Mapping inside an area adds leaves there only. */
  lemma MapLeaf(o: Owner, pt: AddressSpaces.State, op: AddressSpaces.Op, pt2: AddressSpaces.State, p: nat)
    requires AddressSpaces.Inv(pt) && o.id in pt.spaces && pt.spaces[o.id].depth == DEPTH
    requires op.MapPages? && op.id == o.id && op.s <= op.e < HALF_PAGES
    requires AddressSpaces.Step(pt, op, pt2)
    requires p < HALF_PAGES
    ensures o.id in pt2.spaces
    ensures !(op.s <= p < op.e) ==> LeafOf(o, pt2, p) == LeafOf(o, pt, p)
  {
    var fr :| AddressSpaces.StepMap(pt, op, fr, pt2);
    OneBlock(op.s);
    OneBlock(p);
  }

  /** Unmapping, however sparse the range, adds no leaf. */
  lemma UnmapLeaf(o: Owner, pt: AddressSpaces.State, op: AddressSpaces.Op, pt2: AddressSpaces.State, p: nat)
    requires AddressSpaces.Inv(pt) && o.id in pt.spaces && pt.spaces[o.id].depth == DEPTH
    requires op.Unmap? && op.id == o.id && op.s < HALF_PAGES
    requires AddressSpaces.Step(pt, op, pt2)
    requires p < HALF_PAGES
    ensures o.id in pt2.spaces
    ensures Used(LeafOf(o, pt2, p)) ==> LeafOf(o, pt2, p) == LeafOf(o, pt, p)
  {
    OneBlock(op.s);
    OneBlock(p);
  }

  lemma RecordKeeps(o: Owner, st: State, ev: Event, st2: State)
    requires Inv(o, st) && ev.Record? && Step(o, st, ev, st2)
    ensures Inv(o, st2)
  {
    AllocAtKeeps(st.areas, o.last, ev.first, ev.n, ev.space, ev.typ, ev.tag);
    forall p: nat | FIRST_USER <= p < HALF_PAGES && Used(LeafOf(o, st2.pt, p))
      ensures Lookup(st2.areas, p).Some?
    {
      var v := Lookup(st.areas, p).value;
      LookupIff(st.areas, p, v);
      LookupIff(st2.areas, p, v);
    }
  }

  lemma GrantKeeps(o: Owner, st: State, first: nat, n: nat, space: MemorySpace, typ: VmaType, tag: string)
    requires Inv(o, st) && AllocAt(st.areas, o.last, first, n, space, typ, tag).Granted?
    ensures var r := AllocAt(st.areas, o.last, first, n, space, typ, tag);
            Inv(o, State(r.areas, st.pt)) && r.vma == Vma(space, first, first + n, typ, tag) && r.vma in r.areas
  {
    AllocAtKeeps(st.areas, o.last, first, n, space, typ, tag);
    var areas2 := AllocAt(st.areas, o.last, first, n, space, typ, tag).areas;
    RecordKeeps(o, st, Record(first, n, space, typ, tag), State(areas2, st.pt));
  }

  /** A mapping of pages that some area holds. */
  lemma MapKeeps(o: Owner, st: State, op: AddressSpaces.Op, vma: Vma, st2: State)
    requires Inv(o, st) && vma in st.areas
    requires op.MapPages? && op.id == o.id && vma.start <= op.s <= op.e <= vma.end
    requires AddressSpaces.Step(st.pt, op, st2.pt) && st2.areas == st.areas
    ensures Inv(o, st2)
  {
    AddressSpaces.StepInv(st.pt, op, st2.pt);
    AreasLow(st.areas, o.last, vma);
    forall p: nat | FIRST_USER <= p < HALF_PAGES && Used(LeafOf(o, st2.pt, p))
      ensures Lookup(st2.areas, p).Some?
    {
      MapLeaf(o, st.pt, op, st2.pt, p);
      LookupIff(st.areas, p, vma);
    }
  }

  lemma FaultKeeps(o: Owner, st: State, ev: Event, st2: State)
    requires Inv(o, st) && ev.Fault? && Step(o, st, ev, st2)
    ensures Inv(o, st2)
  {
    var vma := Lookup(st.areas, ev.page).value;
    LookupIff(st.areas, ev.page, vma);
    MapKeeps(o, st, AddressSpaces.MapPages(o.id, 0, 0, ev.page, ev.page + 1, User, ev.flags), vma, st2);
  }

  lemma UnmapKeeps(o: Owner, st: State, op: AddressSpaces.Op, st2: State)
    requires Inv(o, st) && op.Unmap? && op.id == o.id && op.s < HALF_PAGES
    requires AddressSpaces.Step(st.pt, op, st2.pt) && st2.areas == st.areas
    ensures Inv(o, st2)
  {
    AddressSpaces.StepInv(st.pt, op, st2.pt);
    forall p: nat | FIRST_USER <= p < HALF_PAGES && Used(LeafOf(o, st2.pt, p))
      ensures Lookup(st2.areas, p).Some?
    {
      UnmapLeaf(o, st.pt, op, st2.pt, p);
    }
  }

  lemma ElsewhereKeeps(o: Owner, st: State, ev: Event, st2: State)
    requires Inv(o, st) && ev.Elsewhere? && Step(o, st, ev, st2)
    ensures Inv(o, st2)
  {
    AddressSpaces.StepInv(st.pt, ev.op, st2.pt);
    AddressSpaces.StepIsolated(st.pt, ev.op, st2.pt, o.id);
  }

  lemma MapInsideKeeps(o: Owner, st: State, ev: Event, st2: State)
    requires Inv(o, st) && ev.MapInside? && Step(o, st, ev, st2)
    ensures Inv(o, st2)
  {
    MapKeeps(o, st, AddressSpaces.MapPages(o.id, ev.fs, ev.fe, ev.s, ev.e, ev.space, ev.flags), ev.vma, st2);
  }

  lemma UnmapPagesKeeps(o: Owner, st: State, ev: Event, st2: State)
    requires Inv(o, st) && ev.UnmapPages? && Step(o, st, ev, st2)
    ensures Inv(o, st2)
  {
    UnmapKeeps(o, st, AddressSpaces.Unmap(o.id, ev.s, ev.e, ev.freePhysical), st2);
  }

  /** Each critical section keeps the areas disjoint and every mapped user page inside one. */
  lemma StepInv(o: Owner, st: State, ev: Event, st2: State)
    requires Inv(o, st) && Step(o, st, ev, st2)
    ensures Inv(o, st2)
  {
    if ev.Record? {
      RecordKeeps(o, st, ev, st2);
    } else if ev.Elsewhere? {
      ElsewhereKeeps(o, st, ev, st2);
    } else if ev.MapInside? {
      MapInsideKeeps(o, st, ev, st2);
    } else if ev.Fault? {
      FaultKeeps(o, st, ev, st2);
    } else {
      UnmapPagesKeeps(o, st, ev, st2);
    }
  }

  ghost predicate Run(o: Owner, states: seq<State>, evs: seq<Event>) {
    && |states| == |evs| + 1
    && forall i :: 0 <= i < |evs| ==> Sorted(states[i].areas) && Step(o, states[i], evs[i], states[i + 1])
  }

  lemma {:induction false} RunInv(o: Owner, states: seq<State>, evs: seq<Event>, n: nat)
    requires Run(o, states, evs) && Inv(o, states[0]) && n <= |evs|
    ensures Inv(o, states[n])
  {
    if n > 0 {
      RunInv(o, states, evs, n - 1);
      StepInv(o, states[n - 1], evs[n - 1], states[n]);
    }
  }

  lemma TranslatesInArea(o: Owner, st: State, addr: nat)
    requires Inv(o, st) && FIRST_USER * PAGE_SIZE <= addr < HALF_PAGES * PAGE_SIZE
    requires TranslateInTable(st.pt.mem, st.pt.spaces[o.id].root, addr, DEPTH).Some?
    ensures Lookup(st.areas, addr / PAGE_SIZE).Some?
  {
    TranslateIsLeaf(st.pt.mem, st.pt.spaces[o.id].root, DEPTH, addr / PAGE_SIZE, addr % PAGE_SIZE);
  }

  /**
    An address space that starts without areas and without user pages: at every later point, an
    address of user space that translates lies in a recorded area, and `is_address_within_vma` finds it.
   */
  lemma TranslatedIsRecorded(o: Owner, states: seq<State>, evs: seq<Event>, addr: nat)
    requires Run(o, states, evs) && o.last < HALF_PAGES * PAGE_SIZE
    requires states[0].areas == [] && AddressSpaces.Inv(states[0].pt)
    requires o.id in states[0].pt.spaces && states[0].pt.spaces[o.id].depth == DEPTH
    requires forall p: nat :: FIRST_USER <= p < HALF_PAGES ==> !Used(LeafOf(o, states[0].pt, p))
    requires FIRST_USER * PAGE_SIZE <= addr < HALF_PAGES * PAGE_SIZE
    ensures var st := states[|evs|];
            && Inv(o, st)
            && (TranslateInTable(st.pt.mem, st.pt.spaces[o.id].root, addr, DEPTH).Some? ==>
                  exists v :: v in st.areas && VmaMap.Holds(v, addr / PAGE_SIZE)
                    && Lookup(st.areas, addr / PAGE_SIZE) == Some(v))
  {
    RunInv(o, states, evs, |evs|);
    var st := states[|evs|];
    if TranslateInTable(st.pt.mem, st.pt.spaces[o.id].root, addr, DEPTH).Some? {
      TranslatesInArea(o, st, addr);
      LookupIff(st.areas, addr / PAGE_SIZE, Lookup(st.areas, addr / PAGE_SIZE).value);
    }
  }

  // ----- the operations -----

  /** The flags `PRESENT | WRITABLE | USER_ACCESSIBLE`. */
  const USER_FLAGS: nat := 7

  /** `Panicked` stands for every panic, running out of frames included. */
  datatype Reply = Panicked | Declined | Done(vma: Vma)

  /** Looking an area up by its start finds it exactly when it is recorded. */
  lemma FoundByStart(areas: seq<Vma>, v: Vma)
    requires Sorted(areas)
    ensures var k := Below(areas, v.start);
            v in areas <==> k < |areas| && areas[k] == v
  {
  }

  /** The pages `s..e` are mapped now, and every other page is as it was. */
  ghost predicate MapsExactly(o: Owner, pt: AddressSpaces.State, pt2: AddressSpaces.State, s: nat, e: nat) {
    && o.id in pt.spaces && o.id in pt2.spaces
    && (forall p: nat :: s <= p < e ==> Used(LeafOf(o, pt2, p)))
    && (forall p: nat :: p < HALF_PAGES && !(s <= p < e) ==> LeafOf(o, pt2, p) == LeafOf(o, pt, p))
  }

  /** A leaf with a frame that was free and is handed out now. */
  ghost predicate OwnFrame(leaf: Entry, flags: nat, pt: AddressSpaces.State, pt2: AddressSpaces.State) {
    leaf.flags == flags && leaf.addr in pt.free && leaf.addr !in pt2.free && leaf.addr in pt2.data
  }

  /** Every page of `s..e` has a frame of its own, out of the free frames. */
  ghost predicate OwnFrames(o: Owner, pt: AddressSpaces.State, pt2: AddressSpaces.State, s: nat, e: nat, flags: nat) {
    && o.id in pt2.spaces
    && (forall p: nat :: s <= p < e ==> OwnFrame(LeafOf(o, pt2, p), flags, pt, pt2))
    && (forall p: nat, q: nat :: s <= p < q < e ==> LeafOf(o, pt2, p).addr != LeafOf(o, pt2, q).addr)
  }

  /** The pages of `s..e` have the frames given for them, in order; kernel pages have the frames of their own number. */
  ghost predicate GivenFrames(o: Owner, pt2: AddressSpaces.State, space: MemorySpace, fs: nat, s: nat, e: nat,
                              flags: nat)
  {
    && o.id in pt2.spaces
    && forall p: nat :: s <= p < e ==> LeafOf(o, pt2, p) == Entry(if space.Kernel? then p else fs + (p - s), flags)
  }

  /** Which frames a mapping puts behind its pages. */
  ghost predicate FramesBehind(o: Owner, pt: AddressSpaces.State, op: AddressSpaces.Op, pt2: AddressSpaces.State)
    requires op.MapPages?
  {
    if Allocating(op.space, op.fs, op.fe) then OwnFrames(o, pt, pt2, op.s, op.e, op.flags)
    else GivenFrames(o, pt2, op.space, op.fs, op.s, op.e, op.flags)
  }

  /** The pages `s..e` were mapped for the user, each to a frame of its own, and every other page is as it was. */
  ghost predicate FreshlyMapped(o: Owner, pt: AddressSpaces.State, pt2: AddressSpaces.State, s: nat, e: nat) {
    && MapsExactly(o, pt, pt2, s, e)
    && OwnFrames(o, pt, pt2, s, e, USER_FLAGS)
    && AddressSpaces.Step(pt, AddressSpaces.MapPages(o.id, 0, 0, s, e, User, USER_FLAGS), pt2)
  }

  /** There is room: at the page asked for, or anywhere in the space. */
  ghost predicate Room(areas: seq<Vma>, last: nat, space: MemorySpace, start: Option<nat>, n: nat) {
    n > 0 &&
    match start
    case Some(first) => Fits(areas, last, space, first, n)
    case None => exists p: nat :: Fits(areas, last, space, p, n)
  }

  /** The place the request gets: the page asked for, or the lowest page where it fits. */
  ghost predicate Chosen(areas: seq<Vma>, last: nat, space: MemorySpace, start: Option<nat>, n: nat, first: nat) {
    match start
    case Some(page) => first == page
    case None => Fits(areas, last, space, first, n) && forall p: nat :: Fits(areas, last, space, p, n) ==> first <= p
  }

  /**
    The end of the request is no address: at the page asked for, or at some candidate of a search that
    finds nothing.
   */
  ghost predicate NoAddress(areas: seq<Vma>, last: nat, space: MemorySpace, start: Option<nat>, n: nat) {
    0 < n < WORD_PAGES && !Room(areas, last, space, start, n) &&
    match start
    case Some(first) => first + n < WORD_PAGES && !Canonical(first + n)
    case None => exists c: nat :: Candidate(areas, last, space, c) && !Addable(c, n)
  }

  /** The request was recorded at its place as `vma`, and `areas2` are the areas then. */
  ghost predicate Obtained(areas: seq<Vma>, last: nat, start: Option<nat>, n: nat, vma: Vma, areas2: seq<Vma>)
    requires Sorted(areas)
  {
    && vma.end == vma.start + n && vma in areas2
    && AllocAt(areas, last, vma.start, n, vma.space, vma.typ, vma.tag) == Granted(areas2, vma)
    && Chosen(areas, last, vma.space, start, n, vma.start)
  }

  /** `s..e` are the `count` pages at the upper or the lower end of the area. */
  ghost predicate AtEnd(vma: Vma, count: nat, downwards: bool, s: nat, e: nat) {
    e - s == count && if downwards then e == vma.end else s == vma.start
  }

  class AddressSpace {
    const tables: AddressSpaces.SpaceTable
    const owner: Owner
    var areas: seq<Vma>

    ghost function Now(): State
      reads this, tables, tables.machine
    {
      State(areas, tables.Now())
    }

    ghost predicate Valid()
      reads this, tables, tables.machine
    {
      Inv(owner, Now())
    }

    /** A new address space over page tables that map no user page. */
    constructor (tables: AddressSpaces.SpaceTable, owner: Owner)
      requires AddressSpaces.Inv(tables.Now()) && owner.last < HALF_PAGES * PAGE_SIZE
      requires owner.id in tables.spaces && tables.spaces[owner.id].depth == DEPTH
      requires forall p: nat :: FIRST_USER <= p < HALF_PAGES ==> !Used(LeafOf(owner, tables.Now(), p))
      ensures this.tables == tables && this.owner == owner
      ensures Valid() && areas == []
    {
      this.tables, this.owner, areas := tables, owner, [];
    }

    /** `alloc_vma`: at the page asked for, or at the lowest page where the request fits. */
    method AllocVma(start: Option<nat>, n: nat, space: MemorySpace, typ: VmaType, tag: string) returns (r: Reply)
      requires Valid()
      modifies this`areas
      ensures Valid()
      ensures r.Done? <==> Room(old(areas), owner.last, space, start, n)
      ensures r.Panicked? <==> NoAddress(old(areas), owner.last, space, start, n)
      ensures r.Done? ==> r.vma.space == space && r.vma.typ == typ && r.vma.tag == tag
      ensures r.Done? ==> Obtained(old(areas), owner.last, start, n, r.vma, areas)
      ensures !r.Done? ==> areas == old(areas)
    {
      if n == 0 {
        return Declined;
      }
      var place := PlaceFor(start, n, space);
      match place {
        case Overflow => return Panicked;
        case NoGap => return Declined;
        case At(first) =>
          var outcome := AllocAt(areas, owner.last, first, n, space, typ, tag);
          AllocAtIff(areas, owner.last, first, n, space, typ, tag);
          match outcome {
            case Panic => return Panicked;
            case Refused => return Declined;
            case Granted(areas2, vma) =>
              GrantKeeps(owner, Now(), first, n, space, typ, tag);
              areas := areas2;
              return Done(vma);
          }
      }
    }

    /** The page asked for, or what the search finds. */
    method PlaceFor(start: Option<nat>, n: nat, space: MemorySpace) returns (g: Gap)
      requires Valid() && n > 0
      ensures start.Some? ==> g == At(start.value)
      ensures start.None? ==> (g.At? <==> Room(areas, owner.last, space, start, n))
      ensures start.None? ==> (g.Overflow? <==> NoAddress(areas, owner.last, space, start, n))
      ensures g.At? ==> Chosen(areas, owner.last, space, start, n, g.page)
    {
      match start {
        case Some(page) => g := At(page);
        case None => g := FindGap(areas, owner.last, n, space);
      }
    }

    /** `page_tables.map` and `map_physical` on pages of an area. */
    method MapPages(vma: Vma, fs: nat, fe: nat, s: nat, e: nat, space: MemorySpace, flags: nat) returns (ok: bool)
      requires Valid() && vma.start <= s <= e <= vma.end
      requires fs <= fe && (fs < fe ==> fe - fs == e - s)
      modifies tables`data, tables.machine
      ensures !ok ==> tables.machine.free == {}
      ensures ok ==>
                AddressSpaces.Step(old(tables.Now()), AddressSpaces.MapPages(owner.id, fs, fe, s, e, space, flags),
                                   tables.Now())
      ensures ok && vma in areas ==>
                Valid() && Step(owner, old(Now()), MapInside(vma, fs, fe, s, e, space, flags), Now())
      ensures ok && flags != 0 && e < HALF_PAGES ==> MapsExactly(owner, old(tables.Now()), tables.Now(), s, e)
      ensures ok && e < HALF_PAGES ==>
                FramesBehind(owner, old(tables.Now()),
                             AddressSpaces.MapPages(owner.id, fs, fe, s, e, space, flags), tables.Now())
    {
      ghost var op := AddressSpaces.MapPages(owner.id, fs, fe, s, e, space, flags);
      ghost var fr;
      ok, fr := tables.MapRange(owner.id, fs, fe, s, e, space, flags);
      if ok {
        assert AddressSpaces.Step(old(Now()).pt, op, Now().pt);
        if vma in areas {
          StepInv(owner, old(Now()), MapInside(vma, fs, fe, s, e, space, flags), Now());
        }
        if e < HALF_PAGES {
          RangeMapped(owner, old(Now()).pt, op, fr, Now().pt);
        }
      }
    }

    /**
      `map_pfr_for_partial_vma`: frames already allocated, one for each page of a part of the area,
      recorded or not.
     */
    method MapFrames(vma: Vma, fs: nat, fe: nat, s: nat, e: nat, flags: nat) returns (r: Reply)
      requires Valid() && fs <= fe && s <= e
      modifies tables`data, tables.machine
      ensures r.Declined? <==> s == e || fe - fs != e - s || s < vma.start || e > vma.end
      ensures r.Declined? ==> Now() == old(Now())
      ensures r.Panicked? ==> tables.machine.free == {}
      ensures r.Done? ==>
                AddressSpaces.Step(old(tables.Now()),
                                   AddressSpaces.MapPages(owner.id, fs, fe, s, e, vma.space, flags), tables.Now())
      ensures r.Done? && vma in areas ==>
                Valid() && Step(owner, old(Now()), MapInside(vma, fs, fe, s, e, vma.space, flags), Now())
      ensures r.Done? && flags != 0 && e < HALF_PAGES ==> MapsExactly(owner, old(tables.Now()), tables.Now(), s, e)
      ensures r.Done? && e < HALF_PAGES ==> GivenFrames(owner, tables.Now(), vma.space, fs, s, e, flags)
    {
      if s == e || fe - fs != e - s || s < vma.start || e > vma.end {
        return Declined;
      }
      var ok := MapPages(vma, fs, fe, s, e, vma.space, flags);
      return if ok then Done(vma) else Panicked;
    }

    /** `map_partial_vma`: panics unless the very area is recorded and the range lies in it. */
    method MapPartial(vma: Vma, s: nat, e: nat, space: MemorySpace, flags: nat) returns (ok: bool)
      requires Valid() && s <= e
      modifies tables`data, tables.machine
      ensures !ok ==> vma !in areas || s < vma.start || e > vma.end || tables.machine.free == {}
      ensures ok ==> Valid() && Step(owner, old(Now()), MapInside(vma, 0, 0, s, e, space, flags), Now())
      ensures ok && flags != 0 ==> MapsExactly(owner, old(tables.Now()), tables.Now(), s, e)
      ensures ok ==> FramesBehind(owner, old(tables.Now()),
                                  AddressSpaces.MapPages(owner.id, 0, 0, s, e, space, flags), tables.Now())
    {
      var k := Below(areas, vma.start);
      FoundByStart(areas, vma);
      if k == |areas| || areas[k] != vma || s < vma.start || e > vma.end {
        return false;
      }
      AreasLow(areas, owner.last, vma);
      ok := MapPages(vma, 0, 0, s, e, space, flags);
    }

    /** Maps pages of a recorded area for the user, each to a frame of its own. */
    method MapFresh(vma: Vma, s: nat, e: nat) returns (ok: bool)
      requires Valid() && vma in areas && vma.start <= s <= e <= vma.end
      modifies tables`data, tables.machine
      ensures !ok ==> tables.machine.free == {}
      ensures ok ==> Valid() && FreshlyMapped(owner, old(tables.Now()), tables.Now(), s, e)
    {
      AreasLow(areas, owner.last, vma);
      ok := MapPages(vma, 0, 0, s, e, User, USER_FLAGS);
    }

    /** `user_alloc_map_partial`: an area of `n` pages, the `count` pages `s..e` at one end of it mapped. */
    method UserAllocMapPartial(start: Option<nat>, n: nat, typ: VmaType, tag: string, count: nat, downwards: bool)
      returns (r: Reply, ghost s: nat, ghost e: nat)
      requires Valid()
      modifies this`areas, tables`data, tables.machine
      ensures r.Declined? <==>
                count > n || !(Room(old(areas), owner.last, User, start, n)
                               || NoAddress(old(areas), owner.last, User, start, n))
      ensures r.Declined? ==> Now() == old(Now()) && Valid()
      ensures r.Panicked? ==> NoAddress(old(areas), owner.last, User, start, n) || tables.machine.free == {}
      ensures r.Done? ==> Valid() && r.vma.space == User && r.vma.typ == typ && r.vma.tag == tag
      ensures r.Done? ==> Obtained(old(areas), owner.last, start, n, r.vma, areas)
      ensures r.Done? ==> count <= n && AtEnd(r.vma, count, downwards, s, e)
      ensures r.Done? ==> FreshlyMapped(owner, old(tables.Now()), tables.Now(), s, e)
    {
      s, e := 0, 0;
      if count > n {
        return Declined, s, e;
      }
      r := AllocVma(start, n, User, typ, tag);
      if !r.Done? {
        return;
      }
      var ok;
      ok, s, e := MapAtEnd(r.vma, count, downwards);
      if !ok {
        r := Panicked;
      }
    }

    /** Maps `count` pages at the lower or the upper end of a recorded area. */
    method MapAtEnd(vma: Vma, count: nat, downwards: bool) returns (ok: bool, ghost s: nat, ghost e: nat)
      requires Valid() && vma in areas && vma.start + count <= vma.end
      modifies tables`data, tables.machine
      ensures AtEnd(vma, count, downwards, s, e)
      ensures !ok ==> tables.machine.free == {}
      ensures ok ==> Valid() && FreshlyMapped(owner, old(tables.Now()), tables.Now(), s, e)
    {
      var first := if downwards then vma.end - count else vma.start;
      var last := first + count;
      ok := MapFresh(vma, first, last);
      s, e := first, last;
    }

    /** `user_alloc_map_full`. */
    method UserAllocMapFull(start: Option<nat>, n: nat, typ: VmaType, tag: string) returns (r: Reply)
      requires Valid()
      modifies this`areas, tables`data, tables.machine
      ensures r.Declined? <==>
                !(Room(old(areas), owner.last, User, start, n) || NoAddress(old(areas), owner.last, User, start, n))
      ensures r.Declined? ==> Now() == old(Now()) && Valid()
      ensures r.Panicked? ==> NoAddress(old(areas), owner.last, User, start, n) || tables.machine.free == {}
      ensures r.Done? ==> Valid() && r.vma.space == User && r.vma.typ == typ && r.vma.tag == tag
      ensures r.Done? ==> Obtained(old(areas), owner.last, start, n, r.vma, areas)
      ensures r.Done? ==> FreshlyMapped(owner, old(tables.Now()), tables.Now(), r.vma.start, r.vma.end)
    {
      r := AllocVma(start, n, User, typ, tag);
      if !r.Done? {
        return;
      }
      var ok := MapFresh(r.vma, r.vma.start, r.vma.end);
      if !ok {
        return Panicked;
      }
    }

    /**
      The page-fault handler of a user thread; it maps the page exactly in a growable area, and only
      running out of frames stops it.
     */
    method HandleFault(addr: nat) returns (handled: bool, panicked: bool, ghost page: nat)
      requires Valid()
      modifies tables`data, tables.machine
      ensures page == addr / PAGE_SIZE
      ensures panicked ==> tables.machine.free == {}
      ensures !panicked ==>
                && Valid()
                && (handled <==> exists v :: v in areas && VmaMap.Holds(v, page) && Growable(v.typ))
                && if handled then Step(owner, old(Now()), Fault(page, USER_FLAGS), Now()) else Now() == old(Now())
      ensures handled && !panicked ==> FreshlyMapped(owner, old(tables.Now()), tables.Now(), page, page + 1)
    {
      var at := addr / PAGE_SIZE;
      page := at;
      GrowableAt(areas, page);
      handled, panicked := HandlePage(at);
    }

    method HandlePage(page: nat) returns (handled: bool, panicked: bool)
      requires Valid()
      modifies tables`data, tables.machine
      ensures panicked ==> tables.machine.free == {}
      ensures !panicked ==>
                && Valid()
                && (handled <==> Lookup(areas, page).Some? && Growable(Lookup(areas, page).value.typ))
                && if handled then Step(owner, old(Now()), Fault(page, USER_FLAGS), Now()) else Now() == old(Now())
      ensures handled && !panicked ==> FreshlyMapped(owner, old(tables.Now()), tables.Now(), page, page + 1)
    {
      var found := Lookup(areas, page);
      if found.None? || !Growable(found.value.typ) {
        return false, false;
      }
      LookupIff(areas, page, found.value);
      var next := page + 1;
      var ok := MapPartial(found.value, page, next, User, USER_FLAGS);
      if ok {
        FaultIsMapping(owner, old(Now()), found.value, page, USER_FLAGS, Now());
        FaultIsFresh(owner, old(Now()), found.value, page, next, Now());
      }
      return ok, !ok;
    }

    /** `unmap_vma`; freed frames must be user frames, each mapped once among the pages reached. */
    method UnmapVma(vma: Vma, freePhysical: bool)
      requires Valid() && vma.start <= vma.end && vma.start < HALF_PAGES
      requires freePhysical ==>
                 var sp := tables.spaces[owner.id];
                 var reached := AddressSpaces.Reached(tables.Now(), owner.id, vma.start, vma.end);
                 && Freeable(tables.machine.mem, tables.machine.free, sp.root, sp.depth, reached)
                 && DataOf(tables.machine.mem, sp.root, sp.depth, reached) <= tables.data
      modifies tables`data, tables.machine
      ensures Valid() && Step(owner, old(Now()), UnmapPages(vma.start, vma.end, freePhysical), Now())
    {
      var n := tables.UnmapRange(owner.id, vma.start, vma.end, freePhysical);
      StepInv(owner, old(Now()), UnmapPages(vma.start, vma.end, freePhysical), Now());
    }
  }

  lemma RangeMapped(o: Owner, pt: AddressSpaces.State, op: AddressSpaces.Op, fr: seq<nat>, pt2: AddressSpaces.State)
    requires o.id in pt.spaces && pt.spaces[o.id].depth == DEPTH
    requires op.MapPages? && op.id == o.id && AddressSpaces.StepMap(pt, op, fr, pt2) && op.e < HALF_PAGES
    ensures op.flags != 0 ==> MapsExactly(o, pt, pt2, op.s, op.e)
    ensures FramesBehind(o, pt, op, pt2)
  {
    RangeLeaves(o, pt, pt2, pt.spaces[o.id], op.s, op.e, fr, op.flags);
    if op.flags != 0 {
      LeavesExact(o, pt, pt2, op.s, op.e, fr, op.flags);
    }
    if Allocating(op.space, op.fs, op.fe) {
      FramesTaken(pt, op, fr, pt2);
      FramesOwned(o, pt, pt2, op.s, op.e, fr, op.flags);
    } else {
      FramesGiven(o, pt, pt2, op, fr);
    }
  }

  /** The pages `s..e` have the frames `fr` in order, and every other page is as it was. */
  ghost predicate LeavesSet(o: Owner, pt: AddressSpaces.State, pt2: AddressSpaces.State, s: nat, e: nat,
                            fr: seq<nat>, flags: nat)
  {
    && o.id in pt.spaces && o.id in pt2.spaces && |fr| == e - s
    && (forall p: nat :: s <= p < e ==> LeafOf(o, pt2, p) == Entry(fr[p - s], flags))
    && (forall p: nat :: p < HALF_PAGES && !(s <= p < e) ==> LeafOf(o, pt2, p) == LeafOf(o, pt, p))
  }

  lemma RangeLeaves(o: Owner, pt: AddressSpaces.State, pt2: AddressSpaces.State, sp: AddressSpaces.Space, s: nat,
                    e: nat, fr: seq<nat>, flags: nat)
    requires o.id in pt.spaces && o.id in pt2.spaces && pt.spaces[o.id] == pt2.spaces[o.id] == sp
    requires sp.depth == DEPTH && s <= e < HALF_PAGES
    requires MapsLeaves(pt.mem, pt2.mem, sp.root, sp.depth, s, fr, flags) && |fr| == Stop(s, e, sp.depth) - s
    ensures LeavesSet(o, pt, pt2, s, e, fr, flags)
  {
    LeavesMapped(pt.mem, pt2.mem, sp.root, sp.depth, s, e, fr, flags);
  }

  lemma FramesTaken(pt: AddressSpaces.State, op: AddressSpaces.Op, fr: seq<nat>, pt2: AddressSpaces.State)
    requires op.MapPages? && AddressSpaces.StepMap(pt, op, fr, pt2) && Allocating(op.space, op.fs, op.fe)
    ensures Distinct(fr) && Elems(fr) <= pt.free && Elems(fr) !! pt2.free && Elems(fr) <= pt2.data
  {
  }

  lemma LeavesExact(o: Owner, pt: AddressSpaces.State, pt2: AddressSpaces.State, s: nat, e: nat, fr: seq<nat>,
                    flags: nat)
    requires LeavesSet(o, pt, pt2, s, e, fr, flags) && flags != 0
    ensures MapsExactly(o, pt, pt2, s, e)
  {
  }

  lemma FramesGiven(o: Owner, pt: AddressSpaces.State, pt2: AddressSpaces.State, op: AddressSpaces.Op, fr: seq<nat>)
    requires op.MapPages? && op.fs <= op.fe && LeavesSet(o, pt, pt2, op.s, op.e, fr, op.flags)
    requires FramesFor(fr, op.space, op.fs, op.fe, op.s) && !Allocating(op.space, op.fs, op.fe)
    ensures GivenFrames(o, pt2, op.space, op.fs, op.s, op.e, op.flags)
  {
  }

  lemma LeavesMapped(m0: Memory, m: Memory, t: nat, level: nat, s: nat, e: nat, fr: seq<nat>, flags: nat)
    requires s <= e < HALF_PAGES && level == DEPTH
    requires MapsLeaves(m0, m, t, level, s, fr, flags) && |fr| == Stop(s, e, level) - s
    ensures |fr| == e - s
    ensures forall p: nat :: s <= p < e ==> Leaf(m, t, level, p) == Entry(fr[p - s], flags)
    ensures forall p: nat :: p < HALF_PAGES && !(s <= p < e) ==> Leaf(m, t, level, p) == Leaf(m0, t, level, p)
  {
    OneBlock(s);
    assert Stop(s, e, level) == e;
    forall p: nat | p < HALF_PAGES
      ensures s <= p < e ==> Leaf(m, t, level, p) == Entry(fr[p - s], flags)
      ensures !(s <= p < e) ==> Leaf(m, t, level, p) == Leaf(m0, t, level, p)
    {
      OneBlock(p);
    }
  }

  lemma FramesOwned(o: Owner, pt: AddressSpaces.State, pt2: AddressSpaces.State, s: nat, e: nat, fr: seq<nat>,
                    flags: nat)
    requires LeavesSet(o, pt, pt2, s, e, fr, flags)
    requires Distinct(fr) && Elems(fr) <= pt.free && Elems(fr) !! pt2.free && Elems(fr) <= pt2.data
    ensures OwnFrames(o, pt, pt2, s, e, flags)
  {
    forall p: nat | s <= p < e
      ensures OwnFrame(LeafOf(o, pt2, p), flags, pt, pt2)
    {
      assert fr[p - s] in Elems(fr);
    }
  }

  lemma GrowableAt(areas: seq<Vma>, page: nat)
    requires Sorted(areas)
    ensures var found := Lookup(areas, page);
            found.Some? && Growable(found.value.typ) <==>
              exists v :: v in areas && VmaMap.Holds(v, page) && Growable(v.typ)
  {
    var found := Lookup(areas, page);
    forall v ensures found == Some(v) <==> v in areas && VmaMap.Holds(v, page) {
      LookupIff(areas, page, v);
    }
  }

  lemma FaultIsFresh(o: Owner, st: State, vma: Vma, s: nat, e: nat, st2: State)
    requires Sorted(st.areas) && Step(o, st, MapInside(vma, 0, 0, s, e, User, USER_FLAGS), st2)
    requires MapsExactly(o, st.pt, st2.pt, s, e)
    requires FramesBehind(o, st.pt, AddressSpaces.MapPages(o.id, 0, 0, s, e, User, USER_FLAGS), st2.pt)
    ensures FreshlyMapped(o, st.pt, st2.pt, s, e)
  {
  }

  lemma FaultIsMapping(o: Owner, st: State, vma: Vma, page: nat, flags: nat, st2: State)
    requires Sorted(st.areas) && Lookup(st.areas, page) == Some(vma) && Growable(vma.typ)
    requires Step(o, st, MapInside(vma, 0, 0, page, page + 1, User, flags), st2)
    ensures Step(o, st, Fault(page, flags), st2)
  {
  }
}
