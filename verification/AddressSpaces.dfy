/**
  All address spaces of the machine together: runs of creating, copying, mapping,
  unmapping and dropping hierarchies over one physical memory and one frame allocator.
 */
module AddressSpaces {
  import opened Arith
  import opened PageTable
  import opened PageMap
  import opened PageUnmap
  import opened PageCopy
  import opened Paging

  /** A `Paging` object: the frame of its root table and the depth of its hierarchy. */
  datatype Space = Space(root: nat, depth: nat)

  /** `data` are the frames handed out for user pages and not given back yet. */
  datatype State = State(mem: Memory, free: set<nat>, data: set<nat>, spaces: map<nat, Space>)

  datatype Op =
    | New(id: nat, depth: nat)
    | Copy(id: nat, from: nat)
    | MapPages(id: nat, fs: nat, fe: nat, s: nat, e: nat, space: MemorySpace, flags: nat)
    | Unmap(id: nat, s: nat, e: nat, freePhysical: bool)
    | Drop(id: nat)

  ghost function SpaceTables(st: State, id: nat): set<nat>
    requires id in st.spaces
  {
    Tables(st.mem, st.spaces[id].root, st.spaces[id].depth)
  }

  ghost function SpaceLeaf(st: State, id: nat, page: nat): Entry
    requires id in st.spaces
  {
    Leaf(st.mem, st.spaces[id].root, st.spaces[id].depth, page)
  }

  /** The flags of the upper entries on the way to a page. */
  ghost function SpacePath(st: State, id: nat, page: nat): seq<nat>
    requires id in st.spaces
  {
    PathFlags(st.mem, st.spaces[id].root, st.spaces[id].depth, page)
  }

  ghost predicate SpaceIsTree(st: State, id: nat)
    requires id in st.spaces
  {
    IsTree(st.mem, st.spaces[id].root, st.spaces[id].depth)
  }

  ghost function Live(st: State): set<nat> {
    set id, f | id in st.spaces && f in SpaceTables(st, id) :: f
  }

  /** Every frame the allocator ever had: free, in a live table, or behind a user page. */
  ghost function Total(st: State): set<nat> { st.free + Live(st) + st.data }

  ghost predicate Inv(st: State) {
    && st.free <= st.mem.Keys && st.data <= st.mem.Keys
    && 0 !in st.free && 0 !in st.data
    && st.free !! st.data
    && (forall id :: id in st.spaces ==>
          SpaceIsTree(st, id) && SpaceTables(st, id) !! st.free && SpaceTables(st, id) !! st.data)
    && (forall id, id2 :: id in st.spaces && id2 in st.spaces && id != id2 ==>
          SpaceTables(st, id) !! SpaceTables(st, id2))
  }

  /** No reachable table below a root is empty. */
  ghost predicate Trim(st: State) {
    forall id :: id in st.spaces ==> NoEmptyChild(st.mem, st.spaces[id].root, st.spaces[id].depth)
  }

  // ----- what each operation does -----

  ghost predicate StepNew(st: State, id: nat, depth: nat, st2: State) {
    && id !in st.spaces && depth >= 1
    && id in st2.spaces && st2.spaces == st.spaces[id := Space(st2.spaces[id].root, depth)]
    && var f := st2.spaces[id].root;
    && f in st.free && f in st2.mem && IsEmpty(st2.mem[f])
    && ChangedOnly(st.mem, st2.mem, {f})
    && st2.free == st.free - {f}
    && st2.data == st.data
  }

  ghost predicate StepCopy(st: State, id: nat, from: nat, st2: State) {
    && id !in st.spaces && from in st.spaces
    && id in st2.spaces && st2.spaces == st.spaces[id := Space(st2.spaces[id].root, st.spaces[from].depth)]
    && SpaceIsTree(st2, id)
    && SpaceTables(st2, id) <= st.free
    && ChangedOnly(st.mem, st2.mem, st.free)
    && st2.free == st.free - SpaceTables(st2, id)
    && st2.data == st.data
    && (forall p: nat :: SpaceLeaf(st2, id, p) == SpaceLeaf(st, from, p))
    && (forall p: nat :: SpacePath(st2, id, p) == SpacePath(st, from, p))
    && (NoEmptyChild(st.mem, st.spaces[from].root, st.spaces[from].depth) ==>
          NoEmptyChild(st2.mem, st2.spaces[id].root, st2.spaces[id].depth))
  }

  ghost predicate StepMap(st: State, op: Op, fr: seq<nat>, st2: State)
    requires op.MapPages?
  {
    && op.id in st.spaces && op.s <= op.e && op.fs <= op.fe
    && st2.spaces == st.spaces
    && var sp := st.spaces[op.id];
       var alloc := Allocating(op.space, op.fs, op.fe);
    && Mapped(st.mem, st.free, st2.mem, st2.free, sp.root, sp.depth, op.s, fr, op.flags, alloc)
    && |fr| == Stop(op.s, op.e, sp.depth) - op.s
    && FramesFor(fr, op.space, op.fs, op.fe, op.s)
    && st2.data == st.data + Taken(fr, alloc)
    && (op.s < op.e && op.flags != 0 && NoEmptyChild(st.mem, sp.root, sp.depth) ==>
          NoEmptyChild(st2.mem, sp.root, sp.depth))
  }

  /** The pages an unmapping of `s..e` reaches. */
  ghost function Reached(st: State, id: nat, s: nat, e: nat): set<nat>
    requires id in st.spaces && st.spaces[id].depth >= 1 && s <= e
  {
    var sp := st.spaces[id];
    Visit(st.mem, sp.root, sp.depth, Block(s, sp.depth), s, e).pages
  }

  ghost predicate StepUnmap(st: State, op: Op, st2: State)
    requires op.Unmap?
  {
    && op.id in st.spaces && st.spaces[op.id].depth >= 1 && op.s <= op.e
    && st2.spaces == st.spaces
    && var sp := st.spaces[op.id];
       var pages := Reached(st, op.id, op.s, op.e);
       var freed := Freed(st.mem, sp.root, sp.depth, pages, op.freePhysical);
    && freed <= st.data
    && Unmapped(st.mem, st.free, st2.mem, st2.free, sp.root, sp.depth, Block(op.s, sp.depth), pages, freed)
    && st2.data == st.data - freed
  }

  ghost predicate StepDrop(st: State, id: nat, st2: State) {
    && id in st.spaces
    && st2.spaces == st.spaces - {id}
    && st2.free == st.free + SpaceTables(st, id)
    && ChangedOnly(st.mem, st2.mem, SpaceTables(st, id))
    && st2.data == st.data
  }

  ghost predicate Step(st: State, op: Op, st2: State) {
    match op
    case New(id, depth) => StepNew(st, id, depth, st2)
    case Copy(id, from) => StepCopy(st, id, from, st2)
    case MapPages(_, _, _, _, _, _, _) => exists fr :: StepMap(st, op, fr, st2)
    case Unmap(_, _, _, _) => StepUnmap(st, op, st2)
    case Drop(id) => StepDrop(st, id, st2)
  }

  // ----- what every step keeps -----

  /** Frames a step may write, all of them free, freed, or tables of the space it works on. */
  ghost function Footprint(st: State, id: nat): set<nat> {
    st.free + st.data + if id in st.spaces then SpaceTables(st, id) else {}
  }

  lemma StepWrites(st: State, op: Op, st2: State)
    requires Inv(st) && Step(st, op, st2)
    ensures ChangedOnly(st.mem, st2.mem, Footprint(st, op.id))
    ensures forall id :: id in st.spaces && id != op.id ==> id in st2.spaces && st2.spaces[id] == st.spaces[id]
  {
  }

  /** An operation on one space leaves every other space exactly as it was. */
  lemma StepIsolated(st: State, op: Op, st2: State, id: nat)
    requires Inv(st) && Step(st, op, st2)
    requires id in st.spaces && id != op.id
    ensures id in st2.spaces && st2.spaces[id] == st.spaces[id]
    ensures SpaceIsTree(st2, id)
    ensures SpaceTables(st2, id) == SpaceTables(st, id)
    ensures forall p: nat :: SpaceLeaf(st2, id, p) == SpaceLeaf(st, id, p)
    ensures forall p: nat :: SpacePath(st2, id, p) == SpacePath(st, id, p)
    ensures NoEmptyChild(st.mem, st.spaces[id].root, st.spaces[id].depth) ==>
              NoEmptyChild(st2.mem, st.spaces[id].root, st.spaces[id].depth)
  {
    var sp := st.spaces[id];
    StepWrites(st, op, st2);
    TablesInMemory(st.mem, sp.root, sp.depth);
    assert Agree(st.mem, st2.mem, SpaceTables(st, id));
    TreeFrame(st.mem, st2.mem, sp.root, sp.depth);
    forall p: nat
      ensures Leaf(st2.mem, sp.root, sp.depth, p) == Leaf(st.mem, sp.root, sp.depth, p)
      ensures PathFlags(st2.mem, sp.root, sp.depth, p) == PathFlags(st.mem, sp.root, sp.depth, p)
    {
      LeafFrame(st.mem, st2.mem, sp.root, sp.depth, p);
      PathFrame(st.mem, st2.mem, sp.root, sp.depth, p);
    }
    if NoEmptyChild(st.mem, sp.root, sp.depth) {
      NoEmptyFrame(st.mem, st2.mem, sp.root, sp.depth);
    }
  }

  ghost function Own(st: State, id: nat): set<nat> {
    if id in st.spaces then SpaceTables(st, id) else {}
  }

  /** A step exchanges frames between the allocator, the user pages and the tables of one space only. */
  ghost predicate Exchange(st: State, id: nat, st2: State) {
    && (id in st2.spaces ==> SpaceIsTree(st2, id))
    && Own(st2, id) !! st2.free && Own(st2, id) !! st2.data && st2.free !! st2.data
    && Own(st2, id) <= Own(st, id) + st.free
    && st2.data <= st.data + st.free
    && st2.free + st2.data + Own(st2, id) == st.free + st.data + Own(st, id)
  }

  lemma MapExchanges(st: State, op: Op, fr: seq<nat>, st2: State)
    requires Inv(st) && op.MapPages? && StepMap(st, op, fr, st2)
    ensures Exchange(st, op.id, st2)
  {
  }

  lemma UnmapExchanges(st: State, op: Op, st2: State)
    requires Inv(st) && op.Unmap? && StepUnmap(st, op, st2)
    ensures Exchange(st, op.id, st2)
  {
  }

  lemma CopyExchanges(st: State, id: nat, from: nat, st2: State)
    requires Inv(st) && StepCopy(st, id, from, st2)
    ensures Exchange(st, id, st2)
  {
  }

  lemma StepExchanges(st: State, op: Op, st2: State)
    requires Inv(st) && Step(st, op, st2)
    ensures Exchange(st, op.id, st2)
  {
    match op
    case New(id, depth) => EmptyTable(st2.mem, st2.spaces[id].root, depth);
    case Copy(id, from) => CopyExchanges(st, id, from, st2);
    case MapPages(_, _, _, _, _, _, _) =>
      var fr :| StepMap(st, op, fr, st2);
      MapExchanges(st, op, fr, st2);
    case Unmap(_, _, _, _) => UnmapExchanges(st, op, st2);
    case Drop(_) =>
  }

  /** Every space but `id` has the same tables in both states. */
  ghost predicate OthersKept(st: State, id: nat, st2: State) {
    && (forall k :: k in st.spaces && k != id ==>
          k in st2.spaces && SpaceIsTree(st2, k) && SpaceTables(st2, k) == SpaceTables(st, k))
    && (forall k :: k in st2.spaces && k != id ==> k in st.spaces)
  }

  lemma ExchangeTotal(st: State, id: nat, st2: State)
    requires Exchange(st, id, st2) && OthersKept(st, id, st2)
    ensures Total(st2) == Total(st)
  {
    LiveSplit(st, id);
    LiveSplit(st2, id);
    OthersLive(st, id, st2);
  }

  /** The frames of the tables of all spaces but one. */
  ghost function LiveBut(st: State, id: nat): set<nat> {
    set k, f | k in st.spaces && k != id && f in SpaceTables(st, k) :: f
  }

  lemma LiveSplit(st: State, id: nat)
    ensures Live(st) == Own(st, id) + LiveBut(st, id)
  {
  }

  lemma OthersLive(st: State, id: nat, st2: State)
    requires OthersKept(st, id, st2)
    ensures LiveBut(st2, id) == LiveBut(st, id)
  {
  }

  lemma ExchangeInv(st: State, id: nat, st2: State)
    requires Inv(st) && st2.mem.Keys == st.mem.Keys
    requires Exchange(st, id, st2) && OthersKept(st, id, st2)
    ensures Inv(st2)
  {
    if id in st.spaces {
      TablesInMemory(st.mem, st.spaces[id].root, st.spaces[id].depth);
    }
    forall k | k in st2.spaces && k != id
      ensures SpaceTables(st2, k) !! st2.free && SpaceTables(st2, k) !! st2.data && SpaceTables(st2, k) !! Own(st2, id)
    {
      assert SpaceTables(st, k) !! Own(st, id);
    }
  }

  /** Every operation keeps the tables an unshared forest and loses or invents no frame. */
  lemma StepInv(st: State, op: Op, st2: State)
    requires Inv(st) && Step(st, op, st2)
    ensures Inv(st2)
    ensures Total(st2) == Total(st)
  {
    StepExchanges(st, op, st2);
    StepWrites(st, op, st2);
    forall id | id in st.spaces && id != op.id
      ensures id in st2.spaces && SpaceIsTree(st2, id) && SpaceTables(st2, id) == SpaceTables(st, id)
    {
      StepIsolated(st, op, st2, id);
    }
    ExchangeTotal(st, op.id, st2);
    ExchangeInv(st, op.id, st2);
  }

  /** Mapping at least one page with some flag set, and every other operation, leaves no empty table behind. */
  lemma StepTrim(st: State, op: Op, st2: State)
    requires Inv(st) && Step(st, op, st2) && Trim(st)
    requires op.MapPages? ==> op.s < op.e && op.flags != 0
    ensures Trim(st2)
  {
    StepWrites(st, op, st2);
    forall id | id in st2.spaces
      ensures NoEmptyChild(st2.mem, st2.spaces[id].root, st2.spaces[id].depth)
    {
      if id != op.id {
        assert id in st.spaces;
        StepIsolated(st, op, st2, id);
      } else {
        assert op.New? ==> NoEmptyChild(st2.mem, st2.spaces[id].root, st2.spaces[id].depth);
      }
    }
  }

  // ----- whole runs -----

  /** `states` are the states of a run and `ops` the operations between them. */
  ghost predicate Run(states: seq<State>, ops: seq<Op>) {
    && |states| == |ops| + 1
    && forall i :: 0 <= i < |ops| ==> Step(states[i], ops[i], states[i + 1])
  }

  /**
    Over every run the live tables stay an unshared forest apart from the free frames and the
    user frames, and the frames of the allocator are conserved.
   */
  lemma {:induction false} RunConserves(states: seq<State>, ops: seq<Op>)
    requires Run(states, ops) && Inv(states[0])
    ensures Inv(states[|ops|])
    ensures Total(states[|ops|]) == Total(states[0])
  {
    if ops != [] {
      var k := |ops| - 1;
      RunPrefix(states, ops);
      RunConserves(states[..k + 1], ops[..k]);
      StepInv(states[k], ops[k], states[k + 1]);
    }
  }

  lemma RunPrefix(states: seq<State>, ops: seq<Op>)
    requires Run(states, ops) && |ops| > 0
    ensures Run(states[..|ops|], ops[..|ops| - 1])
  {
  }

  /** Once every space has been dropped, no table frame is left: all of them are free again. */
  lemma RunReturnsTables(states: seq<State>, ops: seq<Op>)
    requires Run(states, ops) && Inv(states[0])
    requires states[0].spaces == map[] && states[0].data == {}
    requires states[|ops|].spaces == map[]
    ensures states[|ops|].free + states[|ops|].data == states[0].free
    ensures states[|ops|].free !! states[|ops|].data
  {
    RunConserves(states, ops);
    assert Live(states[|ops|]) == {} && Live(states[0]) == {};
  }

  /** A space that no operation of a run names translates at the end as it did at the start. */
  lemma {:induction false} RunIsolated(states: seq<State>, ops: seq<Op>, id: nat, p: nat)
    requires Run(states, ops) && Inv(states[0])
    requires id in states[0].spaces
    requires forall i :: 0 <= i < |ops| ==> ops[i].id != id
    ensures id in states[|ops|].spaces
    ensures SpaceLeaf(states[|ops|], id, p) == SpaceLeaf(states[0], id, p)
  {
    if ops != [] {
      var k := |ops| - 1;
      RunPrefix(states, ops);
      RunIsolated(states[..k + 1], ops[..k], id, p);
      RunConserves(states[..k + 1], ops[..k]);
      StepIsolated(states[k], ops[k], states[k + 1], id);
    }
  }

  /** A copy, and later any operations on other spaces: the copy translates as the original did when copied. */
  lemma CopyThenRun(st: State, id: nat, from: nat, states: seq<State>, ops: seq<Op>, p: nat)
    requires Inv(st) && |states| > 0 && Step(st, Copy(id, from), states[0])
    requires Run(states, ops)
    requires forall i :: 0 <= i < |ops| ==> ops[i].id != id
    ensures id in states[|ops|].spaces && from in st.spaces
    ensures SpaceLeaf(states[|ops|], id, p) == SpaceLeaf(st, from, p)
  {
    StepInv(st, Copy(id, from), states[0]);
    RunIsolated(states, ops, id, p);
  }

  lemma {:induction false} RunTrim(states: seq<State>, ops: seq<Op>)
    requires Run(states, ops) && Inv(states[0]) && Trim(states[0])
    requires forall i :: 0 <= i < |ops| && ops[i].MapPages? ==> ops[i].s < ops[i].e && ops[i].flags != 0
    ensures Trim(states[|ops|])
  {
    if ops != [] {
      var k := |ops| - 1;
      RunPrefix(states, ops);
      RunTrim(states[..k + 1], ops[..k]);
      RunConserves(states[..k + 1], ops[..k]);
      StepTrim(states[k], ops[k], states[k + 1]);
    }
  }

  // ----- translation of addresses -----

  /**
    What mapping does to the translation of every address, page offset included: an address is reached
    through its low digits.
   */
  lemma MapTranslates(m0: Memory, free0: set<nat>, m: Memory, free: set<nat>, t: nat, level: nat,
                      s: nat, fr: seq<nat>, flags: nat, alloc: bool, p: nat, offset: nat)
    requires IsTree(m0, t, level) && Mapped(m0, free0, m, free, t, level, s, fr, flags, alloc)
    requires offset < 4096
    ensures var q := Alias(p, Block(s, level), level);
            TranslateInTable(m, t, p * 4096 + offset, level) ==
              if s <= q < s + |fr|
              then if fr[q - s] == 0 && flags == 0 then None else Some(fr[q - s] * 4096 + offset)
              else TranslateInTable(m0, t, p * 4096 + offset, level)
  {
    var q := Alias(p, Block(s, level), level);
    TranslateIsLeaf(m, t, level, p, offset);
    TranslateIsLeaf(m0, t, level, p, offset);
    AliasLeaf(m, t, level, p, Block(s, level));
    AliasLeaf(m0, t, level, p, Block(s, level));
  }

  lemma AliasLeaf(m: Memory, t: nat, level: nat, p: nat, b: nat)
    requires level >= 1
    ensures Block(Alias(p, b, level), level) == b
    ensures Leaf(m, t, level, Alias(p, b, level)) == Leaf(m, t, level, p)
  {
    AliasDigits(p, b, level);
    LeafPeriodic(m, t, level, p, Alias(p, b, level));
  }

  /** In particular for the addresses of the block the range lies in. */
  lemma MapTranslatesHere(m0: Memory, free0: set<nat>, m: Memory, free: set<nat>, t: nat, level: nat,
                          s: nat, fr: seq<nat>, flags: nat, alloc: bool, p: nat, offset: nat)
    requires IsTree(m0, t, level) && Mapped(m0, free0, m, free, t, level, s, fr, flags, alloc)
    requires offset < 4096 && Block(p, level) == Block(s, level)
    ensures TranslateInTable(m, t, p * 4096 + offset, level) ==
              if s <= p < s + |fr|
              then if fr[p - s] == 0 && flags == 0 then None else Some(fr[p - s] * 4096 + offset)
              else TranslateInTable(m0, t, p * 4096 + offset, level)
  {
    AliasSelf(p, level);
    MapTranslates(m0, free0, m, free, t, level, s, fr, flags, alloc, p, offset);
  }

  /** Unmapping a range all of whose pages have their tables clears the range and nothing else. */
  lemma UnmapTranslates(m0: Memory, free0: set<nat>, m: Memory, free: set<nat>, t: nat, level: nat,
                        s: nat, e: nat, freed: set<nat>, p: nat, offset: nat)
    requires IsTree(m0, t, level) && s <= e
    requires forall q: nat :: s <= q < Stop(s, e, level) ==> HasPath(m0, t, level, q)
    requires Unmapped(m0, free0, m, free, t, level, Block(s, level),
                      Visit(m0, t, level, Block(s, level), s, e).pages, freed)
    requires offset < 4096
    ensures var q := Alias(p, Block(s, level), level);
            TranslateInTable(m, t, p * 4096 + offset, level) ==
              if s <= q < Stop(s, e, level) then None else TranslateInTable(m0, t, p * 4096 + offset, level)
    ensures Block(p, level) == Block(s, level) ==> Alias(p, Block(s, level), level) == p
  {
    TranslateIsLeaf(m, t, level, p, offset);
    TranslateIsLeaf(m0, t, level, p, offset);
    UnmappedLeaf(m0, m, t, level, s, e, p);
    if Block(p, level) == Block(s, level) {
      AliasSelf(p, level);
    }
  }

  lemma UnmappedLeaf(m0: Memory, m: Memory, t: nat, level: nat, s: nat, e: nat, p: nat)
    requires level >= 1 && s <= e
    requires forall q: nat :: s <= q < Stop(s, e, level) ==> HasPath(m0, t, level, q)
    requires ClearsLeaves(m0, m, t, level, Block(s, level), Visit(m0, t, level, Block(s, level), s, e).pages)
    ensures Leaf(m, t, level, p) ==
              if s <= Alias(p, Block(s, level), level) < Stop(s, e, level) then UNUSED else Leaf(m0, t, level, p)
  {
    VisitDense(m0, t, level, s, e);
    AliasLeaf(m, t, level, p, Block(s, level));
    AliasLeaf(m0, t, level, p, Block(s, level));
  }

  /** A page that translates has its tables. */
  lemma MappedHasPath(m: Memory, t: nat, level: nat, p: nat)
    requires level >= 1 && Used(Leaf(m, t, level, p))
    ensures HasPath(m, t, level, p)
    decreases level
  {
    if level > 1 {
      MappedHasPath(m, m[t][Index(p, level)].addr, level - 1, p);
    }
  }

  /** After a range is mapped, unmapping it reaches exactly the range. */
  lemma MappedVisit(m0: Memory, m: Memory, t: nat, level: nat, s: nat, e: nat, fr: seq<nat>, flags: nat)
    requires level >= 1 && s <= e && flags != 0
    requires MapsLeaves(m0, m, t, level, s, fr, flags) && |fr| == Stop(s, e, level) - s
    ensures Visit(m, t, level, Block(s, level), s, e) == Walk(Range(s, s + |fr|), |fr|)
    ensures forall k :: 0 <= k < |fr| ==> Leaf(m, t, level, s + k) == Entry(fr[k], flags)
  {
    InBlock(s, Block(s, level), level);
    forall q: nat | s <= q < s + |fr|
      ensures Leaf(m, t, level, q) == Entry(fr[q - s], flags) && HasPath(m, t, level, q)
    {
      InBlock(q, Block(s, level), level);
      MappedHasPath(m, t, level, q);
    }
    VisitDense(m, t, level, s, e);
  }

  lemma MappedData(m: Memory, t: nat, level: nat, s: nat, fr: seq<nat>, flags: nat)
    requires flags != 0
    requires forall k :: 0 <= k < |fr| ==> Leaf(m, t, level, s + k) == Entry(fr[k], flags)
    ensures DataOf(m, t, level, Range(s, s + |fr|)) == Elems(fr)
  {
    forall f | f in fr
      ensures f in DataOf(m, t, level, Range(s, s + |fr|))
    {
      var k :| 0 <= k < |fr| && fr[k] == f;
      assert s + k in Range(s, s + |fr|) && Leaf(m, t, level, s + k) == Entry(f, flags);
    }
    forall f | f in DataOf(m, t, level, Range(s, s + |fr|))
      ensures f in fr
    {
      var p :| p in Range(s, s + |fr|) && Used(Leaf(m, t, level, p)) && Leaf(m, t, level, p).addr == f;
      assert Leaf(m, t, level, s + (p - s)) == Entry(fr[p - s], flags);
    }
  }

  /**
    Mapping a range and unmapping it again restores every leaf outside the range, clears the
    range, and with `freePhysical` gives back exactly the frames that were mapped.
   */
  lemma MapThenUnmap(m0: Memory, free0: set<nat>, m: Memory, free: set<nat>, m2: Memory, free2: set<nat>,
                     t: nat, level: nat, s: nat, e: nat, fr: seq<nat>, flags: nat, alloc: bool, freePhysical: bool,
                     p: nat)
    requires IsTree(m0, t, level) && s <= e && flags != 0
    requires Mapped(m0, free0, m, free, t, level, s, fr, flags, alloc) && |fr| == Stop(s, e, level) - s
    requires var pages := Visit(m, t, level, Block(s, level), s, e).pages;
             Unmapped(m, free, m2, free2, t, level, Block(s, level), pages, Freed(m, t, level, pages, freePhysical))
    requires Block(p, level) == Block(s, level)
    ensures Leaf(m2, t, level, p) == if s <= p < s + |fr| then UNUSED else Leaf(m0, t, level, p)
    ensures free2 == free + (Tables(m, t, level) - Tables(m2, t, level)) + Taken(fr, freePhysical)
  {
    MappedVisit(m0, m, t, level, s, e, fr, flags);
    MappedData(m, t, level, s, fr, flags);
  }

  /** The live `Paging` objects over one machine. */
  class SpaceTable {
    const machine: Machine
    var spaces: map<nat, Space>
    ghost var data: set<nat>

    ghost function Now(): State
      reads this, machine
    {
      State(machine.mem, machine.free, data, spaces)
    }

    constructor (m: Machine)
      requires m.Ok()
      ensures machine == m && Now() == State(m.mem, m.free, {}, map[])
      ensures Inv(Now()) && Trim(Now())
    {
      machine := m;
      spaces, data := map[], {};
    }

    /** `Paging::new`; the result is false for the out-of-memory panic. */
    method Create(id: nat, depth: nat) returns (ok: bool)
      requires Inv(Now()) && id !in spaces && depth >= 1
      modifies this, machine
      ensures !ok ==> machine.free == {}
      ensures ok ==> Inv(Now()) && Total(Now()) == old(Total(Now())) && Step(old(Now()), New(id, depth), Now())
    {
      var r := machine.AllocFrame();
      if r.None? {
        return false;
      }
      var zero: Table := seq(512, _ => UNUSED);
      machine.mem := machine.mem[r.value := zero];
      spaces := spaces[id := Space(r.value, depth)];
      StepInv(old(Now()), New(id, depth), Now());
      return true;
    }

    /** `Paging::from_other`. */
    method FromOther(id: nat, from: nat) returns (ok: bool)
      requires Inv(Now()) && id !in spaces && from in spaces
      modifies this, machine
      ensures !ok ==> machine.free == {}
      ensures ok ==> Inv(Now()) && Total(Now()) == old(Total(Now())) && Step(old(Now()), Copy(id, from), Now())
    {
      var other := spaces[from];
      ok := Create(id, other.depth);
      if ok {
        ok := CopyInto(id, from, other, old(Now()));
      }
    }

    /** Fills the new space `id` with a copy of the space `from`; `st` is the state before `id` was created. */
    method CopyInto(id: nat, from: nat, other: Space, ghost st: State) returns (ok: bool)
      requires Inv(st) && from in st.spaces && st.spaces[from] == other && from != id
      requires Inv(Now()) && Step(st, New(id, other.depth), Now())
      modifies machine
      ensures !ok ==> machine.free == {}
      ensures ok ==> Inv(Now()) && Total(Now()) == Total(st) && Step(st, Copy(id, from), Now())
    {
      var root := spaces[id].root;
      CopyReady(st, Now(), id, from, other, root);
      ok := machine.CopyTable(other.root, root, other.depth);
      if ok {
        CreateThenCopy(st, old(Now()), Now(), id, from);
      }
    }

    /** The mapping behind `Paging::map`, which passes an empty frame range, and `Paging::map_physical`. */
    method MapRange(id: nat, fs: nat, fe: nat, s: nat, e: nat, space: MemorySpace, flags: nat)
      returns (ok: bool, ghost fr: seq<nat>)
      requires Inv(Now()) && id in spaces
      requires s <= e && fs <= fe && (fs < fe ==> fe - fs == e - s)
      modifies this`data, machine
      ensures !ok ==> machine.free == {}
      ensures ok ==> Inv(Now()) && Total(Now()) == old(Total(Now()))
      ensures ok ==> StepMap(old(Now()), MapPages(id, fs, fe, s, e, space, flags), fr, Now())
    {
      var sp := spaces[id];
      var n;
      ok, n, fr := machine.MapInTable(sp.root, fs, fe, s, e, space, flags, sp.depth);
      if ok {
        data := data + Taken(fr, Allocating(space, fs, fe));
        assert StepMap(old(Now()), MapPages(id, fs, fe, s, e, space, flags), fr, Now());
        StepInv(old(Now()), MapPages(id, fs, fe, s, e, space, flags), Now());
      }
    }

    /** `Paging::map_physical`; false also when the numbers of frames and pages differ. */
    method MapPhysical(id: nat, fs: nat, fe: nat, s: nat, e: nat, space: MemorySpace, flags: nat)
      returns (ok: bool, ghost fr: seq<nat>)
      requires Inv(Now()) && id in spaces && s <= e && fs <= fe
      modifies this`data, machine
      ensures !ok ==> fe - fs != e - s || machine.free == {}
      ensures ok ==> fe - fs == e - s && Inv(Now()) && Total(Now()) == old(Total(Now()))
      ensures ok ==> StepMap(old(Now()), MapPages(id, fs, fe, s, e, space, flags), fr, Now())
    {
      if fe - fs != e - s {
        return false, [];
      }
      ok, fr := MapRange(id, fs, fe, s, e, space, flags);
    }

    /** `Paging::unmap`.  Frames to be freed must be user frames, each mapped once among the pages reached. */
    method UnmapRange(id: nat, s: nat, e: nat, freePhysical: bool) returns (n: nat)
      requires Inv(Now()) && id in spaces && s <= e
      requires freePhysical ==>
                 var sp := spaces[id];
                 && Freeable(machine.mem, machine.free, sp.root, sp.depth, Reached(Now(), id, s, e))
                 && DataOf(machine.mem, sp.root, sp.depth, Reached(Now(), id, s, e)) <= data
      modifies this`data, machine
      ensures Inv(Now()) && Total(Now()) == old(Total(Now()))
      ensures Step(old(Now()), Unmap(id, s, e, freePhysical), Now())
    {
      var sp := spaces[id];
      ghost var w := Visit(machine.mem, sp.root, sp.depth, Block(s, sp.depth), s, e);
      ghost var freed := Freed(machine.mem, sp.root, sp.depth, w.pages, freePhysical);
      n := machine.UnmapInTable(sp.root, s, e, sp.depth, freePhysical, Block(s, sp.depth), w, freed);
      data := data - freed;
      StepInv(old(Now()), Unmap(id, s, e, freePhysical), Now());
    }

    /** `Drop for Paging`. */
    method DropSpace(id: nat)
      requires Inv(Now()) && id in spaces
      modifies this, machine
      ensures Inv(Now()) && Total(Now()) == old(Total(Now()))
      ensures Step(old(Now()), Drop(id), Now())
    {
      machine.DropTable(spaces[id].root, spaces[id].depth);
      spaces := spaces - {id};
      StepInv(old(Now()), Drop(id), Now());
    }
  }

  lemma CopyReady(st: State, st1: State, id: nat, from: nat, other: Space, root: nat)
    requires from in st.spaces && st.spaces[from] == other && from != id
    requires Step(st, New(id, other.depth), st1) && Inv(st1) && root == st1.spaces[id].root
    ensures st1.spaces[from] == other
    ensures IsTree(st1.mem, other.root, other.depth) && Tables(st1.mem, other.root, other.depth) !! st1.free
    ensures root in st1.mem && root != 0 && root !in st1.free && root !in Tables(st1.mem, other.root, other.depth)
  {
    assert SpaceIsTree(st1, from) && SpaceIsTree(st1, id);
    assert SpaceTables(st1, from) !! SpaceTables(st1, id);
  }

  lemma CreateThenCopy(st: State, st1: State, st2: State, id: nat, from: nat)
    requires Inv(st) && from in st.spaces && from != id
    requires Step(st, New(id, st.spaces[from].depth), st1)
    requires st2.spaces == st1.spaces && st2.data == st1.data && st.spaces[from].root in st1.mem
    requires Copied(st1.mem, st1.free, st2.mem, st2.free, st.spaces[from].root, st1.spaces[id].root,
                    st.spaces[from].depth)
    ensures Inv(st2) && Total(st2) == Total(st)
    ensures Step(st, Copy(id, from), st2)
  {
    CopyIsStep(st, st1, st2, id, from);
    StepInv(st, Copy(id, from), st2);
  }

  lemma CopyIsStep(st: State, st1: State, st2: State, id: nat, from: nat)
    requires Inv(st) && from in st.spaces && from != id
    requires Step(st, New(id, st.spaces[from].depth), st1)
    requires st2.spaces == st1.spaces && st2.data == st1.data && st.spaces[from].root in st1.mem
    requires Copied(st1.mem, st1.free, st2.mem, st2.free, st.spaces[from].root, st1.spaces[id].root,
                    st.spaces[from].depth)
    ensures StepCopy(st, id, from, st2)
  {
    StepIsolated(st, New(id, st.spaces[from].depth), st1, from);
  }
}
