/** Pages mapped to frames of their own, over runs of all address spaces: which frames they hold, and for how long. */
module FreshPages {
  import opened Arith
  import opened PageTable
  import opened PageMap
  import opened PageUnmap
  import opened Paging
  import opened AddressSpaces

  /** A page of a space, known by its number in block 0, which it shares with the pages of equal low digits. */
  datatype Place = Place(id: nat, page: nat)

  ghost function LeafAt(st: State, x: Place): Entry
    requires x.id in st.spaces
  {
    SpaceLeaf(st, x.id, x.page)
  }

  /** The operation sets or clears the leaf of `x`, or drops its space. */
  ghost predicate Touches(st: State, op: Op, x: Place) {
    x.id == op.id && x.id in st.spaces &&
    var d := st.spaces[x.id].depth;
    match op
    case New(_, _) => false
    case Copy(_, _) => false
    case MapPages(_, _, _, s, e, _, _) => s <= e && s <= Alias(x.page, Block(s, d), d) < Stop(s, e, d)
    case Unmap(_, s, e, _) => s <= e && d >= 1 && Alias(x.page, Block(s, d), d) in Reached(st, x.id, s, e)
    case Drop(_) => true
  }

  /** The pages for which the operation takes a frame from the allocator. */
  ghost function Allotted(st: State, op: Op): set<Place> {
    if op.MapPages? && Allocating(op.space, op.fs, op.fe) && op.id in st.spaces && op.s <= op.e then
      var d := st.spaces[op.id].depth;
      set q: nat | op.s <= q < Stop(op.s, op.e, d) :: Place(op.id, Alias(q, 0, d))
    else {}
  }

  /** Of the pages that had a frame of their own those left alone by the operation, and those that get one now. */
  ghost function FreshNext(st: State, op: Op, own: set<Place>): set<Place> {
    (set x | x in own && !Touches(st, op, x)) + Allotted(st, op)
  }

  /** Every fresh page names a frame handed out and not given back, and no two name the same one. */
  ghost predicate FreshOk(st: State, own: set<Place>) {
    && (forall x :: x in own ==> x.id in st.spaces && LeafAt(st, x).addr in st.data)
    && (forall x, y :: x in own && y in own && x != y ==> LeafAt(st, x).addr != LeafAt(st, y).addr)
  }

  /** The frames behind user pages that the operation returns to the allocator. */
  ghost function GivenBack(st: State, op: Op): set<nat> {
    if op.Unmap? && op.freePhysical && op.id in st.spaces && st.spaces[op.id].depth >= 1 && op.s <= op.e then
      DataOf(st.mem, st.spaces[op.id].root, st.spaces[op.id].depth, Reached(st, op.id, op.s, op.e))
    else {}
  }

  /** No frame is given back that a fresh page left alone still names. */
  ghost predicate Respects(st: State, op: Op, own: set<Place>) {
    forall x :: x in own && x.id in st.spaces && !Touches(st, op, x) ==> LeafAt(st, x).addr !in GivenBack(st, op)
  }

  // ----- one step -----

  lemma LeftAlone(st: State, op: Op, st2: State, x: Place)
    requires Inv(st) && Step(st, op, st2) && x.id in st.spaces && !Touches(st, op, x)
    ensures x.id in st2.spaces && LeafAt(st2, x) == LeafAt(st, x)
  {
    if x.id != op.id {
      StepIsolated(st, op, st2, x.id);
    } else if op.MapPages? {
      MapLeavesAlone(st, op, st2, x);
    } else if op.Unmap? {
      UnmapLeavesAlone(st, op, st2, x);
    }
  }

  lemma MapLeavesAlone(st: State, op: Op, st2: State, x: Place)
    requires Inv(st) && op.MapPages? && Step(st, op, st2) && x.id == op.id && x.id in st.spaces && !Touches(st, op, x)
    ensures x.id in st2.spaces && LeafAt(st2, x) == LeafAt(st, x)
  {
    var sp := st.spaces[x.id];
    var fr :| StepMap(st, op, fr, st2);
    assert SpaceIsTree(st, x.id);
    AliasLeaf(st.mem, sp.root, sp.depth, x.page, Block(op.s, sp.depth));
    AliasLeaf(st2.mem, sp.root, sp.depth, x.page, Block(op.s, sp.depth));
  }

  lemma UnmapLeavesAlone(st: State, op: Op, st2: State, x: Place)
    requires Inv(st) && op.Unmap? && Step(st, op, st2) && x.id == op.id && x.id in st.spaces && !Touches(st, op, x)
    ensures x.id in st2.spaces && LeafAt(st2, x) == LeafAt(st, x)
  {
    var sp := st.spaces[x.id];
    AliasLeaf(st.mem, sp.root, sp.depth, x.page, Block(op.s, sp.depth));
    AliasLeaf(st2.mem, sp.root, sp.depth, x.page, Block(op.s, sp.depth));
  }

  /** A page that gets a frame gets the one for its place in the range. */
  lemma AllottedLeaf(st: State, op: Op, fr: seq<nat>, st2: State, q: nat)
    requires Inv(st) && op.MapPages? && StepMap(st, op, fr, st2)
    requires op.s <= q < op.s + |fr|
    ensures LeafAt(st2, Place(op.id, Alias(q, 0, st.spaces[op.id].depth))) == Entry(fr[q - op.s], op.flags)
  {
    var sp := st.spaces[op.id];
    assert SpaceIsTree(st, op.id);
    InBlock(op.s, Block(op.s, sp.depth), sp.depth);
    InBlock(q, Block(op.s, sp.depth), sp.depth);
    AliasLeaf(st2.mem, sp.root, sp.depth, q, 0);
  }

  /** The new frames were free, and no two pages get the same one. */
  lemma AllottedOk(st: State, op: Op, st2: State)
    requires Inv(st) && Step(st, op, st2)
    ensures forall x :: x in Allotted(st, op) ==>
              x.id in st2.spaces && LeafAt(st2, x).addr in st.free && LeafAt(st2, x).addr in st2.data
    ensures forall x, y :: x in Allotted(st, op) && y in Allotted(st, op) && x != y ==>
              LeafAt(st2, x).addr != LeafAt(st2, y).addr
  {
    if Allotted(st, op) != {} {
      var fr :| StepMap(st, op, fr, st2);
      AllottedFrames(st, op, fr, st2);
    }
  }

  lemma AllottedFrames(st: State, op: Op, fr: seq<nat>, st2: State)
    requires Inv(st) && op.MapPages? && StepMap(st, op, fr, st2) && Allocating(op.space, op.fs, op.fe)
    ensures forall x :: x in Allotted(st, op) ==>
              x.id in st2.spaces && LeafAt(st2, x).addr in st.free && LeafAt(st2, x).addr in st2.data
    ensures forall x, y :: x in Allotted(st, op) && y in Allotted(st, op) && x != y ==>
              LeafAt(st2, x).addr != LeafAt(st2, y).addr
  {
    var d := st.spaces[op.id].depth;
    forall q: nat | op.s <= q < op.s + |fr|
      ensures LeafAt(st2, Place(op.id, Alias(q, 0, d))).addr == fr[q - op.s] && fr[q - op.s] in Elems(fr)
    {
      AllottedLeaf(st, op, fr, st2, q);
    }
    forall x, y | x in Allotted(st, op) && y in Allotted(st, op) && x != y
      ensures LeafAt(st2, x).addr != LeafAt(st2, y).addr
    {
      var q: nat :| op.s <= q < op.s + |fr| && x == Place(op.id, Alias(q, 0, d));
      var r: nat :| op.s <= r < op.s + |fr| && y == Place(op.id, Alias(r, 0, d));
      assert fr[q - op.s] != fr[r - op.s];
    }
  }

  /** Frames stay handed out, except those given back. */
  lemma DataKept(st: State, op: Op, st2: State, f: nat)
    requires Inv(st) && Step(st, op, st2) && f in st.data
    ensures f in st2.data <==> f !in GivenBack(st, op)
  {
  }

  /** The pages `rest` keep their leaves, but the frames `back` are no longer handed out; `more` are new. */
  lemma KeptAndNew(st: State, st2: State, rest: set<Place>, more: set<Place>, back: set<nat>)
    requires FreshOk(st, rest) && FreshOk(st2, more) && st.free !! st.data
    requires forall x :: x in rest ==>
               && x.id in st2.spaces && LeafAt(st2, x) == LeafAt(st, x)
               && (LeafAt(st, x).addr in st2.data <==> LeafAt(st, x).addr !in back)
    requires forall x :: x in more ==> LeafAt(st2, x).addr in st.free
    ensures FreshOk(st2, rest + more) <==> forall x :: x in rest ==> LeafAt(st, x).addr !in back
  {
  }

  /** Every operation keeps what is said of the fresh pages exactly when it respects them. */
  lemma StepFresh(st: State, op: Op, st2: State, own: set<Place>)
    requires Inv(st) && Step(st, op, st2) && FreshOk(st, own)
    ensures FreshOk(st2, FreshNext(st, op, own)) <==> Respects(st, op, own)
  {
    var rest := set x | x in own && !Touches(st, op, x);
    forall x | x in rest
      ensures x.id in st2.spaces && LeafAt(st2, x) == LeafAt(st, x)
      ensures LeafAt(st, x).addr in st2.data <==> LeafAt(st, x).addr !in GivenBack(st, op)
    {
      LeftAlone(st, op, st2, x);
      DataKept(st, op, st2, LeafAt(st, x).addr);
    }
    AllottedOk(st, op, st2);
    KeptAndNew(st, st2, rest, Allotted(st, op), GivenBack(st, op));
  }

  /** Only an unmapping that frees frames can fail to respect the fresh pages, and not one of fresh pages only. */
  lemma FreshOnly(st: State, op: Op, own: set<Place>)
    requires Inv(st) && FreshOk(st, own)
    requires forall p :: p in GivingPages(st, op) ==>
               exists x :: x in own && Touches(st, op, x) && LeafAt(st, x) == SpaceLeaf(st, op.id, p)
    ensures Respects(st, op, own)
  {
    forall x, f | x in own && !Touches(st, op, x) && f in GivenBack(st, op)
      ensures LeafAt(st, x).addr != f
    {
      var p :| p in GivingPages(st, op) && SpaceLeaf(st, op.id, p).addr == f;
      var y :| y in own && Touches(st, op, y) && LeafAt(st, y) == SpaceLeaf(st, op.id, p);
    }
  }

  /** The mapped pages whose frames the operation gives back. */
  ghost function GivingPages(st: State, op: Op): (pages: set<nat>)
    ensures pages != {} ==> op.id in st.spaces
    ensures forall f :: f in GivenBack(st, op) <==> exists p :: p in pages && SpaceLeaf(st, op.id, p).addr == f
  {
    if op.Unmap? && op.freePhysical && op.id in st.spaces && st.spaces[op.id].depth >= 1 && op.s <= op.e then
      set p | p in Reached(st, op.id, op.s, op.e) && Used(SpaceLeaf(st, op.id, p))
    else {}
  }

  /** A page of a copy unmapped together with its frame: the original page is left with a frame that is free. */
  lemma CopyThenFree(st: State, own: set<Place>, x: Place, b: nat, st1: State, op: Op, st2: State)
    requires Inv(st) && FreshOk(st, own) && x in own
    requires Step(st, Copy(b, x.id), st1)
    requires op.Unmap? && op.freePhysical && Step(st1, op, st2) && Touches(st1, op, Place(b, x.page))
    ensures x in FreshNext(st1, op, FreshNext(st, Copy(b, x.id), own))
    ensures x.id in st2.spaces && LeafAt(st2, x) == LeafAt(st, x) && LeafAt(st2, x).addr in st2.free
    ensures !Respects(st1, op, FreshNext(st, Copy(b, x.id), own))
  {
    var sp := st1.spaces[b];
    StepInv(st, Copy(b, x.id), st1);
    LeftAlone(st, Copy(b, x.id), st1, x);
    LeftAlone(st1, op, st2, x);
    AliasLeaf(st1.mem, sp.root, sp.depth, x.page, Block(op.s, sp.depth));
    assert LeafAt(st1, Place(b, x.page)) == LeafAt(st, x);
  }

  // ----- whole runs -----

  /** The fresh pages after `n` operations, none at the start. */
  ghost function FreshAfter(states: seq<State>, ops: seq<Op>, n: nat): set<Place>
    requires n <= |ops| < |states|
  {
    if n == 0 then {} else FreshNext(states[n - 1], ops[n - 1], FreshAfter(states, ops, n - 1))
  }

  /** The `i`-th operation took a frame for `x`, and no later one before the `n`-th touched it. */
  ghost predicate AllottedSince(states: seq<State>, ops: seq<Op>, i: nat, n: nat, x: Place)
    requires i < n <= |ops| < |states|
  {
    x in Allotted(states[i], ops[i]) && forall j :: i < j < n ==> !Touches(states[j], ops[j], x)
  }

  lemma {:induction false} FreshSince(states: seq<State>, ops: seq<Op>, n: nat, x: Place) returns (i: nat)
    requires n <= |ops| < |states| && x in FreshAfter(states, ops, n)
    ensures i < n && AllottedSince(states, ops, i, n, x)
  {
    i := n - 1;
    if x !in Allotted(states[n - 1], ops[n - 1]) {
      i := FreshSince(states, ops, n - 1, x);
    }
  }

  lemma {:induction false} SinceFresh(states: seq<State>, ops: seq<Op>, i: nat, n: nat, x: Place)
    requires i < n <= |ops| < |states| && AllottedSince(states, ops, i, n, x)
    ensures x in FreshAfter(states, ops, n)
  {
    if i < n - 1 {
      assert !Touches(states[n - 1], ops[n - 1], x);
      SinceFresh(states, ops, i, n - 1, x);
    }
  }

  /** Fresh are exactly the pages that got a frame of their own and were not touched since. */
  lemma FreshIff(states: seq<State>, ops: seq<Op>, n: nat, x: Place)
    requires n <= |ops| < |states|
    ensures x in FreshAfter(states, ops, n) <==> exists i: nat :: i < n && AllottedSince(states, ops, i, n, x)
  {
    if x in FreshAfter(states, ops, n) {
      var i := FreshSince(states, ops, n, x);
    } else if i: nat :| i < n && AllottedSince(states, ops, i, n, x) {
      SinceFresh(states, ops, i, n, x);
    }
  }

  /** What is said of the fresh pages holds all along a run exactly when every operation respects them. */
  lemma RunFreshIff(states: seq<State>, ops: seq<Op>)
    requires Run(states, ops) && Inv(states[0])
    ensures (forall n :: 0 <= n <= |ops| ==> FreshOk(states[n], FreshAfter(states, ops, n)))
       <==> (forall n :: 0 <= n < |ops| ==> Respects(states[n], ops[n], FreshAfter(states, ops, n)))
  {
    if forall n :: 0 <= n < |ops| ==> Respects(states[n], ops[n], FreshAfter(states, ops, n)) {
      forall n | 0 <= n <= |ops|
        ensures FreshOk(states[n], FreshAfter(states, ops, n))
      {
        RunFresh(states, ops, n);
      }
    }
    if forall n :: 0 <= n <= |ops| ==> FreshOk(states[n], FreshAfter(states, ops, n)) {
      forall n | 0 <= n < |ops|
        ensures Respects(states[n], ops[n], FreshAfter(states, ops, n))
      {
        ReachesInv(states, ops, n);
        assert FreshOk(states[n + 1], FreshAfter(states, ops, n + 1));
        StepFresh(states[n], ops[n], states[n + 1], FreshAfter(states, ops, n));
      }
    }
  }

  lemma {:induction false} ReachesInv(states: seq<State>, ops: seq<Op>, n: nat)
    requires Run(states, ops) && Inv(states[0]) && n <= |ops|
    ensures Inv(states[n])
  {
    if n > 0 {
      ReachesInv(states, ops, n - 1);
      StepInv(states[n - 1], ops[n - 1], states[n]);
    }
  }

  lemma {:induction false} RunFresh(states: seq<State>, ops: seq<Op>, n: nat)
    requires Run(states, ops) && Inv(states[0]) && n <= |ops|
    requires forall i :: 0 <= i < n ==> Respects(states[i], ops[i], FreshAfter(states, ops, i))
    ensures FreshOk(states[n], FreshAfter(states, ops, n))
  {
    if n > 0 {
      RunFresh(states, ops, n - 1);
      ReachesInv(states, ops, n - 1);
      StepFresh(states[n - 1], ops[n - 1], states[n], FreshAfter(states, ops, n - 1));
    }
  }

  /**
    Two pages of one space or of two, each mapped to a frame of its own at some time and not touched since, name
    two frames; neither frame is free and neither holds a table of any space.
   */
  lemma NoSharing(states: seq<State>, ops: seq<Op>, n: nat, x: Place, y: Place)
    requires Run(states, ops) && Inv(states[0]) && n <= |ops|
    requires forall i :: 0 <= i < n ==> Respects(states[i], ops[i], FreshAfter(states, ops, i))
    requires x in FreshAfter(states, ops, n) && y in FreshAfter(states, ops, n) && x != y
    ensures var st := states[n];
            && x.id in st.spaces && y.id in st.spaces
            && Used(LeafAt(st, x)) && Used(LeafAt(st, y))
            && LeafAt(st, x).addr != LeafAt(st, y).addr
            && LeafAt(st, x).addr !in st.free + Live(st) && LeafAt(st, y).addr !in st.free + Live(st)
  {
    RunFresh(states, ops, n);
    ReachesInv(states, ops, n);
  }

  // ----- a run that gives a frame back too early -----

  /** The pages of a single table. */
  lemma LowPage(p: nat)
    ensures p < 512 <==> Block(p, 1) == 0
    ensures p < 512 ==> Index(p, 1) == p && Alias(p, 0, 1) == p
  {
    InBlock(p, 0, 1);
    assert Reach(0) == 1 && Reach(1) == 512;
    BlockSplit(p, 1);
    AliasSelf(p, 1);
  }

  /** The entry of page `s` of a single table changed. */
  lemma EntrySet(m: Memory, m2: Memory, t: nat, s: nat, e: Entry, p: nat)
    requires t in m && t in m2 && s < 512 && m2[t] == m[t][s := e] && Block(p, 1) == 0
    ensures Leaf(m2, t, 1, p) == if p == s then e else Leaf(m, t, 1, p)
  {
    LowPage(p);
  }

  lemma OneMapped(m: Memory, m2: Memory, t: nat, s: nat, f: nat, flags: nat)
    requires t in m && t in m2 && s < 512 && m2[t] == m[t][s := Entry(f, flags)]
    ensures MapsLeaves(m, m2, t, 1, s, [f], flags)
  {
    LowPage(s);
    forall p: nat | Block(p, 1) == Block(s, 1)
      ensures Leaf(m2, t, 1, p) == if p == s then Entry(f, flags) else Leaf(m, t, 1, p)
    {
      EntrySet(m, m2, t, s, Entry(f, flags), p);
    }
  }

  lemma OneCleared(m: Memory, m2: Memory, t: nat, s: nat)
    requires t in m && t in m2 && s < 512 && m2[t] == m[t][s := UNUSED]
    ensures ClearsLeaves(m, m2, t, 1, 0, {s})
  {
    forall p: nat | Block(p, 1) == 0
      ensures Leaf(m2, t, 1, p) == if p == s then UNUSED else Leaf(m, t, 1, p)
    {
      EntrySet(m, m2, t, s, UNUSED, p);
    }
  }

  /** A user page of a space of any depth gets the frame `f`. */
  lemma OnePageStep(st: State, id: nat, s: nat, f: nat, flags: nat, st2: State)
    requires Inv(st) && id in st.spaces && st2.spaces == st.spaces && st2.data == st.data + {f}
    requires var sp := st.spaces[id];
             && Grown(st.mem, st.free, st2.mem, st2.free, sp.root, sp.depth, {f})
             && MapsLeaves(st.mem, st2.mem, sp.root, sp.depth, s, [f], flags)
             && PathsGrown(st.mem, st2.mem, sp.root, sp.depth, flags)
             && NoEmptyChild(st2.mem, sp.root, sp.depth)
    ensures StepMap(st, MapPages(id, 0, 0, s, s + 1, User, flags), [f], st2)
  {
    assert Elems([f]) == {f};
  }

  lemma OneAllotted(st: State, id: nat, s: nat, flags: nat)
    requires id in st.spaces
    ensures Allotted(st, MapPages(id, 0, 0, s, s + 1, User, flags)) == {Place(id, Alias(s, 0, st.spaces[id].depth))}
  {
    var op := MapPages(id, 0, 0, s, s + 1, User, flags);
    assert Place(id, Alias(s, 0, st.spaces[id].depth)) in Allotted(st, op);
  }

  lemma OnePageFresh(st: State, id: nat, s: nat, f: nat, flags: nat, st2: State)
    requires Inv(st) && StepMap(st, MapPages(id, 0, 0, s, s + 1, User, flags), [f], st2)
    ensures var x := Place(id, Alias(s, 0, st.spaces[id].depth));
            && FreshNext(st, MapPages(id, 0, 0, s, s + 1, User, flags), {}) == {x}
            && LeafAt(st2, x) == Entry(f, flags)
  {
    AllottedLeaf(st, MapPages(id, 0, 0, s, s + 1, User, flags), [f], st2, s);
    OneAllotted(st, id, s, flags);
  }

  /** Page `s` of a space of one table is mapped to the free frame `f`. */
  lemma PageMapped(st: State, id: nat, t: nat, s: nat, f: nat, flags: nat, st2: State)
    requires Inv(st) && id in st.spaces && st.spaces[id] == Space(t, 1) && f in st.free && s < 512
    requires st2 == State(st.mem[t := st.mem[t][s := Entry(f, flags)]], st.free - {f}, st.data + {f}, st.spaces)
    ensures Step(st, MapPages(id, 0, 0, s, s + 1, User, flags), st2)
    ensures FreshNext(st, MapPages(id, 0, 0, s, s + 1, User, flags), {}) == {Place(id, s)}
    ensures LeafAt(st2, Place(id, s)) == Entry(f, flags)
  {
    assert SpaceIsTree(st, id) && SpaceTables(st, id) == {t};
    OneMapped(st.mem, st2.mem, t, s, f, flags);
    assert Grown(st.mem, st.free, st2.mem, st2.free, t, 1, {f});
    OnePageStep(st, id, s, f, flags, st2);
    OnePageFresh(st, id, s, f, flags, st2);
    LowPage(s);
  }

  /** A space of one table is copied to the free frame `u`. */
  lemma TableCopied(st: State, id: nat, from: nat, t: nat, u: nat, st2: State)
    requires Inv(st) && id !in st.spaces && from in st.spaces && st.spaces[from] == Space(t, 1) && u in st.free
    requires st2 == State(st.mem[u := st.mem[t]], st.free - {u}, st.data, st.spaces[id := Space(u, 1)])
    ensures Step(st, Copy(id, from), st2)
  {
    assert SpaceIsTree(st, from) && SpaceTables(st, from) == {t};
    assert SpaceTables(st2, id) == {u};
  }

  /** Unmapping one page reaches that page of a single table. */
  lemma OneReached(st: State, id: nat, t: nat, s: nat)
    requires id in st.spaces && st.spaces[id] == Space(t, 1) && s < 512
    ensures Reached(st, id, s, s + 1) == {s} && Block(s, 1) == 0
  {
    LowPage(s);
  }

  /** Page `s` of a space of one table is unmapped and its frame freed. */
  lemma PageUnmapped(st: State, id: nat, t: nat, s: nat, f: nat, flags: nat, st2: State)
    requires Inv(st) && id in st.spaces && st.spaces[id] == Space(t, 1) && f in st.data && s < 512
    requires st.mem[t][s] == Entry(f, flags)
    requires st2 == State(st.mem[t := st.mem[t][s := UNUSED]], st.free + {f}, st.data - {f}, st.spaces)
    ensures Step(st, Unmap(id, s, s + 1, true), st2)
    ensures Touches(st, Unmap(id, s, s + 1, true), Place(id, s))
  {
    assert SpaceIsTree(st, id) && SpaceTables(st, id) == {t};
    OneReached(st, id, t, s);
    OneCleared(st.mem, st2.mem, t, s);
    OneFreed(st.mem, t, s, f, flags);
    LowPage(s);
  }

  lemma OneFreed(m: Memory, t: nat, s: nat, f: nat, flags: nat)
    requires t in m && s < 512 && m[t][s] == Entry(f, flags) && f != 0
    ensures DataOf(m, t, 1, {s}) == {f}
  {
    LowPage(s);
    assert Leaf(m, t, 1, s) == Entry(f, flags);
  }

  lemma EarlySteps(st: State, a: nat, b: nat, t: nat, u: nat, s: nat, f: nat, flags: nat, st1: State, st2: State,
                   st3: State)
    requires Inv(st) && a in st.spaces && st.spaces[a] == Space(t, 1) && b !in st.spaces && s < 512
    requires u in st.free && f in st.free && u != f
    requires st1 == State(st.mem[t := st.mem[t][s := Entry(f, flags)]], st.free - {f}, st.data + {f}, st.spaces)
    requires st2 == State(st1.mem[u := st1.mem[t]], st1.free - {u}, st1.data, st1.spaces[b := Space(u, 1)])
    requires st3 == State(st2.mem[u := st2.mem[u][s := UNUSED]], st2.free + {f}, st2.data - {f}, st2.spaces)
    ensures Step(st1, Copy(b, a), st2)
    ensures Step(st2, Unmap(b, s, s + 1, true), st3) && Touches(st2, Unmap(b, s, s + 1, true), Place(b, s))
  {
    PageMapped(st, a, t, s, f, flags, st1);
    StepInv(st, MapPages(a, 0, 0, s, s + 1, User, flags), st1);
    TableCopied(st1, b, a, t, u, st2);
    StepInv(st1, Copy(b, a), st2);
    PageUnmapped(st2, b, u, s, f, flags, st3);
  }

  /** A fresh page, a copy of its space, and an unmapping of the page in the copy that frees its frame. */
  lemma EarlyFree(st: State, op: Op, st1: State, b: nat, st2: State, op2: Op, st3: State, x: Place)
    requires Inv(st) && Step(st, op, st1) && FreshNext(st, op, {}) == {x} && x.id in st1.spaces
    requires Step(st1, Copy(b, x.id), st2)
    requires op2.Unmap? && op2.freePhysical && Step(st2, op2, st3) && Touches(st2, op2, Place(b, x.page))
    ensures x in FreshNext(st2, op2, FreshNext(st1, Copy(b, x.id), FreshNext(st, op, {})))
    ensures x.id in st3.spaces && LeafAt(st3, x) == LeafAt(st1, x) && LeafAt(st3, x).addr in st3.free
  {
    StepInv(st, op, st1);
    StepFresh(st, op, st1, {});
    CopyThenFree(st1, {x}, x, b, st2, op2, st3);
  }

  /**
    In every state with a space of one table and two free frames: page `s` is mapped, the space is copied, and the
    copy unmaps the page and frees its frame.  The page stays mapped in the first space, to a frame that is free.
   */
  lemma FreedTooEarly(st: State, a: nat, b: nat, t: nat, u: nat, s: nat, f: nat, flags: nat)
    returns (st1: State, st2: State, st3: State)
    requires Inv(st) && a in st.spaces && st.spaces[a] == Space(t, 1) && b !in st.spaces && s < 512
    requires u in st.free && f in st.free && u != f
    ensures var op, op1, op2 := MapPages(a, 0, 0, s, s + 1, User, flags), Copy(b, a), Unmap(b, s, s + 1, true);
            && Step(st, op, st1) && Step(st1, op1, st2) && Step(st2, op2, st3)
            && Place(a, s) in FreshNext(st2, op2, FreshNext(st1, op1, FreshNext(st, op, {})))
    ensures a in st3.spaces && LeafAt(st3, Place(a, s)) == Entry(f, flags) && f in st3.free
  {
    assert SpaceIsTree(st, a) && t in SpaceTables(st, a);
    st1 := State(st.mem[t := st.mem[t][s := Entry(f, flags)]], st.free - {f}, st.data + {f}, st.spaces);
    st2 := State(st1.mem[u := st1.mem[t]], st1.free - {u}, st1.data, st1.spaces[b := Space(u, 1)]);
    st3 := State(st2.mem[u := st2.mem[u][s := UNUSED]], st2.free + {f}, st2.data - {f}, st2.spaces);
    PageMapped(st, a, t, s, f, flags, st1);
    EarlySteps(st, a, b, t, u, s, f, flags, st1, st2, st3);
    EarlyFree(st, MapPages(a, 0, 0, s, s + 1, User, flags), st1, b, st2, Unmap(b, s, s + 1, true), st3, Place(a, s));
  }
}
