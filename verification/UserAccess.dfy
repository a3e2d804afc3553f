/** Which mapped pages user code can reach: the processor asks the flags of every entry on the way to a page. */
module UserAccess {
  import opened PageTable
  import opened PageMap
  import opened PageUnmap
  import opened Paging
  import opened AddressSpaces
  import VmaMap
  import Vmm

  /** The bits `PRESENT`, `WRITABLE` and `USER_ACCESSIBLE`. */
  predicate Allows(flags: nat) { flags % 8 == 7 }

  ghost predicate AllAllow(path: seq<nat>) { forall i :: 0 <= i < |path| ==> Allows(path[i]) }

  /** User code may read and write the page: its leaf allows it, and so does every entry above. */
  ghost predicate Accessible(st: State, id: nat, p: nat)
    requires id in st.spaces
  {
    Used(SpaceLeaf(st, id, p)) && Allows(SpaceLeaf(st, id, p).flags) && AllAllow(SpacePath(st, id, p))
  }

  lemma ExtendsAllow(a: seq<nat>, b: seq<nat>, flags: nat)
    requires Extends(a, b, flags) && Allows(flags)
    ensures AllAllow(b) <==> AllAllow(a)
  {
    if AllAllow(b) {
      forall i | 0 <= i < |a|
        ensures Allows(a[i])
      {
        assert b[i] == a[i];
      }
    }
  }

  /**
    A page mapped with flags that allow user access is accessible exactly when the entries that were on its way
    before allow it: they are not upgraded.
   */
  lemma MappedAccessible(st: State, op: Op, st2: State, p: nat)
    requires Inv(st) && op.MapPages? && Step(st, op, st2) && Allows(op.flags)
    requires op.s <= p < Stop(op.s, op.e, st.spaces[op.id].depth)
    ensures Accessible(st2, op.id, p) <==> AllAllow(SpacePath(st, op.id, p))
  {
    var sp := st.spaces[op.id];
    var fr :| StepMap(st, op, fr, st2);
    InBlock(op.s, Block(op.s, sp.depth), sp.depth);
    InBlock(p, Block(op.s, sp.depth), sp.depth);
    assert SpaceLeaf(st2, op.id, p) == Entry(fr[p - op.s], op.flags);
    ExtendsAllow(SpacePath(st, op.id, p), SpacePath(st2, op.id, p), op.flags);
  }

  /** Pages of one level-1 table are in one block of every higher level too. */
  lemma {:induction false} SameBlocks(p: nat, q: nat, l: nat)
    requires l >= 1 && Block(p, 1) == Block(q, 1)
    ensures Block(p, l) == Block(q, l)
    ensures l > 1 ==> Index(p, l) == Index(q, l)
  {
    if l > 1 {
      SameBlocks(p, q, l - 1);
      BlockSplit(p, l);
      BlockSplit(q, l);
    }
  }

  lemma {:induction false} SamePath(m: Memory, t: nat, level: nat, p: nat, q: nat)
    requires Block(p, 1) == Block(q, 1)
    ensures PathFlags(m, t, level, p) == PathFlags(m, t, level, q)
    decreases level
  {
    if level > 1 {
      SameBlocks(p, q, level);
      if t in m && Used(m[t][Index(p, level)]) {
        SamePath(m, m[t][Index(p, level)].addr, level - 1, p, q);
      }
    }
  }

  /**
    Two pages of one level-1 table that is not there yet: when the first is mapped with flags that forbid user
    access, the second is mapped with flags that allow it and still cannot be reached.
   */
  lemma ShutOut(st: State, op: Op, st1: State, op2: Op, st2: State)
    requires Inv(st) && op.MapPages? && Step(st, op, st1) && op.e == op.s + 1 && op.flags != 0 && !Allows(op.flags)
    requires st.spaces[op.id].depth > 1 && SpacePath(st, op.id, op.s) == []
    requires op2.MapPages? && op2.id == op.id && Step(st1, op2, st2) && op2.e == op2.s + 1 && Allows(op2.flags)
    requires Block(op2.s, 1) == Block(op.s, 1)
    ensures Used(SpaceLeaf(st2, op.id, op2.s)) && SpaceLeaf(st2, op.id, op2.s).flags == op2.flags
    ensures !Accessible(st2, op.id, op2.s)
  {
    StepInv(st, op, st1);
    PageShut(st, op, st1, op2.s);
    StaysShut(st1, op2, st2);
  }

  lemma StaysShut(st: State, op: Op, st2: State)
    requires Inv(st) && op.MapPages? && Step(st, op, st2) && op.e == op.s + 1 && Allows(op.flags)
    requires !AllAllow(SpacePath(st, op.id, op.s))
    ensures Used(SpaceLeaf(st2, op.id, op.s)) && SpaceLeaf(st2, op.id, op.s).flags == op.flags
    ensures !Accessible(st2, op.id, op.s)
  {
    MappedAccessible(st, op, st2, op.s);
    OneLeafSet(st, op, st2);
  }

  lemma OneLeafSet(st: State, op: Op, st2: State)
    requires Inv(st) && op.MapPages? && Step(st, op, st2) && op.e == op.s + 1 && op.flags != 0
    ensures Used(SpaceLeaf(st2, op.id, op.s)) && SpaceLeaf(st2, op.id, op.s).flags == op.flags
  {
    var fr :| StepMap(st, op, fr, st2);
    assert SpaceLeaf(st2, op.id, op.s) == Entry(fr[0], op.flags);
  }

  lemma PageShut(st: State, op: Op, st2: State, p: nat)
    requires Inv(st) && op.MapPages? && Step(st, op, st2) && op.e == op.s + 1 && op.flags != 0 && !Allows(op.flags)
    requires st.spaces[op.id].depth > 1 && SpacePath(st, op.id, op.s) == [] && Block(p, 1) == Block(op.s, 1)
    ensures !AllAllow(SpacePath(st2, op.id, p))
  {
    var sp := st.spaces[op.id];
    OneLeafSet(st, op, st2);
    FullPath(st2.mem, sp.root, sp.depth, op.s);
    assert Extends(SpacePath(st, op.id, op.s), SpacePath(st2, op.id, op.s), op.flags);
    assert SpacePath(st2, op.id, op.s)[0] == op.flags;
    SamePath(st2.mem, sp.root, sp.depth, op.s, p);
  }

  /** A copy gives the same access as the original. */
  lemma CopyAccessible(st: State, id: nat, from: nat, st2: State, p: nat)
    requires Inv(st) && Step(st, Copy(id, from), st2)
    ensures Accessible(st2, id, p) <==> Accessible(st, from, p)
  {
  }

  /** A mapped page has all its upper entries. */
  lemma {:induction false} FullPath(m: Memory, t: nat, level: nat, p: nat)
    requires level >= 1 && Used(Leaf(m, t, level, p))
    ensures |PathFlags(m, t, level, p)| == level - 1
    decreases level
  {
    if level > 1 {
      FullPath(m, m[t][Index(p, level)].addr, level - 1, p);
    }
  }

  /** A page that stays mapped through an unmapping is accessible as before. */
  lemma UnmapAccessible(st: State, op: Op, st2: State, p: nat)
    requires Inv(st) && op.Unmap? && Step(st, op, st2)
    requires Used(SpaceLeaf(st2, op.id, p)) && SpaceLeaf(st2, op.id, p) == SpaceLeaf(st, op.id, p)
    ensures Accessible(st2, op.id, p) <==> Accessible(st, op.id, p)
  {
    var sp := st.spaces[op.id];
    assert SpaceIsTree(st, op.id);
    FullPath(st.mem, sp.root, sp.depth, p);
    FullPath(st2.mem, sp.root, sp.depth, p);
    assert SpacePath(st2, op.id, p) <= SpacePath(st, op.id, p);
  }

  // ----- runs of an address space -----

  ghost predicate UserPage(p: nat) { VmaMap.FIRST_USER <= p < VmaMap.HALF_PAGES }

  /** Every entry on the way to a user page allows user access. */
  ghost predicate Open(o: Vmm.Owner, pt: State) {
    && o.id in pt.spaces
    && forall p: nat :: UserPage(p) ==>
         AllAllow(SpacePath(pt, o.id, p)) && (Used(SpaceLeaf(pt, o.id, p)) ==> Allows(SpaceLeaf(pt, o.id, p).flags))
  }

  ghost predicate ForUser(ev: Vmm.Event) {
    (ev.MapInside? ==> Allows(ev.flags)) && (ev.Fault? ==> Allows(ev.flags))
  }

  lemma MapOpen(o: Vmm.Owner, pt: State, op: Op, pt2: State)
    requires Inv(pt) && Open(o, pt) && pt.spaces[o.id].depth == Vmm.DEPTH
    requires op.MapPages? && op.id == o.id && op.e < VmaMap.HALF_PAGES && Allows(op.flags) && Step(pt, op, pt2)
    ensures Open(o, pt2)
  {
    var fr :| StepMap(pt, op, fr, pt2);
    Vmm.RangeLeaves(o, pt, pt2, pt.spaces[o.id], op.s, op.e, fr, op.flags);
    forall p: nat | UserPage(p)
      ensures AllAllow(SpacePath(pt2, o.id, p))
      ensures Used(SpaceLeaf(pt2, o.id, p)) ==> Allows(SpaceLeaf(pt2, o.id, p).flags)
    {
      ExtendsAllow(SpacePath(pt, o.id, p), SpacePath(pt2, o.id, p), op.flags);
      assert Vmm.LeafOf(o, pt2, p) == SpaceLeaf(pt2, o.id, p) && Vmm.LeafOf(o, pt, p) == SpaceLeaf(pt, o.id, p);
    }
  }

  lemma UnmapOpen(o: Vmm.Owner, pt: State, op: Op, pt2: State)
    requires Inv(pt) && Open(o, pt) && pt.spaces[o.id].depth == Vmm.DEPTH
    requires op.Unmap? && op.id == o.id && op.s < VmaMap.HALF_PAGES && Step(pt, op, pt2)
    ensures Open(o, pt2)
  {
    forall p: nat | UserPage(p)
      ensures AllAllow(SpacePath(pt2, o.id, p))
      ensures Used(SpaceLeaf(pt2, o.id, p)) ==> Allows(SpaceLeaf(pt2, o.id, p).flags)
    {
      Vmm.UnmapLeaf(o, pt, op, pt2, p);
      assert SpacePath(pt2, o.id, p) <= SpacePath(pt, o.id, p);
    }
  }

  lemma MapInsideOpen(o: Vmm.Owner, st: Vmm.State, ev: Vmm.Event, st2: Vmm.State)
    requires Vmm.Inv(o, st) && ev.MapInside? && Vmm.Step(o, st, ev, st2) && Open(o, st.pt) && Allows(ev.flags)
    ensures Open(o, st2.pt)
  {
    Vmm.AreasLow(st.areas, o.last, ev.vma);
    MapOpen(o, st.pt, MapPages(o.id, ev.fs, ev.fe, ev.s, ev.e, ev.space, ev.flags), st2.pt);
  }

  lemma FaultOpen(o: Vmm.Owner, st: Vmm.State, ev: Vmm.Event, st2: Vmm.State)
    requires Vmm.Inv(o, st) && ev.Fault? && Vmm.Step(o, st, ev, st2) && Open(o, st.pt) && Allows(ev.flags)
    ensures Open(o, st2.pt)
  {
    FaultLow(o, st, ev.page);
    MapOpen(o, st.pt, MapPages(o.id, 0, 0, ev.page, ev.page + 1, User, ev.flags), st2.pt);
  }

  lemma UnmapPagesOpen(o: Vmm.Owner, st: Vmm.State, ev: Vmm.Event, st2: Vmm.State)
    requires Vmm.Inv(o, st) && ev.UnmapPages? && Vmm.Step(o, st, ev, st2) && Open(o, st.pt)
    ensures Open(o, st2.pt)
  {
    UnmapOpen(o, st.pt, Unmap(o.id, ev.s, ev.e, ev.freePhysical), st2.pt);
  }

  lemma ElsewhereOpen(o: Vmm.Owner, st: Vmm.State, ev: Vmm.Event, st2: Vmm.State)
    requires Vmm.Inv(o, st) && ev.Elsewhere? && Vmm.Step(o, st, ev, st2) && Open(o, st.pt)
    ensures Open(o, st2.pt)
  {
    StepIsolated(st.pt, ev.op, st2.pt, o.id);
  }

  lemma StepOpen(o: Vmm.Owner, st: Vmm.State, ev: Vmm.Event, st2: Vmm.State)
    requires Vmm.Inv(o, st) && Vmm.Step(o, st, ev, st2) && Open(o, st.pt) && ForUser(ev)
    ensures Open(o, st2.pt)
  {
    if ev.MapInside? {
      MapInsideOpen(o, st, ev, st2);
    } else if ev.Fault? {
      FaultOpen(o, st, ev, st2);
    } else if ev.UnmapPages? {
      UnmapPagesOpen(o, st, ev, st2);
    } else if ev.Elsewhere? {
      ElsewhereOpen(o, st, ev, st2);
    }
  }

  lemma FaultLow(o: Vmm.Owner, st: Vmm.State, page: nat)
    requires Vmm.Inv(o, st) && VmaMap.Lookup(st.areas, page).Some?
    ensures page + 1 < VmaMap.HALF_PAGES
  {
    var vma := VmaMap.Lookup(st.areas, page).value;
    VmaMap.LookupIff(st.areas, page, vma);
    Vmm.AreasLow(st.areas, o.last, vma);
  }

  /**
    An address space on whose user half no entry forbids user access, and a run that maps with flags that allow it:
    every user page that is mapped at the end can be read and written by user code.
   */
  lemma {:induction false} MappedIsAccessible(o: Vmm.Owner, states: seq<Vmm.State>, evs: seq<Vmm.Event>, n: nat, p: nat)
    requires Vmm.Run(o, states, evs) && Vmm.Inv(o, states[0]) && Open(o, states[0].pt) && n <= |evs|
    requires forall i :: 0 <= i < n ==> ForUser(evs[i])
    requires UserPage(p)
    ensures Open(o, states[n].pt)
    ensures Used(SpaceLeaf(states[n].pt, o.id, p)) ==> Accessible(states[n].pt, o.id, p)
  {
    if n > 0 {
      MappedIsAccessible(o, states, evs, n - 1, p);
      Vmm.RunInv(o, states, evs, n - 1);
      StepOpen(o, states[n - 1], evs[n - 1], states[n]);
    }
  }
}
