/** The walk of `unmap_in_table`, what it does to a hierarchy, and when it is exact. */
module PageUnmap {
  import opened Arith
  import opened PageTable

  /** The pages whose leaf entries a walk reaches, and how far the walk says it came. */
  datatype Walk = Walk(pages: set<nat>, count: nat)

  /**
    The walk for the pages `s..e` through the table `t`, which sits at block `b` of its level.
    An unused upper-level slot is stepped over without advancing `s`, so after a missing table
    the walk continues with the low digits of a page that lies elsewhere.
   */
  ghost function Visit(mem: Memory, t: nat, level: nat, b: nat, s: nat, e: nat): (w: Walk)
    requires level >= 1 && s <= e
    ensures w.count <= e - s
    decreases level, 513
  {
    if level == 1 then
      var c := Min(e - s, 512 - Index(s, 1));
      var first := 512 * b + Index(s, 1);
      Walk(Range(first, first + c), c)
    else
      VisitFrom(mem, t, level, b, Index(s, level), s, e)
  }

  ghost function VisitFrom(mem: Memory, t: nat, level: nat, b: nat, i: nat, s: nat, e: nat): (w: Walk)
    requires level > 1 && s <= e && i <= 512
    ensures w.count <= e - s
    decreases level, 512 - i
  {
    if i == 512 || t !in mem then Walk({}, 0)
    else if !Used(mem[t][i]) then VisitFrom(mem, t, level, b, i + 1, s, e)
    else
      var w := Visit(mem, mem[t][i].addr, level - 1, 512 * b + i, s, e);
      if s + w.count >= e then w
      else
        var r := VisitFrom(mem, t, level, b, i + 1, s + w.count, e);
        Walk(w.pages + r.pages, w.count + r.count)
  }

  /** The same tables above level 1; the level-1 tables may hold anything. */
  ghost predicate SameUpper(m: Memory, m2: Memory, t: nat, level: nat)
    decreases level
  {
    && t in m && t in m2
    && (level > 1 ==>
          && m2[t] == m[t]
          && forall i :: 0 <= i < 512 && Used(m[t][i]) ==> SameUpper(m, m2, m[t][i].addr, level - 1))
  }

  lemma SameUpperFrame(m: Memory, m2: Memory, t: nat, level: nat)
    requires IsTree(m, t, level) && Agree(m, m2, Tables(m, t, level))
    ensures SameUpper(m, m2, t, level)
    decreases level
  {
    if level > 1 {
      forall i | 0 <= i < 512 && Used(m[t][i]) ensures SameUpper(m, m2, m[t][i].addr, level - 1) {
        TreeChild(m, t, level, i);
        SameUpperFrame(m, m2, m[t][i].addr, level - 1);
      }
    }
  }

  /** A walk depends on the upper tables only. */
  lemma VisitUpper(m: Memory, m2: Memory, t: nat, level: nat, b: nat, s: nat, e: nat)
    requires s <= e && level >= 1 && SameUpper(m, m2, t, level)
    ensures Visit(m2, t, level, b, s, e) == Visit(m, t, level, b, s, e)
    decreases level, 513
  {
    if level > 1 {
      VisitFromUpper(m, m2, t, level, b, Index(s, level), s, e);
    }
  }

  lemma VisitFromUpper(m: Memory, m2: Memory, t: nat, level: nat, b: nat, i: nat, s: nat, e: nat)
    requires s <= e && i <= 512 && level > 1 && SameUpper(m, m2, t, level)
    ensures VisitFrom(m2, t, level, b, i, s, e) == VisitFrom(m, t, level, b, i, s, e)
    decreases level, 512 - i
  {
    if i < 512 {
      var c, below, slot := m[t][i].addr, level - 1, 512 * b + i;
      if Used(m[t][i]) {
        VisitUpper(m, m2, c, below, slot, s, e);
        var next := s + Visit(m, c, below, slot, s, e).count;
        VisitFromUpper(m, m2, t, level, b, i + 1, next, e);
      } else {
        VisitFromUpper(m, m2, t, level, b, i + 1, s, e);
      }
    }
  }

  /** A walk depends on nothing but the tables it walks. */
  lemma VisitFrame(m: Memory, m2: Memory, t: nat, level: nat, b: nat, s: nat, e: nat)
    requires s <= e
    requires IsTree(m, t, level)
    requires Agree(m, m2, Tables(m, t, level))
    ensures Visit(m2, t, level, b, s, e) == Visit(m, t, level, b, s, e)
  {
    SameUpperFrame(m, m2, t, level);
    VisitUpper(m, m2, t, level, b, s, e);
  }

  /** Every page visited lies in the block of the table. */
  lemma VisitInBlock(m: Memory, t: nat, level: nat, b: nat, s: nat, e: nat, p: nat)
    requires level >= 1 && s <= e
    requires p in Visit(m, t, level, b, s, e).pages
    ensures Block(p, level) == b
    decreases level, 513
  {
    if level == 1 {
      assert Reach(0) == 1 && Reach(1) == 512;
    } else {
      VisitFromInSlots(m, t, level, b, Index(s, level), s, e, p);
    }
  }

  lemma VisitFromInSlots(m: Memory, t: nat, level: nat, b: nat, i: nat, s: nat, e: nat, p: nat)
    requires level > 1 && s <= e && i <= 512
    requires p in VisitFrom(m, t, level, b, i, s, e).pages
    ensures Block(p, level) == b && i <= Index(p, level)
    decreases level, 512 - i
  {
    if !Used(m[t][i]) {
      VisitFromInSlots(m, t, level, b, i + 1, s, e, p);
    } else {
      var w := Visit(m, m[t][i].addr, level - 1, 512 * b + i, s, e);
      if p in w.pages {
        VisitInBlock(m, m[t][i].addr, level - 1, 512 * b + i, s, e, p);
        BlockSplit(p, level);
      } else {
        VisitFromInSlots(m, t, level, b, i + 1, s + w.count, e, p);
      }
    }
  }

  lemma VisitEmpty(m: Memory, t: nat, level: nat, b: nat, s: nat)
    requires level >= 1
    ensures Visit(m, t, level, b, s, s) == Walk({}, 0)
    decreases level, 513
  {
    if level > 1 {
      VisitFromEmpty(m, t, level, b, Index(s, level), s);
    }
  }

  lemma VisitFromEmpty(m: Memory, t: nat, level: nat, b: nat, i: nat, s: nat)
    requires level > 1 && i <= 512
    ensures VisitFrom(m, t, level, b, i, s, s) == Walk({}, 0)
    decreases level, 512 - i
  {
    if i < 512 && t in m {
      if Used(m[t][i]) {
        VisitEmpty(m, m[t][i].addr, level - 1, 512 * b + i, s);
      } else {
        VisitFromEmpty(m, t, level, b, i + 1, s);
      }
    }
  }

  /** When every page of the range has its tables, the walk reaches exactly the range. */
  lemma VisitDense(m: Memory, t: nat, level: nat, s: nat, e: nat)
    requires level >= 1 && s <= e
    requires forall p: nat :: s <= p < Stop(s, e, level) ==> HasPath(m, t, level, p)
    ensures Visit(m, t, level, Block(s, level), s, e) == Walk(Range(s, Stop(s, e, level)), Stop(s, e, level) - s)
    decreases level, 513
  {
    if s == e {
      VisitEmpty(m, t, level, Block(s, level), s);
    } else if level == 1 {
      assert Reach(0) == 1 && Reach(1) == 512;
      BlockSplit(s, 1);
    } else {
      VisitFromDense(m, t, level, s, e);
    }
  }

  lemma VisitFromDense(m: Memory, t: nat, level: nat, s: nat, e: nat)
    requires level > 1 && s < e
    requires forall p: nat :: s <= p < Stop(s, e, level) ==> HasPath(m, t, level, p)
    ensures VisitFrom(m, t, level, Block(s, level), Index(s, level), s, e)
         == Walk(Range(s, Stop(s, e, level)), Stop(s, e, level) - s)
    decreases level, 512 - Index(s, level)
  {
    var b, i, stop := Block(s, level), Index(s, level), Stop(s, e, level - 1);
    var end := BlockStart(b + 1, level);
    InBlock(s, b, level);
    SlotAdvance(s, e, level, end);
    assert HasPath(m, t, level, s);
    var c, below := m[t][i].addr, level - 1;
    forall p: nat | s <= p < stop
      ensures HasPath(m, c, below, p)
    {
      assert HasPath(m, t, level, p);
      SameSlot(s, p, e, level);
    }
    BlockSplit(s, level);
    VisitDense(m, c, below, s, e);
    if stop < e && i < 511 {
      forall p: nat | stop <= p < Stop(stop, e, level)
        ensures HasPath(m, t, level, p)
      {
      }
      VisitFromDense(m, t, level, stop, e);
    }
  }

  /** Every page the walk reaches has its tables. */
  lemma VisitHasPath(m: Memory, t: nat, level: nat, b: nat, s: nat, e: nat, p: nat)
    requires s <= e && IsTree(m, t, level)
    requires p in Visit(m, t, level, b, s, e).pages
    ensures HasPath(m, t, level, p)
    decreases level, 513
  {
    if level > 1 {
      VisitFromHasPath(m, t, level, b, Index(s, level), s, e, p);
    }
  }

  lemma VisitFromHasPath(m: Memory, t: nat, level: nat, b: nat, i: nat, s: nat, e: nat, p: nat)
    requires level > 1 && s <= e && i <= 512 && IsTree(m, t, level)
    requires p in VisitFrom(m, t, level, b, i, s, e).pages
    ensures HasPath(m, t, level, p)
    decreases level, 512 - i
  {
    if !Used(m[t][i]) {
      VisitFromHasPath(m, t, level, b, i + 1, s, e, p);
    } else {
      var c, below, slot := m[t][i].addr, level - 1, 512 * b + i;
      var w := Visit(m, c, below, slot, s, e);
      if p in w.pages {
        TreeChild(m, t, level, i);
        VisitHasPath(m, c, below, slot, s, e, p);
        VisitInBlock(m, c, below, slot, s, e, p);
        PathThrough(m, t, level, b, i, p);
      } else {
        VisitFromHasPath(m, t, level, b, i + 1, s + w.count, e, p);
      }
    }
  }

  lemma PathThrough(m: Memory, t: nat, level: nat, b: nat, i: nat, p: nat)
    requires t in m && level > 1 && i < 512 && Used(m[t][i])
    requires Block(p, level - 1) == 512 * b + i && HasPath(m, m[t][i].addr, level - 1, p)
    ensures HasPath(m, t, level, p)
  {
  }

  /** Every page of the range has its tables. */
  ghost predicate Dense(m: Memory, t: nat, level: nat, s: nat, stop: nat) {
    forall p: nat :: s <= p < stop ==> HasPath(m, t, level, p)
  }

  lemma ReachedIsDense(m: Memory, t: nat, level: nat, s: nat, e: nat, b: nat, stop: nat)
    requires s <= e && IsTree(m, t, level) && Visit(m, t, level, b, s, e).pages == Range(s, stop)
    ensures Dense(m, t, level, s, stop)
  {
    forall p: nat | s <= p < stop ensures HasPath(m, t, level, p) {
      assert p in Range(s, stop);
      VisitHasPath(m, t, level, b, s, e, p);
    }
  }

  /** The walk reaches exactly the range if and only if every page of the range has its tables. */
  lemma VisitsRangeIff(m: Memory, t: nat, level: nat, s: nat, e: nat, stop: nat)
    requires s <= e && IsTree(m, t, level) && stop == Stop(s, e, level)
    ensures Visit(m, t, level, Block(s, level), s, e).pages == Range(s, stop) <==> Dense(m, t, level, s, stop)
  {
    if Dense(m, t, level, s, stop) {
      VisitDense(m, t, level, s, e);
    }
    if Visit(m, t, level, Block(s, level), s, e).pages == Range(s, stop) {
      ReachedIsDense(m, t, level, s, e, Block(s, level), stop);
    }
  }

  lemma SameSlot(s: nat, p: nat, e: nat, level: nat)
    requires level > 1 && s <= e && s <= p < Stop(s, e, level - 1)
    ensures Index(p, level) == Index(s, level)
  {
    var b := Block(s, level - 1);
    InBlock(s, b, level - 1);
    InBlock(p, b, level - 1);
  }

  // ----- effect of a walk -----

  /** Frames named by the used leaves of `pages`. */
  ghost function DataOf(m: Memory, t: nat, level: nat, pages: set<nat>): set<nat> {
    set p | p in pages && Used(Leaf(m, t, level, p)) :: Leaf(m, t, level, p).addr
  }

  ghost function Freed(m: Memory, t: nat, level: nat, pages: set<nat>, freePhysical: bool): set<nat> {
    if freePhysical then DataOf(m, t, level, pages) else {}
  }

  /** The used leaves of `pages` name distinct RAM frames that are neither free nor tables here. */
  ghost predicate Freeable(m: Memory, free: set<nat>, t: nat, level: nat, pages: set<nat>) {
    && (forall p :: p in pages && Used(Leaf(m, t, level, p)) ==>
          var f := Leaf(m, t, level, p).addr;
          f in m && f != 0 && f !in free && f !in Tables(m, t, level))
    && (forall p, q :: p in pages && q in pages && p != q
                       && Used(Leaf(m, t, level, p)) && Used(Leaf(m, t, level, q)) ==>
          Leaf(m, t, level, p).addr != Leaf(m, t, level, q).addr)
  }

  ghost predicate ClearsLeaves(m0: Memory, m: Memory, t: nat, level: nat, b: nat, pages: set<nat>) {
    forall p: nat :: Block(p, level) == b ==>
      Leaf(m, t, level, p) == if p in pages then UNUSED else Leaf(m0, t, level, p)
  }

  /** Entries above level 1 keep their flags as long as they are there. */
  ghost predicate PathsShrunk(m0: Memory, m: Memory, t: nat, level: nat) {
    forall p: nat :: PathFlags(m, t, level, p) <= PathFlags(m0, t, level, p)
  }

  ghost predicate Shrunk(m0: Memory, free0: set<nat>, m: Memory, free: set<nat>, t: nat, level: nat, freed: set<nat>) {
    && IsTree(m, t, level)
    && ChangedOnly(m0, m, Tables(m0, t, level) + freed)
    && Tables(m, t, level) <= Tables(m0, t, level)
    && free == free0 + (Tables(m0, t, level) - Tables(m, t, level)) + freed
  }

  /** The leaves of `pages` are cleared; emptied tables, and the frames `freed`, are free now. */
  ghost predicate Unmapped(m0: Memory, free0: set<nat>, m: Memory, free: set<nat>,
                           t: nat, level: nat, b: nat, pages: set<nat>, freed: set<nat>)
  {
    && Shrunk(m0, free0, m, free, t, level, freed)
    && ClearsLeaves(m0, m, t, level, b, pages)
    && PathsShrunk(m0, m, t, level)
    && (NoEmptyChild(m0, t, level) ==> NoEmptyChild(m, t, level))
  }

  /** The hierarchy below slot `i` was unmapped; the slot now holds `e`, cleared if its table became empty. */
  ghost predicate SlotUnmapped(m: Memory, free: set<nat>, m2: Memory, free2: set<nat>, m3: Memory, free3: set<nat>,
                               t: nat, level: nat, b: nat, i: nat, pages: set<nat>, freed: set<nat>)
    requires t in m && i < 512 && level > 1
  {
    var c := m[t][i].addr;
    && Unmapped(m, free, m2, free2, c, level - 1, 512 * b + i, pages, freed)
    && t in m3
    && if IsEmpty(m2[c])
       then ChangedOnly(m2, m3, {t, c}) && m3[t] == m[t][i := UNUSED] && free3 == free2 + {c}
       else m3 == m2 && free3 == free2
  }

  lemma ChildShrunk(m: Memory, free: set<nat>, m2: Memory, free2: set<nat>, t: nat, level: nat, i: nat, freed: set<nat>)
    requires IsTree(m, t, level) && level > 1 && i < 512 && Used(m[t][i])
    requires freed !! Tables(m, t, level)
    requires Shrunk(m, free, m2, free2, m[t][i].addr, level - 1, freed)
    ensures Shrunk(m, free, m2, free2, t, level, freed)
    ensures m2[t] == m[t]
    ensures Agree(m, m2, Others(m, m[t], i, level - 1))
    ensures Others(m2, m2[t], i, level - 1) == Others(m, m[t], i, level - 1)
  {
    TreeChild(m, t, level, i);
    TreeSplit(m, t, level, i);
    TablesInMemory(m, t, level);
    assert m[t][i := m[t][i]] == m[t];
    SlotChange(m, m2, t, level, i, m[t][i]);
  }

  /** Clearing a slot whose table is empty loses exactly that table. */
  lemma DropEmptyChild(m: Memory, free: set<nat>, m2: Memory, t: nat, level: nat, i: nat)
    requires IsTree(m, t, level) && level > 1 && i < 512 && Used(m[t][i])
    requires m[t][i].addr in m && IsEmpty(m[m[t][i].addr])
    requires ChangedOnly(m, m2, {t, m[t][i].addr})
    requires m2[t] == m[t][i := UNUSED]
    ensures Shrunk(m, free, m2, free + {m[t][i].addr}, t, level, {})
    ensures Agree(m, m2, Others(m, m[t], i, level - 1))
  {
    TreeChild(m, t, level, i);
    TreeSplit(m, t, level, i);
    TablesInMemory(m, t, level);
    EmptyTable(m, m[t][i].addr, level - 1);
    SlotChange(m, m2, t, level, i, UNUSED);
  }

  lemma ShrunkThen(m0: Memory, free0: set<nat>, m: Memory, free: set<nat>, m2: Memory, free2: set<nat>,
                   t: nat, level: nat, freed: set<nat>)
    requires Shrunk(m0, free0, m, free, t, level, freed)
    requires Shrunk(m, free, m2, free2, t, level, {})
    ensures Shrunk(m0, free0, m2, free2, t, level, freed)
  {
  }

  lemma SlotShrunk(m: Memory, free: set<nat>, m2: Memory, free2: set<nat>, m3: Memory, free3: set<nat>,
                   t: nat, level: nat, b: nat, i: nat, pages: set<nat>, freed: set<nat>)
    requires IsTree(m, t, level) && level > 1 && i < 512 && Used(m[t][i])
    requires freed !! Tables(m, t, level)
    requires SlotUnmapped(m, free, m2, free2, m3, free3, t, level, b, i, pages, freed)
    ensures Shrunk(m, free, m3, free3, t, level, freed)
    ensures Agree(m, m3, Others(m, m[t], i, level - 1))
    ensures m3[t] == m[t][i := m3[t][i]]
  {
    var c := m[t][i].addr;
    ChildShrunk(m, free, m2, free2, t, level, i, freed);
    if IsEmpty(m2[c]) {
      DropEmptyChild(m2, free2, m3, t, level, i);
      ShrunkThen(m, free, m2, free2, m3, free3, t, level, freed);
    } else {
      assert m[t][i := m[t][i]] == m[t];
    }
  }

  lemma SlotClearsLeaves(m: Memory, free: set<nat>, m2: Memory, free2: set<nat>, m3: Memory, free3: set<nat>,
                         t: nat, level: nat, b: nat, i: nat, pages: set<nat>, freed: set<nat>)
    requires IsTree(m, t, level) && level > 1 && i < 512 && Used(m[t][i])
    requires freed !! Tables(m, t, level)
    requires SlotUnmapped(m, free, m2, free2, m3, free3, t, level, b, i, pages, freed)
    requires forall p :: p in pages ==> Block(p, level - 1) == 512 * b + i
    ensures ClearsLeaves(m, m3, t, level, b, pages)
  {
    var c := m[t][i].addr;
    SlotShrunk(m, free, m2, free2, m3, free3, t, level, b, i, pages, freed);
    forall p: nat | Block(p, level) == b
      ensures Leaf(m3, t, level, p) == if p in pages then UNUSED else Leaf(m, t, level, p)
    {
      BlockSplit(p, level);
      if Index(p, level) != i {
        SlotKeepsLeaf(m, m3, t, level, i, m3[t][i], p);
      } else if IsEmpty(m2[c]) {
        assert Leaf(m2, c, level - 1, p) == UNUSED by { EmptyTable(m2, c, level - 1); }
      }
    }
  }

  lemma SlotPaths(m: Memory, free: set<nat>, m2: Memory, free2: set<nat>, m3: Memory, free3: set<nat>,
                  t: nat, level: nat, b: nat, i: nat, pages: set<nat>, freed: set<nat>)
    requires IsTree(m, t, level) && level > 1 && i < 512 && Used(m[t][i])
    requires freed !! Tables(m, t, level)
    requires SlotUnmapped(m, free, m2, free2, m3, free3, t, level, b, i, pages, freed)
    ensures PathsShrunk(m, m3, t, level)
  {
    var c := m[t][i].addr;
    SlotShrunk(m, free, m2, free2, m3, free3, t, level, b, i, pages, freed);
    ChildShrunk(m, free, m2, free2, t, level, i, freed);
    forall p: nat
      ensures PathFlags(m3, t, level, p) <= PathFlags(m, t, level, p)
    {
      if Index(p, level) != i {
        SlotKeepsPath(m, m3, t, level, i, m3[t][i], p);
      }
    }
  }

  lemma SlotUnmappedUnmaps(m: Memory, free: set<nat>, m2: Memory, free2: set<nat>, m3: Memory, free3: set<nat>,
                           t: nat, level: nat, b: nat, i: nat, pages: set<nat>, freed: set<nat>)
    requires IsTree(m, t, level) && level > 1 && i < 512 && Used(m[t][i])
    requires freed !! Tables(m, t, level)
    requires SlotUnmapped(m, free, m2, free2, m3, free3, t, level, b, i, pages, freed)
    requires forall p :: p in pages ==> Block(p, level - 1) == 512 * b + i
    ensures Unmapped(m, free, m3, free3, t, level, b, pages, freed)
    ensures m3[t] == m[t][i := m3[t][i]]
    ensures Agree(m, m3, Others(m, m[t], i, level - 1))
  {
    SlotShrunk(m, free, m2, free2, m3, free3, t, level, b, i, pages, freed);
    SlotClearsLeaves(m, free, m2, free2, m3, free3, t, level, b, i, pages, freed);
    SlotPaths(m, free, m2, free2, m3, free3, t, level, b, i, pages, freed);
    if NoEmptyChild(m, t, level) {
      SlotNoEmptyBut(m, m3, t, level, i);
    }
  }

  /** Two unmappings of disjoint sets of pages make one. */
  lemma UnmappedThen(m0: Memory, free0: set<nat>, m: Memory, free: set<nat>, m2: Memory, free2: set<nat>,
                     t: nat, level: nat, b: nat, pages: set<nat>, freed: set<nat>, pages2: set<nat>, freed2: set<nat>)
    requires Unmapped(m0, free0, m, free, t, level, b, pages, freed)
    requires Unmapped(m, free, m2, free2, t, level, b, pages2, freed2)
    ensures Unmapped(m0, free0, m2, free2, t, level, b, pages + pages2, freed + freed2)
  {
  }

  lemma UnmappedNothing(m: Memory, free: set<nat>, t: nat, level: nat, b: nat)
    requires IsTree(m, t, level)
    ensures Unmapped(m, free, m, free, t, level, b, {}, {})
  {
  }

  /** Pages behind slot `i` have the leaves of its table. */
  lemma ChildData(m: Memory, free: set<nat>, t: nat, level: nat, i: nat, pages: set<nat>)
    requires IsTree(m, t, level) && level > 1 && i < 512 && Used(m[t][i])
    requires forall p :: p in pages ==> Index(p, level) == i
    ensures DataOf(m, m[t][i].addr, level - 1, pages) == DataOf(m, t, level, pages)
    ensures Freeable(m, free, t, level, pages) ==>
              && Freeable(m, free, m[t][i].addr, level - 1, pages)
              && DataOf(m, t, level, pages) !! Tables(m, t, level)
  {
  }

  lemma WalkOfSlot(m: Memory, c: nat, level: nat, b: nat, i: nat, s: nat, e: nat)
    requires level > 1 && s <= e && i < 512
    ensures forall p :: p in Visit(m, c, level - 1, 512 * b + i, s, e).pages ==>
              Block(p, level - 1) == 512 * b + i && Index(p, level) == i && Block(p, level) == b
  {
    forall p | p in Visit(m, c, level - 1, 512 * b + i, s, e).pages
      ensures Block(p, level - 1) == 512 * b + i && Index(p, level) == i && Block(p, level) == b
    {
      VisitInBlock(m, c, level - 1, 512 * b + i, s, e, p);
      BlockSplit(p, level);
    }
  }

  /** Everything the walk through the table behind slot `i` needs. */
  lemma SlotReady(m: Memory, free: set<nat>, t: nat, level: nat, b: nat, i: nat, s: nat, e: nat, freePhysical: bool,
                  c: nat, slot: nat, w: Walk, freed: set<nat>)
    requires IsTree(m, t, level) && Tables(m, t, level) !! free && level > 1 && i < 512 && Used(m[t][i]) && s <= e
    requires c == m[t][i].addr && slot == 512 * b + i && w == Visit(m, c, level - 1, slot, s, e)
    requires freed == Freed(m, t, level, w.pages, freePhysical)
    requires freePhysical ==> Freeable(m, free, t, level, w.pages)
    ensures IsTree(m, c, level - 1) && Tables(m, c, level - 1) !! free
    ensures freed == Freed(m, c, level - 1, w.pages, freePhysical)
    ensures freePhysical ==> Freeable(m, free, c, level - 1, w.pages)
    ensures freed !! Tables(m, t, level)
    ensures forall p :: p in w.pages ==> Block(p, level - 1) == slot
  {
    WalkOfSlot(m, c, level, b, i, s, e);
    TreeChild(m, t, level, i);
    ChildData(m, free, t, level, i, w.pages);
  }

  /** Between the walk behind a slot and the test whether its table became empty. */
  lemma SlotBetween(m: Memory, free: set<nat>, m2: Memory, free2: set<nat>, t: nat, level: nat, b: nat, i: nat,
                    c: nat, slot: nat, pages: set<nat>, freed: set<nat>)
    requires IsTree(m, t, level) && Tables(m, t, level) !! free && level > 1 && i < 512 && Used(m[t][i])
    requires c == m[t][i].addr && freed !! Tables(m, t, level)
    requires Unmapped(m, free, m2, free2, c, level - 1, slot, pages, freed)
    ensures t in m2 && m2[t] == m[t] && c in m2 && c != 0 && c != t && c !in free2
  {
    ChildShrunk(m, free, m2, free2, t, level, i, freed);
    TreeChild(m, t, level, i);
    TablesInMemory(m, t, level);
  }

  /** Pages not cleared yet keep their leaves, and their frames stay fit to be freed. */
  lemma FreeableLater(m0: Memory, free0: set<nat>, m: Memory, free: set<nat>, t: nat, level: nat, b: nat,
                      total: set<nat>, done: set<nat>, pages: set<nat>)
    requires Freeable(m0, free0, t, level, total)
    requires Unmapped(m0, free0, m, free, t, level, b, done, DataOf(m0, t, level, done))
    requires done <= total && pages <= total && done !! pages
    requires forall p :: p in pages ==> Block(p, level) == b
    ensures Freeable(m, free, t, level, pages)
  {
    forall p | p in pages && Used(Leaf(m, t, level, p))
      ensures Leaf(m, t, level, p).addr !in free
    {
      assert Leaf(m, t, level, p) == Leaf(m0, t, level, p);
      assert Leaf(m0, t, level, p).addr !in DataOf(m0, t, level, done);
    }
  }

  lemma FreedSplit(m0: Memory, m: Memory, t: nat, level: nat, b: nat, done: set<nat>, pages: set<nat>,
                   freePhysical: bool)
    requires ClearsLeaves(m0, m, t, level, b, done)
    requires done !! pages
    requires forall p :: p in pages ==> Block(p, level) == b
    ensures Freed(m0, t, level, done + pages, freePhysical)
         == Freed(m0, t, level, done, freePhysical) + Freed(m, t, level, pages, freePhysical)
  {
  }

  /** Tables behind the slots from `i` on. */
  ghost function Suffix(m: Memory, t: nat, level: nat, i: nat): set<nat>
    requires t in m && i <= 512 && level > 1
  {
    ForestTables(m, m[t][i..], level - 1)
  }

  lemma SuffixStep(m0: Memory, m: Memory, m2: Memory, t: nat, level: nat, i: nat)
    requires level > 1 && i < 512
    requires IsTree(m0, t, level) && IsTree(m, t, level)
    requires m[t][i..] == m0[t][i..]
    requires Agree(m0, m, Suffix(m0, t, level, i))
    requires Agree(m, m2, Others(m, m[t], i, level - 1))
    ensures Agree(m0, m2, Suffix(m0, t, level, i + 1))
  {
    var rest := m0[t][i + 1..];
    forall f | f in Suffix(m0, t, level, i + 1)
      ensures f in m0 && f in m2 && m0[f] == m2[f]
    {
      var k :| 0 <= k < |rest| && Used(rest[k]) && f in Tables(m0, rest[k].addr, level - 1);
      var j := i + 1 + k;
      assert rest[k] == m0[t][i..][k + 1] == m0[t][j] == m[t][i..][k + 1] == m[t][j];
      TreeChild(m0, t, level, j);
      assert Tables(m0, m0[t][j].addr, level - 1) <= Suffix(m0, t, level, i);
      TreeFrame(m0, m, m0[t][j].addr, level - 1);
      assert m[t][i := UNUSED][j] == m[t][j];
    }
  }

  lemma SuffixChild(m0: Memory, m: Memory, t: nat, level: nat, i: nat, b: nat, s: nat, e: nat)
    requires level > 1 && i < 512 && s <= e
    requires IsTree(m0, t, level) && t in m
    requires m[t][i..] == m0[t][i..]
    requires Agree(m0, m, Suffix(m0, t, level, i))
    ensures m[t][i] == m0[t][i]
    ensures Agree(m0, m, Suffix(m0, t, level, i + 1))
    ensures Used(m[t][i]) ==>
              Visit(m, m[t][i].addr, level - 1, b, s, e) == Visit(m0, m0[t][i].addr, level - 1, b, s, e)
  {
    assert m[t][i] == m[t][i..][0] == m0[t][i..][0] == m0[t][i];
    forall f | f in Suffix(m0, t, level, i + 1)
      ensures f in Suffix(m0, t, level, i)
    {
      var rest := m0[t][i + 1..];
      var k :| 0 <= k < |rest| && Used(rest[k]) && f in Tables(m0, rest[k].addr, level - 1);
      assert m0[t][i..][k + 1] == rest[k];
    }
    if Used(m[t][i]) {
      TreeChild(m0, t, level, i);
      assert Tables(m0, m0[t][i].addr, level - 1) <= Suffix(m0, t, level, i);
      VisitFrame(m0, m, m0[t][i].addr, level - 1, b, s, e);
    }
  }

  /** The whole walk, from what is done and what is left to do from slot `i` on. */
  ghost function WalkLeft(m: Memory, t: nat, level: nat, b: nat, i: nat, cur: nat, e: nat, n: nat, done: set<nat>): Walk
    requires level > 1 && i <= 512 && cur <= e
  {
    var rest := VisitFrom(m, t, level, b, i, cur, e);
    Walk(done + rest.pages, n + rest.count)
  }

  /**
    A walk in progress at slot `i`: the pages `done` are unmapped, the tables behind the
    slots from `i` on are untouched, and what is left to visit completes `total`.
   */
  ghost predicate Progress(m0: Memory, free0: set<nat>, m: Memory, free: set<nat>, t: nat, level: nat, b: nat,
                           i: nat, cur: nat, e: nat, n: nat, total: Walk, done: set<nat>, freePhysical: bool)
    requires level > 1 && i <= 512 && cur <= e
  {
    && IsTree(m0, t, level)
    && total == WalkLeft(m0, t, level, b, i, cur, e, n, done)
    && (forall p :: p in done ==> Block(p, level) == b && Index(p, level) < i)
    && Unmapped(m0, free0, m, free, t, level, b, done, Freed(m0, t, level, done, freePhysical))
    && m[t][i..] == m0[t][i..]
    && Agree(m0, m, Suffix(m0, t, level, i))
  }

  lemma ProgressStart(m: Memory, free: set<nat>, t: nat, level: nat, b: nat, s: nat, e: nat, total: Walk,
                      freePhysical: bool)
    requires IsTree(m, t, level) && level > 1 && s <= e && total == Visit(m, t, level, b, s, e)
    ensures Progress(m, free, m, free, t, level, b, Index(s, level), s, e, 0, total, {}, freePhysical)
  {
    UnmappedNothing(m, free, t, level, b);
    TablesInMemory(m, t, level);
    var i := Index(s, level);
    forall f | f in Suffix(m, t, level, i)
      ensures f in m
    {
      var k :| 0 <= k < |m[t][i..]| && Used(m[t][i..][k]) && f in Tables(m, m[t][i..][k].addr, level - 1);
      TreeChild(m, t, level, i + k);
    }
  }

  lemma ProgressSkip(m0: Memory, free0: set<nat>, m: Memory, free: set<nat>, t: nat, level: nat, b: nat,
                     i: nat, cur: nat, e: nat, n: nat, total: Walk, done: set<nat>, freePhysical: bool)
    requires level > 1 && i < 512 && cur <= e
    requires Progress(m0, free0, m, free, t, level, b, i, cur, e, n, total, done, freePhysical)
    requires !Used(m[t][i])
    ensures Progress(m0, free0, m, free, t, level, b, i + 1, cur, e, n, total, done, freePhysical)
  {
  }

  /** The next used slot is ready to be unmapped. */
  lemma ProgressSlot(m0: Memory, free0: set<nat>, m: Memory, free: set<nat>, t: nat, level: nat, b: nat,
                     i: nat, cur: nat, e: nat, n: nat, total: Walk, done: set<nat>, freePhysical: bool, w: Walk)
    requires level > 1 && i < 512 && cur <= e
    requires Progress(m0, free0, m, free, t, level, b, i, cur, e, n, total, done, freePhysical)
    requires Tables(m0, t, level) !! free0
    requires Used(m[t][i])
    requires w == Visit(m, m[t][i].addr, level - 1, 512 * b + i, cur, e)
    requires freePhysical ==> Freeable(m0, free0, t, level, total.pages)
    ensures w == Visit(m0, m0[t][i].addr, level - 1, 512 * b + i, cur, e)
    ensures w.pages <= total.pages && done <= total.pages && done !! w.pages
    ensures forall p :: p in w.pages ==> Block(p, level) == b && Index(p, level) == i
    ensures freePhysical ==> Freeable(m, free, t, level, w.pages)
    ensures Tables(m, t, level) !! free
  {
    SuffixChild(m0, m, t, level, i, 512 * b + i, cur, e);
    WalkOfSlot(m, m[t][i].addr, level, b, i, cur, e);
    assert done <= total.pages;
    if freePhysical {
      FreeableLater(m0, free0, m, free, t, level, b, total.pages, done, w.pages);
      assert DataOf(m0, t, level, done) !! Tables(m0, t, level);
    }
  }

  lemma WalkUnfold(m: Memory, t: nat, level: nat, b: nat, i: nat, cur: nat, e: nat, n: nat, done: set<nat>, w: Walk,
                   cur2: nat, n2: nat, done2: set<nat>)
    requires level > 1 && i < 512 && cur <= e
    requires t in m && Used(m[t][i]) && w == Visit(m, m[t][i].addr, level - 1, 512 * b + i, cur, e)
    requires cur2 == cur + w.count && n2 == n + w.count && done2 == done + w.pages
    ensures WalkLeft(m, t, level, b, i, cur, e, n, done)
         == if cur2 >= e then Walk(done2, n2) else WalkLeft(m, t, level, b, i + 1, cur2, e, n2, done2)
  {
  }

  /** After one slot the walk is over, or in progress at the next slot. */
  lemma ProgressStep(m0: Memory, free0: set<nat>, m: Memory, free: set<nat>, m2: Memory, free2: set<nat>,
                     t: nat, level: nat, b: nat, i: nat, cur: nat, e: nat, n: nat, total: Walk, done: set<nat>,
                     freePhysical: bool, w: Walk, freed: set<nat>, i2: nat, cur2: nat, n2: nat, done2: set<nat>)
    requires level > 1 && i < 512 && cur <= e
    requires Progress(m0, free0, m, free, t, level, b, i, cur, e, n, total, done, freePhysical)
    requires Used(m0[t][i]) && w == Visit(m0, m0[t][i].addr, level - 1, 512 * b + i, cur, e)
    requires done !! w.pages
    requires forall p :: p in w.pages ==> Block(p, level) == b && Index(p, level) == i
    requires freed == Freed(m, t, level, w.pages, freePhysical)
    requires Unmapped(m, free, m2, free2, t, level, b, w.pages, freed)
    requires m2[t] == m[t][i := m2[t][i]]
    requires Agree(m, m2, Others(m, m[t], i, level - 1))
    requires i2 == i + 1 && cur2 == cur + w.count && n2 == n + w.count && done2 == done + w.pages
    ensures Unmapped(m0, free0, m2, free2, t, level, b, done2, Freed(m0, t, level, done2, freePhysical))
    ensures cur2 >= e ==> total == Walk(done2, n2)
    ensures cur2 < e ==> Progress(m0, free0, m2, free2, t, level, b, i2, cur2, e, n2, total, done2, freePhysical)
  {
    WalkUnfold(m0, t, level, b, i, cur, e, n, done, w, cur2, n2, done2);
    FreedSplit(m0, m, t, level, b, done, w.pages, freePhysical);
    UnmappedThen(m0, free0, m, free, m2, free2, t, level, b, done, Freed(m0, t, level, done, freePhysical), w.pages,
                 freed);
    if cur2 < e {
      SuffixStep(m0, m, m2, t, level, i);
      assert m2[t][i + 1..] == m[t][i + 1..] == m[t][i..][1..] == m0[t][i..][1..] == m0[t][i + 1..];
    }
  }

  // ----- level 1 -----

  /** Frames named by the `count` slots from `start`, if they are to be freed. */
  ghost function SlotFrames(tbl: Table, start: nat, count: nat, freePhysical: bool): set<nat>
    requires start + count <= 512
  {
    if count == 0 then {}
    else
      SlotFrames(tbl, start, count - 1, freePhysical)
      + if freePhysical && Used(tbl[start + count - 1]) then {tbl[start + count - 1].addr} else {}
  }

  ghost predicate Cleared(tbl: Table, tbl2: Table, start: nat, count: nat) {
    forall j :: 0 <= j < 512 ==> tbl2[j] == if start <= j < start + count then UNUSED else tbl[j]
  }

  lemma LevelOneIndex(b: nat, j: nat)
    requires j < 512
    ensures Index(512 * b + j, 1) == j && Block(512 * b + j, 1) == b
  {
  }

  lemma SlotFramesAre(m: Memory, t: nat, b: nat, start: nat, count: nat, freePhysical: bool)
    requires t in m && start + count <= 512
    ensures SlotFrames(m[t], start, count, freePhysical)
         == Freed(m, t, 1, Range(512 * b + start, 512 * b + start + count), freePhysical)
  {
    if count > 0 {
      var first := 512 * b + start;
      SlotFramesAre(m, t, b, start, count - 1, freePhysical);
      LevelOneIndex(b, start + count - 1);
      assert Range(first, first + count) == Range(first, first + count - 1) + {first + count - 1};
    }
  }

  lemma SlotFreeable(m: Memory, free: set<nat>, t: nat, b: nat, s: nat, e: nat, count: nat)
    requires t in m && s <= e && count < Min(e - s, 512 - Index(s, 1))
    requires Freeable(m, free, t, 1, Visit(m, t, 1, b, s, e).pages)
    requires Used(m[t][Index(s, 1) + count])
    ensures var f := m[t][Index(s, 1) + count].addr;
            f in m && f != 0 && f != t && f !in free && f !in SlotFrames(m[t], Index(s, 1), count, true)
  {
    var start := Index(s, 1);
    var first := 512 * b + start;
    LevelOneIndex(b, start + count);
    SlotFramesAre(m, t, b, start, count, true);
    assert first + count in Visit(m, t, 1, b, s, e).pages;
    assert Range(first, first + count) <= Visit(m, t, 1, b, s, e).pages;
  }

  lemma LevelOneUnmapped(m0: Memory, free0: set<nat>, m: Memory, free: set<nat>, t: nat, b: nat, s: nat, e: nat,
                         freePhysical: bool)
    requires IsTree(m0, t, 1) && s <= e && m.Keys == m0.Keys
    requires var c := Min(e - s, 512 - Index(s, 1));
             && free == free0 + SlotFrames(m0[t], Index(s, 1), c, freePhysical)
             && ChangedOnly(m0, m, {t} + SlotFrames(m0[t], Index(s, 1), c, freePhysical))
             && Cleared(m0[t], m[t], Index(s, 1), c)
    ensures var w := Visit(m0, t, 1, b, s, e);
            Unmapped(m0, free0, m, free, t, 1, b, w.pages, Freed(m0, t, 1, w.pages, freePhysical))
  {
    SlotFramesAre(m0, t, b, Index(s, 1), Min(e - s, 512 - Index(s, 1)), freePhysical);
    forall p: nat | Block(p, 1) == b
      ensures p == 512 * b + Index(p, 1)
    {
      BlockSplit(p, 1);
      assert Reach(0) == 1 && Reach(1) == 512;
    }
  }

  // ----- exactness -----

  /** The range, as far as the table reaches, is unmapped and nothing else is. */
  ghost predicate Exact(m0: Memory, m: Memory, t: nat, level: nat, s: nat, e: nat)
    requires s <= e
  {
    ClearsLeaves(m0, m, t, level, Block(s, level), Range(s, Stop(s, e, level)))
  }

  /** Whether unmapping would be exact, told before it happens. */
  ghost predicate WouldBeExact(m: Memory, t: nat, level: nat, s: nat, e: nat)
    requires level >= 1 && s <= e
  {
    forall p: nat :: Block(p, level) == Block(s, level) && Used(Leaf(m, t, level, p)) ==>
      (p in Visit(m, t, level, Block(s, level), s, e).pages <==> s <= p < Stop(s, e, level))
  }

  lemma ExactAsForetold(m0: Memory, m: Memory, t: nat, level: nat, s: nat, e: nat)
    requires level >= 1 && s <= e
    requires ClearsLeaves(m0, m, t, level, Block(s, level), Visit(m0, t, level, Block(s, level), s, e).pages)
    ensures Exact(m0, m, t, level, s, e) <==> WouldBeExact(m0, t, level, s, e)
  {
  }

  lemma PathUpper(m: Memory, m2: Memory, t: nat, level: nat, p: nat)
    requires level >= 1 && SameUpper(m, m2, t, level)
    ensures HasPath(m2, t, level, p) == HasPath(m, t, level, p)
    ensures Used(Leaf(m2, t, level, p)) ==> HasPath(m, t, level, p)
    decreases level
  {
    if level > 1 && Used(m[t][Index(p, level)]) {
      PathUpper(m, m2, m[t][Index(p, level)].addr, level - 1, p);
    }
  }

  /** A page that has its tables can be filled in without touching an upper table. */
  lemma Filled(m: Memory, t: nat, level: nat, p: nat) returns (m2: Memory)
    requires IsTree(m, t, level) && HasPath(m, t, level, p)
    ensures SameUpper(m, m2, t, level) && Used(Leaf(m2, t, level, p))
    ensures ChangedOnly(m, m2, Tables(m, t, level))
    decreases level
  {
    var i := Index(p, level);
    if level == 1 {
      m2 := m[t := m[t][i := Entry(1, 1)]];
    } else {
      var c, below := m[t][i].addr, level - 1;
      TreeChild(m, t, level, i);
      m2 := Filled(m, c, below, p);
      forall j | 0 <= j < 512 && Used(m[t][j]) ensures SameUpper(m, m2, m[t][j].addr, below) {
        if j != i {
          TreeChild(m, t, level, j);
          TablesInMemory(m, m[t][j].addr, below);
          SameUpperFrame(m, m2, m[t][j].addr, below);
        }
      }
    }
  }

  /** The walk reaches exactly the pages of the range that have their tables. */
  ghost predicate ReachesExisting(m: Memory, t: nat, level: nat, s: nat, e: nat)
    requires level >= 1 && s <= e
  {
    forall p: nat :: Block(p, level) == Block(s, level) ==>
      (p in Visit(m, t, level, Block(s, level), s, e).pages <==> s <= p < Stop(s, e, level) && HasPath(m, t, level, p))
  }

  lemma ReachingIsExact(m: Memory, m2: Memory, t: nat, level: nat, s: nat, e: nat)
    requires level >= 1 && s <= e && SameUpper(m, m2, t, level) && ReachesExisting(m, t, level, s, e)
    ensures WouldBeExact(m2, t, level, s, e)
  {
    VisitUpper(m, m2, t, level, Block(s, level), s, e);
    forall p: nat | Block(p, level) == Block(s, level) && Used(Leaf(m2, t, level, p))
      ensures p in Visit(m2, t, level, Block(s, level), s, e).pages <==> s <= p < Stop(s, e, level)
    {
      PathUpper(m, m2, t, level, p);
    }
  }

  lemma ExactReaches(m: Memory, t: nat, level: nat, s: nat, e: nat, p: nat)
    requires IsTree(m, t, level) && s <= e && Block(p, level) == Block(s, level) && HasPath(m, t, level, p)
    requires forall m2 :: SameUpper(m, m2, t, level) ==> WouldBeExact(m2, t, level, s, e)
    ensures p in Visit(m, t, level, Block(s, level), s, e).pages <==> s <= p < Stop(s, e, level)
  {
    var m2 := Filled(m, t, level, p);
    VisitUpper(m, m2, t, level, Block(s, level), s, e);
    assert WouldBeExact(m2, t, level, s, e);
  }

  /**
    Unmapping a range is exact whatever the level-1 tables hold if and only if the walk reaches exactly
    the pages of the range that have their tables.
   */
  lemma AlwaysExactIff(m: Memory, t: nat, level: nat, s: nat, e: nat)
    requires IsTree(m, t, level) && s <= e
    ensures (forall m2 :: SameUpper(m, m2, t, level) ==> WouldBeExact(m2, t, level, s, e)) <==>
              ReachesExisting(m, t, level, s, e)
  {
    if ReachesExisting(m, t, level, s, e) {
      forall m2 | SameUpper(m, m2, t, level) ensures WouldBeExact(m2, t, level, s, e) {
        ReachingIsExact(m, m2, t, level, s, e);
      }
    }
    if forall m2 :: SameUpper(m, m2, t, level) ==> WouldBeExact(m2, t, level, s, e) {
      forall p: nat | Block(p, level) == Block(s, level)
        ensures p in Visit(m, t, level, Block(s, level), s, e).pages <==>
                  s <= p < Stop(s, e, level) && HasPath(m, t, level, p)
      {
        if HasPath(m, t, level, p) {
          ExactReaches(m, t, level, s, e, p);
        } else if p in Visit(m, t, level, Block(s, level), s, e).pages {
          VisitHasPath(m, t, level, Block(s, level), s, e, p);
        }
      }
    }
  }

  /** Under a missing first table, unmapping page 0 alone clears a page of the first table that exists. */
  lemma SparseWalkStrays(m: Memory, t: nat, i: nat)
    requires t in m && 0 < i < 512
    requires forall j :: 0 <= j < i ==> !Used(m[t][j])
    requires Used(m[t][i])
    ensures Visit(m, t, 2, 0, 0, 1) == Walk({512 * i}, 1)
  {
    assert Index(0, 2) == 0 && Index(0, 1) == 0;
    SkipUnused(m, t, 0, i);
    assert Range(512 * i, 512 * i + 1) == {512 * i};
  }

  lemma SkipUnused(m: Memory, t: nat, k: nat, i: nat)
    requires t in m && k <= i < 512
    requires forall j :: k <= j < i ==> !Used(m[t][j])
    ensures VisitFrom(m, t, 2, 0, k, 0, 1) == VisitFrom(m, t, 2, 0, i, 0, 1)
    decreases i - k
  {
    if k < i {
      SkipUnused(m, t, k + 1, i);
    }
  }

  lemma SparseExampleIsTree(m: Memory)
    requires 1 in m && 2 in m
    requires (forall j :: 0 <= j < 512 && j != 1 ==> m[1][j] == UNUSED) && m[1][1] == Entry(2, 1)
    ensures IsTree(m, 1, 2)
  {
  }

  /** A hierarchy for which unmapping page 0 is not exact: it clears page 512. */
  lemma SparseUnmapExample(m: Memory, m2: Memory)
    requires 1 in m && 2 in m
    requires (forall j :: 0 <= j < 512 && j != 1 ==> m[1][j] == UNUSED) && m[1][1] == Entry(2, 1)
    requires m[2][0] == Entry(3, 1)
    requires ClearsLeaves(m, m2, 1, 2, Block(0, 2), Visit(m, 1, 2, Block(0, 2), 0, 1).pages)
    ensures Leaf(m, 1, 2, 512) == Entry(3, 1) && Leaf(m2, 1, 2, 512) == UNUSED
    ensures !Exact(m, m2, 1, 2, 0, 1)
  {
  }
}
