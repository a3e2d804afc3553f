/** What one run of `map_in_table` does to a hierarchy, and how runs compose. */
module PageMap {
  import opened PageTable

  ghost function Elems(fr: seq<nat>): set<nat> { set f | f in fr }

  ghost predicate Distinct(fr: seq<nat>) {
    forall i, j :: 0 <= i < j < |fr| ==> fr[i] != fr[j]
  }

  ghost function Taken(fr: seq<nat>, alloc: bool): set<nat> { if alloc then Elems(fr) else {} }

  /** In the block of `s`, page `s + k` has leaf `(fr[k], flags)`; all others keep theirs. */
  ghost predicate MapsLeaves(m0: Memory, m: Memory, t: nat, level: nat, s: nat, fr: seq<nat>, flags: nat) {
    forall p: nat :: Block(p, level) == Block(s, level) ==>
      Leaf(m, t, level, p) ==
        if s <= p < s + |fr| then Entry(fr[p - s], flags) else Leaf(m0, t, level, p)
  }

  /** `b` goes on from `a` with the given flags. */
  ghost predicate Extends(a: seq<nat>, b: seq<nat>, flags: nat) {
    |a| <= |b| && forall i :: 0 <= i < |b| ==> b[i] == if i < |a| then a[i] else flags
  }

  /** No entry above level 1 changes its flags, and new ones have the flags of the mapping. */
  ghost predicate PathsGrown(m0: Memory, m: Memory, t: nat, level: nat, flags: nat) {
    forall p: nat :: Extends(PathFlags(m0, t, level, p), PathFlags(m, t, level, p), flags)
  }

  /** The hierarchy at `t` gained tables; they and the frames `taken` came out of the free frames. */
  ghost predicate Grown(m0: Memory, free0: set<nat>, m: Memory, free: set<nat>, t: nat, level: nat, taken: set<nat>)
  {
    && IsTree(m, t, level)
    && ChangedOnly(m0, m, Tables(m0, t, level) + free0)
    && Tables(m0, t, level) <= Tables(m, t, level) <= Tables(m0, t, level) + free0
    && free == free0 - Tables(m, t, level) - taken
    && taken <= free0
    && taken !! Tables(m, t, level)
  }

  /**
    The hierarchy at `t` went from `m0` to `m` by mapping the pages `s`, `s + 1`, ... to
    the frames `fr`.  New tables, and the frames themselves when `alloc` holds, came out
    of the free frames; nothing else in memory changed.
   */
  ghost predicate Mapped(m0: Memory, free0: set<nat>, m: Memory, free: set<nat>,
                         t: nat, level: nat, s: nat, fr: seq<nat>, flags: nat, alloc: bool)
  {
    && Grown(m0, free0, m, free, t, level, Taken(fr, alloc))
    && (alloc ==> Distinct(fr))
    && MapsLeaves(m0, m, t, level, s, fr, flags)
    && PathsGrown(m0, m, t, level, flags)
  }

  lemma PathsThen(m0: Memory, m: Memory, m2: Memory, t: nat, level: nat, flags: nat)
    requires PathsGrown(m0, m, t, level, flags) && PathsGrown(m, m2, t, level, flags)
    ensures PathsGrown(m0, m2, t, level, flags)
  {
    forall p: nat
      ensures Extends(PathFlags(m0, t, level, p), PathFlags(m2, t, level, p), flags)
    {
      ExtendsThen(PathFlags(m0, t, level, p), PathFlags(m, t, level, p), PathFlags(m2, t, level, p), flags);
    }
  }

  lemma ExtendsThen(a: seq<nat>, b: seq<nat>, c: seq<nat>, flags: nat)
    requires Extends(a, b, flags) && Extends(b, c, flags)
    ensures Extends(a, c, flags)
  {
  }

  /** What is said of the paths below a slot, with the entry of the slot in front. */
  lemma ExtendsBelow(flag: nat, a: seq<nat>, b: seq<nat>, flags: nat)
    requires Extends(a, b, flags)
    ensures Extends([flag] + a, [flag] + b, flags)
  {
  }

  lemma MappedNothing(m: Memory, free: set<nat>, t: nat, level: nat, s: nat, flags: nat, alloc: bool)
    requires IsTree(m, t, level)
    requires Tables(m, t, level) !! free
    ensures Mapped(m, free, m, free, t, level, s, [], flags, alloc)
  {
  }

  /** A fresh zeroed table hung into an unused slot changes no leaf. */
  lemma NewTable(m: Memory, m2: Memory, t: nat, level: nat, i: nat, f: nat, flags: nat)
    requires IsTree(m, t, level) && level > 1 && i < 512
    requires !Used(m[t][i])
    requires f in m && f != 0 && f !in Tables(m, t, level)
    requires m2.Keys == m.Keys
    requires m2[t] == m[t][i := Entry(f, flags)]
    requires IsEmpty(m2[f])
    requires ChangedOnly(m, m2, {t, f})
    ensures IsTree(m2, t, level)
    ensures Tables(m2, t, level) == Tables(m, t, level) + {f}
    ensures forall p :: Leaf(m2, t, level, p) == Leaf(m, t, level, p)
  {
    var e := Entry(f, flags);
    TreeSplit(m, t, level, i);
    EmptyTable(m2, f, level - 1);
    TablesInMemory(m, t, level);
    SlotChange(m, m2, t, level, i, e);
    forall p ensures Leaf(m2, t, level, p) == Leaf(m, t, level, p) {
      if Index(p, level) != i {
        SlotKeepsLeaf(m, m2, t, level, i, e, p);
      }
    }
  }

  lemma NewTablePaths(m: Memory, m2: Memory, t: nat, level: nat, i: nat, f: nat, flags: nat)
    requires IsTree(m, t, level) && level > 1 && i < 512
    requires !Used(m[t][i])
    requires f in m && f != 0 && f !in Tables(m, t, level)
    requires m2.Keys == m.Keys
    requires m2[t] == m[t][i := Entry(f, flags)]
    requires IsEmpty(m2[f])
    requires ChangedOnly(m, m2, {t, f})
    ensures PathsGrown(m, m2, t, level, flags)
  {
    TreeSplit(m, t, level, i);
    EmptyTable(m2, f, level - 1);
    TablesInMemory(m, t, level);
    forall p: nat
      ensures Extends(PathFlags(m, t, level, p), PathFlags(m2, t, level, p), flags)
    {
      if Index(p, level) != i {
        SlotKeepsPath(m, m2, t, level, i, Entry(f, flags), p);
      }
    }
  }

  lemma MappedNewTable(m0: Memory, free0: set<nat>, m: Memory, free: set<nat>, m2: Memory,
                       t: nat, level: nat, s: nat, fr: seq<nat>, flags: nat, alloc: bool,
                       i: nat, f: nat)
    requires Mapped(m0, free0, m, free, t, level, s, fr, flags, alloc)
    requires level > 1 && i < 512 && !Used(m[t][i])
    requires f in free && f in m && f != 0
    requires m2.Keys == m.Keys
    requires m2[t] == m[t][i := Entry(f, flags)]
    requires IsEmpty(m2[f])
    requires ChangedOnly(m, m2, {t, f})
    ensures Mapped(m0, free0, m2, free - {f}, t, level, s, fr, flags, alloc)
    ensures IsTree(m2, f, level - 1)
  {
    NewTable(m, m2, t, level, i, f, flags);
    EmptyTable(m2, f, level - 1);
    assert Grown(m0, free0, m2, free - {f}, t, level, Taken(fr, alloc)) by {
      assert t in Tables(m, t, level);
    }
    assert MapsLeaves(m0, m2, t, level, s, fr, flags);
    NewTablePaths(m, m2, t, level, i, f, flags);
    PathsThen(m0, m, m2, t, level, flags);
  }

  /** Structure after the hierarchy below slot `i` was mapped into. */
  lemma ChildTree(m: Memory, free: set<nat>, m2: Memory, free2: set<nat>,
                  t: nat, level: nat, i: nat, s: nat, fr: seq<nat>, flags: nat, alloc: bool)
    requires IsTree(m, t, level) && level > 1 && i < 512 && Used(m[t][i])
    requires Tables(m, t, level) !! free
    requires Mapped(m, free, m2, free2, m[t][i].addr, level - 1, s, fr, flags, alloc)
    ensures m2[t] == m[t]
    ensures IsTree(m2, t, level)
    ensures Tables(m2, t, level) == Tables(m, t, level) + Tables(m2, m[t][i].addr, level - 1)
    ensures Agree(m, m2, Others(m, m[t], i, level - 1))
  {
    TreeChild(m, t, level, i);
    TreeSplit(m, t, level, i);
    TablesInMemory(m, t, level);
    assert m[t][i := m[t][i]] == m[t];
    SlotChange(m, m2, t, level, i, m[t][i]);
  }

  lemma ChildLeaves(m: Memory, free: set<nat>, m2: Memory, free2: set<nat>,
                    t: nat, level: nat, i: nat, s: nat, fr: seq<nat>, flags: nat, alloc: bool)
    requires IsTree(m, t, level) && level > 1 && i == Index(s, level) && Used(m[t][i])
    requires Tables(m, t, level) !! free
    requires Mapped(m, free, m2, free2, m[t][i].addr, level - 1, s, fr, flags, alloc)
    requires s + |fr| <= BlockStart(Block(s, level - 1) + 1, level - 1)
    ensures MapsLeaves(m, m2, t, level, s, fr, flags)
  {
    ChildTree(m, free, m2, free2, t, level, i, s, fr, flags, alloc);
    assert m[t][i := m[t][i]] == m[t];
    BlockSplit(s, level);
    forall p: nat | Block(p, level) == Block(s, level)
      ensures Leaf(m2, t, level, p) ==
        if s <= p < s + |fr| then Entry(fr[p - s], flags) else Leaf(m, t, level, p)
    {
      BlockSplit(p, level);
      if Index(p, level) != i {
        SlotKeepsLeaf(m, m2, t, level, i, m[t][i], p);
        InBlock(p, Block(s, level - 1), level - 1);
        InBlock(s, Block(s, level - 1), level - 1);
      }
    }
  }

  lemma ChildPaths(m: Memory, free: set<nat>, m2: Memory, free2: set<nat>,
                   t: nat, level: nat, i: nat, s: nat, fr: seq<nat>, flags: nat, alloc: bool)
    requires IsTree(m, t, level) && level > 1 && i < 512 && Used(m[t][i])
    requires Tables(m, t, level) !! free
    requires Mapped(m, free, m2, free2, m[t][i].addr, level - 1, s, fr, flags, alloc)
    ensures PathsGrown(m, m2, t, level, flags)
  {
    var c := m[t][i].addr;
    ChildTree(m, free, m2, free2, t, level, i, s, fr, flags, alloc);
    assert m[t][i := m[t][i]] == m[t];
    forall p: nat
      ensures Extends(PathFlags(m, t, level, p), PathFlags(m2, t, level, p), flags)
    {
      if Index(p, level) != i {
        SlotKeepsPath(m, m2, t, level, i, m[t][i], p);
      } else {
        ExtendsBelow(m[t][i].flags, PathFlags(m, c, level - 1, p), PathFlags(m2, c, level - 1, p), flags);
      }
    }
  }

  lemma GrownThenChild(m0: Memory, free0: set<nat>, m: Memory, free: set<nat>, m2: Memory, free2: set<nat>,
                       t: nat, level: nat, i: nat, taken: set<nat>, taken2: set<nat>)
    requires Grown(m0, free0, m, free, t, level, taken)
    requires level > 1 && i < 512 && Used(m[t][i])
    requires Grown(m, free, m2, free2, m[t][i].addr, level - 1, taken2)
    requires m2[t] == m[t]
    requires IsTree(m2, t, level)
    requires Tables(m2, t, level) == Tables(m, t, level) + Tables(m2, m[t][i].addr, level - 1)
    ensures Grown(m0, free0, m2, free2, t, level, taken + taken2)
    ensures taken !! taken2
  {
    TreeChild(m, t, level, i);
  }

  lemma MapsLeavesThen(m0: Memory, m: Memory, m2: Memory, t: nat, level: nat,
                       s: nat, fr: seq<nat>, cur: nat, fr2: seq<nat>, flags: nat)
    requires MapsLeaves(m0, m, t, level, s, fr, flags)
    requires MapsLeaves(m, m2, t, level, cur, fr2, flags)
    requires cur == s + |fr| && Block(cur, level) == Block(s, level)
    ensures MapsLeaves(m0, m2, t, level, s, fr + fr2, flags)
  {
  }

  lemma TakenConcat(fr: seq<nat>, fr2: seq<nat>, alloc: bool)
    ensures Taken(fr + fr2, alloc) == Taken(fr, alloc) + Taken(fr2, alloc)
    ensures alloc && Distinct(fr) && Distinct(fr2) && Taken(fr, alloc) !! Taken(fr2, alloc) ==> Distinct(fr + fr2)
  {
    if alloc && Elems(fr) !! Elems(fr2) {
      forall j, k | 0 <= j < |fr| && 0 <= k < |fr2|
        ensures fr[j] != fr2[k]
      {
        assert fr[j] in Elems(fr) && fr2[k] in Elems(fr2);
      }
    }
  }

  /** Mapping `fr`, then `fr2` below the slot where the first run stopped, maps `fr + fr2`. */
  lemma MappedThenChild(m0: Memory, free0: set<nat>, m: Memory, free: set<nat>, m2: Memory, free2: set<nat>,
                        t: nat, level: nat, s: nat, fr: seq<nat>, i: nat, cur: nat, fr2: seq<nat>, flags: nat,
                        alloc: bool)
    requires Mapped(m0, free0, m, free, t, level, s, fr, flags, alloc)
    requires level > 1 && cur == s + |fr| && Block(cur, level) == Block(s, level)
    requires i == Index(cur, level) && Used(m[t][i])
    requires Mapped(m, free, m2, free2, m[t][i].addr, level - 1, cur, fr2, flags, alloc)
    requires cur + |fr2| <= BlockStart(Block(cur, level - 1) + 1, level - 1)
    ensures Mapped(m0, free0, m2, free2, t, level, s, fr + fr2, flags, alloc)
    ensures m2[t] == m[t]
  {
    TakenConcat(fr, fr2, alloc);
    ChildTree(m, free, m2, free2, t, level, i, cur, fr2, flags, alloc);
    GrownThenChild(m0, free0, m, free, m2, free2, t, level, i, Taken(fr, alloc), Taken(fr2, alloc));
    assert MapsLeaves(m0, m2, t, level, s, fr + fr2, flags) by {
      ChildLeaves(m, free, m2, free2, t, level, i, cur, fr2, flags, alloc);
      MapsLeavesThen(m0, m, m2, t, level, s, fr, cur, fr2, flags);
    }
    ChildPaths(m, free, m2, free2, t, level, i, cur, fr2, flags, alloc);
    PathsThen(m0, m, m2, t, level, flags);
  }

  lemma NewTableNoEmpty(m: Memory, m2: Memory, t: nat, level: nat, i: nat, f: nat, flags: nat)
    requires IsTree(m, t, level) && level > 1 && i < 512
    requires NoEmptyChild(m, t, level)
    requires f in m && f != 0 && f !in Tables(m, t, level)
    requires m2.Keys == m.Keys
    requires m2[t] == m[t][i := Entry(f, flags)]
    requires IsEmpty(m2[f])
    requires ChangedOnly(m, m2, {t, f})
    ensures NoEmptyBut(m2, t, level, i)
  {
    TreeSplit(m, t, level, i);
    TablesInMemory(m, t, level);
    EmptyTable(m2, f, level - 1);
    SlotNoEmptyBut(m, m2, t, level, i);
  }

  /** Once a page is mapped below slot `i`, no table named from `t` is empty. */
  lemma ChildNoEmpty(m: Memory, free: set<nat>, m2: Memory, free2: set<nat>,
                     t: nat, level: nat, i: nat, s: nat, fr: seq<nat>, flags: nat, alloc: bool)
    requires IsTree(m, t, level) && level > 1 && i < 512 && Used(m[t][i])
    requires Tables(m, t, level) !! free
    requires Mapped(m, free, m2, free2, m[t][i].addr, level - 1, s, fr, flags, alloc)
    requires NoEmptyBut(m, t, level, i)
    requires NoEmptyChild(m2, m[t][i].addr, level - 1)
    requires |fr| > 0 && flags != 0
    ensures NoEmptyChild(m2, t, level)
  {
    var c := m[t][i].addr;
    ChildTree(m, free, m2, free2, t, level, i, s, fr, flags, alloc);
    assert m[t][i := m[t][i]] == m[t];
    assert Leaf(m2, c, level - 1, s) == Entry(fr[0], flags);
    UsedLeafNonEmpty(m2, c, level - 1, s);
    SlotNoEmptyBut(m, m2, t, level, i);
  }
}
