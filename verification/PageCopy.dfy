/** Copying and dropping whole hierarchies. */
module PageCopy {
  import opened PageTable

  lemma ForestInMemory(m: Memory, es: seq<Entry>, level: nat)
    requires IsForest(m, es, level)
    ensures ForestTables(m, es, level) <= m.Keys
  {
    forall k | 0 <= k < |es| && Used(es[k])
      ensures Tables(m, es[k].addr, level) <= m.Keys
    {
      TablesInMemory(m, es[k].addr, level);
    }
  }

  lemma ForestAppend(m: Memory, es: seq<Entry>, e: Entry, level: nat)
    requires IsForest(m, es, level)
    requires Used(e) ==> IsTree(m, e.addr, level) && Tables(m, e.addr, level) !! ForestTables(m, es, level)
    ensures IsForest(m, es + [e], level)
    ensures ForestTables(m, es + [e], level)
         == ForestTables(m, es, level) + if Used(e) then Tables(m, e.addr, level) else {}
  {
    var es2 := es + [e];
    assert es2[|es|] == e;
    assert forall k :: 0 <= k < |es| ==> es2[k] == es[k];
    forall j, k | 0 <= j < k < |es2| && Used(es2[j]) && Used(es2[k])
      ensures Tables(m, es2[j].addr, level) !! Tables(m, es2[k].addr, level)
    {
      assert es2[j] == es[j];
      if k == |es| {
        assert Tables(m, es[j].addr, level) <= ForestTables(m, es, level);
      }
    }
    forall f | f in ForestTables(m, es2, level)
      ensures f in ForestTables(m, es, level) || (Used(e) && f in Tables(m, e.addr, level))
    {
      var k :| 0 <= k < |es2| && Used(es2[k]) && f in Tables(m, es2[k].addr, level);
      assert k < |es| ==> es2[k] == es[k];
    }
    forall f | f in ForestTables(m, es, level)
      ensures f in ForestTables(m, es2, level)
    {
      var k :| 0 <= k < |es| && Used(es[k]) && f in Tables(m, es[k].addr, level);
      assert es2[k] == es[k];
    }
  }

  /** The first `i` slots of a table in a tree form a forest apart from the table behind slot `i`. */
  lemma PrefixForest(m: Memory, t: nat, level: nat, i: nat)
    requires IsTree(m, t, level) && level > 1 && i <= 512
    ensures IsForest(m, m[t][..i], level - 1)
    ensures ForestTables(m, m[t][..i], level - 1) <= Tables(m, t, level) - {t}
    ensures i == 512 ==> Tables(m, t, level) == {t} + ForestTables(m, m[t][..i], level - 1)
    ensures i < 512 && Used(m[t][i]) ==>
              Tables(m, m[t][i].addr, level - 1) !! ForestTables(m, m[t][..i], level - 1)
    ensures i < 512 ==>
              ForestTables(m, m[t][..i + 1], level - 1) ==
              ForestTables(m, m[t][..i], level - 1) + if Used(m[t][i]) then Tables(m, m[t][i].addr, level - 1) else {}
  {
    var es := m[t][..i];
    assert IsForest(m, m[t], level - 1);
    assert i == 512 ==> es == m[t];
    forall k | 0 <= k < i && Used(es[k])
      ensures Tables(m, es[k].addr, level - 1) <= ForestTables(m, m[t], level - 1)
    {
      assert es[k] == m[t][k];
    }
    if i < 512 {
      assert m[t][..i + 1] == es + [m[t][i]];
      ForestAppend(m, es, m[t][i], level - 1);
    }
  }

  // ----- copying -----

  /** The hierarchy at `dst` is a copy of the one at `src`, built from `dst` and free frames only. */
  ghost predicate Copied(m0: Memory, free0: set<nat>, m: Memory, free: set<nat>, src: nat, dst: nat, level: nat)
    requires src in m0
  {
    && IsTree(m, dst, level)
    && ChangedOnly(m0, m, {dst} + free0)
    && Tables(m, dst, level) <= {dst} + free0
    && free == free0 - Tables(m, dst, level)
    && (forall j :: 0 <= j < 512 ==> Used(m[dst][j]) == Used(m0[src][j]))
    && (forall p: nat :: Leaf(m, dst, level, p) == Leaf(m0, src, level, p))
    && (forall p: nat :: PathFlags(m, dst, level, p) == PathFlags(m0, src, level, p))
    && (NoEmptyChild(m0, src, level) ==> NoEmptyChild(m, dst, level))
  }

  ghost predicate SlotCopied(m0: Memory, m: Memory, e0: Entry, e: Entry, level: nat) {
    && Used(e) == Used(e0) && e.flags == e0.flags
    && (Used(e) ==>
          && e0.addr in m0 && e.addr in m
          && (forall j :: 0 <= j < 512 ==> Used(m[e.addr][j]) == Used(m0[e0.addr][j]))
          && (forall p: nat :: Leaf(m, e.addr, level, p) == Leaf(m0, e0.addr, level, p))
          && (forall p: nat :: PathFlags(m, e.addr, level, p) == PathFlags(m0, e0.addr, level, p))
          && (NoEmptyChild(m0, e0.addr, level) ==> NoEmptyChild(m, e.addr, level)))
  }

  /** The first `i` slots are copied; the later slots of `dst` still hold garbage. */
  ghost predicate CopiedUpTo(m0: Memory, free0: set<nat>, m: Memory, free: set<nat>, src: nat, dst: nat, level: nat,
                             i: nat)
    requires src in m0 && level > 1 && i <= 512
  {
    && ChangedOnly(m0, m, {dst} + free0)
    && dst in m
    && IsForest(m, m[dst][..i], level - 1)
    && ForestTables(m, m[dst][..i], level - 1) <= free0
    && free == free0 - ForestTables(m, m[dst][..i], level - 1)
    && forall j :: 0 <= j < i ==> SlotCopied(m0, m, m0[src][j], m[dst][j], level - 1)
  }

  lemma SlotCopiedFrame(m0: Memory, m: Memory, m2: Memory, e0: Entry, e: Entry, level: nat)
    requires SlotCopied(m0, m, e0, e, level)
    requires Used(e) ==> IsTree(m, e.addr, level) && Agree(m, m2, Tables(m, e.addr, level))
    ensures SlotCopied(m0, m2, e0, e, level)
  {
    if Used(e) {
      forall p: nat
        ensures Leaf(m2, e.addr, level, p) == Leaf(m, e.addr, level, p)
        ensures PathFlags(m2, e.addr, level, p) == PathFlags(m, e.addr, level, p)
      {
        LeafFrame(m, m2, e.addr, level, p);
        PathFrame(m, m2, e.addr, level, p);
      }
      if NoEmptyChild(m, e.addr, level) {
        NoEmptyFrame(m, m2, e.addr, level);
      }
    }
  }

  /** Copying one more slot. */
  lemma CopySlot(m0: Memory, free0: set<nat>, m: Memory, free: set<nat>, m2: Memory, free2: set<nat>,
                 src: nat, dst: nat, level: nat, i: nat)
    requires src in m0 && level > 1 && i < 512
    requires CopiedUpTo(m0, free0, m, free, src, dst, level, i)
    requires dst !in free0
    requires ChangedOnly(m, m2, {dst} + free)
    requires m2[dst][..i] == m[dst][..i]
    requires SlotCopied(m0, m2, m0[src][i], m2[dst][i], level - 1)
    requires var e := m2[dst][i];
             if Used(e)
             then IsTree(m2, e.addr, level - 1) && Tables(m2, e.addr, level - 1) <= free
               && free2 == free - Tables(m2, e.addr, level - 1)
             else free2 == free
    ensures CopiedUpTo(m0, free0, m2, free2, src, dst, level, i + 1)
  {
    var es, e, below := m[dst][..i], m2[dst][i], level - 1;
    assert Agree(m, m2, ForestTables(m, es, below)) by {
      ForestInMemory(m, es, below);
    }
    ForestGrown(m, m2, es, e, m2[dst][..i + 1], below, free0, free, free2);
    SlotsKept(m0, m, m2, m0[src], es, m2[dst], below, i);
  }

  /** A tree built from free frames joins the forest. */
  lemma ForestGrown(m: Memory, m2: Memory, es: seq<Entry>, e: Entry, es2: seq<Entry>, level: nat,
                    free0: set<nat>, free: set<nat>, free2: set<nat>)
    requires IsForest(m, es, level) && Agree(m, m2, ForestTables(m, es, level)) && es2 == es + [e]
    requires ForestTables(m, es, level) <= free0 && free == free0 - ForestTables(m, es, level)
    requires if Used(e) then IsTree(m2, e.addr, level) && Tables(m2, e.addr, level) <= free
             && free2 == free - Tables(m2, e.addr, level)
             else free2 == free
    ensures IsForest(m2, es2, level)
    ensures ForestTables(m2, es2, level) <= free0 && free2 == free0 - ForestTables(m2, es2, level)
  {
    ForestFrame(m, m2, es, level);
    ForestAppend(m2, es, e, level);
  }

  /** Slots copied before stay copied while their tables stay as they are. */
  lemma SlotsKept(m0: Memory, m: Memory, m2: Memory, source: Table, es: seq<Entry>, target: Table, level: nat, i: nat)
    requires i <= 512 && |es| == i && target[..i] == es && IsForest(m, es, level)
    requires Agree(m, m2, ForestTables(m, es, level))
    requires forall j :: 0 <= j < i ==> SlotCopied(m0, m, source[j], es[j], level)
    ensures forall j :: 0 <= j < i ==> SlotCopied(m0, m2, source[j], target[j], level)
  {
    forall j | 0 <= j < i
      ensures SlotCopied(m0, m2, source[j], target[j], level)
    {
      assert target[j] == target[..i][j] == es[j];
      SlotCopiedFrame(m0, m, m2, source[j], es[j], level);
    }
  }

  lemma CopyComplete(m0: Memory, free0: set<nat>, m: Memory, free: set<nat>, src: nat, dst: nat, level: nat)
    requires src in m0 && level > 1 && dst != 0 && dst !in free0
    requires CopiedUpTo(m0, free0, m, free, src, dst, level, 512)
    ensures Copied(m0, free0, m, free, src, dst, level)
  {
    assert m[dst][..512] == m[dst];
    forall p: nat
      ensures Leaf(m, dst, level, p) == Leaf(m0, src, level, p)
      ensures PathFlags(m, dst, level, p) == PathFlags(m0, src, level, p)
    {
      var j := Index(p, level);
      assert SlotCopied(m0, m, m0[src][j], m[dst][j], level - 1);
    }
    forall j | 0 <= j < 512
      ensures Used(m[dst][j]) == Used(m0[src][j])
    {
      assert SlotCopied(m0, m, m0[src][j], m[dst][j], level - 1);
    }
    if NoEmptyChild(m0, src, level) {
      forall j | 0 <= j < 512 && Used(m[dst][j])
        ensures m[dst][j].addr in m && !IsEmpty(m[m[dst][j].addr]) && NoEmptyChild(m, m[dst][j].addr, level - 1)
      {
        assert SlotCopied(m0, m, m0[src][j], m[dst][j], level - 1);
        var k :| 0 <= k < 512 && Used(m0[m0[src][j].addr][k]);
        assert Used(m[m[dst][j].addr][k]);
      }
    }
  }

  lemma CopiedChild(m0: Memory, m: Memory, m2: Memory, e0: Entry, e: Entry, level: nat)
    requires IsTree(m0, e0.addr, level) && Agree(m0, m, Tables(m0, e0.addr, level))
    requires Used(e0) && Used(e) && e.flags == e0.flags && e.addr in m2
    requires (forall j :: 0 <= j < 512 ==> Used(m2[e.addr][j]) == Used(m[e0.addr][j]))
    requires (forall p: nat :: Leaf(m2, e.addr, level, p) == Leaf(m, e0.addr, level, p))
    requires (forall p: nat :: PathFlags(m2, e.addr, level, p) == PathFlags(m, e0.addr, level, p))
    requires (NoEmptyChild(m, e0.addr, level) ==> NoEmptyChild(m2, e.addr, level))
    ensures SlotCopied(m0, m2, e0, e, level)
  {
    forall p: nat
      ensures Leaf(m, e0.addr, level, p) == Leaf(m0, e0.addr, level, p)
      ensures PathFlags(m, e0.addr, level, p) == PathFlags(m0, e0.addr, level, p)
    {
      LeafFrame(m0, m, e0.addr, level, p);
      PathFrame(m0, m, e0.addr, level, p);
    }
    if NoEmptyChild(m0, e0.addr, level) {
      NoEmptyFrame(m0, m, e0.addr, level);
    }
  }

  /** Copying one more used slot: `f` is allocated for it and becomes a copy of its table. */
  lemma CopyUsedSlot(m0: Memory, free0: set<nat>, m: Memory, free: set<nat>, m1: Memory, m2: Memory, free2: set<nat>,
                     src: nat, dst: nat, level: nat, i: nat, f: nat)
    requires IsTree(m0, src, level) && Tables(m0, src, level) !! free0 && dst !in Tables(m0, src, level)
    requires level > 1 && i < 512 && Used(m0[src][i])
    requires CopiedUpTo(m0, free0, m, free, src, dst, level, i)
    requires dst !in free0 && f in free && f != 0
    requires ChangedOnly(m, m1, {dst, f}) && m1[dst] == m[dst][i := Entry(f, m0[src][i].flags)]
    requires m0[src][i].addr in m1
    requires Copied(m1, free - {f}, m2, free2, m0[src][i].addr, f, level - 1)
    ensures CopiedUpTo(m0, free0, m2, free2, src, dst, level, i + 1)
  {
    var c := m0[src][i].addr;
    TreeChild(m0, src, level, i);
    TablesInMemory(m0, src, level);
    assert Agree(m0, m1, Tables(m0, c, level - 1));
    assert m2[dst] == m1[dst];
    assert m2[dst][..i] == m[dst][..i];
    CopiedChild(m0, m1, m2, m0[src][i], m2[dst][i], level - 1);
    CopySlot(m0, free0, m, free, m2, free2, src, dst, level, i);
  }

  // ----- dropping -----

  /** The tables behind the first `i` slots of `t` are free; the rest of memory is as in `m0`. */
  ghost predicate DroppedUpTo(m0: Memory, free0: set<nat>, m: Memory, free: set<nat>, t: nat, level: nat, i: nat)
    requires t in m0 && level > 1 && i <= 512
  {
    var below := ForestTables(m0, m0[t][..i], level - 1);
    && free == free0 + below
    && ChangedOnly(m0, m, below)
  }

  lemma DropSlot(m0: Memory, free0: set<nat>, m: Memory, free: set<nat>, t: nat, level: nat, i: nat)
    requires IsTree(m0, t, level) && level > 1 && i < 512
    requires Tables(m0, t, level) !! free0
    requires DroppedUpTo(m0, free0, m, free, t, level, i)
    ensures m[t][i] == m0[t][i]
    ensures !Used(m0[t][i]) <==> m0[t][i].addr == 0
    ensures !Used(m0[t][i]) ==> DroppedUpTo(m0, free0, m, free, t, level, i + 1)
    ensures Used(m0[t][i]) ==>
              var c := m0[t][i].addr;
              IsTree(m, c, level - 1) && Tables(m, c, level - 1) == Tables(m0, c, level - 1)
                && Tables(m, c, level - 1) !! free
  {
    PrefixForest(m0, t, level, i);
    if Used(m0[t][i]) {
      TablesInMemory(m0, t, level);
      TreeChild(m0, t, level, i);
      TreeFrame(m0, m, m0[t][i].addr, level - 1);
    }
  }

  lemma DroppedSlot(m0: Memory, free0: set<nat>, m: Memory, free: set<nat>, m2: Memory, t: nat, level: nat, i: nat,
                    c: nat)
    requires IsTree(m0, t, level) && level > 1 && i < 512
    requires DroppedUpTo(m0, free0, m, free, t, level, i)
    requires Used(m0[t][i]) && c == m0[t][i].addr
    requires ChangedOnly(m, m2, Tables(m0, c, level - 1))
    ensures DroppedUpTo(m0, free0, m2, free + Tables(m0, c, level - 1), t, level, i + 1)
  {
    PrefixForest(m0, t, level, i);
  }
}
