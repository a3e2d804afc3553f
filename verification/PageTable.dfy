/**
  The shape of a page-table hierarchy in physical memory, and the flat map
  page -> leaf entry it stands for.  Pages and frames are numbered in units of
  4 KiB.  A table of level `l` covers `Reach(l)` pages; its entries are leaves
  when `l == 1` and name tables of level `l - 1` otherwise.
 */
module PageTable {
  import opened Arith

  /** `addr` is the number of the frame an entry names, `flags` its flag bits. */
  datatype Entry = Entry(addr: nat, flags: nat)

  const UNUSED := Entry(0, 0)

  predicate Used(e: Entry) { e != UNUSED }

  type Table = t: seq<Entry> | |t| == 512 witness seq(512, _ => UNUSED)

  /** Physical memory seen as tables: the 512 words of every frame of RAM. */
  type Memory = map<nat, Table>

  predicate IsEmpty(t: Table) { forall i :: 0 <= i < 512 ==> !Used(t[i]) }

  // ----- page numbers -----

  function Reach(level: nat): (r: nat)
    ensures r >= 1
  {
    if level == 0 then 1 else 512 * Reach(level - 1)
  }

  /** Number of the level-`level` block of pages that holds `page`. */
  function Block(page: nat, level: nat): (b: nat)
  {
    DivBounds(page, Reach(level));
    page / Reach(level)
  }

  function Index(page: nat, level: nat): (i: nat)
    requires level >= 1
    ensures i < 512
  {
    Block(page, level - 1) % 512
  }

  /** The index computed from an address by shifts and a truncation to 16 bits. */
  function PageTableIndex(virtAddr: nat, level: nat): (i: nat)
    requires level >= 1
    ensures i < 512
  {
    (Block(virtAddr / 4096, level - 1) % 65536) % 512
  }

  lemma PageTableIndexIsIndex(page: nat, offset: nat, level: nat)
    requires level >= 1 && offset < 4096
    ensures PageTableIndex(page * 4096 + offset, level) == Index(page, level)
  {
    assert (page * 4096 + offset) / 4096 == page;
    Truncated(Block(page, level - 1));
  }

  lemma Truncated(b: nat)
    ensures b % 65536 % 512 == b % 512
  {
    var q, r := b / 65536, b % 65536;
    assert b == 512 * (128 * q) + r;
  }

  lemma BlockSplit(page: nat, level: nat)
    requires level >= 1
    ensures Block(page, level - 1) == 512 * Block(page, level) + Index(page, level)
  {
    DivSplit(page, Reach(level - 1));
  }

  /** First page of a block and first page past it. */
  function BlockStart(b: nat, level: nat): nat { b * Reach(level) }

  lemma InBlock(page: nat, b: nat, level: nat)
    ensures Block(page, level) == b <==> BlockStart(b, level) <= page < BlockStart(b + 1, level)
  {
    DivBounds(page, Reach(level));
    if BlockStart(b, level) <= page < BlockStart(b + 1, level) {
      DivUnique(page, Reach(level), b);
    }
  }

  lemma BlockMono(b: nat, c: nat, level: nat)
    requires b <= c
    ensures BlockStart(b, level) <= BlockStart(c, level)
  {
  }

  lemma BlockStartSplit(b: nat, level: nat)
    requires level >= 1
    ensures BlockStart(b, level) == BlockStart(512 * b, level - 1)
  {
  }

  /** The page after the level-`level - 1` block of `page` opens the next slot of the same table. */
  lemma NextSlot(page: nat, level: nat)
    requires level >= 1
    ensures var next := BlockStart(Block(page, level - 1) + 1, level - 1);
            && page < next <= BlockStart(Block(page, level) + 1, level)
            && (if Index(page, level) < 511
                then Block(next, level) == Block(page, level) && Index(next, level) == Index(page, level) + 1
                else next == BlockStart(Block(page, level) + 1, level))
  {
    var b := Block(page, level - 1);
    var next := BlockStart(b + 1, level - 1);
    InBlock(page, b, level - 1);
    BlockMono(b + 1, b + 2, level - 1);
    assert Reach(level - 1) >= 1;
    assert BlockStart(b + 2, level - 1) == next + Reach(level - 1);
    InBlock(next, b + 1, level - 1);
    BlockSplit(page, level);
    BlockSplit(next, level);
    BlockStartSplit(Block(page, level) + 1, level);
    BlockMono(b + 1, 512 * (Block(page, level) + 1), level - 1);
  }

  /** The last page, exclusive, that a walk from `s` towards `e` reaches in its table. */
  ghost function Stop(s: nat, e: nat, level: nat): (stop: nat)
    requires s <= e
    ensures s <= stop <= e
    ensures s < e ==> s < stop
  {
    InBlock(s, Block(s, level), level);
    Min(e, BlockStart(Block(s, level) + 1, level))
  }

  /** Where a walk goes on after one slot: at the next slot of its table, or past the table. */
  lemma SlotAdvance(cur: nat, e: nat, level: nat, end: nat)
    requires level > 1 && cur <= e
    requires end == BlockStart(Block(cur, level) + 1, level)
    ensures cur <= Stop(cur, e, level - 1) <= Stop(cur, e, level) <= end
    ensures Stop(cur, e, level - 1) < e && Index(cur, level) < 511 ==>
              && Block(Stop(cur, e, level - 1), level) == Block(cur, level)
              && Index(Stop(cur, e, level - 1), level) == Index(cur, level) + 1
    ensures Stop(cur, e, level - 1) < e && Index(cur, level) == 511 ==> Stop(cur, e, level - 1) == end
  {
    NextSlot(cur, level);
  }

  // ----- trees of tables -----

  /** Frames holding the tables of the hierarchy rooted at `t`. */
  ghost function Tables(mem: Memory, t: nat, level: nat): set<nat>
    decreases level, 0
  {
    {t} + if level > 1 && t in mem then ForestTables(mem, mem[t], level - 1) else {}
  }

  /** Frames of all tables reached through the entries `es`. */
  ghost function ForestTables(mem: Memory, es: seq<Entry>, level: nat): set<nat>
    decreases level, 1
  {
    set i, f | 0 <= i < |es| && Used(es[i]) && f in Tables(mem, es[i].addr, level) :: f
  }

  /** `t` is the root of a tree of tables in which no table is shared. */
  ghost predicate IsTree(mem: Memory, t: nat, level: nat)
    decreases level, 0
  {
    && t in mem
    && t != 0
    && level >= 1
    && (level > 1 ==>
          && IsForest(mem, mem[t], level - 1)
          && t !in ForestTables(mem, mem[t], level - 1))
  }

  ghost predicate IsForest(mem: Memory, es: seq<Entry>, level: nat)
    decreases level, 1
  {
    && (forall i :: 0 <= i < |es| && Used(es[i]) ==> IsTree(mem, es[i].addr, level))
    && (forall i, j :: 0 <= i < j < |es| && Used(es[i]) && Used(es[j]) ==>
          Tables(mem, es[i].addr, level) !! Tables(mem, es[j].addr, level))
  }

  /** The tables reached through every entry but the `i`-th. */
  ghost function Others(mem: Memory, es: seq<Entry>, i: nat, level: nat): set<nat>
    requires i < |es|
  {
    ForestTables(mem, es[i := UNUSED], level)
  }

  /** The flat meaning of a hierarchy: the leaf entry of `page`. */
  ghost function Leaf(mem: Memory, t: nat, level: nat, page: nat): Entry
    decreases level
  {
    if t !in mem || level == 0 then UNUSED
    else
      var e := mem[t][Index(page, level)];
      if level == 1 || !Used(e) then e else Leaf(mem, e.addr, level - 1, page)
  }

  /** The flags of the entries above level 1 on the way to `page`, from the root down as far as there are tables. */
  ghost function PathFlags(mem: Memory, t: nat, level: nat, page: nat): seq<nat>
    decreases level
  {
    if t !in mem || level <= 1 then []
    else
      var e := mem[t][Index(page, level)];
      if !Used(e) then [] else [e.flags] + PathFlags(mem, e.addr, level - 1, page)
  }

  /** The path of tables down to level 1 exists for `page`. */
  ghost predicate HasPath(mem: Memory, t: nat, level: nat, page: nat)
    decreases level
  {
    && t in mem
    && level >= 1
    && (level > 1 ==>
          var e := mem[t][Index(page, level)];
          Used(e) && HasPath(mem, e.addr, level - 1, page))
  }

  /** No entry above level 1 names a table whose entries are all unused. */
  ghost predicate NoEmptyChild(mem: Memory, t: nat, level: nat)
    decreases level
  {
    t in mem && level > 1 ==>
      forall i :: 0 <= i < 512 && Used(mem[t][i]) ==>
        && mem[t][i].addr in mem
        && !IsEmpty(mem[mem[t][i].addr])
        && NoEmptyChild(mem, mem[t][i].addr, level - 1)
  }

  ghost predicate Agree(mem: Memory, mem2: Memory, fs: set<nat>) {
    forall f :: f in fs ==> f in mem && f in mem2 && mem[f] == mem2[f]
  }

  /** Memory changes at most in the frames `fs`. */
  ghost predicate ChangedOnly(mem: Memory, mem2: Memory, fs: set<nat>) {
    && mem.Keys == mem2.Keys
    && forall f :: f in mem && f !in fs ==> mem[f] == mem2[f]
  }

  lemma TreeChild(mem: Memory, t: nat, level: nat, i: nat)
    requires IsTree(mem, t, level) && level > 1
    requires i < 512 && Used(mem[t][i])
    ensures IsTree(mem, mem[t][i].addr, level - 1)
    ensures t !in Tables(mem, mem[t][i].addr, level - 1)
    ensures Tables(mem, mem[t][i].addr, level - 1) <= Tables(mem, t, level)
  {
  }

  lemma TablesInMemory(mem: Memory, t: nat, level: nat)
    requires IsTree(mem, t, level)
    ensures Tables(mem, t, level) <= mem.Keys
    ensures 0 !in Tables(mem, t, level)
    decreases level
  {
    if level > 1 {
      forall i | 0 <= i < 512 && Used(mem[t][i])
        ensures Tables(mem, mem[t][i].addr, level - 1) <= mem.Keys
        ensures 0 !in Tables(mem, mem[t][i].addr, level - 1)
      {
        TablesInMemory(mem, mem[t][i].addr, level - 1);
      }
    }
  }

  /** A tree depends on nothing but its own tables. */
  lemma TreeFrame(mem: Memory, mem2: Memory, t: nat, level: nat)
    requires IsTree(mem, t, level)
    requires Agree(mem, mem2, Tables(mem, t, level))
    ensures IsTree(mem2, t, level)
    ensures Tables(mem2, t, level) == Tables(mem, t, level)
    decreases level, 0
  {
    if level > 1 {
      ForestFrame(mem, mem2, mem[t], level - 1);
    }
  }

  lemma ForestFrame(mem: Memory, mem2: Memory, es: seq<Entry>, level: nat)
    requires IsForest(mem, es, level)
    requires Agree(mem, mem2, ForestTables(mem, es, level))
    ensures IsForest(mem2, es, level)
    ensures ForestTables(mem2, es, level) == ForestTables(mem, es, level)
    decreases level, 1
  {
    forall i | 0 <= i < |es| && Used(es[i])
      ensures IsTree(mem2, es[i].addr, level)
      ensures Tables(mem2, es[i].addr, level) == Tables(mem, es[i].addr, level)
    {
      TreeFrame(mem, mem2, es[i].addr, level);
    }
  }

  lemma LeafFrame(mem: Memory, mem2: Memory, t: nat, level: nat, page: nat)
    requires IsTree(mem, t, level)
    requires Agree(mem, mem2, Tables(mem, t, level))
    ensures Leaf(mem2, t, level, page) == Leaf(mem, t, level, page)
    decreases level
  {
    var e := mem[t][Index(page, level)];
    if level > 1 && Used(e) {
      LeafFrame(mem, mem2, e.addr, level - 1, page);
    }
  }

  lemma PathFrame(mem: Memory, mem2: Memory, t: nat, level: nat, page: nat)
    requires IsTree(mem, t, level)
    requires Agree(mem, mem2, Tables(mem, t, level))
    ensures PathFlags(mem2, t, level, page) == PathFlags(mem, t, level, page)
    decreases level
  {
    if level > 1 && Used(mem[t][Index(page, level)]) {
      PathFrame(mem, mem2, mem[t][Index(page, level)].addr, level - 1, page);
    }
  }

  lemma NoEmptyFrame(mem: Memory, mem2: Memory, t: nat, level: nat)
    requires IsTree(mem, t, level)
    requires Agree(mem, mem2, Tables(mem, t, level))
    requires NoEmptyChild(mem, t, level)
    ensures NoEmptyChild(mem2, t, level)
    decreases level
  {
    if level > 1 {
      forall i | 0 <= i < 512 && Used(mem[t][i])
        ensures mem2[mem[t][i].addr] == mem[mem[t][i].addr]
        ensures NoEmptyChild(mem2, mem[t][i].addr, level - 1)
      {
        NoEmptyFrame(mem, mem2, mem[t][i].addr, level - 1);
      }
    }
  }

  /** The page of block `b` with the low digits of `p`. */
  ghost function Alias(p: nat, b: nat, level: nat): (q: nat)
    decreases level
  {
    if level == 0 then b else Alias(p, 512 * b + Index(p, level), level - 1)
  }

  lemma {:induction false} AliasDigits(p: nat, b: nat, level: nat)
    ensures Block(Alias(p, b, level), level) == b
    ensures forall l :: 1 <= l <= level ==> Index(p, l) == Index(Alias(p, b, level), l)
    decreases level
  {
    var q := Alias(p, b, level);
    if level == 0 {
      assert Reach(0) == 1 && q / 1 == q;
    } else {
      AliasDigits(p, 512 * b + Index(p, level), level - 1);
      BlockSplit(q, level);
    }
  }

  /** A page is its own alias in its own block. */
  lemma {:induction false} AliasSelf(p: nat, level: nat)
    ensures Alias(p, Block(p, level), level) == p
    decreases level
  {
    if level == 0 {
      assert Reach(0) == 1 && p / 1 == p;
    } else {
      BlockSplit(p, level);
      AliasSelf(p, level - 1);
    }
  }

  /** Only the low digits of a page select its leaf. */
  lemma LeafPeriodic(mem: Memory, t: nat, level: nat, p: nat, q: nat)
    requires level >= 1
    requires forall l :: 1 <= l <= level ==> Index(p, l) == Index(q, l)
    ensures Leaf(mem, t, level, p) == Leaf(mem, t, level, q)
    decreases level
  {
    if level > 1 && t in mem && Used(mem[t][Index(p, level)]) {
      LeafPeriodic(mem, mem[t][Index(p, level)].addr, level - 1, p, q);
    }
  }

  lemma ForestSplit(mem: Memory, es: seq<Entry>, i: nat, level: nat)
    requires IsForest(mem, es, level)
    requires i < |es|
    ensures IsForest(mem, es[i := UNUSED], level)
    ensures ForestTables(mem, es, level)
         == Others(mem, es, i, level) + if Used(es[i]) then Tables(mem, es[i].addr, level) else {}
    ensures Used(es[i]) ==> Tables(mem, es[i].addr, level) !! Others(mem, es, i, level)
  {
    var rest := es[i := UNUSED];
    forall f | f in ForestTables(mem, es, level)
      ensures f in Others(mem, es, i, level)
           || (Used(es[i]) && f in Tables(mem, es[i].addr, level))
    {
      var k :| 0 <= k < |es| && Used(es[k]) && f in Tables(mem, es[k].addr, level);
      assert k != i ==> rest[k] == es[k];
    }
    forall f | f in Others(mem, es, i, level)
      ensures f in ForestTables(mem, es, level)
      ensures Used(es[i]) ==> f !in Tables(mem, es[i].addr, level)
    {
      var k :| 0 <= k < |rest| && Used(rest[k]) && f in Tables(mem, rest[k].addr, level);
      assert rest[k] == es[k];
    }
  }

  /** Replacing one entry of a forest by another tree, or by nothing. */
  lemma ForestSet(mem: Memory, mem2: Memory, es: seq<Entry>, i: nat, e: Entry, level: nat)
    requires IsForest(mem, es, level)
    requires i < |es|
    requires Agree(mem, mem2, Others(mem, es, i, level))
    requires Used(e) ==> IsTree(mem2, e.addr, level)
    requires Used(e) ==> Tables(mem2, e.addr, level) !! Others(mem, es, i, level)
    ensures IsForest(mem2, es[i := e], level)
    ensures ForestTables(mem2, es[i := e], level)
         == Others(mem, es, i, level) + if Used(e) then Tables(mem2, e.addr, level) else {}
    ensures Others(mem2, es[i := e], i, level) == Others(mem, es, i, level)
  {
    var rest, es2 := es[i := UNUSED], es[i := e];
    ForestSplit(mem, es, i, level);
    ForestFrame(mem, mem2, rest, level);
    assert es2[i := UNUSED] == rest;
    forall k | 0 <= k < |es2| && Used(es2[k])
      ensures IsTree(mem2, es2[k].addr, level)
    {
      assert k != i ==> rest[k] == es2[k];
    }
    forall k | 0 <= k < |es2| && k != i && Used(es2[k])
      ensures Tables(mem2, es2[k].addr, level) <= Others(mem, es, i, level)
    {
      assert rest[k] == es2[k];
    }
    forall j, k | 0 <= j < k < |es2| && Used(es2[j]) && Used(es2[k])
      ensures Tables(mem2, es2[j].addr, level) !! Tables(mem2, es2[k].addr, level)
    {
      if j != i && k != i {
        assert rest[j] == es2[j] && rest[k] == es2[k];
      }
    }
    ForestSplit(mem2, es2, i, level);
  }

  lemma TreeSplit(mem: Memory, t: nat, level: nat, i: nat)
    requires IsTree(mem, t, level) && level > 1 && i < 512
    ensures t !in Others(mem, mem[t], i, level - 1)
    ensures IsForest(mem, mem[t][i := UNUSED], level - 1)
    ensures Tables(mem, t, level)
         == {t} + Others(mem, mem[t], i, level - 1)
            + if Used(mem[t][i]) then Tables(mem, mem[t][i].addr, level - 1) else {}
    ensures Used(mem[t][i]) ==>
              Tables(mem, mem[t][i].addr, level - 1) !! Others(mem, mem[t], i, level - 1)
  {
    ForestSplit(mem, mem[t], i, level - 1);
  }

  /** Rewriting slot `i` of a table, with the tables below it, keeps the rest. */
  lemma SlotChange(mem: Memory, mem2: Memory, t: nat, level: nat, i: nat, e: Entry)
    requires IsTree(mem, t, level) && level > 1 && i < 512
    requires t in mem2 && mem2[t] == mem[t][i := e]
    requires Agree(mem, mem2, Others(mem, mem[t], i, level - 1))
    requires Used(e) ==> IsTree(mem2, e.addr, level - 1)
    requires Used(e) ==> Tables(mem2, e.addr, level - 1) !! Others(mem, mem[t], i, level - 1) + {t}
    ensures IsTree(mem2, t, level)
    ensures Tables(mem2, t, level)
         == {t} + Others(mem, mem[t], i, level - 1)
            + if Used(e) then Tables(mem2, e.addr, level - 1) else {}
    ensures Others(mem2, mem2[t], i, level - 1) == Others(mem, mem[t], i, level - 1)
  {
    TreeSplit(mem, t, level, i);
    ForestSet(mem, mem2, mem[t], i, e, level - 1);
  }

  lemma SlotKeepsLeaf(mem: Memory, mem2: Memory, t: nat, level: nat, i: nat, e: Entry, p: nat)
    requires IsTree(mem, t, level) && level > 1 && i < 512
    requires t in mem2 && mem2[t] == mem[t][i := e]
    requires Agree(mem, mem2, Others(mem, mem[t], i, level - 1))
    requires Index(p, level) != i
    ensures Leaf(mem2, t, level, p) == Leaf(mem, t, level, p)
  {
    var j := Index(p, level);
    var c := mem[t][j];
    if Used(c) {
      TreeChild(mem, t, level, j);
      assert mem[t][i := UNUSED][j] == c;
      LeafFrame(mem, mem2, c.addr, level - 1, p);
    }
  }

  lemma SlotKeepsPath(mem: Memory, mem2: Memory, t: nat, level: nat, i: nat, e: Entry, p: nat)
    requires IsTree(mem, t, level) && level > 1 && i < 512
    requires t in mem2 && mem2[t] == mem[t][i := e]
    requires Agree(mem, mem2, Others(mem, mem[t], i, level - 1))
    requires Index(p, level) != i
    ensures PathFlags(mem2, t, level, p) == PathFlags(mem, t, level, p)
  {
    var j := Index(p, level);
    var c := mem[t][j];
    if Used(c) {
      TreeChild(mem, t, level, j);
      assert mem[t][i := UNUSED][j] == c;
      PathFrame(mem, mem2, c.addr, level - 1, p);
    }
  }

  /** `NoEmptyChild`, except that the table behind slot `i` itself may be empty. */
  ghost predicate NoEmptyBut(mem: Memory, t: nat, level: nat, i: nat)
    requires t in mem && level > 1
  {
    forall j :: 0 <= j < 512 && Used(mem[t][j]) ==>
      && mem[t][j].addr in mem
      && (j != i ==> !IsEmpty(mem[mem[t][j].addr]))
      && NoEmptyChild(mem, mem[t][j].addr, level - 1)
  }

  /** Slots other than `i` keep their subtrees, and what slot `i` names has no empty children. */
  lemma SlotNoEmptyBut(m: Memory, m3: Memory, t: nat, level: nat, i: nat)
    requires IsTree(m, t, level) && level > 1 && i < 512
    requires t in m3 && m3[t] == m[t][i := m3[t][i]]
    requires Agree(m, m3, Others(m, m[t], i, level - 1))
    requires NoEmptyBut(m, t, level, i)
    requires Used(m3[t][i]) ==> m3[t][i].addr in m3 && NoEmptyChild(m3, m3[t][i].addr, level - 1)
    ensures NoEmptyBut(m3, t, level, i)
    ensures Used(m3[t][i]) && !IsEmpty(m3[m3[t][i].addr]) ==> NoEmptyChild(m3, t, level)
    ensures !Used(m3[t][i]) ==> NoEmptyChild(m3, t, level)
  {
    forall j | 0 <= j < 512 && j != i && Used(m[t][j])
      ensures m[t][j].addr in m3 && m3[m[t][j].addr] == m[m[t][j].addr]
      ensures NoEmptyChild(m3, m[t][j].addr, level - 1)
    {
      TreeChild(m, t, level, j);
      assert m[t][i := UNUSED][j] == m[t][j];
      NoEmptyFrame(m, m3, m[t][j].addr, level - 1);
    }
  }

  lemma UsedLeafNonEmpty(mem: Memory, t: nat, level: nat, p: nat)
    requires t in mem && level >= 1 && Used(Leaf(mem, t, level, p))
    ensures !IsEmpty(mem[t])
  {
  }

  lemma EmptyTable(mem: Memory, t: nat, level: nat)
    requires t in mem && t != 0 && IsEmpty(mem[t]) && level >= 1
    ensures IsTree(mem, t, level)
    ensures Tables(mem, t, level) == {t}
    ensures forall p :: Leaf(mem, t, level, p) == UNUSED
    ensures forall p :: PathFlags(mem, t, level, p) == []
    ensures NoEmptyChild(mem, t, level)
  {
  }

  // ----- translation -----

  /** The walk of the MMU: one table per level, a leaf at level 1. */
  function TranslateInTable(mem: Memory, t: nat, addr: nat, level: nat): (r: Option<nat>)
    requires IsTree(mem, t, level)
    decreases level
  {
    var entry := mem[t][PageTableIndex(addr / 4096 * 4096, level)];
    if !Used(entry) then None
    else if level > 1 then
      TreeChild(mem, t, level, PageTableIndex(addr / 4096 * 4096, level));
      TranslateInTable(mem, entry.addr, addr, level - 1)
    else Some(entry.addr * 4096 + (addr - addr / 4096 * 4096))
  }

  /** Translation is lookup in the flat map, with the page offset kept. */
  lemma {:induction false} TranslateIsLeaf(mem: Memory, t: nat, level: nat, page: nat, offset: nat)
    requires IsTree(mem, t, level)
    requires offset < 4096
    ensures TranslateInTable(mem, t, page * 4096 + offset, level)
         == (var e := Leaf(mem, t, level, page); if Used(e) then Some(e.addr * 4096 + offset) else None)
    decreases level
  {
    assert (page * 4096 + offset) / 4096 == page;
    PageTableIndexIsIndex(page, 0, level);
    var e := mem[t][Index(page, level)];
    if level > 1 && Used(e) {
      TranslateIsLeaf(mem, e.addr, level - 1, page, offset);
    }
  }
}
