/** The page-table routines of the kernel, working in place on physical memory. */
module Paging {
  import opened Arith
  import opened PageTable
  import opened PageMap
  import opened PageUnmap
  import opened PageCopy

  datatype MemorySpace = Kernel | User

  ghost predicate Allocating(space: MemorySpace, fs: nat, fe: nat) { space.User? && fs == fe }

  /** What the frames mapped in page order are, for each way of mapping. */
  ghost predicate FramesFor(fr: seq<nat>, space: MemorySpace, fs: nat, fe: nat, s: nat) {
    && (space.Kernel? ==> forall k :: 0 <= k < |fr| ==> fr[k] == s + k)
    && (space.User? && fs < fe ==> forall k :: 0 <= k < |fr| ==> fr[k] == fs + k)
  }

  lemma ElemsSnoc(fr: seq<nat>, f: nat)
    requires Distinct(fr) && f !in Elems(fr)
    ensures Distinct(fr + [f]) && Elems(fr + [f]) == Elems(fr) + {f}
  {
  }

  lemma FramesThen(fr: seq<nat>, more: seq<nat>, space: MemorySpace, fs: nat, fe: nat, s: nat, frame: nat, cur: nat)
    requires FramesFor(fr, space, fs, fe, s) && FramesFor(more, space, frame, fe, cur)
    requires cur == s + |fr| && (fs < fe && more != [] ==> frame == fs + |fr| < fe)
    ensures FramesFor(fr + more, space, fs, fe, s)
  {
  }

  lemma LevelOne(m0: Memory, m: Memory, t: nat, s: nat, fr: seq<nat>, flags: nat)
    requires t in m0 && t in m
    requires Index(s, 1) + |fr| <= 512
    requires forall j :: 0 <= j < 512 ==>
               m[t][j] == if Index(s, 1) <= j < Index(s, 1) + |fr| then Entry(fr[j - Index(s, 1)], flags) else m0[t][j]
    ensures MapsLeaves(m0, m, t, 1, s, fr, flags)
    ensures Min(s + |fr|, BlockStart(Block(s, 1) + 1, 1)) == s + |fr|
  {
  }

  /** The first `count` leaves from `start` on are cleared, and their frames free if they are to be freed. */
  ghost predicate LeavesCleared(m0: Memory, free0: set<nat>, m: Memory, free: set<nat>, t: nat, before: Table,
                                start: nat, count: nat, freePhysical: bool)
    requires start + count <= 512
  {
    var fs := SlotFrames(before, start, count, freePhysical);
    && m.Keys == m0.Keys && t in m && t !in fs
    && free == free0 + fs && ChangedOnly(m0, m, {t} + fs)
    && Cleared(before, m[t], start, count)
  }

  lemma LeafCleared(m0: Memory, free0: set<nat>, m1: Memory, free1: set<nat>, m: Memory, free: set<nat>, t: nat,
                    before: Table, start: nat, count: nat, freePhysical: bool)
    requires start + count < 512 && LeavesCleared(m0, free0, m1, free1, t, before, start, count, freePhysical)
    requires m.Keys == m1.Keys && m[t] == m1[t][start + count := UNUSED]
    requires var f := before[start + count];
             var x := if freePhysical && Used(f) then {f.addr} else {};
             t !in x && free == free1 + x && ChangedOnly(m1, m, {t} + x)
    ensures LeavesCleared(m0, free0, m, free, t, before, start, count + 1, freePhysical)
  {
  }

  /** A fresh empty table hung into slot `i` changes nothing that is mapped. */
  lemma TableHung(m0: Memory, free0: set<nat>, m: Memory, free: set<nat>, m2: Memory, t: nat, level: nat,
                  s: nat, fr: seq<nat>, flags: nat, alloc: bool, i: nat, f: nat)
    requires Mapped(m0, free0, m, free, t, level, s, fr, flags, alloc) && level > 1 && i < 512 && t !in free
    requires !Used(m[t][i]) && f in free && f in m && f != 0
    requires m2.Keys == m.Keys && m2[t] == m[t][i := Entry(f, flags)] && IsEmpty(m2[f]) && ChangedOnly(m, m2, {t, f})
    ensures Mapped(m0, free0, m2, free - {f}, t, level, s, fr, flags, alloc)
    ensures NoEmptyChild(m, t, level) ==> NoEmptyBut(m2, t, level, i)
  {
    MappedNewTable(m0, free0, m, free, m2, t, level, s, fr, flags, alloc, i, f);
    if NoEmptyChild(m, t, level) {
      NewTableNoEmpty(m, m2, t, level, i, f, flags);
    }
  }

  lemma SlotMappable(m: Memory, free: set<nat>, t: nat, level: nat, i: nat)
    requires IsTree(m, t, level) && Tables(m, t, level) !! free && level > 1 && i < 512 && Used(m[t][i])
    ensures IsTree(m, m[t][i].addr, level - 1) && Tables(m, m[t][i].addr, level - 1) !! free
  {
    TreeChild(m, t, level, i);
  }

  /** What the call behind slot `i` adds to the range mapped so far. */
  lemma SlotMapped(m0: Memory, free0: set<nat>, m1: Memory, free1: set<nat>, m: Memory, free: set<nat>, t: nat,
                   level: nat, s: nat, fr: seq<nat>, i: nat, cur: nat, e: nat, more: seq<nat>, flags: nat, alloc: bool)
    requires Mapped(m0, free0, m1, free1, t, level, s, fr, flags, alloc) && Tables(m1, t, level) !! free1
    requires level > 1 && cur == s + |fr| && cur <= e && Block(cur, level) == Block(s, level)
    requires i == Index(cur, level) && Used(m1[t][i])
    requires Mapped(m1, free1, m, free, m1[t][i].addr, level - 1, cur, more, flags, alloc)
    requires |more| == Stop(cur, e, level - 1) - cur
    requires cur < e && flags != 0 && NoEmptyChild(m1, m1[t][i].addr, level - 1) ==>
               NoEmptyChild(m, m1[t][i].addr, level - 1)
    ensures Mapped(m0, free0, m, free, t, level, s, fr + more, flags, alloc)
    ensures cur < e && flags != 0 && NoEmptyBut(m1, t, level, i) ==> NoEmptyChild(m, t, level)
  {
    MappedThenChild(m0, free0, m1, free1, m, free, t, level, s, fr, i, cur, more, flags, alloc);
    if cur < e && flags != 0 && NoEmptyBut(m1, t, level, i) {
      ChildNoEmpty(m1, free1, m, free, t, level, i, cur, more, flags, alloc);
    }
  }

  class Machine {
    /** Contents of every frame of RAM, seen as a page table. */
    var mem: Memory
    /** Frames the frame allocator would hand out. */
    var free: set<nat>

    ghost predicate Ok()
      reads this
    {
      free <= mem.Keys && 0 !in free
    }

    /** `alloc_frames(1)`: some free frame, with whatever it last held; `None` is the out-of-memory panic. */
    method AllocFrame() returns (r: Option<nat>)
      requires Ok()
      modifies this
      ensures Ok()
      ensures r.None? ==> free == old(free) == {} && mem == old(mem)
      ensures r.Some? ==>
                && r.value in old(free)
                && free == old(free) - {r.value}
                && ChangedOnly(old(mem), mem, {r.value})
    {
      if free == {} {
        return None;
      }
      var f :| f in free;
      var garbage: Table := *;
      free := free - {f};
      mem := mem[f := garbage];
      return Some(f);
    }

    method SetEntry(t: nat, i: nat, e: Entry)
      requires t in mem && i < 512
      modifies this`mem
      ensures mem == old(mem)[t := old(mem)[t][i := e]]
    {
      mem := mem[t := mem[t][i := e]];
    }

    method IdentityMapKernel(t: nat, s: nat, e: nat, flags: nat) returns (n: nat, ghost fr: seq<nat>)
      requires Ok() && IsTree(mem, t, 1) && t !in free
      requires s <= e
      modifies this
      ensures Ok()
      ensures n == |fr| == Stop(s, e, 1) - s
      ensures FramesFor(fr, Kernel, 0, 0, s)
      ensures Mapped(old(mem), old(free), mem, free, t, 1, s, fr, flags, false)
    {
      var start := Index(s, 1);
      n := Min(e - s, 512 - start);
      var frameAddr := s;
      fr := [];
      for count := 0 to n
        invariant frameAddr == s + count
        invariant |fr| == count && forall k :: 0 <= k < count ==> fr[k] == s + k
        invariant free == old(free) && ChangedOnly(old(mem), mem, {t})
        invariant forall j :: 0 <= j < 512 ==>
                    mem[t][j] == if start <= j < start + count then Entry(fr[j - start], flags) else old(mem)[t][j]
      {
        SetEntry(t, start + count, Entry(frameAddr, flags));
        fr := fr + [frameAddr];
        frameAddr := frameAddr + 1;
      }
      LevelOne(old(mem), mem, t, s, fr, flags);
      BlockSplit(s, 1);
    }

    method MapUserPhysical(t: nat, fs: nat, fe: nat, s: nat, e: nat, flags: nat) returns (n: nat, ghost fr: seq<nat>)
      requires Ok() && IsTree(mem, t, 1) && t !in free
      requires s <= e && fs < fe && fe - fs == e - s
      modifies this
      ensures Ok()
      ensures n == |fr| == Stop(s, e, 1) - s
      ensures FramesFor(fr, User, fs, fe, s)
      ensures Mapped(old(mem), old(free), mem, free, t, 1, s, fr, flags, false)
    {
      var start := Index(s, 1);
      n := Min(e - s, 512 - start);
      var next := fs;
      fr := [];
      for count := 0 to n
        invariant next == fs + count
        invariant |fr| == count && forall k :: 0 <= k < count ==> fr[k] == fs + k
        invariant free == old(free) && ChangedOnly(old(mem), mem, {t})
        invariant forall j :: 0 <= j < 512 ==>
                    mem[t][j] == if start <= j < start + count then Entry(fr[j - start], flags) else old(mem)[t][j]
      {
        SetEntry(t, start + count, Entry(next, flags));
        fr := fr + [next];
        next := next + 1;
      }
      LevelOne(old(mem), mem, t, s, fr, flags);
      BlockSplit(s, 1);
    }

    method MapUser(t: nat, s: nat, e: nat, flags: nat) returns (ok: bool, n: nat, ghost fr: seq<nat>)
      requires Ok() && IsTree(mem, t, 1) && t !in free
      requires s <= e
      modifies this
      ensures Ok()
      ensures !ok ==> free == {}
      ensures ok ==> n == |fr| == Stop(s, e, 1) - s
      ensures ok ==> Mapped(old(mem), old(free), mem, free, t, 1, s, fr, flags, true)
    {
      var start := Index(s, 1);
      n := Min(e - s, 512 - start);
      fr := [];
      ok := true;
      for count := 0 to n
        invariant ok && Ok()
        invariant |fr| == count && Distinct(fr) && Elems(fr) <= old(free)
        invariant free == old(free) - Elems(fr)
        invariant ChangedOnly(old(mem), mem, {t} + old(free))
        invariant forall j :: 0 <= j < 512 ==>
                    mem[t][j] == if start <= j < start + count then Entry(fr[j - start], flags) else old(mem)[t][j]
      {
        var r := AllocFrame();
        if r.None? {
          return false, n, fr;
        }
        SetEntry(t, start + count, Entry(r.value, flags));
        ElemsSnoc(fr, r.value);
        fr := fr + [r.value];
      }
      LevelOne(old(mem), mem, t, s, fr, flags);
      BlockSplit(s, 1);
    }

    /** The table behind slot `i`, allocated and zeroed first if the slot is unused. */
    method NextLevelTable(t: nat, level: nat, i: nat, flags: nat,
                          ghost m0: Memory, ghost free0: set<nat>, ghost s: nat, ghost fr: seq<nat>, ghost alloc: bool)
      returns (r: Option<nat>)
      requires Ok() && level > 1 && i < 512
      requires Mapped(m0, free0, mem, free, t, level, s, fr, flags, alloc)
      requires t !in free
      modifies this
      ensures Ok()
      ensures r.None? ==> free == {}
      ensures r.Some? ==>
                && Mapped(m0, free0, mem, free, t, level, s, fr, flags, alloc)
                && Used(mem[t][i]) && mem[t][i].addr == r.value
                && mem[t] == old(mem)[t][i := mem[t][i]]
                && (NoEmptyChild(old(mem), t, level) ==> NoEmptyBut(mem, t, level, i))
    {
      if Used(mem[t][i]) {
        return Some(mem[t][i].addr);
      }
      var a := AllocFrame();
      if a.None? {
        return None;
      }
      var f := a.value;
      SetEntry(t, i, Entry(f, flags));
      var zero: Table := seq(512, _ => UNUSED);
      mem := mem[f := zero];
      TableHung(m0, free0, old(mem), old(free), mem, t, level, s, fr, flags, alloc, i, f);
      return Some(f);
    }

    method MapLevelOne(t: nat, fs: nat, fe: nat, s: nat, e: nat, space: MemorySpace, flags: nat)
      returns (ok: bool, n: nat, ghost fr: seq<nat>)
      requires Ok() && IsTree(mem, t, 1) && t !in free
      requires s <= e && fs <= fe
      requires fs < fe ==> fe - fs == e - s
      modifies this
      ensures Ok()
      ensures !ok ==> free == {}
      ensures ok ==> n == |fr| == Stop(s, e, 1) - s
      ensures ok ==> FramesFor(fr, space, fs, fe, s)
      ensures ok ==> Mapped(old(mem), old(free), mem, free, t, 1, s, fr, flags, Allocating(space, fs, fe))
    {
      ok := true;
      match space
      case Kernel =>
        n, fr := IdentityMapKernel(t, s, e, flags);
      case User =>
        if fs == fe {
          ok, n, fr := MapUser(t, s, e, flags);
        } else {
          n, fr := MapUserPhysical(t, fs, fe, s, e, flags);
        }
    }

    /** One turn of the loop over the slots of an upper-level table. */
    method MapSlot(t: nat, i: nat, frame: nat, fe: nat, cur: nat, e: nat, space: MemorySpace, flags: nat, level: nat,
                   ghost m0: Memory, ghost free0: set<nat>, ghost s: nat, ghost fr: seq<nat>)
      returns (ok: bool, count: nat, ghost more: seq<nat>)
      requires Ok() && level > 1 && i < 512 && t !in free
      requires cur <= e && frame <= fe
      requires frame < fe ==> fe - frame == e - cur
      requires Mapped(m0, free0, mem, free, t, level, s, fr, flags, Allocating(space, frame, fe))
      requires cur == s + |fr| && Block(cur, level) == Block(s, level) && i == Index(cur, level)
      modifies this
      ensures Ok()
      ensures !ok ==> free == {}
      ensures ok ==> count == |more| == Stop(cur, e, level - 1) - cur
      ensures ok ==> FramesFor(more, space, frame, fe, cur)
      ensures ok ==> Mapped(m0, free0, mem, free, t, level, s, fr + more, flags, Allocating(space, frame, fe))
      ensures ok && cur < e && flags != 0 && NoEmptyChild(old(mem), t, level) ==> NoEmptyChild(mem, t, level)
      decreases level, 0
    {
      ghost var alloc := Allocating(space, frame, fe);
      var next := NextLevelTable(t, level, i, flags, m0, free0, s, fr, alloc);
      if next.None? {
        return false, 0, [];
      }
      ghost var m1, free1 := mem, free;
      SlotMappable(mem, free, t, level, i);
      ok, count, more := MapInTable(next.value, frame, fe, cur, e, space, flags, level - 1);
      if ok {
        SlotMapped(m0, free0, m1, free1, mem, free, t, level, s, fr, i, cur, e, more, flags, alloc);
      }
    }

    method MapInTable(t: nat, fs: nat, fe: nat, s: nat, e: nat, space: MemorySpace, flags: nat, level: nat)
      returns (ok: bool, n: nat, ghost fr: seq<nat>)
      requires Ok() && IsTree(mem, t, level) && Tables(mem, t, level) !! free
      requires s <= e && fs <= fe
      requires fs < fe ==> fe - fs == e - s
      modifies this
      ensures Ok()
      ensures !ok ==> free == {}
      ensures ok ==> n == |fr| == Stop(s, e, level) - s
      ensures ok ==> FramesFor(fr, space, fs, fe, s)
      ensures ok ==> Mapped(old(mem), old(free), mem, free, t, level, s, fr, flags, Allocating(space, fs, fe))
      ensures ok && s < e && flags != 0 && NoEmptyChild(old(mem), t, level) ==> NoEmptyChild(mem, t, level)
      decreases level, 2
    {
      if level == 1 {
        ok, n, fr := MapLevelOne(t, fs, fe, s, e, space, flags);
      } else {
        ok, n, fr := MapUpper(t, fs, fe, s, e, space, flags, level);
      }
    }

    /** The loop of `map_in_table` over the slots of an upper-level table. */
    method MapUpper(t: nat, fs: nat, fe: nat, s: nat, e: nat, space: MemorySpace, flags: nat, level: nat)
      returns (ok: bool, n: nat, ghost fr: seq<nat>)
      requires Ok() && IsTree(mem, t, level) && Tables(mem, t, level) !! free
      requires level > 1 && s <= e && fs <= fe
      requires fs < fe ==> fe - fs == e - s
      modifies this
      ensures Ok()
      ensures !ok ==> free == {}
      ensures ok ==> n == |fr| == Stop(s, e, level) - s
      ensures ok ==> FramesFor(fr, space, fs, fe, s)
      ensures ok ==> Mapped(old(mem), old(free), mem, free, t, level, s, fr, flags, Allocating(space, fs, fe))
      ensures ok && s < e && flags != 0 && NoEmptyChild(old(mem), t, level) ==> NoEmptyChild(mem, t, level)
      decreases level, 1
    {
      ghost var alloc := Allocating(space, fs, fe);
      ghost var end := BlockStart(Block(s, level) + 1, level);
      var i := Index(s, level);
      var cur, frame := s, fs;
      ok, n, fr := true, 0, [];
      MappedNothing(mem, free, t, level, s, flags, alloc);
      while i < 512
        invariant 0 <= i <= 512 && ok && Ok() && t !in free
        invariant n == |fr| && cur == s + n && cur <= e
        invariant frame <= fe && (if fs < fe then frame == fs + n else frame == fs)
        invariant cur == s || cur < e
        invariant if i < 512 then Block(cur, level) == Block(s, level) && Index(cur, level) == i else cur == end
        invariant FramesFor(fr, space, fs, fe, s)
        invariant Mapped(old(mem), old(free), mem, free, t, level, s, fr, flags, alloc)
        invariant s < e && flags != 0 && NoEmptyChild(old(mem), t, level) ==> NoEmptyChild(mem, t, level)
      {
        var count;
        ghost var more;
        ok, count, more := MapSlot(t, i, frame, fe, cur, e, space, flags, level, old(mem), old(free), s, fr);
        if !ok {
          return;
        }
        ghost var stop := Stop(cur, e, level - 1);
        SlotAdvance(cur, e, level, end);
        FramesThen(fr, more, space, fs, fe, s, frame, cur);
        fr := fr + more;
        cur := cur + count;
        assert cur == stop;
        n := n + count;
        if fe > frame {
          frame := frame + count;
        }
        if cur >= e {
          break;
        }
        i := i + 1;
      }
    }

    /** `free_frames` of one frame; the free list keeps its own data in the frame. */
    method FreeFrame(f: nat)
      requires Ok()
      requires f in mem && f != 0 && f !in free
      modifies this
      ensures Ok()
      ensures free == old(free) + {f}
      ensures ChangedOnly(old(mem), mem, {f})
    {
      var node: Table := *;
      free := free + {f};
      mem := mem[f := node];
    }

    /** Clears one leaf entry, giving its frame back if asked to. */
    method ClearEntry(t: nat, j: nat, freePhysical: bool)
      requires Ok() && t in mem && j < 512
      requires freePhysical && Used(mem[t][j]) ==>
                 var f := mem[t][j].addr;
                 f in mem && f != 0 && f !in free && f != t
      modifies this
      ensures Ok() && mem.Keys == old(mem).Keys && mem[t] == old(mem)[t][j := UNUSED]
      ensures var x := if freePhysical && Used(old(mem)[t][j]) then {old(mem)[t][j].addr} else {};
              free == old(free) + x && ChangedOnly(old(mem), mem, {t} + x)
    {
      var entry := mem[t][j];
      if entry != UNUSED {
        if freePhysical {
          FreeFrame(entry.addr);
        }
        SetEntry(t, j, UNUSED);
      }
    }

    method UnmapLevelOne(t: nat, s: nat, e: nat, freePhysical: bool, ghost b: nat, ghost w: Walk, ghost freed: set<nat>)
      returns (n: nat)
      requires Ok() && IsTree(mem, t, 1) && t !in free && s <= e
      requires w == Visit(mem, t, 1, b, s, e) && freed == Freed(mem, t, 1, w.pages, freePhysical)
      requires freePhysical ==> Freeable(mem, free, t, 1, w.pages)
      modifies this
      ensures Ok()
      ensures n == w.count
      ensures Unmapped(old(mem), old(free), mem, free, t, 1, b, w.pages, freed)
    {
      var start := Index(s, 1);
      n := Min(e - s, 512 - start);
      ghost var before := mem[t];
      for count := 0 to n
        invariant Ok()
        invariant LeavesCleared(old(mem), old(free), mem, free, t, before, start, count, freePhysical)
      {
        if freePhysical && mem[t][start + count] != UNUSED {
          SlotFreeable(old(mem), old(free), t, b, s, e, count);
        }
        ghost var m1, free1 := mem, free;
        ClearEntry(t, start + count, freePhysical);
        LeafCleared(old(mem), old(free), m1, free1, mem, free, t, before, start, count, freePhysical);
      }
      LevelOneUnmapped(old(mem), old(free), mem, free, t, b, s, e, freePhysical);
    }

    method IsTableEmpty(t: nat) returns (empty: bool)
      requires t in mem
      ensures empty == IsEmpty(mem[t])
    {
      for i := 0 to 512
        invariant forall j :: 0 <= j < i ==> !Used(mem[t][j])
      {
        if mem[t][i] != UNUSED {
          return false;
        }
      }
      return true;
    }

    /** Gives an empty child table back and clears its slot. */
    method DropIfEmpty(t: nat, i: nat)
      requires Ok() && t in mem && i < 512
      requires var c := mem[t][i].addr; c in mem && c != 0 && c != t && c !in free
      modifies this
      ensures Ok()
      ensures var c := old(mem)[t][i].addr;
              if IsEmpty(old(mem)[c])
              then ChangedOnly(old(mem), mem, {t, c}) && mem[t] == old(mem)[t][i := UNUSED] && free == old(free) + {c}
              else mem == old(mem) && free == old(free)
    {
      var c := mem[t][i].addr;
      var empty := IsTableEmpty(c);
      if empty {
        FreeFrame(c);
        SetEntry(t, i, UNUSED);
      }
    }

    /** One turn of the loop over the used slots of an upper-level table. */
    method UnmapSlot(t: nat, i: nat, s: nat, e: nat, level: nat, freePhysical: bool,
                     ghost b: nat, ghost w: Walk, ghost freed: set<nat>) returns (n: nat)
      requires Ok() && IsTree(mem, t, level) && Tables(mem, t, level) !! free
      requires level > 1 && i < 512 && Used(mem[t][i]) && s <= e
      requires w == Visit(mem, mem[t][i].addr, level - 1, 512 * b + i, s, e)
      requires freed == Freed(mem, t, level, w.pages, freePhysical)
      requires freePhysical ==> Freeable(mem, free, t, level, w.pages)
      modifies this
      ensures Ok()
      ensures n == w.count
      ensures Unmapped(old(mem), old(free), mem, free, t, level, b, w.pages, freed)
      ensures mem[t] == old(mem)[t][i := mem[t][i]]
      ensures Agree(old(mem), mem, Others(old(mem), old(mem)[t], i, level - 1))
      decreases level, 0
    {
      var c := mem[t][i].addr;
      ghost var slot := 512 * b + i;
      SlotReady(mem, free, t, level, b, i, s, e, freePhysical, c, slot, w, freed);
      n := UnmapInTable(c, s, e, level - 1, freePhysical, slot, w, freed);
      ghost var m2, free2 := mem, free;
      SlotBetween(old(mem), old(free), m2, free2, t, level, b, i, c, slot, w.pages, freed);
      DropIfEmpty(t, i);
      SlotUnmappedUnmaps(old(mem), old(free), m2, free2, mem, free, t, level, b, i, w.pages, freed);
    }

    /** The slot, and what it means for the walk in progress. */
    method UnmapTurn(t: nat, i: nat, cur: nat, e: nat, level: nat, freePhysical: bool, ghost b: nat, ghost n: nat,
                     ghost w: Walk, ghost done: set<nat>, ghost m0: Memory, ghost free0: set<nat>, ghost i2: nat)
      returns (count: nat, cur2: nat, ghost n2: nat, ghost done2: set<nat>)
      requires Ok() && level > 1 && i < 512 && i2 == i + 1 && cur <= e
      requires Progress(m0, free0, mem, free, t, level, b, i, cur, e, n, w, done, freePhysical)
      requires Used(mem[t][i]) && Tables(m0, t, level) !! free0
      requires freePhysical ==> Freeable(m0, free0, t, level, w.pages)
      modifies this
      ensures Ok()
      ensures cur2 == cur + count <= e && n2 == n + count
      ensures Unmapped(m0, free0, mem, free, t, level, b, done2, Freed(m0, t, level, done2, freePhysical))
      ensures cur2 >= e ==> w == Walk(done2, n2)
      ensures cur2 < e ==> Progress(m0, free0, mem, free, t, level, b, i2, cur2, e, n2, w, done2, freePhysical)
      decreases level, 1
    {
      ghost var m1, free1 := mem, free;
      ghost var w1 := Visit(mem, mem[t][i].addr, level - 1, 512 * b + i, cur, e);
      ghost var freed1 := Freed(mem, t, level, w1.pages, freePhysical);
      ProgressSlot(m0, free0, mem, free, t, level, b, i, cur, e, n, w, done, freePhysical, w1);
      count := UnmapSlot(t, i, cur, e, level, freePhysical, b, w1, freed1);
      cur2, n2, done2 := cur + count, n + count, done + w1.pages;
      ProgressStep(m0, free0, m1, free1, mem, free, t, level, b, i, cur, e, n, w, done, freePhysical,
                   w1, freed1, i2, cur2, n2, done2);
    }

    method UnmapInTable(t: nat, s: nat, e: nat, level: nat, freePhysical: bool, ghost b: nat, ghost w: Walk,
                        ghost freed: set<nat>)
      returns (n: nat)
      requires Ok() && IsTree(mem, t, level) && Tables(mem, t, level) !! free
      requires s <= e
      requires w == Visit(mem, t, level, b, s, e) && freed == Freed(mem, t, level, w.pages, freePhysical)
      requires freePhysical ==> Freeable(mem, free, t, level, w.pages)
      modifies this
      ensures Ok()
      ensures n == w.count
      ensures Unmapped(old(mem), old(free), mem, free, t, level, b, w.pages, freed)
      decreases level, 3
    {
      if level == 1 {
        n := UnmapLevelOne(t, s, e, freePhysical, b, w, freed);
      } else {
        n := UnmapUpper(t, s, e, level, freePhysical, b, w);
      }
    }

    /** The loop of `unmap_in_table` over the slots of an upper-level table. */
    method UnmapUpper(t: nat, s: nat, e: nat, level: nat, freePhysical: bool, ghost b: nat, ghost w: Walk)
      returns (n: nat)
      requires Ok() && IsTree(mem, t, level) && Tables(mem, t, level) !! free
      requires s <= e && level > 1
      requires w == Visit(mem, t, level, b, s, e)
      requires freePhysical ==> Freeable(mem, free, t, level, w.pages)
      modifies this
      ensures Ok()
      ensures n == w.count
      ensures Unmapped(old(mem), old(free), mem, free, t, level, b, w.pages,
                       Freed(old(mem), t, level, w.pages, freePhysical))
      decreases level, 2
    {
      var i := Index(s, level);
      var cur := s;
      ghost var done: set<nat> := {};
      n := 0;
      ProgressStart(mem, free, t, level, b, s, e, w, freePhysical);
      while i < 512
        invariant 0 <= i <= 512 && Ok()
        invariant cur == s + n <= e
        invariant Progress(old(mem), old(free), mem, free, t, level, b, i, cur, e, n, w, done, freePhysical)
      {
        if mem[t][i] == UNUSED {
          ProgressSkip(old(mem), old(free), mem, free, t, level, b, i, cur, e, n, w, done, freePhysical);
          i := i + 1;
          continue;
        }
        var count;
        ghost var n2, i2 := n, i + 1;
        count, cur, n2, done := UnmapTurn(t, i, cur, e, level, freePhysical, b, n, w, done, old(mem), old(free), i2);
        n := n + count;
        if cur >= e {
          break;
        }
        i := i + 1;
      }
    }

    method CopyTable(src: nat, dst: nat, level: nat) returns (ok: bool)
      requires Ok() && IsTree(mem, src, level) && Tables(mem, src, level) !! free
      requires dst in mem && dst != 0 && dst !in free && dst !in Tables(mem, src, level)
      modifies this
      ensures Ok()
      ensures !ok ==> free == {}
      ensures ok ==> Copied(old(mem), old(free), mem, free, src, dst, level)
      decreases level, 1
    {
      if level == 1 {
        for i := 0 to 512
          invariant free == old(free) && ChangedOnly(old(mem), mem, {dst})
          invariant forall j :: 0 <= j < i ==> mem[dst][j] == old(mem)[src][j]
        {
          SetEntry(dst, i, Entry(mem[src][i].addr, mem[src][i].flags));
        }
        return true;
      }
      for i := 0 to 512
        invariant Ok()
        invariant CopiedUpTo(old(mem), old(free), mem, free, src, dst, level, i)
      {
        ok := CopyOneSlot(src, dst, level, i, old(mem), old(free));
        if !ok {
          return;
        }
      }
      CopyComplete(old(mem), old(free), mem, free, src, dst, level);
      return true;
    }

    /** One turn of the loop over the slots of an upper-level table. */
    method CopyOneSlot(src: nat, dst: nat, level: nat, i: nat, ghost m0: Memory, ghost free0: set<nat>)
      returns (ok: bool)
      requires Ok() && level > 1 && i < 512
      requires IsTree(m0, src, level) && Tables(m0, src, level) !! free0
      requires dst in m0 && dst != 0 && dst !in free0 && dst !in Tables(m0, src, level)
      requires CopiedUpTo(m0, free0, mem, free, src, dst, level, i)
      modifies this
      ensures Ok()
      ensures !ok ==> free == {}
      ensures ok ==> CopiedUpTo(m0, free0, mem, free, src, dst, level, i + 1)
      decreases level, 0
    {
      TablesInMemory(m0, src, level);
      var source := mem[src][i];
      if source == UNUSED {
        SetEntry(dst, i, UNUSED);
        CopySlot(m0, free0, old(mem), old(free), mem, free, src, dst, level, i);
        return true;
      }
      var r := AllocFrame();
      if r.None? {
        return false;
      }
      SetEntry(dst, i, Entry(r.value, source.flags));
      TreeChild(m0, src, level, i);
      TreeFrame(m0, mem, source.addr, level - 1);
      ghost var m1 := mem;
      ok := CopyTable(source.addr, r.value, level - 1);
      if ok {
        CopyUsedSlot(m0, free0, old(mem), old(free), m1, mem, free, src, dst, level, i, r.value);
      }
    }

    /** The loop of `drop_table` over the slots of an upper-level table. */
    method DropChildren(t: nat, level: nat)
      requires Ok() && IsTree(mem, t, level) && Tables(mem, t, level) !! free && level > 1
      modifies this
      ensures Ok()
      ensures free == old(free) + (Tables(old(mem), t, level) - {t})
      ensures ChangedOnly(old(mem), mem, Tables(old(mem), t, level) - {t})
      decreases level, 0
    {
      for i := 0 to 512
        invariant Ok()
        invariant DroppedUpTo(old(mem), old(free), mem, free, t, level, i)
      {
        DropSlot(old(mem), old(free), mem, free, t, level, i);
        var entry := mem[t][i];
        if entry.addr == 0 {
          continue;
        }
        ghost var m1, free1 := mem, free;
        DropTable(entry.addr, level - 1);
        DroppedSlot(old(mem), old(free), m1, free1, mem, t, level, i, entry.addr);
      }
      PrefixForest(old(mem), t, level, 512);
    }

    method DropTable(t: nat, level: nat)
      requires Ok() && IsTree(mem, t, level) && Tables(mem, t, level) !! free
      modifies this
      ensures Ok()
      ensures free == old(free) + Tables(old(mem), t, level)
      ensures ChangedOnly(old(mem), mem, Tables(old(mem), t, level))
      decreases level, 1
    {
      if level > 1 {
        DropChildren(t, level);
      }
      var zero: Table := seq(512, _ => UNUSED);
      mem := mem[t := zero];
      FreeFrame(t);
    }
  }
}
