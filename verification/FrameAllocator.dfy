/** The locking frame allocator: a linked list of free blocks whose nodes live in the free frames. */
module FrameAllocator {
  import opened Arith
  import opened Regions
  import opened RegionAlgebra
  import opened FreeList

  /** The node kept in the first frame of a block; `next` names the first frame of the next block. */
  datatype Node = Node(count: nat, next: Option<nat>)

  ghost function At(bs: seq<Region>, k: nat): Option<nat> {
    if k < |bs| then Some(bs[k].start) else None
  }

  ghost predicate Ascending(bs: seq<Region>) {
    Ordered(bs) && forall i, j :: 0 <= i < j < |bs| ==> bs[i].start < bs[j].start
  }

  ghost predicate HoldsNode(nodes: map<nat, Node>, b: Region, next: Option<nat>) {
    b.start <= b.end && b.start in nodes && nodes[b.start] == Node(b.end - b.start, next)
  }

  /** The node of block `k` is in place and leads to the next block. */
  ghost predicate Linked(nodes: map<nat, Node>, bs: seq<Region>, k: nat) {
    k < |bs| ==> HoldsNode(nodes, bs[k], At(bs, k + 1))
  }

  /** The nodes reached from `head` are those of the blocks `bs`, in this order. */
  ghost predicate Chain(head: Option<nat>, nodes: map<nat, Node>, bs: seq<Region>) {
    && Ascending(bs)
    && head == At(bs, 0)
    && forall k: nat :: k < |bs| ==> Linked(nodes, bs, k)
  }

  ghost function First(bs: seq<Region>, j: nat, ins: seq<Region>): Option<nat> {
    if ins == [] then At(bs, j) else Some(ins[0].start)
  }

  /** Blocks `i..j` are replaced by `ins`, at most one block, by rewriting its node and the link before it. */
  lemma Splice(head: Option<nat>, nodes: map<nat, Node>, bs: seq<Region>, i: nat, j: nat, ins: seq<Region>)
    requires i <= j <= |bs| && |ins| <= 1
    requires Ascending(bs[..i] + ins + bs[j..])
    requires forall k: nat :: k < |bs| && (k < i - 1 || j <= k) ==> Linked(nodes, bs, k)
    requires i == 0 ==> head == First(bs, j, ins)
    requires i > 0 ==> head == At(bs, 0) && HoldsNode(nodes, bs[i - 1], First(bs, j, ins))
    requires ins != [] ==> HoldsNode(nodes, ins[0], At(bs, j))
    ensures Chain(head, nodes, bs[..i] + ins + bs[j..])
  {
    var out := bs[..i] + ins + bs[j..];
    forall k: nat | k < |out|
      ensures Linked(nodes, out, k)
    {
      SpliceAt(bs, i, j, ins, k);
      if k + 1 < i {
        assert Linked(nodes, bs, k);
      } else if k >= i + |ins| {
        assert Linked(nodes, bs, j + (k - i - |ins|));
      }
    }
  }

  lemma SpliceOut(head: Option<nat>, nodes: map<nat, Node>, bs: seq<Region>, i: nat, j: nat)
    requires i <= j <= |bs| && Ascending(bs)
    requires forall k: nat :: k < |bs| && (k < i - 1 || j <= k) ==> Linked(nodes, bs, k)
    requires i == 0 ==> head == At(bs, j)
    requires i > 0 ==> head == At(bs, 0) && HoldsNode(nodes, bs[i - 1], At(bs, j))
    ensures Chain(head, nodes, bs[..i] + bs[j..])
  {
    assert bs[..i] + [] + bs[j..] == bs[..i] + bs[j..];
    Splice(head, nodes, bs, i, j, []);
  }

  lemma SpliceAt(bs: seq<Region>, i: nat, j: nat, ins: seq<Region>, k: nat)
    requires i <= j <= |bs| && |ins| <= 1 && k < i + |ins| + |bs| - j
    ensures var out := bs[..i] + ins + bs[j..];
            && (k < i ==> out[k] == bs[k] && At(out, k + 1) == if k + 1 < i then At(bs, k + 1) else First(bs, j, ins))
            && (k == i && ins != [] ==> out[k] == ins[0] && At(out, k + 1) == At(bs, j))
            && (k >= i + |ins| ==>
                  out[k] == bs[j + (k - i - |ins|)] && At(out, k + 1) == At(bs, j + (k - i - |ins|) + 1))
  {
  }

  ghost function Size(bs: seq<Region>): nat
    requires Ordered(bs)
  {
    if bs == [] then 0 else Size(bs[..|bs| - 1]) + (bs[|bs| - 1].end - bs[|bs| - 1].start)
  }

  lemma AscendingSplice(bs: seq<Region>, i: nat, j: nat, ins: seq<Region>)
    requires Ascending(bs) && i <= j <= |bs| && |ins| <= 1 && Ordered(ins)
    requires ins != [] ==> (i > 0 ==> bs[i - 1].start < ins[0].start) && (j < |bs| ==> ins[0].start < bs[j].start)
    ensures Ascending(bs[..i] + ins + bs[j..])
  {
    var out := bs[..i] + ins + bs[j..];
    forall a, b | 0 <= a < b < |out| ensures out[a].start < out[b].start {
      SpliceIndex(bs, i, j, ins, a);
      SpliceIndex(bs, i, j, ins, b);
    }
    forall k | 0 <= k < |out| ensures out[k].start <= out[k].end {
      SpliceIndex(bs, i, j, ins, k);
    }
  }

  lemma SpliceIndex(bs: seq<Region>, i: nat, j: nat, ins: seq<Region>, k: nat)
    requires i <= j <= |bs| && |ins| <= 1 && k < i + |ins| + |bs| - j
    ensures (bs[..i] + ins + bs[j..])[k] == if k < i then bs[k] else if k < i + |ins| then ins[0]
            else bs[j + (k - i - |ins|)]
  {
  }

  class PageFrameList {
    /** The `next` link of the list head. */
    var head: Option<nat>
    /** Node contents of the frames that begin a block; other entries are leftovers. */
    var nodes: map<nat, Node>
    ghost var blocks: seq<Region>

    ghost predicate Valid()
      reads this
    {
      Chain(head, nodes, blocks)
    }

    constructor ()
      ensures Valid() && blocks == []
    {
      head, nodes, blocks := None, map[], [];
    }

    /** `current` is the cursor: the list head itself, or the node of a block. */
    method SetNext(current: Option<nat>, next: Option<nat>)
      requires current.Some? ==> current.value in nodes
      modifies this`head, this`nodes
      ensures current.None? ==> head == next && nodes == old(nodes)
      ensures current.Some? ==>
                head == old(head) && nodes == old(nodes)[current.value := Node(old(nodes)[current.value].count, next)]
    {
      if current.None? {
        head := next;
      } else {
        nodes := nodes[current.value := Node(nodes[current.value].count, next)];
      }
    }

    /** Writes a node into the first frame of the range and links it in place of the blocks `i..j`. */
    method LinkIn(current: Option<nat>, s: nat, e: nat, next: Option<nat>, ghost i: nat, ghost j: nat)
      requires Valid() && s <= e && i <= j <= |blocks|
      requires current == Cursor(blocks, i) && next == At(blocks, j)
      requires (i > 0 ==> blocks[i - 1].start < s) && (j < |blocks| ==> s < blocks[j].start)
      modifies this
      ensures Valid() && blocks == old(blocks)[..i] + [Region(s, e)] + old(blocks)[j..]
    {
      assert i > 0 ==> Linked(nodes, blocks, i - 1);
      nodes := nodes[s := Node(e - s, next)];
      SetNext(current, Some(s));
      AscendingSplice(blocks, i, j, [Region(s, e)]);
      NodesKept(old(head), old(nodes), nodes, blocks, i, j, s);
      Splice(head, nodes, blocks, i, j, [Region(s, e)]);
      blocks := blocks[..i] + [Region(s, e)] + blocks[j..];
    }

    /** Links the blocks `i..j` out. */
    method LinkOut(current: Option<nat>, next: Option<nat>, ghost i: nat, ghost j: nat)
      requires Valid() && i < j <= |blocks|
      requires current == Cursor(blocks, i) && next == At(blocks, j)
      modifies this
      ensures Valid() && blocks == old(blocks)[..i] + old(blocks)[j..]
    {
      assert i > 0 ==> Linked(nodes, blocks, i - 1);
      SetNext(current, next);
      NodesKept(old(head), old(nodes), nodes, blocks, i, j, blocks[i].start);
      SpliceOut(head, nodes, blocks, i, j);
      blocks := blocks[..i] + blocks[j..];
    }

    /** The cursor in front of the first block that starts above `s`. */
    method FindAbove(s: nat) returns (current: Option<nat>, next: Option<nat>, ghost k: nat)
      requires Valid()
      ensures k <= |blocks| && current == Cursor(blocks, k) && next == At(blocks, k)
      ensures forall j :: 0 <= j < k ==> blocks[j].start <= s
      ensures k < |blocks| ==> blocks[k].start > s
    {
      current, next, k := None, head, 0;
      while next.Some? && !(next.value > s)
        invariant k <= |blocks| && current == Cursor(blocks, k) && next == At(blocks, k)
        invariant forall j :: 0 <= j < k ==> blocks[j].start <= s
        decreases |blocks| - k
      {
        assert Linked(nodes, blocks, k);
        current := next;
        next := nodes[next.value].next;
        k := k + 1;
      }
    }

    /** Inserts a range at its place in the ascending list, in front of block `k`. */
    method InsertRange(s: nat, e: nat) returns (ghost k: nat)
      requires Valid() && s <= e
      requires forall j :: 0 <= j < |blocks| ==> blocks[j].start != s
      modifies this
      ensures k <= |old(blocks)| && Place(old(blocks), s, k)
      ensures Valid() && blocks == old(blocks)[..k] + [Region(s, e)] + old(blocks)[k..]
    {
      var current, next;
      current, next, k := FindAbove(s);
      LinkIn(current, s, e, next, k, k);
    }

    /** The first block with at least `n` frames, linked out of the list. */
    method FindFreeBlock(n: nat) returns (r: Option<Region>)
      requires Valid()
      modifies this
      ensures Valid()
      ensures var k := FirstFit(old(blocks), n);
              if k == |old(blocks)| then r == None && blocks == old(blocks)
              else r == Some(old(blocks)[k]) && blocks == old(blocks)[..k] + old(blocks)[k + 1..]
    {
      var current: Option<nat>, next := None, head;
      ghost var k := 0;
      while next.Some?
        invariant k <= |blocks| && current == Cursor(blocks, k) && next == At(blocks, k)
        invariant forall j :: 0 <= j < k ==> blocks[j].end - blocks[j].start < n
        decreases |blocks| - k
      {
        assert Linked(nodes, blocks, k);
        var block := nodes[next.value];
        if block.count >= n {
          FirstFitIs(blocks, n, k);
          LinkOut(current, block.next, k, k + 1);
          return Some(Region(next.value, next.value + block.count));
        }
        current := next;
        next := block.next;
        k := k + 1;
      }
      FirstFitIs(blocks, n, k);
      return None;
    }

    /** `alloc_block`; `None` is the out-of-memory panic. */
    method AllocFrames(n: nat) returns (r: Option<Region>)
      requires Valid() && Separated(blocks)
      modifies this
      ensures Valid()
      ensures match AllocBlock(old(blocks), n)
              case OutOfMemory => r == None && blocks == old(blocks)
              case Allocated(start, bs) => r == Some(Region(start, start + n)) && blocks == bs
    {
      ghost var k := FirstFit(blocks, n);
      var found := FindFreeBlock(n);
      match found
      case None =>
        assert AllocBlock(old(blocks), n) == OutOfMemory;
        return None;
      case Some(block) =>
        assert AllocBlock(old(blocks), n) == Allocated(block.start, Carve(old(blocks), k, n));
        var remaining := Region(block.start + n, block.end);
        PutBack(remaining, n, old(blocks), k);
        return Some(Region(block.start, remaining.start));
    }

    /** What is left of block `k` of the old list goes back into the list. */
    method PutBack(remaining: Region, n: nat, ghost bs: seq<Region>, ghost k: nat)
      requires Valid() && Separated(bs) && k < |bs| && n <= bs[k].end - bs[k].start
      requires remaining == Region(bs[k].start + n, bs[k].end) && blocks == bs[..k] + bs[k + 1..]
      modifies this
      ensures Valid() && blocks == Carve(bs, k, n)
    {
      Remainder(bs, k, n);
      if remaining.end - remaining.start > 0 {
        ghost var p := InsertRange(remaining.start, remaining.end);
        CarveAsInsert(bs, k, n, p);
      }
    }

    /** `free_block`; false is the panic on an overlap. */
    method FreeFrames(s: nat, e: nat) returns (ok: bool)
      requires Valid() && s <= e
      modifies this
      ensures Valid()
      ensures match FreeBlock(old(blocks), s, e)
              case Panic => !ok && blocks == old(blocks)
              case Freed(bs) => ok && blocks == bs
    {
      var current: Option<nat>, next := None, head;
      ghost var k := 0;
      while next.Some?
        invariant k <= |blocks| && current == Cursor(blocks, k) && next == At(blocks, k)
        invariant blocks == old(blocks) && Valid()
        invariant Walked(blocks, s, e, k)
        decreases |blocks| - k
      {
        assert Linked(nodes, blocks, k);
        var start, block := next.value, nodes[next.value];
        var end := start + block.count;
        assert Region(start, end) == blocks[k];
        if !(e <= start || s >= end) {
          FreeOverlaps(blocks, s, e, k);
          return false;
        }
        if e == start {
          FuseBelow(current, s, e, k);
          return true;
        } else if end == s {
          FuseAbove(current, s, e, k);
          return true;
        } else if end > s {
          break;
        }
        FreeWalksOn(blocks, s, e, k, k + 1);
        current := next;
        next := block.next;
        k := k + 1;
      }
      InsertFreed(s, e, k);
      return true;
    }

    /** The range touches no block and goes to its place in front of block `k`. */
    method InsertFreed(s: nat, e: nat, ghost k: nat)
      requires Valid() && s <= e && Walked(blocks, s, e, k)
      requires k < |blocks| ==> !Overlaps(s, e, blocks[k]) && e != blocks[k].start && blocks[k].end > s
      modifies this
      ensures Valid() && FreeBlock(old(blocks), s, e) == Freed(blocks)
    {
      FreeInserts(blocks, s, e, k);
      ghost var p := InsertRange(s, e);
      SamePlace(old(blocks), s, k, p);
    }

    /** The range extends block `k` from the bottom: a new node replaces the old one. */
    method FuseBelow(current: Option<nat>, s: nat, e: nat, ghost k: nat)
      requires Valid() && s <= e && k < |blocks| && current == Cursor(blocks, k)
      requires Walked(blocks, s, e, k) && e == blocks[k].start
      modifies this
      ensures Valid() && blocks == old(blocks)[..k] + [Region(s, old(blocks)[k].end)] + old(blocks)[k + 1..]
      ensures FreeBlock(old(blocks), s, e) == Freed(blocks)
    {
      FreeFusesBelow(blocks, s, e, k);
      assert Linked(nodes, blocks, k);
      var block := nodes[e];
      LinkIn(current, s, e + block.count, block.next, k, k + 1);
    }

    /** The range extends block `k` from the top, and the extended block possibly its successor from the bottom. */
    method FuseAbove(current: Option<nat>, s: nat, e: nat, ghost k: nat)
      requires Valid() && s <= e && k < |blocks| && current == Cursor(blocks, k)
      requires Walked(blocks, s, e, k) && s == blocks[k].end && e != blocks[k].start
      modifies this
      ensures Valid()
      ensures blocks == FusedAbove(old(blocks), e, k)
      ensures FreeBlock(old(blocks), s, e) == Freed(blocks)
    {
      FreeFusesAbove(blocks, s, e, k);
      assert Linked(nodes, blocks, k);
      assert k > 0 ==> Linked(nodes, blocks, k - 1);
      var start := if current.None? then head.value else nodes[current.value].next.value;
      var block := nodes[start];
      if block.next == Some(e) {
        assert Linked(nodes, blocks, k + 1);
        var after := nodes[e];
        assert FusedAbove(blocks, e, k) == blocks[..k] + [Region(start, e + after.count)] + blocks[k + 2..];
        LinkIn(current, start, e + after.count, after.next, k, k + 2);
      } else {
        assert FusedAbove(blocks, e, k) == blocks[..k] + [Region(start, e)] + blocks[k + 1..];
        LinkIn(current, start, e, block.next, k, k + 1);
      }
    }

    /** `get_total_free_frames`. */
    method TotalFree() returns (total: nat)
      requires Valid()
      ensures total == Size(blocks)
    {
      total := 0;
      var next := head;
      ghost var k := 0;
      while next.Some?
        invariant k <= |blocks| && next == At(blocks, k)
        invariant total == Size(blocks[..k])
        decreases |blocks| - k
      {
        assert Linked(nodes, blocks, k);
        assert blocks[..k + 1][..k] == blocks[..k];
        total := total + nodes[next.value].count;
        next := nodes[next.value].next;
        k := k + 1;
      }
      assert blocks[..k] == blocks;
    }
  }

  /** Block `k` is the first that starts above `s`, and none starts at `s`. */
  ghost predicate Place(bs: seq<Region>, s: nat, k: nat)
    requires k <= |bs|
  {
    forall j :: 0 <= j < |bs| ==> bs[j].start != s && (bs[j].start < s <==> j < k)
  }

  lemma SamePlace(bs: seq<Region>, s: nat, k: nat, p: nat)
    requires k <= |bs| && p <= |bs| && Place(bs, s, k) && Place(bs, s, p)
    ensures k == p
  {
    assert k < |bs| ==> (bs[k].start < s <==> k < p);
    assert p < |bs| ==> (bs[p].start < s <==> p < k);
  }

  lemma Remainder(bs: seq<Region>, k: nat, n: nat)
    requires Separated(bs) && k < |bs| && n <= bs[k].end - bs[k].start
    ensures var rest := bs[..k] + bs[k + 1..];
            var left := bs[k].start + n;
            && (left < bs[k].end ==> Place(rest, left, k))
            && (left == bs[k].end ==> rest == Carve(bs, k, n))
  {
  }

  /** Taking a block out and inserting its remainder is carving the block. */
  lemma CarveAsInsert(bs: seq<Region>, k: nat, n: nat, p: nat)
    requires Separated(bs) && k < |bs| && n < bs[k].end - bs[k].start
    requires p < |bs| && Place(bs[..k] + bs[k + 1..], bs[k].start + n, p)
    ensures var rest := bs[..k] + bs[k + 1..];
            rest[..p] + [Region(bs[k].start + n, bs[k].end)] + rest[p..] == Carve(bs, k, n)
  {
    var rest := bs[..k] + bs[k + 1..];
    Remainder(bs, k, n);
    SamePlace(rest, bs[k].start + n, k, p);
    assert rest[..k] == bs[..k] && rest[k..] == bs[k + 1..];
  }

  ghost function FusedAbove(bs: seq<Region>, e: nat, k: nat): seq<Region>
    requires k < |bs|
  {
    if k + 1 < |bs| && e == bs[k + 1].start
    then bs[..k] + [Region(bs[k].start, bs[k + 1].end)] + bs[k + 2..]
    else bs[..k] + [Region(bs[k].start, e)] + bs[k + 1..]
  }

  /** The walk has passed the first `k` blocks, all of them below the range. */
  ghost predicate Walked(bs: seq<Region>, s: nat, e: nat, k: nat) {
    && k <= |bs|
    && FreeBlock(bs, s, e) == Prefixed(bs[..k], FreeBlock(bs[k..], s, e))
    && forall j :: 0 <= j < k ==> bs[j].end < s
  }

  lemma FreeOverlaps(bs: seq<Region>, s: nat, e: nat, k: nat)
    requires Walked(bs, s, e, k) && k < |bs| && Overlaps(s, e, bs[k])
    ensures FreeBlock(bs, s, e) == Panic
  {
    assert bs[k..][0] == bs[k];
  }

  lemma FreeFusesBelow(bs: seq<Region>, s: nat, e: nat, k: nat)
    requires Walked(bs, s, e, k) && k < |bs| && !Overlaps(s, e, bs[k]) && e == bs[k].start
    ensures FreeBlock(bs, s, e) == Freed(bs[..k] + [Region(s, bs[k].end)] + bs[k + 1..])
  {
    assert bs[k..][1..] == bs[k + 1..];
    assert bs[..k] + ([Region(s, bs[k].end)] + bs[k + 1..]) == bs[..k] + [Region(s, bs[k].end)] + bs[k + 1..];
  }

  lemma FreeFusesAbove(bs: seq<Region>, s: nat, e: nat, k: nat)
    requires Walked(bs, s, e, k) && k < |bs| && !Overlaps(s, e, bs[k]) && e != bs[k].start && bs[k].end == s
    ensures FreeBlock(bs, s, e) == Freed(FusedAbove(bs, e, k))
  {
    assert bs[k..][1..] == bs[k + 1..];
    if k + 1 < |bs| && e == bs[k + 1].start {
      var r := Region(bs[k].start, bs[k + 1].end);
      assert bs[k..][2..] == bs[k + 2..];
      assert bs[..k] + ([r] + bs[k + 2..]) == bs[..k] + [r] + bs[k + 2..];
    } else {
      var r := Region(bs[k].start, e);
      assert bs[..k] + ([r] + bs[k + 1..]) == bs[..k] + [r] + bs[k + 1..];
    }
  }

  ghost function Prefixed(pre: seq<Region>, r: FreeResult): FreeResult {
    match r
    case Panic => Panic
    case Freed(bs) => Freed(pre + bs)
  }

  lemma FreeWalksOn(bs: seq<Region>, s: nat, e: nat, k: nat, k2: nat)
    requires Walked(bs, s, e, k) && k < |bs| && !Overlaps(s, e, bs[k]) && e != bs[k].start && bs[k].end < s
             && k2 == k + 1
    ensures Walked(bs, s, e, k2)
  {
    assert bs[k..][1..] == bs[k + 1..];
    match FreeBlock(bs[k + 1..], s, e)
    case Panic =>
    case Freed(rest) =>
      assert bs[..k] + ([bs[k]] + rest) == bs[..k + 1] + rest;
  }

  lemma FreeInserts(bs: seq<Region>, s: nat, e: nat, k: nat)
    requires Ascending(bs) && s <= e && Walked(bs, s, e, k)
    requires k < |bs| ==> !Overlaps(s, e, bs[k]) && e != bs[k].start && bs[k].end > s
    ensures FreeBlock(bs, s, e) == Freed(bs[..k] + [Region(s, e)] + bs[k..])
    ensures Place(bs, s, k)
  {
    assert bs[..k] + ([Region(s, e)] + bs[k..]) == bs[..k] + [Region(s, e)] + bs[k..];
  }

  ghost function Cursor(bs: seq<Region>, i: nat): Option<nat>
    requires i <= |bs|
  {
    if i == 0 then None else Some(bs[i - 1].start)
  }

  /** Rewriting the node of `s` and the link before block `i` leaves the other blocks outside `i..j` alone. */
  lemma NodesKept(head: Option<nat>, nodes: map<nat, Node>, nodes2: map<nat, Node>, bs: seq<Region>, i: nat, j: nat,
                  s: nat)
    requires Chain(head, nodes, bs) && i <= j <= |bs|
    requires (i > 0 ==> bs[i - 1].start < s) && (j < |bs| ==> s < bs[j].start)
    requires forall f :: f in nodes && f != s && Some(f) != Cursor(bs, i) ==> f in nodes2 && nodes2[f] == nodes[f]
    ensures forall k: nat :: k < |bs| && (k < i - 1 || j <= k) ==> Linked(nodes2, bs, k)
  {
    forall k: nat | k < |bs| && (k < i - 1 || j <= k)
      ensures Linked(nodes2, bs, k)
    {
      assert Linked(nodes, bs, k);
      assert bs[k].start != s;
    }
  }
}
