/**
  The lock-free frame allocator's boot-time reservation: a range is cut into naturally
  aligned power-of-two chunks, none larger than `2^maxOrder` frames.
 */
module FrameLf {
  import opened Arith

  function Pow2(k: nat): (p: nat)
    ensures p >= 1
  {
    if k == 0 then 1 else 2 * Pow2(k - 1)
  }

  /** A chunk of `2^order` frames starting at frame `start`. */
  datatype Chunk = Chunk(start: nat, order: nat)

  /** The largest order up to `j` whose chunk fits into `remaining` and is aligned at `frame`. */
  ghost function FitOrder(frame: nat, remaining: nat, j: nat): (order: nat)
    requires remaining > 0
    ensures order <= j && Pow2(order) <= remaining && frame % Pow2(order) == 0
  {
    if j == 0 || (Pow2(j) <= remaining && frame % Pow2(j) == 0) then j
    else FitOrder(frame, remaining, j - 1)
  }

  /** The chunks a reservation of `remaining` frames from `frame` on takes. */
  ghost function Chunks(frame: nat, remaining: nat, maxOrder: nat): seq<Chunk>
    decreases remaining
  {
    if remaining == 0 then []
    else
      var order := FitOrder(frame, remaining, maxOrder);
      [Chunk(frame, order)] + Chunks(frame + Pow2(order), remaining - Pow2(order), maxOrder)
  }

  /** Chunks lie end to end from `frame` to `frame + count`, each aligned to its size and within the order. */
  ghost predicate Tiles(cs: seq<Chunk>, frame: nat, count: nat, maxOrder: nat)
    decreases |cs|
  {
    if cs == [] then count == 0
    else
      && cs[0].start == frame && cs[0].order <= maxOrder
      && frame % Pow2(cs[0].order) == 0 && Pow2(cs[0].order) <= count
      && Tiles(cs[1..], frame + Pow2(cs[0].order), count - Pow2(cs[0].order), maxOrder)
  }

  ghost predicate InChunk(c: Chunk, f: nat) { c.start <= f < c.start + Pow2(c.order) }

  lemma {:induction false} ChunksTile(frame: nat, count: nat, maxOrder: nat)
    ensures Tiles(Chunks(frame, count, maxOrder), frame, count, maxOrder)
    decreases count
  {
    if count > 0 {
      var order := FitOrder(frame, count, maxOrder);
      var rest := Chunks(frame + Pow2(order), count - Pow2(order), maxOrder);
      ChunksTile(frame + Pow2(order), count - Pow2(order), maxOrder);
      assert ([Chunk(frame, order)] + rest)[1..] == rest;
    }
  }

  /** Tiling is exact: a frame of the range lies in one chunk and in one only, any other frame in none. */
  lemma {:induction false} TilesExact(cs: seq<Chunk>, frame: nat, count: nat, maxOrder: nat, f: nat)
    requires Tiles(cs, frame, count, maxOrder)
    ensures frame <= f < frame + count <==> exists k :: 0 <= k < |cs| && InChunk(cs[k], f)
    ensures forall j, k :: 0 <= j < |cs| && 0 <= k < |cs| && InChunk(cs[j], f) && InChunk(cs[k], f) ==> j == k
    decreases |cs|
  {
    if cs != [] {
      var rest := cs[1..];
      var size := Pow2(cs[0].order);
      TilesExact(rest, frame + size, count - size, maxOrder, f);
      assert forall k :: 1 <= k < |cs| ==> cs[k] == rest[k - 1];
      assert forall k :: 0 <= k < |rest| ==> rest[k] == cs[k + 1];
    }
  }

  // ----- how many chunks -----

  lemma {:induction false} Pow2Mono(i: nat, j: nat)
    requires i <= j
    ensures Pow2(i) <= Pow2(j)
    decreases j
  {
    if i < j {
      Pow2Mono(i, j - 1);
    }
  }

  lemma DivisibleDown(x: nat, k: nat)
    requires k > 0 && x % Pow2(k) == 0
    ensures x % Pow2(k - 1) == 0
  {
    var q := x / Pow2(k);
    assert x == q * Pow2(k) == (q * 2) * Pow2(k - 1);
    MultipleMod(q * 2, Pow2(k - 1));
  }

  lemma MultipleMod(q: nat, m: nat)
    requires m > 0
    ensures (q * m) % m == 0
  {
    assert q * m == m * q + 0;
    DivUnique(q * m, m, q);
  }

  lemma {:induction false} DivisibleFar(x: nat, i: nat, k: nat)
    requires i <= k && x % Pow2(k) == 0
    ensures x % Pow2(i) == 0
    decreases k
  {
    if i < k {
      DivisibleDown(x, k);
      DivisibleFar(x, i, k - 1);
    }
  }

  lemma AddMultiple(x: nat, m: nat)
    requires m > 0 && x % m == 0
    ensures (x + m) % m == 0
  {
    var q := x / m;
    assert x + m == (q + 1) * m;
    MultipleMod(q + 1, m);
  }

  lemma Doubled(h: nat, m: nat)
    requires m > 0
    ensures (2 * h) * m == h * (2 * m)
    ensures ((2 * h) * m) % (2 * m) == 0
  {
    MultipleMod(h, 2 * m);
  }

  /** An address that is an odd multiple of `2^j` becomes a multiple of `2^(j + 1)` after one step of `2^j`. */
  lemma OddStep(x: nat, j: nat)
    requires x % Pow2(j) == 0 && x % Pow2(j + 1) != 0
    ensures (x + Pow2(j)) % Pow2(j + 1) == 0
  {
    var m := Pow2(j);
    var q := x / m;
    DivBounds(x, m);
    assert x == q * m;
    var h := (q + 1) / 2;
    Doubled(h, m);
    assert q == 2 * h || q + 1 == 2 * h;
    assert (q + 1) * m == q * m + m;
  }

  /** The order chosen, when nothing larger fits or nothing larger is aligned. */
  lemma {:induction false} FitIs(frame: nat, remaining: nat, j: nat, order: nat)
    requires remaining > 0 && order <= j && Pow2(order) <= remaining && frame % Pow2(order) == 0
    requires order < j ==> remaining < Pow2(order + 1) || frame % Pow2(order + 1) != 0
    ensures FitOrder(frame, remaining, j) == order
    decreases j
  {
    if order < j {
      if Pow2(j) <= remaining && frame % Pow2(j) == 0 {
        Pow2Mono(order + 1, j);
        DivisibleFar(frame, order + 1, j);
        assert false;
      }
      FitIs(frame, remaining, j - 1, order);
    }
  }

  /** Fewer than `2^j` frames from a multiple of `2^j`: at most one chunk per bit. */
  lemma {:induction false} TailCount(frame: nat, remaining: nat, maxOrder: nat, j: nat)
    requires j <= maxOrder && remaining < Pow2(j) && frame % Pow2(j) == 0
    ensures |Chunks(frame, remaining, maxOrder)| <= j
    decreases j
  {
    if remaining > 0 {
      var half := Pow2(j - 1);
      DivisibleDown(frame, j);
      if remaining < half {
        TailCount(frame, remaining, maxOrder, j - 1);
      } else {
        FitIs(frame, remaining, maxOrder, j - 1);
        AddMultiple(frame, half);
        TailCount(frame + half, remaining - half, maxOrder, j - 1);
      }
    }
  }

  lemma DivStep(x: nat, m: nat)
    requires m > 0 && x >= m
    ensures (x - m) / m == x / m - 1
  {
    DivBounds(x, m);
    var q := x / m;
    assert q == 0 ==> (q + 1) * m == m;
    assert (q - 1) * m == q * m - m;
    DivUnique(x - m, m, q - 1);
  }

  /** From an address aligned to the largest chunk. */
  lemma {:induction false} AlignedCount(frame: nat, remaining: nat, maxOrder: nat)
    requires frame % Pow2(maxOrder) == 0
    ensures |Chunks(frame, remaining, maxOrder)| <= remaining / Pow2(maxOrder) + maxOrder
    decreases remaining
  {
    var m := Pow2(maxOrder);
    DivBounds(remaining, m);
    if remaining < m {
      TailCount(frame, remaining, maxOrder, maxOrder);
    } else {
      FitIs(frame, remaining, maxOrder, maxOrder);
      AddMultiple(frame, m);
      DivStep(remaining, m);
      AlignedCount(frame + m, remaining - m, maxOrder);
    }
  }

  /** From an address aligned to `2^j`: climbing to full alignment costs one chunk per order. */
  lemma {:induction false} ClimbCount(frame: nat, remaining: nat, maxOrder: nat, j: nat)
    requires j <= maxOrder && frame % Pow2(j) == 0
    ensures |Chunks(frame, remaining, maxOrder)| <= remaining / Pow2(maxOrder) + 2 * maxOrder - j
    decreases maxOrder - j
  {
    var m, step := Pow2(maxOrder), Pow2(j);
    DivBounds(remaining, m);
    if j == maxOrder {
      AlignedCount(frame, remaining, maxOrder);
    } else if frame % Pow2(j + 1) == 0 {
      ClimbCount(frame, remaining, maxOrder, j + 1);
    } else if remaining < step {
      TailCount(frame, remaining, maxOrder, j);
    } else {
      FitIs(frame, remaining, maxOrder, j);
      OddStep(frame, j);
      ClimbCount(frame + step, remaining - step, maxOrder, j + 1);
      DivMono(remaining - step, remaining, m);
    }
  }

  /** At most one chunk per largest chunk contained, and two per order besides. */
  lemma ChunkCount(frame: nat, count: nat, maxOrder: nat)
    ensures |Chunks(frame, count, maxOrder)| <= count / Pow2(maxOrder) + 2 * maxOrder
  {
    assert frame % Pow2(0) == 0;
    ClimbCount(frame, count, maxOrder, 0);
  }

  // ----- the loops -----

  /** Position of the highest set bit. */
  function FloorLog2(n: nat): (k: nat)
    requires n > 0
    ensures Pow2(k) <= n < 2 * Pow2(k)
  {
    if n == 1 then 0 else 1 + FloorLog2(n / 2)
  }

  /** The order of the next power of two, so that `n` frames fit. */
  function CeilLog2(n: nat): (k: nat)
    requires n > 0
    ensures n <= Pow2(k) && (k > 0 ==> Pow2(k - 1) < n)
  {
    if n == 1 then 0 else 1 + CeilLog2((n + 1) / 2)
  }

  /** A count that is a power of two is not rounded up. */
  lemma {:induction false} NoRounding(k: nat)
    ensures CeilLog2(Pow2(k)) == k
  {
    if k > 0 {
      NoRounding(k - 1);
      assert Pow2(k) == 2 * Pow2(k - 1) && (Pow2(k) + 1) / 2 == Pow2(k - 1);
    }
  }

  /** `round_up_pow2`: zero and sums past the word size have no answer. */
  function RoundUpPow2(n: nat): (r: Option<nat>)
    ensures r.Some? ==> n <= r.value < 2 * n && r.value == Pow2(CeilLog2(n))
  {
    if n == 0 then None
    else
      var next := Pow2(CeilLog2(n));
      if next >= WORD then None else Some(next)
  }

  /** A power of two that fits a word and holds `n` frames. */
  ghost predicate Holds(n: nat, k: nat) { n <= Pow2(k) < WORD }

  /** Rounding has an answer exactly when some power of two from `n` on fits a word, and then gives the least one. */
  lemma RoundUpIff(n: nat)
    ensures RoundUpPow2(n).Some? <==> n > 0 && exists k: nat :: Holds(n, k)
    ensures RoundUpPow2(n).Some? ==>
              && (exists k: nat :: Holds(n, k) && RoundUpPow2(n).value == Pow2(k))
              && forall k: nat :: Holds(n, k) ==> RoundUpPow2(n).value <= Pow2(k)
  {
    if n > 0 {
      forall k: nat | Holds(n, k)
        ensures Holds(n, CeilLog2(n)) && Pow2(CeilLog2(n)) <= Pow2(k)
      {
        LeastPower(n, k);
      }
      assert RoundUpPow2(n).Some? <==> Holds(n, CeilLog2(n));
    }
  }

  lemma LeastPower(n: nat, k: nat)
    requires 0 < n <= Pow2(k)
    ensures Pow2(CeilLog2(n)) <= Pow2(k)
  {
    var c := CeilLog2(n);
    if k < c {
      Pow2Mono(k, c - 1);
    } else {
      Pow2Mono(c, k);
    }
  }

  /** The llfree allocator seen from outside: the set of frames it would still hand out. */
  class LLFree {
    const maxOrder: nat
    var free: set<nat>

    /** All frames start out free. */
    constructor (numFrames: nat, maxOrder: nat)
      ensures this.maxOrder == maxOrder && free == Span(0, numFrames)
    {
      this.maxOrder := maxOrder;
      free := Span(0, numFrames);
    }

    /** Takes the chunk of `2^order` frames at `start`: it must be aligned and wholly free. */
    method GetAt(start: nat, order: nat) returns (ok: bool)
      modifies this
      ensures ok == (order <= maxOrder && start % Pow2(order) == 0 && Span(start, start + Pow2(order)) <= old(free))
      ensures free == if ok then old(free) - Span(start, start + Pow2(order)) else old(free)
    {
      ok := order <= maxOrder && start % Pow2(order) == 0 && Span(start, start + Pow2(order)) <= free;
      if ok {
        free := free - Span(start, start + Pow2(order));
      }
    }

    /** `alloc_internal` at a given frame, rounding the count up; false is a panic. */
    method AllocAt(start: nat, count: nat) returns (ok: bool)
      modifies this
      ensures var order := if count == 0 then 0 else CeilLog2(count);
              && ok == (RoundUpPow2(count).Some? && order <= maxOrder && start % Pow2(order) == 0
                        && Span(start, start + Pow2(order)) <= old(free))
              && free == if ok then old(free) - Span(start, start + Pow2(order)) else old(free)
    {
      var rounded := RoundUpPow2(count);
      if rounded.None? {
        return false;
      }
      ok := GetAt(start, CeilLog2(count));
    }

    /** The order of the next chunk: the largest that fits, halved until the frame is aligned for it. */
    method NextChunk(frame: nat, remaining: nat) returns (chunk: nat)
      requires remaining > 0
      ensures chunk == Pow2(FitOrder(frame, remaining, maxOrder))
    {
      var maxChunk := Pow2(maxOrder);
      ghost var order: nat := if remaining >= maxChunk then maxOrder else FloorLog2(remaining);
      chunk := if remaining >= maxChunk then maxChunk else Pow2(FloorLog2(remaining));
      if remaining < maxChunk && order > maxOrder {
        Pow2Mono(maxOrder, order);
      }
      while frame % chunk != 0
        invariant order <= maxOrder && chunk == Pow2(order) && chunk <= remaining
        invariant order < maxOrder ==> remaining < Pow2(order + 1) || frame % Pow2(order + 1) != 0
        decreases chunk
      {
        assert order > 0;
        chunk := chunk / 2;
        order := order - 1;
      }
      FitIs(frame, remaining, maxOrder, order);
    }

    /** One turn of the loop of `mark_reserved`: the chunk is reserved at its full size, never rounded up. */
    method TakeChunk(frame: nat, remaining: nat) returns (ok: bool, chunk: nat)
      requires remaining > 0 && Pow2(maxOrder) < WORD
      modifies this
      ensures chunk == Pow2(FitOrder(frame, remaining, maxOrder))
      ensures ok == (Span(frame, frame + chunk) <= old(free))
      ensures free == if ok then old(free) - Span(frame, frame + chunk) else old(free)
    {
      ghost var order := FitOrder(frame, remaining, maxOrder);
      chunk := NextChunk(frame, remaining);
      NoRounding(order);
      Pow2Mono(order, maxOrder);
      ok := AllocAt(frame, chunk);
    }

    /**
      `mark_reserved`: takes exactly the frames of the range out, chunk by chunk, or panics; it
      panics just when the address is not aligned, the count is zero, or a frame is not free.
     */
    method MarkReserved(addr: nat, count: nat) returns (ok: bool, ghost taken: seq<Chunk>)
      requires Pow2(maxOrder) < WORD
      modifies this
      ensures ok == (addr % PAGE_SIZE == 0 && count > 0
                     && Span(addr / PAGE_SIZE, addr / PAGE_SIZE + count) <= old(free))
      ensures ok ==> free == old(free) - Span(addr / PAGE_SIZE, addr / PAGE_SIZE + count)
      ensures ok ==> taken == Chunks(addr / PAGE_SIZE, count, maxOrder)
    {
      taken := [];
      if addr % PAGE_SIZE != 0 || count == 0 {
        return false, taken;
      }
      ghost var first := addr / PAGE_SIZE;
      ghost var pos: nat := first;
      var remaining: nat := count;
      var current := addr;
      while remaining > 0
        invariant current == pos * PAGE_SIZE
        invariant Reserving(old(free), free, first, count, pos, remaining, taken, maxOrder)
      {
        var chunk;
        ghost var before := free;
        DivUnique(current, PAGE_SIZE, pos);
        ok, chunk := TakeChunk(current / PAGE_SIZE, remaining);
        ghost var pos2, remaining2 := pos + chunk, remaining - chunk;
        ghost var taken2 := taken + [Chunk(pos, FitOrder(pos, remaining, maxOrder))];
        ReservingTurn(old(free), before, first, count, pos, remaining, taken, maxOrder, free, pos2, remaining2, taken2);
        if !ok {
          return;
        }
        taken, pos := taken2, pos2;
        current := current + chunk * PAGE_SIZE;
        remaining := remaining - chunk;
      }
      ReservingEnds(old(free), free, first, count, pos, taken, maxOrder);
      return true, taken;
    }
  }

  /** The frames from `first` to `pos` are taken, and the chunks so far begin the whole list of chunks. */
  ghost predicate Reserving(all: set<nat>, free: set<nat>, first: nat, count: nat, pos: nat, remaining: nat,
                            taken: seq<Chunk>, maxOrder: nat)
  {
    && pos + remaining == first + count && first <= pos
    && Span(first, pos) <= all && free == all - Span(first, pos)
    && taken + Chunks(pos, remaining, maxOrder) == Chunks(first, count, maxOrder)
  }

  lemma ReservingEnds(all: set<nat>, free: set<nat>, first: nat, count: nat, pos: nat, taken: seq<Chunk>, maxOrder: nat)
    requires Reserving(all, free, first, count, pos, 0, taken, maxOrder)
    ensures Span(first, first + count) <= all && free == all - Span(first, first + count)
    ensures taken == Chunks(first, count, maxOrder)
  {
  }

  lemma ReservingTurn(all: set<nat>, free: set<nat>, first: nat, count: nat, pos: nat, remaining: nat,
                      taken: seq<Chunk>, maxOrder: nat, free2: set<nat>, pos2: nat, remaining2: int, taken2: seq<Chunk>)
    requires Reserving(all, free, first, count, pos, remaining, taken, maxOrder)
    requires remaining > 0 && pos2 == pos + Pow2(FitOrder(pos, remaining, maxOrder))
             && pos2 + remaining2 == pos + remaining
    requires taken2 == taken + [Chunk(pos, FitOrder(pos, remaining, maxOrder))]
    ensures remaining2 >= 0
    ensures Span(pos, pos2) <= free && free2 == free - Span(pos, pos2) ==>
              Reserving(all, free2, first, count, pos2, remaining2, taken2, maxOrder)
    ensures !(Span(pos, pos2) <= free) ==> !(Span(first, first + count) <= all)
  {
    ChunksStep(taken, pos, remaining, maxOrder, pos2 - pos);
    SpanTurn(all, first, pos, pos2, first + count);
  }

  lemma ChunksStep(taken: seq<Chunk>, pos: nat, remaining: nat, maxOrder: nat, chunk: nat)
    requires remaining > 0 && chunk == Pow2(FitOrder(pos, remaining, maxOrder))
    ensures chunk <= remaining
    ensures taken + Chunks(pos, remaining, maxOrder)
         == taken + [Chunk(pos, FitOrder(pos, remaining, maxOrder))] + Chunks(pos + chunk, remaining - chunk, maxOrder)
  {
  }

  /** Taking the next stretch out of what is left amounts to taking the longer stretch out of all. */
  lemma SpanTurn(all: set<nat>, a: nat, b: nat, c: nat, d: nat)
    requires a <= b <= c <= d && Span(a, b) <= all
    ensures Span(b, c) <= all - Span(a, b) <==> Span(a, c) <= all
    ensures Span(a, c) <= Span(a, d)
    ensures all - Span(a, b) - Span(b, c) == all - Span(a, c)
  {
    SpanStep(a, b, c, d);
  }

  lemma SpanStep(a: nat, b: nat, c: nat, d: nat)
    requires a <= b <= c <= d
    ensures Span(a, c) == Span(a, b) + Span(b, c) && Span(b, c) <= Span(a, d)
    ensures Span(a, b) !! Span(b, c)
  {
  }
}
