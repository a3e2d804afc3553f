/** Basics shared by all modules. */
module Arith {
  datatype Option<+T> = None | Some(value: T)

  type Byte = x: int | 0 <= x < 256

  const PAGE_SIZE: nat := 4096
  /** One past the largest machine word. */
  const WORD: nat := 0x1_0000_0000_0000_0000

  function Min(a: int, b: int): int { if a <= b then a else b }

  function Max(a: int, b: int): int { if a >= b then a else b }

  /** Addition and subtraction on machine words wrap around. */
  function Plus(c: int, d: int): (r: nat)
    ensures r < WORD
  {
    (c + d) % WORD
  }

  function Minus(c: int, d: int): (r: nat)
    ensures r < WORD
  {
    (c - d) % WORD
  }

  /** The integers of the half-open interval from `a` to `b`. */
  ghost function Range(a: int, b: int): (r: set<int>)
    ensures forall p :: p in r <==> a <= p < b
    decreases b - a
  {
    if b <= a then {} else {a} + Range(a + 1, b)
  }

  /** The naturals of the half-open interval from `a` to `b`. */
  function Span(a: nat, b: nat): (r: set<nat>)
    ensures forall p: nat :: p in r <==> a <= p < b
    decreases b - a
  {
    if b <= a then {} else {a} + Span(a + 1, b)
  }

  lemma {:induction false} SpanSize(a: nat, b: nat)
    requires a <= b
    ensures |Span(a, b)| == b - a
    decreases b - a
  {
    if a < b {
      assert a !in Span(a + 1, b) && Span(a, b) == {a} + Span(a + 1, b);
      SpanSize(a + 1, b);
    }
  }

  lemma MulMono(a: nat, b: nat, r: nat)
    requires a <= b
    ensures a * r <= b * r
  {
  }

  /** The quotient is the only block number whose block holds `p`. */
  lemma DivUnique(p: nat, r: nat, a: nat)
    requires r > 0
    requires a * r <= p < (a + 1) * r
    ensures p / r == a
  {
    var q := p / r;
    assert q * r <= p < (q + 1) * r;
    if q < a {
      MulMono(q + 1, a, r);
      assert false;
    } else if a < q {
      MulMono(a + 1, q, r);
      assert false;
    }
  }

  lemma DivBounds(p: nat, r: nat)
    requires r > 0
    ensures 0 <= p / r
    ensures (p / r) * r <= p < (p / r + 1) * r
  {
  }

  lemma DivMono(p: nat, q: nat, r: nat)
    requires r > 0
    requires p <= q
    ensures p / r <= q / r
  {
    DivBounds(p, r);
    DivBounds(q, r);
    if q / r < p / r {
      MulMono(q / r + 1, p / r, r);
      assert false;
    }
  }

  lemma ModNext(a: nat, n: nat)
    requires n > 0
    ensures (a + 1) % n == if a % n + 1 < n then a % n + 1 else 0
  {
    var q := a / n;
    DivBounds(a, n);
    assert a == q * n + a % n;
    if a % n + 1 < n {
      DivUnique(a + 1, n, q);
    } else {
      assert (q + 1) * n == q * n + n;
      assert (q + 2) * n == q * n + n + n;
      DivUnique(a + 1, n, q + 1);
    }
  }

  lemma PageMultiple(n: nat)
    ensures n * PAGE_SIZE % PAGE_SIZE == 0
  {
    var q := n * PAGE_SIZE / PAGE_SIZE;
    DivUnique(n * PAGE_SIZE, PAGE_SIZE, n);
    assert q == n;
  }

  lemma PageOrNone(s: nat)
    requires s % PAGE_SIZE == 0
    ensures s == 0 || PAGE_SIZE <= s
  {
  }

  /** Splitting a block of 512 units of size `r` into its units. */
  lemma DivSplit(p: nat, r: nat)
    requires r > 0
    ensures p / (512 * r) == (p / r) / 512
    ensures p / r == 512 * (p / (512 * r)) + (p / r) % 512
  {
    var a := p / r;
    var b := a / 512;
    DivBounds(p, r);
    MulMono(512 * b, a, r);
    MulMono(a + 1, 512 * (b + 1), r);
    assert b * (512 * r) == (512 * b) * r;
    assert (b + 1) * (512 * r) == (512 * (b + 1)) * r;
    DivUnique(p, 512 * r, b);
  }
}
