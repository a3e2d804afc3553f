/** Lists of half-open physical memory regions and the sets of addresses they stand for. */
module Regions {
  import opened Arith

  /** Physical addresses in bytes; `end` is exclusive. */
  datatype Region = Region(start: nat, end: nat)

  ghost predicate Holds(r: Region, a: nat) { r.start <= a < r.end }

  /** `a` lies in some region of the list. */
  ghost predicate Covers(rs: seq<Region>, a: nat) {
    exists k :: 0 <= k < |rs| && Holds(rs[k], a)
  }

  ghost predicate Ordered(rs: seq<Region>) {
    forall k :: 0 <= k < |rs| ==> rs[k].start <= rs[k].end
  }

  /** Sorted by start, as the insertion loop leaves the list before merging. */
  ghost predicate Sorted(rs: seq<Region>) {
    forall i, j :: 0 <= i < j < |rs| ==> rs[i].start <= rs[j].start
  }

  /** Ascending with a gap of at least one address between neighbours. */
  ghost predicate Separated(rs: seq<Region>) {
    && Ordered(rs)
    && forall i, j :: 0 <= i < j < |rs| ==> rs[i].end < rs[j].start
  }

  /** Ascending without overlap; neighbours may touch. */
  ghost predicate Disjoint(rs: seq<Region>) {
    && Ordered(rs)
    && forall i, j :: 0 <= i < j < |rs| ==> rs[i].end <= rs[j].start
  }

  ghost predicate NonEmpty(rs: seq<Region>) {
    forall k :: 0 <= k < |rs| ==> rs[k].start < rs[k].end
  }

  ghost predicate Aligned(rs: seq<Region>) {
    forall k :: 0 <= k < |rs| ==> rs[k].start % PAGE_SIZE == 0 && rs[k].end % PAGE_SIZE == 0
  }

  ghost predicate Within(rs: seq<Region>, lo: nat, hi: nat) {
    forall k :: 0 <= k < |rs| ==> lo <= rs[k].start && rs[k].end <= hi
  }

  lemma CoversSplit(xs: seq<Region>, ys: seq<Region>, a: nat)
    ensures Covers(xs + ys, a) <==> Covers(xs, a) || Covers(ys, a)
  {
    if Covers(xs, a) {
      var k :| 0 <= k < |xs| && Holds(xs[k], a);
      assert (xs + ys)[k] == xs[k];
    }
    if Covers(ys, a) {
      var k :| 0 <= k < |ys| && Holds(ys[k], a);
      assert (xs + ys)[|xs| + k] == ys[k];
    }
  }

  lemma CoversOne(r: Region, a: nat)
    ensures Covers([r], a) <==> Holds(r, a)
  {
    assert [r][0] == r;
  }

  lemma CoversCons(rs: seq<Region>, a: nat)
    requires rs != []
    ensures Covers(rs, a) <==> Holds(rs[0], a) || Covers(rs[1..], a)
  {
  }

  // ----- canonical form -----

  /** Two lists of separated, non-empty regions that cover the same addresses are the same list. */
  lemma {:induction false} Canonical(xs: seq<Region>, ys: seq<Region>)
    requires Separated(xs) && NonEmpty(xs) && Separated(ys) && NonEmpty(ys)
    requires forall a: nat :: Covers(xs, a) <==> Covers(ys, a)
    ensures xs == ys
    decreases |xs|
  {
    FirstCovered(xs);
    FirstCovered(ys);
    if xs != [] {
      SameHead(xs, ys);
      SameHead(ys, xs);
      TailShape(xs);
      TailShape(ys);
      forall a: nat ensures Covers(xs[1..], a) <==> Covers(ys[1..], a) {
        SameTail(xs, ys, a);
      }
      Canonical(xs[1..], ys[1..]);
      SameCons(xs, ys);
    }
  }

  lemma FirstCovered(xs: seq<Region>)
    requires NonEmpty(xs)
    ensures xs != [] ==> Covers(xs, xs[0].start)
    ensures xs == [] ==> forall a: nat :: !Covers(xs, a)
  {
  }

  lemma TailShape(xs: seq<Region>)
    requires Separated(xs) && NonEmpty(xs) && xs != []
    ensures Separated(xs[1..]) && NonEmpty(xs[1..])
  {
  }

  lemma SameCons(xs: seq<Region>, ys: seq<Region>)
    requires xs != [] && ys != [] && xs[0] == ys[0] && xs[1..] == ys[1..]
    ensures xs == ys
  {
  }

  lemma SameTail(xs: seq<Region>, ys: seq<Region>, a: nat)
    requires Separated(xs) && Separated(ys) && xs != [] && ys != [] && xs[0] == ys[0]
    requires Covers(xs, a) <==> Covers(ys, a)
    ensures Covers(xs[1..], a) <==> Covers(ys[1..], a)
  {
  }

  lemma TailApart(xs: seq<Region>, a: nat)
    requires Separated(xs) && xs != []
    ensures Covers(xs[1..], a) ==> xs[0].end < a
  {
  }

  lemma SameHead(xs: seq<Region>, ys: seq<Region>)
    requires Separated(xs) && NonEmpty(xs) && Separated(ys) && NonEmpty(ys)
    requires xs != [] && ys != []
    requires forall a: nat :: Covers(xs, a) <==> Covers(ys, a)
    ensures ys[0].start <= xs[0].start
    ensures ys[0].start == xs[0].start ==> xs[0].end <= ys[0].end
  {
    assert Holds(xs[0], xs[0].start);
    assert Covers(xs, xs[0].start);
    CoversCons(ys, xs[0].start);
    TailApart(ys, xs[0].start);
    if ys[0].start == xs[0].start && ys[0].end < xs[0].end {
      var a := ys[0].end;
      assert Holds(xs[0], a);
      assert Covers(xs, a);
      CoversCons(ys, a);
      TailApart(ys, a);
      assert false;
    }
  }

  // ----- insertion with merging -----

  /** Position of the first region starting at or after `start`. */
  ghost function InsertPos(rs: seq<Region>, start: nat): (p: nat)
    ensures p <= |rs|
    ensures forall k :: 0 <= k < p ==> rs[k].start < start
    ensures p < |rs| ==> start <= rs[p].start
  {
    if rs == [] || rs[0].start >= start then 0 else
      var p := 1 + InsertPos(rs[1..], start);
      assert forall k :: 1 <= k < |rs| ==> rs[k] == rs[1..][k - 1];
      p
  }

  ghost function InsertSorted(rs: seq<Region>, r: Region): seq<Region> {
    rs[..InsertPos(rs, r.start)] + [r] + rs[InsertPos(rs, r.start)..]
  }

  /** Merging `cur` with the regions that follow it, overlapping or touching ones becoming one. */
  ghost function Merge(cur: Region, rest: seq<Region>): (out: seq<Region>)
    ensures out != []
    ensures |out| <= 1 + |rest|
    decreases |rest|
  {
    if rest == [] then [cur]
    else if rest[0].start <= cur.end then
      Merge(cur.(end := Max(cur.end, rest[0].end)), rest[1..])
    else
      [cur] + Merge(rest[0], rest[1..])
  }

  ghost function Merged(all: seq<Region>): (out: seq<Region>)
    requires all != []
    ensures out != []
    ensures |out| <= |all|
  {
    Merge(all[0], all[1..])
  }

  ghost function Insert(rs: seq<Region>, r: Region): (out: seq<Region>)
    ensures out != []
    ensures |out| <= |rs| + 1
  {
    Merged(InsertSorted(rs, r))
  }

  lemma InsertSortedIs(rs: seq<Region>, r: Region)
    requires Separated(rs) && r.start <= r.end
    ensures Sorted(InsertSorted(rs, r)) && Ordered(InsertSorted(rs, r))
    ensures forall a: nat :: Covers(InsertSorted(rs, r), a) <==> Covers(rs, a) || Holds(r, a)
  {
    var p := InsertPos(rs, r.start);
    forall a: nat
      ensures Covers(InsertSorted(rs, r), a) <==> Covers(rs, a) || Holds(r, a)
    {
      assert rs == rs[..p] + rs[p..];
      CoversSplit(rs[..p], rs[p..], a);
      CoversSplit(rs[..p] + [r], rs[p..], a);
      CoversSplit(rs[..p], [r], a);
      CoversOne(r, a);
    }
  }

  lemma {:induction false} MergeCovers(cur: Region, rest: seq<Region>, a: nat)
    requires Sorted([cur] + rest) && Ordered([cur] + rest)
    ensures Covers(Merge(cur, rest), a) <==> Covers([cur] + rest, a)
    decreases |rest|
  {
    CoversCons([cur] + rest, a);
    assert ([cur] + rest)[1..] == rest;
    if rest == [] {
    } else {
      SortedTail(cur, rest);
      CoversCons(rest, a);
      var rest0, tail := rest[0], rest[1..];
      if rest0.start <= cur.end {
        var cur2 := cur.(end := Max(cur.end, rest0.end));
        MergeCovers(cur2, tail, a);
        CoversCons([cur2] + tail, a);
        assert ([cur2] + tail)[1..] == tail;
      } else {
        MergeCovers(rest0, tail, a);
        assert [rest0] + tail == rest;
        CoversCons([cur] + Merge(rest0, tail), a);
        assert ([cur] + Merge(rest0, tail))[1..] == Merge(rest0, tail);
      }
    }
  }

  lemma SortedCons(r: Region, rs: seq<Region>)
    ensures Sorted([r] + rs) && Ordered([r] + rs) <==>
            Sorted(rs) && Ordered(rs) && r.start <= r.end && forall k :: 0 <= k < |rs| ==> r.start <= rs[k].start
  {
    var all := [r] + rs;
    assert all[0] == r;
    if Sorted(all) && Ordered(all) {
      forall k | 0 <= k < |rs| ensures r.start <= rs[k].start && rs[k].start <= rs[k].end {
        assert all[k + 1] == rs[k];
      }
      forall i, j | 0 <= i < j < |rs| ensures rs[i].start <= rs[j].start {
        assert all[i + 1] == rs[i] && all[j + 1] == rs[j];
      }
    }
  }

  lemma SortedTail(cur: Region, rest: seq<Region>)
    requires Sorted([cur] + rest) && Ordered([cur] + rest) && rest != []
    ensures cur.start <= cur.end && cur.start <= rest[0].start <= rest[0].end
    ensures Sorted([rest[0]] + rest[1..]) && Ordered([rest[0]] + rest[1..])
    ensures forall e: nat :: cur.start <= e ==>
              Sorted([Region(cur.start, e)] + rest[1..]) && Ordered([Region(cur.start, e)] + rest[1..])
  {
    assert [rest[0]] + rest[1..] == rest;
    SortedCons(cur, rest);
    SortedCons(rest[0], rest[1..]);
    forall e: nat | cur.start <= e
      ensures Sorted([Region(cur.start, e)] + rest[1..]) && Ordered([Region(cur.start, e)] + rest[1..])
    {
      SortedCons(Region(cur.start, e), rest[1..]);
    }
  }

  lemma SeparatedCons(b: Region, out: seq<Region>)
    requires Separated(out) && b.start <= b.end && (out != [] ==> b.end < out[0].start)
    ensures Separated([b] + out)
  {
    var all := [b] + out;
    forall i, j | 0 <= i < j < |all| ensures all[i].end < all[j].start {
      assert all[j] == out[j - 1];
      assert j > 1 ==> out[0].start <= out[0].end < out[j - 1].start;
    }
  }

  lemma {:induction false} MergeSeparated(cur: Region, rest: seq<Region>)
    requires Sorted([cur] + rest) && Ordered([cur] + rest)
    ensures Separated(Merge(cur, rest))
    ensures Merge(cur, rest)[0].start == cur.start
    decreases |rest|
  {
    if rest != [] {
      SortedTail(cur, rest);
      if rest[0].start <= cur.end {
        MergeSeparated(cur.(end := Max(cur.end, rest[0].end)), rest[1..]);
      } else {
        var out := Merge(rest[0], rest[1..]);
        MergeSeparated(rest[0], rest[1..]);
        SeparatedCons(cur, out);
      }
    } else {
      assert ([cur] + rest)[0] == cur;
    }
  }

  /** Bounds and alignment of the ends survive merging. */
  lemma {:induction false} MergeBounds(cur: Region, rest: seq<Region>, lo: nat, hi: nat)
    requires lo <= cur.start && cur.end <= hi && cur.start % PAGE_SIZE == 0 && cur.end % PAGE_SIZE == 0
    requires Within(rest, lo, hi) && Aligned(rest)
    ensures Within(Merge(cur, rest), lo, hi) && Aligned(Merge(cur, rest))
    decreases |rest|
  {
    if rest != [] {
      var next := rest[0];
      assert Within(rest[1..], lo, hi) && Aligned(rest[1..]);
      if next.start <= cur.end {
        MergeBounds(cur.(end := Max(cur.end, next.end)), rest[1..], lo, hi);
      } else {
        MergeBounds(next, rest[1..], lo, hi);
      }
    }
  }

  /** Inserting a region adds exactly its addresses and keeps the list separated. */
  lemma InsertCorrect(rs: seq<Region>, r: Region)
    requires Separated(rs) && r.start <= r.end
    ensures Separated(Insert(rs, r))
    ensures forall a: nat :: Covers(Insert(rs, r), a) <==> Covers(rs, a) || Holds(r, a)
  {
    var all := InsertSorted(rs, r);
    InsertSortedIs(rs, r);
    assert [all[0]] + all[1..] == all;
    MergeSeparated(all[0], all[1..]);
    forall a: nat
      ensures Covers(Insert(rs, r), a) <==> Covers(rs, a) || Holds(r, a)
    {
      MergeCovers(all[0], all[1..], a);
    }
  }

  lemma InsertBounds(rs: seq<Region>, r: Region, lo: nat, hi: nat)
    requires Within(rs, lo, hi) && Aligned(rs)
    requires lo <= r.start && r.end <= hi && r.start % PAGE_SIZE == 0 && r.end % PAGE_SIZE == 0
    ensures Within(Insert(rs, r), lo, hi) && Aligned(Insert(rs, r))
  {
    var all, p := InsertSorted(rs, r), InsertPos(rs, r.start);
    assert forall k :: 0 <= k < |all| ==> all[k] == if k < p then rs[k] else if k == p then r else rs[k - 1];
    assert Within(all, lo, hi) && Aligned(all);
    MergeBounds(all[0], all[1..], lo, hi);
  }

  lemma {:induction false} MergeNonEmpty(cur: Region, rest: seq<Region>)
    requires cur.start < cur.end && NonEmpty(rest)
    ensures NonEmpty(Merge(cur, rest))
    decreases |rest|
  {
    if rest != [] {
      var next := rest[0];
      if next.start <= cur.end {
        MergeNonEmpty(cur.(end := Max(cur.end, next.end)), rest[1..]);
      } else {
        MergeNonEmpty(next, rest[1..]);
      }
    }
  }

  lemma InsertNonEmpty(rs: seq<Region>, r: Region)
    requires NonEmpty(rs) && r.start < r.end
    ensures NonEmpty(Insert(rs, r))
  {
    var all := InsertSorted(rs, r);
    assert NonEmpty(all);
    MergeNonEmpty(all[0], all[1..]);
  }
}
