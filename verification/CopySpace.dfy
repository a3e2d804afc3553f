/** Copying bytes into the pages of another address space, one translated page at a time. */
module CopySpace {
  import opened Arith
  import opened PageTable

  /** The page tables an address is read or written through. */
  datatype View = View(mem: Memory, root: nat, depth: nat)

  ghost predicate Ok(v: View) { IsTree(v.mem, v.root, v.depth) }

  /** `get_phys`. */
  function Phys(v: View, addr: nat): Option<nat>
    requires Ok(v)
  {
    TranslateInTable(v.mem, v.root, addr, v.depth)
  }

  /** Where byte `i` from `base` on lies in physical memory. */
  function PhysAt(v: View, base: nat, i: nat): Option<nat>
    requires Ok(v)
  {
    Phys(v, base + i)
  }

  /** Byte `i` from `base` on, read through the page tables. */
  ghost function ByteAt(ram: seq<int>, v: View, base: nat, i: nat): Option<int>
    requires Ok(v)
  {
    var a := PhysAt(v, base, i);
    if a.Some? && a.value < |ram| then Some(ram[a.value]) else None
  }

  function PageCount(total: nat): (n: nat)
    ensures (n - 1) * PAGE_SIZE < total <= n * PAGE_SIZE
  {
    if total % PAGE_SIZE == 0 then total / PAGE_SIZE else total / PAGE_SIZE + 1
  }

  /** The frame of destination page `k`, as the address of its first byte. */
  function FrameOf(to: View, start: nat, k: nat): Option<nat>
    requires Ok(to)
  {
    Phys(to, (start + k) * PAGE_SIZE)
  }

  lemma PhysInPage(v: View, page: nat, offset: nat)
    requires Ok(v) && offset < PAGE_SIZE
    ensures var f := Phys(v, page * PAGE_SIZE);
            && (f.Some? ==> f.value % PAGE_SIZE == 0)
            && Phys(v, page * PAGE_SIZE + offset) == if f.Some? then Some(f.value + offset) else None
  {
    TranslateIsLeaf(v.mem, v.root, v.depth, page, offset);
    TranslateIsLeaf(v.mem, v.root, v.depth, page, 0);
    PageMultiple(Leaf(v.mem, v.root, v.depth, page).addr);
  }

  /** The frames of the first `n` destination pages lie in memory, differ, and hold no source byte. */
  ghost predicate Apart(size: nat, from: View, src: nat, total: nat, to: View, start: nat, n: nat)
    requires Ok(from) && Ok(to)
  {
    && (forall i: nat :: i < total ==> PhysAt(from, src, i).Some? && PhysAt(from, src, i).value < size)
    && (forall k: nat :: k < n && FrameOf(to, start, k).Some? ==> FrameOf(to, start, k).value + PAGE_SIZE <= size)
    && (forall j: nat, k: nat :: j < k < n && FrameOf(to, start, j).Some? ==>
          FrameOf(to, start, j) != FrameOf(to, start, k))
    && (forall i: nat, k: nat :: i < total && k < n && FrameOf(to, start, k).Some? ==>
          PhysAt(from, src, i).value / PAGE_SIZE != FrameOf(to, start, k).value / PAGE_SIZE)
  }

  /** Byte `j` of the destination, through the frame of its page. */
  lemma DestByte(to: View, start: nat, j: nat)
    requires Ok(to)
    ensures var f := FrameOf(to, start, j / PAGE_SIZE);
            && (f.Some? ==> f.value % PAGE_SIZE == 0)
            && PhysAt(to, start * PAGE_SIZE, j) == if f.Some? then Some(f.value + j % PAGE_SIZE) else None
  {
    assert start * PAGE_SIZE + j == (start + j / PAGE_SIZE) * PAGE_SIZE + j % PAGE_SIZE;
    PhysInPage(to, start + j / PAGE_SIZE, j % PAGE_SIZE);
  }

  lemma BytesDistinct(size: nat, from: View, src: nat, total: nat, to: View, start: nat, n: nat, i: nat, j: nat)
    requires Ok(from) && Ok(to) && Apart(size, from, src, total, to, start, n)
    requires i < j < n * PAGE_SIZE && PhysAt(to, start * PAGE_SIZE, i).Some?
    ensures PhysAt(to, start * PAGE_SIZE, i) != PhysAt(to, start * PAGE_SIZE, j)
  {
    DestByte(to, start, i);
    DestByte(to, start, j);
    var p, q := i / PAGE_SIZE, j / PAGE_SIZE;
    if p < q && FrameOf(to, start, q).Some? {
      assert FrameOf(to, start, p) != FrameOf(to, start, q);
      FramesDisjoint(FrameOf(to, start, p).value, FrameOf(to, start, q).value, i % PAGE_SIZE, j % PAGE_SIZE);
    }
  }

  lemma FramesDisjoint(f: nat, g: nat, x: nat, y: nat)
    requires f % PAGE_SIZE == 0 && g % PAGE_SIZE == 0 && f != g && x < PAGE_SIZE && y < PAGE_SIZE
    ensures f + x != g + y
  {
  }

  lemma SourceApart(size: nat, from: View, src: nat, total: nat, to: View, start: nat, n: nat, i: nat, j: nat)
    requires Ok(from) && Ok(to) && Apart(size, from, src, total, to, start, n)
    requires i < total && j < n * PAGE_SIZE
    ensures PhysAt(from, src, i) != PhysAt(to, start * PAGE_SIZE, j)
  {
    DestByte(to, start, j);
    var k := j / PAGE_SIZE;
    if FrameOf(to, start, k).Some? {
      assert PhysAt(from, src, i).value / PAGE_SIZE != FrameOf(to, start, k).value / PAGE_SIZE;
    }
  }

  /** The first `upTo` bytes of the destination are those the source had. */
  ghost predicate Copied(was: seq<int>, now: seq<int>, from: View, src: nat, to: View, base: nat, upTo: nat)
    requires Ok(from) && Ok(to)
  {
    forall i: nat :: i < upTo ==>
      ByteAt(now, to, base, i).Some? && ByteAt(now, to, base, i) == ByteAt(was, from, src, i)
  }

  /** `a` holds one of the bytes `lo..hi` of the destination. */
  ghost predicate IsTarget(to: View, base: nat, lo: nat, hi: nat, a: nat)
    requires Ok(to)
  {
    exists i: nat :: lo <= i < hi && PhysAt(to, base, i) == Some(a)
  }

  /** Nothing but the bytes `lo..hi` of the destination changed. */
  ghost predicate OnlyBytes(was: seq<int>, now: seq<int>, to: View, base: nat, lo: nat, hi: nat)
    requires Ok(to)
  {
    && |now| == |was|
    && forall a: nat :: a < |was| && !IsTarget(to, base, lo, hi, a) ==> now[a] == was[a]
  }

  /** A destination byte outside the bytes written reads as before. */
  lemma OtherBytes(size: nat, from: View, src: nat, total: nat, to: View, start: nat, n: nat,
                   was: seq<int>, now: seq<int>, lo: nat, hi: nat, j: nat)
    requires Ok(from) && Ok(to) && Apart(size, from, src, total, to, start, n)
    requires OnlyBytes(was, now, to, start * PAGE_SIZE, lo, hi) && hi <= n * PAGE_SIZE
    requires j < n * PAGE_SIZE && !(lo <= j < hi)
    ensures ByteAt(now, to, start * PAGE_SIZE, j) == ByteAt(was, to, start * PAGE_SIZE, j)
  {
    var base := start * PAGE_SIZE;
    var a := PhysAt(to, base, j);
    if a.Some? && a.value < |was| {
      forall i: nat | lo <= i < hi ensures PhysAt(to, base, i) != a {
        if i < j && PhysAt(to, base, i).Some? {
          BytesDistinct(size, from, src, total, to, start, n, i, j);
        } else if j < i {
          BytesDistinct(size, from, src, total, to, start, n, j, i);
        }
      }
    }
  }

  /** A source byte reads as before. */
  lemma SourceBytes(size: nat, from: View, src: nat, total: nat, to: View, start: nat, n: nat,
                    was: seq<int>, now: seq<int>, lo: nat, hi: nat, i: nat)
    requires Ok(from) && Ok(to) && Apart(size, from, src, total, to, start, n)
    requires OnlyBytes(was, now, to, start * PAGE_SIZE, lo, hi) && hi <= n * PAGE_SIZE && i < total
    ensures ByteAt(now, from, src, i) == ByteAt(was, from, src, i)
  {
    forall j: nat | lo <= j < hi ensures PhysAt(to, start * PAGE_SIZE, j) != PhysAt(from, src, i) {
      SourceApart(size, from, src, total, to, start, n, i, j);
    }
  }

  lemma OnlyBytesThen(was: seq<int>, mid: seq<int>, now: seq<int>, to: View, base: nat, lo: nat, cut: nat, hi: nat)
    requires Ok(to) && lo <= cut <= hi
    requires OnlyBytes(was, mid, to, base, lo, cut) && OnlyBytes(mid, now, to, base, cut, hi)
    ensures OnlyBytes(was, now, to, base, lo, hi)
  {
  }

  /** One page more. */
  lemma PageDone(size: nat, from: View, src: nat, total: nat, to: View, start: nat, n: nat,
                 was: seq<int>, mid: seq<int>, now: seq<int>, lo: nat, hi: nat)
    requires Ok(from) && Ok(to) && Apart(size, from, src, total, to, start, n)
    requires |was| == size && lo <= hi <= total <= n * PAGE_SIZE
    requires Copied(was, mid, from, src, to, start * PAGE_SIZE, lo)
    requires OnlyBytes(was, mid, to, start * PAGE_SIZE, 0, lo)
    requires OnlyBytes(mid, now, to, start * PAGE_SIZE, lo, hi)
    requires forall i: nat :: lo <= i < hi ==>
               && ByteAt(now, to, start * PAGE_SIZE, i).Some?
               && ByteAt(now, to, start * PAGE_SIZE, i) == ByteAt(mid, from, src, i)
    ensures Copied(was, now, from, src, to, start * PAGE_SIZE, hi)
    ensures OnlyBytes(was, now, to, start * PAGE_SIZE, 0, hi)
  {
    OnlyBytesThen(was, mid, now, to, start * PAGE_SIZE, 0, lo, hi);
    forall i: nat | i < hi
      ensures ByteAt(now, to, start * PAGE_SIZE, i).Some?
      ensures ByteAt(now, to, start * PAGE_SIZE, i) == ByteAt(was, from, src, i)
    {
      if i < lo {
        OtherBytes(size, from, src, total, to, start, n, mid, now, lo, hi, i);
      } else {
        SourceBytes(size, from, src, total, to, start, n, was, mid, 0, lo, i);
      }
    }
  }

  /** `copy_from`: bytes `lo..hi` of the source to `dest`, which holds none of them. */
  method CopyBytes(ram: array<int>, from: View, src: nat, lo: nat, hi: nat, dest: nat)
    requires Ok(from) && lo <= hi && dest + (hi - lo) <= ram.Length
    requires forall i: nat :: lo <= i < hi ==>
               && PhysAt(from, src, i).Some? && PhysAt(from, src, i).value < ram.Length
               && !(dest <= PhysAt(from, src, i).value < dest + (hi - lo))
    modifies ram
    ensures forall i: nat :: lo <= i < hi ==> ByteAt(old(ram[..]), from, src, i) == Some(ram[dest + (i - lo)])
    ensures forall a :: 0 <= a < ram.Length && !(dest <= a < dest + (hi - lo)) ==> ram[a] == old(ram[a])
  {
    var j: nat := lo;
    while j < hi
      invariant lo <= j <= hi
      invariant forall i: nat :: lo <= i < j ==> ByteAt(old(ram[..]), from, src, i) == Some(ram[dest + (i - lo)])
      invariant forall a :: 0 <= a < ram.Length && !(dest <= a < dest + (j - lo)) ==> ram[a] == old(ram[a])
    {
      var a := PhysAt(from, src, j);
      ram[dest + (j - lo)] := ram[a.value];
      j := j + 1;
    }
  }

  /** One turn of the copy loop: the bytes `lo..hi` of the source, within one page of the destination. */
  method CopyPage(ram: array<int>, from: View, src: nat, total: nat, to: View, start: nat, n: nat, k: nat, frame: nat,
                  hi: nat)
    requires Ok(from) && Ok(to) && Apart(ram.Length, from, src, total, to, start, n)
    requires k < n && FrameOf(to, start, k) == Some(frame)
    requires k * PAGE_SIZE < hi <= total && hi <= (k + 1) * PAGE_SIZE
    modifies ram
    ensures OnlyBytes(old(ram[..]), ram[..], to, start * PAGE_SIZE, k * PAGE_SIZE, hi)
    ensures forall i: nat :: k * PAGE_SIZE <= i < hi ==>
              && ByteAt(ram[..], to, start * PAGE_SIZE, i).Some?
              && ByteAt(ram[..], to, start * PAGE_SIZE, i) == ByteAt(old(ram[..]), from, src, i)
  {
    var lo := k * PAGE_SIZE;
    forall i: nat | lo <= i < hi
      ensures PhysAt(to, start * PAGE_SIZE, i) == Some(frame + (i - lo))
      ensures !(frame <= PhysAt(from, src, i).value < frame + PAGE_SIZE)
    {
      SamePage(k, i);
      DestByte(to, start, i);
      OtherPage(PhysAt(from, src, i).value, frame);
    }
    CopyBytes(ram, from, src, lo, hi, frame);
    forall i: nat | lo <= i < hi
      ensures ByteAt(ram[..], to, start * PAGE_SIZE, i) == Some(ram[frame + (i - lo)])
    {
    }
    WroteBytes(old(ram[..]), ram[..], to, start * PAGE_SIZE, lo, hi, frame);
  }

  lemma SamePage(k: nat, i: nat)
    requires k * PAGE_SIZE <= i < (k + 1) * PAGE_SIZE
    ensures i / PAGE_SIZE == k && i % PAGE_SIZE == i - k * PAGE_SIZE
  {
  }

  lemma OtherPage(a: nat, frame: nat)
    requires frame % PAGE_SIZE == 0 && a / PAGE_SIZE != frame / PAGE_SIZE
    ensures !(frame <= a < frame + PAGE_SIZE)
  {
  }

  /** The zero fill of the last page, behind byte `total` of the destination. */
  method ZeroTail(ram: array<int>, to: View, start: nat, total: nat, frame: nat)
    requires Ok(to) && total % PAGE_SIZE != 0
    requires FrameOf(to, start, total / PAGE_SIZE) == Some(frame) && frame + PAGE_SIZE <= ram.Length
    modifies ram
    ensures OnlyBytes(old(ram[..]), ram[..], to, start * PAGE_SIZE, total, PageCount(total) * PAGE_SIZE)
    ensures forall i: nat :: total <= i < PageCount(total) * PAGE_SIZE ==>
              ByteAt(ram[..], to, start * PAGE_SIZE, i) == Some(0)
  {
    var tail := total % PAGE_SIZE;
    ghost var end := PageCount(total) * PAGE_SIZE;
    var x: nat := tail;
    while x < PAGE_SIZE
      invariant tail <= x <= PAGE_SIZE
      invariant forall a :: frame + tail <= a < frame + x ==> ram[a] == 0
      invariant forall a :: 0 <= a < ram.Length && !(frame + tail <= a < frame + x) ==> ram[a] == old(ram[a])
    {
      ram[frame + x] := 0;
      x := x + 1;
    }
    TailBytes(to, start, total, frame);
    WroteBytes(old(ram[..]), ram[..], to, start * PAGE_SIZE, total, end, frame + tail);
  }

  lemma TailBytes(to: View, start: nat, total: nat, frame: nat)
    requires Ok(to) && total % PAGE_SIZE != 0 && FrameOf(to, start, total / PAGE_SIZE) == Some(frame)
    ensures PageCount(total) * PAGE_SIZE == total + (PAGE_SIZE - total % PAGE_SIZE)
    ensures forall i: nat :: total <= i < PageCount(total) * PAGE_SIZE ==>
              PhysAt(to, start * PAGE_SIZE, i) == Some(frame + total % PAGE_SIZE + (i - total))
  {
    var k := total / PAGE_SIZE;
    forall i: nat | total <= i < PageCount(total) * PAGE_SIZE
      ensures PhysAt(to, start * PAGE_SIZE, i) == Some(frame + total % PAGE_SIZE + (i - total))
    {
      SamePage(k, i);
      DestByte(to, start, i);
    }
  }

  /** Bytes written consecutively in memory that are consecutive bytes of the destination. */
  lemma WroteBytes(was: seq<int>, now: seq<int>, to: View, base: nat, lo: nat, hi: nat, first: nat)
    requires Ok(to) && lo <= hi && |now| == |was|
    requires forall i: nat :: lo <= i < hi ==> PhysAt(to, base, i) == Some(first + (i - lo))
    requires forall a :: 0 <= a < |was| && !(first <= a < first + (hi - lo)) ==> now[a] == was[a]
    ensures OnlyBytes(was, now, to, base, lo, hi)
  {
    forall a: nat | first <= a < first + (hi - lo) ensures IsTarget(to, base, lo, hi, a) {
      assert PhysAt(to, base, lo + (a - first)) == Some(a);
    }
  }

  /** Every page that receives bytes is mapped, and the first page in any case. */
  ghost predicate AllMapped(to: View, start: nat, total: nat)
    requires Ok(to)
  {
    FrameOf(to, start, 0).Some? && forall k: nat :: k < PageCount(total) ==> FrameOf(to, start, k).Some?
  }

  /** The loop over the pages; `frame` is the last one written, or the first one if there was none to write. */
  method CopyPages(ram: array<int>, from: View, src: nat, to: View, start: nat, total: nat) returns (frame: Option<nat>)
    requires Ok(from) && Ok(to) && Apart(ram.Length, from, src, total, to, start, PageCount(total))
    modifies ram
    ensures frame.Some? <==> AllMapped(to, start, total)
    ensures frame.Some? ==>
              && (total % PAGE_SIZE != 0 ==> frame == FrameOf(to, start, total / PAGE_SIZE))
              && Copied(old(ram[..]), ram[..], from, src, to, start * PAGE_SIZE, total)
              && OnlyBytes(old(ram[..]), ram[..], to, start * PAGE_SIZE, 0, total)
  {
    var pages := PageCount(total);
    frame := FrameOf(to, start, 0);
    if frame.None? {
      return;
    }
    var offset: nat := 0;
    var k: nat := 0;
    while k < pages
      invariant k <= pages && offset == Min(k * PAGE_SIZE, total)
      invariant forall j: nat :: j < k ==> FrameOf(to, start, j).Some?
      invariant frame.Some? && frame == FrameOf(to, start, if k == 0 then 0 else k - 1)
      invariant Copied(old(ram[..]), ram[..], from, src, to, start * PAGE_SIZE, offset)
      invariant OnlyBytes(old(ram[..]), ram[..], to, start * PAGE_SIZE, 0, offset)
    {
      ghost var mid := ram[..];
      frame := FrameOf(to, start, k);
      if frame.None? {
        return;
      }
      var bytes := if total - offset < PAGE_SIZE then total - offset else PAGE_SIZE;
      CopyPage(ram, from, src, total, to, start, pages, k, frame.value, offset + bytes);
      PageDone(ram.Length, from, src, total, to, start, pages, old(ram[..]), mid, ram[..], offset, offset + bytes);
      offset := offset + bytes;
      k := k + 1;
    }
  }

  /**
    `copy_to_addr_space`: it panics exactly when the area is too small or a page is not mapped;
    otherwise the destination reads as the source did, the rest of its last page as zero or as
    before, and no other byte of memory changed.
   */
  method CopyToAddrSpace(ram: array<int>, from: View, src: nat, to: View, start: nat, areaPages: nat, total: nat,
                         fill: bool)
    returns (ok: bool)
    requires Ok(from) && Ok(to) && Apart(ram.Length, from, src, total, to, start, PageCount(total))
    modifies ram
    ensures ok <==> total <= areaPages * PAGE_SIZE && AllMapped(to, start, total)
    ensures ok ==> Copied(old(ram[..]), ram[..], from, src, to, start * PAGE_SIZE, total)
    ensures ok ==> forall i: nat :: total <= i < PageCount(total) * PAGE_SIZE ==>
              ByteAt(ram[..], to, start * PAGE_SIZE, i)
                == if fill then Some(0) else ByteAt(old(ram[..]), to, start * PAGE_SIZE, i)
    ensures ok ==>
              OnlyBytes(old(ram[..]), ram[..], to, start * PAGE_SIZE, 0,
                        if fill then PageCount(total) * PAGE_SIZE else total)
  {
    if areaPages * PAGE_SIZE < total {
      return false;
    }
    var frame := CopyPages(ram, from, src, to, start, total);
    if frame.None? {
      return false;
    }
    ghost var copied := ram[..];
    if fill && total % PAGE_SIZE != 0 {
      ZeroTail(ram, to, start, total, frame.value);
      ZeroDone(ram.Length, from, src, total, to, start, PageCount(total), old(ram[..]), copied, ram[..]);
    } else {
      Untouched(ram.Length, from, src, total, to, start, PageCount(total), old(ram[..]), copied);
    }
    return true;
  }

  lemma ZeroDone(size: nat, from: View, src: nat, total: nat, to: View, start: nat, n: nat,
                 was: seq<int>, mid: seq<int>, now: seq<int>)
    requires Ok(from) && Ok(to) && Apart(size, from, src, total, to, start, n) && n == PageCount(total)
    requires Copied(was, mid, from, src, to, start * PAGE_SIZE, total)
    requires OnlyBytes(was, mid, to, start * PAGE_SIZE, 0, total)
    requires OnlyBytes(mid, now, to, start * PAGE_SIZE, total, n * PAGE_SIZE)
    ensures Copied(was, now, from, src, to, start * PAGE_SIZE, total)
    ensures OnlyBytes(was, now, to, start * PAGE_SIZE, 0, n * PAGE_SIZE)
  {
    OnlyBytesThen(was, mid, now, to, start * PAGE_SIZE, 0, total, n * PAGE_SIZE);
    forall i: nat | i < total
      ensures ByteAt(now, to, start * PAGE_SIZE, i) == ByteAt(mid, to, start * PAGE_SIZE, i)
    {
      OtherBytes(size, from, src, total, to, start, n, mid, now, total, n * PAGE_SIZE, i);
    }
  }

  lemma Untouched(size: nat, from: View, src: nat, total: nat, to: View, start: nat, n: nat, was: seq<int>,
                  now: seq<int>)
    requires Ok(from) && Ok(to) && Apart(size, from, src, total, to, start, n) && n == PageCount(total)
    requires OnlyBytes(was, now, to, start * PAGE_SIZE, 0, total)
    ensures forall i: nat :: total <= i < n * PAGE_SIZE ==>
              ByteAt(now, to, start * PAGE_SIZE, i) == ByteAt(was, to, start * PAGE_SIZE, i)
    ensures n * PAGE_SIZE == total ==> OnlyBytes(was, now, to, start * PAGE_SIZE, 0, n * PAGE_SIZE)
  {
    forall i: nat | total <= i < n * PAGE_SIZE
      ensures ByteAt(now, to, start * PAGE_SIZE, i) == ByteAt(was, to, start * PAGE_SIZE, i)
    {
      OtherBytes(size, from, src, total, to, start, n, was, now, 0, total, i);
    }
  }
}
