/** Length-prefixed messages over a byte stream that splits writes and reads anywhere. */
module Framing {
  import opened Arith

  const U32: nat := 0x1_0000_0000

  /** A serializer and its inverse. */
  datatype Codec<!T> = Codec(enc: T -> seq<Byte>, dec: seq<Byte> -> Option<T>)

  /** The message survives serialization, and its length fits the prefix. */
  ghost predicate Carries<T>(c: Codec<T>, m: T) {
    c.dec(c.enc(m)) == Some(m) && |c.enc(m)| < U32
  }

  /** `to_be_bytes` and `from_be_bytes`. */
  function BigEndian(n: nat): (s: seq<Byte>)
    requires n < U32
    ensures |s| == 4
  {
    [n / 0x100_0000, n / 0x1_0000 % 256, n / 256 % 256, n % 256]
  }

  function FromBigEndian(s: seq<Byte>): (n: nat)
    requires |s| == 4
    ensures n < U32
  {
    var a: int, b: int, c: int, d: int := s[0], s[1], s[2], s[3];
    a * 0x100_0000 + b * 0x1_0000 + c * 256 + d
  }

  lemma BigEndianRoundTrip(n: nat)
    requires n < U32
    ensures FromBigEndian(BigEndian(n)) == n
  {
    var a, b := n / 256, n / 0x1_0000;
    assert b == a / 256 && n / 0x100_0000 == b / 256;
    assert n == a * 256 + n % 256 && a == b * 256 + a % 256 && b == b / 256 * 256 + b % 256;
  }

  /** The order of byte strings: what counts is the first place where they differ. */
  ghost predicate LexLess(s: seq<Byte>, r: seq<Byte>)
    requires |s| == |r|
  {
    exists i :: 0 <= i < |s| && s[i] < r[i] && forall j :: 0 <= j < i ==> s[j] == r[j]
  }

  /** The most significant byte comes first: prefixes are ordered as strings the way lengths are ordered as numbers. */
  lemma PrefixOrder(m: nat, n: nat)
    requires m < U32 && n < U32
    ensures m < n <==> LexLess(BigEndian(m), BigEndian(n))
  {
    BigEndianRoundTrip(m);
    BigEndianRoundTrip(n);
    NumberOrder(BigEndian(m), BigEndian(n));
  }

  lemma NumberOrder(s: seq<Byte>, r: seq<Byte>)
    requires |s| == |r| == 4
    ensures FromBigEndian(s) < FromBigEndian(r) <==> LexLess(s, r)
  {
    if s[0] != r[0] {
      DiffersAt(s, r, 0);
    } else if s[1] != r[1] {
      DiffersAt(s, r, 1);
    } else if s[2] != r[2] {
      DiffersAt(s, r, 2);
    } else if s[3] != r[3] {
      DiffersAt(s, r, 3);
    } else {
      assert s == r;
    }
  }

  lemma DiffersAt(s: seq<Byte>, r: seq<Byte>, i: nat)
    requires i < |s| == |r| && s[i] != r[i] && forall j :: 0 <= j < i ==> s[j] == r[j]
    ensures LexLess(s, r) <==> s[i] < r[i]
  {
    if LexLess(s, r) {
      var k :| 0 <= k < |s| && s[k] < r[k] && forall j :: 0 <= j < k ==> s[j] == r[j];
      assert k == i;
    }
  }

  /** What `send_msg` writes; the length is cut to 32 bits. */
  function Frame<T>(c: Codec<T>, m: T): (s: seq<Byte>)
    ensures |s| >= 4
  {
    BigEndian(|c.enc(m)| % U32) + c.enc(m)
  }

  /** How many more bytes `recv_msg` asks for after the bytes `s`: the prefix first, then the payload. */
  function Missing(s: seq<Byte>): (n: int)
    ensures n <= 0 ==> |s| >= 4
  {
    if |s| < 4 then 4 - |s| else 4 + FromBigEndian(s[..4]) - |s|
  }

  /** The message in a complete frame. */
  function Parse<T>(c: Codec<T>, s: seq<Byte>): Option<T>
    requires |s| >= 4
  {
    c.dec(s[4..])
  }

  /** A beginning of a frame misses the rest of it, or the rest of its prefix. */
  lemma MissingInFrame<T>(c: Codec<T>, m: T, s: seq<Byte>)
    requires |c.enc(m)| < U32 && s <= Frame(c, m)
    ensures |s| + Missing(s) <= |Frame(c, m)|
    ensures Missing(s) >= 0
    ensures Missing(s) == 0 <==> s == Frame(c, m)
  {
    if |s| >= 4 {
      PrefixSays(c.enc(m), s);
    }
  }

  lemma PrefixSays(payload: seq<Byte>, s: seq<Byte>)
    requires |payload| < U32 && |s| >= 4 && s <= BigEndian(|payload| % U32) + payload
    ensures FromBigEndian(s[..4]) == |payload|
  {
    var n := |payload|;
    assert n % U32 == n;
    assert s[..4] == BigEndian(n);
    BigEndianRoundTrip(n);
  }

  lemma ParseFrame<T>(c: Codec<T>, m: T)
    requires Carries(c, m)
    ensures Missing(Frame(c, m)) == 0 && Parse(c, Frame(c, m)) == Some(m)
  {
    MissingInFrame(c, m, Frame(c, m));
    assert Frame(c, m)[4..] == c.enc(m);
  }

  function Sum(s: seq<nat>): nat { if s == [] then 0 else Sum(s[..|s| - 1]) + s[|s| - 1] }

  lemma {:induction false} SumGrows(s: seq<nat>, i: nat)
    requires i <= |s|
    ensures Sum(s[..i]) <= Sum(s)
    decreases |s|
  {
    if i < |s| {
      SumGrows(s[..|s| - 1], i);
      assert s[..|s| - 1][..i] == s[..i];
    } else {
      assert s[..i] == s;
    }
  }

  lemma SameSplit(a: seq<Byte>, b: seq<Byte>, c: seq<Byte>, d: seq<Byte>)
    requires a + b == c + d && |a| == |c|
    ensures a == c && b == d
  {
    assert a == (a + b)[..|a|] && b == (a + b)[|a|..];
    assert c == (c + d)[..|c|] && d == (c + d)[|c|..];
  }

  /** The first four bytes of a frame announce its payload, which follows. */
  lemma PrefixRead(payload: seq<Byte>, prefix: seq<Byte>, wire: seq<Byte>, rest: seq<Byte>)
    requires |payload| < U32 && |prefix| == 4
    requires prefix + wire == BigEndian(|payload| % U32) + payload + rest
    ensures FromBigEndian(prefix) == |payload| && wire == payload + rest
  {
    var n := |payload|;
    assert n % U32 == n;
    assert BigEndian(n) + payload + rest == BigEndian(n) + (payload + rest);
    SameSplit(prefix, wire, BigEndian(n), payload + rest);
    BigEndianRoundTrip(n);
  }

  /** One direction of a connection: the bytes written and not read yet. */
  class ByteStream {
    var wire: seq<Byte>

    constructor ()
      ensures wire == []
    {
      wire := [];
    }

    /** `write_all`; `accepts[i]` is how many bytes the stream is ready to take at turn `i`. */
    method WriteAll(buf: seq<Byte>, accepts: seq<nat>) returns (sent: nat)
      modifies this
      ensures sent == Min(Sum(accepts), |buf|)
      ensures wire == old(wire) + buf[..sent]
    {
      sent := 0;
      var i: nat := 0;
      while sent < |buf| && i < |accepts|
        invariant i <= |accepts| && sent == Min(Sum(accepts[..i]), |buf|)
        invariant wire == old(wire) + buf[..sent]
      {
        var n := Min(accepts[i], |buf| - sent);
        assert buf[..sent + n] == buf[..sent] + buf[sent..sent + n];
        assert accepts[..i + 1][..i] == accepts[..i];
        wire := wire + buf[sent..sent + n];
        sent := sent + n;
        i := i + 1;
      }
      SumGrows(accepts, i);
      assert accepts[..|accepts|] == accepts;
    }

    /** `read_exact`; `offers[i]` is how many bytes the stream is ready to hand out at turn `i`. */
    method ReadExact(n: nat, offers: seq<nat>) returns (buf: seq<Byte>)
      modifies this
      ensures |buf| == Min(Min(Sum(offers), n), |old(wire)|)
      ensures buf + wire == old(wire)
    {
      buf := [];
      var i: nat := 0;
      while |buf| < n && i < |offers|
        invariant i <= |offers| && |buf| == Min(Min(Sum(offers[..i]), n), |old(wire)|)
        invariant buf + wire == old(wire)
      {
        var k := Min(Min(offers[i], n - |buf|), |wire|);
        assert offers[..i + 1][..i] == offers[..i];
        buf, wire := buf + wire[..k], wire[k..];
        i := i + 1;
      }
      SumGrows(offers, i);
      assert offers[..|offers|] == offers;
    }

    /** `send_msg`, once the stream has taken everything. */
    method SendMsg<T>(c: Codec<T>, m: T, accepts: seq<nat>, accepts2: seq<nat>)
      requires Sum(accepts) >= 4 && Sum(accepts2) >= |c.enc(m)|
      modifies this
      ensures wire == old(wire) + Frame(c, m)
    {
      var payload := c.enc(m);
      var prefix := BigEndian(|payload| % U32);
      var n := WriteAll(prefix, accepts);
      n := WriteAll(payload, accepts2);
    }

    /** `recv_msg` of a frame that has arrived: exactly its message, and exactly its bytes are gone. */
    method RecvMsg<T>(c: Codec<T>, offers: seq<nat>, offers2: seq<nat>, ghost m: T, ghost rest: seq<Byte>)
      returns (r: Option<T>)
      requires Carries(c, m) && wire == Frame(c, m) + rest
      requires Sum(offers) >= 4 && Sum(offers2) >= |c.enc(m)|
      modifies this
      ensures r == Some(m) && wire == rest
    {
      ghost var sent := c.enc(m);
      var prefix := ReadExact(4, offers);
      PrefixRead(sent, prefix, wire, rest);
      var payload := ReadExact(FromBigEndian(prefix), offers2);
      SameSplit(payload, wire, sent, rest);
      r := c.dec(payload);
    }
  }

  /** Whatever the splits, a message sent over an empty stream is received as sent, and the stream is empty again. */
  method Exchange<T>(c: Codec<T>, m: T, accepts: seq<nat>, accepts2: seq<nat>, offers: seq<nat>, offers2: seq<nat>)
    returns (r: Option<T>)
    requires Carries(c, m)
    requires Sum(accepts) >= 4 && Sum(accepts2) >= |c.enc(m)| && Sum(offers) >= 4 && Sum(offers2) >= |c.enc(m)|
    ensures r == Some(m)
  {
    var stream := new ByteStream();
    stream.SendMsg(c, m, accepts, accepts2);
    assert stream.wire == Frame(c, m) + [];
    r := stream.RecvMsg(c, offers, offers2, m, []);
  }
}
