/** The control conversation of one netperf session, byte by byte. */
module Netperf {
  import opened Arith
  import opened Framing

  datatype Protocol = Tcp | Udp

  /** The client's options; `rest` stands for those that do not steer the conversation. */
  datatype Cli = Cli(protocol: Protocol, reverse: bool, streams: nat, rest: nat)

  datatype Msg =
    | CliArgs(cli: Cli)
    | Results(summary: string, json: string)
    | Ack
    | Ready
    | StreamReady(id: nat)
    | AllStreamsReady
    | StartBenchmark

  /**
    What a peer does next: send, wait for one kind of message, or, at a `Join`, connect or accept one data
    connection.
   */
  datatype Act = Send(msg: Msg) | Await(kind: Kind) | Join

  datatype Kind = WantCli | WantAck | WantReady | WantStreamReady | WantStart | WantResults

  predicate Expected(kind: Kind, m: Msg) {
    match kind
    case WantCli => m.CliArgs?
    case WantAck => m.Ack?
    case WantReady => m.Ready?
    case WantStreamReady => m.StreamReady?
    case WantStart => m.StartBenchmark?
    case WantResults => m.Results?
  }

  // ----- the two programs -----

  /** `connect_tcp_streams` and `accept_tcp_streams`, from stream `i` on. */
  function ConnectStreams(i: nat, n: nat): seq<Act>
    decreases n - i
  {
    if i >= n then [] else [Await(WantStreamReady), Join] + ConnectStreams(i + 1, n)
  }

  function AcceptStreams(i: nat, n: nat): seq<Act>
    decreases n - i
  {
    if i >= n then [] else [Send(StreamReady(i)), Join] + AcceptStreams(i + 1, n)
  }

  /** The receiver of the benchmark tells the sender when to begin. */
  function Synchronize(receiver: bool, parallel: bool): seq<Act> {
    if parallel then (if receiver then [Send(StartBenchmark)] else [Await(WantStart)])
    else if receiver then [Send(Ready)] else [Await(WantReady)]
  }

  /** `start_client` after connecting the control channel. */
  function ClientScript(cli: Cli): seq<Act> {
    var parallel := cli.streams > 1;
    [Send(CliArgs(cli)), Await(WantAck)]
    + (match cli.protocol
       case Tcp => if parallel then ConnectStreams(0, cli.streams) else [Join]
       case Udp => [])
    + Synchronize(cli.reverse, parallel)
    + [Await(WantResults)]
  }

  /** `start_server` for one client, given the options that client sent. */
  function ServerScript(cli: Cli, summary: string, json: string): seq<Act> {
    var parallel := cli.streams > 1;
    [Await(WantCli), Send(Ack)]
    + (match cli.protocol
       case Tcp => if parallel then AcceptStreams(0, cli.streams) else [Join]
       case Udp => [])
    + Synchronize(!cli.reverse, parallel)
    + [Send(Results(summary, json))]
  }

  /** Two acts that belong together. */
  predicate Match(a: Act, b: Act) {
    || (a.Send? && b.Await? && Expected(b.kind, a.msg))
    || (a.Await? && b.Send? && Expected(a.kind, b.msg))
    || (a.Join? && b.Join?)
  }

  /** The scripts run in step: same length, and every act of one side has its counterpart on the other. */
  ghost predicate Dual(cs: seq<Act>, ss: seq<Act>) {
    |cs| == |ss| && forall i :: 0 <= i < |cs| ==> Match(cs[i], ss[i])
  }

  lemma DualConcat(a: seq<Act>, b: seq<Act>, c: seq<Act>, d: seq<Act>)
    requires Dual(a, b) && Dual(c, d)
    ensures Dual(a + c, b + d)
  {
  }

  lemma {:induction false} StreamsDual(i: nat, n: nat)
    ensures Dual(ConnectStreams(i, n), AcceptStreams(i, n))
    decreases n - i
  {
    if i < n {
      StreamsDual(i + 1, n);
      DualConcat([Await(WantStreamReady), Join], [Send(StreamReady(i)), Join], ConnectStreams(i + 1, n),
                 AcceptStreams(i + 1, n));
    }
  }

  /** For every configuration and any number of streams the two programs are dual. */
  lemma ScriptsDual(cli: Cli, summary: string, json: string)
    ensures Dual(ClientScript(cli), ServerScript(cli, summary, json))
  {
    var parallel := cli.streams > 1;
    StreamsDual(0, cli.streams);
    var c0, s0 := [Send(CliArgs(cli)), Await(WantAck)], [Await(WantCli), Send(Ack)];
    var c1: seq<Act> := match cli.protocol
                        case Tcp => if parallel then ConnectStreams(0, cli.streams) else [Join]
                        case Udp => [];
    var s1: seq<Act> := match cli.protocol
                        case Tcp => if parallel then AcceptStreams(0, cli.streams) else [Join]
                        case Udp => [];
    var c2, s2 := Synchronize(cli.reverse, parallel), Synchronize(!cli.reverse, parallel);
    var c3, s3 := [Await(WantResults)], [Send(Results(summary, json))];
    assert Dual(c1, s1) && Dual(c2, s2);
    DualConcat(c0, s0, c1, s1);
    DualConcat(c0 + c1, s0 + s1, c2, s2);
    DualConcat(c0 + c1 + c2, s0 + s1 + s2, c3, s3);
  }

  // ----- bytes on the wire -----

  /**
    Where a peer is: the act it is at, how much of the message it is sending is out, and what it has of
    the one it awaits.
   */
  datatype Place = Place(pc: nat, written: nat, inbox: seq<Byte>)

  function FrameAt(c: Codec<Msg>, xs: seq<Act>, i: nat): seq<Byte>
    requires i < |xs| && xs[i].Send?
  {
    Frame(c, xs[i].msg)
  }

  /** All bytes of the messages among the first `n` acts of a sender. */
  ghost function Stream(c: Codec<Msg>, xs: seq<Act>, n: nat): seq<Byte>
    requires n <= |xs|
  {
    if n == 0 then []
    else Stream(c, xs, n - 1) + if xs[n - 1].Send? then FrameAt(c, xs, n - 1) else []
  }

  /** What the message under way has put on the wire. */
  ghost function Partial(c: Codec<Msg>, xs: seq<Act>, x: Place): seq<Byte> {
    if x.pc < |xs| && xs[x.pc].Send? && x.written <= |FrameAt(c, xs, x.pc)| then FrameAt(c, xs, x.pc)[..x.written]
    else []
  }

  ghost predicate PlaceOk(c: Codec<Msg>, xs: seq<Act>, ys: seq<Act>, x: Place)
    requires |xs| == |ys|
  {
    && x.pc <= |xs|
    && (x.written > 0 ==> x.pc < |xs| && xs[x.pc].Send? && x.written < |FrameAt(c, xs, x.pc)|)
    && (x.inbox != [] ==> x.pc < |xs| && ys[x.pc].Send? && x.inbox < FrameAt(c, ys, x.pc))
  }

  /** Read bytes followed by the bytes on the wire are the bytes written, from `x` to `y`. */
  ghost predicate Flow(c: Codec<Msg>, xs: seq<Act>, x: Place, y: Place, wire: seq<Byte>)
    requires x.pc <= |xs| && y.pc <= |xs|
  {
    Stream(c, xs, y.pc) + y.inbox + wire == Stream(c, xs, x.pc) + Partial(c, xs, x)
  }

  ghost predicate Carried(c: Codec<Msg>, xs: seq<Act>) {
    forall i :: 0 <= i < |xs| && xs[i].Send? ==> Carries(c, xs[i].msg)
  }

  /** Two peers in agreement; `xy` and `yx` are the wires. */
  ghost predicate Agree(c: Codec<Msg>, xs: seq<Act>, ys: seq<Act>, x: Place, y: Place, xy: seq<Byte>, yx: seq<Byte>) {
    && Dual(xs, ys) && Carried(c, xs) && Carried(c, ys)
    && PlaceOk(c, xs, ys, x) && PlaceOk(c, ys, xs, y)
    && Flow(c, xs, x, y, xy) && Flow(c, ys, y, x, yx)
  }

  lemma AgreeSymmetric(c: Codec<Msg>, xs: seq<Act>, ys: seq<Act>, x: Place, y: Place, xy: seq<Byte>, yx: seq<Byte>)
    requires Agree(c, xs, ys, x, y, xy, yx)
    ensures Agree(c, ys, xs, y, x, yx, xy)
  {
  }

  lemma {:induction false} StreamMono(c: Codec<Msg>, xs: seq<Act>, i: nat, j: nat)
    requires i <= j <= |xs|
    ensures Stream(c, xs, i) <= Stream(c, xs, j)
    ensures i < j && xs[i].Send? ==> Stream(c, xs, i) + FrameAt(c, xs, i) <= Stream(c, xs, j)
    decreases j
  {
    if i + 1 < j {
      StreamMono(c, xs, i, j - 1);
    }
  }

  /** A receiver is never past a message that is not out completely. */
  lemma NotPast(c: Codec<Msg>, xs: seq<Act>, ys: seq<Act>, x: Place, y: Place, xy: seq<Byte>, yx: seq<Byte>)
    requires Agree(c, xs, ys, x, y, xy, yx) && x.pc < |xs| && xs[x.pc].Send?
    ensures y.pc <= x.pc
  {
    if x.pc < y.pc {
      StreamMono(c, xs, x.pc, y.pc);
    }
  }

  /** Bytes on the wire towards a waiting peer come from a sender that has reached the message. */
  lemma SenderThere(c: Codec<Msg>, xs: seq<Act>, ys: seq<Act>, x: Place, y: Place, xy: seq<Byte>, yx: seq<Byte>)
    requires Agree(c, xs, ys, x, y, xy, yx) && xy != []
    ensures y.pc <= x.pc
  {
    if x.pc < y.pc {
      StreamMono(c, xs, x.pc, y.pc);
    }
  }

  lemma TwoPrefixes(a: seq<Byte>, s: seq<Byte>, f: seq<Byte>, w: seq<Byte>)
    requires a + s <= w && a + f <= w && |s| <= |f|
    ensures s <= f
  {
    assert s == (a + s)[|a|..] && f == (a + f)[|a|..];
    assert forall i :: 0 <= i < |s| ==> s[i] == w[|a| + i] && f[i] == w[|a| + i];
  }

  /** Whatever a waiting peer takes off the wire is a beginning of the very message its peer has for it. */
  lemma ReadsFrame(c: Codec<Msg>, xs: seq<Act>, ys: seq<Act>, x: Place, y: Place, xy: seq<Byte>, yx: seq<Byte>, k: nat)
    requires Agree(c, xs, ys, x, y, xy, yx)
    requires y.pc < |xs| && xs[y.pc].Send? && 0 < k <= |xy| && |y.inbox| + k <= |FrameAt(c, xs, y.pc)|
    ensures y.inbox + xy[..k] <= FrameAt(c, xs, y.pc)
  {
    SenderThere(c, xs, ys, x, y, xy, yx);
    var a, s, f := Stream(c, xs, y.pc), y.inbox + xy[..k], FrameAt(c, xs, y.pc);
    var sent, part := Stream(c, xs, x.pc), Partial(c, xs, x);
    TakenIsFront(a, y.inbox, xy, k, sent + part);
    if y.pc < x.pc {
      StreamMono(c, xs, y.pc, x.pc);
      FrontOfMore(a + f, sent, part);
      TwoPrefixes(a, s, f, sent + part);
    } else {
      TwoPrefixes(a, s, part, sent + part);
    }
  }

  lemma TakenIsFront(a: seq<Byte>, inbox: seq<Byte>, wire: seq<Byte>, k: nat, w: seq<Byte>)
    requires a + inbox + wire == w && k <= |wire|
    ensures a + (inbox + wire[..k]) <= w
  {
    assert w == (a + (inbox + wire[..k])) + wire[k..];
  }

  lemma FrontOfMore(f: seq<Byte>, sent: seq<Byte>, part: seq<Byte>)
    requires f <= sent
    ensures f <= sent + part
  {
  }

  // ----- steps -----

  function Ahead(x: Place): Place { Place(x.pc + 1, 0, []) }

  /** `k` more bytes of the message at hand go out, as far as the stream has room. */
  ghost predicate Writes(c: Codec<Msg>, cap: nat, xs: seq<Act>, x: Place, wire: seq<Byte>, k: nat, x2: Place,
                         wire2: seq<Byte>)
  {
    && x.pc < |xs| && xs[x.pc].Send?
    && var f := FrameAt(c, xs, x.pc);
    && 0 < k && x.written + k <= |f| && |wire| + k <= cap
    && wire2 == wire + f[x.written..x.written + k]
    && x2 == if x.written + k == |f| then Ahead(x) else x.(written := x.written + k)
  }

  /** `k` bytes come in, no more than are still missing; `m` is the message when it is complete then. */
  ghost predicate Reads(c: Codec<Msg>, y: Place, wire: seq<Byte>, k: nat, y2: Place, wire2: seq<Byte>,
                        m: Option<Option<Msg>>)
  {
    && 0 < k <= |wire| && k <= Missing(y.inbox)
    && var s := y.inbox + wire[..k];
    && wire2 == wire[k..]
    && if Missing(s) > 0 then y2 == y.(inbox := s) && m.None?
       else |s| >= 4 && y2 == Ahead(y) && m == Some(Parse(c, s))
  }

  lemma WriteFlow(c: Codec<Msg>, cap: nat, xs: seq<Act>, x: Place, y: Place, wire: seq<Byte>, k: nat, x2: Place,
                  wire2: seq<Byte>)
    requires x.pc <= |xs| && y.pc <= |xs| && Flow(c, xs, x, y, wire) && Writes(c, cap, xs, x, wire, k, x2, wire2)
    ensures x2.pc <= |xs| && Flow(c, xs, x2, y, wire2)
  {
    var f := FrameAt(c, xs, x.pc);
    var part, more := f[..x.written], f[x.written..x.written + k];
    var got, sent := Stream(c, xs, y.pc) + y.inbox, Stream(c, xs, x.pc);
    assert f[..x.written + k] == part + more;
    assert f[..|f|] == f;
    Extend(got, wire, sent, part, more);
    assert Stream(c, xs, x2.pc) + Partial(c, xs, x2) == sent + f[..x.written + k];
  }

  lemma Extend(got: seq<Byte>, wire: seq<Byte>, sent: seq<Byte>, part: seq<Byte>, more: seq<Byte>)
    requires got + wire == sent + part
    ensures got + (wire + more) == sent + (part + more)
  {
    assert got + (wire + more) == (got + wire) + more;
    assert sent + (part + more) == (sent + part) + more;
  }

  /** An act that takes nothing in leaves the incoming direction as it is. */
  lemma IncomingSame(c: Codec<Msg>, ys: seq<Act>, y: Place, x: Place, wire: seq<Byte>, x2: Place)
    requires y.pc <= |ys| && x.pc < |ys| && !ys[x.pc].Send? && Flow(c, ys, y, x, wire)
    requires x.inbox == x2.inbox && x.pc <= x2.pc <= x.pc + 1
    ensures Flow(c, ys, y, x2, wire)
  {
  }

  /** An act that sends nothing leaves the outgoing direction as it is. */
  lemma OutgoingSame(c: Codec<Msg>, ys: seq<Act>, y: Place, x: Place, wire: seq<Byte>, y2: Place)
    requires y.pc < |ys| && x.pc <= |ys| && !ys[y.pc].Send? && Flow(c, ys, y, x, wire)
    requires y2.pc <= |ys| && y2.written == 0 && y.pc <= y2.pc <= y.pc + 1
    ensures Flow(c, ys, y2, x, wire)
  {
  }

  lemma WriteKeeps(c: Codec<Msg>, cap: nat, xs: seq<Act>, ys: seq<Act>, x: Place, y: Place, xy: seq<Byte>,
                   yx: seq<Byte>, k: nat, x2: Place, xy2: seq<Byte>)
    requires Agree(c, xs, ys, x, y, xy, yx) && Writes(c, cap, xs, x, xy, k, x2, xy2)
    ensures Agree(c, xs, ys, x2, y, xy2, yx)
  {
    assert Match(xs[x.pc], ys[x.pc]);
    WriteFlow(c, cap, xs, x, y, xy, k, x2, xy2);
    IncomingSame(c, ys, y, x, yx, x2);
    assert PlaceOk(c, xs, ys, x2);
  }

  lemma ReadFlow(c: Codec<Msg>, xs: seq<Act>, x: Place, y: Place, wire: seq<Byte>, k: nat, y2: Place)
    requires x.pc <= |xs| && y.pc < |xs| && xs[y.pc].Send? && Flow(c, xs, x, y, wire) && k <= |wire|
    requires || y2 == y.(inbox := y.inbox + wire[..k])
             || (y2 == Ahead(y) && y.inbox + wire[..k] == FrameAt(c, xs, y.pc))
    ensures Flow(c, xs, x, y2, wire[k..])
  {
  }

  /** A read completes only with the peer's message, and that message is expected. */
  lemma ReadKeeps(c: Codec<Msg>, xs: seq<Act>, ys: seq<Act>, x: Place, y: Place, xy: seq<Byte>, yx: seq<Byte>,
                  k: nat, y2: Place, xy2: seq<Byte>, m: Option<Option<Msg>>)
    requires Agree(c, xs, ys, x, y, xy, yx) && y.pc < |ys| && ys[y.pc].Await?
    requires Reads(c, y, xy, k, y2, xy2, m)
    ensures Agree(c, xs, ys, x, y2, xy2, yx)
    ensures m.Some? ==> xs[y.pc].Send? && m == Some(Some(xs[y.pc].msg)) && Expected(ys[y.pc].kind, xs[y.pc].msg)
  {
    assert Match(xs[y.pc], ys[y.pc]);
    ReadIsFrame(c, xs, ys, x, y, xy, yx, k, y2, xy2, m);
    ReadFlow(c, xs, x, y, xy, k, y2);
    OutgoingSame(c, ys, y, x, yx, y2);
    assert PlaceOk(c, ys, xs, y2);
  }

  lemma ReadIsFrame(c: Codec<Msg>, xs: seq<Act>, ys: seq<Act>, x: Place, y: Place, xy: seq<Byte>, yx: seq<Byte>,
                    k: nat, y2: Place, xy2: seq<Byte>, m: Option<Option<Msg>>)
    requires Agree(c, xs, ys, x, y, xy, yx) && y.pc < |xs| && xs[y.pc].Send?
    requires Reads(c, y, xy, k, y2, xy2, m)
    ensures var s := y.inbox + xy[..k];
            if m.None? then s < FrameAt(c, xs, y.pc) && y2 == y.(inbox := s)
            else s == FrameAt(c, xs, y.pc) && y2 == Ahead(y) && m == Some(Some(xs[y.pc].msg))
  {
    var msg := xs[y.pc].msg;
    assert Carries(c, msg);
    MissingInFrame(c, msg, y.inbox);
    ReadsFrame(c, xs, ys, x, y, xy, yx, k);
    MissingInFrame(c, msg, y.inbox + xy[..k]);
    ParseFrame(c, msg);
  }

  /** Opening a data connection moves one peer on and no byte of the control channel. */
  lemma JoinKeeps(c: Codec<Msg>, xs: seq<Act>, ys: seq<Act>, x: Place, y: Place, xy: seq<Byte>, yx: seq<Byte>)
    requires Agree(c, xs, ys, x, y, xy, yx) && x.pc < |xs| && xs[x.pc].Join?
    ensures Agree(c, xs, ys, Ahead(x), y, xy, yx)
  {
    assert Match(xs[x.pc], ys[x.pc]);
    OutgoingSame(c, xs, x, y, xy, Ahead(x));
    IncomingSame(c, ys, y, x, yx, Ahead(x));
  }

  // ----- the session -----

  /** The server's data port: no socket, one that listens, or one with a connection to accept. */
  datatype Listener = Closed | Listening | Active

  /** Connection requests under way, the port they go to, and how many found nobody listening. */
  datatype Conn = Conn(syn: nat, listener: Listener, lost: nat)

  /**
    `learned` are the options the server has received; `clientHeard` and `serverHeard` are the messages each peer has
    received, in order.
   */
  datatype State =
    State(client: Place, server: Place, c2s: seq<Byte>, s2c: seq<Byte>, learned: Option<Cli>, panicked: bool,
          conn: Conn, clientHeard: seq<Msg>, serverHeard: seq<Msg>)

  /** What a session is about: the client's options, the server's results, the serializer, and the room of a stream. */
  datatype Session = Session(cli: Cli, summary: string, json: string, codec: Codec<Msg>, cap: nat)

  /** The server's program depends on the options it has received. */
  function ServerActs(ss: Session, learned: Option<Cli>): seq<Act> {
    if learned.None? then [Await(WantCli)] else ServerScript(learned.value, ss.summary, ss.json)
  }

  /** An unexpected or undecodable message is a panic. */
  ghost predicate Panics(kind: Kind, m: Option<Option<Msg>>) {
    m.Some? && (m.value.None? || !Expected(kind, m.value.value))
  }

  /** The message received, if one is complete. */
  function Received(m: Option<Option<Msg>>): seq<Msg> { if m.Some? && m.value.Some? then [m.value.value] else [] }

  ghost function ClientReads(st: State, x2: Place, w2: seq<Byte>, kind: Kind, m: Option<Option<Msg>>): State {
    st.(client := x2, s2c := w2, panicked := Panics(kind, m), clientHeard := st.clientHeard + Received(m))
  }

  ghost function ServerReads(st: State, x2: Place, w2: seq<Byte>, kind: Kind, m: Option<Option<Msg>>): State {
    st.(server := x2, c2s := w2, panicked := Panics(kind, m), serverHeard := st.serverHeard + Received(m),
        learned := Learns(st.learned, m))
  }

  ghost predicate ClientStep(ss: Session, st: State, k: nat, st2: State) {
    var acts := ClientScript(ss.cli);
    && !st.panicked
    && ((exists x2, w2 ::
           Writes(ss.codec, ss.cap, acts, st.client, st.c2s, k, x2, w2) && st2 == st.(client := x2, c2s := w2))
        || (&& st.client.pc < |acts| && acts[st.client.pc].Await?
            && exists x2, w2, m :: Reads(ss.codec, st.client, st.s2c, k, x2, w2, m)
                                   && st2 == ClientReads(st, x2, w2, acts[st.client.pc].kind, m)))
  }

  /** With TCP the server binds its data port right after the handshake. */
  predicate MustBind(st: State) {
    st.learned.Some? && st.learned.value.protocol.Tcp? && st.server.pc == 2 && st.conn.listener.Closed?
  }

  ghost predicate ServerStep(ss: Session, st: State, k: nat, st2: State) {
    var acts := ServerActs(ss, st.learned);
    && !st.panicked && !MustBind(st)
    && ((exists x2, w2 ::
           Writes(ss.codec, ss.cap, acts, st.server, st.s2c, k, x2, w2) && st2 == st.(server := x2, s2c := w2))
        || (&& st.server.pc < |acts| && acts[st.server.pc].Await?
            && exists x2, w2, m :: Reads(ss.codec, st.server, st.c2s, k, x2, w2, m)
                                   && st2 == ServerReads(st, x2, w2, acts[st.server.pc].kind, m)))
  }

  /** The options received first are the ones the server goes by. */
  function Learns(learned: Option<Cli>, m: Option<Option<Msg>>): Option<Cli> {
    if learned.None? && m.Some? && m.value.Some? && m.value.value.CliArgs? then Some(m.value.value.cli) else learned
  }

  /** `connect` sends its request and returns. */
  ghost predicate ConnectStep(ss: Session, st: State, st2: State) {
    var acts := ClientScript(ss.cli);
    && !st.panicked && st.client.pc < |acts| && acts[st.client.pc].Join?
    && st2 == st.(client := Ahead(st.client), conn := st.conn.(syn := st.conn.syn + 1))
  }

  /** A request arrives; a port that does not listen turns it away. */
  ghost predicate DeliverStep(st: State, st2: State) {
    && !st.panicked && st.conn.syn > 0
    && st2 == st.(conn := if st.conn.listener.Listening? then Conn(st.conn.syn - 1, Active, st.conn.lost)
                          else Conn(st.conn.syn - 1, st.conn.listener, st.conn.lost + 1))
  }

  ghost predicate BindStep(st: State, st2: State) {
    !st.panicked && MustBind(st) && st2 == st.(conn := st.conn.(listener := Listening))
  }

  /** `accept` waits for a connection, and a new socket listens in place of the connected one. */
  ghost predicate AcceptStep(ss: Session, st: State, st2: State) {
    var acts := ServerActs(ss, st.learned);
    && !st.panicked && st.server.pc < |acts| && acts[st.server.pc].Join? && st.conn.listener.Active?
    && st2 == st.(server := Ahead(st.server), conn := st.conn.(listener := Listening))
  }

  /** The steps that belong to the data connections. */
  ghost predicate ConnStep(ss: Session, st: State, st2: State) {
    ConnectStep(ss, st, st2) || DeliverStep(st, st2) || BindStep(st, st2) || AcceptStep(ss, st, st2)
  }

  ghost predicate Step(ss: Session, st: State, st2: State) {
    || (exists k: nat :: ClientStep(ss, st, k, st2))
    || (exists k: nat :: ServerStep(ss, st, k, st2))
    || ConnStep(ss, st, st2)
  }

  const START := State(Place(0, 0, []), Place(0, 0, []), [], [], None, false, Conn(0, Closed, 0), [], [])

  /** How many data connections the first `n` acts open. */
  ghost function Joins(xs: seq<Act>, n: nat): (j: nat)
    requires n <= |xs|
    ensures j <= n
  {
    if n == 0 then 0 else Joins(xs, n - 1) + if xs[n - 1].Join? then 1 else 0
  }

  lemma {:induction false} JoinsMono(xs: seq<Act>, i: nat, j: nat)
    requires i <= j <= |xs|
    ensures Joins(xs, i) <= Joins(xs, j)
    ensures i < j && xs[i].Join? ==> Joins(xs, i) < Joins(xs, j)
    decreases j
  {
    if i + 1 < j {
      JoinsMono(xs, i, j - 1);
    }
  }

  /** Connections asked for and not accepted yet. */
  ghost function Waiting(conn: Conn): nat {
    conn.syn + (if conn.listener.Active? then 1 else 0)
  }

  /** Every connection the client asked for was accepted, is waiting, or was turned away. */
  ghost predicate ConnOk(ss: Session, st: State) {
    var cs := ClientScript(ss.cli);
    && st.client.pc <= |cs| && st.server.pc <= |cs|
    && Joins(cs, st.client.pc) == Joins(cs, st.server.pc) + Waiting(st.conn) + st.conn.lost
    && (ss.cli.protocol.Tcp? && st.server.pc > 2 ==> !st.conn.listener.Closed?)
  }

  /** The messages among the first `n` acts of a sender. */
  ghost function Sent(xs: seq<Act>, n: nat): seq<Msg>
    requires n <= |xs|
  {
    if n == 0 then [] else Sent(xs, n - 1) + if xs[n - 1].Send? then [xs[n - 1].msg] else []
  }

  /** Each peer has heard what the other one sends up to where it is. */
  ghost predicate HeardOk(cs: seq<Act>, sv: seq<Act>, st: State) {
    && |cs| == |sv| && st.client.pc <= |cs| && st.server.pc <= |sv|
    && st.clientHeard == Sent(sv, st.client.pc) && st.serverHeard == Sent(cs, st.server.pc)
  }

  /** Moving over an act that takes no message in. */
  lemma HearsNothing(xs: seq<Act>, ys: seq<Act>, x: Place, x2: Place)
    requires Dual(xs, ys) && x.pc < |xs| && !xs[x.pc].Await? && x.pc <= x2.pc <= x.pc + 1
    ensures x2.pc <= |xs| && Sent(ys, x2.pc) == Sent(ys, x.pc)
  {
    assert Match(xs[x.pc], ys[x.pc]);
  }

  ghost predicate Inv(ss: Session, st: State) {
    && !st.panicked
    && st.learned == (if st.server.pc == 0 then None else Some(ss.cli))
    && Agree(ss.codec, ClientScript(ss.cli), ServerScript(ss.cli, ss.summary, ss.json), st.client, st.server, st.c2s,
             st.s2c)
    && ConnOk(ss, st) && HeardOk(ClientScript(ss.cli), Full(ss), st)
  }

  ghost function Full(ss: Session): seq<Act> { ServerScript(ss.cli, ss.summary, ss.json) }

  /** Every message of the session survives serialization. */
  ghost predicate Serializable(ss: Session) {
    Carried(ss.codec, ClientScript(ss.cli)) && Carried(ss.codec, Full(ss))
  }

  lemma StartInv(ss: Session)
    requires Serializable(ss)
    ensures Inv(ss, START)
  {
    ScriptsDual(ss.cli, ss.summary, ss.json);
  }

  /** Where the server is, what it goes by is its full program. */
  lemma ActsAreFull(ss: Session, st: State)
    requires Inv(ss, st)
    ensures var acts, pc := ServerActs(ss, st.learned), st.server.pc;
            && (pc < |acts| <==> pc < |Full(ss)|)
            && (pc < |acts| ==> acts[pc] == Full(ss)[pc])
            && Full(ss)[0] == Await(WantCli)
            && ClientScript(ss.cli)[0] == Send(CliArgs(ss.cli))
  {
  }

  /** A peer that reads or writes moves past no connection, and a server that must bind does neither. */
  lemma ConnKept(ss: Session, st: State, client: Place, server: Place)
    requires ConnOk(ss, st)
             && (st.server.pc < server.pc ==> !MustBind(st) && (st.server.pc == 2 ==> st.learned == Some(ss.cli)))
    requires var cs := ClientScript(ss.cli);
             && (client.pc == st.client.pc || (client.pc == st.client.pc + 1 <= |cs| && !cs[st.client.pc].Join?))
             && (server.pc == st.server.pc || (server.pc == st.server.pc + 1 <= |cs| && !cs[st.server.pc].Join?))
    ensures ConnOk(ss, st.(client := client, server := server))
  {
  }

  lemma ClientWriteInv(ss: Session, st: State, k: nat, x2: Place, w2: seq<Byte>)
    requires Inv(ss, st) && Writes(ss.codec, ss.cap, ClientScript(ss.cli), st.client, st.c2s, k, x2, w2)
    ensures Inv(ss, st.(client := x2, c2s := w2))
  {
    var c, cs, sv := ss.codec, ClientScript(ss.cli), Full(ss);
    WriteKeeps(c, ss.cap, cs, sv, st.client, st.server, st.c2s, st.s2c, k, x2, w2);
    ConnKept(ss, st, x2, st.server);
    HearsNothing(cs, sv, st.client, x2);
  }

  lemma ClientReadInv(ss: Session, st: State, k: nat, x2: Place, w2: seq<Byte>, m: Option<Option<Msg>>)
    requires Inv(ss, st) && st.client.pc < |ClientScript(ss.cli)| && ClientScript(ss.cli)[st.client.pc].Await?
    requires Reads(ss.codec, st.client, st.s2c, k, x2, w2, m)
    ensures Inv(ss, ClientReads(st, x2, w2, ClientScript(ss.cli)[st.client.pc].kind, m))
  {
    var c, cs, sv := ss.codec, ClientScript(ss.cli), Full(ss);
    AgreeSymmetric(c, cs, sv, st.client, st.server, st.c2s, st.s2c);
    ReadKeeps(c, sv, cs, st.server, st.client, st.s2c, st.c2s, k, x2, w2, m);
    AgreeSymmetric(c, sv, cs, st.server, x2, w2, st.c2s);
    ConnKept(ss, st, x2, st.server);
    HearsWhatCame(sv, st.client, x2, m);
  }

  /** What a read delivers is the next message of the sender. */
  lemma HearsWhatCame(xs: seq<Act>, y: Place, y2: Place, m: Option<Option<Msg>>)
    requires y.pc < |xs| && (m.None? ==> y2.pc == y.pc)
    requires m.Some? ==> xs[y.pc].Send? && m == Some(Some(xs[y.pc].msg)) && y2.pc == y.pc + 1
    ensures y2.pc <= |xs| && Sent(xs, y2.pc) == Sent(xs, y.pc) + Received(m)
  {
  }

  lemma ClientStepInv(ss: Session, st: State, k: nat, st2: State)
    requires Inv(ss, st) && ClientStep(ss, st, k, st2)
    ensures Inv(ss, st2)
  {
    var c, cs := ss.codec, ClientScript(ss.cli);
    if x2, w2 :| Writes(c, ss.cap, cs, st.client, st.c2s, k, x2, w2) && st2 == st.(client := x2, c2s := w2) {
      ClientWriteInv(ss, st, k, x2, w2);
    } else {
      var x2, w2, m :| Reads(c, st.client, st.s2c, k, x2, w2, m)
                       && st2 == ClientReads(st, x2, w2, cs[st.client.pc].kind, m);
      ClientReadInv(ss, st, k, x2, w2, m);
    }
  }

  lemma SameWrites(c: Codec<Msg>, cap: nat, xs: seq<Act>, ys: seq<Act>, x: Place, wire: seq<Byte>, k: nat, x2: Place,
                   wire2: seq<Byte>)
    requires Writes(c, cap, xs, x, wire, k, x2, wire2) && x.pc < |ys| && ys[x.pc] == xs[x.pc]
    ensures Writes(c, cap, ys, x, wire, k, x2, wire2)
  {
  }

  lemma ServerWriteInv(ss: Session, st: State, k: nat, x2: Place, w2: seq<Byte>)
    requires Inv(ss, st) && !MustBind(st)
    requires Writes(ss.codec, ss.cap, ServerActs(ss, st.learned), st.server, st.s2c, k, x2, w2)
    ensures Inv(ss, st.(server := x2, s2c := w2))
  {
    var c, cs, sv := ss.codec, ClientScript(ss.cli), Full(ss);
    ActsAreFull(ss, st);
    SameWrites(c, ss.cap, ServerActs(ss, st.learned), sv, st.server, st.s2c, k, x2, w2);
    AgreeSymmetric(c, cs, sv, st.client, st.server, st.c2s, st.s2c);
    WriteKeeps(c, ss.cap, sv, cs, st.server, st.client, st.s2c, st.c2s, k, x2, w2);
    AgreeSymmetric(c, sv, cs, x2, st.client, w2, st.c2s);
    assert Match(cs[st.server.pc], sv[st.server.pc]);
    ConnKept(ss, st, st.client, x2);
    HearsNothing(sv, cs, st.server, x2);
  }

  /** The options the server learns are the client's. */
  lemma ServerReadInv(ss: Session, st: State, k: nat, x2: Place, w2: seq<Byte>, m: Option<Option<Msg>>)
    requires Inv(ss, st) && !MustBind(st) && st.server.pc < |Full(ss)| && Full(ss)[st.server.pc].Await?
    requires Reads(ss.codec, st.server, st.c2s, k, x2, w2, m)
    ensures Inv(ss, ServerReads(st, x2, w2, Full(ss)[st.server.pc].kind, m))
  {
    var c, cs, sv := ss.codec, ClientScript(ss.cli), Full(ss);
    ActsAreFull(ss, st);
    ReadKeeps(c, cs, sv, st.client, st.server, st.c2s, st.s2c, k, x2, w2, m);
    assert Match(cs[st.server.pc], sv[st.server.pc]);
    ConnKept(ss, st, st.client, x2);
    HearsWhatCame(cs, st.server, x2, m);
  }

  lemma ServerStepInv(ss: Session, st: State, k: nat, st2: State)
    requires Inv(ss, st) && ServerStep(ss, st, k, st2)
    ensures Inv(ss, st2)
  {
    var acts := ServerActs(ss, st.learned);
    ActsAreFull(ss, st);
    if x2, w2 :| Writes(ss.codec, ss.cap, acts, st.server, st.s2c, k, x2, w2) && st2 == st.(server := x2, s2c := w2) {
      ServerWriteInv(ss, st, k, x2, w2);
    } else {
      var x2, w2, m :| Reads(ss.codec, st.server, st.c2s, k, x2, w2, m)
                       && st2 == ServerReads(st, x2, w2, acts[st.server.pc].kind, m);
      ServerReadInv(ss, st, k, x2, w2, m);
    }
  }

  lemma ConnectInv(ss: Session, st: State, st2: State)
    requires Inv(ss, st) && ConnectStep(ss, st, st2)
    ensures Inv(ss, st2)
  {
    JoinKeeps(ss.codec, ClientScript(ss.cli), Full(ss), st.client, st.server, st.c2s, st.s2c);
    HearsNothing(ClientScript(ss.cli), Full(ss), st.client, Ahead(st.client));
  }

  lemma AcceptInv(ss: Session, st: State, st2: State)
    requires Inv(ss, st) && AcceptStep(ss, st, st2)
    ensures Inv(ss, st2)
  {
    var c, cs, sv := ss.codec, ClientScript(ss.cli), Full(ss);
    ActsAreFull(ss, st);
    assert Match(cs[st.server.pc], sv[st.server.pc]);
    AgreeSymmetric(c, cs, sv, st.client, st.server, st.c2s, st.s2c);
    JoinKeeps(c, sv, cs, st.server, st.client, st.s2c, st.c2s);
    AgreeSymmetric(c, sv, cs, Ahead(st.server), st.client, st.s2c, st.c2s);
    HearsNothing(sv, cs, st.server, Ahead(st.server));
  }

  lemma ConnStepInv(ss: Session, st: State, st2: State)
    requires Inv(ss, st) && ConnStep(ss, st, st2)
    ensures Inv(ss, st2)
  {
    if ConnectStep(ss, st, st2) {
      ConnectInv(ss, st, st2);
    } else if AcceptStep(ss, st, st2) {
      AcceptInv(ss, st, st2);
    }
  }

  lemma StepInv(ss: Session, st: State, st2: State)
    requires Inv(ss, st) && Step(ss, st, st2)
    ensures Inv(ss, st2)
  {
    if k: nat :| ClientStep(ss, st, k, st2) {
      ClientStepInv(ss, st, k, st2);
    } else if k: nat :| ServerStep(ss, st, k, st2) {
      ServerStepInv(ss, st, k, st2);
    } else {
      ConnStepInv(ss, st, st2);
    }
  }

  // ----- whole sessions -----

  ghost predicate Run(ss: Session, states: seq<State>) {
    && |states| > 0 && states[0] == START
    && forall i :: 0 <= i < |states| - 1 ==> Step(ss, states[i], states[i + 1])
  }

  /** However the bytes are split and the steps interleaved, nobody receives anything unexpected. */
  lemma {:induction false} RunInv(ss: Session, states: seq<State>, n: nat)
    requires Serializable(ss) && Run(ss, states) && n < |states|
    ensures Inv(ss, states[n]) && !states[n].panicked
  {
    if n == 0 {
      StartInv(ss);
    } else {
      RunInv(ss, states, n - 1);
      StepInv(ss, states[n - 1], states[n]);
    }
  }

  /** A receive that completes yields the message the peer's program has at that very point. */
  lemma ReceivesPeersMessage(ss: Session, states: seq<State>, n: nat, k: nat, x2: Place, w2: seq<Byte>, m: Msg)
    requires Serializable(ss) && Run(ss, states) && n < |states|
    ensures var st, cs, sv := states[n], ClientScript(ss.cli), Full(ss);
            && (st.client.pc < |cs| && cs[st.client.pc].Await?
                && Reads(ss.codec, st.client, st.s2c, k, x2, w2, Some(Some(m))) ==>
                  st.client.pc < |sv| && sv[st.client.pc] == Send(m))
            && (st.server.pc < |sv| && sv[st.server.pc].Await?
                && Reads(ss.codec, st.server, st.c2s, k, x2, w2, Some(Some(m))) ==>
                  st.server.pc < |cs| && cs[st.server.pc] == Send(m))
  {
    RunInv(ss, states, n);
    var st, c, cs, sv := states[n], ss.codec, ClientScript(ss.cli), Full(ss);
    if st.client.pc < |cs| && cs[st.client.pc].Await? && Reads(c, st.client, st.s2c, k, x2, w2, Some(Some(m))) {
      AgreeSymmetric(c, cs, sv, st.client, st.server, st.c2s, st.s2c);
      ReadKeeps(c, sv, cs, st.server, st.client, st.s2c, st.c2s, k, x2, w2, Some(Some(m)));
    }
    if st.server.pc < |sv| && sv[st.server.pc].Await? && Reads(c, st.server, st.c2s, k, x2, w2, Some(Some(m))) {
      ReadKeeps(c, cs, sv, st.client, st.server, st.c2s, st.s2c, k, x2, w2, Some(Some(m)));
    }
  }

  ghost predicate CanWrite(cap: nat, xs: seq<Act>, x: Place, wire: seq<Byte>) {
    x.pc < |xs| && xs[x.pc].Send? && |wire| < cap
  }

  ghost predicate CanRead(ys: seq<Act>, y: Place, wire: seq<Byte>) {
    y.pc < |ys| && ys[y.pc].Await? && wire != []
  }

  /** Of two peers in agreement, `x` not ahead of `y` and not about to open a connection, one can go on. */
  lemma LaggardGoesOn(c: Codec<Msg>, cap: nat, xs: seq<Act>, ys: seq<Act>, x: Place, y: Place, xy: seq<Byte>,
                      yx: seq<Byte>)
    requires Agree(c, xs, ys, x, y, xy, yx) && cap > 0 && x.pc <= y.pc && x.pc < |xs| && !xs[x.pc].Join?
    ensures CanWrite(cap, xs, x, xy) || CanRead(ys, y, xy) || CanWrite(cap, ys, y, yx) || CanRead(xs, x, yx)
  {
    var i := x.pc;
    assert Match(xs[i], ys[i]);
    if xs[i].Send? {
      NotPast(c, xs, ys, x, y, xy, yx);
    } else if yx == [] && i < y.pc {
      StreamMono(c, ys, i, y.pc);
    }
  }

  lemma WriteEnabled(c: Codec<Msg>, cap: nat, xs: seq<Act>, ys: seq<Act>, x: Place, wire: seq<Byte>)
    returns (x2: Place, wire2: seq<Byte>)
    requires |xs| == |ys| && PlaceOk(c, xs, ys, x) && CanWrite(cap, xs, x, wire)
    ensures Writes(c, cap, xs, x, wire, 1, x2, wire2)
  {
    var f := FrameAt(c, xs, x.pc);
    wire2 := wire + f[x.written..x.written + 1];
    x2 := if x.written + 1 == |f| then Ahead(x) else x.(written := x.written + 1);
  }

  lemma ReadEnabled(c: Codec<Msg>, xs: seq<Act>, ys: seq<Act>, y: Place, wire: seq<Byte>)
    returns (y2: Place, wire2: seq<Byte>, m: Option<Option<Msg>>)
    requires Dual(xs, ys) && Carried(c, xs) && PlaceOk(c, ys, xs, y) && CanRead(ys, y, wire)
    ensures Reads(c, y, wire, 1, y2, wire2, m)
  {
    assert Match(xs[y.pc], ys[y.pc]);
    MissingInFrame(c, xs[y.pc].msg, y.inbox);
    var s := y.inbox + wire[..1];
    wire2 := wire[1..];
    if Missing(s) > 0 {
      y2, m := y.(inbox := s), None;
    } else {
      y2, m := Ahead(y), Some(Parse(c, s));
    }
  }

  ghost predicate Finished(ss: Session, st: State) {
    st.client.pc == |ClientScript(ss.cli)| && st.server.pc == |Full(ss)|
  }

  /** The client, or the server, can write or read on the control channel. */
  ghost predicate ClientCan(ss: Session, st: State) {
    CanWrite(ss.cap, ClientScript(ss.cli), st.client, st.c2s) || CanRead(ClientScript(ss.cli), st.client, st.s2c)
  }

  ghost predicate ServerCan(ss: Session, st: State) {
    CanWrite(ss.cap, Full(ss), st.server, st.s2c) || CanRead(Full(ss), st.server, st.c2s)
  }

  /** The peer that is behind is not about to open a connection. */
  ghost predicate LaggardTalks(ss: Session, st: State) {
    var cs, i := ClientScript(ss.cli), Min(st.client.pc, st.server.pc);
    0 <= i < |cs| && !cs[i].Join?
  }

  lemma TalkGoesOn(ss: Session, st: State)
    requires Inv(ss, st) && ss.cap > 0 && LaggardTalks(ss, st)
    ensures ClientCan(ss, st) || ServerCan(ss, st)
  {
    var c, cs, sv := ss.codec, ClientScript(ss.cli), Full(ss);
    if st.client.pc <= st.server.pc {
      LaggardGoesOn(c, ss.cap, cs, sv, st.client, st.server, st.c2s, st.s2c);
    } else {
      assert Match(cs[st.server.pc], sv[st.server.pc]);
      AgreeSymmetric(c, cs, sv, st.client, st.server, st.c2s, st.s2c);
      LaggardGoesOn(c, ss.cap, sv, cs, st.server, st.client, st.s2c, st.c2s);
    }
  }

  lemma ClientTalks(ss: Session, st: State) returns (st2: State)
    requires Inv(ss, st) && ClientCan(ss, st)
    ensures ClientStep(ss, st, 1, st2)
    ensures st2.conn == st.conn && st2.server == st.server && st2.client.pc <= st.client.pc + 1
  {
    var c, cs, sv := ss.codec, ClientScript(ss.cli), Full(ss);
    if CanWrite(ss.cap, cs, st.client, st.c2s) {
      var x2, w2 := WriteEnabled(c, ss.cap, cs, sv, st.client, st.c2s);
      st2 := st.(client := x2, c2s := w2);
    } else {
      AgreeSymmetric(c, cs, sv, st.client, st.server, st.c2s, st.s2c);
      var x2, w2, m := ReadEnabled(c, sv, cs, st.client, st.s2c);
      st2 := ClientReads(st, x2, w2, cs[st.client.pc].kind, m);
    }
  }

  lemma ServerTalks(ss: Session, st: State) returns (st2: State)
    requires Inv(ss, st) && !MustBind(st) && ServerCan(ss, st)
    ensures ServerStep(ss, st, 1, st2)
    ensures st2.conn == st.conn && st2.client == st.client && st2.server.pc <= st.server.pc + 1
  {
    var c, cs, sv := ss.codec, ClientScript(ss.cli), Full(ss);
    ActsAreFull(ss, st);
    if CanWrite(ss.cap, sv, st.server, st.s2c) {
      var x2, w2 := WriteEnabled(c, ss.cap, sv, cs, st.server, st.s2c);
      SameWrites(c, ss.cap, sv, ServerActs(ss, st.learned), st.server, st.s2c, 1, x2, w2);
      st2 := st.(server := x2, s2c := w2);
    } else {
      var x2, w2, m := ReadEnabled(c, cs, sv, st.server, st.c2s);
      st2 := ServerReads(st, x2, w2, sv[st.server.pc].kind, m);
    }
  }

  /** A server waiting for a connection the client has asked for is about to get it, unless it was turned away. */
  lemma JoinGoesOn(ss: Session, st: State) returns (st2: State)
    requires Inv(ss, st) && st.conn.lost == 0 && !Finished(ss, st) && !LaggardTalks(ss, st)
    ensures ConnStep(ss, st, st2)
  {
    var cs, sv := ClientScript(ss.cli), Full(ss);
    ActsAreFull(ss, st);
    if st.client.pc <= st.server.pc {
      st2 := st.(client := Ahead(st.client), conn := st.conn.(syn := st.conn.syn + 1));
      assert ConnectStep(ss, st, st2);
    } else {
      assert Match(cs[st.server.pc], sv[st.server.pc]);
      JoinsMono(cs, st.server.pc, st.client.pc);
      if st.conn.syn > 0 {
        st2 := st.(conn := if st.conn.listener.Listening? then Conn(st.conn.syn - 1, Active, st.conn.lost)
                           else Conn(st.conn.syn - 1, st.conn.listener, st.conn.lost + 1));
        assert DeliverStep(st, st2);
      } else {
        st2 := st.(server := Ahead(st.server), conn := st.conn.(listener := Listening));
        assert AcceptStep(ss, st, st2);
      }
    }
  }

  /**
    As long as no connection was turned away there is a step until both are through, even if a stream
    holds only one byte.
   */
  lemma NoDeadlock(ss: Session, st: State) returns (st2: State)
    requires Inv(ss, st) && ss.cap > 0 && !Finished(ss, st) && st.conn.lost == 0
    ensures Step(ss, st, st2)
  {
    if MustBind(st) {
      st2 := st.(conn := st.conn.(listener := Listening));
      assert BindStep(st, st2);
    } else if LaggardTalks(ss, st) {
      TalkGoesOn(ss, st);
      if ClientCan(ss, st) {
        st2 := ClientTalks(ss, st);
      } else {
        st2 := ServerTalks(ss, st);
      }
    } else {
      st2 := JoinGoesOn(ss, st);
    }
  }

  /** When both are through, both directions are empty and every connection asked for was accepted. */
  lemma Drained(ss: Session, st: State)
    requires Inv(ss, st) && Finished(ss, st)
    ensures st.c2s == [] && st.s2c == [] && st.conn.syn == 0 && st.conn.lost == 0 && !st.conn.listener.Active?
  {
  }

  // ----- every session comes to its end -----

  /** Bytes a peer still has to write. */
  ghost function Unwritten(c: Codec<Msg>, xs: seq<Act>, x: Place): int {
    if x.pc <= |xs| then |Stream(c, xs, |xs|)| - |Stream(c, xs, x.pc)| - x.written else 0
  }

  ghost function Work(ss: Session, st: State): int {
    var c, cs, sv := ss.codec, ClientScript(ss.cli), Full(ss);
    2 * Unwritten(c, cs, st.client) + 2 * Unwritten(c, sv, st.server) + |st.c2s| + |st.s2c|
    + 2 * (|cs| - st.client.pc) + 2 * (|sv| - st.server.pc) + st.conn.syn + (if st.conn.listener.Closed? then 1 else 0)
  }

  lemma WorkNonNegative(ss: Session, st: State)
    requires Inv(ss, st)
    ensures Work(ss, st) >= 0
  {
    var c, cs, sv := ss.codec, ClientScript(ss.cli), Full(ss);
    StreamMono(c, cs, st.client.pc, |cs|);
    StreamMono(c, sv, st.server.pc, |sv|);
  }

  lemma WritesWork(c: Codec<Msg>, cap: nat, xs: seq<Act>, x: Place, wire: seq<Byte>, k: nat, x2: Place,
                   wire2: seq<Byte>)
    requires Writes(c, cap, xs, x, wire, k, x2, wire2)
    ensures x2.pc <= |xs| && x.pc <= x2.pc && |wire2| == |wire| + k
    ensures Unwritten(c, xs, x2) == Unwritten(c, xs, x) - k
  {
  }

  lemma ReadsWork(c: Codec<Msg>, ys: seq<Act>, y: Place, wire: seq<Byte>, k: nat, y2: Place, wire2: seq<Byte>,
                  m: Option<Option<Msg>>)
    requires Reads(c, y, wire, k, y2, wire2, m) && y.pc < |ys| && !ys[y.pc].Send? && y.written == 0
    ensures y2.pc <= |ys| && y.pc <= y2.pc && |wire2| == |wire| - k
    ensures Unwritten(c, ys, y2) == Unwritten(c, ys, y)
  {
  }

  lemma ClientWorks(ss: Session, st: State, k: nat, st2: State)
    requires Inv(ss, st) && ClientStep(ss, st, k, st2)
    ensures Work(ss, st2) < Work(ss, st)
  {
    var c, cs := ss.codec, ClientScript(ss.cli);
    if x2, w2 :| Writes(c, ss.cap, cs, st.client, st.c2s, k, x2, w2) && st2 == st.(client := x2, c2s := w2) {
      WritesWork(c, ss.cap, cs, st.client, st.c2s, k, x2, w2);
    } else {
      var x2, w2, m :| Reads(c, st.client, st.s2c, k, x2, w2, m)
                       && st2 == ClientReads(st, x2, w2, cs[st.client.pc].kind, m);
      ReadsWork(c, cs, st.client, st.s2c, k, x2, w2, m);
    }
  }

  lemma ServerWorks(ss: Session, st: State, k: nat, st2: State)
    requires Inv(ss, st) && ServerStep(ss, st, k, st2)
    ensures Work(ss, st2) < Work(ss, st)
  {
    ActsAreFull(ss, st);
    var c, sv, acts := ss.codec, Full(ss), ServerActs(ss, st.learned);
    if x2, w2 :| Writes(c, ss.cap, acts, st.server, st.s2c, k, x2, w2) && st2 == st.(server := x2, s2c := w2) {
      SameWrites(c, ss.cap, acts, sv, st.server, st.s2c, k, x2, w2);
      WritesWork(c, ss.cap, sv, st.server, st.s2c, k, x2, w2);
    } else {
      var x2, w2, m :| Reads(c, st.server, st.c2s, k, x2, w2, m)
                       && st2 == ServerReads(st, x2, w2, acts[st.server.pc].kind, m);
      ReadsWork(c, sv, st.server, st.c2s, k, x2, w2, m);
    }
  }

  lemma JoinWorks(c: Codec<Msg>, xs: seq<Act>, ys: seq<Act>, x: Place)
    requires |xs| == |ys| && PlaceOk(c, xs, ys, x) && x.pc < |xs| && xs[x.pc].Join?
    ensures Unwritten(c, xs, Ahead(x)) == Unwritten(c, xs, x)
  {
  }

  lemma ConnWorks(ss: Session, st: State, st2: State)
    requires Inv(ss, st) && ConnStep(ss, st, st2)
    ensures Work(ss, st2) < Work(ss, st)
  {
    var c, cs, sv := ss.codec, ClientScript(ss.cli), Full(ss);
    ActsAreFull(ss, st);
    if ConnectStep(ss, st, st2) {
      JoinWorks(c, cs, sv, st.client);
    } else if AcceptStep(ss, st, st2) {
      JoinWorks(c, sv, cs, st.server);
    }
  }

  lemma StepWorks(ss: Session, st: State, st2: State)
    requires Inv(ss, st) && Step(ss, st, st2)
    ensures Work(ss, st2) < Work(ss, st)
  {
    if k: nat :| ClientStep(ss, st, k, st2) {
      ClientWorks(ss, st, k, st2);
    } else if k: nat :| ServerStep(ss, st, k, st2) {
      ServerWorks(ss, st, k, st2);
    } else {
      ConnWorks(ss, st, st2);
    }
  }

  lemma RunStepWorks(ss: Session, states: seq<State>, n: nat)
    requires Serializable(ss) && Run(ss, states) && n + 1 < |states|
    ensures Work(ss, states[n + 1]) < Work(ss, states[n])
  {
    RunInv(ss, states, n);
    StepWorks(ss, states[n], states[n + 1]);
  }

  lemma RunWorkLeft(ss: Session, states: seq<State>, n: nat)
    requires Serializable(ss) && Run(ss, states) && n < |states|
    ensures Work(ss, states[n]) >= 0
  {
    RunInv(ss, states, n);
    WorkNonNegative(ss, states[n]);
  }

  lemma Descends(work: seq<int>, n: nat)
    requires n < |work| && work[n] >= 0
    requires forall i :: 0 <= i < |work| - 1 ==> work[i + 1] < work[i]
    ensures n <= work[0]
  {
    var i := n;
    while i > 0
      invariant 0 <= i <= n && work[i] >= n - i
    {
      i := i - 1;
    }
  }

  /** The number of steps of a session is bounded by its bytes, so no session goes on forever. */
  lemma RunBounded(ss: Session, states: seq<State>)
    requires Serializable(ss) && Run(ss, states)
    ensures |states| - 1 <= Work(ss, states[0])
  {
    var work := seq(|states|, i requires 0 <= i < |states| => Work(ss, states[i]));
    forall i | 0 <= i < |work| - 1 ensures work[i + 1] < work[i] {
      RunStepWorks(ss, states, i);
    }
    RunWorkLeft(ss, states, |states| - 1);
    Descends(work, |states| - 1);
  }

  /** The signal of the peer that receives the benchmark to the one that sends it. */
  function StartSignal(cli: Cli): Msg { if cli.streams > 1 then StartBenchmark else Ready }

  /** The announcements of a session: those of every stream of a parallel TCP session. */
  ghost function StreamsOf(cli: Cli): seq<Msg> {
    if cli.protocol.Tcp? && cli.streams > 1 then StreamsReady(0, cli.streams) else []
  }

  /** What the client hears: the acknowledgement, stream ids in order, the signal if it sends, and the results. */
  ghost function ForClient(ss: Session): seq<Msg> {
    [Ack] + StreamsOf(ss.cli) + (if ss.cli.reverse then [] else [StartSignal(ss.cli)])
    + [Results(ss.summary, ss.json)]
  }

  /** What the server hears: the options, and the signal if it sends. */
  ghost function ForServer(ss: Session): seq<Msg> {
    [CliArgs(ss.cli)] + if ss.cli.reverse then [StartSignal(ss.cli)] else []
  }

  /** The announcements of the streams `i..n`. */
  ghost function StreamsReady(i: nat, n: nat): (s: seq<Msg>)
    ensures |s| == (if i < n then n - i else 0)
    ensures forall j :: 0 <= j < |s| ==> s[j] == StreamReady(i + j)
    decreases n - i
  {
    if i >= n then [] else [StreamReady(i)] + StreamsReady(i + 1, n)
  }

  lemma {:induction false} SentPrefix(a: seq<Act>, b: seq<Act>, n: nat)
    requires n <= |a|
    ensures Sent(a + b, n) == Sent(a, n)
  {
    if n > 0 {
      SentPrefix(a, b, n - 1);
    }
  }

  lemma {:induction false} SentConcat(a: seq<Act>, b: seq<Act>, n: nat)
    requires n <= |b|
    ensures Sent(a + b, |a| + n) == Sent(a, |a|) + Sent(b, n)
  {
    if n == 0 {
      SentPrefix(a, b, |a|);
    } else {
      SentConcat(a, b, n - 1);
      assert (a + b)[|a| + n - 1] == b[n - 1];
    }
  }

  ghost function All(xs: seq<Act>): seq<Msg> { Sent(xs, |xs|) }

  lemma AllConcat(a: seq<Act>, b: seq<Act>)
    ensures All(a + b) == All(a) + All(b)
  {
    SentConcat(a, b, |b|);
  }

  lemma AllOne(x: Act)
    ensures All([x]) == if x.Send? then [x.msg] else []
  {
    assert Sent([x], 0) == [];
  }

  lemma AllTwo(x: Act, y: Act)
    ensures All([x, y]) == (if x.Send? then [x.msg] else []) + (if y.Send? then [y.msg] else [])
  {
    AllOne(x);
    AllOne(y);
    assert [x, y] == [x] + [y];
    AllConcat([x], [y]);
  }

  lemma {:induction false} StreamsSaid(i: nat, n: nat)
    ensures All(AcceptStreams(i, n)) == StreamsReady(i, n)
    ensures All(ConnectStreams(i, n)) == []
    decreases n - i
  {
    if i < n {
      StreamsSaid(i + 1, n);
      AllTwo(Send(StreamReady(i)), Join);
      AllTwo(Await(WantStreamReady), Join);
      AllConcat([Send(StreamReady(i)), Join], AcceptStreams(i + 1, n));
      AllConcat([Await(WantStreamReady), Join], ConnectStreams(i + 1, n));
    }
  }

  lemma AllFour(a: seq<Act>, b: seq<Act>, c: seq<Act>, d: seq<Act>, w: seq<Msg>, x: seq<Msg>, y: seq<Msg>, z: seq<Msg>)
    requires All(a) == w && All(b) == x && All(c) == y && All(d) == z
    ensures All(a + b + c + d) == w + x + y + z
  {
    AllConcat(a, b);
    AllConcat(a + b, c);
    AllConcat(a + b + c, d);
  }

  lemma NothingBetween(w: seq<Msg>, y: seq<Msg>)
    ensures w + [] + y + [] == w + y
  {
  }

  lemma OpeningSaid(cli: Cli)
    ensures All([Send(CliArgs(cli)), Await(WantAck)]) == [CliArgs(cli)]
    ensures All([Await(WantCli), Send(Ack)]) == [Ack]
  {
    AllTwo(Send(CliArgs(cli)), Await(WantAck));
    AllTwo(Await(WantCli), Send(Ack));
  }

  lemma SignalSaid(receiver: bool, cli: Cli)
    ensures All(Synchronize(receiver, cli.streams > 1)) == if receiver then [StartSignal(cli)] else []
  {
    AllOne(Synchronize(receiver, cli.streams > 1)[0]);
  }

  ghost function ServerStreams(cli: Cli): seq<Act> {
    if cli.protocol.Udp? then [] else if cli.streams > 1 then AcceptStreams(0, cli.streams) else [Join]
  }

  ghost function ClientStreams(cli: Cli): seq<Act> {
    if cli.protocol.Udp? then [] else if cli.streams > 1 then ConnectStreams(0, cli.streams) else [Join]
  }

  lemma StreamsHeard(cli: Cli)
    ensures All(ServerStreams(cli)) == StreamsOf(cli) && All(ClientStreams(cli)) == []
  {
    AllOne(Join);
    StreamsSaid(0, cli.streams);
  }

  /** The two programs say what the peers are to hear. */
  lemma ScriptSays(ss: Session)
    ensures All(Full(ss)) == ForClient(ss)
    ensures All(ClientScript(ss.cli)) == ForServer(ss)
  {
    ServerSays(ss);
    ClientSays(ss.cli);
  }

  lemma ServerSays(ss: Session)
    ensures All(Full(ss)) == ForClient(ss)
  {
    var cli, results := ss.cli, Results(ss.summary, ss.json);
    OpeningSaid(cli);
    StreamsHeard(cli);
    SignalSaid(!cli.reverse, cli);
    AllOne(Send(results));
    AllFour([Await(WantCli), Send(Ack)], ServerStreams(cli), Synchronize(!cli.reverse, cli.streams > 1),
            [Send(results)], [Ack], StreamsOf(cli), if !cli.reverse then [StartSignal(cli)] else [], [results]);
  }

  lemma ClientSays(cli: Cli)
    ensures All(ClientScript(cli)) == [CliArgs(cli)] + if cli.reverse then [StartSignal(cli)] else []
  {
    OpeningSaid(cli);
    StreamsHeard(cli);
    SignalSaid(cli.reverse, cli);
    AllOne(Await(WantResults));
    var signal := if cli.reverse then [StartSignal(cli)] else [];
    AllFour([Send(CliArgs(cli)), Await(WantAck)], ClientStreams(cli), Synchronize(cli.reverse, cli.streams > 1),
            [Await(WantResults)], [CliArgs(cli)], [], signal, []);
    NothingBetween([CliArgs(cli)], signal);
  }

  ghost predicate AtRest(ss: Session, st: State) {
    !(exists st2 :: Step(ss, st, st2))
  }

  ghost function Last(states: seq<State>): State
    requires |states| > 0
  {
    states[|states| - 1]
  }

  /**
    A session that has come to rest is complete exactly when no connection was turned away: both programs
    are done, every byte was consumed, the server had the client's options, and each peer has heard what is for it.
   */
  lemma SessionCompletes(ss: Session, states: seq<State>)
    requires Serializable(ss) && ss.cap > 0 && Run(ss, states) && AtRest(ss, Last(states))
    ensures var last := Last(states);
            && (Finished(ss, last) <==> last.conn.lost == 0)
            && (Finished(ss, last) ==>
                  !last.panicked && last.learned == Some(ss.cli) && last.c2s == [] && last.s2c == [])
            && (Finished(ss, last) ==> last.clientHeard == ForClient(ss) && last.serverHeard == ForServer(ss))
  {
    var last := Last(states);
    RunInv(ss, states, |states| - 1);
    if Finished(ss, last) {
      Drained(ss, last);
      ScriptSays(ss);
    } else if last.conn.lost == 0 {
      var st2 := NoDeadlock(ss, last);
    }
  }

  // ----- when a connection can be turned away -----

  /**
    One TCP stream: the client connects as soon as it has the acknowledgement, and the server binds after
    sending it.
   */
  predicate Unguarded(ss: Session) { ss.cli.protocol.Tcp? && ss.cli.streams <= 1 }

  ghost predicate AfterAwait(xs: seq<Act>) {
    forall i :: 0 <= i < |xs| && xs[i].Join? ==> i >= 1 && xs[i - 1].Await?
  }

  /** Every connection is asked for right after a message that the server sends with its port bound. */
  ghost predicate Guarded(cs: seq<Act>) {
    AfterAwait(cs) && forall i :: 0 <= i < 3 && i < |cs| ==> !cs[i].Join?
  }

  lemma AfterAwaitConcat(a: seq<Act>, b: seq<Act>)
    requires AfterAwait(a) && AfterAwait(b)
    ensures AfterAwait(a + b)
  {
    var xs := a + b;
    forall i | 0 <= i < |xs| && xs[i].Join? ensures i >= 1 && xs[i - 1].Await? {
      if i >= |a| {
        assert b[i - |a|].Join?;
        assert xs[i - 1] == b[i - 1 - |a|];
      }
    }
  }

  lemma {:induction false} StreamsGuarded(i: nat, n: nat)
    ensures AfterAwait(ConnectStreams(i, n))
    decreases n - i
  {
    if i < n {
      StreamsGuarded(i + 1, n);
      AfterAwaitConcat([Await(WantStreamReady), Join], ConnectStreams(i + 1, n));
    }
  }

  lemma ScriptGuarded(ss: Session)
    requires !Unguarded(ss)
    ensures Guarded(ClientScript(ss.cli))
  {
    var cli := ss.cli;
    var streams: seq<Act> := if cli.protocol.Tcp? then ConnectStreams(0, cli.streams) else [];
    var head, tail := [Send(CliArgs(cli)), Await(WantAck)], Synchronize(cli.reverse, cli.streams > 1);
    StreamsGuarded(0, cli.streams);
    AfterAwaitConcat(head, streams);
    AfterAwaitConcat(head + streams, tail);
    AfterAwaitConcat(head + streams + tail, [Await(WantResults)]);
    assert ClientScript(cli) == head + streams + tail + [Await(WantResults)];
    assert |streams| > 0 ==> streams[0] == Await(WantStreamReady);
  }

  /** A peer that has read a message finds the sender past it. */
  lemma CaughtUp(c: Codec<Msg>, xs: seq<Act>, ys: seq<Act>, x: Place, y: Place, xy: seq<Byte>, yx: seq<Byte>)
    requires Agree(c, xs, ys, x, y, xy, yx) && x.pc > 0 && xs[x.pc - 1].Await?
    ensures y.pc >= x.pc
  {
    var i, j := x.pc, y.pc;
    assert Match(xs[i - 1], ys[i - 1]);
    if j < i {
      StreamMono(c, ys, j, i);
      if !ys[j].Send? {
        StreamMono(c, ys, j, i - 1);
      }
    }
  }

  /** No connection was turned away, and one under way finds the port listening. */
  ghost predicate Clean(st: State) {
    st.conn.lost == 0 && (st.conn.syn > 0 ==> st.conn.syn == 1 && st.conn.listener.Listening?)
  }

  lemma ConnectClean(ss: Session, st: State, st2: State)
    requires Inv(ss, st) && Clean(st) && !Unguarded(ss) && ConnectStep(ss, st, st2)
    ensures Clean(st2)
  {
    var cs := ClientScript(ss.cli);
    ScriptGuarded(ss);
    CaughtUp(ss.codec, cs, Full(ss), st.client, st.server, st.c2s, st.s2c);
    JoinsMono(cs, st.client.pc, st.server.pc);
    JoinNeedsTcp(ss.cli, st.client.pc);
  }

  lemma JoinNeedsTcp(cli: Cli, i: nat)
    requires i < |ClientScript(cli)| && ClientScript(cli)[i].Join?
    ensures cli.protocol.Tcp?
  {
    if cli.protocol.Udp? {
      var tail := Synchronize(cli.reverse, cli.streams > 1);
      assert ClientScript(cli) == [Send(CliArgs(cli)), Await(WantAck)] + [] + tail + [Await(WantResults)];
      assert forall k :: 0 <= k < |tail| ==> !tail[k].Join?;
    }
  }

  lemma StepClean(ss: Session, st: State, st2: State)
    requires Inv(ss, st) && Clean(st) && !Unguarded(ss) && Step(ss, st, st2)
    ensures Clean(st2)
  {
    if ConnectStep(ss, st, st2) {
      ConnectClean(ss, st, st2);
    } else if k: nat :| ClientStep(ss, st, k, st2) || ServerStep(ss, st, k, st2) {
      assert st2.conn == st.conn;
    }
  }

  /** With several streams, or without TCP, no connection is ever turned away. */
  lemma {:induction false} NeverTurnedAway(ss: Session, states: seq<State>, n: nat)
    requires Serializable(ss) && !Unguarded(ss) && Run(ss, states) && n < |states|
    ensures Clean(states[n])
  {
    if n > 0 {
      NeverTurnedAway(ss, states, n - 1);
      RunInv(ss, states, n - 1);
      StepClean(ss, states[n - 1], states[n]);
    }
  }

  /** The one connection of a session with a single TCP stream. */
  lemma SingleJoin(ss: Session, n: nat)
    requires Unguarded(ss) && n <= |ClientScript(ss.cli)|
    ensures |ClientScript(ss.cli)| == 5 && ClientScript(ss.cli)[2].Join?
    ensures forall i :: 0 <= i < 5 && i != 2 ==> !ClientScript(ss.cli)[i].Join?
    ensures Joins(ClientScript(ss.cli), n) == if n > 2 then 1 else 0
  {
    var cs := ClientScript(ss.cli);
    var start := Synchronize(ss.cli.reverse, false);
    assert cs == [Send(CliArgs(ss.cli)), Await(WantAck), Join, start[0], Await(WantResults)];
    assert Joins(cs, 1) == 0 && Joins(cs, 2) == 0 && Joins(cs, 3) == 1 && Joins(cs, 4) == 1 && Joins(cs, 5) == 1;
  }

  /** A connection is turned away only where it is the single one of its session and comes before the port is bound. */
  lemma TurnedAwayIsEarly(ss: Session, states: seq<State>, n: nat)
    requires Serializable(ss) && Run(ss, states) && n + 1 < |states| && states[n + 1].conn.lost > states[n].conn.lost
    ensures Unguarded(ss) && states[n].conn.listener.Closed?
  {
    var st := states[n];
    RunInv(ss, states, n);
    if Unguarded(ss) {
      SingleJoin(ss, st.client.pc);
      SingleJoin(ss, st.server.pc);
      assert DeliverStep(st, states[n + 1]);
    } else {
      NeverTurnedAway(ss, states, n + 1);
    }
  }

  lemma RunGrows(ss: Session, states: seq<State>, st2: State)
    requires Run(ss, states) && Step(ss, Last(states), st2)
    ensures Run(ss, states + [st2]) && Last(states + [st2]) == st2
  {
  }

  lemma StepLost(ss: Session, st: State, st2: State)
    requires Step(ss, st, st2)
    ensures st2.conn.lost >= st.conn.lost
  {
  }

  /** Every run can be continued until nothing is possible any more. */
  lemma {:induction false} RunToRest(ss: Session, states: seq<State>) returns (more: seq<State>)
    requires Serializable(ss) && Run(ss, states)
    ensures Run(ss, more) && AtRest(ss, Last(more)) && Last(more).conn.lost >= Last(states).conn.lost
    decreases Work(ss, Last(states))
  {
    var last := Last(states);
    RunInv(ss, states, |states| - 1);
    if st2 :| Step(ss, last, st2) {
      RunGrows(ss, states, st2);
      StepLost(ss, last, st2);
      StepInv(ss, last, st2);
      StepWorks(ss, last, st2);
      WorkNonNegative(ss, st2);
      more := RunToRest(ss, states + [st2]);
    } else {
      more := states;
    }
  }

  /** Before anything about the connection has happened. */
  ghost predicate Early(st: State) { st.client.pc <= 2 && st.server.pc <= 2 && st.conn == Conn(0, Closed, 0) }

  lemma EarlyTalk(ss: Session, st: State) returns (st2: State)
    requires Inv(ss, st) && ss.cap > 0 && Unguarded(ss) && Early(st) && st.client.pc < 2
    ensures Step(ss, st, st2) && Early(st2)
  {
    SingleJoin(ss, 0);
    var cs, sv := ClientScript(ss.cli), Full(ss);
    assert Match(cs[2], sv[2]);
    TalkGoesOn(ss, st);
    if ClientCan(ss, st) {
      st2 := ClientTalks(ss, st);
    } else {
      st2 := ServerTalks(ss, st);
    }
  }

  /** The client of a single TCP stream can come to its connection before the server binds. */
  lemma {:induction false} RunToConnect(ss: Session, states: seq<State>) returns (more: seq<State>)
    requires Serializable(ss) && ss.cap > 0 && Unguarded(ss) && Run(ss, states) && Early(Last(states))
    ensures Run(ss, more) && Early(Last(more)) && Last(more).client.pc == 2
    decreases Work(ss, Last(states))
  {
    var last := Last(states);
    RunInv(ss, states, |states| - 1);
    if last.client.pc < 2 {
      var st2 := EarlyTalk(ss, last);
      RunGrows(ss, states, st2);
      StepInv(ss, last, st2);
      StepWorks(ss, last, st2);
      WorkNonNegative(ss, st2);
      more := RunToConnect(ss, states + [st2]);
    } else {
      more := states;
    }
  }

  /** A run of a single TCP stream whose connection comes too early, and which therefore never completes. */
  lemma TurnedAwayRun(ss: Session) returns (states: seq<State>)
    requires Serializable(ss) && ss.cap > 0 && Unguarded(ss)
    ensures Run(ss, states) && AtRest(ss, Last(states)) && !Finished(ss, Last(states))
  {
    states := RunToConnect(ss, [START]);
    var st := Last(states);
    RunInv(ss, states, |states| - 1);
    SingleJoin(ss, 2);
    var asked := st.(client := Ahead(st.client), conn := Conn(1, Closed, 0));
    assert ConnectStep(ss, st, asked);
    RunGrows(ss, states, asked);
    var away := asked.(conn := Conn(0, Closed, 1));
    assert DeliverStep(asked, away);
    RunGrows(ss, states + [asked], away);
    states := RunToRest(ss, states + [asked] + [away]);
    SessionCompletes(ss, states);
  }

  /** Every session that comes to rest is complete, if and only if it does not use a single TCP stream. */
  lemma CompletesIff(ss: Session)
    requires Serializable(ss) && ss.cap > 0
    ensures (forall states :: Run(ss, states) && AtRest(ss, Last(states)) ==> Finished(ss, Last(states))) <==>
              !Unguarded(ss)
  {
    if Unguarded(ss) {
      var states := TurnedAwayRun(ss);
    } else {
      forall states | Run(ss, states) && AtRest(ss, Last(states)) ensures Finished(ss, Last(states)) {
        NeverTurnedAway(ss, states, |states| - 1);
        SessionCompletes(ss, states);
      }
    }
  }
}
