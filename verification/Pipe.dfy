/**
  The named pipe, as interleaved atomic steps of any number of threads.  One step is one access to
  the queue, to the counter or to a flag, or one critical section of the open/close mutex.
 */
module Pipe {
  import opened Arith

  const PIPE_SIZE: nat := 0x1000

  datatype Side = Reader | Writer

  /** Where a call of `read` is; after `Taken` the byte `b` is out of the queue but still in the counter. */
  datatype ReadPc = Wait | EofData | EofWriter | Loop | Taken(b: Byte) | More | MoreCheck

  /** Where a call of `write` is; after `Put` a byte is in the queue but not yet in the counter. */
  datatype WritePc = SpaceWait | SpaceCheck | PutLoop | Put | MoreSpace | MoreSpaceCheck

  /**
    `base` is how many bytes had been delivered, or accepted, when the call began; `got` and `sent`
    are what the call has moved since.
   */
  datatype Thread =
    | Out
    | OpenWait(side: Side)
    | Holder(side: Side)
    | Closing
    | Reading(rpc: ReadPc, n: nat, base: nat, got: seq<Byte>)
    | Writing(wpc: WritePc, buf: seq<Byte>, base: nat, sent: nat)

  /**
    `accepted` and `delivered` are the bytes enqueued and dequeued since the buffer was last reset;
    `holders` records which thread opened each side.
   */
  datatype State = State(queue: seq<Byte>, count: nat, flags: map<Side, bool>, mutex: Option<nat>,
                         threads: map<nat, Thread>, accepted: seq<Byte>, delivered: seq<Byte>, holders: map<Side, nat>)

  function At(st: State, t: nat): Thread { if t in st.threads then st.threads[t] else Out }

  predicate Flag(st: State, side: Side) { side in st.flags && st.flags[side] }

  function Other(side: Side): Side { if side.Reader? then Writer else Reader }

  /** The side of the pipe a thread holds open. */
  function Role(th: Thread): Option<Side> {
    match th
    case Out => None
    case Closing => None
    case OpenWait(side) => Some(side)
    case Holder(side) => Some(side)
    case Reading(_, _, _, _) => Some(Reader)
    case Writing(_, _, _, _) => Some(Writer)
  }

  function Moved(st: State, t: nat, th: Thread): State { st.(threads := st.threads[t := th]) }

  // ----- steps -----

  /** Steps of `read` that only look; a wait ends when its condition was seen to hold. */
  ghost predicate LookRead(st: State, a: Thread, b: Thread)
    requires a.Reading?
  {
    match a.rpc
    case Wait => (st.count > 0 || !Flag(st, Writer)) && b == a.(rpc := EofData)
    case EofData => b == a.(rpc := if st.count == 0 then EofWriter else Loop)
    case EofWriter => b == if !Flag(st, Writer) then Holder(Reader) else a.(rpc := Loop)
    case Loop => if |a.got| >= a.n then b == Holder(Reader) else st.queue == [] && b == a.(rpc := More)
    case Taken(_) => false
    case More => (st.count > 0 || !Flag(st, Writer)) && b == a.(rpc := MoreCheck)
    case MoreCheck => b == if st.count == 0 then Holder(Reader) else a.(rpc := Loop)
  }

  /** Likewise for `write`; the checks that fail answer `EPIPE`. */
  ghost predicate LookWrite(st: State, a: Thread, b: Thread)
    requires a.Writing?
  {
    match a.wpc
    case SpaceWait => (st.count < PIPE_SIZE || !Flag(st, Reader)) && b == a.(wpc := SpaceCheck)
    case SpaceCheck => b == if !Flag(st, Reader) then Holder(Writer) else a.(wpc := PutLoop)
    case PutLoop =>
      if a.sent >= |a.buf| then b == Holder(Writer) else |st.queue| >= PIPE_SIZE && b == a.(wpc := MoreSpace)
    case Put => false
    case MoreSpace => (st.count < PIPE_SIZE || !Flag(st, Reader)) && b == a.(wpc := MoreSpaceCheck)
    case MoreSpaceCheck => b == if !Flag(st, Reader) then Holder(Writer) else a.(wpc := PutLoop)
  }

  /** Steps that change nothing but the place of the thread. */
  ghost predicate Look(st: State, a: Thread, b: Thread) {
    match a
    case OpenWait(side) => Flag(st, Other(side)) && b == Holder(side)
    case Holder(Reader) => b.Reading? && b == Reading(Wait, b.n, |st.delivered|, []) && b.n > 0
    case Holder(Writer) => b.Writing? && b == Writing(SpaceWait, b.buf, |st.accepted|, 0) && |b.buf| > 0
    case Reading(_, _, _, _) => LookRead(st, a, b)
    case Writing(_, _, _, _) => LookWrite(st, a, b)
    case _ => false
  }

  /** `open` under the mutex; with the flag already set it answers `EBUSY` and changes nothing. */
  ghost predicate Open(st: State, t: nat, side: Side, st2: State) {
    && At(st, t).Out? && st.mutex.None? && !Flag(st, side)
    && st2 == Moved(st, t, OpenWait(side)).(flags := st.flags[side := true], holders := st.holders[side := t])
  }

  /** `close` takes the mutex and clears the flag of its side. */
  ghost predicate CloseFlag(st: State, t: nat, side: Side, st2: State) {
    && At(st, t) == Holder(side) && st.mutex.None?
    && st2 == Moved(st, t, Closing).(flags := st.flags[side := false], mutex := Some(t), holders := st.holders - {side})
  }

  /** `close` goes on: with both flags clear the buffer is replaced and the counter reset. */
  ghost predicate CloseReset(st: State, t: nat, st2: State) {
    && At(st, t).Closing?
    && var st1 := Moved(st, t, Out).(mutex := None);
       st2 == if Flag(st, Reader) || Flag(st, Writer) then st1
              else st1.(queue := [], count := 0, accepted := [], delivered := [])
  }

  ghost predicate Enqueue(st: State, t: nat, st2: State) {
    && At(st, t).Writing?
    && var th := At(st, t);
    && th.wpc.PutLoop? && th.sent < |th.buf| && |st.queue| < PIPE_SIZE
    && st2 == Moved(st, t, th.(wpc := Put))
              .(queue := st.queue + [th.buf[th.sent]], accepted := st.accepted + [th.buf[th.sent]])
  }

  ghost predicate CountUp(st: State, t: nat, st2: State) {
    && At(st, t).Writing?
    && var th := At(st, t);
    && th.wpc.Put?
    && st2 == Moved(st, t, th.(wpc := PutLoop, sent := th.sent + 1)).(count := (st.count + 1) % WORD)
  }

  ghost predicate Dequeue(st: State, t: nat, st2: State) {
    && At(st, t).Reading?
    && var th := At(st, t);
    && th.rpc.Loop? && |th.got| < th.n && st.queue != []
    && st2 == Moved(st, t, th.(rpc := Taken(st.queue[0])))
              .(queue := st.queue[1..], delivered := st.delivered + [st.queue[0]])
  }

  ghost predicate CountDown(st: State, t: nat, st2: State) {
    && At(st, t).Reading?
    && var th := At(st, t);
    && th.rpc.Taken?
    && st2 == Moved(st, t, th.(rpc := Loop, got := th.got + [th.rpc.b])).(count := (st.count + WORD - 1) % WORD)
  }

  ghost predicate Step(st: State, t: nat, st2: State) {
    || (exists b :: Look(st, At(st, t), b) && st2 == Moved(st, t, b))
    || (exists side :: Open(st, t, side, st2))
    || (exists side :: CloseFlag(st, t, side, st2))
    || CloseReset(st, t, st2)
    || Enqueue(st, t, st2) || CountUp(st, t, st2)
    || Dequeue(st, t, st2) || CountDown(st, t, st2)
  }

  // ----- what every step keeps -----

  /** Bytes a thread has moved in or out of the queue that the counter does not show yet. */
  function UncountedIn(th: Thread): nat { if th.Writing? && th.wpc.Put? then 1 else 0 }

  function UncountedOut(th: Thread): nat { if th.Reading? && th.rpc.Taken? then 1 else 0 }

  ghost function InHand(th: Thread): seq<Byte> { if th.Reading? && th.rpc.Taken? then [th.rpc.b] else [] }

  /** The bytes of the call in progress are the newest ones of the session, in order. */
  ghost predicate CallOk(th: Thread, accepted: seq<Byte>, delivered: seq<Byte>) {
    match th
    case Reading(_, n, base, got) =>
      n > 0 && base <= |delivered| && delivered[base..] == got + InHand(th) && |got + InHand(th)| <= n
    case Writing(_, buf, base, sent) =>
      base <= |accepted| && sent + UncountedIn(th) <= |buf| && accepted[base..] == buf[..sent + UncountedIn(th)]
    case _ => true
  }

  /** A thread is on a side exactly when it is the one recorded for it, and the flag tells whether there is one. */
  ghost predicate Exclusive(st: State) {
    && (forall side :: side in st.holders <==> Flag(st, side))
    && (forall t: nat, side :: Role(At(st, t)) == Some(side) <==> side in st.holders && st.holders[side] == t)
    && (forall t: nat :: At(st, t).Closing? <==> st.mutex == Some(t))
  }

  ghost function HolderOf(st: State, side: Side): Thread {
    if side in st.holders then At(st, st.holders[side]) else Out
  }

  /** No byte is lost, duplicated or reordered, and the buffer is never over-full. */
  ghost predicate Conserved(st: State) {
    st.accepted == st.delivered + st.queue && |st.queue| <= PIPE_SIZE
  }

  /** The counter is the queue length up to the operations under way, modulo the word size. */
  ghost predicate Counted(st: State) {
    st.count == (|st.queue| - UncountedIn(HolderOf(st, Writer)) + UncountedOut(HolderOf(st, Reader))) % WORD
  }

  ghost predicate CallsOk(st: State) { forall t: nat :: CallOk(At(st, t), st.accepted, st.delivered) }

  ghost predicate Inv(st: State) { Conserved(st) && Counted(st) && Exclusive(st) && CallsOk(st) }

  const INITIAL := State([], 0, map[], None, map[], [], [], map[])

  /** Only `t` moved, staying on its side of the pipe. */
  ghost predicate MovedOnly(st: State, t: nat, th: Thread, st2: State) {
    && st2.threads == st.threads[t := th]
    && Role(th) == Role(At(st, t)) && Role(th).Some?
    && st2.flags == st.flags && st2.mutex == st.mutex && st2.holders == st.holders
    && (if Role(th) == Some(Reader) then st2.accepted == st.accepted else st2.delivered == st.delivered)
  }

  lemma CallKept(th: Thread, accepted: seq<Byte>, delivered: seq<Byte>, accepted2: seq<Byte>, delivered2: seq<Byte>)
    requires CallOk(th, accepted, delivered)
    requires Role(th) == Some(Reader) ==> delivered2 == delivered
    requires Role(th) == Some(Writer) ==> accepted2 == accepted
    ensures CallOk(th, accepted2, delivered2)
  {
  }

  lemma MovedKeeps(st: State, t: nat, th: Thread, st2: State)
    requires Exclusive(st) && CallsOk(st) && MovedOnly(st, t, th, st2) && CallOk(th, st2.accepted, st2.delivered)
    ensures Exclusive(st2) && CallsOk(st2)
    ensures HolderOf(st, Role(th).value) == At(st, t) && HolderOf(st2, Role(th).value) == th
    ensures HolderOf(st2, Other(Role(th).value)) == HolderOf(st, Other(Role(th).value))
  {
    MovedExclusive(st, t, th, st2);
    assert Role(th).value == Reader || Role(th).value == Writer;
    forall u: nat ensures CallOk(At(st2, u), st2.accepted, st2.delivered) {
      if u != t {
        CallKept(At(st, u), st.accepted, st.delivered, st2.accepted, st2.delivered);
      }
    }
  }

  lemma MovedExclusive(st: State, t: nat, th: Thread, st2: State)
    requires Exclusive(st) && MovedOnly(st, t, th, st2)
    ensures Exclusive(st2) && At(st2, t) == th
    ensures forall u: nat :: u != t ==> At(st2, u) == At(st, u) && Role(At(st, u)) != Role(th)
    ensures HolderOf(st, Role(th).value) == At(st, t) && HolderOf(st2, Role(th).value) == th
    ensures HolderOf(st2, Other(Role(th).value)) == HolderOf(st, Other(Role(th).value))
  {
    assert Role(At(st, t)) == Some(Role(th).value);
    forall u: nat | u != t ensures At(st2, u) == At(st, u) && Role(At(st, u)) != Role(th) {
    }
  }

  lemma LookReadCall(st: State, a: Thread, b: Thread)
    requires a.Reading? && LookRead(st, a, b) && CallOk(a, st.accepted, st.delivered)
    ensures CallOk(b, st.accepted, st.delivered) && Role(b) == Some(Reader) && UncountedOut(b) == UncountedOut(a) == 0
  {
  }

  lemma LookWriteCall(st: State, a: Thread, b: Thread)
    requires a.Writing? && LookWrite(st, a, b) && CallOk(a, st.accepted, st.delivered)
    ensures CallOk(b, st.accepted, st.delivered) && Role(b) == Some(Writer) && UncountedIn(b) == UncountedIn(a) == 0
  {
  }

  lemma LookCall(st: State, a: Thread, b: Thread)
    requires Look(st, a, b) && CallOk(a, st.accepted, st.delivered)
    ensures CallOk(b, st.accepted, st.delivered) && Role(b).Some? && Role(b) == Role(a)
    ensures UncountedIn(b) == UncountedIn(a) == 0 && UncountedOut(b) == UncountedOut(a) == 0
  {
    if a.Reading? {
      LookReadCall(st, a, b);
    } else if a.Writing? {
      LookWriteCall(st, a, b);
    }
  }

  lemma LookKeeps(st: State, t: nat, b: Thread)
    requires Inv(st) && Look(st, At(st, t), b)
    ensures Inv(Moved(st, t, b))
  {
    LookCall(st, At(st, t), b);
    MovedKeeps(st, t, b, Moved(st, t, b));
  }

  lemma EnqueueKeeps(st: State, t: nat, st2: State)
    requires Inv(st) && Enqueue(st, t, st2)
    ensures Inv(st2)
  {
    var th := At(st, t);
    assert CallOk(th, st.accepted, st.delivered);
    assert th.buf[..th.sent + 1] == th.buf[..th.sent] + [th.buf[th.sent]];
    assert st2.accepted[th.base..] == st.accepted[th.base..] + [th.buf[th.sent]];
    MovedKeeps(st, t, th.(wpc := Put), st2);
  }

  lemma DequeueKeeps(st: State, t: nat, st2: State)
    requires Inv(st) && Dequeue(st, t, st2)
    ensures Inv(st2)
  {
    var th := At(st, t);
    assert CallOk(th, st.accepted, st.delivered);
    assert st.queue == [st.queue[0]] + st.queue[1..];
    assert st2.delivered[th.base..] == st.delivered[th.base..] + [st.queue[0]];
    MovedKeeps(st, t, th.(rpc := Taken(st.queue[0])), st2);
  }

  lemma WrapUp(x: int)
    ensures (x % WORD + 1) % WORD == (x + 1) % WORD
  {
  }

  lemma WrapDown(x: int)
    ensures (x % WORD + WORD - 1) % WORD == (x - 1) % WORD
  {
  }

  lemma CountUpKeeps(st: State, t: nat, st2: State)
    requires Inv(st) && CountUp(st, t, st2)
    ensures Inv(st2)
  {
    var th := At(st, t);
    assert CallOk(th, st.accepted, st.delivered);
    MovedKeeps(st, t, th.(wpc := PutLoop, sent := th.sent + 1), st2);
    WrapUp(|st.queue| - 1 + UncountedOut(HolderOf(st, Reader)));
  }

  lemma CountDownKeeps(st: State, t: nat, st2: State)
    requires Inv(st) && CountDown(st, t, st2)
    ensures Inv(st2)
  {
    var th := At(st, t);
    assert CallOk(th, st.accepted, st.delivered);
    var th2 := th.(rpc := Loop, got := th.got + [th.rpc.b]);
    assert th2.got + InHand(th2) == th.got + InHand(th);
    MovedKeeps(st, t, th2, st2);
    WrapDown(|st.queue| - UncountedIn(HolderOf(st, Writer)) + 1);
  }

  lemma OpenKeeps(st: State, t: nat, side: Side, st2: State)
    requires Inv(st) && Open(st, t, side, st2)
    ensures Inv(st2)
  {
    assert forall u: nat :: u != t ==> At(st2, u) == At(st, u);
    assert Role(At(st, t)).None?;
    assert HolderOf(st2, Other(side)) == HolderOf(st, Other(side));
  }

  lemma CloseFlagExclusive(st: State, t: nat, side: Side, st2: State)
    requires Exclusive(st) && CloseFlag(st, t, side, st2)
    ensures Exclusive(st2)
    ensures HolderOf(st, side) == Holder(side) && HolderOf(st2, side) == Out
    ensures HolderOf(st2, Other(side)) == HolderOf(st, Other(side))
  {
    assert forall u: nat :: u != t ==> At(st2, u) == At(st, u);
    assert Role(At(st, t)) == Some(side);
  }

  lemma CloseFlagKeeps(st: State, t: nat, side: Side, st2: State)
    requires Inv(st) && CloseFlag(st, t, side, st2)
    ensures Inv(st2)
  {
    CloseFlagExclusive(st, t, side, st2);
    assert forall u: nat :: u != t ==> At(st2, u) == At(st, u);
    assert side == Reader || side == Writer;
  }

  lemma CloseResetKeeps(st: State, t: nat, st2: State)
    requires Inv(st) && CloseReset(st, t, st2)
    ensures Inv(st2)
  {
    assert forall u: nat :: u != t ==> At(st2, u) == At(st, u);
    assert Role(At(st, t)).None?;
    if !Flag(st, Reader) && !Flag(st, Writer) {
      forall u: nat ensures Role(At(st2, u)).None? {
        forall side: Side ensures Role(At(st, u)) != Some(side) {
          assert side == Reader || side == Writer;
        }
      }
    } else {
      assert HolderOf(st2, Reader) == HolderOf(st, Reader) && HolderOf(st2, Writer) == HolderOf(st, Writer);
    }
  }

  lemma StepInv(st: State, t: nat, st2: State)
    requires Inv(st) && Step(st, t, st2)
    ensures Inv(st2)
  {
    if b :| Look(st, At(st, t), b) && st2 == Moved(st, t, b) {
      LookKeeps(st, t, b);
    } else if side :| Open(st, t, side, st2) {
      OpenKeeps(st, t, side, st2);
    } else if side :| CloseFlag(st, t, side, st2) {
      CloseFlagKeeps(st, t, side, st2);
    } else if CloseReset(st, t, st2) {
      CloseResetKeeps(st, t, st2);
    } else if Enqueue(st, t, st2) {
      EnqueueKeeps(st, t, st2);
    } else if Dequeue(st, t, st2) {
      DequeueKeeps(st, t, st2);
    } else if CountUp(st, t, st2) {
      CountUpKeeps(st, t, st2);
    } else {
      CountDownKeeps(st, t, st2);
    }
  }

  /** `who[i]` is the thread that takes step `i`. */
  ghost predicate Run(states: seq<State>, who: seq<nat>) {
    && |states| == |who| + 1 && states[0] == INITIAL
    && forall i :: 0 <= i < |who| ==> Step(states[i], who[i], states[i + 1])
  }

  /** Every interleaving, from the new pipe on. */
  lemma {:induction false} RunInv(states: seq<State>, who: seq<nat>, n: nat)
    requires Run(states, who) && n <= |who|
    ensures Inv(states[n])
  {
    if n > 0 {
      RunInv(states, who, n - 1);
      StepInv(states[n - 1], who[n - 1], states[n]);
    }
  }

  /** At most one thread reads and at most one writes, whenever and by whomever the pipe was opened. */
  lemma OneHolderPerSide(states: seq<State>, who: seq<nat>, n: nat, t: nat, u: nat)
    requires Run(states, who) && n <= |who|
    requires Role(At(states[n], t)).Some? && Role(At(states[n], t)) == Role(At(states[n], u))
    ensures t == u
  {
    RunInv(states, who, n);
  }

  /** Delivered bytes followed by queued bytes are the accepted bytes, and the queue stays within its bound. */
  lemma NoByteLost(states: seq<State>, who: seq<nat>, n: nat)
    requires Run(states, who) && n <= |who|
    ensures states[n].delivered + states[n].queue == states[n].accepted
    ensures |states[n].queue| <= PIPE_SIZE
  {
    RunInv(states, who, n);
  }

  /** The threads with a byte in the queue, or out of it, that the counter does not show yet. */
  ghost function LateIn(st: State): set<nat> { set t | t in st.threads && UncountedIn(st.threads[t]) == 1 }

  ghost function LateOut(st: State): set<nat> { set t | t in st.threads && UncountedOut(st.threads[t]) == 1 }

  lemma LateOnes(st: State)
    requires Exclusive(st)
    ensures |LateIn(st)| == UncountedIn(HolderOf(st, Writer)) && |LateOut(st)| == UncountedOut(HolderOf(st, Reader))
  {
    forall t | t in LateIn(st) ensures Writer in st.holders && st.holders[Writer] == t {
      assert Role(At(st, t)) == Some(Writer);
    }
    forall t | t in LateOut(st) ensures Reader in st.holders && st.holders[Reader] == t {
      assert Role(At(st, t)) == Some(Reader);
    }
    assert LateIn(st) == if UncountedIn(HolderOf(st, Writer)) == 1 then {st.holders[Writer]} else {};
    assert LateOut(st) == if UncountedOut(HolderOf(st, Reader)) == 1 then {st.holders[Reader]} else {};
  }

  /**
    The counter is the queue length less the bytes not counted in yet plus those not counted out yet, with
    wrap-around.
   */
  lemma CounterShowsQueue(states: seq<State>, who: seq<nat>, n: nat)
    requires Run(states, who) && n <= |who|
    ensures states[n].count == (|states[n].queue| - |LateIn(states[n])| + |LateOut(states[n])|) % WORD
    ensures |LateIn(states[n])| <= 1 && |LateOut(states[n])| <= 1
    ensures LateIn(states[n]) == LateOut(states[n]) == {} ==> states[n].count == |states[n].queue|
  {
    RunInv(states, who, n);
    LateOnes(states[n]);
  }

  /** What a read has taken is a contiguous piece of the accepted stream, beginning where the delivered bytes ended. */
  lemma ReadReturnsStream(states: seq<State>, who: seq<nat>, n: nat, t: nat)
    requires Run(states, who) && n <= |who| && At(states[n], t).Reading?
    ensures var th := At(states[n], t);
            th.base + |th.got| <= |states[n].accepted| && th.got == states[n].accepted[th.base..th.base + |th.got|]
  {
    RunInv(states, who, n);
    assert CallOk(At(states[n], t), states[n].accepted, states[n].delivered);
  }

  /** What a write has put in is its buffer up to that point, at the end of the accepted stream. */
  lemma WriteAppends(states: seq<State>, who: seq<nat>, n: nat, t: nat)
    requires Run(states, who) && n <= |who| && At(states[n], t).Writing?
    ensures var th := At(states[n], t);
            && th.base <= |states[n].accepted| && th.sent + UncountedIn(th) <= |th.buf|
            && states[n].accepted[th.base..] == th.buf[..th.sent + UncountedIn(th)]
  {
    RunInv(states, who, n);
    assert CallOk(At(states[n], t), states[n].accepted, states[n].delivered);
  }

  // ----- what calls return -----

  /** A write that returns has put its whole buffer in, or there is no reader. */
  lemma WriteReturns(states: seq<State>, who: seq<nat>, t: nat, j: nat)
    requires Run(states, who) && j < |who| && At(states[j], t).Writing? && At(states[j + 1], t) == Holder(Writer)
    ensures var th := At(states[j], t);
            && th.base <= |states[j].accepted|
            && (states[j].accepted[th.base..] == th.buf || !Flag(states[j], Reader))
  {
    WriteAppends(states, who, j, t);
    assert Step(states[j], who[j], states[j + 1]);
    if who[j] == t {
      WriteExits(states[j], t, states[j + 1]);
    } else {
      OtherMoves(states[j], who[j], t, states[j + 1]);
    }
    var th := At(states[j], t);
    assert th.sent == |th.buf| ==> th.buf[..th.sent] == th.buf;
  }

  lemma WriteExits(st: State, t: nat, st2: State)
    requires Step(st, t, st2) && At(st, t).Writing? && At(st2, t) == Holder(Writer)
    ensures !At(st, t).wpc.Put? && (At(st, t).sent >= |At(st, t).buf| || !Flag(st, Reader))
  {
    if b :| Look(st, At(st, t), b) && st2 == Moved(st, t, b) {
      assert LookWrite(st, At(st, t), b);
    }
  }

  /**
    A read that returns has all the bytes it asked for, or it has just seen no data: in its loop, or before it and
    then no writer either.  What it has is a piece of the accepted stream.
   */
  lemma ReadReturns(states: seq<State>, who: seq<nat>, t: nat, j: nat)
    requires Run(states, who) && j < |who| && At(states[j], t).Reading? && At(states[j + 1], t) == Holder(Reader)
    ensures var th := At(states[j], t);
            || |th.got| == th.n
            || (|th.got| < th.n && th.rpc == MoreCheck && states[j].count == 0)
            || (th.rpc == EofWriter && !Flag(states[j], Writer) && exists i: nat :: SawNoData(states, who, t, i, j))
    ensures var th := At(states[j], t);
            th.base + |th.got| <= |states[j].accepted| && th.got == states[j].accepted[th.base..th.base + |th.got|]
  {
    ReadReturnsStream(states, who, j, t);
    RunInv(states, who, j);
    assert CallOk(At(states[j], t), states[j].accepted, states[j].delivered);
    assert Step(states[j], who[j], states[j + 1]);
    if who[j] == t {
      ReadExits(states[j], t, states[j + 1]);
      if ReadsAt(states[j], t, EofWriter) {
        var i := LookedBefore(states, who, t, EofWriter, j);
        assert SawNoData(states, who, t, i, j);
      }
    } else {
      OtherMoves(states[j], who[j], t, states[j + 1]);
    }
  }

  lemma ReadExits(st: State, t: nat, st2: State)
    requires Step(st, t, st2) && At(st, t).Reading? && At(st2, t) == Holder(Reader)
    ensures || |At(st, t).got| >= At(st, t).n
            || (At(st, t).rpc == MoreCheck && st.count == 0)
            || (At(st, t).rpc == EofWriter && !Flag(st, Writer))
  {
    if b :| Look(st, At(st, t), b) && st2 == Moved(st, t, b) {
      assert LookRead(st, At(st, t), b);
    }
  }

  /** An open that returns has found the other side. */
  lemma OpenReturns(states: seq<State>, who: seq<nat>, t: nat, side: Side, j: nat)
    requires Run(states, who) && j < |who| && At(states[j], t) == OpenWait(side) && At(states[j + 1], t) == Holder(side)
    ensures Flag(states[j], Other(side))
  {
    assert Step(states[j], who[j], states[j + 1]);
    if who[j] != t {
      OtherMoves(states[j], who[j], t, states[j + 1]);
    }
  }

  // ----- closing -----

  /** Nobody has the pipe open, and nobody is about to finish closing it. */
  ghost predicate Closed(st: State) { !Flag(st, Reader) && !Flag(st, Writer) && st.mutex.None? }

  ghost predicate AsNew(st: State) { st.queue == [] && st.count == 0 && st.accepted == [] && st.delivered == [] }

  lemma StepClosed(st: State, t: nat, st2: State)
    requires Inv(st) && Step(st, t, st2) && (Closed(st) ==> AsNew(st)) && Closed(st2)
    ensures AsNew(st2)
  {
    if !CloseReset(st, t, st2) {
      assert Role(At(st, t)) == Some(Reader) ==> Flag(st, Reader);
      assert Role(At(st, t)) == Some(Writer) ==> Flag(st, Writer);
      if b :| Look(st, At(st, t), b) && st2 == Moved(st, t, b) {
      } else if side :| Open(st, t, side, st2) {
      } else if side :| CloseFlag(st, t, side, st2) {
      }
    }
  }

  /** A pipe that both sides have closed is as new. */
  lemma {:induction false} ClosedIsNew(states: seq<State>, who: seq<nat>, n: nat)
    requires Run(states, who) && n <= |who| && Closed(states[n])
    ensures AsNew(states[n])
  {
    if n > 0 {
      RunInv(states, who, n - 1);
      if Closed(states[n - 1]) {
        ClosedIsNew(states, who, n - 1);
      }
      StepClosed(states[n - 1], who[n - 1], states[n]);
    }
  }

  /** Byte `x` of the accepted stream is the one some enqueue at or after step `k` put in. */
  lemma {:induction false} AcceptedSince(states: seq<State>, who: seq<nat>, k: nat, n: nat, x: nat) returns (m: nat)
    requires Run(states, who) && k <= n <= |who| && states[k].accepted == [] && x < |states[n].accepted|
    ensures k <= m < n && EnqueuesByte(states[m], who[m], states[m + 1], states[n].accepted[x])
    decreases n
  {
    var j := n - 1;
    assert Step(states[j], who[j], states[j + 1]);
    AcceptedStep(states[j], who[j], states[n]);
    if x < |states[j].accepted| && states[n].accepted[x] == states[j].accepted[x] {
      m := AcceptedSince(states, who, k, j, x);
    } else {
      m := j;
    }
  }

  ghost predicate EnqueuesByte(st: State, t: nat, st2: State, b: Byte) {
    Enqueue(st, t, st2) && At(st, t).buf[At(st, t).sent] == b
  }

  lemma AcceptedStep(st: State, t: nat, st2: State)
    requires Step(st, t, st2)
    ensures || st2.accepted == st.accepted || st2.accepted == []
            || (Enqueue(st, t, st2) && st2.accepted == st.accepted + [At(st, t).buf[At(st, t).sent]])
  {
  }

  /** After both sides have closed, every byte delivered was enqueued since. */
  lemma NothingOldDelivered(states: seq<State>, who: seq<nat>, k: nat, n: nat, x: nat)
    requires Run(states, who) && k <= n <= |who| && Closed(states[k]) && x < |states[n].delivered|
    ensures exists m :: k <= m < n && EnqueuesByte(states[m], who[m], states[m + 1], states[n].delivered[x])
  {
    ClosedIsNew(states, who, k);
    NoByteLost(states, who, n);
    assert states[n].delivered[x] == states[n].accepted[x];
    var m := AcceptedSince(states, who, k, n, x);
  }

  // ----- end of file -----

  ghost predicate ReadsAt(st: State, t: nat, rpc: ReadPc) { At(st, t).Reading? && At(st, t).rpc == rpc }

  /** At step `j` a read of thread `t` returns without a single byte. */
  ghost predicate EndOfFile(states: seq<State>, who: seq<nat>, t: nat, j: nat) {
    && Run(states, who) && j < |who| && who[j] == t
    && At(states[j], t).Reading? && At(states[j], t).got == [] && At(states[j + 1], t) == Holder(Reader)
  }

  /** What a reader saw on its way to looking for a writer, or to the last look of its loop. */
  ghost predicate Enters(st: State, t: nat, to: ReadPc) {
    match to
    case EofWriter => ReadsAt(st, t, EofData) && st.count == 0
    case MoreCheck => ReadsAt(st, t, More) && (st.count > 0 || !Flag(st, Writer))
    case _ => false
  }

  /** With step `i` thread `t` goes to `to`, and up to step `j` it does nothing more. */
  ghost predicate Since(states: seq<State>, who: seq<nat>, t: nat, i: nat, j: nat, to: ReadPc) {
    && |states| == |who| + 1 && i < j <= |who|
    && who[i] == t && Enters(states[i], t, to)
    && forall k :: i < k < j ==> who[k] != t
  }

  /** At step `i` thread `t` sees no data, and up to step `j` it does nothing more. */
  ghost predicate SawNoData(states: seq<State>, who: seq<nat>, t: nat, i: nat, j: nat) {
    Since(states, who, t, i, j, EofWriter)
  }

  /** A reader with no byte in hand, and a counter that has not wrapped around. */
  ghost predicate Watching(st: State, t: nat) {
    && Inv(st) && At(st, t).Reading? && UncountedOut(At(st, t)) == 0
    && st.count == |st.queue| - UncountedIn(HolderOf(st, Writer))
  }

  lemma CountIsExact(st: State, t: nat)
    requires Inv(st) && At(st, t).Reading? && UncountedOut(At(st, t)) == 0 && st.count <= PIPE_SIZE + 1
    ensures Watching(st, t)
  {
    assert Role(At(st, t)) == Some(Reader);
    NoWrap(|st.queue|, UncountedIn(HolderOf(st, Writer)), st.count);
  }

  lemma NoWrap(q: nat, late: nat, c: nat)
    requires q <= PIPE_SIZE && late <= 1 && c == (q - late) % WORD && c <= PIPE_SIZE + 1
    ensures c == q - late
  {
  }

  /** While a reader does nothing only an enqueue that gets counted changes the counter. */
  lemma WatchStep(st: State, u: nat, t: nat, st2: State)
    requires Watching(st, t) && Step(st, u, st2) && u != t
    ensures Watching(st2, t) && At(st2, t) == At(st, t)
    ensures st2.count == if CountUp(st, u, st2) then st.count + 1 else st.count
    ensures |st2.queue| == if Enqueue(st, u, st2) then |st.queue| + 1 else |st.queue|
  {
    assert Role(At(st, t)) == Some(Reader) && Flag(st, Reader);
    assert Role(At(st, u)) != Some(Reader);
    OthersStep(st, u, t, st2);
    StepInv(st, u, st2);
    CountIsExact(st2, t);
  }

  /** A step of a thread that is not the reader, while the reader is there. */
  lemma OthersStep(st: State, u: nat, t: nat, st2: State)
    requires Step(st, u, st2) && u != t && Flag(st, Reader) && Role(At(st, u)) != Some(Reader) && st.count <= PIPE_SIZE
    ensures At(st2, t) == At(st, t)
    ensures st2.count == if CountUp(st, u, st2) then st.count + 1 else st.count
    ensures |st2.queue| == if Enqueue(st, u, st2) then |st.queue| + 1 else |st.queue|
  {
  }

  lemma LookEof(st: State, t: nat, st2: State)
    requires Inv(st) && Step(st, t, st2) && ReadsAt(st, t, EofData) && st.count == 0
    ensures Watching(st2, t) && st2.count == 0 && st2.queue == st.queue
  {
    StepInv(st, t, st2);
    CountIsExact(st2, t);
  }

  ghost predicate CountedBetween(states: seq<State>, who: seq<nat>, i: nat, k: nat)
    requires |states| == |who| + 1 && k <= |who|
  {
    exists m :: i < m < k && CountUp(states[m], who[m], states[m + 1])
  }

  ghost predicate EnqueuedBetween(states: seq<State>, who: seq<nat>, i: nat, k: nat)
    requires |states| == |who| + 1 && k <= |who|
  {
    exists m :: i < m < k && Enqueue(states[m], who[m], states[m + 1])
  }

  lemma {:induction false} WatchRun(states: seq<State>, who: seq<nat>, t: nat, i: nat, j: nat, k: nat)
    requires Run(states, who) && SawNoData(states, who, t, i, j) && i < k <= j
    ensures Watching(states[k], t)
    ensures states[k].count == 0 <==> !CountedBetween(states, who, i, k)
    ensures states[k].queue == [] <==> states[i].queue == [] && !EnqueuedBetween(states, who, i, k)
    decreases k
  {
    if k == i + 1 {
      RunInv(states, who, i);
      LookEof(states[i], t, states[k]);
    } else {
      var m := k - 1;
      WatchRun(states, who, t, i, j, m);
      WatchStep(states[m], who[m], t, states[k]);
      CountedNext(states, who, i, m, k);
      EnqueuedNext(states, who, i, m, k);
    }
  }

  lemma CountedNext(states: seq<State>, who: seq<nat>, i: nat, m: nat, k: nat)
    requires |states| == |who| + 1 && i < m < k <= |who| && k == m + 1
    ensures CountedBetween(states, who, i, k) <==>
              CountedBetween(states, who, i, m) || CountUp(states[m], who[m], states[k])
  {
  }

  lemma EnqueuedNext(states: seq<State>, who: seq<nat>, i: nat, m: nat, k: nat)
    requires |states| == |who| + 1 && i < m < k <= |who| && k == m + 1
    ensures EnqueuedBetween(states, who, i, k) <==>
              EnqueuedBetween(states, who, i, m) || Enqueue(states[m], who[m], states[k])
  {
  }

  /** A read returns without a byte when it found no data and then no writer, or when it found no data in its loop. */
  lemma EndOfFileExits(states: seq<State>, who: seq<nat>, t: nat, j: nat)
    requires EndOfFile(states, who, t, j)
    ensures || (ReadsAt(states[j], t, EofWriter) && !Flag(states[j], Writer))
            || (ReadsAt(states[j], t, MoreCheck) && states[j].count == 0)
  {
    RunInv(states, who, j);
    assert CallOk(At(states[j], t), states[j].accepted, states[j].delivered);
  }

  /** If thread `t` is at `to` then it has just come there, or was there before. */
  ghost predicate Traced(states: seq<State>, who: seq<nat>, t: nat, to: ReadPc, j: nat)
    requires |states| == |who| + 1 && 0 < j <= |who|
  {
    ReadsAt(states[j], t, to) ==>
      if who[j - 1] == t then Enters(states[j - 1], t, to) else ReadsAt(states[j - 1], t, to)
  }

  lemma StepTraced(states: seq<State>, who: seq<nat>, t: nat, to: ReadPc, j: nat)
    requires Run(states, who) && 0 < j <= |who| && (to == EofWriter || to == MoreCheck)
    ensures Traced(states, who, t, to, j)
  {
    var k := j - 1;
    assert Step(states[k], who[k], states[k + 1]);
    if who[k] != t {
      OtherMoves(states[k], who[k], t, states[j]);
    } else if ReadsAt(states[j], t, to) {
      StepEnters(states[k], t, to, states[j]);
    }
  }

  lemma {:induction false} TraceBack(states: seq<State>, who: seq<nat>, t: nat, to: ReadPc, j: nat) returns (i: nat)
    requires |states| == |who| + 1 && j <= |who| && ReadsAt(states[j], t, to) && !ReadsAt(states[0], t, to)
    requires forall k :: 0 < k <= j ==> Traced(states, who, t, to, k)
    ensures Since(states, who, t, i, j, to)
  {
    assert Traced(states, who, t, to, j);
    if who[j - 1] == t {
      i := j - 1;
    } else {
      i := TraceBack(states, who, t, to, j - 1);
    }
  }

  /** A reader about to look for a writer has seen no data; one at the last look of its loop has waited. */
  lemma LookedBefore(states: seq<State>, who: seq<nat>, t: nat, to: ReadPc, j: nat) returns (i: nat)
    requires Run(states, who) && j <= |who| && ReadsAt(states[j], t, to) && (to == EofWriter || to == MoreCheck)
    ensures Since(states, who, t, i, j, to)
  {
    forall k | 0 < k <= j ensures Traced(states, who, t, to, k) {
      StepTraced(states, who, t, to, k);
    }
    i := TraceBack(states, who, t, to, j);
  }

  lemma StepEnters(st: State, t: nat, to: ReadPc, st2: State)
    requires Step(st, t, st2) && ReadsAt(st2, t, to) && (to == EofWriter || to == MoreCheck)
    ensures Enters(st, t, to)
  {
    if b :| Look(st, At(st, t), b) && st2 == Moved(st, t, b) {
      assert At(st, t).Reading? && LookRead(st, At(st, t), b);
    }
  }

  lemma OtherMoves(st: State, u: nat, t: nat, st2: State)
    requires Step(st, u, st2) && u != t
    ensures At(st2, t) == At(st, t)
  {
    if Enqueue(st, u, st2) || Dequeue(st, u, st2) {
      QueueMoves(st, u, t, st2);
    } else if CountUp(st, u, st2) || CountDown(st, u, st2) {
      CountMoves(st, u, t, st2);
    } else if CloseReset(st, u, st2) {
      ResetMoves(st, u, t, st2);
    } else if b :| Look(st, At(st, u), b) && st2 == Moved(st, u, b) {
    } else if side :| Open(st, u, side, st2) {
    } else {
      var side :| CloseFlag(st, u, side, st2);
    }
  }

  lemma QueueMoves(st: State, u: nat, t: nat, st2: State)
    requires (Enqueue(st, u, st2) || Dequeue(st, u, st2)) && u != t
    ensures At(st2, t) == At(st, t)
  {
  }

  lemma CountMoves(st: State, u: nat, t: nat, st2: State)
    requires (CountUp(st, u, st2) || CountDown(st, u, st2)) && u != t
    ensures At(st2, t) == At(st, t)
  {
  }

  lemma ResetMoves(st: State, u: nat, t: nat, st2: State)
    requires CloseReset(st, u, st2) && u != t
    ensures At(st2, t) == At(st, t)
  {
  }

  /** At the first exit the queue is empty if and only if no enqueue was counted since the reader saw no data. */
  lemma FirstExitIff(states: seq<State>, who: seq<nat>, t: nat, i: nat, j: nat)
    requires Run(states, who) && SawNoData(states, who, t, i, j) && !Flag(states[j], Writer)
    ensures states[j].queue == [] <==> !CountedBetween(states, who, i, j)
    ensures states[j].queue == [] <==> states[i].queue == [] && !EnqueuedBetween(states, who, i, j)
  {
    WatchRun(states, who, t, i, j, j);
    assert HolderOf(states[j], Writer) == Out;
  }

  /** At the second exit the queue is empty if and only if no enqueue is waiting to be counted. */
  lemma SecondExitIff(states: seq<State>, who: seq<nat>, t: nat, j: nat)
    requires Run(states, who) && j <= |who| && ReadsAt(states[j], t, MoreCheck) && states[j].count == 0
    ensures states[j].queue == [] <==> LateIn(states[j]) == {}
    ensures !Flag(states[j], Writer) ==> states[j].queue == []
  {
    var st := states[j];
    RunInv(states, who, j);
    LateOnes(st);
    assert Role(At(st, t)) == Some(Reader);
    NoWrap(|st.queue|, |LateIn(st)|, st.count);
  }

  /**
    Whenever a read answers end of file: either it saw no data at some step `i` and now sees no writer, and
    then the queue is empty if and only if no enqueue was counted in between, that is if and only if the queue
    was empty at `i` and nothing was enqueued since; or it has just seen no data in its loop, and then the
    queue is empty if and only if no writer is between its enqueue and its count.
   */
  lemma EndOfFileIff(states: seq<State>, who: seq<nat>, t: nat, j: nat)
    requires EndOfFile(states, who, t, j)
    ensures || (&& ReadsAt(states[j], t, EofWriter) && !Flag(states[j], Writer)
                && exists i: nat :: && SawNoData(states, who, t, i, j)
                               && (states[j].queue == [] <==> !CountedBetween(states, who, i, j))
                               && (states[j].queue == [] <==>
                                     states[i].queue == [] && !EnqueuedBetween(states, who, i, j)))
            || (&& ReadsAt(states[j], t, MoreCheck) && states[j].count == 0
                && (states[j].queue == [] <==> LateIn(states[j]) == {})
                && (!Flag(states[j], Writer) ==> states[j].queue == []))
  {
    EndOfFileExits(states, who, t, j);
    if ReadsAt(states[j], t, EofWriter) {
      var i := LookedBefore(states, who, t, EofWriter, j);
      FirstExitIff(states, who, t, i, j);
    } else {
      SecondExitIff(states, who, t, j);
    }
  }

  /**
    A read that found no data in its loop: when its wait ended there was no writer, if and only if the counter was
    not one below zero, wrapped around by a byte taken before it was counted.
   */
  lemma WokenByWrapIff(states: seq<State>, who: seq<nat>, t: nat, i: nat, j: nat)
    requires Run(states, who) && Since(states, who, t, i, j, MoreCheck) && states[j].count == 0
    ensures !Flag(states[i], Writer) <==> states[i].count != WORD - 1
  {
    var st := states[i];
    RunInv(states, who, i);
    assert Role(At(st, t)) == Some(Reader);
    NotWrapped(|st.queue|, UncountedIn(HolderOf(st, Writer)), st.count);
    if st.count != WORD - 1 {
      CountIsExact(st, t);
      if Flag(st, Writer) {
        WatchLoop(states, who, t, i, j, j);
      }
    }
  }

  lemma NotWrapped(q: nat, late: nat, c: nat)
    requires q <= PIPE_SIZE && late <= 1 && c == (q - late) % WORD
    ensures c <= PIPE_SIZE || (c == WORD - 1 && late == 1)
  {
  }

  /** A counter that showed data when the wait ended still does. */
  lemma {:induction false} WatchLoop(states: seq<State>, who: seq<nat>, t: nat, i: nat, j: nat, k: nat)
    requires Run(states, who) && Since(states, who, t, i, j, MoreCheck) && Watching(states[i], t) && i < k <= j
    requires states[i].count > 0
    ensures Watching(states[k], t) && states[k].count > 0
    decreases k
  {
    if k == i + 1 {
      WakeKeeps(states[i], t, states[k]);
    } else {
      WatchLoop(states, who, t, i, j, k - 1);
      WatchStep(states[k - 1], who[k - 1], t, states[k]);
    }
  }

  lemma WakeKeeps(st: State, t: nat, st2: State)
    requires Watching(st, t) && Step(st, t, st2) && ReadsAt(st, t, More)
    ensures Watching(st2, t) && st2.count == st.count
  {
    StepInv(st, t, st2);
    CountIsExact(st2, t);
  }

  /** Every read that answers end of file has seen no writer, unless its wait ended on a counter wrapped around. */
  lemma EndOfFileSawNoWriter(states: seq<State>, who: seq<nat>, t: nat, j: nat)
    requires EndOfFile(states, who, t, j)
    ensures || (ReadsAt(states[j], t, EofWriter) && !Flag(states[j], Writer))
            || (exists i: nat :: && Since(states, who, t, i, j, MoreCheck)
                                 && (!Flag(states[i], Writer) <==> states[i].count != WORD - 1))
  {
    EndOfFileExits(states, who, t, j);
    if ReadsAt(states[j], t, MoreCheck) {
      var i := LookedBefore(states, who, t, MoreCheck, j);
      WokenByWrapIff(states, who, t, i, j);
    }
  }
}
