/** Interleavings of the named pipe in which a read answers end of file and should not. */
module PipeRuns {
  import opened Arith
  import opened Pipe

  // ----- a byte in the queue -----

  /** Every state leads to the next by a step of the thread named. */
  ghost predicate Linked(step: (State, nat, State) -> bool, states: seq<State>, who: seq<nat>) {
    && |states| == |who| + 1
    && forall i :: 0 <= i < |who| ==> step(states[i], who[i], states[i + 1])
  }

  ghost predicate Chain(states: seq<State>, who: seq<nat>) { Linked(Step, states, who) }

  lemma LinkedConcat(step: (State, nat, State) -> bool, a: seq<State>, wa: seq<nat>, b: seq<State>, wb: seq<nat>)
    requires Linked(step, a, wa) && Linked(step, b, wb) && a[|wa|] == b[0]
    ensures Linked(step, a + b[1..], wa + wb)
  {
    var states, who, n := a + b[1..], wa + wb, |wa|;
    forall i | 0 <= i < |who| ensures step(states[i], who[i], states[i + 1]) {
      if i >= n {
        var k := i - n;
        assert states[i] == b[k] && states[i + 1] == b[k + 1] && who[i] == wb[k];
      }
    }
  }

  lemma ChainConcat(a: seq<State>, wa: seq<nat>, b: seq<State>, wb: seq<nat>)
    requires Chain(a, wa) && Chain(b, wb) && a[|wa|] == b[0]
    ensures Chain(a + b[1..], wa + wb) && (a + b[1..])[|wa| + |wb|] == b[|wb|]
  {
    LinkedConcat(Step, a, wa, b, wb);
  }

  lemma Looks(st: State, t: nat, b: Thread) returns (st2: State)
    requires Look(st, At(st, t), b)
    ensures st2 == Moved(st, t, b) && Step(st, t, st2)
  {
    st2 := Moved(st, t, b);
  }

  /** The mutex is free, nothing is in the pipe, the reader is there, and the writer is as told. */
  ghost predicate Quiet(st: State, writer: bool) {
    && st.queue == [] && st.count == 0 && st.accepted == [] && st.delivered == []
    && st.mutex.None? && Flag(st, Reader) && Flag(st, Writer) == writer
  }

  /** The threads that take the first steps of both runs. */
  const BEGINNING: seq<nat> := [1, 2, 1, 2] + [2] + [1, 1, 2] + [2]

  /** Thread 2 is reading its first byte. */
  ghost predicate Reads(st: State, rpc: ReadPc) { At(st, 2) == Reading(rpc, 1, 0, []) }

  /** Threads 1 and 2 open the pipe for writing and for reading. */
  lemma RaceOpens() returns (s: seq<State>)
    ensures Chain(s, [1, 2, 1, 2]) && s[0] == INITIAL
    ensures Quiet(s[4], true) && At(s[4], 1) == Holder(Writer) && At(s[4], 2) == Holder(Reader)
  {
    var a := Moved(INITIAL, 1, OpenWait(Writer)).(flags := map[Writer := true], holders := map[Writer := 1]);
    assert Open(INITIAL, 1, Writer, a) by {
      assert INITIAL.flags[Writer := true] == map[Writer := true] && INITIAL.holders[Writer := 1] == map[Writer := 1];
    }
    var b := Moved(a, 2, OpenWait(Reader)).(flags := a.flags[Reader := true], holders := a.holders[Reader := 2]);
    assert Open(a, 2, Reader, b);
    var c := Looks(b, 1, Holder(Writer));
    var d := Looks(c, 2, Holder(Reader));
    s := [INITIAL, a, b, c, d];
  }

  /** The writer of a quiet pipe closes, and the waiting reader wakes up. */
  lemma RaceLeaves(st: State, rpc: ReadPc, rpc2: ReadPc) returns (s: seq<State>)
    requires Quiet(st, true) && At(st, 1) == Holder(Writer) && Reads(st, rpc)
    requires (rpc == Wait && rpc2 == EofData) || (rpc == More && rpc2 == MoreCheck)
    ensures Chain(s, [1, 1, 2]) && s[0] == st
    ensures Quiet(s[3], false) && At(s[3], 1) == Out && Reads(s[3], rpc2)
  {
    var a := Moved(st, 1, Closing).(flags := st.flags[Writer := false], mutex := Some(1),
                                    holders := st.holders - {Writer});
    assert CloseFlag(st, 1, Writer, a);
    var b := Moved(a, 1, Out).(mutex := None);
    assert CloseReset(a, 1, b);
    var c := Looks(b, 2, Reading(rpc2, 1, 0, []));
    s := [st, a, b, c];
  }

  /** A writer opens the pipe again. */
  lemma RaceReopens(st: State, rpc: ReadPc) returns (s: seq<State>)
    requires Quiet(st, false) && At(st, 1) == Out && Reads(st, rpc)
    ensures Chain(s, [1, 1]) && s[0] == st
    ensures Quiet(s[2], true) && At(s[2], 1) == Holder(Writer) && Reads(s[2], rpc)
  {
    var a := Moved(st, 1, OpenWait(Writer)).(flags := st.flags[Writer := true], holders := st.holders[Writer := 1]);
    assert Open(st, 1, Writer, a);
    var b := Looks(a, 1, Holder(Writer));
    s := [st, a, b];
  }

  /** It begins to write one byte. */
  lemma RaceWrites(st: State, rpc: ReadPc, b: Byte) returns (s: seq<State>)
    requires Quiet(st, true) && At(st, 1) == Holder(Writer) && Reads(st, rpc)
    ensures Chain(s, [1, 1, 1]) && s[0] == st
    ensures Quiet(s[3], true) && At(s[3], 1) == Writing(PutLoop, [b], 0, 0) && Reads(s[3], rpc)
  {
    var a := Looks(st, 1, Writing(SpaceWait, [b], 0, 0));
    var c := Looks(a, 1, Writing(SpaceCheck, [b], 0, 0));
    var d := Looks(c, 1, Writing(PutLoop, [b], 0, 0));
    s := [st, a, c, d];
  }

  /** The byte goes in. */
  lemma RacePuts(st: State, rpc: ReadPc, b: Byte) returns (s: seq<State>)
    requires Quiet(st, true) && At(st, 1) == Writing(PutLoop, [b], 0, 0) && Reads(st, rpc)
    ensures Chain(s, [1]) && s[0] == st && s[1].queue == [b] && s[1].count == 0 && s[1].mutex.None?
    ensures At(s[1], 1) == Writing(Put, [b], 0, 0) && Reads(s[1], rpc)
  {
    var a := Moved(st, 1, Writing(Put, [b], 0, 0)).(queue := st.queue + [b], accepted := st.accepted + [b]);
    assert Enqueue(st, 1, a);
    s := [st, a];
  }

  /** The byte is counted, and the writer is done and closes. */
  lemma RaceCounts(st: State, b: Byte) returns (s: seq<State>)
    requires st.queue == [b] && st.count == 0 && st.mutex.None? && At(st, 1) == Writing(Put, [b], 0, 0)
             && Reads(st, EofWriter)
    ensures Chain(s, [1, 1, 1]) && s[0] == st
    ensures s[3].queue == [b] && s[3].count == 1 && !Flag(s[3], Writer) && Reads(s[3], EofWriter)
  {
    var a := Moved(st, 1, Writing(PutLoop, [b], 0, 1)).(count := 1);
    assert CountUp(st, 1, a);
    var c := Looks(a, 1, Holder(Writer));
    var d := Moved(c, 1, Closing).(flags := c.flags[Writer := false], mutex := Some(1),
                                   holders := c.holders - {Writer});
    assert CloseFlag(c, 1, Writer, d);
    s := [st, a, c, d];
  }

  /** A reader begins to read, its writer leaves, and it sees no data. */
  lemma RaceBegins() returns (s: seq<State>)
    ensures Chain(s, BEGINNING) && s[0] == INITIAL
    ensures Quiet(s[9], false) && At(s[9], 1) == Out && Reads(s[9], EofWriter)
  {
    var opens := RaceOpens();
    var st := Looks(opens[4], 2, Reading(Wait, 1, 0, []));
    var leaves := RaceLeaves(st, Wait, EofData);
    var st2 := Looks(leaves[3], 2, Reading(EofWriter, 1, 0, []));
    ChainConcat(opens, [1, 2, 1, 2], [opens[4], st], [2]);
    s := opens + [opens[4], st][1..];
    ChainConcat(s, [1, 2, 1, 2] + [2], leaves, [1, 1, 2]);
    s := s + leaves[1..];
    ChainConcat(s, [1, 2, 1, 2] + [2] + [1, 1, 2], [leaves[3], st2], [2]);
    s := s + [leaves[3], st2][1..];
  }

  /** A writer comes, writes a byte and goes between the two looks of a reader, and the reader is told end of file. */
  lemma EndOfFileTooSoon(b: Byte) returns (states: seq<State>, who: seq<nat>)
    ensures EndOfFile(states, who, 2, 18) && states[18].queue == [b] && states[18].count == 1
  {
    states := RaceBegins();
    who := BEGINNING;
    var reopens := RaceReopens(states[9], EofWriter);
    var writes := RaceWrites(reopens[2], EofWriter, b);
    var puts := RacePuts(writes[3], EofWriter, b);
    var counts := RaceCounts(puts[1], b);
    var end := Looks(counts[3], 2, Holder(Reader));
    ChainConcat(states, who, reopens, [1, 1]);
    states, who := states + reopens[1..], who + [1, 1];
    ChainConcat(states, who, writes, [1, 1, 1]);
    states, who := states + writes[1..], who + [1, 1, 1];
    ChainConcat(states, who, puts, [1]);
    states, who := states + puts[1..], who + [1];
    ChainConcat(states, who, counts, [1, 1, 1]);
    states, who := states + counts[1..], who + [1, 1, 1];
    ChainConcat(states, who, [counts[3], end], [2]);
    states, who := states + [counts[3], end][1..], who + [2];
  }

  /** The reader sees a writer and enters its loop, and finds nothing there. */
  lemma RaceLoops(st: State) returns (s: seq<State>)
    requires Quiet(st, true) && At(st, 1) == Holder(Writer) && Reads(st, EofWriter)
    ensures Chain(s, [2, 2]) && s[0] == st
    ensures Quiet(s[2], true) && At(s[2], 1) == Holder(Writer) && Reads(s[2], More)
  {
    var a := Looks(st, 2, Reading(Loop, 1, 0, []));
    var b := Looks(a, 2, Reading(More, 1, 0, []));
    s := [st, a, b];
  }

  /**
    A writer comes and enqueues a byte before a reader in its loop looks at the counter, and the reader is
    told end of file.
   */
  lemma EndOfFileInLoop(b: Byte) returns (states: seq<State>, who: seq<nat>)
    ensures EndOfFile(states, who, 2, 22) && states[22].queue == [b] && states[22].count == 0
  {
    states := RaceBegins();
    who := BEGINNING;
    var reopens := RaceReopens(states[9], EofWriter);
    var loops := RaceLoops(reopens[2]);
    var leaves := RaceLeaves(loops[2], More, MoreCheck);
    var again := RaceReopens(leaves[3], MoreCheck);
    var writes := RaceWrites(again[2], MoreCheck, b);
    var puts := RacePuts(writes[3], MoreCheck, b);
    var end := Looks(puts[1], 2, Holder(Reader));
    ChainConcat(states, who, reopens, [1, 1]);
    states, who := states + reopens[1..], who + [1, 1];
    ChainConcat(states, who, loops, [2, 2]);
    states, who := states + loops[1..], who + [2, 2];
    ChainConcat(states, who, leaves, [1, 1, 2]);
    states, who := states + leaves[1..], who + [1, 1, 2];
    ChainConcat(states, who, again, [1, 1]);
    states, who := states + again[1..], who + [1, 1];
    ChainConcat(states, who, writes, [1, 1, 1]);
    states, who := states + writes[1..], who + [1, 1, 1];
    ChainConcat(states, who, puts, [1]);
    states, who := states + puts[1..], who + [1];
    ChainConcat(states, who, [puts[1], end], [2]);
    states, who := states + [puts[1], end][1..], who + [2];
  }

  // ----- a writer there all the time -----

  /** The flags are up and the mutex is free. */
  ghost predicate BothThere(st: State) { st.mutex.None? && Flag(st, Reader) && Flag(st, Writer) }

  /** A reader waits for two bytes, a writer writes the first one and counts it, and the reader takes it. */
  lemma WrapFirst(st: State, b: Byte, c: Byte) returns (s: seq<State>)
    requires Quiet(st, true) && At(st, 1) == Holder(Writer) && At(st, 2) == Holder(Reader)
    ensures Chain(s, [2, 1, 1, 1]) && s[0] == st && BothThere(s[4])
    ensures s[4].queue == [] && s[4].count == 0 && s[4].accepted == [] && s[4].delivered == []
    ensures At(s[4], 1) == Writing(PutLoop, [b, c], 0, 0) && At(s[4], 2) == Reading(Wait, 2, 0, [])
  {
    var a := Looks(st, 2, Reading(Wait, 2, 0, []));
    var d := Looks(a, 1, Writing(SpaceWait, [b, c], 0, 0));
    var e := Looks(d, 1, Writing(SpaceCheck, [b, c], 0, 0));
    var f := Looks(e, 1, Writing(PutLoop, [b, c], 0, 0));
    s := [st, a, d, e, f];
  }

  lemma WrapSecond(st: State, b: Byte, c: Byte) returns (s: seq<State>)
    requires BothThere(st) && st.queue == [] && st.count == 0 && st.accepted == [] && st.delivered == []
    requires At(st, 1) == Writing(PutLoop, [b, c], 0, 0) && At(st, 2) == Reading(Wait, 2, 0, [])
    ensures Chain(s, [1, 1, 2, 2]) && s[0] == st && BothThere(s[4])
    ensures s[4].queue == [b] && s[4].count == 1 && s[4].accepted == [b] && s[4].delivered == []
    ensures At(s[4], 1) == Writing(PutLoop, [b, c], 0, 1) && At(s[4], 2) == Reading(Loop, 2, 0, [])
  {
    var a := Moved(st, 1, Writing(Put, [b, c], 0, 0)).(queue := st.queue + [b], accepted := st.accepted + [b]);
    assert Enqueue(st, 1, a);
    var d := Moved(a, 1, Writing(PutLoop, [b, c], 0, 1)).(count := 1);
    assert CountUp(a, 1, d);
    var e := Looks(d, 2, Reading(EofData, 2, 0, []));
    var f := Looks(e, 2, Reading(Loop, 2, 0, []));
    s := [st, a, d, e, f];
  }

  lemma WrapThird(st: State, b: Byte, c: Byte) returns (s: seq<State>)
    requires BothThere(st) && st.queue == [b] && st.count == 1 && st.accepted == [b] && st.delivered == []
    requires At(st, 1) == Writing(PutLoop, [b, c], 0, 1) && At(st, 2) == Reading(Loop, 2, 0, [])
    ensures Chain(s, [2, 2, 1]) && s[0] == st && BothThere(s[3])
    ensures s[3].queue == [c] && s[3].count == 0 && s[3].accepted == [b, c] && s[3].delivered == [b]
    ensures At(s[3], 1) == Writing(Put, [b, c], 0, 1) && At(s[3], 2) == Reading(Loop, 2, 0, [b])
  {
    var a := Moved(st, 2, Reading(Taken(b), 2, 0, [])).(queue := st.queue[1..], delivered := st.delivered + [b]);
    assert Dequeue(st, 2, a);
    var d := Moved(a, 2, Reading(Loop, 2, 0, [b])).(count := 0);
    assert CountDown(a, 2, d) by {
      assert [] + [b] == [b];
    }
    var e := Moved(d, 1, Writing(Put, [b, c], 0, 1)).(queue := d.queue + [c], accepted := d.accepted + [c]);
    assert Enqueue(d, 1, e);
    s := [st, a, d, e];
  }

  /** The reader takes the second byte before it is counted, and the counter wraps around. */
  lemma WrapFourth(st: State, b: Byte, c: Byte) returns (s: seq<State>)
    requires BothThere(st) && st.queue == [c] && st.count == 0 && st.accepted == [b, c] && st.delivered == [b]
    requires At(st, 1) == Writing(Put, [b, c], 0, 1) && At(st, 2) == Reading(Loop, 2, 0, [b])
    ensures Chain(s, [2, 2, 2]) && s[0] == st && BothThere(s[3])
    ensures s[3].queue == [] && s[3].count == WORD - 1 && s[3].delivered == [b, c]
    ensures At(s[3], 1) == Writing(Put, [b, c], 0, 1) && At(s[3], 2) == Holder(Reader)
  {
    var a := Moved(st, 2, Reading(Taken(c), 2, 0, [b])).(queue := st.queue[1..], delivered := st.delivered + [c]);
    assert Dequeue(st, 2, a);
    var d := Moved(a, 2, Reading(Loop, 2, 0, [b, c])).(count := WORD - 1);
    assert CountDown(a, 2, d) by {
      assert [b] + [c] == [b, c];
    }
    var e := Looks(d, 2, Holder(Reader));
    s := [st, a, d, e];
  }

  /** The next read waits, and does not wait long. */
  lemma WrapFifth(st: State, b: Byte, c: Byte) returns (s: seq<State>)
    requires BothThere(st) && st.queue == [] && st.count == WORD - 1 && st.delivered == [b, c]
    requires At(st, 1) == Writing(Put, [b, c], 0, 1) && At(st, 2) == Holder(Reader)
    ensures Chain(s, [2, 2, 2, 2, 2]) && s[0] == st && BothThere(s[5]) && s[5].queue == [] && s[5].count == WORD - 1
    ensures At(s[5], 1) == Writing(Put, [b, c], 0, 1) && At(s[5], 2) == Reading(MoreCheck, 1, 2, [])
  {
    var a := Looks(st, 2, Reading(Wait, 1, 2, []));
    var d := Looks(a, 2, Reading(EofData, 1, 2, []));
    var e := Looks(d, 2, Reading(Loop, 1, 2, []));
    var f := Looks(e, 2, Reading(More, 1, 2, []));
    var g := Looks(f, 2, Reading(MoreCheck, 1, 2, []));
    s := [st, a, d, e, f, g];
  }

  /** The second byte is counted at last, and the reader is told end of file. */
  lemma WrapSixth(st: State, b: Byte, c: Byte) returns (s: seq<State>)
    requires BothThere(st) && st.queue == [] && st.count == WORD - 1
    requires At(st, 1) == Writing(Put, [b, c], 0, 1) && At(st, 2) == Reading(MoreCheck, 1, 2, [])
    ensures Chain(s, [1, 2]) && s[0] == st && BothThere(s[1]) && BothThere(s[2])
    ensures At(s[1], 2) == Reading(MoreCheck, 1, 2, []) && At(s[2], 2) == Holder(Reader)
  {
    var a := Moved(st, 1, Writing(PutLoop, [b, c], 0, 2)).(count := 0);
    assert CountUp(st, 1, a);
    var d := Looks(a, 2, Holder(Reader));
    s := [st, a, d];
  }

  const WRAPPING: seq<nat> := [1, 2, 1, 2] + [2, 1, 1, 1] + [1, 1, 2, 2] + [2, 2, 1]

  lemma WrapBegins(b: Byte, c: Byte) returns (s: seq<State>)
    ensures Chain(s, WRAPPING) && s[0] == INITIAL && BothThere(s[15])
    ensures s[15].queue == [c] && s[15].count == 0 && s[15].accepted == [b, c] && s[15].delivered == [b]
    ensures At(s[15], 1) == Writing(Put, [b, c], 0, 1) && At(s[15], 2) == Reading(Loop, 2, 0, [b])
  {
    s := RaceOpens();
    var first := WrapFirst(s[4], b, c);
    var second := WrapSecond(first[4], b, c);
    var third := WrapThird(second[4], b, c);
    ChainConcat(s, [1, 2, 1, 2], first, [2, 1, 1, 1]);
    s := s + first[1..];
    ChainConcat(s, [1, 2, 1, 2] + [2, 1, 1, 1], second, [1, 1, 2, 2]);
    s := s + second[1..];
    ChainConcat(s, [1, 2, 1, 2] + [2, 1, 1, 1] + [1, 1, 2, 2], third, [2, 2, 1]);
    s := s + third[1..];
  }

  const WAITING: seq<nat> := WRAPPING + [2, 2, 2] + [2, 2, 2, 2, 2]

  lemma WrapWaits(b: Byte, c: Byte) returns (s: seq<State>)
    ensures Chain(s, WAITING) && s[0] == INITIAL
    ensures BothThere(s[23]) && s[23].queue == [] && s[23].count == WORD - 1
    ensures At(s[23], 1) == Writing(Put, [b, c], 0, 1) && At(s[23], 2) == Reading(MoreCheck, 1, 2, [])
  {
    s := WrapBegins(b, c);
    var fourth := WrapFourth(s[15], b, c);
    var fifth := WrapFifth(fourth[3], b, c);
    ChainConcat(s, WRAPPING, fourth, [2, 2, 2]);
    s := s + fourth[1..];
    ChainConcat(s, WRAPPING + [2, 2, 2], fifth, [2, 2, 2, 2, 2]);
    s := s + fifth[1..];
  }

  /** A reader is told end of file while its writer is in the middle of a write. */
  lemma EndOfFileWithWriter(b: Byte, c: Byte) returns (states: seq<State>, who: seq<nat>)
    ensures EndOfFile(states, who, 2, 24) && At(states[24], 1).Writing?
  {
    states := WrapWaits(b, c);
    who := WAITING;
    var sixth := WrapSixth(states[23], b, c);
    ChainConcat(states, who, sixth, [1, 2]);
    states, who := states + sixth[1..], who + [1, 2];
    assert states[24] == sixth[1] && states[25] == sixth[2] && who[24] == 2;
  }
}
