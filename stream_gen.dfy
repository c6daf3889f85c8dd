/**
 * StreamGenerator: a two-state machine (INIT, ADD_CHAR) that, after a
 * rising edge of `start`, presents the bytes of the read-only buffer
 * "root\n" on a ready/valid output, one byte every 21 clocks at the most.
 *
 * The registered state is the FSM state, the 32-bit pacing countdown,
 * the read cursor `idx` and the edge-detect latch `start_reg`. Next is one
 * clock edge as a function; the class StreamGenerator is the same machine
 * with fields that Step updates in place.
 */
module StreamGen {
  import opened Bytes
  import opened Wrappers

  /** The buffer contents: "root\n" in ASCII. */
  const PAYLOAD: seq<Byte> := [0x72, 0x6f, 0x6f, 0x74, 0x0a]

  /** The countdown value loaded on every handshake. */
  const RELOAD: nat := 20

  /** `idx` is a 32-bit signal. */
  const IDX_MODULUS: nat := 0x1_0000_0000

  datatype Phase = Init | AddChar

  datatype GenState = GenState(phase: Phase, counter: nat, idx: nat, startReg: bool)

  /** The stream output; `data` is None where the buffer is read out of range (an unspecified byte). */
  datatype Source = Source(valid: bool, data: Option<Byte>)

  /** The inputs sampled on one clock edge. */
  datatype Inputs = Inputs(start: bool, ready: bool)

  /** The buffer's read port, with the read latency abstracted away. */
  function ReadPort(idx: nat): (d: Option<Byte>)
    ensures d.Some? <==> idx < |PAYLOAD|
  {
    if idx < |PAYLOAD| then Some(PAYLOAD[idx]) else None
  }

  /** The reset values of the registers. */
  function Reset(): GenState
  {
    GenState(Init, 0, 0, false)
  }

  /** counter_done: the countdown has reached zero. */
  predicate CounterDone(s: GenState)
  {
    s.counter == 0
  }

  /** A byte is transferred on this edge: ADD_CHAR with counter_done and the consumer ready. */
  predicate Handshake(s: GenState, ready: bool)
  {
    s.phase == AddChar && CounterDone(s) && ready
  }

  /** The combinational output in state s; source.data is 0 when nothing drives it. */
  function Output(s: GenState): (o: Source)
    ensures o.valid ==> s.phase == AddChar && o.data == ReadPort(s.idx)
    ensures !o.valid ==> o.data == Some(0)
  {
    if s.phase == AddChar && CounterDone(s) then Source(true, ReadPort(s.idx)) else Source(false, Some(0))
  }

  /** One clock edge. */
  function Next(s: GenState, start: bool, ready: bool): (n: GenState)
    ensures s.phase == Init ==> n.idx == 0 && n.startReg == start
    ensures s.phase == AddChar ==> n.startReg == s.startReg
    ensures s.phase == AddChar && !Handshake(s, ready) ==> n.phase == AddChar && n.idx == s.idx
  {
    var counter := if Handshake(s, ready) then RELOAD else if s.counter > 0 then s.counter - 1 else s.counter;
    match s.phase
    case Init =>
      GenState(if start && !s.startReg then AddChar else Init, counter, 0, start)
    case AddChar =>
      if Handshake(s, ready) then
        GenState(if s.idx > |PAYLOAD| - 1 then Init else AddChar, counter, (s.idx + 1) % IDX_MODULUS, s.startReg)
      else
        GenState(AddChar, counter, s.idx, s.startReg)
  }

  function Run(s: GenState, ins: seq<Inputs>): GenState
    decreases |ins|
  {
    if ins == [] then s else Run(Next(s, ins[0].start, ins[0].ready), ins[1..])
  }

  /** The invariant of every reachable state. */
  ghost predicate Inv(s: GenState)
  {
    && s.counter <= RELOAD
    && (s.phase == Init ==> s.idx <= |PAYLOAD| + 1)
    && (s.phase == AddChar ==> s.idx <= |PAYLOAD| && s.startReg)
  }

  lemma ResetSatisfiesInv()
    ensures Inv(Reset())
  {
  }

  /**
   * Every clock edge keeps the invariant: the countdown stays within its
   * reload value, the cursor never passes index 5 while bytes are being
   * presented, and in ADD_CHAR the edge latch holds the `start` that
   * began the pass.
   */
  lemma NextPreservesInv(s: GenState, start: bool, ready: bool)
    requires Inv(s)
    ensures Inv(Next(s, start, ready))
  {
  }

  /**
   * The countdown loads 20 exactly on a handshake and otherwise counts down
   * to zero and stops there; a handshake needs counter_done.
   */
  lemma CounterRule(s: GenState, start: bool, ready: bool)
    ensures Handshake(s, ready) ==> s.counter == 0 && Next(s, start, ready).counter == RELOAD
    ensures !Handshake(s, ready) && s.counter > 0 ==> Next(s, start, ready).counter == s.counter - 1
    ensures !Handshake(s, ready) && s.counter == 0 ==> Next(s, start, ready).counter == 0
  {
  }

  /**
   * In INIT the cursor is rearmed, `start` is latched, nothing is presented,
   * and the machine moves on exactly at a rising edge of `start`.
   */
  lemma InitSamplesStart(s: GenState, start: bool, ready: bool)
    requires s.phase == Init
    ensures Next(s, start, ready).idx == 0
    ensures Next(s, start, ready).startReg == start
    ensures Next(s, start, ready).phase == AddChar <==> start && !s.startReg
    ensures !Output(s).valid
  {
  }

  /** In ADD_CHAR `start` is not sampled: the next state does not depend on it and the latch keeps its value. */
  lemma AddCharIgnoresStart(s: GenState, start: bool, start': bool, ready: bool)
    requires s.phase == AddChar
    ensures Next(s, start, ready) == Next(s, start', ready)
    ensures Next(s, start, ready).startReg == s.startReg
  {
  }

  /**
   * `valid` is raised only in ADD_CHAR once the countdown is done, and then
   * `data` is the buffer byte at the cursor.
   */
  lemma ValidOnlyWhenDue(s: GenState)
    ensures Output(s).valid <==> s.phase == AddChar && s.counter == 0
    ensures Output(s).valid && s.idx < |PAYLOAD| ==> Output(s).data == Some(PAYLOAD[s.idx])
  {
  }

  /**
   * In ADD_CHAR of a reachable state the cursor advances by one exactly on
   * a handshake and stays put otherwise; the machine returns to INIT exactly
   * on a handshake whose (old) cursor is past the last index, 4.
   */
  lemma CursorRule(s: GenState, start: bool, ready: bool)
    requires Inv(s) && s.phase == AddChar
    ensures Handshake(s, ready) ==> Next(s, start, ready).idx == s.idx + 1
    ensures !Handshake(s, ready) ==> Next(s, start, ready).idx == s.idx
    ensures Next(s, start, ready).phase == Init <==> Handshake(s, ready) && s.idx > |PAYLOAD| - 1
  {
  }

  /**
   * While the countdown runs nothing is presented, whatever the inputs:
   * after j edges a countdown of c stands at c - j.
   */
  lemma {:induction false} CountdownSilences(s: GenState, ins: seq<Inputs>)
    requires |ins| <= s.counter
    ensures Run(s, ins).counter == s.counter - |ins|
    ensures |ins| < s.counter ==> !Output(Run(s, ins)).valid
    ensures s.phase == AddChar ==> Run(s, ins).phase == AddChar && Run(s, ins).idx == s.idx
    decreases |ins|
  {
    if ins != [] {
      CountdownSilences(Next(s, ins[0].start, ins[0].ready), ins[1..]);
    }
  }

  /**
   * After a handshake no new `valid` appears for 20 edges; on the 20th the
   * countdown is done again, and unless that handshake ended the pass the
   * next byte, the one after the cursor, is presented.
   */
  lemma HandshakeThenSilence(s: GenState, start: bool, ins: seq<Inputs>)
    requires Handshake(s, true) && |ins| <= RELOAD
    ensures |ins| < RELOAD ==> !Output(Run(Next(s, start, true), ins)).valid
    ensures |ins| == RELOAD ==> CounterDone(Run(Next(s, start, true), ins))
    ensures |ins| == RELOAD && s.idx < |PAYLOAD| ==> Output(Run(Next(s, start, true), ins)) == Source(true, ReadPort(s.idx + 1))
  {
    CountdownSilences(Next(s, start, true), ins);
  }

  /**
   * The bytes handed over during one pass of ADD_CHAR, and the state in
   * which the pass stops: at the return to INIT or when the inputs run out.
   */
  function Pass(s: GenState, ins: seq<Inputs>): (seq<Option<Byte>>, GenState)
    decreases |ins|
  {
    if ins == [] || s.phase == Init then ([], s)
    else
      var rest := Pass(Next(s, ins[0].start, ins[0].ready), ins[1..]);
      ((if Handshake(s, ins[0].ready) then [Output(s).data] else []) + rest.0, rest.1)
  }

  /** What the handshakes of a pass read, from cursor k on: indices k up to and including 5. */
  function Remaining(k: nat): seq<Option<Byte>>
    requires k <= |PAYLOAD|
    decreases |PAYLOAD| - k
  {
    if k == |PAYLOAD| then [ReadPort(k)] else [ReadPort(k)] + Remaining(k + 1)
  }

  /**
   * Whatever the consumer does with `ready` and whatever `start` does, a
   * pass hands over the buffer bytes in order, none repeated or skipped,
   * and ends in INIT exactly once it has also made a sixth handshake, which
   * reads index 5, one past the 5-byte buffer.
   */
  lemma {:induction false} PassHandsOverRemaining(s: GenState, ins: seq<Inputs>)
    requires s.phase == AddChar && s.idx <= |PAYLOAD|
    ensures |Pass(s, ins).0| <= |Remaining(s.idx)|
    ensures Pass(s, ins).0 == Remaining(s.idx)[..|Pass(s, ins).0|]
    ensures Pass(s, ins).1.phase == Init <==> Pass(s, ins).0 == Remaining(s.idx)
    decreases |ins|
  {
    if ins != [] {
      var n := Next(s, ins[0].start, ins[0].ready);
      AddCharStep(s, ins[0].start, ins[0].ready);
      var rest := Pass(n, ins[1..]);
      if Handshake(s, ins[0].ready) {
        assert Pass(s, ins) == ([ReadPort(s.idx)] + rest.0, rest.1);
        if s.idx < |PAYLOAD| {
          PassHandsOverRemaining(n, ins[1..]);
          var tail := Remaining(s.idx + 1);
          assert Remaining(s.idx) == [ReadPort(s.idx)] + tail;
          assert [ReadPort(s.idx)] + tail[..|rest.0|] == ([ReadPort(s.idx)] + tail)[..1 + |rest.0|];
        } else {
          assert rest == ([], n);
          assert Remaining(s.idx) == [ReadPort(s.idx)];
        }
      } else {
        assert [] + rest.0 == rest.0;
        assert Pass(s, ins) == rest;
        PassHandsOverRemaining(n, ins[1..]);
      }
    }
  }

  /** One edge of ADD_CHAR: a handshake reads the cursor and moves it on, returning to INIT after index 5. */
  lemma AddCharStep(s: GenState, start: bool, ready: bool)
    requires s.phase == AddChar && s.idx <= |PAYLOAD|
    ensures Handshake(s, ready) ==> Output(s).data == ReadPort(s.idx) && Next(s, start, ready).idx == s.idx + 1
    ensures Handshake(s, ready) ==> (Next(s, start, ready).phase == Init <==> s.idx == |PAYLOAD|)
    ensures !Handshake(s, ready) ==> Next(s, start, ready).idx == s.idx && Next(s, start, ready).phase == AddChar
  {
  }

  /** A complete pass from cursor 0: "r", "o", "o", "t", "\n", then one unspecified byte. */
  lemma FullPassTransfers()
    ensures Remaining(0) == [Some(0x72), Some(0x6f), Some(0x6f), Some(0x74), Some(0x0a), None]
    ensures |Remaining(0)| == |PAYLOAD| + 1
  {
    assert Remaining(5) == [None];
    assert Remaining(4) == [Some(0x0a), None];
  }

  /**
   * With a consumer that is always ready, a pass that starts with the
   * countdown at c and the cursor at k completes within c + 1 + 21 * (5 - k)
   * edges.
   */
  lemma {:induction false} AlwaysReadyCompletes(s: GenState, ins: seq<Inputs>)
    requires s.phase == AddChar && s.idx <= |PAYLOAD| && s.counter <= RELOAD
    requires forall j :: 0 <= j < |ins| ==> ins[j].ready
    requires |ins| >= s.counter + 1 + (RELOAD + 1) * (|PAYLOAD| - s.idx)
    ensures Pass(s, ins).1.phase == Init
    decreases |ins|
  {
    var n := Next(s, ins[0].start, ins[0].ready);
    if !Handshake(s, ins[0].ready) || s.idx < |PAYLOAD| {
      AlwaysReadyCompletes(n, ins[1..]);
    }
  }

  /**
   * End to end: from a reachable INIT state with the latch low, a rising
   * `start` followed by 127 edges of an always-ready consumer yields exactly
   * the six handovers of a full pass and the return to INIT.
   */
  lemma StartPulseRunsOnePass(s: GenState, start: Inputs, ins: seq<Inputs>)
    requires Inv(s) && s.phase == Init && !s.startReg && start.start
    requires forall j :: 0 <= j < |ins| ==> ins[j].ready
    requires |ins| >= 1 + (RELOAD + 1) * (|PAYLOAD| + 1)
    ensures Pass(Next(s, start.start, start.ready), ins).0 == Remaining(0)
    ensures Pass(Next(s, start.start, start.ready), ins).1.phase == Init
  {
    var n := Next(s, start.start, start.ready);
    AlwaysReadyCompletes(n, ins);
    PassHandsOverRemaining(n, ins);
  }

  /**
   * A `start` held high through a pass does not start another: on the
   * return to INIT the latch is high, so the first INIT edge cannot see a
   * rising edge.
   */
  lemma NoRetriggerOnReturn(s: GenState, start: bool, ready: bool, start': bool, ready': bool)
    requires Inv(s) && s.phase == AddChar && Next(s, start, ready).phase == Init
    ensures Next(s, start, ready).startReg
    ensures Next(Next(s, start, ready), start', ready').phase == Init
  {
  }

  /** The generator as a class: each field is one of its registers. */
  class StreamGenerator {
    var phase: Phase
    var counter: nat
    var idx: nat
    var startReg: bool

    function State(): GenState
      reads this
    {
      GenState(phase, counter, idx, startReg)
    }

    constructor ()
      ensures State() == Reset() && Inv(State())
    {
      phase, counter, idx, startReg := Init, 0, 0, false;
    }

    /** The stream endpoint in the current state: source.valid and source.data. */
    method Outputs() returns (valid: bool, data: Option<Byte>)
      ensures Source(valid, data) == Output(State())
      ensures valid <==> phase == AddChar && counter == 0
    {
      var counterDone := counter == 0;
      valid, data := false, Some(0);
      if phase == AddChar && counterDone {
        valid := true;
        data := if idx < |PAYLOAD| then Some(PAYLOAD[idx]) else None;
      }
    }

    /** One clock edge with inputs `start` and `source.ready`. */
    method Step(start: bool, ready: bool)
      modifies this
      ensures State() == Next(old(State()), start, ready)
      ensures old(Inv(State())) ==> Inv(State())
    {
      ghost var before := State();
      if Inv(before) {
        NextPreservesInv(before, start, ready);
      }
      // combinational signals
      var counterDone := counter == 0;
      var counterCe, counterVal := false, 0;
      var nextPhase, nextIdx, nextStartReg := phase, idx, startReg;
      if phase == Init {
        nextIdx := 0;
        if start && !startReg {
          nextPhase := AddChar;
        }
        nextStartReg := start;
      } else if counterDone && ready {
        counterVal, counterCe := RELOAD, true;
        nextIdx := (idx + 1) % IDX_MODULUS;
        if idx > |PAYLOAD| - 1 {
          nextPhase := Init;
        }
      }
      // synchronous update
      if counterCe {
        counter := counterVal;
      } else if counter > 0 {
        counter := counter - 1;
      }
      phase, idx, startReg := nextPhase, nextIdx, nextStartReg;
    }
  }
}
