/** The transfer as two processes on a pair of channels, one receive or send at a time. */
module StopAndWait {
  import opened CStrings
  import opened Transfer

  /** READ's server or WRITE's client. */
  datatype SenderPc =
    | Ready      // about to send chunk `i`, or STOP if there is none
    | Awaiting   // in recv, for the acknowledgement of chunk `i`
    | SentStop
    | Failed     // what came back was not ACK

  /** WRITE's server or READ's client. */
  datatype ReceiverPc =
    | Idle       // in recv
    | Replying   // about to send ACK
    | Checking   // about to compare the packet with STOP
    | Finished   // has closed the connection

  datatype State = State(
    all: seq<Packet>,     // what the sender has to send; the last one is its STOP packet
    sender: SenderPc,
    i: nat,               // chunks acknowledged
    forth: seq<Packet>,   // sent and not received
    back: seq<Packet>,    // acknowledgements on their way
    receiver: ReceiverPc,
    got: nat,             // packets received
    buffer: Packet,
    written: Bytes)

  datatype Actor = Sender | Receiver

  ghost predicate Initial(s: State, file: Bytes) {
    s == State(Packets(file), Ready, 0, [], [], Idle, 0, [], [])
  }

  predicate Closed(s: State) {
    s.sender == SentStop || s.sender == Failed
  }

  /** A recv returns when a packet is there, or the other side has closed. */
  predicate Enabled(s: State, a: Actor) {
    match a
    case Sender =>
      (match s.sender
       case Ready => s.i < |s.all|
       case Awaiting => s.back != [] || s.receiver == Finished
       case _ => false)
    case Receiver =>
      (match s.receiver
       case Idle => s.forth != [] || Closed(s)
       case Finished => false
       case _ => true)
  }

  /** The first packet of a channel; an empty read when there is none. */
  function First(c: seq<Packet>): Packet {
    if c == [] then [] else c[0]
  }

  function Rest(c: seq<Packet>): seq<Packet> {
    if c == [] then [] else c[1..]
  }

  function Next(s: State, a: Actor): State
    requires Enabled(s, a)
  {
    match a
    case Sender =>
      if s.sender == Ready then
        s.(forth := s.forth + [s.all[s.i]], sender := if s.i == |s.all| - 1 then SentStop else Awaiting)
      else if IsAck(First(s.back)) then
        s.(back := Rest(s.back), i := s.i + 1, sender := Ready)
      else
        s.(back := Rest(s.back), sender := Failed)
    case Receiver =>
      match s.receiver
      case Idle => s.(buffer := First(s.forth), forth := Rest(s.forth), got := s.got + 1, receiver := Replying)
      case Replying => s.(back := s.back + [Padded(ACK)], receiver := Checking)
      case _ => if IsStop(s.buffer) then s.(receiver := Finished)
                else s.(written := s.written + Cut(s.buffer), receiver := Idle)
  }

  ghost predicate CanRun(s: State, schedule: seq<Actor>)
    decreases |schedule|
  {
    schedule != [] ==> Enabled(s, schedule[0]) && CanRun(Next(s, schedule[0]), schedule[1..])
  }

  ghost function After(s: State, schedule: seq<Actor>): State
    requires CanRun(s, schedule)
    decreases |schedule|
  {
    if schedule == [] then s else After(Next(s, schedule[0]), schedule[1..])
  }

  // ---------- the invariant ----------

  function Sent(s: State): nat {
    if s.sender == Ready then s.i else s.i + 1
  }

  function Acked(s: State): int {
    if s.receiver == Replying then s.got - 1 else s.got
  }

  /** Packets whose contents are in the file. */
  function Kept(s: State): int {
    if s.receiver == Idle then s.got else s.got - 1
  }

  ghost predicate NoStop(p: seq<Packet>) {
    forall k :: 0 <= k < |p| ==> !IsStop(p[k])
  }

  ghost predicate SentPart(s: State) {
    && 0 < |s.all| && s.i < |s.all|
    && (s.sender == SentStop ==> s.i == |s.all| - 1)
    && (s.sender == Awaiting || s.sender == Failed ==> s.i < |s.all| - 1)
    && s.got <= Sent(s)
    && s.forth == s.all[s.got..Sent(s)]
    && IsStop(s.all[|s.all| - 1])
  }

  ghost predicate ReceivedPart(s: State) {
    && s.got <= |s.all|
    && (s.receiver != Idle ==> s.got > 0 && s.buffer == s.all[s.got - 1])
    && NoStop(s.all[..Kept(s)])
    && (s.receiver == Finished ==> IsStop(s.buffer))
    && s.written + Stored(s.all[Kept(s)..]) == Stored(s.all)
  }

  ghost predicate AckedPart(s: State) {
    && s.i <= Acked(s) <= s.i + 1
    && s.back == seq(Acked(s) - s.i, k => Padded(ACK))
    && (s.sender == Failed ==> s.receiver == Finished && s.back == [])
  }

  ghost predicate Inv(s: State) {
    SentPart(s) && ReceivedPart(s) && AckedPart(s)
  }

  lemma InitialInv(s: State, file: Bytes)
    requires Initial(s, file)
    ensures Inv(s)
  {
    StopAndAck();
    assert s.all[..0] == [] && s.all[0..] == s.all;
    assert [] + Stored(s.all) == Stored(s.all);
  }

  lemma SenderStep(s: State)
    requires Inv(s) && Enabled(s, Sender)
    ensures Inv(Next(s, Sender))
  {
    StopAndAck();
    hide Padded, IsAck, IsStop, Stored;
    var t := Next(s, Sender);
    if s.sender == Ready {
      assert s.all[s.got..s.i] + [s.all[s.i]] == s.all[s.got..s.i + 1];
    }
  }

  lemma ReceiveStep(s: State)
    requires Inv(s) && Enabled(s, Receiver) && s.receiver == Idle
    ensures Inv(Next(s, Receiver))
  {
    hide IsAck, IsStop, Stored;
    assert s.got < Sent(s) && s.forth == s.all[s.got..Sent(s)];
    assert s.forth[0] == s.all[s.got] && s.forth[1..] == s.all[s.got + 1..Sent(s)];
  }

  lemma ReplyStep(s: State)
    requires Inv(s) && s.receiver == Replying
    ensures Inv(Next(s, Receiver))
  {
    hide Padded, IsAck, IsStop, Stored;
  }

  lemma CheckStep(s: State)
    requires Inv(s) && s.receiver == Checking
    ensures Inv(Next(s, Receiver))
  {
    hide Padded, IsAck, IsStop, Stored, Cut;
    if !IsStop(s.buffer) {
      StoreOne(s.all, s.got - 1, s.written);
    }
  }

  lemma StoreOne(all: seq<Packet>, k: nat, written: Bytes)
    requires k < |all| && !IsStop(all[k]) && NoStop(all[..k])
    ensures NoStop(all[..k + 1])
    ensures written + Stored(all[k..]) == written + Cut(all[k]) + Stored(all[k + 1..])
  {
    assert all[k..][1..] == all[k + 1..];
  }

  lemma StepInv(s: State, a: Actor)
    requires Inv(s) && Enabled(s, a)
    ensures Inv(Next(s, a))
  {
    hide Inv;
    match a
    case Sender => SenderStep(s);
    case Receiver =>
      if s.receiver == Idle {
        ReceiveStep(s);
      } else if s.receiver == Replying {
        ReplyStep(s);
      } else {
        CheckStep(s);
      }
  }

  lemma {:induction false} RunInv(s: State, schedule: seq<Actor>)
    requires Inv(s) && CanRun(s, schedule)
    ensures Inv(After(s, schedule)) && After(s, schedule).all == s.all
    decreases |schedule|
  {
    hide Inv;
    if schedule != [] {
      StepInv(s, schedule[0]);
      RunInv(Next(s, schedule[0]), schedule[1..]);
    }
  }

  // ---------- safety, in every interleaving ----------

  lemma {:induction false} StoredSplit(p: seq<Packet>, q: seq<Packet>)
    requires NoStop(p)
    ensures Stored(p + q) == Stored(p) + Stored(q)
  {
    if p == [] {
      assert p + q == q;
    } else {
      assert (p + q)[1..] == p[1..] + q;
      StoredSplit(p[1..], q);
    }
  }

  lemma WrittenIsStored(all: seq<Packet>, k: nat, written: Bytes)
    requires k <= |all| && NoStop(all[..k])
    requires written + Stored(all[k..]) == Stored(all)
    ensures written == Stored(all[..k])
  {
    assert all == all[..k] + all[k..];
    StoredSplit(all[..k], all[k..]);
    var a, b := Stored(all[..k]), Stored(all[k..]);
    hide Stored;
    assert |written| == |a|;
    assert written == (written + b)[..|a|] == (a + b)[..|a|] == a;
  }

  lemma InvSafe(s: State)
    requires Inv(s)
    ensures Sent(s) <= s.i + 1 && |s.forth| <= 1 && |s.back| <= 1
    ensures s.got <= Sent(s) <= |s.all| && s.all[..Sent(s)] == s.all[..s.got] + s.forth
    ensures 0 <= Kept(s) <= s.got <= Kept(s) + 1
    ensures NoStop(s.all[..Kept(s)]) && s.written == Stored(s.all[..Kept(s)])
  {
    WrittenIsStored(s.all, Kept(s), s.written);
    hide Stored, IsStop, Padded;
  }

  /** At most one packet is unacknowledged, what was received is a prefix of what was sent,
      and what was stored is exactly that prefix's contents, STOP never among them. */
  lemma Safety(s0: State, file: Bytes, schedule: seq<Actor>)
    requires Initial(s0, file) && CanRun(s0, schedule)
    ensures var s, p := After(s0, schedule), Packets(file);
      && Sent(s) <= s.i + 1 && |s.forth| <= 1 && |s.back| <= 1
      && s.got <= Sent(s) <= |p| && p[..Sent(s)] == p[..s.got] + s.forth
      && 0 <= Kept(s) <= s.got <= Kept(s) + 1
      && NoStop(p[..Kept(s)]) && s.written == Stored(p[..Kept(s)])
  {
    hide Inv, Stored, Packets, NoStop, After;
    InitialInv(s0, file);
    RunInv(s0, schedule);
    InvSafe(After(s0, schedule));
  }

  // ---------- progress and outcome ----------

  /** Sends, receipts, replies, checks and acknowledgements taken so far. */
  function Moves(s: State): int {
    Sent(s) + s.i + s.got + Acked(s)
    + (if s.receiver == Idle || s.receiver == Finished then s.got else s.got - 1)
    + (if s.sender == Failed then 1 else 0)
  }

  lemma MovesStep(s: State, a: Actor)
    requires Inv(s) && Enabled(s, a)
    ensures Moves(Next(s, a)) == Moves(s) + 1
  {
    hide Stored, IsStop, Padded, IsAck;
  }

  lemma {:induction false} RunMoves(s: State, schedule: seq<Actor>)
    requires Inv(s) && CanRun(s, schedule)
    ensures Moves(After(s, schedule)) == Moves(s) + |schedule|
    decreases |schedule|
  {
    hide Inv, Moves;
    if schedule != [] {
      MovesStep(s, schedule[0]);
      StepInv(s, schedule[0]);
      RunMoves(Next(s, schedule[0]), schedule[1..]);
    }
  }

  lemma MovesBounded(s: State)
    requires Inv(s)
    ensures Moves(s) <= 5 * |s.all|
  {
    hide Stored, IsStop, Padded;
  }

  /** No run is longer than five steps a packet. */
  lemma RunsEnd(s0: State, file: Bytes, schedule: seq<Actor>)
    requires Initial(s0, file) && CanRun(s0, schedule)
    ensures |schedule| <= 5 * |Packets(file)|
  {
    InitialInv(s0, file);
    assert Moves(s0) == 0;
    hide Inv, Moves;
    RunInv(s0, schedule);
    RunMoves(s0, schedule);
    MovesBounded(After(s0, schedule));
  }

  lemma StuckOutcome(s: State)
    requires Inv(s) && !Enabled(s, Sender) && !Enabled(s, Receiver)
    ensures s.receiver == Finished && Closed(s)
    ensures s.written == Stored(s.all)
    ensures s.sender == SentStop ==> s.got >= |s.all| - 1
    ensures s.sender == Failed ==> 0 < s.got < |s.all| - 1 && IsStop(s.all[s.got - 1])
  {
    hide IsStop, Padded;
    assert s.receiver == Finished;
    assert s.all[Kept(s)..][0] == s.buffer;
    assert Stored(s.all[Kept(s)..]) == [];
    assert s.written + [] == s.written;
  }

  /** When neither side can move, the receiver has stopped and the file holds all that any
      run would store. The sender reports success iff no chunk before its last one reads
      like STOP. */
  lemma Outcome(s0: State, file: Bytes, schedule: seq<Actor>)
    requires Initial(s0, file) && CanRun(s0, schedule)
    requires !Enabled(After(s0, schedule), Sender) && !Enabled(After(s0, schedule), Receiver)
    ensures var s, p := After(s0, schedule), Packets(file);
      && s.receiver == Finished
      && s.written == Stored(p)
      && (s.sender == SentStop || s.sender == Failed)
      && (s.sender == SentStop <==> |p| < 2 || NoStop(p[..|p| - 2]))
  {
    hide Inv, Stored, Packets, After, IsStop;
    InitialInv(s0, file);
    RunInv(s0, schedule);
    var s, p := After(s0, schedule), Packets(file);
    StuckOutcome(s);
    InvSafe(s);
    if s.sender == SentStop && |p| >= 2 {
      assert p[..|p| - 2] == p[..Kept(s)][..|p| - 2];
    } else if s.sender == Failed {
      assert IsStop(p[..|p| - 2][s.got - 1]);
    }
  }

  lemma {:induction false} ChunksNoStop(file: Bytes)
    requires NUL !in file && !EndsInStop(file)
    ensures NoStop(Chunks(file))
    decreases |file|
  {
    if file == [] {
    } else if |file| <= CHUNK_SIZE {
      StopIsWhole(file);
    } else {
      var head, tail := file[..CHUNK_SIZE], file[CHUNK_SIZE..];
      CutWhole(head);
      assert !IsStop(head);
      hide IsStop, EndsInStop;
      EndsInStopTail(file);
      ChunksNoStop(tail);
    }
  }

  /** Every complete run delivers the file intact iff it has no NUL byte and no last chunk
      "stop"; and then both sides end in success. */
  lemma DeliversExactly(s0: State, file: Bytes, schedule: seq<Actor>)
    requires Initial(s0, file) && CanRun(s0, schedule)
    requires !Enabled(After(s0, schedule), Sender) && !Enabled(After(s0, schedule), Receiver)
    ensures var s := After(s0, schedule);
      && (s.written == file <==> NUL !in file && !EndsInStop(file))
      && (s.written == file ==> s.sender == SentStop)
  {
    Outcome(s0, file, schedule);
    ArrivesExactly(file);
    if NUL !in file && !EndsInStop(file) {
      ChunksNoStop(file);
      var p := Packets(file);
      assert p[..|p| - 1] == Chunks(file);
      if |p| >= 2 {
        assert p[..|p| - 2] == Chunks(file)[..|p| - 2];
      }
    }
  }
}
