/** From the peer connection to the client: peerReadLoop swaps two buffers and hands slices of them,
    without copying, to clientReadLoop. Every interleaving of the two loops. */
module WispReadPath {
  import opened Bits
  import opened Chunks

  /** Offering is the blocked send on readQueue after a Read of n bytes. */
  datatype Reader = Reading | Offering(n: nat) | Exited

  /** Writing is between the receive from readQueue and the end of the packet's serialisation. */
  datatype Sender = Waiting | Writing(b: bool, n: nat) | Ended

  /** cur tells which of the two buffers is buf1. broken means that a packet write has failed, after
      which every further one fails. fromPeer, toClient and packets, the payloads of the
      DATA packets sent, are history. */
  datatype State = State(
    buf0: Bytes,
    buf1: Bytes,
    cur: bool,
    reader: Reader,
    sender: Sender,
    broken: bool,
    fromPeer: Bytes,
    toClient: Bytes,
    packets: seq<Bytes>)
  {
    function Buf(b: bool): Bytes {
      if b then buf1 else buf0
    }
  }

  datatype Step =
    | Scribble(data: Bytes)   // conn.Read fills the buffer it was given
    | ReadOk(n: nat)          // conn.Read returns n bytes
    | ReadFails
    | HandOver                // the unbuffered readQueue, then the swap
    | Serialise
    | SerialiseFails
    | QueueClosed

  predicate Init(s: State) {
    |s.buf0| == |s.buf1| && s == State(s.buf0, s.buf1, false, Reading, Waiting, false, [], [], [])
  }

  predicate Enabled(s: State, step: Step) {
    match step
    case Scribble(data) => s.reader == Reading && |data| == |s.Buf(s.cur)|
    case ReadOk(n) => s.reader == Reading && n <= |s.Buf(s.cur)|
    case ReadFails => s.reader == Reading
    case HandOver => s.reader.Offering? && s.sender == Waiting
    case Serialise => s.sender.Writing? && !s.broken && s.sender.n <= |s.Buf(s.sender.b)|
    case SerialiseFails => s.sender.Writing?
    case QueueClosed => s.reader == Exited && s.sender == Waiting
  }

  function Apply(s: State, step: Step): State
    requires Enabled(s, step)
  {
    match step
    case Scribble(data) => if s.cur then s.(buf1 := data) else s.(buf0 := data)
    case ReadOk(n) =>
      var t := s.(fromPeer := s.fromPeer + s.Buf(s.cur)[..n]);
      if n > 0 then t.(reader := Offering(n)) else t.(cur := !s.cur)
    case ReadFails => s.(reader := Exited)
    case HandOver => s.(sender := Writing(s.cur, s.reader.n), reader := Reading, cur := !s.cur)
    case Serialise =>
      var data := s.Buf(s.sender.b)[..s.sender.n];
      s.(toClient := s.toClient + data, packets := s.packets + [data], sender := Waiting)
    case SerialiseFails => s.(broken := true, sender := Waiting)
    case QueueClosed => s.(sender := Ended)
  }

  predicate Run(ss: seq<State>, steps: seq<Step>) {
    && |ss| == |steps| + 1
    && Init(ss[0])
    && forall i :: 0 <= i < |steps| ==> Enabled(ss[i], steps[i]) && ss[i + 1] == Apply(ss[i], steps[i])
  }

  /** conn.Read is writing to the buffer that clientReadLoop is sending. */
  predicate Overlap(s: State) {
    s.reader == Reading && s.sender.Writing? && s.sender.b == s.cur
  }

  /** The step that breaks the discipline: an empty successful Read while a packet is being sent. */
  predicate EmptyRead(s: State, step: Step) {
    step == ReadOk(0) && s.sender.Writing?
  }

  /** Bytes handed over or about to be handed over, but not sent yet. */
  function InHand(s: State): Bytes {
    (if s.sender.Writing? && s.sender.n <= |s.Buf(s.sender.b)| then s.Buf(s.sender.b)[..s.sender.n] else []) +
    (if s.reader.Offering? && s.reader.n <= |s.Buf(s.cur)| then s.Buf(s.cur)[..s.reader.n] else [])
  }

  predicate Inv(s: State) {
    && |s.buf0| == |s.buf1|
    && (s.reader.Offering? ==> s.reader.n <= |s.buf0|)
    && (s.sender.Writing? ==> s.sender.n <= |s.buf0| && (s.reader != Exited ==> s.sender.b != s.cur))
    && (if s.broken then s.toClient <= s.fromPeer else s.toClient + InHand(s) == s.fromPeer)
  }

  lemma NextInv(s: State, step: Step)
    requires Inv(s) && Enabled(s, step) && !EmptyRead(s, step)
    ensures Inv(Apply(s, step))
  {
    hide *;
    match step
    case Scribble(data) => ScribbleInv(s, data);
    case ReadOk(n) => ReadOkInv(s, n);
    case HandOver => HandOverInv(s);
    case Serialise => SerialiseInv(s);
    case _ => EndsInv(s, step);
  }

  lemma ScribbleInv(s: State, data: Bytes)
    requires Inv(s) && Enabled(s, Scribble(data))
    ensures Inv(Apply(s, Scribble(data)))
  {
    assert InHand(Apply(s, Scribble(data))) == InHand(s);
  }

  lemma ReadOkInv(s: State, n: nat)
    requires Inv(s) && Enabled(s, ReadOk(n)) && !EmptyRead(s, ReadOk(n))
    ensures Inv(Apply(s, ReadOk(n)))
  {
    if !s.broken {
      var w := if s.sender.Writing? then s.Buf(s.sender.b)[..s.sender.n] else [];
      var d := s.Buf(s.cur)[..n];
      assert InHand(s) == w && InHand(Apply(s, ReadOk(n))) == w + d;
      assert s.toClient + w + d == s.toClient + (w + d);
    }
  }

  lemma HandOverInv(s: State)
    requires Inv(s) && Enabled(s, HandOver)
    ensures Inv(Apply(s, HandOver))
  {
    assert InHand(Apply(s, HandOver)) == InHand(s);
  }

  lemma SerialiseInv(s: State)
    requires Inv(s) && Enabled(s, Serialise)
    ensures Inv(Apply(s, Serialise))
  {
    var t := Apply(s, Serialise);
    var w := s.Buf(s.sender.b)[..s.sender.n];
    assert InHand(s) == w + InHand(t);
    assert s.toClient + (w + InHand(t)) == s.toClient + w + InHand(t);
  }

  lemma EndsInv(s: State, step: Step)
    requires Inv(s) && Enabled(s, step) && step in {ReadFails, SerialiseFails, QueueClosed}
    ensures Inv(Apply(s, step))
  {
    var t := Apply(s, step);
    if step.SerialiseFails? {
      if !s.broken {
        assert s.toClient + InHand(s) == s.fromPeer;
      }
    } else {
      assert InHand(t) == InHand(s);
    }
  }

  predicate NoEmptyReads(ss: seq<State>, steps: seq<Step>)
    requires |ss| == |steps| + 1
  {
    forall i :: 0 <= i < |steps| ==> !EmptyRead(ss[i], steps[i])
  }

  lemma {:induction false} RunInv(ss: seq<State>, steps: seq<Step>)
    requires Run(ss, steps) && NoEmptyReads(ss, steps)
    ensures Inv(ss[|steps|])
    decreases |steps|
  {
    if steps != [] {
      var n := |steps| - 1;
      RunInv(ss[..n + 1], steps[..n]);
      NextInv(ss[n], steps[n]);
    }
  }

  /** The buffers are used in turn exactly in the runs where no Read succeeds with zero bytes
      while a packet is being sent. */
  lemma OverlapExactly(ss: seq<State>, steps: seq<Step>)
    requires Run(ss, steps)
    ensures NoEmptyReads(ss, steps) <==> forall i :: 0 <= i < |ss| ==> !Overlap(ss[i])
  {
    if NoEmptyReads(ss, steps) {
      forall i | 0 <= i < |ss| ensures !Overlap(ss[i]) {
        RunInv(ss[..i + 1], steps[..i]);
      }
    } else {
      FirstOverlap(ss, steps);
    }
  }

  /** The first such Read makes the buffers overlap at once. */
  lemma FirstOverlap(ss: seq<State>, steps: seq<Step>)
    requires Run(ss, steps) && !NoEmptyReads(ss, steps)
    ensures exists i :: 0 <= i < |ss| && Overlap(ss[i])
    decreases |steps|
  {
    var n := |steps| - 1;
    if NoEmptyReads(ss[..n + 1], steps[..n]) {
      RunInv(ss[..n + 1], steps[..n]);
      assert EmptyRead(ss[n], steps[n]);
      assert Overlap(ss[n + 1]);
    } else {
      FirstOverlap(ss[..n + 1], steps[..n]);
    }
  }

  /** If every successful Read returns something, the client gets a prefix of what the peer sent. */
  lemma SentPrefix(ss: seq<State>, steps: seq<Step>)
    requires Run(ss, steps) && forall i :: 0 <= i < |steps| ==> steps[i] != ReadOk(0)
    ensures ss[|steps|].toClient <= ss[|steps|].fromPeer
    ensures !Overlap(ss[|steps|])
  {
    RunInv(ss, steps);
  }

  /** A run with an empty Read in which the client is sent a byte that the peer never sent. */
  lemma EmptyReadCorrupts(x: byte, y: byte) returns (ss: seq<State>, steps: seq<Step>)
    requires x != y
    ensures Run(ss, steps) && !(ss[|steps|].toClient <= ss[|steps|].fromPeer)
  {
    steps := [ReadOk(1), HandOver, ReadOk(0), Scribble([y]), Serialise];
    var s0 := State([x], [x], false, Reading, Waiting, false, [], [], []);
    var s1 := Apply(s0, steps[0]);
    var s2 := Apply(s1, steps[1]);
    var s3 := Apply(s2, steps[2]);
    var s4 := Apply(s3, steps[3]);
    var s5 := Apply(s4, steps[4]);
    ss := [s0, s1, s2, s3, s4, s5];
    assert s5.fromPeer[0] == x && s5.toClient[0] == y;
  }

  /** The bytes sent to the client are those of the packets sent. */
  lemma {:induction false} PacketsAreBytes(ss: seq<State>, steps: seq<Step>)
    requires Run(ss, steps)
    ensures Concat(ss[|steps|].packets) == ss[|steps|].toClient
    decreases |steps|
  {
    if steps != [] {
      var n := |steps| - 1;
      PacketsAreBytes(ss[..n + 1], steps[..n]);
      if steps[n].Serialise? {
        ConcatSnoc(ss[n].packets, ss[n].Buf(ss[n].sender.b)[..ss[n].sender.n]);
      }
    }
  }

  /** The states that a sequence of steps goes through, from any state on. */
  predicate Path(ss: seq<State>, steps: seq<Step>) {
    && |ss| == |steps| + 1
    && forall i :: 0 <= i < |steps| ==> Enabled(ss[i], steps[i]) && ss[i + 1] == Apply(ss[i], steps[i])
  }

  /** Nothing gets stuck on the way: without a failure and without a further read, what has been read from
      the peer can be sent. */
  lemma Drains(s: State) returns (ss: seq<State>, steps: seq<Step>)
    requires Inv(s) && !s.broken && s.sender != Ended
    ensures Path(ss, steps) && ss[0] == s && ss[|steps|].toClient == ss[|steps|].fromPeer == s.fromPeer
  {
    ss, steps := [s], [];
    var t := s;
    if t.sender.Writing? {
      NextInv(t, Serialise);
      t := Apply(t, Serialise);
      ss, steps := ss + [t], steps + [Serialise];
    }
    if t.reader.Offering? {
      NextInv(t, HandOver);
      var u := Apply(t, HandOver);
      NextInv(u, Serialise);
      t := Apply(u, Serialise);
      ss, steps := ss + [u, t], steps + [HandOver, Serialise];
    }
    Sent(t);
  }

  lemma Sent(t: State)
    requires Inv(t) && !t.broken && !t.sender.Writing? && !t.reader.Offering?
    ensures t.toClient == t.fromPeer
  {
    assert InHand(t) == [];
  }
}
