/** The Wisp server's connection handler: one main loop and, for every stream, three goroutines that
    may close it. A step is one atomic action of one of them; a run is any interleaving of steps. */
module WispServer {
  import opened Results
  import opened Chunks

  datatype Who = PeerReader | ClientReader | PeerWriter

  /** Where a goroutine stands in serverStream.close. */
  datatype Closer = NotClosing | AtSwap | AtPacket | AtConn | AtAnnounce

  /** Where the peer-write loop stands. */
  datatype Writer = Waiting | Holding(data: Bytes) | Stopped

  /** A stream object. accepted and written are history; the counters count calls and packets. */
  datatype Stream = Stream(
    id: nat,
    closed: bool,
    peerReader: Closer,
    clientReader: Closer,
    peerWriter: Closer,
    closePackets: nat,
    connCloses: nat,
    queueCloses: nat,
    queue: seq<Bytes>,
    writer: Writer,
    accepted: seq<Bytes>,
    written: Bytes)
  {
    function At(w: Who): Closer {
      match w case PeerReader => peerReader case ClientReader => clientReader case PeerWriter => peerWriter
    }

    function Put(w: Who, c: Closer): Stream {
      match w
      case PeerReader => this.(peerReader := c)
      case ClientReader => this.(clientReader := c)
      case PeerWriter => this.(peerWriter := c)
    }
  }

  /** A goroutine that won the atomic swap and is not done with the close yet. */
  predicate Winning(c: Closer) {
    c in {AtPacket, AtConn, AtAnnounce}
  }

  /** Where the main loop stands. Closing is between the swap and conn.Close in cleanup(0), called by
      handleClose (todo is None) or by the loop over the remaining streams. */
  datatype Main =
    | Draining(final: bool)
    | Awaiting
    | Sending(k: nat, payload: Bytes)
    | Closing(k: nat, todo: Option<set<nat>>)
    | Cleanup(left: set<nat>)
    | Done

  /** objects holds every stream object ever made; streams maps ids to positions in it. */
  datatype State = State(main: Main, streams: map<nat, nat>, objects: seq<Stream>)

  datatype Step =
    // The main loop
    | Receive(k: nat, who: Who)
    | StopDraining
    | Connect(id: nat)
    | Data(id: nat, payload: Bytes)
    | Push
    | Close(id: nat)
    | CloseConnOfMain
    | Broken
    | Invalid
    | CleanNext(k: nat)
    | Finish
    // A goroutine inside serverStream.close
    | Begin(k: nat, who: Who)
    | Swap(k: nat, who: Who)
    | SendPacket(k: nat, who: Who)
    | CloseConn(k: nat, who: Who)
    // The peer-write loop
    | Take(k: nat)
    | Write(k: nat)
    | WriteFails(k: nat, count: nat)
    | WriterReturns(k: nat)

  function NewStream(id: nat): Stream {
    Stream(id, false, NotClosing, NotClosing, NotClosing, 0, 0, 0, [], Waiting, [], [])
  }

  predicate Init(s: State) {
    s == State(Draining(false), map[], [])
  }

  predicate Enabled(s: State, step: Step) {
    match step
    case Receive(k, w) => s.main.Draining? && k < |s.objects| && s.objects[k].At(w) == AtAnnounce
    case StopDraining => s.main.Draining?
    case Connect(_) => s.main == Awaiting
    case Data(id, _) => s.main == Awaiting
    case Push => s.main.Sending? && s.main.k < |s.objects| && |s.objects[s.main.k].queue| < 1
    case Close(_) => s.main == Awaiting
    case CloseConnOfMain => s.main.Closing? && s.main.k < |s.objects|
    case Broken => s.main == Awaiting
    case Invalid => s.main == Awaiting
    case CleanNext(k) => s.main.Cleanup? && k in s.main.left && k < |s.objects|
    case Finish => s.main.Cleanup? && s.main.left == {}
    case Begin(k, w) => k < |s.objects| && s.objects[k].At(w) == NotClosing && w != PeerWriter
    case Swap(k, w) => k < |s.objects| && s.objects[k].At(w) == AtSwap
    case SendPacket(k, w) => k < |s.objects| && s.objects[k].At(w) == AtPacket
    case CloseConn(k, w) => k < |s.objects| && s.objects[k].At(w) == AtConn
    case Take(k) => k < |s.objects| && s.objects[k].writer == Waiting && s.objects[k].queue != []
    case Write(k) => k < |s.objects| && s.objects[k].writer.Holding?
    case WriteFails(k, count) =>
      k < |s.objects| && s.objects[k].writer.Holding? && count <= |s.objects[k].writer.data|
      && s.objects[k].peerWriter == NotClosing
    case WriterReturns(k) => k < |s.objects| && s.objects[k].writer == Waiting
  }

  function WithObject(s: State, k: nat, o: Stream): State
    requires k < |s.objects|
  {
    s.(objects := s.objects[k := o])
  }

  /** closePending on one announced id: the stream that the map holds under that id goes. */
  function Drop(s: State, id: nat): State
    requires id in s.streams ==> s.streams[id] < |s.objects|
  {
    if id !in s.streams then s
    else
      var j := s.streams[id];
      var o := s.objects[j];
      WithObject(s, j, o.(queueCloses := o.queueCloses + 1)).(streams := s.streams - {id})
  }

  /** Where the main loop goes on after cleanup(0). */
  function AfterCleanup(todo: Option<set<nat>>): Main {
    if todo.None? then Draining(false) else Cleanup(todo.value)
  }

  /** cleanup(0): an atomic swap, then the connection is closed. */
  function MainSwap(s: State, k: nat, todo: Option<set<nat>>): State
    requires k < |s.objects|
  {
    if s.objects[k].closed then s.(main := AfterCleanup(todo))
    else WithObject(s, k, s.objects[k].(closed := true)).(main := Closing(k, todo))
  }

  /** The map holds positions of existing objects. */
  predicate MapInRange(s: State) {
    forall id :: id in s.streams ==> s.streams[id] < |s.objects|
  }

  function Apply(s: State, step: Step): State
    requires Enabled(s, step) && MapInRange(s)
  {
    match step
    case Receive(k, w) =>
      var o := s.objects[k];
      Drop(WithObject(s, k, o.Put(w, NotClosing)), o.id)
    case StopDraining =>
      if s.main.final then s.(main := Cleanup(s.streams.Values)) else s.(main := Awaiting)
    case Connect(id) =>
      if id in s.streams then s.(main := Draining(false))
      else State(Draining(false), s.streams[id := |s.objects|], s.objects + [NewStream(id)])
    case Data(id, payload) =>
      if id !in s.streams then s.(main := Draining(false))
      else
        var k := s.streams[id];
        var o := s.objects[k];
        WithObject(s, k, o.(accepted := o.accepted + [payload])).(main := Sending(k, payload))
    case Push =>
      var o := s.objects[s.main.k];
      WithObject(s, s.main.k, o.(queue := o.queue + [s.main.payload])).(main := Draining(false))
    case Close(id) =>
      if id !in s.streams then s.(main := Draining(false)) else MainSwap(s, s.streams[id], None)
    case CloseConnOfMain =>
      var o := s.objects[s.main.k];
      WithObject(s, s.main.k, o.(connCloses := o.connCloses + 1)).(main := AfterCleanup(s.main.todo))
    case Broken => s.(main := Draining(true))
    case Invalid => s.(main := Done)
    case CleanNext(k) => MainSwap(s, k, Some(s.main.left - {k}))
    case Finish => s.(main := Done, streams := map[])
    case Begin(k, w) => WithObject(s, k, s.objects[k].Put(w, AtSwap))
    case Swap(k, w) =>
      var o := s.objects[k];
      WithObject(s, k, if o.closed then o.Put(w, NotClosing) else o.(closed := true).Put(w, AtPacket))
    case SendPacket(k, w) =>
      var o := s.objects[k];
      WithObject(s, k, o.(closePackets := o.closePackets + 1).Put(w, AtConn))
    case CloseConn(k, w) =>
      var o := s.objects[k];
      WithObject(s, k, o.(connCloses := o.connCloses + 1).Put(w, AtAnnounce))
    case Take(k) =>
      var o := s.objects[k];
      WithObject(s, k, o.(queue := o.queue[1..], writer := Holding(o.queue[0])))
    case Write(k) =>
      var o := s.objects[k];
      WithObject(s, k, o.(written := o.written + o.writer.data, writer := Waiting))
    case WriteFails(k, count) =>
      var o := s.objects[k];
      WithObject(s, k, o.(written := o.written + o.writer.data[..count], writer := Stopped).Put(PeerWriter, AtSwap))
    case WriterReturns(k) => WithObject(s, k, s.objects[k].(writer := Stopped))
  }

  /** The states that a sequence of steps goes through, from any state on. */
  predicate Path(ss: seq<State>, steps: seq<Step>) {
    && |ss| == |steps| + 1
    && forall i :: 0 <= i < |steps| ==>
         MapInRange(ss[i]) && Enabled(ss[i], steps[i]) && ss[i + 1] == Apply(ss[i], steps[i])
  }

  predicate Run(ss: seq<State>, steps: seq<Step>) {
    Path(ss, steps) && Init(ss[0])
  }

  // ---- The invariant ----

  function One(b: bool): nat {
    if b then 1 else 0
  }

  /** How many hold a won swap of the stream; inMain says that the main loop does. */
  function Winners(o: Stream, inMain: bool): nat {
    One(Winning(o.peerReader)) + One(Winning(o.clientReader)) + One(Winning(o.peerWriter)) + One(inMain)
  }

  /** Calls made so far by a winner that stands at c. */
  predicate CallsOk(o: Stream, c: Closer) {
    && (c == AtPacket ==> o.closePackets == 0 && o.connCloses == 0)
    && (c == AtConn ==> o.closePackets == 1 && o.connCloses == 0)
    && (c == AtAnnounce ==> o.closePackets == 1 && o.connCloses == 1)
  }

  /** What closing keeps for one stream object. */
  predicate CloseOk(o: Stream, inMain: bool) {
    && Winners(o, inMain) <= 1
    && (Winners(o, inMain) == 1 ==> o.closed && o.queueCloses == 0)
    && (!o.closed ==> Winners(o, inMain) == 0 && o.closePackets == 0 && o.connCloses == 0 && o.queueCloses == 0)
    && (inMain ==> o.closePackets == 0 && o.connCloses == 0)
    && CallsOk(o, o.peerReader) && CallsOk(o, o.clientReader) && CallsOk(o, o.peerWriter)
    && o.closePackets <= 1 && o.connCloses <= 1 && o.queueCloses <= 1
  }

  predicate InMain(m: Main, k: nat) {
    m.Closing? && m.k == k
  }

  /** The map is exact: its entries are the objects whose queue is open, each under its own id. */
  predicate MapOk(s: State) {
    && (forall id :: id in s.streams ==>
          s.streams[id] < |s.objects| && s.objects[s.streams[id]].id == id && s.objects[s.streams[id]].queueCloses == 0)
    && (s.main != Done ==> forall k :: 0 <= k < |s.objects| && s.objects[k].queueCloses == 0 ==>
          s.objects[k].id in s.streams && s.streams[s.objects[k].id] == k)
  }

  /** Payloads accepted for the stream and still in the main loop's hands. */
  function InHand(m: Main, k: nat): Bytes {
    if m.Sending? && m.k == k then m.payload else []
  }

  /** The bytes written are the accepted ones in order, up to what is still on its way. */
  predicate DataOk(o: Stream, inHand: Bytes) {
    match o.writer
    case Waiting => o.written + Concat(o.queue) + inHand == Concat(o.accepted)
    case Holding(d) => o.written + d + Concat(o.queue) + inHand == Concat(o.accepted)
    case Stopped => o.written <= Concat(o.accepted)
  }

  predicate MainOk(s: State) {
    match s.main
    case Sending(k, _) => k < |s.objects| && s.objects[k].queueCloses == 0
    case Closing(k, todo) => k < |s.objects| && (todo.Some? ==> forall j :: j in todo.value ==> j < |s.objects|)
    case Cleanup(left) => forall j :: j in left ==> j < |s.objects|
    case _ => true
  }

  predicate Inv(s: State) {
    && MapOk(s)
    && MainOk(s)
    && (forall k :: 0 <= k < |s.objects| ==> CloseOk(s.objects[k], InMain(s.main, k)))
    && (forall k :: 0 <= k < |s.objects| ==> DataOk(s.objects[k], InHand(s.main, k)))
  }

  /** A step that rewrites one object and keeps its id and its queue's state. */
  lemma ObjectInv(s: State, k: nat, o: Stream)
    requires Inv(s) && k < |s.objects|
    requires o.id == s.objects[k].id && o.queueCloses == s.objects[k].queueCloses
    requires CloseOk(o, InMain(s.main, k)) && DataOk(o, InHand(s.main, k))
    ensures Inv(WithObject(s, k, o))
  {
    hide CloseOk, DataOk, Concat;
  }

  /** A step of the main loop that touches no object: it holds no payload and no swap before or after. */
  lemma MainInv(s: State, m: Main)
    requires Inv(s) && !s.main.Sending? && !s.main.Closing? && !m.Sending? && !m.Closing?
    requires s.main != Done && MainOk(s.(main := m))
    ensures Inv(s.(main := m))
  {
    hide CloseOk, DataOk, Concat;
  }

  lemma CloserInv(s: State, k: nat, w: Who, step: Step)
    requires Inv(s) && step in {Begin(k, w), Swap(k, w), SendPacket(k, w), CloseConn(k, w)} && Enabled(s, step)
    ensures Inv(Apply(s, step))
  {
    hide *;
    InRange(s);
    CloserStep(s, k, w, step);
    var o := s.objects[k];
    var p := Moved(o, w, step);
    ObjectParts(s, k);
    MovedOk(o, w, step, InMain(s.main, k), InHand(s.main, k));
    ObjectInv(s, k, p);
  }

  /** The step of a closing goroutine on its stream object. */
  function Moved(o: Stream, w: Who, step: Step): Stream {
    match step
    case Begin(_, _) => o.Put(w, AtSwap)
    case Swap(_, _) => if o.closed then o.Put(w, NotClosing) else o.(closed := true).Put(w, AtPacket)
    case SendPacket(_, _) => o.(closePackets := o.closePackets + 1).Put(w, AtConn)
    case CloseConn(_, _) => o.(connCloses := o.connCloses + 1).Put(w, AtAnnounce)
    case _ => o
  }

  /** Where the goroutine stands before its step. */
  predicate Ready(o: Stream, w: Who, step: Step) {
    match step
    case Begin(_, _) => o.At(w) == NotClosing
    case Swap(_, _) => o.At(w) == AtSwap
    case SendPacket(_, _) => o.At(w) == AtPacket
    case CloseConn(_, _) => o.At(w) == AtConn
    case _ => false
  }

  lemma CloserStep(s: State, k: nat, w: Who, step: Step)
    requires step in {Begin(k, w), Swap(k, w), SendPacket(k, w), CloseConn(k, w)} && Enabled(s, step) && MapInRange(s)
    ensures k < |s.objects| && Ready(s.objects[k], w, step)
    ensures Apply(s, step) == WithObject(s, k, Moved(s.objects[k], w, step))
  {
  }

  lemma InRange(s: State)
    requires Inv(s)
    ensures MapInRange(s)
  {
    hide CloseOk, DataOk;
  }

  lemma ObjectParts(s: State, k: nat)
    requires Inv(s) && k < |s.objects|
    ensures CloseOk(s.objects[k], InMain(s.main, k)) && DataOk(s.objects[k], InHand(s.main, k))
  {
    hide CloseOk, DataOk, MapOk, MainOk;
  }

  lemma MovedOk(o: Stream, w: Who, step: Step, inMain: bool, inHand: Bytes)
    requires CloseOk(o, inMain) && DataOk(o, inHand) && Ready(o, w, step)
    ensures Moved(o, w, step).id == o.id && Moved(o, w, step).queueCloses == o.queueCloses
    ensures CloseOk(Moved(o, w, step), inMain) && DataOk(Moved(o, w, step), inHand)
  {
    hide Concat;
  }

  /** The late close removes the very object it was sent for. */
  lemma ReceiveDropsItself(s: State, k: nat, w: Who)
    requires Inv(s) && s.main != Done && k < |s.objects| && s.objects[k].At(w) == AtAnnounce
    ensures s.objects[k].id in s.streams && s.streams[s.objects[k].id] == k
  {
    hide DataOk;
    assert CloseOk(s.objects[k], InMain(s.main, k));
  }

  lemma ReceiveInv(s: State, k: nat, w: Who)
    requires Inv(s) && Enabled(s, Receive(k, w))
    ensures Inv(Apply(s, Receive(k, w)))
  {
    hide Concat, DataOk, MapOk;
    InRange(s);
    ReceiveDropsItself(s, k, w);
    var o := s.objects[k];
    ObjectParts(s, k);
    SameData(o, o.Put(w, NotClosing).(queueCloses := o.queueCloses + 1), []);
    var p := o.Put(w, NotClosing).(queueCloses := o.queueCloses + 1);
    assert Apply(s, Receive(k, w)) == State(s.main, s.streams - {o.id}, s.objects[k := p]);
    DropInv(s, k, p);
  }

  lemma DropInv(s: State, k: nat, p: Stream)
    requires Inv(s) && k < |s.objects| && !s.main.Sending? && !s.main.Closing?
    requires s.objects[k].id in s.streams && s.streams[s.objects[k].id] == k
    requires p.id == s.objects[k].id && p.queueCloses == 1 && CloseOk(p, false) && DataOk(p, [])
    ensures Inv(State(s.main, s.streams - {p.id}, s.objects[k := p]))
  {
    hide CloseOk, DataOk, Concat;
  }

  lemma ConnectInv(s: State, id: nat)
    requires Inv(s) && s.main == Awaiting
    ensures Inv(Apply(s, Connect(id)))
  {
    hide CloseOk, DataOk, Concat, MapOk;
    if id in s.streams {
      MainInv(s, Draining(false));
    } else {
      NewStreamOk(id);
      NewStreamInv(s, id, NewStream(id));
    }
  }

  lemma NewStreamOk(id: nat)
    ensures CloseOk(NewStream(id), false) && DataOk(NewStream(id), [])
  {
  }

  lemma NewStreamInv(s: State, id: nat, o: Stream)
    requires Inv(s) && s.main == Awaiting && id !in s.streams && o.id == id && o.queueCloses == 0
    requires CloseOk(o, false) && DataOk(o, [])
    ensures Inv(State(Draining(false), s.streams[id := |s.objects|], s.objects + [o]))
  {
    hide CloseOk, DataOk, Concat;
    var t := State(Draining(false), s.streams[id := |s.objects|], s.objects + [o]);
    assert forall k :: 0 <= k < |s.objects| ==> t.objects[k] == s.objects[k];
  }

  /** A step of the main loop that also rewrites the object it works on. */
  lemma MainObjectInv(s: State, m: Main, k: nat, o: Stream)
    requires Inv(s) && k < |s.objects| && s.main != Done
    requires s.main.Sending? ==> s.main.k == k
    requires s.main.Closing? ==> s.main.k == k
    requires m.Sending? ==> m.k == k
    requires m.Closing? ==> m.k == k
    requires o.id == s.objects[k].id && o.queueCloses == s.objects[k].queueCloses
    requires CloseOk(o, InMain(m, k)) && DataOk(o, InHand(m, k))
    requires MainOk(WithObject(s, k, o).(main := m))
    ensures Inv(WithObject(s, k, o).(main := m))
  {
    hide CloseOk, DataOk, Concat, MainOk;
  }

  lemma DataInv(s: State, id: nat, payload: Bytes)
    requires Inv(s) && s.main == Awaiting
    ensures Inv(Apply(s, Data(id, payload)))
  {
    if id !in s.streams {
      MainInv(s, Draining(false));
    } else {
      var k := s.streams[id];
      var o := s.objects[k];
      ConcatSnoc(o.accepted, payload);
      assert DataOk(o, []);
      var p := o.(accepted := o.accepted + [payload]);
      AcceptOk(o, payload);
      MainObjectInv(s, Sending(k, payload), k, p);
    }
  }

  lemma AcceptOk(o: Stream, payload: Bytes)
    requires DataOk(o, [])
    ensures DataOk(o.(accepted := o.accepted + [payload]), payload)
  {
    ConcatSnoc(o.accepted, payload);
    hide Concat;
    if o.writer == Waiting {
      assert o.written + Concat(o.queue) + [] + payload == o.written + Concat(o.queue) + payload;
    } else if o.writer.Holding? {
      var d := o.writer.data;
      assert o.written + d + Concat(o.queue) + [] + payload == o.written + d + Concat(o.queue) + payload;
    }
  }

  lemma PushOk(o: Stream, payload: Bytes)
    requires DataOk(o, payload)
    ensures DataOk(o.(queue := o.queue + [payload]), [])
  {
    ConcatSnoc(o.queue, payload);
    hide Concat;
    var q := Concat(o.queue);
    if o.writer == Waiting {
      assert o.written + (q + payload) + [] == o.written + q + payload;
    } else if o.writer.Holding? {
      var d := o.writer.data;
      assert o.written + d + (q + payload) + [] == o.written + d + q + payload;
    }
  }

  lemma PushInv(s: State)
    requires Inv(s) && Enabled(s, Push)
    ensures Inv(Apply(s, Push))
  {
    hide DataOk, Concat, MapOk;
    var k := s.main.k;
    var o := s.objects[k];
    ObjectParts(s, k);
    PushOk(o, s.main.payload);
    MainObjectInv(s, Draining(false), k, o.(queue := o.queue + [s.main.payload]));
  }

  lemma MainSwapInv(s: State, k: nat, todo: Option<set<nat>>)
    requires Inv(s) && k < |s.objects| && (s.main == Awaiting || s.main.Cleanup?)
    requires todo.Some? ==> forall j :: j in todo.value ==> j < |s.objects|
    ensures Inv(MainSwap(s, k, todo))
  {
    var o := s.objects[k];
    if o.closed {
      MainInv(s, AfterCleanup(todo));
    } else {
      assert DataOk(o, InHand(s.main, k)) && CloseOk(o, InMain(s.main, k));
      hide Concat;
      MainObjectInv(s, Closing(k, todo), k, o.(closed := true));
    }
  }

  lemma SameData(o: Stream, p: Stream, inHand: Bytes)
    requires DataOk(o, inHand)
    requires p.writer == o.writer && p.queue == o.queue && p.accepted == o.accepted && p.written == o.written
    ensures DataOk(p, inHand)
  {
    hide Concat;
  }

  lemma CloseConnOfMainInv(s: State)
    requires Inv(s) && Enabled(s, CloseConnOfMain)
    ensures Inv(Apply(s, CloseConnOfMain))
  {
    hide Concat, DataOk, MapOk;
    var k := s.main.k;
    var o := s.objects[k];
    ObjectParts(s, k);
    var p := o.(connCloses := o.connCloses + 1);
    SameData(o, p, []);
    MainObjectInv(s, AfterCleanup(s.main.todo), k, p);
  }

  lemma WriterInv(s: State, k: nat, step: Step)
    requires Inv(s) && Enabled(s, step)
    requires step in {Take(k), Write(k), WriterReturns(k)} || (step.WriteFails? && step.k == k)
    ensures Inv(Apply(s, step))
  {
    hide *;
    InRange(s);
    WriterStep(s, k, step);
    var o := s.objects[k];
    var p := Apply(s, step).objects[k];
    ObjectParts(s, k);
    WriterOk(o, p, InHand(s.main, k), step);
    WriterCloseOk(o, p, InMain(s.main, k), step);
    ObjectInv(s, k, p);
  }

  /** The step of the peer-write loop on its stream object. */
  predicate Wrote(o: Stream, p: Stream, step: Step) {
    || (step.Take? && o.writer == Waiting && o.queue != []
        && p == o.(queue := o.queue[1..], writer := Holding(o.queue[0])))
    || (step.Write? && o.writer.Holding? && p == o.(written := o.written + o.writer.data, writer := Waiting))
    || (step.WriterReturns? && o.writer == Waiting && p == o.(writer := Stopped))
    || (step.WriteFails? && o.writer.Holding? && step.count <= |o.writer.data| && o.peerWriter == NotClosing
        && p == o.(written := o.written + o.writer.data[..step.count], writer := Stopped, peerWriter := AtSwap))
  }

  lemma WriterStep(s: State, k: nat, step: Step)
    requires MapInRange(s) && Enabled(s, step)
    requires step in {Take(k), Write(k), WriterReturns(k)} || (step.WriteFails? && step.k == k)
    ensures k < |s.objects| && |Apply(s, step).objects| == |s.objects|
    ensures var p := Apply(s, step).objects[k];
      Wrote(s.objects[k], p, step) && Apply(s, step) == WithObject(s, k, p)
  {
  }

  lemma WriterCloseOk(o: Stream, p: Stream, inMain: bool, step: Step)
    requires CloseOk(o, inMain) && Wrote(o, p, step)
    ensures p.id == o.id && p.queueCloses == o.queueCloses && CloseOk(p, inMain)
  {
  }

  lemma WriterOk(o: Stream, p: Stream, inHand: Bytes, step: Step)
    requires DataOk(o, inHand) && Wrote(o, p, step)
    ensures DataOk(p, inHand)
  {
    if step.Take? {
      ConcatHead(o.queue);
      hide Concat;
      var d, q := o.queue[0], Concat(o.queue[1..]);
      assert o.written + (d + q) + inHand == o.written + d + q + inHand;
    }
  }

  /** Every step keeps the invariant. */
  lemma NextInv(s: State, step: Step)
    requires Inv(s) && Enabled(s, step)
    ensures MapInRange(s) && Inv(Apply(s, step))
  {
    hide CloseOk, DataOk, Concat;
    match step
    case Receive(k, w) => ReceiveInv(s, k, w);
    case StopDraining => MainInv(s, if s.main.final then Cleanup(s.streams.Values) else Awaiting);
    case Connect(id) => ConnectInv(s, id);
    case Data(id, payload) => DataInv(s, id, payload);
    case Push => PushInv(s);
    case Close(id) => if id in s.streams { MainSwapInv(s, s.streams[id], None); } else { MainInv(s, Draining(false)); }
    case CloseConnOfMain => CloseConnOfMainInv(s);
    case Broken => MainInv(s, Draining(true));
    case Invalid => MainInv(s, Done);
    case CleanNext(k) => MainSwapInv(s, k, Some(s.main.left - {k}));
    case Finish => MainInv(s, Done);
    case Begin(k, w) => CloserInv(s, k, w, step);
    case Swap(k, w) => CloserInv(s, k, w, step);
    case SendPacket(k, w) => CloserInv(s, k, w, step);
    case CloseConn(k, w) => CloserInv(s, k, w, step);
    case Take(k) => WriterInv(s, k, step);
    case Write(k) => WriterInv(s, k, step);
    case WriteFails(k, _) => WriterInv(s, k, step);
    case WriterReturns(k) => WriterInv(s, k, step);
  }

  lemma {:induction false} PathInv(ss: seq<State>, steps: seq<Step>)
    requires Path(ss, steps) && Inv(ss[0])
    ensures Inv(ss[|steps|])
    decreases |steps|
  {
    hide Inv, Apply, Enabled;
    if steps != [] {
      var n := |steps| - 1;
      assert Path(ss[..n + 1], steps[..n]);
      PathInv(ss[..n + 1], steps[..n]);
      NextInv(ss[n], steps[n]);
    }
  }

  lemma RunInv(ss: seq<State>, steps: seq<Step>)
    requires Run(ss, steps)
    ensures Inv(ss[|steps|])
  {
    PathInv(ss, steps);
  }

  // ---- What holds in every interleaving ----

  /** An id pending on closeCh names the stream object that the map still holds. */
  lemma PendingIdIsCurrent(ss: seq<State>, steps: seq<Step>, k: nat, w: Who)
    requires Run(ss, steps)
    requires var s := ss[|steps|]; s.main != Done && k < |s.objects| && s.objects[k].At(w) == AtAnnounce
    ensures var s := ss[|steps|]; s.objects[k].id in s.streams && s.streams[s.objects[k].id] == k
  {
    RunInv(ss, steps);
    ReceiveDropsItself(ss[|steps|], k, w);
  }

  /** Receiving a close changes no other stream, even one that is connected later under the same id. */
  lemma LateCloseIsOwn(ss: seq<State>, steps: seq<Step>, k: nat, w: Who, j: nat)
    requires Run(ss, steps) && Enabled(ss[|steps|], Receive(k, w)) && j < |ss[|steps|].objects| && j != k
    ensures MapInRange(ss[|steps|])
    ensures var s, s' := ss[|steps|], Apply(ss[|steps|], Receive(k, w));
      s'.objects[j] == s.objects[j] && (j in s.streams.Values ==> j in s'.streams.Values)
  {
    RunInv(ss, steps);
    var s := ss[|steps|];
    ReceiveDropsItself(s, k, w);
    if j in s.streams.Values {
      assert s.streams[s.objects[j].id] == j;
      assert s.objects[j].id in s.streams - {s.objects[k].id};
    }
  }

  /** The write queue is closed at most once and never used afterwards; each stream sends at most one
      CLOSE packet and closes its connection at most once. */
  lemma AtMostOnce(ss: seq<State>, steps: seq<Step>, k: nat)
    requires Run(ss, steps) && k < |ss[|steps|].objects|
    ensures var o := ss[|steps|].objects[k]; o.queueCloses <= 1 && o.closePackets <= 1 && o.connCloses <= 1
    ensures var s := ss[|steps|]; s.main.Sending? && s.main.k == k ==> s.objects[k].queueCloses == 0
  {
    RunInv(ss, steps);
    hide DataOk;
    assert CloseOk(ss[|steps|].objects[k], InMain(ss[|steps|].main, k));
  }

  /** What reaches the peer is a prefix of the payloads the client sent, whatever closes when. */
  lemma WrittenPrefix(ss: seq<State>, steps: seq<Step>, k: nat)
    requires Run(ss, steps) && k < |ss[|steps|].objects|
    ensures var o := ss[|steps|].objects[k]; o.written <= Concat(o.accepted)
  {
    RunInv(ss, steps);
    hide CloseOk;
    var s := ss[|steps|];
    assert DataOk(s.objects[k], InHand(s.main, k));
  }

  // ---- A main loop that never goes on ----

  /** The main loop waits to put a payload into a full queue that nobody takes from any more. */
  predicate Wedged(s: State) {
    && s.main.Sending? && s.main.k < |s.objects|
    && s.objects[s.main.k].writer == Stopped && s.objects[s.main.k].queue != []
  }

  lemma WedgedStays(s: State, step: Step)
    requires Wedged(s) && MapInRange(s) && Enabled(s, step)
    ensures Wedged(Apply(s, step)) && Apply(s, step).main == s.main
  {
  }

  lemma {:induction false} WedgedForever(ss: seq<State>, steps: seq<Step>)
    requires Path(ss, steps) && Wedged(ss[0])
    ensures Wedged(ss[|steps|]) && ss[|steps|].main == ss[0].main
    decreases |steps|
  {
    hide Wedged, Apply, Enabled;
    if steps != [] {
      var n := |steps| - 1;
      assert Path(ss[..n + 1], steps[..n]);
      WedgedForever(ss[..n + 1], steps[..n]);
      WedgedStays(ss[n], steps[n]);
    }
  }

  /** One step of the peer-write loop towards an empty queue. */
  function Towards(o: Stream, k: nat): Step {
    if o.writer == Waiting then Take(k) else Write(k)
  }

  lemma TakesOne(s: State)
    requires Inv(s) && s.main.Sending? && s.main.k < |s.objects| && !Wedged(s) && s.objects[s.main.k].queue != []
    ensures var k, o := s.main.k, s.objects[s.main.k];
      && MapInRange(s) && Enabled(s, Towards(o, k))
      && var t := Apply(s, Towards(o, k));
         && t.main == s.main && |t.objects| == |s.objects| && !Wedged(t)
         && Left(t.objects[k]) < Left(o)
  {
    hide CloseOk, DataOk, MapOk;
    InRange(s);
  }

  function Left(o: Stream): nat {
    2 * |o.queue| + if o.writer.Holding? then 1 else 0
  }

  /** Otherwise the peer-write loop can make room. */
  lemma {:induction false} PushPossible(s: State) returns (ss: seq<State>, steps: seq<Step>)
    requires Inv(s) && s.main.Sending? && s.main.k < |s.objects| && !Wedged(s)
    ensures Path(ss, steps) && ss[0] == s && Enabled(ss[|steps|], Push)
    decreases Left(s.objects[s.main.k])
  {
    var o := s.objects[s.main.k];
    if o.queue == [] {
      ss, steps := [s], [];
    } else {
      hide Inv, Apply, Enabled, Wedged, Left, Path;
      TakesOne(s);
      var step := Towards(o, s.main.k);
      NextInv(s, step);
      var rest, more := PushPossible(Apply(s, step));
      PathCons(s, step, rest, more);
      ss, steps := [s] + rest, [step] + more;
    }
  }

  lemma PathCons(s: State, step: Step, rest: seq<State>, more: seq<Step>)
    requires Path(rest, more) && MapInRange(s) && Enabled(s, step) && rest[0] == Apply(s, step)
    ensures Path([s] + rest, [step] + more) && ([s] + rest)[|more| + 1] == rest[|more|]
  {
    hide Apply, Enabled, MapInRange;
    var ss, steps := [s] + rest, [step] + more;
    forall i | 0 <= i < |steps|
      ensures MapInRange(ss[i]) && Enabled(ss[i], steps[i]) && ss[i + 1] == Apply(ss[i], steps[i])
    {
      if i > 0 {
        assert ss[i] == rest[i - 1] && steps[i] == more[i - 1] && ss[i + 1] == rest[i];
      }
    }
  }

  ghost predicate GoesOn(s: State) {
    exists ss, steps :: Path(ss, steps) && ss[0] == s && Enabled(ss[|steps|], Push)
  }

  /** A main loop that sends to a queue goes on in some interleaving, exactly unless it is wedged. */
  lemma GoesOnExactly(s: State)
    requires Inv(s) && s.main.Sending?
    ensures GoesOn(s) <==> !Wedged(s)
  {
    hide Apply;
    assert s.main.k < |s.objects|;
    if Wedged(s) && GoesOn(s) {
      var ss, steps :| Path(ss, steps) && ss[0] == s && Enabled(ss[|steps|], Push);
      WedgedForever(ss, steps);
      assert false;
    }
    if !Wedged(s) {
      var ss, steps := PushPossible(s);
    }
  }

  lemma Extend(ss: seq<State>, steps: seq<Step>, step: Step, next: State)
    requires Run(ss, steps) && MapInRange(ss[|steps|]) && Enabled(ss[|steps|], step) && Apply(ss[|steps|], step) == next
    ensures Run(ss + [next], steps + [step]) && (ss + [next])[|steps + [step]|] == next
  {
    hide Apply, Enabled, MapInRange;
  }

  /** The next payload for the only stream is accepted. */
  lemma AcceptStep(ss: seq<State>, steps: seq<Step>, o: Stream, x: Bytes) returns (ss': seq<State>, steps': seq<Step>)
    requires Run(ss, steps) && ss[|steps|] == State(Draining(false), map[1 := 0], [o])
    ensures Run(ss', steps')
    ensures ss'[|steps'|] == State(Sending(0, x), map[1 := 0], [o.(accepted := o.accepted + [x])])
  {
    var s := ss[|steps|];
    Extend(ss, steps, StopDraining, s.(main := Awaiting));
    ss', steps' := ss + [s.(main := Awaiting)], steps + [StopDraining];
    var p := o.(accepted := o.accepted + [x]);
    assert [o][0 := p] == [p];
    Extend(ss', steps', Data(1, x), State(Sending(0, x), map[1 := 0], [p]));
    ss', steps' := ss' + [State(Sending(0, x), map[1 := 0], [p])], steps' + [Data(1, x)];
  }

  /** A step that changes the only stream. */
  lemma ObjectStep(ss: seq<State>, steps: seq<Step>, step: Step, m: Main, o: Stream, p: Stream)
    returns (ss': seq<State>, steps': seq<Step>)
    requires Run(ss, steps) && ss[|steps|] == State(m, map[1 := 0], [o]) && Enabled(ss[|steps|], step)
    requires
      || (step == Push && p == o.(queue := o.queue + [m.payload]))
      || (step == Take(0) && p == o.(queue := o.queue[1..], writer := Holding(o.queue[0])))
      || (step == WriteFails(0, 0) && p == o.(writer := Stopped, peerWriter := AtSwap))
    ensures Run(ss', steps')
    ensures ss'[|steps'|] == State(if step == Push then Draining(false) else m, map[1 := 0], [p])
  {
    var t := State(if step == Push then Draining(false) else m, map[1 := 0], [p]);
    assert [o][0 := p] == [p];
    if step.WriteFails? {
      assert o.written + o.writer.data[..0] == o.written;
    }
    Extend(ss, steps, step, t);
    ss', steps' := ss + [t], steps + [step];
  }

  lemma ConnectStep() returns (ss: seq<State>, steps: seq<Step>)
    ensures Run(ss, steps) && ss[|steps|] == State(Draining(false), map[1 := 0], [NewStream(1)])
  {
    var s := State(Draining(false), map[], []);
    ss, steps := [s], [];
    Extend(ss, steps, StopDraining, s.(main := Awaiting));
    ss, steps := ss + [s.(main := Awaiting)], steps + [StopDraining];
    var t := State(Draining(false), map[1 := 0], [NewStream(1)]);
    assert map[][1 := 0] == map[1 := 0] && [] + [NewStream(1)] == [NewStream(1)];
    Extend(ss, steps, Connect(1), t);
    ss, steps := ss + [t], steps + [Connect(1)];
  }

  /** A run that wedges the main loop: a write to the peer fails while two more payloads are coming. */
  lemma WedgeWitness(x: Bytes) returns (ss: seq<State>, steps: seq<Step>)
    ensures Run(ss, steps) && Wedged(ss[|steps|])
  {
    hide Run, Apply;
    var o := NewStream(1);
    ss, steps := ConnectStep();
    ss, steps := AcceptStep(ss, steps, o, x);
    var o1 := o.(accepted := o.accepted + [x]);
    var o2 := o1.(queue := o1.queue + [x]);
    ss, steps := ObjectStep(ss, steps, Push, Sending(0, x), o1, o2);
    var o3 := o2.(queue := o2.queue[1..], writer := Holding(o2.queue[0]));
    ss, steps := ObjectStep(ss, steps, Take(0), Draining(false), o2, o3);
    var o4 := o3.(writer := Stopped, peerWriter := AtSwap);
    ss, steps := ObjectStep(ss, steps, WriteFails(0, 0), Draining(false), o3, o4);
    ss, steps := AcceptStep(ss, steps, o4, x);
    var o5 := o4.(accepted := o4.accepted + [x]);
    var o6 := o5.(queue := o5.queue + [x]);
    ss, steps := ObjectStep(ss, steps, Push, Sending(0, x), o5, o6);
    ss, steps := AcceptStep(ss, steps, o6, x);
  }

  // ---- A stream that the client closes ----

  /** Closed with nobody left to announce it: the queue will not be closed. */
  predicate Leaked(s: State, k: nat) {
    && k < |s.objects| && s.objects[k].closed && s.objects[k].queueCloses == 0
    && !Winning(s.objects[k].peerReader) && !Winning(s.objects[k].clientReader) && !Winning(s.objects[k].peerWriter)
  }

  /** The CLOSE packet that is the first to close a stream leaves it behind. */
  lemma CloseLeaks(s: State, id: nat)
    requires Inv(s) && s.main == Awaiting && id in s.streams && s.streams[id] < |s.objects|
    requires !s.objects[s.streams[id]].closed
    ensures MapInRange(s) && Leaked(Apply(s, Close(id)), s.streams[id])
  {
    hide DataOk;
    var k := s.streams[id];
    ObjectParts(s, k);
    assert s.objects[k].id == id;
  }

  lemma LeakedStays(s: State, k: nat, step: Step)
    requires Inv(s) && Leaked(s, k) && Enabled(s, step)
    ensures MapInRange(s) && Leaked(Apply(s, step), k)
  {
    hide DataOk, CloseOk, MapOk, MainOk, Concat;
    InRange(s);
    if step.Receive? {
      ReceiveDropsItself(s, step.k, step.who);
    }
  }

  /** Until the handler ends, such a stream keeps its place in the map, and no new one gets its id. */
  lemma {:induction false} LeakedForever(ss: seq<State>, steps: seq<Step>, k: nat)
    requires Path(ss, steps) && Inv(ss[0]) && Leaked(ss[0], k)
    ensures Leaked(ss[|steps|], k)
    ensures var s := ss[|steps|];
      s.main != Done ==> s.objects[k].id in s.streams && s.streams[s.objects[k].id] == k
    decreases |steps|
  {
    hide Inv, Apply, Enabled, Leaked;
    PathInv(ss, steps);
    if steps != [] {
      var n := |steps| - 1;
      assert Path(ss[..n + 1], steps[..n]);
      LeakedForever(ss[..n + 1], steps[..n], k);
      PathInv(ss[..n + 1], steps[..n]);
      LeakedStays(ss[n], k, steps[n]);
    }
    LeakedHeld(ss[|steps|], k);
  }

  lemma LeakedHeld(s: State, k: nat)
    requires Inv(s) && Leaked(s, k)
    ensures k < |s.objects|
    ensures s.main != Done ==> s.objects[k].id in s.streams && s.streams[s.objects[k].id] == k
  {
    hide DataOk, CloseOk;
  }

  // ---- What a finished handler has closed ----

  /** Every object that is not closed yet is among those that the loop over the remaining streams has
      still to visit. */
  predicate LeftOver(s: State, left: set<nat>) {
    forall k :: 0 <= k < |s.objects| && !s.objects[k].closed ==> k in left
  }

  /** Between winning the swap and closing the connection. */
  predicate Acting(c: Closer) {
    c == AtPacket || c == AtConn
  }

  /** A closed stream's connection has been closed, or whoever closed the stream is about to do so. */
  predicate Released(o: Stream, inMain: bool) {
    o.closed ==>
      o.connCloses == 1 || inMain || Acting(o.peerReader) || Acting(o.clientReader) || Acting(o.peerWriter)
  }

  predicate Swept(s: State) {
    && (s.main.Cleanup? ==> LeftOver(s, s.main.left))
    && (s.main.Closing? && s.main.todo.Some? ==> LeftOver(s, s.main.todo.value))
    && forall k :: 0 <= k < |s.objects| ==> Released(s.objects[k], InMain(s.main, k))
  }

  /** A step of a goroutine on one stream. */
  lemma ObjectSwept(s: State, k: nat, p: Stream)
    requires Swept(s) && k < |s.objects| && (s.objects[k].closed ==> p.closed) && Released(p, InMain(s.main, k))
    ensures Swept(WithObject(s, k, p))
  {
    hide Released;
  }

  lemma MovedReleased(o: Stream, w: Who, step: Step, inMain: bool)
    requires CloseOk(o, inMain) && Released(o, inMain) && Ready(o, w, step)
    ensures Released(Moved(o, w, step), inMain) && (o.closed ==> Moved(o, w, step).closed)
  {
  }

  lemma CloserSwept(s: State, k: nat, w: Who, step: Step)
    requires step in {Begin(k, w), Swap(k, w), SendPacket(k, w), CloseConn(k, w)}
    requires Inv(s) && Swept(s) && Enabled(s, step) && MapInRange(s)
    ensures Swept(Apply(s, step))
  {
    hide *;
    CloserStep(s, k, w, step);
    ObjectParts(s, k);
    SweptAt(s, k);
    MovedReleased(s.objects[k], w, step, InMain(s.main, k));
    ObjectSwept(s, k, Moved(s.objects[k], w, step));
  }

  lemma SweptAt(s: State, k: nat)
    requires Swept(s) && k < |s.objects|
    ensures Released(s.objects[k], InMain(s.main, k))
  {
  }

  lemma WriterSwept(s: State, k: nat, step: Step)
    requires step in {Take(k), Write(k), WriterReturns(k)} || (step.WriteFails? && step.k == k)
    requires Inv(s) && Swept(s) && Enabled(s, step) && MapInRange(s)
    ensures Swept(Apply(s, step))
  {
    hide Inv, Apply, Enabled, MapInRange, Swept;
    WriterStep(s, k, step);
    SweptAt(s, k);
    ObjectSwept(s, k, Apply(s, step).objects[k]);
  }

  /** A stream that is not closed is in the map, as long as the handler has one. */
  lemma OpenIsMapped(s: State, k: nat)
    requires Inv(s) && s.main != Done && k < |s.objects| && !s.objects[k].closed
    ensures k in s.streams.Values
  {
    hide DataOk;
    ObjectParts(s, k);
    assert s.streams[s.objects[k].id] == k;
  }

  /** The steps of the main loop. */
  lemma MainSwept(s: State, step: Step)
    requires step.StopDraining? || step.Connect? || step.Data? || step.Push?
      || step.Broken? || step.Invalid? || step.Finish?
    requires Inv(s) && Swept(s) && Enabled(s, step) && MapInRange(s)
    ensures Swept(Apply(s, step))
  {
    hide DataOk, CloseOk, MapOk, Inv;
    var t := Apply(s, step);
    if step.StopDraining? && s.main.final {
      forall k | 0 <= k < |s.objects| && !s.objects[k].closed ensures k in s.streams.Values {
        OpenIsMapped(s, k);
      }
    }
  }

  lemma MainSwapSwept(s: State, k: nat, todo: Option<set<nat>>)
    requires Inv(s) && Swept(s) && k < |s.objects| && (s.main == Awaiting || s.main.Cleanup?)
    requires s.main == Awaiting ==> todo == None
    requires s.main.Cleanup? ==> todo == Some(s.main.left - {k})
    ensures Swept(MainSwap(s, k, todo))
  {
    hide DataOk, CloseOk, MapOk, Inv;
  }

  lemma CloseConnOfMainSwept(s: State)
    requires Inv(s) && Swept(s) && Enabled(s, CloseConnOfMain) && MapInRange(s)
    ensures Swept(Apply(s, CloseConnOfMain))
  {
    hide DataOk, MapOk, MainOk, Inv;
    ObjectParts(s, s.main.k);
  }

  lemma ReceiveSwept(s: State, k: nat, w: Who)
    requires Inv(s) && Swept(s) && Enabled(s, Receive(k, w)) && MapInRange(s)
    ensures Swept(Apply(s, Receive(k, w)))
  {
    hide DataOk, MapOk, MainOk, Inv;
    ObjectParts(s, k);
    ReceiveDropsItself(s, k, w);
  }

  lemma NextSwept(s: State, step: Step)
    requires Inv(s) && Swept(s) && Enabled(s, step)
    ensures MapInRange(s) && Swept(Apply(s, step))
  {
    InRange(s);
    hide Inv, Swept, Apply;
    match step
    case Receive(k, w) => ReceiveSwept(s, k, w);
    case Close(id) => CloseSwept(s, id);
    case CloseConnOfMain => CloseConnOfMainSwept(s);
    case CleanNext(k) => CleanSwept(s, k);
    case Begin(k, w) => CloserSwept(s, k, w, step);
    case Swap(k, w) => CloserSwept(s, k, w, step);
    case SendPacket(k, w) => CloserSwept(s, k, w, step);
    case CloseConn(k, w) => CloserSwept(s, k, w, step);
    case Take(k) => WriterSwept(s, k, step);
    case Write(k) => WriterSwept(s, k, step);
    case WriteFails(k, _) => WriterSwept(s, k, step);
    case WriterReturns(k) => WriterSwept(s, k, step);
    case _ => MainSwept(s, step);
  }

  lemma CloseSwept(s: State, id: nat)
    requires Inv(s) && Swept(s) && Enabled(s, Close(id)) && MapInRange(s)
    ensures Swept(Apply(s, Close(id)))
  {
    hide Inv, Swept, MainSwap;
    if id in s.streams {
      MainSwapSwept(s, s.streams[id], None);
    } else {
      IdleSwept(s);
    }
  }

  lemma IdleSwept(s: State)
    requires Swept(s) && s.main == Awaiting
    ensures Swept(s.(main := Draining(false)))
  {
    hide Released;
  }

  lemma CleanSwept(s: State, k: nat)
    requires Inv(s) && Swept(s) && Enabled(s, CleanNext(k)) && MapInRange(s)
    ensures Swept(Apply(s, CleanNext(k)))
  {
    hide Inv, Swept, MainSwap;
    MainSwapSwept(s, k, Some(s.main.left - {k}));
  }

  lemma {:induction false} PathSwept(ss: seq<State>, steps: seq<Step>)
    requires Path(ss, steps) && Inv(ss[0]) && Swept(ss[0])
    ensures Inv(ss[|steps|]) && Swept(ss[|steps|])
    decreases |steps|
  {
    hide Inv, Swept, Apply, Enabled;
    PathInv(ss, steps);
    if steps != [] {
      var n := |steps| - 1;
      assert Path(ss[..n + 1], steps[..n]);
      PathSwept(ss[..n + 1], steps[..n]);
      NextSwept(ss[n], steps[n]);
    }
  }

  /** A handler that has finished its loop over the remaining streams leaves none open: every connection
      has been closed, once, or a goroutine that has closed the stream is about to do it. */
  lemma FinishClosesAll(ss: seq<State>, steps: seq<Step>, k: nat)
    requires Run(ss, steps) && steps != [] && steps[|steps| - 1] == Finish && k < |ss[|steps|].objects|
    ensures var o := ss[|steps|].objects[k];
      o.closed && (o.connCloses == 1 || Acting(o.peerReader) || Acting(o.clientReader) || Acting(o.peerWriter))
  {
    var n := |steps| - 1;
    assert Path(ss[..n + 1], steps[..n]);
    PathSwept(ss[..n + 1], steps[..n]);
    hide Inv;
    var s := ss[n];
    assert LeftOver(s, {});
    SweptAt(s, k);
  }

  /** Such a run: the connection to the client breaks while a stream is open. */
  lemma FinishWitness() returns (ss: seq<State>, steps: seq<Step>)
    ensures Run(ss, steps) && steps != [] && steps[|steps| - 1] == Finish
    ensures var s := ss[|steps|]; s.main == Done && s.streams == map[] && |s.objects| == 1 && s.objects[0].closed
  {
    hide Run;
    ss, steps := ConnectStep();
    var o, m := NewStream(1), map[1 := 0];
    assert m[1] == 0 && m.Values == {0};
    ss, steps := Then(ss, steps, StopDraining, State(Awaiting, m, [o]));
    ss, steps := Then(ss, steps, Broken, State(Draining(true), m, [o]));
    ss, steps := Then(ss, steps, StopDraining, State(Cleanup({0}), m, [o]));
    ss, steps := CleanSteps(ss, steps, o);
  }

  lemma CleanSteps(ss: seq<State>, steps: seq<Step>, o: Stream) returns (ss': seq<State>, steps': seq<Step>)
    requires Run(ss, steps) && ss[|steps|] == State(Cleanup({0}), map[1 := 0], [o]) && !o.closed && o.connCloses == 0
    ensures Run(ss', steps') && steps' != [] && steps'[|steps'| - 1] == Finish
    ensures ss'[|steps'|] == State(Done, map[], [o.(closed := true, connCloses := 1)])
  {
    hide Run;
    var m, p := map[1 := 0], o.(closed := true);
    var q := p.(connCloses := 1);
    assert {0} - {0} == {} && [o][0 := p] == [p] && [p][0 := q] == [q];
    ss', steps' := Then(ss, steps, CleanNext(0), State(Closing(0, Some({})), m, [p]));
    ss', steps' := Then(ss', steps', CloseConnOfMain, State(Cleanup({}), m, [q]));
    ss', steps' := Then(ss', steps', Finish, State(Done, map[], [q]));
  }

  lemma Then(ss: seq<State>, steps: seq<Step>, step: Step, next: State) returns (ss': seq<State>, steps': seq<Step>)
    requires Run(ss, steps) && MapInRange(ss[|steps|]) && Enabled(ss[|steps|], step) && Apply(ss[|steps|], step) == next
    ensures Run(ss', steps') && ss'[|steps'|] == next && steps' == steps + [step]
  {
    hide Apply, Enabled, MapInRange;
    Extend(ss, steps, step, next);
    ss', steps' := ss + [next], steps + [step];
  }

  /** An invalid packet ends the handler too, but without that loop: a stream may stay open. */
  lemma InvalidWitness() returns (ss: seq<State>, steps: seq<Step>)
    ensures Run(ss, steps) && ss[|steps|].main == Done && |ss[|steps|].objects| == 1 && !ss[|steps|].objects[0].closed
  {
    hide Run;
    ss, steps := ConnectStep();
    ss, steps := Then(ss, steps, StopDraining, State(Awaiting, map[1 := 0], [NewStream(1)]));
    ss, steps := Then(ss, steps, Invalid, State(Done, map[1 := 0], [NewStream(1)]));
  }

  /** Nobody receives from closeCh any more once the handler is done: a goroutine that announces a close
      then does so for ever. */
  lemma {:induction false} AnnouncesForever(ss: seq<State>, steps: seq<Step>, k: nat, w: Who)
    requires Path(ss, steps) && ss[0].main == Done && k < |ss[0].objects| && ss[0].objects[k].At(w) == AtAnnounce
    ensures var s := ss[|steps|]; s.main == Done && k < |s.objects| && s.objects[k].At(w) == AtAnnounce
    decreases |steps|
  {
    hide Apply, Enabled;
    if steps != [] {
      var n := |steps| - 1;
      assert Path(ss[..n + 1], steps[..n]);
      AnnouncesForever(ss[..n + 1], steps[..n], k, w);
      AnnounceStays(ss[n], steps[n], k, w);
    }
  }

  lemma AnnounceStays(s: State, step: Step, k: nat, w: Who)
    requires MapInRange(s) && Enabled(s, step) && s.main == Done && k < |s.objects| && s.objects[k].At(w) == AtAnnounce
    ensures var t := Apply(s, step); t.main == Done && k < |t.objects| && t.objects[k].At(w) == AtAnnounce
  {
  }

  // ---- A close from beginning to end ----

  /** A goroutine that is the first to close a stream sends one CLOSE packet, closes the connection, and
      announces the close; the main loop then closes the queue and forgets the stream. */
  lemma ClosesInOrder(s: State, k: nat, w: Who) returns (s1: State, s2: State, s3: State, s4: State)
    requires Inv(s) && s.main.Draining? && k < |s.objects|
    requires !s.objects[k].closed && w != PeerWriter && s.objects[k].At(w) == NotClosing
    ensures MapInRange(s) && Enabled(s, Begin(k, w)) && s1 == Apply(s, Begin(k, w))
    ensures MapInRange(s1) && Enabled(s1, Swap(k, w)) && s2 == Apply(s1, Swap(k, w))
    ensures MapInRange(s2) && Enabled(s2, SendPacket(k, w)) && s3 == Apply(s2, SendPacket(k, w))
    ensures MapInRange(s3) && Enabled(s3, CloseConn(k, w)) && s4 == Apply(s3, CloseConn(k, w))
    ensures MapInRange(s4) && Enabled(s4, Receive(k, w)) && s.objects[k].id in s.streams
    ensures Apply(s4, Receive(k, w)) == State(s.main, s.streams - {s.objects[k].id},
      s.objects[k := s.objects[k].(closed := true, closePackets := 1, connCloses := 1, queueCloses := 1)])
  {
    hide Inv, Apply, Enabled;
    InRange(s);
    FreshStream(s, k);
    var o := s.objects[k];
    s1, s2 := Swapped(s, k, w);
    s3, s4 := Announced(s2, k, w);
    var p := o.(closed := true, closePackets := 1, connCloses := 1, queueCloses := 1);
    assert p == s4.objects[k].Put(w, NotClosing).(queueCloses := 1);
    Forgotten(s, k, w, s4, p);
  }

  lemma Swapped(s: State, k: nat, w: Who) returns (s1: State, s2: State)
    requires MapInRange(s) && k < |s.objects| && !s.objects[k].closed && w != PeerWriter
    requires s.objects[k].At(w) == NotClosing
    ensures Enabled(s, Begin(k, w)) && s1 == Apply(s, Begin(k, w))
    ensures MapInRange(s1) && Enabled(s1, Swap(k, w)) && s2 == Apply(s1, Swap(k, w)) && MapInRange(s2)
    ensures s2 == WithObject(s, k, s.objects[k].(closed := true).Put(w, AtPacket))
  {
    var o := s.objects[k];
    s1 := Stepped(s, k, Begin(k, w), o, o.Put(w, AtSwap));
    s2 := Stepped(s1, k, Swap(k, w), o.Put(w, AtSwap), o.(closed := true).Put(w, AtPacket));
  }

  lemma Announced(s: State, k: nat, w: Who) returns (s1: State, s2: State)
    requires MapInRange(s) && k < |s.objects| && s.objects[k].At(w) == AtPacket
    ensures Enabled(s, SendPacket(k, w)) && s1 == Apply(s, SendPacket(k, w))
    ensures MapInRange(s1) && Enabled(s1, CloseConn(k, w)) && s2 == Apply(s1, CloseConn(k, w)) && MapInRange(s2)
    ensures var o := s.objects[k];
      s2 == WithObject(s, k, o.(closePackets := o.closePackets + 1, connCloses := o.connCloses + 1).Put(w, AtAnnounce))
  {
    var o := s.objects[k];
    var p := o.(closePackets := o.closePackets + 1).Put(w, AtConn);
    s1 := Stepped(s, k, SendPacket(k, w), o, p);
    s2 := Stepped(s1, k, CloseConn(k, w), p,
      o.(closePackets := o.closePackets + 1, connCloses := o.connCloses + 1).Put(w, AtAnnounce));
  }

  lemma Stepped(s: State, k: nat, step: Step, o: Stream, p: Stream) returns (t: State)
    requires MapInRange(s) && Enabled(s, step) && k < |s.objects| && s.objects[k] == o
    requires Apply(s, step) == WithObject(s, k, p)
    ensures t == Apply(s, step) && t == WithObject(s, k, p) && MapInRange(t)
  {
    t := WithObject(s, k, p);
  }

  lemma Forgotten(s: State, k: nat, w: Who, t: State, p: Stream)
    requires k < |s.objects| && s.objects[k].id in s.streams && s.streams[s.objects[k].id] == k && s.main.Draining?
    requires |t.objects| == |s.objects| && t.main == s.main && t.streams == s.streams
    requires forall j :: 0 <= j < |s.objects| && j != k ==> t.objects[j] == s.objects[j]
    requires t.objects[k].id == s.objects[k].id && t.objects[k].At(w) == AtAnnounce && MapInRange(t)
    requires p == t.objects[k].Put(w, NotClosing).(queueCloses := t.objects[k].queueCloses + 1)
    ensures Enabled(t, Receive(k, w))
    ensures Apply(t, Receive(k, w)) == State(s.main, s.streams - {s.objects[k].id}, s.objects[k := p])
  {
  }

  lemma FreshStream(s: State, k: nat)
    requires Inv(s) && s.main != Done && k < |s.objects| && !s.objects[k].closed
    ensures var o := s.objects[k];
      && o.closePackets == 0 && o.connCloses == 0 && o.queueCloses == 0
      && o.id in s.streams && s.streams[o.id] == k
  {
    hide DataOk;
    ObjectParts(s, k);
  }

  // ---- Delivery to the peer ----

  /** While its write loop goes on and nothing fails, all that a stream has accepted can be written. */
  lemma {:induction false} WritesAll(s: State, k: nat) returns (ss: seq<State>, steps: seq<Step>)
    requires Inv(s) && k < |s.objects| && s.objects[k].writer != Stopped && !(s.main.Sending? && s.main.k == k)
    ensures Path(ss, steps) && ss[0] == s && k < |ss[|steps|].objects|
    ensures var p := ss[|steps|].objects[k]; p.written == Concat(s.objects[k].accepted)
    decreases Left(s.objects[k])
  {
    var o := s.objects[k];
    if o.writer == Waiting && o.queue == [] {
      ss, steps := [s], [];
      AllWritten(s, k);
    } else {
      hide Inv, Apply, Enabled, Left, Path;
      var step := Towards(o, k);
      WriterGoes(s, k);
      NextInv(s, step);
      var rest, more := WritesAll(Apply(s, step), k);
      PathCons(s, step, rest, more);
      ss, steps := [s] + rest, [step] + more;
    }
  }

  lemma AllWritten(s: State, k: nat)
    requires Inv(s) && k < |s.objects| && s.objects[k].writer == Waiting && s.objects[k].queue == []
    requires !(s.main.Sending? && s.main.k == k)
    ensures s.objects[k].written == Concat(s.objects[k].accepted)
  {
    hide CloseOk, MapOk, MainOk;
    ObjectParts(s, k);
  }

  lemma WriterGoes(s: State, k: nat)
    requires Inv(s) && k < |s.objects| && s.objects[k].writer != Stopped
    requires s.objects[k].writer.Holding? || s.objects[k].queue != []
    ensures var o := s.objects[k];
      && MapInRange(s) && Enabled(s, Towards(o, k))
      && var t := Apply(s, Towards(o, k));
         && t.main == s.main && |t.objects| == |s.objects| && t.objects[k].writer != Stopped
         && t.objects[k].accepted == o.accepted && Left(t.objects[k]) < Left(o)
  {
    hide CloseOk, DataOk, MapOk;
    InRange(s);
  }
}
