/** clientStream: one stream of the Wisp client. Each method call is one atomic step of the read loop, of
    a reader, of a writer or of a close, and the calls may come in any order that their requires allow. */
module WispClient {
  import opened Bits
  import opened Results
  import opened Chunks
  import opened WispDelivery
  import R = WispReadPath

  const READ_QUEUE := 100
  const VOLUNTARY := 0x02
  const INT32_MAX: int := 0x7fff_ffff
  const UINT32: int := 0x1_0000_0000

  datatype Error = ClosedPipe | DeadlineExceeded | Eof | RemoteClosed(reason: nat)

  /** What a blocked Read or Write wakes up for. */
  datatype Wake = Channel | ContextDone | Timeout

  /** Where the client's read loop stands with a packet for this stream: between packets, behind the
      lookup of a DATA or CLOSE packet's stream in the map, in the select of receiveData, or between
      remoteClosed and removeStream. */
  datatype Loop = Idle | Found(data: Bytes) | Checked(data: Bytes) | Closing(reason: nat) | Removing

  class ClientStream {
    var udp: bool
    var readCh: seq<Bytes>
    var chClosed: bool
    var readBuf: Bytes
    var bufferRemaining: int
    /** The number of times that bufferUpdateCh has been closed and replaced. */
    var updates: nat
    var closed: bool
    var closeErr: Option<Error>
    /** The client's side: its context is cancelled, it still has the stream in its map. */
    var cancelled: bool
    var inMap: bool
    var loop: Loop
    /** History: what became of the payloads that arrived, and the bytes that Read has returned. */
    ghost var events: seq<Event>
    ghost var returned: Bytes
    /** History: the values of updates at which a writer has seen no credit. */
    ghost var dry: set<nat>

    ghost predicate Valid()
      reads this
    {
      && |readCh| <= READ_QUEUE
      && returned + readBuf + Concat(readCh) == Delivered(events)
      && (chClosed ==> closeErr.Some? && (loop == Removing || (loop == Idle && !inMap)))
      && (loop == Removing ==> chClosed)
      && (!inMap ==> cancelled || closed || closeErr.Some?)
      && (!cancelled ==> NoGap(events))
      && (!cancelled && !NoDrop(events) ==> (closed || closeErr.Some?) && !loop.Checked?)
      && (bufferRemaining > 0 ==> updates !in dry) && (forall u :: u in dry ==> u <= updates)
    }

    /** Closed by its user, with nothing left that could wake a reader: no payload in the channel or on its
        way there, no remote close at work, and a later one will not find the stream. */
    ghost predicate Hung()
      reads this
    {
      closed && !cancelled && !inMap && readCh == [] && readBuf == [] && !chClosed && (loop == Idle || loop.Found?)
    }

    constructor (udp: bool, credit: int)
      ensures Valid() && readCh == [] && readBuf == [] && !chClosed && !closed && closeErr.None?
      ensures this.udp == udp && bufferRemaining == credit && !cancelled && inMap && loop == Idle
      ensures events == [] && returned == []
    {
      this.udp, bufferRemaining, updates := udp, credit, 0;
      readCh, chClosed, readBuf, closed, closeErr := [], false, [], false, None;
      cancelled, inMap, loop := false, true, Idle;
      events, returned, dry := [], [], {};
    }

    // ---- The read loop ----

    ghost method Record(e: Event)
      requires Valid() && e.Dropped?
      requires loop.Checked? ==> cancelled
      requires !cancelled ==> closed || closeErr.Some?
      modifies this`events
      ensures Valid() && events == old(events) + [e]
    {
      if !cancelled {
        NoGapSnoc(events, e);
      }
      DeliveredSnoc(events, e);
      assert Delivered(events) + [] == Delivered(events);
      events := events + [e];
    }

    /** The lookup of a DATA packet's stream; a packet without one is answered by a CLOSE packet. */
    method Arrive(data: Bytes) returns (unknown: bool)
      requires Valid() && loop == Idle
      modifies this`loop, this`events
      ensures Valid() && unknown == !inMap
      ensures loop == (if inMap then Found(data) else Idle)
      ensures events == old(events) + (if inMap then [] else [Dropped(data)])
    {
      hide Delivered, NoGap, NoDrop, Concat;
      unknown := !inMap;
      if unknown {
        Record(Dropped(data));
      } else {
        loop := Found(data);
      }
    }

    /** receiveData up to its select. */
    method Check()
      requires Valid() && loop.Found?
      modifies this`loop, this`events
      ensures Valid()
      ensures loop == (if closed || closeErr.Some? then Idle else Checked(old(loop).data))
      ensures events == old(events) + (if closed || closeErr.Some? then [Dropped(old(loop).data)] else [])
    {
      hide Delivered, NoGap, NoDrop, Concat;
      var data := loop.data;
      if closed || closeErr.Some? {
        Record(Dropped(data));
        loop := Idle;
      } else {
        loop := Checked(data);
      }
    }

    /** The select of receiveData: room in the channel, or the cancelled context; with both, either. */
    method Select(enqueue: bool)
      requires Valid() && loop.Checked?
      requires if enqueue then |readCh| < 100 else cancelled
      modifies this`loop, this`readCh, this`events
      ensures Valid() && loop == Idle
      ensures readCh == old(readCh) + (if enqueue then [old(loop).data] else [])
      ensures events == old(events) + [if enqueue then Enqueued(old(loop).data) else Dropped(old(loop).data)]
    {
      hide Delivered, NoGap, NoDrop, Concat;
      var data := loop.data;
      if enqueue {
        PutInChannel(data);
      } else {
        Record(Dropped(data));
      }
      loop := Idle;
    }

    method PutInChannel(data: Bytes)
      requires Valid() && loop.Checked? && |readCh| < READ_QUEUE
      modifies this`readCh, this`events
      ensures Valid() && readCh == old(readCh) + [data] && events == old(events) + [Enqueued(data)]
    {
      hide Delivered, NoGap, NoDrop, Concat;
      ghost var e := Enqueued(data);
      if !cancelled {
        NoGapSnoc(events, e);
      }
      DeliveredSnoc(events, e);
      ConcatSnoc(readCh, data);
      assert returned + readBuf + (Concat(readCh) + data) == returned + readBuf + Concat(readCh) + data;
      NoDropSnoc(events, data);
      readCh := readCh + [data];
      events := events + [e];
    }

    static lemma NoDropSnoc(es: seq<Event>, data: Bytes)
      ensures NoDrop(es) ==> NoDrop(es + [Enqueued(data)])
    {
    }

    /** The lookup of a CLOSE packet's stream; a packet without one is ignored. */
    method ArriveClose(reason: nat)
      requires Valid() && loop == Idle
      modifies this`loop
      ensures Valid() && loop == if inMap then Closing(reason) else Idle
    {
      if inMap {
        loop := Closing(reason);
      }
    }

    /** remoteClosed: no second CLOSE packet gets here, so the channel is closed only once. */
    method RemoteClose()
      requires Valid() && loop.Closing?
      modifies this`closeErr, this`chClosed, this`updates, this`loop
      ensures Valid() && !old(chClosed) && chClosed && loop == Removing && updates == old(updates) + 1
      ensures closeErr == Some(if old(loop).reason != 2 then RemoteClosed(old(loop).reason) else Eof)
    {
      closeErr := Some(if loop.reason != VOLUNTARY then RemoteClosed(loop.reason) else Eof);
      chClosed := true;
      updates := updates + 1;
      loop := Removing;
    }

    method RemoveAfterClose()
      requires Valid() && loop == Removing
      modifies this`inMap, this`loop
      ensures Valid() && !inMap && loop == Idle
    {
      inMap := false;
      loop := Idle;
    }

    // ---- Closing the stream or the whole client ----

    /** closeWithReason up to its packet: the first caller wins. */
    method CloseBegin() returns (won: bool)
      requires Valid()
      modifies this`closed
      ensures Valid() && closed && won == !old(closed)
    {
      won := !closed;
      closed := true;
    }

    method CloseEnd()
      requires Valid() && closed
      modifies this`inMap, this`updates
      ensures Valid() && !inMap && updates == old(updates) + 1
    {
      inMap := false;
      updates := updates + 1;
    }

    /** Client.Close begins by cancelling the context. */
    method Cancel()
      requires Valid()
      modifies this`cancelled
      ensures Valid() && cancelled
    {
      cancelled := true;
    }

    /** Client.Close ends by waking the streams in the map and clearing it. */
    method ClearStreams()
      requires Valid() && cancelled
      modifies this`inMap, this`updates
      ensures Valid() && !inMap && updates == old(updates) + (if old(inMap) then 1 else 0)
    {
      if inMap {
        updates := updates + 1;
      }
      inMap := false;
    }

    // ---- Reading ----

    /** Copies what fits into b; the Go copy builtin. */
    static method Copy(b: array<byte>, data: Bytes) returns (n: nat)
      modifies b
      ensures n == if |data| < b.Length then |data| else b.Length
      ensures b[..n] == data[..n]
      ensures forall i :: n <= i < b.Length ==> b[i] == old(b[i])
    {
      n := if |data| < b.Length then |data| else b.Length;
      for i := 0 to n
        invariant b[..i] == data[..i]
        invariant forall j :: n <= j < b.Length ==> b[j] == old(b[j])
      {
        b[i] := data[i];
      }
    }

    /** The outcome of a Read that took data: bytes for b, in order, and the rest kept in readBuf. */
    twostate predicate Took(b: array<byte>, n: nat, data: Bytes)
      reads this, b
    {
      && n == (if |data| < b.Length then |data| else b.Length)
      && b[..n] == data[..n]
      && readBuf == data[n..]
      && returned == old(returned) + data[..n]
    }

    /** Read up to its select, for any buffer size: None means that it blocks. expired says that the
        read deadline has passed. */
    method ReadStart(b: array<byte>, expired: bool) returns (n: nat, err: Option<Error>, blocks: bool)
      requires Valid()
      modifies b, this`readBuf, this`returned
      ensures Valid()
      ensures blocks <==> old(readBuf) == [] && !closed && !(closeErr.Some? && readCh == []) && !expired
      ensures old(readBuf) != [] ==> err.None? && Took(b, n, old(readBuf))
      ensures old(readBuf) == [] ==> n == 0 && readBuf == [] && returned == old(returned)
      ensures old(readBuf) == [] && !blocks ==>
        err == if closed then Some(ClosedPipe)
          else if closeErr.Some? && readCh == [] then closeErr
          else Some(DeadlineExceeded)
    {
      if |readBuf| > 0 {
        ghost var all := readBuf;
        n := Copy(b, readBuf);
        Split(returned, all, n, Concat(readCh));
        readBuf := readBuf[n..];
        returned := returned + all[..n];
        return n, None, false;
      }
      if closed {
        return 0, Some(ClosedPipe), false;
      }
      if closeErr.Some? && readCh == [] {
        return 0, closeErr, false;
      }
      if expired {
        return 0, Some(DeadlineExceeded), false;
      }
      return 0, None, true;
    }

    /** The select of a blocked Read, after any number of other steps. One Read runs at a time, so
        readBuf is still empty. A closed channel is drained before its error is returned. */
    method ReadWoken(b: array<byte>, wake: Wake) returns (n: nat, err: Option<Error>)
      requires Valid() && readBuf == []
      requires (wake == Channel ==> readCh != [] || chClosed) && (wake == ContextDone ==> cancelled)
      modifies b, this`readBuf, this`readCh, this`returned
      ensures Valid()
      ensures wake == Channel && old(readCh) != [] ==>
        err.None? && Took(b, n, old(readCh)[0]) && readCh == old(readCh)[1..]
      ensures !(wake == Channel && old(readCh) != []) ==>
        n == 0 && readCh == old(readCh) && readBuf == [] && returned == old(returned)
      ensures wake == ContextDone ==> err == Some(ClosedPipe)
      ensures wake == Timeout ==> err == Some(DeadlineExceeded)
      ensures wake == Channel && old(readCh) == [] ==> err.Some? && err == closeErr
    {
      hide Delivered, NoGap, NoDrop, Concat;
      match wake
      case ContextDone => return 0, Some(ClosedPipe);
      case Timeout => return 0, Some(DeadlineExceeded);
      case Channel =>
        if readCh == [] {
          return 0, if closeErr.Some? then closeErr else Some(Eof);
        }
        var data := readCh[0];
        ConcatHead(readCh);
        readCh := readCh[1..];
        n := Copy(b, data);
        Split(returned, data, n, Concat(readCh));
        if n < |data| {
          readBuf := data[n..];
        }
        returned := returned + data[..n];
        return n, None;
    }

    /** Handing out the first n of the bytes at hand keeps the whole. */
    static lemma Split(before: Bytes, data: Bytes, n: nat, after: Bytes)
      requires n <= |data|
      ensures before + data[..n] + data[n..] + after == before + data + after
    {
      assert data[..n] + data[n..] == data;
    }

    /** What Read has returned is a prefix of what was put into the channel, and of all the bytes that
        arrived if there is no gap, as before the client is closed. */
    lemma ReturnedPrefix()
      requires Valid()
      ensures returned <= Delivered(events)
      ensures !cancelled ==> NoGap(events)
      ensures NoGap(events) ==> returned <= Received(events)
    {
      assert returned + readBuf + Concat(readCh) == returned + (readBuf + Concat(readCh));
      if NoGap(events) {
        NoGapPrefix(events);
      }
    }

    /** From end to end: the connection delivers the server's packets in order, those that arrived are
        the first of them, and every successful read of the peer returned something. */
    lemma ReturnedFromPeer(ss: seq<R.State>, steps: seq<R.Step>)
      requires Valid() && NoGap(events)
      requires R.Run(ss, steps) && forall i :: 0 <= i < |steps| ==> steps[i] != R.ReadOk(0)
      requires Arrived(events) <= ss[|steps|].packets
      ensures returned <= ss[|steps|].fromPeer
    {
      ReturnedPrefix();
      ConcatPrefix(Arrived(events), ss[|steps|].packets);
      R.PacketsAreBytes(ss, steps);
      R.SentPrefix(ss, steps);
      hide *;
    }

    // ---- Writing ----

    /** updateBuffer: the credit is replaced by the one received, as an int32, and writers wake up. */
    method UpdateBuffer(val: int)
      requires Valid() && 0 <= val < UINT32
      modifies this`bufferRemaining, this`updates
      ensures Valid() && updates == old(updates) + 1
      ensures bufferRemaining == if val < 0x8000_0000 then val else val - 0x1_0000_0000
    {
      bufferRemaining := if val <= INT32_MAX then val else val - UINT32;
      updates := updates + 1;
    }

    /** Write up to its loop: Some says how it ends, with Some(None) for a packet without flow control. */
    method WriteStart() returns (r: Option<Option<Error>>)
      requires Valid()
      ensures r == if closed || closeErr.Some? then Some(Some(ClosedPipe)) else if udp then Some(None) else None
    {
      if closed || closeErr.Some? {
        return Some(Some(ClosedPipe));
      }
      return if udp then Some(None) else None;
    }

    /** The head of Write's loop: an error, or the credit seen now. loaded is the time at which it was seen. */
    method WritePass(expired: bool) returns (err: Option<Error>, seen: int, ghost loaded: nat)
      requires Valid()
      modifies this`dry
      ensures Valid() && seen == bufferRemaining && loaded == updates && old(dry) <= dry
      ensures err == if closed || closeErr.Some? then Some(ClosedPipe)
        else if expired then Some(DeadlineExceeded)
        else None
      ensures err.None? && seen <= 0 ==> loaded in dry
    {
      seen, loaded := bufferRemaining, updates;
      if closed || closeErr.Some? {
        return Some(ClosedPipe), seen, loaded;
      }
      if expired {
        return Some(DeadlineExceeded), seen, loaded;
      }
      if seen <= 0 {
        dry := dry + {updates};
      }
      return None, seen, loaded;
    }

    /** The compare-and-swap of Write, whatever has happened since: one credit is taken exactly if it is
        still the credit that was seen. */
    method TakeCredit(seen: int) returns (taken: bool)
      requires Valid() && seen > 0
      modifies this`bufferRemaining
      ensures Valid() && taken == (old(bufferRemaining) == seen)
      ensures bufferRemaining == old(bufferRemaining) - (if taken then 1 else 0)
    {
      taken := bufferRemaining == seen;
      if taken {
        bufferRemaining := seen - 1;
      }
    }

    /** Write without credit: it waits for the channel of this moment to be closed. */
    method TakeChannel(seen: int) returns (ch: nat)
      requires Valid() && seen <= 0
      ensures ch == updates
    {
      ch := updates;
    }

    /** A writer that waits does so without credit, unless an update came between its look at the credit
        and its look at the channel. */
    lemma WaitsDry(loaded: nat, ch: nat)
      requires Valid() && loaded in dry && loaded <= ch == updates
      ensures ch == loaded ==> bufferRemaining <= 0
    {
    }
  }

  /** Such an update is missed: the writer waits for another one in spite of the credit. */
  method UpdateMissed(credit: int) returns (s: ClientStream, ghost loaded: nat, ch: nat)
    requires 0 < credit <= INT32_MAX
    ensures fresh(s) && s.Valid() && loaded in s.dry && loaded < ch == s.updates
    ensures s.bufferRemaining == credit
  {
    s := new ClientStream(false, 0);
    var err, seen;
    err, seen, loaded := s.WritePass(false);
    s.UpdateBuffer(credit);
    ch := s.TakeChannel(seen);
  }

  /** Closing a stream does not wake its blocked reader: unless it has a deadline, only the end of the
      whole client will. */
  method HangWitness() returns (s: ClientStream, blocked: bool)
    ensures fresh(s) && s.Valid() && blocked && s.Hung()
  {
    s := new ClientStream(false, 1);
    var n, err;
    var b := new byte[1](_ => 0);
    n, err, blocked := s.ReadStart(b, false);
    var won := s.CloseBegin();
    s.CloseEnd();
  }

  /** Any step that the read loop, writers and closers can take then; Hung rules the others out. */
  method HungStays(s: ClientStream, data: Bytes, val: int, expired: bool, seen: int)
    requires s.Valid() && s.Hung() && 0 <= val < UINT32 && seen > 0
    modifies s
    ensures s.Valid() && s.Hung()
  {
    if
    case s.loop == Idle =>
      var unknown := s.Arrive(data);
    case s.loop == Idle =>
      s.ArriveClose(VOLUNTARY);
    case s.loop.Found? =>
      s.Check();
    case true =>
      s.UpdateBuffer(val);
    case true =>
      var err, c, loaded := s.WritePass(expired);
    case true =>
      var taken := s.TakeCredit(seen);
    case true =>
      var won := s.CloseBegin();
    case true =>
      s.CloseEnd();
  }

  /** A reader that finds readBuf empty hangs behind the close of its stream exactly in these states: from
      every other one, one step of the read loop or none lets it go on. */
  method WokenExactly(s: ClientStream)
    requires s.Valid() && s.closed && !s.inMap && !s.cancelled && s.readBuf == []
    modifies s
    ensures s.Valid() && (s.readCh != [] || s.chClosed <==> !old(s.Hung()))
    ensures old(s.Hung()) ==> s.Hung()
  {
    if s.readCh == [] && s.loop.Checked? {
      s.Select(true);
    } else if s.loop.Closing? {
      s.RemoteClose();
    }
  }

  /** A client that is closed while a payload is on its way into the channel. */
  method DropWitness(x: byte) returns (s: ClientStream)
    ensures fresh(s) && s.Valid() && s.cancelled && s.inMap && s.loop == Idle && !s.closed && s.closeErr.None?
    ensures s.readCh == [] && s.readBuf == [] && s.returned == [] && s.events == [Dropped([x])]
  {
    hide Delivered, Concat, NoGap, NoDrop;
    s := new ClientStream(false, 1);
    var unknown := s.Arrive([x]);
    s.Check();
    s.Cancel();
    s.Select(false);
  }

  /** A closed client whose reader is handed a later payload without the one before it. */
  method GapWitness(x: byte, y: byte) returns (s: ClientStream)
    requires x != y
    ensures fresh(s) && s.Valid() && s.cancelled && !NoGap(s.events)
    ensures !(s.returned <= Received(s.events))
  {
    hide Delivered, Received, Concat, NoGap, NoDrop;
    s := DropWitness(x);
    var unknown := s.Arrive([y]);
    s.Check();
    s.Select(true);
    var b := new byte[1](_ => 0);
    var n, err := s.ReadWoken(b, Channel);
    assert s.events == [Dropped([x]), Enqueued([y])];
    TwoEvents(x, y);
    assert s.returned == [] + [y][..1] == [y];
    assert s.returned[0] != [x, y][0];
  }

  lemma TwoEvents(x: byte, y: byte)
    ensures var es := [Dropped([x]), Enqueued([y])]; !NoGap(es) && Received(es) == [x, y]
  {
    var es := [Dropped([x]), Enqueued([y])];
    assert es[1..] == [Enqueued([y])] && es[1..][1..] == [];
    assert Delivered(es[1..]) == [y] + [];
    ReceivedStep(es);
    ReceivedStep(es[1..]);
  }
}
