/** Credit flow control of one TCP stream: the client's counter, the packets on their way, and
    the refill counter of the server's peer-write loop. Every reachable state of every run. */
module WispCredit {
  import opened Modular

  const INT32_MAX: int := 0x7fff_ffff
  const UINT32: int := 0x1_0000_0000

  /** The conversion int32(val) of a uint32. */
  function ToInt32(n: int): int
    requires 0 <= n < UINT32
  {
    if n <= INT32_MAX then n else n - UINT32
  }

  /** n is writeQueueLen. data counts DATA packets sent by the client and not yet written and counted
      by the server; continues counts CONTINUE packets not yet received by the client. due says that
      the write loop stands between its counter test and the refill. The last three fields are history. */
  datatype State = State(
    n: int,
    credit: int,
    data: nat,
    counter: nat,
    due: bool,
    continues: nat,
    sent: nat,
    written: nat,
    received: nat)

  predicate Init(s: State) {
    && 0 <= s.n < UINT32
    && s == State(s.n, ToInt32(s.n), 0, 0, false, 0, 0, 0, 0)
  }

  /** Write: with credit left, the compare-and-swap takes one and a DATA packet goes out. */
  predicate ClientWrite(s: State, s': State) {
    s.credit > 0 && s' == s.(credit := s.credit - 1, data := s.data + 1, sent := s.sent + 1)
  }

  /** updateBuffer: the credit is overwritten, not added to. */
  predicate ClientContinue(s: State, s': State)
    requires 0 <= s.n < UINT32
  {
    s.continues > 0 && s' == s.(credit := ToInt32(s.n), continues := s.continues - 1, received := s.received + 1)
  }

  /** peerWriteLoop: one packet is written to the connection and counted, and the counter tested. */
  predicate ServerWrite(s: State, s': State) {
    && !s.due && s.data > 0
    && s' == s.(data := s.data - 1, counter := s.counter + 1, written := s.written + 1, due := s.counter + 1 > s.n / 2)
  }

  /** peerWriteLoop: the CONTINUE packet is sent and the counter reset. */
  predicate ServerRefill(s: State, s': State) {
    s.due && s' == s.(continues := s.continues + 1, counter := 0, due := false)
  }

  predicate Next(s: State, s': State)
    requires 0 <= s.n < UINT32
  {
    ClientWrite(s, s') || ClientContinue(s, s') || ServerWrite(s, s') || ServerRefill(s, s')
  }

  predicate Run(ss: seq<State>) {
    && ss != []
    && Init(ss[0])
    && (forall i :: 0 <= i < |ss| ==> 0 <= ss[i].n < UINT32)
    && forall i :: 0 <= i < |ss| - 1 ==> Next(ss[i], ss[i + 1])
  }

  predicate Usable(n: int) {
    1 <= n <= INT32_MAX
  }

  /** The refill is on its way, or the server still owes writes enough to trigger it. */
  predicate Alive(s: State) {
    s.continues > 0 || s.due || s.credit + s.data + s.counter >= s.n
  }

  /** Packets written before the r-th refill; credit granted by r refills and the first CONTINUE. */
  function Counted(n: nat, r: nat): nat { r * (n / 2 + 1) }
  function Granted(n: nat, r: nat): nat { n * (1 + r) }

  lemma OneMore(n: nat, r: nat)
    ensures Counted(n, r + 1) == Counted(n, r) + n / 2 + 1
    ensures Granted(n, r + 1) == Granted(n, r) + n
  {}

  predicate Inv(s: State) {
    && Usable(s.n)
    && 0 <= s.credit <= s.n
    && (if s.due then s.counter == s.n / 2 + 1 else s.counter <= s.n / 2)
    && s.written == Counted(s.n, s.received + s.continues) + s.counter
    && s.sent == s.written + s.data
    && s.sent + s.credit <= Granted(s.n, s.received)
    && Alive(s)
  }

  lemma InitInv(s: State)
    requires Init(s) && Usable(s.n)
    ensures Inv(s)
  {}

  lemma NextInv(s: State, s': State)
    requires Inv(s) && Next(s, s')
    ensures Inv(s')
  {
    OneMore(s.n, s.received + s.continues);
    OneMore(s.n, s.received);
    hide Counted, Granted;
  }

  lemma {:induction false} RunInv(ss: seq<State>)
    requires Run(ss) && Usable(ss[0].n)
    ensures Inv(ss[|ss| - 1]) && ss[|ss| - 1].n == ss[0].n
  {
    if |ss| > 1 {
      var prefix := ss[..|ss| - 1];
      RunInv(prefix);
      assert Next(ss[|ss| - 2], ss[|ss| - 1]);
      NextInv(ss[|ss| - 2], ss[|ss| - 1]);
    } else {
      InitInv(ss[0]);
    }
  }

  /** Nothing is on its way in either direction and the client has no credit: a deadlock. */
  predicate Stuck(s: State) {
    s.credit <= 0 && s.data == 0 && s.continues == 0 && !s.due
  }

  /** Zero credit implies that a packet is on its way. */
  lemma NeverStuck(ss: seq<State>)
    requires Run(ss) && Usable(ss[0].n)
    ensures !Stuck(ss[|ss| - 1])
  {
    RunInv(ss);
  }

  predicate Path(ss: seq<State>) {
    && ss != []
    && (forall i :: 0 <= i < |ss| ==> 0 <= ss[i].n < UINT32)
    && forall i :: 0 <= i < |ss| - 1 ==> Next(ss[i], ss[i + 1])
  }

  lemma Before(s: State, t: State, rest: seq<State>)
    requires Path(rest) && rest[0] == t && 0 <= s.n < UINT32 && Next(s, t)
    ensures Path([s] + rest)
  {
    var ss := [s] + rest;
    forall i | 0 <= i < |ss| - 1 ensures Next(ss[i], ss[i + 1]) {
      if i > 0 {
        assert ss[i] == rest[i - 1] && ss[i + 1] == rest[i];
      }
    }
  }

  /** Not only is something on its way: the client, which has no credit, gets some again if the server goes
      on writing. */
  lemma {:induction false} CreditReturns(s: State) returns (ss: seq<State>)
    requires Inv(s)
    ensures Path(ss) && ss[0] == s && ss[|ss| - 1].credit > 0 && ss[|ss| - 1].sent == s.sent
    decreases if s.credit > 0 then 0 else 1, if s.continues > 0 then 0 else 1, if s.due then 0 else 1, s.data
  {
    if s.credit > 0 {
      return [s];
    }
    var t := if s.continues > 0
      then s.(credit := ToInt32(s.n), continues := s.continues - 1, received := s.received + 1)
      else if s.due then s.(continues := s.continues + 1, counter := 0, due := false)
      else s.(data := s.data - 1, counter := s.counter + 1, written := s.written + 1, due := s.counter + 1 > s.n / 2);
    assert s.continues == 0 && !s.due ==> s.data > 0;
    assert Next(s, t);
    NextInv(s, t);
    var rest := CreditReturns(t);
    Before(s, t, rest);
    ss := [s] + rest;
  }

  /** The protocol can deadlock exactly when the queue length is 0 or does not fit an int32. */
  lemma DeadlockExactly(n: int)
    requires 0 <= n < UINT32
    ensures Usable(n) <==> forall ss: seq<State> :: Run(ss) && ss[0].n == n ==> !Stuck(ss[|ss| - 1])
  {
    if Usable(n) {
      forall ss: seq<State> | Run(ss) && ss[0].n == n ensures !Stuck(ss[|ss| - 1]) {
        NeverStuck(ss);
      }
    } else {
      var s := State(n, ToInt32(n), 0, 0, false, 0, 0, 0, 0);
      var ss := [s];
      assert Run(ss) && Stuck(ss[|ss| - 1]);
    }
  }

  /** Total DATA sent is bounded by what the server has written. */
  lemma SentBound(ss: seq<State>)
    requires Run(ss) && Usable(ss[0].n)
    ensures var s := ss[|ss| - 1]; s.sent <= s.n * (1 + s.written / (s.n / 2 + 1))
  {
    RunInv(ss);
    var s := ss[|ss| - 1];
    var w := s.n / 2 + 1;
    QuotientAtLeast(s.written, w, s.received + s.continues);
    MulMono(s.n, 1 + s.received, 1 + s.written / w);
  }

  lemma QuotientAtLeast(a: nat, w: nat, q: nat)
    requires w > 0 && a >= q * w
    ensures a / w >= q
  {
    assert a == w * (a / w) + a % w;
    if a / w < q {
      MulMono(w, a / w + 1, q);
    }
  }
}
