/** What became of the DATA payloads of one stream that reached the client, in order of arrival. */
module WispDelivery {
  import opened Bits
  import opened Chunks

  /** A payload goes into the stream's channel, or it is thrown away. */
  datatype Event = Enqueued(data: Bytes) | Dropped(data: Bytes)

  /** The payloads that arrived, and their bytes. */
  function Arrived(es: seq<Event>): seq<Bytes> {
    if es == [] then [] else [es[0].data] + Arrived(es[1..])
  }

  function Received(es: seq<Event>): Bytes {
    Concat(Arrived(es))
  }

  /** The bytes put into the channel. */
  function Delivered(es: seq<Event>): Bytes {
    if es == [] then []
    else (if es[0].Enqueued? then es[0].data else []) + Delivered(es[1..])
  }

  /** Nothing that holds a byte was enqueued after something that holds a byte was dropped. */
  predicate NoGap(es: seq<Event>) {
    if es == [] then true
    else if es[0].Dropped? && es[0].data != [] then Delivered(es[1..]) == []
    else NoGap(es[1..])
  }

  predicate NoDrop(es: seq<Event>) {
    forall i :: 0 <= i < |es| ==> es[i].Enqueued?
  }

  /** The same payload lengths with the same outcomes; the bytes may be others. */
  predicate SameShape(es: seq<Event>, fs: seq<Event>) {
    |es| == |fs| && forall i :: 0 <= i < |es| ==> es[i].Enqueued? == fs[i].Enqueued? && |es[i].data| == |fs[i].data|
  }

  lemma ReceivedStep(es: seq<Event>)
    requires es != []
    ensures Received(es) == es[0].data + Received(es[1..])
  {
    assert Arrived(es)[1..] == Arrived(es[1..]);
  }

  lemma {:induction false} NoGapPrefix(es: seq<Event>)
    requires NoGap(es)
    ensures Delivered(es) <= Received(es)
  {
    if es != [] {
      ReceivedStep(es);
      if es[0].Dropped? && es[0].data != [] {
        assert Delivered(es) == [];
      } else {
        NoGapPrefix(es[1..]);
      }
    }
  }

  lemma {:induction false} ShapeNoGap(es: seq<Event>, fs: seq<Event>)
    requires SameShape(es, fs)
    ensures NoGap(es) == NoGap(fs) && |Delivered(es)| == |Delivered(fs)|
  {
    if es != [] {
      ShapeNoGap(es[1..], fs[1..]);
    }
  }

  function Fill(n: nat, x: byte): (s: Bytes)
    ensures |s| == n && forall i :: 0 <= i < n ==> s[i] == x
  {
    if n == 0 then [] else [x] + Fill(n - 1, x)
  }

  /** The same events with bytes that tell enqueued payloads from dropped ones. */
  function Marked(es: seq<Event>): (fs: seq<Event>)
    ensures |fs| == |es|
  {
    if es == [] then []
    else
      var n := |es[0].data|;
      [if es[0].Enqueued? then Enqueued(Fill(n, 1)) else Dropped(Fill(n, 0))] + Marked(es[1..])
  }

  lemma {:induction false} MarkedShape(es: seq<Event>)
    ensures SameShape(es, Marked(es))
  {
    if es != [] {
      MarkedShape(es[1..]);
      var e, fs := es[0], Marked(es);
      assert fs[0].Enqueued? == e.Enqueued? && |fs[0].data| == |e.data|;
      forall i | 0 < i < |es| ensures es[i].Enqueued? == fs[i].Enqueued? && |es[i].data| == |fs[i].data| {
        assert es[i] == es[1..][i - 1] && fs[i] == Marked(es[1..])[i - 1];
      }
    }
  }

  lemma {:induction false} MarkedDelivered(es: seq<Event>)
    ensures forall i :: 0 <= i < |Delivered(Marked(es))| ==> Delivered(Marked(es))[i] == 1
  {
    if es != [] {
      MarkedDelivered(es[1..]);
    }
  }

  /** A gap shows in the marked bytes. */
  lemma {:induction false} GapShows(es: seq<Event>)
    requires !NoGap(es)
    ensures !(Delivered(Marked(es)) <= Received(Marked(es)))
  {
    var fs := Marked(es);
    var e := fs[0];
    assert fs[1..] == Marked(es[1..]);
    ReceivedStep(fs);
    if es[0].Dropped? && es[0].data != [] {
      MarkedShape(es[1..]);
      ShapeNoGap(es[1..], fs[1..]);
      MarkedDelivered(es);
      assert Delivered(fs)[0] == 1 && Received(fs)[0] == 0;
    } else {
      GapShows(es[1..]);
      var d, r := Delivered(fs[1..]), Received(fs[1..]);
      PrefixBehind(e.data, d, r);
      if e.Dropped? {
        assert e.data == [] && [] + r == r;
      }
    }
  }

  lemma PrefixBehind(a: Bytes, d: Bytes, r: Bytes)
    ensures a + d <= a + r ==> d <= r
  {
    if a + d <= a + r {
      forall k | 0 <= k < |d| ensures d[k] == r[k] {
        assert (a + d)[|a| + k] == (a + r)[|a| + k];
      }
    }
  }

  /** Whatever bytes the payloads hold, what is delivered is a prefix of what arrived: exactly if
      there is no gap. */
  lemma PrefixExactly(es: seq<Event>)
    ensures NoGap(es) <==> forall fs: seq<Event> :: SameShape(es, fs) ==> Delivered(fs) <= Received(fs)
  {
    if NoGap(es) {
      forall fs: seq<Event> | SameShape(es, fs) ensures Delivered(fs) <= Received(fs) {
        ShapeNoGap(es, fs);
        NoGapPrefix(fs);
      }
    } else {
      GapShows(es);
      MarkedShape(es);
    }
  }

  // ---- One event more ----

  lemma {:induction false} DeliveredSnoc(es: seq<Event>, e: Event)
    ensures Delivered(es + [e]) == Delivered(es) + if e.Enqueued? then e.data else []
  {
    if es == [] {
      assert [e][1..] == [] && [] + [e] == [e];
    } else {
      DeliveredSnoc(es[1..], e);
      assert (es + [e])[1..] == es[1..] + [e];
      var first, last := if es[0].Enqueued? then es[0].data else [], if e.Enqueued? then e.data else [];
      assert (first + Delivered(es[1..])) + last == first + (Delivered(es[1..]) + last);
    }
  }

  /** A drop never makes a gap, and an enqueued payload none if nothing was dropped before. */
  lemma {:induction false} NoGapSnoc(es: seq<Event>, e: Event)
    requires NoGap(es) && (e.Dropped? || NoDrop(es))
    ensures NoGap(es + [e])
  {
    if es == [] {
      assert [e][1..] == [] && [] + [e] == [e];
    } else {
      assert (es + [e])[1..] == es[1..] + [e];
      if es[0].Dropped? && es[0].data != [] {
        DeliveredSnoc(es[1..], e);
      } else {
        NoGapSnoc(es[1..], e);
      }
    }
  }
}
