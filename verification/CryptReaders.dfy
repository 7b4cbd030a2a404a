/** The readers that encrypt, decrypt and join messages, for callers with buffers of any size. */
module CryptReaders {
  import opened Bits
  import opened CryptFrames
  import opened Results
  import opened Chunks

  function Min(a: nat, b: nat): nat {
    if a < b then a else b
  }

  /** Go's copy into p[at:]. */
  method Copy(p: array<byte>, at: nat, data: seq<byte>) returns (v: nat)
    requires at <= p.Length
    modifies p
    ensures v == Min(p.Length - at, |data|)
    ensures p[..at] == old(p[..at]) && p[at..at + v] == data[..v] && p[at + v..] == old(p[at + v..])
  {
    v := Min(p.Length - at, |data|);
    forall i | at <= i < at + v {
      p[i] := data[i - at];
    }
  }

  /** What a reader that still holds all has put in p when n bytes are in place. */
  ghost predicate Filled(p: seq<byte>, before: seq<byte>, all: seq<byte>, n: nat) {
    && n <= |p| == |before| && n <= |all|
    && p[..n] == all[..n] && p[n..] == before[n..]
  }

  lemma FillMore(p: seq<byte>, p': seq<byte>, before: seq<byte>, all: seq<byte>, n: nat, data: seq<byte>, v: nat)
    requires Filled(p, before, all, n) && |p'| == |p| && v <= |data| && n + v <= |p|
    requires p'[..n] == p[..n] && p'[n..n + v] == data[..v] && p'[n + v..] == p[n + v..]
    requires data <= all[n..]
    ensures Filled(p', before, all, n + v) && data[v..] + all[n + |data|..] == all[n + v..]
  {
    var m := n + v;
    assert all[..m] == all[..n] + data[..v] by {
      assert data[..v] == all[n..][..v];
    }
    assert p'[..m] == p'[..n] + p'[n..m];
    assert p[m..] == p[n..][v..] && before[m..] == before[n..][v..];
    assert all[n..] == data + all[n + |data|..];
  }

  lemma SplitSuffix(all: seq<byte>, n: nat, b: seq<byte>, rest: seq<byte>)
    requires n <= |all| && all[n..] == b + rest
    ensures n + |b| <= |all| && all[n + |b|..] == rest
  {
    assert all[n + |b|..] == all[n..][|b|..];
  }

  /** Copies more of what is to be returned into p. */
  method CopyOut(p: array<byte>, n: nat, b: seq<byte>, ghost before: seq<byte>, ghost all: seq<byte>,
    ghost rest: seq<byte>) returns (v: nat)
    requires n < p.Length && b != [] && Filled(p[..], before, all, n) && all[n..] == b + rest
    modifies p
    ensures 0 < v == Min(p.Length - n, |b|) && Filled(p[..], before, all, n + v) && all[n + v..] == b[v..] + rest
  {
    ghost var was := p[..];
    v := Copy(p, n, b);
    SplitSuffix(all, n, b, rest);
    FillMore(was, p[..], before, all, n, b, v);
  }

  // ---- Encryption ----

  /** An error that is neither of the two ends of file. */
  predicate Fatal(end: End) {
    end != Eof && end != UnexpectedEof
  }

  /** The boxes from number i up to n that are made of an input which ends in the given way: at an end of
      file the last chunk may be short, at another error it is dropped, and at an unexpected end of file
      empty boxes follow for ever. */
  function Sealed(seal: Seal, i: nat, source: seq<byte>, end: End, n: nat): seq<byte>
    decreases n - i
  {
    if i >= n || (source == [] && end != UnexpectedEof) || (|source| < CRYPT_CHUNK_SIZE && Fatal(end)) then []
    else Frame(seal, i, source[..Head(source)]) + Sealed(seal, i + 1, source[Head(source)..], end, n)
  }

  /** The part of the input that is sealed in the end. */
  function Kept(source: seq<byte>, end: End): seq<byte> {
    if Fatal(end) then source[..|source| / CRYPT_CHUNK_SIZE * CRYPT_CHUNK_SIZE] else source
  }

  lemma KeptStep(source: seq<byte>, end: End)
    requires source != [] && (Fatal(end) ==> |source| >= CRYPT_CHUNK_SIZE)
    ensures var h := Head(source);
      Kept(source, end)[..Head(Kept(source, end))] == source[..h] && Kept(source, end) != []
      && Kept(source, end)[Head(Kept(source, end))..] == Kept(source[h..], end)
      && Boxes(|source|) == 1 + Boxes(|source[h..]|)
  {
    var h := Head(source);
    if Fatal(end) {
      assert |source| / CRYPT_CHUNK_SIZE == 1 + |source[h..]| / CRYPT_CHUNK_SIZE;
    }
  }

  /** With enough boxes: the encryption of what is kept, and behind it nothing or the empty boxes. */
  lemma {:induction false} SealedIsEncrypt(seal: Seal, i: nat, source: seq<byte>, end: End, n: nat)
    requires n >= i + Boxes(|source|)
    ensures Sealed(seal, i, source, end, n) == Encrypt(seal, i, Kept(source, end))
      + (if end == UnexpectedEof then Sealed(seal, i + Boxes(|source|), [], end, n) else [])
    decreases |source|
  {
    hide Frame, Kept, Sealed, Encrypt;
    var tail := if end == UnexpectedEof then Sealed(seal, i + Boxes(|source|), [], end, n) else [];
    if source == [] || (|source| < CRYPT_CHUNK_SIZE && Fatal(end)) {
      KeptNothing(source, end);
      EncryptNothing(seal, i, tail);
      SealedNone(seal, i, source, end, n);
    } else {
      var h := Head(source);
      KeptStep(source, end);
      SealedStep(seal, i, source, end, n);
      EncryptStep(seal, i, Kept(source, end));
      SealedIsEncrypt(seal, i + 1, source[h..], end, n);
      Assoc(Frame(seal, i, source[..h]), Encrypt(seal, i + 1, Kept(source[h..], end)), tail);
    }
  }

  lemma SealedNone(seal: Seal, i: nat, source: seq<byte>, end: End, n: nat)
    requires source == [] || (|source| < CRYPT_CHUNK_SIZE && Fatal(end))
    ensures end != UnexpectedEof ==> Sealed(seal, i, source, end, n) == []
    ensures source == [] ==> Boxes(|source|) == 0
  {
  }

  /** The sealed stream is the encryption of the source exactly for a clean end, and at an error behind
      whole chunks. */
  lemma SealedExactly(seal: Seal, i: nat, source: seq<byte>, end: End, n: nat)
    requires n > i + Boxes(|source|)
    ensures Sealed(seal, i, source, end, n) == Encrypt(seal, i, source)
      <==> end == Eof || (Fatal(end) && |source| % CRYPT_CHUNK_SIZE == 0)
  {
    hide Encrypt, Sealed;
    SealedIsEncrypt(seal, i, source, end, n);
    var e := Encrypt(seal, i, Kept(source, end));
    if end == UnexpectedEof {
      EmptyBoxes(seal, i + Boxes(|source|), n);
    } else if Fatal(end) {
      var k := |source| / CRYPT_CHUNK_SIZE;
      var whole, rest := source[..k * CRYPT_CHUNK_SIZE], source[k * CRYPT_CHUNK_SIZE..];
      assert source == whole + rest && e + [] == e;
      EncryptAppend(seal, i, whole, rest, k);
      EncryptSome(seal, i + k, rest);
    } else {
      assert e + [] == e;
    }
  }

  lemma EncryptSome(seal: Seal, i: nat, plain: seq<byte>)
    ensures Encrypt(seal, i, plain) == [] <==> plain == []
  {
    if plain != [] {
      EncryptStep(seal, i, plain);
    }
  }

  lemma KeptNothing(source: seq<byte>, end: End)
    requires source == [] || (|source| < CRYPT_CHUNK_SIZE && Fatal(end))
    ensures Kept(source, end) == []
  {
    if Fatal(end) {
      assert |source| / CRYPT_CHUNK_SIZE == 0;
    }
  }

  /** After an unexpected end of file there is no end. */
  lemma {:induction false} EmptyBoxes(seal: Seal, i: nat, n: nat)
    requires i <= n
    ensures |Sealed(seal, i, [], UnexpectedEof, n)| >= (n - i) * CRYPT_CHUNK_LENGTH_SIZE
    decreases n - i
  {
    if i < n {
      EmptyBoxes(seal, i + 1, n);
    }
  }

  class EncryptedReader {
    const seal: Seal
    /** How the underlying reader ends. */
    const end: End
    /** What is left of the underlying reader, the part of a frame not yet returned, and the boxes made. */
    var source: seq<byte>
    var b: seq<byte>
    var boxes: nat

    /** What is going to be returned, if no more than limit boxes are made. */
    ghost function Pending(limit: nat): seq<byte>
      reads this
    {
      b + Sealed(seal, boxes, source, end, limit)
    }

    constructor (seal: Seal, source: seq<byte>, end: End)
      ensures this.end == end && boxes == 0
      ensures forall limit :: Pending(limit) == Sealed(seal, 0, source, end, limit)
    {
      this.seal, this.source, this.end, b, boxes := seal, source, end, [], 0;
    }

    /** ReadFull into the chunk: at least one byte, or an empty chunk at an unexpected end. */
    method NextChunk() returns (chunk: Option<seq<byte>>)
      modifies this`source
      ensures var was := old(source);
        if (was == [] && end != UnexpectedEof) || (|was| < CRYPT_CHUNK_SIZE && Fatal(end))
        then chunk == None && source == []
        else chunk == Some(was[..Head(was)]) && source == was[Head(was)..]
    {
      var m := Head(source);
      var some := m == CRYPT_CHUNK_SIZE || end == UnexpectedEof || (m > 0 && end == Eof);
      chunk := if some then Some(source[..m]) else None;
      source := source[m..];
    }

    /** limit is any number of boxes that this read cannot reach. */
    method Read(p: array<byte>, ghost limit: nat) returns (n: nat, err: Option<End>)
      requires boxes + p.Length <= limit
      modifies this`source, this`b, this`boxes, p
      ensures n == Min(p.Length, |old(Pending(limit))|) && Filled(p[..], old(p[..]), old(Pending(limit)), n)
      ensures Pending(limit) == old(Pending(limit))[n..] && boxes <= old(boxes) + p.Length
      ensures err == if n < p.Length then Some(end) else None
      ensures end == UnexpectedEof ==> n == p.Length
    {
      hide Sealed, Frame;
      n := 0;
      ghost var all := old(Pending(limit));
      assert Filled(p[..], old(p[..]), all, n);
      while n < p.Length
        invariant Filled(p[..], old(p[..]), all, n)
        invariant Pending(limit) == all[n..]
        invariant boxes <= old(boxes) + n + (if b == [] then 0 else 1)
        invariant boxes <= old(boxes) + p.Length
        decreases p.Length - n, if b == [] then 1 else 0
      {
        if |b| > 0 {
          var v := CopyOut(p, n, b, old(p[..]), all, Sealed(seal, boxes, source, end, limit));
          n := n + v;
          b := b[v..];
          continue;
        }
        SealedStep(seal, boxes, source, end, limit);
        var chunk := NextChunk();
        if chunk.None? {
          return n, Some(end);
        }
        hide Filled;
        b := Frame(seal, boxes, chunk.value);
        boxes := boxes + 1;
      }
      return n, None;
    }
  }

  /** One more box, or none: then the input has ended, and there will be none. */
  lemma SealedStep(seal: Seal, i: nat, source: seq<byte>, end: End, n: nat)
    requires i < n
    ensures if (source == [] && end != UnexpectedEof) || (|source| < CRYPT_CHUNK_SIZE && Fatal(end))
      then Sealed(seal, i, source, end, n) == [] && Sealed(seal, i, [], end, n) == []
      else
        var h := Head(source);
        && Frame(seal, i, source[..h]) != []
        && Sealed(seal, i, source, end, n) == Frame(seal, i, source[..h]) + Sealed(seal, i + 1, source[h..], end, n)
  {
  }

  // ---- Decryption ----

  class DecryptedReader {
    const open: Open
    /** How the underlying reader ends. */
    const end: End
    var source: seq<byte>
    var b: seq<byte>

    /** Everything that reads are still going to return up to the next error. */
    ghost function Pending(): Stream
      reads this
    {
      Prepend(b, Decrypt(open, source, end))
    }

    constructor (open: Open, source: seq<byte>, end: End)
      ensures Pending() == Decrypt(open, source, end)
    {
      this.open, this.source, this.end, b := open, source, end, [];
      new;
      PrependNothing(Decrypt(open, source, end));
    }

    method ReadFull(n: nat) returns (data: Option<seq<byte>>, e: End)
      requires n > 0
      modifies this`source
      ensures if |old(source)| >= n then data == Some(old(source)[..n]) && source == old(source)[n..]
        else data == None && e == ShortRead(old(source), end) && source == []
    {
      e := ShortRead(source, end);
      if |source| >= n {
        data, source := Some(source[..n]), source[n..];
      } else {
        data, source := None, [];
      }
    }

    method Read(p: array<byte>) returns (n: nat, err: Option<End>)
      requires SizesFit(open)
      modifies this`source, this`b, p
      ensures n == Min(p.Length, |old(Pending()).plain|) && Filled(p[..], old(p[..]), old(Pending()).plain, n)
      ensures n == p.Length ==> err == None && Pending() == old(Pending()).(plain := old(Pending()).plain[n..])
      ensures n < p.Length ==> err == Some(old(Pending()).end) && source == old(Pending()).rest
      ensures n < p.Length ==> b == Zeros(old(Pending()).stale)
    {
      n := 0;
      ghost var all := old(Pending());
      while n < p.Length
        invariant Filled(p[..], old(p[..]), all.plain, n)
        invariant Pending() == all.(plain := all.plain[n..])
        decreases p.Length - n, |source|
      {
        if |b| > 0 {
          var v := CopyOut(p, n, b, old(p[..]), all.plain, Decrypt(open, source, end).plain);
          hide Decrypt, Filled;
          n := n + v;
          b := b[v..];
        } else {
          PrependNothing(Decrypt(open, source, end));
          ghost var input := source;
          var length, e := ReadFull(CRYPT_CHUNK_LENGTH_SIZE);
          if length.None? {
            return n, Some(e);
          }
          var chunkLen := Uint32(length.value);
          if chunkLen == 0 {
            return n, Some(Eof);
          }
          var buf, e' := ReadFull(chunkLen);
          if buf.None? {
            return n, Some(e');
          }
          b := Zeros(Buffer(chunkLen));
          var message := open(buf.value);
          if message.None? {
            return n, Some(InvalidBox);
          }
          assert |message.value| == chunkLen - ANONYMOUS_OVERHEAD;
          b := message.value;
        }
      }
      return n, None;
    }
  }

  function Sum(sizes: seq<nat>): nat {
    if sizes == [] then 0 else Sum(sizes[..|sizes| - 1]) + sizes[|sizes| - 1]
  }

  /** The bytes that have been returned, and what a reader still has to return, make up s. */
  ghost predicate ReadSoFar(s: Stream, out: seq<byte>, left: Stream) {
    |out| <= |s.plain| && out == s.plain[..|out|] && left == s.(plain := s.plain[|out|..])
  }

  method ReadNext(r: DecryptedReader, size: nat, out: seq<byte>, ghost s: Stream)
    returns (more: seq<byte>, err: Option<End>)
    requires SizesFit(r.open) && ReadSoFar(s, out, r.Pending())
    modifies r
    ensures |out| + size <= |s.plain| ==> |more| == |out| + size && err == None && ReadSoFar(s, more, r.Pending())
    ensures |out| + size > |s.plain| ==>
      more == s.plain && err == Some(s.end) && r.source == s.rest && r.b == Zeros(s.stale)
  {
    hide SizesFit, Decrypt;
    var p := new byte[size];
    var n, e := r.Read(p);
    NextPart(s.plain, |out|, n);
    return out + p[..n], e;
  }

  /** A caller that reads with buffers of these sizes, until an error, gets the plaintext in order. */
  method ReadAll(r: DecryptedReader, sizes: seq<nat>) returns (out: seq<byte>, err: Option<End>)
    requires SizesFit(r.open)
    modifies r
    ensures Sum(sizes) <= |old(r.Pending()).plain| ==>
      |out| == Sum(sizes) && err == None && ReadSoFar(old(r.Pending()), out, r.Pending())
    ensures var s := old(r.Pending());
      Sum(sizes) > |s.plain| ==>
        out == s.plain && err == Some(s.end) && r.source == s.rest && r.b == Zeros(s.stale)
        && r.Pending() == Prepend(Zeros(s.stale), Decrypt(r.open, s.rest, r.end))
  {
    ghost var s := r.Pending();
    assert ReadSoFar(s, [], r.Pending());
    hide SizesFit, Decrypt, ReadSoFar;
    out := [];
    for i := 0 to |sizes|
      invariant Sum(sizes[..i]) == |out| && |out| <= |s.plain| && ReadSoFar(s, out, r.Pending())
    {
      SumStep(sizes, i);
      SumMono(sizes, i + 1);
      hide Sum;
      out, err := ReadNext(r, sizes[i], out, s);
      if err.Some? {
        return out, err;
      }
    }
    assert sizes[..|sizes|] == sizes;
    return out, None;
  }

  lemma SumStep(sizes: seq<nat>, i: nat)
    requires i < |sizes|
    ensures Sum(sizes[..i + 1]) == Sum(sizes[..i]) + sizes[i]
  {
    assert sizes[..i + 1][..i] == sizes[..i];
  }

  lemma NextPart(all: seq<byte>, k: nat, n: nat)
    requires k + n <= |all|
    ensures all[..k] + all[k..][..n] == all[..k + n] && all[k..][n..] == all[k + n..]
  {
  }

  lemma {:induction false} SumMono(sizes: seq<nat>, i: nat)
    requires i <= |sizes|
    ensures Sum(sizes[..i]) <= Sum(sizes)
  {
    if i == |sizes| {
      assert sizes[..i] == sizes;
    } else {
      SumMono(sizes[..|sizes| - 1], i);
      assert sizes[..|sizes| - 1][..i] == sizes[..i];
    }
  }

  // ---- Messages of a WebSocket as one stream ----

  class WebsocketReader {
    /** How the connection ends: with a normal close, or in any other way; only then can it break off in
        the middle of its last message. */
    const end: End
    const cut: bool
    /** The messages still to come, and what is left of the one being read. */
    var frames: seq<seq<byte>>
    var frame: Option<seq<byte>>

    ghost predicate Valid()
      reads this
    {
      cut ==> end != Eof && (frames == [] ==> frame.Some?)
    }

    /** The message being read is the one without an end. */
    predicate Cut()
      reads this
    {
      cut && frames == []
    }

    ghost function Pending(): seq<byte>
      reads this
    {
      (if frame.Some? then frame.value else []) + Concat(frames)
    }

    constructor (frames: seq<seq<byte>>, cut: bool, end: End)
      requires cut ==> frames != [] && end != Eof
      ensures Valid() && Pending() == Concat(frames) && this.end == end && this.cut == cut
    {
      this.frames, this.cut, this.end, frame := frames, cut, end, None;
    }

    /** One read of the current message: any positive amount, or nothing and how it ends; the end may
        also come with the last bytes. */
    method ReadFrame(room: nat) returns (data: seq<byte>, err: Option<End>)
      requires frame.Some? && room > 0
      modifies this`frame
      ensures |data| <= room && frame.Some? && old(frame).value == data + frame.value
      ensures data != [] || err.Some?
      ensures err.Some? ==> frame.value == [] && err.value == if Cut() then end else Eof
    {
      var all := frame.value;
      var nn: nat :| nn <= room && nn <= |all| && (nn > 0 || all == []);
      data := all[..nn];
      frame := Some(all[nn..]);
      var early := *;
      err := if all == [] || (early && nn == |all|) then Some(if Cut() then end else Eof) else None;
    }

    /** The inner loop of Read: the current message, until it ends or the buffer is full. */
    method ReadMessage(buf: array<byte>, start: nat, ghost before: seq<byte>, ghost all: seq<byte>,
      ghost rest: seq<byte>)
      returns (n: nat, err: Option<End>)
      requires frame.Some? && Filled(buf[..], before, all, start) && all[start..] == frame.value + rest
      modifies this`frame, buf
      ensures frame.Some? && Filled(buf[..], before, all, n) && all[n..] == frame.value + rest
      ensures if err.Some? then frame.value == [] && err.value == (if Cut() then end else Eof) else n == buf.Length
    {
      n, err := start, None;
      assert n <= buf.Length && n <= |all|;
      hide Filled;
      while n < buf.Length && err.None?
        invariant n <= buf.Length && frame.Some? && Filled(buf[..], before, all, n)
        invariant n <= |all| && all[n..] == frame.value + rest
        invariant err.Some? ==> frame.value == [] && err.value == if Cut() then end else Eof
        decreases buf.Length - n, if err.Some? then 0 else 1
      {
        ghost var message := frame.value;
        var data: seq<byte>;
        data, err := ReadFrame(buf.Length - n);
        assert message + rest == data + (frame.value + rest);
        if data != [] {
          var nn := CopyOut(buf, n, data, before, all, frame.value + rest);
          assert data[nn..] + (frame.value + rest) == frame.value + rest;
          n := n + nn;
        }
      }
    }

    /** The error of a connection that breaks off may come with the last bytes; a normal close comes after them. */
    method Read(buf: array<byte>) returns (n: nat, err: Option<End>)
      requires Valid()
      modifies this, buf
      ensures Valid()
      ensures n == Min(buf.Length, |old(Pending())|) && Filled(buf[..], old(buf[..]), old(Pending()), n)
      ensures Pending() == old(Pending())[n..]
      ensures n < buf.Length ==> err == Some(end)
      ensures n == buf.Length && err.Some? ==> err == Some(end) && end != Eof && Pending() == []
    {
      n, err := 0, None;
      while n < buf.Length && err.None?
        invariant Valid() && Filled(buf[..], old(buf[..]), old(Pending()), n)
        invariant Pending() == old(Pending())[n..]
        invariant err.Some? ==> err == Some(end) && end != Eof && Pending() == []
        decreases |frames|, if frame.Some? then 1 else 0, buf.Length - n, if err.None? then 1 else 0
      {
        if frame.None? {
          if frames == [] {
            return n, Some(end);
          }
          frame, frames := Some(frames[0]), frames[1..];
        }
        n, err := ReadMessage(buf, n, old(buf[..]), old(Pending()), Concat(frames));
        if err == Some(Eof) {
          frame, err := None, None;
        }
      }
    }
  }
}
