/** The framing of encrypted streams: every 8192 bytes become one sealed box behind its length. */
module CryptFrames {
  import Modular
  import opened Bits
  import opened Results

  const CRYPT_CHUNK_SIZE: nat := 8192
  const CRYPT_CHUNK_LENGTH_SIZE: nat := 4
  const ANONYMOUS_OVERHEAD: nat := 48
  const CRYPT_CHUNK_OVERHEAD: nat := CRYPT_CHUNK_LENGTH_SIZE + ANONYMOUS_OVERHEAD

  /** How a stream of bytes ends. */
  datatype End = Eof | UnexpectedEof | InvalidBox | Failed

  /** Sealing draws new randomness for every box; the number of the box stands for it. */
  type Seal = (nat, seq<byte>) -> seq<byte>
  type Open = seq<byte> -> Option<seq<byte>>

  ghost predicate Opens(open: Open, seal: Seal) {
    && (forall i: nat, m: seq<byte> :: |seal(i, m)| == |m| + ANONYMOUS_OVERHEAD && open(seal(i, m)) == Some(m))
    && SizesFit(open)
  }

  /** A box is 48 bytes longer than what it holds. */
  ghost predicate SizesFit(open: Open) {
    forall b: seq<byte> :: open(b).Some? ==> |b| == |open(b).value| + ANONYMOUS_OVERHEAD
  }

  // ---- The length prefix ----

  function PutUint32(n: nat): (s: seq<byte>)
    ensures |s| == CRYPT_CHUNK_LENGTH_SIZE
  {
    [n / 256 / 256 / 256 % 256, n / 256 / 256 % 256, n / 256 % 256, n % 256]
  }

  function Uint32(s: seq<byte>): nat
    requires |s| == CRYPT_CHUNK_LENGTH_SIZE
  {
    (s[0] as int) * 0x100_0000 + (s[1] as int) * 0x1_0000 + (s[2] as int) * 256 + s[3] as int
  }

  lemma Uint32Put(n: nat)
    requires n < 0x1_0000_0000
    ensures Uint32(PutUint32(n)) == n
  {
    var a := n / 256;
    var b := a / 256;
    var c := b / 256;
    assert n == a * 256 + n % 256 && a == b * 256 + a % 256 && b == c * 256 + b % 256 && c < 256;
  }

  /** The prefix is big-endian: the most significant byte comes first. */
  lemma PrefixIs(n: nat, s: seq<byte>)
    requires n < 0x1_0000_0000 && |s| == 4
    ensures PutUint32(n) == s
      <==> 0x100_0000 * (s[0] as int) + 0x1_0000 * (s[1] as int) + 256 * (s[2] as int) + s[3] as int == n
    ensures Uint32(s) == 0x100_0000 * (s[0] as int) + 0x1_0000 * (s[1] as int) + 256 * (s[2] as int) + s[3] as int
  {
    Uint32Put(n);
    if Uint32(s) == n {
      var a, b, c, d := s[0] as int, s[1] as int, s[2] as int, s[3] as int;
      Modular.DivUnique(256, n, 0x1_0000 * a + 256 * b + c, d);
      Modular.DivUnique(256, 0x1_0000 * a + 256 * b + c, 256 * a + b, c);
      Modular.DivUnique(256, 256 * a + b, a, b);
    }
  }

  // ---- Encryption ----

  function Frame(seal: Seal, i: nat, message: seq<byte>): seq<byte> {
    PutUint32(|message| + ANONYMOUS_OVERHEAD) + seal(i, message)
  }

  function Head(plain: seq<byte>): nat {
    if |plain| < CRYPT_CHUNK_SIZE then |plain| else CRYPT_CHUNK_SIZE
  }

  /** The encrypted form of a byte string, with the boxes numbered from i. */
  function Encrypt(seal: Seal, i: nat, plain: seq<byte>): seq<byte>
    decreases |plain|
  {
    if plain == [] then []
    else Frame(seal, i, plain[..Head(plain)]) + Encrypt(seal, i + 1, plain[Head(plain)..])
  }

  function Boxes(size: nat): nat {
    (size + CRYPT_CHUNK_SIZE - 1) / CRYPT_CHUNK_SIZE
  }

  function Size(size: nat): nat {
    size + Boxes(size) * CRYPT_CHUNK_OVERHEAD
  }

  lemma EncryptNothing(seal: Seal, i: nat, more: seq<byte>)
    ensures Encrypt(seal, i, []) + more == more
  {
  }

  lemma Regroup(e: seq<byte>, f: seq<byte>, r: seq<byte>, a: seq<byte>, b: seq<byte>)
    requires e == f + r && r == a + b
    ensures e == (f + a) + b
  {
  }

  lemma FrameLength(seal: Seal, open: Open, i: nat, message: seq<byte>)
    requires Opens(open, seal)
    ensures |Frame(seal, i, message)| == |message| + CRYPT_CHUNK_OVERHEAD
  {
  }

  lemma SizeStep(n: nat, h: nat)
    requires 0 < n && h == if n < CRYPT_CHUNK_SIZE then n else CRYPT_CHUNK_SIZE
    ensures Size(n) == h + CRYPT_CHUNK_OVERHEAD + Size(n - h)
  {
    assert Boxes(n) == 1 + Boxes(n - h);
  }

  lemma {:induction false} EncryptLength(seal: Seal, open: Open, i: nat, plain: seq<byte>)
    requires Opens(open, seal)
    ensures |Encrypt(seal, i, plain)| == Size(|plain|)
    decreases |plain|
  {
    if plain != [] {
      EncryptStep(seal, i, plain);
      FrameLength(seal, open, i, plain[..Head(plain)]);
      SizeStep(|plain|, Head(plain));
      hide *;
      EncryptLength(seal, open, i + 1, plain[Head(plain)..]);
    }
  }

  /** The format: 8192 bytes at a time, or what is left, each as a box of 48 bytes more behind its length. */
  lemma FrameLayout(seal: Seal, open: Open, i: nat, plain: seq<byte>)
    requires Opens(open, seal) && plain != []
    ensures var h := if |plain| < 8192 then |plain| else 8192;
      && Encrypt(seal, i, plain) == PutUint32(h + 48) + seal(i, plain[..h]) + Encrypt(seal, i + 1, plain[h..])
      && |seal(i, plain[..h])| == h + 48
    ensures |Encrypt(seal, i, plain)| == |plain| + 52 * ((|plain| + 8191) / 8192)
  {
    EncryptStep(seal, i, plain);
    EncryptLength(seal, open, i, plain);
  }

  /** Encrypting whole chunks first and the rest later is encrypting everything. */
  lemma {:induction false} EncryptAppend(seal: Seal, i: nat, a: seq<byte>, b: seq<byte>, k: nat)
    requires |a| == k * CRYPT_CHUNK_SIZE
    ensures Encrypt(seal, i, a + b) == Encrypt(seal, i, a) + Encrypt(seal, i + k, b)
    decreases k
  {
    hide Encrypt, Frame, Head;
    if k == 0 {
      assert a == [] && a + b == b;
      EncryptNothing(seal, i, Encrypt(seal, i, b));
    } else {
      EncryptStep(seal, i, a + b);
      EncryptStep(seal, i, a);
      assert (a + b)[..CRYPT_CHUNK_SIZE] == a[..CRYPT_CHUNK_SIZE];
      assert (a + b)[CRYPT_CHUNK_SIZE..] == a[CRYPT_CHUNK_SIZE..] + b;
      EncryptAppend(seal, i + 1, a[CRYPT_CHUNK_SIZE..], b, k - 1);
      Regroup(Encrypt(seal, i, a + b), Frame(seal, i, a[..CRYPT_CHUNK_SIZE]),
        Encrypt(seal, i + 1, a[CRYPT_CHUNK_SIZE..] + b),
        Encrypt(seal, i + 1, a[CRYPT_CHUNK_SIZE..]), Encrypt(seal, i + k, b));
    }
  }

  // ---- Decryption ----

  /** What is read from a stream, how reading ends, what is left of the input then, and how many bytes
      of a buffer for a box that did not open are left to be read. */
  datatype Stream = Stream(plain: seq<byte>, end: End, rest: seq<byte>, stale: nat)

  /** The size of the buffer for a message, a 32-bit number without a sign. */
  function Buffer(chunkLen: nat): nat {
    (chunkLen - ANONYMOUS_OVERHEAD) % TWO32
  }

  function Zeros(n: nat): (s: seq<byte>)
    ensures |s| == n
  {
    seq(n, _ => 0)
  }

  /** How a read of exactly n > 0 bytes ends on a shorter input. */
  function ShortRead(input: seq<byte>, end: End): End {
    if end == Eof && input != [] then UnexpectedEof else end
  }

  /** All that a decrypting reader returns for an input that ends in the given way. */
  function Decrypt(open: Open, input: seq<byte>, end: End): Stream
    decreases |input|
  {
    if |input| < CRYPT_CHUNK_LENGTH_SIZE then Stream([], ShortRead(input, end), [], 0)
    else
      var n, body := Uint32(input[..CRYPT_CHUNK_LENGTH_SIZE]), input[CRYPT_CHUNK_LENGTH_SIZE..];
      if n == 0 then Stream([], Eof, body, 0)
      else if |body| < n then Stream([], ShortRead(body, end), [], 0)
      else match open(body[..n])
        case None => Stream([], InvalidBox, body[n..], Buffer(n))
        case Some(message) => Prepend(message, Decrypt(open, body[n..], end))
  }

  function Prepend(message: seq<byte>, s: Stream): Stream {
    s.(plain := message + s.plain)
  }

  /** A frame in front of an input is read back as its message. */
  lemma DecryptFrame(seal: Seal, open: Open, i: nat, message: seq<byte>, input: seq<byte>, end: End)
    requires Opens(open, seal) && |message| <= CRYPT_CHUNK_SIZE
    ensures Decrypt(open, Frame(seal, i, message) + input, end) == Prepend(message, Decrypt(open, input, end))
  {
    var n := |message| + ANONYMOUS_OVERHEAD;
    var whole := Frame(seal, i, message) + input;
    Uint32Put(n);
    assert whole[..4] == PutUint32(n);
    assert whole[4..] == seal(i, message) + input;
    assert (seal(i, message) + input)[..n] == seal(i, message);
    assert (seal(i, message) + input)[n..] == input;
  }

  lemma EncryptStep(seal: Seal, i: nat, plain: seq<byte>)
    requires plain != []
    ensures 0 < Head(plain) <= |plain|
      && Head(plain) == if |plain| < CRYPT_CHUNK_SIZE then |plain| else CRYPT_CHUNK_SIZE
    ensures Encrypt(seal, i, plain) == Frame(seal, i, plain[..Head(plain)]) + Encrypt(seal, i + 1, plain[Head(plain)..])
  {
  }

  lemma PrependNothing(s: Stream)
    ensures Prepend([], s) == s
  {
    assert [] + s.plain == s.plain;
  }

  lemma PrependTwice(a: seq<byte>, b: seq<byte>, s: Stream)
    ensures Prepend(a, Prepend(b, s)) == Prepend(a + b, s)
  {
    assert a + (b + s.plain) == (a + b) + s.plain;
  }

  /** Decryption undoes encryption and goes on with what follows. */
  lemma {:induction false} DecryptEncrypt(seal: Seal, open: Open, i: nat, plain: seq<byte>, input: seq<byte>, end: End)
    requires Opens(open, seal)
    ensures Decrypt(open, Encrypt(seal, i, plain) + input, end) == Prepend(plain, Decrypt(open, input, end))
    decreases |plain|
  {
    hide *;
    if plain == [] {
      EncryptNothing(seal, i, input);
      PrependNothing(Decrypt(open, input, end));
    } else {
      var h := Head(plain);
      DecryptFirst(seal, open, i, plain, h, input, end);
      DecryptEncrypt(seal, open, i + 1, plain[h..], input, end);
      PrependTwice(plain[..h], plain[h..], Decrypt(open, input, end));
      assert plain[..h] + plain[h..] == plain;
    }
  }

  /** The first frame of an encrypted string is read first. */
  lemma DecryptFirst(seal: Seal, open: Open, i: nat, plain: seq<byte>, h: nat, input: seq<byte>, end: End)
    requires Opens(open, seal) && plain != [] && h == Head(plain)
    ensures 0 < h <= |plain|
    ensures Decrypt(open, Encrypt(seal, i, plain) + input, end)
      == Prepend(plain[..h], Decrypt(open, Encrypt(seal, i + 1, plain[h..]) + input, end))
  {
    EncryptStep(seal, i, plain);
    hide *;
    DecryptFrame(seal, open, i, plain[..h], Encrypt(seal, i + 1, plain[h..]) + input, end);
    Assoc(Frame(seal, i, plain[..h]), Encrypt(seal, i + 1, plain[h..]), input);
  }

  lemma Assoc(a: seq<byte>, b: seq<byte>, c: seq<byte>)
    ensures (a + b) + c == a + (b + c)
  {
  }

  /** A stream with its zero terminator: the plaintext, a clean end, and what follows the terminator. */
  lemma RoundTrip(seal: Seal, open: Open, i: nat, plain: seq<byte>, tail: seq<byte>, end: End)
    requires Opens(open, seal)
    ensures Decrypt(open, Encrypt(seal, i, plain) + ([0, 0, 0, 0] + tail), end) == Stream(plain, Eof, tail, 0)
    ensures Decrypt(open, Encrypt(seal, i, plain), Eof) == Stream(plain, Eof, [], 0)
  {
    var zeros: seq<byte> := [0, 0, 0, 0];
    DecryptEncrypt(seal, open, i, plain, zeros + tail, end);
    assert (zeros + tail)[..4] == zeros && (zeros + tail)[4..] == tail;
    DecryptEncrypt(seal, open, i, plain, [], Eof);
    assert Encrypt(seal, i, plain) + [] == Encrypt(seal, i, plain);
    assert plain + [] == plain;
  }

  /** Two layers of encryption, as in a stored report, with the terminator on the outer one only. */
  lemma NestedRoundTrip(inner: Seal, outer: Seal, open: Open, openInner: Open, i: nat, j: nat, plain: seq<byte>,
    tail: seq<byte>, end: End)
    requires Opens(open, outer) && Opens(openInner, inner)
    ensures var middle := Decrypt(open, Encrypt(outer, i, Encrypt(inner, j, plain)) + ([0, 0, 0, 0] + tail), end);
      middle.rest == tail && Decrypt(openInner, middle.plain, middle.end) == Stream(plain, Eof, [], 0)
  {
    RoundTrip(outer, open, i, Encrypt(inner, j, plain), tail, end);
    RoundTrip(inner, openInner, j, plain, [], Eof);
  }

  /** The length of a frame with a whole chunk. */
  const FULL_FRAME: nat := CRYPT_CHUNK_SIZE + CRYPT_CHUNK_OVERHEAD

  /** How a stream ends that has been cut off inside a frame. */
  function CutEnd(cut: nat): End {
    if cut == 0 || cut == CRYPT_CHUNK_LENGTH_SIZE then Eof else UnexpectedEof
  }

  lemma CutFrame(seal: Seal, open: Open, k: nat, message: seq<byte>, cut: nat)
    requires Opens(open, seal) && |message| <= CRYPT_CHUNK_SIZE && cut < |Frame(seal, k, message)|
    ensures Decrypt(open, Frame(seal, k, message)[..cut], Eof) == Stream([], CutEnd(cut), [], 0)
  {
    var part := Frame(seal, k, message)[..cut];
    Uint32Put(|message| + ANONYMOUS_OVERHEAD);
    if cut >= 4 {
      assert part[..4] == PutUint32(|message| + ANONYMOUS_OVERHEAD);
    }
  }

  /** What is read back from the first cut bytes of a stream of the given length. */
  function CutStream(plain: seq<byte>, cut: nat, length: nat): Stream {
    if cut >= length then Stream(plain, Eof, [], 0)
    else
      var whole := cut / FULL_FRAME * CRYPT_CHUNK_SIZE;
      Stream(if whole <= |plain| then plain[..whole] else plain, CutEnd(cut % FULL_FRAME), [], 0)
  }

  /** Every prefix of an encrypted stream: a cut goes unnoticed exactly at the end of a whole frame and
      right behind a length prefix, and what is missing then is part of the plaintext. */
  lemma CutIsNoticed(seal: Seal, open: Open, i: nat, plain: seq<byte>, cut: nat)
    requires Opens(open, seal) && cut <= |Encrypt(seal, i, plain)|
    ensures var s := Decrypt(open, Encrypt(seal, i, plain)[..cut], Eof);
      && s == CutStream(plain, cut, |Encrypt(seal, i, plain)|)
      && (s.end == Eof || s.end == UnexpectedEof)
      && (s.end == Eof <==> cut == |Encrypt(seal, i, plain)| || cut % 8244 == 0 || cut % 8244 == 4)
      && (s.plain == plain <==> cut == |Encrypt(seal, i, plain)|)
  {
    hide Decrypt, Encrypt, Opens, Size, Boxes;
    CutIsRead(seal, open, i, plain, cut);
    EncryptLength(seal, open, i, plain);
    CutLength(|plain|, cut);
  }

  /** Less than the whole stream holds less than the whole plaintext. */
  lemma CutLength(n: nat, cut: nat)
    ensures cut < Size(n) ==> cut / FULL_FRAME * CRYPT_CHUNK_SIZE < n
  {
    if cut < Size(n) {
      var b := Boxes(n);
      assert (b - 1) * CRYPT_CHUNK_SIZE < n <= b * CRYPT_CHUNK_SIZE;
      assert cut < b * FULL_FRAME;
    }
  }

  lemma {:induction false} CutIsRead(seal: Seal, open: Open, i: nat, plain: seq<byte>, cut: nat)
    requires Opens(open, seal) && cut <= |Encrypt(seal, i, plain)|
    ensures Decrypt(open, Encrypt(seal, i, plain)[..cut], Eof) == CutStream(plain, cut, |Encrypt(seal, i, plain)|)
    decreases |plain|
  {
    hide Encrypt, Decrypt, Frame, Head, Opens, CutStream, CutEnd, Prepend, Size, Boxes;
    if plain == [] {
      CutNothing(seal, open, i, cut);
    } else {
      var h := Head(plain);
      EncryptStep(seal, i, plain);
      var first, rest := Frame(seal, i, plain[..h]), Encrypt(seal, i + 1, plain[h..]);
      FrameLength(seal, open, i, plain[..h]);
      EncryptLength(seal, open, i + 1, plain[h..]);
      if cut < |first| {
        CutFrame(seal, open, i, plain[..h], cut);
        assert (first + rest)[..cut] == first[..cut];
        CutFirst(plain, cut, |first| + |rest|);
      } else {
        CutIsRead(seal, open, i + 1, plain[h..], cut - |first|);
        DecryptFrame(seal, open, i, plain[..h], rest[..cut - |first|], Eof);
        assert (first + rest)[..cut] == first + rest[..cut - |first|];
        CutLater(plain, h, cut, |first|, |rest|);
      }
    }
  }

  lemma CutNothing(seal: Seal, open: Open, i: nat, cut: nat)
    requires cut <= |Encrypt(seal, i, [])|
    ensures Decrypt(open, Encrypt(seal, i, [])[..cut], Eof) == CutStream([], cut, |Encrypt(seal, i, [])|)
  {
  }

  lemma CutFirst(plain: seq<byte>, cut: nat, length: nat)
    requires cut < FULL_FRAME && cut < length
    ensures CutStream(plain, cut, length) == Stream([], CutEnd(cut), [], 0)
  {
  }

  lemma CutLater(plain: seq<byte>, h: nat, cut: nat, first: nat, rest: nat)
    requires h <= |plain| && first == h + CRYPT_CHUNK_OVERHEAD && first <= cut <= first + rest
    requires (h == CRYPT_CHUNK_SIZE || h == |plain|) && rest == Size(|plain| - h)
    ensures Prepend(plain[..h], CutStream(plain[h..], cut - first, rest)) == CutStream(plain, cut, first + rest)
  {
    if cut == first + rest {
      assert plain[..h] + plain[h..] == plain;
    } else {
      hide Size, Boxes;
      Modular.DivUnique(FULL_FRAME, cut, 1 + (cut - first) / FULL_FRAME, (cut - first) % FULL_FRAME);
      CutLength(|plain| - h, cut - first);
      var whole := (cut - first) / FULL_FRAME * CRYPT_CHUNK_SIZE;
      assert plain[..h] + plain[h..][..whole] == plain[..h + whole];
    }
  }

  // ---- Reading on after an error ----

  /** What is read from one error to the next by a caller that does not stop. */
  function Stretch(open: Open, input: seq<byte>, end: End, j: nat): Stream {
    if j == 0 then Decrypt(open, input, end) else Decrypt(open, Stretch(open, input, end, j - 1).rest, end)
  }

  /** The bytes that this caller has got when k errors have been passed over and the next one comes. */
  function ReadOn(open: Open, input: seq<byte>, end: End, k: nat): seq<byte> {
    if k == 0 then Stretch(open, input, end, 0).plain
    else
      var zeros := Zeros(Stretch(open, input, end, k - 1).stale);
      ReadOn(open, input, end, k - 1) + (zeros + Stretch(open, input, end, k).plain)
  }

  /** The messages of the boxes that did open. */
  function Genuine(open: Open, input: seq<byte>, end: End, k: nat): seq<byte> {
    if k == 0 then Stretch(open, input, end, 0).plain
    else Genuine(open, input, end, k - 1) + Stretch(open, input, end, k).plain
  }

  /** Among the first k errors is no refused box that leaves a buffer behind. */
  ghost predicate Clean(open: Open, input: seq<byte>, end: End, k: nat) {
    forall j: nat :: j < k ==> Stretch(open, input, end, j).stale == 0
  }

  lemma CleanStep(open: Open, input: seq<byte>, end: End, k: nat)
    requires k > 0
    ensures Clean(open, input, end, k)
      <==> Clean(open, input, end, k - 1) && Stretch(open, input, end, k - 1).stale == 0
  {
    hide Stretch;
  }

  /** Reading on gives nothing but messages of boxes exactly if no buffer is left behind. */
  lemma {:induction false} ReadOnExactly(open: Open, input: seq<byte>, end: End, k: nat)
    ensures |ReadOn(open, input, end, k)| >= |Genuine(open, input, end, k)|
    ensures ReadOn(open, input, end, k) == Genuine(open, input, end, k) <==> Clean(open, input, end, k)
  {
    hide Stretch, Clean;
    CleanStart(open, input, end);
    if k > 0 {
      ReadOnExactly(open, input, end, k - 1);
      CleanStep(open, input, end, k);
      SameFront(ReadOn(open, input, end, k - 1), Genuine(open, input, end, k - 1),
        Zeros(Stretch(open, input, end, k - 1).stale), Stretch(open, input, end, k).plain);
    }
  }

  lemma CleanStart(open: Open, input: seq<byte>, end: End)
    ensures Clean(open, input, end, 0)
  {
  }

  lemma SameFront(a: seq<byte>, b: seq<byte>, zeros: seq<byte>, c: seq<byte>)
    requires |a| >= |b|
    ensures a + (zeros + c) == b + c <==> a == b && |zeros| == 0
  {
    if a + (zeros + c) == b + c {
      assert |a| == |b| && |zeros| == 0;
      assert a == (a + (zeros + c))[..|b|] && b == (b + c)[..|b|];
    }
    if a == b && |zeros| == 0 {
      assert zeros + c == c;
    }
  }

  /** A box that does not open behind others that do: an error, and behind it the zeros of its buffer. */
  lemma BadBox(seal: Seal, open: Open, i: nat, plain: seq<byte>, box: seq<byte>, input: seq<byte>, end: End)
    requires Opens(open, seal) && 0 < |box| < TWO32 && open(box).None?
    ensures var all := Encrypt(seal, i, plain) + (PutUint32(|box|) + (box + input));
      && Stretch(open, all, end, 0) == Stream(plain, InvalidBox, input, (|box| - ANONYMOUS_OVERHEAD) % TWO32)
      && ReadOn(open, all, end, 1)
        == plain + (Zeros((|box| - ANONYMOUS_OVERHEAD) % TWO32) + Decrypt(open, input, end).plain)
      && (ReadOn(open, all, end, 1) == Genuine(open, all, end, 1) <==> |box| == ANONYMOUS_OVERHEAD)
  {
    hide *;
    var tail := PutUint32(|box|) + (box + input);
    DecryptEncrypt(seal, open, i, plain, tail, end);
    DecryptBad(open, plain, box, input, end);
    OneError(open, Encrypt(seal, i, plain) + tail, end);
  }

  lemma DecryptBad(open: Open, plain: seq<byte>, box: seq<byte>, input: seq<byte>, end: End)
    requires 0 < |box| < TWO32 && open(box).None?
    ensures Prepend(plain, Decrypt(open, PutUint32(|box|) + (box + input), end))
      == Stream(plain, InvalidBox, input, (|box| - ANONYMOUS_OVERHEAD) % TWO32)
    ensures (|box| - ANONYMOUS_OVERHEAD) % TWO32 == 0 <==> |box| == ANONYMOUS_OVERHEAD
  {
    assert plain + [] == plain;
    var tail := PutUint32(|box|) + (box + input);
    Uint32Put(|box|);
    assert tail[..4] == PutUint32(|box|) && tail[4..] == box + input;
    assert (box + input)[..|box|] == box && (box + input)[|box|..] == input;
  }

  lemma OneError(open: Open, input: seq<byte>, end: End)
    ensures var s := Decrypt(open, input, end);
      && Stretch(open, input, end, 0) == s
      && ReadOn(open, input, end, 1) == s.plain + (Zeros(s.stale) + Decrypt(open, s.rest, end).plain)
      && (ReadOn(open, input, end, 1) == Genuine(open, input, end, 1) <==> s.stale == 0)
  {
    hide Decrypt, Clean;
    CleanStart(open, input, end);
    CleanStep(open, input, end, 1);
    ReadOnExactly(open, input, end, 1);
  }

  // ---- The sizes announced in advance ----

  /** calculateCryptSize: the quotient goes through a 32-bit conversion. */
  function CalculateCryptSize(plaintextSize: nat): int {
    plaintextSize + ToInt32((plaintextSize + CRYPT_CHUNK_SIZE - 1) / CRYPT_CHUNK_SIZE) * CRYPT_CHUNK_OVERHEAD
  }

  /** The client announces the true length exactly while the number of boxes fits in 31 bits. */
  lemma ClientSizeExact(seal: Seal, open: Open, plain: seq<byte>)
    requires Opens(open, seal)
    ensures CalculateCryptSize(|plain|) == |Encrypt(seal, 0, plain)| <==> Boxes(|plain|) < TWO31
  {
    EncryptLength(seal, open, 0, plain);
  }
}
