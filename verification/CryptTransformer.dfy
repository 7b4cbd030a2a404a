/** The client's encrypting transform stream. */
module CryptTransformer {
  import opened Bits
  import opened CryptFrames
  import opened CryptReaders
  import opened Chunks

  /** The last chunk of the queue, if there is one, holds something. */
  predicate EndsFull(queue: seq<seq<byte>>) {
    queue != [] ==> queue[|queue| - 1] != []
  }

  lemma {:induction false} EndsFullFlat(queue: seq<seq<byte>>)
    requires EndsFull(queue)
    ensures Concat(queue) == [] <==> queue == []
  {
    if queue != [] {
      EndsFullFlat(queue[1..]);
    }
  }

  /** A short enough message is encrypted as one frame. */
  lemma EncryptOne(seal: Seal, i: nat, message: seq<byte>)
    requires 0 < |message| <= CRYPT_CHUNK_SIZE
    ensures Encrypt(seal, i, message) == Frame(seal, i, message)
  {
    EncryptStep(seal, i, message);
    assert message[..|message|] == message && message[|message|..] == [];
  }

  /** The frame of chunk k comes behind the encryption of the chunks before it. */
  lemma NextFrame(seal: Seal, all: seq<byte>, k: nat, message: seq<byte>)
    requires (k + 1) * CRYPT_CHUNK_SIZE <= |all| && message == all[k * CRYPT_CHUNK_SIZE..][..CRYPT_CHUNK_SIZE]
    ensures Encrypt(seal, 0, all[..(k + 1) * CRYPT_CHUNK_SIZE])
      == Encrypt(seal, 0, all[..k * CRYPT_CHUNK_SIZE]) + Frame(seal, k, message)
  {
    EncryptOne(seal, k, message);
    hide *;
    EncryptAppend(seal, 0, all[..k * CRYPT_CHUNK_SIZE], message, k);
    assert all[..(k + 1) * CRYPT_CHUNK_SIZE] == all[..k * CRYPT_CHUNK_SIZE] + message;
  }

  /** What is left over is encrypted behind the complete chunks. */
  lemma LastFrame(seal: Seal, whole: seq<byte>, left: seq<byte>, k: nat)
    requires |whole| == k * CRYPT_CHUNK_SIZE && |left| < CRYPT_CHUNK_SIZE
    ensures Encrypt(seal, 0, whole + left) == Encrypt(seal, 0, whole) + if left == [] then [] else Frame(seal, k, left)
  {
    hide Encrypt, Frame;
    EncryptAppend(seal, 0, whole, left, k);
    if left == [] {
      EncryptNothing(seal, k, []);
    } else {
      EncryptOne(seal, k, left);
    }
  }

  lemma SplitAt(all: seq<byte>, done: nat, chunk: seq<byte>)
    requires done <= |all|
    ensures (all + chunk)[..done] == all[..done] && (all + chunk)[done..] == all[done..] + chunk
  {
  }

  lemma Remainder(n: nat, k: nat)
    requires k * CRYPT_CHUNK_SIZE <= n < (k + 1) * CRYPT_CHUNK_SIZE
    ensures n % CRYPT_CHUNK_SIZE == n - k * CRYPT_CHUNK_SIZE && n / CRYPT_CHUNK_SIZE == k
  {
  }

  /** The one way in which chunk boundaries show: a trailing empty chunk behind complete boxes. */
  predicate ExtraBox(input: seq<seq<byte>>) {
    input != [] && input[|input| - 1] == [] && |Concat(input)| % CRYPT_CHUNK_SIZE == 0
  }

  /** All that the stream puts out for these chunks. */
  function Output(seal: Seal, input: seq<seq<byte>>): seq<byte> {
    Encrypt(seal, 0, Concat(input))
    + if ExtraBox(input) then Frame(seal, |Concat(input)| / CRYPT_CHUNK_SIZE, []) else []
  }

  /** The output decrypts to the bytes given, however they were cut into chunks. */
  lemma OutputDecrypts(seal: Seal, open: Open, input: seq<seq<byte>>)
    requires Opens(open, seal)
    ensures Decrypt(open, Output(seal, input), Eof) == Stream(Concat(input), Eof, [], 0)
  {
    var all, k := Concat(input), |Concat(input)| / CRYPT_CHUNK_SIZE;
    RoundTrip(seal, open, 0, all, [], Eof);
    if ExtraBox(input) {
      DecryptEncrypt(seal, open, 0, all, Frame(seal, k, []), Eof);
      DecryptFrame(seal, open, k, [], [], Eof);
      assert Frame(seal, k, []) + [] == Frame(seal, k, []);
      assert Decrypt(open, [], Eof) == Stream([], Eof, [], 0);
      PrependNothing(Stream([], Eof, [], 0));
      assert all + [] == all;
    } else {
      assert Encrypt(seal, 0, all) + [] == Encrypt(seal, 0, all);
    }
  }

  /** The announced size is right exactly if no empty chunk follows complete boxes at the end and the
      number of boxes fits in 31 bits. */
  lemma OutputLength(seal: Seal, open: Open, input: seq<seq<byte>>)
    requires Opens(open, seal)
    ensures |Output(seal, input)| == CalculateCryptSize(|Concat(input)|)
      <==> !ExtraBox(input) && Boxes(|Concat(input)|) < TWO31
  {
    hide Encrypt, Frame, Concat;
    EncryptLength(seal, open, 0, Concat(input));
    FrameLength(seal, open, |Concat(input)| / CRYPT_CHUNK_SIZE, []);
  }

  /** A single empty chunk makes an empty box of 52 bytes where no byte was announced. */
  lemma ExtraBoxWitness(seal: Seal, open: Open)
    requires Opens(open, seal)
    ensures ExtraBox([[]]) && |Output(seal, [[]])| == 52 && CalculateCryptSize(|Concat([[]])|) == 0
  {
    var input: seq<seq<byte>> := [[]];
    assert input[1..] == [] && Concat(input) == [];
    FrameLength(seal, open, 0, []);
  }

  /** Without empty chunks the output depends on nothing but the bytes. */
  lemma OnlyBytesMatter(seal: Seal, a: seq<seq<byte>>, b: seq<seq<byte>>)
    requires Concat(a) == Concat(b) && EndsFull(a) && EndsFull(b)
    ensures Output(seal, a) == Output(seal, b) == Encrypt(seal, 0, Concat(a))
  {
    assert Encrypt(seal, 0, Concat(a)) + [] == Encrypt(seal, 0, Concat(a));
  }

  /** The output, given what is queued when the stream ends. */
  lemma LastOutput(seal: Seal, input: seq<seq<byte>>, whole: seq<byte>, left: seq<byte>, k: nat, nothingQueued: bool)
    requires Concat(input) == whole + left && |whole| == k * CRYPT_CHUNK_SIZE && |left| < CRYPT_CHUNK_SIZE
    requires nothingQueued ==> left == []
    requires left == [] ==> (!nothingQueued <==> input != [] && input[|input| - 1] == [])
    ensures Output(seal, input) == Encrypt(seal, 0, whole) + if nothingQueued then [] else Frame(seal, k, left)
    ensures nothingQueued ==> Output(seal, input) == Encrypt(seal, 0, whole)
  {
    Remainder(|Concat(input)|, k);
    LastFrame(seal, whole, left, k);
    hide Encrypt, Frame, Concat;
    assert Encrypt(seal, 0, whole) + [] == Encrypt(seal, 0, whole);
  }

  class CryptTransformer {
    const seal: Seal
    var chunkQueue: seq<seq<byte>>
    /** What went to the stream controller, and the count given to the callback. */
    var enqueued: seq<seq<byte>>
    var bytesWritten: nat
    /** History: the chunks given to transform. */
    ghost var input: seq<seq<byte>>

    /** Complete boxes have been written; less than one is queued. */
    ghost predicate Valid()
      reads this
    {
      && Balanced()
      && |Concat(chunkQueue)| < CRYPT_CHUNK_SIZE
      && (Concat(chunkQueue) == [] ==> (chunkQueue != [] <==> input != [] && input[|input| - 1] == []))
    }

    ghost predicate Balanced()
      reads this
    {
      var done := |enqueued| * CRYPT_CHUNK_SIZE;
      && done <= |Concat(input)|
      && Concat(enqueued) == Encrypt(seal, 0, Concat(input)[..done])
      && Concat(chunkQueue) == Concat(input)[done..]
      && bytesWritten == |Concat(enqueued)|
    }

    constructor (seal: Seal)
      ensures Valid() && input == [] && enqueued == [] && this.seal == seal
    {
      this.seal := seal;
      chunkQueue, enqueued, bytesWritten, input := [], [], 0, [];
    }

    /** One round of the inner loop: the first chunk goes to the buffer, its rest back to the queue. */
    method TakePiece(msgBuffer: array<byte>, i: nat) returns (amountToConsume: nat)
      requires msgBuffer.Length == CRYPT_CHUNK_SIZE && i < CRYPT_CHUNK_SIZE && chunkQueue != []
      modifies this`chunkQueue, msgBuffer
      ensures i + amountToConsume <= CRYPT_CHUNK_SIZE
      ensures msgBuffer[..i + amountToConsume] + Concat(chunkQueue) == old(msgBuffer[..i] + Concat(chunkQueue))
      ensures EndsFull(old(chunkQueue)) ==> EndsFull(chunkQueue)
      ensures i + amountToConsume < CRYPT_CHUNK_SIZE ==> |chunkQueue| < |old(chunkQueue)|
    {
      var chunk := chunkQueue[0];
      chunkQueue := chunkQueue[1..];
      ghost var before, rest := msgBuffer[..i], Concat(chunkQueue);
      amountToConsume := Copy(msgBuffer, i, chunk);
      assert msgBuffer[..i + amountToConsume] == before + chunk[..amountToConsume];
      assert chunk == chunk[..amountToConsume] + chunk[amountToConsume..];
      assert before + (chunk + rest) == (before + chunk[..amountToConsume]) + (chunk[amountToConsume..] + rest);
      if amountToConsume < |chunk| {
        chunkQueue := [chunk[amountToConsume..]] + chunkQueue;
      }
    }

    /** The inner loop of writeChunks: up to 8192 bytes off the front of the queue. */
    method TakeMessage(endOfStream: bool) returns (message: seq<byte>)
      requires endOfStream || |Concat(chunkQueue)| >= CRYPT_CHUNK_SIZE
      modifies this`chunkQueue
      ensures message + Concat(chunkQueue) == old(Concat(chunkQueue))
      ensures |message| == Min(CRYPT_CHUNK_SIZE, |old(Concat(chunkQueue))|)
      ensures EndsFull(old(chunkQueue)) ==> EndsFull(chunkQueue)
      ensures |message| < CRYPT_CHUNK_SIZE ==> chunkQueue == []
    {
      var msgBuffer := new byte[CRYPT_CHUNK_SIZE];
      var i: nat := 0;
      while i < CRYPT_CHUNK_SIZE
        invariant i <= CRYPT_CHUNK_SIZE && msgBuffer[..i] + Concat(chunkQueue) == old(Concat(chunkQueue))
        invariant EndsFull(old(chunkQueue)) ==> EndsFull(chunkQueue)
        decreases CRYPT_CHUNK_SIZE > i, |chunkQueue|
      {
        if chunkQueue == [] {
          if !endOfStream {
            assert false;
          }
          return msgBuffer[..i];
        }
        var k := TakePiece(msgBuffer, i);
        i := i + k;
      }
      message := msgBuffer[..i];
    }

    /** One round of the outer loop: a message is sealed, framed and handed on. */
    method WriteChunk(endOfStream: bool)
      requires Balanced() && (endOfStream || |Concat(chunkQueue)| >= CRYPT_CHUNK_SIZE)
      modifies this`chunkQueue, this`enqueued, this`bytesWritten
      ensures var message := old(Concat(chunkQueue))[..Min(CRYPT_CHUNK_SIZE, |old(Concat(chunkQueue))|)];
        enqueued == old(enqueued) + [Frame(seal, |old(enqueued)|, message)]
      ensures |old(Concat(chunkQueue))| >= CRYPT_CHUNK_SIZE ==>
        Balanced() && (EndsFull(old(chunkQueue)) ==> EndsFull(chunkQueue))
        && |Concat(chunkQueue)| == |old(Concat(chunkQueue))| - CRYPT_CHUNK_SIZE
      ensures |old(Concat(chunkQueue))| < CRYPT_CHUNK_SIZE ==> chunkQueue == []
      ensures bytesWritten == |Concat(enqueued)|
    {
      hide Encrypt, Frame, Concat;
      ghost var k, all := |enqueued|, Concat(input);
      var message := TakeMessage(endOfStream);
      assert message == all[k * CRYPT_CHUNK_SIZE..][..|message|];
      if |message| == CRYPT_CHUNK_SIZE {
        NextFrame(seal, all, k, message);
      }
      var fullChunk := Frame(seal, |enqueued|, message);
      ConcatSnoc(enqueued, fullChunk);
      enqueued := enqueued + [fullChunk];
      bytesWritten := bytesWritten + |fullChunk|;
    }

    /** writeChunks: complete boxes only, or at the end of the stream whatever is queued. */
    method WriteChunks(endOfStream: bool)
      requires Balanced() && (endOfStream ==> |Concat(chunkQueue)| < CRYPT_CHUNK_SIZE)
      modifies this`chunkQueue, this`enqueued, this`bytesWritten
      ensures !endOfStream ==> Balanced() && |Concat(chunkQueue)| < CRYPT_CHUNK_SIZE
      ensures !endOfStream && EndsFull(old(chunkQueue)) ==> EndsFull(chunkQueue)
      ensures !endOfStream && |old(Concat(chunkQueue))| < CRYPT_CHUNK_SIZE ==> chunkQueue == old(chunkQueue)
      ensures endOfStream ==> chunkQueue == [] && bytesWritten == |Concat(enqueued)|
      ensures endOfStream && old(chunkQueue) == [] ==> enqueued == old(enqueued)
      ensures endOfStream && old(chunkQueue) != [] ==>
        enqueued == old(enqueued) + [Frame(seal, |old(enqueued)|, old(Concat(chunkQueue)))]
    {
      ghost var left := Concat(chunkQueue);
      assert left[..|left|] == left;
      while if endOfStream then |chunkQueue| > 0 else |Concat(chunkQueue)| >= CRYPT_CHUNK_SIZE
        invariant !endOfStream ==> Balanced() && (EndsFull(old(chunkQueue)) ==> EndsFull(chunkQueue))
        invariant |left| < CRYPT_CHUNK_SIZE && !endOfStream ==> chunkQueue == old(chunkQueue)
        invariant endOfStream && chunkQueue != [] ==>
          Balanced() && chunkQueue == old(chunkQueue) && enqueued == old(enqueued)
        invariant endOfStream && chunkQueue == [] ==> bytesWritten == |Concat(enqueued)|
        invariant endOfStream && chunkQueue == [] ==>
          enqueued == (if old(chunkQueue) == [] then old(enqueued)
            else old(enqueued) + [Frame(seal, |old(enqueued)|, left)])
        decreases if endOfStream then |chunkQueue| else |Concat(chunkQueue)|
      {
        WriteChunk(endOfStream);
      }
    }

    method Transform(chunk: seq<byte>)
      requires Valid()
      modifies this
      ensures Valid() && input == old(input) + [chunk]
    {
      ghost var done, all := |enqueued| * CRYPT_CHUNK_SIZE, Concat(input);
      ConcatSnoc(chunkQueue, chunk);
      ConcatSnoc(input, chunk);
      SplitAt(all, done, chunk);
      hide Concat, Encrypt;
      chunkQueue := chunkQueue + [chunk];
      input := input + [chunk];
      WriteChunks(false);
      if chunk != [] {
        EndsFullFlat(chunkQueue);
      }
    }

    /** The end of the stream: the output is the encryption of all the bytes, and at most one empty box. */
    method Flush()
      requires Valid()
      modifies this`chunkQueue, this`enqueued, this`bytesWritten
      ensures Concat(enqueued) == Output(seal, input)
      ensures bytesWritten == |Concat(enqueued)|
    {
      ghost var k, all, left := |enqueued|, Concat(input), Concat(chunkQueue);
      if chunkQueue == [] {
        assert left == [];
      }
      hide Encrypt, Frame, Concat, Output, ExtraBox;
      LastOutput(seal, input, all[..k * CRYPT_CHUNK_SIZE], left, k, chunkQueue == []);
      ConcatSnoc(enqueued, Frame(seal, k, left));
      WriteChunks(true);
    }
  }
}
