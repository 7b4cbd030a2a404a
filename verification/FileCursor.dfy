/** The cursor of file-like objects, and the file that is held in memory. */
module FileCursor {
  import opened Bits
  import opened Results

  datatype Error = SeekOutOfBounds | ReadOutOfBounds | EndOfFile | Aborted

  datatype Whence = SeekSet | SeekCur | SeekEnd

  /** The place that a seek counts from. */
  function Base(cursor: nat, fileSize: nat, whence: Whence): nat {
    match whence
    case SeekSet => 0
    case SeekCur => cursor
    case SeekEnd => fileSize
  }

  /** The new cursor of a seek. */
  function SeekTo(cursor: nat, fileSize: nat, offset: int, whence: Whence): (r: Result<nat, Error>)
    ensures r.Ok? <==> 0 <= Base(cursor, fileSize, whence) + offset <= fileSize
    ensures r.Ok? ==> r.value == Base(cursor, fileSize, whence) + offset
    ensures r.Err? ==> r.error == SeekOutOfBounds
  {
    var newCursor := match whence
      case SeekSet => offset
      case SeekCur => cursor + offset
      case SeekEnd => fileSize + offset;
    if newCursor < 0 || newCursor > fileSize then Err(SeekOutOfBounds) else Ok(newCursor)
  }

  /** Where a read starts: only if all its bytes lie in the file. */
  function OffsetForRead(cursor: nat, fileSize: nat, offset: Option<int>, size: nat): (r: Result<nat, Error>)
    ensures offset.None? ==> r == if cursor + size <= fileSize then Ok(cursor) else Err(ReadOutOfBounds)
    ensures offset.Some? && offset.value < 0 ==> r == Err(ReadOutOfBounds)
    ensures offset.Some? && offset.value >= 0 ==>
      r == if offset.value + size <= fileSize then Ok(offset.value) else Err(ReadOutOfBounds)
  {
    var readOffset := if offset.Some? then offset.value else cursor;
    if readOffset < 0 || readOffset + size > fileSize then Err(ReadOutOfBounds) else Ok(readOffset)
  }

  /** What a read of a file with these contents returns. */
  function ReadAt(contents: seq<byte>, cursor: nat, offset: Option<int>, size: nat): (r: Result<seq<byte>, Error>)
    ensures r.Ok? ==> |r.value| == size
  {
    match OffsetForRead(cursor, |contents|, offset, size)
    case Ok(o) => Ok(contents[o..o + size])
    case Err(e) => Err(e)
  }

  /** Where a read that succeeds leaves the cursor. */
  function AfterRead(cursor: nat, offset: Option<int>, size: nat): nat {
    if offset.None? then cursor + size else cursor
  }

  /** Every seek from a place in the file can be undone, by either of the other kinds of seek. */
  lemma SeekBack(cursor: nat, fileSize: nat, offset: int, whence: Whence)
    requires cursor <= fileSize && SeekTo(cursor, fileSize, offset, whence).Ok?
    ensures var there := SeekTo(cursor, fileSize, offset, whence).value;
      && SeekTo(there, fileSize, cursor - there, SeekCur) == Ok(cursor)
      && SeekTo(there, fileSize, cursor, SeekSet) == Ok(cursor)
      && SeekTo(there, fileSize, cursor - fileSize, SeekEnd) == Ok(cursor)
  {
  }

  /** Two reads at the cursor are one read of both sizes: the bytes of one behind those of the other,
      and both succeed exactly if the large one does. */
  lemma ReadsJoin(contents: seq<byte>, cursor: nat, m: nat, n: nat)
    ensures var first := ReadAt(contents, cursor, None, m);
      var second := ReadAt(contents, AfterRead(cursor, None, m), None, n);
      ReadAt(contents, cursor, None, m + n)
        == if first.Ok? && second.Ok? then Ok(first.value + second.value) else Err(ReadOutOfBounds)
  {
    if cursor + m + n <= |contents| {
      assert contents[cursor..cursor + (m + n)] == contents[cursor..cursor + m] + contents[cursor + m..cursor + m + n];
    }
  }

  /** Reading at an offset is seeking there, reading at the cursor, and seeking back. */
  lemma ReadIsSeekAndRead(contents: seq<byte>, cursor: nat, offset: int, size: nat)
    ensures ReadAt(contents, cursor, Some(offset), size)
      == match SeekTo(cursor, |contents|, offset, SeekSet)
         case Ok(there) => ReadAt(contents, there, None, size)
         case Err(_) => Err(ReadOutOfBounds)
    ensures AfterRead(cursor, Some(offset), size) == cursor
  {
  }

  /** MemoryFile: the plain file that a remote file has to agree with. */
  class MemoryFile {
    const data: seq<byte>
    var cursor: nat

    ghost predicate Valid()
      reads this
    {
      cursor <= |data|
    }

    constructor (data: seq<byte>)
      ensures Valid() && this.data == data && cursor == 0
    {
      this.data := data;
      cursor := 0;
    }

    method Seek(offset: int, whence: Whence) returns (ok: bool)
      requires Valid()
      modifies this`cursor
      ensures Valid() && (ok <==> 0 <= Base(old(cursor), |data|, whence) + offset <= |data|)
      ensures cursor == if ok then Base(old(cursor), |data|, whence) + offset else old(cursor)
    {
      var target := SeekTo(cursor, |data|, offset, whence);
      if target.Ok? {
        cursor := target.value;
      }
      return target.Ok?;
    }

    method Read(offset: Option<int>, size: nat) returns (r: Result<seq<byte>, Error>)
      requires Valid()
      modifies this`cursor
      ensures Valid() && r == ReadAt(data, old(cursor), offset, size)
      ensures cursor == if r.Ok? then AfterRead(old(cursor), offset, size) else old(cursor)
    {
      var readOffset := OffsetForRead(cursor, |data|, offset, size);
      if readOffset.Err? {
        return Err(readOffset.error);
      }
      r := Ok(data[readOffset.value..readOffset.value + size]);
      if offset.None? {
        cursor := cursor + size;
      }
    }
  }
}
