/** A remote file with a cache of chunks. Each method is one stretch of code between two awaits, so
    any sequence of calls is one interleaving of the prefetches that are under way. */
module RangeCache {
  import opened Bits
  import opened FileCursor
  import opened RangePlan
  import opened Results

  datatype Promise = Pending | Resolved | Rejected

  /** One activation of prefetch: just entered, awaiting the promise of another activation's request,
      in fetchRanges with the request for ranges[0] under way, or over. */
  datatype Task =
    | Entered(offset: nat, size: nat)
    | Waiting(offset: nat, size: nat, promise: nat)
    | Fetching(offset: nat, size: nat, ranges: seq<Range>)
    | Completed(offset: nat, size: nat)
    | Failed(offset: nat, size: nat)

  // ---- Chunks and bytes ----

  function FirstBlock(offset: nat, chunkSize: nat): nat
    requires chunkSize > 0
  {
    offset / chunkSize
  }

  function LastBlock(offset: nat, size: nat, fileSize: nat, chunkSize: nat): nat
    requires chunkSize > 0 && fileSize > 0
  {
    var last := (if size > 0 then offset + size - 1 else offset) / chunkSize;
    var lastChunk := (fileSize - 1) / chunkSize;
    if last < lastChunk then last else lastChunk
  }

  lemma DivBounds(i: nat, c: nat, chunkSize: nat)
    requires chunkSize > 0
    ensures c <= i / chunkSize <==> c * chunkSize <= i
  {
    var q := i / chunkSize;
    assert q * chunkSize <= i < (q + 1) * chunkSize;
    if c <= q {
      MulMono(c, q, chunkSize);
    } else {
      MulMono(q + 1, c, chunkSize);
    }
  }

  lemma MulMono(a: nat, b: nat, k: nat)
    requires a <= b
    ensures a * k <= b * k
  {
  }

  /** The bytes of the chunks of r lie between the first and the last byte asked for. */
  lemma InRange(i: nat, r: Range, chunkSize: nat)
    requires chunkSize > 0
    ensures r.start <= i / chunkSize <= r.end <==> r.start * chunkSize <= i < (r.end + 1) * chunkSize
  {
    DivBounds(i, r.start, chunkSize);
    DivBounds(i, r.end + 1, chunkSize);
  }

  function LastByte(r: Range, fileSize: nat, chunkSize: nat): nat
    requires chunkSize > 0 && fileSize > 0
  {
    var last := (r.end + 1) * chunkSize - 1;
    if last < fileSize - 1 then last else fileSize - 1
  }

  lemma DivMono(a: nat, b: nat, chunkSize: nat)
    requires chunkSize > 0 && a <= b
    ensures a / chunkSize <= b / chunkSize
  {
    DivBounds(a, a / chunkSize, chunkSize);
    DivBounds(b, a / chunkSize, chunkSize);
  }

  /** A byte that is read lies in one of the chunks that are looked at. */
  lemma ByteInBlocks(i: nat, offset: nat, size: nat, fileSize: nat, chunkSize: nat)
    requires chunkSize > 0 && fileSize > 0 && offset <= i < offset + size <= fileSize
    ensures FirstBlock(offset, chunkSize) <= i / chunkSize <= LastBlock(offset, size, fileSize, chunkSize)
  {
    DivMono(offset, i, chunkSize);
    DivMono(i, offset + size - 1, chunkSize);
    DivMono(i, fileSize - 1, chunkSize);
  }

  /** The chunks that are looked at are exactly those that hold a byte of the read. */
  lemma NeededExactly(c: nat, offset: nat, size: nat, fileSize: nat, chunkSize: nat)
    requires chunkSize > 0 && size > 0 && offset + size <= fileSize
    ensures FirstBlock(offset, chunkSize) <= c <= LastBlock(offset, size, fileSize, chunkSize)
      <==> exists i :: offset <= i < offset + size && i / chunkSize == c
  {
    var first, last := offset / chunkSize, (offset + size - 1) / chunkSize;
    DivMono(offset + size - 1, fileSize - 1, chunkSize);
    if first <= c <= last {
      var i := if c == first then offset else c * chunkSize;
      DivBounds(offset, c, chunkSize);
      DivBounds(offset + size - 1, c, chunkSize);
      DivBounds(i, c, chunkSize);
      DivBounds(i, c + 1, chunkSize);
      assert offset <= i < offset + size && i / chunkSize == c;
    }
    if i :| offset <= i < offset + size && i / chunkSize == c {
      ByteInBlocks(i, offset, size, fileSize, chunkSize);
    }
  }

  // ---- The parts of the invariant ----

  /** The bytes of fetched chunks are those of the remote file. */
  ghost predicate Cached(remote: seq<byte>, buffer: seq<byte>, fetched: set<nat>, chunkSize: nat)
    requires chunkSize > 0
  {
    |buffer| == |remote| && forall i :: 0 <= i < |remote| && i / chunkSize in fetched ==> buffer[i] == remote[i]
  }

  /** Every chunk that overlaps the bytes is fetched. */
  ghost predicate HasAll(fetched: set<nat>, offset: nat, size: nat, fileSize: nat, chunkSize: nat)
    requires chunkSize > 0 && fileSize > 0
  {
    forall c :: FirstBlock(offset, chunkSize) <= c <= LastBlock(offset, size, fileSize, chunkSize) ==> c in fetched
  }

  /** The ranges are those still missing for the bytes: in order, disjoint, of at most 32 chunks. */
  ghost predicate Missing(ranges: seq<Range>, fetched: set<nat>, offset: nat, size: nat, fileSize: nat, chunkSize: nat)
    requires chunkSize > 0 && fileSize > 0
  {
    && ranges != [] && Spans(ranges) && Maximal(ranges) && Increasing(Expand(ranges))
    && forall c :: c in Expand(ranges)
         <==> FirstBlock(offset, chunkSize) <= c <= LastBlock(offset, size, fileSize, chunkSize) && c !in fetched
  }

  ghost predicate TaskOk(task: Task, promises: nat, fetched: set<nat>, fileSize: nat, chunkSize: nat)
    requires chunkSize > 0 && fileSize > 0
  {
    && task.offset + task.size <= fileSize
    && (task.Waiting? ==> task.promise < promises)
    && (task.Fetching? ==> Missing(task.ranges, fetched, task.offset, task.size, fileSize, chunkSize))
    && (task.Completed? ==> HasAll(fetched, task.offset, task.size, fileSize, chunkSize))
  }

  /** At most one activation is in fetchRanges, and one is whenever there is a current request. */
  ghost predicate OneFetcher(tasks: seq<Task>, current: Option<nat>) {
    && (forall s, t :: 0 <= s < |tasks| && 0 <= t < |tasks| && tasks[s].Fetching? && tasks[t].Fetching? ==> s == t)
    && (current.Some? <==> exists t :: 0 <= t < |tasks| && tasks[t].Fetching?)
  }

  /** The only promise that is not settled is that of the current request. */
  ghost predicate OnePending(promises: seq<Promise>, current: Option<nat>) {
    && (current.Some? ==> current.value < |promises|)
    && forall p :: 0 <= p < |promises| ==> (promises[p] == Pending <==> current == Some(p))
  }

  predicate Overlap(r: Range, s: Range) {
    r.start <= s.end && s.start <= r.end
  }

  /** No chunk is asked for again unless the earlier request failed. */
  ghost predicate NoRepeat(requests: seq<Range>, failed: set<nat>) {
    forall i, j :: 0 <= i < j < |requests| && Overlap(requests[i], requests[j]) ==> i in failed
  }

  ghost predicate RangeFetched(r: Range, fetched: set<nat>) {
    forall c :: r.start <= c <= r.end ==> c in fetched
  }

  /** Every request has been answered or has failed, except the last one while it is under way. */
  ghost predicate History(requests: seq<Range>, failed: set<nat>, fetched: set<nat>, answered: nat) {
    && answered <= |requests|
    && (forall i :: 0 <= i < |requests| ==> requests[i].start <= requests[i].end)
    && (forall i :: 0 <= i < answered ==> i in failed || RangeFetched(requests[i], fetched))
    && NoRepeat(requests, failed)
  }

  /** A request for chunks that are not fetched repeats nothing. */
  lemma NewRequest(requests: seq<Range>, failed: set<nat>, fetched: set<nat>, r: Range)
    requires History(requests, failed, fetched, |requests|)
    requires r.start <= r.end && forall c :: r.start <= c <= r.end ==> c !in fetched
    ensures History(requests + [r], failed, fetched, |requests|)
  {
    forall i | 0 <= i < |requests| && Overlap(requests[i], r) ensures i in failed {
      var c := if r.start < requests[i].start then requests[i].start else r.start;
      assert r.start <= c <= r.end && requests[i].start <= c <= requests[i].end;
      assert c !in fetched;
    }
  }

  lemma FirstRangeChunks(ranges: seq<Range>)
    requires ranges != []
    ensures forall c :: ranges[0].start <= c <= ranges[0].end ==> c in Expand(ranges)
  {
    var r := ranges[0];
    forall c | r.start <= c <= r.end ensures c in Expand(ranges) {
      assert UpTo(r.start, r.end)[c - r.start] == c;
      assert Expand(ranges)[c - r.start] == c;
    }
  }

  lemma IncreasingParts(head: seq<nat>, tail: seq<nat>)
    requires Increasing(head + tail)
    ensures Increasing(tail) && forall c :: c in head ==> c !in tail
  {
    forall i, j | 0 <= i < |head| && 0 <= j < |tail| ensures head[i] != tail[j] {
      assert (head + tail)[i] < (head + tail)[|head| + j];
    }
    forall i, j | 0 <= i < j < |tail| ensures tail[i] < tail[j] {
      assert (head + tail)[|head| + i] < (head + tail)[|head| + j];
    }
  }

  lemma UpToElements(a: nat, b: nat)
    ensures forall c :: c in UpTo(a, b) <==> a <= c <= b
  {
    forall c | a <= c <= b ensures c in UpTo(a, b) {
      assert UpTo(a, b)[c - a] == c;
    }
  }

  lemma TailPlan(ranges: seq<Range>)
    requires |ranges| > 1 && Spans(ranges) && Maximal(ranges)
    ensures Spans(ranges[1..]) && Maximal(ranges[1..])
  {
    var tail := ranges[1..];
    forall i, j | 0 <= i < j < |tail| && j == i + 1
      ensures tail[i].end + 1 != tail[j].start || tail[i].end + 1 == tail[i].start + MAXIMUM_REQUEST_CHUNKS
    {
      assert tail[i] == ranges[i + 1] && tail[j] == ranges[j + 1];
    }
  }

  /** Answering the first range leaves the plan for the others, or nothing to fetch. */
  lemma AfterAnswer(ranges: seq<Range>, fetched: set<nat>, more: set<nat>, offset: nat, size: nat, fileSize: nat,
    chunkSize: nat)
    requires chunkSize > 0 && fileSize > 0 && Missing(ranges, fetched, offset, size, fileSize, chunkSize)
    requires forall c :: c in more <==> c in fetched || ranges[0].start <= c <= ranges[0].end
    ensures |ranges| > 1 ==> Missing(ranges[1..], more, offset, size, fileSize, chunkSize)
    ensures |ranges| == 1 ==> HasAll(more, offset, size, fileSize, chunkSize)
  {
    var r := ranges[0];
    ExpandHead(ranges);
    UpToElements(r.start, r.end);
    assert forall c :: c in Expand(ranges) <==> c in UpTo(r.start, r.end) || c in Expand(ranges[1..]);
    IncreasingParts(UpTo(r.start, r.end), Expand(ranges[1..]));
    if |ranges| > 1 {
      TailPlan(ranges);
      hide Spans, Maximal, Increasing, Expand, UpTo, FirstBlock, LastBlock;
    } else {
      assert Expand(ranges[1..]) == [];
      hide Spans, Maximal, Increasing, Expand, UpTo, FirstBlock, LastBlock;
    }
  }

  // ---- Steps of the invariant ----

  ghost predicate TasksOk(tasks: seq<Task>, promises: nat, fetched: set<nat>, fileSize: nat, chunkSize: nat)
    requires chunkSize > 0 && fileSize > 0
  {
    forall t :: 0 <= t < |tasks| ==> TaskOk(tasks[t], promises, fetched, fileSize, chunkSize)
  }

  /** The request under way is the first range of the activation in fetchRanges. */
  ghost predicate UnderWay(tasks: seq<Task>, requests: seq<Range>) {
    forall t :: 0 <= t < |tasks| && tasks[t].Fetching? && tasks[t].ranges != []
      ==> requests != [] && requests[|requests| - 1] == tasks[t].ranges[0]
  }

  /** More fetched chunks leave every other activation as it should be. */
  lemma TasksGrow(tasks: seq<Task>, t: nat, task: Task, promises: nat, promises': nat, fetched: set<nat>,
    more: set<nat>, fileSize: nat, chunkSize: nat)
    requires chunkSize > 0 && fileSize > 0 && TasksOk(tasks, promises, fetched, fileSize, chunkSize)
    requires t < |tasks| && promises <= promises' && fetched <= more
    requires fetched == more || forall s :: 0 <= s < |tasks| && tasks[s].Fetching? ==> s == t
    requires TaskOk(task, promises', more, fileSize, chunkSize)
    ensures TasksOk(tasks[t := task], promises', more, fileSize, chunkSize)
  {
    hide Missing, FirstBlock, LastBlock;
    forall s | 0 <= s < |tasks| && s != t ensures TaskOk(tasks[s], promises', more, fileSize, chunkSize) {
      assert TaskOk(tasks[s], promises, fetched, fileSize, chunkSize);
    }
  }

  lemma OneStarts(tasks: seq<Task>, t: nat, task: Task, p: nat)
    requires OneFetcher(tasks, None) && t < |tasks| && task.Fetching?
    ensures OneFetcher(tasks[t := task], Some(p))
  {
    assert tasks[t := task][t].Fetching?;
  }

  lemma OneStays(tasks: seq<Task>, t: nat, task: Task, current: Option<nat>, current': Option<nat>)
    requires OneFetcher(tasks, current) && t < |tasks| && tasks[t].Fetching? == task.Fetching?
    requires current.Some? == current'.Some?
    ensures OneFetcher(tasks[t := task], current')
  {
    var after := tasks[t := task];
    forall s | 0 <= s < |tasks| ensures after[s].Fetching? == tasks[s].Fetching? {
    }
  }

  lemma OneEnds(tasks: seq<Task>, t: nat, task: Task, current: Option<nat>)
    requires OneFetcher(tasks, current) && t < |tasks| && tasks[t].Fetching? && !task.Fetching?
    ensures OneFetcher(tasks[t := task], None)
  {
  }

  /** The server's answer to a range request is exactly the range. */
  ghost predicate Exact(bytes: seq<byte>, remote: seq<byte>, r: Range, chunkSize: nat)
    requires chunkSize > 0 && remote != []
  {
    var last := LastByte(r, |remote|, chunkSize);
    r.start * chunkSize <= last && bytes == remote[r.start * chunkSize..last + 1]
  }

  lemma ExactFits(bytes: seq<byte>, remote: seq<byte>, r: Range, chunkSize: nat)
    requires chunkSize > 0 && remote != [] && Exact(bytes, remote, r, chunkSize)
    ensures r.start * chunkSize + |bytes| <= |remote|
  {
  }

  function Overwritten(buffer: seq<byte>, firstByte: nat, bytes: seq<byte>): seq<byte>
    requires firstByte + |bytes| <= |buffer|
  {
    buffer[..firstByte] + bytes + buffer[firstByte + |bytes|..]
  }

  lemma Overwrite(buffer: seq<byte>, firstByte: nat, bytes: seq<byte>, k: nat)
    requires firstByte + |bytes| <= |buffer| && k < |bytes|
    ensures Overwritten(buffer, firstByte, bytes[..0]) == buffer
    ensures Overwritten(buffer, firstByte, bytes[..|bytes|]) == Overwritten(buffer, firstByte, bytes)
    ensures Overwritten(buffer, firstByte, bytes[..k])[firstByte + k := bytes[k]]
      == Overwritten(buffer, firstByte, bytes[..k + 1])
  {
    assert bytes[..|bytes|] == bytes;
    OverwriteOne(buffer, firstByte, bytes[..k], bytes[k]);
    assert bytes[..k] + [bytes[k]] == bytes[..k + 1];
  }

  lemma OverwriteOne(buffer: seq<byte>, firstByte: nat, bytes: seq<byte>, x: byte)
    requires firstByte + |bytes| < |buffer|
    ensures Overwritten(buffer, firstByte, bytes)[firstByte + |bytes| := x]
      == Overwritten(buffer, firstByte, bytes + [x])
  {
  }

  /** The buffer after the bytes are set at the first byte of the range. */
  lemma CacheGrows(remote: seq<byte>, buffer: seq<byte>, buffer': seq<byte>, fetched: set<nat>, more: set<nat>,
    r: Range, bytes: seq<byte>, chunkSize: nat)
    requires chunkSize > 0 && remote != [] && Cached(remote, buffer, fetched, chunkSize)
    requires Exact(bytes, remote, r, chunkSize)
    requires forall c :: c in more ==> c in fetched || r.start <= c <= r.end
    requires r.start * chunkSize + |bytes| <= |buffer| && buffer' == Overwritten(buffer, r.start * chunkSize, bytes)
    ensures Cached(remote, buffer', more, chunkSize)
  {
    forall i | 0 <= i < |remote| && i / chunkSize in more ensures buffer'[i] == remote[i] {
      InRange(i, r, chunkSize);
    }
  }

  /** Answering the last request, with all its chunks fetched. */
  lemma Answered(requests: seq<Range>, failed: set<nat>, fetched: set<nat>, more: set<nat>)
    requires requests != [] && History(requests, failed, fetched, |requests| - 1) && fetched <= more
    requires RangeFetched(requests[|requests| - 1], more)
    ensures History(requests, failed, more, |requests|)
  {
    hide NoRepeat;
    forall i | 0 <= i < |requests| ensures i in failed || RangeFetched(requests[i], more) {
    }
  }

  /** What holds between any two stretches of code, apart from the contents of the buffer. */
  ghost predicate Inv(tasks: seq<Task>, promises: seq<Promise>, current: Option<nat>, requests: seq<Range>,
    failed: set<nat>, fetched: set<nat>, fileSize: nat, chunkSize: nat)
    requires chunkSize > 0 && fileSize > 0
  {
    && TasksOk(tasks, |promises|, fetched, fileSize, chunkSize)
    && OneFetcher(tasks, current)
    && OnePending(promises, current)
    && (current.Some? ==> requests != [])
    && History(requests, failed, fetched, if current.Some? then |requests| - 1 else |requests|)
    && UnderWay(tasks, requests)
  }

  lemma NextPending(promises: seq<Promise>, p: nat)
    requires OnePending(promises, Some(p))
    ensures p < |promises| && OnePending(promises[p := Resolved] + [Pending], Some(|promises|))
  {
  }

  lemma NextUnderWay(tasks: seq<Task>, t: nat, task: Task, requests: seq<Range>, current: Option<nat>)
    requires OneFetcher(tasks, current) && t < |tasks| && tasks[t].Fetching?
    requires task.Fetching? && task.ranges != [] && requests != [] && requests[|requests| - 1] == task.ranges[0]
    ensures UnderWay(tasks[t := task], requests)
  {
  }

  lemma NextRequest(requests: seq<Range>, failed: set<nat>, fetched: set<nat>, more: set<nat>, ranges: seq<Range>,
    offset: nat, size: nat, fileSize: nat, chunkSize: nat)
    requires chunkSize > 0 && fileSize > 0 && |ranges| > 1 && requests != []
    requires History(requests, failed, fetched, |requests| - 1) && requests[|requests| - 1] == ranges[0]
    requires forall c :: c in more <==> c in fetched || ranges[0].start <= c <= ranges[0].end
    requires Missing(ranges[1..], more, offset, size, fileSize, chunkSize)
    ensures History(requests + [ranges[1]], failed, more, |requests|)
  {
    assert ranges[1..][0] == ranges[1];
    hide FirstBlock, LastBlock, Increasing, Maximal, UpTo, NoRepeat;
    Answered(requests, failed, fetched, more);
    FirstRangeChunks(ranges[1..]);
    NewRequest(requests, failed, more, ranges[1]);
  }

  /** The response is there and another range follows. */
  lemma NextRange(tasks: seq<Task>, t: nat, promises: seq<Promise>, p: nat, requests: seq<Range>, failed: set<nat>,
    fetched: set<nat>, more: set<nat>, fileSize: nat, chunkSize: nat)
    requires chunkSize > 0 && fileSize > 0
    requires Inv(tasks, promises, Some(p), requests, failed, fetched, fileSize, chunkSize)
    requires t < |tasks| && tasks[t].Fetching? && |tasks[t].ranges| > 1
    requires var r := tasks[t].ranges[0]; forall c :: c in more <==> c in fetched || r.start <= c <= r.end
    ensures p < |promises|
    ensures Inv(tasks[t := tasks[t].(ranges := tasks[t].ranges[1..])],
      promises[p := Resolved] + [Pending], Some(|promises|),
      requests + [tasks[t].ranges[1]], failed, more, fileSize, chunkSize)
  {
    var ranges := tasks[t].ranges;
    var task := tasks[t].(ranges := ranges[1..]);
    assert TaskOk(tasks[t], |promises|, fetched, fileSize, chunkSize);
    AfterAnswer(ranges, fetched, more, task.offset, task.size, fileSize, chunkSize);
    hide FirstBlock, LastBlock, Increasing, Maximal, UpTo, Expand, Spans, Missing;
    NextRequest(requests, failed, fetched, more, ranges, task.offset, task.size, fileSize, chunkSize);
    hide History;
    TasksGrow(tasks, t, task, |promises|, |promises| + 1, fetched, more, fileSize, chunkSize);
    hide TaskOk, TasksOk;
    OneStays(tasks, t, task, Some(p), Some(|promises|));
    NextUnderWay(tasks, t, task, requests + [ranges[1]], Some(p));
    hide OneFetcher, UnderWay;
    NextPending(promises, p);
  }

  /** The response to the last range is there. */
  lemma LastRange(tasks: seq<Task>, t: nat, promises: seq<Promise>, p: nat, requests: seq<Range>, failed: set<nat>,
    fetched: set<nat>, more: set<nat>, fileSize: nat, chunkSize: nat)
    requires chunkSize > 0 && fileSize > 0
    requires Inv(tasks, promises, Some(p), requests, failed, fetched, fileSize, chunkSize)
    requires t < |tasks| && tasks[t].Fetching? && |tasks[t].ranges| == 1
    requires var r := tasks[t].ranges[0]; forall c :: c in more <==> c in fetched || r.start <= c <= r.end
    ensures p < |promises|
    ensures Inv(tasks[t := Completed(tasks[t].offset, tasks[t].size)], promises[p := Resolved], None, requests, failed,
      more, fileSize, chunkSize)
  {
    var task := Completed(tasks[t].offset, tasks[t].size);
    assert TaskOk(tasks[t], |promises|, fetched, fileSize, chunkSize);
    AfterAnswer(tasks[t].ranges, fetched, more, task.offset, task.size, fileSize, chunkSize);
    Answered(requests, failed, fetched, more);
    TasksGrow(tasks, t, task, |promises|, |promises|, fetched, more, fileSize, chunkSize);
    OneEnds(tasks, t, task, Some(p));
    hide TaskOk, TasksOk, History;
  }

  /** The request under way has failed. */
  lemma RequestFails(tasks: seq<Task>, t: nat, promises: seq<Promise>, p: nat, requests: seq<Range>, failed: set<nat>,
    fetched: set<nat>, fileSize: nat, chunkSize: nat)
    requires chunkSize > 0 && fileSize > 0
    requires Inv(tasks, promises, Some(p), requests, failed, fetched, fileSize, chunkSize)
    requires t < |tasks| && tasks[t].Fetching?
    ensures p < |promises|
    ensures Inv(tasks[t := Failed(tasks[t].offset, tasks[t].size)], promises[p := Rejected], None,
      requests, failed + {|requests| - 1}, fetched, fileSize, chunkSize)
  {
    hide Missing, HasAll, NoRepeat, RangeFetched;
    var task := Failed(tasks[t].offset, tasks[t].size);
    assert TaskOk(tasks[t], |promises|, fetched, fileSize, chunkSize);
    TasksGrow(tasks, t, task, |promises|, |promises|, fetched, fetched, fileSize, chunkSize);
    OneEnds(tasks, t, task, Some(p));
    FailedHistory(requests, failed, fetched);
  }

  /** With its last request failed, a history has no open request. */
  lemma FailedHistory(requests: seq<Range>, failed: set<nat>, fetched: set<nat>)
    requires requests != [] && History(requests, failed, fetched, |requests| - 1)
    ensures History(requests, failed + {|requests| - 1}, fetched, |requests|)
  {
    hide RangeFetched, Overlap;
  }

  /** The first request of an activation that nobody else's request is in the way of. */
  lemma FetchStarts(tasks: seq<Task>, t: nat, promises: seq<Promise>, requests: seq<Range>, failed: set<nat>,
    ranges: seq<Range>, fetched: set<nat>, fileSize: nat, chunkSize: nat)
    requires chunkSize > 0 && fileSize > 0
    requires Inv(tasks, promises, None, requests, failed, fetched, fileSize, chunkSize)
    requires t < |tasks| && !tasks[t].Fetching?
    requires TaskOk(Fetching(tasks[t].offset, tasks[t].size, ranges), |promises|, fetched, fileSize, chunkSize)
    ensures ranges != []
    ensures Inv(tasks[t := Fetching(tasks[t].offset, tasks[t].size, ranges)], promises + [Pending], Some(|promises|),
      requests + [ranges[0]], failed, fetched, fileSize, chunkSize)
  {
    hide FirstBlock, LastBlock, Increasing, Maximal, UpTo, NoRepeat;
    var task := Fetching(tasks[t].offset, tasks[t].size, ranges);
    TasksGrow(tasks, t, task, |promises|, |promises| + 1, fetched, fetched, fileSize, chunkSize);
    OneStarts(tasks, t, task, |promises|);
    FirstRangeChunks(ranges);
    NewRequest(requests, failed, fetched, ranges[0]);
  }

  class RemoteFile {
    const fileSize: nat
    const chunkSize: nat
    const dataBuffer: array<byte>
    var cursor: nat
    var chunksFetched: set<nat>
    var currentRequest: Option<nat>
    var promises: seq<Promise>
    var tasks: seq<Task>
    /** What the server holds, the requests sent so far, and which of them failed. */
    ghost const remote: seq<byte>
    ghost var requests: seq<Range>
    ghost var failed: set<nat>

    ghost predicate Valid()
      reads this, dataBuffer
    {
      && fileSize > 0 && chunkSize > 0 && |remote| == fileSize && dataBuffer.Length == fileSize
      && Cached(remote, dataBuffer[..], chunksFetched, chunkSize)
      && Inv(tasks, promises, currentRequest, requests, failed, chunksFetched, fileSize, chunkSize)
    }

    constructor (ghost remote: seq<byte>, fileSize: nat, chunkSize: nat)
      requires fileSize > 0 && chunkSize > 0 && |remote| == fileSize
      ensures Valid() && fresh(dataBuffer) && this.remote == remote && this.fileSize == fileSize
      ensures this.chunkSize == chunkSize
      ensures cursor == 0 && chunksFetched == {} && tasks == [] && requests == []
    {
      this.remote, this.fileSize, this.chunkSize := remote, fileSize, chunkSize;
      dataBuffer := new byte[fileSize](_ => 0);
      cursor, chunksFetched, currentRequest, promises, tasks := 0, {}, None, [], [];
      requests, failed := [], {};
    }

    /** Where an activation stands behind its loop head: nothing is missing; or it waits for the request
        under way; or there was none, and it has asked for the first of the missing ranges. */
    twostate predicate Advanced(t: nat, offset: nat, size: nat)
      requires chunkSize > 0 && fileSize > 0
      reads this
    {
      && t < |tasks|
      && if HasAll(chunksFetched, offset, size, fileSize, chunkSize) then
           && tasks[t] == Completed(offset, size)
           && promises == old(promises) && currentRequest == old(currentRequest) && requests == old(requests)
         else if old(currentRequest).Some? then
           && tasks[t] == Waiting(offset, size, old(currentRequest).value)
           && promises == old(promises) && currentRequest == old(currentRequest) && requests == old(requests)
           && currentRequest.value < |promises| && promises[currentRequest.value] == Pending
         else
           && tasks[t].Fetching? && tasks[t] == Fetching(offset, size, tasks[t].ranges)
           && Missing(tasks[t].ranges, chunksFetched, offset, size, fileSize, chunkSize)
           && promises == old(promises) + [Pending] && currentRequest == Some(|old(promises)|)
           && requests == old(requests) + [tasks[t].ranges[0]]
    }

    /** The loop head of prefetch: nothing missing, wait for the current request, or start to fetch. */
    method Advance(t: nat)
      requires Valid() && t < |tasks|
      requires tasks[t].Entered? || (tasks[t].Waiting? && promises[tasks[t].promise] == Resolved)
      modifies this`tasks, this`promises, this`currentRequest, this`requests
      ensures Valid() && |tasks| == |old(tasks)| && forall s :: 0 <= s < |tasks| && s != t ==> tasks[s] == old(tasks)[s]
      ensures Advanced(t, old(tasks)[t].offset, old(tasks)[t].size)
    {
      var offset, size := tasks[t].offset, tasks[t].size;
      assert TaskOk(tasks[t], |promises|, chunksFetched, fileSize, chunkSize);
      var blocks := BlocksToFetch(FirstBlock(offset, chunkSize), LastBlock(offset, size, fileSize, chunkSize),
        chunksFetched);
      if blocks == [] {
        SetTask(t, Completed(offset, size));
      } else if currentRequest.Some? {
        assert blocks[0] in blocks;
        SetTask(t, Waiting(offset, size, currentRequest.value));
      } else {
        assert blocks[0] in blocks;
        var ranges := ContiguousRanges(blocks);
        StartFetch(t, ranges);
      }
    }

    method SetTask(t: nat, task: Task)
      requires Valid() && t < |tasks| && !tasks[t].Fetching? && !task.Fetching?
      requires TaskOk(task, |promises|, chunksFetched, fileSize, chunkSize)
      modifies this`tasks
      ensures Valid() && tasks == old(tasks)[t := task]
    {
      TasksGrow(tasks, t, task, |promises|, |promises|, chunksFetched, chunksFetched, fileSize, chunkSize);
      OneStays(tasks, t, task, currentRequest, currentRequest);
      hide TaskOk, OneFetcher, OnePending, History, Cached, TasksOk;
      tasks := tasks[t := task];
    }

    /** The first round of fetchRanges. */
    method StartFetch(t: nat, ranges: seq<Range>)
      requires Valid() && t < |tasks| && !tasks[t].Fetching? && currentRequest.None?
      requires TaskOk(Fetching(tasks[t].offset, tasks[t].size, ranges), |promises|, chunksFetched, fileSize, chunkSize)
      modifies this`tasks, this`promises, this`currentRequest, this`requests
      ensures Valid() && tasks == old(tasks)[t := Fetching(old(tasks)[t].offset, old(tasks)[t].size, ranges)]
      ensures requests == old(requests) + [ranges[0]]
      ensures promises == old(promises) + [Pending] && currentRequest == Some(|old(promises)|)
    {
      FetchStarts(tasks, t, promises, requests, failed, ranges, chunksFetched, fileSize, chunkSize);
      hide *;
      currentRequest := Some(|promises|);
      promises := promises + [Pending];
      tasks := tasks[t := Fetching(tasks[t].offset, tasks[t].size, ranges)];
      requests := requests + [ranges[0]];
    }

    /** prefetch up to its first await. */
    method Prefetch(offset: nat, size: nat) returns (r: Result<nat, Error>)
      requires Valid()
      modifies this`tasks, this`promises, this`currentRequest, this`requests
      ensures Valid() && |tasks| == |old(tasks)| + (if r.Ok? then 1 else 0) && old(tasks) <= tasks
      ensures r == if offset + size > fileSize then Err(EndOfFile) else Ok(|old(tasks)|)
      ensures r.Ok? ==> Advanced(r.value, offset, size)
      ensures r.Err? ==> promises == old(promises) && currentRequest == old(currentRequest) && requests == old(requests)
    {
      if offset + size > fileSize {
        return Err(EndOfFile);
      }
      var t := |tasks|;
      tasks := tasks + [Entered(offset, size)];
      assert forall s :: 0 <= s < t ==> tasks[s] == old(tasks)[s];
      assert OneFetcher(tasks, currentRequest) by {
        if s :| 0 <= s < t && old(tasks)[s].Fetching? { assert tasks[s].Fetching?; }
      }
      Advance(t);
      return Ok(t);
    }

    /** The promise that the activation waits for has been settled. */
    predicate Due(t: nat)
      requires t < |tasks|
      reads this
    {
      tasks[t].Waiting? && tasks[t].promise < |promises| && promises[tasks[t].promise] != Pending
    }

    /** The continuation of prefetch after an await of the request that was current: a rejection fails it,
        otherwise it is at its loop head again. */
    method Resume(t: nat)
      requires Valid() && t < |tasks| && Due(t)
      modifies this`tasks, this`promises, this`currentRequest, this`requests
      ensures Valid() && |tasks| == |old(tasks)| && forall s :: 0 <= s < |tasks| && s != t ==> tasks[s] == old(tasks)[s]
      ensures var task := old(tasks)[t];
        if old(promises)[task.promise] == Rejected
        then tasks[t] == Failed(task.offset, task.size) && promises == old(promises) && requests == old(requests)
        else Advanced(t, task.offset, task.size)
      ensures !Due(t) && old(promises) <= promises
    {
      if promises[tasks[t].promise] == Rejected {
        SetTask(t, Failed(tasks[t].offset, tasks[t].size));
      } else {
        Advance(t);
      }
    }

    /** The continuations that are due, in any order in which the runtime runs them: nobody is left waiting
        for a promise that has been settled. */
    method ResumeAll()
      requires Valid()
      modifies this`tasks, this`promises, this`currentRequest, this`requests
      ensures Valid() && |tasks| == |old(tasks)| && old(promises) <= promises
      ensures forall t :: 0 <= t < |tasks| ==> !Due(t)
      ensures forall t :: 0 <= t < |tasks| && !old(Due(t)) ==> tasks[t] == old(tasks)[t]
      ensures forall t :: 0 <= t < |tasks| && old(Due(t)) ==>
        (tasks[t].Failed? <==> old(promises)[old(tasks)[t].promise] == Rejected)
    {
      for t := 0 to |tasks|
        invariant Valid() && |tasks| == |old(tasks)| && old(promises) <= promises
        invariant forall s :: 0 <= s < t ==> !Due(s) && (tasks[s].Waiting? ==> tasks[s].promise < |promises|)
        invariant forall s :: 0 <= s < |tasks| && (s >= t || !old(Due(s))) ==> tasks[s] == old(tasks)[s]
        invariant forall s :: 0 <= s < t && old(Due(s)) ==>
          (tasks[s].Failed? <==> old(promises)[old(tasks)[s].promise] == Rejected)
      {
        assert TaskOk(old(tasks)[t], |old(promises)|, chunksFetched, fileSize, chunkSize);
        if Due(t) {
          Resume(t);
        }
      }
    }

    method FillBuffer(bytes: seq<byte>, firstByte: nat)
      requires firstByte + |bytes| <= dataBuffer.Length
      modifies dataBuffer
      ensures dataBuffer[..] == Overwritten(old(dataBuffer[..]), firstByte, bytes)
    {
      for k := 0 to |bytes|
        invariant dataBuffer[..] == Overwritten(old(dataBuffer[..]), firstByte, bytes[..k])
      {
        Overwrite(old(dataBuffer[..]), firstByte, bytes, k);
        hide Overwritten;
        dataBuffer[firstByte + k] := bytes[k];
      }
    }

    method AddChunks(r: Range) returns (more: set<nat>)
      requires r.start <= r.end
      ensures forall c :: c in more <==> c in chunksFetched || r.start <= c <= r.end
    {
      more := chunksFetched;
      for i := r.start to r.end + 1
        invariant forall c :: c in more <==> c in chunksFetched || r.start <= c < i
      {
        more := more + {i};
      }
    }

    /** The round of fetchRanges whose response has arrived, and the start of the next round. */
    method Deliver(t: nat, bytes: seq<byte>)
      requires Valid() && t < |tasks| && tasks[t].Fetching? && tasks[t].ranges != []
      requires Exact(bytes, remote, tasks[t].ranges[0], chunkSize)
      modifies this`tasks, this`promises, this`currentRequest, this`requests, this`chunksFetched, dataBuffer
      ensures Valid() && |tasks| == |old(tasks)| && forall s :: 0 <= s < |tasks| && s != t ==> tasks[s] == old(tasks)[s]
      ensures var r := old(tasks)[t].ranges[0];
        forall c :: c in chunksFetched <==> c in old(chunksFetched) || r.start <= c <= r.end
      ensures promises == old(promises)[old(currentRequest).value := Resolved]
        + (if |old(tasks)[t].ranges| > 1 then [Pending] else [])
      ensures if |old(tasks)[t].ranges| > 1
        then tasks[t] == old(tasks)[t].(ranges := old(tasks)[t].ranges[1..])
        else tasks[t] == Completed(old(tasks)[t].offset, old(tasks)[t].size)
      ensures requests == old(requests) + (if |old(tasks)[t].ranges| > 1 then [old(tasks)[t].ranges[1]] else [])
      ensures currentRequest == if |old(tasks)[t].ranges| > 1 then Some(|old(promises)|) else None
    {
      hide Inv, Cached, Exact, Missing, TaskOk, HasAll, Overwritten;
      var ranges, p := tasks[t].ranges, FetchingPromise(t);
      var more := AddChunks(ranges[0]);
      ExactFits(bytes, remote, ranges[0], chunkSize);
      FillBuffer(bytes, ranges[0].start * chunkSize);
      CacheGrows(remote, old(dataBuffer[..]), dataBuffer[..], chunksFetched, more, ranges[0], bytes, chunkSize);
      if |ranges| > 1 {
        NextRange(tasks, t, promises, p, requests, failed, chunksFetched, more, fileSize, chunkSize);
        currentRequest := Some(|promises|);
        promises := promises[p := Resolved] + [Pending];
        tasks := tasks[t := tasks[t].(ranges := ranges[1..])];
        requests := requests + [ranges[1]];
      } else {
        LastRange(tasks, t, promises, p, requests, failed, chunksFetched, more, fileSize, chunkSize);
        currentRequest := None;
        promises := promises[p := Resolved];
        tasks := tasks[t := Completed(tasks[t].offset, tasks[t].size)];
      }
      chunksFetched := more;
    }

    /** The request of an activation in fetchRanges is the current one. */
    function FetchingPromise(t: nat): (p: nat)
      requires Valid() && t < |tasks| && tasks[t].Fetching?
      reads this, dataBuffer
      ensures currentRequest == Some(p) && p < |promises| && tasks[t].ranges != []
      ensures tasks[t].ranges[0].start <= tasks[t].ranges[0].end
    {
      assert TaskOk(tasks[t], |promises|, chunksFetched, fileSize, chunkSize);
      currentRequest.value
    }

    /** The catch clause of fetchRanges: the waiting activations are rejected, the cache is kept. */
    method FailRequest(t: nat)
      requires Valid() && t < |tasks| && tasks[t].Fetching?
      modifies this`tasks, this`promises, this`currentRequest, this`failed
      ensures Valid() && tasks == old(tasks)[t := Failed(old(tasks)[t].offset, old(tasks)[t].size)]
      ensures currentRequest == None && promises == old(promises)[old(currentRequest).value := Rejected]
      ensures failed == old(failed) + {|requests| - 1}
    {
      var p := FetchingPromise(t);
      RequestFails(tasks, t, promises, p, requests, failed, chunksFetched, fileSize, chunkSize);
      hide *;
      failed := failed + {|requests| - 1};
      promises := promises[p := Rejected];
      currentRequest := None;
      tasks := tasks[t := Failed(tasks[t].offset, tasks[t].size)];
    }

    method Seek(offset: int, whence: Whence) returns (ok: bool)
      requires Valid()
      modifies this`cursor
      ensures Valid() && (ok <==> 0 <= Base(old(cursor), fileSize, whence) + offset <= fileSize)
      ensures cursor == if ok then Base(old(cursor), fileSize, whence) + offset else old(cursor)
    {
      var target := SeekTo(cursor, fileSize, offset, whence);
      if target.Ok? {
        cursor := target.value;
      }
      return target.Ok?;
    }

    /** read up to the await of its prefetch; aborted tells whether the abort signal has been given. */
    method BeginRead(aborted: bool, offset: Option<int>, size: nat) returns (r: Result<nat, Error>)
      requires Valid()
      modifies this`tasks, this`promises, this`currentRequest, this`requests
      ensures Valid() && old(tasks) <= tasks
      ensures r.Err? <==> aborted || ReadAt(remote, cursor, offset, size).Err?
      ensures r.Err? ==> r.error == if aborted then Aborted else ReadOutOfBounds
      ensures r.Err? ==> tasks == old(tasks) && requests == old(requests)
      ensures r.Ok? ==> r.value < |tasks| && tasks[r.value].size == size
      ensures r.Ok? ==> Ok(tasks[r.value].offset) == OffsetForRead(cursor, fileSize, offset, size)
      ensures r.Ok? ==> Advanced(r.value, tasks[r.value].offset, size)
    {
      if aborted {
        return Err(Aborted);
      }
      var readOffset := OffsetForRead(cursor, fileSize, offset, size);
      if readOffset.Err? {
        return Err(readOffset.error);
      }
      r := Prefetch(readOffset.value, size);
    }

    /** read after its prefetch, with the cursor as it is now: the bytes are those at the place where the
        read began, and with an unmoved cursor it does what the plain file does. */
    method FinishRead(t: nat, offset: Option<int>, size: nat) returns (bytes: seq<byte>)
      requires Valid() && t < |tasks| && tasks[t].Completed? && tasks[t].size == size
      modifies this`cursor
      ensures Valid() && Ok(bytes) == ReadAt(remote, tasks[t].offset, None, size)
      ensures Ok(tasks[t].offset) == OffsetForRead(old(cursor), fileSize, offset, size) ==>
        Ok(bytes) == ReadAt(remote, old(cursor), offset, size)
      ensures cursor == AfterRead(old(cursor), offset, size)
    {
      CompletedBytes(t);
      bytes := dataBuffer[tasks[t].offset..tasks[t].offset + size];
      if offset.None? {
        cursor := cursor + size;
      }
    }

    /** A prefetch that is over has put the remote bytes in the buffer. */
    lemma CompletedBytes(t: nat)
      requires Valid() && t < |tasks| && tasks[t].Completed?
      ensures var o, s := tasks[t].offset, tasks[t].size;
        o + s <= fileSize && dataBuffer[o..o + s] == remote[o..o + s]
    {
      var o, s := tasks[t].offset, tasks[t].size;
      assert TaskOk(tasks[t], |promises|, chunksFetched, fileSize, chunkSize);
      hide FirstBlock, LastBlock;
      forall i | o <= i < o + s ensures dataBuffer[..][i] == remote[i] {
        ByteInBlocks(i, o, s, fileSize, chunkSize);
      }
      assert dataBuffer[o..o + s] == dataBuffer[..][o..o + s];
    }

    /** An activation that waits for a promise not yet settled has a running request to settle it. */
    lemma NoLostWakeup(t: nat)
      requires Valid() && t < |tasks| && tasks[t].Waiting? && promises[tasks[t].promise] == Pending
      ensures currentRequest == Some(tasks[t].promise) && exists f :: 0 <= f < |tasks| && tasks[f].Fetching?
    {
      assert TaskOk(tasks[t], |promises|, chunksFetched, fileSize, chunkSize);
    }

    /** No two activations are in fetchRanges, and no chunk is asked for twice without a failure. */
    lemma FetchedOnce(i: nat, j: nat, c: nat)
      requires Valid() && i < j < |requests|
      requires requests[i].start <= c <= requests[i].end && requests[j].start <= c <= requests[j].end
      ensures i in failed
      ensures forall s, t :: 0 <= s < |tasks| && 0 <= t < |tasks| && tasks[s].Fetching? && tasks[t].Fetching? ==> s == t
    {
      assert Overlap(requests[i], requests[j]);
    }
  }
}
