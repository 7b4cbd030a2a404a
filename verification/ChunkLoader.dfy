/** The metadata loader of a page: chunks of file ids are fetched one at a time, in an order that
    demands may change while the loader waits. One method is one stretch of code between awaits. */
module ChunkLoader {
  import opened Results

  const CHUNK_SIZE: nat := 256

  datatype File = File(fileId: int, details: int)

  datatype Error = NotInPage(id: int) | Unrealized(id: int)

  /** Where the load loop stands: about to take the next chunk, awaiting a response, awaiting a
      wake-up in pauseWait, or over. */
  datatype Loop = Ready | Fetching(chunk: nat) | Paused | Finished | Failed(chunk: nat) {
    /** Chunk c was requested last and has not been answered. */
    predicate At(c: nat) {
      (Fetching? || Failed?) && chunk == c
    }
  }

  // ---- Chunk lists ----

  predicate NoDup(s: seq<nat>) {
    forall i, j :: 0 <= i < j < |s| ==> s[i] != s[j]
  }

  /** The elements of q that are (or are not) in cs, in the order of q. */
  function Filter(q: seq<nat>, cs: seq<nat>, keep: bool): seq<nat> {
    if q == [] then []
    else (if (q[0] in cs) == keep then [q[0]] else []) + Filter(q[1..], cs, keep)
  }

  lemma FilterStep(q: seq<nat>, cs: seq<nat>, keep: bool)
    requires q != []
    ensures Filter(q, cs, keep) == (if (q[0] in cs) == keep then [q[0]] else []) + Filter(q[1..], cs, keep)
  {
  }

  lemma FilterNothing(q: seq<nat>, cs: seq<nat>, keep: bool)
    requires q == []
    ensures Filter(q, cs, keep) == []
  {
  }

  lemma {:induction false} FilterElements(q: seq<nat>, cs: seq<nat>, keep: bool)
    ensures forall c :: c in Filter(q, cs, keep) <==> c in q && (c in cs) == keep
  {
    if q != [] {
      FilterElements(q[1..], cs, keep);
      assert q == [q[0]] + q[1..];
    }
  }

  lemma {:induction false} FilterNoDup(q: seq<nat>, cs: seq<nat>, keep: bool)
    requires NoDup(q)
    ensures NoDup(Filter(q, cs, keep))
  {
    if q != [] {
      FilterNoDup(q[1..], cs, keep);
      FilterElements(q[1..], cs, keep);
      assert q[0] !in q[1..];
    }
  }

  lemma {:induction false} FilterDemandFirst(q: seq<nat>, cs: seq<nat>, keep: bool, demand: set<nat>)
    requires DemandFirst(q, demand)
    ensures DemandFirst(Filter(q, cs, keep), demand)
  {
    if q != [] {
      FilterDemandFirst(q[1..], cs, keep, demand);
      var f := Filter(q[1..], cs, keep);
      FilterElements(q[1..], cs, keep);
      forall j | 0 <= j < |f| && f[j] in demand ensures q[0] in demand {
        assert f[j] in q[1..];
      }
    }
  }

  /** Demanded chunks stand before all others. */
  predicate DemandFirst(q: seq<nat>, demand: set<nat>) {
    forall i, j :: 0 <= i < j < |q| && q[j] in demand ==> q[i] in demand
  }

  /** reprioritizeChunks: the wanted chunks still queued come first, the rest keep their order. */
  function Reprioritized(q: seq<nat>, cs: seq<nat>): seq<nat> {
    Filter(cs, q, true) + Filter(q, cs, false)
  }

  lemma ReprioritizedFacts(q: seq<nat>, cs: seq<nat>, demand: set<nat>)
    requires NoDup(q) && NoDup(cs) && DemandFirst(q, demand)
    ensures NoDup(Reprioritized(q, cs))
    ensures forall c :: c in Reprioritized(q, cs) <==> c in q
    ensures DemandFirst(Reprioritized(q, cs), demand + (set c | c in Filter(cs, q, true)))
  {
    FilterElements(cs, q, true);
    FilterElements(q, cs, false);
    FilterNoDup(cs, q, true);
    FilterNoDup(q, cs, false);
    FilterDemandFirst(q, cs, false, demand);
    NoDupAppend(Filter(cs, q, true), Filter(q, cs, false));
  }

  /** The elements that are kept stay in their order. */
  lemma {:induction false} FilterOrder(q: seq<nat>, cs: seq<nat>, keep: bool, i: nat, j: nat) returns (a: nat, b: nat)
    requires i < j < |q| && (q[i] in cs) == keep && (q[j] in cs) == keep
    ensures var f := Filter(q, cs, keep); a < b < |f| && f[a] == q[i] && f[b] == q[j]
  {
    var first := if (q[0] in cs) == keep then [q[0]] else [];
    if i == 0 {
      FilterElements(q[1..], cs, keep);
      assert q[1..][j - 1] == q[j] && q[j] in Filter(q[1..], cs, keep);
      var k :| 0 <= k < |Filter(q[1..], cs, keep)| && Filter(q[1..], cs, keep)[k] == q[j];
      a, b := 0, k + 1;
    } else {
      a, b := FilterOrder(q[1..], cs, keep, i - 1, j - 1);
      a, b := a + |first|, b + |first|;
    }
  }

  /** Two wanted chunks that are queued are requested in the order in which they are wanted, and before all
      others; two others keep their order. */
  lemma ReprioritizedOrder(q: seq<nat>, cs: seq<nat>, i: nat, j: nat) returns (a: nat, b: nat)
    requires i < j
    ensures j < |cs| && cs[i] in q && cs[j] in q ==>
      var r := Reprioritized(q, cs); a < b < |Filter(cs, q, true)| <= |r| && r[a] == cs[i] && r[b] == cs[j]
    ensures j < |q| && q[i] !in cs && q[j] !in cs && !(j < |cs| && cs[i] in q && cs[j] in q) ==>
      var r := Reprioritized(q, cs); |Filter(cs, q, true)| <= a < b < |r| && r[a] == q[i] && r[b] == q[j]
  {
    a, b := 0, 0;
    if j < |cs| && cs[i] in q && cs[j] in q {
      a, b := FilterOrder(cs, q, true, i, j);
    } else if j < |q| && q[i] !in cs && q[j] !in cs {
      a, b := FilterOrder(q, cs, false, i, j);
      a, b := a + |Filter(cs, q, true)|, b + |Filter(cs, q, true)|;
    }
  }

  lemma NoDupAppend(a: seq<nat>, b: seq<nat>)
    requires NoDup(a) && NoDup(b) && forall c :: c in a ==> c !in b
    ensures NoDup(a + b)
  {
    forall i, j | 0 <= i < j < |a + b| ensures (a + b)[i] != (a + b)[j] {
      if i < |a| <= j { assert a[i] in a && b[j - |a|] in b; }
    }
  }

  lemma NoDupParts(a: seq<nat>, b: seq<nat>)
    requires NoDup(a + b)
    ensures NoDup(a) && NoDup(b) && forall c :: c in a ==> c !in b
  {
    forall i, j | 0 <= i < j < |a| ensures a[i] != a[j] {
      assert (a + b)[i] != (a + b)[j];
    }
    forall i, j | 0 <= i < j < |b| ensures b[i] != b[j] {
      assert (a + b)[|a| + i] != (a + b)[|a| + j];
    }
    forall i, j | 0 <= i < |a| && 0 <= j < |b| ensures a[i] != b[j] {
      assert (a + b)[i] != (a + b)[|a| + j];
    }
  }

  /** Putting the queue in another order keeps the split into requested and queued chunks. */
  lemma ReorderParts(a: seq<nat>, q: seq<nat>, q': seq<nat>)
    requires NoDup(a + q) && NoDup(q') && forall c :: c in q' <==> c in q
    ensures NoDup(a + q') && forall c :: c in a + q' <==> c in a + q
    ensures q' == [] <==> q == []
  {
    if q != [] { assert q[0] in q'; }
    if q' != [] { assert q'[0] in q; }
    NoDupParts(a, q);
    NoDupAppend(a, q');
  }

  lemma CountingUp(q: seq<nat>)
    requires forall c :: 0 <= c < |q| ==> q[c] == c
    ensures NoDup(q) && forall c :: c in q <==> 0 <= c < |q|
  {
    forall c | 0 <= c < |q| ensures c in q {
      assert q[c] == c;
    }
  }

  /** The files are those loaded for the ids, in order. */
  predicate Names(files: seq<File>, ids: seq<int>, indexOf: map<int, nat>, loaded: map<nat, File>) {
    |files| == |ids| && forall i :: 0 <= i < |ids| ==>
      ids[i] in indexOf && indexOf[ids[i]] in loaded && files[i] == loaded[indexOf[ids[i]]] && files[i].fileId == ids[i]
  }

  function ChunkCount(n: nat): nat {
    (n + CHUNK_SIZE - 1) / CHUNK_SIZE
  }

  /** The ids of chunk c. */
  function Chunk(fileIds: seq<int>, c: nat): seq<int>
    requires c < ChunkCount(|fileIds|)
  {
    fileIds[c * CHUNK_SIZE..if (c + 1) * CHUNK_SIZE < |fileIds| then (c + 1) * CHUNK_SIZE else |fileIds|]
  }

  /** The files hold one of this id. */
  ghost predicate Answered(files: seq<File>, id: int) {
    exists k :: 0 <= k < |files| && files[k].fileId == id
  }

  /** The server answers every id of the chunk. */
  ghost predicate Answers(metadata: seq<File>, ids: seq<int>) {
    forall i :: 0 <= i < |ids| ==> Answered(metadata, ids[i])
  }

  /** A call of demandFetchMetadata that waits: its ids, and the chunks whose promises it awaits. */
  datatype Wait = Wait(ids: seq<int>, chunks: set<nat>)

  /** The loaded files after a response: each known file replaces what was at the index of its id. */
  function Merged(loaded: map<nat, File>, indexOf: map<int, nat>, metadata: seq<File>): map<nat, File> {
    if metadata == [] then loaded
    else
      var before, file := Merged(loaded, indexOf, metadata[..|metadata| - 1]), metadata[|metadata| - 1];
      if file.fileId in indexOf then before[indexOf[file.fileId] := file] else before
  }

  lemma {:induction false} MergedAppend(loaded: map<nat, File>, indexOf: map<int, nat>, a: seq<File>, b: seq<File>)
    ensures Merged(loaded, indexOf, a + b) == Merged(Merged(loaded, indexOf, a), indexOf, b)
  {
    if b == [] {
      assert a + b == a;
    } else {
      MergedAppend(loaded, indexOf, a, b[..|b| - 1]);
      assert (a + b)[..|a + b| - 1] == a + b[..|b| - 1];
    }
  }

  /** An index is filled exactly if a file of its id has been received. */
  lemma {:induction false} MergedKeys(indexOf: map<int, nat>, files: seq<File>, id: int)
    requires id in indexOf && forall a, b :: a in indexOf && b in indexOf && indexOf[a] == indexOf[b] ==> a == b
    ensures indexOf[id] in Merged(map[], indexOf, files) <==> Answered(files, id)
  {
    if files != [] {
      var before := files[..|files| - 1];
      MergedKeys(indexOf, before, id);
      assert files == before + [files[|files| - 1]];
      AnsweredSnoc(before, files[|files| - 1], id);
    }
  }

  lemma AnsweredSnoc(files: seq<File>, file: File, id: int)
    ensures Answered(files + [file], id) <==> Answered(files, id) || file.fileId == id
  {
    AnsweredAppend(files, [file], id);
    assert [file][0] == file;
  }

  lemma AnsweredAppend(a: seq<File>, b: seq<File>, id: int)
    ensures Answered(a + b, id) <==> Answered(a, id) || Answered(b, id)
  {
    if Answered(a, id) {
      var k :| 0 <= k < |a| && a[k].fileId == id;
      assert (a + b)[k] == a[k];
    }
    if Answered(b, id) {
      var k :| 0 <= k < |b| && b[k].fileId == id;
      assert (a + b)[|a| + k] == b[k];
    }
  }

  // ---- The order of a demand ----

  /** One of the first n ids lies in chunk c. */
  ghost predicate Mentioned(ids: seq<int>, chunkOf: map<int, nat>, n: nat, c: nat) {
    exists k :: 0 <= k < n && k < |ids| && ids[k] in chunkOf && chunkOf[ids[k]] == c
  }

  /** At some point c has been mentioned and d has not. */
  ghost predicate Earlier(ids: seq<int>, chunkOf: map<int, nat>, c: nat, d: nat) {
    exists n: nat :: Mentioned(ids, chunkOf, n, c) && !Mentioned(ids, chunkOf, n, d)
  }

  ghost predicate FirstMentions(cs: seq<nat>, ids: seq<int>, chunkOf: map<int, nat>) {
    forall i, j :: 0 <= i < j < |cs| ==> Earlier(ids, chunkOf, cs[i], cs[j])
  }

  lemma NextMention(cs: seq<nat>, ids: seq<int>, chunkOf: map<int, nat>, n: nat, c: nat)
    requires FirstMentions(cs, ids, chunkOf) && !Mentioned(ids, chunkOf, n, c)
    requires forall i :: 0 <= i < |cs| ==> Mentioned(ids, chunkOf, n, cs[i])
    ensures FirstMentions(cs + [c], ids, chunkOf)
  {
    var more := cs + [c];
    forall i, j | 0 <= i < j < |more| ensures Earlier(ids, chunkOf, more[i], more[j]) {
      if j == |cs| {
        assert Mentioned(ids, chunkOf, n, cs[i]);
      } else {
        assert Earlier(ids, chunkOf, cs[i], cs[j]);
      }
    }
  }

  // ---- The parts of the invariant ----

  /** The maps after the ids before n. */
  ghost predicate IndexedTo(fileIds: seq<int>, n: nat, indexOf: map<int, nat>, chunkOf: map<int, nat>)
    requires n <= |fileIds|
  {
    && (forall i :: 0 <= i < n ==> fileIds[i] in indexOf)
    && (forall id :: id in indexOf ==> indexOf[id] < n && fileIds[indexOf[id]] == id)
    && (forall id :: id in indexOf <==> id in chunkOf)
    && (forall id :: id in indexOf ==> chunkOf[id] == indexOf[id] / CHUNK_SIZE)
  }

  /** Requested and queued chunks together are all chunks, each once. */
  ghost predicate Partition(requested: seq<nat>, queue: seq<nat>, count: nat) {
    && NoDup(requested + queue)
    && forall c :: c in requested + queue <==> 0 <= c < count
  }

  /** A chunk has its promise until it is answered. */
  ghost predicate Promises(requested: seq<nat>, queue: seq<nat>, promised: set<nat>, loop: Loop) {
    && (loop.Fetching? || loop.Failed? ==> loop.chunk in requested)
    && (forall c :: c in promised <==> c in queue || loop.At(c))
    && (loop == Finished ==> queue == [])
  }

  /** Every loaded file lies at the index of its id. */
  ghost predicate AtIndex(loaded: map<nat, File>, indexOf: map<int, nat>) {
    forall i :: i in loaded ==> loaded[i].fileId in indexOf && indexOf[loaded[i].fileId] == i
  }

  /** Every id of an answered chunk has been received, unless the answer was not complete. */
  ghost predicate AllReceived(fileIds: seq<int>, received: seq<File>, requested: seq<nat>, incomplete: set<nat>,
    loop: Loop) {
    forall i :: 0 <= i < |fileIds| && i / CHUNK_SIZE in requested && !loop.At(i / CHUNK_SIZE)
      && i / CHUNK_SIZE !in incomplete
      ==> Answered(received, fileIds[i])
  }

  /** A chunk that somebody waits for is demanded, or it has been requested last. */
  ghost predicate WaitsServed(waits: seq<Wait>, promised: set<nat>, demand: set<nat>, loop: Loop) {
    forall w, c :: w in waits && c in w.chunks && c in promised ==> c in demand || loop.At(c)
  }

  /** A wait is for the promises of all its ids that are still there. */
  ghost predicate WaitsCover(waits: seq<Wait>, chunkOf: map<int, nat>, promised: set<nat>) {
    forall w, id :: w in waits && id in w.ids && id in chunkOf && chunkOf[id] in promised ==> chunkOf[id] in w.chunks
  }

  lemma NothingIndexed(ids: seq<int>)
    ensures IndexedTo(ids, 0, map[], map[])
  {
  }

  lemma ChunksOfIndices(ids: seq<int>, n: nat, indexOf: map<int, nat>, chunkOf: map<int, nat>)
    requires n <= |ids| && IndexedTo(ids, n, indexOf, chunkOf)
    ensures forall id :: id in indexOf ==> id in chunkOf && chunkOf[id] == indexOf[id] / 256
  {
  }

  /** A loader that has not requested anything. */
  lemma AllQueued(ids: seq<int>, queue: seq<nat>, promised: set<nat>, indexOf: map<int, nat>, chunkOf: map<int, nat>)
    requires |queue| == ChunkCount(|ids|) && forall c :: 0 <= c < |queue| ==> queue[c] == c
    requires forall c :: c in promised <==> 0 <= c < |queue|
    ensures Partition([], queue, ChunkCount(|ids|)) && Promises([], queue, promised, Ready) && DemandFirst(queue, {})
    ensures AtIndex(map[], indexOf) && Merged(map[], indexOf, []) == map[] && AllReceived(ids, [], [], {}, Ready)
    ensures WaitsServed([], promised, {}, Ready) && WaitsCover([], chunkOf, promised)
  {
    assert [] + queue == queue;
    CountingUp(queue);
  }

  /** A reprioritised queue keeps the split, the promises and the order of demands. */
  lemma ReprioritizeKeeps(requested: seq<nat>, queue: seq<nat>, promised: set<nat>, demand: set<nat>, loop: Loop,
    count: nat, cs: seq<nat>)
    requires NoDup(cs) && Partition(requested, queue, count) && Promises(requested, queue, promised, loop)
    requires DemandFirst(queue, demand) && forall c :: c in demand ==> c in promised
    ensures Partition(requested, Reprioritized(queue, cs), count)
    ensures Promises(requested, Reprioritized(queue, cs), promised, loop)
    ensures DemandFirst(Reprioritized(queue, cs), demand + (set c | c in Filter(cs, queue, true)))
    ensures forall c :: c in demand + (set c | c in Filter(cs, queue, true)) ==> c in promised
    ensures Reprioritized(queue, cs) == [] <==> queue == []
  {
    NoDupParts(requested, queue);
    ReprioritizedFacts(queue, cs, demand);
    ReorderParts(requested, queue, Reprioritized(queue, cs));
    FilterElements(cs, queue, true);
    hide NoDup, DemandFirst, Filter;
  }

  /** Without chunk c, whose promise has been resolved, everything else goes on as before. */
  lemma AnswerKeeps(requested: seq<nat>, queue: seq<nat>, promised: set<nat>, demand: set<nat>, waits: seq<Wait>,
    chunkOf: map<int, nat>, count: nat, c: nat)
    requires Partition(requested, queue, count) && Promises(requested, queue, promised, Fetching(c))
    requires DemandFirst(queue, demand)
    requires WaitsServed(waits, promised, demand, Fetching(c)) && WaitsCover(waits, chunkOf, promised)
    ensures c in requested && Promises(requested, queue, promised - {c}, Ready) && DemandFirst(queue, demand - {c})
    ensures queue != [] ==> Promises(requested, queue, promised - {c}, Paused)
    ensures WaitsServed(waits, promised - {c}, demand - {c}, Ready) && WaitsCover(waits, chunkOf, promised - {c})
    ensures WaitsServed(waits, promised - {c}, demand - {c}, Paused)
  {
    NoDupParts(requested, queue);
    hide NoDup;
  }

  class Loader {
    const fileIds: seq<int>
    var indexOf: map<int, nat>
    var chunkOf: map<int, nat>
    /** fileIdChunks, the keys of chunkToPromise and demandSet; a chunk is named by its position. */
    var queue: seq<nat>
    var promised: set<nat>
    var demand: set<nat>
    var loop: Loop
    var isLoadingPaused: bool
    var loaded: map<nat, File>
    var loadedFileCount: nat
    /** The chunks whose promise has been rejected. */
    var rejected: set<nat>
    /** The calls that wait or have waited. */
    var waits: seq<Wait>
    /** History: the chunks requested from the server and the files received, in order, and the chunks
        whose answer lacked an id. */
    ghost var requested: seq<nat>
    ghost var received: seq<File>
    ghost var incomplete: set<nat>

    /** The last index of every id, and the chunk that index lies in. */
    ghost predicate Indexed()
      reads this
    {
      IndexedTo(fileIds, |fileIds|, indexOf, chunkOf)
    }

    ghost predicate Fetched(c: nat)
      reads this
    {
      c in requested && !loop.At(c)
    }

    ghost predicate Valid()
      reads this
    {
      && Indexed()
      && Partition(requested, queue, ChunkCount(|fileIds|))
      && Promises(requested, queue, promised, loop)
      && AtIndex(loaded, indexOf)
      && loaded == Merged(map[], indexOf, received)
      && AllReceived(fileIds, received, requested, incomplete, loop)
      && WaitsServed(waits, promised, demand, loop) && WaitsCover(waits, chunkOf, promised)
      && rejected == (if loop.Failed? then promised else {})
      && (loop.Fetching? ==> loop.chunk < ChunkCount(|fileIds|))
      && (forall c :: c in demand ==> c in promised)
      && DemandFirst(queue, demand)
      && (loop == Paused ==> demand == {} && queue != [])
    }

    /** updateWithFileIds up to the load loop: builds the chunks and the two maps. */
    constructor (ids: seq<int>, eagerLoadThreshold: nat)
      requires ids != []
      ensures Valid() && fileIds == ids && loop == Ready && requested == [] && received == [] && demand == {}
      ensures waits == []
      ensures incomplete == {}
      ensures isLoadingPaused == (|ids| > eagerLoadThreshold)
      ensures |queue| == (|ids| + 255) / 256 && forall c :: 0 <= c < |queue| ==> queue[c] == c
      ensures forall id :: id in indexOf ==> id in chunkOf && chunkOf[id] == indexOf[id] / 256
    {
      hide IndexedTo, Partition, Promises, NoDup, DemandFirst, AtIndex, AllReceived, WaitsServed, WaitsCover, Merged;
      fileIds := ids;
      indexOf, chunkOf := map[], map[];
      queue, promised, demand := [], {}, {};
      loop, loaded, loadedFileCount := Ready, map[], 0;
      isLoadingPaused := |ids| > eagerLoadThreshold;
      rejected, waits, requested, received, incomplete := {}, [], [], [], {};
      new;
      var i := 0;
      NothingIndexed(ids);
      while i < |ids|
        invariant i == |queue| * CHUNK_SIZE && |queue| <= ChunkCount(|ids|)
        invariant i >= |ids| ==> |queue| == ChunkCount(|ids|)
        invariant forall c :: 0 <= c < |queue| ==> queue[c] == c
        invariant forall c :: c in promised <==> 0 <= c < |queue|
        invariant IndexedTo(fileIds, if i < |ids| then i else |ids|, indexOf, chunkOf)
        invariant fileIds == ids && loop == Ready && requested == [] && loaded == map[] && demand == {}
        invariant rejected == {} && waits == [] && received == [] && incomplete == {}
        invariant isLoadingPaused == (|ids| > eagerLoadThreshold)
        decreases |ids| - i
      {
        IndexChunk(|queue|);
        promised := promised + {|queue|};
        queue := queue + [|queue|];
        i := i + CHUNK_SIZE;
      }
      AllQueued(ids, queue, promised, indexOf, chunkOf);
      ChunksOfIndices(fileIds, |ids|, indexOf, chunkOf);
    }

    method IndexChunk(c: nat)
      requires c < ChunkCount(|fileIds|) && IndexedTo(fileIds, c * CHUNK_SIZE, indexOf, chunkOf)
      modifies this`indexOf, this`chunkOf
      ensures var n := (c + 1) * CHUNK_SIZE;
        IndexedTo(fileIds, if n < |fileIds| then n else |fileIds|, indexOf, chunkOf)
    {
      var chunk := Chunk(fileIds, c);
      for j := 0 to |chunk|
        invariant IndexedTo(fileIds, c * CHUNK_SIZE + j, indexOf, chunkOf)
      {
        assert chunk[j] == fileIds[c * CHUNK_SIZE + j];
        chunkOf := chunkOf[chunk[j] := c];
        indexOf := indexOf[chunk[j] := c * CHUNK_SIZE + j];
      }
    }

    /** getChunksForFileIDs: the chunks of the known ids, each once, in order of first mention. */
    method ChunksFor(ids: seq<int>) returns (cs: seq<nat>)
      requires Indexed()
      ensures NoDup(cs) && FirstMentions(cs, ids, chunkOf)
      ensures forall i :: 0 <= i < |ids| && ids[i] in chunkOf ==> chunkOf[ids[i]] in cs
      ensures forall c :: c in cs ==> exists i :: 0 <= i < |ids| && ids[i] in chunkOf && chunkOf[ids[i]] == c
    {
      cs := [];
      for i := 0 to |ids|
        invariant NoDup(cs) && FirstMentions(cs, ids, chunkOf)
        invariant forall k :: 0 <= k < i && ids[k] in chunkOf ==> chunkOf[ids[k]] in cs
        invariant forall c :: c in cs ==> exists k :: 0 <= k < i && ids[k] in chunkOf && chunkOf[ids[k]] == c
      {
        if ids[i] in chunkOf && chunkOf[ids[i]] !in cs {
          forall a | 0 <= a < |cs| ensures Mentioned(ids, chunkOf, i, cs[a]) {
            assert cs[a] in cs;
          }
          NextMention(cs, ids, chunkOf, i, chunkOf[ids[i]]);
          cs := cs + [chunkOf[ids[i]]];
        }
      }
    }

    method Keep(q: seq<nat>, cs: seq<nat>, keep: bool) returns (r: seq<nat>)
      ensures r == Filter(q, cs, keep)
    {
      hide Filter;
      r := [];
      assert q[0..] == q;
      for i := 0 to |q|
        invariant r + Filter(q[i..], cs, keep) == Filter(q, cs, keep)
      {
        FilterStep(q[i..], cs, keep);
        assert q[i..][1..] == q[i + 1..];
        if (q[i] in cs) == keep {
          assert r + ([q[i]] + Filter(q[i + 1..], cs, keep)) == r + [q[i]] + Filter(q[i + 1..], cs, keep);
          r := r + [q[i]];
        } else {
          assert [] + Filter(q[i + 1..], cs, keep) == Filter(q[i + 1..], cs, keep);
        }
      }
      FilterNothing(q[|q|..], cs, keep);
    }

    /** The wake-up function that pauseWait leaves behind; it does nothing unless the loop waits. */
    method Wakeup()
      requires Valid()
      modifies this`loop
      ensures Valid() && loop == if old(loop) == Paused then Ready else old(loop)
    {
      if loop == Paused {
        loop := Ready;
      }
    }

    /** reprioritizeChunks: the demanded chunks move to the front, and a waiting loop goes on. */
    method ReprioritizeChunks(cs: seq<nat>)
      requires Valid() && NoDup(cs)
      modifies this`queue, this`demand, this`loop
      ensures Valid() && queue == Reprioritized(old(queue), cs)
      ensures demand == old(demand) + (set c | c in Filter(cs, old(queue), true))
      ensures loop == if old(loop) == Paused && demand != {} then Ready else old(loop)
    {
      hide NoDup, DemandFirst, Filter, IndexedTo, AtIndex, Partition, Merged, WaitsCover;
      var chunkList := Keep(cs, queue, true);
      var rest := Keep(queue, cs, false);
      ReprioritizeKeeps(requested, queue, promised, demand, loop, ChunkCount(|fileIds|), cs);
      demand := demand + (set c | c in chunkList);
      queue := chunkList + rest;
      if demand != {} && loop == Paused {
        loop := Ready;
      }
    }

    /** The reprioritize entry, and the first stretch of demandFetchMetadata. */
    method Reprioritize(ids: seq<int>) returns (cs: seq<nat>)
      requires Valid()
      modifies this`queue, this`demand, this`loop
      ensures Valid() && (forall c :: c in queue <==> c in old(queue))
      ensures queue == Reprioritized(old(queue), cs) && NoDup(cs) && FirstMentions(cs, ids, chunkOf)
      ensures forall i :: 0 <= i < |ids| && ids[i] in chunkOf ==> chunkOf[ids[i]] in cs
      ensures forall c :: c in cs && c in queue ==> c in demand
      ensures loop == if old(loop) == Paused && demand != {} then Ready else old(loop)
    {
      cs := ChunksFor(ids);
      FilterElements(cs, queue, true);
      FilterElements(queue, cs, false);
      ReprioritizeChunks(cs);
    }

    /** demandFetchMetadata up to its await: the call waits for the promises that its chunks still have. */
    method DemandFetch(ids: seq<int>) returns (t: nat)
      requires Valid()
      modifies this`queue, this`demand, this`loop, this`waits
      ensures Valid() && (forall c :: c in queue <==> c in old(queue))
      ensures t == |old(waits)| && |waits| == t + 1 && waits[..t] == old(waits) && waits[t].ids == ids
      ensures forall c :: c in waits[t].chunks ==> c in promised && (c in demand || loop.At(c))
      ensures loop == if old(loop) == Paused && demand != {} then Ready else old(loop)
    {
      var cs := Reprioritize(ids);
      t := |waits|;
      waits := waits + [Wait(ids, set c | c in cs && c in promised)];
    }

    /** A wait is over when all its promises are resolved, or when one is rejected. */
    predicate Resolved(t: nat)
      requires t < |waits|
      reads this
    {
      forall c :: c in waits[t].chunks ==> c !in promised
    }

    predicate Rejected(t: nat)
      requires t < |waits|
      reads this
    {
      exists c :: c in waits[t].chunks && c in rejected
    }

    /** The head of the load loop: the next chunk is taken off the queue and requested. */
    method Next()
      requires Valid() && loop == Ready
      modifies this`queue, this`loop, this`requested
      ensures Valid()
      ensures old(queue) == [] ==> loop == Finished && queue == [] && requested == old(requested)
      ensures old(queue) != [] ==> loop == Fetching(old(queue)[0]) && queue == old(queue)[1..]
      ensures old(queue) != [] ==> requested == old(requested) + [old(queue)[0]]
      ensures loop.Fetching? ==> loop.chunk !in old(requested) && loop.chunk in promised
      ensures loop.Fetching? && loop.chunk !in demand ==> forall c :: c in queue ==> c !in demand
    {
      if queue == [] {
        loop := Finished;
        return;
      }
      var chunk := queue[0];
      TakeHead(requested, queue, demand);
      assert chunk in requested + queue;
      queue := queue[1..];
      loop := Fetching(chunk);
      requested := requested + [chunk];
    }

    /** The files of the response go to the indices of their ids; unknown ids are skipped. */
    method Store(metadata: seq<File>)
      requires Indexed()
      requires AtIndex(loaded, indexOf)
      modifies this`loaded
      ensures loaded == Merged(old(loaded), indexOf, metadata) && AtIndex(loaded, indexOf)
    {
      for j := 0 to |metadata|
        invariant loaded == Merged(old(loaded), indexOf, metadata[..j]) && AtIndex(loaded, indexOf)
      {
        var file := metadata[j];
        assert metadata[..j + 1][..j] == metadata[..j];
        if file.fileId in indexOf {
          loaded := loaded[indexOf[file.fileId] := file];
        }
      }
      assert metadata[..|metadata|] == metadata;
    }

    /** The body of the load loop after a response, whatever files it holds; then pauseWait, unless
        something is demanded. */
    method Respond(metadata: seq<File>)
      requires Valid() && loop.Fetching?
      modifies this`promised, this`demand, this`loop, this`loaded, this`loadedFileCount, this`received, this`incomplete
      ensures Valid()
      ensures promised == old(promised) - {old(loop.chunk)} && demand == old(demand) - {old(loop.chunk)}
      ensures loop == if demand == {} && queue != [] && isLoadingPaused then Paused else Ready
      ensures Fetched(old(loop.chunk))
      ensures loaded == Merged(old(loaded), indexOf, metadata) && loadedFileCount == old(loadedFileCount) + |metadata|
      ensures received == old(received) + metadata
      ensures incomplete == old(incomplete)
        + (if Answers(metadata, Chunk(fileIds, old(loop.chunk))) then {} else {old(loop.chunk)})
    {
      hide IndexedTo, AtIndex, Partition, Promises, DemandFirst, WaitsServed, WaitsCover, AllReceived, Answers, Merged;
      var c := loop.chunk;
      AnswerKeeps(requested, queue, promised, demand, waits, chunkOf, ChunkCount(|fileIds|), c);
      promised := promised - {c};
      demand := demand - {c};
      loadedFileCount := loadedFileCount + |metadata|;
      Store(metadata);
      MergedAppend(map[], indexOf, received, metadata);
      ReceiveMore(fileIds, received, metadata, requested, incomplete, c);
      received := received + metadata;
      incomplete := incomplete + (if Answers(metadata, Chunk(fileIds, c)) then {} else {c});
      loop := if demand == {} && |queue| > 0 && isLoadingPaused then Paused else Ready;
    }

    /** A failed request, or an answer that comes when another page is shown, ends the loop: the promises
        that are left are rejected, and their chunks are never loaded. */
    method Fail()
      requires Valid() && loop.Fetching?
      modifies this`loop, this`rejected
      ensures Valid() && loop == Failed(old(loop.chunk)) && rejected == promised
    {
      loop := Failed(loop.chunk);
      rejected := promised;
    }

    method SetIsLoadingPaused(paused: bool)
      requires Valid()
      modifies this`isLoadingPaused, this`loop
      ensures Valid() && isLoadingPaused == paused
      ensures loop == if !paused && old(loop) == Paused then Ready else old(loop)
    {
      isLoadingPaused := paused;
      if !paused {
        Wakeup();
      }
    }

    /** demandFetchMetadata after its await: the loaded files of all ids, or an id that is not in the page
        or of which no file has come; that is in a chunk whose answer was not complete. */
    method RealizedFiles(t: nat) returns (r: Result<seq<File>, Error>)
      requires Valid() && t < |waits| && Resolved(t)
      ensures r.Ok? <==> forall i :: 0 <= i < |waits[t].ids| ==>
        waits[t].ids[i] in fileIds && Answered(received, waits[t].ids[i])
      ensures r.Ok? ==> Names(r.value, waits[t].ids, indexOf, loaded)
      ensures r.Err? ==> r.error.id in waits[t].ids && (r.error.NotInPage? <==> r.error.id !in fileIds)
      ensures r.Err? && r.error.Unrealized? ==>
        !Answered(received, r.error.id) && r.error.id in chunkOf && chunkOf[r.error.id] in incomplete
    {
      hide Partition, Promises, Merged, AllReceived, DemandFirst, WaitsServed, Answered;
      var ids := waits[t].ids;
      var files: seq<File> := [];
      for i := 0 to |ids|
        invariant Names(files, ids[..i], indexOf, loaded)
        invariant forall k :: 0 <= k < i ==> ids[k] in fileIds && Answered(received, ids[k])
      {
        var id := ids[i];
        assert waits[t] in waits && id in waits[t].ids;
        if id !in indexOf {
          assert id !in fileIds;
          return Err(NotInPage(id));
        }
        var index := indexOf[id];
        MergedKeys(indexOf, received, id);
        if index !in loaded {
          MissingIsIncomplete(id);
          return Err(Unrealized(id));
        }
        files := files + [loaded[index]];
      }
      return Ok(files);
    }

    /** A fetched chunk without a file of one of its ids was not answered completely. */
    lemma MissingIsIncomplete(id: int)
      requires Valid() && id in indexOf && chunkOf[id] !in promised && !Answered(received, id)
      ensures chunkOf[id] in incomplete
    {
      ResolvedIsFetched(chunkOf[id]);
    }

    /** Nobody waits for a loop that is paused or over: every wait has been resolved or rejected. */
    lemma NoWaitHangs(t: nat)
      requires Valid() && t < |waits|
      ensures loop == Paused || loop == Finished ==> Resolved(t)
      ensures loop.Failed? ==> Resolved(t) || Rejected(t)
      ensures Rejected(t) ==> loop.Failed? && !Resolved(t)
    {
      assert waits[t] in waits;
    }

    /** A chunk whose promise is gone has been fetched. */
    lemma ResolvedIsFetched(c: nat)
      requires Valid() && c < ChunkCount(|fileIds|) && c !in promised
      ensures Fetched(c)
    {
      assert c in requested + queue;
    }

    /** A loop that is over has requested every chunk exactly once and loaded every id, apart from those
        in chunks with an incomplete answer. */
    lemma FinishedLoadsAll()
      requires Valid() && loop == Finished
      ensures NoDup(requested) && (forall c :: c in requested <==> 0 <= c < ChunkCount(|fileIds|))
      ensures forall i :: 0 <= i < |fileIds| && i / CHUNK_SIZE !in incomplete ==>
        fileIds[i] in indexOf && indexOf[fileIds[i]] in loaded && loaded[indexOf[fileIds[i]]].fileId == fileIds[i]
    {
      assert requested + queue == requested;
      forall i | 0 <= i < |fileIds| && i / CHUNK_SIZE !in incomplete ensures indexOf[fileIds[i]] in loaded {
        assert Fetched(i / CHUNK_SIZE);
        MergedKeys(indexOf, received, fileIds[i]);
      }
    }
  }

  /** A response to the request for chunk c. */
  lemma ReceiveMore(fileIds: seq<int>, received: seq<File>, metadata: seq<File>, requested: seq<nat>,
    incomplete: set<nat>, c: nat)
    requires c < ChunkCount(|fileIds|) && AllReceived(fileIds, received, requested, incomplete, Fetching(c))
    ensures var more := incomplete + (if Answers(metadata, Chunk(fileIds, c)) then {} else {c});
      AllReceived(fileIds, received + metadata, requested, more, Ready)
      && AllReceived(fileIds, received + metadata, requested, more, Paused)
  {
    var more := incomplete + (if Answers(metadata, Chunk(fileIds, c)) then {} else {c});
    forall i | 0 <= i < |fileIds| && i / CHUNK_SIZE in requested && i / CHUNK_SIZE !in more
      ensures Answered(received + metadata, fileIds[i])
    {
      AnsweredAppend(received, metadata, fileIds[i]);
      if i / CHUNK_SIZE == c {
        assert fileIds[i] == Chunk(fileIds, c)[i - c * CHUNK_SIZE];
      }
    }
  }

  /** Taking the head of the queue moves it to the end of the requested chunks. */
  lemma TakeHead(a: seq<nat>, q: seq<nat>, demand: set<nat>)
    requires q != [] && NoDup(a + q) && DemandFirst(q, demand)
    ensures a + [q[0]] + q[1..] == a + q && q[0] !in a && q[0] !in q[1..] && DemandFirst(q[1..], demand)
  {
    NoDupParts(a, q);
    assert q == [q[0]] + q[1..];
  }
}
