/** Which blocks of a remote file are missing, and how they are grouped into range requests. */
module RangePlan {

  const MAXIMUM_REQUEST_CHUNKS: nat := 32

  datatype Range = Range(start: nat, end: nat)

  ghost predicate Increasing(s: seq<nat>) {
    forall i, j :: 0 <= i < j < |s| ==> s[i] < s[j]
  }

  /** The blocks from a to b. */
  function UpTo(a: nat, b: nat): (s: seq<nat>)
    ensures |s| == if a <= b then b - a + 1 else 0
    ensures forall i :: 0 <= i < |s| ==> s[i] == a + i
    decreases b + 1 - a
  {
    if a > b then [] else [a] + UpTo(a + 1, b)
  }

  /** The blocks that the ranges ask for, in order. */
  function Expand(ranges: seq<Range>): seq<nat> {
    if ranges == [] then [] else UpTo(ranges[0].start, ranges[0].end) + Expand(ranges[1..])
  }

  ghost predicate Spans(ranges: seq<Range>) {
    forall i :: 0 <= i < |ranges| ==> ranges[i].start <= ranges[i].end < ranges[i].start + MAXIMUM_REQUEST_CHUNKS
  }

  /** A range ends before a gap, or because it is full. */
  ghost predicate Maximal(ranges: seq<Range>) {
    forall i, j :: 0 <= i < j < |ranges| && j == i + 1
      ==> ranges[i].end + 1 != ranges[j].start || ranges[i].end + 1 == ranges[i].start + MAXIMUM_REQUEST_CHUNKS
  }

  lemma UpToSnoc(a: nat, b: nat)
    requires a <= b + 1
    ensures UpTo(a, b + 1) == UpTo(a, b) + [b + 1]
  {
  }

  lemma ExpandHead(ranges: seq<Range>)
    requires ranges != []
    ensures Expand(ranges) == UpTo(ranges[0].start, ranges[0].end) + Expand(ranges[1..])
  {
  }

  lemma SingleBlock(block: nat)
    ensures UpTo(block, block) == [block] && Expand([Range(block, block)]) == [block]
    ensures Spans([Range(block, block)]) && Maximal([Range(block, block)])
  {
    assert UpTo(block + 1, block) == [];
  }

  lemma {:induction false} ExpandSnoc(ranges: seq<Range>, r: Range)
    ensures Expand(ranges + [r]) == Expand(ranges) + UpTo(r.start, r.end)
  {
    hide UpTo;
    if ranges == [] {
      assert [] + [r] == [r];
      assert UpTo(r.start, r.end) + [] == UpTo(r.start, r.end);
    } else {
      ExpandSnoc(ranges[1..], r);
      assert (ranges + [r])[1..] == ranges[1..] + [r];
      ExpandHead(ranges);
      ExpandHead(ranges + [r]);
      hide Expand;
      var first, rest, last := UpTo(ranges[0].start, ranges[0].end), Expand(ranges[1..]), UpTo(r.start, r.end);
      assert (first + rest) + last == first + (rest + last);
    }
  }

  /** blocksToFetch: the blocks from first to last that are not yet fetched. */
  method BlocksToFetch(first: nat, last: nat, fetched: set<nat>) returns (blocks: seq<nat>)
    ensures Increasing(blocks)
    ensures forall c :: c in blocks <==> first <= c <= last && c !in fetched
  {
    blocks := [];
    var i := first;
    while i <= last
      invariant first <= i && Increasing(blocks) && forall k :: 0 <= k < |blocks| ==> blocks[k] < i
      invariant forall c :: c in blocks <==> first <= c < i && c <= last && c !in fetched
      decreases last + 1 - i
    {
      if i !in fetched {
        blocks := blocks + [i];
      }
      i := i + 1;
    }
  }

  /** A block adjacent to the last range joins it if there is room. */
  lemma ExtendLast(init: seq<Range>, last: Range, block: nat)
    requires Spans(init + [last]) && Maximal(init + [last])
    requires last.end + 1 == block && block - last.start < MAXIMUM_REQUEST_CHUNKS
    ensures Spans(init + [Range(last.start, block)]) && Maximal(init + [Range(last.start, block)])
    ensures Expand(init + [Range(last.start, block)]) == Expand(init + [last]) + [block]
  {
    hide UpTo, Expand, Maximal;
    assert (init + [last])[|init|] == last;
    ExpandSnoc(init, last);
    ExpandSnoc(init, Range(last.start, block));
    UpToSnoc(last.start, last.end);
    LongerLast(init, last, block);
  }

  lemma LongerLast(init: seq<Range>, last: Range, block: nat)
    requires Spans(init + [last]) && Maximal(init + [last])
    requires last.end + 1 == block && block - last.start < MAXIMUM_REQUEST_CHUNKS
    ensures Spans(init + [Range(last.start, block)]) && Maximal(init + [Range(last.start, block)])
  {
    var before, after := init + [last], init + [Range(last.start, block)];
    assert after == before[|init| := Range(last.start, block)];
    assert before[|init|] == last;
    forall i | 0 <= i < |after|
      ensures after[i].start == before[i].start
      ensures after[i].start <= after[i].end < after[i].start + MAXIMUM_REQUEST_CHUNKS
    {
      assert i < |init| ==> after[i] == before[i];
    }
  }

  /** Any other block starts a range of its own. */
  lemma StartRange(ranges: seq<Range>, block: nat)
    requires ranges != [] && Spans(ranges) && Maximal(ranges)
    requires var last := ranges[|ranges| - 1]; last.end + 1 != block || block - last.start >= MAXIMUM_REQUEST_CHUNKS
    ensures Spans(ranges + [Range(block, block)]) && Maximal(ranges + [Range(block, block)])
    ensures Expand(ranges + [Range(block, block)]) == Expand(ranges) + [block]
  {
    hide UpTo, Expand;
    SingleBlock(block);
    ExpandSnoc(ranges, Range(block, block));
  }

  /** A block joins the last range if it is adjacent and there is room. */
  method AddBlock(ranges: seq<Range>, block: nat) returns (longer: seq<Range>)
    requires ranges != [] && Spans(ranges) && Maximal(ranges)
    ensures longer != [] && Spans(longer) && Maximal(longer) && Expand(longer) == Expand(ranges) + [block]
  {
    hide *;
    var n := |ranges| - 1;
    var lastRange := ranges[n];
    if lastRange.end + 1 == block && block - lastRange.start < MAXIMUM_REQUEST_CHUNKS {
      assert ranges == ranges[..n] + [lastRange];
      ExtendLast(ranges[..n], lastRange, block);
      return ranges[..n] + [Range(lastRange.start, block)];
    } else {
      StartRange(ranges, block);
      return ranges + [Range(block, block)];
    }
  }

  /** The grouping of prefetch. */
  method ContiguousRanges(blocks: seq<nat>) returns (ranges: seq<Range>)
    requires blocks != []
    ensures Expand(ranges) == blocks && Spans(ranges) && Maximal(ranges) && ranges != []
    ensures forall i :: 0 <= i < |ranges| ==> ranges[i].start <= ranges[i].end <= ranges[i].start + 31
    ensures forall i :: 0 <= i < |ranges| - 1 && ranges[i].end < ranges[i].start + 31 ==>
      ranges[i].end + 1 != ranges[i + 1].start
  {
    hide *;
    ranges := [Range(blocks[0], blocks[0])];
    SingleBlock(blocks[0]);
    assert blocks[..1] == [blocks[0]];
    for i := 1 to |blocks|
      invariant ranges != [] && Expand(ranges) == blocks[..i] && Spans(ranges) && Maximal(ranges)
    {
      assert blocks[..i + 1] == blocks[..i] + [blocks[i]];
      ranges := AddBlock(ranges, blocks[i]);
    }
    assert blocks[..|blocks|] == blocks;
    Lengths(ranges);
  }

  /** At most 32 blocks, and no two neighbouring ranges unless the first one is full. */
  lemma Lengths(ranges: seq<Range>)
    requires Spans(ranges) && Maximal(ranges)
    ensures forall i :: 0 <= i < |ranges| ==> ranges[i].start <= ranges[i].end <= ranges[i].start + 31
    ensures forall i :: 0 <= i < |ranges| - 1 && ranges[i].end < ranges[i].start + 31 ==>
      ranges[i].end + 1 != ranges[i + 1].start
  {
  }

  /** The blocks of the first range, and the start of the second. */
  lemma FirstRange(a: seq<Range>, k: nat)
    requires a != [] && Spans(a) && k < |Expand(a)|
    ensures k <= a[0].end - a[0].start ==> Expand(a)[k] == a[0].start + k
    ensures k == a[0].end + 1 - a[0].start ==> |a| > 1 && Expand(a)[k] == a[1].start
  {
  }

  /** A maximal first range is not shorter than the first range of another cover. */
  lemma FirstRangeLongest(a: seq<Range>, b: seq<Range>)
    requires a != [] && b != [] && Expand(a) == Expand(b) && Spans(a) && Spans(b) && Maximal(a)
    requires a[0].start == b[0].start
    ensures a[0].end >= b[0].end
  {
    var k := a[0].end + 1 - a[0].start;
    if k < |Expand(a)| {
      FirstRange(a, k);
      FirstRange(b, k);
    }
  }

  /** There is only one way to cover the blocks by maximal ranges: the grouping is determined. */
  lemma {:induction false} PlanUnique(a: seq<Range>, b: seq<Range>)
    requires Expand(a) == Expand(b) && Spans(a) && Spans(b) && Maximal(a) && Maximal(b)
    ensures a == b
  {
    if a != [] && b != [] {
      FirstRange(a, 0);
      FirstRange(b, 0);
      FirstRangeLongest(a, b);
      FirstRangeLongest(b, a);
      var k := |UpTo(a[0].start, a[0].end)|;
      assert Expand(a)[k..] == Expand(a[1..]) && Expand(b)[k..] == Expand(b[1..]);
      PlanUnique(a[1..], b[1..]);
      assert a == [a[0]] + a[1..] && b == [b[0]] + b[1..];
    }
  }
}
