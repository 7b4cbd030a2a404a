/** The layer list of a document as a tree of groups, and the canvas stack that renders it. */
module PsdLayers {

  datatype SectionType = Normal | OpenFolder | ClosedFolder | Divider

  datatype PsdLayer = PsdLayer(index: nat, groupType: SectionType) {
    predicate Folder() {
      groupType == OpenFolder || groupType == ClosedFolder
    }
  }

  /** A layer and the number of groups around it. */
  datatype Placed = Placed(layer: PsdLayer, depth: nat)

  // ---- The specification: one scan that counts the open groups ----

  function After(layer: PsdLayer, depth: nat): nat {
    if layer.Folder() then depth + 1
    else if layer.groupType == Divider && depth > 0 then depth - 1
    else depth
  }

  /** The number of open groups behind the layers. */
  function Depth(layers: seq<PsdLayer>): nat {
    if layers == [] then 0 else After(layers[|layers| - 1], Depth(layers[..|layers| - 1]))
  }

  /** The layers other than dividers, in order, each with the number of groups open before it. */
  function Scan(layers: seq<PsdLayer>): seq<Placed> {
    if layers == [] then []
    else
      var before, layer := layers[..|layers| - 1], layers[|layers| - 1];
      Scan(before) + if layer.groupType == Divider then [] else [Placed(layer, Depth(before))]
  }

  // ---- Trees as rows of children: row 0 is the list of roots, node k has row k ----

  ghost predicate Linked(rows: seq<seq<nat>>, parent: seq<nat>) {
    && |rows| == |parent| && |rows| > 0
    && (forall k, i :: 0 <= k < |rows| && 0 <= i < |rows[k]| ==> k < rows[k][i] < |rows| && parent[rows[k][i]] == k)
    && (forall k, i, j :: 0 <= k < |rows| && 0 <= i < j < |rows[k]| ==> rows[k][i] < rows[k][j])
  }

  predicate LastChild(rows: seq<seq<nat>>, k: nat, c: nat) {
    k < |rows| && rows[k] != [] && rows[k][|rows[k]| - 1] == c
  }

  /** The open groups: each is the last child of the one before. */
  ghost predicate Spine(rows: seq<seq<nat>>, stack: seq<nat>) {
    && stack != [] && stack[0] == 0
    && (forall j :: 0 <= j < |stack| ==> stack[j] < |rows|)
    && (forall i, j :: 0 <= i < j < |stack| && j == i + 1 ==> LastChild(rows, stack[i], stack[j]))
  }

  /** The nodes of the row are numbered from low on and none is on the spine. */
  predicate Off(rows: seq<seq<nat>>, stack: seq<nat>, row: seq<nat>, low: nat) {
    Within(row, low, |rows|) && forall i :: 0 <= i < |row| ==> row[i] !in stack
  }

  predicate Within(row: seq<nat>, low: nat, high: nat) {
    forall i :: 0 <= i < |row| ==> low <= row[i] < high
  }

  /** The nodes of a row and those below them, before their children and left to right. */
  ghost function Preorder(rows: seq<seq<nat>>, parent: seq<nat>, labels: seq<PsdLayer>, row: seq<nat>, low: nat,
    depth: nat): seq<Placed>
    requires Linked(rows, parent) && |labels| == |rows|
    requires Within(row, low, |rows|)
    decreases |rows| - low, |row|
  {
    if row == [] then []
    else
      var k := row[|row| - 1];
      Preorder(rows, parent, labels, row[..|row| - 1], low, depth)
      + [Placed(labels[k], depth)] + Preorder(rows, parent, labels, rows[k], k + 1, depth + 1)
  }

  /** The rows after a new node has become the last child of t. */
  function Push(rows: seq<seq<nat>>, t: nat): seq<seq<nat>>
    requires t < |rows|
  {
    rows[t := rows[t] + [|rows|]] + [[]]
  }

  lemma LinkedPush(rows: seq<seq<nat>>, parent: seq<nat>, t: nat)
    requires Linked(rows, parent) && t < |rows|
    ensures Linked(Push(rows, t), parent + [t])
  {
    var rows', parent' := Push(rows, t), parent + [t];
    forall k, i | 0 <= k < |rows'| && 0 <= i < |rows'[k]|
      ensures k < rows'[k][i] < |rows'| && parent'[rows'[k][i]] == k
    {
      if k < |rows| && i < |rows[k]| {
        assert rows'[k][i] == rows[k][i];
      }
    }
    forall k, i, j | 0 <= k < |rows'| && 0 <= i < j < |rows'[k]| ensures rows'[k][i] < rows'[k][j] {
      assert rows'[k][i] == rows[k][i];
    }
  }

  lemma PushRow(rows: seq<seq<nat>>, t: nat, k: nat)
    requires t < |rows| && k < |rows|
    ensures |Push(rows, t)| == |rows| + 1 && Push(rows, t)[|rows|] == []
    ensures Push(rows, t)[k] == if k == t then rows[t] + [|rows|] else rows[k]
  {
  }

  lemma SpinePush(rows: seq<seq<nat>>, parent: seq<nat>, stack: seq<nat>, t: nat)
    requires Linked(rows, parent) && Spine(rows, stack) && t == stack[|stack| - 1]
    ensures Spine(Push(rows, t), stack) && Spine(Push(rows, t), stack + [|rows|])
  {
    var rows' := Push(rows, t);
    forall i, j | 0 <= i < j < |stack| && j == i + 1 ensures LastChild(rows', stack[i], stack[j]) {
      assert LastChild(rows, stack[i], stack[j]);
      SpineIncreasing(rows, parent, stack, i, |stack| - 1);
      PushRow(rows, t, stack[i]);
    }
    PushRow(rows, t, t);
    hide Push;
    SpineExtend(rows', stack, |rows|);
  }

  lemma SpineExtend(rows: seq<seq<nat>>, stack: seq<nat>, m: nat)
    requires Spine(rows, stack) && m < |rows| && LastChild(rows, stack[|stack| - 1], m)
    ensures Spine(rows, stack + [m])
  {
    var longer := stack + [m];
    forall i, j | 0 <= i < j < |longer| && j == i + 1 ensures LastChild(rows, longer[i], longer[j]) {
      if j < |stack| {
        assert LastChild(rows, stack[i], stack[j]);
      }
    }
  }

  lemma {:induction false} SpineIncreasing(rows: seq<seq<nat>>, parent: seq<nat>, stack: seq<nat>, i: nat, j: nat)
    requires Linked(rows, parent) && Spine(rows, stack) && i < j < |stack|
    ensures stack[i] < stack[j] && parent[stack[i + 1]] == stack[i]
    decreases j - i
  {
    assert LastChild(rows, stack[i], stack[i + 1]);
    if i + 1 < j {
      SpineIncreasing(rows, parent, stack, i + 1, j);
    }
  }

  /** A child on the spine is the last child of the node before it on the spine. */
  lemma ChildOnSpine(rows: seq<seq<nat>>, parent: seq<nat>, stack: seq<nat>, k: nat, i: nat)
    requires Linked(rows, parent) && Spine(rows, stack) && k < |rows| && i < |rows[k]| && rows[k][i] in stack
    ensures k in stack && k != stack[|stack| - 1] && rows[k][i] == rows[k][|rows[k]| - 1]
  {
    var j :| 0 <= j < |stack| && stack[j] == rows[k][i];
    assert parent[rows[k][i]] == k;
    SpineIncreasing(rows, parent, stack, j - 1, j);
    SpineIncreasing(rows, parent, stack, j - 1, |stack| - 1);
  }

  /** The children of a node off the spine, and all but the last of any node, are off the spine. */
  lemma ChildrenOff(rows: seq<seq<nat>>, parent: seq<nat>, stack: seq<nat>, k: nat)
    requires Linked(rows, parent) && Spine(rows, stack) && k < |rows|
    ensures k !in stack || k == stack[|stack| - 1] ==> Off(rows, stack, rows[k], k + 1)
    ensures rows[k] != [] ==> Off(rows, stack, rows[k][..|rows[k]| - 1], k + 1)
  {
    forall i | 0 <= i < |rows[k]| && rows[k][i] in stack
      ensures i == |rows[k]| - 1 && k in stack && k != stack[|stack| - 1]
    {
      ChildOnSpine(rows, parent, stack, k, i);
    }
  }

  lemma PreorderStep(rows: seq<seq<nat>>, parent: seq<nat>, labels: seq<PsdLayer>, row: seq<nat>, k: nat, low: nat,
    depth: nat)
    requires Linked(rows, parent) && |labels| == |rows| && low <= k < |rows|
    requires Within(row, low, |rows|)
    ensures Within(rows[k], k + 1, |rows|)
    ensures Preorder(rows, parent, labels, row + [k], low, depth) == Preorder(rows, parent, labels, row, low, depth)
      + [Placed(labels[k], depth)] + Preorder(rows, parent, labels, rows[k], k + 1, depth + 1)
  {
    assert (row + [k])[..|row|] == row;
  }

  lemma PreorderNothing(rows: seq<seq<nat>>, parent: seq<nat>, labels: seq<PsdLayer>, low: nat, depth: nat)
    requires Linked(rows, parent) && |labels| == |rows|
    ensures Preorder(rows, parent, labels, [], low, depth) == []
  {
  }

  lemma StackTop(rows: seq<seq<nat>>, parent: seq<nat>, stack: seq<nat>, row: seq<nat>, low: nat)
    requires Linked(rows, parent) && Spine(rows, stack) && Off(rows, stack, row, low)
    ensures stack != []
    ensures var t := stack[|stack| - 1];
      t < |rows| && |Push(rows, t)| == |rows| + 1 && Linked(Push(rows, t), parent + [t]) && Within(row, low, |rows|)
        && Within(row, low, |rows| + 1)
  {
    LinkedPush(rows, parent, stack[|stack| - 1]);
  }

  lemma OffParts(rows: seq<seq<nat>>, parent: seq<nat>, stack: seq<nat>, init: seq<nat>, k: nat, low: nat)
    requires Linked(rows, parent) && Spine(rows, stack) && Off(rows, stack, init + [k], low)
    ensures Off(rows, stack, init, low) && Within(init, low, |rows|) && Within(init, low, |rows| + 1)
    ensures low <= k < |rows|
    ensures Off(rows, stack, rows[k], k + 1) && Push(rows, stack[|stack| - 1])[k] == rows[k]
  {
    var row := init + [k];
    assert row[|init|] == k && forall i :: 0 <= i < |init| ==> row[i] == init[i];
    ChildrenOff(rows, parent, stack, k);
    PushRow(rows, stack[|stack| - 1], k);
  }

  /** What is off the spine does not change. */
  lemma {:induction false} Frozen(rows: seq<seq<nat>>, parent: seq<nat>, labels: seq<PsdLayer>, stack: seq<nat>,
    added: PsdLayer, row: seq<nat>, low: nat, depth: nat)
    requires Linked(rows, parent) && Spine(rows, stack) && |labels| == |rows|
    requires Off(rows, stack, row, low)
    ensures var t := stack[|stack| - 1];
      |Push(rows, t)| == |rows| + 1 && Linked(Push(rows, t), parent + [t]) && Within(row, low, |rows|)
        && Within(row, low, |rows| + 1)
      && Preorder(Push(rows, t), parent + [t], labels + [added], row, low, depth)
        == Preorder(rows, parent, labels, row, low, depth)
    decreases |rows| - low, |row|
  {
    hide *;
    StackTop(rows, parent, stack, row, low);
    var t := stack[|stack| - 1];
    if row == [] {
      PreorderNothing(rows, parent, labels, low, depth);
      PreorderNothing(Push(rows, t), parent + [t], labels + [added], low, depth);
    } else {
      var k, init := row[|row| - 1], row[..|row| - 1];
      assert row == init + [k];
      OffParts(rows, parent, stack, init, k, low);
      Frozen(rows, parent, labels, stack, added, init, low, depth);
      Frozen(rows, parent, labels, stack, added, rows[k], k + 1, depth + 1);
      PreorderStep(rows, parent, labels, init, k, low, depth);
      PreorderStep(Push(rows, t), parent + [t], labels + [added], init, k, low, depth);
    }
  }

  /** The new node comes last below its parent. */
  lemma GrowTop(rows: seq<seq<nat>>, parent: seq<nat>, labels: seq<PsdLayer>, stack: seq<nat>, added: PsdLayer,
    depth: nat)
    requires Linked(rows, parent) && Spine(rows, stack) && |labels| == |rows|
    ensures var t := stack[|stack| - 1];
      |Push(rows, t)| == |rows| + 1 && Linked(Push(rows, t), parent + [t])
      && Preorder(Push(rows, t), parent + [t], labels + [added], Push(rows, t)[t], t + 1, depth)
        == Preorder(rows, parent, labels, rows[t], t + 1, depth) + [Placed(added, depth)]
  {
    var t := stack[|stack| - 1];
    var rows', parent', labels' := Push(rows, t), parent + [t], labels + [added];
    LinkedPush(rows, parent, t);
    ChildrenOff(rows, parent, stack, t);
    PushRow(rows, t, t);
    Frozen(rows, parent, labels, stack, added, rows[t], t + 1, depth);
    hide *;
    PreorderStep(rows', parent', labels', rows[t], |rows|, t + 1, depth);
    PreorderNothing(rows', parent', labels', |rows| + 1, depth + 1);
  }

  /** If a row is the same but for what is below its last node, it grows as that does. */
  lemma GrowBelow(rows: seq<seq<nat>>, parent: seq<nat>, labels: seq<PsdLayer>,
    rows': seq<seq<nat>>, parent': seq<nat>, labels': seq<PsdLayer>,
    init: seq<nat>, s: nat, low: nat, depth: nat, n: seq<Placed>)
    requires Linked(rows, parent) && Linked(rows', parent') && |labels| == |rows| <= |rows'| == |labels'|
    requires low <= s < |rows| && labels[s] == labels'[s] && Within(init, low, |rows|)
    requires Within(init + [s], low, |rows|) && Within(init + [s], low, |rows'|) && Within(init, low, |rows'|)
    requires Preorder(rows', parent', labels', init, low, depth) == Preorder(rows, parent, labels, init, low, depth)
    requires Preorder(rows', parent', labels', rows'[s], s + 1, depth + 1)
      == Preorder(rows, parent, labels, rows[s], s + 1, depth + 1) + n
    ensures Preorder(rows', parent', labels', init + [s], low, depth)
      == Preorder(rows, parent, labels, init + [s], low, depth) + n
  {
    PreorderStep(rows, parent, labels, init, s, low, depth);
    PreorderStep(rows', parent', labels', init, s, low, depth);
    hide Preorder, Linked;
    Regroup(Preorder(rows, parent, labels, init, low, depth) + [Placed(labels[s], depth)],
      Preorder(rows, parent, labels, rows[s], s + 1, depth + 1), n);
  }

  /** Below every node of the spine the new node comes last. */
  lemma {:induction false} Grow(rows: seq<seq<nat>>, parent: seq<nat>, labels: seq<PsdLayer>, stack: seq<nat>,
    added: PsdLayer, j: nat, depth: nat)
    requires Linked(rows, parent) && Spine(rows, stack) && |labels| == |rows| && j < |stack|
    ensures var t, k := stack[|stack| - 1], stack[j];
      |Push(rows, t)| == |rows| + 1 && Linked(Push(rows, t), parent + [t])
      && Preorder(Push(rows, t), parent + [t], labels + [added], Push(rows, t)[k], k + 1, depth)
        == Preorder(rows, parent, labels, rows[k], k + 1, depth) + [Placed(added, depth + |stack| - 1 - j)]
    decreases |stack| - j
  {
    hide *;
    if j == |stack| - 1 {
      GrowTop(rows, parent, labels, stack, added, depth);
    } else {
      var t, k, s := stack[|stack| - 1], stack[j], stack[j + 1];
      Grow(rows, parent, labels, stack, added, j + 1, depth + 1);
      ParentOnSpine(rows, parent, stack, j);
      GrowNext(rows, parent, labels, stack, added, rows[k][..|rows[k]| - 1], k, s, depth,
        [Placed(added, depth + |stack| - 1 - j)]);
    }
  }

  lemma GrowNextFacts(rows: seq<seq<nat>>, parent: seq<nat>, stack: seq<nat>, init: seq<nat>, k: nat, s: nat)
    requires Linked(rows, parent) && Spine(rows, stack) && k < s < |rows| && rows[k] == init + [s]
    requires k != stack[|stack| - 1] && Off(rows, stack, init, k + 1)
    ensures stack != [] && stack[|stack| - 1] < |rows| && Push(rows, stack[|stack| - 1])[k] == init + [s]
    ensures Within(init, k + 1, |rows|) && Within(init, k + 1, |rows| + 1)
    ensures Within(init + [s], k + 1, |rows|) && Within(init + [s], k + 1, |rows| + 1)
  {
    PushRow(rows, stack[|stack| - 1], k);
  }

  lemma GrowNext(rows: seq<seq<nat>>, parent: seq<nat>, labels: seq<PsdLayer>, stack: seq<nat>, added: PsdLayer,
    init: seq<nat>, k: nat, s: nat, depth: nat, n: seq<Placed>)
    requires Linked(rows, parent) && Spine(rows, stack) && |labels| == |rows| && k < s < |rows| && rows[k] == init + [s]
    requires k != stack[|stack| - 1] && Off(rows, stack, init, k + 1)
    requires var t := stack[|stack| - 1];
      |Push(rows, t)| == |rows| + 1 && Linked(Push(rows, t), parent + [t])
      && Preorder(Push(rows, t), parent + [t], labels + [added], Push(rows, t)[s], s + 1, depth + 1)
        == Preorder(rows, parent, labels, rows[s], s + 1, depth + 1) + n
    ensures var t := stack[|stack| - 1];
      Preorder(Push(rows, t), parent + [t], labels + [added], Push(rows, t)[k], k + 1, depth)
        == Preorder(rows, parent, labels, rows[k], k + 1, depth) + n
  {
    hide *;
    GrowNextFacts(rows, parent, stack, init, k, s);
    var t := stack[|stack| - 1];
    Frozen(rows, parent, labels, stack, added, init, k + 1, depth);
    GrowBelow(rows, parent, labels, Push(rows, t), parent + [t], labels + [added], init, s, k + 1, depth, n);
  }

  /** A node of the spine below the top: its last child is the next one, the others are off the spine. */
  lemma ParentOnSpine(rows: seq<seq<nat>>, parent: seq<nat>, stack: seq<nat>, j: nat)
    requires Linked(rows, parent) && Spine(rows, stack) && j + 1 < |stack|
    ensures var k, s := stack[j], stack[j + 1];
      k < s < |rows| && k != stack[|stack| - 1] && LastChild(rows, k, s)
      && rows[k] == rows[k][..|rows[k]| - 1] + [s] && Off(rows, stack, rows[k][..|rows[k]| - 1], k + 1)
  {
    ChildrenOff(rows, parent, stack, stack[j]);
    SpineIncreasing(rows, parent, stack, j, |stack| - 1);
    SpineIncreasing(rows, parent, stack, j, j + 1);
    assert LastChild(rows, stack[j], stack[j + 1]);
  }

  lemma Regroup(a: seq<Placed>, b: seq<Placed>, c: seq<Placed>)
    ensures a + (b + c) == (a + b) + c
  {
  }

  lemma RowsWithin(rows: seq<seq<nat>>, parent: seq<nat>)
    requires Linked(rows, parent)
    ensures forall k :: 0 <= k < |rows| ==> Within(rows[k], k + 1, |rows|)
  {
  }

  /** A new node below the top of the stack comes last in the whole tree, as deep as the stack is high. */
  lemma Appended(rows: seq<seq<nat>>, parent: seq<nat>, labels: seq<PsdLayer>, stack: seq<nat>, added: PsdLayer)
    requires Linked(rows, parent) && Spine(rows, stack) && |labels| == |rows|
    ensures Within(rows[0], 1, |rows|)
    ensures var t := stack[|stack| - 1];
      |Push(rows, t)| == |rows| + 1 && Linked(Push(rows, t), parent + [t]) && Within(Push(rows, t)[0], 1, |rows| + 1)
      && Spine(Push(rows, t), stack) && Spine(Push(rows, t), stack + [|rows|])
      && Preorder(Push(rows, t), parent + [t], labels + [added], Push(rows, t)[0], 1, 0)
        == Preorder(rows, parent, labels, rows[0], 1, 0) + [Placed(added, |stack| - 1)]
  {
    hide Preorder, Linked, Push, LastChild, Within;
    var t := stack[|stack| - 1];
    RowsWithin(rows, parent);
    Grow(rows, parent, labels, stack, added, 0, 0);
    SpinePush(rows, parent, stack, t);
    LinkedPush(rows, parent, t);
    RowsWithin(Push(rows, t), parent + [t]);
  }

  /** Closing the last open group leaves a spine. */
  lemma SpinePop(rows: seq<seq<nat>>, stack: seq<nat>)
    requires Spine(rows, stack) && |stack| > 1
    ensures Spine(rows, stack[..|stack| - 1])
  {
    var shorter := stack[..|stack| - 1];
    forall i, j | 0 <= i < j < |shorter| && j == i + 1 ensures LastChild(rows, shorter[i], shorter[j]) {
      assert LastChild(rows, stack[i], stack[j]);
    }
  }

  // ---- What the scan lists ----

  function NonDividers(layers: seq<PsdLayer>): seq<PsdLayer> {
    if layers == [] then []
    else
      var before, layer := layers[..|layers| - 1], layers[|layers| - 1];
      NonDividers(before) + if layer.groupType == Divider then [] else [layer]
  }

  /** The scan lists the layers other than dividers in order, each once. */
  lemma {:induction false} ScanLists(layers: seq<PsdLayer>)
    ensures |Scan(layers)| == |NonDividers(layers)|
    ensures forall i :: 0 <= i < |Scan(layers)| ==> Scan(layers)[i].layer == NonDividers(layers)[i]
  {
    if layers != [] {
      ScanLists(layers[..|layers| - 1]);
    }
  }

  // ---- What the depth is ----

  /** How many layers begin a group, open or closed, and how many end one. */
  function Begins(layers: seq<PsdLayer>): nat {
    if layers == [] then 0
    else
      var t := layers[|layers| - 1].groupType;
      Begins(layers[..|layers| - 1]) + if t == OpenFolder || t == ClosedFolder then 1 else 0
  }

  function Ends(layers: seq<PsdLayer>): nat {
    if layers == [] then 0
    else Ends(layers[..|layers| - 1]) + if layers[|layers| - 1].groupType == Divider then 1 else 0
  }

  /** The depth is the number of groups begun less those ended, unless some divider ends nothing; then it is more. */
  lemma {:induction false} DepthCounts(layers: seq<PsdLayer>)
    ensures Depth(layers) >= Begins(layers) - Ends(layers)
    ensures Depth(layers) == Begins(layers) - Ends(layers)
      <==> forall i :: 0 <= i <= |layers| ==> Ends(layers[..i]) <= Begins(layers[..i])
  {
    if layers == [] {
      assert layers[..0] == [];
    } else {
      var n := |layers| - 1;
      DepthCounts(layers[..n]);
      assert layers[..|layers|] == layers;
      forall i | 0 <= i <= n ensures layers[..n][..i] == layers[..i] {
      }
    }
  }
}
