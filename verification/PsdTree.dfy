/** convertPSDLayers: the layer list becomes a tree of objects with shared lists of children. */
module PsdTree {
  import opened PsdLayers

  class Layer {
    const sourceData: PsdLayer
    const isGroup: bool
    const isOpen: bool
    var children: seq<Layer>
    /** The position of the layer among those other than dividers, from 1. */
    ghost const number: nat

    constructor (sourceData: PsdLayer, isGroup: bool, isOpen: bool, ghost number: nat)
      ensures this.sourceData == sourceData && this.isGroup == isGroup && this.isOpen == isOpen && this.number == number
      ensures children == []
    {
      this.sourceData, this.isGroup, this.isOpen, this.number := sourceData, isGroup, isOpen, number;
      children := [];
    }
  }

  /** The objects are numbered in the order of their creation. */
  ghost predicate Numbered(made: seq<Layer>) {
    forall k :: 0 <= k < |made| ==> made[k].number == k + 1
  }

  ghost predicate Among(ns: seq<Layer>, made: seq<Layer>, low: nat) {
    forall i :: 0 <= i < |ns| ==> low <= ns[i].number && 1 <= ns[i].number <= |made| && made[ns[i].number - 1] == ns[i]
  }

  /** Children were created after their parents: the objects form a forest. */
  ghost predicate Grounded(made: seq<Layer>)
    reads made
  {
    Numbered(made) && forall k :: 0 <= k < |made| ==> Among(made[k].children, made, k + 2)
  }

  /** The layers of these objects and of all below them, with their depths: parents first, left to right. */
  ghost function Visit(ns: seq<Layer>, made: seq<Layer>, low: nat, depth: nat): seq<Placed>
    requires Grounded(made) && Among(ns, made, low)
    reads made
    decreases |made| + 1 - low, |ns|
  {
    if ns == [] then []
    else
      var n := ns[|ns| - 1];
      assert made[n.number - 1] == n;
      Visit(ns[..|ns| - 1], made, low, depth) + [Placed(n.sourceData, depth)]
        + Visit(n.children, made, n.number + 1, depth + 1)
  }

  // ---- The objects as rows ----

  predicate Refers(ns: seq<Layer>, made: seq<Layer>, row: seq<nat>) {
    |ns| == |row| && forall i :: 0 <= i < |row| ==> 1 <= row[i] <= |made| && ns[i] == made[row[i] - 1]
  }

  ghost predicate Matches(made: seq<Layer>, rows: seq<seq<nat>>, labels: seq<PsdLayer>, result: seq<Layer>)
    reads made
  {
    && |rows| == |labels| == |made| + 1 && Numbered(made) && Refers(result, made, rows[0])
    && forall k :: 0 <= k < |made| ==>
      Refers(made[k].children, made, rows[k + 1]) && made[k].sourceData == labels[k + 1]
  }

  lemma MatchesGrounded(made: seq<Layer>, rows: seq<seq<nat>>, parent: seq<nat>, labels: seq<PsdLayer>,
    result: seq<Layer>)
    requires Matches(made, rows, labels, result) && Linked(rows, parent)
    ensures Grounded(made) && Among(result, made, 1)
  {
    forall k | 0 <= k < |made| ensures Among(made[k].children, made, k + 2) {
      assert Refers(made[k].children, made, rows[k + 1]);
    }
  }

  lemma VisitStep(made: seq<Layer>, ns: seq<Layer>, low: nat, depth: nat)
    requires Grounded(made) && Among(ns, made, low) && ns != []
    ensures var n := ns[|ns| - 1];
      Among(ns[..|ns| - 1], made, low) && Among(n.children, made, n.number + 1)
      && Visit(ns, made, low, depth) == Visit(ns[..|ns| - 1], made, low, depth) + [Placed(n.sourceData, depth)]
        + Visit(n.children, made, n.number + 1, depth + 1)
  {
    var n := ns[|ns| - 1];
    assert made[n.number - 1] == n;
  }

  lemma VisitNothing(made: seq<Layer>, low: nat, depth: nat)
    requires Grounded(made)
    ensures Among([], made, low) && Visit([], made, low, depth) == []
  {
  }

  lemma RefersParts(made: seq<Layer>, rows: seq<seq<nat>>, parent: seq<nat>, labels: seq<PsdLayer>, result: seq<Layer>,
    ns: seq<Layer>, row: seq<nat>, low: nat)
    requires Matches(made, rows, labels, result) && Linked(rows, parent) && row != []
    requires Refers(ns, made, row) && Within(row, low, |rows|)
    ensures |labels| == |rows| == |made| + 1 && |ns| == |row|
    ensures var n, k := ns[|ns| - 1], row[|row| - 1];
      n.number == k && low <= k < |rows| && n.sourceData == labels[k] && row == row[..|row| - 1] + [k]
      && Refers(ns[..|ns| - 1], made, row[..|row| - 1]) && Within(row[..|row| - 1], low, |rows|)
      && Refers(n.children, made, rows[k]) && Within(rows[k], k + 1, |rows|)
  {
    var n, k := ns[|ns| - 1], row[|row| - 1];
    assert n == made[k - 1];
    assert Refers(made[k - 1].children, made, rows[k]);
  }

  lemma RefersNothing(made: seq<Layer>, ns: seq<Layer>, row: seq<nat>)
    requires Refers(ns, made, row)
    ensures row == [] <==> ns == []
  {
  }

  lemma {:induction false} VisitIsPreorder(made: seq<Layer>, rows: seq<seq<nat>>, parent: seq<nat>,
    labels: seq<PsdLayer>, result: seq<Layer>, ns: seq<Layer>, row: seq<nat>, low: nat, depth: nat)
    requires Matches(made, rows, labels, result) && Linked(rows, parent) && |labels| == |rows| == |made| + 1
    requires Refers(ns, made, row) && Within(row, low, |rows|)
    requires Grounded(made) && Among(ns, made, low)
    ensures Visit(ns, made, low, depth) == Preorder(rows, parent, labels, row, low, depth)
    decreases |made| + 1 - low, |ns|
  {
    hide *;
    RefersNothing(made, ns, row);
    if row == [] {
      VisitNothing(made, low, depth);
      PreorderNothing(rows, parent, labels, low, depth);
    } else {
      RefersParts(made, rows, parent, labels, result, ns, row, low);
      VisitStep(made, ns, low, depth);
      var n, k, init := ns[|ns| - 1], row[|row| - 1], row[..|row| - 1];
      PreorderStep(rows, parent, labels, init, k, low, depth);
      VisitIsPreorder(made, rows, parent, labels, result, ns[..|ns| - 1], init, low, depth);
      VisitIsPreorder(made, rows, parent, labels, result, n.children, rows[k], k + 1, depth + 1);
    }
  }

  // ---- The conversion ----

  /** The group stack holds the open groups: node numbers of the spine without the root. */
  predicate OnStack(groupStack: seq<Layer>, made: seq<Layer>, stack: seq<nat>) {
    |stack| == |groupStack| + 1 && stack[0] == 0 && Refers(groupStack, made, stack[1..])
  }

  lemma TopOfStack(groupStack: seq<Layer>, made: seq<Layer>, stack: seq<nat>)
    requires OnStack(groupStack, made, stack)
    ensures stack != [] && (groupStack == [] ==> stack[|stack| - 1] == 0)
    ensures groupStack != [] ==>
      var t := stack[|stack| - 1]; 1 <= t <= |made| && groupStack[|groupStack| - 1] == made[t - 1]
  {
    if groupStack != [] {
      assert stack[1..][|groupStack| - 1] == stack[|stack| - 1];
    }
  }

  lemma StackPush(groupStack: seq<Layer>, made: seq<Layer>, stack: seq<nat>, node: Layer)
    requires OnStack(groupStack, made, stack)
    ensures OnStack(groupStack, made + [node], stack)
    ensures OnStack(groupStack + [node], made + [node], stack + [|made| + 1])
  {
    assert (stack + [|made| + 1])[1..] == stack[1..] + [|made| + 1];
  }

  lemma StackPop(groupStack: seq<Layer>, made: seq<Layer>, stack: seq<nat>)
    requires OnStack(groupStack, made, stack) && groupStack != []
    ensures OnStack(groupStack[..|groupStack| - 1], made, stack[..|stack| - 1])
  {
    assert stack[..|stack| - 1][1..] == stack[1..][..|groupStack| - 1];
  }

  /** A new layer goes to the children of the innermost open group, or to the roots. */
  method Attach(node: Layer, groupStack: seq<Layer>, result: seq<Layer>,
    ghost made: seq<Layer>, ghost rows: seq<seq<nat>>, ghost labels: seq<PsdLayer>, ghost stack: seq<nat>)
    returns (result': seq<Layer>)
    requires Matches(made, rows, labels, result) && OnStack(groupStack, made, stack)
    requires node.number == |made| + 1 && node.children == []
    modifies if groupStack == [] then {} else {groupStack[|groupStack| - 1]}
    ensures var t := stack[|stack| - 1];
      t < |rows| && Matches(made + [node], Push(rows, t), labels + [node.sourceData], result')
  {
    hide Push, Refers, OnStack;
    TopOfStack(groupStack, made, stack);
    ghost var t, made' := stack[|stack| - 1], made + [node];
    PushRow(rows, t, t);
    RefersMore(result, made, rows[0], node);
    PushRow(rows, t, 0);
    result' := result;
    if |groupStack| > 0 {
      var top := groupStack[|groupStack| - 1];
      top.children := top.children + [node];
    } else {
      result' := result + [node];
    }
    forall k | 0 <= k < |made| ensures Refers(made[k].children, made', Push(rows, t)[k + 1]) {
      assert Refers(old(made[k].children), made, rows[k + 1]);
      RefersMore(old(made[k].children), made, rows[k + 1], node);
      PushRow(rows, t, k + 1);
    }
    RefersNone(made');
  }

  lemma RefersMore(ns: seq<Layer>, made: seq<Layer>, row: seq<nat>, node: Layer)
    requires Refers(ns, made, row)
    ensures Refers(ns, made + [node], row) && Refers(ns + [node], made + [node], row + [|made| + 1])
  {
  }

  lemma RefersNone(made: seq<Layer>)
    ensures Refers([], made, [])
  {
  }

  /** After the layers done the rows hold the tree that the scan describes, and the stack the open groups. */
  ghost predicate Shows(done: seq<PsdLayer>, rows: seq<seq<nat>>, parent: seq<nat>, labels: seq<PsdLayer>,
    stack: seq<nat>) {
    && Linked(rows, parent) && Spine(rows, stack) && |labels| == |rows| && Within(rows[0], 1, |rows|)
    && |stack| == Depth(done) + 1 && Preorder(rows, parent, labels, rows[0], 1, 0) == Scan(done)
  }

  lemma ShowsNothing()
    ensures Shows([], [[]], [0], [PsdLayer(0, Normal)], [0])
  {
  }

  lemma ScanMore(done: seq<PsdLayer>, layer: PsdLayer)
    ensures Scan(done + [layer]) == Scan(done) + if layer.groupType == Divider then [] else [Placed(layer, Depth(done))]
    ensures layer.groupType == OpenFolder || layer.groupType == ClosedFolder ==>
      Depth(done + [layer]) == Depth(done) + 1
    ensures layer.groupType == Normal ==> Depth(done + [layer]) == Depth(done)
    ensures layer.groupType == Divider ==> Depth(done + [layer]) == if Depth(done) > 0 then Depth(done) - 1 else 0
  {
    assert (done + [layer])[..|done|] == done;
  }

  lemma ShowsMore(done: seq<PsdLayer>, layer: PsdLayer, rows: seq<seq<nat>>, parent: seq<nat>, labels: seq<PsdLayer>,
    stack: seq<nat>)
    requires Shows(done, rows, parent, labels, stack) && layer.groupType != Divider
    ensures var t, m := stack[|stack| - 1], |rows|;
      && t < |rows|
      && Shows(done + [layer], Push(rows, t), parent + [t], labels + [layer],
               if layer.groupType == Normal then stack else stack + [m])
  {
    hide Linked, Preorder, Push, Within, Scan, Depth;
    Appended(rows, parent, labels, stack, layer);
    ScanMore(done, layer);
  }

  lemma ShowsDivider(done: seq<PsdLayer>, layer: PsdLayer, rows: seq<seq<nat>>, parent: seq<nat>,
    labels: seq<PsdLayer>, stack: seq<nat>)
    requires Shows(done, rows, parent, labels, stack) && layer.groupType == Divider
    ensures Shows(done + [layer], rows, parent, labels, if |stack| > 1 then stack[..|stack| - 1] else stack)
  {
    hide Linked, Preorder, Within, Spine, Scan, Depth;
    if |stack| > 1 {
      SpinePop(rows, stack);
    }
    ScanMore(done, layer);
  }

  lemma ShowsVisit(done: seq<PsdLayer>, result: seq<Layer>, made: seq<Layer>,
    rows: seq<seq<nat>>, parent: seq<nat>, labels: seq<PsdLayer>, stack: seq<nat>)
    requires Shows(done, rows, parent, labels, stack) && Matches(made, rows, labels, result)
    ensures Grounded(made) && Among(result, made, 1) && Visit(result, made, 1, 0) == Scan(done)
  {
    hide Visit, Preorder, Grounded, Linked, Among, Spine, Scan, Depth;
    MatchesGrounded(made, rows, parent, labels, result);
    VisitIsPreorder(made, rows, parent, labels, result, result, rows[0], 1, 0);
  }

  lemma MatchesNothing()
    ensures Matches([], [[]], [PsdLayer(0, Normal)], []) && OnStack([], [], [0])
  {
  }

  lemma MatchesSize(made: seq<Layer>, rows: seq<seq<nat>>, labels: seq<PsdLayer>, result: seq<Layer>)
    requires Matches(made, rows, labels, result)
    ensures |rows| == |made| + 1
  {
  }

  lemma OnStackFacts(groupStack: seq<Layer>, made: seq<Layer>, stack: seq<nat>)
    requires OnStack(groupStack, made, stack)
    ensures |stack| == |groupStack| + 1
    ensures groupStack != [] ==> groupStack[|groupStack| - 1] in made
  {
    TopOfStack(groupStack, made, stack);
  }

  /** The tree of layer objects, visited from the roots, lists the layers as the scan does. */
  method ConvertPsdLayers(psdLayers: seq<PsdLayer>) returns (result: seq<Layer>, ghost made: seq<Layer>)
    ensures Grounded(made) && Among(result, made, 1)
    ensures Visit(result, made, 1, 0) == Scan(psdLayers)
    ensures forall n :: n in made ==>
      n.isGroup == (n.sourceData.groupType != Normal) && n.isOpen == (n.sourceData.groupType == OpenFolder)
  {
    hide *;
    result, made := [], [];
    var groupStack: seq<Layer> := [];
    ghost var rows: seq<seq<nat>>, parent: seq<nat>, labels, stack: seq<nat> := [[]], [0], [PsdLayer(0, Normal)], [0];
    ShowsNothing();
    MatchesNothing();
    for i := 0 to |psdLayers|
      invariant Shows(psdLayers[..i], rows, parent, labels, stack)
      invariant Matches(made, rows, labels, result) && OnStack(groupStack, made, stack)
      invariant fresh(made)
      invariant forall n :: n in made ==>
        n.isGroup == (n.sourceData.groupType != Normal) && n.isOpen == (n.sourceData.groupType == OpenFolder)
    {
      var layer := psdLayers[i];
      assert psdLayers[..i + 1] == psdLayers[..i] + [layer];
      OnStackFacts(groupStack, made, stack);
      MatchesSize(made, rows, labels, result);
      ghost var t := stack[|stack| - 1];
      if layer.groupType == OpenFolder || layer.groupType == ClosedFolder {
        var groupLayer := new Layer(layer, true, layer.groupType == OpenFolder, |made| + 1);
        ShowsMore(psdLayers[..i], layer, rows, parent, labels, stack);
        StackPush(groupStack, made, stack, groupLayer);
        result := Attach(groupLayer, groupStack, result, made, rows, labels, stack);
        made := made + [groupLayer];
        groupStack := groupStack + [groupLayer];
        stack := stack + [|rows|];
        rows, parent, labels := Push(rows, t), parent + [t], labels + [layer];
      } else if layer.groupType == Divider {
        ShowsDivider(psdLayers[..i], layer, rows, parent, labels, stack);
        if |groupStack| > 0 {
          StackPop(groupStack, made, stack);
          groupStack := groupStack[..|groupStack| - 1];
          stack := stack[..|stack| - 1];
        }
      } else {
        var genericLayer := new Layer(layer, false, false, |made| + 1);
        ShowsMore(psdLayers[..i], layer, rows, parent, labels, stack);
        StackPush(groupStack, made, stack, genericLayer);
        result := Attach(genericLayer, groupStack, result, made, rows, labels, stack);
        made := made + [genericLayer];
        rows, parent, labels := Push(rows, t), parent + [t], labels + [layer];
      }
    }
    assert psdLayers[..|psdLayers|] == psdLayers;
    ShowsVisit(psdLayers, result, made, rows, parent, labels, stack);
  }
}
