/** The canvas stack of the renderer, which walks the layer list backwards. */
module PsdCanvas {
  import opened PsdLayers

  /** Every divider closes an open group, and every group is closed. */
  predicate Balanced(layers: seq<PsdLayer>, depth: nat) {
    if layers == [] then depth == 0
    else if layers[0].Folder() then Balanced(layers[1..], depth + 1)
    else if layers[0].groupType == Divider then depth > 0 && Balanced(layers[1..], depth - 1)
    else Balanced(layers[1..], depth)
  }

  /** The height of the canvas stack after the backward walk over the layers. */
  function Height(layers: seq<PsdLayer>): (h: nat)
    ensures h >= 1
  {
    if layers == [] then 1
    else
      var h := Height(layers[1..]);
      if layers[0].Folder() then (if h > 1 then h - 1 else h)
      else if layers[0].groupType == Divider then h + 1
      else h
  }

  /** The layers drawn in the walk, last drawn first, each with the number of canvases below its target. */
  function Drawn(layers: seq<PsdLayer>): seq<Placed> {
    if layers == [] then []
    else
      var layer, h := layers[0], Height(layers[1..]);
      (if layer.Folder() then (if h > 1 then [Placed(layer, h - 2)] else [])
       else if layer.groupType == Divider then []
       else [Placed(layer, h - 1)]) + Drawn(layers[1..])
  }

  /** The loop of render, reduced to its stack: canvases are numbered as they are made. */
  method Render(layerData: seq<PsdLayer>) returns (drawn: seq<Placed>, size: nat)
    ensures drawn == Drawn(layerData) && size == Height(layerData)
    ensures Balanced(layerData, 0) <==> size == 1 && drawn == Scan(layerData)
    ensures Balanced(Opened(layerData), 0) <==> drawn == Scan(layerData)
  {
    var canvasStack, canvases: nat := [0], 1;
    drawn := [];
    var i := |layerData|;
    while i > 0
      invariant 0 <= i <= |layerData|
      invariant |canvasStack| == Height(layerData[i..]) && drawn == Drawn(layerData[i..])
    {
      i := i - 1;
      var layer := layerData[i];
      assert layerData[i..][0] == layer && layerData[i..][1..] == layerData[i + 1..];
      if layer.groupType == OpenFolder || layer.groupType == ClosedFolder {
        if |canvasStack| > 1 {
          canvasStack := canvasStack[..|canvasStack| - 1];
          if |canvasStack| == 0 {
            assert false;
          }
          drawn := [Placed(layer, |canvasStack| - 1)] + drawn;
        }
        continue;
      }
      if layer.groupType == Divider {
        canvasStack, canvases := canvasStack + [canvases], canvases + 1;
        continue;
      }
      if |canvasStack| == 0 {
        assert false;
      }
      drawn := [Placed(layer, |canvasStack| - 1)] + drawn;
    }
    assert layerData[0..] == layerData;
    size := |canvasStack|;
    BalancedExactly(layerData);
    DrawnExactly(layerData);
  }

  lemma {:induction false} BalancedHeight(layers: seq<PsdLayer>, depth: nat)
    requires Balanced(layers, depth)
    ensures Height(layers) == depth + 1
    decreases |layers|
  {
    if layers != [] {
      var layer := layers[0];
      var more := if layer.Folder() then depth + 1 else if layer.groupType == Divider then depth - 1 else depth;
      BalancedHeight(layers[1..], more);
    }
  }

  lemma DepthSnoc(done: seq<PsdLayer>, layer: PsdLayer)
    ensures Depth(done + [layer]) == After(layer, Depth(done))
    ensures Scan(done + [layer]) == Scan(done) + if layer.groupType == Divider then [] else [Placed(layer, Depth(done))]
  {
    assert (done + [layer])[..|done|] == done;
  }

  /** In a balanced list the backward walk draws every layer at the depth that the forward scan gives it. */
  lemma {:induction false} DrawnIsScan(done: seq<PsdLayer>, rest: seq<PsdLayer>)
    requires Balanced(rest, Depth(done))
    ensures Scan(done + rest) == Scan(done) + Drawn(rest)
    decreases |rest|
  {
    hide *;
    if rest == [] {
      assert done + rest == done;
      DrawnNothing(Scan(done));
    } else {
      DrawnStep(done, rest);
      DrawnIsScan(done + [rest[0]], rest[1..]);
      assert (done + [rest[0]]) + rest[1..] == done + rest;
    }
  }

  lemma DrawnNothing(s: seq<Placed>)
    ensures s + Drawn([]) == s
  {
  }

  /** What one layer contributes to the walk. */
  lemma DrawnFirst(rest: seq<PsdLayer>, depth: nat)
    requires Balanced(rest, depth) && rest != []
    ensures Balanced(rest[1..], After(rest[0], depth))
    ensures Drawn(rest) == (if rest[0].groupType == Divider then [] else [Placed(rest[0], depth)]) + Drawn(rest[1..])
  {
    BalancedHeight(rest, depth);
    BalancedHeight(rest[1..], After(rest[0], depth));
  }

  lemma DrawnStep(done: seq<PsdLayer>, rest: seq<PsdLayer>)
    requires Balanced(rest, Depth(done)) && rest != []
    ensures Balanced(rest[1..], Depth(done + [rest[0]]))
    ensures Scan(done + [rest[0]]) + Drawn(rest[1..]) == Scan(done) + Drawn(rest)
  {
    hide *;
    DepthSnoc(done, rest[0]);
    DrawnFirst(rest, Depth(done));
    Regroup(Scan(done), if rest[0].groupType == Divider then [] else [Placed(rest[0], Depth(done))], Drawn(rest[1..]));
  }

  // ---- Which lists are drawn as the tree shows them ----

  /** The list without the dividers at its front, which close nothing. */
  function Opened(layers: seq<PsdLayer>): seq<PsdLayer> {
    if layers != [] && layers[0].groupType == Divider then Opened(layers[1..]) else layers
  }

  lemma BalancedDrawn(layers: seq<PsdLayer>)
    requires Balanced(layers, 0)
    ensures Height(layers) == 1 && Drawn(layers) == Scan(layers)
  {
    BalancedHeight(layers, 0);
    DrawnIsScan([], layers);
    assert [] + layers == layers && Scan([]) + Drawn(layers) == Drawn(layers);
  }

  lemma {:induction false} NonDividersStep(layers: seq<PsdLayer>)
    requires layers != []
    ensures |NonDividers(layers)| == (if layers[0].groupType == Divider then 0 else 1) + |NonDividers(layers[1..])|
  {
    if |layers| > 1 {
      var before := layers[..|layers| - 1];
      NonDividersStep(before);
      assert layers[1..][..|layers| - 2] == before[1..];
    }
  }

  /** A walk that draws every layer has closed each group it entered. */
  lemma {:induction false} AllDrawn(layers: seq<PsdLayer>)
    ensures |Drawn(layers)| <= |NonDividers(layers)|
    ensures |Drawn(layers)| == |NonDividers(layers)| ==> Balanced(layers, Height(layers) - 1)
  {
    if layers != [] {
      NonDividersStep(layers);
      AllDrawn(layers[1..]);
    }
  }

  /** The walk ends on the one canvas it began with, every layer drawn as deep as it is in the tree,
      for the balanced lists and no others. */
  lemma BalancedExactly(layers: seq<PsdLayer>)
    ensures Balanced(layers, 0) <==> Height(layers) == 1 && Drawn(layers) == Scan(layers)
  {
    hide Drawn, Scan, Height, Balanced;
    if Balanced(layers, 0) {
      BalancedDrawn(layers);
    }
    if Height(layers) == 1 && Drawn(layers) == Scan(layers) {
      ScanLists(layers);
      AllDrawn(layers);
    }
  }

  lemma {:induction false} ScanPrefix(layers: seq<PsdLayer>, k: nat)
    requires k <= |layers|
    ensures Scan(layers[..k]) <= Scan(layers)
  {
    if k < |layers| {
      ScanPrefix(layers[..|layers| - 1], k);
      assert layers[..|layers| - 1][..k] == layers[..k];
    } else {
      assert layers[..k] == layers;
    }
  }

  /** A divider at the front changes neither the tree nor what is drawn. */
  lemma {:induction false} FrontDivider(layers: seq<PsdLayer>)
    requires layers != [] && layers[0].groupType == Divider
    ensures Scan(layers) == Scan(layers[1..]) && Drawn(layers) == Drawn(layers[1..])
  {
    hide Scan, Depth, Height, Drawn;
    FrontScanned(layers);
    FrontUndrawn(layers);
  }

  lemma {:induction false} FrontUndrawn(layers: seq<PsdLayer>)
    requires layers != [] && layers[0].groupType == Divider
    ensures Drawn(layers) == Drawn(layers[1..])
  {
    hide Height;
  }

  lemma {:induction false} FrontScanned(layers: seq<PsdLayer>)
    requires layers != [] && layers[0].groupType == Divider
    ensures Scan(layers) == Scan(layers[1..]) && Depth(layers) == Depth(layers[1..])
  {
    if |layers| > 1 {
      var before := layers[..|layers| - 1];
      FrontScanned(before);
      assert layers[1..][..|layers| - 2] == before[1..];
    }
  }

  lemma {:induction false} FrontDrawn(layers: seq<PsdLayer>)
    requires layers != [] && layers[0].groupType != Divider && Drawn(layers) == Scan(layers)
    ensures Height(layers) == 1
  {
    ScanPrefix(layers, 1);
    assert Scan(layers[..1]) == [Placed(layers[0], 0)];
    ScanLists(layers);
    FirstDrawn(layers);
  }

  lemma {:induction false} FirstDrawn(layers: seq<PsdLayer>)
    requires layers != [] && layers[0].groupType != Divider && |Drawn(layers)| == |NonDividers(layers)|
    ensures Drawn(layers) != [] && Drawn(layers)[0] == Placed(layers[0], Height(layers) - 1)
  {
    NonDividersStep(layers);
    AllDrawn(layers[1..]);
  }

  /** The walk draws what the tree shows exactly if the list is balanced behind its first dividers. */
  lemma {:induction false} DrawnExactly(layers: seq<PsdLayer>)
    ensures Drawn(layers) == Scan(layers) <==> Balanced(Opened(layers), 0)
  {
    hide Drawn, Scan, Height, Balanced;
    if layers != [] && layers[0].groupType == Divider {
      FrontDivider(layers);
      DrawnExactly(layers[1..]);
    } else {
      BalancedExactly(layers);
      if layers == [] {
        NothingDrawn();
      } else if Drawn(layers) == Scan(layers) {
        FrontDrawn(layers);
      }
    }
  }

  lemma NothingDrawn()
    ensures Height([]) == 1
  {
  }

  /** A group that is not closed is skipped, and a layer before a stray divider is drawn too deep. */
  lemma NotDrawnAsShown(folder: PsdLayer, layer: PsdLayer, divider: PsdLayer)
    requires folder.Folder() && layer.groupType == Normal && divider.groupType == Divider
    ensures Drawn([folder, layer]) == [Placed(layer, 0)]
    ensures Scan([folder, layer]) == [Placed(folder, 0), Placed(layer, 1)]
    ensures Drawn([layer, divider]) == [Placed(layer, 1)] && Scan([layer, divider]) == [Placed(layer, 0)]
  {
    assert [folder, layer][1..] == [layer] && [folder, layer][..1] == [folder];
    assert [layer, divider][1..] == [divider] && [layer, divider][..1] == [layer];
    ShownAlone(folder);
    ShownAlone(layer);
    ShownAlone(divider);
  }

  lemma {:induction false} ShownAlone(layer: PsdLayer)
    ensures Height([layer]) == (if layer.groupType == Divider then 2 else 1)
    ensures Drawn([layer]) == if layer.groupType == Normal then [Placed(layer, 0)] else []
    ensures Depth([layer]) == if layer.Folder() then 1 else 0
    ensures Scan([layer]) == if layer.groupType == Divider then [] else [Placed(layer, 0)]
  {
    assert [layer][1..] == [] && [layer][..0] == [];
  }
}
