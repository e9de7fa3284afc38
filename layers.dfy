/**
 * The layer stack of the renderer: an ordered list of layers, bottom first, each holding
 * image variants and an optional selected variant; the operations the layer panel offers;
 * and the list of images the preview draws.
 */
module Layers {
  import opened Wrappers
  import Naming

  /** One selectable image of a layer: where it is loaded from and the name shown for it. */
  datatype Variant = Variant(path: string, name: string)

  /** A layer: its variants in insertion order, the index of the selected one (if any), its name. */
  datatype Layer = Layer(images: seq<Variant>, selected: Option<nat>, name: string)

  /** The selection is absent or is a valid index into the layer's images. */
  predicate WellSelected(l: Layer)
  {
    l.selected.None? || l.selected.value < |l.images|
  }

  /**
   * The invariant the panel operations keep: a layer has a selection exactly when it has
   * images, and the selection is a valid index.
   */
  predicate Coherent(l: Layer)
  {
    WellSelected(l) && (l.selected.None? <==> l.images == [])
  }

  /** Every layer of the stack is coherent. */
  predicate AllCoherent(layers: seq<Layer>)
  {
    forall k :: 0 <= k < |layers| ==> Coherent(layers[k])
  }

  /** Replacing one layer by a coherent layer keeps the stack coherent. */
  lemma UpdateCoherent(layers: seq<Layer>, k: nat, l: Layer)
    requires AllCoherent(layers) && k < |layers| && Coherent(l)
    ensures AllCoherent(layers[k := l])
  {
  }

  /** `"Layer " + (position + 1)`: the name a layer gets by default at a position of the stack. */
  function DefaultName(position: nat): string
  {
    "Layer " + Naming.NatToString(position + 1)
  }

  /** The label the panel shows: the layer's name, or the default name when it is empty. */
  function DisplayName(l: Layer, position: nat): (shown: string)
    ensures shown != []
    ensures l.name != [] ==> shown == l.name
  {
    if l.name != [] then l.name else DefaultName(position)
  }

  // ---------------------------------------------------------------------------
  // Importing images

  predicate IsPathSeparator(c: char)
  {
    c == '/' || c == '\\'
  }

  /** `file.split(/[\\/]/).pop()`: what follows the last slash or backslash of a path. */
  function BaseName(path: string): string
  {
    if path == [] || IsPathSeparator(path[|path| - 1]) then []
    else BaseName(path[..|path| - 1]) + [path[|path| - 1]]
  }

  /** The base name is the longest tail of the path without a slash or backslash. */
  lemma {:induction false} BaseNameIsTail(path: string)
    ensures var r := BaseName(path);
      && |r| <= |path| && r == path[|path| - |r|..]
      && (forall k :: 0 <= k < |r| ==> !IsPathSeparator(r[k]))
      && (|r| < |path| ==> IsPathSeparator(path[|path| - |r| - 1]))
  {
    if path != [] && !IsPathSeparator(path[|path| - 1]) {
      var init, c := path[..|path| - 1], path[|path| - 1];
      BaseNameIsTail(init);
      var r' := BaseName(init);
      var r := r' + [c];
      assert BaseName(path) == r;
      assert path[|path| - |r|..] == init[|init| - |r'|..] + [c];
      forall k | 0 <= k < |r| ensures !IsPathSeparator(r[k]) {
        if k < |r'| { assert r[k] == r'[k]; }
      }
      if |r| < |path| {
        assert path[|path| - |r| - 1] == init[|init| - |r'| - 1];
      }
    }
  }

  /** The variant created for an imported file. */
  function Imported(path: string): Variant
  {
    Variant(path, BaseName(path))
  }

  /** The variants created for the chosen files, in the order they were chosen. */
  function ImportAll(paths: seq<string>): (vs: seq<Variant>)
    ensures |vs| == |paths|
    ensures forall k :: 0 <= k < |paths| ==> vs[k] == Imported(paths[k])
  {
    if paths == [] then [] else ImportAll(paths[..|paths| - 1]) + [Imported(paths[|paths| - 1])]
  }

  /**
   * The layer after the images `vs` are appended: the new images follow the old ones in order,
   * an existing selection is kept, and a layer without one gets index 0 once anything is added.
   */
  function WithImagesAdded(l: Layer, vs: seq<Variant>): (r: Layer)
    ensures r.images == l.images + vs && r.name == l.name
    ensures l.selected.Some? ==> r.selected == l.selected
    ensures l.selected.None? ==> r.selected == (if vs == [] then None else Some(0))
    ensures WellSelected(l) ==> WellSelected(r)
    ensures Coherent(l) ==> Coherent(r)
  {
    Layer(l.images + vs, if l.selected.None? && vs != [] then Some(0) else l.selected, l.name)
  }

  /** Adding images one at a time, as the import loop does, adds them all. */
  lemma WithImagesAddedSnoc(l: Layer, vs: seq<Variant>, v: Variant)
    ensures var m := WithImagesAdded(l, vs);
      WithImagesAdded(l, vs + [v]) == m.(images := m.images + [v], selected := if m.selected.None? then Some(0) else m.selected)
  {
  }

  /**
   * The layer after the image at `k` is removed: exactly that image goes, the others keep
   * their order; a selection above `k` moves down by one and one below `k` stays, so it still
   * selects the same image; the removed selected image is replaced by index 0 or, when none
   * remain, by no selection.
   */
  function WithoutImage(l: Layer, k: nat): (r: Layer)
    requires k < |l.images|
    ensures r.name == l.name && |r.images| == |l.images| - 1
    ensures forall j :: 0 <= j < k ==> r.images[j] == l.images[j]
    ensures forall j :: k <= j < |r.images| ==> r.images[j] == l.images[j + 1]
    ensures l.selected == Some(k) ==> r.selected == (if |r.images| > 0 then Some(0) else None)
    ensures l.selected.Some? && l.selected.value > k ==> r.selected == Some(l.selected.value - 1)
    ensures l.selected.Some? && l.selected.value < k ==> r.selected == l.selected
    ensures WellSelected(l) && l.selected.Some? && l.selected.value != k ==>
      r.selected.Some? && r.selected.value < |r.images| && r.images[r.selected.value] == l.images[l.selected.value]
    ensures l.selected.None? ==> r.selected.None?
    ensures WellSelected(l) ==> WellSelected(r)
    ensures Coherent(l) ==> Coherent(r)
  {
    var images := l.images[..k] + l.images[k + 1..];
    var selected :=
      if l.selected == Some(k) then (if |images| > 0 then Some(0) else None)
      else if l.selected.Some? && l.selected.value > k then Some(l.selected.value - 1)
      else l.selected;
    Layer(images, selected, l.name)
  }

  // ---------------------------------------------------------------------------
  // Reordering

  /** Some position of `q` holds `i`. */
  predicate Lists(q: seq<nat>, i: nat)
  {
    exists j :: 0 <= j < |q| && q[j] == i
  }

  /** `q` lists each index below `n` exactly once. */
  predicate IsIndexPermutation(q: seq<nat>, n: nat)
  {
    && |q| == n
    && (forall j :: 0 <= j < |q| ==> q[j] < n)
    && (forall i :: 0 <= i < n ==> Lists(q, i))
    && (forall i, j :: 0 <= i < j < |q| ==> q[i] != q[j])
  }

  /** The elements of `s` at the positions `q` names, in the order `q` lists them. */
  function Gather<T>(s: seq<T>, q: seq<nat>): seq<T>
    requires forall j :: 0 <= j < |q| ==> q[j] < |s|
  {
    seq(|q|, j requires 0 <= j < |q| => s[q[j]])
  }

  /** Striking the position that holds the largest index leaves a permutation of the smaller ones. */
  lemma WithoutLargest(q: seq<nat>, n: nat, m: nat)
    requires IsIndexPermutation(q, n + 1) && m < |q| && q[m] == n
    ensures IsIndexPermutation(q[..m] + q[m + 1..], n)
  {
    var q' := q[..m] + q[m + 1..];
    forall j | 0 <= j < |q'| ensures q'[j] < n {
      if j < m { assert q'[j] == q[j]; } else { assert q'[j] == q[j + 1]; }
    }
    forall i | 0 <= i < n ensures Lists(q', i) {
      assert Lists(q, i);
      var j :| 0 <= j < |q| && q[j] == i;
      if j < m { assert q'[j] == i; } else { assert q'[j - 1] == i; }
    }
    forall i, j | 0 <= i < j < |q'| ensures q'[i] != q'[j] {
      var i0 := if i < m then i else i + 1;
      var j0 := if j < m then j else j + 1;
      assert q'[i] == q[i0] && q'[j] == q[j0];
    }
  }

  /** Gathering by `q` is gathering by `q` without position `m` with the element `q[m]` names put back at `m`. */
  lemma GatherSplit<T>(s: seq<T>, q: seq<nat>, m: nat)
    requires m < |q| && |s| > 0 && q[m] == |s| - 1
    requires forall j :: 0 <= j < |q| && j != m ==> q[j] < |s| - 1
    ensures var g' := Gather(s[..|s| - 1], q[..m] + q[m + 1..]);
      Gather(s, q) == g'[..m] + [s[|s| - 1]] + g'[m..]
  {
    var q' := q[..m] + q[m + 1..];
    forall j | 0 <= j < |q'| ensures q'[j] < |s| - 1 {
      if j < m { assert q'[j] == q[j]; } else { assert q'[j] == q[j + 1]; }
    }
  }

  /** Inserting an element anywhere adds exactly that element to the multiset. */
  lemma MultisetInsert<T>(a: seq<T>, x: T, m: nat)
    requires m <= |a|
    ensures multiset(a[..m] + [x] + a[m..]) == multiset(a) + multiset{x}
  {
    assert a == a[..m] + a[m..];
  }

  /** Gathering by a permutation of the positions rearranges the elements and loses or adds none. */
  lemma {:induction false} GatherPermutation<T>(s: seq<T>, q: seq<nat>)
    requires IsIndexPermutation(q, |s|)
    ensures multiset(Gather(s, q)) == multiset(s)
    decreases |s|
  {
    if s != [] {
      var n := |s| - 1;
      assert Lists(q, n);
      var m :| 0 <= m < |q| && q[m] == n;
      var q' := q[..m] + q[m + 1..];
      var s' := s[..n];
      WithoutLargest(q, n, m);
      GatherPermutation(s', q');
      GatherSplit(s, q, m);
      MultisetInsert(Gather(s', q'), s[n], m);
      assert s == s' + [s[n]];
    }
  }

  function Reversed<T>(s: seq<T>): (r: seq<T>)
    ensures |r| == |s| && forall j :: 0 <= j < |s| ==> r[j] == s[|s| - 1 - j]
  {
    seq(|s|, j requires 0 <= j < |s| => s[|s| - 1 - j])
  }

  /**
   * The stack rebuilt from the panel's order after a drag: the panel lists layers top first,
   * so its order is read from the end. The result is a rearrangement of the stack.
   */
  function FromPanelOrder(layers: seq<Layer>, panel: seq<nat>): (r: seq<Layer>)
    requires IsIndexPermutation(panel, |layers|)
    ensures |r| == |layers| && multiset(r) == multiset(layers)
  {
    var q := Reversed(panel);
    assert IsIndexPermutation(q, |layers|) by {
      forall i | 0 <= i < |layers| ensures Lists(q, i) {
        assert Lists(panel, i);
        var j :| 0 <= j < |panel| && panel[j] == i;
        assert q[|panel| - 1 - j] == i;
      }
    }
    GatherPermutation(layers, q);
    Gather(layers, q)
  }

  /** The order the panel is drawn in: the top layer (last in the stack) first. */
  function PanelOrder(n: nat): (q: seq<nat>)
    ensures IsIndexPermutation(q, n)
  {
    var q := seq(n, j requires 0 <= j < n => n - 1 - j);
    forall i | 0 <= i < n ensures Lists(q, i) {
      assert q[n - 1 - i] == i;
    }
    q
  }

  /** A drag that leaves the panel order as drawn leaves the stack unchanged. */
  lemma UndraggedPanelKeepsStack(layers: seq<Layer>)
    ensures FromPanelOrder(layers, PanelOrder(|layers|)) == layers
  {
  }

  /**
   * The layer dragged to the top of the panel becomes the last layer of the stack, drawn over
   * all others, and the one at the bottom of the panel becomes the first, drawn beneath them.
   */
  lemma PanelTopIsDrawnLast(layers: seq<Layer>, panel: seq<nat>)
    requires IsIndexPermutation(panel, |layers|) && layers != []
    ensures FromPanelOrder(layers, panel)[|layers| - 1] == layers[panel[0]]
    ensures FromPanelOrder(layers, panel)[0] == layers[panel[|layers| - 1]]
  {
  }

  // ---------------------------------------------------------------------------
  // Preview composition

  /** Image sources are data URLs as they are, and file paths behind `file://`. */
  function SourceUrl(path: string): string
  {
    if |path| >= 5 && path[..5] == "data:" then path else "file://" + path
  }

  /** What one layer contributes to the preview: its selected image, if it has one. */
  function Drawn(l: Layer): seq<string>
  {
    if l.selected.Some? && l.selected.value < |l.images|
    then [SourceUrl(l.images[l.selected.value].path)] else []
  }

  /** The images the preview draws, bottom layer first. */
  function DrawList(layers: seq<Layer>): (urls: seq<string>)
    ensures |urls| <= |layers|
  {
    if layers == [] then [] else Drawn(layers[0]) + DrawList(layers[1..])
  }

  /** Drawing a stack is drawing its lower part, then its upper part. */
  lemma {:induction false} DrawListAppend(a: seq<Layer>, b: seq<Layer>)
    ensures DrawList(a + b) == DrawList(a) + DrawList(b)
  {
    if a == [] {
      assert a + b == b;
    } else {
      assert (a + b)[0] == a[0] && (a + b)[1..] == a[1..] + b;
      DrawListAppend(a[1..], b);
    }
  }

  /** When every layer has a selection, each layer contributes exactly its selected image, in order. */
  lemma {:induction false} DrawListAllSelected(layers: seq<Layer>)
    requires forall k :: 0 <= k < |layers| ==>
      layers[k].selected.Some? && layers[k].selected.value < |layers[k].images|
    ensures |DrawList(layers)| == |layers|
    ensures forall k :: 0 <= k < |layers| ==>
      DrawList(layers)[k] == SourceUrl(layers[k].images[layers[k].selected.value].path)
  {
    if layers != [] {
      DrawListAllSelected(layers[1..]);
    }
  }

  /** An empty layer contributes nothing; in a coherent stack that is the only layer skipped. */
  lemma DrawnCoherent(l: Layer)
    requires Coherent(l)
    ensures |Drawn(l)| == if l.images == [] then 0 else 1
  {
  }

  // ---------------------------------------------------------------------------
  // The live stack

  /** The renderer's `layers` array, updated in place by the panel's handlers. */
  class Stack {
    var layers: seq<Layer>

    ghost predicate Valid()
      reads this
    {
      AllCoherent(layers)
    }

    constructor ()
      ensures Valid() && layers == []
    {
      layers := [];
    }

    /** `addLayer`: push an empty layer named after its position. */
    method AddLayer()
      requires Valid()
      modifies this
      ensures Valid()
      ensures layers == old(layers) + [Layer([], None, DefaultName(|old(layers)|))]
    {
      layers := layers + [Layer([], None, "Layer " + Naming.NatToString(|layers| + 1))];
    }

    /** `removeLayer`: `layers.splice(idx, 1)`. */
    method RemoveLayer(idx: nat)
      requires Valid() && idx < |layers|
      modifies this
      ensures Valid()
      ensures layers == old(layers)[..idx] + old(layers)[idx + 1..]
    {
      layers := layers[..idx] + layers[idx + 1..];
    }

    /** `moveLayer`: swap with the layer `dir` places away when that position exists. */
    method MoveLayer(idx: nat, dir: int)
      requires Valid() && idx < |layers|
      modifies this
      ensures Valid()
      ensures multiset(layers) == multiset(old(layers))
      ensures var t := idx + dir;
        if 0 <= t < |old(layers)|
        then layers == old(layers)[idx := old(layers)[t]][t := old(layers)[idx]]
        else layers == old(layers)
    {
      var newIdx := idx + dir;
      if newIdx < 0 || newIdx >= |layers| {
        return;
      }
      var a, b := layers[idx], layers[newIdx];
      layers := layers[idx := b][newIdx := a];
    }

    /** `selectLayerImage`: a click on a thumbnail selects that image. */
    method SelectImage(layerIdx: nat, imgIdx: nat)
      requires Valid() && layerIdx < |layers| && imgIdx < |layers[layerIdx].images|
      modifies this
      ensures Valid()
      ensures layers == old(layers)[layerIdx := old(layers)[layerIdx].(selected := Some(imgIdx))]
    {
      layers := layers[layerIdx := layers[layerIdx].(selected := Some(imgIdx))];
    }

    /** `addImagesToLayer`: append one variant per chosen file, selecting index 0 if nothing was selected. */
    method AddImages(layerIdx: nat, paths: seq<string>)
      requires Valid() && layerIdx < |layers|
      modifies this
      ensures Valid()
      ensures layers == old(layers)[layerIdx := WithImagesAdded(old(layers)[layerIdx], ImportAll(paths))]
    {
      ghost var l0 := layers[layerIdx];
      if |paths| == 0 {
        assert WithImagesAdded(l0, []) == l0;
        assert layers == layers[layerIdx := l0];
        return;
      }
      assert WithImagesAdded(l0, ImportAll(paths[..0])) == l0;
      assert layers == old(layers)[layerIdx := l0];
      for i := 0 to |paths|
        invariant layers == old(layers)[layerIdx := WithImagesAdded(l0, ImportAll(paths[..i]))]
        invariant AllCoherent(layers)
      {
        var l := layers[layerIdx];
        l := l.(images := l.images + [Imported(paths[i])]);
        if l.selected == None {
          l := l.(selected := Some(0));
        }
        assert paths[..i + 1][..i] == paths[..i];
        WithImagesAddedSnoc(l0, ImportAll(paths[..i]), Imported(paths[i]));
        UpdateCoherent(layers, layerIdx, l);
        layers := layers[layerIdx := l];
      }
      assert paths[..|paths|] == paths;
    }

    /** `removeImageFromLayer`: splice the image out and repair the selection. */
    method RemoveImage(layerIdx: nat, imgIdx: nat)
      requires Valid() && layerIdx < |layers| && imgIdx < |layers[layerIdx].images|
      modifies this
      ensures Valid()
      ensures layers == old(layers)[layerIdx := WithoutImage(old(layers)[layerIdx], imgIdx)]
    {
      var l := layers[layerIdx];
      l := l.(images := l.images[..imgIdx] + l.images[imgIdx + 1..]);
      if l.selected == Some(imgIdx) {
        l := l.(selected := if |l.images| > 0 then Some(0) else None);
      } else if l.selected.Some? && l.selected.value > imgIdx {
        l := l.(selected := Some(l.selected.value - 1));
      }
      layers := layers[layerIdx := l];
    }

    /** Committing a rename: the trimmed text, or the default name of the position if it is blank. */
    method Rename(idx: nat, input: string)
      requires Valid() && idx < |layers|
      modifies this
      ensures Valid()
      ensures layers == old(layers)[idx := old(layers)[idx].(name := Naming.TrimOr(input, DefaultName(idx)))]
      ensures layers[idx].name != []
    {
      layers := layers[idx := layers[idx].(name := Naming.TrimOr(input, DefaultName(idx)))];
    }

    /** The drag handler: rebuild the stack by walking the panel order from its end. */
    method ApplyPanelOrder(panel: seq<nat>)
      requires Valid() && IsIndexPermutation(panel, |layers|)
      modifies this
      ensures Valid()
      ensures layers == FromPanelOrder(old(layers), panel)
    {
      var newLayers: seq<Layer> := [];
      var i := |panel|;
      while i > 0
        invariant 0 <= i <= |panel|
        invariant |newLayers| == |panel| - i
        invariant forall j :: 0 <= j < |newLayers| ==> newLayers[j] == layers[panel[|panel| - 1 - j]]
      {
        i := i - 1;
        newLayers := newLayers + [layers[panel[i]]];
      }
      layers := newLayers;
    }
  }
}
