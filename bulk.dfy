/**
 * Bulk generation: validate the request, enumerate every combination of one image per layer,
 * apply each to the live stack, render it, name it, and hand the collected files over in one
 * batch unless the run was cancelled.
 */
module Bulk {
  import opened Wrappers
  import Naming
  import Enumerator
  import Layers

  type Bytes = seq<bv8>

  /** A rendered image waiting to be written into the destination folder. */
  datatype OutFile = OutFile(name: string, buffer: Bytes)

  /** Why a run did not start. */
  datatype StartError = NoFolder | EmptyLayer

  /**
   * The result of pressing start: either the request was refused, or the run enumerated `total`
   * combinations, performed `steps` of them, collected `files`, and saved them or not.
   */
  datatype Outcome =
    | Rejected(reason: StartError)
    | Finished(total: nat, steps: nat, files: seq<OutFile>, saved: bool)

  /** The prefix used when the prefix field holds nothing visible. */
  const DefaultPrefix: string := "variation"

  /** The number of images of each layer, bottom first. */
  function Counts(layers: seq<Layers.Layer>): (c: seq<nat>)
    ensures |c| == |layers|
  {
    seq(|layers|, k requires 0 <= k < |layers| => |layers[k].images|)
  }

  /** All combinations of one image index per layer, in the order the run visits them. */
  function Combinations(layers: seq<Layers.Layer>): seq<seq<nat>>
  {
    Enumerator.Combos(Counts(layers))
  }

  // ---------------------------------------------------------------------------
  // Starting a run

  /** The checks made before anything changes: a folder is required first, then no layer may be empty. */
  function CheckStart(folder: string, layers: seq<Layers.Layer>): (e: Option<StartError>)
    ensures e == Some(NoFolder) <==> folder == []
    ensures e == Some(EmptyLayer) <==> folder != [] && exists k :: 0 <= k < |layers| && layers[k].images == []
    ensures e == None ==> Enumerator.AllPositive(Counts(layers))
  {
    if folder == [] then Some(NoFolder)
    else if exists k :: 0 <= k < |layers| && layers[k].images == [] then Some(EmptyLayer)
    else None
  }

  /**
   * Given a folder, a run is refused exactly when there would be nothing to generate, and an
   * accepted run has at least one combination, each naming a valid image of every layer.
   */
  lemma StartAcceptedIffWork(folder: string, layers: seq<Layers.Layer>)
    requires folder != []
    ensures CheckStart(folder, layers) == None <==> |Combinations(layers)| > 0
    ensures CheckStart(folder, layers) == None ==> Fits(Combinations(layers), layers)
  {
    var c := Counts(layers);
    Enumerator.CombosLength(c);
    if CheckStart(folder, layers) == None {
      Enumerator.ProductPositive(c);
      forall p | 0 <= p < |Combinations(layers)|
        ensures Enumerator.InRange(Combinations(layers)[p], c)
      {
        Enumerator.CombosInRange(c, p);
      }
    } else {
      var k :| 0 <= k < |layers| && layers[k].images == [];
      Enumerator.ProductZero(c, k);
    }
  }

  // ---------------------------------------------------------------------------
  // One step

  /** The stack with every layer's selection overwritten by the combination. */
  function Applied(layers: seq<Layers.Layer>, combo: seq<nat>): (r: seq<Layers.Layer>)
    requires |combo| == |layers|
    ensures |r| == |layers|
  {
    seq(|layers|, k requires 0 <= k < |layers| => layers[k].(selected := Some(combo[k])))
  }

  /** The two stacks differ at most in their selections. */
  predicate SameExceptSelections(a: seq<Layers.Layer>, b: seq<Layers.Layer>)
  {
    |a| == |b| && forall k :: 0 <= k < |a| ==> a[k].images == b[k].images && a[k].name == b[k].name
  }

  /**
   * Applying a combination changes selections only, and what it produces does not depend on
   * the selections it overwrites: each step of a run starts afresh.
   */
  lemma AppliedOverwrites(a: seq<Layers.Layer>, b: seq<Layers.Layer>, combo: seq<nat>)
    requires SameExceptSelections(a, b) && |combo| == |a|
    ensures SameExceptSelections(Applied(a, combo), b) && Counts(Applied(a, combo)) == Counts(b)
    ensures Applied(a, combo) == Applied(b, combo)
  {
  }

  /** The sources of the images `combo` picks, one per layer, bottom first. */
  function Picked(layers: seq<Layers.Layer>, combo: seq<nat>): (urls: seq<string>)
    requires Enumerator.InRange(combo, Counts(layers))
    ensures |urls| == |layers|
  {
    seq(|layers|, k requires 0 <= k < |layers| => Layers.SourceUrl(layers[k].images[combo[k]].path))
  }

  /**
   * What a step renders depends on its combination only: once it is applied, the preview
   * draws exactly the image the combination picks from each layer, bottom first.
   */
  lemma AppliedDraws(layers: seq<Layers.Layer>, combo: seq<nat>)
    requires Enumerator.InRange(combo, Counts(layers))
    ensures Layers.DrawList(Applied(layers, combo)) == Picked(layers, combo)
  {
    Layers.DrawListAllSelected(Applied(layers, combo));
  }

  /** The buffer step `i` yields for `combo`: rendering is supplied by the caller. */
  function Rendered(layers: seq<Layers.Layer>, combo: seq<nat>, i: nat,
                    render: (nat, seq<string>) -> Option<Bytes>): Option<Bytes>
    requires Enumerator.InRange(combo, Counts(layers))
  {
    render(i, Picked(layers, combo))
  }

  /** Every combination names a valid image of every layer. */
  predicate Fits(combos: seq<seq<nat>>, layers: seq<Layers.Layer>)
  {
    forall i :: 0 <= i < |combos| ==> Enumerator.InRange(combos[i], Counts(layers))
  }

  // ---------------------------------------------------------------------------
  // The files of a run

  /** The names a run gives its steps: `<prefix>-<step+1 padded to w>.png`. */
  function RunNames(prefix: string, w: nat): nat -> string
  {
    (step: nat) => Naming.FileName(prefix, step, w)
  }

  /**
   * The files collected by the first `n` steps, step `i` being named `names(i)`: one per step
   * whose render yielded a buffer.
   */
  function Collected(layers: seq<Layers.Layer>, combos: seq<seq<nat>>, names: nat -> string,
                     render: (nat, seq<string>) -> Option<Bytes>, n: nat): (files: seq<OutFile>)
    requires n <= |combos| && Fits(combos, layers)
    ensures |files| <= n
  {
    if n == 0 then []
    else
      var files := Collected(layers, combos, names, render, n - 1);
      match Rendered(layers, combos[n - 1], n - 1, render)
      case Some(b) => files + [OutFile(names(n - 1), b)]
      case None => files
  }

  /** The steps below `n` whose render yielded a buffer, in increasing order. */
  function Producing(layers: seq<Layers.Layer>, combos: seq<seq<nat>>,
                     render: (nat, seq<string>) -> Option<Bytes>, n: nat): (steps: seq<nat>)
    requires n <= |combos| && Fits(combos, layers)
    ensures forall j :: 0 <= j < |steps| ==> steps[j] < n
    ensures forall j, j' :: 0 <= j < j' < |steps| ==> steps[j] < steps[j']
  {
    if n == 0 then []
    else
      var steps := Producing(layers, combos, render, n - 1);
      if Rendered(layers, combos[n - 1], n - 1, render).Some? then steps + [n - 1] else steps
  }

  /** A step is listed as producing exactly when its render yielded a buffer. */
  lemma {:induction false} ProducingExactly(layers: seq<Layers.Layer>, combos: seq<seq<nat>>,
                                            render: (nat, seq<string>) -> Option<Bytes>, n: nat, i: nat)
    requires n <= |combos| && Fits(combos, layers) && i < n
    ensures i in Producing(layers, combos, render, n) <==> Rendered(layers, combos[i], i, render).Some?
  {
    var steps := Producing(layers, combos, render, n - 1);
    if i < n - 1 {
      ProducingExactly(layers, combos, render, n - 1, i);
      assert i !in [n - 1];
    } else {
      assert i !in steps;
    }
  }

  /** `f` is the file step `s` contributes: named after the step, holding the step's buffer. */
  predicate FileOfStep(layers: seq<Layers.Layer>, combos: seq<seq<nat>>, names: nat -> string,
                       render: (nat, seq<string>) -> Option<Bytes>, f: OutFile, s: nat)
    requires Fits(combos, layers)
  {
    && s < |combos|
    && Rendered(layers, combos[s], s, render).Some?
    && f == OutFile(names(s), Rendered(layers, combos[s], s, render).value)
  }

  /** The `j`-th collected file belongs to the `j`-th producing step: its name and its buffer. */
  lemma {:induction false} CollectedByStep(layers: seq<Layers.Layer>, combos: seq<seq<nat>>, names: nat -> string,
                                           render: (nat, seq<string>) -> Option<Bytes>, n: nat)
    requires n <= |combos| && Fits(combos, layers)
    ensures |Collected(layers, combos, names, render, n)| == |Producing(layers, combos, render, n)|
    ensures forall j :: 0 <= j < |Collected(layers, combos, names, render, n)| ==>
      FileOfStep(layers, combos, names, render,
                 Collected(layers, combos, names, render, n)[j], Producing(layers, combos, render, n)[j])
  {
    if n > 0 {
      CollectedByStep(layers, combos, names, render, n - 1);
      var files', steps' := Collected(layers, combos, names, render, n - 1), Producing(layers, combos, render, n - 1);
      var files, steps := Collected(layers, combos, names, render, n), Producing(layers, combos, render, n);
      if Rendered(layers, combos[n - 1], n - 1, render).Some? {
        assert files == files' + [files[|files'|]] && steps == steps' + [n - 1];
        assert FileOfStep(layers, combos, names, render, files[|files'|], n - 1);
      } else {
        assert files == files' && steps == steps';
      }
    }
  }

  /** With the run's pad width, the collected names are pairwise distinct and sort in step order. */
  lemma CollectedNamesOrdered(layers: seq<Layers.Layer>, combos: seq<seq<nat>>, prefix: string,
                              render: (nat, seq<string>) -> Option<Bytes>, n: nat)
    requires n <= |combos| && Fits(combos, layers)
    ensures var files := Collected(layers, combos, RunNames(prefix, Naming.PadWidth(|combos|)), render, n);
      forall j, j' :: 0 <= j < j' < |files| ==>
        Naming.StringLess(files[j].name, files[j'].name) && files[j].name != files[j'].name
  {
    var names := RunNames(prefix, Naming.PadWidth(|combos|));
    var files := Collected(layers, combos, names, render, n);
    var steps := Producing(layers, combos, render, n);
    CollectedByStep(layers, combos, names, render, n);
    forall j, j' | 0 <= j < j' < |files|
      ensures Naming.StringLess(files[j].name, files[j'].name) && files[j].name != files[j'].name
    {
      assert FileOfStep(layers, combos, names, render, files[j], steps[j]);
      assert FileOfStep(layers, combos, names, render, files[j'], steps[j']);
      Naming.FileNamesOrdered(prefix, steps[j], steps[j'], |combos|);
    }
  }

  // ---------------------------------------------------------------------------
  // The run

  /** `combos[i].forEach((imgIdx, layerIdx) => layers[layerIdx].selected = imgIdx)`. */
  method ApplyCombination(stack: Layers.Stack, combo: seq<nat>)
    requires stack.Valid() && Enumerator.InRange(combo, Counts(stack.layers))
    modifies stack
    ensures stack.Valid()
    ensures stack.layers == Applied(old(stack.layers), combo)
  {
    ghost var layers0 := stack.layers;
    for k := 0 to |combo|
      invariant stack.Valid() && |stack.layers| == |layers0|
      invariant forall j :: 0 <= j < k ==> stack.layers[j] == layers0[j].(selected := Some(combo[j]))
      invariant forall j :: k <= j < |layers0| ==> stack.layers[j] == layers0[j]
    {
      stack.SelectImage(k, combo[k]);
    }
  }

  /** No cancel was pressed during the steps before `n`. */
  predicate NoCancelBefore(cancelDuring: nat -> bool, n: int)
  {
    forall i :: 0 <= i < n ==> !cancelDuring(i)
  }

  /**
   * The generation loop. `render(i, urls)` stands for drawing `urls` on the canvas at step `i`
   * and encoding it, `None` when the canvas yields no blob; `cancelDuring(i)` says whether the
   * cancel button was pressed while step `i` was waiting, which the flag shows at the next check.
   * The flag is cleared just before the loop, so the first step always runs.
   */
  method RunSteps(stack: Layers.Stack, combos: seq<seq<nat>>, names: nat -> string,
                  render: (nat, seq<string>) -> Option<Bytes>, cancelDuring: nat -> bool)
    returns (steps: nat, files: seq<OutFile>, cancelRequested: bool)
    requires stack.Valid() && |combos| > 0 && Fits(combos, stack.layers)
    modifies stack
    ensures stack.Valid()
    ensures 1 <= steps <= |combos|
    ensures steps == |combos| || cancelDuring(steps - 1)
    ensures NoCancelBefore(cancelDuring, steps - 1)
    ensures cancelRequested == cancelDuring(steps - 1)
    ensures files == Collected(old(stack.layers), combos, names, render, steps)
    ensures stack.layers == Applied(old(stack.layers), combos[steps - 1])
  {
    ghost var layers0 := stack.layers;
    cancelRequested := false;
    files := [];
    var i := 0;
    while i < |combos|
      invariant 0 <= i <= |combos|
      invariant stack.Valid()
      invariant SameExceptSelections(stack.layers, layers0)
      invariant i > 0 ==> stack.layers == Applied(layers0, combos[i - 1])
      invariant files == Collected(layers0, combos, names, render, i)
      invariant cancelRequested == (i > 0 && cancelDuring(i - 1))
      invariant NoCancelBefore(cancelDuring, i - 1)
    {
      if cancelRequested {
        break;
      }
      assert NoCancelBefore(cancelDuring, i);
      var combo := combos[i];
      AppliedOverwrites(stack.layers, layers0, combo);
      ApplyCombination(stack, combo);
      AppliedDraws(layers0, combo);
      var buffer := render(i, Layers.DrawList(stack.layers));
      var name := names(i);
      if buffer.Some? {
        files := files + [OutFile(name, buffer.value)];
      }
      if cancelDuring(i) {
        cancelRequested := true;
      }
      i := i + 1;
    }
    steps := i;
  }

  /** The start handler: validate, enumerate, run the steps, and decide whether to save. */
  method Generate(stack: Layers.Stack, folder: string, prefixInput: string,
                  render: (nat, seq<string>) -> Option<Bytes>, cancelDuring: nat -> bool)
    returns (outcome: Outcome)
    requires stack.Valid()
    modifies stack
    ensures stack.Valid()
    ensures CheckStart(folder, old(stack.layers)).Some? ==>
      outcome == Rejected(CheckStart(folder, old(stack.layers)).value) && stack.layers == old(stack.layers)
    ensures CheckStart(folder, old(stack.layers)).None? ==>
      var layers0 := old(stack.layers);
      var combos := Combinations(layers0);
      && outcome.Finished?
      && outcome.total == |combos|
      && 1 <= outcome.steps <= outcome.total
      && (outcome.steps == outcome.total || cancelDuring(outcome.steps - 1))
      && NoCancelBefore(cancelDuring, outcome.steps - 1)
      && Fits(combos, layers0)
      && outcome.files == Collected(layers0, combos, RunNames(Naming.TrimOr(prefixInput, DefaultPrefix),
                                    Naming.PadWidth(|combos|)), render, outcome.steps)
      && (outcome.saved <==> !cancelDuring(outcome.steps - 1) && outcome.files != [])
      && stack.layers == Applied(layers0, combos[outcome.steps - 1])
  {
    var prefix := Naming.TrimOr(prefixInput, DefaultPrefix);
    var error := CheckStart(folder, stack.layers);
    if error.Some? {
      return Rejected(error.value);
    }
    var combos := Combinations(stack.layers);
    StartAcceptedIffWork(folder, stack.layers);
    var width := Naming.PadWidth(|combos|);
    var steps, files, cancelRequested := RunSteps(stack, combos, RunNames(prefix, width), render, cancelDuring);
    var saved := !cancelRequested && |files| > 0;
    outcome := Finished(|combos|, steps, files, saved);
  }
}
