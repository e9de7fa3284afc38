# enefty: layer stack, combination enumerator and bulk generation

enefty is a desktop tool that composes a picture from a stack of layers. Each layer holds
alternative image variants and at most one selected variant. The preview draws the selected
variants bottom to top. Bulk generation enumerates every choice of one variant per layer,
renders each combination, names the results `<prefix>-<00001>.png`, … and writes them into a
folder in one batch.

This project models that core of `renderer.js` in Dafny:

- `wrappers.dfy`: the `Option` type used for the nullable selection and for a render that may
  produce no image.
- `naming.dfy` (module `Naming`): JavaScript's `String(n)`, `padStart`, `trim` and
  `trim() || fallback`; the pad width of a run; the file-name rule, proved to give names that
  are pairwise distinct and sort in step order.
- `enumerator.dfy` (module `Enumerator`): `cartesianProduct` as a left fold of `flatMap` starting
  from `[[]]`, on lists whose elements are not themselves arrays, which is how the start handler
  calls it with lists of image indices. It is proved equal, position by position, to a mixed-radix
  (odometer) counter whose first layer is the most significant digit. From that follow its
  length, the range of every entry, completeness, the absence of duplicates, and lexicographic
  order.
- `layers.dfy` (module `Layers`):
  - the layer and variant records;
  - the pure effect of each panel operation;
  - the preview's draw list;
  - the drag-reorder as a permutation;
  - the class `Stack`, holding the live `layers` array, whose methods update it in place.

  Every method keeps the invariant that a layer has a selection exactly when it has images, and
  that the selection is a valid index.
- `bulk.dfy` (module `Bulk`): the start handler. It validates the request, enumerates the
  combinations and runs the generation loop against the live stack. The loop is proved against a
  specification of the files it collects. The final save happens exactly when the run was not
  cancelled and something was collected.

Rendering and cancellation come from outside the core and are parameters of the model:

- `render(i, urls)` stands for drawing `urls` on the canvas at step `i` and encoding the result,
  or `None` when the canvas produces no blob.
- `cancelDuring(i)` says whether the cancel button was pressed while step `i` was waiting.

Behaviour of the code worth knowing:

- A run cannot be paused. Once started it runs to the end or until the cancel button is pressed.
- A run with a layer that has no images is refused as a whole (`Bulk.CheckStart`).
- A run with no layers at all is accepted. `cartesianProduct([])` is `[[]]`, so the run renders
  one image with nothing drawn.
- Files are collected in memory and handed over in one batch after the loop. A cancel, even
  one pressed during the last step, writes nothing.
- The loop writes each combination into the live layers. It does not work on a snapshot.
- Adding images to a layer without a selection selects index 0, the layer's first image. Under
  the stack invariant a layer without a selection has no images, so this is the first image
  just added.

## Model

| member | source | states |
|---|---|---|
| Naming.ParseNatToString | renderer.js:333 | `String(n)` is a decimal numeral with no leading zero that reads back as `n` |
| Naming.NatToStringLength | renderer.js:314 | `n` has at most `k` digits exactly when `n < 10^k` |
| Naming.PadStart | renderer.js:333 | `padStart` keeps the string at the end, fills in front with the fill character, and gives length `max(w, len)` |
| Naming.PadStartIsFixedWidth | renderer.js:333 | a number that fits the width is padded to exactly `w` decimal digits |
| Naming.ParseFixedWidth | renderer.js:333 | the padded digits read back as the number |
| Naming.PadWidth | renderer.js:314 | the width is at least 5 and at least the digit count of the total; it is 5 exactly when the total is below 100000 |
| Naming.FileNameShape | renderer.js:333 | every name of a run has length `len(prefix) + width + 5`, and its digit field reads back as step + 1 |
| Naming.FileNamesOrdered | renderer.js:333 | for steps `i < j` of one run the names differ and compare lexicographically in step order |
| Naming.Trim | renderer.js:302 | `trim` keeps the slice between the leading and the trailing white space; it is empty exactly when the input is all white space, and otherwise starts and ends with a visible character |
| Naming.TrimOr | renderer.js:302 | `input.trim() \|\| fallback`: the trimmed input when something visible was typed, the fallback otherwise |
| Enumerator.CartesianProduct | renderer.js:357-361 | the fold yields the product of the list lengths many tuples, and `[[]]` for no lists |
| Enumerator.ExtendAt | renderer.js:358-359 | entry `i·len(b)+j` of one `flatMap` step is accumulator tuple `i` extended by choice `j` |
| Enumerator.CartesianProductAt | renderer.js:357-361 | for lists whose elements are kept whole, tuple `p` has one entry per list, the entry of each list that odometer reading `p` names |
| Enumerator.OdometerValue | renderer.js:357-361 | the odometer value of an in-range tuple is below the number of combinations |
| Enumerator.OdometerOfValue | renderer.js:357-361 | decoding the odometer value of a tuple gives the tuple back |
| Enumerator.ValueOfOdometer | renderer.js:357-361 | encoding the odometer reading of `p` gives `p` back |
| Enumerator.OdometerIncreasing | renderer.js:357-361 | larger positions give lexicographically larger readings, with the last layer turning fastest |
| Enumerator.CombosLength | renderer.js:313 | there are exactly as many index combinations as the product of the layer sizes |
| Enumerator.CombosAt | renderer.js:313 | combination `p` of the layers' index lists is the odometer reading of `p` |
| Enumerator.CombosInRange | renderer.js:308-313 | every combination has one entry per layer, each a valid image index of that layer |
| Enumerator.CombosComplete | renderer.js:313 | every assignment of valid indices occurs, at the position given by its odometer value |
| Enumerator.CombosIncreasing | renderer.js:313 | combinations are strictly increasing in lexicographic order, so none occurs twice |
| Enumerator.ProductPositive | renderer.js:309-313 | when every layer has an image there is at least one combination |
| Enumerator.ProductZero | renderer.js:309-313 | a layer with no images leaves no combination at all |
| Layers.DisplayName | renderer.js:33 | the panel label is never empty, and is the layer's own name when it has one |
| Layers.BaseNameIsTail | renderer.js:192 | the shown name is the longest tail of the path without `/` or `\`, preceded in the path by a separator when it is not the whole path |
| Layers.ImportAll | renderer.js:189-193 | one variant per chosen file, in the order chosen, holding the path and its base name |
| Layers.WithImagesAdded | renderer.js:187-196 | new images follow the old ones in order; an existing selection is kept; a missing one becomes index 0 once anything is added; both selection invariants are preserved |
| Layers.WithoutImage | renderer.js:224-231 | exactly the image at `k` goes and the rest keep their order; a selection above `k` moves down by one and one below `k` is kept, so it selects the same image; the removed selected image is replaced by index 0, or by none when no images remain; both selection invariants are preserved |
| Layers.GatherPermutation | renderer.js:121-124 | rebuilding a list from a permutation of its positions neither loses nor adds an element |
| Layers.FromPanelOrder | renderer.js:118-125 | the stack rebuilt after a drag has the same layers with the same multiplicities |
| Layers.PanelOrder | renderer.js:13-18 | the panel lists every layer index exactly once, top layer first |
| Layers.UndraggedPanelKeepsStack | renderer.js:118-125 | a drag that leaves the drawn panel order unchanged leaves the stack unchanged |
| Layers.PanelTopIsDrawnLast | renderer.js:118-125 | the layer at the top of the panel becomes the last layer of the stack, and the one at the bottom becomes the first |
| Layers.DrawList | renderer.js:137-143 | the preview draws at most one image per layer |
| Layers.DrawListAppend | renderer.js:137-143 | drawing a stack draws its lower part, then its upper part |
| Layers.DrawListAllSelected | renderer.js:137-143 | when every layer has a valid selection, each layer contributes exactly its selected image, bottom first, as a `data:` URL or a `file://` URL |
| Layers.DrawnCoherent | renderer.js:137-143 | in a coherent layer, only a layer without images is skipped |
| Layers.Stack.constructor | renderer.js:1 | the stack starts empty |
| Layers.Stack.AddLayer | renderer.js:164-168 | one layer with no images, no selection and the default name of its position is appended; the others are unchanged |
| Layers.Stack.RemoveLayer | renderer.js:170-174 | the layer at `idx` is removed and the others keep their order |
| Layers.Stack.MoveLayer | renderer.js:176-182 | swaps positions `idx` and `idx + dir` when the target exists, and otherwise changes nothing; the multiset of layers is unchanged |
| Layers.Stack.SelectImage | renderer.js:201-205 | only the selection of that layer changes, to the clicked index |
| Layers.Stack.AddImages | renderer.js:184-199 | the layer becomes `WithImagesAdded` of the imported files, via the source's per-file loop; other layers are unchanged |
| Layers.Stack.RemoveImage | renderer.js:224-234 | the layer becomes `WithoutImage` of the removed index; other layers are unchanged |
| Layers.Stack.Rename | renderer.js:44-53 | the name becomes the trimmed input, or the default name of the position when the input is blank; it is never empty |
| Layers.Stack.ApplyPanelOrder | renderer.js:117-125 | the loop from the panel's end produces `FromPanelOrder` of the old stack |
| Bulk.CheckStart | renderer.js:303-312 | a missing folder is refused first; otherwise any layer without images is refused; an accepted stack has only non-empty layers |
| Bulk.StartAcceptedIffWork | renderer.js:303-313 | given a folder, a run is accepted exactly when there is at least one combination, and then every combination fits the stack |
| Bulk.AppliedOverwrites | renderer.js:328-330 | applying a combination changes selections only, and its result does not depend on the selections it overwrites |
| Bulk.AppliedDraws | renderer.js:328-331 | after a combination is applied, the preview draws exactly the image it picks from each layer, bottom first |
| Bulk.Collected | renderer.js:333-342 | after `n` steps at most `n` files are collected |
| Bulk.Producing | renderer.js:340-342 | the producing steps are below `n` and strictly increasing |
| Bulk.ProducingExactly | renderer.js:340-342 | a step is listed as producing exactly when its render produced a buffer |
| Bulk.CollectedByStep | renderer.js:326-342 | the `j`-th file belongs to the `j`-th producing step: its name and its buffer |
| Bulk.CollectedNamesOrdered | renderer.js:314-342 | with the run's pad width the collected names are pairwise distinct and sort in step order |
| Bulk.ApplyCombination | renderer.js:328-330 | the loop over a combination leaves the stack equal to `Applied` of it, and keeps the stack invariant |
| Bulk.RunSteps | renderer.js:322-348 | at least one step runs; the loop stops after the last combination or after the first step during which cancel was pressed; files are `Collected` for the steps run; the stack holds the last combination |
| Bulk.Generate | renderer.js:300-351 | a refused start changes nothing; an accepted one runs over all combinations of the stack with prefix `trim() \|\| "variation"` and the run's pad width, and saves exactly when no cancel was seen at the end and files were collected |

## Left out

- Everything the DOM and canvas do:
  - building the layers panel, modal visibility and progress text (renderer.js:10-130, 278-298, 315-321, 343-347, 352);
  - loading images, thumbnails, drawing and `toBlob`, which become the `render` parameter.
- The asynchronous event loop. `await`, the 10 ms `setTimeout` and the cancel button's handler
  are reduced to the `cancelDuring(i)` parameter, read where the flag is read. The flag's reset
  after the run (renderer.js:353) has no observable effect in the model.
- Layer edits made while a run or an image import is waiting. The model gives the methods
  exclusive use of the stack.
- `Layers.Stack.AddImages`: a file that fails to load never resolves `loadImage`, so the source
  stalls at that file. The model assumes every chosen file loads.
- `Layers.Stack.RemoveLayer`, `Layers.Stack.SelectImage`, `Layers.Stack.RemoveImage`,
  `Layers.Stack.MoveLayer`, `Layers.Stack.AddImages`, `Layers.Stack.Rename`: out-of-range layer
  and image indices are excluded by `requires`. The panel only produces valid ones; the source
  does not check them, and `moveLayer` with an out-of-range `idx` would write `undefined` into
  the stack.
- `Enumerator.CartesianProduct`: each element of a list is one entry of a tuple. `[].concat`
  at renderer.js:359 would spread an element that is itself an array into several entries;
  the only caller passes lists of numbers, where the two agree.
- `Layers.Stack.ApplyPanelOrder`: the panel order is required to list every layer index exactly
  once, which is what the panel's `data-idx` attributes give.
- Layer identity and aliasing. Layers are values, so a closure holding a layer object
  (renderer.js:44, 51) is modelled by its index at the time the panel was drawn.
- `moveLayer` is no longer called from the panel; it is modelled anyway.
- Project save and load, the Electron main process and the preload bridge (`main.js`,
  `preload.js`). The batch write `bulkSavePNG` is the `saved` flag of the outcome. A loaded
  project can contain layers that break the stack invariant. The model covers stacks built by
  the panel operations.
- Text is modelled as sequences of Unicode code points. JavaScript strings are UTF-16, so
  `trim` and `padStart` agree with the model on every string without surrogate pairs.
