# Text layer and block projection of an editor store, in Dafny

This project models the text layer of a block-based collaborative editor's store:

- the normaliser for deltas coming from the rich-text widget;
- the inert placeholder texts that a split hands out;
- the `Text` wrapper over a shared, replicated text, with its mutations, the marker each mutation leaves, and the `sliceToDelta` run walk;
- the binding that keeps one shared text and one rich-text widget in step;
- the projection of the block tree to markup and to plain text, including the page block's override.

Layout:

- `js.dfy` (module `Js`): the JavaScript semantics the code relies on. This covers `String.prototype.slice` with negative or out-of-range bounds, the truthiness of an optional number (`end = 0` counts as absent), optional values and thrown errors.
- `yjs.dfy` (module `Yjs`): the shared text primitive.
  - Its content is a sequence of characters, each with its attribute map.
  - `toDelta()` is the cut into maximal runs of equal formatting.
  - It has insert, delete, format and `applyDelta` (retain, insert, delete) operations.
  - It carries the one-shot `meta` marker.
- `text_adapter.dfy` (module `TextAdapter`): `normQuillDelta`, `PrelimText`, the `sliceToDelta` walk and its properties, and the class `Text`.
- `rich_text_adapter.dfy` (module `Binding`): the class `RichTextAdapter`.
  - It has the used-formats map, the two observers, `getCursor` and `destroy`.
  - The calls it makes on the widget are recorded in a sequence.
- `base.dfy` (module `Blocks`): the block tree, with `firstChild`, `lastChild`, `_deltaLeaf2Html`, `block2html` and `block2Text`.
- `page_model.dfy` (module `PageBlock`): the page block's constructor defaults and its two overrides.

The code is imperative in four places, and the model keeps that form there:

- the trimming loop of `normQuillDelta`;
- the run walk of `sliceToDelta`;
- the `Text` mutators, which change the primitive's content and marker in place;
- the binding, which grows its used-formats map in place and clears the marker.

Each of these is a method with loop invariants or `modifies` frames, proved against a specification function. The properties of that function are then proved as lemmas.

The rest of the code is pure: the placeholders, `split`, `toDelta`, `toString` and the block projections. It is modelled as functions and lemmas.

## Model

| member | source | states |
|---|---|---|
| `Js.SliceLast` | packages/store/src/text-adapter.ts:19-24 | `slice(-1)` is the last character and `slice(0, -1)` drops it; both give "" on "". |
| `Yjs.ToDeltaExpands` | packages/store/src/text-adapter.ts:199-201 | `toDelta()` loses nothing: expanding its runs gives back the content, formatting included. |
| `Yjs.ToDeltaText` | packages/store/src/text-adapter.ts:199-201 | The runs of `toDelta()` spell out exactly `toString()`. |
| `Yjs.ToDeltaMaximal` | packages/store/src/text-adapter.ts:199-201 | Every run is non-empty. No run carries an empty attribute map. Adjacent runs differ in formatting. |
| `Yjs.YText.Insert` | packages/store/src/text-adapter.ts:137 | The primitive's `insert`: the text goes in at the index. It takes the given attributes, or those of the preceding character when none are given. The marker is untouched. |
| `Yjs.YText.Delete` | packages/store/src/text-adapter.ts:179 | The primitive's `delete` removes exactly the range, stopping at the end of the text; from past the end it removes nothing. The marker is untouched. |
| `Yjs.YText.Format` | packages/store/src/text-adapter.ts:171 | The primitive's `format` overlays the attributes on the range only, stopping at the end of the text. The marker is untouched. |
| `Yjs.YText.ApplyDelta` | packages/store/src/text-adapter.ts:195 | The primitive's `applyDelta` walks the content with a cursor. The marker is untouched. |
| `Yjs.YText.Clone` | packages/store/src/text-adapter.ts:123-125 | A clone is fresh, has the same content and carries no marker. |
| `Yjs.AppendByDelta` | packages/store/src/text-adapter.ts:158-167 | Applying `[retain(len)] + other.toDelta()` appends the other content, formatting included. |
| `Yjs.DeltaRoundTrip` | packages/store/src/text-adapter.ts:108-112 | Applying a text's own delta to an empty text rebuilds the text. |
| `Yjs.InsertThenDelete` | packages/store/src/text-adapter.ts:135-141 | Deleting what `insert` just put in restores the content. |
| `Yjs.FormatIdempotent` | packages/store/src/text-adapter.ts:169-175 | Formatting a range twice with the same attributes equals formatting it once. |
| `TextAdapter.TrimNewlines` | packages/store/src/text-adapter.ts:22-25 | The result is a prefix that does not end in a newline, and everything cut off is newlines. |
| `TextAdapter.NormalizedDeltaShape` | packages/store/src/text-adapter.ts:12-34 | A delta whose last op is not a bare insert ending in a newline comes back as it is. Otherwise every earlier op is kept, and the last op loses all trailing newlines. The last op is dropped exactly when it was all newlines. |
| `TextAdapter.NormalizationIsOnePass` | packages/store/src/text-adapter.ts:12-34 | Only the last op is looked at, so the result can again end in a bare newline. |
| `TextAdapter.NormQuillDelta` | packages/store/src/text-adapter.ts:12-34 | The loop computes the normalised delta, on a copy of the input. |
| `TextAdapter.PrelimText.Length` | packages/store/src/text-adapter.ts:47-49 | A placeholder's length is 0. |
| `TextAdapter.PrelimText.Invoke` | packages/store/src/text-adapter.ts:51-89 | Every other placeholder operation throws, with the "PrelimText does not support " message. |
| `TextAdapter.PrelimErrorsNameTheOperation` | packages/store/src/text-adapter.ts:36-89 | Two placeholder errors are equal exactly when the operations are, so each message names its operation. |
| `TextAdapter.SliceWithoutEnd` | packages/store/src/text-adapter.ts:203-240 | With a non-negative `begin` and a falsy `end`, the runs spell `toString().slice(begin)`. |
| `TextAdapter.SliceWithEnd` | packages/store/src/text-adapter.ts:212-239 | With `0 <= begin < end`, the walk gives nothing when `begin` is past the text. Otherwise the run holding `begin` is cut to `[begin, end)`. Then come the following runs, uncut, up to and including the first that crosses `end`. |
| `TextAdapter.TrimmedSliceText` | packages/store/src/text-adapter.ts:219-231 | The corrected walk spells `toString().slice(begin, end)`. |
| `TextAdapter.SliceVersusTrimmed` | packages/store/src/text-adapter.ts:219-231 | The walk as written and the corrected walk differ only in the last run's text, and the corrected text is a prefix of the other. |
| `TextAdapter.CrossingRunIsNotCut` | packages/store/src/text-adapter.ts:219-231 | Take a bold "ab" followed by a plain "cd". `sliceToDelta(1, 3)` spells "bcd", while `toString().slice(1, 3)` and the corrected walk give "bc". |
| `TextAdapter.InsertListText` | packages/store/src/text-adapter.ts:143-156 | After `insertList`, the string has the entries' texts, in list order, at the index. |
| `TextAdapter.Text.FromString` | packages/store/src/text-adapter.ts:99-106 | A string makes a fresh, unformatted primitive without a marker. |
| `TextAdapter.Text.Wrap` | packages/store/src/text-adapter.ts:99-106 | A primitive given is wrapped as it is. |
| `TextAdapter.Text.FromDelta` | packages/store/src/text-adapter.ts:108-112 | The result is the delta applied to an empty text, with no marker. |
| `TextAdapter.Text.Length` | packages/store/src/text-adapter.ts:114-116 | `length` is the length of `toString()`. |
| `TextAdapter.Text.ToDelta` | packages/store/src/text-adapter.ts:199-201 | The runs spell `toString()` and expand to the content. |
| `TextAdapter.Text.Clone` | packages/store/src/text-adapter.ts:123-125 | A fresh wrapper around a fresh primitive with the same content and no marker. |
| `TextAdapter.Text.Split` | packages/store/src/text-adapter.ts:127-132 | A left and a right placeholder at the index, both of length 0. The function reads nothing of the text, so the text is unchanged. |
| `TextAdapter.Text.Insert` | packages/store/src/text-adapter.ts:135-141 | The content is the primitive's insert, and the marker is `split`. |
| `TextAdapter.Text.InsertList` | packages/store/src/text-adapter.ts:143-156 | The entries are inserted from last to first at one index, so they end up in list order. A missing text is "". An entry without attributes takes those of the character before the index. The marker is `split`. |
| `TextAdapter.Text.Join` | packages/store/src/text-adapter.ts:158-167 | The content becomes the old content followed by the other text's content, formatting included, and the marker is `join`. |
| `TextAdapter.Text.Format` | packages/store/src/text-adapter.ts:169-175 | The content is the primitive's format of `[index, index + length)` cut at the end of the text, and the marker is `format`. |
| `TextAdapter.Text.Delete` | packages/store/src/text-adapter.ts:177-183 | The content is the primitive's delete of `[index, index + length)` cut at the end of the text, and the marker is `delete`. |
| `TextAdapter.Text.Clear` | packages/store/src/text-adapter.ts:185-191 | The content is empty, and the marker is `clear`. |
| `TextAdapter.Text.ApplyDelta` | packages/store/src/text-adapter.ts:193-197 | The content is the delta applied, and the marker is left as it was. |
| `TextAdapter.Walk` | packages/store/src/text-adapter.ts:212-239 | The run walk that the loop computes, from the run at hand on. It emits at most one run per run of the delta. `TextAdapter.SliceWithEnd` and `TextAdapter.SliceWithoutEnd` state what it emits. |
| `TextAdapter.SliceOfDelta` | packages/store/src/text-adapter.ts:203-240 | `sliceToDelta` over a delta: the two early exits, then the walk. It has at most as many runs as the delta. `TextAdapter.SliceWithoutEnd`, `TextAdapter.SliceWithEnd` and `TextAdapter.CrossingRunIsNotCut` state what it spells. |
| `TextAdapter.TrimmedSliceOfDelta` | packages/store/src/text-adapter.ts:219-231 | The corrected `sliceToDelta`, with the run crossing `end` cut at `end`. It has at most as many runs as the delta. `TextAdapter.TrimmedSliceText` proves it spells `toString().slice(begin, end)`. |
| `TextAdapter.Text.ToString` | packages/store/src/text-adapter.ts:242-244 | One character per character of the primitive, formatting dropped. |
| `TextAdapter.Text.SliceToDelta` | packages/store/src/text-adapter.ts:203-211 | Gives `[]` when a truthy `end` is not after `begin`. Gives the whole delta when `begin < 1` and `end` is falsy. Otherwise gives the walk. With a non-negative `begin` and a falsy `end`, the result spells `toString().slice(begin)`. |
| `TextAdapter.Text.WalkRuns` | packages/store/src/text-adapter.ts:212-239 | The loop, which stops after a run crossing `end`, computes the run walk. |
| `TextAdapter.Text.PushRun` | packages/store/src/text-adapter.ts:216-236 | One turn of the loop pushes the first run reaching past `begin`, cut on both edges. It pushes later runs uncut. It reports whether the run crosses `end`. |
| `Binding.RegisteringOnlyGrows` | packages/store/src/text-adapter.ts:327-335 | Registering keys never drops or overwrites a key, and keeps the map all-`false`. |
| `Binding.RegisteringIsIdempotent` | packages/store/src/text-adapter.ts:327-335 | Seeing the same operations twice registers nothing more. |
| `Binding.MaterializedPinsUnusedFormats` | packages/store/src/text-adapter.ts:288-304 | The pushed delta keeps the event's ops in order, and non-inserts are unchanged. Every insert keeps its text and states each used key: its own value wins, and any other used key is `false`. |
| `Binding.Materialize` | packages/store/src/text-adapter.ts:288-304 | The loop builds the materialised delta. |
| `Binding.AddAbsentKeys` | packages/store/src/text-adapter.ts:329-333 | The walk over one op's keys adds exactly the absent ones as `false`. |
| `Binding.GetCursor` | packages/store/src/text-adapter.ts:344-361 | No cursor exactly when there is no selection. Otherwise the anchor is at the selection's index and the focus `length` after it. |
| `Binding.RichTextAdapter.constructor` | packages/store/src/text-adapter.ts:256-274 | The binding subscribes and seeds the widget with the text's delta, then listens to the widget. The used-formats map starts empty. |
| `Binding.RichTextAdapter.Seeded` | packages/store/src/text-adapter.ts:268-273 | Listening before seeding lets the seeding change register the formats the text uses. |
| `Binding.SeedingRegistersContentFormats` | packages/store/src/text-adapter.ts:270-273 | Every formatting key of the seeded content ends up in the used-formats map as `false`. |
| `Binding.UnseededMissesContentFormats` | packages/store/src/text-adapter.ts:268-273 | For a bold text, seeding through the listener gives a non-empty map, where the code as written leaves it empty. |
| `Binding.RichTextAdapter.YObserver` | packages/store/src/text-adapter.ts:276-314 | Pushes the materialised delta to the widget under the local replica's tag exactly when the origin is another replica or the marker is set. In the pushed delta every insert states each used format, its own values winning and every other used key `false`. The marker is cleared. Content and used formats are unchanged, and the map stays all-`false`. |
| `Binding.RichTextAdapter.QuillObserver` | packages/store/src/text-adapter.ts:316-342 | With ops present, their keys are registered and the map stays all-`false`. The ops are applied to the text exactly when the origin is "user". No widget call is made. |
| `Binding.RichTextAdapter.RegisterKeys` | packages/store/src/text-adapter.ts:327-334 | One op's keys are registered in the binding's map, which stays all-`false`. |
| `Binding.RichTextAdapter.Destroy` | packages/store/src/text-adapter.ts:363-366 | Both subscriptions are dropped, and the widget listener is removed. The used-formats map is kept. |
| `Blocks.FirstChild` | packages/store/src/base.ts:34-40 | Null exactly for a block without children, otherwise its first child. |
| `Blocks.LastChild` | packages/store/src/base.ts:42-47 | The result has no children and lies within the block, below its last child when it has children. |
| `Blocks.LastChildIsSelfIffNoFirst` | packages/store/src/base.ts:34-47 | `lastChild()` is the block itself exactly when `firstChild()` is null. |
| `Blocks.LastChildIdempotent` | packages/store/src/base.ts:42-47 | `lastChild()` of the result is the result. |
| `Blocks.DeltaLeaf2Html` | packages/store/src/base.ts:68-96 | A leaf without attributes renders as its text. Any other leaf renders as its text, or as a longer string that opens and closes a tag. `Blocks.LeafHtmlIsOneTag` states which tag. |
| `Blocks.LeafHtmlIsOneTag` | packages/store/src/base.ts:68-96 | A leaf renders as its text, or wrapped in exactly one tag: that of the first truthy format in the order bold, italic, underline, code, strikethrough, link. |
| `Blocks.RenderDelta` | packages/store/src/base.ts:57-59 | The leaves rendered one by one and joined from the left. The markup is never shorter than the text the runs spell. |
| `Blocks.PlainRenderIsText` | packages/store/src/base.ts:57-59 | Unformatted runs render as the text they spell. |
| `Blocks.Block2Html` | packages/store/src/base.ts:49-61 | No text is a TypeError, and a placeholder throws the `sliceToDelta` error. A live text renders its slice before `childText`. |
| `Blocks.Block2Text` | packages/store/src/base.ts:63-66 | The block's string sliced from `begin` (0 when falsy) to `end`, followed by `childText`. Without a text the result is `childText`. |
| `Blocks.PlainBlockHtmlIsText` | packages/store/src/base.ts:49-66 | For an unformatted live text, a non-negative `begin`, and an `end` absent or positive, the markup is the plain text. |
| `Blocks.EndZeroDisagrees` | packages/store/src/base.ts:56-64 | With `end = 0`, the markup has the whole text and the plain text none of it. |
| `PageBlock.NewPage` | packages/blocks/src/page-block/page-model.ts:3-9 | The flavour is "page", the base block has no children or text, and the title is the one given or "". |
| `PageBlock.PageBlock2Html` | packages/blocks/src/page-block/page-model.ts:11-19 | A `div` around the whole title followed by `childText`, whatever `begin` and `end` are. |
| `PageBlock.PageBlock2Text` | packages/blocks/src/page-block/page-model.ts:21-24 | The title sliced from `begin` (0 when falsy) to `end`, followed by `childText`. |
| `PageBlock.PageProjectionsIgnoreBase` | packages/blocks/src/page-block/page-model.ts:11-24 | Both page projections depend only on the title and their arguments, never on the block's text. |
| `PageBlock.PageHtmlWrapsFullText` | packages/blocks/src/page-block/page-model.ts:11-24 | The page markup is the unsliced page text in a `div`, whatever `begin` and `end` are. |
| `PageBlock.UntitledPageRendersChildrenOnly` | packages/blocks/src/page-block/page-model.ts:5-24 | A page made without a title renders `childText` alone. |

## Left out

- The store and its transactions are not modelled. `store.transact` is taken to run its callback once, and the `_shouldTransact` switch, always on, is not modelled. Coalescing of change notifications is not modelled either.
- Conflict resolution between replicas is not modelled. Only the effect on one replica's content is.
- Embeds (non-string inserts) are not modelled. Neither are attribute values of `null`, which remove a format.
- The widget is seen only through the calls recorded in `widgetCalls`. Its own behaviour is not modelled: what `setContents` and `updateContents` do to its contents, and its inheritance of formatting. Its change events are modelled in one place only: `Binding.RichTextAdapter.Seeded` assumes that `setContents` delivers its change to a listener already subscribed, synchronously, and the second finding rests on that assumption. The awareness adapter and the cursors module are not modelled either.
- Binding.GetCursor: returns the integer anchor and focus, not the relative positions of the shared text, which follow concurrent edits. The widget's selection is a parameter.
- Binding.RichTextAdapter.YObserver: the event's target is taken to be the bound text.
- Binding.RichTextAdapter.YObserver: does not model the echo of its own `updateContents` (text-adapter.ts:306). If the widget delivered that change synchronously to the widget listener, as `Binding.RichTextAdapter.Seeded` assumes for `setContents`, the listener would not apply it (its origin is not "user") but would register every key of the pushed delta. The model leaves the used-formats map unchanged instead.
- Yjs.YText.Insert: requires the index to lie within the text. The primitive's behaviour with an index past the end is not modelled.
- Yjs.YText.Delete: a range reaching past the end is taken to stop at the end, as the delete step of `applyDelta` does in `Yjs.ApplyFrom`. The primitive's own source is not part of this model.
- Yjs.YText.Format: a range reaching past the end is taken to stop at the end, as a retain of `applyDelta` does in `Yjs.ApplyFrom`. The primitive's own source is not part of this model.
- TextAdapter.Text.Insert: requires `index <= length`. The primitive's behaviour past the end is not modelled.
- TextAdapter.Text.InsertList: requires `index <= length`. The primitive's behaviour past the end is not modelled.
- A character of the model stands for a UTF-16 code unit: JavaScript's `length` and `slice` and the primitive's positions count code units. No proof depends on what a character is.
- A primitive made outside a document (`new Y.Text(s)`, `clone()`, the empty text `fromDelta` starts from) keeps its first insert or `applyDelta` pending until it is added to a document. The model gives it its content at once (`TextAdapter.Text.FromString`, `TextAdapter.Text.FromDelta`, `Yjs.YText.Clone`).
- Numbers are integers, so fractional or NaN values of `begin`, `end` and indices are not modelled.
- Blocks.Block2Html: the block's text is a snapshot of the content at the time of the call. The unused sibling-id parameters are dropped.
- Blocks.Block2Html: its contract states the error cases and where `childText` goes. The rendered text itself is related to the plain text by `Blocks.PlainBlockHtmlIsText` and `Blocks.EndZeroDisagrees`.
- Virtual dispatch between a base block and a page block is not modelled. A caller picks the page projections for a page.
- Not modelled: `BaseBlockModel`'s constructor, `dispose`, `childMap` and update signals, the `type` field, and `Signal`, whose source is not part of this model.
- Mouse, touch and gesture handling are not modelled. They are DOM event plumbing and floating-point geometry.
- The browser end-to-end test drives a live page and has no logic to model.

## Findings

| source | as written | input that shows it | evidently intended | confidence | as-written member | corrected member |
|---|---|---|---|---|---|---|
| packages/store/src/text-adapter.ts:219-231 | A run other than the first one pushed is pushed uncut (`result.push(content)`), even when it crosses `end` and was cut into `contentText`. | A text of bold "ab" then plain "cd", `sliceToDelta(1, 3)`, gives runs spelling "bcd". | The crossing run is cut at `end`, so the slice spells `toString().slice(1, 3)` = "bc". | high; not executed | `TextAdapter.CrossingRunIsNotCut` | `TextAdapter.TrimmedSliceText` |
| packages/store/src/text-adapter.ts:268-273 | The widget listener is subscribed after `setContents`, so it does not see the seeding change. The used-formats map starts empty, despite the comment that seeding initialises it. | A bold text bound to a widget: the map stays `{}` instead of `{bold: false}`, so the next remote plain insert is not pinned to non-bold. | Subscribe first, then seed, so the text's formats are registered. | medium (it relies on the widget emitting its change event synchronously); not executed | `Binding.UnseededMissesContentFormats` | `Binding.SeedingRegistersContentFormats` |

The block projection `Blocks.Block2Html` keeps the walk as written, because it models what `block2html` renders today. The corrected walk is `TextAdapter.TrimmedSliceOfDelta`. `TextAdapter.SliceVersusTrimmed` proves that the two walks differ only in the text of the last run. The corrected binding is `Binding.RichTextAdapter.Seeded`.
