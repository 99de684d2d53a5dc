# Urdu Nastaleeq content script and packaging rule, modelled in Dafny

The browser extension renders Urdu text on any page in a Nastaleeq font. Its
content script finds text nodes holding Arabic-script characters. It cuts each
one into plain text and `<span class="urdu-nastaleeq">` wrappers, and a style
sheet gives the wrappers the chosen font family and size. When the feature is
turned off, the wrappers are unwrapped again and the text is re-merged with
`normalize()`. Pages that change are handled through a throttled mutation
queue. A build script decides which files of the extension go into the
published archive.

This project models that core as pure functions over immutable data:

- `js.dfy` (module `Js`): JavaScript strings as sequences of UTF-16 code units, the JavaScript values the script reads from storage and messages, arrays included (truthiness, `||`, string conversion, loose equality with a number), and the string built-ins it uses.
- `dom.dfy` (module `Dom`): elements, text nodes and other nodes; `textContent`; `Node.normalize()` as section 4.4 ("Interface Node") of the WHATWG DOM Standard defines it.
- `protection.dfy` (module `Protection`): the guard `isProtectedElement`.
- `segmentation.dfy` (module `Segmentation`): the `phraseRegex` character class and the `exec` loop that cuts a text into gaps and runs.
- `rewriter.dfy` (module `Rewriter`): the enabled branch of `applyNastaleeq`. It holds the element traversal as written (`LiveNode`, over the live `childNodes` list) and the corrected traversal that visits every original child (`RewriteNode`).
- `teardown.dfy` (module `Teardown`): the disabled branch of `applyNastaleeq` (unwrap and normalize), the whole dispatch as written (its enabled branch is `LiveNode`), and the on/off round trip, proved both for the traversal as written and for the corrected one.
- `mutation_queue.dfy` (module `MutationQueue`): the observer callback, the throttle timer and `processQueue`, as a state machine with three events.
- `settings.dfy` (module `Settings`): the settings loaded from storage and from messages, the font-size policy, `updateStyles` and `init` as written (the skip-identical-write rule and the live traversal), a corrected `updateStyles` with both findings below fixed, the `wakeUp` latch and the typing-detection class toggle.
- `packaging.dfy` (module `Packaging`): the selection rule and the archive names of `create_optimized_zip`.

Text is a sequence of 16-bit code units, because the regular expressions carry no `u` flag.

The class of `phraseRegex` is modelled exactly as written. In it, `\F` is an identity escape for the letter F, so `\FB50-﷿` is the letters F, B and 5 plus the range U+0030..U+FDFF. `Segmentation.PhraseClassEffective` states the class that results: ASCII white space, U+0030..U+FDFF and U+FE70..U+FEFF. Latin letters and digits therefore join an Arabic run.

The segmentation loop is generic in the class. The content script's instance is `InPhraseClass`.

## Model

| member | source | states |
|---|---|---|
| Js.Or | content.js:299-300 | the logical-or yields one of its operands; the result is truthy exactly when one operand is, and it is the first operand whenever that one is truthy |
| Js.IntStringReadsBack | content.js:242-243 | the decimal text of any integer, sign included, converts back to that integer |
| Js.SingletonArrayLooseEquals | content.js:242 | an array of one number or string is loosely equal to an integer exactly when its element is |
| Js.DigitsValueOfDigits | content.js:243 | the decimal text of a size reads back as the same number |
| Js.HasArabicAppend | content.js:147 | a concatenation holds a U+0600..U+06FF unit exactly when one of its parts does |
| Dom.MergeTextContent | content.js:137 | merging adjacent text siblings keeps the text they spell |
| Dom.MergeTopNormalized | content.js:137 | after merging, no text sibling is empty and no two text siblings are adjacent |
| Dom.MergeOfTopNormalized | content.js:137 | merging siblings that are already merged changes nothing |
| Dom.NormalizePreservesText | content.js:137 | `normalize()` keeps the text content of the subtree |
| Dom.NormalizeIsNormalized | content.js:137 | after `normalize()`, no text node at any depth is empty or has a text sibling next to it |
| Dom.NormalizeOfNormalized | content.js:137 | `normalize()` on a normalized subtree is the identity |
| Dom.NormalizeIdempotent | content.js:137 | normalizing twice is the same as normalizing once |
| Protection.AnyKeywordMeans | content.js:53-55 | the keyword loop reports a hit exactly when the id or the class string contains one of the keywords from that position on |
| Protection.KeywordHitMeans | content.js:49-56 | the guard that skips an empty id and class never hides a hit: an ancestor's test succeeds exactly when its lower-cased id or class contains a keyword |
| Protection.WalkDepth | content.js:45-47 | the walk looks at no more than four ancestors, stops at `document.body`, and otherwise stops only when the ancestors run out |
| Protection.AncestorWalkMeans | content.js:45-64 | the ancestor walk protects exactly when one of the ancestors it visits is editable or mentions a keyword |
| Protection.ProtectedExactly | content.js:25-67 | protected exactly when: not an element; an ignored or form tag; editable; carries the marker class; or one of the first four ancestors strictly below body is editable or mentions a keyword. The element's own id and class are never checked |
| Protection.MarkedIsProtected | content.js:40-42 | every wrapper span is protected wherever it sits |
| Segmentation.PhraseClassEffective | content.js:123 | the class as written holds exactly ASCII white space, U+0030..U+FDFF and U+FE70..U+FEFF |
| Segmentation.PhraseClassCoversArabic | content.js:123 | the class holds every unit of U+0600..U+06FF, the block the filters test |
| Segmentation.FirstIn | content.js:158 | the search position skips exactly the units outside the class |
| Segmentation.RunEnd | content.js:158 | a match extends over class units up to the first unit outside the class |
| Segmentation.Exec | content.js:158 | `exec` from `lastIndex` returns the leftmost maximal run of the class, or none when no class unit is left |
| Segmentation.ScanFromFacts | content.js:152-179 | the loop's pieces spell the scanned text and are well segmented, and no Arabic-block unit is left after `lastIndex` |
| Segmentation.GapFacts | content.js:166-168 | the gap before a qualifying run is empty only at the very start; otherwise it is non-empty, has no Arabic-block unit, and is bordered by units outside the class |
| Segmentation.WrappedStep | content.js:163-178 | appending the gap and a span and continuing after the run keeps the loop's facts |
| Segmentation.QualifyingRunHasLetter | content.js:161-170 | a run with an Arabic-block unit keeps a unit that is not a digit or white space after `trim()` and the removal of `[0-9\s]` |
| Segmentation.CompatModeIrrelevant | content.js:170-177 | the fragment is the same whether compatibility mode is on or off |
| Segmentation.FragmentSpec | content.js:152-184 | a fragment exists exactly when the text has an Arabic-block unit; it spells the text exactly; each span is one maximal class run with an Arabic-block unit; no piece is empty; no Arabic-block unit lies outside a span |
| Rewriter.RewriteTextWhen | content.js:144-150 | a text node is replaced exactly when it holds an Arabic-block unit and its parent element is not protected |
| Rewriter.RewriteTextShape | content.js:155-187 | the replacement spells the same text and consists of plain text nodes without Arabic-block units and at least one wrapper span |
| Rewriter.RewriteTextRuns | content.js:158-184 | the replacement is built from a well-segmented list of pieces that spells the original text |
| Rewriter.TextCase | content.js:144-188 | for a text node, the rewrite keeps the text and leaves nothing to wrap; it is the node itself exactly when the node needs no wrapping |
| Rewriter.RewritePreservesText | content.js:125-203 | the rewrite of any node keeps its text content |
| Rewriter.RewriteSettles | content.js:125-203 | after the rewrite no text with an Arabic-block unit is left under an unprotected parent, with the corrected traversal |
| Rewriter.RewriteOfSettled | content.js:125-203 | a node with nothing to wrap is left exactly as it is, with the corrected traversal |
| Rewriter.FixedPointIsSettled | content.js:125-203 | a node the rewrite leaves alone has nothing to wrap, so settled nodes are exactly the fixed points, with the corrected traversal |
| Rewriter.RewriteIdempotent | content.js:125-203 | a second pass over the output changes nothing, with the corrected traversal |
| Rewriter.LiveLoopPreservesText | content.js:189-203 | the traversal as written, over the live child list, still keeps the text |
| Rewriter.LiveNodePreservesText | content.js:125-203 | `applyNastaleeq` as written keeps the text of any node it is given |
| Rewriter.LiveLoopShape | content.js:192-200 | however the live list grows, the loop ends with some prefix of the original children replaced by their rewrites and every later original child untouched; the nodes it inserted itself are passed over without effect |
| Rewriter.LiveNodeShape | content.js:189-201 | an unprotected element's children after the traversal as written are the rewrites of a prefix of them followed by the rest unchanged |
| Rewriter.FirstTextRewrite | content.js:158-186 | "ا!" under a plain `<div>` becomes a span holding the alef followed by the text "!" |
| Rewriter.LiveLoopSkipsLastChild | content.js:192-201 | on `<div>ا!<b>ا</b></div>` the traversal as written never reaches the `<b>`, whose alef stays unwrapped |
| Rewriter.RewriteVisitsEveryChild | content.js:192-201 | visiting every original child wraps both alefs of the same page and leaves nothing to wrap |
| Teardown.TeardownPreservesText | content.js:130-139 | unwrapping the spans and normalizing keeps the text content |
| Teardown.TeardownRemovesMarkers | content.js:131-136 | no wrapper span remains anywhere below the element |
| Teardown.TeardownOfMarkerFree | content.js:130-139 | an element without wrapper spans below it is left unchanged |
| Teardown.TeardownIdempotent | content.js:130-139 | turning the feature off twice is the same as once |
| Teardown.TeardownOfFragment | content.js:133-137 | unwrapping a text node's fragment leaves text nodes only, with the same text |
| Teardown.RoundTrip | content.js:129-203 | with the corrected traversal, rewriting a normalized, span-free element and then tearing it down gives back the element exactly |
| Teardown.RoundTripLive | content.js:129-203 | with the traversal as written, rewriting a normalized, span-free element and then tearing it down gives back the element exactly, although later children may go unvisited |
| Teardown.ApplyReplacesText | content.js:129-150 | a text node is replaced exactly when the feature is on, the text holds an Arabic-block unit and the parent is an unprotected element |
| Teardown.ApplyDisabled | content.js:129-141 | with the feature off a node keeps its place, text and attributes, no wrapper span remains below it, and a text node is untouched |
| Teardown.ApplyRoundTrip | content.js:125-204 | `applyNastaleeq` as written, on then off over a normalized, span-free element, restores it exactly |
| MutationQueue.Initial | content.js:323-325 | the initial state is empty and satisfies the queue invariant |
| MutationQueue.EligibleMembers | content.js:346-354 | a node is queued exactly when some record added it and it is an element or a text node |
| MutationQueue.EligibleAppend | content.js:346-354 | the records' nodes are queued record by record, in order |
| MutationQueue.Observe | content.js:343-362 | when disabled, nothing changes. When enabled, the eligible nodes go behind the queue and the timer is (re)armed exactly when the queue is non-empty and no drain runs. The invariant is kept |
| MutationQueue.TimerFire | content.js:358-361 | the timer starts a drain over the queue as it is and keeps the invariant |
| MutationQueue.IdleStep | content.js:327-341 | a drain step hands over the first min(250, length) nodes in order and keeps the rest; the processing flag stays set exactly while nodes remain; it keeps the invariant and, under it, never meets an empty queue |
| MutationQueue.DrainSpec | content.js:327-341 | an uninterrupted drain hands every queued node over exactly once, in FIFO order, in batches of at most 250, all but the last full |
| Settings.EmptyStorageIsOff | content.js:297-302 | with nothing stored, `globalEnable` defaults to on but the missing `siteSettings` turns the feature off |
| Settings.FromStorage | content.js:294-303 | the feature is on exactly when `globalEnable` is not stored as false and `siteSettings` is present with the host not set to false; compatibility mode only for a stored `true`; falsy size or family fall back to 20 and Jameel Noori Nastaleeq |
| Settings.OnMessage | content.js:315-321 | only `updateSettings` changes the settings; then family, size and compatibility switch are the message's own values with no defaults (a missing size is undefined), the feature is on exactly when the message's `globalEnable` and site switch are truthy, and the site switch is the message's |
| Settings.OnMessageForgetsPrevious | content.js:317-318 | an update keeps nothing of the previous settings: the result depends on the message alone |
| Settings.FontSizeMessageIgnored | content.js:316 | the `updateFontSize` action is ignored |
| Settings.CssSpec | content.js:240-244 | size and line height inherit from the page exactly when the size is loosely equal to 20; otherwise the size in px with line height 1.8 |
| Settings.SocialSizeIsExplicit | content.js:266 | in the social-media override a numeric size n is always n px, 20 included |
| Settings.NumberTextSize | content.js:242 | a size stored as the text of an integer, bare or padded with spaces, is loosely equal to exactly that integer, so only the text of 20 takes the default branch |
| Settings.SingletonArraySize | content.js:240-266 | a size stored as a one-element array of a number or string produces the same style values as its element |
| Settings.StaleSheetAfterReenable | content.js:225-288 | as written, turning the feature off and on again with the same settings leaves the style sheet empty |
| Settings.UpdateSheet | content.js:225-288 | with the last-applied text reset on disable, the sheet always holds what the current settings call for, and skipping an identical write is safe |
| Settings.AsWrittenAgreesWhileEnabled | content.js:285-288 | while the feature stays on, the code as written and the corrected version agree |
| Settings.UpdateStyles | content.js:225-291 | as written: when off, only the sheet is emptied (the last-applied text and the body stay); when on, the last-applied text becomes the wanted rules, and the sheet holds them exactly when it already did or the last-applied text differed |
| Settings.UpdateStylesSpec | content.js:225-291 | as written, the body keeps its text; while on and in step, the sheet holds the wanted rules; turning it on over a normalized, span-free body can be undone exactly by the disabled branch |
| Settings.UpdateStylesCorrectedSpec | content.js:225-291 | with both corrections, from a state in step, the sheet always holds what the settings call for and an enabled body keeps its text with nothing left to wrap |
| Settings.InitSpec | content.js:294-311 | at page load, with the feature off nothing is touched and no listener is bound; with it on, the listener is bound, the sheet and last-applied text hold the rules for the loaded settings, and the body keeps its text |
| Settings.WakeUpInjectsOnce | content.js:72-121 | however often `wakeUp` runs, the font faces are injected exactly once as soon as it has run |
| Rewriter.LiveWakesIffChanged | content.js:144-201 | `applyNastaleeq` as written calls `wakeUp()` (once per replaced text node, at least) exactly when the node does not keep its place |
| Rewriter.LiveLoopGrows | content.js:158-201 | every text node the loop replaces brings at least one new element and none is removed |
| Rewriter.LiveLoopQuiet | content.js:144-201 | a loop that replaces no text node leaves the child list as it was |
| Settings.WakeManyOnce | content.js:72-74 | after any positive number of `wakeUp()` calls the latch is where one call leaves it |
| Settings.ApplyWakesLatch | content.js:125-201 | after `applyNastaleeq(node)` the latch is woken exactly when it was already or the feature is on and the node changed, and the font faces are injected once more exactly when that wakes it |
| Settings.HandleInputSpec | content.js:207-223 | the target carries the typing class exactly when its value (or inner text) holds an Arabic-block unit; other classes are kept; `wakeUp` runs exactly when the class is newly added |
| Settings.HandleInputIdempotent | content.js:207-223 | handling the same input twice changes nothing more and wakes at most once |
| Packaging.KeptRootMembers | build_optimized.py:25-27 | a root-level file is archived exactly when its name is one of the five allowed names |
| Packaging.WalkInnerMembers | build_optimized.py:30-32 | below an allowed folder, at any depth, a file is archived exactly when its name has no excluded extension |
| Packaging.DescendRootMembers | build_optimized.py:13-16 | only the top-level `icons` and `fonts` folders are descended, and everything below them is walked |
| Packaging.ArchiveMembers | build_optimized.py:20-39 | a path is archived exactly when a file is there and the selection rule accepts it |
| Packaging.AllowedFilesNotExcluded | build_optimized.py:6-18 | none of the allowed root names ends in an excluded extension |
| Packaging.NothingExcludedArchived | build_optimized.py:18-32 | no archived entry ends in an excluded extension |
| Packaging.ArcNameIsSlashJoin | build_optimized.py:35-36 | whatever the platform separator, an archive name is the path's components joined with `/` |
| Packaging.SplitArcName | build_optimized.py:35-36 | splitting an archive name at `/` gives back the path's components |
| Packaging.ArcNameInjective | build_optimized.py:36 | distinct paths get distinct archive names |

## Left out

- The `chrome.*` APIs (`storage.sync.get`, `runtime.onMessage`, `runtime.getURL`): their answers are parameters (`FromStorage`'s `result` map, `Message`), and `getURL` only feeds CSS text.
- DOM construction and `replaceChild`: modelled as values. The try/catch around `replaceChild` (content.js:185-187) guards a DOM race and is modelled as never throwing.
- Scheduling: `MutationObserver` delivery, `setTimeout` and `requestIdleCallback` are three abstract events (`Observe`, `TimerFire`, `IdleStep`). Clearing and re-arming the timer is the same single armed flag.
- The `count > 40` deferral (content.js:195-198): the children are processed at once. Deferral only changes when the same calls happen.
- The `@font-face` text and the cosmetic CSS text (content.js:77-115, 246-283): a sheet is represented by the values interpolated into it (size, line height, social-media size, family). `wakeUp` is represented by how many times it injects its sheet.
- The regexes `urduRegexRange` and `urduLettersOnly` (content.js:2, 4): they are never used.
- popup.js is not part of this model. Only its `updateFontSize` message is, and it is ignored.
- The second `init()` call after `DOMContentLoaded` (content.js:365-373): not modelled.
- Build-script I/O (build_optimized.py:20, 38-56): zip writing, `print`, file sizes and the hard-coded paths. Symbolic links are not modelled: a directory is a tree of names.
- Rewriter.RewriteNode: the corrected traversal. Idempotence and "nothing left to wrap" are proved about it and not about `Rewriter.LiveNode`, which does not have them (see Findings). The script's dispatch, `updateStyles` and `init` are modelled with `LiveNode`; for them the model proves text preservation and the on/off round trip only.
- Rewriter.LiveWakes: counts one `wakeUp()` call per replaced text node, where the script makes one per valid match (content.js:163-164). `Settings.WakeManyOnce` shows that the latch ends the same for any positive number of calls.
- Teardown.TeardownNode: the script calls `parent.normalize()` once per unwrapped span. The model calls it once per parent that had a span unwrapped, after all its spans are gone. Merging adjacent text is associative, so the final tree is the same.
- Teardown.ApplyDisabled: this is the only route by which the script tears the page down. `updateStyles` returns before `applyNastaleeq(document.body)` when the feature is off, so wrappers already on the page are removed only when queued mutations run in disabled mode.
- Protection.ProtectedExactly: `toLowerCase` is modelled on ASCII letters only. Other letters that lower-case into a keyword's ASCII letters (e.g. the Kelvin sign) are not modelled.
- Protection.ProtectedExactly: `className` and `classList` are independent fields of an element. The DOM keeps them in step; the model does not need that.
- Settings.CssSpec: numbers are integers. Fractional sizes and the numeric forms `StringToInt` does not read (hexadecimal, exponents, `Infinity`, decimals such as `"20.0"`) are read as not-a-number, so such a size takes the px branch: `"20.0"` gives `20.0px` with line height 1.8, where the script inherits. Arrays are modelled (string conversion joins the elements with commas); other objects print as `[object Object]` and are never loosely equal to a number.
- Settings.OnMessage: `request.settings` is taken to be an object. Properties of a non-object payload are not modelled.
- Settings.InitSpec: the input listener is bound only by `init` when the feature is on. A later enabling message does not bind it. The model states this and leaves the listener's later life out.

## Findings

| source | as written | input that shows it | evidently intended | confidence | as-written member | corrected member |
|---|---|---|---|---|---|---|
| content.js:192-200 | the loop reads `children[i]` from the live `childNodes` list for `i < count`, with `count` taken before the loop; a text node replaced by several nodes pushes the later children beyond `count` | `<div>ا!<b>ا</b></div>` with the feature on: the first text becomes a span and "!", the second iteration visits "!", and the `<b>` is never visited | every original child is processed once (iterate over a snapshot such as `Array.from(node.childNodes)`) | not executed | Rewriter.LiveLoopSkipsLastChild | Rewriter.RewriteVisitsEveryChild |
| content.js:235-238 | disabling empties the style element but leaves `lastAppliedStyles` holding the old rules | enable with size 24, disable, enable again with size 24: the rules equal `lastAppliedStyles`, the write is skipped, and the sheet stays empty | reset `lastAppliedStyles` to `""` when the sheet is emptied, so the skip test compares against what the sheet holds | not executed | Settings.StaleSheetAfterReenable | Settings.UpdateSheet |
