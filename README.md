# Sprying selector engine, modelled in Dafny

Sprying is a small browser library. Its core is a query constructor:
`Sprying(arg)` (also `$`). Given a CSS-like selector string, it returns a
query object holding the matching DOM elements:

- clauses separated by commas;
- within a clause, fragments separated by whitespace (descendant
  combinator);
- each fragment made of an optional tag, `.class` parts and an optional
  `#id`.

For other arguments, the constructor wraps a DOM node, returns a query
object unchanged, or queues a callback until the document has loaded.

This project models that engine and proves what it computes:

- `_selectWord` resolves one fragment;
- `_buildCommon` intersects the lookups;
- `_selectBlock` chains the fragments of a clause through `_obtainChild`.
  The chain uses `_obtainChild` with its removal corrected (see
  "## Findings"); the code as written is modelled and proved beside it;
- `_buildUnion` concatenates the clauses;
- the `Sprying` constructor, with its ready queue and `Sprying.ready`;
- the accessors `get`, `each` and `is`, and `Sprying.toArray`;
- the ES5 `Array.prototype` shims the engine relies on (`reduce`), and the
  neighbouring `indexOf`, `lastIndexOf`, `filter`, `every` and `some`.

Files, one module each:

- `js.dfy` (`Js`): the host values. A sparse array is `seq<Option<T>>`,
  where `None` is a hole. In element arrays it also stands for a null
  entry, because every test the engine makes of an entry (`if (!arr[i])`,
  `while (upNode)`) treats the two alike. This file also holds the errors
  the engine throws, all of them a `TypeError`, and truthiness.
- `dom.dfy` (`Dom`): the document, seen only through the host lookups.
  These are `getElementsByTagName`, `getElementsByClassName`,
  `getElementById` and `parentNode`. A depth function guarantees that the
  walk up `parentNode` ends.
- `array_shims.dfy` (`ArrayShims`): the array shims, each as a loop proved
  equal to a specification function.
- `set_ops.dfy` (`SetOps`): `_buildCommon`, `_buildUnion`, `_obtainChild`
  (as written, and corrected) and `Sprying.toArray`.
- `selector_text.dfy` (`SelectorText`): the string side of the engine.
  - `trim`;
  - `split(/\s*,\s*/)` and `split(/\s+/)`;
  - the three regular expressions that extract the tag, the class key and
    the id from a fragment.
- `selector.dfy` (`Selector`): `_selectWord`, `_selectBlock` and the
  constructor's string branch.
- `query.dfy` (`Query`): the query object (`class Sprying`) with `get`,
  `each` and `is`, the constructor `NewSprying`, and the ready queue
  (`class ReadyQueue`).

The host lookups, and the callbacks handed to `each`, `reduce`, `filter`,
`every` and `some`, are parameters: pure functions. A callback handed to the
constructor is only an identity (`Callback`), and the ready queue records the
order in which the drain calls the callbacks.

`_buildCommon` and `_obtainChild` splice their second argument in place.
No code in the engine reads that array afterwards: it is a slot of the
container being reduced. So each is a method with the nested loops of the
source, proved equal to a function that returns the result, and the
remaining array where the source updates it.

Two modelling choices meet in `split(/\s*,\s*/)`:

- `SplitSelector` models `arg.trim().split(/\s*,\s*/)` as
  `TrimAll(SplitAt(Trim(arg), ','))`. The string is trimmed first, so it
  neither starts nor ends with whitespace. On such a string, the separator
  regex matches exactly a comma together with the whitespace around it.
  Splitting at each comma and trimming each piece therefore gives the same
  pieces.
- Whitespace (`IsSpace`) is the ES5 WhiteSpace and LineTerminator set, which
  is both the set for `\s` and the set a native `trim` removes.

Some behaviours follow the code rather than the library's description:

- An empty or whitespace-only selector throws instead of selecting nothing,
  and so does a selector with a trailing comma. Each has a clause with no
  tag, no class and no id. `_selectWord` then reduces a container of three
  holes, and the `reduce` shim throws.
- Every string takes the comma branch. The test
  `/^|[\s]*,[\s]*|&/` matches any string through its empty `^`
  alternative.
- The class key of `.a.b.c` is `"a b.c"`. The run of classes is captured
  whole, and `replace(/\./, ' ')` has no `g` flag, so only the first dot
  becomes a space. The model keeps this as written (`ClassKey`,
  `ClassKeyOfThreeClasses`).

## Model

| member | source | states |
|---|---|---|
| ArrayShims.ReduceShim | dist/sprying-debug.js:223-254 | returns `ReduceAt`. With an initial value, the fold starts from it at index 0. Without one, the scan takes the first present value and folds from the index after it, or throws `EmptyReduce` when no index is present. Each present index is passed to the callback with its value and the index itself |
| ArrayShims.ReduceAtBinary | dist/sprying-debug.js:223-254 | with no initial value and a callback that ignores the index, as every call in the engine makes it, the shim is `Reduce`: the first present value folded left over the later present values |
| ArrayShims.FoldAtBinary | dist/sprying-debug.js:247-251 | the loop over the remaining indices, with a callback that ignores the index, is the left fold over the present values from there |
| ArrayShims.ReduceInitialOfHoles | dist/sprying-debug.js:229-251 | with an initial value, an array of holes gives back the initial value, and the callback is never called |
| ArrayShims.ReduceFailsIffAllHoles | dist/sprying-debug.js:234-244 | `reduce` without an initial value throws exactly when every index is a hole, and the error is `EmptyReduce` |
| ArrayShims.ReduceSingle | dist/sprying-debug.js:234-251 | with exactly one present index, `reduce` returns that value unchanged, and the callback is never applied |
| ArrayShims.ReduceFrom | dist/sprying-debug.js:234-251 | the fold starts at the first present index, and skips the holes before it |
| ArrayShims.ReduceDense | dist/sprying-debug.js:234-251 | on an array with no holes, `reduce` folds from its first element over the rest |
| ArrayShims.FoldLeftSnoc | dist/sprying-debug.js:247-251 | one more present value applies the callback once more, to the result so far |
| ArrayShims.IndexOfShim | dist/sprying-debug.js:294-310 | the scan returns `IndexFound` from the start the code computes: 0 when `from` is absent, `from + len` clamped at 0 when it is negative |
| ArrayShims.IndexFoundIs | dist/sprying-debug.js:303-309 | the result from start k is -1 exactly when no index at or after k holds the value; otherwise it is the first such index |
| ArrayShims.LastIndexOfShim | dist/sprying-debug.js:315-332 | the downward scan returns `LastFound` from the start the code computes, with `Number(from) \|\| len - 1` |
| ArrayShims.LastFoundIs | dist/sprying-debug.js:325-331 | the result from start k is -1 exactly when no index at or before k holds the value; otherwise it is the last such index |
| ArrayShims.LastStart | dist/sprying-debug.js:318-323 | the start as section 15.4.4.15 of ECMA-262 5th edition defines it: never above a non-negative `from` |
| ArrayShims.LastStartDiffers | dist/sprying-debug.js:318 | the code's start equals the standard's for every `from` except 0, where the code starts at `len - 1` instead of 0 |
| ArrayShims.LastIndexOfWithinFrom | dist/sprying-debug.js:318-331 | with the standard's start, `lastIndexOf(v, n)` never returns an index above n |
| ArrayShims.LastIndexOfFromZero | dist/sprying-debug.js:318 | on `[v, v]`, `lastIndexOf(v, 0)` as written returns 1; with the standard's start it returns 0 |
| ArrayShims.Kept | dist/sprying-debug.js:181-194 | `filter` over the first n indices keeps at most n values |
| ArrayShims.KeptHas | dist/sprying-debug.js:184-191 | a value is kept exactly when some present index holds it and the callback accepts it there |
| ArrayShims.KeptAll | dist/sprying-debug.js:184-191 | a callback that accepts everything keeps exactly the present values, in order |
| ArrayShims.FilterShim | dist/sprying-debug.js:181-194 | the shim's loop returns `Kept` over the whole array |
| ArrayShims.EveryShim | dist/sprying-debug.js:199-206 | true exactly when the callback accepts every present index (holes are skipped) |
| ArrayShims.SomeShim | dist/sprying-debug.js:211-218 | true exactly when the callback accepts some present index |
| SetOps.FirstIndex | dist/sprying-debug.js:627-634 | the inner loop of `_buildCommon` finds the first index holding the element, or none |
| SetOps.Splice1 | dist/sprying-debug.js:632 | `splice(j, 1)` shortens the array by one when j is in range, and leaves it unchanged otherwise |
| SetOps.BuildCommon | dist/sprying-debug.js:623-638 | the nested loops return `Common(arr1, arr2)`: the kept elements, and `arr2` after its splices |
| SetOps.CommonIsIntersection | dist/sprying-debug.js:623-638 | counted with repetition, the result is the intersection of the present entries of both arrays |
| SetOps.CommonIsSubsequence | dist/sprying-debug.js:625-636 | the result keeps the order of `arr1` |
| SetOps.CommonHas | dist/sprying-debug.js:623-638 | an element is kept exactly when both arrays hold it |
| SetOps.CommonBound | dist/sprying-debug.js:623-638 | the result is no longer than the present entries of either array |
| SetOps.CommonConsumes | dist/sprying-debug.js:630-632 | each kept element is spliced out of `arr2` once: kept elements plus what remains make up `arr2` exactly |
| SetOps.SpliceOne | dist/sprying-debug.js:632 | removing a present entry removes exactly that one value |
| SetOps.Union | dist/sprying-debug.js:647-649 | `_buildUnion` is `concat`: the first array followed by the second |
| SetOps.ObtainChild | dist/sprying-debug.js:594-614 | `_obtainChild`, with the removal at the matched index j: returns `Descendants`, the children under each parent in turn, each child consumed by the first parent above it |
| SetOps.ConsumeBelow | dist/sprying-debug.js:598-611 | one pass of the inner loop for parent p: pushes the children at or below p in order, and clears exactly those slots |
| SetOps.WalkUp | dist/sprying-debug.js:602-610 | the `parentNode` walk from a child meets `p` exactly when `p` is the child or one of its ancestors |
| SetOps.DescendantsHas | dist/sprying-debug.js:594-614 | an element is in the result exactly when it is a child below some parent; with no parent the result is empty |
| SetOps.DescendantsIsNarrowing | dist/sprying-debug.js:594-614 | counted with repetition, the result is exactly the children below some parent: nothing is lost or duplicated |
| SetOps.ObtainChildAsWritten | dist/sprying-debug.js:594-614 | the loops as written, with `children.splice(i, 1)` and `j_len` fixed, return `DescendantsAsWritten`; the result is empty when `parent` is |
| SetOps.DescendantsAsWrittenSound | dist/sprying-debug.js:594-614 | as written, every pushed element is a child whose `parentNode` chain, itself included, reaches some parent |
| SetOps.ObtainChildAsWrittenDropsChild | dist/sprying-debug.js:606 | with one parent over two children, the code returns only the first child; the corrected removal returns both |
| SetOps.ToArray | dist/sprying-debug.js:906-912 | `Sprying.toArray` returns a fresh array of the same length, holding the same entries and the same holes |
| SelectorText.Trim | dist/sprying-debug.js:703 | `trim` leaves no whitespace at either end, and never lengthens the string |
| SelectorText.TrimSlice | dist/sprying-debug.js:703 | the trimmed string is a slice of the input, with only whitespace cut before and after it |
| SelectorText.TrimIdempotent | dist/sprying-debug.js:703 | trimming twice is trimming once |
| SelectorText.TrimTrimmed | dist/sprying-debug.js:703 | a string without whitespace at either end is unchanged by `trim` |
| SelectorText.SplitJoin | dist/sprying-debug.js:742 | splitting at a character, then joining with it, gives back the string, and no piece holds that character |
| SelectorText.JoinSplit | dist/sprying-debug.js:742 | joining pieces free of the character, then splitting, gives back the pieces |
| SelectorText.SplitSelector | dist/sprying-debug.js:742 | the comma split yields at least one clause, each without whitespace at either end |
| SelectorText.SplitSelectorClauses | dist/sprying-debug.js:742 | no clause contains a comma |
| SelectorText.SplitSelectorJoin | dist/sprying-debug.js:742 | clauses without commas or outer whitespace, joined with commas, split back into the same clauses |
| SelectorText.WordsConcat | dist/sprying-debug.js:703 | `split(/\s+/)` loses only whitespace: its pieces concatenated are the input with the whitespace removed |
| SelectorText.WordsNoSpace | dist/sprying-debug.js:703 | no fragment contains whitespace |
| SelectorText.WordsOfTrimmed | dist/sprying-debug.js:703 | on a nonempty trimmed clause, no fragment is empty |
| SelectorText.WordsOfWord | dist/sprying-debug.js:703 | a string without whitespace splits into itself |
| SelectorText.WordRun | dist/sprying-debug.js:660-661 | the `\w+` run at the start is maximal, and nonempty when the string starts with a word character |
| SelectorText.FindMarker | dist/sprying-debug.js:667-686 | finds the leftmost position where the marker (`.` or `#`) is followed by a word character, or reports that there is none |
| SelectorText.ReplaceFirstDot | dist/sprying-debug.js:677 | `replace(/\./, ' ')` keeps the length, and leaves a string without dots unchanged |
| SelectorText.ReplaceFirstDotAt | dist/sprying-debug.js:677 | only the first dot becomes a space |
| SelectorText.ParseTag | dist/sprying-debug.js:660-662 | for a fragment `tag.c1.c2#id`, the tag regex yields the tag, or nothing when the tag is empty |
| SelectorText.ParseClassKey | dist/sprying-debug.js:667-677 | for such a fragment, the class key is the dotted run of its classes with only the first dot replaced by a space, or nothing when it has no class |
| SelectorText.ParseId | dist/sprying-debug.js:684-686 | for such a fragment, the id regex yields exactly its id |
| SelectorText.ClassKeyOfThreeClasses | dist/sprying-debug.js:675-677 | the class key of `.a.b.c` is `"a b.c"` |
| Selector.Slots | dist/sprying-debug.js:658-688 | the container has three slots: tag, class and id |
| Selector.FillTagSlot | dist/sprying-debug.js:660-665 | slot 0 becomes the `toArray` copy of the tag lookup when the fragment starts with a word; otherwise the container is unchanged, and the other slots are always unchanged |
| Selector.FillClassSlot | dist/sprying-debug.js:667-681 | slot 1 becomes the `toArray` copy of the class lookup, keyed by the dotted class list with its first dot made a space, when the fragment has one; otherwise the container is unchanged, and the other slots are always unchanged |
| Selector.FillIdSlot | dist/sprying-debug.js:683-687 | slot 2 becomes the one-element or empty array of the id lookup when the fragment has `#` and a word; otherwise the container is unchanged, and the other slots are always unchanged |
| Selector.SelectWord | dist/sprying-debug.js:657-691 | fills the three slots through `toArray` for the parts present, and reduces them through `_buildCommon`: returns `WordResult` |
| Selector.WordFailsIffNoPart | dist/sprying-debug.js:657-691 | a fragment throws `EmptyReduce` exactly when it has no tag, no class and no id |
| Selector.WordOfEmpty | dist/sprying-debug.js:657-691 | the empty fragment throws `EmptyReduce` |
| Selector.WordSinglePart | dist/sprying-debug.js:657-691 | a fragment with one part returns that part's lookup unchanged |
| Selector.WordHas | dist/sprying-debug.js:657-691 | an element matches a fragment exactly when it is in the lookup of every part the fragment has |
| Selector.ReduceCommonHas | dist/sprying-debug.js:690 | reducing lookups through `_buildCommon` keeps exactly what every present lookup holds |
| Selector.FoldCommonHas | dist/sprying-debug.js:690 | folding through `_buildCommon` keeps exactly what the start and every later array hold |
| Selector.SelectFragments | dist/sprying-debug.js:704-707 | the loop over the fragments: each goes through `_selectWord` in order and the first exception is rethrown; returns `Collect(WordStep(doc), matches)`, whose meaning `CollectIs` states |
| Selector.SelectBlock | dist/sprying-debug.js:700-713 | a clause without whitespace is one fragment; otherwise its fragments are selected in order, the first failure is rethrown, and the results are reduced through `_obtainChild`: returns `BlockResult` |
| Selector.BlockHas | dist/sprying-debug.js:700-713 | an element matches `f0 f1 … fn` exactly when it matches `fn` and has itself or an ancestor matching `f0 … f(n-1)` |
| Selector.FoldDescendantsHas | dist/sprying-debug.js:709 | folding fragment results through `_obtainChild` keeps exactly the ends of chains through all of them |
| Selector.BlockFails | dist/sprying-debug.js:703-709 | a clause with whitespace throws exactly when one of its fragments has no part |
| Selector.BlockError | dist/sprying-debug.js:700-713 | every error a clause throws is `EmptyReduce` |
| Selector.CollectIs | dist/sprying-debug.js:704-707 | the results loop gives one result per piece, in order, or the error of a piece that throws, which some piece does exactly when the loop fails |
| Selector.SelectClauses | dist/sprying-debug.js:743-745 | the loop over the comma-separated clauses: each goes through `_selectBlock` in order and the first exception is rethrown; returns `Collect(BlockStep(doc), matches)` |
| Selector.Query | dist/sprying-debug.js:741-746 | the string branch: the clauses of the trimmed string, each through `_selectBlock`, reduced through `_buildUnion`; returns `QueryResult` |
| Selector.QueryIsConcatenation | dist/sprying-debug.js:741-746 | the selection is each clause's result concatenated in clause order, with duplicates kept: its length is the sum of theirs. It fails exactly when a clause does |
| Selector.FoldUnion | dist/sprying-debug.js:746 | folding through `_buildUnion` appends the arrays in order |
| Selector.TrailingCommaFails | dist/sprying-debug.js:741-746 | a selector ending in a comma throws `EmptyReduce` |
| Selector.BlankQueryFails | dist/sprying-debug.js:741-746 | an empty or whitespace-only selector throws `EmptyReduce` |
| Query.NewSprying | dist/sprying-debug.js:738-767 | briefly: a query object argument is returned unchanged; null or undefined throws; a string selects `QueryResult` or throws its error; a node gives `[node]`; a function gives an empty selection and joins the ready queue; anything else gives an empty selection. The full statement is under the table. |
| Query.Sprying.constructor | dist/sprying-debug.js:762-766 | `this[i]` equals `elems[i]` for every index below `length`, and `length` equals `elems.length` |
| Query.Sprying.Get | dist/sprying-debug.js:835-837 | `get(i)` is `this[i]` in range, null out of range or at a falsy entry, and otherwise one of the selected elements |
| Query.Sprying.Each | dist/sprying-debug.js:843-850 | returns the query object itself, and calls the callback in the order `EachCalls` gives |
| Query.EachVisitsAll | dist/sprying-debug.js:843-848 | whatever the callback returns, `each` calls it once on every index, in ascending order |
| Query.EachUntilFalseStops | dist/sprying-debug.js:840 | as documented, `each` calls the indices in order, up to and including the first call that returns `false`, and no earlier call returns `false` |
| Query.EachUntilFalseAgrees | dist/sprying-debug.js:840-848 | when no call returns `false`, as with a callback that returns nothing, `0` or `""`, the documented `each` calls every index, exactly as the code does |
| Query.EachIgnoresFalse | dist/sprying-debug.js:846 | a callback returning `false` on two elements is called twice, where the documented rule stops after one |
| Query.Sprying.Is | dist/sprying-debug.js:856-860 | builds the other query object, then throws that construction's error, or `IsAsWritten` against its elements. A function argument joins the ready queue, with `Register`'s effect; any other argument leaves the queue unchanged |
| Query.CommonOnQuery | dist/sprying-debug.js:623-638 | `_buildCommon` with a query object as `arr2` throws `SpliceNotAFunction` exactly when the two share an element, and otherwise finds nothing in common |
| Query.OverlapIffCommon | dist/sprying-debug.js:623-638 | sharing an element is exactly having a nonempty common part |
| Query.IsAsWrittenAnswers | dist/sprying-debug.js:856-860 | as written, `is` answers only when nothing is shared, and then it says whether this selection is empty |
| Query.IsSelfThrows | dist/sprying-debug.js:857 | a one-element query object compared with itself throws, where the intended answer is true |
| Query.IsSubselectionIff | dist/sprying-debug.js:856-860 | as intended, `is` holds exactly when this selection has no falsy entry and all its elements, counted with repetition, are in the other |
| Query.ReadyQueue.constructor | dist/sprying-debug.js:725 | the queue starts empty, not ready, with no notifier and nothing run |
| Query.ReadyQueue.Register | dist/sprying-debug.js:751-761 | appends the function; only the first registration sets `isReady` and installs a notifier; nothing runs |
| Query.ReadyQueue.Fire | dist/sprying-debug.js:967-975 | the first signal of an installed notifier sets `done` and runs the queue as it stands, in append order; any later signal does nothing |

`Query.NewSprying` (dist/sprying-debug.js:738-767) in full, by argument:

- a query object is returned unchanged;
- null or undefined throws `NoConstructor`;
- a string gives a fresh query object selecting `QueryResult`, or throws
  its error;
- a node gives `[node]`;
- a function gives an empty selection and joins the ready queue:
  `Register`'s effect, with no other change to the queue;
- anything else gives an empty selection;
- every successful result keeps the indexed-view invariant.

## Left out

- Event normalisation `nEvent` and `bind` (dist/sprying-debug.js:426-514,
  782-829). They are host event plumbing, outside the selector engine.
- The timers and host events inside `Sprying.ready`: `doScroll` polling with
  `setTimeout`, and `onreadystatechange`. The host's signal is the call to
  `ReadyQueue.Fire`. Only the `done` once-flag and the drain are modelled.
- Browser sniffing and the IE-only branches:
  - `querySelectorAll` on IE 8;
  - the legacy `getElementsByClassName` fallback.
  
  The model takes the standard branch at dist/sprying-debug.js:675-677.
- Reflection and global helpers. These are `Object.keys`, the
  `Function.prototype.bind` shim, `createObject`, `getName`, `type`,
  `classOf`, `isArrayLike`, `isArray`, `isFunction`, `extend`, `noConfict`,
  `isStrict`, the empty `data` method and `Date.now`. They select nothing.
- `forEach`, `map` and `reduceRight` shims: the engine does not call them.
- `this.length >>> 0` and number coercion in the shims. Arrays are Dafny
  sequences, so lengths are natural numbers. The `from` argument of
  `indexOf` and `lastIndexOf` is an optional integer, so `Number(from)`,
  NaN, and `ceil`/`floor` on fractions are not modelled.
- The `typeof fn !== 'function'` check of `reduce`: in Dafny every callback
  is a function.
- The callback's `this` and `context` arguments, and the array passed as the
  callbacks' fourth argument. The index, the third argument of `reduce`'s
  callback, is modelled (`ReduceShim`); the engine's callbacks ignore it.
- A callback that changes the array being scanned, or that registers another
  ready function during the drain. Callbacks are pure functions here.
- U+200B in the `trim` shim. The shim adds ZERO WIDTH SPACE to its
  whitespace set, but it is only installed when the host has no native
  `trim`. The model uses the native set, which is also the set `\s` matches
  in `_selectBlock`'s `split(/\s+/)`.
- The host collections are live: `getElementsByTagName` and
  `getElementsByClassName` return views that follow later document changes.
  The model takes a snapshot, as `Sprying.toArray` does right after the
  lookup.
- Selector.SelectBlock, Selector.BlockHas, Selector.FoldDescendantsHas,
  and through them Selector.Query, Query.NewSprying and Query.Sprying.Is:
  the clause chain folds through `DescendantsStep`. That is `_obtainChild`
  with the matched child removed at its own index j, the corrected half of
  the finding at dist/sprying-debug.js:606. The code runs `splice(i, 1)`
  with `j_len` fixed, which can drop children: one `div` over two `p`s
  queried with `"div p"` gives only the first `p`. That code is `SetOps.ObtainChildAsWritten`, with soundness
  (`DescendantsAsWrittenSound`) and the counterexample
  (`ObtainChildAsWrittenDropsChild`). The model does not build whole queries
  on it, so the query results here are the intended ones.
- Query.Sprying.Each: the as-written early `return this` is unreachable because of
  `|| true`. The model marks that branch impossible and does not take it.

## Findings

| source | as written | input that shows it | evidently intended | confidence | as-written member | corrected member |
|---|---|---|---|---|---|---|
| dist/sprying-debug.js:606 | `_obtainChild` removes the matched child with `children.splice(i, 1)`. `i` is the index of the parent, not of the child, and `j_len` stays fixed while `children` shrinks. | one parent `0` over its two children `[1, 2]`: the result is `[1]`. After pushing child 1, the splice removes index 0. Child 2 shifts to index 0, and the loop, now at j = 1, never sees it | remove the matched child itself, as the commented-out `delete arr2[j]` does, so every child below a parent is kept once | not executed | SetOps.ObtainChildAsWrittenDropsChild | SetOps.DescendantsIsNarrowing |
| dist/sprying-debug.js:846 | `each` tests `!(fns.call(...) \|\| true)`, which is never true, so it never stops | a callback returning `false` on a two-element selection is called twice | stop after the first call that returns `false`, and only on `false`, as the comment at line 840 says | not executed | Query.EachIgnoresFalse | Query.EachUntilFalseStops |
| dist/sprying-debug.js:857 | `is` passes a query object as `arr2` to `_buildCommon`. Its first shared element reaches `arr2.splice`, which a query object lacks | `$(x).is($(x))` for a one-element selection throws a `TypeError` | compare against the other selection's element array, so the answer is whether all of this selection is in the other | not executed | Query.IsSelfThrows | Query.IsSubselectionIff |
| dist/sprying-debug.js:318 | `from = Number(from) \|\| len - 1` turns an explicit `from` of 0 into `len - 1` | `[v, v].lastIndexOf(v, 0)` returns 1 | start at 0 as section 15.4.4.15 of ECMA-262 5th edition requires, so the result is never above `from` | not executed | ArrayShims.LastIndexOfFromZero | ArrayShims.LastIndexOfWithinFrom |
