# previousValue — a Dafny model of the resolution core

The library answers "what was the value at this JSON pointer before these
changes?". It takes:

- a live document;
- a change log, most recent change first, where each entry is a JSON pointer
  `path` and the `old_value` that the change overwrote;
- a query pointer.

This project models three pieces of the library and proves properties of them.

- **`undo(object, change)`** (`lib/undo.js`): reverts one change on a value.
  - An empty path returns the old value.
  - Otherwise it rebuilds the plain object or array around it and descends
    into the child named by the first token.
  - Every other child is kept as it was.
  - Any other value is returned untouched.
- **`calculateBatches(affected_changes, shortest_path)`**
  (`lib/getPreviousValue.js`): groups the changes into batch trees.
  - A batch node may carry a marker, the recorded `__old_value`.
  - A change joins the current batch unless its walk meets a marker.
  - Otherwise the change opens a new batch.
- **The decisions of `getPreviousValue(object, changes, path)`**:
  - reject a pointer that is not valid;
  - with an empty log, return the current value;
  - with an exact match, return the first match's old value;
  - otherwise filter the log to the changes that are ancestors or descendants
    of the query;
  - reduce those to the shortest path; the value there is the anchor;
  - build the batches below the anchor;
  - re-root the query below the anchor.

The model is split into modules:

- `Wrappers` holds `Option` and `Result`.
- `Strings` models JavaScript `split` with any non-empty separator, `join`, and
  `String(index)` for array indices.
- `Document` holds the `Json` values and the three external helpers.
- `UndoChange` models `undo`.
- `Batches` models `calculateBatches`.
- `Resolver` models the entry point.

The model is built like this:

- **Values.** `Json` has an `Undefined` variant, so an omitted `old_value` can
  still be written back.
- **External helpers.** `isJsonPointer`, `getPathValue` and `isAncestor` come
  from packages that are not part of this model. Each is stated as the
  behaviour the resolver relies on:
  - `isJsonPointer` is the syntax of section 3 of RFC 6901.
  - `getPathValue` is the evaluation of section 4 of RFC 6901. Any missing
    member gives `Undefined`.
  - `isAncestor` is a strict prefix that ends on a `/` boundary.
- **The fold at line 170** of `lib/getPreviousValue.js` passes each batch
  tree to `undo`. `undo` expects a `{path, old_value}` change, and a batch tree
  has no `path` field, so `undo` would throw at `change.path.split`. The model
  therefore stops where the entry point holds three things: the anchor value,
  the batches and the re-rooted query (`Resolver.Resolve`).
  `Resolver.PreviousValue` finishes the computation with a merge supplied by
  the caller.
- **Comment versus code.** The comment at lib/getPreviousValue.js:46-48
  describes `undo` as reading an `__old_value` "in the change batch", that is,
  as consuming batch trees. The code's `undo` consumes single changes. The
  model follows the code.
- **As written and corrected.** `Resolver.Resolve` takes a flag `checked`.
  Unset, it builds the batches with `calculateBatches` as written and
  re-roots the query with `split` as line 171 does. Set, it uses the corrected
  cut, batch step and re-rooting of the Findings below.

## Model

| member | source | states |
|---|---|---|
| UndoChange.Undo | lib/undo.js:17-52 | An empty change path gives the recorded old value, whatever the object. An object comes back with exactly its keys, and every key other than the first token keeps its value. An array comes back with its length, and every index whose decimal text is not the first token keeps its element. Any other value under a non-empty path comes back unchanged. |
| UndoChange.RerootShorter | lib/undo.js:21-23 | The path handed to the recursive call is strictly shorter than the change's path, so the recursion ends. |
| UndoChange.FirstToken | lib/undo.js:21-22 | No contract of its own: `path.split('/')[1]`, or nothing when the path has no '/'. `UndoChange.RerootedPointer` pins it down: on the pointer of tokens `[s] + rest` it is `s`. |
| UndoChange.RerootedPath | lib/undo.js:23-31 | No contract of its own: the pieces after the first token joined with '/', with a leading '/' unless the join is empty. `UndoChange.RerootShorter` bounds it, and `UndoChange.RerootedPointer` and `UndoChange.TrailingStep` state it on pointers. |
| UndoChange.RerootedPointer | lib/undo.js:21-31 | On the pointer of tokens `[s] + rest`, `undo` descends by `s`. The rerooted change path is the pointer of `rest`, without a lone "/" for an empty rest. |
| UndoChange.UndoChild | lib/undo.js:24-47 | One level of revert, read through a member lookup: the member named by the first token is the deeper revert when that member exists. Every other member reads as before, and a missing member stays missing. |
| UndoChange.UndoWritesOldValue | lib/undo.js:18-43 | If the path resolves in the object, reading that path, or anything below it, after the revert reads the recorded old value. |
| UndoChange.UndoKeepsUnrelated | lib/undo.js:29-45 | Every path that is neither a prefix nor an extension of the change's path reads the same before and after the revert. |
| UndoChange.UndoUnresolvedIsIdentity | lib/undo.js:24-49 | A change whose path does not resolve creates nothing: the object comes back unchanged. This covers a missing key, an out-of-range index and a scalar on the way. |
| UndoChange.UndoEmptyKey | lib/undo.js:21-31 | The pointer "/" names the member with the empty key: reverting a change there restores that member and leaves every other member as it was. |
| UndoChange.UndoSameStep | lib/undo.js:29-43 | Two changes that descend by the same first token revert alike whenever their rerooted changes revert alike. |
| UndoChange.TrailingStep | lib/undo.js:21-31 | For a pointer with a trailing '/', the first step takes the same token as without the '/'. The rest keeps the trailing '/', or becomes the root when nothing else is left. |
| UndoChange.UndoTrailingSlash | lib/undo.js:30-31 | A change at "/a/" reverts exactly what a change at "/a" reverts, because the re-rooting drops a trailing empty token. |
| Strings.IndexOf | lib/getPreviousValue.js:59-60 | The returned index is the leftmost occurrence of the separator, and "none" means the separator occurs nowhere. |
| Strings.Split | lib/undo.js:21 | `split` with a non-empty separator, also used at lib/getPreviousValue.js:59-60 and 171. Its contract gives at least one piece. `Strings.SplitPieces`, `Strings.JoinSplit`, `Strings.SplitConcatSlash` and `Strings.SplitSlashPieces` state what the pieces are. |
| Strings.Join | lib/undo.js:30 | No contract of its own: `parts.join(sep)`. `Strings.JoinSplit` makes it the inverse of `Split`, and `Strings.SplitJoinSlash` makes `Split` its inverse on slash-free tokens. |
| Strings.SplitPieces | lib/getPreviousValue.js:59-60 | A split has a second piece exactly when the separator occurs, so `split(x)[1]` is undefined exactly when `x` is absent. |
| Strings.JoinSplit | lib/undo.js:21-30 | Joining the pieces of a split with the same separator gives the string back. |
| Strings.SplitConcatSlash | lib/undo.js:21-23 | Splitting `a + "/" + b` at '/' splits `a` and `b` separately and concatenates the results. |
| Strings.SplitJoinSlash | lib/undo.js:21-30 | Splitting a '/'-join of slash-free tokens gives those tokens back. |
| Strings.ParseIndexString | lib/undo.js:40 | The decimal text `String(index)` parses back to the index. |
| Strings.IndexStringParse | lib/undo.js:40 | A token that parses as a canonical index is exactly `String(index)` of that index. |
| Strings.IndexStringInjective | lib/undo.js:39-40 | Two different indices have different decimal texts, so at most one element matches the first token. |
| Document.PointerOfTokens | lib/getPreviousValue.js:154-158 | The tokens of a valid pointer spell that pointer back. |
| Document.IsJsonPointer | lib/getPreviousValue.js:2 | No contract of its own: the external `isJsonPointer` as the syntax of section 3 of RFC 6901. Its package is not part of this model. `Document.PointerOfTokens` states that such a pointer is spelled by its tokens. |
| Document.GetPathValue | lib/getPreviousValue.js:3 | No contract of its own: the external `getPathValue` as the evaluation of section 4 of RFC 6901, with `Undefined` for a missing member. Its package is not part of this model. `Document.LookupAppend` and `Document.LookupBelowAncestor` state how it composes. |
| Document.IsAncestor | lib/getPreviousValue.js:4 | No contract of its own: the external `isAncestor` as a strict prefix ending on a '/' boundary. Its package is not part of this model. `Document.AncestorTransitive`, `Document.AncestorsNested` and `Document.TokensOfDescendant` state its properties. |
| Document.TokensOfPointer | lib/undo.js:21-22 | The tokens of the pointer built from slash-free tokens are those tokens. |
| Document.TokensOfDescendant | lib/getPreviousValue.js:171 | The tokens of a descendant are the ancestor's tokens followed by the tokens of the rest of the descendant's path. |
| Document.LookupBelowAncestor | lib/getPreviousValue.js:168-172 | Re-rooting is sound. Reading the rest of the query inside the value at an ancestor-or-self of it is reading the query in the whole document. |
| Document.AncestorTransitive | lib/getPreviousValue.js:164 | An ancestor of an ancestor is an ancestor. |
| Document.AncestorsNested | lib/getPreviousValue.js:164-167 | Two ancestors-or-self of one pointer are nested, the shorter above the longer. |
| Batches.ChainMarkers | lib/getPreviousValue.js:80-86 | A freshly opened batch holds exactly the nodes along the change's path and one marker, at its end. |
| Batches.Chain | lib/getPreviousValue.js:80-86 | No contract of its own: the fresh batch that holds only the change's path. `Batches.ChainMarkers` states its nodes and its one marker. |
| Batches.WalkAndMark | lib/getPreviousValue.js:64-78 | No contract of its own: the walk that creates missing children and stops at the first marked child. `Batches.WalkAndMarkSpec` states what the walk does. |
| Batches.ClashesStep | lib/getPreviousValue.js:66-76 | A walk clashes exactly when the first child on its path carries a marker, or the walk below that child clashes. |
| Batches.WalkAndMarkSpec | lib/getPreviousValue.js:64-78 | The walk is compatible exactly when no node on the change's path carries a marker; the batch root is not checked. An incompatible walk leaves the batch as it was, because the nodes it creates are never kept. A compatible walk adds the one marker at the end of the path and the nodes along it, and changes nothing else. |
| Batches.AddChange | lib/getPreviousValue.js:58-87 | One change folded in, as written. Earlier batches are never touched. A new batch is opened exactly when the walk clashes, and it holds only the change's chain; the last batch stays as it was. Otherwise the last batch gains exactly the change's marker. A root change sets or overwrites the root marker with no check. |
| Batches.SplitRelative | lib/getPreviousValue.js:59-60 | The cut with `split(shortest_path)[1]` fails (a TypeError in the source) exactly when the shortest path is non-empty and absent from the change's path. |
| Batches.SplitBelow | lib/getPreviousValue.js:59-60 | Prefix removal succeeds exactly on a prefix. Below an ancestor-or-self it yields a root piece, and then the tokens that extend the base's tokens to the path's tokens. |
| Batches.SplitRelativeAgrees | lib/getPreviousValue.js:59-60 | When the base does not occur again after itself, the `split` cut and prefix removal agree. |
| Batches.RepeatedBaseCutsShort | lib/getPreviousValue.js:59-60 | Below "/a", the `split` cut reads the change at "/a/ab" as the root itself, while prefix removal gives the token "ab". |
| Batches.AddChangeChecked | lib/getPreviousValue.js:61-87 | The batch step with the root's marker also checked. A change that joins the batch finds no marker anywhere above its node, the root included. A new batch is opened exactly on a clash or on a marked root under a non-root change. |
| Batches.RootMarkerDoesNotBlock | lib/getPreviousValue.js:61-76 | As written, after a root change a change at "/b" joins the same batch and leaves a marker below a marker. The checked step opens a second batch. |
| Batches.SettledTransitive | lib/getPreviousValue.js:57-58 | Two steps that only extend the last batch or append batches compose into a step of the same kind. |
| Batches.Step | lib/getPreviousValue.js:57-88 | One loop iteration adds at most one batch and leaves every batch but the last as it was. |
| Batches.FoldChanges | lib/getPreviousValue.js:57-89 | The loop succeeds exactly when every change's relative path can be computed. It adds at most one batch per change, and it never alters a batch other than the current last one. |
| Batches.CalculateBatches | lib/getPreviousValue.js:55-91 | As written, it fails only when some change's path lacks the non-empty shortest path. Otherwise it returns between 1 and 1 + (number of changes) batches. |
| Batches.CalculateBatchesChecked | lib/getPreviousValue.js:55-91 | The corrected version succeeds whenever the base is an ancestor-or-self of every change. It returns between 1 and 1 + (number of changes) batches. |
| Resolver.FindPath | lib/getPreviousValue.js:162 | `find` returns the first change whose path is the query, or none when no change has it. |
| Resolver.FindPathIs | lib/getPreviousValue.js:162 | The first exact match is unique, so `find` is determined by it. |
| Resolver.Affected | lib/getPreviousValue.js:164 | The filtered log holds exactly the changes that are an ancestor or a descendant of the query. |
| Resolver.AffectedAppend | lib/getPreviousValue.js:164 | Filtering a concatenation filters each part, so the log order is kept. |
| Resolver.ShortestPath | lib/getPreviousValue.js:166-167 | No contract of its own: the `reduce` that keeps the current path unless the next one is not longer. `Resolver.ShortestPathBounds`, `Resolver.ShortestPathMember`, `Resolver.ShortestPathLastWins` and `Resolver.ShortestIsCommonAncestor` pin it down. |
| Resolver.ShortestPathBounds | lib/getPreviousValue.js:166-167 | The reduced path is no longer than the query and no longer than any affected path. |
| Resolver.ShortestPathMember | lib/getPreviousValue.js:166-167 | The reduced path is the query or one of the affected paths. |
| Resolver.ShortestPathLastWins | lib/getPreviousValue.js:166-167 | Ties go to the later change. If a change has a path of the reduced length, the reduced path is that of a change at or after it. |
| Resolver.ShortestIsCommonAncestor | lib/getPreviousValue.js:164-167 | The shortest path is an ancestor-or-self of the query and of every affected change. |
| Resolver.Resolve | lib/getPreviousValue.js:157-176 | It fails, with the pointer error, exactly when the query is not a JSON pointer. An empty log, or one with no overlapping change, gives the current value. An exact match gives the first match's old value. Otherwise, when some change overlaps the query, it reverts. In the revert case the anchor is the value at the shortest overlapping path, which is an ancestor-or-self of the query, and there are between 1 and 1 + (number of changes) batches. As written (`checked` unset) the batches are those `calculateBatches` builds from the overlapping changes (line 169), and the re-rooted query is the `split` re-rooting of line 171. With `checked` set they are the corrected batches and prefix removal. When `checked` is set, or the shortest path does not occur again in the query, the re-rooted query is the rest of the query after the shortest path, and reading it in the anchor is reading the query in the document. |
| Resolver.AncestorContained | lib/getPreviousValue.js:164-171 | An ancestor-or-self of the query occurs in it, so the `split` re-rooting of line 171 never yields `undefined` once the filter of line 164 has run. |
| Resolver.AncestorsContained | lib/getPreviousValue.js:59-60 | The shortest path occurs in every filtered change's path, so the `split` cut of lines 59-60 never throws on the entry point's input. |
| Resolver.ResolveAsWrittenMisroots | lib/getPreviousValue.js:164-171 | For the query "/a/ab" and a log with a change at "/a", the entry point as written re-roots the query to "", the whole value at "/a". With `checked` set it re-roots the query to "/ab". |
| Resolver.ResolveAsWrittenJoinsRootBatch | lib/getPreviousValue.js:164-169 | For the query "/a/b" and a log with a change at "/a" and an older one at "/a/b/c", the entry point as written builds one batch, so the older change sits under the root marker. With `checked` set it builds two. |
| Resolver.AffectedWithout | lib/getPreviousValue.js:164 | Removing a non-overlapping change from the log leaves the filtered log unchanged. |
| Resolver.FindPathWithout | lib/getPreviousValue.js:162 | Removing a change that is not at the query leaves the first exact match unchanged. |
| Resolver.IrrelevantChangeIgnored | lib/getPreviousValue.js:161-175 | A change that is neither at, above nor below the query does not affect the answer, as written or checked. |
| Resolver.RerootAsWritten | lib/getPreviousValue.js:171 | The `split` re-rooting yields `undefined` (no second piece, which goes on to `getPathValue`) exactly when the shortest path is non-empty and absent from the query. |
| Resolver.RerootAsWrittenAgrees | lib/getPreviousValue.js:171 | When the shortest path is an ancestor-or-self of the query and does not occur again after itself, the `split` re-rooting is prefix removal. |
| Resolver.RepeatedShortestPathMisroots | lib/getPreviousValue.js:171 | As written, the query "/a/ab" below "/a" is re-rooted to "", the whole of "/a", instead of "/ab". |
| Resolver.FoldBatches | lib/getPreviousValue.js:170 | No contract of its own: the `reduce` of line 170, seeded with the anchor and applying the most recent batch first, with the caller's merge. `Resolver.FoldIdentity` states it for a merge that reverts nothing. |
| Resolver.FoldIdentity | lib/getPreviousValue.js:170 | Folding with a merge that reverts nothing gives back the starting value. |
| Resolver.PreviousValue | lib/getPreviousValue.js:157-176 | Whatever the merge, and as written or checked, the pointer check and the exact-match answer stand. So does the current value at the query (lines 161-165 and 175) when there is no exact match and the filtered log is empty, an empty log included. With a merge that reverts nothing, every other query reads the current value, when `checked` is set or the shortest path does not occur again in the query. |
| Resolver.PreviousValueUntouched | lib/getPreviousValue.js:161-175 | Whatever the merge, a query that no change is at, above or below, an empty log included, gets the current value. |

## Left out

- Mongoose documents (`object.schema`, `object.get`, lib/undo.js:24-28) are left out. That branch calls into a library that is not part of this model.
- UndoChange.Undo: an object with a truthy `schema` member is reverted as a plain object. The source takes the Mongoose branch for it (lib/undo.js:24-28). That branch returns `{}` when `schema.paths` has no keys. Otherwise it throws, at `Object.keys(object.schema.paths)` or at `object.get(key)`, since a plain object has no `get`. Neither outcome is modelled.
- UndoChange.Undo: a live object that owns a `constructor` member is reverted as a plain object. The source tests `object.constructor.name === 'Object'` (lib/undo.js:24), and an own `constructor` member hides the prototype's. With a member such as `"x"` the test fails, so the source returns the object unchanged (line 49). With `null` or `undefined` there, reading `.name` throws a TypeError. Neither outcome is modelled. The same test sends class instances past the plain-object branch to line 49, and throws a TypeError on an `Object.create(null)` object, whose `constructor` is `undefined`. Neither is modelled.
- UndoChange.UndoWritesOldValue, UndoChange.UndoKeepsUnrelated, UndoChange.UndoUnresolvedIsIdentity: these state nothing for a pointer that ends in '/' after other tokens, such as "/a/". The source does not write the old value there: lib/undo.js:30-31 drops the trailing empty token, so the revert writes at "/a", while `getPathValue` reads the member "" of "/a". `UndoChange.UndoTrailingSlash` states what such a change does instead.
- The bodies of `isJsonPointer`, `getPathValue` and `isAncestor` are not modelled. Their packages are not part of this model, so each is stated as a specification function.
- Folding the batches with `undo` (lib/getPreviousValue.js:170) is not modelled, because as written `undo` receives batch trees that have no `path`. `Resolver.PreviousValue` takes the merge as a parameter, so the answers of index.test.js:33-48 are not derived.
- Resolver.PreviousValue: states the merge-independent answers (the pointer check, the exact match, the current value when no change overlaps the query) and the identity-merge case. It states nothing about a revert with any other merge, because the merge is supplied by the caller.
- JavaScript object details are not modelled:
  - the truthiness test `!batch[seg]` (line 67), which matches `hasOwnProperty` for the nodes built here;
  - tokens named `__old_value` or after `Object.prototype` members;
  - `Object.create(null)` objects;
  - the iteration order of `Object.keys`.
- RFC 6901 `~0`/`~1` unescaping is not modelled. The code never decodes tokens, and the model compares them as written.
- Reference identity of the untouched children is not expressible on Dafny values. The model uses value equality instead.
- Numbers are modelled as integers. No floating point is modelled, and array indices are canonical decimals.
- Mutation in place (`batch.__old_value = ...`, the batch references) is not modelled. Batches are immutable values, and each step returns the new batch list.
- The default parameters of `getPreviousValue` (`object = {}`, `changes = []`, `path = ''`) are not modelled. The model always takes all three arguments.
- The error thrown for an invalid pointer is modelled as a `Failure` value. Its message text is not modelled.

## Findings

| source | as written | input that shows it | evidently intended | confidence | as-written member | corrected member |
|---|---|---|---|---|---|---|
| lib/getPreviousValue.js:59-60 | A change's path is cut at the shortest path with `split(shortest_path)[1]`. That keeps only the text up to the next occurrence of the shortest path. | The shortest path "/a" with a change at "/a/ab": `"/a/ab".split("/a")` is `["", "", "b"]`, so the change is walked as the root of the batch. | Remove the shortest path as a prefix, so the change is walked as the token "ab". | not executed | Batches.RepeatedBaseCutsShort | Batches.SplitBelow |
| lib/getPreviousValue.js:171 | The query is re-rooted with `path.split(shortest_path)[1]`, with the same truncation. | The query "/a/ab" with a change at "/a": it is re-rooted to "". A working merge would then return the whole value at "/a" instead of its member "ab". As written, the fold at line 170 throws before line 171 is reached. | Re-root by prefix removal, `path[len(shortest_path)..]`. | not executed | Resolver.ResolveAsWrittenMisroots | Document.LookupBelowAncestor |
| lib/getPreviousValue.js:61-76 | The compatibility walk starts at token 1 (line 66), so it never checks the marker on the batch root. A root change followed by an older non-root change puts both in one batch, with a marker below a marker. The comment at lines 17-21 rules this out. A merge that stops at the first marker, as the comment at lines 46-48 describes, would then lose the older change. As written, the fold at line 170 throws before any merge happens. | A change at "" followed by an older change at "/b". | The older change opens a new batch. | not executed | Batches.RootMarkerDoesNotBlock | Batches.AddChangeChecked |

`Resolver.Resolve` models both halves. With `checked` unset it builds the
batches with `CalculateBatches` and re-roots with `RerootAsWritten`, as the
lines above are written. With `checked` set:

- `CalculateBatchesChecked` builds the batches;
- the re-rooted query is `path[|shortest|..]`;
- `Document.LookupBelowAncestor` proves that this re-rooting reads the right node.

`Resolver.RerootAsWrittenAgrees` and `Batches.SplitRelativeAgrees` show that the
two agree whenever the shortest path does not occur again below itself.
`Resolver.ResolveAsWrittenMisroots` and `Resolver.ResolveAsWrittenJoinsRootBatch`
show inputs where they differ.
