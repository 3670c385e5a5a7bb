# Soft redirects, modelled in Dafny

A model of ApostropheCMS's soft-redirect module
(`lib/modules/apostrophe-soft-redirects/index.js`). When a request is about to
end in "404 Not Found", the module looks for a page or piece that used to live
at the requested URL (or at a `/`-boundary prefix of it) and redirects to that
document's current URL. Each time a page or piece is served, the module records
the local form of its current URL in the document's `historicUrls`.

The project has these modules:

- `Wrappers` (`wrappers.dfy`): `Option`, used for JavaScript's `undefined`.
- `JsBuiltins` (`js_builtins.dfy`): the JavaScript string operations the module relies on.
  - `indexOf` and `lastIndexOf` on a character.
  - `split` on a character, with its segment count and round trip through `join`.
  - `replace` of the first occurrence of a string.
  - `reverse`.
- `Urls` (`urls.dfy`):
  - `self.local`.
  - The cleaning of the request URL. This covers both regular expressions, with JavaScript's treatment of line terminators and its non-global `replace`.
  - The segment count `split('/').length`.
  - The `partialUrls` prefix list, with a reference definition and a proof that the split/reduce/reverse pipeline computes it.
- `Documents` (`documents.dfy`): documents, options, and the redirect status `statusCode || 302`.
- `Resolver` (`resolver.dfy`): `pageNotFound`.
  - Per candidate, the deepest matching historic URL, the route gate and the rebuilt target.
  - The selection loop, an imperative method. It is proved against a characterisation of the winning candidate.
  - The final redirect decision.
- `Recorder` (`recorder.dfy`): `pageBeforeSend`.
  - The page-then-piece list and the filter.
  - The `$addToSet` updates. They run one at a time over a store map, an imperative loop that stops at the first failing update.

## Model

| member | source | states |
|---|---|---|
| Urls.Local | lib/modules/apostrophe-soft-redirects/index.js:122-125 | The result is a suffix of the input. A URL not starting with `//`, `http://` or `https://` is returned unchanged. When something is removed, what is left is empty or starts with `/`. |
| Urls.LocalStripsHost | lib/modules/apostrophe-soft-redirects/index.js:123-125 | Take an optional `http:`/`https:`, then `//`, a non-empty host without `/`, and a rest that is empty or starts with `/`. The result is exactly that rest. |
| Urls.LocalNeedsHost | lib/modules/apostrophe-soft-redirects/index.js:124 | The host needs at least one character: after an optional `http:`/`https:` and `//`, a URL that ends there or goes on with `/` is returned unchanged. |
| Urls.LocalKeepsEmptyHost | lib/modules/apostrophe-soft-redirects/index.js:124 | Instances of the empty-host case: `//` and `http:///x` are returned unchanged. |
| Urls.StripQuery | lib/modules/apostrophe-soft-redirects/index.js:51 | The result is a prefix of the URL. It contains no `?` after the last line terminator. It stops either at the end or just before a `?`. |
| Urls.CollapseFirstSlashRun | lib/modules/apostrophe-soft-redirects/index.js:51 | Only the first run of slashes becomes a single `/`. The text up to that run's first `/` is kept, the rest is a suffix of the input, and only `/` are removed. A string without `/` is unchanged. |
| Urls.CleanUrl | lib/modules/apostrophe-soft-redirects/index.js:51 | Cleaning only removes characters: the cleaned URL is no longer than the request URL and holds no character it lacks. CleanUrlDropsQuery and CleanUrlKeepsCleanPath carry the rest. |
| Urls.CleanUrlDropsQuery | lib/modules/apostrophe-soft-redirects/index.js:51 | For a URL without line terminators, everything from the first `?` is removed, and the cleaned URL holds no `?`. |
| Urls.StripQueryNoQuery | lib/modules/apostrophe-soft-redirects/index.js:51 | A URL without `?` keeps all of its text when the query is stripped. |
| Urls.CollapseSingleLeadingSlash | lib/modules/apostrophe-soft-redirects/index.js:51 | A string starting with a single `/` (not `//`) comes out of the slash collapse unchanged. |
| Urls.CleanUrlKeepsCleanPath | lib/modules/apostrophe-soft-redirects/index.js:51 | A path with one leading `/` and no `?` comes out of cleaning unchanged. |
| Urls.SegmentCount | lib/modules/apostrophe-soft-redirects/index.js:72 | Every URL has at least one segment. SegmentCountIsSlashes gives the exact count. |
| Urls.SegmentCountIsSlashes | lib/modules/apostrophe-soft-redirects/index.js:72 | `url.split('/').length` is the number of `/` plus one. |
| Urls.PathSegments | lib/modules/apostrophe-soft-redirects/index.js:52-53 | There is at least one segment. Joining the segments with `/` gives the URL back. No segment after the first contains `/`, and the first has none past its first character. PathSegmentsSingle and PathSegmentsSnoc fix the cut at each `/`. |
| Urls.Accumulate | lib/modules/apostrophe-soft-redirects/index.js:54-56 | One entry per segment. Entry `i` is the first `i + 1` segments joined with `/`. |
| Urls.PartialUrls | lib/modules/apostrophe-soft-redirects/index.js:52-57 | One entry per segment, starting with the clean URL. Entry `i` is all segments but the last `i`, joined with `/`. PartialUrlsAreAncestors and PartialUrlsSpec carry the rest. |
| Urls.PartialUrlsAreAncestors | lib/modules/apostrophe-soft-redirects/index.js:52-57 | The split/reduce/reverse pipeline equals the reference list: the URL, then the URL cut at its last `/` other than one at index 0, and so on. |
| Urls.PartialUrlsSnoc | lib/modules/apostrophe-soft-redirects/index.js:52-57 | For a URL with a `/` past index 0, the list is the URL followed by the list of the URL cut at its last `/`. |
| Urls.PartialUrlsSpec | lib/modules/apostrophe-soft-redirects/index.js:52-57 | The list is non-empty and starts with the clean URL. Its elements are exactly the `/`-boundary prefixes of the clean URL. Their segment counts strictly decrease. |
| JsBuiltins.ReplaceFirst | lib/modules/apostrophe-soft-redirects/index.js:79-81 | Without an occurrence of the pattern the string is unchanged. With one, the length changes by the replacement's length minus the pattern's, the result starts with the text before the first occurrence followed by the replacement, and ends with the text after that occurrence. |
| JsBuiltins.ReplacePrefix | lib/modules/apostrophe-soft-redirects/index.js:79-81 | Replacing a string that is a prefix substitutes it at the start. |
| Resolver.LongestHistoricUrl | lib/modules/apostrophe-soft-redirects/index.js:69-71 | There is no result exactly when no historic URL is in the prefix list. Otherwise the result is in both lists and has the greatest segment count among them. |
| Resolver.DeeperOfTwoChosen | lib/modules/apostrophe-soft-redirects/index.js:69-71 | Of two historic URLs that are both among the prefixes, the one with more segments is chosen, in either order. |
| Resolver.DeeperHistoricUrlChosen | lib/modules/apostrophe-soft-redirects/index.js:69-71 | With both `/child` and `/child/moved` among the prefixes, `/child/moved` is chosen in either order. |
| Resolver.MatchIsBoundaryPrefix | lib/modules/apostrophe-soft-redirects/index.js:69-72 | The chosen historic URL is a `/`-boundary prefix of the clean URL. No other historic URL among the prefixes has its segment count. |
| Resolver.MatchOf | lib/modules/apostrophe-soft-redirects/index.js:69-71 | A candidate has a match exactly when one of its historic URLs is among the prefixes. The match is such a URL. MatchIsBoundaryPrefix carries the rest. |
| Resolver.SomeRule | lib/modules/apostrophe-soft-redirects/index.js:82 | True exactly when some rule accepts the child route URL. |
| Resolver.AssessmentMeaning | lib/modules/apostrophe-soft-redirects/index.js:76-83 | The remainder after the matched URL is empty or starts with `/`. The match length is the matched URL's segment count. The candidate is accepted exactly when there are no rules or some rule accepts the remainder. The target is `_url` followed by the remainder. |
| Resolver.Assess | lib/modules/apostrophe-soft-redirects/index.js:69-83 | A candidate without a match is rejected and its target is the clean URL. With a match, the match length is the match's segment count, at least one. AssessmentMeaning carries the rest. |
| Resolver.RouteGate | lib/modules/apostrophe-soft-redirects/index.js:76-83 | The computed `hasMatchingRoute` and `candidateUrl` are the candidate's gate verdict and target: accepted when its type has no rules or a rule accepts the remainder, and the target is the request with the matched URL replaced by `_url`. |
| Resolver.WinnerAmongFirst | lib/modules/apostrophe-soft-redirects/index.js:65-88 | Among any prefix of the candidates, either none passes the gate or there is a winner. |
| Resolver.WinnerExists | lib/modules/apostrophe-soft-redirects/index.js:65-88 | If some candidate passes the gate, there is a winner. |
| Resolver.SomeWinner | lib/modules/apostrophe-soft-redirects/index.js:65-89 | Unless every candidate is rejected, there is a winner. |
| Resolver.WinnerUnique | lib/modules/apostrophe-soft-redirects/index.js:84-87 | There is at most one winner. |
| Resolver.WinnerTake | lib/modules/apostrophe-soft-redirects/index.js:74-87 | An accepted candidate with a match strictly longer than the current best becomes the winner so far. |
| Resolver.WinnerKeep | lib/modules/apostrophe-soft-redirects/index.js:74-88 | A candidate that is rejected, or whose match is no longer, leaves the winner so far in place. |
| Resolver.NoneAcceptedStep | lib/modules/apostrophe-soft-redirects/index.js:84-88 | While nothing has been taken, a rejected candidate leaves nothing taken. |
| Resolver.LongestAcceptedWins | lib/modules/apostrophe-soft-redirects/index.js:74-88 | The accepted candidate with the strictly longest match among the accepted ones wins, however long the matches of rejected candidates are. |
| Resolver.LongerMatchWins | lib/modules/apostrophe-soft-redirects/index.js:74 | An accepted candidate with a shorter match than another accepted one never wins, whatever the order. |
| Resolver.TieKeepsEarlier | lib/modules/apostrophe-soft-redirects/index.js:74 | On equal match length, a later (less recently updated) accepted candidate never wins. |
| Resolver.ScanStep | lib/modules/apostrophe-soft-redirects/index.js:74-88 | One pass of the loop body keeps the scan invariant: a candidate that passes the gate with a strictly longer match is taken, with its length and target; otherwise the winner so far, or the fact that nothing passed, is kept. |
| Resolver.SelectRedirect | lib/modules/apostrophe-soft-redirects/index.js:65-89 | When no candidate passes the gate, no URL is chosen. Otherwise the chosen URL is the target of the winner: the first accepted candidate among those with the longest match. |
| Resolver.PageNotFound | lib/modules/apostrophe-soft-redirects/index.js:50-96 | When disabled, the request passes through. A query error is passed on. When no candidate passes the gate, the request passes through. Otherwise there is a winning candidate, and there is a redirect exactly when its target is non-empty and its local form differs from the clean URL. The redirect goes to the target itself, with the configured status. |
| Documents.RedirectStatus | lib/modules/apostrophe-soft-redirects/index.js:40 | The configured status is used when set and non-zero. With none configured, or `0`, the status is 302. It is never 0. |
| Recorder.Attached | lib/modules/apostrophe-soft-redirects/index.js:99-105 | The page comes first and the piece last. Each is present exactly when given. |
| Recorder.Pending | lib/modules/apostrophe-soft-redirects/index.js:106-112 | A document is kept exactly when it needs recording (NeedsRecording): it has a `_url` whose local form its `historicUrls` lacks. |
| Recorder.PendingSnoc | lib/modules/apostrophe-soft-redirects/index.js:106-112 | The filter keeps order: filtering a list with one more document at its end filters the list, then keeps that document only if it needs recording. |
| Recorder.PendingAttached | lib/modules/apostrophe-soft-redirects/index.js:99-112 | The documents to record are the page, if given and it needs recording, then the piece, if given and it needs recording, in that order. |
| Recorder.AddToSet | lib/modules/apostrophe-soft-redirects/index.js:114-118 | The same documents stay stored and no other document changes. A URL already listed leaves the target's list unchanged; any other URL is appended at its end. |
| Recorder.ApplyUpdates | lib/modules/apostrophe-soft-redirects/index.js:113-119 | After a series of updates every stored document is still stored, and its list only grows, at its end. |
| Recorder.ApplyUpdatesKeys | lib/modules/apostrophe-soft-redirects/index.js:114 | The updates store no new document: an update of an `_id` that is not stored does nothing. |
| Recorder.Attempted | lib/modules/apostrophe-soft-redirects/index.js:113-119 | The number of updates attempted is at most the number of documents and at most the position of the failing one, and equals one of the two. |
| Recorder.RunUpdates | lib/modules/apostrophe-soft-redirects/index.js:113-119 | The updates before the failing one are applied, in order, and no later one. A failure is reported exactly when one occurred. |
| Recorder.PageBeforeSend | lib/modules/apostrophe-soft-redirects/index.js:98-120 | When disabled, nothing changes. Otherwise the store is the filtered page-then-piece updates applied up to the first failure. |
| Recorder.ApplyUpdatesUntouched | lib/modules/apostrophe-soft-redirects/index.js:114-118 | A document that none of the updates names keeps its list. |
| Recorder.ApplyUpdatesOnlyAdds | lib/modules/apostrophe-soft-redirects/index.js:114-118 | Every URL a list gains is the local `_url` of an updated document with that id. |
| Recorder.ApplyUpdatesRecords | lib/modules/apostrophe-soft-redirects/index.js:113-119 | Afterwards every updated, stored document lists the local form of its `_url`. |
| Recorder.ApplyUpdatesNoDuplicates | lib/modules/apostrophe-soft-redirects/index.js:115-117 | Set semantics: lists without duplicates stay without duplicates. |
| Recorder.AddToSetNoDuplicates | lib/modules/apostrophe-soft-redirects/index.js:115-117 | A single `$addToSet` adds no duplicate to a list without duplicates. |
| Recorder.ApplyUpdatesListed | lib/modules/apostrophe-soft-redirects/index.js:115-117 | Updates whose URLs are already listed change nothing. |
| Recorder.ApplyUpdatesIdempotent | lib/modules/apostrophe-soft-redirects/index.js:113-119 | Applying the same updates twice equals applying them once. |
| Recorder.SecondRunRecordsNothing | lib/modules/apostrophe-soft-redirects/index.js:106-119 | A second identical request, served with what the first stored, has nothing left to record. |
| Recorder.SameDocumentTwice | lib/modules/apostrophe-soft-redirects/index.js:100-105 | Page and piece are not deduplicated: the same document needing recording is kept twice, yet its URL is added only once. |

## Left out

- The module wiring is not modelled: `afterConstruct`, the `apostrophe:migrate` hook and `ensureIndexes` (index.js:29-37, 46-48). Neither is the database index they create.
- `enable === false` makes `construct` return before either hook is defined. The model has both operations take the configuration and do nothing when disabled.
- The historic-URL query (index.js:59) is not modelled. Its result is an input: the candidates, most recently updated first, or an error.
- Resolver.PageNotFound: requires that every candidate has a historic URL in the prefix list, which the `$in` filter guarantees. A candidate without one would make index.js:72 call `split` on `undefined` and throw. It is not skipped, so that path is excluded rather than modelled.
- `getManager(type).rules` and the regular expressions of the rules (index.js:76-82) are not modelled. They are given as a map from document type to a sequence of opaque predicates. A type missing from the map has no rules.
- `req.res.redirect`, `callback` and `async.eachSeries` (index.js:92, 94, 113-119) are not modelled: they are HTTP and asynchronous plumbing.
  - The resolver's result is a value: a redirect, a pass-through or an error.
  - The store is a map from `_id` to stored `historicUrls`. `failAt` is the position of the update that reports an error. A position past the last update means none fails.
  - A failed update is taken not to apply.
- The special `$&`, `$1`, … patterns of `String.prototype.replace` in the replacement string `candidate._url` (index.js:79) are not modelled. The replacement is inserted literally.
- `_url` is not modelled as `undefined` on a candidate (index.js:79). JavaScript would insert the text `undefined`; the model inserts the empty string.
- The in-place reordering of the fetched `candidate.historicUrls` by `sort` (index.js:70) is not modelled. Only the element that `find` returns is. The model picks the earliest among the matching entries of greatest segment count. Whether or not the engine's sort is stable, `find` returns the same string: Resolver.MatchIsBoundaryPrefix shows that only one matching entry has that segment count.
- Status codes other than a number are not modelled, for example `false`, or a string. `statusCode` is an optional integer.
- Recorder: the filter tests membership anywhere in the `historicUrls` of the served copy of the document, as the code does. It is not a test of "the most recent entry". It also looks at that served copy, not at the stored list.
- Recorder.SecondRunRecordsNothing: assumes both requests serve the documents as stored.
- Cleaning (index.js:51) collapses only the first run of slashes, as the code does. Later runs such as `/a//b` are kept.
