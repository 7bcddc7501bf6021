# ESI engine of go-esi, modelled in Dafny

go-esi processes Edge Side Includes. It finds ESI directives in an HTTP
response body, resolves each one and splices the results back into the body.
This project models the engine of that processor:

- `esi/esi.go`:
  - keyword dispatch (`findTagName`);
  - the marker scanner (`HasOpenedTags`, `ReadToTag`);
  - the scan loop (`Parse`);
  - resolution and splicing (`processEsiTags`).
- `esi/type.go`: the tag capability with its default behaviour (`Tag`,
  `newBaseTag`, `baseTag.Process`).

The modules follow the program's structure:

| module | file | what it holds |
|---|---|---|
| `Tags` | `tags.dfy` | bytes, the six tag variants with their embedded base state, the default `Process`, and the `Processor` type that stands for every variant's `Process` |
| `Dispatch` | `dispatch.dfy` | `findTagName` as a function from the keyword to a variant |
| `Scanner` | `scanner.dfy` | the three regular expressions as abstract `Finder` functions, the earliest-marker choice, `HasOpenedTags` and `ReadToTag` |
| `Splicing` | `splice.dfy` | responses; the bottom-up rewrite `b = append(b[:Start], append(Res, b[End:]...)...)`; and the reference builder it is proved equal to |
| `Resolution` | `resolve.dfy` | the fan-out as a loop that picks keys in arbitrary order, the descending sort, and the canonical plan every completion order sorts into |
| `Engine` | `engine.dfy` | `Parse` as an imperative loop over `pointer` and the `includes` map, proved against the function `Scan`, and `processEsiTags` |

The main theorem is `Splicing.DescendingSpliceIsBuild`. It applies when the
resolved ranges are disjoint, in bounds and sorted by descending start. Then
the in-place splice, applied from the bottom up, equals a single
left-to-right pass that:
- copies every gap between ranges verbatim;
- writes each range's replacement in its place.

Three lemmas about that builder give the rest:
- `Splicing.RebuiltLength` gives the output length:
  `len(b) + Σ(len(Res) − (End − Start))`.
- `Splicing.BuildKeepsGap` shows that every byte outside the ranges is kept,
  in order and shifted by the length change of the ranges before it.
- `Splicing.BuildPlacesReplacement` shows that every replacement lands at its
  shifted start.

The goroutines finish in an arbitrary order. `Resolution.SortedResponsesArePlan`
shows that once the responses are sorted, they are always the same
canonical plan: one response per recorded match, by strictly descending
start. `Engine.ProcessEsiTags` and `Engine.Parse` are proved to produce
exactly the splice of that plan.

When a range ends past the current buffer, the Go slice expression panics.
That happens, for example, with two matches that both keep the default
`Process` (`Engine.DefaultTwoMatchesFail`). The model returns `None` in that
case.

`ReadToTag` and the loop of `Parse` share the marker choice but differ in one
place:
- `ReadToTag` adds the 7-byte escape header skip when the **escape marker**
  was chosen.
- `Parse` adds the skip when the **dispatched tag** is the escape variant.

`Engine.VisitAgreesWithReadToTag` states exactly when the two move equally
far. Both follow the code.

## Model

| member | source | states |
|---|---|---|
| `Tags.NewBaseTag` | esi/type.go:19-21 | a fresh base state has `length` 0 |
| `Tags.DefaultProcessClaimsAll` | esi/type.go:23-25 | the default `Process` replaces the directive with nothing and claims the whole of its input, so its range ends exactly at the end of the buffer it was given |
| `Dispatch.FindTagName` | esi/esi.go:9-46 | `findTagName` itself; its contract is stated by `Dispatch.FindTagNameSpec`, `Dispatch.KeywordSelectsVariant` and `Dispatch.UnsupportedKeywordDropped` |
| `Dispatch.FindTagNameSpec` | esi/esi.go:9-46 | a tag is built exactly when the keyword pattern matches and the keyword is one of the six supported; it is the variant that keyword names, with a fresh base state |
| `Dispatch.UnsupportedKeywordDropped` | esi/esi.go:9-46 | no keyword match, `try`, or an unknown keyword yields no tag |
| `Dispatch.KeywordSelectsVariant` | esi/esi.go:15-40 | each supported keyword yields a fresh tag of exactly its own variant |
| `Scanner.Earliest` | esi/esi.go:55-61 | a chosen marker starts inside its input and its keyword offset lies between its start and the end of the input; which marker is chosen is stated by `Scanner.EarliestChoice` |
| `Scanner.EarliestChoice` | esi/esi.go:55-61 | the marker choice finds a marker iff either pattern matches, takes the one that starts first, takes the escape marker only when it starts strictly earlier, and makes the escape marker's keyword offset equal its start |
| `Scanner.HasOpenedTags` | esi/esi.go:48-50 | true iff the directive pattern or the escape pattern matches, i.e. iff the marker choice finds a marker |
| `Scanner.ReadToTag` | esi/esi.go:52-76 | `(len(next), 0, nil)` without a marker; for an escape marker, its start, start + 7 and the tag dispatched at its start; otherwise the directive's start, its end (strictly after the start, within the input) and the tag dispatched at its end |
| `Scanner.TieGoesToDirective` | esi/esi.go:57 | on equal starts the directive marker wins and `ReadToTag` resumes at its end |
| `Engine.Visit` | esi/esi.go:83-106 | a pass records its match at an offset inside the rest of the buffer; its agreement with the loop and with `ReadToTag` and how far it moves are stated by `Engine.SelectedIsVisit`, `Engine.VisitAgreesWithReadToTag` and `Engine.VisitMoves` |
| `Engine.VisitAgreesWithReadToTag` | esi/esi.go:95-106 | one pass of the loop finds a marker iff `HasOpenedTags`, at the start and with the tag `ReadToTag` reports, and moves as far as `ReadToTag`'s pointer iff "escape marker chosen" and "escape tag dispatched" agree |
| `Engine.VisitMoves` | esi/esi.go:101-106 | a pass moves to the marker's keyword offset, plus 7 when the dispatched tag is the escape variant, and never before the offset it records |
| `Engine.SelectedAgreesWithScanner` | esi/esi.go:84-93 | the loop's own selection of `tagIdx` is empty iff `HasOpenedTags` is false, and otherwise starts where `ReadToTag` says |
| `Engine.SelectedIsVisit` | esi/esi.go:84-106 | the selection, dispatch and move the loop computes are the pass `Visit` describes |
| `Engine.AdvancingPatternsTerminate` | esi/esi.go:82-107 | when every pass on every input moves the pointer forward, the loop ends on every buffer from every pointer |
| `Engine.StuckPassNeverEnds` | esi/esi.go:82-106 | a pass that finds a marker but leaves the pointer where it is (an escape marker at the start of the rest whose keyword does not select the escape variant) makes the loop run forever |
| `Engine.ScanFrom` | esi/esi.go:82-107 | the matches the loop records from a pointer on; its contract is stated by `Engine.ScanFromKeys`, `Engine.ScanFromKeepsPassed` and `Engine.ScanFromFresh` |
| `Engine.ScanFromKeys` | esi/esi.go:95-99 | the scan only adds entries, and each key lies in `[pointer, len(b))` |
| `Engine.ScanFromKeepsPassed` | esi/esi.go:82-107 | entries below the pointer are never changed again |
| `Engine.ScanFromFresh` | esi/esi.go:95-99 | every recorded tag is freshly dispatched (base `length` 0) |
| `Engine.RecordOverwrites` | esi/esi.go:97-99 | only non-nil tags are recorded, under `pointer + tagIdx[0]`, replacing an earlier entry at the same key and keeping every other entry |
| `Engine.LoopPass` | esi/esi.go:95-106 | on a buffer where the loop ends, the loop's selection, dispatch and move are the pass `Visit` describes, its update of `includes` is that pass's `Record`, the pointer strictly advances, and the scan's result is that of one step |
| `Engine.LoopStop` | esi/esi.go:91-93 | a pass that selects nothing ends the scan with the map as it is |
| `Engine.Scan` | esi/esi.go:78-107 | on a buffer where the loop ends, every key of the match map lies inside the buffer and every tag in it is fresh |
| `Engine.NoMarkersNoTags` | esi/esi.go:82-93 | the loop ends on a buffer without either marker, and yields an empty match map |
| `Engine.ScanPass` | esi/esi.go:83-106 | one iteration of the loop: it stops iff nothing is selected (iff `Visit` finds nothing); otherwise the new pointer is the old one plus the pass's move, strictly forward, and the new map is the old one with the pass's tag recorded, so the scan's result is unchanged |
| `Engine.Parse` | esi/esi.go:78-114 | the result is the splice of the canonical plan of the scanned matches; for separated ranges it is the builder's output; with no match it is the input unchanged |
| `Engine.ProcessEsiTags` | esi/esi.go:116-163 | the result is the splice of the canonical plan whatever order the workers finish in; for separated ranges it is the builder's output |
| `Engine.DefaultResolved` | esi/type.go:23-25 | the response of a default-processed match at `s` is `[s, len(b))` with an empty replacement |
| `Engine.DefaultSingleMatchLeavesPrefix` | esi/type.go:23-25 | a single default-processed match at `s` leaves exactly `b[:s]` |
| `Engine.DefaultTwoMatchesFail` | esi/esi.go:154-160 | two default-processed matches below the end overlap, and the second rewrite runs past the shortened buffer |
| `Resolution.Resolved` | esi/esi.go:134-141 | a response starts at its key, carries its tag, and ends within the buffer, since `Process` never claims past its input |
| `Resolution.Resolve` | esi/esi.go:128-152 | exactly one response per recorded match (as many responses as entries, distinct starts, each the tag's own response) |
| `Resolution.PlanBelowSpec` | esi/esi.go:128-156 | the plan below `n` holds exactly the responses of the matches below `n`, strictly descending |
| `Resolution.Plan` | esi/esi.go:128-156 | one response per match, strictly descending by start, every range well formed and inside the buffer |
| `Resolution.SortByStartDesc` | esi/esi.go:154-156 | the sort of the responses; its contract is stated by `Resolution.SortByStartDescPermutes` and `Resolution.SortByStartDescOrders` |
| `Resolution.SortByStartDescPermutes` | esi/esi.go:154-156 | the sort is a permutation of the responses |
| `Resolution.SortByStartDescOrders` | esi/esi.go:154-156 | the sort orders by non-increasing start, strictly descending when starts are distinct |
| `Resolution.StrictlyDescendingUnique` | esi/esi.go:154-156 | two strictly descending lists with the same elements are equal |
| `Resolution.SortedResponsesArePlan` | esi/esi.go:145-156 | sorting the collected responses always yields the canonical plan, whatever the completion order |
| `Resolution.SingleMatchPlan` | esi/esi.go:128-156 | the plan of one match is its own response |
| `Resolution.TwoMatchPlan` | esi/esi.go:128-156 | the plan of two matches is their two responses, the upper one first |
| `Splicing.Replace` | esi/esi.go:159 | the rewrite fails exactly when `End` lies past the buffer; otherwise the prefix before `Start` is kept, the replacement bytes occupy `[Start, Start+len(Res))`, the suffix from `End` follows them, and the length changes by `len(Res) − (End − Start)` |
| `Splicing.SpliceAll` | esi/esi.go:158-162 | the rewrite applied to each response in turn; each step is `Splicing.Replace`, and `Splicing.DescendingSpliceIsBuild` states the result for descending disjoint ranges |
| `Splicing.SpliceInPlace` | esi/esi.go:158-162 | the loop applies the responses one by one in the given order; for descending disjoint ranges the result is the builder's output |
| `Splicing.SeparatedDescending` | esi/esi.go:154-160 | sorted, pairwise disjoint, in-bounds ranges have the shape the splice theorem needs |
| `Splicing.SpliceDescendingBelow` | esi/esi.go:158-160 | splicing descending ranges below `hi` rewrites only `b[:hi]`, as the builder does |
| `Splicing.DescendingSpliceIsBuild` | esi/esi.go:158-160 | the bottom-up splice of descending disjoint in-bounds ranges equals the left-to-right "copy the gaps, substitute the regions" builder |
| `Splicing.Build` | esi/esi.go:158-160 | the reference builder; its contract is stated by `Splicing.BuildLength`, `Splicing.BuildKeepsFirstGap`, `Splicing.BuildKeepsGap` and `Splicing.BuildPlacesReplacement` |
| `Splicing.BuildLength` | esi/esi.go:158-160 | the builder's output is as long as its span plus each region's change in length |
| `Splicing.RebuiltLength` | esi/esi.go:158-160 | output length is `len(b) + Σ(len(Res) − (End − Start))` |
| `Splicing.BuildKeepsFirstGap` | esi/esi.go:158-160 | the bytes before the first range are unchanged |
| `Splicing.BuildKeepsGap` | esi/esi.go:158-160 | the gap after the i-th range is copied unchanged, shifted by the length change of the ranges before it |
| `Splicing.BuildPlacesReplacement` | esi/esi.go:158-160 | the i-th replacement appears at its start, shifted by the length change of the ranges before it |

## Left out

- The regular expressions `esi`, `escapeRg` and `tagname` are declared in a file that is not part of this model. They are abstract `Finder` functions that report a non-empty match inside their input, and the keyword pattern's captured group is given as a string.
- The keyword constants are declared in a file that is not part of this model. They are distinct string constants named after the directives.
- The concrete tag variants' `Process`, `HasClose` and `GetClosePosition` are not part of this model. `Process` is any function whose claimed length is non-negative and never exceeds its input (`Tags.Processor`, with `Reply.length` a `nat`). A Go `int` could be negative, giving `End < Start`; that case is not modelled.
- The `*http.Request` argument is not modelled. The default `Process` ignores it, and any other use of it is inside the processor function.
- The goroutines, the `sync.WaitGroup` and the buffered channel are modelled as a sequential loop that picks the next key arbitrarily. That stands for any completion order; concurrency itself is not modelled.
- Resolution.SortByStartDesc: the in-place `slices.SortFunc` is modelled as a pure insertion sort on a sequence. Only its contract is relied on: a permutation, with non-increasing starts. SortFunc is not stable, which does not matter because the starts are distinct map keys.
- Splicing.SpliceInPlace: buffers are immutable sequences, so the Go slice aliasing of the nested `append` is not modelled. That aliasing writes into the caller's backing array. Its effect on anything else that shares that array is not modelled.
- Scanner.ReadToTag: its unused `pointer` parameter is left out.
- Engine.Parse: requires `Terminates(p, b, 0)`, i.e. every pass the loop takes on `b` moves the pointer forward. The model covers only the buffers on which the Go loop ends. On the others the Go loop runs forever (`Engine.StuckPassNeverEnds`): a pass that finds an escape marker at the very start of the rest of the buffer, and whose keyword does not select the escape variant, leaves the pointer in place. `Engine.AdvancingPatternsTerminate` gives patterns under which every buffer qualifies.
- Engine.Parse: a panic of the splice is the result `None`. A panic of `b[s:]` cannot happen, because every recorded key lies inside the buffer.
