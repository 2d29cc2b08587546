# objregex in Dafny

objregex is a small "regular expression" engine whose alphabet is arbitrary
items instead of characters. A pattern is a list of matchers. A matcher is a
literal, compared by equality with the next item, or a step function that
looks at the current `Match` (a span `[start, end)` over the item list) and
answers with a new `Match`, `None`, a bool or an int, or raises
`NoMoreItems`. `_test_one` evaluates one matcher. `_general_match` threads a
state through the list greedily, left to right, without backtracking.
`any`, `start`, `end`, `optional`, `repeat`, `one_or_more` and
`zero_or_more` build matchers. `fullmatch`, `findall` and `search` drive the
engine.

The Dafny modules follow that structure:

- `Options` (options.dfy): Python's `Optional`.
- `MatchState` (match_state.dfy): the `Match` record and its views. `start`
  and `end` are unbounded integers, because step functions can move `end`
  past the last item or backwards. Slicing and indexing follow Python's
  rules: negative positions count from the back and slice bounds are clamped.
- `Engine` (engine.dfy): the closed `Matcher` datatype, the step-function
  result `PredResult`, and `_test_one` (`TestOne`). It also holds the
  specification functions `Chain`, `ApplyTimes`, `Greedy` and `Repeated`.
  `_general_match` is the loop method `GeneralMatch`. The `wrapper` of
  `repeat` is the two-loop method `RepeatWrapper`. Each method is proved
  equal to its specification function.
- `EngineProperties` (engine_properties.dfy): what the evaluator, the
  sequential matcher and `repeat` guarantee.
- `Combinators` (combinators.dfy): the matcher builders. Each contract
  states how the built matcher behaves under `TestOne`.
- `Queries` (queries.dfy): `fullmatch`, `search`, and `findall` as the loop
  method `FindAll`, with lemmas about what they return.
- `Findings` (findings.dfy): three places where the code does not do what
  its annotations and unused self-test intend. Each has a counterexample on
  the code as written and a corrected definition with its property proved.
- `Scenarios` (scenarios.dfy): concrete runs that behave as documented.

Where the library's own description and its code disagree, the model
follows the code:

- `any()`, `start()` and `end()` return a bool, and `True` advances by one
  item. So all three consume an item. `any()` succeeds past the end, and
  `end()` moves `end` past the last item.
- `_general_match` never returns None. A `Match` is always truthy, because
  it defines neither `__bool__` nor `__len__`. So the `start += 1` branch of
  `findall` never runs: every loop round yields.
- `search` is the first value of `findall`. That is whatever
  `_general_match` reaches at offset 0, even an empty match.
- Nothing keeps `0 <= start <= end <= len(items)`. Lemmas that need this
  ask for `Forward` matchers instead. A `Forward` matcher never swaps the
  items, never moves `start` and never moves `end` backwards. Literals and
  the built-in combinators are `Forward`.

`repeat` compares states with `==`. `Match` defines `__equals__`, not
`__eq__`, so in Python that comparison is object identity. The model
compares states structurally instead. For pure step functions both give the
same result (`EngineProperties.FixpointIsStable`). The model assumes step
functions are pure: they are total Dafny functions of the state.

## Model

| member | source | states |
|---|---|---|
| MatchState.Match.Item | objregex.py:18-22 | `m[n]` is the n-th matched item whenever `n` lies inside the span |
| MatchState.Match.HasNext | objregex.py:24-29 | `has_next` holds exactly when `rest` is non-empty, except that a negative `end` over an empty list still counts |
| MatchState.Match.Next | objregex.py:31-38 | `next` raises NoMoreItems (None) unless items remain after `end`; the item it gives is the first of `rest` |
| MatchState.Match.Rest | objregex.py:40-45 | `rest` is `items[end:]`, and is empty once `has_next` fails |
| MatchState.Match.Matched | objregex.py:47-53 | `matched` is `items[start:end]`, clamped to the end of the items |
| MatchState.Match.Advance | objregex.py:55-59 | `advance(n)` keeps the items and start and moves end by `n` |
| MatchState.AdvanceMovesItems | objregex.py:40-59 | advancing by `n` moves exactly the first `n` items of `rest` onto the end of `matched` |
| MatchState.MatchedThenRest | objregex.py:40-53 | `matched + rest` is every item from `start` on |
| Engine.TestOne | objregex.py:71-89 | a literal succeeds exactly when it equals `next`, and then consumes one item; `optional` never fails; the step-function case is stated by `Engine.Normalise`, the repeat case by `EngineProperties.RepeatFailsIff` and `EngineProperties.RepeatedWitness`, and literals by `EngineProperties.LiteralStep` |
| Engine.Normalise | objregex.py:78-89 | a returned Match is adopted; None, 0, False and NoMoreItems fail; True advances by 1 and any other int `n` by `n` |
| Engine.GeneralMatch | objregex.py:91-101 | the loop returns the state `Chain` reaches: matchers applied in order, stopping at the first failure with the last good state |
| Engine.RepeatWrapper | objregex.py:136-146 | the two loops of `repeat`'s wrapper return exactly `Repeated`: `min_n` mandatory applications, then at most the bound of greedy ones |
| EngineProperties.LiteralStep | objregex.py:75-76 | a literal succeeds iff an item remains and the next item equals it, and then consumes exactly that item |
| EngineProperties.TestOneForward | objregex.py:71-89 | a forward matcher's success keeps items and start and never moves end backwards |
| EngineProperties.ApplyTimesForward | objregex.py:137-140 | the mandatory phase of `repeat` over a forward matcher keeps items and start and does not shrink the match |
| EngineProperties.GreedyForward | objregex.py:141-146 | the greedy phase of `repeat` over a forward matcher keeps items and start and does not shrink the match |
| EngineProperties.ChainForward | objregex.py:96-101 | `_general_match` over forward matchers keeps the items and the start offset |
| EngineProperties.ChainLongestPrefix | objregex.py:96-101 | `_general_match` returns the state after the longest prefix of matchers that all succeed; the next matcher fails there; the whole list is used iff every matcher succeeds |
| EngineProperties.AllMatchAgrees | objregex.py:96-101 | when every matcher succeeds, `_general_match` returns the final state |
| EngineProperties.LiteralsMatch | objregex.py:75-76 | a pattern of literals succeeds from position `o` iff the items from `o` begin with those values, consuming exactly them |
| EngineProperties.ApplyTimesFails | objregex.py:137-140 | `k` mandatory applications fail iff one of them fails after the earlier ones succeeded |
| EngineProperties.RepeatFailsIff | objregex.py:131-147 | `repeat(m, min_n, max_n)` returns None iff one of its first `min_n` applications fails |
| EngineProperties.ApplyTimesAdd | objregex.py:137-146 | `a` applications followed by `b` more are the same as `a + b` applications, so `repeat`'s two loops together make one run of applications |
| EngineProperties.GreedyWitness | objregex.py:141-146 | the greedy phase makes at most its bound of successful applications, and stops earlier only where `m` fails or returns the same state |
| EngineProperties.RepeatedWitness | objregex.py:131-147 | a successful `repeat` is `m` applied `j` times, with `min_n <= j <= min_n +` bound (`max_n - min_n`, or the items left after the mandatory phase); it stops below the bound only where `m` fails or returns the same state |
| EngineProperties.FixpointIsStable | objregex.py:142-145 | once `m` returns the state it was given, repeating `m` keeps that state, so a structural stop test ends where the identity test does |
| Combinators.Any | objregex.py:107-109 | `any()` succeeds at every position, also past the end, and advances by one item |
| Combinators.Start | objregex.py:111-113 | `start()` succeeds iff `end == 0`, and then advances by one item |
| Combinators.End | objregex.py:115-117 | `end()` succeeds iff `end == len(items)`, and then advances by one item past the end |
| Combinators.Optional | objregex.py:124-129 | `optional(m)` never fails; it returns the input state where `m` fails and `m`'s result elsewhere |
| Combinators.OptionalNeverShrinks | objregex.py:124-129 | over a forward matcher, `optional` never ends before the state it was given |
| Combinators.Repeat | objregex.py:131-147 | `repeat(m, min_n=1, max_n=None)` is the step function whose result is `Repeated` |
| Combinators.OneOrMore | objregex.py:149-151 | `one_or_more(m)` is `repeat(m, 1, None)` and fails exactly where `m` fails |
| Combinators.ZeroOrMore | objregex.py:153-155 | `zero_or_more(m)` is `repeat(m, 0, None)` and never fails |
| Queries.Fullmatch | objregex.py:157-162 | `fullmatch` returns the state `_general_match` reaches from 0 exactly when no item remains after it, even if a later matcher failed |
| Queries.Found | objregex.py:164-175 | `findall` yields at most as many values as the caller takes, and nothing on an empty item list |
| Queries.FindAll | objregex.py:164-175 | the loop of `findall` produces the values `Found` describes |
| Queries.Search | objregex.py:177-184 | `search` is None iff the items are empty, and otherwise the state `_general_match` reaches from offset 0 |
| Queries.FoundScan | objregex.py:168-175 | each value `findall` yields is `_general_match` from the scan offset; the first offset is 0, and each next offset is the previous end, which lay inside the items; fewer values than taken come only once the scan offset has left the items, so every match is yielded |
| Queries.FoundInOrder | objregex.py:164-175 | over forward matchers, the yielded matches do not overlap: each starts at its offset and the next starts where it ends |
| Queries.FoundExhausted | objregex.py:168-175 | if every match ends past its offset, `findall` yields at most `len(items)` values and then stops |
| Queries.ZeroWidthRepeats | objregex.py:169-173 | a match that ends where its scan started makes `findall` yield it for ever |
| Queries.FullmatchCoversAll | objregex.py:157-162 | over forward matchers, a full match starts at 0 and its `matched` is the whole list |
| Queries.FullmatchIsCompleteSearch | objregex.py:157-184 | on a non-empty list, `fullmatch` succeeds iff the state `search` returns has no next item, and then both agree |
| Findings.SearchStopsAtOffsetZero | objregex.py:177-184 | as written, `search([2, 3], [1, 2, 3])` is the empty match at 0, and `search([one_or_more(0 < next < 3)], [0, 1, 2, 3])` matches nothing |
| Findings.FirstMatchIsFirst | objregex.py:177-184 | the corrected `search` returns the full match at the first offset that has one, and None when no offset has one |
| Findings.CorrectedSearchFindsTwoThree | objregex.py:190 | with the corrected `search`, `[2, 3]` is found at offset 1 of `[1, 2, 3]` |
| Findings.FullmatchIgnoresFailedMatcher | objregex.py:157-162 | as written, `fullmatch([1, 2], [1])` succeeds although `2` never matched |
| Findings.StrictFullmatch | objregex.py:157-162 | the corrected `fullmatch` succeeds exactly when every matcher succeeds in turn from 0 and no item is left, and then returns that state, which is also `_general_match`'s |
| Findings.StrictFullmatchOfLiterals | objregex.py:157-162 | with the corrected `fullmatch`, a pattern of literals matches exactly the list of those values |
| Findings.AnchorsConsumeAnItem | objregex.py:111-117 | as written, `fullmatch([start(), 2], [1, 2])` succeeds, and `end()` moves the match past the last item |
| Findings.StartAnchor | objregex.py:111-113 | the corrected `start()` succeeds iff `end == 0` and consumes nothing |
| Findings.EndAnchor | objregex.py:115-117 | the corrected `end()` succeeds iff no item is left and consumes nothing |
| Findings.ZeroWidthAnchors | objregex.py:111-117 | with the corrected anchors, `[start, 2]` does not fully match `[1, 2]`, and `[1, 2, end]` ends at 2 |
| Scenarios.FullmatchOfSameList | objregex.py:189 | `fullmatch([1, 2, 3], [1, 2, 3])` ends at 3 |
| Scenarios.FullmatchWithAny | objregex.py:191 | `fullmatch([1, any(), 3], [1, 2, 3])` succeeds |
| Scenarios.FindAllAny | objregex.py:164-175 | `findall([any()], "abc")` yields single-item matches at 0, 1 and 2, and no more |
| Scenarios.OneOrMoreFromOffsetOne | objregex.py:149-151 | started at offset 1 of `[0, 1, 2, 3]`, `one_or_more(0 < next < 3)` matches `[1, 2]` |

## Left out

- The self-test block (objregex.py:186-211) is not run. It is never called. Its date-based login example needs `datetime` and `namedtuple`. Its asserts at lines 190 and 192 do not hold for the code; see Findings.
- `__repr__` (objregex.py:64-65) and the commented-out `either` (objregex.py:119-122) are not modelled.
- `__equals__` (objregex.py:61-62) is not Python's `__eq__`, and nothing calls it. `repeat`'s `==` is identity, and the model compares structurally, as explained above.
- The run-time type dispatch (`callable`, `isinstance`) and the typing aliases (objregex.py:68-69) become the closed datatypes `Matcher` and `PredResult`. A step-function result that is neither a `Match`, `None`, a bool nor an int is not modelled. In Python it fails inside `advance` or gives a non-integer `end`.
- Exceptions other than NoMoreItems are not modelled. In Python a step function's IndexError (for example from `m[n]`) escapes to the caller. Here step functions are total functions into `PredResult`.
- MatchState.Match.Next: for `end < -len(items)`, Python's `items[end]` raises IndexError, which escapes `_test_one`. The model gives None, so a literal there fails instead.
- `findall`'s generator laziness: `FindAll` takes at most `limit` values, as a caller pulling from the generator would. `FoundExhausted` and `ZeroWidthRepeats` say when the full generator ends and when it loops for ever.
- Side effects inside step functions are not modelled. Step functions are pure Dafny functions.

## Findings

| source | as written | input that shows it | evidently intended | confidence | as-written member | corrected member |
|---|---|---|---|---|---|---|
| objregex.py:177-184 | `search` returns whatever `_general_match` reaches at offset 0, however little, because `_general_match` never returns None and a `Match` is always truthy | `search([2, 3], [1, 2, 3])` gives the empty match at 0 | the match at the first offset where every matcher succeeds (start 1, as the self-test at line 190 asserts) | high; not executed | Findings.SearchStopsAtOffsetZero | Findings.FirstMatchIsFirst |
| objregex.py:157-162 | `fullmatch` accepts a run in which a later matcher failed, as long as no item is left | `fullmatch([1, 2], [1])` returns the match of `[1]` | None unless every matcher succeeded and no item is left | high; not executed | Findings.FullmatchIgnoresFailedMatcher | Findings.StrictFullmatch |
| objregex.py:111-117 | `start()` and `end()` return a bool, and `True` consumes one item | `fullmatch([start(), 2], [1, 2])` succeeds | zero-width anchors that return the state unchanged | medium; not executed | Findings.AnchorsConsumeAnItem | Findings.StartAnchor |
