/**
 * Three places where objregex, as written, does not do what its own
 * annotations, doc-strings and unused self-test say it should. For each,
 * a lemma shows the behaviour of the code as written on a concrete input,
 * and a corrected definition is given with the intended property proved.
 *
 * 1. `_general_match` is annotated `-> Optional[Match]` and its callers
 *    test its result for truth, but it never returns None: a failed matcher
 *    just ends the run. So `search([2, 3], [1, 2, 3])` returns the empty
 *    match at offset 0 instead of the match at offset 1 that the self-test
 *    asserts (objregex.py:190).
 * 2. For the same reason `fullmatch` accepts a run in which a later
 *    matcher failed, as long as the earlier ones consumed every item.
 * 3. `start()` and `end()` are meant to match the start and end of the
 *    items list, but return a bool, and `True` consumes one item.
 */
module Findings {
  import opened Options
  import opened MatchState
  import opened Engine
  import opened EngineProperties
  import opened Combinators
  import opened Queries

  // ---------------------------------------------------------------------
  // 1. search

  /**
   * As written, `search([2, 3], [1, 2, 3])` is the zero-width match at 0,
   * and `search([one_or_more(lambda m: 0 < m.next < 3)], [0, 1, 2, 3])`
   * matches nothing, where the self-test expects start 1 and `[1, 2]`.
   */
  lemma SearchStopsAtOffsetZero()
    ensures Search(Literals([2, 3]), [1, 2, 3]) == Some(Match([1, 2, 3], 0, 0))
    ensures Search([OneOrMore(Pred(BetweenZeroAndThree))], [0, 1, 2, 3]).value.Matched() == []
  {
  }

  /** The step function `lambda m: 0 < m.next < 3` of the self-test. */
  function BetweenZeroAndThree(m: Match<int>): PredResult<int>
  {
    match m.Next()
    case None => RaisedNoMoreItems
    case Some(x) => Bool(0 < x < 3)
  }

  /**
   * The intended `search`, from `offset` on: the first offset inside the
   * items where every matcher succeeds in turn, with the state reached
   * there.
   */
  function FirstMatch<T(==)>(matchers: seq<Matcher<T>>, items: seq<T>, offset: nat): Option<Match<T>>
    decreases |items| - offset
  {
    if offset >= |items| then None
    else match AllMatch(matchers, At(items, offset))
      case Some(m) => Some(m)
      case None => FirstMatch(matchers, items, offset + 1)
  }

  /**
   * The intended `search` finds a full match at the first offset `k` where
   * one exists, and none where no offset has one.
   */
  lemma {:induction false} FirstMatchIsFirst<T>(matchers: seq<Matcher<T>>, items: seq<T>, offset: nat)
    returns (k: nat)
    ensures FirstMatch(matchers, items, offset).Some? ==>
              offset <= k < |items| &&
              FirstMatch(matchers, items, offset) == AllMatch(matchers, At(items, k)) &&
              forall j :: offset <= j < k ==> AllMatch(matchers, At(items, j)).None?
    ensures FirstMatch(matchers, items, offset).None? ==>
              forall j :: offset <= j < |items| ==> AllMatch(matchers, At(items, j)).None?
    decreases |items| - offset
  {
    if offset >= |items| {
      k := offset;
    } else if AllMatch(matchers, At(items, offset)).Some? {
      k := offset;
    } else {
      k := FirstMatchIsFirst(matchers, items, offset + 1);
    }
  }

  /** With the intended `search`, `[2, 3]` is found at offset 1 of `[1, 2, 3]`. */
  lemma CorrectedSearchFindsTwoThree()
    ensures FirstMatch(Literals([2, 3]), [1, 2, 3], 0) == Some(Match([1, 2, 3], 1, 3))
  {
  }

  // ---------------------------------------------------------------------
  // 2. fullmatch

  /** As written, `fullmatch([1, 2], [1])` succeeds although `2` never matched. */
  lemma FullmatchIgnoresFailedMatcher()
    ensures Fullmatch(Literals([1, 2]), [1]) == Some(Match([1], 0, 1))
  {
  }

  /** The intended `fullmatch`: every matcher succeeds and nothing is left. */
  function StrictFullmatch<T(==)>(matchers: seq<Matcher<T>>, items: seq<T>): (r: Option<Match<T>>)
    ensures r.Some? <==>
              AllMatch(matchers, At(items, 0)).Some? && !AllMatch(matchers, At(items, 0)).value.HasNext()
    ensures r.Some? ==> r == AllMatch(matchers, At(items, 0))
    ensures r.Some? ==> r.value == Chain(matchers, At(items, 0))
  {
    match AllMatch(matchers, At(items, 0))
    case None => None
    case Some(m) =>
      AllMatchAgrees(matchers, At(items, 0));
      if !m.HasNext() then Some(m) else None
  }

  /** With the intended `fullmatch`, a pattern of literals matches exactly the list of those values. */
  lemma StrictFullmatchOfLiterals<T>(xs: seq<T>, items: seq<T>)
    ensures StrictFullmatch(Literals(xs), items).Some? <==> items == xs
  {
    LiteralsMatch(xs, items, 0, 0);
    if items == xs {
      assert items[0..|xs|] == xs;
    }
  }

  // ---------------------------------------------------------------------
  // 3. anchors

  /**
   * As written, `start()` consumes the first item: `fullmatch([start(), 2],
   * [1, 2])` succeeds, and `end()` runs past the last item.
   */
  lemma AnchorsConsumeAnItem()
    ensures Fullmatch([Start(), Literal(2)], [1, 2]) == Some(Match([1, 2], 0, 2))
    ensures Fullmatch([Literal(1), Literal(2), End()], [1, 2]) == Some(Match([1, 2], 0, 3))
  {
  }

  /** The intended `start()`: succeeds only at position 0, consuming nothing. */
  function StartAnchor<T(==,!new)>(): (r: Matcher<T>)
    ensures Forward(r)
    ensures forall s :: TestOne(r, s) == if s.end == 0 then Some(s) else None
  {
    Pred((s: Match<T>) => if s.end == 0 then Returned(s) else Bool(false))
  }

  /** The intended `end()`: succeeds only when no item is left, consuming nothing. */
  function EndAnchor<T(==,!new)>(): (r: Matcher<T>)
    ensures Forward(r)
    ensures forall s :: TestOne(r, s) == if s.end == |s.items| then Some(s) else None
  {
    Pred((s: Match<T>) => if s.end == |s.items| then Returned(s) else Bool(false))
  }

  /** With the intended anchors, `[start, 2]` no longer matches `[1, 2]`, and `[1, 2, end]` ends at 2. */
  lemma ZeroWidthAnchors()
    ensures StrictFullmatch([StartAnchor(), Literal(2)], [1, 2]).None?
    ensures StrictFullmatch([Literal(1), Literal(2), EndAnchor()], [1, 2]) == Some(Match([1, 2], 0, 2))
  {
  }
}
