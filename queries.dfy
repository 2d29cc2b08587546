/**
 * The query operations of objregex: `fullmatch`, `findall` and `search`.
 *
 * `_general_match` always returns a `Match`, and a `Match` is always truthy
 * in Python (it defines neither `__bool__` nor `__len__`). So the test
 * `match and ...` in `fullmatch` and `if match:` in `findall` always hold,
 * and the `start += 1` branch of `findall` never runs: every round of its
 * loop yields, and the scan continues at the yielded match's end.
 *
 * `findall` is a generator that loops forever once a match ends where its
 * scan started. It is modelled by what a caller receives when it takes at
 * most `limit` values from it.
 */
module Queries {
  import opened Options
  import opened MatchState
  import opened Engine
  import opened EngineProperties

  /** The zero-width state `_general_match` starts from at `offset`. */
  function At<T>(items: seq<T>, offset: int): Match<T>
  {
    Match(items, offset, offset)
  }

  /**
   * `fullmatch(matchers, items)`: the state `_general_match` reaches from
   * offset 0, when nothing is left after it, even if a matcher failed.
   * "Left" is judged against the items of that state, which a step function
   * returning its own `Match` may have replaced.
   */
  function Fullmatch<T(==)>(matchers: seq<Matcher<T>>, items: seq<T>): (r: Option<Match<T>>)
    ensures r.Some? <==> Chain(matchers, At(items, 0)).end >= |Chain(matchers, At(items, 0)).items|
    ensures r.Some? ==> r.value == Chain(matchers, At(items, 0)) && r.value.Rest() == []
  {
    var m := Chain(matchers, At(items, 0));
    if !m.HasNext() then Some(m) else None
  }

  /**
   * The first `n` values `findall` yields once its scan has reached
   * `offset`: while the offset is inside the items, it yields what
   * `_general_match` reaches from there and continues at that match's end.
   */
  function Found<T(==)>(matchers: seq<Matcher<T>>, items: seq<T>, offset: int, n: nat): (r: seq<Match<T>>)
    ensures |r| <= n
    ensures |items| <= offset ==> r == []
    decreases n
  {
    if n == 0 || offset >= |items| then []
    else
      var m := Chain(matchers, At(items, offset));
      [m] + Found(matchers, items, m.end, n - 1)
  }

  /** `findall(matchers, items)`, of which the caller takes at most `limit` values. */
  method FindAll<T(==)>(matchers: seq<Matcher<T>>, items: seq<T>, limit: nat)
    returns (found: seq<Match<T>>)
    ensures found == Found(matchers, items, 0, limit)
  {
    found := [];
    var start := 0;
    while start < |items| && |found| < limit
      invariant |found| <= limit
      invariant found + Found(matchers, items, start, limit - |found|) == Found(matchers, items, 0, limit)
      decreases limit - |found|
    {
      var m := GeneralMatch(matchers, items, start);
      assert Found(matchers, items, start, limit - |found|)
          == [m] + Found(matchers, items, m.end, limit - |found| - 1);
      assert found + ([m] + Found(matchers, items, m.end, limit - |found| - 1))
          == (found + [m]) + Found(matchers, items, m.end, limit - |found| - 1);
      found := found + [m];
      start := m.end;
    }
  }

  /**
   * `search(matchers, items)`: the first value of `findall`, so None exactly
   * on an empty item list and otherwise whatever `_general_match` reaches
   * from offset 0, however little that is.
   */
  function Search<T(==)>(matchers: seq<Matcher<T>>, items: seq<T>): (r: Option<Match<T>>)
    ensures r.None? <==> items == []
    ensures r.Some? ==> r.value == Chain(matchers, At(items, 0))
  {
    var found := Found(matchers, items, 0, 1);
    if found == [] then None else Some(found[0])
  }

  /**
   * Each value `findall` yields is what `_general_match` reaches from the
   * current scan offset; the first offset is where the scan started, and
   * each later one is the end of the previous value, which lay inside the
   * items. Fewer values than the caller asks for come only when the scan
   * has left the items: the start offset, or the last value's end, is at or
   * past their length.
   */
  lemma {:induction false} FoundScan<T>(matchers: seq<Matcher<T>>, items: seq<T>, offset: int, n: nat)
    ensures var f := Found(matchers, items, offset, n);
            (f != [] ==> offset < |items| && f[0] == Chain(matchers, At(items, offset))) &&
            (forall i :: 0 <= i < |f| - 1 ==>
               f[i].end < |items| && f[i + 1] == Chain(matchers, At(items, f[i].end)))
    ensures var f := Found(matchers, items, offset, n);
            |f| < n ==> (f == [] && offset >= |items|) || (f != [] && f[|f| - 1].end >= |items|)
    decreases n
  {
    if n > 0 && offset < |items| {
      var m := Chain(matchers, At(items, offset));
      FoundScan(matchers, items, m.end, n - 1);
    }
  }

  /**
   * With matchers that only move forward, the values `findall` yields lie
   * over the same items, one after another without overlap: each starts at
   * its scan offset and ends no earlier, and the next starts where it ends.
   */
  lemma FoundInOrder<T(!new)>(matchers: seq<Matcher<T>>, items: seq<T>, offset: int, n: nat)
    requires AllForward(matchers)
    ensures var f := Found(matchers, items, offset, n);
            (f != [] ==> f[0].start == offset) &&
            (forall i :: 0 <= i < |f| ==> f[i].items == items && f[i].start <= f[i].end) &&
            (forall i :: 0 <= i < |f| - 1 ==> f[i + 1].start == f[i].end)
  {
    var f := Found(matchers, items, offset, n);
    FoundScan(matchers, items, offset, n);
    if f != [] {
      ChainForward(matchers, At(items, offset));
    }
    forall i | 0 <= i < |f| - 1 ensures f[i + 1].start == f[i].end {
      ChainForward(matchers, At(items, f[i].end));
    }
    forall i | 0 <= i < |f| ensures f[i].items == items && f[i].start <= f[i].end {
      if i == 0 {
        ChainForward(matchers, At(items, offset));
      } else {
        ChainForward(matchers, At(items, f[i - 1].end));
      }
    }
  }

  /** Every match from an offset inside the items ends past that offset. */
  ghost predicate Progresses<T>(matchers: seq<Matcher<T>>, items: seq<T>)
  {
    forall o :: 0 <= o < |items| ==> Chain(matchers, At(items, o)).end > o
  }

  /**
   * When every match ends past its offset, `findall` is finite: from
   * `offset` it yields at most `|items| - offset` values, and taking one
   * more than that gives nothing more.
   */
  lemma {:induction false} FoundExhausted<T>(matchers: seq<Matcher<T>>, items: seq<T>, offset: nat, n: nat)
    requires Progresses(matchers, items)
    ensures |Found(matchers, items, offset, n)| <= |items| - offset || |items| < offset
    ensures offset + n >= |items| ==> Found(matchers, items, offset, n + 1) == Found(matchers, items, offset, n)
    decreases n
  {
    if n > 0 && offset < |items| {
      var m := Chain(matchers, At(items, offset));
      FoundExhausted(matchers, items, m.end, n - 1);
    }
  }

  /**
   * A match that ends where its scan started makes `findall` yield that
   * same match for ever.
   */
  lemma {:induction false} ZeroWidthRepeats<T>(matchers: seq<Matcher<T>>, items: seq<T>, offset: int, n: nat)
    requires 0 <= offset < |items|
    requires Chain(matchers, At(items, offset)).end == offset
    ensures |Found(matchers, items, offset, n)| == n
    ensures forall i :: 0 <= i < n ==> Found(matchers, items, offset, n)[i] == Chain(matchers, At(items, offset))
    decreases n
  {
    if n > 0 {
      ZeroWidthRepeats(matchers, items, offset, n - 1);
    }
  }

  /**
   * With matchers that only move forward, a full match starts at 0 and
   * covers every item.
   */
  lemma FullmatchCoversAll<T(!new)>(matchers: seq<Matcher<T>>, items: seq<T>)
    requires AllForward(matchers)
    requires Fullmatch(matchers, items).Some?
    ensures Fullmatch(matchers, items).value.start == 0
    ensures Fullmatch(matchers, items).value.Matched() == items
  {
    ChainForward(matchers, At(items, 0));
  }

  /**
   * On a non-empty item list, `fullmatch` succeeds exactly when the state
   * `search` returns has nothing left after it, and then both give that state.
   */
  lemma FullmatchIsCompleteSearch<T>(matchers: seq<Matcher<T>>, items: seq<T>)
    requires items != []
    ensures Fullmatch(matchers, items).Some? <==> !Search(matchers, items).value.HasNext()
    ensures Fullmatch(matchers, items).Some? ==> Fullmatch(matchers, items) == Search(matchers, items)
  {
  }
}
