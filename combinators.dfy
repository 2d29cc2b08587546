/**
 * The user-facing matcher builders of objregex: `any`, `start`, `end`,
 * `optional`, `repeat`, `one_or_more` and `zero_or_more`.
 *
 * `any`, `start` and `end` are step functions returning a bool, exactly as
 * in the source; since `True` counts as one item, each of them consumes an
 * item when it holds.
 */
module Combinators {
  import opened Options
  import opened MatchState
  import opened Engine
  import opened EngineProperties

  /** `any()`: succeeds at every position, also past the last item, consuming one item. */
  function Any<T(==,!new)>(): (r: Matcher<T>)
    ensures Forward(r)
    ensures forall s :: TestOne(r, s) == Some(s.Advance(1))
  {
    Pred(s => Bool(true))
  }

  /** `start()`: succeeds only when the match ends at position 0, consuming one item. */
  function Start<T(==,!new)>(): (r: Matcher<T>)
    ensures Forward(r)
    ensures forall s :: TestOne(r, s) == if s.end == 0 then Some(s.Advance(1)) else None
  {
    Pred((s: Match<T>) => Bool(s.end == 0))
  }

  /** `end()`: succeeds only when no item is left, consuming one (moving past the end). */
  function End<T(==,!new)>(): (r: Matcher<T>)
    ensures Forward(r)
    ensures forall s :: TestOne(r, s) == if s.end == |s.items| then Some(s.Advance(1)) else None
  {
    Pred((s: Match<T>) => Bool(s.end == |s.items|))
  }

  /**
   * `optional(m)`: never fails; where `m` fails it hands back the state it
   * was given, and elsewhere it is `m`.
   */
  function Optional<T(==,!new)>(m: Matcher<T>): (r: Matcher<T>)
    ensures Forward(m) ==> Forward(r)
    ensures forall s :: TestOne(r, s).Some?
    ensures forall s :: TestOne(r, s) == if TestOne(m, s).None? then Some(s) else TestOne(m, s)
  {
    Opt(m)
  }

  /** `repeat(m, min_n=1, max_n=None)`. */
  function Repeat<T(==,!new)>(m: Matcher<T>, minN: int := 1, maxN: Option<int> := None): (r: Matcher<T>)
    ensures Forward(m) ==> Forward(r)
    ensures forall s :: TestOne(r, s) == Repeated(m, minN, maxN, s)
  {
    Rep(m, minN, maxN)
  }

  /** `one_or_more(m)`: `repeat` with `min_n = 1`; fails exactly where `m` fails. */
  function OneOrMore<T(==,!new)>(m: Matcher<T>): (r: Matcher<T>)
    ensures r == Repeat(m, 1, None)
    ensures forall s :: TestOne(r, s).None? <==> TestOne(m, s).None?
  {
    assert forall s :: TestOne(Rep(m, 1, None), s).None? <==> TestOne(m, s).None? by {
      forall s ensures TestOne(Rep(m, 1, None), s).None? <==> TestOne(m, s).None? {
        assert TestOne(Rep(m, 1, None), s) == Repeated(m, 1, None, s);
        if TestOne(m, s).Some? {
          assert ApplyTimes(m, TestOne(m, s).value, 0).Some?;
        }
      }
    }
    Repeat(m, 1)
  }

  /** `zero_or_more(m)`: `repeat` with `min_n = 0`; never fails. */
  function ZeroOrMore<T(==,!new)>(m: Matcher<T>): (r: Matcher<T>)
    ensures r == Repeat(m, 0, None)
    ensures forall s :: TestOne(r, s).Some?
  {
    assert forall s :: TestOne(Rep(m, 0, None), s).Some? by {
      forall s ensures TestOne(Rep(m, 0, None), s).Some? {
        assert TestOne(Rep(m, 0, None), s) == Repeated(m, 0, None, s);
      }
    }
    Repeat(m, 0)
  }

  /**
   * For a matcher that only moves forward, `optional` keeps the items and
   * start and never ends before the state it was given.
   */
  lemma OptionalNeverShrinks<T(!new)>(m: Matcher<T>, s: Match<T>)
    requires Forward(m)
    ensures TestOne(Optional(m), s).Some?
    ensures Extends(s, TestOne(Optional(m), s).value)
  {
    TestOneForward(Optional(m), s);
  }
}
