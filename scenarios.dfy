/**
 * Concrete runs of the engine that behave as the library's documentation
 * describes.
 */
module Scenarios {
  import opened Options
  import opened MatchState
  import opened Engine
  import opened EngineProperties
  import opened Combinators
  import opened Queries
  import opened Findings

  /** `fullmatch([1, 2, 3], [1, 2, 3])` spans the whole list. */
  lemma FullmatchOfSameList()
    ensures Fullmatch(Literals([1, 2, 3]), [1, 2, 3]) == Some(Match([1, 2, 3], 0, 3))
  {
  }

  /** `fullmatch([1, any(), 3], [1, 2, 3])` succeeds, `any()` taking the `2`. */
  lemma FullmatchWithAny()
    ensures Fullmatch([Literal(1), Any(), Literal(3)], [1, 2, 3]) == Some(Match([1, 2, 3], 0, 3))
  {
  }

  /** `findall([any()], "abc")` yields one single-item match at each of 0, 1 and 2, and no more. */
  lemma FindAllAny(n: nat)
    requires n >= 3
    ensures Found([Any()], ['a', 'b', 'c'], 0, n) ==
              [Match(['a', 'b', 'c'], 0, 1), Match(['a', 'b', 'c'], 1, 2), Match(['a', 'b', 'c'], 2, 3)]
  {
    var items := ['a', 'b', 'c'];
    assert Chain([Any()], At(items, 0)) == Match(items, 0, 1);
    assert Chain([Any()], At(items, 1)) == Match(items, 1, 2);
    assert Chain([Any()], At(items, 2)) == Match(items, 2, 3);
    assert Found([Any()], items, 3, n - 3) == [];
    assert Found([Any()], items, 2, n - 2) == [Match(items, 2, 3)];
    assert Found([Any()], items, 1, n - 1) == [Match(items, 1, 2), Match(items, 2, 3)];
  }

  /**
   * Started at offset 1 of `[0, 1, 2, 3]`, `one_or_more(lambda m: 0 < m.next < 3)`
   * takes exactly `[1, 2]`.
   */
  lemma OneOrMoreFromOffsetOne()
    ensures Chain([OneOrMore(Pred(BetweenZeroAndThree))], At([0, 1, 2, 3], 1)).Matched() == [1, 2]
  {
    var items := [0, 1, 2, 3];
    var m := Pred(BetweenZeroAndThree);
    assert TestOne(m, Match(items, 1, 1)) == Some(Match(items, 1, 2));
    assert ApplyTimes(m, Match(items, 1, 1), 1) == Some(Match(items, 1, 2));
    assert TestOne(m, Match(items, 1, 2)) == Some(Match(items, 1, 3));
    assert TestOne(m, Match(items, 1, 3)).None?;
    assert Greedy(m, Match(items, 1, 3), 1) == Match(items, 1, 3);
    assert Greedy(m, Match(items, 1, 2), 2) == Match(items, 1, 3);
    assert TestOne(OneOrMore(m), At(items, 1)) == Some(Match(items, 1, 3));
    assert items[1..3] == [1, 2];
  }
}
