/**
 * The matching engine of objregex: the step evaluator `_test_one`, the
 * sequential matcher `_general_match` and the loops of `repeat`.
 *
 * A matcher is either a literal, compared by equality with the next item, or
 * a step function from the current state to a result. The source tells the
 * two apart at run time (`callable`); here they are the closed datatype
 * `Matcher`. `optional` and `repeat` build step functions that call
 * `_test_one` themselves, so they are constructors of their own (`Opt`,
 * `Rep`) rather than opaque function values.
 *
 * Step functions are total and pure. The source compares states in `repeat`
 * by object identity; this model compares them structurally, which gives the
 * same outcome for pure step functions (see `FixpointIsStable`).
 */
module Engine {
  import opened Options
  import opened MatchState

  /**
   * What a step function hands back to `_test_one`: a state, `None`, a bool
   * or an int, or it raises NoMoreItems (by reading `next` past the end).
   */
  datatype PredResult<T> =
    | Returned(state: Match<T>)
    | NoneValue
    | Bool(b: bool)
    | Int(n: int)
    | RaisedNoMoreItems

  /** One pattern element. `maxN == None` is Python's `max_n=None`. */
  datatype Matcher<!T> =
    | Literal(value: T)
    | Pred(f: Match<T> -> PredResult<T>)
    | Opt(inner: Matcher<T>)
    | Rep(inner: Matcher<T>, minN: int, maxN: Option<int>)

  /** The number of iterations of Python's `for _ in range(n)`. */
  function Count(n: int): (c: nat)
    ensures n <= 0 ==> c == 0
    ensures 0 <= n ==> c == n
  {
    if n < 0 then 0 else n
  }

  /**
   * How `_test_one` turns a step function's result into failure (None) or a
   * new state: a state is adopted as it is; `None`, zero, `False` and
   * NoMoreItems fail; `True` counts as one item and any other int as that
   * many items.
   */
  function Normalise<T>(s: Match<T>, res: PredResult<T>): (r: Option<Match<T>>)
    ensures res.Returned? ==> r == Some(res.state)
    ensures r.None? <==> res in {NoneValue, RaisedNoMoreItems, Bool(false), Int(0)}
    ensures res == Bool(true) ==> r == Some(s.Advance(1))
    ensures res.Int? && res.n != 0 ==> r == Some(s.Advance(res.n))
  {
    match res
    case Returned(t) => Some(t)
    case NoneValue => None
    case RaisedNoMoreItems => None
    case Bool(b) => if b then Some(s.Advance(1)) else None
    case Int(n) => if n == 0 then None else Some(s.Advance(n))
  }

  /**
   * `_test_one`: apply one matcher to a state; None when it fails. A literal
   * succeeds exactly when it equals the next item and then consumes it; an
   * optional matcher never fails.
   */
  function TestOne<T(==)>(m: Matcher<T>, s: Match<T>): (r: Option<Match<T>>)
    ensures m.Literal? ==> (r.Some? <==> s.Next() == Some(m.value))
    ensures m.Literal? && r.Some? ==> r.value == s.Advance(1)
    ensures m.Opt? ==> r.Some?
    decreases m, 0, 0
  {
    match m
    case Literal(v) =>
      if s.HasNext() && s.Next() == Some(v) then Some(s.Advance(1)) else None
    case Pred(f) => Normalise(s, f(s))
    case Opt(inner) =>
      var t := TestOne(inner, s);
      if t.None? then Some(s) else t
    case Rep(inner, minN, maxN) => Repeated(inner, minN, maxN, s)
  }

  /** `k` applications of `m` in a row, failing as soon as one fails. */
  function ApplyTimes<T(==)>(m: Matcher<T>, s: Match<T>, k: nat): Option<Match<T>>
    decreases m, 1, k
  {
    if k == 0 then Some(s)
    else match TestOne(m, s)
      case None => None
      case Some(t) => ApplyTimes(m, t, k - 1)
  }

  /**
   * At most `k` further applications of `m`, stopping with the current state
   * when `m` fails or hands back the state it was given.
   */
  function Greedy<T(==)>(m: Matcher<T>, s: Match<T>, k: nat): Match<T>
    decreases m, 1, k
  {
    if k == 0 then s
    else match TestOne(m, s)
      case None => s
      case Some(t) => if t == s then s else Greedy(m, t, k - 1)
  }

  /** The number of optional applications `repeat` tries after the mandatory ones. */
  function GreedyBound<T>(minN: int, maxN: Option<int>, t: Match<T>): nat
  {
    Count(if maxN.Some? then maxN.value - minN else |t.items| - t.end)
  }

  /** What the step function built by `repeat(m, minN, maxN)` returns for `s`. */
  function Repeated<T(==)>(m: Matcher<T>, minN: int, maxN: Option<int>, s: Match<T>): Option<Match<T>>
    decreases m, 2, 0
  {
    match ApplyTimes(m, s, Count(minN))
    case None => None
    case Some(t) => Some(Greedy(m, t, GreedyBound(minN, maxN, t)))
  }

  /**
   * The state `_general_match` reaches: the matchers are applied left to
   * right, and the first failure ends the run with the last state reached.
   */
  function Chain<T(==)>(ms: seq<Matcher<T>>, s: Match<T>): Match<T>
  {
    if ms == [] then s
    else match TestOne(ms[0], s)
      case None => s
      case Some(t) => Chain(ms[1..], t)
  }

  /** The state reached when every matcher of `ms` succeeds in turn; None otherwise. */
  function AllMatch<T(==)>(ms: seq<Matcher<T>>, s: Match<T>): Option<Match<T>>
  {
    if ms == [] then Some(s)
    else match TestOne(ms[0], s)
      case None => None
      case Some(t) => AllMatch(ms[1..], t)
  }

  /** `_general_match(matchers, items, start)`. */
  method GeneralMatch<T(==)>(matchers: seq<Matcher<T>>, items: seq<T>, start: int := 0)
    returns (r: Match<T>)
    ensures r == Chain(matchers, Match(items, start, start))
  {
    r := Match(items, start, start);
    for i := 0 to |matchers|
      invariant Chain(matchers[i..], r) == Chain(matchers, Match(items, start, start))
    {
      var next := TestOne(matchers[i], r);
      if next.None? {
        break;
      }
      assert matchers[i..][1..] == matchers[i + 1..];
      r := next.value;
    }
  }

  /** The step function `wrapper` that `repeat(matcher, minN, maxN)` returns, applied to `state`. */
  method RepeatWrapper<T(==)>(matcher: Matcher<T>, minN: int, maxN: Option<int>, state: Match<T>)
    returns (r: Option<Match<T>>)
    ensures r == Repeated(matcher, minN, maxN, state)
  {
    var current := state;
    for i := 0 to Count(minN)
      invariant ApplyTimes(matcher, state, Count(minN)) == ApplyTimes(matcher, current, Count(minN) - i)
    {
      var next := TestOne(matcher, current);
      if next.None? {
        return None;
      }
      current := next.value;
    }
    var bound := GreedyBound(minN, maxN, current);
    ghost var mandatory := current;
    for i := 0 to bound
      invariant Greedy(matcher, mandatory, bound) == Greedy(matcher, current, bound - i)
    {
      var next := TestOne(matcher, current);
      if next.None? || next.value == current {
        return Some(current);
      }
      current := next.value;
    }
    return Some(current);
  }
}
