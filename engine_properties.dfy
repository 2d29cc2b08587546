/**
 * What the step evaluator, `repeat` and the sequential matcher guarantee.
 */
module EngineProperties {
  import opened Options
  import opened MatchState
  import opened Engine

  /** A literal consumes exactly the next item, and only when that item equals it. */
  lemma LiteralStep<T>(v: T, s: Match<T>)
    requires 0 <= s.end
    ensures TestOne(Literal(v), s).Some? <==> s.Rest() != [] && s.Rest()[0] == v
    ensures TestOne(Literal(v), s).Some? ==> TestOne(Literal(v), s) == Some(s.Advance(1))
  {
  }

  // ---------------------------------------------------------------------
  // Matchers that only move forward

  /** `t` keeps the items and start of `s` and ends no earlier. */
  ghost predicate Extends<T>(s: Match<T>, t: Match<T>)
  {
    t.items == s.items && t.start == s.start && s.end <= t.end
  }

  /** A step-function result that, once normalised, never moves backwards. */
  ghost predicate ForwardResult<T>(s: Match<T>, res: PredResult<T>)
  {
    match res
    case Returned(t) => Extends(s, t)
    case Int(n) => 0 <= n
    case _ => true
  }

  /**
   * A matcher whose step functions never swap the items, never move the
   * start and never move the end backwards. Literals and the built-in
   * combinators are of this kind.
   */
  ghost predicate Forward<T(!new)>(m: Matcher<T>)
  {
    match m
    case Literal(_) => true
    case Pred(f) => forall s :: ForwardResult(s, f(s))
    case Opt(inner) => Forward(inner)
    case Rep(inner, _, _) => Forward(inner)
  }

  ghost predicate AllForward<T(!new)>(ms: seq<Matcher<T>>)
  {
    forall i :: 0 <= i < |ms| ==> Forward(ms[i])
  }

  /** A forward matcher's successful step keeps items and start and does not shrink the match. */
  lemma {:induction false} TestOneForward<T(!new)>(m: Matcher<T>, s: Match<T>)
    requires Forward(m)
    ensures TestOne(m, s).Some? ==> Extends(s, TestOne(m, s).value)
    decreases m, 0, 0
  {
    match m
    case Literal(_) =>
    case Pred(f) =>
      assert ForwardResult(s, f(s));
    case Opt(inner) =>
      TestOneForward(inner, s);
    case Rep(inner, minN, maxN) =>
      ApplyTimesForward(inner, s, Count(minN));
      var t := ApplyTimes(inner, s, Count(minN));
      if t.Some? {
        GreedyForward(inner, t.value, GreedyBound(minN, maxN, t.value));
      }
  }

  lemma {:induction false} ApplyTimesForward<T(!new)>(m: Matcher<T>, s: Match<T>, k: nat)
    requires Forward(m)
    ensures ApplyTimes(m, s, k).Some? ==> Extends(s, ApplyTimes(m, s, k).value)
    decreases m, 1, k
  {
    if k > 0 {
      TestOneForward(m, s);
      var t := TestOne(m, s);
      if t.Some? {
        ApplyTimesForward(m, t.value, k - 1);
      }
    }
  }

  lemma {:induction false} GreedyForward<T(!new)>(m: Matcher<T>, s: Match<T>, k: nat)
    requires Forward(m)
    ensures Extends(s, Greedy(m, s, k))
    decreases m, 1, k
  {
    if k > 0 {
      TestOneForward(m, s);
      var t := TestOne(m, s);
      if t.Some? && t.value != s {
        GreedyForward(m, t.value, k - 1);
      }
    }
  }

  /** Threading a state through forward matchers keeps its items and start. */
  lemma {:induction false} ChainForward<T(!new)>(ms: seq<Matcher<T>>, s: Match<T>)
    requires AllForward(ms)
    ensures Extends(s, Chain(ms, s))
  {
    if ms != [] {
      TestOneForward(ms[0], s);
      var t := TestOne(ms[0], s);
      if t.Some? {
        assert AllForward(ms[1..]) by {
          forall i | 0 <= i < |ms[1..]| ensures Forward(ms[1..][i]) {
            assert ms[1..][i] == ms[i + 1];
          }
        }
        ChainForward(ms[1..], t.value);
      }
    }
  }

  // ---------------------------------------------------------------------
  // The sequential matcher

  /**
   * `_general_match` returns the state reached by the longest prefix of the
   * matcher list that succeeds in order: the prefix has length `k`, and the
   * matcher after it (if any) fails there. It reaches the end of the list
   * exactly when every matcher succeeds.
   */
  lemma {:induction false} ChainLongestPrefix<T>(ms: seq<Matcher<T>>, s: Match<T>)
    returns (k: nat)
    ensures k <= |ms|
    ensures AllMatch(ms[..k], s) == Some(Chain(ms, s))
    ensures k < |ms| ==> TestOne(ms[k], Chain(ms, s)).None?
    ensures AllMatch(ms, s).Some? <==> k == |ms|
  {
    if ms == [] {
      k := 0;
    } else {
      match TestOne(ms[0], s)
      case None =>
        k := 0;
      case Some(t) =>
        var k' := ChainLongestPrefix(ms[1..], t);
        k := k' + 1;
        assert ms[..k][0] == ms[0];
        assert ms[..k][1..] == ms[1..][..k'];
        if k < |ms| {
          assert ms[k] == ms[1..][k'];
        }
        assert ms[..k] == ms ==> ms[1..][..k'] == ms[1..];
    }
  }

  /** When every matcher succeeds, `_general_match` returns the final state. */
  lemma {:induction false} AllMatchAgrees<T>(ms: seq<Matcher<T>>, s: Match<T>)
    requires AllMatch(ms, s).Some?
    ensures Chain(ms, s) == AllMatch(ms, s).value
  {
    if ms != [] {
      AllMatchAgrees(ms[1..], TestOne(ms[0], s).value);
    }
  }

  /** The pattern made of one literal per value of `xs`, in order. */
  function Literals<T>(xs: seq<T>): (r: seq<Matcher<T>>)
    ensures |r| == |xs|
  {
    if xs == [] then [] else [Literal(xs[0])] + Literals(xs[1..])
  }

  /**
   * A pattern of literals succeeds from position `o` exactly when the items
   * from `o` on begin with those values, and then consumes exactly them.
   */
  lemma {:induction false} LiteralsMatch<T>(xs: seq<T>, items: seq<T>, start: int, o: int)
    requires 0 <= o <= |items|
    ensures AllMatch(Literals(xs), Match(items, start, o)) ==
              if o + |xs| <= |items| && items[o..o + |xs|] == xs
              then Some(Match(items, start, o + |xs|)) else None
    decreases xs
  {
    if xs != [] {
      var s := Match(items, start, o);
      assert Literals(xs)[0] == Literal(xs[0]);
      assert Literals(xs)[1..] == Literals(xs[1..]);
      if o < |items| && items[o] == xs[0] {
        assert TestOne(Literal(xs[0]), s) == Some(Match(items, start, o + 1));
        LiteralsMatch(xs[1..], items, start, o + 1);
        if o + |xs| <= |items| {
          assert items[o..o + |xs|] == [items[o]] + items[o + 1..o + |xs|];
          assert xs == [xs[0]] + xs[1..];
        }
      } else {
        assert TestOne(Literal(xs[0]), s).None?;
        if o + |xs| <= |items| {
          assert items[o..o + |xs|][0] == items[o];
        }
      }
    }
  }

  // ---------------------------------------------------------------------
  // repeat

  /** After `i` applications `m` succeeded each time and then fails. */
  ghost predicate FailsAfter<T>(m: Matcher<T>, s: Match<T>, i: nat)
  {
    ApplyTimes(m, s, i).Some? && TestOne(m, ApplyTimes(m, s, i).value).None?
  }

  /** `k` applications fail exactly when one of the first `k` fails. */
  lemma {:induction false} ApplyTimesFails<T>(m: Matcher<T>, s: Match<T>, k: nat)
    ensures ApplyTimes(m, s, k).None? <==> exists i: nat :: i < k && FailsAfter(m, s, i)
    decreases k
  {
    if k > 0 {
      match TestOne(m, s)
      case None =>
        assert FailsAfter(m, s, 0);
      case Some(t) =>
        ApplyTimesFails(m, t, k - 1);
        forall i: nat | i < k - 1
          ensures FailsAfter(m, s, i + 1) == FailsAfter(m, t, i)
        {
          assert ApplyTimes(m, s, i + 1) == ApplyTimes(m, t, i);
        }
        if exists i: nat :: i < k && FailsAfter(m, s, i) {
          var i: nat :| i < k && FailsAfter(m, s, i);
          assert i != 0;
          assert FailsAfter(m, t, i - 1);
        }
    }
  }

  /**
   * `repeat(m, minN, maxN)` fails exactly when one of its first `minN`
   * applications of `m` fails; the greedy phase never makes it fail.
   */
  lemma RepeatFailsIff<T>(m: Matcher<T>, minN: int, maxN: Option<int>, s: Match<T>)
    ensures TestOne(Rep(m, minN, maxN), s).None? <==>
              exists i: nat :: i < minN && FailsAfter(m, s, i)
  {
    ApplyTimesFails(m, s, Count(minN));
  }

  /** Applying `a` then `b` times is applying `a + b` times. */
  lemma {:induction false} ApplyTimesAdd<T>(m: Matcher<T>, s: Match<T>, a: nat, b: nat)
    requires ApplyTimes(m, s, a).Some?
    ensures ApplyTimes(m, s, a + b) == ApplyTimes(m, ApplyTimes(m, s, a).value, b)
    decreases a
  {
    if a > 0 {
      var t := TestOne(m, s).value;
      assert ApplyTimes(m, s, a) == ApplyTimes(m, t, a - 1);
      assert ApplyTimes(m, s, a + b) == ApplyTimes(m, t, a - 1 + b);
      ApplyTimesAdd(m, t, a - 1, b);
    }
  }

  /** `m` cannot take the repetition further from `r`: it fails or hands `r` back. */
  ghost predicate Stops<T>(m: Matcher<T>, r: Match<T>)
  {
    TestOne(m, r).None? || TestOne(m, r) == Some(r)
  }

  /**
   * The greedy phase makes `j <= k` successful applications, and stops
   * early only where `m` can take it no further.
   */
  lemma {:induction false} GreedyWitness<T>(m: Matcher<T>, s: Match<T>, k: nat)
    returns (j: nat)
    ensures j <= k
    ensures ApplyTimes(m, s, j) == Some(Greedy(m, s, k))
    ensures j < k ==> Stops(m, Greedy(m, s, k))
    decreases k
  {
    if k == 0 {
      j := 0;
    } else {
      match TestOne(m, s)
      case None =>
        j := 0;
      case Some(t) =>
        if t == s {
          j := 0;
        } else {
          var j' := GreedyWitness(m, t, k - 1);
          j := j' + 1;
        }
    }
  }

  /**
   * A successful `repeat(m, minN, maxN)` is `m` applied `j` times in a row,
   * where `j` is at least `minN`, at most `minN` plus the number of optional
   * tries (`maxN - minN`, or the number of items left after the mandatory
   * phase when `maxN` is None), and falls short of that only where `m` fails
   * or returns the state unchanged.
   */
  lemma RepeatedWitness<T>(m: Matcher<T>, minN: int, maxN: Option<int>, s: Match<T>)
    returns (j: nat)
    requires TestOne(Rep(m, minN, maxN), s).Some?
    ensures ApplyTimes(m, s, Count(minN)).Some?
    ensures ApplyTimes(m, s, j) == TestOne(Rep(m, minN, maxN), s)
    ensures var t := ApplyTimes(m, s, Count(minN)).value;
            Count(minN) <= j <= Count(minN) + GreedyBound(minN, maxN, t) &&
            (j < Count(minN) + GreedyBound(minN, maxN, t) ==>
               Stops(m, TestOne(Rep(m, minN, maxN), s).value))
  {
    var t := ApplyTimes(m, s, Count(minN)).value;
    var g := GreedyWitness(m, t, GreedyBound(minN, maxN, t));
    ApplyTimesAdd(m, s, Count(minN), g);
    j := Count(minN) + g;
  }

  /**
   * Once `m` hands back the state it was given, applying it again and again
   * keeps that state. So stopping at an equal state, as this model does,
   * ends where the source's identity test would end for a pure step
   * function that builds an equal but new state.
   */
  lemma {:induction false} FixpointIsStable<T>(m: Matcher<T>, s: Match<T>, k: nat)
    requires TestOne(m, s) == Some(s)
    ensures ApplyTimes(m, s, k) == Some(s)
    ensures Greedy(m, s, k) == s
    decreases k
  {
    if k > 0 {
      FixpointIsStable(m, s, k - 1);
    }
  }
}
