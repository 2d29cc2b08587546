/**
 * The `Match` record of objregex: a span `[start, end)` over an item list.
 * A `Match` is an immutable value; `Advance` builds a new one.
 *
 * `start` and `end` are unbounded integers, as in Python: predicates may move
 * `end` past the last item or backwards, so the views below follow Python's
 * own slicing and indexing rules (negative positions count from the back,
 * slice bounds are clamped).
 */
module MatchState {
  import opened Options

  /** Python's normalisation of one slice bound `i` against a length `n`. */
  function SliceBound(i: int, n: nat): (b: nat)
    ensures b <= n
    ensures 0 <= i <= n ==> b == i
    ensures n <= i ==> b == n
    ensures i + n <= 0 ==> b == 0
  {
    if i < 0 then (if i + n < 0 then 0 else i + n)
    else if i > n then n
    else i
  }

  /** Python's `s[a:b]` on a list. */
  function Slice<T>(s: seq<T>, a: int, b: int): (r: seq<T>)
    ensures |r| <= |s|
    ensures 0 <= a <= b <= |s| ==> r == s[a..b]
    ensures 0 <= a <= |s| <= b ==> r == s[a..]
    ensures |s| <= a ==> r == []
  {
    var lo, hi := SliceBound(a, |s|), SliceBound(b, |s|);
    if lo < hi then s[lo..hi] else []
  }

  /**
   * Python's `s[i]` on a list: a negative index counts from the back, and an
   * index outside `-|s| .. |s|-1` raises IndexError, given here as None.
   */
  function Index<T>(s: seq<T>, i: int): (r: Option<T>)
    ensures r.Some? <==> -|s| <= i < |s|
    ensures 0 <= i < |s| ==> r == Some(s[i])
    ensures -|s| <= i < 0 ==> r == Some(s[|s| + i])
  {
    if 0 <= i < |s| then Some(s[i])
    else if -|s| <= i < 0 then Some(s[|s| + i])
    else None
  }

  datatype Match<T> = Match(items: seq<T>, start: int, end: int)
  {
    /** `m[n]`: the n-th matched item. */
    function Item(n: int): (r: Option<T>)
      ensures 0 <= start <= end <= |items| && 0 <= n < end - start ==>
                r == Some(Matched()[n])
    {
      Index(items, start + n)
    }

    /**
     * True when items remain after the matched ones: the rest `items[end:]`
     * is non-empty, except that a negative `end` over no items still counts.
     */
    predicate HasNext()
      ensures 0 <= end || items != [] ==> (HasNext() <==> Slice(items, end, |items|) != [])
      ensures items == [] ==> (HasNext() <==> end < 0)
    {
      end < |items|
    }

    /**
     * The item after the matched ones; None stands for the NoMoreItems
     * exception (raised whenever `end >= |items|`).
     */
    function Next(): (r: Option<T>)
      ensures r.Some? ==> HasNext()
      ensures 0 <= end ==> (r.Some? <==> Rest() != [])
      ensures 0 <= end && r.Some? ==> r.value == Rest()[0]
    {
      if end >= |items| then None else Index(items, end)
    }

    /** The items after the matched ones. */
    function Rest(): (r: seq<T>)
      ensures 0 <= end <= |items| ==> r == items[end..]
      ensures !HasNext() ==> r == []
    {
      Slice(items, end, |items|)
    }

    /** The matched items, empty for a zero-width match. */
    function Matched(): (r: seq<T>)
      ensures 0 <= start <= end <= |items| ==> r == items[start..end]
      ensures 0 <= start <= |items| <= end ==> r == items[start..]
    {
      Slice(items, start, end)
    }

    /** A new match over the same items and from the same start, `n` items longer. */
    function Advance(n: int): (r: Match<T>)
      ensures r.items == items && r.start == start && r.end == end + n
    {
      Match(items, start, end + n)
    }
  }

  /**
   * Advancing by `n` moves exactly the first `n` remaining items from the
   * rest to the matched part.
   */
  lemma AdvanceMovesItems<T>(m: Match<T>, n: nat)
    requires 0 <= m.start <= m.end && m.end + n <= |m.items|
    ensures m.Advance(n).Matched() == m.Matched() + m.Rest()[..n]
    ensures m.Advance(n).Rest() == m.Rest()[n..]
  {
  }

  /** The matched items followed by the rest are all items from `start` on. */
  lemma MatchedThenRest<T>(m: Match<T>)
    requires 0 <= m.start <= m.end <= |m.items|
    ensures m.Matched() + m.Rest() == m.items[m.start..]
  {
  }
}
