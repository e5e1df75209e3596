/** Day 16, second half: the search for the most pressure one can release.
    A mask of valves of interest still closed is modelled as the set of its
    bit positions (each below 64). From a valve with `tick` minutes left,
    opening valve `b` costs the distance to it plus one minute, and the
    valve then releases its rate for every minute that remains. */
module Day16Search {
  import opened Wrappers
  import opened Day16Paths

  /** The masks are `u64`: bit positions 0..63. */
  const Width: nat := 64

  /** Where the search stands: the valve it is at, the minutes left, the
      pressure the valves opened so far release by the end, and the valves
      of interest still closed. */
  datatype State = State(v: nat, tick: int, total: int, remaining: set<nat>)

  /** The rates, an `n*n` distance array and the state agree: the current
      valve and every closed valve are among the `n`, and every closed
      valve has a bit in a `u64`. */
  predicate Fits(rates: seq<int>, dist: seq<nat>, s: State)
  {
    && |dist| == |rates| * |rates|
    && s.v < |rates|
    && forall b :: b in s.remaining ==> b < |rates| && b < Width
  }

  function Max(a: int, b: int): int
  {
    if a >= b then a else b
  }

  /** The distance the search reads for a move: nothing to stay where it
      is, the array's entry otherwise. */
  function Distance(rates: seq<int>, dist: seq<nat>, v: nat, b: nat): nat
    requires |dist| == |rates| * |rates| && v < |rates| && b < |rates|
  {
    if b == v then 0 else IndexBounds(|rates|, v, b); dist[Index(|rates|, v, b)]
  }

  /** The minutes left once valve `b` has been reached and opened. */
  function NewTick(rates: seq<int>, dist: seq<nat>, s: State, b: nat): int
    requires Fits(rates, dist, s) && b in s.remaining
  {
    s.tick - Distance(rates, dist, s.v, b) - 1
  }

  /** Moving to the closed valve `b` and opening it: the valve is no longer
      closed, and the total gains its rate for every minute left. */
  function OpenValve(rates: seq<int>, dist: seq<nat>, s: State, b: nat): (r: State)
    requires Fits(rates, dist, s) && b in s.remaining
    ensures Fits(rates, dist, r) && r.v == b && |r.remaining| == |s.remaining| - 1
    ensures r.total - s.total == r.tick * rates[b]
  {
    var t := NewTick(rates, dist, s, b);
    State(b, t, s.total + t * rates[b], s.remaining - {b})
  }

  /** Opening the valves of `order` one after the other, each while time is
      left; `None` if a valve is not closed or time runs out first. */
  function Run(rates: seq<int>, dist: seq<nat>, s: State, order: seq<nat>): Option<State>
    requires Fits(rates, dist, s)
    decreases order
  {
    if order == [] then Some(s)
    else if order[0] in s.remaining && NewTick(rates, dist, s, order[0]) > 0 then
      Run(rates, dist, OpenValve(rates, dist, s, order[0]), order[1..])
    else None
  }

  /** The most pressure reachable from `s`: its own total, or the best of
      opening any closed valve with time left and going on from there. */
  function Best(rates: seq<int>, dist: seq<nat>, s: State): int
    requires Fits(rates, dist, s)
    decreases s.remaining, 1, 0
  {
    BestAbove(rates, dist, s, 0)
  }

  /** The best of `s.total` and of opening a closed valve numbered `k` or
      more first. */
  function BestAbove(rates: seq<int>, dist: seq<nat>, s: State, k: nat): int
    requires Fits(rates, dist, s)
    decreases s.remaining, 0, Width - k
  {
    if k >= Width then s.total
    else
      var rest := BestAbove(rates, dist, s, k + 1);
      if k in s.remaining && NewTick(rates, dist, s, k) > 0 then
        Max(rest, Best(rates, dist, OpenValve(rates, dist, s, k)))
      else rest
  }

  /** `63 - leading_zeros`: the highest bit of a nonempty mask. */
  function HighestBit(mask: set<nat>, k: nat): (h: nat)
    requires mask != {} && forall b :: b in mask ==> b < k
    ensures h in mask && forall b :: b in mask ==> b <= h
    decreases k
  {
    assert k > 0 by {
      var b :| b in mask;
    }
    if k - 1 in mask then k - 1
    else HighestBit(mask, k - 1)
  }

  /** Bits that are not closed add nothing to the choice. */
  lemma {:induction false} SkipClosed(rates: seq<int>, dist: seq<nat>, s: State, lo: nat, hi: nat)
    requires Fits(rates, dist, s) && lo <= hi <= Width
    requires forall b :: lo <= b < hi ==> b !in s.remaining
    ensures BestAbove(rates, dist, s, lo) == BestAbove(rates, dist, s, hi)
    decreases hi - lo
  {
    if lo < hi {
      SkipClosed(rates, dist, s, lo + 1, hi);
    }
  }

  /** biggest_vent_pressure: tries the closed valves from the highest bit
      down, recursing into each one that can still be opened in time, and
      finally keeps the total of stopping here. `max` ends as the larger of
      its old value and the best total reachable from the state. */
  method BiggestVentPressure(rates: seq<int>, dist: seq<nat>, v: nat, tick: int, total: int,
                             remaining: set<nat>, max: int)
    returns (max': int)
    requires Fits(rates, dist, State(v, tick, total, remaining))
    ensures max' == Max(max, Best(rates, dist, State(v, tick, total, remaining)))
    decreases remaining
  {
    var s := State(v, tick, total, remaining);
    var inProgress := remaining;
    ghost var k: nat := Width;
    max' := max;
    while inProgress != {}
      invariant k <= Width
      invariant forall b :: b in inProgress <==> b in remaining && b < k
      invariant Max(max', total) == Max(max, BestAbove(rates, dist, s, k))
      decreases k
    {
      var next := HighestBit(inProgress, Width);
      inProgress := inProgress - {next};
      SkipClosed(rates, dist, s, next + 1, k);
      ghost var before := max';
      var newTick := NewTick(rates, dist, s, next);
      if newTick > 0 {
        var newTotal := total + newTick * rates[next];
        var newMask := remaining - {next};
        if remaining == {} {
          max' := Max(max', total);
        } else {
          assert State(next, newTick, newTotal, newMask) == OpenValve(rates, dist, s, next);
          max' := BiggestVentPressure(rates, dist, next, newTick, newTotal, newMask, max');
        }
      }
      NextBit(rates, dist, s, next, before, max', max);
      k := next;
    }
    SkipClosed(rates, dist, s, 0, k);
    max' := Max(max', total);
  }

  /** One bit of the loop of biggest_vent_pressure: trying valve `b` folds
      its choice into the running maximum. */
  lemma NextBit(rates: seq<int>, dist: seq<nat>, s: State, b: nat, before: int, after: int, max: int)
    requires Fits(rates, dist, s) && b < Width
    requires Max(before, s.total) == Max(max, BestAbove(rates, dist, s, b + 1))
    requires after == if b in s.remaining && NewTick(rates, dist, s, b) > 0
                      then Max(before, Best(rates, dist, OpenValve(rates, dist, s, b))) else before
    ensures Max(after, s.total) == Max(max, BestAbove(rates, dist, s, b))
  {
  }

  // ---------------------------------------------------------------------
  // What the best total means

  /** The choice from bit `k` up is at least the total of stopping and at
      least every move it may make. */
  lemma {:induction false} BestAboveBounds(rates: seq<int>, dist: seq<nat>, s: State, k: nat, b: nat)
    requires Fits(rates, dist, s)
    ensures BestAbove(rates, dist, s, k) >= s.total
    ensures b in s.remaining && k <= b && NewTick(rates, dist, s, b) > 0 ==>
      BestAbove(rates, dist, s, k) >= Best(rates, dist, OpenValve(rates, dist, s, b))
    decreases Width - k
  {
    if k < Width {
      BestAboveBounds(rates, dist, s, k + 1, b);
    }
  }

  /** The choice from bit `k` up is stopping here or one of its moves. */
  lemma {:induction false} BestAboveWitness(rates: seq<int>, dist: seq<nat>, s: State, k: nat)
    requires Fits(rates, dist, s)
    ensures BestAbove(rates, dist, s, k) == s.total ||
      exists b :: b in s.remaining && k <= b && NewTick(rates, dist, s, b) > 0 &&
        BestAbove(rates, dist, s, k) == Best(rates, dist, OpenValve(rates, dist, s, b))
    decreases Width - k
  {
    if k < Width {
      BestAboveWitness(rates, dist, s, k + 1);
    }
  }

  /** No order of opening valves releases more than the best total. */
  lemma {:induction false} BestIsAnUpperBound(rates: seq<int>, dist: seq<nat>, s: State, order: seq<nat>)
    requires Fits(rates, dist, s) && Run(rates, dist, s, order).Some?
    ensures Run(rates, dist, s, order).value.total <= Best(rates, dist, s)
    decreases order
  {
    BestAboveBounds(rates, dist, s, 0, if order == [] then 0 else order[0]);
    if order != [] {
      BestIsAnUpperBound(rates, dist, OpenValve(rates, dist, s, order[0]), order[1..]);
    }
  }

  /** Some order of opening valves releases exactly the best total. */
  lemma {:induction false} BestIsAchieved(rates: seq<int>, dist: seq<nat>, s: State)
    requires Fits(rates, dist, s)
    ensures exists order :: (Run(rates, dist, s, order).Some? &&
      Run(rates, dist, s, order).value.total == Best(rates, dist, s))
    decreases s.remaining
  {
    BestAboveWitness(rates, dist, s, 0);
    if Best(rates, dist, s) == s.total {
      assert Run(rates, dist, s, []) == Some(s);
    } else {
      var b :| b in s.remaining && NewTick(rates, dist, s, b) > 0 &&
        Best(rates, dist, s) == Best(rates, dist, OpenValve(rates, dist, s, b));
      var s' := OpenValve(rates, dist, s, b);
      BestIsAchieved(rates, dist, s');
      var order :| Run(rates, dist, s', order).Some? &&
        Run(rates, dist, s', order).value.total == Best(rates, dist, s');
      assert ([b] + order)[1..] == order;
      assert Run(rates, dist, s, [b] + order) == Run(rates, dist, s', order);
    }
  }
}
