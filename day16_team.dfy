/** Day 16, the two parts: the valves worth visiting, the best total alone
    in 30 minutes, and, for 26 minutes with an elephant, the best total of
    every set of valves one searcher can open, paired off with a disjoint
    set for the other. */
module Day16Team {
  import opened Wrappers
  import opened Day16Paths
  import opened Day16Search

  const Minutes: int := 30
  const MinutesWithElephant: int := 26

  // ---------------------------------------------------------------------
  // The table of vent sets

  /** The vent set a state has opened: the mask bits no longer closed. */
  function Key(target: set<nat>, s: State): (k: set<nat>)
    ensures forall b :: b in k <==> b in target && b !in s.remaining
  {
    target - s.remaining
  }

  /** The `entry(..).and_modify(max).or_insert(total)` update. */
  function Record(options: map<set<nat>, int>, key: set<nat>, total: int): (r: map<set<nat>, int>)
    ensures r.Keys == options.Keys + {key}
    ensures r[key] == if key in options then Max(options[key], total) else total
    ensures forall k :: k in options && k != key ==> r[k] == options[k]
  {
    options[key := if key in options then Max(options[key], total) else total]
  }

  /** If `order` can be followed from `s`, the table holds at least its total
      under its vent set. */
  ghost predicate Recorded(target: set<nat>, rates: seq<int>, dist: seq<nat>, s: State,
                           options: map<set<nat>, int>, order: seq<nat>)
    requires Fits(rates, dist, s)
  {
    Run(rates, dist, s, order).Some? ==>
      var e := Run(rates, dist, s, order).value;
      Key(target, e) in options && options[Key(target, e)] >= e.total
  }

  /** Some order that can be followed from `s` opens the vent set `k` and
      releases `value`. */
  ghost predicate Witnessed(target: set<nat>, rates: seq<int>, dist: seq<nat>, s: State,
                            k: set<nat>, value: int)
    requires Fits(rates, dist, s)
  {
    exists order :: Run(rates, dist, s, order).Some? &&
      Key(target, Run(rates, dist, s, order).value) == k &&
      Run(rates, dist, s, order).value.total == value
  }

  /** No entry of the table went down or away. */
  ghost predicate Grows(before: map<set<nat>, int>, after: map<set<nat>, int>)
  {
    forall k :: k in before ==> k in after && after[k] >= before[k]
  }

  /** Every entry is unchanged or is the total of an order from `s`. */
  ghost predicate Explained(target: set<nat>, rates: seq<int>, dist: seq<nat>, s: State,
                            before: map<set<nat>, int>, after: map<set<nat>, int>)
    requires Fits(rates, dist, s)
  {
    forall k :: k in after ==>
      (k in before && after[k] == before[k]) || Witnessed(target, rates, dist, s, k, after[k])
  }

  /** build_vent_set_pressures: records the state's own vent set, then
      tries the closed valves from the highest bit down and recurses into
      each one that can still be opened in time. Afterwards every order
      that can be followed from the state has its total recorded under its
      vent set, no entry has gone down, and every changed entry is the
      total of such an order. */
  method BuildVentSetPressures(target: set<nat>, rates: seq<int>, dist: seq<nat>, v: nat, tick: int,
                               total: int, remaining: set<nat>, options: map<set<nat>, int>)
    returns (options': map<set<nat>, int>)
    requires Fits(rates, dist, State(v, tick, total, remaining))
    ensures Grows(options, options')
    ensures forall order :: Recorded(target, rates, dist, State(v, tick, total, remaining), options', order)
    ensures Explained(target, rates, dist, State(v, tick, total, remaining), options, options')
    decreases remaining
  {
    hide Grows, Explained, Recorded, Witnessed;
    var s := State(v, tick, total, remaining);
    var inProgress := remaining;
    options' := Record(options, target - remaining, total);
    RecordStart(target, rates, dist, s, options);
    LoopStart(target, rates, dist, s, options');
    ghost var k: nat := Width;
    while inProgress != {}
      invariant k <= Width
      invariant forall b :: b in inProgress <==> b in remaining && b < k
      invariant Grows(options, options') && Explained(target, rates, dist, s, options, options')
      invariant forall order :: (order == [] || order[0] >= k) ==>
        Recorded(target, rates, dist, s, options', order)
      decreases k
    {
      var next := HighestBit(inProgress, Width);
      inProgress := inProgress - {next};
      ghost var before := options';
      var newTick := NewTick(rates, dist, s, next);
      if newTick > 0 {
        var newTotal := total + newTick * rates[next];
        var newMask := remaining - {next};
        if remaining == {} {
          options' := Record(options', target - remaining, total);
        } else {
          assert State(next, newTick, newTotal, newMask) == OpenValve(rates, dist, s, next);
          options' := BuildVentSetPressures(target, rates, dist, next, newTick, newTotal, newMask, options');
        }
      }
      LoopStep(target, rates, dist, s, options, before, options', k, next);
      k := next;
    }
    LoopDone(target, rates, dist, s, options', k);
  }

  /** The first update records the state's own total under its vent set. */
  lemma RecordStart(target: set<nat>, rates: seq<int>, dist: seq<nat>, s: State, options: map<set<nat>, int>)
    requires Fits(rates, dist, s)
    ensures var options' := Record(options, Key(target, s), s.total);
      && Grows(options, options')
      && Explained(target, rates, dist, s, options, options')
      && Recorded(target, rates, dist, s, options', [])
  {
    assert Run(rates, dist, s, []) == Some(s);
  }

  /** Before the loop, no order starts with a valve at or above Width, so
      the empty order is all there is to record. */
  lemma LoopStart(target: set<nat>, rates: seq<int>, dist: seq<nat>, s: State, options: map<set<nat>, int>)
    requires Fits(rates, dist, s) && Recorded(target, rates, dist, s, options, [])
    ensures forall order :: (order == [] || order[0] >= Width) ==> Recorded(target, rates, dist, s, options, order)
  {
    forall order | order != [] && order[0] >= Width
      ensures Recorded(target, rates, dist, s, options, order)
    {
      assert Run(rates, dist, s, order) == None;
    }
  }

  /** An order starting with `b` is `b` followed by an order from the state
      that opening `b` leads to. */
  lemma RunFirst(rates: seq<int>, dist: seq<nat>, s: State, b: nat, order: seq<nat>)
    requires Fits(rates, dist, s) && b in s.remaining && NewTick(rates, dist, s, b) > 0
    ensures Run(rates, dist, s, [b] + order) == Run(rates, dist, OpenValve(rates, dist, s, b), order)
  {
    assert ([b] + order)[1..] == order;
  }

  /** One bit of the loop of build_vent_set_pressures: after trying valve
      `next`, the orders starting with it are recorded as well, and the
      table still only grows and is explained by orders from `s`. */
  lemma LoopStep(target: set<nat>, rates: seq<int>, dist: seq<nat>, s: State,
                 options: map<set<nat>, int>, cur: map<set<nat>, int>, after: map<set<nat>, int>,
                 k: nat, next: nat)
    requires Fits(rates, dist, s) && next < k && next in s.remaining
    requires forall b :: next < b < k ==> b !in s.remaining
    requires Grows(options, cur) && Explained(target, rates, dist, s, options, cur)
    requires forall order :: (order == [] || order[0] >= k) ==> Recorded(target, rates, dist, s, cur, order)
    requires NewTick(rates, dist, s, next) > 0 ==>
      var s' := OpenValve(rates, dist, s, next);
      && Grows(cur, after)
      && (forall order :: Recorded(target, rates, dist, s', after, order))
      && Explained(target, rates, dist, s', cur, after)
    requires NewTick(rates, dist, s, next) <= 0 ==> after == cur
    ensures Grows(options, after) && Explained(target, rates, dist, s, options, after)
    ensures forall order :: (order == [] || order[0] >= next) ==> Recorded(target, rates, dist, s, after, order)
  {
    if NewTick(rates, dist, s, next) > 0 {
      OpenExplained(target, rates, dist, s, next, options, cur, after);
      OpenRecorded(target, rates, dist, s, next, cur, after);
    } else {
      forall order | order == [] || order[0] >= next
        ensures Recorded(target, rates, dist, s, after, order)
      {
        if order == [] || order[0] != next {
          assert Recorded(target, rates, dist, s, cur, order);
        }
      }
    }
  }

  /** Entries added by the recursion into valve `next` are explained by
      orders starting with `next`. */
  lemma OpenExplained(target: set<nat>, rates: seq<int>, dist: seq<nat>, s: State, next: nat,
                      options: map<set<nat>, int>, cur: map<set<nat>, int>, after: map<set<nat>, int>)
    requires Fits(rates, dist, s) && next in s.remaining && NewTick(rates, dist, s, next) > 0
    requires Grows(options, cur) && Explained(target, rates, dist, s, options, cur)
    requires Grows(cur, after) && Explained(target, rates, dist, OpenValve(rates, dist, s, next), cur, after)
    ensures Grows(options, after) && Explained(target, rates, dist, s, options, after)
  {
    var s' := OpenValve(rates, dist, s, next);
    forall key | key in after
      ensures (key in options && after[key] == options[key]) || Witnessed(target, rates, dist, s, key, after[key])
    {
      if !(key in cur && after[key] == cur[key]) {
        var o :| Run(rates, dist, s', o).Some? &&
          Key(target, Run(rates, dist, s', o).value) == key &&
          Run(rates, dist, s', o).value.total == after[key];
        RunFirst(rates, dist, s, next, o);
      }
    }
  }

  /** After the recursion into valve `next`, the orders starting with
      `next` are recorded too. */
  lemma OpenRecorded(target: set<nat>, rates: seq<int>, dist: seq<nat>, s: State, next: nat,
                     cur: map<set<nat>, int>, after: map<set<nat>, int>)
    requires Fits(rates, dist, s) && next in s.remaining && NewTick(rates, dist, s, next) > 0
    requires forall order :: (order == [] || order[0] > next) ==> Recorded(target, rates, dist, s, cur, order)
    requires Grows(cur, after)
    requires forall order :: Recorded(target, rates, dist, OpenValve(rates, dist, s, next), after, order)
    ensures forall order :: (order == [] || order[0] >= next) ==> Recorded(target, rates, dist, s, after, order)
  {
    var s' := OpenValve(rates, dist, s, next);
    forall order | order == [] || order[0] >= next
      ensures Recorded(target, rates, dist, s, after, order)
    {
      if order != [] && order[0] == next {
        RunFirst(rates, dist, s, next, order[1..]);
        assert [next] + order[1..] == order;
        assert Recorded(target, rates, dist, s', after, order[1..]);
      } else {
        assert Recorded(target, rates, dist, s, cur, order);
      }
    }
  }

  /** With every closed valve tried, every order is recorded. */
  lemma LoopDone(target: set<nat>, rates: seq<int>, dist: seq<nat>, s: State, options: map<set<nat>, int>, k: nat)
    requires Fits(rates, dist, s)
    requires forall b :: b in s.remaining ==> b >= k
    requires forall order :: (order == [] || order[0] >= k) ==> Recorded(target, rates, dist, s, options, order)
    ensures forall order :: Recorded(target, rates, dist, s, options, order)
  {
    forall order
      ensures Recorded(target, rates, dist, s, options, order)
    {
      if order != [] && order[0] < k {
        assert Run(rates, dist, s, order) == None;
      }
    }
  }

  // ---------------------------------------------------------------------
  // Pairing vent sets off

  /** Two vent sets no valve of which is opened by both searchers. */
  predicate Apart(a: set<nat>, b: set<nat>)
  {
    a * b == {}
  }

  /** The table's entries collected in the order the table hands them out,
      which is not specified: each entry once. */
  method Entries(m: map<set<nat>, int>) returns (a: seq<(set<nat>, int)>)
    ensures forall i :: 0 <= i < |a| ==> a[i].0 in m && a[i].1 == m[a[i].0]
    ensures forall k :: k in m ==> exists i :: 0 <= i < |a| && a[i].0 == k
    ensures forall i, j :: 0 <= i < j < |a| ==> a[i].0 != a[j].0
  {
    a := [];
    var todo := m.Keys;
    while todo != {}
      invariant todo <= m.Keys
      invariant forall i :: 0 <= i < |a| ==> a[i].0 in m && a[i].1 == m[a[i].0] && a[i].0 !in todo
      invariant forall k :: k in m ==> k in todo || exists i :: 0 <= i < |a| && a[i].0 == k
      invariant forall i, j :: 0 <= i < j < |a| ==> a[i].0 != a[j].0
      decreases todo
    {
      var k :| k in todo;
      ghost var before := a;
      a := a + [(k, m[k])];
      todo := todo - {k};
      assert a[|before|].0 == k;
      assert forall i :: 0 <= i < |before| ==> a[i] == before[i];
    }
  }

  /** The best pair among the entries whose first member is one of the
      first `n`: zero, or the largest sum of two entries whose vent sets are
      apart. */
  ghost predicate BestPair(a: seq<(set<nat>, int)>, n: nat, r: int)
  {
    && r >= 0
    && (forall i, j :: 0 <= i < n && i < j < |a| && Apart(a[i].0, a[j].0) ==> r >= a[i].1 + a[j].1)
    && (r == 0 || exists i, j :: 0 <= i < j < |a| && Apart(a[i].0, a[j].0) && r == a[i].1 + a[j].1)
  }

  /** Pairing entry `n` with the later ones extends the best pair by one
      first member. */
  lemma BestPairStep(a: seq<(set<nat>, int)>, n: nat, r: int, r': int)
    requires n < |a| && BestPair(a, n, r) && r' >= r
    requires forall j :: n < j < |a| && Apart(a[n].0, a[j].0) ==> r' >= a[n].1 + a[j].1
    requires r' == r || exists j :: n < j < |a| && Apart(a[n].0, a[j].0) && r' == a[n].1 + a[j].1
    ensures BestPair(a, n + 1, r')
  {
  }

  /** The inner loop of fastest_team_effort: pairs entry `i` with every
      later entry. */
  method PairWithLater(a: seq<(set<nat>, int)>, i: nat, max: int) returns (max': int)
    requires i < |a|
    ensures max' >= max
    ensures forall j :: i < j < |a| && Apart(a[i].0, a[j].0) ==> max' >= a[i].1 + a[j].1
    ensures max' == max || exists j :: i < j < |a| && Apart(a[i].0, a[j].0) && max' == a[i].1 + a[j].1
  {
    max' := max;
    for j := i + 1 to |a|
      invariant max' >= max
      invariant forall j' :: i < j' < j && Apart(a[i].0, a[j'].0) ==> max' >= a[i].1 + a[j'].1
      invariant max' == max || exists j' :: i < j' < j && Apart(a[i].0, a[j'].0) && max' == a[i].1 + a[j'].1
    {
      if a[i].0 * a[j].0 == {} {
        max' := Max(max', a[i].1 + a[j].1);
      }
    }
  }

  /** fastest_team_effort: the largest total of two distinct vent sets that
      are apart, or 0 when there is none larger. */
  method FastestTeamEffort(m: map<set<nat>, int>) returns (r: int)
    ensures r >= 0
    ensures forall k1, k2 :: k1 in m && k2 in m && k1 != k2 && Apart(k1, k2) ==> r >= m[k1] + m[k2]
    ensures r == 0 || exists k1, k2 :: k1 in m && k2 in m && k1 != k2 && Apart(k1, k2) && r == m[k1] + m[k2]
  {
    var a := Entries(m);
    r := 0;
    for i := 0 to |a|
      invariant BestPair(a, i, r)
    {
      var r' := PairWithLater(a, i, r);
      BestPairStep(a, i, r, r');
      r := r';
    }
    FromEntries(m, a, r);
  }

  /** The best pair among the entries is the best pair of the table. */
  lemma FromEntries(m: map<set<nat>, int>, a: seq<(set<nat>, int)>, r: int)
    requires forall i :: 0 <= i < |a| ==> a[i].0 in m && a[i].1 == m[a[i].0]
    requires forall k :: k in m ==> exists i :: 0 <= i < |a| && a[i].0 == k
    requires forall i, j :: 0 <= i < j < |a| ==> a[i].0 != a[j].0
    requires BestPair(a, |a|, r)
    ensures forall k1, k2 :: k1 in m && k2 in m && k1 != k2 && Apart(k1, k2) ==> r >= m[k1] + m[k2]
    ensures r == 0 || exists k1, k2 :: k1 in m && k2 in m && k1 != k2 && Apart(k1, k2) && r == m[k1] + m[k2]
  {
    forall k1, k2 | k1 in m && k2 in m && k1 != k2 && Apart(k1, k2)
      ensures r >= m[k1] + m[k2]
    {
      PairBound(m, a, r, k1, k2);
    }
    if r != 0 {
      var i, j :| 0 <= i < j < |a| && Apart(a[i].0, a[j].0) && r == a[i].1 + a[j].1;
      assert a[i].0 in m && a[j].0 in m && a[i].0 != a[j].0;
    }
  }

  /** One pair of the table is bounded by the best pair of its entries. */
  lemma PairBound(m: map<set<nat>, int>, a: seq<(set<nat>, int)>, r: int, k1: set<nat>, k2: set<nat>)
    requires forall i :: 0 <= i < |a| ==> a[i].0 in m && a[i].1 == m[a[i].0]
    requires forall k :: k in m ==> exists i :: 0 <= i < |a| && a[i].0 == k
    requires BestPair(a, |a|, r)
    requires k1 in m && k2 in m && k1 != k2 && Apart(k1, k2)
    ensures r >= m[k1] + m[k2]
  {
    var i1 :| 0 <= i1 < |a| && a[i1].0 == k1;
    var i2 :| 0 <= i2 < |a| && a[i2].0 == k2;
    if i1 < i2 {
      assert Apart(a[i1].0, a[i2].0);
    } else {
      assert Apart(a[i2].0, a[i1].0);
    }
  }

  // ---------------------------------------------------------------------
  // The two parts

  /** The valves worth visiting, in order: those with a flow, and the
      starting valve. */
  function Targets(rates: seq<int>, starter: nat): (r: seq<nat>)
    ensures forall i: nat :: i in r <==> i < |rates| && (rates[i] > 0 || i == starter)
    ensures forall k :: 0 <= k < |r| ==> r[k] < |rates|
    ensures forall i, j :: 0 <= i < j < |r| ==> r[i] < r[j]
  {
    if rates == [] then []
    else
      var last := |rates| - 1;
      var r := Targets(rates[..last], starter);
      assert forall i :: 0 <= i < last ==> rates[..last][i] == rates[i];
      if rates[last] > 0 || last == starter then r + [last] else r
  }

  /** The target mask: the valves with a flow. The program adds up the
      distinct powers `1 << i`, which sets exactly these bits. */
  function TargetMask(rates: seq<int>): (m: set<nat>)
    ensures forall i: nat :: i in m <==> i < |rates| && rates[i] > 0
  {
    set i: nat | i < |rates| && rates[i] > 0
  }

  /** Every two valves worth visiting are connected. */
  ghost predicate Connected(g: Graph, nodes: seq<nat>)
  {
    forall i, j :: 0 <= i < j < |nodes| ==> Reachable(g, nodes[i], nodes[j])
  }

  /** The distance array holds, both ways round, the distance from each
      valve worth visiting to every later one in the order of `nodes` (in
      an undirected graph that is also the distance back). */
  ghost predicate DistancesFor(g: Graph, nodes: seq<nat>, n: nat, dist: seq<nat>)
    requires forall i :: 0 <= i < |nodes| ==> nodes[i] < n
  {
    && |dist| == n * n
    && forall i, j :: 0 <= i < j < |nodes| ==>
      Index(n, nodes[i], nodes[j]) < |dist| && Index(n, nodes[j], nodes[i]) < |dist| &&
      dist[Index(n, nodes[i], nodes[j])] == dist[Index(n, nodes[j], nodes[i])] &&
      Joins(g, nodes[i], nodes[j], dist[Index(n, nodes[i], nodes[j])]) &&
      IsDistance(g, nodes[i], nodes[j], dist[Index(n, nodes[i], nodes[j])])
  }

  /** The distances between the valves worth visiting, flattened. */
  method DistanceArray(g: Graph, rates: seq<int>, starter: nat) returns (dist: seq<nat>)
    requires ValidGraph(g) && |g| == |rates| && starter < |rates|
    requires Connected(g, Targets(rates, starter))
    ensures DistancesFor(g, Targets(rates, starter), |rates|, dist)
  {
    var targets := Targets(rates, starter);
    var lengths := ShortestPathLengths(g, targets);
    dist := LookupArray(lengths, |rates|, 0);
    assert AllDifferent(targets);
    hide Connected, KeysFrom, Targets, ValidGraph, Joins, IsDistance, AllDifferent;
    forall i, j | 0 <= i < j < |targets|
      ensures Joins(g, targets[i], targets[j], dist[Index(|rates|, targets[i], targets[j])])
      ensures IsDistance(g, targets[i], targets[j], dist[Index(|rates|, targets[i], targets[j])])
    {
      var a, b := targets[i], targets[j];
      assert (a, b) in lengths;
      assert dist[Index(|rates|, a, b)] == lengths[(a, b)];
    }
  }

  /** part_1: the best total alone in 30 minutes from the starting valve,
      with every valve with a flow closed. */
  method Part1(g: Graph, rates: seq<int>, starter: nat) returns (r: int, ghost dist: seq<nat>)
    requires ValidGraph(g) && |g| == |rates| && starter < |rates|
    requires forall i :: 0 <= i < |rates| && rates[i] > 0 ==> i < Width
    requires Connected(g, Targets(rates, starter))
    ensures DistancesFor(g, Targets(rates, starter), |rates|, dist)
    ensures r == Best(rates, dist, State(starter, Minutes, 0, TargetMask(rates)))
  {
    var d := DistanceArray(g, rates, starter);
    var start := State(starter, Minutes, 0, TargetMask(rates));
    r := BiggestVentPressure(rates, d, starter, Minutes, 0, TargetMask(rates), 0);
    BestAboveBounds(rates, d, start, 0, 0);
    dist := d;
  }

  /** part_2: every order one searcher can follow in 26 minutes has its
      total recorded under its vent set, every entry is such a total, and
      the answer is the best sum of two distinct vent sets that are apart. */
  method Part2(g: Graph, rates: seq<int>, starter: nat)
    returns (r: int, ghost dist: seq<nat>, ghost options: map<set<nat>, int>)
    requires ValidGraph(g) && |g| == |rates| && starter < |rates|
    requires forall i :: 0 <= i < |rates| && rates[i] > 0 ==> i < Width
    requires Connected(g, Targets(rates, starter))
    ensures DistancesFor(g, Targets(rates, starter), |rates|, dist)
    ensures var start := State(starter, MinutesWithElephant, 0, TargetMask(rates));
      && (forall order :: Recorded(TargetMask(rates), rates, dist, start, options, order))
      && (forall k :: k in options ==> Witnessed(TargetMask(rates), rates, dist, start, k, options[k]))
    ensures r >= 0
    ensures forall k1, k2 :: k1 in options && k2 in options && k1 != k2 && Apart(k1, k2) ==>
      r >= options[k1] + options[k2]
    ensures r == 0 || exists k1, k2 :: (k1 in options && k2 in options && k1 != k2 && Apart(k1, k2) &&
      r == options[k1] + options[k2])
  {
    var d := DistanceArray(g, rates, starter);
    var mask := TargetMask(rates);
    var table := BuildVentSetPressures(mask, rates, d, starter, MinutesWithElephant, 0, mask, map[]);
    r := FastestTeamEffort(table);
    dist, options := d, table;
  }
}
