/** Day 16, first half: distances in the tunnel network. Valves are numbered
    0..n-1 and the network is a list of neighbour lists. A breadth-first
    search over whole paths finds a path between two valves; the lengths of
    those paths between every two valves of interest go into a symmetric
    table, which is then flattened into an `n*n` lookup array. */
module Day16Paths {
  import opened Wrappers
  import opened SetSums

  /** Neighbour lists: `g[u]` lists the valves a tunnel leads to from `u`. */
  type Graph = seq<seq<nat>>

  /** Every neighbour is a valve of the network. */
  ghost predicate ValidGraph(g: Graph)
  {
    forall u, k :: 0 <= u < |g| && 0 <= k < |g[u]| ==> g[u][k] < |g|
  }

  predicate Distinct(p: seq<nat>)
  {
    forall i, j :: 0 <= i < j < |p| ==> p[i] != p[j]
  }

  /** A nonempty sequence of valves, each reached from the one before. */
  predicate IsWalk(g: Graph, p: seq<nat>)
  {
    && |p| >= 1
    && (forall i :: 0 <= i < |p| ==> p[i] < |g|)
    && (forall i :: 0 <= i < |p| - 1 ==> p[i + 1] in g[p[i]])
  }

  /** A walk that visits no valve twice. */
  predicate IsPath(g: Graph, p: seq<nat>)
  {
    IsWalk(g, p) && Distinct(p)
  }

  /** Some path of at least one step leads from `a` to `b`. */
  ghost predicate Reachable(g: Graph, a: nat, b: nat)
  {
    exists p :: IsPath(g, p) && |p| >= 2 && p[0] == a && p[|p| - 1] == b
  }

  /** No walk from `a` to `b` has fewer than `n` valves. */
  ghost predicate NoShorterWalk(g: Graph, a: nat, b: nat, n: nat)
  {
    forall p :: IsWalk(g, p) && p[0] == a && p[|p| - 1] == b ==> n <= |p|
  }

  /** `len` is the distance from `a` to `b`: some walk takes `len` steps and
      none takes fewer. */
  ghost predicate IsDistance(g: Graph, a: nat, b: nat, len: nat)
  {
    && (exists p :: IsWalk(g, p) && |p| == len + 1 && p[0] == a && p[|p| - 1] == b)
    && NoShorterWalk(g, a, b, len + 1)
  }

  /** `len` is the distance between `a` and `b` in one direction or the
      other. */
  ghost predicate Measures(g: Graph, a: nat, b: nat, len: nat)
  {
    IsDistance(g, a, b, len) || IsDistance(g, b, a, len)
  }

  /** Every tunnel can be walked both ways, as in the puzzle's scans. */
  ghost predicate Undirected(g: Graph)
  {
    forall u, k :: 0 <= u < |g| && 0 <= k < |g[u]| ==> g[u][k] < |g| && u in g[g[u][k]]
  }

  /** The valves of a walk in the opposite order. */
  function Backwards(p: seq<nat>): (r: seq<nat>)
    ensures |r| == |p| && forall i :: 0 <= i < |p| ==> r[i] == p[|p| - 1 - i]
  {
    if p == [] then [] else Backwards(p[1..]) + [p[0]]
  }

  /** In an undirected graph a walk read backwards is a walk. */
  lemma BackwardsWalk(g: Graph, p: seq<nat>)
    requires Undirected(g) && IsWalk(g, p)
    ensures IsWalk(g, Backwards(p))
  {
    var r := Backwards(p);
    forall i | 0 <= i < |r| - 1
      ensures r[i + 1] in g[r[i]]
    {
      var k :| 0 <= k < |g[p[|p| - 2 - i]]| && g[p[|p| - 2 - i]][k] == p[|p| - 1 - i];
    }
  }

  /** In an undirected graph the distance is the same both ways. */
  lemma UndirectedDistance(g: Graph, a: nat, b: nat, len: nat)
    requires Undirected(g) && IsDistance(g, a, b, len)
    ensures IsDistance(g, b, a, len)
  {
    var p :| IsWalk(g, p) && |p| == len + 1 && p[0] == a && p[|p| - 1] == b;
    BackwardsWalk(g, p);
    assert Backwards(p)[0] == b;
    forall q | IsWalk(g, q) && q[0] == b && q[|q| - 1] == a
      ensures len + 1 <= |q|
    {
      BackwardsWalk(g, q);
      assert Backwards(q)[0] == a;
    }
  }

  /** In an undirected graph a distance one way or the other is the
      distance from `a` to `b`. */
  lemma MeasuresUndirected(g: Graph, a: nat, b: nat, len: nat)
    requires Undirected(g) && Measures(g, a, b, len)
    ensures IsDistance(g, a, b, len) && IsDistance(g, b, a, len)
  {
    if IsDistance(g, a, b, len) {
      UndirectedDistance(g, a, b, len);
    } else {
      UndirectedDistance(g, b, a, len);
    }
  }

  /** Cutting the loops out of a walk leaves a path between the same two
      valves that is no longer. */
  lemma {:induction false} Shortcut(g: Graph, p: seq<nat>) returns (q: seq<nat>)
    requires IsWalk(g, p)
    ensures IsPath(g, q) && q[0] == p[0] && q[|q| - 1] == p[|p| - 1] && |q| <= |p|
    decreases |p|
  {
    if Distinct(p) {
      q := p;
    } else {
      var i, j :| 0 <= i < j < |p| && p[i] == p[j];
      var p' := p[..i] + p[j..];
      assert |p'| == |p| - (j - i);
      forall k | 0 <= k < |p'| - 1
        ensures p'[k + 1] in g[p'[k]]
      {
        if k < i - 1 {
          assert p'[k] == p[k] && p'[k + 1] == p[k + 1];
        } else if k == i - 1 {
          assert p'[k] == p[i - 1] && p'[k + 1] == p[j] == p[i];
        } else {
          assert p'[k] == p[k - i + j] && p'[k + 1] == p[k + 1 - i + j];
        }
      }
      assert p'[0] == p[0] by {
        if i == 0 { assert p'[0] == p[j]; }
      }
      assert p'[|p'| - 1] == p[|p| - 1];
      q := Shortcut(g, p');
    }
  }

  // ---------------------------------------------------------------------
  // The search

  /** A path the search may hold in its queue: a path from `start` that,
      unless `start` is the target, does not reach the target. */
  predicate Queued(g: Graph, start: nat, target: nat, p: seq<nat>)
  {
    IsPath(g, p) && p[0] == start && (start != target ==> target !in p)
  }

  /** A path from `start` that avoids the target: every such path must be
      looked at before the search may give up. */
  predicate Open(g: Graph, start: nat, target: nat, w: seq<nat>)
  {
    IsPath(g, w) && w[0] == start && target !in w
  }

  /** A path the search has taken out of the queue: the target is not next
      to its last valve. */
  predicate Expanded(g: Graph, target: nat, p: seq<nat>)
  {
    |p| >= 1 && p[|p| - 1] < |g| && target !in g[p[|p| - 1]]
  }

  /** `w` was looked at, or a queued path is a prefix of it. */
  ghost predicate Covered(queue: seq<seq<nat>>, popped: set<seq<nat>>, w: seq<nat>)
  {
    w in popped || exists i :: 0 <= i < |queue| && queue[i] <= w
  }

  /** While the path `path` is being extended by the neighbours `g[end][j..]`
      still to be tried, `w` is that path or extends it by one of them. */
  predicate Pending(g: Graph, path: seq<nat>, end: nat, j: nat, w: seq<nat>)
    requires end < |g| && j <= |g[end]|
  {
    path <= w && (w == path || (|w| > |path| && w[|path|] in g[end][j..]))
  }

  /** The queue of a breadth-first search: lengths never decrease from
      front to back and grow by at most one valve overall. */
  predicate Layered(queue: seq<seq<nat>>)
  {
    && (forall i, j :: 0 <= i < j < |queue| ==> |queue[i]| <= |queue[j]|)
    && (forall i :: 0 <= i < |queue| ==> |queue[i]| <= |queue[0]| + 1)
  }

  /** Every path of `queue` has `n` or `n + 1` valves, and lengths never
      decrease from front to back. */
  predicate Band(queue: seq<seq<nat>>, n: nat)
  {
    && (forall i, j :: 0 <= i < j < |queue| ==> |queue[i]| <= |queue[j]|)
    && (forall i :: 0 <= i < |queue| ==> n <= |queue[i]| <= n + 1)
  }

  /** The rest of a layered queue lies in the band of its front path. */
  lemma LayeredRest(path: seq<nat>, rest: seq<seq<nat>>)
    requires Layered([path] + rest)
    ensures Band(rest, |path|)
  {
    forall i | 0 <= i < |rest|
      ensures |path| <= |rest[i]| <= |path| + 1
    {
      assert rest[i] == ([path] + rest)[i + 1];
    }
    forall i, j | 0 <= i < j < |rest|
      ensures |rest[i]| <= |rest[j]|
    {
      assert rest[i] == ([path] + rest)[i + 1] && rest[j] == ([path] + rest)[j + 1];
    }
  }

  /** A queue in the band of the path just taken off is layered. */
  lemma BandLayered(queue: seq<seq<nat>>, n: nat)
    requires Band(queue, n)
    ensures Layered(queue)
  {
  }

  /** Pushing a path one valve longer keeps the band. */
  lemma BandPush(queue: seq<seq<nat>>, n: nat, p: seq<nat>)
    requires Band(queue, n) && |p| == n + 1
    ensures Band(queue + [p], n)
  {
    var q := queue + [p];
    forall i, j | 0 <= i < j < |q|
      ensures |q[i]| <= |q[j]|
    {
      if j < |queue| {
        assert q[i] == queue[i] && q[j] == queue[j];
      } else {
        assert q[i] == queue[i];
      }
    }
  }

  /** When the target is next to the front path of a layered queue, no walk
      from `start` reaches the target in fewer valves than that path plus
      the target: any shorter walk gives a shorter path, whose part before
      the target was looked at or is still queued with at least as many
      valves as the front path. */
  lemma FoundIsShortest(g: Graph, start: nat, target: nat, path: seq<nat>, rest: seq<seq<nat>>,
                        popped: set<seq<nat>>)
    requires start != target && Layered([path] + rest)
    requires forall p :: p in popped ==> Expanded(g, target, p)
    requires forall w :: Open(g, start, target, w) ==> Covered([path] + rest, popped, w)
    ensures NoShorterWalk(g, start, target, |path| + 1)
  {
    var queue := [path] + rest;
    forall p | IsWalk(g, p) && p[0] == start && p[|p| - 1] == target
      ensures |path| + 1 <= |p|
    {
      var q := Shortcut(g, p);
      assert |q| >= 2;
      var w := q[..|q| - 1];
      assert IsPath(g, w) && w[0] == start;
      assert Covered(queue, popped, w);
      assert q[|q| - 1] in g[q[|q| - 2]];
      assert w !in popped;
      var i :| 0 <= i < |queue| && queue[i] <= w;
      assert |queue[0]| <= |queue[i]|;
    }
  }

  /** The largest number of neighbours of any valve. */
  ghost function MaxDegree(g: Graph): (d: nat)
    ensures forall u :: 0 <= u < |g| ==> |g[u]| <= d
  {
    if g == [] then 0
    else
      var rest := MaxDegree(g[1..]);
      assert forall u :: 1 <= u < |g| ==> g[u] == g[1..][u - 1];
      if |g[0]| > rest then |g[0]| else rest
  }

  /** A bound on the number of queue entries a path of `len` valves can
      still give rise to: itself and up to `d` extensions of each, until
      paths have all `n` valves. */
  ghost function Weight(n: nat, d: nat, len: nat): (r: nat)
    ensures r >= 1
    decreases n - len
  {
    if len >= n then 1 else 1 + d * Weight(n, d, len + 1)
  }

  /** The termination measure of the search: the weights of the queue. */
  ghost function QueueWeight(n: nat, d: nat, queue: seq<seq<nat>>): nat
  {
    if queue == [] then 0 else Weight(n, d, |queue[0]|) + QueueWeight(n, d, queue[1..])
  }

  lemma {:induction false} QueueWeightAppend(n: nat, d: nat, queue: seq<seq<nat>>, p: seq<nat>)
    ensures QueueWeight(n, d, queue + [p]) == QueueWeight(n, d, queue) + Weight(n, d, |p|)
  {
    if queue != [] {
      assert (queue + [p])[1..] == queue[1..] + [p];
      QueueWeightAppend(n, d, queue[1..], p);
    }
  }

  lemma MulMonotone(a: nat, b: nat, c: nat)
    requires a <= b
    ensures a * c <= b * c
  {
  }

  /** A path of distinct valves of the network has at most `n` of them. */
  lemma PathLength(g: Graph, p: seq<nat>)
    requires IsPath(g, p)
    ensures |p| <= |g|
  {
    DistinctIndicesBound(p, |g|);
  }

  /** get_a_shortest_path: a breadth-first search over whole paths from
      `start`, extending the front path of the queue by each neighbour of
      its last valve not already on it, until a neighbour is the target.
      The result is a walk from `start` to `target` whose valves before the
      target are distinct; the search gives up only when no path reaches
      the target. */
  method GetAShortestPath(g: Graph, start: nat, target: nat) returns (r: Option<seq<nat>>)
    requires ValidGraph(g) && start < |g|
    ensures r.Some? ==> && IsWalk(g, r.value) && |r.value| >= 2
                        && r.value[0] == start && r.value[|r.value| - 1] == target
                        && Distinct(r.value[..|r.value| - 1])
    ensures r.Some? && start != target ==> IsPath(g, r.value)
    ensures r.Some? && start != target ==> NoShorterWalk(g, start, target, |r.value|)
    ensures r.None? ==> !Reachable(g, start, target)
  {
    ghost var d := MaxDegree(g);
    var queue: seq<seq<nat>> := [[start]];
    ghost var popped: set<seq<nat>> := {};
    assert forall w :: Open(g, start, target, w) ==> queue[0] <= w;
    assert forall w :: Open(g, start, target, w) ==> Covered(queue, popped, w);
    assert Layered(queue);
    hide Open, Covered, Pending, Band, Layered;
    while true
      invariant forall i :: 0 <= i < |queue| ==> Queued(g, start, target, queue[i])
      invariant forall p :: p in popped ==> Expanded(g, target, p)
      invariant forall w :: Open(g, start, target, w) ==> Covered(queue, popped, w)
      invariant Layered(queue)
      decreases QueueWeight(|g|, d, queue)
    {
      if queue == [] {
        GaveUp(g, start, target, popped);
        return None;
      }
      var path := queue[0];
      var rest := queue[1..];
      assert queue == [path] + rest;
      StartExtending(g, start, target, path, rest, popped);
      LayeredRest(path, rest);
      var found;
      queue, found := Extend(g, start, target, path, rest, popped);
      if found.Some? {
        FoundPath(g, start, target, path, rest, popped, found.value);
        return found;
      }
      BandLayered(queue, |path|);
      popped := popped + {path};
    }
  }

  /** The path the search returns on reaching the target is a shortest one
      with the shape get_a_shortest_path promises. */
  lemma FoundPath(g: Graph, start: nat, target: nat, path: seq<nat>, rest: seq<seq<nat>>,
                  popped: set<seq<nat>>, p: seq<nat>)
    requires ValidGraph(g) && Queued(g, start, target, path) && target in g[path[|path| - 1]]
    requires p == path + [target] && Layered([path] + rest)
    requires forall q :: q in popped ==> Expanded(g, target, q)
    requires forall w :: Open(g, start, target, w) ==> Covered([path] + rest, popped, w)
    ensures && IsWalk(g, p) && |p| >= 2 && p[0] == start && p[|p| - 1] == target
            && Distinct(p[..|p| - 1])
    ensures start != target ==> IsPath(g, p)
    ensures start != target ==> NoShorterWalk(g, start, target, |p|)
  {
    Arrives(g, start, target, path);
    if start != target {
      FoundIsShortest(g, start, target, path, rest, popped);
    }
  }

  /** The inner loop of get_a_shortest_path: each neighbour of the last
      valve of `path` is either the target, which ends the search, or is
      already on the path, or extends the path into a new queue entry. */
  method Extend(g: Graph, start: nat, target: nat, path: seq<nat>, queue: seq<seq<nat>>,
                ghost popped: set<seq<nat>>)
    returns (queue': seq<seq<nat>>, r: Option<seq<nat>>)
    requires ValidGraph(g) && Queued(g, start, target, path)
    requires forall i :: 0 <= i < |queue| ==> Queued(g, start, target, queue[i])
    requires forall w :: Open(g, start, target, w) ==>
      w in popped || Pending(g, path, path[|path| - 1], 0, w) || exists i :: 0 <= i < |queue| && queue[i] <= w
    requires Band(queue, |path|)
    ensures forall i :: 0 <= i < |queue'| ==> Queued(g, start, target, queue'[i])
    ensures Band(queue', |path|)
    ensures r.Some? ==> r.value == path + [target] && target in g[path[|path| - 1]]
    ensures r.None? ==> Expanded(g, target, path)
    ensures r.None? ==> forall w :: Open(g, start, target, w) ==> Covered(queue', popped + {path}, w)
    ensures r.None? ==> QueueWeight(|g|, MaxDegree(g), queue') <
                        QueueWeight(|g|, MaxDegree(g), [path] + queue)
  {
    ghost var d := MaxDegree(g);
    ghost var before := QueueWeight(|g|, d, [path] + queue);
    assert ([path] + queue)[1..] == queue;
    queue' := queue;
    var end := path[|path| - 1];
    ghost var pushes := 0;
    ghost var w1 := Weight(|g|, d, |path| + 1);
    assert before == QueueWeight(|g|, d, queue) + Weight(|g|, d, |path|);
    assert |path| < |g| ==> Weight(|g|, d, |path|) == 1 + d * w1;
    hide Open, Covered, Pending, Band, Queued, QueueWeight, Weight;
    for j := 0 to |g[end]|
      invariant forall i :: 0 <= i < |queue'| ==> Queued(g, start, target, queue'[i])
      invariant forall k :: 0 <= k < j ==> g[end][k] != target
      invariant forall w :: Open(g, start, target, w) ==>
        w in popped || Pending(g, path, end, j, w) || exists i :: 0 <= i < |queue'| && queue'[i] <= w
      invariant Band(queue', |path|)
      invariant pushes <= j && (pushes > 0 ==> |path| < |g|)
      invariant QueueWeight(|g|, d, queue') + Weight(|g|, d, |path|) <= before + pushes * w1
    {
      var next := g[end][j];
      if next == target {
        return queue', Some(path + [next]);
      }
      if next !in path {
        ghost var old_queue := queue';
        queue' := queue' + [path + [next]];
        BandPush(old_queue, |path|, path + [next]);
        QueueWeightAppend(|g|, d, old_queue, path + [next]);
        QueuedExtend(g, start, target, path, next);
        ExtendCovers(g, start, target, path, end, j, old_queue, popped);
        assert (pushes + 1) * w1 == pushes * w1 + w1;
        pushes := pushes + 1;
      } else {
        SkipCovers(g, start, target, path, end, j, queue', popped);
      }
    }
    r := None;
    MulMonotone(pushes, d, w1);
    NoneLeftPending(g, start, target, path, end, queue', popped);
  }

  /** A queued path goes on, as a queued path, by a neighbour of its last
      valve that is neither on it nor the target; so it was short of all
      the valves. */
  lemma QueuedExtend(g: Graph, start: nat, target: nat, path: seq<nat>, next: nat)
    requires ValidGraph(g) && Queued(g, start, target, path)
    requires next in g[path[|path| - 1]] && next !in path && next != target
    ensures Queued(g, start, target, path + [next]) && |path| < |g|
  {
    PathLength(g, path + [next]);
  }

  /** A queued path followed by the target, a neighbour of its last valve,
      is a walk from `start` to the target, distinct before the target. */
  lemma Arrives(g: Graph, start: nat, target: nat, path: seq<nat>)
    requires ValidGraph(g) && Queued(g, start, target, path) && target in g[path[|path| - 1]]
    ensures var p := path + [target];
      && IsWalk(g, p) && |p| >= 2 && p[0] == start && p[|p| - 1] == target
      && Distinct(p[..|p| - 1]) && (start != target ==> IsPath(g, p))
  {
    var p := path + [target];
    assert p[..|p| - 1] == path;
    var end := path[|path| - 1];
    assert target < |g| by {
      var k :| 0 <= k < |g[end]| && g[end][k] == target;
    }
  }

  /** Once every neighbour has been tried, no open path is pending any more. */
  lemma NoneLeftPending(g: Graph, start: nat, target: nat, path: seq<nat>, end: nat,
                        queue: seq<seq<nat>>, popped: set<seq<nat>>)
    requires end < |g|
    requires forall w :: Open(g, start, target, w) ==>
      w in popped || Pending(g, path, end, |g[end]|, w) || exists i :: 0 <= i < |queue| && queue[i] <= w
    ensures forall w :: Open(g, start, target, w) ==> Covered(queue, popped + {path}, w)
  {
  }

  /** Taking the front path off the queue: every open path it was a prefix
      of is now pending on it. */
  lemma StartExtending(g: Graph, start: nat, target: nat, path: seq<nat>, rest: seq<seq<nat>>, popped: set<seq<nat>>)
    requires Queued(g, start, target, path)
    requires forall w :: Open(g, start, target, w) ==> Covered([path] + rest, popped, w)
    ensures path[|path| - 1] < |g|
    ensures forall w :: Open(g, start, target, w) ==>
      w in popped || Pending(g, path, path[|path| - 1], 0, w) || exists i :: 0 <= i < |rest| && rest[i] <= w
  {
    var end := path[|path| - 1];
    forall w | Open(g, start, target, w) && w !in popped && !(exists i :: 0 <= i < |rest| && rest[i] <= w)
      ensures Pending(g, path, end, 0, w)
    {
      var i :| 0 <= i < |[path] + rest| && ([path] + rest)[i] <= w;
      assert i == 0 && path <= w;
      if w != path {
        assert w[|path|] in g[w[|path| - 1]];
        assert g[end][0..] == g[end];
      }
    }
  }

  /** Pushing `path + [next]` keeps every open path that was pending on
      `next` covered. */
  lemma ExtendCovers(g: Graph, start: nat, target: nat, path: seq<nat>, end: nat, j: nat,
                     queue: seq<seq<nat>>, popped: set<seq<nat>>)
    requires end < |g| && j < |g[end]|
    requires forall w :: Open(g, start, target, w) ==>
      w in popped || Pending(g, path, end, j, w) || exists i :: 0 <= i < |queue| && queue[i] <= w
    ensures forall w :: Open(g, start, target, w) ==>
      w in popped || Pending(g, path, end, j + 1, w) ||
      exists i :: 0 <= i < |queue + [path + [g[end][j]]]| && (queue + [path + [g[end][j]]])[i] <= w
  {
    var q' := queue + [path + [g[end][j]]];
    forall w | Open(g, start, target, w) && w !in popped && !Pending(g, path, end, j + 1, w)
      ensures exists i :: 0 <= i < |q'| && q'[i] <= w
    {
      if exists i :: 0 <= i < |queue| && queue[i] <= w {
        var i :| 0 <= i < |queue| && queue[i] <= w;
        assert q'[i] == queue[i];
      } else {
        assert Pending(g, path, end, j, w);
        assert g[end][j..] == [g[end][j]] + g[end][j + 1..];
        assert w[..|path| + 1] == path + [g[end][j]];
        assert q'[|queue|] <= w;
      }
    }
  }

  /** Skipping a neighbour already on the path loses no open path: an open
      path has distinct valves, so it cannot continue with that one. */
  lemma SkipCovers(g: Graph, start: nat, target: nat, path: seq<nat>, end: nat, j: nat,
                   queue: seq<seq<nat>>, popped: set<seq<nat>>)
    requires end < |g| && j < |g[end]| && g[end][j] in path
    requires forall w :: Open(g, start, target, w) ==>
      w in popped || Pending(g, path, end, j, w) || exists i :: 0 <= i < |queue| && queue[i] <= w
    ensures forall w :: Open(g, start, target, w) ==>
      w in popped || Pending(g, path, end, j + 1, w) || exists i :: 0 <= i < |queue| && queue[i] <= w
  {
    forall w | Open(g, start, target, w) && Pending(g, path, end, j, w)
      ensures Pending(g, path, end, j + 1, w)
    {
      assert g[end][j..] == [g[end][j]] + g[end][j + 1..];
    }
  }

  /** With the queue empty, every open path was looked at and none has the
      target next to its end, so no path reaches the target. */
  lemma GaveUp(g: Graph, start: nat, target: nat, popped: set<seq<nat>>)
    requires forall p :: p in popped ==> Expanded(g, target, p)
    requires forall w :: Open(g, start, target, w) ==> Covered([], popped, w)
    ensures !Reachable(g, start, target)
  {
    forall p | IsPath(g, p) && |p| >= 2 && p[0] == start
      ensures p[|p| - 1] != target
    {
      var w := p[..|p| - 1];
      assert IsPath(g, w) && w[0] == start;
      if target !in w {
        assert Covered([], popped, w);
        assert p[|p| - 1] in g[w[|w| - 1]];
      } else {
        var k :| 0 <= k < |w| && w[k] == target;
        assert p[k] == target;
      }
    }
  }

  // ---------------------------------------------------------------------
  // The distance table

  /** A walk of `len` steps joins `a` and `b`, in one direction or the
      other. */
  ghost predicate Joins(g: Graph, a: nat, b: nat, len: nat)
  {
    exists p :: IsWalk(g, p) && |p| == len + 1 &&
      ((p[0] == a && p[|p| - 1] == b) || (p[0] == b && p[|p| - 1] == a))
  }

  /** The table is symmetric, each entry is the length of a walk between
      its two valves, and between two different valves it is their
      distance one way or the other. */
  ghost predicate Symmetric(g: Graph, m: map<(nat, nat), nat>)
  {
    forall k :: k in m ==> && (k.1, k.0) in m && m[(k.1, k.0)] == m[k] && Joins(g, k.0, k.1, m[k])
                           && (k.0 != k.1 ==> Measures(g, k.0, k.1, m[k]))
  }

  /** No valve of interest is listed twice. */
  predicate AllDifferent(nodes: seq<nat>)
  {
    forall i, j :: 0 <= i < |nodes| && 0 <= j < |nodes| && nodes[i] == nodes[j] ==> i == j
  }

  /** Each entry from an earlier valve of interest to a later one is the
      distance in that direction. */
  ghost predicate Forward(g: Graph, nodes: seq<nat>, m: map<(nat, nat), nat>)
  {
    forall i, j :: 0 <= i < j < |nodes| && (nodes[i], nodes[j]) in m ==>
      IsDistance(g, nodes[i], nodes[j], m[(nodes[i], nodes[j])])
  }

  /** Every key of the table pairs two valves of interest. */
  predicate KeysFrom(nodes: seq<nat>, m: map<(nat, nat), nat>)
  {
    forall k :: k in m ==> k.0 in nodes && k.1 in nodes
  }

  /** shortest_path_lengths: for every two valves of interest, the number of
      steps of the path the search finds, stored both ways round; between
      two different valves that is their distance. The program unwraps the
      search, so every pair must be connected. */
  method ShortestPathLengths(g: Graph, nodes: seq<nat>) returns (m: map<(nat, nat), nat>)
    requires ValidGraph(g)
    requires forall i :: 0 <= i < |nodes| ==> nodes[i] < |g|
    requires forall i, j :: 0 <= i < j < |nodes| ==> Reachable(g, nodes[i], nodes[j])
    ensures forall i, j :: 0 <= i < j < |nodes| ==> (nodes[i], nodes[j]) in m && (nodes[j], nodes[i]) in m
    ensures forall i, j :: 0 <= i < j < |nodes| && nodes[i] != nodes[j] ==>
      Measures(g, nodes[i], nodes[j], m[(nodes[i], nodes[j])])
    ensures AllDifferent(nodes) ==>
      forall i, j :: 0 <= i < j < |nodes| ==> IsDistance(g, nodes[i], nodes[j], m[(nodes[i], nodes[j])])
    ensures Symmetric(g, m)
    ensures KeysFrom(nodes, m)
  {
    m := map[];
    assert Symmetric(g, m) && KeysFrom(nodes, m) && Forward(g, nodes, m);
    hide Symmetric, KeysFrom, Forward, AllDifferent, Reachable;
    for i := 0 to |nodes|
      invariant RowsDone(nodes, i, m)
      invariant Symmetric(g, m)
      invariant KeysFrom(nodes, m)
      invariant AllDifferent(nodes) ==> Forward(g, nodes, m)
    {
      ghost var before := m;
      m := AddRow(g, nodes, i, m);
      NextRowDone(nodes, i, before, m);
    }
  }

  /** Every pair whose first member is among the first `i` valves of
      interest is in the table, both ways round. */
  ghost predicate RowsDone(nodes: seq<nat>, i: nat, m: map<(nat, nat), nat>)
  {
    forall i', j' :: 0 <= i' < i && i' < j' < |nodes| ==> (nodes[i'], nodes[j']) in m && (nodes[j'], nodes[i']) in m
  }

  lemma NextRowDone(nodes: seq<nat>, i: nat, m: map<(nat, nat), nat>, m': map<(nat, nat), nat>)
    requires i < |nodes| && RowsDone(nodes, i, m) && m.Keys <= m'.Keys
    requires forall j :: i < j < |nodes| ==> (nodes[i], nodes[j]) in m' && (nodes[j], nodes[i]) in m'
    ensures RowsDone(nodes, i + 1, m')
  {
  }

  /** The inner loop of shortest_path_lengths: the pairs of `nodes[i]` with
      every later valve of interest. */
  method AddRow(g: Graph, nodes: seq<nat>, i: nat, m: map<(nat, nat), nat>) returns (m': map<(nat, nat), nat>)
    requires ValidGraph(g) && i < |nodes|
    requires forall i :: 0 <= i < |nodes| ==> nodes[i] < |g|
    requires forall j :: i < j < |nodes| ==> Reachable(g, nodes[i], nodes[j])
    requires Symmetric(g, m) && KeysFrom(nodes, m)
    requires AllDifferent(nodes) ==> Forward(g, nodes, m)
    ensures m.Keys <= m'.Keys
    ensures forall j :: i < j < |nodes| ==> (nodes[i], nodes[j]) in m' && (nodes[j], nodes[i]) in m'
    ensures Symmetric(g, m') && KeysFrom(nodes, m')
    ensures AllDifferent(nodes) ==> Forward(g, nodes, m')
  {
    m' := m;
    hide Symmetric, KeysFrom, Forward, AllDifferent, Reachable;
    for j := i + 1 to |nodes|
      invariant m.Keys <= m'.Keys
      invariant forall j' :: i < j' < j ==> (nodes[i], nodes[j']) in m' && (nodes[j'], nodes[i]) in m'
      invariant Symmetric(g, m') && KeysFrom(nodes, m')
      invariant AllDifferent(nodes) ==> Forward(g, nodes, m')
    {
      m' := AddPair(g, nodes, i, j, m');
    }
  }

  /** One step of the inner loop of shortest_path_lengths: the length of the
      path found from `nodes[i]` to `nodes[j]`, stored both ways round. */
  method AddPair(g: Graph, nodes: seq<nat>, i: nat, j: nat, m: map<(nat, nat), nat>) returns (m': map<(nat, nat), nat>)
    requires ValidGraph(g) && i < j < |nodes|
    requires nodes[i] < |g| && Reachable(g, nodes[i], nodes[j])
    requires Symmetric(g, m) && KeysFrom(nodes, m)
    requires AllDifferent(nodes) ==> Forward(g, nodes, m)
    ensures m.Keys <= m'.Keys && (nodes[i], nodes[j]) in m' && (nodes[j], nodes[i]) in m'
    ensures Symmetric(g, m') && KeysFrom(nodes, m')
    ensures AllDifferent(nodes) ==> Forward(g, nodes, m')
  {
    var start, end := nodes[i], nodes[j];
    var found := GetAShortestPath(g, start, end);
    hide IsWalk, Distinct, IsPath, Symmetric, KeysFrom, Joins, Forward, NoShorterWalk;
    assert found.Some?;
    var len := |found.value| - 1;
    StoreWalk(g, nodes, i, j, m, found.value);
    if AllDifferent(nodes) {
      ForwardAdd(g, nodes, i, j, m, found.value);
    }
    m' := m[(start, end) := len][(end, start) := len];
  }

  /** Storing the length of a walk from `nodes[i]` to `nodes[j]` both ways
      round keeps the table's invariants. */
  lemma StoreWalk(g: Graph, nodes: seq<nat>, i: nat, j: nat, m: map<(nat, nat), nat>, p: seq<nat>)
    requires i < j < |nodes| && Symmetric(g, m) && KeysFrom(nodes, m)
    requires IsWalk(g, p) && |p| >= 2 && p[0] == nodes[i] && p[|p| - 1] == nodes[j]
    requires nodes[i] != nodes[j] ==> NoShorterWalk(g, nodes[i], nodes[j], |p|)
    ensures var m' := m[(nodes[i], nodes[j]) := |p| - 1][(nodes[j], nodes[i]) := |p| - 1];
      Symmetric(g, m') && KeysFrom(nodes, m')
  {
    hide IsWalk, Symmetric, KeysFrom, Joins, NoShorterWalk;
    WalkJoins(g, p);
    if nodes[i] != nodes[j] {
      WalkMeasures(g, p);
    }
    SymmetricAdd(g, m, nodes[i], nodes[j], |p| - 1);
    KeysFromAdd(nodes, m, nodes[i], nodes[j], |p| - 1);
  }

  /** With every valve of interest listed once, storing a shortest walk's
      length both ways round keeps each entry from an earlier valve to a
      later one the distance that way: the backward key of the pair is
      never the forward key of another. */
  lemma ForwardAdd(g: Graph, nodes: seq<nat>, i: nat, j: nat, m: map<(nat, nat), nat>, p: seq<nat>)
    requires i < j < |nodes| && AllDifferent(nodes) && Forward(g, nodes, m)
    requires IsWalk(g, p) && |p| >= 2 && p[0] == nodes[i] && p[|p| - 1] == nodes[j]
    requires NoShorterWalk(g, nodes[i], nodes[j], |p|)
    ensures Forward(g, nodes, m[(nodes[i], nodes[j]) := |p| - 1][(nodes[j], nodes[i]) := |p| - 1])
  {
    var a, b := nodes[i], nodes[j];
    var m' := m[(a, b) := |p| - 1][(b, a) := |p| - 1];
    assert IsDistance(g, a, b, |p| - 1);
    forall i', j' | 0 <= i' < j' < |nodes| && (nodes[i'], nodes[j']) in m'
      ensures IsDistance(g, nodes[i'], nodes[j'], m'[(nodes[i'], nodes[j'])])
    {
      if nodes[i'] == b && nodes[j'] == a {
        assert false;
      }
    }
  }

  /** A walk joins its two ends by its number of steps. */
  lemma WalkJoins(g: Graph, p: seq<nat>)
    requires IsWalk(g, p)
    ensures Joins(g, p[0], p[|p| - 1], |p| - 1)
  {
  }

  /** A walk no walk between the same ends undercuts gives their distance. */
  lemma WalkMeasures(g: Graph, p: seq<nat>)
    requires IsWalk(g, p) && NoShorterWalk(g, p[0], p[|p| - 1], |p|)
    ensures Measures(g, p[0], p[|p| - 1], |p| - 1)
  {
  }

  /** Adding a pair of valves of interest keeps every key a pair of valves
      of interest. */
  lemma KeysFromAdd(nodes: seq<nat>, m: map<(nat, nat), nat>, a: nat, b: nat, len: nat)
    requires KeysFrom(nodes, m) && a in nodes && b in nodes
    ensures KeysFrom(nodes, m[(a, b) := len][(b, a) := len])
  {
  }

  /** Storing a walk's length both ways round keeps the table symmetric. */
  lemma SymmetricAdd(g: Graph, m: map<(nat, nat), nat>, a: nat, b: nat, len: nat)
    requires Symmetric(g, m) && Joins(g, a, b, len) && (a != b ==> Measures(g, a, b, len))
    ensures Symmetric(g, m[(a, b) := len][(b, a) := len])
  {
    var m' := m[(a, b) := len][(b, a) := len];
    assert Joins(g, b, a, len);
    assert a != b ==> Measures(g, b, a, len);
    forall k | k in m'
      ensures && (k.1, k.0) in m' && m'[(k.1, k.0)] == m'[k] && Joins(g, k.0, k.1, m'[k])
              && (k.0 != k.1 ==> Measures(g, k.0, k.1, m'[k]))
    {
      if k != (a, b) && k != (b, a) {
        assert (k.1, k.0) != (a, b) && (k.1, k.0) != (b, a);
      }
    }
  }

  // ---------------------------------------------------------------------
  // The lookup array

  /** The slot of the pair `(s, e)` in a flattened `size*size` table. */
  function Index(size: nat, s: nat, e: nat): nat
  {
    size * s + e
  }

  lemma IndexBounds(size: nat, s: nat, e: nat)
    requires s < size && e < size
    ensures Index(size, s, e) < size * size
  {
    MulMonotone(s + 1, size, size);
  }

  lemma AllIndexBounds(size: nat)
    ensures forall s, e :: 0 <= s < size && 0 <= e < size ==> Index(size, s, e) < size * size
  {
    forall s: nat, e: nat | s < size && e < size
      ensures Index(size, s, e) < size * size
    {
      IndexBounds(size, s, e);
    }
  }

  /** Distinct pairs have distinct slots. */
  lemma IndexInjective(size: nat, s: nat, e: nat, s': nat, e': nat)
    requires e < size && e' < size
    requires Index(size, s, e) == Index(size, s', e')
    ensures s == s' && e == e'
  {
    if s < s' {
      MulMonotone(s + 1, s', size);
    } else if s' < s {
      MulMonotone(s' + 1, s, size);
    }
  }

  /** Every slot is the slot of one pair. */
  lemma EverySlotIsAPair(size: nat, i: nat)
    requires i < size * size
    ensures i / size < size && i % size < size && Index(size, i / size, i % size) == i
  {
    if i / size >= size {
      MulMonotone(size, i / size, size);
    }
  }

  /** `r` is the flattened table of `m` with the pairs of `todo` still at
      `default`. */
  ghost predicate Table<T>(r: seq<T>, m: map<(nat, nat), T>, size: nat, default: T, todo: set<(nat, nat)>)
  {
    && |r| == size * size
    && forall s, e :: 0 <= s < size && 0 <= e < size ==>
      Index(size, s, e) < |r| &&
      r[Index(size, s, e)] == if (s, e) in m && (s, e) !in todo then m[(s, e)] else default
  }

  /** Writing one pair's value into its slot fills in that pair only. */
  lemma TableWrite<T>(r: seq<T>, m: map<(nat, nat), T>, size: nat, default: T, todo: set<(nat, nat)>, k: (nat, nat))
    requires Table(r, m, size, default, todo) && k in todo && k in m && k.0 < size && k.1 < size
    ensures Index(size, k.0, k.1) < |r|
    ensures Table(r[Index(size, k.0, k.1) := m[k]], m, size, default, todo - {k})
  {
    IndexBounds(size, k.0, k.1);
    var r' := r[Index(size, k.0, k.1) := m[k]];
    forall s, e | 0 <= s < size && 0 <= e < size
      ensures r'[Index(size, s, e)] == if (s, e) in m && (s, e) !in todo - {k} then m[(s, e)] else default
    {
      if (s, e) != k && Index(size, s, e) == Index(size, k.0, k.1) {
        IndexInjective(size, s, e, k.0, k.1);
      }
    }
  }

  /** lookup_array_from_pair_map: an array of `size*size` slots holding the
      table's value at the slot of each of its pairs and `default` in every
      other slot. */
  method LookupArray<T>(m: map<(nat, nat), T>, size: nat, default: T) returns (r: seq<T>)
    requires forall k :: k in m ==> k.0 < size && k.1 < size
    ensures |r| == size * size
    ensures forall s, e :: 0 <= s < size && 0 <= e < size ==>
      Index(size, s, e) < |r| && r[Index(size, s, e)] == if (s, e) in m then m[(s, e)] else default
  {
    var a := new T[size * size](_ => default);
    var todo := m.Keys;
    AllIndexBounds(size);
    while todo != {}
      invariant todo <= m.Keys
      invariant Table(a[..], m, size, default, todo)
      decreases todo
    {
      var k :| k in todo;
      TableWrite(a[..], m, size, default, todo, k);
      a[Index(size, k.0, k.1)] := m[k];
      todo := todo - {k};
    }
    r := a[..];
  }
}
