/** Day 24: blizzard basin. Blizzards move one cell a minute inside a walled
    valley, wrapping to the opposite side at the walls; an expedition moves
    or waits each minute and must never share a cell with a blizzard. The
    search keeps the set of cells the expedition could be in after each
    minute. */
module Day24 {
  import opened Wrappers
  import opened Arith

  type Position = (int, int)

  datatype Direction = N | S | E | W

  type Blizzard = (Position, Direction)

  /** The wall corners: the top-left and bottom-right cells of the walls. */
  type Bounds = (Position, Position)

  // ---------------------------------------------------------------------
  // Blizzards

  function Delta(d: Direction): (int, int)
  {
    match d
    case N => (0, -1)
    case S => (0, 1)
    case E => (1, 0)
    case W => (-1, 0)
  }

  /** One minute of one blizzard: a step in its direction, then, if the step
      reached a wall, a jump back by the interior's width or height. */
  function Tick(b: Blizzard, bounds: Bounds): (r: Blizzard)
    ensures r.1 == b.1
  {
    var (p, d) := b;
    var x, y := p.0 + Delta(d).0, p.1 + Delta(d).1;
    var width, height := bounds.1.0 - bounds.0.0 - 1, bounds.1.1 - bounds.0.1 - 1;
    if x <= bounds.0.0 then ((x + width, y), d)
    else if x >= bounds.1.0 then ((x - width, y), d)
    else if y <= bounds.0.1 then ((x, y + height), d)
    else if y >= bounds.1.1 then ((x, y - height), d)
    else ((x, y), d)
  }

  /** Strictly between the walls. */
  predicate Inside(p: Position, bounds: Bounds)
  {
    bounds.0.0 < p.0 < bounds.1.0 && bounds.0.1 < p.1 < bounds.1.1
  }

  /** A tick moves a blizzard by its step, corrected on at most one axis
      by a multiple of the interior's size. */
  lemma TickStep(b: Blizzard, bounds: Bounds)
    ensures var r := Tick(b, bounds);
      || r.0 == (b.0.0 + Delta(b.1).0, b.0.1 + Delta(b.1).1)
      || (r.0.1 == b.0.1 + Delta(b.1).1 && r.0.0 - (b.0.0 + Delta(b.1).0) == bounds.1.0 - bounds.0.0 - 1)
      || (r.0.1 == b.0.1 + Delta(b.1).1 && (b.0.0 + Delta(b.1).0) - r.0.0 == bounds.1.0 - bounds.0.0 - 1)
      || (r.0.0 == b.0.0 + Delta(b.1).0 && r.0.1 - (b.0.1 + Delta(b.1).1) == bounds.1.1 - bounds.0.1 - 1)
      || (r.0.0 == b.0.0 + Delta(b.1).0 && (b.0.1 + Delta(b.1).1) - r.0.1 == bounds.1.1 - bounds.0.1 - 1)
  {
  }

  /** The coordinate `c` steps on from `v`, counted around a circle of `n`
      cells starting at `lo`. */
  function Around(lo: int, n: int, v: int, c: int): int
    requires n > 0
  {
    lo + (v - lo + c) % n
  }

  lemma AroundStep(lo: int, n: int, v: int, c: int)
    requires n > 0 && lo <= v < lo + n && -1 <= c <= 1
    ensures v + c < lo ==> Around(lo, n, v, c) == v + c + n
    ensures v + c >= lo + n ==> Around(lo, n, v, c) == v + c - n
    ensures lo <= v + c < lo + n ==> Around(lo, n, v, c) == v + c
  {
    var k := v - lo + c;
    if k < 0 {
      ModUnique(k, n, -1, k + n);
    } else if k >= n {
      ModUnique(k, n, 1, k - n);
    } else {
      ModUnique(k, n, 0, k);
    }
  }

  /** A blizzard inside the valley stays inside, and each coordinate moves
      around the interior's circle of cells: the wrap is arithmetic modulo
      the interior's width and height. */
  lemma TickWraps(b: Blizzard, bounds: Bounds)
    requires Inside(b.0, bounds)
    ensures Inside(Tick(b, bounds).0, bounds)
    ensures Tick(b, bounds).0 == (
      Around(bounds.0.0 + 1, bounds.1.0 - bounds.0.0 - 1, b.0.0, Delta(b.1).0),
      Around(bounds.0.1 + 1, bounds.1.1 - bounds.0.1 - 1, b.0.1, Delta(b.1).1))
  {
    AroundStep(bounds.0.0 + 1, bounds.1.0 - bounds.0.0 - 1, b.0.0, Delta(b.1).0);
    AroundStep(bounds.0.1 + 1, bounds.1.1 - bounds.0.1 - 1, b.0.1, Delta(b.1).1);
  }

  /** Every blizzard after one minute, in the same order. */
  function TickAll(blizzards: seq<Blizzard>, bounds: Bounds): (r: seq<Blizzard>)
    ensures |r| == |blizzards|
    ensures forall i :: 0 <= i < |r| ==> r[i] == Tick(blizzards[i], bounds)
  {
    seq(|blizzards|, i requires 0 <= i < |blizzards| => Tick(blizzards[i], bounds))
  }

  /** The cells some blizzard is on. */
  function Occupied(blizzards: seq<Blizzard>): set<Position>
  {
    set i | 0 <= i < |blizzards| :: blizzards[i].0
  }

  /** tick_blizzards: the blizzards a minute later, and the cells they
      cover. */
  method TickBlizzards(blizzards: seq<Blizzard>, bounds: Bounds)
    returns (newBlizzards: seq<Blizzard>, occupied: set<Position>)
    ensures newBlizzards == TickAll(blizzards, bounds)
    ensures occupied == Occupied(newBlizzards)
  {
    newBlizzards := [];
    occupied := {};
    for i := 0 to |blizzards|
      invariant newBlizzards == TickAll(blizzards[..i], bounds)
      invariant occupied == Occupied(newBlizzards)
    {
      var b := Tick(blizzards[i], bounds);
      assert Occupied(newBlizzards + [b]) == Occupied(newBlizzards) + {b.0} by {
        var s := newBlizzards + [b];
        assert forall j :: 0 <= j < |newBlizzards| ==> s[j] == newBlizzards[j];
        assert s[|newBlizzards|] == b;
      }
      newBlizzards := newBlizzards + [b];
      occupied := occupied + {b.0};
    }
    assert blizzards[..|blizzards|] == blizzards;
  }

  /** The blizzards after `t` minutes. */
  function After(blizzards: seq<Blizzard>, bounds: Bounds, t: nat): seq<Blizzard>
  {
    if t == 0 then blizzards else TickAll(After(blizzards, bounds, t - 1), bounds)
  }

  /** Blizzards keep their number and their directions through any number
      of minutes. */
  lemma {:induction false} AfterKeeps(blizzards: seq<Blizzard>, bounds: Bounds, t: nat)
    ensures |After(blizzards, bounds, t)| == |blizzards|
    ensures forall i :: 0 <= i < |blizzards| ==> After(blizzards, bounds, t)[i].1 == blizzards[i].1
  {
    if t > 0 {
      AfterKeeps(blizzards, bounds, t - 1);
    }
  }

  /** Minutes add up: `t` minutes from the state after `s` minutes is the
      state after `s + t`. */
  lemma {:induction false} AfterAdd(blizzards: seq<Blizzard>, bounds: Bounds, s: nat, t: nat)
    ensures After(After(blizzards, bounds, s), bounds, t) == After(blizzards, bounds, s + t)
  {
    if t > 0 {
      AfterAdd(blizzards, bounds, s, t - 1);
    }
  }

  // ---------------------------------------------------------------------
  // The expedition

  /** Waiting, then north, south, west and east. */
  function Moves(): (ds: seq<(int, int)>)
    ensures |ds| == 5
  {
    [(0, 0), (0, -1), (0, 1), (-1, 0), (1, 0)]
  }

  function Plus(p: Position, d: (int, int)): Position
  {
    (p.0 + d.0, p.1 + d.1)
  }

  /** At most one orthogonal step apart. */
  predicate Adjacent(p: Position, q: Position)
  {
    Abs(q.0 - p.0) + Abs(q.1 - p.1) <= 1
  }

  /** The five moves reach exactly the adjacent cells. */
  lemma MovesAreAdjacent(p: Position, q: Position)
    ensures Adjacent(p, q) <==> exists k :: 0 <= k < 5 && q == Plus(p, Moves()[k])
  {
    if Adjacent(p, q) {
      var dx, dy := q.0 - p.0, q.1 - p.1;
      var k := if dx == 0 && dy == 0 then 0 else if dy == -1 then 1 else if dy == 1 then 2
               else if dx == -1 then 3 else 4;
      assert q == Plus(p, Moves()[k]);
    }
  }

  /** On a wall or beyond it. */
  predicate OffValley(q: Position, bounds: Bounds)
  {
    q.0 <= bounds.0.0 || q.0 >= bounds.1.0 || q.1 <= bounds.0.1 || q.1 >= bounds.1.1
  }

  /** A cell the search keeps as a place to be after a minute: not the end
      (reaching it ends the search), inside the valley or the start, and
      free of blizzards. */
  predicate Keep(q: Position, occupied: set<Position>, start: Position, end: Position, bounds: Bounds)
  {
    q != end && !(q != start && OffValley(q, bounds)) && q !in occupied
  }

  /** The cells kept after one more minute from the cells in `from`. */
  ghost function Successors(from: set<Position>, occupied: set<Position>, start: Position, end: Position,
                            bounds: Bounds): set<Position>
  {
    set p, k | p in from && 0 <= k < 5 && Keep(Plus(p, Moves()[k]), occupied, start, end, bounds)
      :: Plus(p, Moves()[k])
  }

  /** The cells the expedition can be in after `t` minutes without having
      reached the end. */
  ghost function Frontier(blizzards: seq<Blizzard>, start: Position, end: Position, bounds: Bounds, t: nat)
    : set<Position>
  {
    if t == 0 then {start}
    else Successors(Frontier(blizzards, start, end, bounds, t - 1),
                    Occupied(After(blizzards, bounds, t)), start, end, bounds)
  }

  /** Minute `t` is one at which the end is a candidate. */
  ghost predicate Arrives(blizzards: seq<Blizzard>, start: Position, end: Position, bounds: Bounds, t: nat)
  {
    && t >= 1
    && exists p, k :: (p in Frontier(blizzards, start, end, bounds, t - 1) && 0 <= k < 5
         && Plus(p, Moves()[k]) == end)
  }

  ghost predicate FirstArrival(blizzards: seq<Blizzard>, start: Position, end: Position, bounds: Bounds, t: nat)
  {
    Arrives(blizzards, start, end, bounds, t)
      && forall j :: 1 <= j < t ==> !Arrives(blizzards, start, end, bounds, j)
  }

  // ---------------------------------------------------------------------
  // Walks: an independent reading of the frontier

  /** A walk from the start: position `k` is where the expedition is after
      `k` minutes, each a move from the one before and a cell kept at that
      minute. */
  ghost predicate Walk(blizzards: seq<Blizzard>, start: Position, end: Position, bounds: Bounds,
                       w: seq<Position>)
    decreases |w|
  {
    if |w| <= 1 then w == [start]
    else
      var n := |w| - 1;
      && Walk(blizzards, start, end, bounds, w[..n])
      && Adjacent(w[n - 1], w[n])
      && Keep(w[n], Occupied(After(blizzards, bounds, n)), start, end, bounds)
  }

  lemma WalkStart(blizzards: seq<Blizzard>, start: Position, end: Position, bounds: Bounds)
    ensures Walk(blizzards, start, end, bounds, [start])
  {
  }

  /** A walk goes on by a move to a cell kept at the next minute. */
  lemma WalkExtend(blizzards: seq<Blizzard>, start: Position, end: Position, bounds: Bounds,
                   w: seq<Position>, q: Position)
    requires Walk(blizzards, start, end, bounds, w) && Adjacent(w[|w| - 1], q)
    requires Keep(q, Occupied(After(blizzards, bounds, |w|)), start, end, bounds)
    ensures Walk(blizzards, start, end, bounds, w + [q])
  {
    assert (w + [q])[..|w|] == w;
  }

  /** A cell of the frontier after a minute comes from a cell of the
      frontier before it. */
  lemma FrontierStep(blizzards: seq<Blizzard>, start: Position, end: Position, bounds: Bounds,
                     t: nat, q: Position)
    returns (p: Position)
    requires t > 0 && q in Frontier(blizzards, start, end, bounds, t)
    ensures p in Frontier(blizzards, start, end, bounds, t - 1) && Adjacent(p, q)
    ensures Keep(q, Occupied(After(blizzards, bounds, t)), start, end, bounds)
  {
    var k;
    p, k :| p in Frontier(blizzards, start, end, bounds, t - 1) && 0 <= k < 5
      && Keep(Plus(p, Moves()[k]), Occupied(After(blizzards, bounds, t)), start, end, bounds)
      && q == Plus(p, Moves()[k]);
    MovesAreAdjacent(p, q);
  }

  /** A cell of the frontier is where some walk ends. */
  lemma {:induction false} FrontierHasWalk(blizzards: seq<Blizzard>, start: Position, end: Position,
                                           bounds: Bounds, t: nat, q: Position)
    returns (w: seq<Position>)
    requires q in Frontier(blizzards, start, end, bounds, t)
    ensures Walk(blizzards, start, end, bounds, w) && |w| == t + 1 && w[t] == q
  {
    if t == 0 {
      WalkStart(blizzards, start, end, bounds);
      w := [start];
    } else {
      var p := FrontierStep(blizzards, start, end, bounds, t, q);
      var v := FrontierHasWalk(blizzards, start, end, bounds, t - 1, p);
      WalkExtend(blizzards, start, end, bounds, v, q);
      w := v + [q];
    }
  }

  /** A move to a cell kept at minute `t` from a cell of the frontier
      before it lands in the frontier. */
  lemma FrontierGrows(blizzards: seq<Blizzard>, start: Position, end: Position, bounds: Bounds,
                      t: nat, p: Position, q: Position)
    requires t > 0 && p in Frontier(blizzards, start, end, bounds, t - 1) && Adjacent(p, q)
    requires Keep(q, Occupied(After(blizzards, bounds, t)), start, end, bounds)
    ensures q in Frontier(blizzards, start, end, bounds, t)
  {
    MovesAreAdjacent(p, q);
    var k :| 0 <= k < 5 && q == Plus(p, Moves()[k]);
  }

  /** The last step of a walk of more than one position. */
  lemma WalkLast(blizzards: seq<Blizzard>, start: Position, end: Position, bounds: Bounds,
                 w: seq<Position>)
    requires Walk(blizzards, start, end, bounds, w) && |w| > 1
    ensures Walk(blizzards, start, end, bounds, w[..|w| - 1])
    ensures Adjacent(w[|w| - 2], w[|w| - 1])
    ensures Keep(w[|w| - 1], Occupied(After(blizzards, bounds, |w| - 1)), start, end, bounds)
  {
  }

  /** Where a walk ends is a cell of the frontier. */
  lemma {:induction false} WalkInFrontier(blizzards: seq<Blizzard>, start: Position, end: Position,
                                          bounds: Bounds, w: seq<Position>)
    requires Walk(blizzards, start, end, bounds, w)
    ensures |w| >= 1 && w[|w| - 1] in Frontier(blizzards, start, end, bounds, |w| - 1)
    decreases |w|
  {
    if |w| <= 1 {
      assert w == [start];
    } else {
      var t := |w| - 1;
      WalkLast(blizzards, start, end, bounds, w);
      hide Walk, Frontier, Keep, Adjacent;
      WalkInFrontier(blizzards, start, end, bounds, w[..t]);
      assert w[..t][t - 1] == w[t - 1];
      FrontierGrows(blizzards, start, end, bounds, t, w[t - 1], w[t]);
    }
  }

  /** The frontier after `t` minutes is exactly the set of ends of walks of
      `t` minutes. */
  lemma FrontierIsWalks(blizzards: seq<Blizzard>, start: Position, end: Position,
                        bounds: Bounds, t: nat, q: Position)
    ensures q in Frontier(blizzards, start, end, bounds, t) <==>
      exists w :: Walk(blizzards, start, end, bounds, w) && |w| == t + 1 && w[t] == q
  {
    hide Walk, Frontier;
    if q in Frontier(blizzards, start, end, bounds, t) {
      var w := FrontierHasWalk(blizzards, start, end, bounds, t, q);
    }
    if exists w :: Walk(blizzards, start, end, bounds, w) && |w| == t + 1 && w[t] == q {
      var w :| Walk(blizzards, start, end, bounds, w) && |w| == t + 1 && w[t] == q;
      WalkInFrontier(blizzards, start, end, bounds, w);
    }
  }

  /** The cell of the frontier the end is reached from. */
  lemma ArrivesFrom(blizzards: seq<Blizzard>, start: Position, end: Position, bounds: Bounds, t: nat)
    returns (p: Position)
    requires Arrives(blizzards, start, end, bounds, t)
    ensures p in Frontier(blizzards, start, end, bounds, t - 1) && Adjacent(p, end)
  {
    var k;
    p, k :| p in Frontier(blizzards, start, end, bounds, t - 1) && 0 <= k < 5 && Plus(p, Moves()[k]) == end;
    MovesAreAdjacent(p, end);
  }

  lemma ArrivesNext(blizzards: seq<Blizzard>, start: Position, end: Position, bounds: Bounds, t: nat,
                    p: Position)
    requires t >= 1 && p in Frontier(blizzards, start, end, bounds, t - 1) && Adjacent(p, end)
    ensures Arrives(blizzards, start, end, bounds, t)
  {
    MovesAreAdjacent(p, end);
  }

  /** Arriving at minute `t` means exactly: some walk of `t - 1` minutes
      ends next to the end, or on it. */
  lemma ArrivesIsWalk(blizzards: seq<Blizzard>, start: Position, end: Position, bounds: Bounds, t: nat)
    requires t >= 1
    ensures Arrives(blizzards, start, end, bounds, t) <==>
      exists w :: Walk(blizzards, start, end, bounds, w) && |w| == t && Adjacent(w[t - 1], end)
  {
    hide Walk, Frontier, Arrives, Adjacent;
    if Arrives(blizzards, start, end, bounds, t) {
      var p := ArrivesFrom(blizzards, start, end, bounds, t);
      var w := FrontierHasWalk(blizzards, start, end, bounds, t - 1, p);
    }
    if exists w :: Walk(blizzards, start, end, bounds, w) && |w| == t && Adjacent(w[t - 1], end) {
      var w :| Walk(blizzards, start, end, bounds, w) && |w| == t && Adjacent(w[t - 1], end);
      WalkInFrontier(blizzards, start, end, bounds, w);
      ArrivesNext(blizzards, start, end, bounds, t, w[t - 1]);
    }
  }

  // ---------------------------------------------------------------------
  // solve

  /** One cell of the frontier: its five candidates, in order. Finds the
      end, or adds the kept candidates to `next`. */
  method Expand(p: Position, occupied: set<Position>, start: Position, end: Position, bounds: Bounds,
                next: set<Position>)
    returns (found: bool, next': set<Position>)
    ensures found <==> exists k :: 0 <= k < 5 && Plus(p, Moves()[k]) == end
    ensures !found ==> next' == next + Successors({p}, occupied, start, end, bounds)
  {
    next' := next;
    var moves := Moves();
    for k := 0 to 5
      invariant forall j :: 0 <= j < k ==> Plus(p, moves[j]) != end
      invariant next' == next + Kept(p, k, occupied, start, end, bounds)
    {
      var possible := Plus(p, moves[k]);
      if possible == end {
        return true, next';
      } else if possible != start && OffValley(possible, bounds) {
        continue;
      } else if possible !in occupied {
        next' := next' + {possible};
      }
    }
    found := false;
    KeptAll(p, occupied, start, end, bounds);
  }

  /** The kept candidates among the first `k` moves from `p`. */
  ghost function Kept(p: Position, k: nat, occupied: set<Position>, start: Position, end: Position,
                      bounds: Bounds): set<Position>
    requires k <= 5
  {
    if k == 0 then {}
    else
      var q := Plus(p, Moves()[k - 1]);
      Kept(p, k - 1, occupied, start, end, bounds) + if Keep(q, occupied, start, end, bounds) then {q} else {}
  }

  lemma {:induction false} KeptIs(p: Position, k: nat, occupied: set<Position>, start: Position,
                                  end: Position, bounds: Bounds, q: Position)
    requires k <= 5
    ensures q in Kept(p, k, occupied, start, end, bounds) <==>
      exists j :: 0 <= j < k && q == Plus(p, Moves()[j]) && Keep(q, occupied, start, end, bounds)
  {
    if k > 0 {
      KeptIs(p, k - 1, occupied, start, end, bounds, q);
    }
  }

  lemma KeptAll(p: Position, occupied: set<Position>, start: Position, end: Position, bounds: Bounds)
    ensures Kept(p, 5, occupied, start, end, bounds) == Successors({p}, occupied, start, end, bounds)
  {
    forall q ensures q in Kept(p, 5, occupied, start, end, bounds) <==>
                     q in Successors({p}, occupied, start, end, bounds) {
      KeptIs(p, 5, occupied, start, end, bounds, q);
    }
  }

  lemma SuccessorsUnion(a: set<Position>, p: Position, occupied: set<Position>, start: Position,
                        end: Position, bounds: Bounds)
    ensures Successors(a + {p}, occupied, start, end, bounds) ==
      Successors(a, occupied, start, end, bounds) + Successors({p}, occupied, start, end, bounds)
  {
  }

  /** solve, with the unbounded minute loop cut off after `fuel` minutes:
      the first minute at which the end can be reached, with the blizzards
      of that minute. */
  method Solve(blizzards: seq<Blizzard>, start: Position, end: Position, bounds: Bounds, fuel: nat)
    returns (r: Option<(nat, seq<Blizzard>)>)
    ensures r.Some? ==> 1 <= r.value.0 <= fuel && FirstArrival(blizzards, start, end, bounds, r.value.0)
    ensures r.Some? ==> r.value.1 == After(blizzards, bounds, r.value.0)
    ensures r.None? ==> forall t :: 1 <= t <= fuel ==> !Arrives(blizzards, start, end, bounds, t)
  {
    var possiblePositions := {start};
    var current := blizzards;
    for i := 1 to fuel + 1
      invariant current == After(blizzards, bounds, i - 1)
      invariant possiblePositions == Frontier(blizzards, start, end, bounds, i - 1)
      invariant forall t :: 1 <= t < i ==> !Arrives(blizzards, start, end, bounds, t)
    {
      var newBlizzards, occupied := TickBlizzards(current, bounds);
      var newPositions := {};
      var todo := possiblePositions;
      while todo != {}
        invariant todo <= possiblePositions
        invariant newPositions == Successors(possiblePositions - todo, occupied, start, end, bounds)
        invariant forall p, k :: p in possiblePositions - todo && 0 <= k < 5 ==> Plus(p, Moves()[k]) != end
        decreases todo
      {
        var position :| position in todo;
        var found;
        found, newPositions := Expand(position, occupied, start, end, bounds, newPositions);
        if found {
          assert Arrives(blizzards, start, end, bounds, i);
          return Some((i, newBlizzards));
        }
        SuccessorsUnion(possiblePositions - todo, position, occupied, start, end, bounds);
        assert possiblePositions - (todo - {position}) == (possiblePositions - todo) + {position};
        todo := todo - {position};
      }
      assert possiblePositions - todo == possiblePositions;
      current := newBlizzards;
      possiblePositions := newPositions;
    }
    return None;
  }

  // ---------------------------------------------------------------------
  // The parts

  /** part_1: the first minute at which the end can be reached. */
  method Part1(blizzards: seq<Blizzard>, start: Position, end: Position, bounds: Bounds, fuel: nat)
    returns (r: Option<nat>)
    ensures r.Some? ==> FirstArrival(blizzards, start, end, bounds, r.value)
    ensures r.None? ==> forall t :: 1 <= t <= fuel ==> !Arrives(blizzards, start, end, bounds, t)
  {
    var leg := Solve(blizzards, start, end, bounds, fuel);
    if leg.None? {
      return None;
    }
    r := Some(leg.value.0);
  }

  /** Three legs in a row, each as quick as it can be: start to end, back,
      and to the end again, the blizzards carried over from leg to leg. */
  ghost predicate RoundTrip(blizzards: seq<Blizzard>, start: Position, end: Position, bounds: Bounds,
                            t1: nat, t2: nat, t3: nat)
  {
    && FirstArrival(blizzards, start, end, bounds, t1)
    && FirstArrival(After(blizzards, bounds, t1), end, start, bounds, t2)
    && FirstArrival(After(blizzards, bounds, t1 + t2), start, end, bounds, t3)
  }

  /** part_2: there, back to the start, and there again, each leg starting
      with the blizzards where the previous one left them; None only when no
      round trip has each leg within the fuel bound. */
  method Part2(blizzards: seq<Blizzard>, start: Position, end: Position, bounds: Bounds, fuel: nat)
    returns (r: Option<nat>)
    ensures r.Some? ==> exists t1: nat, t2: nat, t3: nat ::
      r.value == t1 + t2 + t3 && RoundTrip(blizzards, start, end, bounds, t1, t2, t3)
    ensures r.None? ==> forall t1: nat, t2: nat, t3: nat ::
      t1 <= fuel && t2 <= fuel && t3 <= fuel ==> !RoundTrip(blizzards, start, end, bounds, t1, t2, t3)
  {
    hide FirstArrival;
    var leg1 := Solve(blizzards, start, end, bounds, fuel);
    if leg1.None? {
      NoFirstLeg(blizzards, start, end, bounds, fuel);
      return None;
    }
    var (t1, b1) := leg1.value;
    var leg2 := Solve(b1, end, start, bounds, fuel);
    if leg2.None? {
      NoSecondLeg(blizzards, start, end, bounds, fuel, t1);
      return None;
    }
    var (t2, b2) := leg2.value;
    var leg3 := Solve(b2, start, end, bounds, fuel);
    AfterAdd(blizzards, bounds, t1, t2);
    if leg3.None? {
      NoThirdLeg(blizzards, start, end, bounds, fuel, t1, t2, b2);
      return None;
    }
    var (t3, _) := leg3.value;
    assert RoundTrip(blizzards, start, end, bounds, t1, t2, t3);
    r := Some(t1 + t2 + t3);
  }

  /** A leg has one first arrival. */
  lemma FirstArrivalUnique(blizzards: seq<Blizzard>, start: Position, end: Position, bounds: Bounds,
                           t: nat, u: nat)
    requires FirstArrival(blizzards, start, end, bounds, t)
    requires FirstArrival(blizzards, start, end, bounds, u)
    ensures t == u
  {
  }

  /** No leg arrives at its first minute 0. */
  lemma ArrivesLater(blizzards: seq<Blizzard>, start: Position, end: Position, bounds: Bounds, t: nat)
    requires Arrives(blizzards, start, end, bounds, t)
    ensures t >= 1
  {
  }

  /** With no arrival on the first leg within the bound, no round trip fits. */
  lemma NoFirstLeg(blizzards: seq<Blizzard>, start: Position, end: Position, bounds: Bounds, fuel: nat)
    requires forall t :: 1 <= t <= fuel ==> !Arrives(blizzards, start, end, bounds, t)
    ensures forall t1: nat, t2: nat, t3: nat ::
      t1 <= fuel && t2 <= fuel && t3 <= fuel ==> !RoundTrip(blizzards, start, end, bounds, t1, t2, t3)
  {
  }

  /** With the first leg's arrival at t1 and no arrival back within the
      bound, no round trip fits. */
  lemma NoSecondLeg(blizzards: seq<Blizzard>, start: Position, end: Position, bounds: Bounds, fuel: nat,
                    t1: nat)
    requires FirstArrival(blizzards, start, end, bounds, t1)
    requires forall t :: 1 <= t <= fuel ==> !Arrives(After(blizzards, bounds, t1), end, start, bounds, t)
    ensures forall u1: nat, u2: nat, u3: nat ::
      u1 <= fuel && u2 <= fuel && u3 <= fuel ==> !RoundTrip(blizzards, start, end, bounds, u1, u2, u3)
  {
    hide Arrives;
    forall u1: nat, u2: nat, u3: nat | u1 <= fuel && u2 <= fuel && u3 <= fuel
      ensures !RoundTrip(blizzards, start, end, bounds, u1, u2, u3)
    {
      if RoundTrip(blizzards, start, end, bounds, u1, u2, u3) {
        FirstArrivalUnique(blizzards, start, end, bounds, t1, u1);
        ArrivesLater(After(blizzards, bounds, t1), end, start, bounds, u2);
        assert false;
      }
    }
  }

  /** With the first two legs' arrivals at t1 and t2 and no third arrival
      within the bound, no round trip fits. */
  lemma NoThirdLeg(blizzards: seq<Blizzard>, start: Position, end: Position, bounds: Bounds, fuel: nat,
                   t1: nat, t2: nat, b2: seq<Blizzard>)
    requires FirstArrival(blizzards, start, end, bounds, t1)
    requires FirstArrival(After(blizzards, bounds, t1), end, start, bounds, t2)
    requires b2 == After(blizzards, bounds, t1 + t2)
    requires forall t :: 1 <= t <= fuel ==> !Arrives(b2, start, end, bounds, t)
    ensures forall u1: nat, u2: nat, u3: nat ::
      u1 <= fuel && u2 <= fuel && u3 <= fuel ==> !RoundTrip(blizzards, start, end, bounds, u1, u2, u3)
  {
    hide Arrives;
    forall u1: nat, u2: nat, u3: nat | u1 <= fuel && u2 <= fuel && u3 <= fuel
      ensures !RoundTrip(blizzards, start, end, bounds, u1, u2, u3)
    {
      if RoundTrip(blizzards, start, end, bounds, u1, u2, u3) {
        FirstArrivalUnique(blizzards, start, end, bounds, t1, u1);
        FirstArrivalUnique(After(blizzards, bounds, t1), end, start, bounds, t2, u2);
        ArrivesLater(b2, start, end, bounds, u3);
        assert false;
      }
    }
  }
}
