/** Day 12: hill climbing. The map gives a height per square; a climber may
    step to an adjacent square at most one higher. The search runs backwards
    from the end square, recording for each square the number of steps of
    the shortest climb from it to the end. */
module Day12 {
  import opened SetSums

  type Point = (int, int)

  /** The height of one character of the map: `S` stands at the height of
      `a`, `E` at the height of `z`, and letters count from `a`. */
  function Height(c: char): (r: int)
    ensures 'a' <= c <= 'z' ==> 0 <= r <= 25
    ensures c == 'S' || c == 'E' ==> 0 <= r <= 25
  {
    match c
    case 'S' => 0
    case 'E' => 25
    case _ => c as int - 'a' as int
  }

  /** Heights follow the order of the letters, with `S` as low as `a` and
      `E` as high as `z`. */
  lemma HeightsFollowLetters(c: char, d: char)
    requires 'a' <= c <= 'z' && 'a' <= d <= 'z'
    ensures Height(c) < Height(d) <==> c < d
    ensures Height(d) == Height(c) + 1 <==> d as int == c as int + 1
    ensures Height('S') == Height('a') && Height('E') == Height('z')
  {
  }

  /** `p` is a square of the map read from `lines`: column p.0 of row p.1. */
  predicate OnMap(lines: seq<string>, p: Point)
  {
    0 <= p.1 < |lines| && 0 <= p.0 < |lines[p.1]|
  }

  /** heightmap_from_file, after reading the lines: the height of every
      square, and the squares marked `S` and `E`. */
  method HeightmapFromLines(lines: seq<string>) returns (hm: map<Point, int>, start: Point, end: Point)
    requires exists p :: OnMap(lines, p) && lines[p.1][p.0] == 'S'
    requires exists p :: OnMap(lines, p) && lines[p.1][p.0] == 'E'
    ensures forall p :: p in hm <==> OnMap(lines, p)
    ensures forall p :: p in hm ==> OnMap(lines, p) && hm[p] == Height(lines[p.1][p.0])
    ensures OnMap(lines, start) && lines[start.1][start.0] == 'S'
    ensures OnMap(lines, end) && lines[end.1][end.0] == 'E'
  {
    hm := map[];
    var foundStart, foundEnd := false, false;
    start, end := (0, 0), (0, 0);
    var y := 0;
    while y < |lines|
      invariant 0 <= y <= |lines|
      invariant Scanned(lines, y, 0, hm, foundStart, start, foundEnd, end)
    {
      hm, foundStart, start, foundEnd, end := ReadRow(lines, y, hm, foundStart, start, foundEnd, end);
      NextRow(lines, y, hm, foundStart, start, foundEnd, end);
      y := y + 1;
    }
    NextRow(lines, |lines|, hm, foundStart, start, foundEnd, end);
  }

  /** Square `p` comes before column `x` of row `y` in reading order. */
  predicate Before(p: Point, y: int, x: int)
  {
    p.1 < y || (p.1 == y && p.0 < x)
  }

  /** The reading loops have stored the height of every square before
      column `x` of row `y`, and have found `S` and `E` when they were
      among them. */
  ghost predicate Scanned(lines: seq<string>, y: int, x: int, hm: map<Point, int>,
                          foundStart: bool, start: Point, foundEnd: bool, end: Point)
  {
    && (forall p :: p in hm <==> OnMap(lines, p) && Before(p, y, x))
    && (forall p :: p in hm ==> OnMap(lines, p) && hm[p] == Height(lines[p.1][p.0]))
    && (foundStart ==> OnMap(lines, start) && lines[start.1][start.0] == 'S')
    && (!foundStart ==> forall p :: OnMap(lines, p) && Before(p, y, x) ==> lines[p.1][p.0] != 'S')
    && (foundEnd ==> OnMap(lines, end) && lines[end.1][end.0] == 'E')
    && (!foundEnd ==> forall p :: OnMap(lines, p) && Before(p, y, x) ==> lines[p.1][p.0] != 'E')
  }

  /** The end of a row is the start of the next; past the last row, every
      square has been read. */
  lemma NextRow(lines: seq<string>, y: int, hm: map<Point, int>,
                foundStart: bool, start: Point, foundEnd: bool, end: Point)
    requires 0 <= y <= |lines|
    requires y < |lines| ==> Scanned(lines, y, |lines[y]|, hm, foundStart, start, foundEnd, end)
    requires y == |lines| ==> Scanned(lines, y, 0, hm, foundStart, start, foundEnd, end)
    ensures Scanned(lines, y + 1, 0, hm, foundStart, start, foundEnd, end)
  {
  }

  /** The inner loop of heightmap_from_file: one row, left to right. */
  method ReadRow(lines: seq<string>, y: int, hm: map<Point, int>,
                 foundStart: bool, start: Point, foundEnd: bool, end: Point)
    returns (hm': map<Point, int>, foundStart': bool, start': Point, foundEnd': bool, end': Point)
    requires 0 <= y < |lines| && Scanned(lines, y, 0, hm, foundStart, start, foundEnd, end)
    ensures Scanned(lines, y, |lines[y]|, hm', foundStart', start', foundEnd', end')
  {
    hm', foundStart', start', foundEnd', end' := hm, foundStart, start, foundEnd, end;
    var x := 0;
    while x < |lines[y]|
      invariant 0 <= x <= |lines[y]|
      invariant Scanned(lines, y, x, hm', foundStart', start', foundEnd', end')
    {
      var c := lines[y][x];
      if c == 'S' {
        start' := (x, y);
        foundStart' := true;
      } else if c == 'E' {
        end' := (x, y);
        foundEnd' := true;
      }
      hm' := hm'[(x, y) := Height(c)];
      x := x + 1;
    }
  }

  /** The map is a rectangle with its corner at (0, 0): every key has
      non-negative coordinates, and every square up to the largest column
      and row of the keys is a key. */
  ghost predicate Grid(hm: map<Point, int>)
  {
    && (forall p :: p in hm ==> p.0 >= 0 && p.1 >= 0)
    && (forall p, q, b {:trigger Spans(p, q, b)} :: p in hm && q in hm && Spans(p, q, b) ==> b in hm)
  }

  /** `b` lies in the rectangle from (0, 0) to column p.0 and row q.1. */
  predicate Spans(p: Point, q: Point, b: Point)
  {
    0 <= b.0 <= p.0 && 0 <= b.1 <= q.1
  }

  /** A map read from lines of equal length is a grid. */
  lemma EqualLinesMakeAGrid(lines: seq<string>, hm: map<Point, int>)
    requires forall i, j :: 0 <= i < |lines| && 0 <= j < |lines| ==> |lines[i]| == |lines[j]|
    requires forall p :: p in hm <==> OnMap(lines, p)
    ensures Grid(hm)
  {
  }

  predicate InBounds(b: Point, maxX: int, maxY: int)
  {
    0 <= b.0 <= maxX && 0 <= b.1 <= maxY
  }

  /** The largest column and row among the keys. */
  method Extent(hm: map<Point, int>) returns (maxX: int, maxY: int)
    requires |hm| > 0
    ensures forall p :: p in hm ==> p.0 <= maxX && p.1 <= maxY
    ensures exists p :: p in hm && p.0 == maxX
    ensures exists q :: q in hm && q.1 == maxY
  {
    var first :| first in hm;
    maxX, maxY := first.0, first.1;
    var todo := hm.Keys - {first};
    while todo != {}
      invariant todo <= hm.Keys
      invariant forall p :: p in hm.Keys - todo ==> p.0 <= maxX && p.1 <= maxY
      invariant exists p :: p in hm && p.0 == maxX
      invariant exists q :: q in hm && q.1 == maxY
      decreases todo
    {
      var p :| p in todo;
      if p.0 > maxX {
        maxX := p.0;
      }
      if p.1 > maxY {
        maxY := p.1;
      }
      todo := todo - {p};
    }
  }

  /** On a grid, the bounds the search filters by are exactly the keys. */
  lemma GridBounds(hm: map<Point, int>, maxX: int, maxY: int)
    requires Grid(hm)
    requires forall p :: p in hm ==> p.0 <= maxX && p.1 <= maxY
    requires exists p :: p in hm && p.0 == maxX
    requires exists q :: q in hm && q.1 == maxY
    ensures forall b :: InBounds(b, maxX, maxY) <==> b in hm
  {
    var p :| p in hm && p.0 == maxX;
    var q :| q in hm && q.1 == maxY;
    assert forall b :: InBounds(b, maxX, maxY) ==> Spans(p, q, b);
  }

  /** `p` and `b` are one square apart, horizontally or vertically. */
  predicate Adjacent(p: Point, b: Point)
  {
    || (b.1 == p.1 && (b.0 == p.0 - 1 || b.0 == p.0 + 1))
    || (b.0 == p.0 && (b.1 == p.1 - 1 || b.1 == p.1 + 1))
  }

  /** The backwards search may go from `p` to `b`: both on the map, one
      square apart, and `b` at most one lower than `p` (so a climber at `b`
      may step up to `p`). */
  predicate Step(hm: map<Point, int>, p: Point, b: Point)
  {
    p in hm && b in hm && Adjacent(p, b) && hm[b] >= hm[p] - 1
  }

  /** The squares among `ns` that are in bounds and no more than one below `h`. */
  function KeepSteps(hm: map<Point, int>, maxX: int, maxY: int, h: int, ns: seq<Point>): (r: seq<Point>)
    requires forall b :: InBounds(b, maxX, maxY) ==> b in hm
    ensures forall b :: b in r <==> b in ns && InBounds(b, maxX, maxY) && hm[b] >= h - 1
  {
    if ns == [] then []
    else
      var b := ns[0];
      var rest := KeepSteps(hm, maxX, maxY, h, ns[1..]);
      assert forall c :: c in ns <==> c == b || c in ns[1..];
      if InBounds(b, maxX, maxY) && hm[b] >= h - 1 then [b] + rest else rest
  }

  /** The neighbours of `p` (left, right, up, down) within the bounds that
      the search may go to. */
  function Bordering(hm: map<Point, int>, maxX: int, maxY: int, p: Point): (r: seq<Point>)
    requires p in hm
    requires forall b :: InBounds(b, maxX, maxY) ==> b in hm
    ensures forall b :: b in r <==> InBounds(b, maxX, maxY) && Step(hm, p, b)
  {
    var (px, py) := p;
    var ns := [(px - 1, py), (px + 1, py), (px, py - 1), (px, py + 1)];
    assert forall b :: Adjacent(p, b) <==> b in ns;
    KeepSteps(hm, maxX, maxY, hm[p], ns)
  }

  /** A climber at `b` reaches `end` in at most `d` steps, each to an
      adjacent square at most one higher. */
  ghost predicate ClimbsWithin(hm: map<Point, int>, b: Point, end: Point, d: nat)
    decreases d
  {
    b == end || (d > 0 && exists p :: Step(hm, p, b) && ClimbsWithin(hm, p, end, d - 1))
  }

  /** A climb within `d` steps is a climb within any larger number. */
  lemma {:induction false} ClimbsWithinMonotone(hm: map<Point, int>, b: Point, end: Point, d: nat, d': nat)
    requires ClimbsWithin(hm, b, end, d) && d <= d'
    ensures ClimbsWithin(hm, b, end, d')
    decreases d
  {
    if b != end {
      var p :| Step(hm, p, b) && ClimbsWithin(hm, p, end, d - 1);
      ClimbsWithinMonotone(hm, p, end, d - 1, d' - 1);
    }
  }

  /** Some recorded neighbour one step nearer the end leads to `b`. */
  ghost predicate HasPredecessor(hm: map<Point, int>, dist: map<Point, int>, b: Point)
    requires b in dist
  {
    exists p :: p in dist && Step(hm, p, b) && dist[p] + 1 <= dist[b]
  }

  /** What the search keeps true: the end is at distance 0, every recorded
      square is on the map with a distance below the number of recorded
      squares, and every other recorded square was reached from a recorded
      neighbour. */
  ghost predicate Consistent(hm: map<Point, int>, end: Point, dist: map<Point, int>)
  {
    && end in dist && dist[end] == 0
    && (forall b :: b in dist ==> b in hm && 0 <= dist[b] < |dist|)
    && (forall b {:trigger HasPredecessor(hm, dist, b)} :: b in dist && b != end ==> HasPredecessor(hm, dist, b))
  }

  /** Every square the search may go to from `p` is recorded no more than
      one further than `p`. */
  ghost predicate Settled(hm: map<Point, int>, dist: map<Point, int>, p: Point)
    requires p in dist
  {
    forall b :: Step(hm, p, b) ==> b in dist && dist[b] <= dist[p] + 1
  }

  /** The weight of one square: its recorded distance, or `n` if it has none. */
  function Weight(dist: map<Point, int>, n: int): Point -> int
  {
    (c: Point) => if c in dist then dist[c] else n
  }

  /** The termination measure of the search: the recorded distances summed
      over the map, counting each unrecorded square as the size of the map.
      Every write lowers it. */
  ghost function Potential(hm: map<Point, int>, dist: map<Point, int>): int
  {
    SumOver(hm.Keys, Weight(dist, |hm|))
  }

  lemma PotentialNonNegative(hm: map<Point, int>, dist: map<Point, int>)
    requires forall b :: b in dist ==> dist[b] >= 0
    ensures Potential(hm, dist) >= 0
  {
    SumOverNonNegative(hm.Keys, Weight(dist, |hm|));
  }

  /** Recording `b` at one more than `point`, when `b` is new or strictly
      nearer that way, keeps the search consistent. */
  lemma WriteKeepsConsistent(hm: map<Point, int>, end: Point, dist: map<Point, int>, point: Point, b: Point)
    requires Consistent(hm, end, dist) && point in dist && Step(hm, point, b)
    requires b !in dist || dist[point] + 1 < dist[b]
    ensures Consistent(hm, end, dist[b := dist[point] + 1])
  {
    var dist' := dist[b := dist[point] + 1];
    assert b != end;
    if b !in dist {
      assert dist'.Keys == dist.Keys + {b};
    }
    assert |dist| <= |dist'|;
    forall c | c in dist' && c != end
      ensures HasPredecessor(hm, dist', c)
    {
      if c == b {
        assert point in dist' && Step(hm, point, b) && dist'[point] + 1 <= dist'[b];
      } else {
        assert HasPredecessor(hm, dist, c);
        var p :| p in dist && Step(hm, p, c) && dist[p] + 1 <= dist[c];
        assert p in dist' && dist'[p] + 1 <= dist'[c];
      }
    }
  }

  /** The same write lowers the potential. */
  lemma WriteLowersPotential(hm: map<Point, int>, end: Point, dist: map<Point, int>, point: Point, b: Point)
    requires Consistent(hm, end, dist) && point in dist && Step(hm, point, b)
    requires b !in dist || dist[point] + 1 < dist[b]
    ensures Potential(hm, dist[b := dist[point] + 1]) < Potential(hm, dist)
  {
    var dist' := dist[b := dist[point] + 1];
    if b !in dist {
      assert dist'.Keys == dist.Keys + {b};
      SubsetCardinality(dist'.Keys, hm.Keys);
    }
    SumOverLower(hm.Keys, Weight(dist, |hm|), Weight(dist', |hm|), b);
  }

  /** Lowering the distance of `b` leaves every other settled square settled. */
  lemma WriteKeepsSettled(hm: map<Point, int>, dist: map<Point, int>, b: Point, v: int, p: Point)
    requires b !in dist || v < dist[b]
    requires p in dist && p != b && Settled(hm, dist, p)
    ensures Settled(hm, dist[b := v], p)
  {
  }

  /** Every recorded distance is the length of a real climb to the end. */
  lemma {:induction false} RecordedDistancesAreClimbs(hm: map<Point, int>, end: Point, dist: map<Point, int>, b: Point)
    requires Consistent(hm, end, dist) && b in dist
    ensures ClimbsWithin(hm, b, end, dist[b])
    decreases dist[b]
  {
    if b != end {
      assert HasPredecessor(hm, dist, b);
      var p :| p in dist && Step(hm, p, b) && dist[p] + 1 <= dist[b];
      RecordedDistancesAreClimbs(hm, end, dist, p);
      ClimbsWithinMonotone(hm, p, end, dist[p], dist[b] - 1);
    }
  }

  /** Once every recorded square is settled, every climb to the end is
      recorded, at no more than its length. */
  lemma {:induction false} ClimbsAreRecorded(hm: map<Point, int>, end: Point, dist: map<Point, int>, b: Point, d: nat)
    requires Consistent(hm, end, dist)
    requires forall p :: p in dist ==> Settled(hm, dist, p)
    requires ClimbsWithin(hm, b, end, d)
    ensures b in dist && dist[b] <= d
    decreases d
  {
    if b != end {
      var p :| Step(hm, p, b) && ClimbsWithin(hm, p, end, d - 1);
      ClimbsAreRecorded(hm, end, dist, p, d - 1);
      assert Settled(hm, dist, p);
    }
  }

  /** When every recorded square is settled, the recorded distances are
      exactly the lengths of the shortest climbs. */
  lemma SearchIsExact(hm: map<Point, int>, end: Point, dist: map<Point, int>)
    requires Consistent(hm, end, dist)
    requires forall p :: p in dist ==> Settled(hm, dist, p)
    ensures forall b :: b in dist ==> ClimbsWithin(hm, b, end, dist[b])
    ensures forall b, d: nat :: ClimbsWithin(hm, b, end, d) ==> b in dist && dist[b] <= d
  {
    forall b | b in dist
      ensures ClimbsWithin(hm, b, end, dist[b])
    {
      RecordedDistancesAreClimbs(hm, end, dist, b);
    }
    forall b, d: nat | ClimbsWithin(hm, b, end, d)
      ensures b in dist && dist[b] <= d
    {
      ClimbsAreRecorded(hm, end, dist, b, d);
    }
  }

  /** The inner loop of min_distances_to_end: each bordering square that
      has no distance yet, or a larger one, is recorded at one more than
      `point` and pushed. Every square it leaves unpushed keeps its
      distance, and stays settled if it was. */
  method Relax(hm: map<Point, int>, end: Point, dist: map<Point, int>, stack: seq<Point>,
               point: Point, bordering: seq<Point>)
    returns (dist': map<Point, int>, stack': seq<Point>)
    requires Consistent(hm, end, dist) && point in dist
    requires forall b :: b in bordering ==> Step(hm, point, b)
    requires forall s :: s in stack ==> s in dist
    ensures Consistent(hm, end, dist')
    ensures point in dist' && dist'[point] == dist[point]
    ensures |stack| <= |stack'|
    ensures forall s :: s in stack ==> s in stack'
    ensures forall s :: s in stack' ==> s in dist'
    ensures forall p :: p in dist' && p !in stack' ==>
      p in dist && (Settled(hm, dist, p) ==> Settled(hm, dist', p))
    ensures forall b :: b in bordering ==> b in dist' && dist'[b] <= dist[point] + 1
    ensures Potential(hm, dist') + (|stack'| - |stack|) <= Potential(hm, dist)
  {
    hide Consistent, Settled, Potential;
    dist', stack' := dist, stack;
    var distance := dist[point];
    var i := 0;
    while i < |bordering|
      invariant 0 <= i <= |bordering|
      invariant RelaxInvariant(hm, end, dist, stack, point, dist', stack')
      invariant forall j :: 0 <= j < i ==> bordering[j] in dist' && dist'[bordering[j]] <= distance + 1
    {
      dist', stack' := RelaxOne(hm, end, dist, stack, point, dist', stack', bordering[i]);
      i := i + 1;
    }
  }

  /** What the inner loop of min_distances_to_end keeps, from the table
      `dist0` and stack `stack0` it started with. */
  ghost predicate RelaxInvariant(hm: map<Point, int>, end: Point, dist0: map<Point, int>, stack0: seq<Point>,
                                 point: Point, dist: map<Point, int>, stack: seq<Point>)
  {
    && point in dist0
    && Consistent(hm, end, dist)
    && point in dist && dist[point] == dist0[point]
    && |stack0| <= |stack|
    && (forall s :: s in stack0 ==> s in stack)
    && (forall s :: s in stack ==> s in dist)
    && (forall p :: p in dist && p !in stack ==>
          p in dist0 && (Settled(hm, dist0, p) ==> Settled(hm, dist, p)))
    && Potential(hm, dist) + (|stack| - |stack0|) <= Potential(hm, dist0)
  }

  /** One bordering square: recorded at one more than `point` and pushed
      if that is shorter than what it has. No recorded distance grows. */
  method RelaxOne(hm: map<Point, int>, end: Point, dist0: map<Point, int>, stack0: seq<Point>,
                  point: Point, dist: map<Point, int>, stack: seq<Point>, b: Point)
    returns (dist': map<Point, int>, stack': seq<Point>)
    requires RelaxInvariant(hm, end, dist0, stack0, point, dist, stack) && Step(hm, point, b)
    ensures RelaxInvariant(hm, end, dist0, stack0, point, dist', stack')
    ensures b in dist' && dist'[b] <= dist0[point] + 1
    ensures forall q :: q in dist ==> q in dist' && dist'[q] <= dist[q]
  {
    hide Consistent, Settled, Potential;
    dist', stack' := dist, stack;
    var distance := dist[point];
    if b !in dist || distance + 1 < dist[b] {
      RelaxWrite(hm, end, dist0, stack0, point, dist, stack, b);
      dist' := dist[b := distance + 1];
      stack' := stack + [b];
    }
  }

  lemma RelaxWrite(hm: map<Point, int>, end: Point, dist0: map<Point, int>, stack0: seq<Point>,
                   point: Point, dist: map<Point, int>, stack: seq<Point>, b: Point)
    requires RelaxInvariant(hm, end, dist0, stack0, point, dist, stack) && Step(hm, point, b)
    requires b !in dist || dist[point] + 1 < dist[b]
    ensures RelaxInvariant(hm, end, dist0, stack0, point, dist[b := dist[point] + 1], stack + [b])
  {
    var dist', stack' := dist[b := dist[point] + 1], stack + [b];
    WriteKeepsConsistent(hm, end, dist, point, b);
    WriteLowersPotential(hm, end, dist, point, b);
    hide Consistent, Potential, Settled;
    forall p | p in dist' && p !in stack'
      ensures p in dist0 && (Settled(hm, dist0, p) ==> Settled(hm, dist', p))
    {
      assert p != b && p in dist && p !in stack;
      if Settled(hm, dist0, p) {
        WriteKeepsSettled(hm, dist, b, dist[point] + 1, p);
      }
    }
  }

  /** After a visit of the top of the stack, every recorded square off the
      stack is settled: the visited square by its own check, the others
      because they were settled before and the visit kept them so. */
  lemma VisitSettles(hm: map<Point, int>, dist0: map<Point, int>, dist: map<Point, int>,
                     stack0: seq<Point>, stack: seq<Point>)
    requires stack0 != [] && stack0[|stack0| - 1] in dist
    requires Settled(hm, dist, stack0[|stack0| - 1])
    requires forall p :: p in dist0 && p !in stack0 ==> Settled(hm, dist0, p)
    requires forall s :: s in stack0[..|stack0| - 1] ==> s in stack
    requires forall p :: p in dist && p !in stack ==>
      p in dist0 && (Settled(hm, dist0, p) ==> Settled(hm, dist, p))
    ensures forall p :: p in dist && p !in stack ==> Settled(hm, dist, p)
  {
    var point := stack0[|stack0| - 1];
    assert stack0 == stack0[..|stack0| - 1] + [point];
    forall p | p in dist && p !in stack && p != point
      ensures Settled(hm, dist, p)
    {
      assert p !in stack0;
    }
  }

  /** min_distances_to_end: the length of the shortest climb to `end` from
      every square that has one. A square is pushed again each time its
      distance improves; the search ends when the stack is empty. */
  method MinDistancesToEnd(hm: map<Point, int>, end: Point) returns (dist: map<Point, int>)
    requires Grid(hm) && end in hm
    ensures end in dist && dist[end] == 0
    ensures forall b :: b in dist ==> b in hm && dist[b] >= 0
    ensures forall b :: b in dist ==> ClimbsWithin(hm, b, end, dist[b])
    ensures forall b, d: nat :: ClimbsWithin(hm, b, end, d) ==> b in dist && dist[b] <= d
  {
    var maxX, maxY := Extent(hm);
    GridBounds(hm, maxX, maxY);
    dist := map[end := 0];
    var stack := [end];
    while stack != []
      invariant Consistent(hm, end, dist)
      invariant forall s :: s in stack ==> s in dist
      invariant forall p :: p in dist && p !in stack ==> Settled(hm, dist, p)
      decreases Potential(hm, dist), |stack|
    {
      ghost var dist0, stack0 := dist, stack;
      var point := stack[|stack| - 1];
      stack := stack[..|stack| - 1];
      var bordering := Bordering(hm, maxX, maxY, point);
      dist, stack := Relax(hm, end, dist, stack, point, bordering);
      assert Settled(hm, dist, point) by {
        forall b | Step(hm, point, b)
          ensures b in dist && dist[b] <= dist[point] + 1
        {
          assert b in bordering;
        }
      }
      VisitSettles(hm, dist0, dist, stack0, stack);
      PotentialNonNegative(hm, dist);
    }
    SearchIsExact(hm, end, dist);
  }

  /** Part 1: the fewest steps from `S` to `E`. */
  method Part1(hm: map<Point, int>, start: Point, end: Point) returns (r: int)
    requires Grid(hm) && end in hm
    requires exists d: nat :: ClimbsWithin(hm, start, end, d)
    ensures r >= 0
    ensures ClimbsWithin(hm, start, end, r)
    ensures forall d: nat :: ClimbsWithin(hm, start, end, d) ==> r <= d
  {
    var dist := MinDistancesToEnd(hm, end);
    r := dist[start];
  }

  /** A square at the lowest height. */
  predicate Lowest(hm: map<Point, int>, a: Point)
  {
    a in hm && hm[a] == 0
  }

  /** Part 2: the fewest steps to `E` from any square of height 0 that has a
      climb at all. */
  method Part2(hm: map<Point, int>, end: Point) returns (r: int)
    requires Grid(hm) && end in hm
    requires exists a, d: nat :: Lowest(hm, a) && ClimbsWithin(hm, a, end, d)
    ensures r >= 0
    ensures exists a :: Lowest(hm, a) && ClimbsWithin(hm, a, end, r)
    ensures forall a, d: nat :: Lowest(hm, a) && ClimbsWithin(hm, a, end, d) ==> r <= d
  {
    var dist := MinDistancesToEnd(hm, end);
    var found := false;
    r := 0;
    var todo := hm.Keys;
    while todo != {}
      invariant todo <= hm.Keys
      invariant r >= 0
      invariant found ==> exists a :: Lowest(hm, a) && a in dist && dist[a] == r
      invariant found ==> forall a :: a in hm.Keys - todo && Lowest(hm, a) && a in dist ==> r <= dist[a]
      invariant !found ==> forall a :: a in hm.Keys - todo && Lowest(hm, a) ==> a !in dist
      decreases todo
    {
      var a :| a in todo;
      if hm[a] == 0 && a in dist && (!found || dist[a] < r) {
        r := dist[a];
        found := true;
      }
      todo := todo - {a};
    }
    ghost var a, d: nat :| Lowest(hm, a) && ClimbsWithin(hm, a, end, d);
    assert a in dist;
  }
}
