/** Day 14: regolith reservoir. Rock lies along paths of axis-aligned
    segments; grains of sand enter at (500, 0) one at a time and fall down,
    down-left or down-right until they rest. Part 1 counts the grains that
    rest before one falls past the lowest rock; part 2 adds a floor two rows
    below the lowest rock and counts the grains until the entry is blocked. */
module Day14 {
  import opened Wrappers

  type Point = (int, int)

  /** Where every grain enters the cave. */
  const Entry: Point := (500, 0)

  // ---------------------------------------------------------------------
  // Rasterising the rock paths

  /** `v` lies between `u` and `w`, whichever of them is smaller. */
  predicate Between(v: int, u: int, w: int)
  {
    (u <= v <= w) || (w <= v <= u)
  }

  /** The segment from `a` to `b` as the program reads it: vertical when the
      x coordinates agree, and otherwise horizontal in the row of `a`. */
  predicate OnSegment(a: Point, b: Point, p: Point)
  {
    if a.0 == b.0 then p.0 == a.0 && Between(p.1, a.1, b.1)
    else p.1 == a.1 && Between(p.0, a.0, b.0)
  }

  /** The points `(x, lo)`, ..., `(x, hi)` of a column, top to bottom. */
  function Column(x: int, lo: int, hi: int): (r: seq<Point>)
    requires lo <= hi
    ensures |r| == hi - lo + 1
    ensures forall p :: p in r <==> p.0 == x && lo <= p.1 <= hi
  {
    var r := seq(hi - lo + 1, i => (x, lo + i));
    assert forall p: Point :: p.0 == x && lo <= p.1 <= hi ==> r[p.1 - lo] == p;
    r
  }

  /** The points `(lo, y)`, ..., `(hi, y)` of a row, left to right. */
  function Row(y: int, lo: int, hi: int): (r: seq<Point>)
    requires lo <= hi
    ensures |r| == hi - lo + 1
    ensures forall p :: p in r <==> p.1 == y && lo <= p.0 <= hi
  {
    var r := seq(hi - lo + 1, i => (lo + i, y));
    assert forall p: Point :: p.1 == y && lo <= p.0 <= hi ==> r[p.0 - lo] == p;
    r
  }

  /** The points of one window of a path, in the order the program yields
      them: the range always runs from the smaller end to the larger. */
  function SegmentPoints(a: Point, b: Point): (r: seq<Point>)
    ensures forall p :: p in r <==> OnSegment(a, b, p)
    ensures |r| == if a.0 == b.0 then Distance(a.1, b.1) + 1 else Distance(a.0, b.0) + 1
  {
    if a.0 == b.0 then
      if a.1 < b.1 then Column(a.0, a.1, b.1) else Column(a.0, b.1, a.1)
    else
      if a.0 < b.0 then Row(a.1, a.0, b.0) else Row(a.1, b.0, a.0)
  }

  function Distance(u: int, w: int): nat
  {
    if u <= w then w - u else u - w
  }

  /** coords_from_path: the points of every window of two consecutive
      corners, duplicates at shared corners included. */
  function CoordsFromPath(path: seq<Point>): (r: seq<Point>)
  {
    if |path| < 2 then [] else SegmentPoints(path[0], path[1]) + CoordsFromPath(path[1..])
  }

  /** A point is yielded exactly when it lies on one of the path's segments. */
  lemma {:induction false} CoordsFromPathMembers(path: seq<Point>, p: Point)
    ensures p in CoordsFromPath(path) <==>
      exists i :: 0 <= i < |path| - 1 && OnSegment(path[i], path[i + 1], p)
  {
    if |path| >= 2 {
      CoordsFromPathMembers(path[1..], p);
      if p in CoordsFromPath(path[1..]) {
        var i :| 0 <= i < |path| - 2 && OnSegment(path[1..][i], path[1..][i + 1], p);
        assert OnSegment(path[i + 1], path[i + 2], p);
      }
      if exists i :: 0 <= i < |path| - 1 && OnSegment(path[i], path[i + 1], p) {
        var i :| 0 <= i < |path| - 1 && OnSegment(path[i], path[i + 1], p);
        if i > 0 {
          assert OnSegment(path[1..][i - 1], path[1..][i], p);
        }
      }
    }
  }

  /** When every segment is axis-aligned, every corner of a path of two or
      more corners is rock. */
  lemma CornersAreRock(path: seq<Point>, k: int)
    requires |path| >= 2 && 0 <= k < |path|
    requires forall i :: 0 <= i < |path| - 1 ==> path[i].0 == path[i + 1].0 || path[i].1 == path[i + 1].1
    ensures path[k] in CoordsFromPath(path)
  {
    if k < |path| - 1 {
      assert OnSegment(path[k], path[k + 1], path[k]);
      CoordsFromPathMembers(path, path[k]);
    } else {
      assert OnSegment(path[k - 1], path[k], path[k]);
      CoordsFromPathMembers(path, path[k]);
    }
  }

  /** The points of a sequence, as a set. */
  function Elements(s: seq<Point>): (r: set<Point>)
    ensures forall p :: p in r <==> p in s
  {
    set p | p in s
  }

  /** The rock of a cave: the points of all its paths. */
  function CaveFromPaths(paths: seq<seq<Point>>): set<Point>
  {
    if paths == [] then {}
    else CaveFromPaths(paths[..|paths| - 1]) + Elements(CoordsFromPath(paths[|paths| - 1]))
  }

  /** Some path of `paths` yields `p`. */
  ghost predicate OnSomePath(paths: seq<seq<Point>>, p: Point)
  {
    exists k :: 0 <= k < |paths| && p in CoordsFromPath(paths[k])
  }

  /** A square is rock exactly when some path yields it. */
  lemma {:induction false} CaveFromPathsMembers(paths: seq<seq<Point>>, p: Point)
    ensures p in CaveFromPaths(paths) <==> OnSomePath(paths, p)
  {
    if paths != [] {
      var n := |paths|;
      var init := paths[..n - 1];
      var last := CoordsFromPath(paths[n - 1]);
      assert CaveFromPaths(paths) == CaveFromPaths(init) + Elements(last);
      CaveFromPathsMembers(init, p);
      if OnSomePath(init, p) {
        var k :| 0 <= k < |init| && p in CoordsFromPath(init[k]);
        assert init[k] == paths[k];
        assert OnSomePath(paths, p);
      }
      if p in last {
        assert OnSomePath(paths, p);
      }
      if OnSomePath(paths, p) {
        var k :| 0 <= k < n && p in CoordsFromPath(paths[k]);
        if k < n - 1 {
          assert init[k] == paths[k];
          assert OnSomePath(init, p);
        }
      }
    }
  }

  // ---------------------------------------------------------------------
  // One grain

  /** The three squares below `p` are all taken. */
  predicate Blocked(cave: set<Point>, p: Point)
  {
    (p.0, p.1 + 1) in cave && (p.0 - 1, p.1 + 1) in cave && (p.0 + 1, p.1 + 1) in cave
  }

  /** Where a grain at `p` moves next: straight down if free, else
      down-left if free, else down-right if free; None when it rests. */
  function Below(cave: set<Point>, p: Point): (r: Option<Point>)
    ensures r.None? <==> Blocked(cave, p)
    ensures r.Some? ==> r.value.1 == p.1 + 1 && p.0 - 1 <= r.value.0 <= p.0 + 1 && r.value !in cave
    ensures r.Some? && r.value.0 != p.0 ==> (p.0, p.1 + 1) in cave
    ensures r.Some? && r.value.0 == p.0 + 1 ==> (p.0 - 1, p.1 + 1) in cave
  {
    if (p.0, p.1 + 1) !in cave then Some((p.0, p.1 + 1))
    else if (p.0 - 1, p.1 + 1) !in cave then Some((p.0 - 1, p.1 + 1))
    else if (p.0 + 1, p.1 + 1) !in cave then Some((p.0 + 1, p.1 + 1))
    else None
  }

  /** Where a grain dropped at `p` comes to rest, or None when it reaches
      the bailout row first. A grain rests above the bailout row on a
      blocked square inside the cone below where it started; it rests where
      it started or on a free square. */
  function Fall(cave: set<Point>, p: Point, bailout: int): (r: Option<Point>)
    ensures r.Some? ==>
      && p.1 <= r.value.1 < bailout
      && Distance(r.value.0, p.0) <= r.value.1 - p.1
      && Blocked(cave, r.value)
      && (r.value == p || r.value !in cave)
    decreases bailout - p.1
  {
    if p.1 >= bailout then None
    else
      match Below(cave, p)
      case None => Some(p)
      case Some(q) => Fall(cave, q, bailout)
  }

  /** A grain at or below the lowest rock falls past the bailout row: the
      bailout row is chosen so that such a grain is lost. */
  lemma {:induction false} FallsIntoTheVoid(cave: set<Point>, p: Point, bailout: int)
    requires forall c :: c in cave ==> c.1 < bailout
    requires p.1 >= bailout - 1
    ensures Fall(cave, p, bailout) == None
  {
    if p.1 < bailout {
      assert (p.0, p.1 + 1) !in cave;
    }
  }

  /** A grain dropped on a blocked square above the bailout row rests there. */
  lemma RestsWhereBlocked(cave: set<Point>, p: Point, bailout: int)
    requires p.1 < bailout && Blocked(cave, p)
    ensures Fall(cave, p, bailout) == Some(p)
  {
  }

  /** add_a_sand_and_see_if_it_falls_into_the_void: drops one grain from
      `start`; it reports whether the grain came to rest, and only then adds
      its resting square to the cave. */
  method AddSandVoid(cave: set<Point>, start: Point, bailout: int) returns (cave': set<Point>, rested: bool)
    ensures rested <==> Fall(cave, start, bailout).Some?
    ensures cave' == if rested then cave + {Fall(cave, start, bailout).value} else cave
  {
    var x, y := start.0, start.1;
    while true
      invariant Fall(cave, (x, y), bailout) == Fall(cave, start, bailout)
      decreases bailout - y
    {
      if y >= bailout {
        return cave, false;
      } else if (x, y + 1) !in cave {
        y := y + 1;
      } else if (x - 1, y + 1) !in cave {
        x := x - 1;
        y := y + 1;
      } else if (x + 1, y + 1) !in cave {
        x := x + 1;
        y := y + 1;
      } else {
        return cave + {(x, y)}, true;
      }
    }
  }

  /** Where a grain dropped at `p` rests when the row `floor` is solid. */
  function FallToFloor(cave: set<Point>, p: Point, floor: int): Point
    requires p.1 < floor
    decreases floor - p.1
  {
    if p.1 + 1 == floor then p
    else
      match Below(cave, p)
      case None => p
      case Some(q) => FallToFloor(cave, q, floor)
  }

  /** Above a floor every grain rests: on the row just above the floor or on
      a blocked square, inside the cone below where it started, and where it
      started or on a free square. */
  lemma {:induction false} FloorLands(cave: set<Point>, p: Point, floor: int)
    requires p.1 < floor
    ensures var r := FallToFloor(cave, p, floor);
      && p.1 <= r.1 <= floor - 1
      && Distance(r.0, p.0) <= r.1 - p.1
      && (r.1 == floor - 1 || Blocked(cave, r))
      && (r == p || r !in cave)
    decreases floor - p.1
  {
    if p.1 + 1 != floor {
      var next := Below(cave, p);
      if next.Some? {
        FloorLands(cave, next.value, floor);
      }
    }
  }

  /** add_a_sand_but_now_the_void_is_made_of_floor: drops one grain from
      `start` and adds the square where it rests. */
  method AddSandFloor(cave: set<Point>, start: Point, floor: int) returns (cave': set<Point>)
    requires start.1 < floor
    ensures cave' == cave + {FallToFloor(cave, start, floor)}
  {
    var x, y := start.0, start.1;
    while true
      invariant y < floor
      invariant FallToFloor(cave, (x, y), floor) == FallToFloor(cave, start, floor)
      decreases floor - y
    {
      if y + 1 == floor {
        return cave + {(x, y)};
      } else if (x, y + 1) !in cave {
        y := y + 1;
      } else if (x - 1, y + 1) !in cave {
        x := x - 1;
        y := y + 1;
      } else if (x + 1, y + 1) !in cave {
        x := x + 1;
        y := y + 1;
      } else {
        return cave + {(x, y)};
      }
    }
  }

  /** With the entry free, every grain dropped above the floor takes up
      exactly one more square. */
  lemma FloorAddsOne(cave: set<Point>, start: Point, floor: int)
    requires start.1 < floor && start !in cave
    ensures |cave + {FallToFloor(cave, start, floor)}| == |cave| + 1
  {
    FloorLands(cave, start, floor);
  }

  // ---------------------------------------------------------------------
  // The two parts

  /** `m` is the largest row of the cave. */
  predicate IsMaxRow(cave: set<Point>, m: int)
  {
    (exists p :: p in cave && p.1 == m) && forall p :: p in cave ==> p.1 <= m
  }

  /** The largest row of a nonempty cave; the program unwraps it. */
  method MaxRow(cave: set<Point>) returns (m: int)
    requires cave != {}
    ensures IsMaxRow(cave, m)
  {
    var first :| first in cave;
    m := first.1;
    var todo := cave - {first};
    while todo != {}
      invariant todo <= cave
      invariant forall p :: p in cave - todo ==> p.1 <= m
      invariant exists p :: p in cave && p.1 == m
      decreases todo
    {
      var p :| p in todo;
      if p.1 > m {
        m := p.1;
      }
      todo := todo - {p};
    }
  }

  /** The squares a grain from the entry can reach above row `floor`. */
  function Cone(floor: int): (r: set<Point>)
    ensures forall p :: p in r <==> 0 <= p.1 < floor && Distance(p.0, Entry.0) <= p.1
  {
    set x, y | Entry.0 - floor <= x <= Entry.0 + floor && 0 <= y < floor && Distance(x, Entry.0) <= y :: (x, y)
  }

  /** The cave after `n` grains dropped from the entry with the void below
      row `bail`: each grain that comes to rest adds its resting square, and
      one that falls into the void changes nothing. */
  ghost function VoidDrops(cave: set<Point>, bail: int, n: nat): set<Point>
  {
    if n == 0 then cave
    else
      var before := VoidDrops(cave, bail, n - 1);
      match Fall(before, Entry, bail)
      case Some(p) => before + {p}
      case None => before
  }

  /** Each of the first `n` grains came to rest. */
  ghost predicate AllRested(cave: set<Point>, bail: int, n: nat)
  {
    forall k :: 0 <= k < n ==> Fall(VoidDrops(cave, bail, k), Entry, bail).Some?
  }

  /** One more grain that comes to rest extends the simulation by its
      resting square. */
  lemma VoidDropsNext(cave: set<Point>, bail: int, n: nat, current: set<Point>)
    requires current == VoidDrops(cave, bail, n) && AllRested(cave, bail, n)
    requires Fall(current, Entry, bail).Some?
    ensures current + {Fall(current, Entry, bail).value} == VoidDrops(cave, bail, n + 1)
    ensures AllRested(cave, bail, n + 1)
  {
  }

  /** Part 1: drops grains from the entry until one falls past the lowest
      rock, and counts those that rested. The program loops without end when
      the entry itself is filled, so the loop is given `fuel` rounds and
      answers None when they run out. */
  method Part1(cave: set<Point>, fuel: nat) returns (r: Option<nat>, ghost filled: set<Point>, ghost bailout: int)
    requires cave != {}
    ensures IsMaxRow(cave, bailout - 1)
    ensures r.Some? ==> filled == VoidDrops(cave, bailout, r.value)
    ensures r.Some? ==> AllRested(cave, bailout, r.value) && Fall(filled, Entry, bailout) == None
    ensures r.None? ==> AllRested(cave, bailout, fuel)
    ensures cave <= filled
    ensures forall c :: c in filled - cave ==> c.1 < bailout && Blocked(filled, c)
    ensures r.Some? && Entry !in cave ==> r.value == |filled - cave| && filled - cave <= Cone(bailout)
  {
    var maxRow := MaxRow(cave);
    var bail := maxRow + 1;
    var current := cave;
    var count := 0;
    var left := fuel;
    while true
      invariant count + left == fuel
      invariant current == VoidDrops(cave, bail, count) && AllRested(cave, bail, count)
      invariant cave <= current
      invariant forall c :: c in current - cave ==> c.1 < bail && Blocked(current, c)
      invariant Entry !in current ==> count == |current - cave| && current - cave <= Cone(bail)
      decreases left
    {
      if left == 0 {
        return None, current, bail;
      }
      left := left - 1;
      var before := current;
      var rested;
      current, rested := AddSandVoid(current, Entry, bail);
      if !rested {
        if Entry in current - cave {
          RestsWhereBlocked(current, Entry, bail);
        }
        return Some(count), current, bail;
      }
      VoidStep(cave, before, bail, count);
      VoidDropsNext(cave, bail, count, before);
      count := count + 1;
    }
  }

  /** One grain that rests above the bailout row keeps the loop's
      invariants: every grain rests on a blocked square above the bailout
      row, and, while the entry is free, the count is the number of grains,
      all inside the cone below the entry. */
  lemma VoidStep(cave: set<Point>, before: set<Point>, bail: int, count: nat)
    requires cave <= before
    requires forall c :: c in before - cave ==> c.1 < bail && Blocked(before, c)
    requires Entry !in before ==> count == |before - cave| && before - cave <= Cone(bail)
    requires Fall(before, Entry, bail).Some?
    ensures var after := before + {Fall(before, Entry, bail).value};
      && (forall c :: c in after - cave ==> c.1 < bail && Blocked(after, c))
      && (Entry !in after ==> count + 1 == |after - cave| && after - cave <= Cone(bail))
  {
    var r := Fall(before, Entry, bail).value;
    var after := before + {r};
    GrowingKeepsBlocked(before, after, cave);
    if Entry !in after {
      assert r !in before && r in Cone(bail);
      assert after - cave == (before - cave) + {r};
    }
  }

  /** Squares that were blocked stay blocked as sand is added. */
  lemma GrowingKeepsBlocked(before: set<Point>, after: set<Point>, cave: set<Point>)
    requires before <= after
    ensures forall c :: c in before - cave && Blocked(before, c) ==> Blocked(after, c)
  {
  }

  /** The cave after `n` grains dropped from the entry onto the floor at
      row `floor`: each grain adds the square where it rests. */
  ghost function FloorDrops(cave: set<Point>, floor: int, n: nat): set<Point>
    requires Entry.1 < floor
  {
    if n == 0 then cave
    else
      var before := FloorDrops(cave, floor, n - 1);
      before + {FallToFloor(before, Entry, floor)}
  }

  /** The entry stayed free before each of the first `n` grains. */
  ghost predicate EntryFree(cave: set<Point>, floor: int, n: nat)
    requires Entry.1 < floor
  {
    forall k :: 0 <= k < n ==> Entry !in FloorDrops(cave, floor, k)
  }

  /** One more grain dropped while the entry is free extends the simulation
      by its resting square. */
  lemma FloorDropsNext(cave: set<Point>, floor: int, n: nat, current: set<Point>)
    requires Entry.1 < floor
    requires current == FloorDrops(cave, floor, n) && EntryFree(cave, floor, n)
    requires Entry !in current
    ensures current + {FallToFloor(current, Entry, floor)} == FloorDrops(cave, floor, n + 1)
    ensures EntryFree(cave, floor, n + 1)
  {
  }

  /** Part 2: with a floor two rows below the lowest rock, drops grains
      from the entry until the entry is filled, and counts them. Every grain
      takes a new square of the cone above the floor, so the loop ends. */
  method Part2(cave: set<Point>) returns (count: nat, ghost filled: set<Point>, ghost floor: int)
    requires cave != {}
    requires forall m :: IsMaxRow(cave, m) ==> m + 2 > Entry.1
    ensures IsMaxRow(cave, floor - 2) && Entry.1 < floor
    ensures filled == FloorDrops(cave, floor, count)
    ensures Entry in filled
    ensures EntryFree(cave, floor, count)
    ensures cave <= filled
    ensures Entry !in cave ==> count == |filled - cave|
    ensures filled - cave <= Cone(floor)
    ensures forall c :: c in filled - cave ==> c.1 == floor - 1 || Blocked(filled, c)
  {
    var maxRow := MaxRow(cave);
    var fl := maxRow + 2;
    var current := cave;
    count := 0;
    while Entry !in current
      invariant current == FloorDrops(cave, fl, count) && EntryFree(cave, fl, count)
      invariant cave <= current && current - cave <= Cone(fl)
      invariant Entry !in cave ==> count == |current - cave|
      invariant forall c :: c in current - cave ==> c.1 == fl - 1 || Blocked(current, c)
      decreases |Cone(fl) - current|
    {
      FloorStep(cave, current, fl);
      FloorDropsNext(cave, fl, count, current);
      current := AddSandFloor(current, Entry, fl);
      count := count + 1;
    }
    filled, floor := current, fl;
  }

  /** One grain of part 2 keeps the loop's invariant and fills one more
      square of the cone. */
  lemma FloorStep(cave: set<Point>, before: set<Point>, floor: int)
    requires cave <= before && before - cave <= Cone(floor)
    requires Entry !in before && Entry.1 < floor
    requires forall c :: c in before - cave ==> c.1 == floor - 1 || Blocked(before, c)
    ensures var after := before + {FallToFloor(before, Entry, floor)};
      && after - cave <= Cone(floor)
      && |after - cave| == |before - cave| + 1
      && |Cone(floor) - after| < |Cone(floor) - before|
      && forall c :: c in after - cave ==> c.1 == floor - 1 || Blocked(after, c)
  {
    FloorLands(before, Entry, floor);
    var r := FallToFloor(before, Entry, floor);
    var cone := Cone(floor);
    assert r in cone && r !in before;
    FillOne(cave, before, cone, r);
    AddKeepsResting(cave, before, r, floor);
  }

  /** A square on the row above the floor or with all three squares below
      it taken holds its grain. */
  predicate Resting(cave: set<Point>, c: Point, floor: int)
  {
    c.1 == floor - 1 || Blocked(cave, c)
  }

  /** Grains that rest keep resting when another comes to rest. */
  lemma AddKeepsResting(cave: set<Point>, before: set<Point>, r: Point, floor: int)
    requires forall c :: c in before - cave ==> Resting(before, c, floor)
    requires Resting(before, r, floor)
    ensures forall c :: c in (before + {r}) - cave ==> Resting(before + {r}, c, floor)
  {
    forall c | c in (before + {r}) - cave
      ensures Resting(before + {r}, c, floor)
    {
      assert Resting(before, c, floor);
    }
  }

  /** Adding a new square of `cone` to `before` leaves one fewer free. */
  lemma FillOne(cave: set<Point>, before: set<Point>, cone: set<Point>, r: Point)
    requires cave <= before && r in cone && r !in before
    ensures |(before + {r}) - cave| == |before - cave| + 1
    ensures |cone - (before + {r})| < |cone - before|
  {
    assert cone - (before + {r}) == (cone - before) - {r};
    assert (before + {r}) - cave == (before - cave) + {r};
  }
}
