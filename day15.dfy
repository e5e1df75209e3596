/** Day 15: beacon exclusion zone. Each sensor reports its closest beacon by
    Manhattan distance, so no other beacon lies within that distance of it.
    Part 1 counts the squares of one row where no beacon can be, by merging
    the row intervals the sensors cover; part 2 finds the one square of a
    box that no sensor covers, searching just beyond each sensor's border. */
module Day15 {
  import opened Wrappers
  import opened SetSums
  import opened Arith

  type Point = (int, int)

  /** A closed interval of integers `(start, end)`; empty when start > end. */
  type Zone = (int, int)

  function Manhattan(a: Point, b: Point): nat
  {
    Abs(a.0 - b.0) + Abs(a.1 - b.1)
  }

  predicate In(z: Zone, x: int)
  {
    z.0 <= x <= z.1
  }

  /** `z` lies within `m`, end points included. */
  predicate Inside(z: Zone, m: Zone)
  {
    m.0 <= z.0 && z.1 <= m.1
  }

  function Min(a: int, b: int): int { if a <= b then a else b }
  function Max(a: int, b: int): int { if a >= b then a else b }

  // ---------------------------------------------------------------------
  // Intervals

  /** overlap: the hull of two zones that share an integer, None when they
      share none. The hull then holds exactly the integers of the two. */
  function Overlap(a: Zone, b: Zone): (r: Option<Zone>)
    ensures r.Some? <==> exists x :: In(a, x) && In(b, x)
    ensures r.Some? ==> Inside(a, r.value) && Inside(b, r.value)
    ensures r.Some? ==> forall x :: In(r.value, x) <==> In(a, x) || In(b, x)
  {
    if Max(a.0, b.0) <= Min(a.1, b.1) then
      assert In(a, Max(a.0, b.0)) && In(b, Max(a.0, b.0));
      Some((Min(a.0, b.0), Max(a.1, b.1)))
    else
      None
  }

  /** overlap does not depend on the order of its arguments. */
  lemma OverlapCommutes(a: Zone, b: Zone)
    ensures Overlap(a, b) == Overlap(b, a)
  {
  }

  /** Some zone of the set holds `x`. */
  predicate Covers(zones: set<Zone>, x: int)
  {
    exists z :: z in zones && In(z, x)
  }

  /** Some zone of the sequence holds `x`. */
  predicate CoveredBy(zones: seq<Zone>, x: int)
  {
    exists k :: 0 <= k < |zones| && In(zones[k], x)
  }

  /** No two distinct zones of the set share an integer. */
  ghost predicate Disjoint(zones: set<Zone>)
  {
    forall a, b :: a in zones && b in zones && a != b ==> Overlap(a, b).None?
  }

  // ---------------------------------------------------------------------
  // Merging

  /** The inner loop of merge_zones: `z` absorbs, one by one and in any
      order, every zone of `merged` that shares an integer with it as it
      grows. The absorbed zones are listed in `toRemove`. */
  method Absorb(merged: set<Zone>, z: Zone) returns (newZone: Zone, toRemove: seq<Zone>)
    requires Disjoint(merged)
    ensures forall r :: r in toRemove ==> r in merged && Inside(r, newZone)
    ensures Inside(z, newZone)
    ensures forall x :: In(newZone, x) <==> In(z, x) || exists r :: r in toRemove && In(r, x)
    ensures forall m :: m in merged && m !in toRemove ==> Overlap(newZone, m).None?
  {
    newZone := z;
    toRemove := [];
    var todo := merged;
    while todo != {}
      invariant todo <= merged
      invariant forall r :: r in toRemove ==> r in merged && r !in todo && Inside(r, newZone)
      invariant Inside(z, newZone)
      invariant forall x :: In(newZone, x) <==> In(z, x) || exists r :: r in toRemove && In(r, x)
      invariant forall m :: m in merged && m !in todo && m !in toRemove ==> Overlap(newZone, m).None?
      decreases todo
    {
      var m :| m in todo;
      var merged' := Overlap(newZone, m);
      if merged'.Some? {
        GrowKeepsApart(merged, todo, toRemove, newZone, m);
        toRemove := toRemove + [m];
        newZone := merged'.value;
      }
      todo := todo - {m};
    }
  }

  /** A zone already found apart from the growing zone stays apart from it
      when the growing zone absorbs another zone of a disjoint set. */
  lemma GrowKeepsApart(merged: set<Zone>, todo: set<Zone>, toRemove: seq<Zone>, newZone: Zone, m: Zone)
    requires Disjoint(merged) && m in todo && todo <= merged
    requires Overlap(newZone, m).Some?
    requires forall m' :: m' in merged && m' !in todo && m' !in toRemove ==> Overlap(newZone, m').None?
    ensures forall m' :: m' in merged && m' !in todo - {m} && m' !in toRemove + [m] ==>
      Overlap(Overlap(newZone, m).value, m').None?
  {
    var hull := Overlap(newZone, m).value;
    forall m' | m' in merged && m' !in todo - {m} && m' !in toRemove + [m]
      ensures Overlap(hull, m').None?
    {
      assert m' != m;
      assert Overlap(newZone, m').None?;
      assert Overlap(m, m').None?;
    }
  }

  /** The merged zones once `toRemove` is taken out and `newZone` put in. */
  function Replace(merged: set<Zone>, toRemove: seq<Zone>, newZone: Zone): set<Zone>
  {
    (merged - set r | r in toRemove) + {newZone}
  }

  /** One round of the outer loop of merge_zones keeps the merged zones
      disjoint and adds the integers of `z` to those they cover. */
  lemma ReplaceKeepsDisjoint(merged: set<Zone>, z: Zone, newZone: Zone, toRemove: seq<Zone>)
    requires Disjoint(merged)
    requires forall r :: r in toRemove ==> r in merged && Inside(r, newZone)
    requires forall x :: In(newZone, x) <==> In(z, x) || exists r :: r in toRemove && In(r, x)
    requires forall m :: m in merged && m !in toRemove ==> Overlap(newZone, m).None?
    ensures var merged' := Replace(merged, toRemove, newZone);
      && Disjoint(merged')
      && (forall x :: Covers(merged', x) <==> Covers(merged, x) || In(z, x))
  {
    var merged' := Replace(merged, toRemove, newZone);
    forall a, b | a in merged' && b in merged' && a != b
      ensures Overlap(a, b).None?
    {
      if a == newZone {
        assert b in merged && b !in toRemove;
      } else if b == newZone {
        assert a in merged && a !in toRemove;
        OverlapCommutes(a, b);
      }
    }
    forall x
      ensures Covers(merged', x) <==> Covers(merged, x) || In(z, x)
    {
      if Covers(merged', x) {
        var m :| m in merged' && In(m, x);
        if m == newZone && !In(z, x) {
          var r :| r in toRemove && In(r, x);
          assert r in merged;
        }
      }
      if Covers(merged, x) {
        var m :| m in merged && In(m, x);
        if m in toRemove {
          assert In(newZone, x);
        }
        assert Covers(merged', x);
      }
      if In(z, x) {
        assert In(newZone, x);
      }
    }
  }

  /** merge_zones: folds the zones into a set of pairwise disjoint zones
      covering exactly the integers the input zones cover, each input zone
      lying inside one of them. */
  method MergeZones(zones: seq<Zone>) returns (merged: set<Zone>)
    ensures Disjoint(merged)
    ensures forall x :: Covers(merged, x) <==> CoveredBy(zones, x)
    ensures forall k :: 0 <= k < |zones| ==> exists m :: m in merged && Inside(zones[k], m)
    ensures (forall k :: 0 <= k < |zones| ==> zones[k].0 <= zones[k].1) ==>
      forall m :: m in merged ==> m.0 <= m.1
  {
    hide MergedSoFar;
    merged := {};
    MergedStart(zones);
    for i := 0 to |zones|
      invariant MergedSoFar(zones, i, merged)
    {
      MergedDisjoint(zones, i, merged);
      var newZone, toRemove := Absorb(merged, zones[i]);
      MergeStep(zones, i, merged, newZone, toRemove);
      merged := Replace(merged, toRemove, newZone);
    }
    MergedAll(zones, merged);
  }

  /** Nothing merged covers nothing. */
  lemma MergedStart(zones: seq<Zone>)
    ensures MergedSoFar(zones, 0, {})
  {
    assert zones[..0] == [];
  }

  lemma MergedDisjoint(zones: seq<Zone>, i: int, merged: set<Zone>)
    requires 0 <= i <= |zones| && MergedSoFar(zones, i, merged)
    ensures Disjoint(merged)
  {
  }

  /** What merge_zones has built from all the zones. */
  lemma MergedAll(zones: seq<Zone>, merged: set<Zone>)
    requires MergedSoFar(zones, |zones|, merged)
    ensures Disjoint(merged)
    ensures forall x :: Covers(merged, x) <==> CoveredBy(zones, x)
    ensures forall k :: 0 <= k < |zones| ==> exists m :: m in merged && Inside(zones[k], m)
    ensures (forall k :: 0 <= k < |zones| ==> zones[k].0 <= zones[k].1) ==>
      forall m :: m in merged ==> m.0 <= m.1
  {
    assert zones[..|zones|] == zones;
  }

  /** What merge_zones has built from the first `i` zones. */
  ghost predicate MergedSoFar(zones: seq<Zone>, i: int, merged: set<Zone>)
    requires 0 <= i <= |zones|
  {
    && Disjoint(merged)
    && (forall x :: Covers(merged, x) <==> CoveredBy(zones[..i], x))
    && (forall k :: 0 <= k < i ==> exists m :: m in merged && Inside(zones[k], m))
    && ((forall k :: 0 <= k < i ==> zones[k].0 <= zones[k].1) ==>
      forall m :: m in merged ==> m.0 <= m.1)
  }

  /** One round of the outer loop of merge_zones takes in one more zone. */
  lemma MergeStep(zones: seq<Zone>, i: int, merged: set<Zone>, newZone: Zone, toRemove: seq<Zone>)
    requires 0 <= i < |zones| && MergedSoFar(zones, i, merged)
    requires forall r :: r in toRemove ==> r in merged && Inside(r, newZone)
    requires Inside(zones[i], newZone)
    requires forall x :: In(newZone, x) <==> In(zones[i], x) || exists r :: r in toRemove && In(r, x)
    requires forall m :: m in merged && m !in toRemove ==> Overlap(newZone, m).None?
    ensures MergedSoFar(zones, i + 1, Replace(merged, toRemove, newZone))
  {
    ReplaceKeepsDisjoint(merged, zones[i], newZone, toRemove);
    CoverPrefix(zones, i);
    InsideKept(zones, i, merged, newZone, toRemove);
  }

  /** One round of merge_zones keeps every zone seen so far inside some
      merged zone, and keeps the merged zones nonempty when the input zones
      are. */
  lemma InsideKept(zones: seq<Zone>, i: int, merged: set<Zone>, newZone: Zone, toRemove: seq<Zone>)
    requires 0 <= i < |zones|
    requires forall k :: 0 <= k < i ==> exists m :: m in merged && Inside(zones[k], m)
    requires (forall k :: 0 <= k < i ==> zones[k].0 <= zones[k].1) ==>
      forall m :: m in merged ==> m.0 <= m.1
    requires forall r :: r in toRemove ==> r in merged && Inside(r, newZone)
    requires Inside(zones[i], newZone)
    ensures var merged' := Replace(merged, toRemove, newZone);
      && (forall k :: 0 <= k <= i ==> exists m :: m in merged' && Inside(zones[k], m))
      && ((forall k :: 0 <= k <= i ==> zones[k].0 <= zones[k].1) ==>
        forall m :: m in merged' ==> m.0 <= m.1)
  {
    var merged' := Replace(merged, toRemove, newZone);
    forall k | 0 <= k <= i
      ensures exists m :: m in merged' && Inside(zones[k], m)
    {
      if k == i {
        assert newZone in merged';
      } else {
        var m :| m in merged && Inside(zones[k], m);
        if m in toRemove {
          assert newZone in merged';
        } else {
          assert m in merged';
        }
      }
    }
  }

  /** The integers covered by one more zone of the sequence. */
  lemma CoverPrefix(zones: seq<Zone>, i: int)
    requires 0 <= i < |zones|
    ensures forall x :: CoveredBy(zones[..i + 1], x) <==> CoveredBy(zones[..i], x) || In(zones[i], x)
  {
    forall x
      ensures CoveredBy(zones[..i + 1], x) <==> CoveredBy(zones[..i], x) || In(zones[i], x)
    {
      if CoveredBy(zones[..i + 1], x) {
        var k :| 0 <= k < i + 1 && In(zones[..i + 1][k], x);
        if k < i {
          assert zones[..i][k] == zones[k];
        }
      }
      if CoveredBy(zones[..i], x) {
        var k :| 0 <= k < i && In(zones[..i][k], x);
        assert zones[..i + 1][k] == zones[k];
      }
      if In(zones[i], x) {
        assert zones[..i + 1][i] == zones[i];
      }
    }
  }

  // ---------------------------------------------------------------------
  // Counting covered integers

  /** The integers of a zone. */
  function Cells(z: Zone): (r: set<int>)
    ensures forall x :: x in r <==> In(z, x)
    ensures z.0 <= z.1 ==> |r| == z.1 - z.0 + 1
    decreases z.1 - z.0
  {
    if z.0 > z.1 then {}
    else
      var init := Cells((z.0, z.1 - 1));
      assert z.1 !in init;
      init + {z.1}
  }

  /** The integers the zones of a set cover. */
  ghost function CoveredCells(zones: set<Zone>): (r: set<int>)
    ensures forall x :: x in r <==> Covers(zones, x)
    decreases zones
  {
    if zones == {} then {}
    else
      var z :| z in zones;
      var r := Cells(z) + CoveredCells(zones - {z});
      assert forall x :: Covers(zones, x) ==> In(z, x) || Covers(zones - {z}, x);
      r
  }

  lemma CoveredCellsRemove(zones: set<Zone>, z: Zone)
    requires z in zones
    ensures CoveredCells(zones) == Cells(z) + CoveredCells(zones - {z})
  {
    forall x
      ensures x in CoveredCells(zones) <==> x in Cells(z) + CoveredCells(zones - {z})
    {
      if Covers(zones, x) {
        var m :| m in zones && In(m, x);
        if m != z {
          assert Covers(zones - {z}, x);
        }
      }
    }
  }

  /** The number of integers of a zone, as part 1 sums them. */
  function Length(z: Zone): int
  {
    z.1 - z.0 + 1
  }

  /** For disjoint nonempty zones, the sum of the lengths is the number of
      integers covered: part 1's sum counts no integer twice. */
  lemma {:induction false} DisjointLengths(zones: set<Zone>)
    requires Disjoint(zones)
    requires forall z :: z in zones ==> z.0 <= z.1
    ensures SumOver(zones, Length) == |CoveredCells(zones)|
    decreases zones
  {
    if zones != {} {
      var z :| z in zones;
      var rest := zones - {z};
      SumOverRemove(zones, Length, z);
      DisjointLengths(rest);
      CoveredCellsRemove(zones, z);
      forall x | x in Cells(z)
        ensures x !in CoveredCells(rest)
      {
        forall m | m in rest
          ensures !In(m, x)
        {
          assert Overlap(z, m).None?;
        }
      }
      assert Cells(z) * CoveredCells(rest) == {};
    }
  }

  /** The coverage sum of part 1. */
  method SumLengths(zones: set<Zone>) returns (total: int)
    ensures total == SumOver(zones, Length)
  {
    total := 0;
    var todo := zones;
    while todo != {}
      invariant todo <= zones
      invariant total == SumOver(zones - todo, Length)
      decreases todo
    {
      var z :| z in todo;
      SumOverAdd(zones - todo, Length, z);
      assert (zones - todo) + {z} == zones - (todo - {z});
      total := total + Length(z);
      todo := todo - {z};
    }
    assert zones - todo == zones;
  }

  // ---------------------------------------------------------------------
  // Part 1

  /** A sensor and its closest beacon. */
  type Reading = (Point, Point)

  /** The sensor of `reading` is at least as close to `p` as to its beacon. */
  predicate Reaches(reading: Reading, p: Point)
  {
    Manhattan(reading.0, p) <= Manhattan(reading.0, reading.1)
  }

  /** The interval of row `y` within the sensor's beacon distance, when the
      row is near enough to have one. */
  function RowZone(reading: Reading, y: int): (r: Option<Zone>)
    ensures r.Some? ==> r.value.0 <= r.value.1
    ensures forall x :: (r.Some? && In(r.value, x)) <==> Reaches(reading, (x, y))
  {
    var (s, b) := reading;
    var distance := Manhattan(s, b);
    var xRadius := distance - Abs(y - s.1);
    if xRadius >= 0 then Some((s.0 - xRadius, s.0 + xRadius)) else None
  }

  /** The row intervals of all sensors that reach row `y`, in order. */
  function RowZones(readings: seq<Reading>, y: int): (r: seq<Zone>)
    ensures forall k :: 0 <= k < |r| ==> r[k].0 <= r[k].1
  {
    if readings == [] then []
    else
      var init := RowZones(readings[..|readings| - 1], y);
      match RowZone(readings[|readings| - 1], y)
      case None => init
      case Some(z) => init + [z]
  }

  /** The row intervals cover exactly the squares of the row some sensor
      reaches. */
  lemma {:induction false} RowZonesCover(readings: seq<Reading>, y: int, x: int)
    ensures CoveredBy(RowZones(readings, y), x) <==>
      exists k :: 0 <= k < |readings| && Reaches(readings[k], (x, y))
  {
    if readings != [] {
      var n := |readings|;
      var init := readings[..n - 1];
      var zs := RowZones(init, y);
      RowZonesCover(init, y, x);
      if exists k :: 0 <= k < n - 1 && Reaches(init[k], (x, y)) {
        var k :| 0 <= k < n - 1 && Reaches(init[k], (x, y));
        assert readings[k] == init[k];
      }
      if exists k :: 0 <= k < n && Reaches(readings[k], (x, y)) {
        var k :| 0 <= k < n && Reaches(readings[k], (x, y));
        if k < n - 1 {
          assert init[k] == readings[k];
        }
      }
      match RowZone(readings[n - 1], y)
      case None =>
      case Some(z) =>
        var r := zs + [z];
        if CoveredBy(zs, x) {
          var k :| 0 <= k < |zs| && In(zs[k], x);
          assert r[k] == zs[k];
        }
        if CoveredBy(r, x) {
          var k :| 0 <= k < |r| && In(r[k], x);
          if k < |zs| {
            assert r[k] == zs[k];
          }
        }
        assert r[|zs|] == z;
    }
  }

  /** The x positions of the beacons on row `y`. */
  function BeaconsOnRow(readings: seq<Reading>, y: int): set<int>
  {
    set k | 0 <= k < |readings| && readings[k].1.1 == y :: readings[k].1.0
  }

  /** Part 1: the number of squares of row `y` that some sensor reaches,
      less the beacons known to be on them: the squares where the distress
      beacon cannot be. */
  method Part1(readings: seq<Reading>, y: int) returns (r: int, ghost covered: set<int>)
    ensures forall x :: x in covered <==> exists k :: 0 <= k < |readings| && Reaches(readings[k], (x, y))
    ensures r == |covered| - |covered * BeaconsOnRow(readings, y)|
  {
    var zones := RowZones(readings, y);
    var merged := MergeZones(zones);
    var beacons := set k | 0 <= k < |readings| && readings[k].1.1 == y && Covers(merged, readings[k].1.0) :: readings[k].1.0;
    var coverage := SumLengths(merged);
    r := coverage - |beacons|;
    covered := CoveredCells(merged);
    forall x
      ensures x in covered <==> exists k :: 0 <= k < |readings| && Reaches(readings[k], (x, y))
    {
      RowZonesCover(readings, y, x);
    }
    DisjointLengths(merged);
    assert beacons == covered * BeaconsOnRow(readings, y);
  }

  // ---------------------------------------------------------------------
  // Part 2

  /** A sensor's position and its beacon distance. */
  type Sensor = (Point, int)

  /** in_range_of_any_sensors: some sensor is at most its distance from `p`. */
  function InRangeOfAny(sensors: seq<Sensor>, p: Point): (r: bool)
    ensures r <==> exists k :: 0 <= k < |sensors| && Manhattan(sensors[k].0, p) <= sensors[k].1
  {
    if sensors == [] then false
    else
      var rest := InRangeOfAny(sensors[1..], p);
      assert forall k :: 0 < k < |sensors| ==> sensors[k] == sensors[1..][k - 1];
      Manhattan(sensors[0].0, p) <= sensors[0].1 || rest
  }

  /** just_beyond_the_border: the four diagonal edges one step outside the
      sensor's range, each from its corner on the row or column of the
      centre. */
  function JustBeyond(sensor: Sensor): (r: seq<Point>)
  {
    var (c, range) := sensor;
    var n := if range + 2 >= 0 then range + 2 else 0;
    var nw := seq(n, i => (c.0 - range - 1 + i, c.1 + i));
    var ne := seq(n, i => (c.0 + range + 1 - i, c.1 + i));
    var sw := seq(n, i => (c.0 - range - 1 + i, c.1 - i));
    var se := seq(n, i => (c.0 + range + 1 - i, c.1 - i));
    nw + ne + sw + se
  }

  /** The border points are exactly the points one step beyond the range. */
  lemma JustBeyondIsTheBorder(sensor: Sensor, p: Point)
    ensures p in JustBeyond(sensor) <==> Manhattan(sensor.0, p) == sensor.1 + 1
  {
    var (c, range) := sensor;
    var n := if range + 2 >= 0 then range + 2 else 0;
    var nw := seq(n, i => (c.0 - range - 1 + i, c.1 + i));
    var ne := seq(n, i => (c.0 + range + 1 - i, c.1 + i));
    var sw := seq(n, i => (c.0 - range - 1 + i, c.1 - i));
    var se := seq(n, i => (c.0 + range + 1 - i, c.1 - i));
    assert JustBeyond(sensor) == nw + ne + sw + se;
    if Manhattan(c, p) == range + 1 {
      var dx, dy := p.0 - c.0, p.1 - c.1;
      if dx <= 0 && dy >= 0 {
        assert nw[dy] == p;
      } else if dx >= 0 && dy >= 0 {
        assert ne[dy] == p;
      } else if dx <= 0 {
        assert sw[-dy] == p;
      } else {
        assert se[-dy] == p;
      }
    }
  }

  /** The border points of every sensor, sensor by sensor. */
  function Candidates(sensors: seq<Sensor>): seq<Point>
  {
    if sensors == [] then [] else JustBeyond(sensors[0]) + Candidates(sensors[1..])
  }

  lemma {:induction false} CandidatesMembers(sensors: seq<Sensor>, k: int, p: Point)
    requires 0 <= k < |sensors| && p in JustBeyond(sensors[k])
    ensures p in Candidates(sensors)
  {
    if k > 0 {
      CandidatesMembers(sensors[1..], k - 1, p);
    }
  }

  predicate InBox(p: Point, borderMax: int)
  {
    0 <= p.0 <= borderMax && 0 <= p.1 <= borderMax
  }

  /** The first candidate inside the box that no sensor reaches. */
  function FirstGap(candidates: seq<Point>, sensors: seq<Sensor>, borderMax: int): (r: Option<Point>)
    ensures r.Some? ==> r.value in candidates && InBox(r.value, borderMax) && !InRangeOfAny(sensors, r.value)
    ensures r.Some? ==> exists k :: (0 <= k < |candidates| && candidates[k] == r.value
      && forall j :: 0 <= j < k ==> !(InBox(candidates[j], borderMax) && !InRangeOfAny(sensors, candidates[j])))
    ensures r.None? ==> forall p :: p in candidates && InBox(p, borderMax) ==> InRangeOfAny(sensors, p)
  {
    if candidates == [] then None
    else if InBox(candidates[0], borderMax) && !InRangeOfAny(sensors, candidates[0]) then Some(candidates[0])
    else
      var r := FirstGap(candidates[1..], sensors, borderMax);
      assert forall p :: p in candidates ==> p == candidates[0] || p in candidates[1..];
      r
  }

  /** The sensors of the readings, each with its beacon distance. */
  function SensorsOf(readings: seq<Reading>): (r: seq<Sensor>)
    ensures |r| == |readings|
    ensures forall k :: 0 <= k < |r| ==> r[k] == (readings[k].0, Manhattan(readings[k].0, readings[k].1))
  {
    seq(|readings|, k requires 0 <= k < |readings| => (readings[k].0, Manhattan(readings[k].0, readings[k].1)))
  }

  const TuningFactor := 4_000_000

  /** Part 2: the tuning frequency of the first gap the border search finds,
      a square of the box just beyond some sensor's border that no sensor
      reaches; the program unwraps the search. */
  function Part2(readings: seq<Reading>, borderMax: int): (r: int)
    requires FirstGap(Candidates(SensorsOf(readings)), SensorsOf(readings), borderMax).Some?
    ensures exists p :: && p in Candidates(SensorsOf(readings)) && InBox(p, borderMax)
                        && !InRangeOfAny(SensorsOf(readings), p) && r == p.0 * TuningFactor + p.1
  {
    var p := FirstGap(Candidates(SensorsOf(readings)), SensorsOf(readings), borderMax).value;
    p.0 * TuningFactor + p.1
  }

  /** When exactly one square of a box wider than one square is out of every
      sensor's reach, the border search finds it: a neighbour inside the box
      is reached by some sensor, so the gap lies just beyond that sensor's
      border. */
  lemma UniqueGapIsFound(readings: seq<Reading>, borderMax: int, gap: Point)
    requires borderMax >= 1 && InBox(gap, borderMax)
    requires !InRangeOfAny(SensorsOf(readings), gap)
    requires forall q :: InBox(q, borderMax) && q != gap ==> InRangeOfAny(SensorsOf(readings), q)
    ensures FirstGap(Candidates(SensorsOf(readings)), SensorsOf(readings), borderMax) == Some(gap)
    ensures Part2(readings, borderMax) == gap.0 * TuningFactor + gap.1
  {
    var sensors := SensorsOf(readings);
    var q := if gap.0 < borderMax then (gap.0 + 1, gap.1) else (gap.0 - 1, gap.1);
    assert InBox(q, borderMax) && q != gap;
    var k :| 0 <= k < |sensors| && Manhattan(sensors[k].0, q) <= sensors[k].1;
    assert Manhattan(sensors[k].0, gap) > sensors[k].1;
    assert Manhattan(sensors[k].0, gap) == sensors[k].1 + 1;
    JustBeyondIsTheBorder(sensors[k], gap);
    CandidatesMembers(sensors, k, gap);
  }
}
