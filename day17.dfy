/** Day 17: rocks falling into a chamber seven units wide, pushed left or
    right by a repeating pattern of jets. A rock falls until a cell below it
    is settled and then settles; the answer is the height of the tower. */
module Day17 {
  import opened Arith

  datatype Jet = L | R

  /** A cell of the chamber: column, then height (up is positive). */
  type Coord = (int, int)

  /** A rock shape: its cells as offsets from its lower-left corner, and its
      height. */
  datatype Rock = Rock(cs: seq<Coord>, h: int)

  const ChamberWidth: int := 7

  /** The five shapes, in the order they fall: a bar, a plus, a reversed L,
      a column and a square. */
  const Rocks: seq<Rock> := [
    Rock([(0, 0), (1, 0), (2, 0), (3, 0)], 1),
    Rock([(0, 1), (1, 0), (1, 1), (1, 2), (2, 1)], 3),
    Rock([(0, 0), (1, 0), (2, 0), (2, 1), (2, 2)], 3),
    Rock([(0, 0), (0, 1), (0, 2), (0, 3)], 4),
    Rock([(0, 0), (0, 1), (1, 0), (1, 1)], 2)
  ]

  /** A cycle of well-shaped rocks. The simulation is stated for any such
      cycle; the puzzle's is `Rocks`. */
  ghost predicate Shapes(rocks: seq<Rock>)
  {
    |rocks| > 0 && forall i :: 0 <= i < |rocks| ==> WellShaped(rocks[i])
  }

  /** `<` pushes left; every other character pushes right. */
  function JetOf(c: char): (j: Jet)
    ensures j == L <==> c == '<'
  {
    if c == '<' then L else R
  }

  function Dx(jet: Jet): (dx: int)
    ensures dx == -1 || dx == 1
  {
    if jet == L then -1 else 1
  }

  /** `n` wrapped around a cycle of length `k`: the position a repeating
      iterator has reached after `n` items. */
  function Wrap(n: nat, k: nat): (r: nat)
    requires k > 0
    ensures r < k
    decreases n
  {
    if n < k then n else Wrap(n - k, k)
  }

  /** Wrapping is the remainder of division. */
  lemma {:induction false} WrapIsMod(n: nat, k: nat)
    requires k > 0
    ensures Wrap(n, k) == n % k
    decreases n
  {
    if n >= k {
      WrapIsMod(n - k, k);
      var q := (n - k) / k;
      assert n - k == q * k + (n - k) % k;
      assert n == (q + 1) * k + (n - k) % k;
      ModUnique(n, k, q + 1, (n - k) % k);
    }
  }

  /** The jet pattern repeats: the jet used after `used` others. */
  function JetAt(jets: seq<Jet>, used: nat): Jet
    requires jets != []
  {
    jets[Wrap(used, |jets|)]
  }

  function Max(a: int, b: int): int
  {
    if a >= b then a else b
  }

  /** The shape's cells lie in a 4-by-4 box starting at its lower-left
      corner, one of them on its bottom row, and its height is one more than
      its highest cell's offset. */
  predicate WellShaped(rock: Rock)
  {
    && rock.h <= 4
    && (forall i :: 0 <= i < |rock.cs| ==> 0 <= rock.cs[i].0 <= 3 && 0 <= rock.cs[i].1 < rock.h)
    && (exists i :: 0 <= i < |rock.cs| && rock.cs[i].1 == 0)
    && (exists i :: 0 <= i < |rock.cs| && rock.cs[i].1 == rock.h - 1)
  }

  /** Every shape is well shaped; in particular its height is one more than
      its largest offset upwards. */
  lemma RocksWellShaped()
    ensures Shapes(Rocks)
  {
    hide WellShaped;
    forall k | 0 <= k < |Rocks| ensures WellShaped(Rocks[k]) {
      RockWellShaped(k);
    }
  }

  lemma RockWellShaped(k: nat)
    requires k < |Rocks|
    ensures WellShaped(Rocks[k])
  {
    var r := Rocks[k];
    var top := if k == 1 then 3 else if k == 2 then 4 else if k == 3 then 3 else if k == 4 then 1 else 0;
    var bottom := if k == 1 then 1 else 0;
    assert r.cs[bottom].1 == 0 && r.cs[top].1 == r.h - 1;
  }

  /** The cells `cs` cover when their offsets are taken from `(x, y)`. */
  function Cells(cs: seq<Coord>, x: int, y: int): set<Coord>
    decreases |cs|
  {
    if cs == [] then {} else {(x + cs[0].0, y + cs[0].1)} + Cells(cs[1..], x, y)
  }

  /** A cell is covered exactly when it is one of the offsets moved to
      `(x, y)`. */
  lemma {:induction false} CellsIff(cs: seq<Coord>, x: int, y: int, p: Coord)
    ensures p in Cells(cs, x, y) <==> exists i :: 0 <= i < |cs| && p == (x + cs[i].0, y + cs[i].1)
    decreases |cs|
  {
    if cs != [] {
      CellsIff(cs[1..], x, y, p);
      if p in Cells(cs[1..], x, y) {
        var j :| 0 <= j < |cs[1..]| && p == (x + cs[1..][j].0, y + cs[1..][j].1);
        assert cs[j + 1] == cs[1..][j];
      }
      if exists i :: 0 <= i < |cs| && p == (x + cs[i].0, y + cs[i].1) {
        var i :| 0 <= i < |cs| && p == (x + cs[i].0, y + cs[i].1);
        if i > 0 {
          assert cs[1..][i - 1] == cs[i];
        }
      }
    }
  }

  /** The cell at offset `c` from `(x, y)` is inside the walls and free. */
  predicate CellClear(settled: set<Coord>, c: Coord, x: int, y: int)
  {
    0 <= x + c.0 < ChamberWidth && (x + c.0, y + c.1) !in settled
  }

  /** Every cell of `cs` placed at `(x, y)` is clear, checked in order as
      `all` does. */
  predicate CellsClear(settled: set<Coord>, cs: seq<Coord>, x: int, y: int)
    decreases |cs|
  {
    cs == [] || (CellClear(settled, cs[0], x, y) && CellsClear(settled, cs[1..], x, y))
  }

  /** Some cell of `cs` placed at `(x, y)` has a settled cell just below it,
      checked in order as `any` does. */
  predicate AnyBelow(settled: set<Coord>, cs: seq<Coord>, x: int, y: int)
    decreases |cs|
  {
    cs != [] && ((x + cs[0].0, y + cs[0].1 - 1) in settled || AnyBelow(settled, cs[1..], x, y))
  }

  /** The ordered check means every cell is clear. */
  lemma {:induction false} CellsClearIff(settled: set<Coord>, cs: seq<Coord>, x: int, y: int)
    ensures CellsClear(settled, cs, x, y) <==> forall i :: 0 <= i < |cs| ==> CellClear(settled, cs[i], x, y)
    decreases |cs|
  {
    if cs != [] {
      CellsClearIff(settled, cs[1..], x, y);
      assert forall i :: 1 <= i < |cs| ==> cs[i] == cs[1..][i - 1];
    }
  }

  /** The ordered check means some cell has a settled cell below it. */
  lemma {:induction false} AnyBelowIff(settled: set<Coord>, cs: seq<Coord>, x: int, y: int)
    ensures AnyBelow(settled, cs, x, y) <==>
      exists i :: 0 <= i < |cs| && (x + cs[i].0, y + cs[i].1 - 1) in settled
    decreases |cs|
  {
    if cs != [] {
      AnyBelowIff(settled, cs[1..], x, y);
      assert forall i :: 1 <= i < |cs| ==> cs[i] == cs[1..][i - 1];
      if AnyBelow(settled, cs[1..], x, y) && (x + cs[0].0, y + cs[0].1 - 1) !in settled {
        var j :| 0 <= j < |cs[1..]| && (x + cs[1..][j].0, y + cs[1..][j].1 - 1) in settled;
        assert cs[j + 1] == cs[1..][j];
      }
    }
  }

  /** With its corner at `(x, y)` the rock is inside the walls and overlaps
      nothing settled. */
  predicate Clear(settled: set<Coord>, rock: Rock, x: int, y: int)
  {
    CellsClear(settled, rock.cs, x, y)
  }

  /** Some cell just below the rock is settled. */
  predicate Obstructed(settled: set<Coord>, rock: Rock, x: int, y: int)
  {
    AnyBelow(settled, rock.cs, x, y)
  }

  /** shift_sideways: the jet moves the rock by `dx` exactly when every moved
      cell is inside the walls and free. */
  function ShiftSideways(settled: set<Coord>, rock: Rock, x: int, y: int, dx: int): (r: int)
    ensures r == x + dx <== Clear(settled, rock, x + dx, y)
    ensures r == x <== !Clear(settled, rock, x + dx, y)
  {
    if Clear(settled, rock, x + dx, y) then x + dx else x
  }

  /** A rock that is clear stays clear when a jet pushes it. */
  lemma ShiftKeepsClear(settled: set<Coord>, rock: Rock, x: int, y: int, dx: int)
    requires Clear(settled, rock, x, y)
    ensures Clear(settled, rock, ShiftSideways(settled, rock, x, y, dx), y)
  {
  }

  /** The floor: row 0 of every column is settled. */
  predicate HasFloor(settled: set<Coord>)
  {
    forall x {:trigger (x, 0) in settled} :: 0 <= x < ChamberWidth ==> (x, 0) in settled
  }

  /** A clear rock at height 1 already rests on the floor. */
  lemma FloorStops(settled: set<Coord>, rock: Rock, x: int)
    requires HasFloor(settled) && WellShaped(rock) && Clear(settled, rock, x, 1)
    ensures Obstructed(settled, rock, x, 1)
  {
    var i :| 0 <= i < |rock.cs| && rock.cs[i].1 == 0;
    CellsClearIff(settled, rock.cs, x, 1);
    assert CellClear(settled, rock.cs[i], x, 1);
    assert (x + rock.cs[i].0, 1 + rock.cs[i].1 - 1) in settled;
    AnyBelowIff(settled, rock.cs, x, 1);
  }

  /** A clear rock with nothing settled just below it is above the floor
      and clear one row lower. */
  lemma DropOne(settled: set<Coord>, rock: Rock, x: int, y: int)
    requires HasFloor(settled) && WellShaped(rock) && y >= 1
    requires Clear(settled, rock, x, y) && !Obstructed(settled, rock, x, y)
    ensures y > 1 && Clear(settled, rock, x, y - 1)
  {
    if y == 1 {
      FloorStops(settled, rock, x);
    }
    CellsClearIff(settled, rock.cs, x, y);
    CellsClearIff(settled, rock.cs, x, y - 1);
    AnyBelowIff(settled, rock.cs, x, y);
    forall i | 0 <= i < |rock.cs|
      ensures CellClear(settled, rock.cs[i], x, y - 1)
    {
      assert CellClear(settled, rock.cs[i], x, y);
      assert (x + rock.cs[i].0, y + rock.cs[i].1 - 1) !in settled;
    }
  }

  /** Where the rock rests and how many jets have been used by then: each
      step the next jet pushes it, then it settles if something is just
      below it and otherwise drops by one. It comes to rest clear of
      everything, on something settled, no higher than it started. */
  function Fall(settled: set<Coord>, rock: Rock, jets: seq<Jet>, used: nat, x: int, y: int): (r: (int, int, nat))
    requires jets != [] && HasFloor(settled) && WellShaped(rock) && Clear(settled, rock, x, y) && y >= 1
    ensures Clear(settled, rock, r.0, r.1) && Obstructed(settled, rock, r.0, r.1)
    ensures 1 <= r.1 <= y && r.2 > used
    decreases y
  {
    var x' := ShiftSideways(settled, rock, x, y, Dx(JetAt(jets, used)));
    ShiftKeepsClear(settled, rock, x, y, Dx(JetAt(jets, used)));
    if Obstructed(settled, rock, x', y) then (x', y, used + 1)
    else
      DropOne(settled, rock, x', y);
      Fall(settled, rock, jets, used + 1, x', y - 1)
  }

  // ---------------------------------------------------------------------
  // The chamber

  /** The settled cells, the tower's height, and the jets and rocks used. */
  datatype Chamber = Chamber(settled: set<Coord>, highest: int, jetsUsed: nat, rocksUsed: nat)

  /** The floor is in place and every settled cell is between the walls and
      no higher than the tower's height. */
  ghost predicate Tower(c: Chamber)
  {
    && HasFloor(c.settled)
    && c.highest >= 0
    && forall a, b {:trigger (a, b) in c.settled} :: (a, b) in c.settled ==> 0 <= a < ChamberWidth && 0 <= b <= c.highest
  }

  /** Before the first rock only the floor, in row 0, is settled. */
  function Initial(): (c: Chamber)
    ensures Tower(c) && c.highest == 0
  {
    Chamber(set x | 0 <= x < ChamberWidth :: (x, 0), 0, 0, 0)
  }

  /** A rock appearing two units from the left wall and three empty rows
      above the tower is clear. */
  lemma SpawnClear(c: Chamber, rock: Rock)
    requires Tower(c) && WellShaped(rock)
    ensures Clear(c.settled, rock, 2, c.highest + 4)
  {
    CellsClearIff(c.settled, rock.cs, 2, c.highest + 4);
  }

  /** The rock that falls after `n` others: the shapes repeat. */
  function RockAt(rocks: seq<Rock>, n: nat): (r: Rock)
    requires Shapes(rocks)
    ensures WellShaped(r)
  {
    rocks[Wrap(n, |rocks|)]
  }

  /** A rock can only rest on something, so never with its bottom more than
      one row above the tower. */
  lemma NoRestInTheAir(c: Chamber, rock: Rock, x: int, y: int)
    requires Tower(c) && WellShaped(rock) && Obstructed(c.settled, rock, x, y)
    ensures y <= c.highest + 1
  {
    AnyBelowIff(c.settled, rock.cs, x, y);
    var i :| 0 <= i < |rock.cs| && (x + rock.cs[i].0, y + rock.cs[i].1 - 1) in c.settled;
  }

  /** The cells of a clear rock lie between the walls and within its
      height above `y`. */
  lemma {:induction false} CellsInside(settled: set<Coord>, cs: seq<Coord>, x: int, y: int, h: int)
    requires CellsClear(settled, cs, x, y)
    requires forall i :: 0 <= i < |cs| ==> 0 <= cs[i].1 < h
    ensures forall a, b :: (a, b) in Cells(cs, x, y) ==> 0 <= a < ChamberWidth && y <= b < y + h
    decreases |cs|
  {
    if cs != [] {
      assert forall i :: 0 <= i < |cs[1..]| ==> cs[1..][i] == cs[i + 1];
      CellsInside(settled, cs[1..], x, y, h);
    }
  }

  /** A rock resting at `(x, y)` settles: its cells join the settled ones,
      and the height becomes the larger of the old one and the rock's top,
      so it grows by at most the rock's height. */
  function Settle(c: Chamber, rock: Rock, x: int, y: int, used: nat): (r: Chamber)
    requires Tower(c) && WellShaped(rock) && y >= 1
    requires Clear(c.settled, rock, x, y) && Obstructed(c.settled, rock, x, y)
    ensures Tower(r) && c.settled <= r.settled && r.rocksUsed == c.rocksUsed + 1 && r.jetsUsed == used
    ensures c.highest <= r.highest <= c.highest + rock.h
  {
    NoRestInTheAir(c, rock, x, y);
    CellsInside(c.settled, rock.cs, x, y, rock.h);
    Chamber(c.settled + Cells(rock.cs, x, y), Max(c.highest, y + rock.h - 1), used, c.rocksUsed + 1)
  }

  /** One rock: the next shape appears two units from the left wall with
      three empty rows below it, falls and settles. */
  function Step(c: Chamber, jets: seq<Jet>, rocks: seq<Rock>): (r: Chamber)
    requires Tower(c) && jets != [] && Shapes(rocks)
    ensures Tower(r) && r.rocksUsed == c.rocksUsed + 1 && r.jetsUsed > c.jetsUsed
    ensures c.highest <= r.highest <= c.highest + RockAt(rocks, c.rocksUsed).h
    ensures c.settled <= r.settled
  {
    var rock := RockAt(rocks, c.rocksUsed);
    SpawnClear(c, rock);
    var f := Fall(c.settled, rock, jets, c.jetsUsed, 2, c.highest + 4);
    Settle(c, rock, f.0, f.1, f.2)
  }

  /** The chamber after `n` rocks. */
  function After(jets: seq<Jet>, rocks: seq<Rock>, n: nat): (c: Chamber)
    requires jets != [] && Shapes(rocks)
    ensures Tower(c) && c.rocksUsed == n && c.highest <= 4 * n
  {
    if n == 0 then Initial() else Step(After(jets, rocks, n - 1), jets, rocks)
  }

  /** The drop loop shared by both parts: the next shape appears, falls
      until it rests, its cells are added and `highest` is raised to its top
      if higher. */
  method DropRock(settled: set<Coord>, highest: int, rocks: seq<Rock>, rocksUsed: nat, jets: seq<Jet>, jetsUsed: nat)
    returns (settled': set<Coord>, highest': int, jetsUsed': nat)
    requires jets != [] && Shapes(rocks) && Tower(Chamber(settled, highest, jetsUsed, rocksUsed))
    ensures Chamber(settled', highest', jetsUsed', rocksUsed + 1) ==
            Step(Chamber(settled, highest, jetsUsed, rocksUsed), jets, rocks)
  {
    var rock := RockAt(rocks, rocksUsed);
    SpawnClear(Chamber(settled, highest, jetsUsed, rocksUsed), rock);
    var x, y;
    x, y, jetsUsed' := Drop(settled, rock, jets, jetsUsed, highest + 4);
    settled' := settled + Cells(rock.cs, x, y);
    highest' := Max(highest, y + rock.h - 1);
    StepIs(Chamber(settled, highest, jetsUsed, rocksUsed), jets, rocks, rock, x, y, jetsUsed');
  }

  /** The chamber after a step, given where the rock came to rest. */
  lemma StepIs(c: Chamber, jets: seq<Jet>, rocks: seq<Rock>, rock: Rock, x: int, y: int, used: nat)
    requires Tower(c) && jets != [] && Shapes(rocks)
    requires rock == RockAt(rocks, c.rocksUsed) && Clear(c.settled, rock, 2, c.highest + 4)
    requires (x, y, used) == Fall(c.settled, rock, jets, c.jetsUsed, 2, c.highest + 4)
    ensures Step(c, jets, rocks) ==
      Chamber(c.settled + Cells(rock.cs, x, y), Max(c.highest, y + rock.h - 1), used, c.rocksUsed + 1)
  {
  }

  /** The inner loop: from two units off the left wall at height `y0`, the
      rock is pushed and dropped until something is just below it. */
  method Drop(settled: set<Coord>, rock: Rock, jets: seq<Jet>, used: nat, y0: int)
    returns (x: int, y: int, used': nat)
    requires jets != [] && HasFloor(settled) && WellShaped(rock) && Clear(settled, rock, 2, y0) && y0 >= 1
    ensures (x, y, used') == Fall(settled, rock, jets, used, 2, y0)
  {
    x, y := 2, y0;
    used' := used;
    while true
      invariant y >= 1 && Clear(settled, rock, x, y)
      invariant Fall(settled, rock, jets, used', x, y) == Fall(settled, rock, jets, used, 2, y0)
      decreases y
    {
      FallUnfold(settled, rock, jets, used', x, y);
      var jet := JetAt(jets, used');
      used' := used' + 1;
      x := ShiftSideways(settled, rock, x, y, Dx(jet));
      if Obstructed(settled, rock, x, y) {
        return;
      }
      y := y - 1;
    }
  }

  /** One step of the fall: the rock is pushed and either rests there or
      drops a row, never through the floor. */
  lemma FallUnfold(settled: set<Coord>, rock: Rock, jets: seq<Jet>, used: nat, x: int, y: int)
    requires jets != [] && HasFloor(settled) && WellShaped(rock) && Clear(settled, rock, x, y) && y >= 1
    ensures var x' := ShiftSideways(settled, rock, x, y, Dx(JetAt(jets, used)));
      && Clear(settled, rock, x', y)
      && (Obstructed(settled, rock, x', y) ==> Fall(settled, rock, jets, used, x, y) == (x', y, used + 1))
      && (!Obstructed(settled, rock, x', y) ==>
            y > 1 && Clear(settled, rock, x', y - 1) && Fall(settled, rock, jets, used, x, y) == Fall(settled, rock, jets, used + 1, x', y - 1))
  {
    var x' := ShiftSideways(settled, rock, x, y, Dx(JetAt(jets, used)));
    ShiftKeepsClear(settled, rock, x, y, Dx(JetAt(jets, used)));
    if !Obstructed(settled, rock, x', y) {
      DropOne(settled, rock, x', y);
    }
  }

  /** The loop of part_1: the chamber after `count` rocks. */
  method DropRocks(jets: seq<Jet>, rocks: seq<Rock>, count: nat) returns (highest: int)
    requires jets != [] && Shapes(rocks)
    ensures highest == After(jets, rocks, count).highest
  {
    var c := Initial();
    var settled, jetsUsed := c.settled, 0;
    highest := 0;
    for i := 0 to count
      invariant Chamber(settled, highest, jetsUsed, i) == After(jets, rocks, i)
    {
      settled, highest, jetsUsed := DropRock(settled, highest, rocks, i, jets, jetsUsed);
    }
  }

  /** part_1: the tower's height after `count` rocks of the five shapes
      (2022 in the puzzle). */
  method Part1(jets: seq<Jet>, count: nat) returns (highest: int)
    requires jets != []
    ensures Shapes(Rocks) && highest == After(jets, Rocks, count).highest
  {
    RocksWellShaped();
    highest := DropRocks(jets, Rocks, count);
  }

  // ---------------------------------------------------------------------
  // Part 2: skipping whole cycles

  /** What part_2 notes after each rock: the jet index and rock index the
      next rock starts from, and the tower's height. */
  function Note(c: Chamber, jets: seq<Jet>, rocks: seq<Rock>): (int, int, int)
    requires jets != [] && rocks != []
  {
    (Wrap(c.jetsUsed, |jets|), Wrap(c.rocksUsed, |rocks|), c.highest)
  }

  /** The notes after rocks 1 to `n`. */
  function Patterns(jets: seq<Jet>, rocks: seq<Rock>, n: nat): (ps: seq<(int, int, int)>)
    requires jets != [] && Shapes(rocks)
    ensures |ps| == n
    ensures forall k :: 0 <= k < n ==> ps[k] == Note(After(jets, rocks, k + 1), jets, rocks)
  {
    hide Tower;
    if n == 0 then []
    else
      var ps, note := Patterns(jets, rocks, n - 1), Note(After(jets, rocks, n), jets, rocks);
      assert forall k :: 0 <= k < n - 1 ==> (ps + [note])[k] == ps[k];
      ps + [note]
  }

  datatype Option = None | Some(back: nat)

  predicate SameIndices(a: (int, int, int), b: (int, int, int))
  {
    a.0 == b.0 && a.1 == b.1
  }

  /** The `j`th note counting back from the one before the last. */
  function Back(ps: seq<(int, int, int)>, j: nat): (int, int, int)
    requires j + 2 <= |ps|
  {
    ps[|ps| - 2 - j]
  }

  /** How far back from the last note the closest earlier note with the same
      jet and rock index is, counting the one just before the last as 0. */
  function FindCycle(ps: seq<(int, int, int)>): (r: Option)
    requires |ps| >= 1
    ensures r.Some? ==> && r.back + 2 <= |ps|
                        && SameIndices(Back(ps, r.back), ps[|ps| - 1])
                        && forall j :: 0 <= j < r.back ==> !SameIndices(Back(ps, j), ps[|ps| - 1])
    ensures r.None? ==> forall i :: 0 <= i < |ps| - 1 ==> !SameIndices(ps[i], ps[|ps| - 1])
  {
    var r := FindFrom(ps, 0);
    if r.None? then
      assert forall i :: 0 <= i < |ps| - 1 ==> ps[i] == Back(ps, |ps| - 2 - i);
      r
    else r
  }

  function FindFrom(ps: seq<(int, int, int)>, k: nat): (r: Option)
    requires |ps| >= 1
    ensures r.Some? ==> && k <= r.back && r.back + 2 <= |ps|
                        && SameIndices(Back(ps, r.back), ps[|ps| - 1])
                        && forall j :: k <= j < r.back ==> !SameIndices(Back(ps, j), ps[|ps| - 1])
    ensures r.None? ==> forall j :: k <= j && j + 2 <= |ps| ==> !SameIndices(Back(ps, j), ps[|ps| - 1])
    decreases |ps| - k
  {
    if k + 2 > |ps| then None
    else if SameIndices(Back(ps, k), ps[|ps| - 1]) then Some(k)
    else FindFrom(ps, k + 1)
  }

  /** Every `len` rocks from rock `from` on, the tower grows by `gain`. */
  ghost predicate Periodic(jets: seq<Jet>, rocks: seq<Rock>, from: nat, len: nat, gain: int)
    requires jets != [] && Shapes(rocks)
  {
    forall k: nat :: k >= from ==> After(jets, rocks, k + len).highest == After(jets, rocks, k).highest + gain
  }

  /** Skipping `cycles` whole cycles adds `cycles` times the gain. */
  lemma {:induction false} SkipCycles(jets: seq<Jet>, rocks: seq<Rock>, from: nat, len: nat, gain: int, s: nat, cycles: nat)
    requires jets != [] && Shapes(rocks) && Periodic(jets, rocks, from, len, gain) && s >= from
    ensures After(jets, rocks, s + cycles * len).highest == After(jets, rocks, s).highest + cycles * gain
    decreases cycles
  {
    hide After;
    if cycles > 0 {
      SkipCycles(jets, rocks, from, len, gain, s, cycles - 1);
      var k: nat := s + (cycles - 1) * len;
      assert k + len == s + cycles * len by {
        assert (cycles - 1) * len + len == cycles * len;
      }
      assert (cycles - 1) * gain + gain == cycles * gain;
      assert After(jets, rocks, k + len).highest == After(jets, rocks, k).highest + gain;
    }
  }

  /** The loop of part_2 that notes every rock. */
  method NoteRocks(jets: seq<Jet>, rocks: seq<Rock>, warmup: nat)
    returns (settled: set<Coord>, highest: int, jetsUsed: nat, patterns: seq<(int, int, int)>)
    requires jets != [] && Shapes(rocks)
    ensures Chamber(settled, highest, jetsUsed, warmup) == After(jets, rocks, warmup)
    ensures patterns == Patterns(jets, rocks, warmup)
  {
    var c := Initial();
    settled, highest, jetsUsed := c.settled, 0, 0;
    var rocksUsed := 0;
    patterns := [];
    for i := 0 to warmup
      invariant rocksUsed == i
      invariant Chamber(settled, highest, jetsUsed, rocksUsed) == After(jets, rocks, i)
      invariant patterns == Patterns(jets, rocks, i)
    {
      settled, highest, jetsUsed := DropRock(settled, highest, rocks, rocksUsed, jets, jetsUsed);
      rocksUsed := rocksUsed + 1;
      WrapIsMod(jetsUsed, |jets|);
      WrapIsMod(rocksUsed, |rocks|);
      patterns := patterns + [(jetsUsed % |jets|, rocksUsed % |rocks|, highest)];
    }
  }

  /** The loop of part_2 that drops the rocks left over after whole cycles. */
  method DropMore(jets: seq<Jet>, rocks: seq<Rock>, settled: set<Coord>, highest: int, jetsUsed: nat,
                  done: nat, until: nat)
    returns (highest': int)
    requires jets != [] && Shapes(rocks) && done <= until
    requires Chamber(settled, highest, jetsUsed, done) == After(jets, rocks, done)
    ensures highest' == After(jets, rocks, until).highest
  {
    hide Step;
    var s, used := settled, jetsUsed;
    highest' := highest;
    for rocksUsed := done to until
      invariant Chamber(s, highest', used, rocksUsed) == After(jets, rocks, rocksUsed)
    {
      s, highest', used := DropRock(s, highest', rocks, rocksUsed, jets, used);
    }
  }

  /** part_2, for any cycle of shapes: simulates `warmup` rocks noting each
      (10000 in the puzzle), finds the cycle ending at the last note by jet
      and rock index only, simulates the rocks left over after whole cycles,
      and adds the height of the skipped cycles. If the tower really repeats
      with that period from the matched note on, the answer is the height
      after `target` rocks (10^12 in the puzzle). */
  method SkipAhead(jets: seq<Jet>, rocks: seq<Rock>, warmup: nat, target: nat) returns (r: int)
    requires jets != [] && Shapes(rocks) && 1 <= warmup <= target
    requires FindCycle(Patterns(jets, rocks, warmup)).Some?
    ensures var len := FindCycle(Patterns(jets, rocks, warmup)).back + 1;
            var gain := After(jets, rocks, warmup).highest - After(jets, rocks, warmup - len).highest;
      && r == After(jets, rocks, warmup + (target - warmup) % len).highest + gain * ((target - warmup) / len)
      && (Periodic(jets, rocks, warmup - len, len, gain) ==> r == After(jets, rocks, target).highest)
  {
    hide After, Step, Periodic;
    var settled, highest, jetsUsed, patterns := NoteRocks(jets, rocks, warmup);
    var rocksUsed := warmup;
    var back := FindCycle(patterns).back;
    var last, prev := patterns[|patterns| - 1], patterns[|patterns| - 2 - back];
    var cycleLen := back + 1;
    var cycleHeight := last.2 - prev.2;
    assert last == Note(After(jets, rocks, warmup), jets, rocks);
    assert prev == Note(After(jets, rocks, warmup - cycleLen), jets, rocks);
    ghost var gain := After(jets, rocks, warmup).highest - After(jets, rocks, warmup - cycleLen).highest;
    assert cycleHeight == gain;
    var remaining: nat := target - rocksUsed;
    var cycles: nat := remaining / cycleLen;
    remaining := remaining % cycleLen;
    DivMod(target - warmup, cycleLen, cycles, remaining);
    highest := DropMore(jets, rocks, settled, highest, jetsUsed, rocksUsed, rocksUsed + remaining);
    r := highest + cycleHeight * cycles;
    if Periodic(jets, rocks, warmup - cycleLen, cycleLen, cycleHeight) {
      SkipCycles(jets, rocks, warmup - cycleLen, cycleLen, cycleHeight, warmup + remaining, cycles);
    }
  }

  /** Whole cycles and the rocks left over make up the rocks still to drop. */
  lemma DivMod(a: nat, n: nat, q: nat, m: nat)
    requires n > 0 && q == a / n && m == a % n
    ensures a == q * n + m && a + 0 == m + q * n
  {
  }

  /** part_2 with the five shapes. */
  method Part2(jets: seq<Jet>, warmup: nat, target: nat) returns (r: int)
    requires jets != [] && 1 <= warmup <= target
    requires Shapes(Rocks) && FindCycle(Patterns(jets, Rocks, warmup)).Some?
    ensures var len := FindCycle(Patterns(jets, Rocks, warmup)).back + 1;
            var gain := After(jets, Rocks, warmup).highest - After(jets, Rocks, warmup - len).highest;
      && r == After(jets, Rocks, warmup + (target - warmup) % len).highest + gain * ((target - warmup) / len)
      && (Periodic(jets, Rocks, warmup - len, len, gain) ==> r == After(jets, Rocks, target).highest)
  {
    r := SkipAhead(jets, Rocks, warmup, target);
  }
}
