/** Day 18: the surface of a lava droplet made of unit cubes. Part 1
    counts every face of a cube that does not touch another cube of the
    droplet; part 2 counts only the faces whose neighbouring cell of air
    is connected to the open air beyond the droplet, found by flood-filling
    the air from each face and remembering which cells were found to be
    trapped and which escaped. */
module Day18 {
  import opened SetSums
  import opened Arith

  /** A unit cube by its integer coordinates. */
  type Cube = (int, int, int)

  /** Inclusive (min, max) ranges of the three coordinates. */
  type Bounds = ((int, int), (int, int), (int, int))

  /** Two cubes share a face: exactly one coordinate differs, and by one. */
  predicate Adjacent(a: Cube, b: Cube)
  {
    Abs(a.0 - b.0) + Abs(a.1 - b.1) + Abs(a.2 - b.2) == 1
  }

  /** The six cubes set_neighbours writes, in its order: x-1, x+1, y-1,
      y+1, z-1, z+1. */
  function Neighbours(c: Cube): (ns: seq<Cube>)
    ensures |ns| == 6
  {
    [(c.0 - 1, c.1, c.2), (c.0 + 1, c.1, c.2),
     (c.0, c.1 - 1, c.2), (c.0, c.1 + 1, c.2),
     (c.0, c.1, c.2 - 1), (c.0, c.1, c.2 + 1)]
  }

  /** The six neighbours are exactly the cubes sharing a face with `c`. */
  lemma NeighboursAreAdjacent(c: Cube, d: Cube)
    ensures d in Neighbours(c) <==> Adjacent(c, d)
  {
  }

  /** ... and they are six different cubes. */
  lemma NeighboursDistinct(c: Cube)
    ensures forall i, j :: 0 <= i < j < 6 ==> Neighbours(c)[i] != Neighbours(c)[j]
  {
  }

  /** set_neighbours fills a six-cube buffer in place. */
  method SetNeighbours(cube: Cube, neighbours: array<Cube>)
    requires neighbours.Length == 6
    modifies neighbours
    ensures neighbours[..] == Neighbours(cube)
  {
    neighbours[0] := (cube.0 - 1, cube.1, cube.2);
    neighbours[1] := (cube.0 + 1, cube.1, cube.2);
    neighbours[2] := (cube.0, cube.1 - 1, cube.2);
    neighbours[3] := (cube.0, cube.1 + 1, cube.2);
    neighbours[4] := (cube.0, cube.1, cube.2 - 1);
    neighbours[5] := (cube.0, cube.1, cube.2 + 1);
  }

  // ---------------------------------------------------------------------
  // Counting faces

  /** `iter().filter(p).count()` over a list of cubes. */
  function Count(ns: seq<Cube>, p: Cube -> bool): (k: nat)
    ensures k <= |ns|
  {
    if ns == [] then 0 else (if p(ns[0]) then 1 else 0) + Count(ns[1..], p)
  }

  /** Tests that agree on the list count the same. */
  lemma {:induction false} CountAgree(ns: seq<Cube>, p: Cube -> bool, q: Cube -> bool)
    requires forall n :: n in ns ==> p(n) == q(n)
    ensures Count(ns, p) == Count(ns, q)
  {
    if ns != [] {
      CountAgree(ns[1..], p, q);
    }
  }

  /** A weaker test counts no more. */
  lemma {:induction false} CountMonotone(ns: seq<Cube>, p: Cube -> bool, q: Cube -> bool)
    requires forall n :: n in ns && p(n) ==> q(n)
    ensures Count(ns, p) <= Count(ns, q)
  {
    if ns != [] {
      CountMonotone(ns[1..], p, q);
    }
  }

  /** For a list without repetitions, the count is the number of distinct
      cubes of the list that pass the test. */
  lemma {:induction false} CountIsCardinality(ns: seq<Cube>, p: Cube -> bool)
    requires forall i, j :: 0 <= i < j < |ns| ==> ns[i] != ns[j]
    ensures Count(ns, p) == |set n | n in ns && p(n)|
  {
    if ns != [] {
      var rest := ns[1..];
      CountIsCardinality(rest, p);
      var all := set n | n in ns && p(n);
      var tail := set n | n in rest && p(n);
      assert ns[0] !in rest;
      if p(ns[0]) {
        assert all == tail + {ns[0]};
      } else {
        assert all == tail;
      }
    }
  }

  /** The faces of `c` whose neighbouring cube passes `p`. */
  function FacesWhere(p: Cube -> bool): Cube -> int
  {
    c => Count(Neighbours(c), p)
  }

  /** A cube not in the droplet. */
  function Open(body: set<Cube>): Cube -> bool
  {
    n => n !in body
  }

  /** A cube of the set `s`. */
  function Member(s: set<Cube>): Cube -> bool
  {
    n => n in s
  }

  /** The surface area: every face of a droplet cube whose neighbour is
      not part of the droplet. */
  ghost function SurfaceArea(body: set<Cube>): int
  {
    SumOver(body, FacesWhere(Open(body)))
  }

  /** Summing, over the droplet, the faces whose neighbour passes `p`: the
      `map(..).sum()` of part_1 and of the end of part_2, which fill one
      neighbour buffer per cube and count from it. */
  method CountFaces(body: set<Cube>, p: Cube -> bool) returns (r: int)
    ensures r == SumOver(body, FacesWhere(p))
  {
    var neighbours := new Cube[6];
    r := 0;
    var todo := body;
    while todo != {}
      invariant todo <= body
      invariant r + SumOver(todo, FacesWhere(p)) == SumOver(body, FacesWhere(p))
      decreases todo
    {
      var cube :| cube in todo;
      SumOverRemove(todo, FacesWhere(p), cube);
      SetNeighbours(cube, neighbours);
      r := r + Count(neighbours[..], p);
      todo := todo - {cube};
    }
  }

  /** part_1: the surface area of the droplet. */
  method Part1(body: set<Cube>) returns (r: int)
    ensures r == SurfaceArea(body)
  {
    r := CountFaces(body, Open(body));
  }

  /** Every face is either open or covered. */
  lemma {:induction false} CountComplement(ns: seq<Cube>, body: set<Cube>)
    ensures Count(ns, Open(body)) + Count(ns, Member(body)) == |ns|
  {
    if ns != [] {
      CountComplement(ns[1..], body);
    }
  }

  /** A cube shows six faces less one for each droplet cube touching it. */
  lemma OpenFacesCount(body: set<Cube>, c: Cube)
    ensures FacesWhere(Open(body))(c) == 6 - |set n | n in body && Adjacent(c, n)|
  {
    NeighboursDistinct(c);
    CountIsCardinality(Neighbours(c), Member(body));
    CountComplement(Neighbours(c), body);
    var covered := set n | n in Neighbours(c) && Member(body)(n);
    var touching := set n | n in body && Adjacent(c, n);
    forall n ensures n in covered <==> n in touching {
      NeighboursAreAdjacent(c, n);
    }
    assert covered == touching;
  }

  /** A lone cube shows all six faces. */
  lemma LoneCube(c: Cube)
    ensures SurfaceArea({c}) == 6
  {
    SumOverRemove({c}, FacesWhere(Open({c})), c);
    assert {c} - {c} == {};
    OpenFacesCount({c}, c);
    assert (set n | n in {c} && Adjacent(c, n)) == {};
  }

  /** Two cubes sharing a face hide one face each: ten faces show. */
  lemma TwoTouchingCubes(a: Cube, b: Cube)
    requires Adjacent(a, b)
    ensures SurfaceArea({a, b}) == 10
  {
    var body := {a, b};
    SumOverRemove(body, FacesWhere(Open(body)), a);
    assert body - {a} == {b};
    SumOverRemove({b}, FacesWhere(Open(body)), b);
    assert {b} - {b} == {};
    OpenFacesCount(body, a);
    OpenFacesCount(body, b);
    assert (set n | n in body && Adjacent(a, n)) == {b};
    assert (set n | n in body && Adjacent(b, n)) == {a};
  }

  // ---------------------------------------------------------------------
  // The bounding box

  /** out_of_bounds: some coordinate lies below its minimum or above its
      maximum. */
  predicate OutOfBounds(b: Bounds, c: Cube)
  {
    c.0 < b.0.0 || c.0 > b.0.1 ||
    c.1 < b.1.0 || c.1 > b.1.1 ||
    c.2 < b.2.0 || c.2 > b.2.1
  }

  /** The cubes of the box. */
  ghost function Box(b: Bounds): set<Cube>
  {
    set x, y, z | b.0.0 <= x <= b.0.1 && b.1.0 <= y <= b.1.1 && b.2.0 <= z <= b.2.1 :: (x, y, z)
  }

  /** A cube is out of bounds exactly when it is not a cube of the box. */
  lemma OutOfBoundsIsOutsideBox(b: Bounds, c: Cube)
    ensures OutOfBounds(b, c) <==> c !in Box(b)
  {
    if !OutOfBounds(b, c) {
      assert (c.0, c.1, c.2) == c;
    }
  }

  /** The bounds are the droplet's smallest and largest coordinates: every
      cube lies within them and each of the six is reached by some cube. */
  ghost predicate Tight(body: set<Cube>, b: Bounds)
  {
    && (forall c :: c in body ==> !OutOfBounds(b, c))
    && (exists c :: c in body && c.0 == b.0.0) && (exists c :: c in body && c.0 == b.0.1)
    && (exists c :: c in body && c.1 == b.1.0) && (exists c :: c in body && c.1 == b.1.1)
    && (exists c :: c in body && c.2 == b.2.0) && (exists c :: c in body && c.2 == b.2.1)
  }

  function Min(a: int, b: int): int
  {
    if a <= b then a else b
  }

  function Max(a: int, b: int): int
  {
    if a >= b then a else b
  }

  /** The `min()`/`max()` of each coordinate over the droplet; the source
      unwraps them, so the droplet is not empty. */
  method BodyBounds(body: set<Cube>) returns (b: Bounds)
    requires body != {}
    ensures Tight(body, b)
  {
    var first :| first in body;
    b := ((first.0, first.0), (first.1, first.1), (first.2, first.2));
    var todo := body - {first};
    while todo != {}
      invariant todo <= body
      invariant forall c :: c in body && c !in todo ==> !OutOfBounds(b, c)
      invariant Tight(body - todo, b)
      decreases todo
    {
      var c :| c in todo;
      ghost var done := body - todo;
      b := ((Min(b.0.0, c.0), Max(b.0.1, c.0)),
            (Min(b.1.0, c.1), Max(b.1.1, c.1)),
            (Min(b.2.0, c.2), Max(b.2.1, c.2)));
      todo := todo - {c};
      assert body - todo == done + {c};
    }
  }

  // ---------------------------------------------------------------------
  // Paths through the air

  function Last(w: seq<Cube>): Cube
    requires w != []
  {
    w[|w| - 1]
  }

  /** A walk through the air: cubes not in the droplet, each sharing a face
      with the next. */
  ghost predicate Walk(body: set<Cube>, w: seq<Cube>)
    decreases |w|
  {
    && w != []
    && w[0] !in body
    && (|w| > 1 ==> Adjacent(w[0], w[1]) && Walk(body, w[1..]))
  }

  /** Air can flow from `a` to `b`. */
  ghost predicate Reaches(body: set<Cube>, a: Cube, b: Cube)
  {
    exists w :: Walk(body, w) && w[0] == a && Last(w) == b
  }

  lemma ReachesSelf(body: set<Cube>, a: Cube)
    requires a !in body
    ensures Reaches(body, a, a)
  {
    assert Walk(body, [a]);
  }

  lemma {:induction false} WalkSnoc(body: set<Cube>, w: seq<Cube>, x: Cube)
    requires Walk(body, w) && x !in body && Adjacent(Last(w), x)
    ensures Walk(body, w + [x])
    decreases |w|
  {
    if |w| > 1 {
      WalkSnoc(body, w[1..], x);
      assert (w + [x])[1..] == w[1..] + [x];
    } else {
      assert Walk(body, [x]);
      assert (w + [x])[1..] == [x];
    }
  }

  /** One more step through the air. */
  lemma ReachesStep(body: set<Cube>, a: Cube, p: Cube, c: Cube)
    requires Reaches(body, a, p) && Adjacent(p, c) && c !in body
    ensures Reaches(body, a, c)
  {
    var w :| Walk(body, w) && w[0] == a && Last(w) == p;
    WalkSnoc(body, w, c);
    assert Last(w + [c]) == c && (w + [c])[0] == a;
  }

  lemma {:induction false} WalkJoin(body: set<Cube>, v: seq<Cube>, w: seq<Cube>)
    requires Walk(body, v) && Walk(body, w) && Last(v) == w[0]
    ensures Walk(body, v + w[1..])
    decreases |v|
  {
    if |v| == 1 {
      assert v + w[1..] == w;
    } else {
      WalkJoin(body, v[1..], w);
      assert (v + w[1..])[1..] == v[1..] + w[1..];
    }
  }

  lemma ReachesTransitive(body: set<Cube>, a: Cube, b: Cube, c: Cube)
    requires Reaches(body, a, b) && Reaches(body, b, c)
    ensures Reaches(body, a, c)
  {
    var v :| Walk(body, v) && v[0] == a && Last(v) == b;
    var w :| Walk(body, w) && w[0] == b && Last(w) == c;
    WalkJoin(body, v, w);
    var u := v + w[1..];
    assert u[0] == a;
    assert Last(u) == c by {
      if |w| == 1 {
        assert u == v;
      } else {
        assert Last(u) == Last(w[1..]);
      }
    }
  }

  lemma {:induction false} WalkBack(body: set<Cube>, w: seq<Cube>)
    requires Walk(body, w)
    ensures Reaches(body, Last(w), w[0])
    decreases |w|
  {
    if |w| == 1 {
      ReachesSelf(body, w[0]);
    } else {
      WalkBack(body, w[1..]);
      assert Last(w[1..]) == Last(w);
      assert Adjacent(w[1], w[0]);
      ReachesStep(body, Last(w), w[1], w[0]);
    }
  }

  /** Air flows both ways. */
  lemma ReachesSymmetric(body: set<Cube>, a: Cube, b: Cube)
    requires Reaches(body, a, b)
    ensures Reaches(body, b, a)
  {
    var w :| Walk(body, w) && w[0] == a && Last(w) == b;
    WalkBack(body, w);
  }

  /** Air at `c` reaches a cube outside the bounds. */
  ghost predicate Escapes(body: set<Cube>, bounds: Bounds, c: Cube)
  {
    exists o :: OutOfBounds(bounds, o) && Reaches(body, c, o)
  }

  /** What classify keeps true of its two caches: every cube in `outside`
      is air that escapes the bounds, every cube in `inside` is air that
      cannot. */
  ghost predicate Sound(body: set<Cube>, bounds: Bounds, inside: set<Cube>, outside: set<Cube>)
  {
    && (forall x :: x in outside ==> x !in body && Escapes(body, bounds, x))
    && (forall x :: x in inside ==> x !in body && !Escapes(body, bounds, x))
  }

  /** The caches are disjoint and hold no droplet cube. */
  lemma SoundCachesDisjoint(body: set<Cube>, bounds: Bounds, inside: set<Cube>, outside: set<Cube>)
    requires Sound(body, bounds, inside, outside)
    ensures inside !! outside && inside !! body && outside !! body
  {
  }

  /** A set of in-bounds air cubes whose every neighbour is in the droplet
      or in the set traps the air: no walk leaves it. */
  lemma {:induction false} WalkStaysIn(body: set<Cube>, s: set<Cube>, w: seq<Cube>)
    requires forall x, n :: x in s && n in Neighbours(x) ==> n in body || n in s
    requires Walk(body, w) && w[0] in s
    ensures Last(w) in s
    decreases |w|
  {
    if |w| > 1 {
      NeighboursAreAdjacent(w[0], w[1]);
      WalkStaysIn(body, s, w[1..]);
      assert Last(w[1..]) == Last(w);
    }
  }

  lemma ClosedIsTrapped(body: set<Cube>, bounds: Bounds, s: set<Cube>)
    requires forall x, n :: x in s && n in Neighbours(x) ==> n in body || n in s
    requires forall x :: x in s ==> !OutOfBounds(bounds, x)
    ensures forall x :: x in s ==> !Escapes(body, bounds, x)
  {
    forall x | x in s && Escapes(body, bounds, x)
      ensures false
    {
      var o :| OutOfBounds(bounds, o) && Reaches(body, x, o);
      var w :| Walk(body, w) && w[0] == x && Last(w) == o;
      WalkStaysIn(body, s, w);
    }
  }

  /** If the fill from `start` meets escaping air, all it has seen escapes. */
  lemma SpreadEscape(body: set<Cube>, bounds: Bounds, start: Cube, seen: set<Cube>, c: Cube)
    requires forall s :: s in seen ==> Reaches(body, start, s)
    requires Reaches(body, start, c) && Escapes(body, bounds, c)
    ensures forall s :: s in seen ==> Escapes(body, bounds, s)
  {
    var o :| OutOfBounds(bounds, o) && Reaches(body, c, o);
    forall s | s in seen
      ensures Escapes(body, bounds, s)
    {
      ReachesSymmetric(body, start, s);
      ReachesTransitive(body, s, start, c);
      ReachesTransitive(body, s, c, o);
    }
  }

  /** If the fill from `start` meets trapped air, all it has seen is trapped. */
  lemma SpreadTrapped(body: set<Cube>, bounds: Bounds, start: Cube, seen: set<Cube>, c: Cube)
    requires forall s :: s in seen ==> Reaches(body, start, s)
    requires Reaches(body, start, c) && !Escapes(body, bounds, c)
    ensures forall s :: s in seen ==> !Escapes(body, bounds, s)
  {
    forall s | s in seen && Escapes(body, bounds, s)
      ensures false
    {
      var o :| OutOfBounds(bounds, o) && Reaches(body, s, o);
      ReachesSymmetric(body, start, c);
      ReachesTransitive(body, c, start, s);
      ReachesTransitive(body, c, s, o);
    }
  }

  // ---------------------------------------------------------------------
  // classify

  /** `neighbours.filter(|n| !seen.contains(n))`. */
  function Unseen(ns: seq<Cube>, seen: set<Cube>): (r: seq<Cube>)
    ensures |r| <= |ns|
    ensures forall n :: n in r <==> n in ns && n !in seen
  {
    if ns == [] then []
    else (if ns[0] in seen then [] else [ns[0]]) + Unseen(ns[1..], seen)
  }

  /** What the stack still owes: a droplet cube one pop; a seen cube one
      pop that pushes at most six droplet cubes; other cubes nothing, as
      popping them grows `seen` or ends the fill. */
  ghost function Weight(body: set<Cube>, seen: set<Cube>, stack: seq<Cube>): nat
    decreases |stack|
  {
    if stack == [] then 0
    else
      var x := Last(stack);
      Weight(body, seen, stack[..|stack| - 1]) + (if x in seen then 7 else if x in body then 1 else 0)
  }

  lemma WeightLast(body: set<Cube>, seen: set<Cube>, stack: seq<Cube>, x: Cube)
    ensures Weight(body, seen, stack + [x]) ==
      Weight(body, seen, stack) + (if x in seen then 7 else if x in body then 1 else 0)
  {
    assert (stack + [x])[..|stack|] == stack;
  }

  lemma {:induction false} WeightAppend(body: set<Cube>, seen: set<Cube>, a: seq<Cube>, b: seq<Cube>)
    ensures Weight(body, seen, a + b) == Weight(body, seen, a) + Weight(body, seen, b)
    decreases |b|
  {
    if b == [] {
      assert a + b == a;
    } else {
      WeightAppend(body, seen, a, b[..|b| - 1]);
      assert (a + b)[..|a + b| - 1] == a + b[..|b| - 1];
    }
  }

  lemma {:induction false} WeightUnseen(body: set<Cube>, seen: set<Cube>, r: seq<Cube>)
    requires forall n :: n in r ==> n !in seen
    ensures Weight(body, seen, r) <= |r|
    decreases |r|
  {
    if r != [] {
      WeightUnseen(body, seen, r[..|r| - 1]);
    }
  }

  /** What the flood fill from `start` knows between two pops: every seen
      cube is in-bounds air reached from `start`; every cube on the stack
      is `start` or was pushed by a seen cube; every neighbour of a seen
      cube is lava, seen, or still on the stack. */
  ghost predicate Filling(body: set<Cube>, bounds: Bounds, start: Cube, seen: set<Cube>, stack: seq<Cube>)
  {
    && (forall s :: s in seen ==> s !in body && !OutOfBounds(bounds, s) && Reaches(body, start, s))
    && (forall k :: k in stack ==> k == start || exists p :: p in seen && Adjacent(p, k))
    && (forall s, n :: s in seen && n in Neighbours(s) ==> n in body || n in seen || n in stack)
  }

  /** The fill starts with nothing seen and the classifee on the stack. */
  lemma FillingStart(body: set<Cube>, bounds: Bounds, start: Cube)
    ensures Filling(body, bounds, start, {}, [start])
  {
  }

  /** Popping a lava cube. */
  lemma FillingSkip(body: set<Cube>, bounds: Bounds, start: Cube, seen: set<Cube>, stack: seq<Cube>, x: Cube)
    requires Filling(body, bounds, start, seen, stack + [x]) && x in body
    ensures Filling(body, bounds, start, seen, stack)
  {
    forall k | k in stack
      ensures k == start || exists p :: p in seen && Adjacent(p, k)
    {
      assert k in stack + [x];
    }
  }

  /** A popped cube of air is reached from the start, like all seen. */
  lemma FillingPopped(body: set<Cube>, bounds: Bounds, start: Cube, seen: set<Cube>, stack: seq<Cube>, x: Cube)
    requires Filling(body, bounds, start, seen, stack + [x]) && x !in body
    ensures Reaches(body, start, x)
    ensures forall s :: s in seen ==> s !in body && Reaches(body, start, s)
  {
    assert x in stack + [x];
    if x == start {
      ReachesSelf(body, x);
    } else {
      var p :| p in seen && Adjacent(p, x);
      ReachesStep(body, start, p, x);
    }
  }

  /** Visiting a new cube of in-bounds air: it is seen, and its unseen
      neighbours are pushed. */
  lemma FillingVisit(body: set<Cube>, bounds: Bounds, start: Cube, seen: set<Cube>, stack: seq<Cube>, x: Cube)
    requires Filling(body, bounds, start, seen, stack + [x])
    requires x !in body && !OutOfBounds(bounds, x)
    ensures Filling(body, bounds, start, seen + {x}, stack + Unseen(Neighbours(x), seen + {x}))
  {
    FillingPopped(body, bounds, start, seen, stack, x);
    var seen', pushed := seen + {x}, Unseen(Neighbours(x), seen + {x});
    var stack' := stack + pushed;
    forall k | k in stack'
      ensures k == start || exists p :: p in seen' && Adjacent(p, k)
    {
      if k in pushed {
        NeighboursAreAdjacent(x, k);
        assert x in seen' && Adjacent(x, k);
      } else {
        assert k in stack + [x];
      }
    }
    forall s, n | s in seen' && n in Neighbours(s)
      ensures n in body || n in seen' || n in stack'
    {
      if s != x {
        assert n in body || n in seen || n in stack + [x];
      }
    }
  }

  /** An emptied stack: everything seen is trapped air. */
  lemma FillingDone(body: set<Cube>, bounds: Bounds, start: Cube, seen: set<Cube>)
    requires Filling(body, bounds, start, seen, [])
    ensures forall s :: s in seen ==> s !in body && !Escapes(body, bounds, s)
  {
    ClosedIsTrapped(body, bounds, seen);
  }

  /** classify: a depth-first flood fill of the air from `classifee` with
      an explicit stack. Meeting a cube out of bounds or one already known
      to escape puts everything seen into `outside`; meeting one known to
      be trapped puts it into `inside`; running out of cubes to visit
      means the air is enclosed, and it goes into `inside` too. */
  method Classify(body: set<Cube>, bounds: Bounds, inside: set<Cube>, outside: set<Cube>, classifee: Cube)
    returns (inside': set<Cube>, outside': set<Cube>)
    requires Sound(body, bounds, inside, outside)
    ensures Sound(body, bounds, inside', outside')
    ensures inside <= inside' && outside <= outside'
    ensures inside' == inside || outside' == outside
    ensures classifee !in body ==> classifee in inside' || classifee in outside'
  {
    hide Filling, Weight, Box, Reaches;
    inside', outside' := inside, outside;
    var seen: set<Cube> := {};
    var stack := [classifee];
    FillingStart(body, bounds, classifee);
    while stack != []
      invariant Filling(body, bounds, classifee, seen, stack)
      invariant classifee in body || classifee in seen || (seen == {} && stack == [classifee])
      invariant inside' == inside && outside' == outside
      decreases Box(bounds) - seen, Weight(body, seen, stack)
    {
      var cube := stack[|stack| - 1];
      ghost var before := stack;
      stack := stack[..|stack| - 1];
      assert before == stack + [cube];
      WeightLast(body, seen, stack, cube);
      if cube in body {
        FillingSkip(body, bounds, classifee, seen, stack, cube);
        assert Weight(body, seen, stack) < Weight(body, seen, before);
        continue;
      }
      FillingPopped(body, bounds, classifee, seen, stack, cube);
      if OutOfBounds(bounds, cube) {
        seen := seen + {cube};
        ReachesSelf(body, cube);
        SpreadEscape(body, bounds, classifee, seen, cube);
        outside' := outside' + seen;
        return;
      } else if cube in outside' {
        SpreadEscape(body, bounds, classifee, seen, cube);
        outside' := outside' + seen;
        return;
      } else if cube in inside' {
        SpreadTrapped(body, bounds, classifee, seen, cube);
        inside' := inside' + seen;
        return;
      } else {
        var neighbours := new Cube[6];
        SetNeighbours(cube, neighbours);
        FillingVisit(body, bounds, classifee, seen, stack, cube);
        ghost var seenBefore := seen;
        seen := seen + {cube};
        var pushed := Unseen(neighbours[..], seen);
        stack := stack + pushed;
        if cube in seenBefore {
          assert seen == seenBefore;
          WeightAppend(body, seen, before[..|before| - 1], pushed);
          WeightUnseen(body, seen, pushed);
          assert Weight(body, seen, stack) < Weight(body, seen, before);
        } else {
          OutOfBoundsIsOutsideBox(bounds, cube);
          assert cube in Box(bounds) - seenBefore;
          assert cube !in Box(bounds) - seen;
        }
      }
    }
    FillingDone(body, bounds, classifee, seen);
    inside' := inside' + seen;
  }

  // ---------------------------------------------------------------------
  // part_2

  /** Classifying the neighbour of every face of the droplet, in any order:
      afterwards each such neighbour that is air is in one of the caches. */
  method ClassifyFaces(body: set<Cube>, bounds: Bounds) returns (inside: set<Cube>, outside: set<Cube>)
    ensures Sound(body, bounds, inside, outside)
    ensures forall c, n :: c in body && n in Neighbours(c) && n !in body ==> n in inside || n in outside
  {
    inside, outside := {}, {};
    var neighbours := new Cube[6];
    var todo := body;
    while todo != {}
      invariant todo <= body
      invariant Sound(body, bounds, inside, outside)
      invariant forall c, n :: c in body && c !in todo && n in Neighbours(c) && n !in body ==>
        n in inside || n in outside
      decreases todo
    {
      var cube :| cube in todo;
      SetNeighbours(cube, neighbours);
      for i := 0 to 6
        invariant neighbours[..] == Neighbours(cube)
        invariant Sound(body, bounds, inside, outside)
        invariant forall c, n :: c in body && c !in todo && n in Neighbours(c) && n !in body ==>
          n in inside || n in outside
        invariant forall j :: 0 <= j < i && neighbours[j] !in body ==>
          neighbours[j] in inside || neighbours[j] in outside
      {
        inside, outside := Classify(body, bounds, inside, outside, neighbours[i]);
      }
      todo := todo - {cube};
    }
  }

  /** Beyond the droplet: past all of its cubes along some axis. */
  ghost predicate Beyond(body: set<Cube>, o: Cube)
  {
    || (forall c :: c in body ==> o.0 < c.0) || (forall c :: c in body ==> o.0 > c.0)
    || (forall c :: c in body ==> o.1 < c.1) || (forall c :: c in body ==> o.1 > c.1)
    || (forall c :: c in body ==> o.2 < c.2) || (forall c :: c in body ==> o.2 > c.2)
  }

  /** Exterior air: it can flow to somewhere beyond the droplet. */
  ghost predicate Exterior(body: set<Cube>, n: Cube)
  {
    exists o :: Beyond(body, o) && Reaches(body, n, o)
  }

  ghost function ExteriorOf(body: set<Cube>): Cube -> bool
  {
    n => Exterior(body, n)
  }

  /** The exterior surface area: the faces whose neighbour is exterior air. */
  ghost function ExteriorSurfaceArea(body: set<Cube>): int
  {
    SumOver(body, FacesWhere(ExteriorOf(body)))
  }

  /** With the droplet's own bounds, leaving the bounds is getting beyond
      the droplet. */
  lemma OutOfTightBounds(body: set<Cube>, b: Bounds, o: Cube)
    requires Tight(body, b)
    ensures OutOfBounds(b, o) <==> Beyond(body, o)
  {
  }

  lemma EscapesIsExterior(body: set<Cube>, b: Bounds, n: Cube)
    requires Tight(body, b)
    ensures Escapes(body, b, n) <==> Exterior(body, n)
  {
    if Escapes(body, b, n) {
      var o :| OutOfBounds(b, o) && Reaches(body, n, o);
      OutOfTightBounds(body, b, o);
    }
    if Exterior(body, n) {
      var o :| Beyond(body, o) && Reaches(body, n, o);
      OutOfTightBounds(body, b, o);
    }
  }

  /** part_2: the exterior surface area of the droplet. */
  method Part2(body: set<Cube>) returns (r: int)
    requires body != {}
    ensures r == ExteriorSurfaceArea(body)
  {
    var bounds := BodyBounds(body);
    var inside, outside := ClassifyFaces(body, bounds);
    r := CountFaces(body, Member(outside));
    forall c | c in body
      ensures FacesWhere(Member(outside))(c) == FacesWhere(ExteriorOf(body))(c)
    {
      forall n | n in Neighbours(c)
        ensures Member(outside)(n) == ExteriorOf(body)(n)
      {
        EscapesIsExterior(body, bounds, n);
        if n in body {
          assert !Exterior(body, n);
        }
      }
      CountAgree(Neighbours(c), Member(outside), ExteriorOf(body));
    }
    SumOverAgree(body, FacesWhere(Member(outside)), FacesWhere(ExteriorOf(body)));
  }

  /** Droplet cubes are never exterior air. */
  lemma NotExteriorInBody(body: set<Cube>, n: Cube)
    requires n in body
    ensures !Exterior(body, n)
  {
  }

  /** The exterior surface is part of the surface. */
  lemma ExteriorWithinSurface(body: set<Cube>)
    ensures ExteriorSurfaceArea(body) <= SurfaceArea(body)
  {
    forall c | c in body
      ensures FacesWhere(ExteriorOf(body))(c) <= FacesWhere(Open(body))(c)
    {
      forall n | n in Neighbours(c) && ExteriorOf(body)(n)
        ensures Open(body)(n)
      {
        if n in body {
          NotExteriorInBody(body, n);
        }
      }
      CountMonotone(Neighbours(c), ExteriorOf(body), Open(body));
    }
    SumOverMonotone(body, FacesWhere(ExteriorOf(body)), FacesWhere(Open(body)));
  }
}
