/** Day 20: decrypting grove coordinates by "mixing" a circular list of
    numbers. Each number, in its original order, moves forward or back
    around the circle as many places as its value. `mix` keeps two arrays
    in step: `order`, indexed by original position, holds each number with
    its current position, and `buffer`, indexed by current position, holds
    each number with its original position. */
module Day20 {
  import opened Arith

  /** A number with a position: the current one in `order`, the original
      one in `buffer`. */
  type Slot = (int, nat)

  // ---------------------------------------------------------------------
  // Moving one element

  /** The list with the element at `from` taken out and put back in at
      `to`; the elements between shift by one to close the gap. */
  function Move<T>(s: seq<T>, from: nat, to: nat): (r: seq<T>)
    requires from < |s| && to < |s|
    ensures |r| == |s|
  {
    if from < to then s[..from] + s[from + 1..to + 1] + [s[from]] + s[to + 1..]
    else if to < from then s[..to] + [s[from]] + s[to..from] + s[from + 1..]
    else s
  }

  /** The list without its element at `i`. */
  function Remove<T>(s: seq<T>, i: nat): (r: seq<T>)
    requires i < |s|
    ensures |r| == |s| - 1
  {
    s[..i] + s[i + 1..]
  }

  /** Moving keeps every element: the result is a permutation. */
  lemma MovePermutes<T>(s: seq<T>, from: nat, to: nat)
    requires from < |s| && to < |s|
    ensures multiset(Move(s, from, to)) == multiset(s)
  {
    if from < to {
      var a, b, c := s[..from], s[from + 1..to + 1], s[to + 1..];
      assert s == a + [s[from]] + b + c;
      assert Move(s, from, to) == a + b + [s[from]] + c;
    } else if to < from {
      var a, b, c := s[..to], s[to..from], s[from + 1..];
      assert s == a + b + [s[from]] + c;
      assert Move(s, from, to) == a + [s[from]] + b + c;
    }
  }

  /** The moved element lands at `to`, and the others keep their order. */
  lemma MoveLands<T>(s: seq<T>, from: nat, to: nat)
    requires from < |s| && to < |s|
    ensures Move(s, from, to)[to] == s[from]
    ensures Remove(Move(s, from, to), to) == Remove(s, from)
  {
    var r := Move(s, from, to);
    if from < to {
      assert r[..to] == s[..from] + s[from + 1..to + 1];
      assert r[to + 1..] == s[to + 1..];
      assert s[from + 1..] == s[from + 1..to + 1] + s[to + 1..];
    } else if to < from {
      assert r[..to] == s[..to];
      assert r[to + 1..] == s[to..from] + s[from + 1..];
      assert s[..from] == s[..to] + s[to..from];
    }
  }

  /** Element by element: the slots between `from` and `to` take their
      neighbour's element, `to` takes the moved one, the rest stay. */
  lemma MoveAt<T>(s: seq<T>, from: nat, to: nat, i: nat)
    requires from < |s| && to < |s| && i < |s|
    ensures Move(s, from, to)[i] ==
      if i == to then s[from]
      else if from <= i < to then s[i + 1]
      else if to < i <= from then s[i - 1]
      else s[i]
  {
  }

  // ---------------------------------------------------------------------
  // Where an element goes

  /** The target index of an element at `current` with value `value` in a
      list of `len`: an index of the list, and the same place on the circle,
      modulo `len - 1`, as moving `value` steps along it. The sum is kept
      when it is already an index, otherwise reduced modulo `len - 1`, the
      number of gaps the element can sit in once it is taken out of the
      circle. (With a single element the
      source divides by zero instead; mix requires that its value be 0.) */
  function Target(current: nat, value: int, len: nat): (r: int)
    ensures current < len ==> 0 <= r < len
    ensures 2 <= len ==> r % (len - 1) == (current + value) % (len - 1)
  {
    var t := current + value;
    if 0 <= t < len then t
    else if len >= 2 then ModAddMod(t, 0, len - 1); t % (len - 1)
    else 0
  }

  /** Subtracting the multiples of `d` leaves the remainder. */
  lemma RemainderStep(t: int, d: int)
    requires d > 0
    ensures t - d * (t / d) == t % d && 0 <= t % d < d
  {
  }

  /** The two `while` loops of mix: subtracting `(len - 1) * div_euclid(t,
      len - 1)` is taking the Euclidean remainder, and a remainder is
      below `len - 1`, so each loop runs at most once. */
  method ReduceTarget(current: nat, value: int, len: nat) returns (target: nat)
    requires current < len
    requires len >= 2 || value == 0
    ensures target == Target(current, value, len)
  {
    var t := current + value;
    ghost var t0 := t;
    while t < 0
      invariant 0 <= t0 < len ==> t == t0
      invariant t == t0 || (len >= 2 && t == t0 % (len - 1))
      decreases if t < 0 then 1 else 0
    {
      RemainderStep(t, len - 1);
      t := t - (len - 1) * (t / (len - 1));
    }
    while t >= len
      invariant t >= 0
      invariant 0 <= t0 < len ==> t == t0
      invariant t == t0 || (len >= 2 && t == t0 % (len - 1))
      decreases if t >= len then 1 else 0
    {
      RemainderStep(t, len - 1);
      t := t - (len - 1) * (t / (len - 1));
    }
    target := t;
  }

  // ---------------------------------------------------------------------
  // The mixing, as a function of the list

  /** The numbers with their original positions, as mix starts. */
  function Pairs(ct: seq<int>): (r: seq<Slot>)
    ensures |r| == |ct|
    ensures forall i :: 0 <= i < |ct| ==> r[i] == (ct[i], i)
  {
    seq(|ct|, i requires 0 <= i < |ct| => (ct[i], i))
  }

  /** The numbers alone, as mix returns them. */
  function Values(s: seq<Slot>): (r: seq<int>)
    ensures |r| == |s|
    ensures forall i :: 0 <= i < |s| ==> r[i] == s[i].0
  {
    seq(|s|, i requires 0 <= i < |s| => s[i].0)
  }

  /** The current position of the number first at position `k`: the first
      slot that carries `k`, or the length if none does. */
  function Locate(s: seq<Slot>, k: nat): (p: nat)
    ensures p <= |s|
    ensures p < |s| ==> s[p].1 == k
    ensures forall j :: 0 <= j < p ==> s[j].1 != k
  {
    if s == [] then 0
    else if s[0].1 == k then 0
    else 1 + Locate(s[1..], k)
  }

  /** One step of the mix: the number first at `k` moves to its target. */
  function MixStep(s: seq<Slot>, k: nat): seq<Slot>
  {
    var p := Locate(s, k);
    if p == |s| then s
    else
      var t := Target(p, s[p].0, |s|);
      if 0 <= t < |s| then Move(s, p, t) else s
  }

  /** The step once the number and its target are known. */
  lemma MixStepAt(s: seq<Slot>, k: nat, p: nat, t: int)
    requires p < |s| && Locate(s, k) == p
    requires t == Target(p, s[p].0, |s|) && 0 <= t < |s|
    ensures MixStep(s, k) == Move(s, p, t)
  {
  }

  /** The steps for the numbers first at `k`, `k + 1`, ..., in order. */
  function MixFrom(s: seq<Slot>, k: nat): seq<Slot>
    decreases |s| - k
  {
    if k >= |s| then s else MixFrom(MixStep(s, k), k + 1)
  }

  /** `mixes` rounds of steps. */
  function Mixing(s: seq<Slot>, mixes: nat): seq<Slot>
  {
    if mixes == 0 then s else MixFrom(Mixing(s, mixes - 1), 0)
  }

  lemma ValuesMove(s: seq<Slot>, from: nat, to: nat)
    requires from < |s| && to < |s|
    ensures Values(Move(s, from, to)) == Move(Values(s), from, to)
  {
    forall i | 0 <= i < |s|
      ensures Values(Move(s, from, to))[i] == Move(Values(s), from, to)[i]
    {
      MoveAt(s, from, to, i);
      MoveAt(Values(s), from, to, i);
    }
  }

  lemma MixStepPermutes(s: seq<Slot>, k: nat)
    ensures |MixStep(s, k)| == |s|
    ensures multiset(Values(MixStep(s, k))) == multiset(Values(s))
  {
    var p := Locate(s, k);
    if p < |s| {
      var t := Target(p, s[p].0, |s|);
      if 0 <= t < |s| {
        ValuesMove(s, p, t);
        MovePermutes(Values(s), p, t);
      }
    }
  }

  lemma {:induction false} MixFromPermutes(s: seq<Slot>, k: nat)
    ensures |MixFrom(s, k)| == |s|
    ensures multiset(Values(MixFrom(s, k))) == multiset(Values(s))
    decreases |s| - k
  {
    if k < |s| {
      MixStepPermutes(s, k);
      MixFromPermutes(MixStep(s, k), k + 1);
    }
  }

  /** Mixing only rearranges the numbers. */
  lemma {:induction false} MixingPermutes(s: seq<Slot>, mixes: nat)
    ensures |Mixing(s, mixes)| == |s|
    ensures multiset(Values(Mixing(s, mixes))) == multiset(Values(s))
  {
    hide MixFrom, MixStep, Values;
    if mixes > 0 {
      MixingPermutes(s, mixes - 1);
      MixFromPermutes(Mixing(s, mixes - 1), 0);
    }
  }

  lemma ValuesOfPairs(ct: seq<int>)
    ensures Values(Pairs(ct)) == ct
  {
  }

  // ---------------------------------------------------------------------
  // The two arrays of mix

  /** The invariant mix checks with its panic: each number's entry in
      `order` gives its slot in `buffer`, and each slot of `buffer` names
      the number whose entry points back at it. */
  ghost predicate Tracks(ct: seq<int>, order: seq<Slot>, buffer: seq<Slot>)
  {
    && |order| == |ct| && |buffer| == |ct|
    && (forall k :: 0 <= k < |ct| ==>
          order[k].0 == ct[k] && order[k].1 < |ct| && buffer[order[k].1] == (ct[k], k))
    && (forall j :: 0 <= j < |ct| ==> buffer[j].1 < |ct| && order[buffer[j].1].1 == j)
  }

  /** The same while number `m` is out of the buffer: slot `hole` may hold
      anything and `order[m]`'s position is stale. */
  ghost predicate Hole(ct: seq<int>, order: seq<Slot>, buffer: seq<Slot>, m: nat, hole: nat)
  {
    && |order| == |ct| && |buffer| == |ct| && m < |ct| && hole < |ct|
    && order[m].0 == ct[m]
    && (forall k :: 0 <= k < |ct| && k != m ==>
          order[k].0 == ct[k] && order[k].1 < |ct| && order[k].1 != hole &&
          buffer[order[k].1] == (ct[k], k))
    && (forall j :: 0 <= j < |ct| && j != hole ==>
          buffer[j].1 < |ct| && buffer[j].1 != m && order[buffer[j].1].1 == j)
  }

  /** What Tracks says of number `k`. */
  lemma TracksAt(ct: seq<int>, order: seq<Slot>, buffer: seq<Slot>, k: nat)
    requires Tracks(ct, order, buffer) && k < |order|
    ensures |order| == |buffer| == |ct|
    ensures order[k].0 == ct[k] && order[k].1 < |ct| && buffer[order[k].1] == (ct[k], k)
  {
  }

  lemma TracksStart(ct: seq<int>)
    ensures Tracks(ct, Pairs(ct), Pairs(ct))
  {
  }

  /** In a tracked buffer, a number's slot is the first to carry it. */
  lemma TracksLocate(ct: seq<int>, order: seq<Slot>, buffer: seq<Slot>, k: nat)
    requires Tracks(ct, order, buffer) && k < |ct|
    ensures Locate(buffer, k) == order[k].1
  {
    var p := Locate(buffer, k);
    assert buffer[order[k].1].1 == k;
    assert p < |buffer|;
    assert order[buffer[p].1].1 == p;
  }

  /** Taking number `m` out of its slot leaves a hole there. */
  lemma TracksOpen(ct: seq<int>, order: seq<Slot>, buffer: seq<Slot>, m: nat)
    requires Tracks(ct, order, buffer) && m < |ct|
    ensures Hole(ct, order, buffer, m, order[m].1)
  {
    forall k | 0 <= k < |ct| && k != m
      ensures order[k].1 != order[m].1
    {
      assert buffer[order[k].1].1 == k && buffer[order[m].1].1 == m;
    }
  }

  /** Putting number `m` into the hole restores the invariant. */
  lemma HoleClose(ct: seq<int>, order: seq<Slot>, buffer: seq<Slot>, m: nat, hole: nat)
    requires Hole(ct, order, buffer, m, hole)
    ensures Tracks(ct, order[m := (order[m].0, hole)], buffer[hole := (ct[m], m)])
  {
  }

  /** Moving the number at `j` down into the hole at `j - 1`. */
  lemma HoleLeft(ct: seq<int>, order: seq<Slot>, buffer: seq<Slot>, m: nat, j: nat)
    requires 0 < j < |ct| && Hole(ct, order, buffer, m, j - 1)
    ensures buffer[j].1 < |ct|
    ensures var b := buffer[j].1;
      Hole(ct, order[b := (order[b].0, j - 1)], buffer[j - 1 := buffer[j]], m, j)
  {
    var b := buffer[j].1;
    forall k | 0 <= k < |ct| && k != m && k != b
      ensures order[k].1 != j
    {
      assert buffer[order[k].1].1 == k;
    }
    forall j' | 0 <= j' < |ct| && j' != j && j' != j - 1
      ensures buffer[j'].1 != b
    {
      assert order[buffer[j'].1].1 == j';
    }
  }

  /** Moving the number at `j` up into the hole at `j + 1`. */
  lemma HoleRight(ct: seq<int>, order: seq<Slot>, buffer: seq<Slot>, m: nat, j: nat)
    requires j + 1 < |ct| && Hole(ct, order, buffer, m, j + 1)
    ensures buffer[j].1 < |ct|
    ensures var b := buffer[j].1;
      Hole(ct, order[b := (order[b].0, j + 1)], buffer[j + 1 := buffer[j]], m, j)
  {
    var b := buffer[j].1;
    forall k | 0 <= k < |ct| && k != m && k != b
      ensures order[k].1 != j
    {
      assert buffer[order[k].1].1 == k;
    }
    forall j' | 0 <= j' < |ct| && j' != j && j' != j + 1
      ensures buffer[j'].1 != b
    {
      assert order[buffer[j'].1].1 == j';
    }
  }

  /** The forward loop: slots `current + 1 ..= target` shift down by one,
      each number's entry in `order` following it. */
  method ShiftDown(ghost ct: seq<int>, order: array<Slot>, buffer: array<Slot>, ghost m: nat,
                   current: nat, target: nat)
    requires order != buffer && current < target < buffer.Length
    requires |ct| == order.Length == buffer.Length
    requires Hole(ct, order[..], buffer[..], m, current)
    modifies order, buffer
    ensures Hole(ct, order[..], buffer[..], m, target)
    ensures forall x :: 0 <= x < buffer.Length ==>
      buffer[x] == if current <= x < target then old(buffer[x + 1]) else old(buffer[x])
  {
    hide Hole;
    for j := current + 1 to target + 1
      invariant Hole(ct, order[..], buffer[..], m, j - 1)
      invariant forall x :: 0 <= x < buffer.Length ==>
        buffer[x] == if current <= x < j - 1 then old(buffer[x + 1]) else old(buffer[x])
    {
      HoleLeft(ct, order[..], buffer[..], m, j);
      var beingMoved := buffer[j];
      order[beingMoved.1] := (order[beingMoved.1].0, j - 1);
      buffer[j - 1] := beingMoved;
    }
  }

  /** The backward loop: slots `target ..= current - 1` shift up by one,
      from the top down. */
  method ShiftUp(ghost ct: seq<int>, order: array<Slot>, buffer: array<Slot>, ghost m: nat,
                 current: nat, target: nat)
    requires order != buffer && target < current < buffer.Length
    requires |ct| == order.Length == buffer.Length
    requires Hole(ct, order[..], buffer[..], m, current)
    modifies order, buffer
    ensures Hole(ct, order[..], buffer[..], m, target)
    ensures forall x :: 0 <= x < buffer.Length ==>
      buffer[x] == if target < x <= current then old(buffer[x - 1]) else old(buffer[x])
  {
    hide Hole;
    var j := current;
    while j > target
      invariant target <= j <= current
      invariant Hole(ct, order[..], buffer[..], m, j)
      invariant forall x :: 0 <= x < buffer.Length ==>
        buffer[x] == if j < x <= current then old(buffer[x - 1]) else old(buffer[x])
    {
      j := j - 1;
      HoleRight(ct, order[..], buffer[..], m, j);
      var beingMoved := buffer[j];
      order[beingMoved.1] := (order[beingMoved.1].0, j + 1);
      buffer[j + 1] := beingMoved;
    }
  }

  /** One turn of mix's inner loop: the number first at `i` moves to its
      target; the check that would panic never fails. */
  method MixOne(ghost ct: seq<int>, order: array<Slot>, buffer: array<Slot>, i: nat)
    requires order != buffer && i < order.Length
    requires |ct| == order.Length == buffer.Length
    requires Tracks(ct, order[..], buffer[..])
    requires |ct| != 1 || ct[0] == 0
    modifies order, buffer
    ensures Tracks(ct, order[..], buffer[..])
    ensures buffer[..] == MixStep(old(buffer[..]), i)
  {
    hide Tracks, Hole, MixStep, Move;
    ghost var start := buffer[..];
    TracksAt(ct, order[..], buffer[..], i);
    var len := order.Length;
    var current := order[i].1;
    var target := ReduceTarget(current, order[i].0, len);
    if buffer[current].0 != order[i].0 {
      assert false;
    }
    TracksLocate(ct, order[..], buffer[..], i);
    MixStepAt(start, i, current, target);
    TracksOpen(ct, order[..], buffer[..], i);
    var beingMixed := buffer[current];
    if current < target {
      ShiftDown(ct, order, buffer, i, current, target);
    } else if current > target {
      ShiftUp(ct, order, buffer, i, current, target);
    }
    HoleClose(ct, order[..], buffer[..], i, target);
    order[beingMixed.1] := (order[beingMixed.1].0, target);
    buffer[target] := beingMixed;
    forall x | 0 <= x < len
      ensures buffer[x] == Move(start, current, target)[x]
    {
      MoveAt(start, current, target, x);
    }
  }

  /** One round: every number moves once, in its original order. */
  method MixRound(ghost ct: seq<int>, order: array<Slot>, buffer: array<Slot>)
    requires order != buffer
    requires |ct| == order.Length == buffer.Length
    requires Tracks(ct, order[..], buffer[..])
    requires |ct| != 1 || ct[0] == 0
    modifies order, buffer
    ensures Tracks(ct, order[..], buffer[..])
    ensures buffer[..] == MixFrom(old(buffer[..]), 0)
  {
    hide Tracks;
    for i := 0 to order.Length
      invariant Tracks(ct, order[..], buffer[..])
      invariant MixFrom(buffer[..], i) == MixFrom(old(buffer[..]), 0)
    {
      MixOne(ct, order, buffer, i);
    }
  }

  /** The two arrays as mix builds them: each number with its own
      position. */
  method NewArrays(ct: seq<int>) returns (order: array<Slot>, buffer: array<Slot>)
    ensures fresh(order) && fresh(buffer) && order != buffer
    ensures order.Length == buffer.Length == |ct|
    ensures Tracks(ct, order[..], buffer[..])
    ensures buffer[..] == Pairs(ct)
  {
    var n := |ct|;
    order := new Slot[n](i requires 0 <= i < n => (ct[i], i));
    buffer := new Slot[n](i requires 0 <= i < n => (ct[i], i));
    assert order[..] == Pairs(ct) && buffer[..] == Pairs(ct);
    TracksStart(ct);
  }

  /** mix: `mixes` rounds over the two arrays, then the numbers in their
      final order. A single number must be 0 (any other value divides by
      zero in the source). */
  method Mix(ct: seq<int>, mixes: nat) returns (plain: seq<int>)
    requires |ct| != 1 || ct[0] == 0
    ensures plain == Values(Mixing(Pairs(ct), mixes))
    ensures multiset(plain) == multiset(ct)
    ensures mixes == 0 ==> plain == ct
  {
    hide Tracks;
    var order, buffer := NewArrays(ct);
    for m := 0 to mixes
      invariant Tracks(ct, order[..], buffer[..])
      invariant buffer[..] == Mixing(Pairs(ct), m)
    {
      MixRound(ct, order, buffer);
    }
    plain := Values(buffer[..]);
    MixingPermutes(Pairs(ct), mixes);
    ValuesOfPairs(ct);
  }

  // ---------------------------------------------------------------------
  // coordinate_sum

  /** `position(|&x| x == 0).unwrap()`: the first 0. */
  function FirstZero(s: seq<int>): (z: nat)
    requires 0 in s
    ensures z < |s| && s[z] == 0
    ensures forall j :: 0 <= j < z ==> s[j] != 0
  {
    if s[0] == 0 then 0 else 1 + FirstZero(s[1..])
  }

  /** The numbers 1000, 2000 and 3000 places after the first 0, counting
      round the circle. */
  function CoordinateSum(plain: seq<int>): int
    requires 0 in plain
  {
    var z := FirstZero(plain);
    plain[(z + 1000) % |plain|] + plain[(z + 2000) % |plain|] + plain[(z + 3000) % |plain|]
  }

  /** The list read from position `r` round to `r - 1`. */
  function Rotate(s: seq<int>, r: nat): (t: seq<int>)
    requires r <= |s|
    ensures |t| == |s|
  {
    s[r..] + s[..r]
  }

  lemma RotateAt(s: seq<int>, r: nat, i: nat)
    requires r <= |s| && i < |s|
    ensures Rotate(s, r)[i] == s[(i + r) % |s|]
  {
    var n := |s|;
    if i + r < n {
      ModUnique(i + r, n, 0, i + r);
    } else {
      ModUnique(i + r, n, 1, i + r - n);
    }
  }

  /** The list has exactly one 0, as the puzzle promises. */
  predicate OneZero(s: seq<int>)
  {
    && 0 in s
    && forall i, j :: 0 <= i < |s| && 0 <= j < |s| && s[i] == 0 && s[j] == 0 ==> i == j
  }

  lemma RotateKeepsZero(s: seq<int>, r: nat)
    requires 0 in s && r <= |s|
    ensures 0 in Rotate(s, r)
  {
    assert s == s[..r] + s[r..];
  }

  /** In a list with one 0, any 0 found is the first. */
  lemma OnlyZero(s: seq<int>, i: nat)
    requires OneZero(s) && i < |s| && s[i] == 0
    ensures i == FirstZero(s)
  {
  }

  /** With a single 0, the coordinates depend only on the circle, not on
      where the list happens to start. */
  lemma CoordinateSumOfRotation(s: seq<int>, r: nat)
    requires OneZero(s) && r <= |s|
    ensures 0 in Rotate(s, r)
    ensures CoordinateSum(Rotate(s, r)) == CoordinateSum(s)
  {
    RotateKeepsZero(s, r);
    var f := FirstZero(Rotate(s, r));
    ZeroOfRotation(s, r, f);
    SameCoordinates(s, r, f, FirstZero(s));
  }

  /** The first 0 of the rotated list is the list's 0, moved back by `r`. */
  lemma ZeroOfRotation(s: seq<int>, r: nat, f: nat)
    requires OneZero(s) && r <= |s| && 0 in Rotate(s, r) && f == FirstZero(Rotate(s, r))
    ensures FirstZero(s) == (f + r) % |s|
  {
    RotateAt(s, r, f);
    OnlyZero(s, (f + r) % |s|);
  }

  lemma SameCoordinates(s: seq<int>, r: nat, f: nat, z: nat)
    requires r <= |s| && 0 in s && 0 in Rotate(s, r)
    requires f == FirstZero(Rotate(s, r)) && z == FirstZero(s) && z == (f + r) % |s|
    ensures CoordinateSum(Rotate(s, r)) == CoordinateSum(s)
  {
    hide Rotate, CoordinateSum;
    var n := |s|;
    RotatedCoordinate(s, r, f, z, 1000);
    RotatedCoordinate(s, r, f, z, 2000);
    RotatedCoordinate(s, r, f, z, 3000);
    CoordinatesAt(Rotate(s, r), f, n);
    CoordinatesAt(s, z, n);
  }

  lemma CoordinatesAt(plain: seq<int>, z: nat, n: nat)
    requires 0 in plain && z == FirstZero(plain) && n == |plain|
    ensures CoordinateSum(plain) == plain[(z + 1000) % n] + plain[(z + 2000) % n] + plain[(z + 3000) % n]
  {
  }

  lemma ModAddModTo(a: int, b: int, c: int, n: int)
    requires n > 0 && a + b == c
    ensures (a % n + b) % n == c % n
  {
    ModAddMod(a, b, n);
  }

  /** Adding `k` and then `r` modulo `n` is adding them the other way. */
  lemma ModSwap(f: int, k: int, r: int, n: int)
    requires n > 0
    ensures ((f + k) % n + r) % n == ((f + r) % n + k) % n
  {
    var x := f + k + r;
    ModAddModTo(f + k, r, x, n);
    ModAddModTo(f + r, k, x, n);
  }

  /** The number `k` places after position `f` of the rotated list is the
      one `k` places after the matching position of the list. */
  lemma RotatedCoordinate(s: seq<int>, r: nat, f: nat, z: nat, k: nat)
    requires r <= |s| && f < |s| && z == (f + r) % |s|
    ensures Rotate(s, r)[(f + k) % |s|] == s[(z + k) % |s|]
  {
    RotateAt(s, r, (f + k) % |s|);
    ModSwap(f, k, r, |s|);
  }

  /** part_1: one round of mixing. A 0 must be present. */
  method Part1(ct: seq<int>) returns (r: int)
    requires 0 in ct
    ensures 0 in Values(Mixing(Pairs(ct), 1))
    ensures r == CoordinateSum(Values(Mixing(Pairs(ct), 1)))
  {
    var plain := Mix(ct, 1);
    assert 0 in multiset(ct);
    r := CoordinateSum(plain);
  }

  /** The decryption key of part 2. */
  const DecryptionKey: int := 811589153

  function Decrypt(ct: seq<int>): (r: seq<int>)
    ensures |r| == |ct| && forall i :: 0 <= i < |ct| ==> r[i] == ct[i] * DecryptionKey
  {
    seq(|ct|, i requires 0 <= i < |ct| => ct[i] * DecryptionKey)
  }

  /** part_2: every number times the key, then ten rounds of mixing. */
  method Part2(ct: seq<int>) returns (r: int)
    requires 0 in ct
    ensures 0 in Values(Mixing(Pairs(Decrypt(ct)), 10))
    ensures r == CoordinateSum(Values(Mixing(Pairs(Decrypt(ct)), 10)))
  {
    var keyed := Decrypt(ct);
    var i :| 0 <= i < |ct| && ct[i] == 0;
    assert keyed[i] == 0;
    var plain := Mix(keyed, 10);
    assert 0 in multiset(keyed);
    r := CoordinateSum(plain);
  }
}
