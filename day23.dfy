/** Day 23: unstable diffusion. Elves on an unbounded grid spread out in
    rounds: each elf proposes a step in the first of four directions whose
    three cells ahead are empty, and moves only if no other elf proposed
    the same cell. The directions tried first rotate every round. */
module Day23 {
  import opened Wrappers
  import opened SetSums
  import opened Extremes
  import opened Arith

  /** (x, y), y growing southwards. */
  type Position = (int, int)

  datatype Direction = N | S | W | E

  // ---------------------------------------------------------------------
  // Directions

  function Next(d: Direction): Direction
  {
    match d
    case N => S
    case S => W
    case W => E
    case E => N
  }

  /** The `k`-th direction of `d.iter()`: `d`, then its successors. */
  function Ith(d: Direction, k: nat): Direction
    decreases k
  {
    if k == 0 then d else Ith(Next(d), k - 1)
  }

  /** The cycle N, S, W, E has length four: every direction comes first
      once in four rounds, and `take(4)` tries each of them once. */
  lemma DirectionsCycle(d: Direction)
    ensures Ith(d, 4) == d
    ensures Ith(d, 0) != Ith(d, 1) && Ith(d, 0) != Ith(d, 2) && Ith(d, 0) != Ith(d, 3)
    ensures Ith(d, 1) != Ith(d, 2) && Ith(d, 1) != Ith(d, 3) && Ith(d, 2) != Ith(d, 3)
  {
  }

  /** The direction `k` steps on only depends on `k` modulo four. */
  lemma {:induction false} IthPeriodic(d: Direction, k: nat)
    ensures Ith(d, k + 4) == Ith(d, k)
    decreases k
  {
    if k == 0 {
      DirectionsCycle(d);
    } else {
      IthPeriodic(Next(d), k - 1);
    }
  }

  function Movement(d: Direction, p: Position): Position
  {
    match d
    case N => (p.0, p.1 - 1)
    case S => (p.0, p.1 + 1)
    case W => (p.0 - 1, p.1)
    case E => (p.0 + 1, p.1)
  }

  /** The three cells ahead of `p` in direction `d`. */
  function NeedToCheck(d: Direction, p: Position): (cells: seq<Position>)
    ensures |cells| == 3
  {
    match d
    case N => [(p.0 - 1, p.1 - 1), (p.0, p.1 - 1), (p.0 + 1, p.1 - 1)]
    case S => [(p.0 - 1, p.1 + 1), (p.0, p.1 + 1), (p.0 + 1, p.1 + 1)]
    case W => [(p.0 - 1, p.1 - 1), (p.0 - 1, p.1), (p.0 - 1, p.1 + 1)]
    case E => [(p.0 + 1, p.1 - 1), (p.0 + 1, p.1), (p.0 + 1, p.1 + 1)]
  }

  /** The step is the middle of the cells checked, and it leaves `p`. */
  lemma MovementChecked(d: Direction, p: Position)
    ensures Movement(d, p) == NeedToCheck(d, p)[1]
    ensures Movement(d, p) != p
  {
  }

  /** The eight cells around `p`, clockwise from the north-west. */
  function Neighbours(p: Position): (ns: seq<Position>)
    ensures |ns| == 8
  {
    [(p.0 - 1, p.1 - 1), (p.0, p.1 - 1), (p.0 + 1, p.1 - 1), (p.0 + 1, p.1),
     (p.0 + 1, p.1 + 1), (p.0, p.1 + 1), (p.0 - 1, p.1 + 1), (p.0 - 1, p.1)]
  }

  /** The neighbours are exactly the other cells within one step in each
      axis, with none repeated. */
  lemma NeighboursAround(p: Position, q: Position)
    ensures q in Neighbours(p) <==> q != p && Abs(q.0 - p.0) <= 1 && Abs(q.1 - p.1) <= 1
    ensures forall i, j :: 0 <= i < j < 8 ==> Neighbours(p)[i] != Neighbours(p)[j]
  {
  }

  /** The cells checked ahead are neighbours. */
  lemma CheckedAreNeighbours(d: Direction, p: Position)
    ensures forall i :: 0 <= i < 3 ==> NeedToCheck(d, p)[i] in Neighbours(p)
  {
  }

  // ---------------------------------------------------------------------
  // Proposals

  /** `cells.iter().all(|p| !positions.contains(p))`. */
  predicate Clear(positions: set<Position>, cells: seq<Position>)
  {
    forall i :: 0 <= i < |cells| ==> cells[i] !in positions
  }

  /** The proposal from the `k`-th direction tried on: the step in the
      first clear direction, or staying after the fourth. */
  function TryFrom(positions: set<Position>, primary: Direction, p: Position, k: nat): Position
    decreases 4 - k
  {
    if k >= 4 then p
    else if Clear(positions, NeedToCheck(Ith(primary, k), p)) then Movement(Ith(primary, k), p)
    else TryFrom(positions, primary, p, k + 1)
  }

  /** What the elf at `p` proposes: to stay when no elf is around it,
      otherwise as TryFrom says. */
  function Propose(positions: set<Position>, primary: Direction, p: Position): Position
  {
    if Clear(positions, Neighbours(p)) then p else TryFrom(positions, primary, p, 0)
  }

  /** The proposal is decided by the first clear direction `j` from the
      `k`-th on: that direction's step, with all three of its cells empty
      and every direction tried before it blocked; when none is clear
      (`j == 4`) the elf stays. */
  lemma {:induction false} TryFromChoice(positions: set<Position>, primary: Direction, p: Position, k: nat)
    returns (j: nat)
    requires k <= 4
    ensures k <= j <= 4
    ensures forall i :: k <= i < j ==> !Clear(positions, NeedToCheck(Ith(primary, i), p))
    ensures j < 4 ==> Clear(positions, NeedToCheck(Ith(primary, j), p))
    ensures j < 4 ==> TryFrom(positions, primary, p, k) == Movement(Ith(primary, j), p)
    ensures j == 4 ==> TryFrom(positions, primary, p, k) == p
    decreases 4 - k
  {
    if k == 4 {
      j := 4;
    } else if Clear(positions, NeedToCheck(Ith(primary, k), p)) {
      j := k;
    } else {
      j := TryFromChoice(positions, primary, p, k + 1);
    }
  }

  /** An elf that proposes to move proposes a step in one of the four
      directions, to a cell no elf is on. */
  lemma ProposalIsStep(positions: set<Position>, primary: Direction, p: Position)
    requires Propose(positions, primary, p) != p
    ensures Propose(positions, primary, p) !in positions
    ensures exists d :: Propose(positions, primary, p) == Movement(d, p)
  {
    var j := TryFromChoice(positions, primary, p, 0);
    MovementChecked(Ith(primary, j), p);
    assert NeedToCheck(Ith(primary, j), p)[1] !in positions;
  }

  /** An elf with no elf around it stays put; so does one whose four
      directions are all blocked. */
  lemma StayingElves(positions: set<Position>, primary: Direction, p: Position)
    ensures Clear(positions, Neighbours(p)) ==> Propose(positions, primary, p) == p
    ensures (forall k :: 0 <= k < 4 ==> !Clear(positions, NeedToCheck(Ith(primary, k), p)))
      ==> Propose(positions, primary, p) == p
  {
    if forall k :: 0 <= k < 4 ==> !Clear(positions, NeedToCheck(Ith(primary, k), p)) {
      assert !Clear(positions, NeedToCheck(Ith(primary, 0), p));
      assert !Clear(positions, NeedToCheck(Ith(primary, 1), p));
      assert !Clear(positions, NeedToCheck(Ith(primary, 2), p));
      assert !Clear(positions, NeedToCheck(Ith(primary, 3), p));
    }
  }

  /** The body of round's `'position` loop for one elf: the inner loop
      over at most four directions, starting from the primary one. */
  method ProposalOf(positions: set<Position>, primary: Direction, position: Position)
    returns (proposal: Position)
    ensures proposal == Propose(positions, primary, position)
  {
    var direction := primary;
    for k := 0 to 4
      invariant direction == Ith(primary, k)
      invariant k > 0 ==> !Clear(positions, Neighbours(position))
      invariant TryFrom(positions, primary, position, k) == TryFrom(positions, primary, position, 0)
    {
      var neighboursAreClear := Clear(positions, Neighbours(position));
      if neighboursAreClear {
        return position;
      }
      var directionIsClear := Clear(positions, NeedToCheck(direction, position));
      if directionIsClear {
        return Movement(direction, position);
      }
      direction := Next(direction);
      assert Ith(primary, k + 1) == Ith(Next(primary), k) by {
        IthNext(primary, k);
      }
    }
    proposal := position;
  }

  lemma {:induction false} IthNext(d: Direction, k: nat)
    ensures Ith(d, k + 1) == Next(Ith(d, k))
    ensures Ith(d, k + 1) == Ith(Next(d), k)
    decreases k
  {
    if k > 0 {
      IthNext(Next(d), k - 1);
    }
  }

  // ---------------------------------------------------------------------
  // A round

  /** The elves among `done` that propose `q`. */
  function Proposers(positions: set<Position>, primary: Direction, done: set<Position>, q: Position): set<Position>
  {
    set p | p in done && Propose(positions, primary, p) == q
  }

  /** Where the elf at `p` ends the round: at its proposal when it is the
      only elf that proposed it, otherwise where it was. */
  function Dest(positions: set<Position>, primary: Direction, p: Position): Position
  {
    var q := Propose(positions, primary, p);
    if |Proposers(positions, primary, positions, q)| > 1 then p else q
  }

  /** The positions after a round. */
  function RoundOf(positions: set<Position>, primary: Direction): set<Position>
  {
    set p | p in positions :: Dest(positions, primary, p)
  }

  /** No elf proposes the cell of an elf that stays. */
  lemma StayerUnclaimed(positions: set<Position>, primary: Direction, done: set<Position>, p: Position)
    requires done <= positions && p in positions && p !in done
    ensures Proposers(positions, primary, done, p) == {}
  {
    forall p' | p' in done
      ensures Propose(positions, primary, p') != p
    {
      if Propose(positions, primary, p') != p' {
        ProposalIsStep(positions, primary, p');
      }
    }
  }

  /** The bookkeeping of round's first loop: each elf's proposal, and for
      each proposed cell how many elves proposed it. */
  method CountProposals(positions: set<Position>, primary: Direction)
    returns (proposals: map<Position, Position>, counts: map<Position, nat>)
    ensures proposals == map p | p in positions :: Propose(positions, primary, p)
    ensures Tally(positions, primary, positions, counts)
  {
    hide Propose, Tally;
    proposals := map[];
    counts := map[];
    TallyStart(positions, primary);
    var todo := positions;
    ghost var done: set<Position> := {};
    while todo != {}
      invariant todo <= positions && done == positions - todo
      invariant proposals == map p | p in done :: Propose(positions, primary, p)
      invariant Tally(positions, primary, done, counts)
      decreases todo
    {
      var position :| position in todo;
      todo := todo - {position};
      var proposal := ProposalOf(positions, primary, position);
      if proposal != position {
        proposals := proposals[position := proposal];
        TallyMove(positions, primary, done, counts, position);
        if proposal in counts {
          counts := counts[proposal := counts[proposal] + 1];
        } else {
          counts := counts[proposal := 1];
        }
      } else {
        TallyStay(positions, primary, done, counts, position);
        counts := counts[position := 1];
        proposals := proposals[position := position];
      }
      done := done + {position};
    }
    assert done == positions;
  }

  /** `counts` holds, for each cell some elf of `done` proposed, how many
      of them proposed it. */
  ghost predicate Tally(positions: set<Position>, primary: Direction, done: set<Position>, counts: map<Position, nat>)
  {
    && (forall q :: q in counts <==> Proposers(positions, primary, done, q) != {})
    && (forall q :: q in counts ==> counts[q] == |Proposers(positions, primary, done, q)|)
  }

  lemma TallyStart(positions: set<Position>, primary: Direction)
    ensures Tally(positions, primary, {}, map[])
  {
  }

  /** A moving elf adds one to the count of its proposal. */
  lemma TallyMove(positions: set<Position>, primary: Direction, done: set<Position>,
                  counts: map<Position, nat>, p: Position)
    requires Tally(positions, primary, done, counts) && p !in done
    requires Propose(positions, primary, p) != p
    ensures var q := Propose(positions, primary, p);
      Tally(positions, primary, done + {p},
            if q in counts then counts[q := counts[q] + 1] else counts[q := 1])
  {
    hide Propose;
    var q0 := Propose(positions, primary, p);
    var counts' := if q0 in counts then counts[q0 := counts[q0] + 1] else counts[q0 := 1];
    ProposersGrow(positions, primary, done, p);
    hide Proposers;
    forall q
      ensures q in counts' <==> Proposers(positions, primary, done + {p}, q) != {}
      ensures q in counts' ==> counts'[q] == |Proposers(positions, primary, done + {p}, q)|
    {
      if q == q0 {
        assert |Proposers(positions, primary, done + {p}, q)| >= 1;
      }
    }
  }

  /** A staying elf's own cell is proposed by it alone. */
  lemma TallyStay(positions: set<Position>, primary: Direction, done: set<Position>,
                  counts: map<Position, nat>, p: Position)
    requires Tally(positions, primary, done, counts)
    requires done <= positions && p in positions && p !in done
    requires Propose(positions, primary, p) == p
    ensures Tally(positions, primary, done + {p}, counts[p := 1])
  {
    hide Propose;
    ProposersGrow(positions, primary, done, p);
    StayerUnclaimed(positions, primary, done, p);
  }

  /** Adding one elf to `done` adds it to the proposers of its proposal
      only. */
  lemma ProposersGrow(positions: set<Position>, primary: Direction, done: set<Position>, p: Position)
    requires p !in done
    ensures forall q :: (Proposers(positions, primary, done + {p}, q) ==
      if q == Propose(positions, primary, p) then Proposers(positions, primary, done, q) + {p}
      else Proposers(positions, primary, done, q))
    ensures |Proposers(positions, primary, done + {p}, Propose(positions, primary, p))| ==
      |Proposers(positions, primary, done, Propose(positions, primary, p))| + 1
  {
    hide Propose;
    var q0 := Propose(positions, primary, p);
    forall q
      ensures Proposers(positions, primary, done + {p}, q) ==
        if q == q0 then Proposers(positions, primary, done, q) + {p}
        else Proposers(positions, primary, done, q)
    {
    }
    assert p !in Proposers(positions, primary, done, q0);
  }

  /** round: propose, then move the elves whose proposal is uncontested. */
  method Round(positions: set<Position>, primary: Direction) returns (newPositions: set<Position>)
    ensures newPositions == RoundOf(positions, primary)
  {
    hide Propose;
    var proposals, counts := CountProposals(positions, primary);
    newPositions := {};
    var rest := proposals.Keys;
    while rest != {}
      invariant rest <= positions
      invariant newPositions == set p | p in positions - rest :: Dest(positions, primary, p)
      decreases rest
    {
      var position :| position in rest;
      var proposal := proposals[position];
      assert position in Proposers(positions, primary, positions, proposal);
      if counts[proposal] > 1 {
        newPositions := newPositions + {position};
      } else {
        newPositions := newPositions + {proposal};
      }
      assert positions - (rest - {position}) == (positions - rest) + {position};
      rest := rest - {position};
    }
  }

  /** Two elves never end a round on the same cell. */
  lemma DestInjective(positions: set<Position>, primary: Direction, p: Position, p': Position)
    requires p in positions && p' in positions
    requires Dest(positions, primary, p) == Dest(positions, primary, p')
    ensures p == p'
  {
    var q, q' := Propose(positions, primary, p), Propose(positions, primary, p');
    var moves := |Proposers(positions, primary, positions, q)| <= 1 && q != p;
    var moves' := |Proposers(positions, primary, positions, q')| <= 1 && q' != p';
    assert p in Proposers(positions, primary, positions, q);
    assert p' in Proposers(positions, primary, positions, q');
    if moves && moves' {
      assert q == q';
      assert |Proposers(positions, primary, positions, q)| <= 1;
      if p != p' {
        assert {p, p'} <= Proposers(positions, primary, positions, q);
        SubsetCardinality({p, p'}, Proposers(positions, primary, positions, q));
      }
    } else if moves {
      ProposalIsStep(positions, primary, p);
    } else if moves' {
      ProposalIsStep(positions, primary, p');
    }
  }

  lemma {:induction false} InjectiveImage(s: set<Position>, f: Position -> Position)
    requires forall x, y :: x in s && y in s && f(x) == f(y) ==> x == y
    ensures |set x | x in s :: f(x)| == |s|
    decreases s
  {
    if s != {} {
      var x :| x in s;
      InjectiveImage(s - {x}, f);
      assert (set y | y in s :: f(y)) == (set y | y in s - {x} :: f(y)) + {f(x)};
    }
  }

  function DestOf(positions: set<Position>, primary: Direction): Position -> Position
  {
    p => Dest(positions, primary, p)
  }

  /** A round keeps every elf: as many positions after as before. */
  lemma RoundKeepsElves(positions: set<Position>, primary: Direction)
    ensures |RoundOf(positions, primary)| == |positions|
  {
    var f := DestOf(positions, primary);
    forall x, y | x in positions && y in positions && f(x) == f(y)
      ensures x == y
    {
      DestInjective(positions, primary, x, y);
    }
    InjectiveImage(positions, f);
    assert RoundOf(positions, primary) == set x | x in positions :: f(x);
  }

  /** In a round each elf stays or takes one step north, south, west or
      east; an elf whose proposal another elf shares stays. */
  lemma RoundSteps(positions: set<Position>, primary: Direction, p: Position)
    requires p in positions
    ensures Dest(positions, primary, p) == p || exists d :: Dest(positions, primary, p) == Movement(d, p)
    ensures |Proposers(positions, primary, positions, Propose(positions, primary, p))| > 1
      ==> Dest(positions, primary, p) == p
  {
    if Propose(positions, primary, p) != p {
      ProposalIsStep(positions, primary, p);
    }
  }

  /** When no elf has another next to it, nothing moves. */
  lemma QuietRound(positions: set<Position>, primary: Direction)
    requires forall p :: p in positions ==> Clear(positions, Neighbours(p))
    ensures RoundOf(positions, primary) == positions
  {
    forall p | p in positions
      ensures Dest(positions, primary, p) == p
    {
      StayingElves(positions, primary, p);
    }
  }

  // ---------------------------------------------------------------------
  // The area the elves cover

  function X(p: Position): int { p.0 }

  function Y(p: Position): int { p.1 }

  /** The area of the smallest rectangle holding every elf. */
  function Area(positions: set<Position>): int
    requires positions != {}
  {
    (MaxOf(positions, X) - MinOf(positions, X) + 1) * (MaxOf(positions, Y) - MinOf(positions, Y) + 1)
  }

  function Rect(x0: int, x1: int, y0: int, y1: int): set<Position>
  {
    set x, y | x0 <= x <= x1 && y0 <= y <= y1 :: (x, y)
  }

  lemma InRect(q: Position, x0: int, x1: int, y0: int, y1: int)
    ensures q in Rect(x0, x1, y0, y1) <==> x0 <= q.0 <= x1 && y0 <= q.1 <= y1
  {
    if x0 <= q.0 <= x1 && y0 <= q.1 <= y1 {
      assert q == (q.0, q.1);
    }
  }

  lemma {:induction false} RowCardinality(x0: int, x1: int, y: int)
    requires x0 <= x1 + 1
    ensures |Rect(x0, x1, y, y)| == x1 - x0 + 1
    decreases x1 - x0
  {
    var row := Rect(x0, x1, y, y);
    hide Rect;
    if x0 <= x1 {
      var shorter := Rect(x0, x1 - 1, y, y);
      RowCardinality(x0, x1 - 1, y);
      forall q ensures q in row <==> q in shorter + {(x1, y)} {
        InRect(q, x0, x1, y, y);
        InRect(q, x0, x1 - 1, y, y);
      }
      assert row == shorter + {(x1, y)};
      InRect((x1, y), x0, x1 - 1, y, y);
    } else {
      forall q ensures q !in row {
        InRect(q, x0, x1, y, y);
      }
      assert row == {};
    }
  }

  /** A w-by-h rectangle has w * h cells. */
  lemma {:induction false} RectCardinality(x0: int, x1: int, y0: int, y1: int)
    requires x0 <= x1 + 1 && y0 <= y1 + 1
    ensures |Rect(x0, x1, y0, y1)| == (x1 - x0 + 1) * (y1 - y0 + 1)
    decreases y1 - y0
  {
    var rect := Rect(x0, x1, y0, y1);
    hide Rect;
    if y0 <= y1 {
      var lower, row := Rect(x0, x1, y0, y1 - 1), Rect(x0, x1, y1, y1);
      RectCardinality(x0, x1, y0, y1 - 1);
      RowCardinality(x0, x1, y1);
      forall q ensures (q in rect <==> q in lower + row) && !(q in lower && q in row) {
        InRect(q, x0, x1, y0, y1);
        InRect(q, x0, x1, y0, y1 - 1);
        InRect(q, x0, x1, y1, y1);
      }
      assert rect == lower + row;
      assert lower * row == {};
      assert (x1 - x0 + 1) * (y1 - y0 + 1) == (x1 - x0 + 1) * (y1 - 1 - y0 + 1) + (x1 - x0 + 1);
    } else {
      forall q ensures q !in rect {
        InRect(q, x0, x1, y0, y1);
      }
      assert rect == {};
    }
  }

  /** The rectangle holds every elf, so the empty ground in it is never
      negative. */
  lemma AreaCoversElves(positions: set<Position>)
    requires positions != {}
    ensures Area(positions) >= |positions|
  {
    var x0, x1 := MinOf(positions, X), MaxOf(positions, X);
    var y0, y1 := MinOf(positions, Y), MaxOf(positions, Y);
    forall q | q in positions
      ensures q in Rect(x0, x1, y0, y1)
    {
      assert X(q) == q.0 && Y(q) == q.1;
    }
    SubsetCardinality(positions, Rect(x0, x1, y0, y1));
    RectCardinality(x0, x1, y0, y1);
  }

  // ---------------------------------------------------------------------
  // The parts

  /** The positions after `n` rounds, the first with north tried first. */
  function After(positions: set<Position>, n: nat): set<Position>
  {
    if n == 0 then positions else RoundOf(After(positions, n - 1), Ith(N, n - 1))
  }

  /** Rounds never lose or merge elves. */
  lemma {:induction false} AfterKeepsElves(positions: set<Position>, n: nat)
    ensures |After(positions, n)| == |positions|
  {
    if n > 0 {
      AfterKeepsElves(positions, n - 1);
      RoundKeepsElves(After(positions, n - 1), Ith(N, n - 1));
    }
  }

  /** part_1, with the number of rounds as a parameter: the empty ground in
      the elves' rectangle after that many rounds. */
  method Part1(positions: set<Position>, rounds: nat) returns (r: int)
    requires positions != {}
    ensures After(positions, rounds) != {}
    ensures r == Area(After(positions, rounds)) - |positions|
    ensures r >= 0
  {
    hide RoundOf;
    var current := positions;
    var direction := N;
    for i := 0 to rounds
      invariant current == After(positions, i)
      invariant direction == Ith(N, i)
    {
      current := Round(current, direction);
      direction := Next(direction);
      IthNext(N, i);
    }
    AfterKeepsElves(positions, rounds);
    AreaCoversElves(current);
    r := Area(current) - |current|;
  }

  /** Round `i` (0-based) leaves the positions as they were. */
  ghost predicate Settles(positions: set<Position>, i: nat)
  {
    RoundOf(After(positions, i), Ith(N, i)) == After(positions, i)
  }

  /** part_2, the unbounded loop cut off after `fuel` rounds: the 1-based
      number of the first round in which no elf moves. */
  method Part2(positions: set<Position>, fuel: nat) returns (r: Option<nat>)
    ensures r.Some? ==> 1 <= r.value <= fuel && Settles(positions, r.value - 1)
    ensures r.Some? ==> forall i :: 0 <= i < r.value - 1 ==> !Settles(positions, i)
    ensures r.None? ==> forall i :: 0 <= i < fuel ==> !Settles(positions, i)
  {
    hide RoundOf;
    var current := positions;
    var direction := N;
    for i := 0 to fuel
      invariant current == After(positions, i)
      invariant direction == Ith(N, i)
      invariant forall j :: 0 <= j < i ==> !Settles(positions, j)
    {
      var newPositions := Round(current, direction);
      if newPositions == current {
        return Some(i + 1);
      }
      current := newPositions;
      direction := Next(direction);
      IthNext(N, i);
    }
    r := None;
  }
}
