/** Day 21: monkey math. Each monkey either yells a number or combines two
    other monkeys' numbers with an operator. The solver propagates known
    values through the operations, forwards (both operands known) and
    backwards (the result and one operand known), until a pass learns
    nothing new. */
module Day21 {
  import opened Wrappers
  import opened Text
  import opened Arith

  datatype Op = Add | Sub | Mul | Div | Eq

  /** A monkey's job: `N(n)` or `O(left, op, right)` in the program. */
  datatype Job = Number(n: int) | Operation(left: string, op: Op, right: string)

  type Riddle = map<string, Job>

  // ---------------------------------------------------------------------
  // Reading a line

  function OpOf(c: char): (r: Option<Op>)
    ensures r.Some? ==> r.value != Eq
  {
    match c
    case '+' => Some(Add)
    case '-' => Some(Sub)
    case '*' => Some(Mul)
    case '/' => Some(Div)
    case _ => None
  }

  function OpChar(op: Op): char
    requires op != Eq
  {
    match op
    case Add => '+'
    case Sub => '-'
    case Mul => '*'
    case Div => '/'
  }

  /** One line: `name: job`, split at the first `": "`. The job is a number
      when it parses as an i64; otherwise its operator is its sixth
      character, its left operand its first four and its right operand
      everything from the eighth on. None where the program panics. */
  function ParseLine(line: string): (r: Option<(string, Job)>)
    ensures r.Some? ==> exists job :: line == r.value.0 + ": " + job
    ensures r.Some? && r.value.1.Number? ==> I64_MIN <= r.value.1.n <= I64_MAX
    ensures r.Some? && r.value.1.Operation? ==> |r.value.1.left| == 4 && r.value.1.op != Eq
  {
    match SplitOnce(line, ": ")
    case None => None
    case Some((name, job)) =>
      match ParseBounded(job, I64_MIN, I64_MAX)
      case Some(n) => Some((name, Number(n)))
      case None =>
        if |job| < 7 then None
        else
          match OpOf(job[5])
          case None => None
          case Some(op) => Some((name, Operation(job[..4], op, job[7..])))
  }

  function ShowJob(job: Job): string
    requires job.Operation? ==> job.op != Eq
  {
    match job
    case Number(n) => ShowInt(n)
    case Operation(a, op, b) => a + [' ', OpChar(op), ' '] + b
  }

  /** A job as the puzzle input writes it: four-letter names, numbers that
      are non-negative i64 values. */
  predicate Printable(name: string, job: Job)
  {
    && ':' !in name
    && match job
       case Number(n) => 0 <= n <= I64_MAX
       case Operation(a, op, b) => |a| == 4 && op != Eq
  }

  lemma NoColonNoSeparator(name: string, rest: string)
    requires ':' !in name
    ensures forall i :: 0 <= i < |name| ==> !OccursAt(name + ": " + rest, ": ", i)
  {
    forall i | 0 <= i < |name|
      ensures !OccursAt(name + ": " + rest, ": ", i)
    {
      assert (name + ": " + rest)[i] == name[i];
    }
  }

  /** A string with a space in it is not a number. */
  lemma SpaceIsNotNumber(s: string, k: nat)
    requires k < |s| && s[k] == ' '
    ensures ParseBounded(s, I64_MIN, I64_MAX).None?
  {
    if |s| > 0 && (s[0] == '-' || s[0] == '+') {
      if k > 0 {
        assert s[1..][k - 1] == ' ';
      }
    }
  }

  /** Reading a printed line gives back the monkey and its job. */
  lemma ParseShowLine(name: string, job: Job)
    requires Printable(name, job)
    ensures ParseLine(name + ": " + ShowJob(job)) == Some((name, job))
  {
    NoColonNoSeparator(name, ShowJob(job));
    SplitOnceJoin(name, ": ", ShowJob(job));
    match job
    case Number(n) =>
      ParseShowBounded(n, I64_MIN, I64_MAX);
    case Operation(a, op, b) =>
      var s := ShowJob(job);
      SpaceIsNotNumber(s, 4);
      assert s[..4] == a && s[7..] == b;
  }

  /** riddle_from_file's collect: one entry per line, a later line for the
      same name replacing an earlier one. */
  function RiddleFromLines(lines: seq<string>): (r: Option<Riddle>)
    ensures r.Some? ==> forall i :: 0 <= i < |lines| ==>
      ParseLine(lines[i]).Some? && ParseLine(lines[i]).value.0 in r.value
  {
    if lines == [] then Some(map[])
    else
      match (RiddleFromLines(lines[..|lines| - 1]), ParseLine(lines[|lines| - 1]))
      case (Some(riddle), Some((name, job))) =>
        var r := riddle[name := job];
        assert forall i :: 0 <= i < |lines| - 1 ==> lines[i] == lines[..|lines| - 1][i];
        Some(r)
      case _ => None
  }

  // ---------------------------------------------------------------------
  // Arithmetic

  /** i64 division: the quotient rounded toward zero. */
  function Quot(a: int, b: int): int
    requires b != 0
  {
    var m := Abs(a) / Abs(b);
    if (a < 0) == (b < 0) then m else -m
  }

  lemma DivExact(k: nat, n: int)
    requires n > 0
    ensures (k * n) / n == k
  {
    ModUnique(k * n, n, k, 0);
    var q := (k * n) / n;
    assert q * n == k * n;
    assert (q - k) * n == 0;
  }

  /** Dividing an exact multiple gives the factor back, whatever the signs. */
  lemma QuotExact(k: int, n: int)
    requires n != 0
    ensures Quot(k * n, n) == k
  {
    assert Abs(k * n) == Abs(k) * Abs(n) by {
      if k < 0 && n < 0 { assert k * n == (-k) * (-n); }
      else if k < 0 { assert -(k * n) == (-k) * n; }
      else if n < 0 { assert -(k * n) == k * (-n); }
    }
    DivExact(Abs(k), Abs(n));
    if k != 0 {
      assert (k * n < 0) == ((k < 0) != (n < 0)) by {
        if k > 0 && n > 0 { MulAtLeast(k, n); }
        else if k > 0 { MulAtMost(n, k); }
        else if n > 0 { MulAtMost(k, n); }
        else { MulAtLeast(-k, -n); assert k * n == (-k) * (-n); }
      }
    }
  }

  /** The equation a job states between its monkey's value `v` and its
      operands' values `x` and `y`, in exact arithmetic: a division is
      exact, and an `Eq` job only says that its two sides agree. */
  predicate Holds(op: Op, v: int, x: int, y: int)
  {
    match op
    case Add => v == x + y
    case Sub => v == x - y
    case Mul => v == x * y
    case Div => y != 0 && x == v * y
    case Eq => x == y
  }

  /** The value of an operation from its operands; None where the program
      divides by zero. */
  function Forward(op: Op, x: int, y: int): Option<int>
    requires op != Eq
  {
    match op
    case Add => Some(x + y)
    case Sub => Some(x - y)
    case Mul => Some(x * y)
    case Div => if y == 0 then None else Some(Quot(x, y))
  }

  /** The right operand from the value and the left operand. */
  function SolveRight(op: Op, v: int, x: int): Option<int>
    requires op != Eq
  {
    match op
    case Add => Some(v - x)
    case Sub => Some(x - v)
    case Mul => if x == 0 then None else Some(Quot(v, x))
    case Div => if v == 0 then None else Some(Quot(x, v))
  }

  /** The left operand from the value and the right operand. */
  function SolveLeft(op: Op, v: int, y: int): Option<int>
    requires op != Eq
  {
    match op
    case Add => Some(v - y)
    case Sub => Some(v + y)
    case Mul => if y == 0 then None else Some(Quot(v, y))
    case Div => Some(v * y)
  }

  /** Evaluating forwards gives the value of every exact solution, and
      fails only on a division by zero, which no exact solution has. */
  lemma ForwardSound(op: Op, v: int, x: int, y: int)
    requires op != Eq && Holds(op, v, x, y)
    ensures Forward(op, x, y) == Some(v)
  {
    if op == Div {
      QuotExact(v, y);
    }
  }

  /** Solving for the right operand gives its value in every exact solution
      where it gives anything. */
  lemma SolveRightSound(op: Op, v: int, x: int, y: int)
    requires op != Eq && Holds(op, v, x, y) && SolveRight(op, v, x).Some?
    ensures SolveRight(op, v, x) == Some(y)
  {
    if op == Mul {
      assert v == y * x;
      QuotExact(y, x);
    } else if op == Div {
      QuotExact(y, v);
    }
  }

  /** Likewise for the left operand. */
  lemma SolveLeftSound(op: Op, v: int, x: int, y: int)
    requires op != Eq && Holds(op, v, x, y) && SolveLeft(op, v, y).Some?
    ensures SolveLeft(op, v, y) == Some(x)
  {
    if op == Mul {
      QuotExact(x, y);
    }
  }

  /** For `+` and `-` both inverses are exact: they give the one operand that
      makes the equation hold. */
  lemma InversesExact(op: Op, v: int, x: int, y: int)
    requires op == Add || op == Sub
    ensures SolveRight(op, v, x) == Some(y) <==> Holds(op, v, x, y)
    ensures SolveLeft(op, v, y) == Some(x) <==> Holds(op, v, x, y)
  {
  }

  // ---------------------------------------------------------------------
  // One visit of an unfinished monkey

  /** What a visit does: nothing, learn one value, or panic. */
  datatype Outcome = Idle | Learns(name: string, value: int) | Panics

  function Settle(name: string, r: Option<int>): Outcome
  {
    match r
    case None => Panics
    case Some(v) => Learns(name, v)
  }

  /** The names an operation mentions are all known, except the monkey's own
      name for `Eq`: the state in which the program takes it off the
      unfinished set. */
  predicate Done(riddle: Riddle, solved: map<string, int>, t: string)
    requires t in riddle && riddle[t].Operation?
  {
    var job := riddle[t];
    job.left in solved && job.right in solved && (job.op != Eq ==> t in solved)
  }

  /** The match on which of the three names are known. */
  function Visit(riddle: Riddle, solved: map<string, int>, t: string): (o: Outcome)
    requires t in riddle && riddle[t].Operation?
    ensures o.Learns? ==> o.name !in solved
    ensures o.Learns? ==> Done(riddle, solved[o.name := o.value], t)
    ensures Done(riddle, solved, t) ==> !o.Learns?
    ensures o.Panics? ==> riddle[t].op == Mul || riddle[t].op == Div || riddle[t].op == Eq
  {
    var Operation(a, op, b) := riddle[t];
    if t !in solved && a in solved && b in solved then
      if op == Eq then Panics else Settle(t, Forward(op, solved[a], solved[b]))
    else if t in solved && a in solved && b !in solved then
      if op == Eq then Panics else Settle(b, SolveRight(op, solved[t], solved[a]))
    else if t in solved && a !in solved && b in solved then
      if op == Eq then Panics else Settle(a, SolveLeft(op, solved[t], solved[b]))
    else if t !in solved && a !in solved && b in solved && op == Eq then
      Learns(a, solved[b])
    else if t !in solved && a in solved && b !in solved && op == Eq then
      Learns(b, solved[a])
    else Idle
  }

  // ---------------------------------------------------------------------
  // Exact solutions

  /** `sol` gives every monkey and every operand a value that makes every
      job hold exactly. */
  ghost predicate Satisfies(riddle: Riddle, sol: map<string, int>)
  {
    forall t :: t in riddle ==>
      && t in sol
      && match riddle[t]
         case Number(n) => sol[t] == n
         case Operation(a, op, b) => a in sol && b in sol && Holds(op, sol[t], sol[a], sol[b])
  }

  /** Every value in `m` is the value `sol` gives. */
  predicate Agrees(m: map<string, int>, sol: map<string, int>)
  {
    forall k :: k in m ==> k in sol && sol[k] == m[k]
  }

  /** The known values are those of every exact solution. */
  ghost predicate Sound(riddle: Riddle, solved: map<string, int>)
  {
    forall sol :: Satisfies(riddle, sol) ==> Agrees(solved, sol)
  }

  /** What a visit learns is the value every exact solution has. */
  lemma VisitSound(riddle: Riddle, solved: map<string, int>, t: string, sol: map<string, int>)
    requires t in riddle && riddle[t].Operation?
    requires Satisfies(riddle, sol) && Agrees(solved, sol)
    requires Visit(riddle, solved, t).Learns?
    ensures Visit(riddle, solved, t).name in sol
    ensures sol[Visit(riddle, solved, t).name] == Visit(riddle, solved, t).value
  {
    var Operation(a, op, b) := riddle[t];
    assert t in sol && a in sol && b in sol && Holds(op, sol[t], sol[a], sol[b]);
    if t !in solved && a in solved && b in solved {
      ForwardSound(op, sol[t], sol[a], sol[b]);
    } else if t in solved && a in solved && b !in solved {
      SolveRightSound(op, sol[t], sol[a], sol[b]);
    } else if t in solved && a !in solved && b in solved {
      SolveLeftSound(op, sol[t], sol[a], sol[b]);
    }
  }

  /** Learning a value keeps the known values sound. */
  lemma LearnSound(riddle: Riddle, solved: map<string, int>, t: string)
    requires t in riddle && riddle[t].Operation?
    requires Sound(riddle, solved)
    requires Visit(riddle, solved, t).Learns?
    ensures Sound(riddle, solved[Visit(riddle, solved, t).name := Visit(riddle, solved, t).value])
  {
    var o := Visit(riddle, solved, t);
    forall sol | Satisfies(riddle, sol)
      ensures Agrees(solved[o.name := o.value], sol)
    {
      VisitSound(riddle, solved, t, sol);
    }
  }

  // ---------------------------------------------------------------------
  // solve

  /** The monkeys that yell a number, with their numbers. */
  function Numbers(riddle: Riddle): map<string, int>
  {
    map t | t in riddle && riddle[t].Number? :: riddle[t].n
  }

  /** The monkeys with an operation. */
  function Operations(riddle: Riddle): set<string>
  {
    set t | t in riddle && riddle[t].Operation?
  }

  /** The start of solve: numbers known, operations unfinished. */
  method Start(riddle: Riddle) returns (unfinished: set<string>, solved: map<string, int>)
    ensures unfinished == Operations(riddle)
    ensures solved == Numbers(riddle)
  {
    unfinished := {};
    solved := map[];
    var todo := riddle.Keys;
    while todo != {}
      invariant todo <= riddle.Keys
      invariant unfinished == set t | t in riddle.Keys - todo && riddle[t].Operation?
      invariant solved == map t | t in riddle.Keys - todo && riddle[t].Number? :: riddle[t].n
      decreases todo
    {
      var name :| name in todo;
      todo := todo - {name};
      match riddle[name]
      case Operation(_, _, _) =>
        unfinished := unfinished + {name};
      case Number(n) =>
        solved := solved[name := n];
    }
  }

  /** No operation can teach anything more. */
  predicate Stuck(riddle: Riddle, solved: map<string, int>)
  {
    forall t :: t in riddle && riddle[t].Operation? ==> !Visit(riddle, solved, t).Learns?
  }

  predicate Extends(m: map<string, int>, base: map<string, int>)
  {
    forall k :: k in base ==> k in m && m[k] == base[k]
  }

  /** Only `+` and `-`: nothing can panic. */
  predicate AddSubOnly(riddle: Riddle)
  {
    forall t :: t in riddle && riddle[t].Operation? ==> riddle[t].op == Add || riddle[t].op == Sub
  }

  /** The facts solve keeps between passes: numbers stay known, every value
      known is that of every exact solution, and every monkey taken off the
      unfinished set is done. */
  ghost predicate Progress(riddle: Riddle, unfinished: set<string>, solved: map<string, int>)
  {
    && unfinished <= Operations(riddle)
    && Extends(solved, Numbers(riddle))
    && Sound(riddle, solved)
    && forall t :: t in Operations(riddle) - unfinished ==> Done(riddle, solved, t)
  }

  // ---------------------------------------------------------------------
  // Part 2's riddle cannot panic

  /** Some name of `dep` is known. */
  ghost predicate DepSolved(dep: set<string>, solved: map<string, int>)
  {
    exists d :: d in dep && d in solved
  }

  /** The shape of part 2's riddle: `g` is an equality of two operands at
      least one of which is in `dep`, no monkey uses `g` as an operand, every
      other operation is `+` or `-` and is in `dep` exactly when one of its
      operands is, and no monkey of `dep` yells a number. In such a riddle a
      name of `dep` is first learned by visiting `g`. */
  ghost predicate Tame(riddle: Riddle, dep: set<string>, g: string)
  {
    && g in riddle && riddle[g].Operation? && riddle[g].op == Eq
    && riddle[g].left != g && riddle[g].right != g
    && (riddle[g].left in dep || riddle[g].right in dep)
    && (forall t :: t in riddle && t != g && riddle[t].Operation? ==>
          && (riddle[t].op == Add || riddle[t].op == Sub)
          && riddle[t].left != g && riddle[t].right != g
          && (t in dep <==> riddle[t].left in dep || riddle[t].right in dep))
    && (forall t :: t in riddle && riddle[t].Number? ==> t !in dep)
  }

  /** What solve keeps for a tame riddle: `g` is never known, and once a
      name of `dep` is known, `g` is finished. */
  ghost predicate Guard(dep: set<string>, g: string, unfinished: set<string>, solved: map<string, int>)
  {
    g !in solved && (DepSolved(dep, solved) ==> g !in unfinished)
  }

  /** In a tame riddle a visit never panics when `g` is unknown and, for the
      visit of `g` itself, no name of `dep` is known yet; it never learns
      `g`; and a visit of another monkey learns a name of `dep` only when
      one is already known. */
  lemma TameVisit(riddle: Riddle, dep: set<string>, g: string, solved: map<string, int>, t: string)
    requires Tame(riddle, dep, g) && g !in solved
    requires t in riddle && riddle[t].Operation?
    requires t == g ==> !DepSolved(dep, solved)
    ensures !Visit(riddle, solved, t).Panics?
    ensures Visit(riddle, solved, t).Learns? ==> Visit(riddle, solved, t).name != g
    ensures Visit(riddle, solved, t).Learns? && Visit(riddle, solved, t).name in dep && t != g ==>
      DepSolved(dep, solved)
  {
    var Operation(a, op, b) := riddle[t];
    if t != g {
      var o := Visit(riddle, solved, t);
      if o.Learns? && o.name in dep {
        var d := if o.name != t then t else if a in dep then a else b;
        assert d in dep && d in solved;
      }
    }
  }

  /** Learning a value keeps the guard within a pass: a name of `dep`
      learned from `g` finishes `g`, and one learned elsewhere was preceded
      by another. */
  lemma GuardLearn(dep: set<string>, g: string, unfinished: set<string>, solved: map<string, int>,
                   finished: seq<string>, t: string, name: string, value: int)
    requires g !in solved && name != g
    requires DepSolved(dep, solved) ==> g !in unfinished || g in finished
    requires name in dep && t != g ==> DepSolved(dep, solved)
    ensures g !in solved[name := value]
    ensures DepSolved(dep, solved[name := value]) ==> g !in unfinished || g in finished + [t]
  {
    if DepSolved(dep, solved[name := value]) && !DepSolved(dep, solved) {
      var d :| d in dep && d in solved[name := value];
      assert d == name;
    }
  }

  // ---------------------------------------------------------------------
  // The passes

  /** One pass of the `for` loop over the unfinished monkeys, in any order:
      the values it learns, and the monkeys it finishes. A riddle with only
      `+` and `-`, or one tame for `dep` and `g` (part 2's riddle), never
      panics; for the latter the guard is kept. */
  method Pass(riddle: Riddle, unfinished: set<string>, solved: map<string, int>, ghost dep: set<string>, ghost g: string)
    returns (panicked: bool, solved': map<string, int>, newlyFinished: seq<string>)
    requires Progress(riddle, unfinished, solved)
    ensures panicked ==> !AddSubOnly(riddle)
    ensures panicked ==> !(Tame(riddle, dep, g) && Guard(dep, g, unfinished, solved))
    ensures !panicked ==> Progress(riddle, unfinished, solved') && Extends(solved', solved)
    ensures !panicked ==> forall i :: 0 <= i < |newlyFinished| ==>
      newlyFinished[i] in unfinished && Done(riddle, solved', newlyFinished[i])
    ensures !panicked && newlyFinished == [] ==> solved' == solved
    ensures !panicked && newlyFinished == [] ==> forall t :: t in unfinished ==> !Visit(riddle, solved, t).Learns?
    ensures !panicked && Tame(riddle, dep, g) && Guard(dep, g, unfinished, solved) ==>
      g !in solved' && (DepSolved(dep, solved') ==> g !in unfinished || g in newlyFinished)
  {
    hide Sound;
    ghost var tame := Tame(riddle, dep, g) && Guard(dep, g, unfinished, solved);
    solved' := solved;
    newlyFinished := [];
    var todo := unfinished;
    while todo != {}
      invariant todo <= unfinished
      invariant Progress(riddle, unfinished, solved') && Extends(solved', solved)
      invariant forall i :: 0 <= i < |newlyFinished| ==>
        newlyFinished[i] in unfinished && Done(riddle, solved', newlyFinished[i])
      invariant forall i :: 0 <= i < |newlyFinished| ==> newlyFinished[i] !in todo
      invariant newlyFinished == [] ==> solved' == solved
      invariant newlyFinished == [] ==> forall t :: t in unfinished - todo ==> !Visit(riddle, solved, t).Learns?
      invariant tame ==> g !in solved' && (DepSolved(dep, solved') ==> g !in unfinished || g in newlyFinished)
      decreases todo
    {
      var t :| t in todo;
      if tame {
        assert Tame(riddle, dep, g);
        TameVisit(riddle, dep, g, solved', t);
      }
      todo := todo - {t};
      var o := Visit(riddle, solved', t);
      match o
      case Panics =>
        return true, solved', newlyFinished;
      case Learns(name, value) =>
        LearnSound(riddle, solved', t);
        if tame {
          GuardLearn(dep, g, unfinished, solved', newlyFinished, t, name, value);
        }
        solved' := solved'[name := value];
        newlyFinished := newlyFinished + [t];
      case Idle =>
    }
    panicked := false;
  }

  /** Passes over the unfinished monkeys, learning values as they go, until
      a pass learns nothing. None where the program panics. */
  method Solve(riddle: Riddle, ghost dep: set<string>, ghost g: string) returns (r: Option<map<string, int>>)
    ensures r.Some? ==> Extends(r.value, Numbers(riddle))
    ensures r.Some? ==> Sound(riddle, r.value)
    ensures r.Some? ==> Stuck(riddle, r.value)
    ensures AddSubOnly(riddle) ==> r.Some?
    ensures Tame(riddle, dep, g) ==> r.Some? && g !in r.value
  {
    var unfinished, solved := Start(riddle);
    assert Sound(riddle, solved) by {
      forall sol | Satisfies(riddle, sol)
        ensures Agrees(solved, sol)
      {
        forall k | k in solved
          ensures k in sol && sol[k] == solved[k]
        {
          assert k in riddle;
        }
      }
    }
    ghost var tame := Tame(riddle, dep, g);
    if tame {
      assert !DepSolved(dep, solved);
    }
    while true
      invariant Progress(riddle, unfinished, solved)
      invariant tame ==> Tame(riddle, dep, g) && Guard(dep, g, unfinished, solved)
      decreases |unfinished|
    {
      var panicked, solved', newlyFinished := Pass(riddle, unfinished, solved, dep, g);
      if panicked {
        return None;
      }
      solved := solved';
      if newlyFinished == [] {
        forall t | t in riddle && riddle[t].Operation?
          ensures !Visit(riddle, solved, t).Learns?
        {
          if t !in unfinished {
            assert t in Operations(riddle) - unfinished;
          }
        }
        break;
      }
      var finished := set i | 0 <= i < |newlyFinished| :: newlyFinished[i];
      assert newlyFinished[0] in unfinished * finished;
      if tame && g in newlyFinished {
        assert g in finished;
      }
      unfinished := unfinished - finished;
    }
    return Some(solved);
  }

  // ---------------------------------------------------------------------
  // Every name gets an answer

  /** The jobs have no cycle and every operand is a monkey: each monkey
      ranks above its operands. */
  ghost predicate Ranked(riddle: Riddle, rank: map<string, nat>)
  {
    forall t :: t in riddle ==>
      && t in rank
      && (riddle[t].Operation? ==>
            && riddle[t].left in riddle && riddle[t].right in riddle
            && riddle[t].left in rank && riddle[t].right in rank
            && rank[riddle[t].left] < rank[t] && rank[riddle[t].right] < rank[t])
  }

  /** When no operation can teach anything more, every monkey of an
      acyclic riddle with only `+` and `-` is known. */
  lemma {:induction false} StuckKnowsAll(riddle: Riddle, rank: map<string, nat>, solved: map<string, int>, t: string)
    requires Ranked(riddle, rank) && AddSubOnly(riddle)
    requires Stuck(riddle, solved) && Extends(solved, Numbers(riddle))
    requires t in riddle
    ensures t in solved
    decreases rank[t]
  {
    match riddle[t]
    case Number(n) =>
      assert t in Numbers(riddle);
    case Operation(a, op, b) =>
      StuckKnowsAll(riddle, rank, solved, a);
      StuckKnowsAll(riddle, rank, solved, b);
      assert !Visit(riddle, solved, t).Learns?;
  }

  // ---------------------------------------------------------------------
  // The two parts

  /** part_1: root's number, which every exact solution gives root. None
      where the program panics. An acyclic riddle with only `+` and `-`
      always has an answer. */
  method Part1(riddle: Riddle) returns (r: Option<int>)
    ensures r.Some? ==> forall sol :: Satisfies(riddle, sol) ==> "root" in sol && sol["root"] == r.value
    ensures AddSubOnly(riddle) && "root" in riddle && riddle["root"].Number? ==> r == Some(riddle["root"].n)
    ensures forall rank :: Ranked(riddle, rank) && AddSubOnly(riddle) && "root" in riddle ==> r.Some?
  {
    var answers := Solve(riddle, {}, "root");
    if answers.None? || "root" !in answers.value {
      forall rank | Ranked(riddle, rank) && AddSubOnly(riddle) && "root" in riddle
        ensures false
      {
        StuckKnowsAll(riddle, rank, answers.value, "root");
      }
      return None;
    }
    r := Some(answers.value["root"]);
  }

  /** part_2's riddle: root's operator becomes `Eq` and the human's own job
      is dropped. */
  function Rewrite(riddle: Riddle): (rr: Riddle)
    requires "root" in riddle && riddle["root"].Operation?
    ensures "humn" !in rr
    ensures "root" in rr && rr["root"].Operation? && rr["root"].op == Eq
    ensures rr["root"].left == riddle["root"].left && rr["root"].right == riddle["root"].right
    ensures forall t :: t in rr <==> t in riddle && t != "humn"
    ensures forall t :: t in rr && t != "root" ==> rr[t] == riddle[t]
  {
    var job := riddle["root"];
    riddle["root" := Operation(job.left, Eq, job.right)] - {"humn"}
  }

  /** The value of `t` depends on what the human yells. */
  ghost predicate DependsOnHuman(riddle: Riddle, rank: map<string, nat>, t: string)
    requires Ranked(riddle, rank) && t in riddle
    decreases rank[t]
  {
    t == "humn" ||
    (riddle[t].Operation? &&
      (DependsOnHuman(riddle, rank, riddle[t].left) || DependsOnHuman(riddle, rank, riddle[t].right)))
  }

  /** The shape of the puzzle's riddle that part 2 relies on: acyclic, only
      `+` and `-`, root an operation that depends on the human, no monkey
      combining two values that both depend on the human, and root no
      monkey's operand. */
  ghost predicate HumanOnce(riddle: Riddle, rank: map<string, nat>)
  {
    && Ranked(riddle, rank) && AddSubOnly(riddle)
    && "humn" in riddle && "root" in riddle && riddle["root"].Operation?
    && DependsOnHuman(riddle, rank, "root")
    && forall t :: t in riddle && riddle[t].Operation? ==>
         && riddle[t].left != "root" && riddle[t].right != "root"
         && !(DependsOnHuman(riddle, rank, riddle[t].left) && DependsOnHuman(riddle, rank, riddle[t].right))
  }

  /** The monkeys other than root whose value depends on the human. */
  ghost function HumanSide(riddle: Riddle, rank: map<string, nat>): set<string>
    requires Ranked(riddle, rank)
  {
    set t | t in riddle && t != "root" && DependsOnHuman(riddle, rank, t)
  }

  /** Part 2's riddle is tame for the human's side and root. */
  lemma HumanOnceIsTame(riddle: Riddle, rank: map<string, nat>)
    requires HumanOnce(riddle, rank)
    ensures Tame(Rewrite(riddle), HumanSide(riddle, rank), "root")
  {
    var rr := Rewrite(riddle);
    var dep := HumanSide(riddle, rank);
    var job := riddle["root"];
    assert job.left in dep || job.right in dep;
    forall t | t in rr && t != "root" && rr[t].Operation?
      ensures t in dep <==> rr[t].left in dep || rr[t].right in dep
    {
      assert rr[t] == riddle[t];
    }
    forall t | t in rr && rr[t].Number?
      ensures t !in dep
    {
      assert rr[t] == riddle[t];
    }
  }

  /** Once part 2's solve is stuck, every monkey off the human's side, root
      aside, is known. */
  lemma {:induction false} OffSideKnown(riddle: Riddle, rank: map<string, nat>, solved: map<string, int>, t: string)
    requires HumanOnce(riddle, rank)
    requires Stuck(Rewrite(riddle), solved) && Extends(solved, Numbers(Rewrite(riddle)))
    requires t in riddle && t != "root" && !DependsOnHuman(riddle, rank, t)
    ensures t in solved
    decreases rank[t]
  {
    var rr := Rewrite(riddle);
    assert t in rr && rr[t] == riddle[t];
    match riddle[t]
    case Number(n) =>
      assert t in Numbers(rr);
    case Operation(a, op, b) =>
      OffSideKnown(riddle, rank, solved, a);
      OffSideKnown(riddle, rank, solved, b);
      assert !Visit(rr, solved, t).Learns?;
  }

  /** Once part 2's solve is stuck with root unknown, a monkey on the
      human's side that is known, or root, has its operand on the human's
      side known too. */
  lemma NextOnSide(riddle: Riddle, rank: map<string, nat>, solved: map<string, int>, t: string)
    returns (x: string)
    requires HumanOnce(riddle, rank)
    requires Stuck(Rewrite(riddle), solved) && Extends(solved, Numbers(Rewrite(riddle)))
    requires "root" !in solved
    requires t in riddle && t != "humn" && DependsOnHuman(riddle, rank, t) && (t == "root" || t in solved)
    ensures x in riddle && x in rank && rank[x] < rank[t]
    ensures DependsOnHuman(riddle, rank, x) && (x == "root" || x in solved)
  {
    var rr := Rewrite(riddle);
    var Operation(a, op, b) := riddle[t];
    assert a in riddle && b in riddle && a in rank && b in rank
      && rank[a] < rank[t] && rank[b] < rank[t] && a != "root" && b != "root";
    assert DependsOnHuman(riddle, rank, a) != DependsOnHuman(riddle, rank, b);
    assert t in rr && rr[t] == Operation(a, if t == "root" then Eq else op, b);
    assert t != "root" ==> op == Add || op == Sub;
    assert !Visit(rr, solved, t).Learns?;
    hide HumanOnce, Stuck, Rewrite, Ranked;
    if DependsOnHuman(riddle, rank, a) {
      OffSideKnown(riddle, rank, solved, b);
      x := a;
    } else {
      OffSideKnown(riddle, rank, solved, a);
      x := b;
    }
  }

  /** Following the human's side down from root reaches the human, whose
      number is then known. */
  lemma {:induction false} HumanKnown(riddle: Riddle, rank: map<string, nat>, solved: map<string, int>, t: string)
    requires HumanOnce(riddle, rank)
    requires Stuck(Rewrite(riddle), solved) && Extends(solved, Numbers(Rewrite(riddle)))
    requires "root" !in solved
    requires t in riddle && DependsOnHuman(riddle, rank, t) && (t == "root" || t in solved)
    ensures "humn" in solved
    decreases rank[t]
  {
    if t != "humn" {
      var x := NextOnSide(riddle, rank, solved, t);
      HumanKnown(riddle, rank, solved, x);
    }
  }

  /** part_2: the number the human must yell, the same in every exact
      solution of the rewritten riddle, that is every choice that makes
      root's two sides equal. It is found whenever the riddle has the
      puzzle's shape. */
  method Part2(riddle: Riddle) returns (r: Option<int>)
    requires "root" in riddle && riddle["root"].Operation?
    ensures r.Some? ==> forall sol :: Satisfies(Rewrite(riddle), sol) ==> "humn" in sol && sol["humn"] == r.value
    ensures forall rank :: HumanOnce(riddle, rank) ==> r.Some?
  {
    ghost var dep: set<string> := {};
    if rank :| HumanOnce(riddle, rank) {
      dep := HumanSide(riddle, rank);
      HumanOnceIsTame(riddle, rank);
    }
    var answers := Solve(Rewrite(riddle), dep, "root");
    if answers.None? || "humn" !in answers.value {
      forall rank | HumanOnce(riddle, rank)
        ensures false
      {
        HumanOnceIsTame(riddle, rank);
        HumanKnown(riddle, rank, answers.value, "root");
      }
      return None;
    }
    r := Some(answers.value["humn"]);
  }
}
