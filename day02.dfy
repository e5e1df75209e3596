/** Day 2: rock paper scissors. Each line of the strategy guide holds the
    opponent's letter (A, B, C) and a second letter (X, Y, Z), which part 1
    reads as our move and part 2 as the outcome we must reach. */
module Day02 {
  import opened Text

  datatype RPS = Rock | Paper | Scissors

  /** The move that beats `m`. */
  function LosesAgainst(m: RPS): (r: RPS)
    ensures Beats(r, m)
  {
    match m
    case Rock => Paper
    case Paper => Scissors
    case Scissors => Rock
  }

  /** The move that `m` beats. */
  function WinsAgainst(m: RPS): (r: RPS)
    ensures Beats(m, r)
  {
    match m
    case Rock => Scissors
    case Paper => Rock
    case Scissors => Paper
  }

  /** The rules of the game, written as the three winning pairs. */
  predicate Beats(a: RPS, b: RPS)
  {
    (a == Rock && b == Scissors) || (a == Scissors && b == Paper) || (a == Paper && b == Rock)
  }

  /** Each move beats exactly one move and loses against exactly one. */
  lemma BeatsIsCyclic(a: RPS, b: RPS)
    ensures Beats(a, b) <==> b == WinsAgainst(a)
    ensures Beats(a, b) <==> a == LosesAgainst(b)
    ensures !(Beats(a, b) && Beats(b, a))
    ensures a != b ==> Beats(a, b) || Beats(b, a)
  {
  }

  /** The two functions undo each other and move away from their argument. */
  lemma LosesWinsInverse(m: RPS)
    ensures WinsAgainst(LosesAgainst(m)) == m
    ensures LosesAgainst(WinsAgainst(m)) == m
    ensures LosesAgainst(m) != m && WinsAgainst(m) != m
  {
  }

  predicate IsThemInput(c: char) { c == 'A' || c == 'B' || c == 'C' }

  predicate IsUsInput(c: char) { c == 'X' || c == 'Y' || c == 'Z' }

  function FromThemInput(c: char): (r: RPS)
    requires IsThemInput(c)
    ensures c == ToThemInput(r)
  {
    match c
    case 'A' => Rock
    case 'B' => Paper
    case 'C' => Scissors
  }

  function FromUsInput(c: char): (r: RPS)
    requires IsUsInput(c)
    ensures c == ToUsInput(r)
  {
    match c
    case 'X' => Rock
    case 'Y' => Paper
    case 'Z' => Scissors
  }

  /** The letters the guide uses for each move. */
  function ToThemInput(m: RPS): char
  {
    match m
    case Rock => 'A'
    case Paper => 'B'
    case Scissors => 'C'
  }

  function ToUsInput(m: RPS): char
  {
    match m
    case Rock => 'X'
    case Paper => 'Y'
    case Scissors => 'Z'
  }

  /** Decoding a letter back from a move gives the move. */
  lemma FromToInput(m: RPS)
    ensures FromThemInput(ToThemInput(m)) == m
    ensures FromUsInput(ToUsInput(m)) == m
  {
  }

  function SelectionScore(m: RPS): (r: int)
    ensures 1 <= r <= 3
    ensures r == 1 <==> m == Rock
    ensures r == 2 <==> m == Paper
  {
    match m
    case Rock => 1
    case Paper => 2
    case Scissors => 3
  }

  /** Part 1's score for one round: 0 for a loss, 3 for a draw, 6 for a win. */
  function RoundScore(us: RPS, them: RPS): (r: int)
  {
    if LosesAgainst(us) == them then 0 else if us == them then 3 else 6
  }

  /** The round score follows the rules of the game. */
  lemma RoundScoreFollowsRules(us: RPS, them: RPS)
    ensures RoundScore(us, them) == 0 <==> Beats(them, us)
    ensures RoundScore(us, them) == 3 <==> us == them
    ensures RoundScore(us, them) == 6 <==> Beats(us, them)
  {
  }

  /** One line of the guide, read as the first and third character. */
  datatype Line = Line(them: char, second: char)

  /** Every line holds a move letter, a separator and a second letter. */
  predicate ValidLines(lines: seq<string>)
  {
    forall i :: 0 <= i < |lines| ==>
      |lines[i]| >= 3 && IsThemInput(lines[i][0]) && IsUsInput(lines[i][2])
  }

  function StrategyFromText(text: string): (r: seq<Line>)
    requires ValidLines(Lines(text))
    ensures ValidGuide(r)
    ensures |r| == |Lines(text)|
    ensures forall i :: 0 <= i < |r| ==>
      r[i].them == Lines(text)[i][0] && r[i].second == Lines(text)[i][2]
  {
    var lines := Lines(text);
    seq(|lines|, i requires 0 <= i < |lines| => Line(lines[i][0], lines[i][2]))
  }

  predicate ValidGuide(guide: seq<Line>)
  {
    forall i :: 0 <= i < |guide| ==> IsThemInput(guide[i].them) && IsUsInput(guide[i].second)
  }

  function Part1Score(l: Line): (r: int)
    requires IsThemInput(l.them) && IsUsInput(l.second)
    ensures 1 <= r <= 9
  {
    var us := FromUsInput(l.second);
    SelectionScore(us) + RoundScore(us, FromThemInput(l.them))
  }

  /** Part 1: the total of round scores, reading the second letter as our move. */
  function Part1(guide: seq<Line>): (r: int)
    requires ValidGuide(guide)
    ensures |guide| <= r <= 9 * |guide|
  {
    if guide == [] then 0 else Part1(guide[..|guide| - 1]) + Part1Score(guide[|guide| - 1])
  }

  /** The move that reaches the outcome asked for (X lose, Y draw, Z win). */
  function ChosenMove(them: RPS, outcome: char): (r: RPS)
    requires IsUsInput(outcome)
  {
    match outcome
    case 'X' => WinsAgainst(them)
    case 'Y' => them
    case 'Z' => LosesAgainst(them)
  }

  /** Part 2's score for one round: part 1's score of the move that
      reaches the outcome the second letter asks for. */
  function Part2Score(l: Line): (r: int)
    requires IsThemInput(l.them) && IsUsInput(l.second)
    ensures 1 <= r <= 9
    ensures var them := FromThemInput(l.them);
      var us := ChosenMove(them, l.second);
      r == SelectionScore(us) + RoundScore(us, them)
  {
    var them := FromThemInput(l.them);
    match l.second
    case 'X' => 0 + SelectionScore(WinsAgainst(them))
    case 'Y' => 3 + SelectionScore(them)
    case 'Z' => 6 + SelectionScore(LosesAgainst(them))
  }

  /** Part 2's chosen move reaches the requested outcome under part 1's rule,
      and the round is scored as part 1 would score that move. */
  lemma ChosenMoveReachesOutcome(l: Line)
    requires IsThemInput(l.them) && IsUsInput(l.second)
    ensures var them := FromThemInput(l.them);
      var us := ChosenMove(them, l.second);
      && (l.second == 'X' ==> Beats(them, us))
      && (l.second == 'Y' ==> us == them)
      && (l.second == 'Z' ==> Beats(us, them))
      && Part2Score(l) == SelectionScore(us) + RoundScore(us, them)
  {
  }

  /** Part 2: the total when the second letter is the outcome to reach. */
  function Part2(guide: seq<Line>): (r: int)
    requires ValidGuide(guide)
    ensures |guide| <= r <= 9 * |guide|
  {
    if guide == [] then 0 else Part2(guide[..|guide| - 1]) + Part2Score(guide[|guide| - 1])
  }
}
