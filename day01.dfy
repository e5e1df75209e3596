/** Day 1: calorie counting. The input text is a list of groups separated by
    blank lines, one integer per line; each group is one elf's food. */
module Day01 {
  import opened Wrappers
  import opened Text
  import Sorting

  function Sum(s: seq<int>): int
  {
    if s == [] then 0 else Sum(s[..|s| - 1]) + s[|s| - 1]
  }

  /** Every line of every group is an i32. */
  predicate WellFormed(text: string)
  {
    forall g :: g in SplitAll(text, "\n\n") ==>
      forall line :: line in Lines(g) ==> ParseBounded(line, I32_MIN, I32_MAX).Some?
  }

  /** One group's lines as integers. */
  function GroupValues(lines: seq<string>): (r: seq<int>)
    requires forall line :: line in lines ==> ParseBounded(line, I32_MIN, I32_MAX).Some?
    ensures |r| == |lines|
    ensures forall i :: 0 <= i < |lines| ==> Some(r[i]) == ParseInt(lines[i])
  {
    if lines == [] then []
    else GroupValues(lines[..|lines| - 1]) + [ParseBounded(lines[|lines| - 1], I32_MIN, I32_MAX).value]
  }

  /** The calories carried by each elf, in input order: one total per
      group, and the text written from the elves' lists gives back each
      list's sum (ElfTotalsRender). */
  function ElfTotals(text: string): (r: seq<int>)
    requires WellFormed(text)
    ensures |r| == |SplitAll(text, "\n\n")| >= 1
  {
    var groups := SplitAll(text, "\n\n");
    seq(|groups|, i requires 0 <= i < |groups| => Sum(GroupValues(Lines(groups[i]))))
  }

  /** One elf's food written one value per line. */
  function Group(values: seq<int>): string
    requires |values| >= 1
  {
    Join(seq(|values|, i requires 0 <= i < |values| => ShowInt(values[i])), "\n")
  }

  /** Every elf carries at least one i32-sized item. */
  predicate Carries(elves: seq<seq<int>>)
  {
    && |elves| >= 1
    && forall k :: 0 <= k < |elves| ==>
         && |elves[k]| >= 1
         && forall i :: 0 <= i < |elves[k]| ==> I32_MIN <= elves[k][i] <= I32_MAX
  }

  /** The elves' lists written as input: groups separated by blank lines. */
  function Render(elves: seq<seq<int>>): string
    requires Carries(elves)
  {
    Join(seq(|elves|, k requires 0 <= k < |elves| && Carries(elves) => Group(elves[k])), "\n\n")
  }

  /** A rendered value is a line that reads back as itself. */
  lemma ShowIntLine(n: int)
    ensures |ShowInt(n)| > 0 && Writable(ShowInt(n), "\n")
  {
    var s := ShowInt(n);
    assert s[|s| - 1] == '-' || IsDigit(s[|s| - 1]);
  }

  /** The lines of one written group are the rendered values. */
  lemma GroupLines(values: seq<int>)
    requires |values| >= 1
    ensures Lines(Group(values)) == seq(|values|, i requires 0 <= i < |values| => ShowInt(values[i]))
    ensures Paragraph(Group(values))
  {
    var shows := seq(|values|, i requires 0 <= i < |values| => ShowInt(values[i]));
    forall k | 0 <= k < |shows|
      ensures |shows[k]| > 0 && Writable(shows[k], "\n")
    {
      ShowIntLine(values[k]);
    }
    LinesJoined(shows);
    JoinLinesParagraph(shows);
  }

  /** Reading back one written group gives the elf's values. */
  lemma GroupValuesRender(values: seq<int>)
    requires |values| >= 1
    requires forall i :: 0 <= i < |values| ==> I32_MIN <= values[i] <= I32_MAX
    ensures forall line :: line in Lines(Group(values)) ==> ParseBounded(line, I32_MIN, I32_MAX).Some?
    ensures GroupValues(Lines(Group(values))) == values
  {
    GroupLines(values);
    var lines := Lines(Group(values));
    forall i | 0 <= i < |values|
      ensures ParseBounded(lines[i], I32_MIN, I32_MAX) == Some(values[i])
    {
      ParseShowBounded(values[i], I32_MIN, I32_MAX);
    }
    var r := GroupValues(lines);
    forall i | 0 <= i < |values|
      ensures r[i] == values[i]
    {
      assert Some(r[i]) == ParseInt(lines[i]);
    }
  }

  /** Writing the elves' lists as input and reading it back gives each
      elf's sum, in order. */
  lemma ElfTotalsRender(elves: seq<seq<int>>)
    requires Carries(elves)
    ensures WellFormed(Render(elves))
    ensures ElfTotals(Render(elves)) == seq(|elves|, k requires 0 <= k < |elves| => Sum(elves[k]))
  {
    var groups := seq(|elves|, k requires 0 <= k < |elves| && Carries(elves) => Group(elves[k]));
    forall k | 0 <= k < |elves|
      ensures Paragraph(groups[k])
      ensures forall line :: line in Lines(groups[k]) ==> ParseBounded(line, I32_MIN, I32_MAX).Some?
      ensures GroupValues(Lines(groups[k])) == elves[k]
    {
      GroupLines(elves[k]);
      GroupValuesRender(elves[k]);
    }
    SplitAllJoinBlank(groups);
    assert SplitAll(Render(elves), "\n\n") == groups;
  }

  /** The largest element of a non-empty sequence. */
  function Max(s: seq<int>): (m: int)
    requires |s| > 0
    ensures m in s
    ensures forall i :: 0 <= i < |s| ==> s[i] <= m
  {
    if |s| == 1 then s[0]
    else
      var rest := Max(s[..|s| - 1]);
      if s[|s| - 1] > rest then s[|s| - 1] else rest
  }

  /** Part 1: the most calories carried by one elf. */
  function Part1(text: string): (r: int)
    requires WellFormed(text)
    ensures r in ElfTotals(text)
    ensures forall t :: t in ElfTotals(text) ==> t <= r
  {
    Max(ElfTotals(text))
  }

  /** The sum of the three last elements after sorting ascending. */
  function TopThree(totals: seq<int>): (r: int)
    requires |totals| >= 3
    ensures exists sorted ::
      && IsAscendingPermutation(sorted, totals)
      && r == sorted[|totals| - 3] + sorted[|totals| - 2] + sorted[|totals| - 1]
  {
    var sorted := Sorting.AscendingInts(totals);
    assert IsAscendingPermutation(sorted, totals);
    sorted[|sorted| - 3] + sorted[|sorted| - 2] + sorted[|sorted| - 1]
  }

  ghost predicate IsAscendingPermutation(sorted: seq<int>, s: seq<int>)
  {
    && |sorted| == |s|
    && multiset(sorted) == multiset(s)
    && forall i, j :: 0 <= i <= j < |sorted| ==> sorted[i] <= sorted[j]
  }

  /** The three summed values are three of the totals (counted with their
      multiplicity), and every other total is no larger than each of them. */
  lemma {:induction false} TopThreeAreLargest(totals: seq<int>)
    requires |totals| >= 3
    ensures exists x, y, z, rest: multiset<int> :: TopThreeSplit(totals, x, y, z, rest)
  {
    var x, y, z, rest := TopThreeWitness(totals);
  }

  /** `x`, `y` and `z` are summed by TopThree, and the other totals `rest`
      are no larger than each of them. */
  ghost predicate TopThreeSplit(totals: seq<int>, x: int, y: int, z: int, rest: multiset<int>)
    requires |totals| >= 3
  {
    && multiset{x, y, z} + rest == multiset(totals)
    && TopThree(totals) == x + y + z
    && forall v :: v in rest ==> v <= x && v <= y && v <= z
  }

  lemma TopThreeWitness(totals: seq<int>) returns (x: int, y: int, z: int, rest: multiset<int>)
    requires |totals| >= 3
    ensures TopThreeSplit(totals, x, y, z, rest)
  {
    var sorted := Sorting.AscendingInts(totals);
    var n := |sorted|;
    x, y, z := sorted[n - 3], sorted[n - 2], sorted[n - 1];
    assert TopThree(totals) == x + y + z;
    hide TopThree;
    var low := sorted[..n - 3];
    assert multiset{x, y, z} + multiset(low) == multiset(totals) by {
      assert sorted == low + [x, y, z];
    }
    forall v | v in multiset(low)
      ensures v <= x && v <= y && v <= z
    {
      var j :| 0 <= j < |low| && low[j] == v;
      assert sorted[j] <= sorted[n - 3];
    }
    rest := multiset(low);
  }

  /** Part 2: the calories carried by the three elves carrying the most:
      three of the totals, each no smaller than any other total. */
  function Part2(text: string): (r: int)
    requires WellFormed(text)
    requires |ElfTotals(text)| >= 3
    ensures exists x, y, z, rest: multiset<int> ::
      TopThreeSplit(ElfTotals(text), x, y, z, rest) && r == x + y + z
  {
    TopThreeAreLargest(ElfTotals(text));
    TopThree(ElfTotals(text))
  }
}
