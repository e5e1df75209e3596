/** Day 4: camp cleanup. Each line holds two section ranges `a0-a1,b0-b1`. */
module Day04 {
  import opened Wrappers
  import opened Text

  datatype Range = Range(lo: int, hi: int)

  datatype Pair = Pair(a: Range, b: Range)

  /** `x-y` split at the first dash, each side an i32. */
  function ParseRange(s: string): (r: Option<Range>)
    ensures r.Some? ==> exists x, y ::
      && s == x + "-" + y && '-' !in x
      && ParseBounded(x, I32_MIN, I32_MAX) == Some(r.value.lo)
      && ParseBounded(y, I32_MIN, I32_MAX) == Some(r.value.hi)
  {
    match SplitOnce(s, "-")
    case None => None
    case Some((x, y)) =>
      NoOccurrenceNoSeparator(x, '-', y);
      match (ParseBounded(x, I32_MIN, I32_MAX), ParseBounded(y, I32_MIN, I32_MAX))
      case (Some(lo), Some(hi)) => Some(Range(lo, hi))
      case _ => None
  }

  /** One line: two ranges separated by the first comma. */
  function ParsePair(line: string): (r: Option<Pair>)
    ensures r.Some? ==> exists x, y ::
      && line == x + "," + y && ',' !in x
      && ParseRange(x) == Some(r.value.a)
      && ParseRange(y) == Some(r.value.b)
  {
    match SplitOnce(line, ",")
    case None => None
    case Some((x, y)) =>
      NoOccurrenceNoSeparator(x, ',', y);
      match (ParseRange(x), ParseRange(y))
      case (Some(a), Some(b)) => Some(Pair(a, b))
      case _ => None
  }

  function ShowRange(r: Range): string
  {
    ShowInt(r.lo) + "-" + ShowInt(r.hi)
  }

  function ShowPair(p: Pair): string
  {
    ShowRange(p.a) + "," + ShowRange(p.b)
  }

  predicate NonNegative(r: Range) { 0 <= r.lo <= I32_MAX && 0 <= r.hi <= I32_MAX }

  /** A rendered non-negative value contains neither separator. */
  lemma ShowNonNegativeHasNoSeparator(n: int, sep: char)
    requires n >= 0
    requires sep == '-' || sep == ','
    ensures sep !in ShowInt(n)
  {
    var s := ShowInt(n);
    assert forall i :: 0 <= i < |s| ==> IsDigit(s[i]);
  }

  lemma {:induction false} NoSeparatorNoOccurrence(a: string, sep: char, rest: string)
    requires sep !in a
    ensures forall i :: 0 <= i < |a| ==> !OccursAt(a + [sep] + rest, [sep], i)
  {
    forall i | 0 <= i < |a|
      ensures !OccursAt(a + [sep] + rest, [sep], i)
    {
      assert (a + [sep] + rest)[i..i + 1] == [a[i]];
    }
  }

  /** A part before the first occurrence of a separator holds none of it. */
  lemma NoOccurrenceNoSeparator(a: string, sep: char, rest: string)
    requires forall i :: 0 <= i < |a| ==> !OccursAt(a + [sep] + rest, [sep], i)
    ensures sep !in a
  {
    forall i | 0 <= i < |a|
      ensures a[i] != sep
    {
      assert !OccursAt(a + [sep] + rest, [sep], i);
      assert (a + [sep] + rest)[i..i + 1] == [a[i]];
    }
  }

  /** Parsing a rendered range gives it back. */
  lemma ParseShowRange(r: Range)
    requires NonNegative(r)
    ensures ParseRange(ShowRange(r)) == Some(r)
  {
    ShowNonNegativeHasNoSeparator(r.lo, '-');
    NoSeparatorNoOccurrence(ShowInt(r.lo), '-', ShowInt(r.hi));
    SplitOnceJoin(ShowInt(r.lo), "-", ShowInt(r.hi));
    ParseShowBounded(r.lo, I32_MIN, I32_MAX);
    ParseShowBounded(r.hi, I32_MIN, I32_MAX);
  }

  /** Parsing a rendered line gives the pair back. */
  lemma ParseShowPair(p: Pair)
    requires NonNegative(p.a) && NonNegative(p.b)
    ensures ParsePair(ShowPair(p)) == Some(p)
  {
    var left := ShowRange(p.a);
    assert ',' !in left by {
      ShowNonNegativeHasNoSeparator(p.a.lo, ',');
      ShowNonNegativeHasNoSeparator(p.a.hi, ',');
    }
    NoSeparatorNoOccurrence(left, ',', ShowRange(p.b));
    SplitOnceJoin(left, ",", ShowRange(p.b));
    ParseShowRange(p.a);
    ParseShowRange(p.b);
  }

  /** Part 1's test: one range contains the other. */
  predicate FullyContains(p: Pair)
  {
    (p.a.lo >= p.b.lo && p.a.hi <= p.b.hi) || (p.a.lo <= p.b.lo && p.a.hi >= p.b.hi)
  }

  /** Part 2's test: some endpoint of one range lies in the other. */
  predicate Overlaps(p: Pair)
  {
    || (p.a.lo >= p.b.lo && p.a.lo <= p.b.hi)
    || (p.a.hi >= p.b.lo && p.a.hi <= p.b.hi)
    || (p.b.lo >= p.a.lo && p.b.lo <= p.a.hi)
    || (p.b.hi >= p.a.lo && p.b.hi <= p.a.hi)
  }

  predicate WellFormed(r: Range) { r.lo <= r.hi }

  /** Section `s` belongs to range `r`. */
  predicate Covers(r: Range, s: int) { r.lo <= s <= r.hi }

  function Swap(p: Pair): Pair { Pair(p.b, p.a) }

  /** Neither test depends on the order of the two ranges. */
  lemma TestsAreSymmetric(p: Pair)
    ensures FullyContains(p) <==> FullyContains(Swap(p))
    ensures Overlaps(p) <==> Overlaps(Swap(p))
  {
  }

  /** With well-formed ranges, containment implies overlap, and overlap means
      the ranges share a section: both agree with their set meaning. */
  lemma TestsMatchSections(p: Pair)
    requires WellFormed(p.a) && WellFormed(p.b)
    ensures FullyContains(p) ==> Overlaps(p)
    ensures Overlaps(p) <==> exists s :: Covers(p.a, s) && Covers(p.b, s)
    ensures FullyContains(p) <==>
      (forall s :: Covers(p.a, s) ==> Covers(p.b, s)) ||
      (forall s :: Covers(p.b, s) ==> Covers(p.a, s))
  {
    if Overlaps(p) {
      var s := if p.a.lo >= p.b.lo then p.a.lo else p.b.lo;
      assert Covers(p.a, s) && Covers(p.b, s);
    }
    if forall s :: Covers(p.a, s) ==> Covers(p.b, s) {
      assert Covers(p.a, p.a.lo) && Covers(p.a, p.a.hi);
    }
    if forall s :: Covers(p.b, s) ==> Covers(p.a, s) {
      assert Covers(p.b, p.b.lo) && Covers(p.b, p.b.hi);
    }
  }

  /** The number of pairs satisfying a test. */
  function Count(pairs: seq<Pair>, test: Pair -> bool): (r: nat)
    ensures r <= |pairs|
  {
    if pairs == [] then 0
    else Count(pairs[..|pairs| - 1], test) + (if test(pairs[|pairs| - 1]) then 1 else 0)
  }

  /** Counting with a weaker test never gives less. */
  lemma {:induction false} CountMonotone(pairs: seq<Pair>, t1: Pair -> bool, t2: Pair -> bool)
    requires forall i :: 0 <= i < |pairs| ==> t1(pairs[i]) ==> t2(pairs[i])
    ensures Count(pairs, t1) <= Count(pairs, t2)
  {
    if pairs != [] {
      CountMonotone(pairs[..|pairs| - 1], t1, t2);
    }
  }

  /** The positions of the pairs satisfying a test. */
  function Matches(pairs: seq<Pair>, test: Pair -> bool): set<nat>
  {
    set i: nat | i < |pairs| && test(pairs[i])
  }

  /** The count is the number of positions whose pair passes the test. */
  lemma {:induction false} CountMatches(pairs: seq<Pair>, test: Pair -> bool)
    ensures Count(pairs, test) == |Matches(pairs, test)|
  {
    if pairs != [] {
      var n := |pairs| - 1;
      CountMatches(pairs[..n], test);
      var before := Matches(pairs[..n], test);
      assert Matches(pairs, test) == before + (if test(pairs[n]) then {n} else {});
      assert n !in before;
    }
  }

  /** Part 1: the number of lines whose ranges contain one another. */
  function Part1(pairs: seq<Pair>): (r: nat)
    ensures r == |set i: nat | i < |pairs| && FullyContains(pairs[i])|
  {
    CountMatches(pairs, FullyContains);
    assert Matches(pairs, FullyContains) == set i: nat | i < |pairs| && FullyContains(pairs[i]);
    Count(pairs, FullyContains)
  }

  /** Part 2: the number of lines whose ranges overlap. */
  function Part2(pairs: seq<Pair>): (r: nat)
    ensures r == |set i: nat | i < |pairs| && Overlaps(pairs[i])|
  {
    CountMatches(pairs, Overlaps);
    assert Matches(pairs, Overlaps) == set i: nat | i < |pairs| && Overlaps(pairs[i]);
    Count(pairs, Overlaps)
  }

  /** Among well-formed pairs, part 2 counts at least as many as part 1. */
  lemma Part1AtMostPart2(pairs: seq<Pair>)
    requires forall i :: 0 <= i < |pairs| ==> WellFormed(pairs[i].a) && WellFormed(pairs[i].b)
    ensures Part1(pairs) <= Part2(pairs)
  {
    forall i | 0 <= i < |pairs|
      ensures FullyContains(pairs[i]) ==> Overlaps(pairs[i])
    {
      TestsMatchSections(pairs[i]);
    }
    CountMonotone(pairs, FullyContains, Overlaps);
  }
}
