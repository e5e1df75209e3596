/** Day 3: rucksack reorganisation. Each rucksack is a line of item letters;
    the item of interest is the smallest one (in character order, as an
    ordered set yields it first) common to several groups of items. */
module Day03 {
  import opened Wrappers

  predicate IsLower(c: char) { 'a' <= c <= 'z' }

  predicate IsUpper(c: char) { 'A' <= c <= 'Z' }

  predicate IsItem(c: char) { IsLower(c) || IsUpper(c) }

  /** a..z have priorities 1..26 and A..Z have 27..52. */
  function Priority(c: char): (r: int)
    requires IsItem(c)
    ensures IsLower(c) ==> r == (c as int) - ('a' as int) + 1
    ensures IsUpper(c) ==> r == (c as int) - ('A' as int) + 27
  {
    if IsLower(c) then c as int - 'a' as int + 1 else c as int - 'A' as int + 27
  }

  /** The item with a given priority, the inverse of Priority. */
  function ItemOfPriority(p: int): (c: char)
    requires 1 <= p <= 52
    ensures IsItem(c)
  {
    if p <= 26 then ('a' as int + p - 1) as char else ('A' as int + p - 27) as char
  }

  /** Priorities are 1..52, one per item letter. */
  lemma PriorityIsBijection(c: char, p: int)
    requires IsItem(c)
    requires 1 <= p <= 52
    ensures 1 <= Priority(c) <= 52
    ensures ItemOfPriority(Priority(c)) == c
    ensures Priority(ItemOfPriority(p)) == p
  {
  }

  /** `x` occurs in every one of `sacks`. */
  predicate InAll(x: char, sacks: seq<seq<char>>)
  {
    forall k :: 0 <= k < |sacks| ==> x in sacks[k]
  }

  /** The smallest element of `xs` that occurs in every sequence of `others`. */
  function SmallestCommon(xs: seq<char>, others: seq<seq<char>>): (r: Option<char>)
    ensures r.Some? ==> r.value in xs && InAll(r.value, others)
    ensures r.Some? ==> forall x :: x in xs && InAll(x, others) ==> r.value <= x
    ensures r.None? ==> forall x :: x in xs ==> !InAll(x, others)
  {
    if xs == [] then None
    else
      var rest := SmallestCommon(xs[1..], others);
      var x := xs[0];
      assert forall y :: y in xs ==> y == x || y in xs[1..];
      if InAll(x, others) then
        if rest.Some? && rest.value < x then rest else Some(x)
      else rest
  }

  /** Both halves share an item. */
  predicate HalvesShareItem(sack: seq<char>)
  {
    SmallestCommon(sack[..|sack| / 2], [sack[|sack| / 2..]]).Some?
  }

  /** The item in both compartments: the rucksack is split at len / 2. */
  function MisplacedItem(sack: seq<char>): (r: char)
    requires HalvesShareItem(sack)
    ensures r in sack[..|sack| / 2] && r in sack[|sack| / 2..]
    ensures forall x :: x in sack[..|sack| / 2] && x in sack[|sack| / 2..] ==> r <= x
  {
    var others := [sack[|sack| / 2..]];
    var r := SmallestCommon(sack[..|sack| / 2], others).value;
    assert forall x :: x in sack[|sack| / 2..] ==> x in others[0];
    r
  }

  predicate AllItems(sacks: seq<seq<char>>)
  {
    forall i, j :: 0 <= i < |sacks| && 0 <= j < |sacks[i]| ==> IsItem(sacks[i][j])
  }

  /** Part 1: the sum of the priorities of each rucksack's misplaced item. */
  function Part1(sacks: seq<seq<char>>): (r: int)
    requires AllItems(sacks)
    requires forall i :: 0 <= i < |sacks| ==> HalvesShareItem(sacks[i])
    ensures |sacks| <= r <= 52 * |sacks|
  {
    if sacks == [] then 0
    else
      var last := sacks[|sacks| - 1];
      var item := MisplacedItem(last);
      assert item in last;
      Part1(sacks[..|sacks| - 1]) + Priority(item)
  }

  /** The smallest item common to all the rucksacks of a group. */
  function BadgeOf(group: seq<seq<char>>): (r: Option<char>)
    requires |group| >= 1
    ensures r.Some? ==> InAll(r.value, group)
    ensures r.Some? ==> forall x :: InAll(x, group) ==> r.value <= x
    ensures r.None? ==> forall x :: !InAll(x, group)
  {
    var r := SmallestCommon(group[0], group[1..]);
    forall x
      ensures InAll(x, group) <==> x in group[0] && InAll(x, group[1..])
    {
      if x in group[0] && InAll(x, group[1..]) {
        forall k | 1 <= k < |group| ensures x in group[k] {
          assert group[k] == group[1..][k - 1];
        }
      }
    }
    r
  }

  /** `chunks(3)`: consecutive groups of three, the last one possibly shorter. */
  function Chunks(sacks: seq<seq<char>>): (r: seq<seq<seq<char>>>)
    ensures forall g :: g in r ==> 1 <= |g| <= 3
    ensures |sacks| % 3 == 0 ==> forall g :: g in r ==> |g| == 3
    ensures Flatten(r) == sacks
    decreases |sacks|
  {
    if sacks == [] then []
    else if |sacks| <= 3 then [sacks]
    else [sacks[..3]] + Chunks(sacks[3..])
  }

  function Flatten<T>(gs: seq<seq<T>>): seq<T>
  {
    if gs == [] then [] else gs[0] + Flatten(gs[1..])
  }

  /** Every group holds item letters only and has a badge. */
  predicate GroupsShareBadges(groups: seq<seq<seq<char>>>)
  {
    forall i :: 0 <= i < |groups| ==>
      && |groups[i]| >= 1
      && AllItems(groups[i])
      && BadgeOf(groups[i]).Some?
  }

  /** Part 2: the sum of the priorities of the badge of each group of three. */
  function Part2(sacks: seq<seq<char>>): (r: int)
    requires GroupsShareBadges(Chunks(sacks))
    ensures |Chunks(sacks)| <= r <= 52 * |Chunks(sacks)|
  {
    BadgeSum(Chunks(sacks))
  }

  function BadgeSum(groups: seq<seq<seq<char>>>): (r: int)
    requires GroupsShareBadges(groups)
    ensures |groups| <= r <= 52 * |groups|
  {
    if groups == [] then 0
    else
      var g := groups[|groups| - 1];
      var badge := BadgeOf(g).value;
      assert badge in g[0];
      BadgeSum(groups[..|groups| - 1]) + Priority(badge)
  }
}
