/** Day 13: distress signal. Packets are nested lists of integers, compared
    element by element; an integer met against a list is first wrapped in a
    one-element list. */
module Day13 {
  import opened Wrappers
  import opened Text
  import opened Sorting

  datatype Packet = L(elems: seq<Packet>) | I(n: int)

  // ---------------------------------------------------------------------
  // Comparison

  /** The nesting depth of a packet: 0 for an integer. */
  function Height(p: Packet): (r: nat)
    ensures p.L? ==> r >= 1
    decreases p, 1
  {
    match p
    case I(_) => 0
    case L(xs) => 1 + MaxHeight(xs)
  }

  /** The largest height among `xs`, 0 when empty. */
  function MaxHeight(xs: seq<Packet>): (r: nat)
    ensures forall i :: 0 <= i < |xs| ==> Height(xs[i]) <= r
    decreases xs, 0
  {
    if xs == [] then 0
    else
      var h := Height(xs[0]);
      var rest := MaxHeight(xs[1..]);
      assert forall i :: 1 <= i < |xs| ==> xs[i] == xs[1..][i - 1];
      if h < rest then rest else h
  }

  /** Wrapping an integer gives a list of height 1. */
  lemma HeightOfSingleton(n: int)
    ensures Height(L([I(n)])) == 1
  {
    var xs := [I(n)];
    assert xs[1..] == [] && xs[0] == I(n);
    assert MaxHeight(xs) == 0;
  }

  function Height2(a: Packet, b: Packet): nat
  {
    if Height(a) < Height(b) then Height(b) else Height(a)
  }

  /** A packet kind mismatch, which the comparison resolves by wrapping. */
  function Mixed(a: Packet, b: Packet): nat
  {
    if a.I? == b.I? then 0 else 1
  }

  /** compare_elements: `Some(true)` when `left` comes first, `Some(false)`
      when `right` does, `None` when they cannot be told apart; a packet is
      never decided against itself. */
  function Compare(left: Packet, right: Packet): (r: Option<bool>)
    ensures left == right ==> r == None
    decreases Height2(left, right), Mixed(left, right), 1, 0
  {
    match (left, right)
    case (I(l), I(r)) => if l == r then None else Some(l < r)
    case (I(l), L(_)) => HeightOfSingleton(l); Compare(L([I(l)]), right)
    case (L(_), I(r)) => HeightOfSingleton(r); Compare(left, L([I(r)]))
    case (L(ls), L(rs)) => CompareFrom(ls, rs, 0)
  }

  /** The zipped walk over two lists from position `i`: the first decisive
      element pair decides, otherwise the shorter list comes first; the
      walk over a list and itself finds no decision. */
  function CompareFrom(ls: seq<Packet>, rs: seq<Packet>, i: nat): (r: Option<bool>)
    requires i <= |ls| && i <= |rs|
    ensures ls == rs ==> r == None
    decreases Height2(L(ls), L(rs)), 0, 0, |ls| - i
  {
    if i < |ls| && i < |rs| then
      match Compare(ls[i], rs[i])
      case Some(b) => Some(b)
      case None => CompareFrom(ls, rs, i + 1)
    else if |ls| == |rs| then None
    else Some(|ls| < |rs|)
  }

  function Flip(o: Option<bool>): Option<bool>
  {
    match o
    case None => None
    case Some(b) => Some(!b)
  }

  /** Swapping the packets swaps the answer; an undecided pair stays undecided. */
  lemma {:induction false} CompareSwap(a: Packet, b: Packet)
    ensures Compare(b, a) == Flip(Compare(a, b))
    decreases Height2(a, b), Mixed(a, b), 1, 0
  {
    match (a, b)
    case (I(_), I(_)) =>
    case (I(l), L(_)) =>
      HeightOfSingleton(l);
      CompareSwap(L([I(l)]), b);
    case (L(_), I(r)) =>
      HeightOfSingleton(r);
      CompareSwap(a, L([I(r)]));
    case (L(ls), L(rs)) => CompareFromSwap(ls, rs, 0);
  }

  lemma {:induction false} CompareFromSwap(ls: seq<Packet>, rs: seq<Packet>, i: nat)
    requires i <= |ls| && i <= |rs|
    ensures CompareFrom(rs, ls, i) == Flip(CompareFrom(ls, rs, i))
    decreases Height2(L(ls), L(rs)), 0, 0, |ls| - i
  {
    if i < |ls| && i < |rs| {
      CompareSwap(ls[i], rs[i]);
      CompareFromSwap(ls, rs, i + 1);
    }
  }

  /** A list comes before every longer list that it begins. */
  lemma {:induction false} ProperPrefixComesFirst(ls: seq<Packet>, rs: seq<Packet>, i: nat)
    requires |ls| < |rs| && rs[..|ls|] == ls && i <= |ls|
    ensures CompareFrom(ls, rs, i) == Some(true)
    decreases |ls| - i
  {
    if i < |ls| {
      assert rs[i] == ls[i];
      ProperPrefixComesFirst(ls, rs, i + 1);
    }
  }

  /** An integer compares with a packet exactly as the one-element list
      holding it does. */
  lemma IntegerActsAsSingleton(n: int, p: Packet)
    ensures Compare(I(n), p) == Compare(L([I(n)]), p)
    ensures Compare(p, I(n)) == Compare(p, L([I(n)]))
  {
    match p
    case L(_) =>
    case I(m) =>
      var s := [I(n)];
      var t := [I(m)];
      assert Compare(L(s), p) == CompareFrom(s, t, 0);
      assert Compare(p, L(s)) == CompareFrom(t, s, 0);
      assert CompareFrom(s, t, 1) == None && CompareFrom(t, s, 1) == None;
      assert s[0] == I(n) && t[0] == I(m);
  }

  // ---------------------------------------------------------------------
  // Parsing

  /** The innermost open list of the stack, with `e` appended. */
  function AppendToTop(stack: seq<seq<Packet>>, e: Packet): (r: seq<seq<Packet>>)
    requires stack != []
    ensures |r| == |stack| && r[..|r| - 1] == stack[..|stack| - 1]
    ensures r[|r| - 1] == stack[|stack| - 1] + [e]
  {
    stack[..|stack| - 1] + [stack[|stack| - 1] + [e]]
  }

  predicate IsDelimiter(c: char) { c == ',' || c == ']' }

  /** The position of the first `,` or `]`. */
  function FindDelimiter(s: string): (r: Option<nat>)
    ensures r.Some? ==> r.value < |s| && IsDelimiter(s[r.value])
    ensures r.Some? ==> forall j :: 0 <= j < r.value ==> !IsDelimiter(s[j])
    ensures r.None? ==> forall j :: 0 <= j < |s| ==> !IsDelimiter(s[j])
  {
    if s == [] then None
    else if IsDelimiter(s[0]) then Some(0)
    else
      match FindDelimiter(s[1..])
      case None => None
      case Some(k) => Some(k + 1)
  }

  /** What parse_packet's loop yields from the unread text `rest` with the
      open lists `stack`; None where the program panics (text runs out, a
      `]` or a number with no open list, a number that is not an i32). */
  function Run(rest: string, stack: seq<seq<Packet>>): Option<Packet>
    decreases |rest|
  {
    if rest == [] then None
    else if rest[0] == '[' then Run(rest[1..], stack + [[]])
    else if rest[0] == ']' then
      if stack == [] then None
      else
        var closed := stack[|stack| - 1];
        var outer := stack[..|stack| - 1];
        if outer == [] then Some(L(closed)) else Run(rest[1..], AppendToTop(outer, L(closed)))
    else if rest[0] == ',' then Run(rest[1..], stack)
    else
      match FindDelimiter(rest)
      case None => None
      case Some(k) =>
        if stack == [] then None
        else
          match ParseBounded(rest[..k], I32_MIN, I32_MAX)
          case None => None
          case Some(n) => Run(rest[k..], AppendToTop(stack, I(n)))
  }

  /** parse_packet: reads one packet from the front of `line`. */
  method ParsePacket(line: string) returns (r: Option<Packet>)
    ensures r == Run(line, [])
  {
    var rest := line;
    var stack: seq<seq<Packet>> := [];
    while rest != []
      invariant Run(rest, stack) == Run(line, [])
      decreases |rest|
    {
      var c := rest[0];
      if c == '[' {
        stack := stack + [[]];
        rest := rest[1..];
      } else if c == ']' {
        if stack == [] {
          return None;
        }
        var closed := stack[|stack| - 1];
        stack := stack[..|stack| - 1];
        if stack == [] {
          return Some(L(closed));
        }
        stack := stack[..|stack| - 1] + [stack[|stack| - 1] + [L(closed)]];
        rest := rest[1..];
      } else if c == ',' {
        rest := rest[1..];
      } else {
        var numEnd := FindDelimiter(rest);
        if numEnd.None? || stack == [] {
          return None;
        }
        var num := ParseBounded(rest[..numEnd.value], I32_MIN, I32_MAX);
        if num.None? {
          return None;
        }
        stack := stack[..|stack| - 1] + [stack[|stack| - 1] + [I(num.value)]];
        rest := rest[numEnd.value..];
      }
    }
    return None;
  }

  // The inverse: writing a packet as text.

  function Render(p: Packet): string
    decreases p, 1
  {
    match p
    case I(n) => ShowInt(n)
    case L(xs) => "[" + RenderItems(xs) + "]"
  }

  /** The elements of a list, separated by commas. */
  function RenderItems(xs: seq<Packet>): string
    decreases xs, 0
  {
    if xs == [] then []
    else if |xs| == 1 then Render(xs[0])
    else Render(xs[0]) + "," + RenderItems(xs[1..])
  }

  /** Every integer of the packet is an i32. */
  predicate ValidPacket(p: Packet)
  {
    match p
    case I(n) => I32_MIN <= n <= I32_MAX
    case L(xs) => forall i :: 0 <= i < |xs| ==> ValidPacket(xs[i])
  }

  /** A rendered integer followed by a delimiter is read as one token. */
  lemma ReadInteger(n: int, rest: string, stack: seq<seq<Packet>>)
    requires I32_MIN <= n <= I32_MAX
    requires stack != [] && rest != [] && IsDelimiter(rest[0])
    ensures Run(ShowInt(n) + rest, stack) == Run(rest, AppendToTop(stack, I(n)))
  {
    var digits := ShowInt(n);
    var text := digits + rest;
    assert text[0] == digits[0];
    assert forall j :: 0 <= j < |digits| ==> text[j] == digits[j];
    assert text[|digits|] == rest[0];
    var k := FindDelimiter(text).value;
    assert k == |digits|;
    assert text[..k] == digits && text[k..] == rest;
    ParseShowBounded(n, I32_MIN, I32_MAX);
  }

  /** Reading a rendered element appends it to the innermost open list. */
  lemma {:induction false} ReadElement(e: Packet, rest: string, stack: seq<seq<Packet>>)
    requires ValidPacket(e)
    requires stack != [] && rest != [] && IsDelimiter(rest[0])
    ensures Run(Render(e) + rest, stack) == Run(rest, AppendToTop(stack, e))
    decreases e, 1
  {
    match e
    case I(n) => ReadInteger(n, rest, stack);
    case L(xs) =>
      ReadItems(xs, "]" + rest, stack + [[]]);
      ReadList(xs, rest, stack);
  }

  /** A rendered list is `[`, its items and `]`: the `[` opens a list, the
      items fill it, and the `]` closes it into the enclosing one. */
  lemma ReadList(xs: seq<Packet>, rest: string, stack: seq<seq<Packet>>)
    requires stack != []
    requires Run(RenderItems(xs) + ("]" + rest), stack + [[]]) == Run("]" + rest, AppendAll(stack + [[]], xs))
    ensures Run(Render(L(xs)) + rest, stack) == Run(rest, AppendToTop(stack, L(xs)))
  {
    ReadOpen(xs, rest, stack);
    ReadClose(xs, rest, stack);
  }

  /** A `[` opens a new, empty innermost list. */
  lemma ReadOpen(xs: seq<Packet>, rest: string, stack: seq<seq<Packet>>)
    ensures Run(Render(L(xs)) + rest, stack) == Run(RenderItems(xs) + ("]" + rest), stack + [[]])
  {
    var items := RenderItems(xs);
    var body := items + ("]" + rest);
    var text := Render(L(xs)) + rest;
    assert Render(L(xs)) == "[" + items + "]";
    assert text == "[" + body;
    assert text[0] == '[' && text[1..] == body;
  }

  /** A `]` closes the innermost list into the one around it. */
  lemma ReadClose(xs: seq<Packet>, rest: string, stack: seq<seq<Packet>>)
    requires stack != []
    ensures Run("]" + rest, AppendAll(stack + [[]], xs)) == Run(rest, AppendToTop(stack, L(xs)))
  {
    var inner := AppendAll(stack + [[]], xs);
    assert inner[|inner| - 1] == xs;
    assert inner[..|inner| - 1] == stack;
    var closing := "]" + rest;
    assert closing[0] == ']' && closing[1..] == rest;
  }

  /** The innermost open list of the stack, with all of `xs` appended. */
  function AppendAll(stack: seq<seq<Packet>>, xs: seq<Packet>): (r: seq<seq<Packet>>)
    requires stack != []
    ensures |r| == |stack| && r[..|r| - 1] == stack[..|stack| - 1]
    ensures r[|r| - 1] == stack[|stack| - 1] + xs
  {
    stack[..|stack| - 1] + [stack[|stack| - 1] + xs]
  }

  /** Reading rendered elements appends them, in order, to the innermost
      open list. */
  lemma {:induction false} ReadItems(xs: seq<Packet>, rest: string, stack: seq<seq<Packet>>)
    requires forall i :: 0 <= i < |xs| ==> ValidPacket(xs[i])
    requires stack != [] && rest != [] && rest[0] == ']'
    ensures Run(RenderItems(xs) + rest, stack) == Run(rest, AppendAll(stack, xs))
    decreases xs, 0
  {
    if xs == [] {
      assert RenderItems(xs) + rest == rest;
      assert stack[|stack| - 1] + xs == stack[|stack| - 1];
      assert AppendAll(stack, xs) == stack;
    } else if |xs| == 1 {
      ReadElement(xs[0], rest, stack);
      assert [xs[0]] == xs;
    } else {
      var tail := "," + RenderItems(xs[1..]) + rest;
      ReadElement(xs[0], tail, stack);
      ReadItems(xs[1..], rest, AppendToTop(stack, xs[0]));
      ReadCommaThenItems(xs, rest, stack);
    }
  }

  /** The step of ReadItems past its first element and the comma after it. */
  lemma ReadCommaThenItems(xs: seq<Packet>, rest: string, stack: seq<seq<Packet>>)
    requires |xs| > 1 && stack != []
    requires Run(Render(xs[0]) + ("," + RenderItems(xs[1..]) + rest), stack) ==
      Run("," + RenderItems(xs[1..]) + rest, AppendToTop(stack, xs[0]))
    requires Run(RenderItems(xs[1..]) + rest, AppendToTop(stack, xs[0])) ==
      Run(rest, AppendAll(AppendToTop(stack, xs[0]), xs[1..]))
    ensures Run(RenderItems(xs) + rest, stack) == Run(rest, AppendAll(stack, xs))
  {
    hide Run;
    var tail := "," + RenderItems(xs[1..]) + rest;
    assert RenderItems(xs) + rest == Render(xs[0]) + tail;
    assert tail[0] == ',' && tail[1..] == RenderItems(xs[1..]) + rest;
    RunComma(tail, AppendToTop(stack, xs[0]));
    var top := stack[|stack| - 1];
    assert top + [xs[0]] + xs[1..] == top + xs;
    assert AppendAll(AppendToTop(stack, xs[0]), xs[1..]) == AppendAll(stack, xs);
  }

  /** A comma between elements is skipped. */
  lemma RunComma(text: string, stack: seq<seq<Packet>>)
    requires text != [] && text[0] == ','
    ensures Run(text, stack) == Run(text[1..], stack)
  {
  }

  /** Parsing a rendered list packet gives it back, whatever text follows. */
  lemma ParseRender(p: Packet, rest: string)
    requires p.L? && ValidPacket(p)
    ensures Run(Render(p) + rest, []) == Some(p)
  {
    var xs := p.elems;
    var empty: seq<seq<Packet>> := [];
    var closing := "]" + rest;
    assert Run(Render(L(xs)) + rest, empty) == Run(RenderItems(xs) + closing, [[]]) by {
      ReadOpen(xs, rest, empty);
      assert empty + [[]] == [[]];
    }
    assert Run(RenderItems(xs) + closing, [[]]) == Run(closing, [xs]) by {
      assert forall i :: 0 <= i < |xs| ==> ValidPacket(xs[i]);
      ReadItems(xs, closing, [[]]);
      assert [] + xs == xs;
      assert AppendAll([[]], xs) == [xs];
    }
    CloseOutermost(xs, rest);
  }

  /** A `]` closing the only open list ends the parse with that list. */
  lemma CloseOutermost(xs: seq<Packet>, rest: string)
    ensures Run("]" + rest, [xs]) == Some(L(xs))
  {
    var closing := "]" + rest;
    assert closing[0] == ']';
    assert [xs][..0] == [];
  }

  // ---------------------------------------------------------------------
  // The two parts

  /** Part 1: the sum of the 1-based indices of the pairs in the right
      order. Every pair must be decided, as the program unwraps the answer. */
  function Part1(pairs: seq<(Packet, Packet)>): (r: int)
    requires forall i :: 0 <= i < |pairs| ==> Compare(pairs[i].0, pairs[i].1).Some?
    ensures 0 <= r <= Triangle(|pairs|)
  {
    if pairs == [] then 0
    else
      var n := |pairs|;
      var last := if Compare(pairs[n - 1].0, pairs[n - 1].1) == Some(true) then n else 0;
      Part1(pairs[..n - 1]) + last
  }

  /** 1 + 2 + ... + n. */
  function Triangle(n: nat): nat
  {
    if n == 0 then 0 else Triangle(n - 1) + n
  }

  function Swapped(pairs: seq<(Packet, Packet)>): (r: seq<(Packet, Packet)>)
    ensures |r| == |pairs|
    ensures forall i :: 0 <= i < |r| ==> r[i] == (pairs[i].1, pairs[i].0)
  {
    seq(|pairs|, i requires 0 <= i < |pairs| => (pairs[i].1, pairs[i].0))
  }

  /** Every decided pair is in the right order exactly one way round, so the
      answers for the pairs and for the swapped pairs add up to 1 + ... + n. */
  lemma {:induction false} Part1Swapped(pairs: seq<(Packet, Packet)>)
    requires forall i :: 0 <= i < |pairs| ==> Compare(pairs[i].0, pairs[i].1).Some?
    ensures forall i :: 0 <= i < |pairs| ==> Compare(pairs[i].1, pairs[i].0).Some?
    ensures Part1(pairs) + Part1(Swapped(pairs)) == Triangle(|pairs|)
  {
    forall i | 0 <= i < |pairs|
      ensures Compare(pairs[i].1, pairs[i].0) == Flip(Compare(pairs[i].0, pairs[i].1))
    {
      CompareSwap(pairs[i].0, pairs[i].1);
    }
    if pairs != [] {
      var n := |pairs|;
      var init := pairs[..n - 1];
      Part1Swapped(init);
      assert Swapped(pairs)[..n - 1] == Swapped(init);
    }
  }

  /** The order part 2 sorts by: `a` may come before `b` unless `b` is
      known to come first (an undecided pair counts as equal). */
  function Le(a: Packet, b: Packet): bool
  {
    Compare(a, b) != Some(false)
  }

  /** Of any two packets, one may come before the other. */
  lemma LeTotal()
    ensures Total(Le)
  {
    forall a: Packet, b: Packet
      ensures Le(a, b) || Le(b, a)
    {
      CompareSwap(a, b);
    }
  }

  const Marker1: Packet := L([L([I(2)])])
  const Marker2: Packet := L([L([I(6)])])

  function FlattenPairs(pairs: seq<(Packet, Packet)>): (r: seq<Packet>)
    ensures |r| == 2 * |pairs|
    ensures forall i :: 0 <= i < |pairs| ==> r[2 * i] == pairs[i].0 && r[2 * i + 1] == pairs[i].1
  {
    if pairs == [] then [] else [pairs[0].0, pairs[0].1] + FlattenPairs(pairs[1..])
  }

  /** Every packet of the pairs, in order, then the two divider packets. */
  function AllPackets(pairs: seq<(Packet, Packet)>): (r: seq<Packet>)
    ensures |r| == 2 * |pairs| + 2
    ensures r[|r| - 2] == Marker1 && r[|r| - 1] == Marker2
  {
    FlattenPairs(pairs) + [Marker1, Marker2]
  }

  /** The first position of `x` in `s`, as `position` finds it. */
  function Position(s: seq<Packet>, x: Packet): (r: nat)
    requires x in s
    ensures r < |s| && s[r] == x
    ensures forall j :: 0 <= j < r ==> s[j] != x
  {
    if s[0] == x then 0 else Position(s[1..], x) + 1
  }

  /** Part 2: the decoder key of the sorted packets: the first places the
      dividers take in a stable ordering of all the packets and the
      dividers (packets that compare equal keep their input order), so
      between 1 and the square of their number. */
  function Part2(pairs: seq<(Packet, Packet)>): (r: int)
    ensures var n := 2 * |pairs| + 2; 1 <= r <= n * n
    ensures exists sorted, origins ::
      && multiset(sorted) == multiset(AllPackets(pairs)) && AdjacentSorted(sorted, Le)
      && StableArrangement(AllPackets(pairs), sorted, origins, Le)
      && Marker1 in sorted && Marker2 in sorted
      && r == DecoderKey(sorted)
  {
    Part2Key(pairs);
    DecoderKey(SortBy(AllPackets(pairs), Le))
  }

  /** The key part 2 computes has the bounds and the witness its contract
      states. */
  lemma Part2Key(pairs: seq<(Packet, Packet)>)
    ensures var sorted := SortBy(AllPackets(pairs), Le);
      && Marker1 in sorted && Marker2 in sorted
      && var n := 2 * |pairs| + 2; 1 <= DecoderKey(sorted) <= n * n
    ensures exists sorted, origins ::
      && multiset(sorted) == multiset(AllPackets(pairs)) && AdjacentSorted(sorted, Le)
      && StableArrangement(AllPackets(pairs), sorted, origins, Le)
      && Marker1 in sorted && Marker2 in sorted
      && DecoderKey(SortBy(AllPackets(pairs), Le)) == DecoderKey(sorted)
  {
    var sorted := SortBy(AllPackets(pairs), Le);
    Part2Sorted(pairs);
    SortByStable(AllPackets(pairs), Le);
    assert StableArrangement(AllPackets(pairs), sorted, Origins(AllPackets(pairs), Le), Le);
    assert |sorted| == 2 * |pairs| + 2;
  }

  /** The product of the 1-based positions of the first occurrences of the
      two dividers. */
  function DecoderKey(sorted: seq<Packet>): (r: int)
    requires Marker1 in sorted && Marker2 in sorted
    ensures 1 <= r <= |sorted| * |sorted|
  {
    var first, second := Position(sorted, Marker1) + 1, Position(sorted, Marker2) + 1;
    ProductBound(first, second, |sorted|);
    first * second
  }

  /** Two 1-based positions in a sequence of n elements multiply to at most
      n * n. */
  lemma ProductBound(a: int, b: int, n: int)
    requires 1 <= a <= n && 1 <= b <= n
    ensures 1 <= a * b <= n * n
  {
    assert a * b <= n * b;
    assert n * b <= n * n;
  }

  /** The sequence part 2 searches holds exactly the packets and the two
      dividers, each next to a neighbour it may follow; so both dividers are
      found in it. */
  lemma Part2Sorted(pairs: seq<(Packet, Packet)>)
    ensures var sorted := SortBy(AllPackets(pairs), Le);
      && multiset(sorted) == multiset(AllPackets(pairs))
      && AdjacentSorted(sorted, Le)
      && Marker1 in sorted && Marker2 in sorted
  {
    LeTotal();
    SortBySorted(AllPackets(pairs), Le);
    var all := AllPackets(pairs);
    assert Marker1 in multiset(all) && Marker2 in multiset(all);
  }

  /** The first divider comes before the second. */
  lemma MarkersInOrder()
    ensures Compare(Marker1, Marker2) == Some(true)
  {
    assert CompareFrom([I(2)], [I(6)], 0) == Some(true);
    assert CompareFrom([L([I(2)])], [L([I(6)])], 0) == Some(true);
  }
}
