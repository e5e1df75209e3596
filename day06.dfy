/** Day 6: tuning trouble. A marker ends the first window of `k` consecutive
    pairwise-different bytes of the datastream. */
module Day06 {

  newtype byte = x: int | 0 <= x < 256

  /** No byte of the window occurs twice. */
  predicate Distinct(w: seq<byte>)
  {
    w == [] || (w[0] !in w[1..] && Distinct(w[1..]))
  }

  /** The recursive definition means what it says: no two positions hold the
      same byte. */
  lemma {:induction false} DistinctPairwise(w: seq<byte>)
    ensures Distinct(w) <==> forall i, j :: 0 <= i < j < |w| ==> w[i] != w[j]
  {
    if w != [] {
      var t := w[1..];
      DistinctPairwise(t);
      if Distinct(w) {
        forall i, j | 0 <= i < j < |w| ensures w[i] != w[j] {
          assert w[j] == t[j - 1];
          if i > 0 {
            assert w[i] == t[i - 1];
          }
        }
      }
      if forall i, j :: 0 <= i < j < |w| ==> w[i] != w[j] {
        forall i, j | 0 <= i < j < |t| ensures t[i] != t[j] {
          assert t[i] == w[i + 1] && t[j] == w[j + 1];
        }
        forall j | 0 <= j < |t| ensures t[j] != w[0] {
          assert t[j] == w[j + 1];
        }
      }
    }
  }

  /** No byte occurs twice among positions lo .. hi-1 of the stream. */
  predicate DistinctRange(chars: seq<byte>, lo: nat, hi: nat)
    requires lo <= hi <= |chars|
  {
    forall i, j :: lo <= i < j < hi ==> chars[i] != chars[j]
  }

  /** The window ending (exclusive) at r is a marker of size k. */
  predicate MarkerAt(chars: seq<byte>, k: nat, r: nat)
  {
    k <= r <= |chars| && DistinctRange(chars, r - k, r)
  }

  lemma DistinctRangeSlice(chars: seq<byte>, lo: nat, hi: nat)
    requires lo <= hi <= |chars|
    ensures DistinctRange(chars, lo, hi) <==> Distinct(chars[lo..hi])
  {
    var w := chars[lo..hi];
    DistinctPairwise(w);
    assert forall i :: 0 <= i < |w| ==> w[i] == chars[lo + i];
    if Distinct(w) {
      forall i, j | lo <= i < j < hi ensures chars[i] != chars[j] {
        assert chars[i] == w[i - lo] && chars[j] == w[j - lo];
      }
    }
  }

  /** The different bytes of a window. */
  function Elems(w: seq<byte>): set<byte>
  {
    set x | x in w
  }

  /** A window has as many different bytes as positions exactly when it has
      no repetition; otherwise fewer. */
  lemma {:induction false} ElemsCardinality(w: seq<byte>)
    ensures |Elems(w)| <= |w|
    ensures |Elems(w)| == |w| <==> Distinct(w)
  {
    if w != [] {
      var t := w[1..];
      ElemsCardinality(t);
      assert Elems(w) == Elems(t) + {w[0]};
      if w[0] in t {
        assert Elems(w) == Elems(t);
      }
    }
  }

  /** Part 1's test: six comparisons of a 4-byte window. */
  predicate Distinct4(w: seq<byte>)
    requires |w| == 4
  {
    w[0] != w[1] && w[0] != w[2] && w[0] != w[3] &&
    w[1] != w[2] && w[1] != w[3] &&
    w[2] != w[3]
  }

  /** The six comparisons decide the general test on four bytes. */
  lemma Distinct4IsDistinct(w: seq<byte>)
    requires |w| == 4
    ensures Distinct4(w) <==> Distinct(w)
  {
    DistinctPairwise(w);
  }

  /** Part 1: the index of the first window of four satisfying Distinct4,
      searched from `from`, plus 4. */
  function Part1From(chars: seq<byte>, from: nat): (r: nat)
    requires exists r :: from + 4 <= r && MarkerAt(chars, 4, r)
    ensures MarkerAt(chars, 4, r)
    ensures forall r' :: from + 4 <= r' < r ==> !MarkerAt(chars, 4, r')
    decreases |chars| - from
  {
    Distinct4IsDistinct(chars[from..from + 4]);
    DistinctRangeSlice(chars, from, from + 4);
    if Distinct4(chars[from..from + 4]) then from + 4
    else
      assert !MarkerAt(chars, 4, from + 4);
      Part1From(chars, from + 1)
  }

  function Part1(chars: seq<byte>): (r: nat)
    requires exists r :: MarkerAt(chars, 4, r)
    ensures MarkerAt(chars, 4, r)
    ensures forall r': nat {:trigger MarkerAt(chars, 4, r')} :: r' < r ==> !MarkerAt(chars, 4, r')
  {
    Part1From(chars, 0)
  }

  /** `m` counts the occurrences of each byte of window `w`; bytes that do not
      occur have no entry. */
  ghost predicate Counts(m: map<byte, nat>, w: seq<byte>)
  {
    m == CountMap(w)
  }

  /** `m` counts the window of positions lo .. hi-1. */
  ghost predicate CountsRange(m: map<byte, nat>, chars: seq<byte>, lo: nat, hi: nat)
    requires lo <= hi <= |chars|
  {
    Counts(m, chars[lo..hi])
  }

  /** Each byte of the window mapped to its number of occurrences. */
  ghost function CountMap(w: seq<byte>): map<byte, nat>
  {
    map c | c in multiset(w) :: multiset(w)[c]
  }

  lemma CountsKeys(m: map<byte, nat>, w: seq<byte>)
    requires Counts(m, w)
    ensures m.Keys == Elems(w)
  {
  }

  /** The map has k keys exactly when the window it counts is a marker. */
  lemma CountsDecideMarker(m: map<byte, nat>, chars: seq<byte>, k: nat, r: nat)
    requires k <= r <= |chars|
    requires CountsRange(m, chars, r - k, r)
    ensures |m| == k <==> MarkerAt(chars, k, r)
  {
    CountsKeys(m, chars[r - k..r]);
    ElemsCardinality(chars[r - k..r]);
    DistinctRangeSlice(chars, r - k, r);
  }

  /** The `insert` closure: one more occurrence of c. */
  method Insert(m: map<byte, nat>, c: byte, ghost w: seq<byte>) returns (m': map<byte, nat>)
    requires Counts(m, w)
    ensures Counts(m', w + [c])
  {
    if c in m {
      m' := m[c := m[c] + 1];
    } else {
      m' := m[c := 1];
    }
    assert multiset(w + [c]) == multiset(w) + multiset{c};
    assert m'.Keys == CountMap(w + [c]).Keys;
  }

  /** The `remove` closure: one occurrence of c fewer, dropping the entry at 0. */
  method Remove(m: map<byte, nat>, c: byte, ghost w: seq<byte>) returns (m': map<byte, nat>)
    requires Counts(m, [c] + w)
    ensures Counts(m', w)
  {
    var e: nat := if c in m && m[c] > 0 then m[c] - 1 else 0;
    m' := m[c := e];
    if e == 0 {
      m' := m' - {c};
    }
    assert multiset([c] + w) == multiset{c} + multiset(w);
    assert m'.Keys == CountMap(w).Keys;
  }

  /** One step of the loop: the byte leaving the window is removed from the
      counts and the byte entering it is added. */
  method Slide(m: map<byte, nat>, chars: seq<byte>, index: nat, k: nat) returns (m': map<byte, nat>)
    requires 0 < k && index + k < |chars|
    requires CountsRange(m, chars, index, index + k)
    ensures CountsRange(m', chars, index + 1, index + 1 + k)
  {
    ghost var kept := chars[index + 1..index + k];
    assert chars[index..index + k] == [chars[index]] + kept;
    var m1 := Remove(m, chars[index], kept);
    m' := Insert(m1, chars[index + k], kept);
    assert kept + [chars[index + k]] == chars[index + 1..index + 1 + k];
  }

  /** The first marker ending at or after `from`: the reference definition
      FindMarker is proved against. */
  ghost function FirstMarkerFrom(chars: seq<byte>, k: nat, from: nat): (r: nat)
    requires exists r :: from <= r && MarkerAt(chars, k, r)
    ensures from <= r && MarkerAt(chars, k, r)
    ensures forall r' :: from <= r' < r ==> !MarkerAt(chars, k, r')
    decreases |chars| - from
  {
    if MarkerAt(chars, k, from) then from else FirstMarkerFrom(chars, k, from + 1)
  }

  /** The end of the first window of k pairwise-different bytes, found by
      sliding a count map along the stream. */
  method FindMarker(chars: seq<byte>, k: nat) returns (r: nat)
    requires exists r :: MarkerAt(chars, k, r)
    ensures MarkerAt(chars, k, r)
    ensures forall r': nat {:trigger MarkerAt(chars, k, r')} :: r' < r ==> !MarkerAt(chars, k, r')
  {
    ghost var first := FirstMarkerFrom(chars, k, 0);
    var m: map<byte, nat> := map[];
    var i := 0;
    while i < k && i < |chars|
      invariant i <= k && i <= |chars|
      invariant Counts(m, chars[..i])
    {
      m := Insert(m, chars[i], chars[..i]);
      assert chars[..i + 1] == chars[..i] + [chars[i]];
      i := i + 1;
    }
    assert chars[k - k..k] == chars[..k];
    CountsDecideMarker(m, chars, k, k);
    if |m| == k {
      return k;
    }
    assert i == k;
    assert chars[0..0 + k] == chars[..k];
    r := Scan(m, chars, k, first);
  }

  /** The loop of FindMarker: slides the counted window from 0 .. k-1 until
      its count map has k keys. */
  method Scan(m0: map<byte, nat>, chars: seq<byte>, k: nat, ghost first: nat) returns (r: nat)
    requires 0 < k < first
    requires MarkerAt(chars, k, first)
    requires forall r': nat {:trigger MarkerAt(chars, k, r')} :: r' < first ==> !MarkerAt(chars, k, r')
    requires CountsRange(m0, chars, 0, k)
    ensures r == first
  {
    hide CountsRange, Counts, CountMap;
    var m := m0;
    var index := 0;
    while index + k < |chars|
      invariant index + k < first
      invariant CountsRange(m, chars, index, index + k)
      decreases |chars| - index
    {
      m := Slide(m, chars, index, k);
      CountsDecideMarker(m, chars, k, index + 1 + k);
      if |m| == k {
        return index + k + 1;
      }
      index := index + 1;
    }
    assert false;
  }

  /** Part 1 finds what FindMarker finds with window size 4. */
  lemma Part1IsFindMarker4(chars: seq<byte>, r: nat)
    requires MarkerAt(chars, 4, r)
    requires forall r': nat {:trigger MarkerAt(chars, 4, r')} :: r' < r ==> !MarkerAt(chars, 4, r')
    ensures Part1(chars) == r
  {
  }

  /** Part 2: the end of the first marker of fourteen different bytes. */
  method Part2(chars: seq<byte>) returns (r: nat)
    requires exists r :: MarkerAt(chars, 14, r)
    ensures MarkerAt(chars, 14, r)
    ensures forall r': nat {:trigger MarkerAt(chars, 14, r')} :: r' < r ==> !MarkerAt(chars, 14, r')
  {
    r := FindMarker(chars, 14);
  }
}
