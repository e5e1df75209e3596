/** A stable insertion sort by a caller-supplied "may come before" relation.
    It stands for the library sorts the puzzles call (`sort_unstable` on
    integers, `sort_by` with a comparator): only the result is modelled. */
module Sorting {

  /** Inserts x in front of the first element it may come before. */
  function InsertBy<T>(x: T, s: seq<T>, le: (T, T) -> bool): (r: seq<T>)
    ensures multiset(r) == multiset(s) + multiset{x}
    ensures |r| == |s| + 1
  {
    if s == [] then [x]
    else if le(x, s[0]) then [x] + s
    else
      assert s == [s[0]] + s[1..];
      [s[0]] + InsertBy(x, s[1..], le)
  }

  function SortBy<T>(s: seq<T>, le: (T, T) -> bool): (r: seq<T>)
    ensures multiset(r) == multiset(s)
    ensures |r| == |s|
  {
    if s == [] then []
    else
      assert s == [s[0]] + s[1..];
      InsertBy(s[0], SortBy(s[1..], le), le)
  }

  ghost predicate Total<T(!new)>(le: (T, T) -> bool)
  {
    forall a, b :: le(a, b) || le(b, a)
  }

  /** Every element may come before its successor. */
  ghost predicate AdjacentSorted<T>(s: seq<T>, le: (T, T) -> bool)
  {
    forall i :: 0 <= i < |s| - 1 ==> le(s[i], s[i + 1])
  }

  lemma {:induction false} InsertByHead<T>(x: T, s: seq<T>, le: (T, T) -> bool)
    requires s != []
    ensures InsertBy(x, s, le)[0] == x || InsertBy(x, s, le)[0] == s[0]
  {
  }

  lemma {:induction false} InsertBySorted<T(!new)>(x: T, s: seq<T>, le: (T, T) -> bool)
    requires Total(le)
    requires AdjacentSorted(s, le)
    ensures AdjacentSorted(InsertBy(x, s, le), le)
  {
    if s != [] && !le(x, s[0]) {
      var t := s[1..];
      InsertBySorted(x, t, le);
      var r := InsertBy(x, t, le);
      assert le(s[0], x);
      if t != [] {
        InsertByHead(x, t, le);
        assert le(s[0], s[1]);
      }
      var full := [s[0]] + r;
      forall i | 0 <= i < |full| - 1
        ensures le(full[i], full[i + 1])
      {
        if i > 0 {
          assert full[i] == r[i - 1] && full[i + 1] == r[i];
        }
      }
    }
  }

  /** With a total relation the result is ordered, element after element. */
  lemma {:induction false} SortBySorted<T(!new)>(s: seq<T>, le: (T, T) -> bool)
    requires Total(le)
    ensures AdjacentSorted(SortBy(s, le), le)
  {
    if s != [] {
      SortBySorted(s[1..], le);
      InsertBySorted(s[0], SortBy(s[1..], le), le);
    }
  }

  /** Where x goes: the first position whose element x may come before. */
  function InsertAt<T>(x: T, s: seq<T>, le: (T, T) -> bool): (p: nat)
    ensures p <= |s|
    ensures forall i :: 0 <= i < p ==> !le(x, s[i])
    ensures p < |s| ==> le(x, s[p])
  {
    if s == [] || le(x, s[0]) then 0 else InsertAt(x, s[1..], le) + 1
  }

  /** Inserting puts x at that position and leaves the rest in order. */
  lemma {:induction false} InsertBySplit<T>(x: T, s: seq<T>, le: (T, T) -> bool)
    ensures var p := InsertAt(x, s, le); InsertBy(x, s, le) == s[..p] + [x] + s[p..]
  {
    if s != [] && !le(x, s[0]) {
      InsertBySplit(x, s[1..], le);
      InsertByLater(x, s, le);
    } else {
      assert s[..0] == [] && s[0..] == s;
    }
  }

  /** One step of that: x going further than the head goes into the tail. */
  lemma InsertByLater<T>(x: T, s: seq<T>, le: (T, T) -> bool)
    requires s != [] && !le(x, s[0])
    requires var q := InsertAt(x, s[1..], le); InsertBy(x, s[1..], le) == s[1..][..q] + [x] + s[1..][q..]
    ensures var p := InsertAt(x, s, le); InsertBy(x, s, le) == s[..p] + [x] + s[p..]
  {
    var q := InsertAt(x, s[1..], le);
    assert InsertAt(x, s, le) == q + 1;
    assert InsertBy(x, s, le) == [s[0]] + InsertBy(x, s[1..], le);
    hide InsertBy, InsertAt;
    ConsSplit(s, q);
  }

  /** Splitting after the head at q + 1 is splitting the tail at q. */
  lemma ConsSplit<T>(s: seq<T>, q: nat)
    requires q < |s|
    ensures forall x: T :: [s[0]] + (s[1..][..q] + [x] + s[1..][q..]) == s[..q + 1] + [x] + s[q + 1..]
  {
    forall x: T
      ensures [s[0]] + (s[1..][..q] + [x] + s[1..][q..]) == s[..q + 1] + [x] + s[q + 1..]
    {
      assert s[1..][..q] == s[1..q + 1];
      assert s[1..][q..] == s[q + 1..];
      assert [s[0]] + s[1..q + 1] == s[..q + 1];
    }
  }

  function Shifted(o: seq<nat>): (r: seq<nat>)
    ensures |r| == |o|
    ensures forall k :: 0 <= k < |o| ==> r[k] == o[k] + 1
  {
    seq(|o|, k requires 0 <= k < |o| => o[k] + 1)
  }

  /** For each place of the sorted sequence, the input position its element
      came from. */
  function Origins<T>(s: seq<T>, le: (T, T) -> bool): (o: seq<nat>)
    ensures |o| == |s|
  {
    if s == [] then []
    else
      var shifted := Shifted(Origins(s[1..], le));
      var p := InsertAt(s[0], SortBy(s[1..], le), le);
      shifted[..p] + [0] + shifted[p..]
  }

  /** `r` is `s` rearranged by `o`, each input position used once, and two
      elements that may each come before the other keep their input order:
      what a stable sort promises. */
  ghost predicate StableArrangement<T>(s: seq<T>, r: seq<T>, o: seq<nat>, le: (T, T) -> bool)
  {
    && |o| == |r| == |s|
    && (forall k :: 0 <= k < |r| ==> o[k] < |s| && r[k] == s[o[k]])
    && (forall k, l :: 0 <= k < l < |r| ==> o[k] != o[l])
    && (forall k, l :: 0 <= k < l < |r| && o[l] < o[k] ==> !(le(r[k], r[l]) && le(r[l], r[k])))
  }

  /** The sort is stable, whatever the relation: an element never moves
      past a later one it ties with. */
  lemma {:induction false} SortByStable<T>(s: seq<T>, le: (T, T) -> bool)
    ensures StableArrangement(s, SortBy(s, le), Origins(s, le), le)
  {
    if s != [] {
      var rt := SortBy(s[1..], le);
      SortByStable(s[1..], le);
      InsertBySplit(s[0], rt, le);
      StableInsert(s, rt, Origins(s[1..], le), InsertAt(s[0], rt, le), le);
    }
  }

  /** Inserting the head of `s` into a stable arrangement of its tail, in
      front of every element it may come before, keeps it stable. */
  lemma StableInsert<T>(s: seq<T>, rt: seq<T>, ot: seq<nat>, p: nat, le: (T, T) -> bool)
    requires s != [] && StableArrangement(s[1..], rt, ot, le)
    requires p <= |rt| && forall i :: 0 <= i < p ==> !le(s[0], rt[i])
    ensures StableArrangement(s, rt[..p] + [s[0]] + rt[p..], Shifted(ot)[..p] + [0] + Shifted(ot)[p..], le)
  {
    var r, o := rt[..p] + [s[0]] + rt[p..], Shifted(ot)[..p] + [0] + Shifted(ot)[p..];
    forall k | 0 <= k < |r|
      ensures Slot(r, rt, p, s[0], k)
      ensures Slot(o, Shifted(ot), p, 0, k)
    {
    }
    StableInsertAt(s, rt, ot, p, r, o, le);
  }

  /** Place k of a sequence made by putting y into `a` at p. */
  ghost predicate Slot<U>(r: seq<U>, a: seq<U>, p: nat, y: U, k: int)
  {
    && 0 <= k < |r| == |a| + 1 && p <= |a|
    && r[k] == if k < p then a[k] else if k == p then y else a[k - 1]
  }

  /** The same, with the two inserted sequences given place by place. */
  lemma StableInsertAt<T>(s: seq<T>, rt: seq<T>, ot: seq<nat>, p: nat, r: seq<T>, o: seq<nat>,
                          le: (T, T) -> bool)
    requires s != [] && StableArrangement(s[1..], rt, ot, le)
    requires p <= |rt| && forall i :: 0 <= i < p ==> !le(s[0], rt[i])
    requires |r| == |o| == |rt| + 1
    requires forall k :: 0 <= k < |r| ==> Slot(r, rt, p, s[0], k) && Slot(o, Shifted(ot), p, 0, k)
    ensures StableArrangement(s, r, o, le)
  {
    forall k | 0 <= k < |r|
      ensures o[k] < |s| && r[k] == s[o[k]]
    {
      assert Slot(r, rt, p, s[0], k) && Slot(o, Shifted(ot), p, 0, k);
      if k != p {
        var j := if k < p then k else k - 1;
        assert rt[j] == s[1..][ot[j]];
      }
    }
    forall k, l | 0 <= k < l < |r|
      ensures o[k] != o[l]
      ensures o[l] < o[k] ==> !(le(r[k], r[l]) && le(r[l], r[k]))
    {
      assert Slot(r, rt, p, s[0], k) && Slot(o, Shifted(ot), p, 0, k);
      assert Slot(r, rt, p, s[0], l) && Slot(o, Shifted(ot), p, 0, l);
      if k != p && l != p {
        var jk := if k < p then k else k - 1;
        var jl := if l < p then l else l - 1;
        assert jk < jl;
      }
    }
  }

  /** Integers in ascending order, as `sort_unstable` leaves them. */
  function AscendingInts(s: seq<int>): (r: seq<int>)
    ensures multiset(r) == multiset(s)
    ensures forall i, j :: 0 <= i <= j < |r| ==> r[i] <= r[j]
  {
    var le := (a: int, b: int) => a <= b;
    SortBySorted(s, le);
    var r := SortBy(s, le);
    AdjacentToAll(r);
    r
  }

  lemma {:induction false} AdjacentToAll(r: seq<int>)
    requires forall i :: 0 <= i < |r| - 1 ==> r[i] <= r[i + 1]
    ensures forall i, j :: 0 <= i <= j < |r| ==> r[i] <= r[j]
  {
    if r != [] {
      var t := r[1..];
      AdjacentToAll(t);
      forall i, j | 0 <= i <= j < |r|
        ensures r[i] <= r[j]
      {
        if i == 0 && j > 0 {
          assert r[0] <= r[1] && t[0] <= t[j - 1];
        } else if i > 0 {
          assert t[i - 1] <= t[j - 1];
        }
      }
    }
  }
}
