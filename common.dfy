/** Small helpers shared by the day modules: an option type, sums over finite
    sets, a few facts about set cardinality, and facts about Euclidean
    division. */
module Wrappers {

  datatype Option<+T> = None | Some(value: T)

}

module SetSums {

  /** The sum of `f` over the finite set `s`; the order of summation is
      irrelevant (see SumOverRemove), which is what lets a loop that visits
      the elements of a hash set in any order be specified by it. */
  ghost function SumOver<T(!new)>(s: set<T>, f: T -> int): int
    decreases s
  {
    if s == {} then 0 else var x :| x in s; f(x) + SumOver(s - {x}, f)
  }

  /** Taking any element out first gives the same sum. */
  lemma {:induction false} SumOverRemove<T(!new)>(s: set<T>, f: T -> int, y: T)
    requires y in s
    ensures SumOver(s, f) == f(y) + SumOver(s - {y}, f)
    decreases s
  {
    var x :| x in s && SumOver(s, f) == f(x) + SumOver(s - {x}, f);
    if x != y {
      SumOverRemove(s - {x}, f, y);
      SumOverRemove(s - {y}, f, x);
      assert s - {x} - {y} == s - {y} - {x};
    }
  }

  /** Adding one new element adds its value. */
  lemma SumOverAdd<T(!new)>(s: set<T>, f: T -> int, y: T)
    requires y !in s
    ensures SumOver(s + {y}, f) == SumOver(s, f) + f(y)
  {
    SumOverRemove(s + {y}, f, y);
    assert s + {y} - {y} == s;
  }

  /** Terms that agree on the set give the same sum. */
  lemma {:induction false} SumOverAgree<T(!new)>(s: set<T>, f: T -> int, g: T -> int)
    requires forall x :: x in s ==> f(x) == g(x)
    ensures SumOver(s, f) == SumOver(s, g)
    decreases s
  {
    if s != {} {
      var x :| x in s && SumOver(s, f) == f(x) + SumOver(s - {x}, f);
      SumOverRemove(s, g, x);
      SumOverAgree(s - {x}, f, g);
    }
  }

  /** Lowering one term, and leaving the others, lowers the sum. */
  lemma SumOverLower<T(!new)>(s: set<T>, f: T -> int, g: T -> int, y: T)
    requires y in s && g(y) < f(y)
    requires forall x :: x in s && x != y ==> f(x) == g(x)
    ensures SumOver(s, g) < SumOver(s, f)
  {
    SumOverRemove(s, f, y);
    SumOverRemove(s, g, y);
    SumOverAgree(s - {y}, f, g);
  }

  /** A sum of non-negative terms is non-negative. */
  lemma {:induction false} SumOverNonNegative<T(!new)>(s: set<T>, f: T -> int)
    requires forall x :: x in s ==> f(x) >= 0
    ensures SumOver(s, f) >= 0
    decreases s
  {
    if s != {} {
      var x :| x in s && SumOver(s, f) == f(x) + SumOver(s - {x}, f);
      SumOverNonNegative(s - {x}, f);
    }
  }

  /** Raising no term lowers the sum. */
  lemma {:induction false} SumOverMonotone<T(!new)>(s: set<T>, f: T -> int, g: T -> int)
    requires forall x :: x in s ==> f(x) <= g(x)
    ensures SumOver(s, f) <= SumOver(s, g)
    decreases s
  {
    if s != {} {
      var x :| x in s && SumOver(s, f) == f(x) + SumOver(s - {x}, f);
      SumOverRemove(s, g, x);
      SumOverMonotone(s - {x}, f, g);
    }
  }

  /** The indices 0 .. n-1 as a set. */
  function Range(n: nat): (r: set<int>)
    ensures forall i :: i in r <==> 0 <= i < n
    ensures |r| == n
  {
    if n == 0 then {} else Range(n - 1) + {n - 1}
  }

  /** A subset is no larger than its superset. */
  lemma {:induction false} SubsetCardinality<T>(a: set<T>, b: set<T>)
    requires a <= b
    ensures |a| <= |b|
    decreases a
  {
    if a != {} {
      var x :| x in a;
      SubsetCardinality(a - {x}, b - {x});
    }
  }

  /** The elements of a sequence without repetitions number its length. */
  lemma {:induction false} DistinctElementsCardinality<T>(s: seq<T>)
    requires forall i, j :: 0 <= i < j < |s| ==> s[i] != s[j]
    ensures |set x | x in s| == |s|
  {
    if s != [] {
      var t := s[1..];
      DistinctElementsCardinality(t);
      assert (set x | x in s) == (set x | x in t) + {s[0]};
      assert s[0] !in t;
    }
  }

  /** A sequence over 0..n without repetitions has at most n elements. */
  lemma DistinctIndicesBound(s: seq<nat>, n: nat)
    requires forall i, j :: 0 <= i < j < |s| ==> s[i] != s[j]
    requires forall i :: 0 <= i < |s| ==> s[i] < n
    ensures |s| <= n
  {
    DistinctElementsCardinality(s);
    var range := Range(n);
    var elems := set x | x in s;
    assert forall x :: x in elems ==> x in range;
    var asInts := set x: int | x in elems;
    SubsetCardinality(asInts, range);
    assert |asInts| == |elems| by {
      NatIntSetCardinality(elems);
    }
  }

  lemma {:induction false} NatIntSetCardinality(s: set<nat>)
    ensures |set x: int | x in s| == |s|
    decreases s
  {
    if s != {} {
      var y :| y in s;
      NatIntSetCardinality(s - {y});
      assert (set x: int | x in s) == (set x: int | x in s - {y}) + {y};
    }
  }
}

/** The least and greatest value a function takes on a non-empty finite
    set. */
module Extremes {

  /** An element of `s` where `f` is least. */
  lemma {:induction false} Least<T>(s: set<T>, f: T -> int) returns (m: T)
    requires s != {}
    ensures m in s && forall x :: x in s ==> f(m) <= f(x)
    decreases s
  {
    var y :| y in s;
    var rest := s - {y};
    if rest == {} {
      m := y;
      forall x | x in s ensures f(m) <= f(x) {
        assert x !in rest;
      }
    } else {
      var n := Least(rest, f);
      m := if f(y) < f(n) then y else n;
      forall x | x in s ensures f(m) <= f(x) {
        if x != y { assert x in rest; }
      }
    }
  }

  /** An element of `s` where `f` is greatest. */
  lemma {:induction false} Greatest<T>(s: set<T>, f: T -> int) returns (m: T)
    requires s != {}
    ensures m in s && forall x :: x in s ==> f(x) <= f(m)
    decreases s
  {
    var y :| y in s;
    var rest := s - {y};
    if rest == {} {
      m := y;
      forall x | x in s ensures f(x) <= f(m) {
        assert x !in rest;
      }
    } else {
      var n := Greatest(rest, f);
      m := if f(y) > f(n) then y else n;
      forall x | x in s ensures f(x) <= f(m) {
        if x != y { assert x in rest; }
      }
    }
  }

  lemma LeastExists<T>(s: set<T>, f: T -> int)
    requires s != {}
    ensures exists m :: m in s && forall x :: x in s ==> f(m) <= f(x)
  {
    var m := Least(s, f);
  }

  lemma GreatestExists<T>(s: set<T>, f: T -> int)
    requires s != {}
    ensures exists m :: m in s && forall x :: x in s ==> f(x) <= f(m)
  {
    var m := Greatest(s, f);
  }

  /** `iter().map(f).min().unwrap()`. */
  function MinOf<T>(s: set<T>, f: T -> int): (v: int)
    requires s != {}
    ensures exists x :: x in s && f(x) == v
    ensures forall x :: x in s ==> v <= f(x)
  {
    LeastExists(s, f);
    var m :| m in s && forall x :: x in s ==> f(m) <= f(x);
    f(m)
  }

  /** `iter().map(f).max().unwrap()`. */
  function MaxOf<T>(s: set<T>, f: T -> int): (v: int)
    requires s != {}
    ensures exists x :: x in s && f(x) == v
    ensures forall x :: x in s ==> f(x) <= v
  {
    GreatestExists(s, f);
    var m :| m in s && forall x :: x in s ==> f(x) <= f(m);
    f(m)
  }
}

/** Euclidean division facts the solver does not find alone. */
module Arith {

  /** The absolute value of an integer. */
  function Abs(x: int): nat
  {
    if x < 0 then -x else x
  }

  lemma MulAtLeast(d: int, k: int)
    requires d >= 1 && k > 0
    ensures d * k >= k
  {
    var e := d - 1;
    assert d * k == e * k + k;
    assert e * k >= 0;
  }

  lemma MulAtMost(d: int, k: int)
    requires d <= -1 && k > 0
    ensures d * k <= -k
  {
    var e := d + 1;
    assert d * k == e * k - k;
    assert e * k <= 0;
  }

  /** The remainder is the only one below `k` that completes a multiple of `k`. */
  lemma ModUnique(n: int, k: int, q: int, r: int)
    requires k > 0 && n == q * k + r && 0 <= r < k
    ensures n % k == r
  {
    var q', r' := n / k, n % k;
    assert n == q' * k + r';
    var d := q - q';
    assert d * k == r' - r by {
      assert q * k - q' * k == (q - q') * k;
    }
    if d >= 1 {
      MulAtLeast(d, k);
    } else if d <= -1 {
      MulAtMost(d, k);
    }
  }

  /** Reducing a summand first leaves the remainder of the sum alone. */
  lemma ModAddMod(a: int, b: int, n: int)
    requires n > 0
    ensures ((a % n) + b) % n == (a + b) % n
  {
    var x := a % n + b;
    assert a == (a / n) * n + a % n;
    assert x == (x / n) * n + x % n;
    assert a + b == (a / n + x / n) * n + x % n;
    ModUnique(a + b, n, a / n + x / n, x % n);
  }
}
