/**
 * Counting and grouping over sequences: what pandas' `groupby` and
 * `value_counts` compute, stated on Dafny sequences.
 */
module Counting {

  predicate StrictlyIncreasing(s: seq<nat>) {
    forall i, j :: 0 <= i < j < |s| ==> s[i] < s[j]
  }

  predicate NoDuplicates<T(==)>(s: seq<T>) {
    forall i, j :: 0 <= i < j < |s| ==> s[i] != s[j]
  }

  /** 0, 1, ..., n - 1. */
  function Range(n: nat): (r: seq<nat>)
    ensures |r| == n && StrictlyIncreasing(r)
    ensures forall i :: 0 <= i < n ==> r[i] == i
  {
    seq(n, i => i)
  }

  /** Number of occurrences of `x` in `s`. */
  function Count<T(==)>(s: seq<T>, x: T): nat
  {
    if s == [] then 0 else Count(s[..|s| - 1], x) + (if s[|s| - 1] == x then 1 else 0)
  }

  /** The positions of `s` holding `x`, in increasing order: one `groupby` group. */
  function Positions<T(==)>(s: seq<T>, x: T): (ps: seq<nat>)
    ensures |ps| == Count(s, x)
    ensures StrictlyIncreasing(ps)
    ensures forall t :: 0 <= t < |ps| ==> ps[t] < |s| && s[ps[t]] == x
    ensures forall p :: 0 <= p < |s| && s[p] == x ==> p in ps
  {
    if s == [] then []
    else
      var ps := Positions(s[..|s| - 1], x);
      ps + (if s[|s| - 1] == x then [|s| - 1] else [])
  }

  /** A position is listed once. */
  lemma PositionsDistinct<T>(s: seq<T>, x: T)
    ensures NoDuplicates(Positions(s, x))
  {
    var ps := Positions(s, x);
    forall i, j | 0 <= i < j < |ps| ensures ps[i] != ps[j] {
      assert ps[i] < ps[j];
    }
  }

  /** The positions of `s` holding `x`, as a set. */
  function Members<T(==)>(s: seq<T>, x: T): set<nat>
  {
    set p | 0 <= p < |s| && s[p] == x
  }

  /** The elements of a sequence, as a set. */
  function Elements(s: seq<nat>): set<nat>
  {
    set t | t in s
  }

  lemma {:induction false} DistinctCard(ps: seq<nat>)
    requires StrictlyIncreasing(ps)
    ensures |Elements(ps)| == |ps|
  {
    if ps != [] {
      var init, x := ps[..|ps| - 1], ps[|ps| - 1];
      assert StrictlyIncreasing(init) by {
        forall i, j | 0 <= i < j < |init| ensures init[i] < init[j] {
          assert init[i] == ps[i] && init[j] == ps[j];
        }
      }
      DistinctCard(init);
      assert x !in init by {
        forall i | 0 <= i < |init| ensures init[i] != x {
          assert init[i] == ps[i];
        }
      }
      var a, b := Elements(init), Elements(ps);
      assert b == a + {x} by {
        assert ps == init + [x];
      }
      assert x !in a;
      assert |b| == |a| + 1;
    } else {
      assert Elements(ps) == {};
    }
  }

  lemma SubsetCard<T>(a: set<T>, b: set<T>)
    requires a <= b
    ensures |a| <= |b|
  {
    assert b == a + (b - a);
  }

  /** The number of occurrences is the size of the group of positions. */
  lemma CountIsMembers<T>(s: seq<T>, x: T)
    ensures Count(s, x) == |Members(s, x)|
  {
    var ps := Positions(s, x);
    assert Elements(ps) == Members(s, x);
    DistinctCard(ps);
  }

  lemma {:induction false} CountAppend<T>(a: seq<T>, b: seq<T>, x: T)
    ensures Count(a + b, x) == Count(a, x) + Count(b, x)
    decreases |b|
  {
    if b != [] {
      assert (a + b)[..|a + b| - 1] == a + b[..|b| - 1];
      CountAppend(a, b[..|b| - 1], x);
    } else {
      assert a + b == a;
    }
  }

  lemma {:induction false} CountAbsent<T>(s: seq<T>, x: T)
    requires x !in s
    ensures Count(s, x) == 0
  {
    if s != [] {
      CountAbsent(s[..|s| - 1], x);
    }
  }

  /** Appending after a sequence that lacks `x` does not change the count of `x`. */
  lemma CountAfterAbsent<T>(a: seq<T>, b: seq<T>, x: T)
    requires x !in a
    ensures Count(a + b, x) == Count(b, x)
  {
    CountAppend(a, b, x);
    CountAbsent(a, x);
  }

  /** An element that is counted occurs. */
  lemma {:induction false} CountPositive<T>(s: seq<T>, x: T)
    requires 1 <= Count(s, x)
    ensures x in s
  {
    var init := s[..|s| - 1];
    if s[|s| - 1] != x {
      CountPositive(init, x);
      assert x in init;
    }
  }

  /** Two positions holding an element that occurs at most once are the same position. */
  lemma CountAtMostOnce<T>(s: seq<T>, x: T, i: nat, j: nat)
    requires Count(s, x) <= 1 && i < |s| && j < |s| && s[i] == x && s[j] == x
    ensures i == j
  {
    CountIsMembers(s, x);
    if i != j {
      SubsetCard({i, j}, Members(s, x));
    }
  }

  /** Injective on `A`, `s` maps `A` to a set of the same size. */
  lemma {:induction false} ImageCard(A: set<nat>, s: seq<nat>)
    requires forall a :: a in A ==> a < |s|
    requires forall a, b :: a in A && b in A && s[a] == s[b] ==> a == b
    ensures |set a | a in A :: s[a]| == |A|
    decreases A
  {
    if A != {} {
      var x :| x in A;
      var A' := A - {x};
      ImageCard(A', s);
      var img, img' := set a | a in A :: s[a], set a | a in A' :: s[a];
      assert img == img' + {s[x]};
      assert s[x] !in img';
    }
  }

  lemma {:induction false} CountPresent<T>(s: seq<T>, x: T)
    requires x in s
    ensures 1 <= Count(s, x)
  {
    var init := s[..|s| - 1];
    if s[|s| - 1] != x {
      assert x in init;
      CountPresent(init, x);
    }
  }

  /** In a sequence without duplicates an element occurs at most once. */
  lemma {:induction false} CountNoDuplicates<T>(s: seq<T>, x: T)
    requires NoDuplicates(s)
    ensures Count(s, x) == if x in s then 1 else 0
  {
    if s != [] {
      var init := s[..|s| - 1];
      CountNoDuplicates(init, x);
      if s[|s| - 1] == x {
        assert x !in init;
      }
    }
  }

  /** Distinct elements of `s` in first-appearance order. */
  function Distinct<T(==)>(s: seq<T>): (d: seq<T>)
    ensures NoDuplicates(d)
    ensures forall i :: 0 <= i < |s| ==> s[i] in d
    ensures forall i :: 0 <= i < |d| ==> d[i] in s
  {
    if s == [] then []
    else
      var d := Distinct(s[..|s| - 1]);
      assert forall i :: 0 <= i < |s| - 1 ==> s[i] == s[..|s| - 1][i];
      if s[|s| - 1] in d then d else d + [s[|s| - 1]]
  }

  /** The total of `Count(s, x)` over the elements `x` of `keys`. */
  function SumCounts<T(==)>(s: seq<T>, keys: seq<T>): nat
  {
    if keys == [] then 0 else SumCounts(s, keys[..|keys| - 1]) + Count(s, keys[|keys| - 1])
  }

  lemma {:induction false} SumCountsSnoc<T>(s: seq<T>, x: T, keys: seq<T>)
    ensures SumCounts(s + [x], keys) == SumCounts(s, keys) + Count(keys, x)
  {
    if keys != [] {
      var init := keys[..|keys| - 1];
      SumCountsSnoc(s, x, init);
      CountAppend(s, [x], keys[|keys| - 1]);
      assert (s + [x])[..|s + [x]| - 1] == s;
    }
  }

  /**
   * The group sizes of all distinct values add up to the length: every
   * element falls in exactly one group.
   */
  lemma {:induction false} SumCountsDistinct<T>(s: seq<T>)
    ensures SumCounts(s, Distinct(s)) == |s|
  {
    if s != [] {
      var init, x := s[..|s| - 1], s[|s| - 1];
      assert s == init + [x];
      var d := Distinct(init);
      SumCountsDistinct(init);
      SumCountsSnoc(init, x, Distinct(s));
      CountNoDuplicates(Distinct(s), x);
      if x !in d {
        assert x !in init;
        CountAbsent(init, x);
        assert Distinct(s) == d + [x];
        assert Distinct(s)[..|Distinct(s)| - 1] == d;
      }
    }
  }

  /** The total of `Count(s, x)` over the elements `x` of `keys` with `f(x) == c`. */
  function SumCountsWhere<T(==), U(==)>(s: seq<T>, keys: seq<T>, f: T -> U, c: U): nat
  {
    if keys == [] then 0
    else SumCountsWhere(s, keys[..|keys| - 1], f, c) + (if f(keys[|keys| - 1]) == c then Count(s, keys[|keys| - 1]) else 0)
  }

  /** `f` applied to every element. */
  function MapSeq<T, U>(f: T -> U, s: seq<T>): (r: seq<U>)
    ensures |r| == |s| && forall i :: 0 <= i < |s| ==> r[i] == f(s[i])
  {
    seq(|s|, i requires 0 <= i < |s| => f(s[i]))
  }

  lemma {:induction false} SumCountsWhereSnoc<T, U>(s: seq<T>, x: T, keys: seq<T>, f: T -> U, c: U)
    ensures SumCountsWhere(s + [x], keys, f, c)
         == SumCountsWhere(s, keys, f, c) + (if f(x) == c then Count(keys, x) else 0)
  {
    if keys != [] {
      var init := keys[..|keys| - 1];
      SumCountsWhereSnoc(s, x, init, f, c);
      CountAppend(s, [x], keys[|keys| - 1]);
      assert (s + [x])[..|s + [x]| - 1] == s;
    }
  }

  lemma MapSeqPrefixSnoc<T, U>(f: T -> U, s: seq<T>, j: nat)
    requires j < |s|
    ensures MapSeq(f, s[..j + 1]) == MapSeq(f, s[..j]) + [f(s[j])]
  {
    var a, b := MapSeq(f, s[..j + 1]), MapSeq(f, s[..j]);
    assert forall k :: 0 <= k < j ==> a[k] == f(s[k]) == b[k];
  }

  lemma MapSeqSnoc<T, U>(s: seq<T>, x: T, f: T -> U, c: U)
    ensures Count(MapSeq(f, s + [x]), c) == Count(MapSeq(f, s), c) + (if f(x) == c then 1 else 0)
  {
    var m := MapSeq(f, s + [x]);
    assert m[..|m| - 1] == MapSeq(f, s);
    assert m[|m| - 1] == f(x);
  }

  lemma DistinctSnoc<T>(s: seq<T>, x: T)
    ensures Distinct(s + [x]) == if x in s then Distinct(s) else Distinct(s) + [x]
  {
    assert (s + [x])[..|s|] == s;
    var d := Distinct(s);
    if x in d {
      var i :| 0 <= i < |d| && d[i] == x;
      assert x in s;
    }
  }

  lemma SumCountsWhereAppendKey<T, U>(s: seq<T>, keys: seq<T>, y: T, f: T -> U, c: U)
    ensures SumCountsWhere(s, keys + [y], f, c) == SumCountsWhere(s, keys, f, c) + (if f(y) == c then Count(s, y) else 0)
  {
    assert (keys + [y])[..|keys|] == keys;
  }

  lemma {:induction false} SumCountsWhereDistinctStep<T, U>(s: seq<T>, x: T, d: seq<T>, e: seq<T>, f: T -> U, c: U)
    requires SumCountsWhere(s, d, f, c) == Count(MapSeq(f, s), c)
    requires NoDuplicates(e) && x in e && e == if x in s then d else d + [x]
    ensures SumCountsWhere(s + [x], e, f, c) == Count(MapSeq(f, s + [x]), c)
  {
    MapSeqSnoc(s, x, f, c);
    SumCountsWhereSnoc(s, x, e, f, c);
    CountNoDuplicates(e, x);
    if x !in s {
      CountAbsent(s, x);
      SumCountsWhereAppendKey(s, d, x, f, c);
    }
  }

  /**
   * Summing the group sizes over the groups whose key `f` sends to `c`
   * counts the elements that `f` sends to `c`.
   */
  lemma {:induction false} SumCountsWhereDistinct<T, U>(s: seq<T>, f: T -> U, c: U)
    ensures SumCountsWhere(s, Distinct(s), f, c) == Count(MapSeq(f, s), c)
  {
    if s != [] {
      var init, x := s[..|s| - 1], s[|s| - 1];
      assert s == init + [x];
      SumCountsWhereDistinct(init, f, c);
      DistinctSnoc(init, x);
      assert x in Distinct(s);
      SumCountsWhereDistinctStep(init, x, Distinct(init), Distinct(s), f, c);
    }
  }

}
