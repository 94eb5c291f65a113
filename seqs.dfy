/** Facts about sequences of ids and dimension indices shared by the other modules. */
module Seqs {

  /** No value occurs twice in `s`. */
  predicate Distinct(s: seq<nat>) {
    forall i, j :: 0 <= i < j < |s| ==> s[i] != s[j]
  }

  /** `s` is strictly ascending (hence also free of duplicates). */
  predicate StrictlyIncreasing(s: seq<nat>) {
    forall i, j :: 0 <= i < j < |s| ==> s[i] < s[j]
  }

  /** `m` is the least element of `s`. */
  predicate IsLeast(m: nat, s: set<nat>) {
    m in s && forall y :: y in s ==> m <= y
  }

  /** Every non-empty finite set of naturals has a least element. */
  lemma {:induction false} LeastExists(s: set<nat>)
    requires s != {}
    ensures exists m :: IsLeast(m, s)
  {
    var x :| x in s;
    if s == {x} {
      assert IsLeast(x, s);
    } else {
      var rest := s - {x};
      LeastExists(rest);
      var m :| IsLeast(m, rest);
      assert forall y :: y in s ==> y == x || y in rest;
      if x < m {
        assert IsLeast(x, s);
      } else {
        assert IsLeast(m, s);
      }
    }
  }

  ghost function Least(s: set<nat>): nat
    requires s != {}
  {
    LeastExists(s);
    var m :| IsLeast(m, s);
    m
  }

  /** The elements of `s` in ascending order: the order in which a `std::set` is traversed. */
  ghost function Ascending(s: set<nat>): seq<nat>
    decreases s
  {
    if s == {} then [] else [Least(s)] + Ascending(s - {Least(s)})
  }

  /** `Ascending(s)` is strictly ascending and holds exactly the elements of `s`. */
  lemma {:induction false} AscendingSpec(s: set<nat>)
    ensures StrictlyIncreasing(Ascending(s))
    ensures forall x :: x in Ascending(s) <==> x in s
    ensures |Ascending(s)| == |s|
    decreases s
  {
    if s != {} {
      var m := Least(s);
      var rest := s - {m};
      AscendingSpec(rest);
      var a := Ascending(s);
      assert a == [m] + Ascending(rest);
      forall i, j | 0 <= i < j < |a| ensures a[i] < a[j] {
        if i == 0 {
          assert a[j] in rest;
        }
      }
    }
  }

  /** `m` is the only least element of `s`, so `Ascending(s)` starts with it. */
  lemma AscendingStep(m: nat, s: set<nat>)
    requires IsLeast(m, s)
    ensures Least(s) == m
    ensures Ascending(s) == [m] + Ascending(s - {m})
  {
    var l := Least(s);
    assert l <= m && m <= l;
  }

  /** The naturals below `n`. */
  function Below(n: nat): (r: set<nat>)
    ensures |r| == n
    ensures forall x: nat :: x in r <==> x < n
  {
    if n == 0 then {}
    else
      var r := Below(n - 1);
      assert n - 1 !in r;
      r + {n - 1}
  }

  function Elements(s: seq<nat>): set<nat> {
    set x | x in s
  }

  lemma {:induction false} DistinctCard(s: seq<nat>)
    requires Distinct(s)
    ensures |Elements(s)| == |s|
  {
    if s == [] {
      assert Elements(s) == {};
    } else {
      var init, last := s[..|s| - 1], s[|s| - 1];
      DistinctCard(init);
      assert s == init + [last];
      assert Elements(s) == Elements(init) + {last};
      assert last !in Elements(init);
    }
  }

  lemma {:induction false} SubsetCard(a: set<nat>, b: set<nat>)
    requires a <= b
    ensures |a| <= |b|
    decreases b
  {
    if a != {} {
      var x :| x in a;
      SubsetCard(a - {x}, b - {x});
    }
  }

  lemma {:induction false} ElementsCard(s: seq<nat>)
    ensures |Elements(s)| <= |s|
  {
    if s != [] {
      var init, last := s[..|s| - 1], s[|s| - 1];
      ElementsCard(init);
      assert s == init + [last];
      assert Elements(s) == Elements(init) + {last};
    }
  }

  /** Pigeonhole: a duplicate-free sequence whose entries all occur in `b` is no longer than `b`. */
  lemma DistinctWithin(a: seq<nat>, b: seq<nat>)
    requires Distinct(a) && forall j :: 0 <= j < |a| ==> a[j] in b
    ensures |a| <= |b|
  {
    DistinctCard(a);
    ElementsCard(b);
    SubsetCard(Elements(a), Elements(b));
  }

  /** Pigeonhole: a duplicate-free sequence of naturals below `n` has at most `n` entries. */
  lemma DistinctBelowLength(s: seq<nat>, n: nat)
    requires Distinct(s) && forall i :: 0 <= i < |s| ==> s[i] < n
    ensures |s| <= n
  {
    DistinctCard(s);
    SubsetCard(Elements(s), Below(n));
  }
}
