/**
 * The pieces of `LSH::buildHashes` that choose dimensions: the
 * cumulative-variance walk that turns one random target into a dimension, and
 * the ascending list of dimensions used by some table (`prehash`).
 */
module Selection {
  import opened Stats
  import opened Seqs

  /** v[0] + ... + v[k]: the value of `sum_dist` when the walk stands at dimension k. */
  function Prefix(v: seq<real>, k: nat): real
    requires k < |v|
  {
    Sum(v[..k + 1])
  }

  lemma PrefixStep(v: seq<real>, k: nat)
    requires k + 1 < |v|
    ensures Prefix(v, k + 1) == Prefix(v, k) + v[k + 1]
  {
    assert v[..k + 2][..k + 1] == v[..k + 1];
  }

  lemma PrefixOfLastIsSum(v: seq<real>)
    requires |v| > 0
    ensures Prefix(v, |v| - 1) == Sum(v)
  {
    assert v[..|v|] == v;
  }

  lemma {:induction false} PrefixMonotone(v: seq<real>, i: nat, j: nat)
    requires NonNegative(v) && i <= j < |v|
    ensures Prefix(v, i) <= Prefix(v, j)
    decreases j
  {
    if i < j {
      PrefixMonotone(v, i, j - 1);
      PrefixStep(v, j - 1);
    }
  }

  /** `d` is the least dimension whose prefix sum of variances reaches `target`. */
  predicate IsPick(v: seq<real>, target: real, d: nat) {
    d < |v| && target <= Prefix(v, d) && forall k :: 0 <= k < d ==> Prefix(v, k) < target
  }

  /** Some target among `targets[lo..hi]` picks dimension `d`. */
  ghost predicate Drawn(v: seq<real>, targets: seq<real>, lo: nat, hi: nat, d: nat) {
    exists k :: lo <= k < hi && k < |targets| && IsPick(v, targets[k], d)
  }

  /** Every draw in `targets[lo..hi]` picks a dimension of `table`. */
  ghost predicate LandsIn(v: seq<real>, targets: seq<real>, lo: nat, hi: nat, table: seq<nat>) {
    forall k :: lo <= k < hi && k < |targets| ==> exists d :: d in table && IsPick(v, targets[k], d)
  }

  /** Dimension j of `table` is picked by a draw in `targets[lo..hi]` before which every draw landed on `table[..j]`. */
  ghost predicate FirstDrawn(v: seq<real>, targets: seq<real>, lo: nat, hi: nat, table: seq<nat>, j: nat)
    requires j < |table|
  {
    exists k :: lo <= k < hi && k < |targets| && IsPick(v, targets[k], table[j]) && LandsIn(v, targets, lo, k, table[..j])
  }

  /** `table` lists dimensions in the order they were first drawn from `targets[lo..hi]`. */
  ghost predicate InDrawOrder(v: seq<real>, targets: seq<real>, lo: nat, hi: nat, table: seq<nat>) {
    forall j :: 0 <= j < |table| ==> FirstDrawn(v, targets, lo, hi, table, j)
  }

  /** A draw that picks a dimension of the extended table keeps every draw landing in it. */
  lemma LandsInStep(v: seq<real>, targets: seq<real>, lo: nat, hi: nat, table: seq<nat>, extended: seq<nat>, d: nat)
    requires LandsIn(v, targets, lo, hi, table) && hi < |targets| && IsPick(v, targets[hi], d)
    requires forall e :: e in table ==> e in extended
    requires d in extended
    ensures LandsIn(v, targets, lo, hi + 1, extended)
  {
    forall k | lo <= k < hi + 1 && k < |targets| ensures exists e :: e in extended && IsPick(v, targets[k], e) {
      if k < hi {
        var x := targets[k];
        var e :| e in table && IsPick(v, x, e);
        assert e in extended;
      } else {
        assert d in extended && IsPick(v, targets[k], d);
      }
    }
  }

  /** Later draws do not change when a dimension was first drawn. */
  lemma InDrawOrderWiden(v: seq<real>, targets: seq<real>, lo: nat, hi: nat, hi': nat, table: seq<nat>)
    requires InDrawOrder(v, targets, lo, hi, table) && hi <= hi'
    ensures InDrawOrder(v, targets, lo, hi', table)
  {
    forall j | 0 <= j < |table| ensures FirstDrawn(v, targets, lo, hi', table, j) {
      assert FirstDrawn(v, targets, lo, hi, table, j);
    }
  }

  /** A draw on a dimension not yet drawn appends it, after every earlier draw landed on the table. */
  lemma InDrawOrderStep(v: seq<real>, targets: seq<real>, lo: nat, hi: nat, table: seq<nat>, d: nat)
    requires InDrawOrder(v, targets, lo, hi, table) && LandsIn(v, targets, lo, hi, table)
    requires lo <= hi < |targets| && IsPick(v, targets[hi], d)
    ensures InDrawOrder(v, targets, lo, hi + 1, table + [d])
  {
    var extended, next := table + [d], hi + 1;
    forall j | 0 <= j < |extended| ensures FirstDrawn(v, targets, lo, next, extended, j) {
      if j < |table| {
        assert extended[..j] == table[..j] && extended[j] == table[j];
        assert FirstDrawn(v, targets, lo, hi, table, j);
      } else {
        assert extended[..j] == table;
        assert IsPick(v, targets[hi], extended[j]) && LandsIn(v, targets, lo, hi, extended[..j]);
      }
    }
  }

  /** One target picks one dimension. */
  lemma PickUnique(v: seq<real>, target: real, d: nat, e: nat)
    requires IsPick(v, target, d) && IsPick(v, target, e)
    ensures d == e
  {
  }

  /** Every dimension drawn in a window lands on any table the window's draws, or a longer window's, land on. */
  lemma InDrawOrderWithin(v: seq<real>, targets: seq<real>, lo: nat, hi: nat, a: seq<nat>, hi': nat, b: seq<nat>)
    requires InDrawOrder(v, targets, lo, hi, a) && LandsIn(v, targets, lo, hi', b) && hi <= hi'
    ensures forall j :: 0 <= j < |a| ==> a[j] in b
  {
    forall j | 0 <= j < |a| ensures a[j] in b {
      assert FirstDrawn(v, targets, lo, hi, a, j);
      var k :| lo <= k < hi && k < |targets| && IsPick(v, targets[k], a[j]) && LandsIn(v, targets, lo, k, a[..j]);
      var x := targets[k];
      var e :| e in b && IsPick(v, x, e);
      PickUnique(v, x, a[j], e);
    }
  }

  /** Two duplicate-free tables in order of first draw from the same window agree on their common length. */
  lemma {:induction false} InDrawOrderSame(v: seq<real>, targets: seq<real>, lo: nat, hi: nat, a: seq<nat>, b: seq<nat>, n: nat)
    requires InDrawOrder(v, targets, lo, hi, a) && InDrawOrder(v, targets, lo, hi, b)
    requires Distinct(a) && Distinct(b) && n <= |a| && n <= |b|
    ensures a[..n] == b[..n]
  {
    if n > 0 {
      var j := n - 1;
      InDrawOrderSame(v, targets, lo, hi, a, b, j);
      var ka := FirstDrawIndex(v, targets, lo, hi, a, j);
      var kb := FirstDrawIndex(v, targets, lo, hi, b, j);
      FirstDrawsMeet(v, targets, lo, a, b, j, ka, kb);
      FirstDrawsMeet(v, targets, lo, b, a, j, kb, ka);
      PickUnique(v, targets[ka], a[j], b[j]);
      assert a[..n] == a[..j] + [a[j]];
      assert b[..n] == b[..j] + [b[j]];
    }
  }

  /** The draw at which `table[j]` was first drawn. */
  lemma FirstDrawIndex(v: seq<real>, targets: seq<real>, lo: nat, hi: nat, table: seq<nat>, j: nat) returns (k: nat)
    requires InDrawOrder(v, targets, lo, hi, table) && j < |table|
    ensures lo <= k < hi && k < |targets| && IsPick(v, targets[k], table[j]) && LandsIn(v, targets, lo, k, table[..j])
  {
    assert FirstDrawn(v, targets, lo, hi, table, j);
    k :| lo <= k < hi && k < |targets| && IsPick(v, targets[k], table[j]) && LandsIn(v, targets, lo, k, table[..j]);
  }

  /** The first draw of `a[j]` is not before that of `b[j]` when both tables share their first j entries. */
  lemma FirstDrawsMeet(v: seq<real>, targets: seq<real>, lo: nat, a: seq<nat>, b: seq<nat>, j: nat, ka: nat, kb: nat)
    requires Distinct(a) && j < |a| && j < |b| && a[..j] == b[..j]
    requires lo <= ka < |targets| && IsPick(v, targets[ka], a[j])
    requires lo <= kb && LandsIn(v, targets, lo, kb, b[..j])
    ensures kb <= ka
  {
  }

  /** No draws, no dimensions. */
  lemma EmptyWindowDrawsNothing(v: seq<real>, targets: seq<real>, lo: nat, hi: nat, table: seq<nat>)
    requires InDrawOrder(v, targets, lo, hi, table) && hi <= lo
    ensures table == []
  {
    assert table != [] ==> FirstDrawn(v, targets, lo, hi, table, 0);
  }

  /** A dimension listed in draw order was drawn in the window. */
  lemma InDrawOrderDrawn(v: seq<real>, targets: seq<real>, lo: nat, hi: nat, table: seq<nat>, j: nat)
    requires InDrawOrder(v, targets, lo, hi, table) && j < |table|
    ensures Drawn(v, targets, lo, hi, table[j])
  {
    assert FirstDrawn(v, targets, lo, hi, table, j);
  }

  /**
   * The inner walk of `buildHashes`: starting at dimension 0 with the first
   * variance, step to the next dimension while the running sum is below the
   * target. For a target in [0, sum of variances] it stops inside the row, at
   * the least dimension whose prefix sum reaches the target; a positive
   * target never stops on a dimension of zero variance.
   */
  method Walk(variances: seq<real>, target: real) returns (selection: nat)
    requires |variances| > 0 && NonNegative(variances)
    requires 0.0 <= target <= Sum(variances)
    ensures IsPick(variances, target, selection)
    ensures 0.0 < target ==> variances[selection] > 0.0
  {
    PrefixOfLastIsSum(variances);
    var sumDist := variances[0];
    selection := 0;
    assert Prefix(variances, 0) == variances[0] by {
      var first := variances[..1];
      assert first[..0] == [];
      assert Sum(first) == Sum(first[..0]) + first[0];
    }
    while sumDist < target
      invariant selection < |variances|
      invariant sumDist == Prefix(variances, selection)
      invariant forall k :: 0 <= k < selection ==> Prefix(variances, k) < target
      decreases |variances| - selection
    {
      PrefixStep(variances, selection);
      selection := selection + 1;
      sumDist := sumDist + variances[selection];
    }
    if 0 < selection {
      PrefixStep(variances, selection - 1);
    }
  }

  /**
   * Weighted sampling: dimension d is picked exactly by the targets in the
   * interval (Prefix(d-1), Prefix(d)] (from 0 for d = 0), whose length is the
   * variance of d.
   */
  lemma PickInterval(v: seq<real>, target: real, d: nat)
    requires NonNegative(v) && d < |v|
    ensures IsPick(v, target, d) <==> (d == 0 || Prefix(v, d - 1) < target) && target <= Prefix(v, d)
    ensures 0 < d ==> Prefix(v, d) - Prefix(v, d - 1) == v[d]
  {
    if 0 < d {
      PrefixStep(v, d - 1);
      if Prefix(v, d - 1) < target {
        forall k | 0 <= k < d ensures Prefix(v, k) < target {
          PrefixMonotone(v, k, d - 1);
        }
      }
    }
  }

  /** A positive target never picks a dimension of zero variance. */
  lemma PickPositive(v: seq<real>, target: real, d: nat)
    requires NonNegative(v) && IsPick(v, target, d) && 0.0 < target
    ensures v[d] > 0.0
  {
    if d == 0 {
      assert v[..1][..0] == [];
      assert Prefix(v, 0) == Sum(v[..1][..0]) + v[0];
    } else {
      PrefixStep(v, d - 1);
    }
  }

  /** Does some table of `hashes` use dimension `d`? */
  predicate Referenced(hashes: seq<seq<nat>>, d: nat)
    decreases |hashes|
  {
    hashes != [] && (d in hashes[|hashes| - 1] || Referenced(hashes[..|hashes| - 1], d))
  }

  lemma {:induction false} ReferencedIff(hashes: seq<seq<nat>>, d: nat)
    ensures Referenced(hashes, d) <==> exists t :: 0 <= t < |hashes| && d in hashes[t]
    decreases |hashes|
  {
    if hashes != [] {
      var init := hashes[..|hashes| - 1];
      ReferencedIff(init, d);
      if exists t :: 0 <= t < |hashes| && d in hashes[t] {
        var t :| 0 <= t < |hashes| && d in hashes[t];
        if t < |init| {
          assert d in init[t];
        }
      }
      if exists t :: 0 <= t < |init| && d in init[t] {
        var t :| 0 <= t < |init| && d in init[t];
        assert d in hashes[t];
      }
    }
  }

  /** A table appended to `hashes` adds exactly its own dimensions to those referenced. */
  lemma ReferencedSnoc(hashes: seq<seq<nat>>, table: seq<nat>, d: nat)
    ensures Referenced(hashes + [table], d) <==> d in table || Referenced(hashes, d)
  {
    assert (hashes + [table])[..|hashes|] == hashes;
  }

  /** The dimensions below `n` used by some table, in ascending order. */
  function ReferencedBelow(hashes: seq<seq<nat>>, n: nat): seq<nat> {
    if n == 0 then []
    else ReferencedBelow(hashes, n - 1) + (if Referenced(hashes, n - 1) then [n - 1] else [])
  }

  /** `ReferencedBelow` is strictly ascending and holds exactly the used dimensions below `n`. */
  lemma {:induction false} ReferencedBelowSpec(hashes: seq<seq<nat>>, n: nat)
    ensures StrictlyIncreasing(ReferencedBelow(hashes, n))
    ensures forall d: nat :: d in ReferencedBelow(hashes, n) <==> d < n && Referenced(hashes, d)
  {
    if n > 0 {
      ReferencedBelowSpec(hashes, n - 1);
      var r, tail := ReferencedBelow(hashes, n - 1), if Referenced(hashes, n - 1) then [n - 1] else [];
      assert ReferencedBelow(hashes, n) == r + tail;
      forall i, j | 0 <= i < j < |r + tail| ensures (r + tail)[i] < (r + tail)[j] {
        if j >= |r| {
          assert (r + tail)[i] in r;
        }
      }
    }
  }
}
