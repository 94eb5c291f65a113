/**
 * Signature computation (`LSH::getHashes`): every dimension a table selected
 * contributes one "above mean" bit, and the bits of a table are folded into a
 * `uint64_t` by `(acc << 1) | bit` in the table's dimension order.
 */
module Signature {

  /** 2^64: `uint64_t` arithmetic is taken modulo this. */
  const TWO_64: nat := 0x1_0000_0000_0000_0000

  function Pow2(n: nat): nat {
    if n == 0 then 1 else 2 * Pow2(n - 1)
  }

  lemma {:induction false} Pow2Add(a: nat, b: nat)
    ensures Pow2(a + b) == Pow2(a) * Pow2(b)
  {
    if a > 0 {
      Pow2Add(a - 1, b);
      assert Pow2(a + b) == 2 * Pow2(a - 1 + b);
      assert Pow2(a) == 2 * Pow2(a - 1);
    }
  }

  lemma Pow2Is2To64()
    ensures Pow2(64) == TWO_64
  {
    assert Pow2(4) == 16;
    Pow2Add(4, 4);
    assert Pow2(8) == 256;
    Pow2Add(8, 8);
    assert Pow2(16) == 0x1_0000;
    Pow2Add(16, 16);
    assert Pow2(32) == 0x1_0000_0000;
    Pow2Add(32, 32);
  }

  lemma {:induction false} Pow2Monotone(a: nat, b: nat)
    requires a <= b
    ensures 1 <= Pow2(a) <= Pow2(b)
    decreases b
  {
    if b > 0 {
      Pow2Monotone(if a < b then a else b - 1, b - 1);
    }
  }

  function BitValue(b: bool): nat {
    if b then 1 else 0
  }

  /** `(acc << 1) | bit` on a `uint64_t`: the shift drops bit 63, the new bit lands in bit 0. */
  function ShiftIn(acc: nat, bit: bool): (r: nat)
    requires acc < TWO_64
    ensures r < TWO_64
    ensures r % 2 == BitValue(bit)
  {
    (2 * acc) % TWO_64 + BitValue(bit)
  }

  /** The accumulator after folding `bits` into an initial 0, first bit first. */
  function Pack(bits: seq<bool>): (r: nat)
    ensures r < TWO_64
  {
    if bits == [] then 0 else ShiftIn(Pack(bits[..|bits| - 1]), bits[|bits| - 1])
  }

  /**
   * Reference value: the big-endian reading of `bits`, in which bit i weighs
   * 2^(|bits|-1-i), so the first bit is the most significant one.
   */
  function Weight(bits: seq<bool>): nat {
    if bits == [] then 0
    else (if bits[0] then Pow2(|bits| - 1) else 0) + Weight(bits[1..])
  }

  lemma {:induction false} WeightBound(bits: seq<bool>)
    ensures Weight(bits) < Pow2(|bits|)
  {
    if bits != [] {
      WeightBound(bits[1..]);
    }
  }

  lemma {:induction false} WeightSnoc(s: seq<bool>, b: bool)
    ensures Weight(s + [b]) == 2 * Weight(s) + BitValue(b)
  {
    if s == [] {
      assert (s + [b])[1..] == [];
    } else {
      assert (s + [b])[1..] == s[1..] + [b];
      WeightSnoc(s[1..], b);
    }
  }

  /** In general the packed value is the big-endian value reduced modulo 2^64. */
  lemma {:induction false} PackIsWeightModulo(bits: seq<bool>)
    ensures Pack(bits) == Weight(bits) % TWO_64
  {
    if bits != [] {
      var s, b := bits[..|bits| - 1], bits[|bits| - 1];
      assert bits == s + [b];
      PackIsWeightModulo(s);
      WeightSnoc(s, b);
      ShiftMod(Weight(s), BitValue(b));
    }
  }

  lemma ModOfDecomposition(x: nat, q: nat, r: nat)
    requires r < TWO_64 && x == q * TWO_64 + r
    ensures x % TWO_64 == r
  {
  }

  /** Shifting in a bit commutes with the reduction modulo 2^64. */
  lemma ShiftMod(w: nat, bit: nat)
    requires bit <= 1
    ensures (2 * (w % TWO_64)) % TWO_64 + bit == (2 * w + bit) % TWO_64
  {
    var q, r := w / TWO_64, w % TWO_64;
    if 2 * r < TWO_64 {
      ModOfDecomposition(2 * r, 0, 2 * r);
      ModOfDecomposition(2 * w + bit, 2 * q, 2 * r + bit);
    } else {
      ModOfDecomposition(2 * r, 1, 2 * r - TWO_64);
      ModOfDecomposition(2 * w + bit, 2 * q + 1, 2 * r - TWO_64 + bit);
    }
  }

  /**
   * With at most 64 bits nothing is shifted out: the packed value is exactly
   * the big-endian value, and it has at most |bits| significant bits.
   */
  lemma PackIsWeight(bits: seq<bool>)
    requires |bits| <= 64
    ensures Pack(bits) == Weight(bits)
    ensures Pack(bits) < Pow2(|bits|)
  {
    PackIsWeightModulo(bits);
    WeightBound(bits);
    Pow2Monotone(|bits|, 64);
    Pow2Is2To64();
    ModOfDecomposition(Weight(bits), 0, Weight(bits));
  }

  /** Two bit strings of one length have equal big-endian values exactly when they are equal. */
  lemma {:induction false} WeightInjective(a: seq<bool>, b: seq<bool>)
    requires |a| == |b|
    ensures Weight(a) == Weight(b) <==> a == b
  {
    if a != [] && a != b {
      WeightBound(a[1..]);
      WeightBound(b[1..]);
      if a[0] == b[0] {
        WeightInjective(a[1..], b[1..]);
      }
    }
  }

  /** With at most 64 bits, distinct bit strings give distinct signatures. */
  lemma PackInjective(a: seq<bool>, b: seq<bool>)
    requires |a| == |b| <= 64
    ensures Pack(a) == Pack(b) <==> a == b
  {
    PackIsWeight(a);
    PackIsWeight(b);
    WeightInjective(a, b);
  }

  /** Every dimension index named by `hashes` is below `n`. */
  predicate DimsBelow(hashes: seq<seq<nat>>, n: nat) {
    forall t, j :: 0 <= t < |hashes| && 0 <= j < |hashes[t]| ==> hashes[t][j] < n
  }

  /** The bits `p[d] > means[d]` for the dimensions `dims`, in order. */
  function AboveMean(p: seq<real>, means: seq<real>, dims: seq<nat>): (r: seq<bool>)
    requires forall j :: 0 <= j < |dims| ==> dims[j] < |p| && dims[j] < |means|
    ensures |r| == |dims|
  {
    seq(|dims|, j requires 0 <= j < |dims| => p[dims[j]] > means[dims[j]])
  }

  /** One signature per table: what `getHashes(p)` returns. */
  function Signatures(hashes: seq<seq<nat>>, means: seq<real>, p: seq<real>): (r: seq<nat>)
    requires DimsBelow(hashes, |p|) && DimsBelow(hashes, |means|)
    ensures |r| == |hashes| && forall t :: 0 <= t < |r| ==> r[t] < TWO_64
  {
    seq(|hashes|, t requires 0 <= t < |hashes| => Pack(AboveMean(p, means, hashes[t])))
  }

  /**
   * The signature of table t is the big-endian value of its above-mean bits,
   * first-selected dimension most significant, with at most |hashes[t]|
   * significant bits, provided the table has at most 64 dimensions; bit i of
   * the signature, counted from the most significant end, is the bit of the
   * table's i-th dimension.
   */
  lemma SignatureValue(hashes: seq<seq<nat>>, means: seq<real>, p: seq<real>, t: nat)
    requires DimsBelow(hashes, |p|) && DimsBelow(hashes, |means|)
    requires t < |hashes| && |hashes[t]| <= 64
    ensures |Signatures(hashes, means, p)| == |hashes|
    ensures Signatures(hashes, means, p)[t] == Weight(AboveMean(p, means, hashes[t]))
    ensures Signatures(hashes, means, p)[t] < Pow2(|hashes[t]|)
  {
    PackIsWeight(AboveMean(p, means, hashes[t]));
  }

  /**
   * Two vectors get the same signature in table t (of at most 64 dimensions)
   * exactly when they fall on the same side of the mean in every dimension of t.
   */
  lemma SameSignatureIffSameSides(hashes: seq<seq<nat>>, means: seq<real>, p: seq<real>, q: seq<real>, t: nat)
    requires DimsBelow(hashes, |p|) && DimsBelow(hashes, |q|) && DimsBelow(hashes, |means|)
    requires t < |hashes| && |hashes[t]| <= 64
    ensures |Signatures(hashes, means, p)| == |Signatures(hashes, means, q)| == |hashes|
    ensures Signatures(hashes, means, p)[t] == Signatures(hashes, means, q)[t]
        <==> forall j :: 0 <= j < |hashes[t]| ==>
               (p[hashes[t][j]] > means[hashes[t][j]]) == (q[hashes[t][j]] > means[hashes[t][j]])
  {
    var a, b := AboveMean(p, means, hashes[t]), AboveMean(q, means, hashes[t]);
    PackInjective(a, b);
    assert Signatures(hashes, means, p)[t] == Pack(a);
    assert Signatures(hashes, means, q)[t] == Pack(b);
    assert forall j :: 0 <= j < |a| ==> a[j] == (p[hashes[t][j]] > means[hashes[t][j]]);
    assert forall j :: 0 <= j < |b| ==> b[j] == (q[hashes[t][j]] > means[hashes[t][j]]);
    assert (a == b) <==> forall j :: 0 <= j < |a| ==> a[j] == b[j];
  }
}
