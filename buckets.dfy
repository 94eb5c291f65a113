/**
 * The per-table bucket store: an `unordered_map<uint64_t, size_t>` from
 * signature to id whose `insert` never overwrites, probed by whole slot
 * (`bucket(key)`) rather than by exact key.
 */
module Buckets {

  /** The bucket count requested from every table (`rehash(65535)`). */
  const N_BUCKETS: nat := 65535

  /** One table: signature -> id of the first vector stored under it. */
  type Table = map<nat, nat>

  /** `bucket(k)`: the library's hash of `k` reduced to the bucket count. */
  function Slot(hash: nat -> nat, k: nat): (s: nat)
    ensures s < N_BUCKETS
  {
    hash(k) % N_BUCKETS
  }

  /**
   * `insert(make_pair(k, id))` on an `unordered_map`: the key is present
   * afterwards; an existing entry is kept as it was, so only the first id
   * stored under `k` survives; nothing else changes.
   */
  function Put(m: Table, k: nat, id: nat): (r: Table)
    ensures r.Keys == m.Keys + {k}
    ensures forall k' :: k' in m ==> r[k'] == m[k']
    ensures r[k] == if k in m then m[k] else id
  {
    if k in m then m else m[k := id]
  }

  /** Storing `id` in every table, table t under signature `sigs[t]`. */
  function PutAll(tables: seq<Table>, sigs: seq<nat>, id: nat): (r: seq<Table>)
    requires |sigs| == |tables|
    ensures |r| == |tables|
  {
    seq(|tables|, t requires 0 <= t < |tables| => Put(tables[t], sigs[t], id))
  }

  /** The keys of `m` that share the slot of `key`: what `begin(bucket)` .. `end(bucket)` walks over. */
  function SlotKeys(hash: nat -> nat, m: Table, key: nat): (r: set<nat>)
    ensures r <= m.Keys
  {
    set k | k in m && Slot(hash, k) == Slot(hash, key)
  }

  /** The ids `m` holds under the keys `ks`. */
  function Ids(m: Table, ks: set<nat>): set<nat>
    requires ks <= m.Keys
  {
    set k | k in ks :: m[k]
  }

  /** The ids held by the whole slot of `key` in table `m` (every key sharing the slot, not only `key`). */
  function Probe(hash: nat -> nat, m: Table, key: nat): set<nat> {
    Ids(m, SlotKeys(hash, m, key))
  }

  /** Walking one more key of a bucket adds its id. */
  lemma IdsAdd(m: Table, ks: set<nat>, k: nat)
    requires ks <= m.Keys && k in m
    ensures Ids(m, ks + {k}) == Ids(m, ks) + {m[k]}
  {
    var grown := Ids(m, ks + {k});
    forall i | i in grown ensures i in Ids(m, ks) + {m[k]} {
      var k' :| k' in ks + {k} && m[k'] == i;
      if k' != k {
        assert i in Ids(m, ks);
      }
    }
  }

  /** Union of the probes of the first `n` tables, table t probed with `sigs[t]`. */
  function CandidatesUpTo(hash: nat -> nat, tables: seq<Table>, sigs: seq<nat>, n: nat): set<nat>
    requires n <= |tables| && n <= |sigs|
  {
    if n == 0 then {}
    else CandidatesUpTo(hash, tables, sigs, n - 1) + Probe(hash, tables[n - 1], sigs[n - 1])
  }

  /** The candidate set of a query whose per-table signatures are `sigs`. */
  function Candidates(hash: nat -> nat, tables: seq<Table>, sigs: seq<nat>): set<nat>
    requires |sigs| == |tables|
  {
    CandidatesUpTo(hash, tables, sigs, |tables|)
  }

  /** Completeness: every id stored under a key in the query's slot of some table is a candidate. */
  lemma CandidatesComplete(hash: nat -> nat, tables: seq<Table>, sigs: seq<nat>, t: nat, k: nat)
    requires |sigs| == |tables| && t < |tables|
    requires k in tables[t] && Slot(hash, k) == Slot(hash, sigs[t])
    ensures tables[t][k] in Candidates(hash, tables, sigs)
  {
    CompleteUpTo(hash, tables, sigs, t, k, |tables|);
  }

  lemma {:induction false} CompleteUpTo(hash: nat -> nat, tables: seq<Table>, sigs: seq<nat>, t: nat, k: nat, n: nat)
    requires n <= |tables| && n <= |sigs| && t < n
    requires k in tables[t] && Slot(hash, k) == Slot(hash, sigs[t])
    ensures tables[t][k] in CandidatesUpTo(hash, tables, sigs, n)
  {
    if t < n - 1 {
      CompleteUpTo(hash, tables, sigs, t, k, n - 1);
    } else {
      assert tables[t][k] in Probe(hash, tables[t], sigs[t]);
    }
  }

  /**
   * In particular a table that stores `id` under the query's own signature
   * contributes it: a vector is retrieved by its own signature in every table
   * where it was the first one stored with that signature.
   */
  lemma OwnSignatureRetrieved(hash: nat -> nat, tables: seq<Table>, sigs: seq<nat>, t: nat)
    requires |sigs| == |tables| && t < |tables| && sigs[t] in tables[t]
    ensures tables[t][sigs[t]] in Candidates(hash, tables, sigs)
  {
    CandidatesComplete(hash, tables, sigs, t, sigs[t]);
  }

  /** Soundness: every candidate is stored in some table under a key in the query's slot of that table. */
  lemma {:induction false} CandidatesSound(hash: nat -> nat, tables: seq<Table>, sigs: seq<nat>, n: nat, i: nat)
    requires n <= |tables| && n <= |sigs|
    requires i in CandidatesUpTo(hash, tables, sigs, n)
    ensures exists t, k :: 0 <= t < n && k in tables[t] && Slot(hash, k) == Slot(hash, sigs[t]) && tables[t][k] == i
  {
    if i in CandidatesUpTo(hash, tables, sigs, n - 1) {
      CandidatesSound(hash, tables, sigs, n - 1, i);
    } else {
      var k :| k in tables[n - 1] && Slot(hash, k) == Slot(hash, sigs[n - 1]) && tables[n - 1][k] == i;
    }
  }

  /** Every id held by a table is below `bound`. */
  ghost predicate IdsBelow(tables: seq<Table>, bound: nat) {
    forall t, k :: 0 <= t < |tables| && k in tables[t] ==> tables[t][k] < bound
  }

  /** Candidates are ids some table holds, so they are as bounded as the ids stored. */
  lemma {:induction false} CandidatesBelow(hash: nat -> nat, tables: seq<Table>, sigs: seq<nat>, n: nat, bound: nat)
    requires n <= |tables| && n <= |sigs| && IdsBelow(tables, bound)
    ensures forall i :: i in CandidatesUpTo(hash, tables, sigs, n) ==> i < bound
  {
    if n > 0 {
      CandidatesBelow(hash, tables, sigs, n - 1, bound);
    }
  }

  /** Storing one more id keeps every earlier id below the new bound, and the new one too. */
  lemma PutAllIdsBelow(tables: seq<Table>, sigs: seq<nat>, id: nat)
    requires |sigs| == |tables| && IdsBelow(tables, id)
    ensures IdsBelow(PutAll(tables, sigs, id), id + 1)
  {
  }

  /** Storing into one table loses no id from the bucket of any key. */
  lemma PutKeepsProbe(hash: nat -> nat, m: Table, k: nat, id: nat, key: nat)
    ensures Probe(hash, m, key) <= Probe(hash, Put(m, k, id), key)
  {
    var after := Put(m, k, id);
    forall i | i in Probe(hash, m, key) ensures i in Probe(hash, after, key) {
      var k' :| k' in m && Slot(hash, k') == Slot(hash, key) && m[k'] == i;
      assert after[k'] == i;
    }
  }

  /** A table-by-table inclusion of the probes extends to the union one table further. */
  lemma CandidatesStep(hash: nat -> nat, tables: seq<Table>, after: seq<Table>, query: seq<nat>, n: nat)
    requires 0 < n <= |tables| == |after| && n <= |query|
    requires CandidatesUpTo(hash, tables, query, n - 1) <= CandidatesUpTo(hash, after, query, n - 1)
    requires Probe(hash, tables[n - 1], query[n - 1]) <= Probe(hash, after[n - 1], query[n - 1])
    ensures CandidatesUpTo(hash, tables, query, n) <= CandidatesUpTo(hash, after, query, n)
  {
  }

  /**
   * The store is append-only: after storing a new id, a query finds every
   * candidate it found before, whatever signatures the new id was stored under.
   */
  lemma {:induction false} PutAllKeepsCandidates(hash: nat -> nat, tables: seq<Table>, sigs: seq<nat>, query: seq<nat>, id: nat, n: nat)
    requires |sigs| == |tables| && |query| == |tables| && n <= |tables|
    ensures CandidatesUpTo(hash, tables, query, n) <= CandidatesUpTo(hash, PutAll(tables, sigs, id), query, n)
  {
    if n > 0 {
      var after := PutAll(tables, sigs, id);
      PutAllKeepsCandidates(hash, tables, sigs, query, id, n - 1);
      assert after[n - 1] == Put(tables[n - 1], sigs[n - 1], id);
      PutKeepsProbe(hash, tables[n - 1], sigs[n - 1], id, query[n - 1]);
      CandidatesStep(hash, tables, after, query, n);
    }
  }

  /**
   * Self-retrieval right after storing: querying with the signatures `id` was
   * stored under finds, in every table, the id kept under that signature:
   * `id` itself where the signature was new, an earlier id otherwise.
   */
  lemma PutAllRetrieves(hash: nat -> nat, tables: seq<Table>, sigs: seq<nat>, id: nat, t: nat)
    requires |sigs| == |tables| && t < |tables|
    ensures sigs[t] in PutAll(tables, sigs, id)[t]
    ensures PutAll(tables, sigs, id)[t][sigs[t]] == if sigs[t] in tables[t] then tables[t][sigs[t]] else id
    ensures PutAll(tables, sigs, id)[t][sigs[t]] in Candidates(hash, PutAll(tables, sigs, id), sigs)
  {
    OwnSignatureRetrieved(hash, PutAll(tables, sigs, id), sigs, t);
  }
}
