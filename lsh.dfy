/**
 * `pkm::LSH`: a locality-sensitive-hashing index over rows of reals. Every
 * table owns a list of dimensions drawn with probability proportional to
 * their variance; a row's signature in a table packs one "above the column
 * mean" bit per listed dimension; each table maps signatures to the id of the
 * first row stored under them. A query collects the ids of the whole bucket of
 * its signature in every table, and `knn` reorders them by distance.
 */
module PkmLSH {
  import opened Seqs
  import opened Stats
  import opened Selection
  import opened Signature
  import opened Buckets
  import opened Rerank

  /** Every row is wide enough for every dimension of `hashes`. */
  ghost predicate RowsFit(hashes: seq<seq<nat>>, rows: seq<seq<real>>) {
    forall i :: 0 <= i < |rows| ==> DimsBelow(hashes, |rows[i]|)
  }

  /** The tables after storing the first `n` of `rows` one after the other, row i under id `firstId + i`. */
  function StoreRows(tables: seq<Table>, hashes: seq<seq<nat>>, means: seq<real>, rows: seq<seq<real>>, n: nat, firstId: nat): (r: seq<Table>)
    requires |tables| == |hashes| && DimsBelow(hashes, |means|)
    requires RowsFit(hashes, rows) && n <= |rows|
    ensures |r| == |tables|
  {
    if n == 0 then tables
    else PutAll(StoreRows(tables, hashes, means, rows, n - 1, firstId), Signatures(hashes, means, rows[n - 1]), firstId + n - 1)
  }

  /** Storing rows keeps every id below the next free one. */
  lemma {:induction false} StoreRowsIdsBelow(tables: seq<Table>, hashes: seq<seq<nat>>, means: seq<real>, rows: seq<seq<real>>, n: nat, firstId: nat)
    requires |tables| == |hashes| && DimsBelow(hashes, |means|)
    requires RowsFit(hashes, rows) && n <= |rows|
    requires IdsBelow(tables, firstId)
    ensures IdsBelow(StoreRows(tables, hashes, means, rows, n, firstId), firstId + n)
  {
    if n > 0 {
      var before, sigs := StoreRows(tables, hashes, means, rows, n - 1, firstId), Signatures(hashes, means, rows[n - 1]);
      StoreRowsIdsBelow(tables, hashes, means, rows, n - 1, firstId);
      PutAllIdsBelow(before, sigs, firstId + n - 1);
      assert StoreRows(tables, hashes, means, rows, n, firstId) == PutAll(before, sigs, firstId + n - 1);
    }
  }

  /**
   * After storing the first `n` rows, every table holds the signature of
   * each row i < n, under the id of the first row stored with that
   * signature: row i's own id or an earlier one.
   */
  lemma {:induction false} StoreRowsKeepsSignature(tables: seq<Table>, hashes: seq<seq<nat>>, means: seq<real>, rows: seq<seq<real>>, n: nat, firstId: nat, i: nat, t: nat)
    requires |tables| == |hashes| && DimsBelow(hashes, |means|)
    requires RowsFit(hashes, rows) && n <= |rows|
    requires IdsBelow(tables, firstId)
    requires i < n && t < |tables|
    ensures Signatures(hashes, means, rows[i])[t] in StoreRows(tables, hashes, means, rows, n, firstId)[t]
    ensures StoreRows(tables, hashes, means, rows, n, firstId)[t][Signatures(hashes, means, rows[i])[t]] <= firstId + i
  {
    if i < n - 1 {
      StoreRowsKeepsSignature(tables, hashes, means, rows, n - 1, firstId, i, t);
    } else {
      StoreRowsIdsBelow(tables, hashes, means, rows, n - 1, firstId);
    }
  }

  /** A signature that is absent from table t, and that none of the first `n` rows has there, is still absent after storing them. */
  lemma {:induction false} StoreRowsKeepsAbsent(tables: seq<Table>, hashes: seq<seq<nat>>, means: seq<real>, rows: seq<seq<real>>, n: nat, firstId: nat, s: nat, t: nat)
    requires |tables| == |hashes| && DimsBelow(hashes, |means|)
    requires RowsFit(hashes, rows) && n <= |rows| && t < |tables|
    requires s !in tables[t]
    requires forall j :: 0 <= j < n ==> Signatures(hashes, means, rows[j])[t] != s
    ensures s !in StoreRows(tables, hashes, means, rows, n, firstId)[t]
  {
    if n > 0 {
      StoreRowsKeepsAbsent(tables, hashes, means, rows, n - 1, firstId, s, t);
    }
  }

  /**
   * The first row stored with a given signature in table t keeps its own id
   * there: if the signature of row i is new to the table and no earlier row
   * has it, the table maps it to `firstId + i` however many rows follow.
   */
  lemma {:induction false} StoreRowsFirstKeepsOwnId(tables: seq<Table>, hashes: seq<seq<nat>>, means: seq<real>, rows: seq<seq<real>>, n: nat, firstId: nat, i: nat, t: nat)
    requires |tables| == |hashes| && DimsBelow(hashes, |means|)
    requires RowsFit(hashes, rows) && i < n <= |rows| && t < |tables|
    requires Signatures(hashes, means, rows[i])[t] !in tables[t]
    requires forall j :: 0 <= j < i ==> Signatures(hashes, means, rows[j])[t] != Signatures(hashes, means, rows[i])[t]
    ensures Signatures(hashes, means, rows[i])[t] in StoreRows(tables, hashes, means, rows, n, firstId)[t]
    ensures StoreRows(tables, hashes, means, rows, n, firstId)[t][Signatures(hashes, means, rows[i])[t]] == firstId + i
  {
    var before, last := StoreRows(tables, hashes, means, rows, n - 1, firstId), Signatures(hashes, means, rows[n - 1]);
    var s := Signatures(hashes, means, rows[i])[t];
    assert StoreRows(tables, hashes, means, rows, n, firstId)[t] == Put(before[t], last[t], firstId + n - 1);
    if i < n - 1 {
      StoreRowsFirstKeepsOwnId(tables, hashes, means, rows, n - 1, firstId, i, t);
    } else {
      StoreRowsKeepsAbsent(tables, hashes, means, rows, i, firstId, s, t);
    }
  }

  /**
   * So a stored row that was the first with its signature in some table is
   * retrieved under its own id by a query with its own signatures.
   */
  lemma StoredRowRetrievesOwnId(hash: nat -> nat, tables: seq<Table>, hashes: seq<seq<nat>>, means: seq<real>, rows: seq<seq<real>>, firstId: nat, i: nat, t: nat)
    requires |tables| == |hashes| && DimsBelow(hashes, |means|)
    requires RowsFit(hashes, rows) && i < |rows| && t < |tables|
    requires Signatures(hashes, means, rows[i])[t] !in tables[t]
    requires forall j :: 0 <= j < i ==> Signatures(hashes, means, rows[j])[t] != Signatures(hashes, means, rows[i])[t]
    ensures firstId + i in Candidates(hash, StoreRows(tables, hashes, means, rows, |rows|, firstId), Signatures(hashes, means, rows[i]))
  {
    var stored, sigs := StoreRows(tables, hashes, means, rows, |rows|, firstId), Signatures(hashes, means, rows[i]);
    StoreRowsFirstKeepsOwnId(tables, hashes, means, rows, |rows|, firstId, i, t);
    assert sigs[t] in stored[t] && stored[t][sigs[t]] == firstId + i;
    OwnSignatureRetrieved(hash, stored, sigs, t);
  }

  /**
   * Every stored row is found by its own query: the table entry its own
   * signature lands on is among the candidates, and that id is no later than
   * the row's own.
   */
  lemma StoredRowRetrieved(hash: nat -> nat, tables: seq<Table>, hashes: seq<seq<nat>>, means: seq<real>, rows: seq<seq<real>>, firstId: nat, i: nat, t: nat)
    requires |tables| == |hashes| && DimsBelow(hashes, |means|)
    requires RowsFit(hashes, rows)
    requires IdsBelow(tables, firstId)
    requires i < |rows| && t < |tables|
    ensures var stored, sigs := StoreRows(tables, hashes, means, rows, |rows|, firstId), Signatures(hashes, means, rows[i]);
      sigs[t] in stored[t] && stored[t][sigs[t]] <= firstId + i && stored[t][sigs[t]] in Candidates(hash, stored, sigs)
  {
    StoreRowsKeepsSignature(tables, hashes, means, rows, |rows|, firstId, i, t);
    var stored, sigs := StoreRows(tables, hashes, means, rows, |rows|, firstId), Signatures(hashes, means, rows[i]);
    OwnSignatureRetrieved(hash, stored, sigs, t);
  }

  /**
   * Drawing one table of `buildHashes` from `targets[lo..]` has reached
   * `hi`: `table` holds at most `nBits` columns, none twice, listed in the
   * order they were first drawn; every draw so far landed on the table; and
   * once the table is full, the last draw was the first one of its last
   * dimension, so drawing stopped as soon as the table filled.
   */
  ghost predicate Drawing(v: seq<real>, targets: seq<real>, lo: nat, hi: nat, table: seq<nat>, nBits: nat) {
    lo <= hi <= |targets| && |table| <= nBits && Distinct(table)
    && (forall j :: 0 <= j < |table| ==> table[j] < |v|)
    && InDrawOrder(v, targets, lo, hi, table)
    && LandsIn(v, targets, lo, hi, table)
    && (0 < nBits == |table| ==>
          lo < hi && IsPick(v, targets[hi - 1], table[nBits - 1]) && LandsIn(v, targets, lo, hi - 1, table[..nBits - 1]))
  }

  /** `table` is what one table of `buildHashes` draws from `targets[lo..hi]`: it is short of `nBits` only when the targets ran out. */
  ghost predicate TableDraw(v: seq<real>, targets: seq<real>, lo: nat, hi: nat, table: seq<nat>, nBits: nat) {
    Drawing(v, targets, lo, hi, table, nBits) && (|table| < nBits ==> hi == |targets|)
  }

  /** One more draw into a table that is not full: a new dimension is appended, a repeat is skipped. */
  lemma DrawingStep(v: seq<real>, targets: seq<real>, lo: nat, hi: nat, table: seq<nat>, nBits: nat, d: nat)
    requires Drawing(v, targets, lo, hi, table, nBits) && |table| < nBits
    requires hi < |targets| && IsPick(v, targets[hi], d)
    ensures Drawing(v, targets, lo, hi + 1, if d in table then table else table + [d], nBits)
  {
    if d in table {
      InDrawOrderWiden(v, targets, lo, hi, hi + 1, table);
      LandsInStep(v, targets, lo, hi, table, table, d);
    } else {
      var extended := table + [d];
      InDrawOrderStep(v, targets, lo, hi, table, d);
      LandsInStep(v, targets, lo, hi, table, extended, d);
      assert extended[..|table|] == table;
    }
  }

  /** Drawing never runs past the point where another draw of the same table from the same start stops. */
  lemma TableDrawStopsFirst(v: seq<real>, targets: seq<real>, lo: nat, hi: nat, table: seq<nat>, hi': nat, table': seq<nat>, nBits: nat)
    requires TableDraw(v, targets, lo, hi, table, nBits) && TableDraw(v, targets, lo, hi', table', nBits)
    ensures hi' <= hi
  {
    if hi < hi' {
      if |table'| < nBits {
        InDrawOrderWithin(v, targets, lo, hi, table, hi', table');
        DistinctWithin(table, table');
      } else if 0 < nBits {
        var init := table'[..nBits - 1];
        InDrawOrderWithin(v, targets, lo, hi, table, hi' - 1, init);
        DistinctWithin(table, init);
      }
    }
  }

  /** The draws from `lo` on determine the table and where its drawing stops. */
  lemma TableDrawUnique(v: seq<real>, targets: seq<real>, lo: nat, hi: nat, table: seq<nat>, hi': nat, table': seq<nat>, nBits: nat)
    requires TableDraw(v, targets, lo, hi, table, nBits) && TableDraw(v, targets, lo, hi', table', nBits)
    ensures hi == hi' && table == table'
  {
    TableDrawStopsFirst(v, targets, lo, hi, table, hi', table', nBits);
    TableDrawStopsFirst(v, targets, lo, hi', table', hi, table, nBits);
    InDrawOrderWithin(v, targets, lo, hi, table, hi, table');
    DistinctWithin(table, table');
    InDrawOrderWithin(v, targets, lo, hi, table', hi, table);
    DistinctWithin(table', table);
    InDrawOrderSame(v, targets, lo, hi, table, table', |table|);
    assert table[..|table|] == table && table'[..|table'|] == table';
  }

  /**
   * The tables were drawn one after the other from consecutive windows of
   * `targets`: table t from `targets[bounds[t]..bounds[t + 1]]`, the first
   * from the start.
   */
  ghost predicate DrawnInTurn(tables: seq<seq<nat>>, v: seq<real>, targets: seq<real>, bounds: seq<nat>, nBits: nat) {
    |bounds| == |tables| + 1 && bounds[0] == 0
    && (forall i, j :: 0 <= i <= j < |bounds| ==> bounds[i] <= bounds[j] <= |targets|)
    && forall t :: 0 <= t < |tables| ==> TableDraw(v, targets, bounds[t], bounds[t + 1], tables[t], nBits)
  }

  lemma DrawnInTurnSnoc(tables: seq<seq<nat>>, v: seq<real>, targets: seq<real>, bounds: seq<nat>, nBits: nat, table: seq<nat>, hi: nat)
    requires DrawnInTurn(tables, v, targets, bounds, nBits)
    requires TableDraw(v, targets, bounds[|tables|], hi, table, nBits)
    ensures DrawnInTurn(tables + [table], v, targets, bounds + [hi], nBits)
  {
    var tables', bounds' := tables + [table], bounds + [hi];
    forall t | 0 <= t < |tables'| ensures TableDraw(v, targets, bounds'[t], bounds'[t + 1], tables'[t], nBits) {
      if t < |tables| {
        assert bounds'[t] == bounds[t] && bounds'[t + 1] == bounds[t + 1] && tables'[t] == tables[t];
      }
    }
  }

  lemma {:induction false} DrawnInTurnAgree(tables: seq<seq<nat>>, bounds: seq<nat>, tables': seq<seq<nat>>, bounds': seq<nat>, v: seq<real>, targets: seq<real>, nBits: nat, n: nat)
    requires DrawnInTurn(tables, v, targets, bounds, nBits) && DrawnInTurn(tables', v, targets, bounds', nBits)
    requires n <= |tables| == |tables'|
    ensures forall t :: 0 <= t <= n ==> bounds[t] == bounds'[t]
    ensures forall t :: 0 <= t < n ==> tables[t] == tables'[t]
  {
    if n > 0 {
      DrawnInTurnAgree(tables, bounds, tables', bounds', v, targets, nBits, n - 1);
      var t := n - 1;
      assert TableDraw(v, targets, bounds[t], bounds[t + 1], tables[t], nBits);
      assert TableDraw(v, targets, bounds'[t], bounds'[t + 1], tables'[t], nBits);
      TableDrawUnique(v, targets, bounds[t], bounds[t + 1], tables[t], bounds'[t + 1], tables'[t], nBits);
    }
  }

  /** The targets determine the tables drawn in turn and their windows: the draws of `buildHashes` are a function of its random numbers. */
  lemma DrawnInTurnUnique(tables: seq<seq<nat>>, bounds: seq<nat>, tables': seq<seq<nat>>, bounds': seq<nat>, v: seq<real>, targets: seq<real>, nBits: nat)
    requires DrawnInTurn(tables, v, targets, bounds, nBits) && DrawnInTurn(tables', v, targets, bounds', nBits)
    requires |tables| == |tables'|
    ensures tables == tables' && bounds == bounds'
  {
    DrawnInTurnAgree(tables, bounds, tables', bounds', v, targets, nBits, |tables|);
  }

  /** Tables drawn in turn are well drawn: every dimension is a column some target picks. */
  lemma DrawnInTurnWell(tables: seq<seq<nat>>, v: seq<real>, targets: seq<real>, bounds: seq<nat>, nBits: nat)
    requires DrawnInTurn(tables, v, targets, bounds, nBits)
    ensures WellDrawn(tables, v, targets, nBits, |v|)
  {
    forall t | 0 <= t < |tables|
      ensures |tables[t]| <= nBits && Distinct(tables[t])
      ensures forall j :: 0 <= j < |tables[t]| ==> tables[t][j] < |v| && Drawn(v, targets, 0, |targets|, tables[t][j])
    {
      var table, lo, hi := tables[t], bounds[t], bounds[t + 1];
      assert TableDraw(v, targets, lo, hi, table, nBits);
      forall j | 0 <= j < |table| ensures Drawn(v, targets, 0, |targets|, table[j]) {
        InDrawOrderDrawn(v, targets, lo, hi, table, j);
        var k :| lo <= k < hi && k < |targets| && IsPick(v, targets[k], table[j]);
      }
    }
  }

  /**
   * Once a table is short of `nBits`, the targets are used up: every later
   * table is empty, the last bound is the number of targets, and a table
   * that is empty drew nothing at all.
   */
  lemma ShortTableEndsDraws(tables: seq<seq<nat>>, v: seq<real>, targets: seq<real>, bounds: seq<nat>, nBits: nat, t: nat)
    requires DrawnInTurn(tables, v, targets, bounds, nBits)
    requires t < |tables| && |tables[t]| < nBits
    ensures bounds[|tables|] == |targets|
    ensures tables[t] == [] ==> bounds[t] == |targets|
    ensures forall u :: t < u < |tables| ==> tables[u] == []
  {
    assert TableDraw(v, targets, bounds[t], bounds[t + 1], tables[t], nBits);
    var lo, hi := bounds[t], bounds[t + 1];
    assert LandsIn(v, targets, lo, hi, tables[t]);
    if lo < hi {
      var x := targets[lo];
      assert exists d :: d in tables[t] && IsPick(v, x, d);
    }
    assert bounds[t + 1] <= bounds[|tables|];
    forall u | t < u < |tables| ensures tables[u] == [] {
      assert TableDraw(v, targets, bounds[u], bounds[u + 1], tables[u], nBits);
      assert bounds[t + 1] <= bounds[u] <= bounds[u + 1] <= |targets|;
      EmptyWindowDrawsNothing(v, targets, bounds[u], bounds[u + 1], tables[u]);
    }
  }

  /**
   * The drawing loop of one table of `buildHashes`: draw targets from
   * `start` on, keep each picked dimension not already in the table
   * (`used[d] == 2`), until `nBits` are kept or the targets run out.
   */
  method DrawDims(variances: seq<real>, targets: seq<real>, start: nat, used: array<nat>, tables: seq<seq<nat>>, nBits: nat)
    returns (hashFn: seq<nat>, next: nat)
    requires |variances| == used.Length > 0 && NonNegative(variances) && start <= |targets|
    requires forall i :: 0 <= i < |targets| ==> 0.0 <= targets[i] <= Sum(variances)
    requires forall i :: 0 <= i < used.Length ==> used[i] == if Referenced(tables, i) then 1 else 0
    modifies used
    ensures TableDraw(variances, targets, start, next, hashFn, nBits)
    ensures forall i :: 0 <= i < used.Length ==> used[i] == if i in hashFn then 2 else if Referenced(tables, i) then 1 else 0
  {
    var nCols := used.Length;
    hashFn := [];
    next := start;
    while |hashFn| < nBits && next < |targets|
      invariant Drawing(variances, targets, start, next, hashFn, nBits)
      invariant forall i :: 0 <= i < nCols ==> used[i] == if i in hashFn then 2 else if Referenced(tables, i) then 1 else 0
      decreases |targets| - next
    {
      var selection := Walk(variances, targets[next]);
      DrawingStep(variances, targets, start, next, hashFn, nBits, selection);
      if used[selection] != 2 {
        assert selection !in hashFn;
        used[selection] := 2;
        hashFn := hashFn + [selection];
      } else {
        assert selection in hashFn;
      }
      next := next + 1;
    }
  }

  /** The marking loop of one table of `buildHashes`: its dimensions become used by a finished table (`used[d] = 1`). */
  method MarkFinished(used: array<nat>, tables: seq<seq<nat>>, hashFn: seq<nat>)
    requires Distinct(hashFn) && forall j :: 0 <= j < |hashFn| ==> hashFn[j] < used.Length
    requires forall i :: 0 <= i < used.Length ==> used[i] == if i in hashFn then 2 else if Referenced(tables, i) then 1 else 0
    modifies used
    ensures forall i :: 0 <= i < used.Length ==> used[i] == if Referenced(tables + [hashFn], i) then 1 else 0
  {
    for j := 0 to |hashFn|
      invariant forall i :: 0 <= i < used.Length ==>
        used[i] == if i in hashFn[j..] then 2 else if i in hashFn[..j] || Referenced(tables, i) then 1 else 0
    {
      assert hashFn[j..] == [hashFn[j]] + hashFn[j + 1..];
      assert hashFn[..j + 1] == hashFn[..j] + [hashFn[j]];
      used[hashFn[j]] := 1;
    }
    assert hashFn[..|hashFn|] == hashFn;
    forall i | 0 <= i < used.Length ensures used[i] == if Referenced(tables + [hashFn], i) then 1 else 0 {
      ReferencedSnoc(tables, hashFn, i);
    }
  }

  /** One table of `buildHashes`: draw its dimensions, then mark them as used by a finished table. */
  method DrawTable(variances: seq<real>, targets: seq<real>, start: nat, used: array<nat>, tables: seq<seq<nat>>, nBits: nat)
    returns (hashFn: seq<nat>, next: nat)
    requires |variances| == used.Length > 0 && NonNegative(variances) && start <= |targets|
    requires forall i :: 0 <= i < |targets| ==> 0.0 <= targets[i] <= Sum(variances)
    requires forall i :: 0 <= i < used.Length ==> used[i] == if Referenced(tables, i) then 1 else 0
    modifies used
    ensures TableDraw(variances, targets, start, next, hashFn, nBits)
    ensures forall i :: 0 <= i < used.Length ==> used[i] == if Referenced(tables + [hashFn], i) then 1 else 0
  {
    hashFn, next := DrawDims(variances, targets, start, used, tables, nBits);
    MarkFinished(used, tables, hashFn);
  }

  /**
   * The inner loop of `getHashes` for one table: starting from 0, shift in
   * the bit `tmp[d]` of every dimension `d` of the table, in order.
   */
  method PackTable(p: seq<real>, means: seq<real>, tmp: array<bool>, dims: seq<nat>) returns (acc: nat)
    requires forall j :: 0 <= j < |dims| ==> dims[j] < |p| && dims[j] < |means| && dims[j] < tmp.Length
    requires forall j :: 0 <= j < |dims| ==> tmp[dims[j]] == (p[dims[j]] > means[dims[j]])
    ensures acc == Pack(AboveMean(p, means, dims))
  {
    acc := 0;
    for j := 0 to |dims|
      invariant acc == Pack(AboveMean(p, means, dims[..j]))
    {
      var bits := AboveMean(p, means, dims[..j + 1]);
      assert bits[..j] == AboveMean(p, means, dims[..j]);
      acc := ShiftIn(acc, tmp[dims[j]]);
    }
    assert dims[..|dims|] == dims;
  }

  /** The per-table loop of `getHashes`: one packed signature per table, from the above-mean bits in `tmp`. */
  method PackTables(p: seq<real>, means: seq<real>, tmp: array<bool>, hashes: seq<seq<nat>>) returns (result: seq<nat>)
    requires DimsBelow(hashes, |p|) && DimsBelow(hashes, |means|) && DimsBelow(hashes, tmp.Length)
    requires forall t, j :: 0 <= t < |hashes| && 0 <= j < |hashes[t]| ==> tmp[hashes[t][j]] == (p[hashes[t][j]] > means[hashes[t][j]])
    ensures result == Signatures(hashes, means, p)
  {
    var values := new nat[|hashes|](_ => 0);
    for t := 0 to |hashes|
      modifies values
      invariant forall u :: 0 <= u < t ==> values[u] == Pack(AboveMean(p, means, hashes[u]))
    {
      var packed := PackTable(p, means, tmp, hashes[t]);
      values[t] := packed;
    }
    result := values[..];
  }

  /** One table of `query`: insert into `unique` the id of every entry in the bucket of `key`. */
  method AddBucket(hash: nat -> nat, table: Table, key: nat, unique: set<nat>) returns (r: set<nat>)
    ensures r == unique + Probe(hash, table, key)
  {
    var bucket := SlotKeys(hash, table, key);
    var rest := bucket;
    r := unique;
    while rest != {}
      invariant rest <= bucket
      invariant r == unique + Ids(table, bucket - rest)
      decreases rest
    {
      var k :| k in rest;
      IdsAdd(table, bucket - rest, k);
      assert bucket - (rest - {k}) == (bucket - rest) + {k};
      r := r + {table[k]};
      rest := rest - {k};
    }
    assert bucket - rest == bucket;
  }

  /** The traversal of a `std::set` from `begin()` to `end()`: its elements in ascending order. */
  method InOrder(s: set<nat>) returns (values: seq<nat>)
    ensures values == Ascending(s)
  {
    var rest := s;
    values := [];
    while rest != {}
      invariant values + Ascending(rest) == Ascending(s)
      decreases rest
    {
      LeastExists(rest);
      var m :| IsLeast(m, rest);
      AscendingStep(m, rest);
      values := values + [m];
      rest := rest - {m};
    }
  }

  /** The table loop of `buildHashes`: `nTables` tables drawn one after the other, each from where the previous one stopped. */
  method DrawTables(variances: seq<real>, targets: seq<real>, used: array<nat>, nTables: nat, nBits: nat)
    returns (tables: seq<seq<nat>>, ghost bounds: seq<nat>)
    requires |variances| == used.Length > 0 && NonNegative(variances)
    requires forall i :: 0 <= i < |targets| ==> 0.0 <= targets[i] <= Sum(variances)
    requires forall i :: 0 <= i < used.Length ==> used[i] == 0
    modifies used
    ensures |tables| == nTables && DrawnInTurn(tables, variances, targets, bounds, nBits)
    ensures forall i :: 0 <= i < used.Length ==> used[i] == if Referenced(tables, i) then 1 else 0
  {
    tables := [];
    bounds := [0];
    var next := 0;
    for tableI := 0 to nTables
      invariant |tables| == tableI
      invariant DrawnInTurn(tables, variances, targets, bounds, nBits) && bounds[tableI] == next
      invariant forall i :: 0 <= i < used.Length ==> used[i] == if Referenced(tables, i) then 1 else 0
    {
      var start := next;
      var hashFn;
      hashFn, next := DrawTable(variances, targets, start, used, tables, nBits);
      DrawnInTurnSnoc(tables, variances, targets, bounds, nBits, hashFn, next);
      tables := tables + [hashFn];
      bounds := bounds + [next];
    }
  }

  /**
   * Every table has at most `nBits` dimensions, none twice, each a column
   * below `nCols` that some target picks from `variances`.
   */
  ghost predicate WellDrawn(tables: seq<seq<nat>>, variances: seq<real>, targets: seq<real>, nBits: nat, nCols: nat) {
    forall t :: 0 <= t < |tables| ==>
      |tables[t]| <= nBits && Distinct(tables[t])
      && forall j :: 0 <= j < |tables[t]| ==> tables[t][j] < nCols && Drawn(variances, targets, 0, |targets|, tables[t][j])
  }

  /**
   * A table never holds more dimensions than there are columns, so with
   * `nBits` above `nCols` no table is ever full and `DrawTable` stops only
   * by running out of targets.
   */
  lemma DrawnTablesFitColumns(tables: seq<seq<nat>>, variances: seq<real>, targets: seq<real>, nBits: nat, nCols: nat)
    requires WellDrawn(tables, variances, targets, nBits, nCols)
    ensures forall t :: 0 <= t < |tables| ==> |tables[t]| <= nCols
  {
    forall t | 0 <= t < |tables| ensures |tables[t]| <= nCols {
      DistinctBelowLength(tables[t], nCols);
    }
  }

  /** The last loop of `buildHashes`: append to `prehash` every dimension marked as used by a table. */
  method UsedDimensions(used: array<nat>, tables: seq<seq<nat>>, prehash: seq<nat>) returns (r: seq<nat>)
    requires forall i :: 0 <= i < used.Length ==> used[i] == if Referenced(tables, i) then 1 else 0
    ensures r == prehash + ReferencedBelow(tables, used.Length)
  {
    r := prehash;
    for i := 0 to used.Length
      invariant r == prehash + ReferencedBelow(tables, i)
    {
      if used[i] == 1 {
        r := r + [i];
      }
    }
  }

  /**
   * Extending `prehash` by the used dimensions below `n` adds only columns
   * below `n`, and covers every dimension of every table.
   */
  lemma PrehashCovers(tables: seq<seq<nat>>, prehash: seq<nat>, n: nat)
    requires DimsBelow(tables, n)
    ensures forall i :: |prehash| <= i < |prehash + ReferencedBelow(tables, n)| ==> (prehash + ReferencedBelow(tables, n))[i] < n
    ensures forall t, j :: 0 <= t < |tables| && 0 <= j < |tables[t]| ==> tables[t][j] in prehash + ReferencedBelow(tables, n)
  {
    var extended := prehash + ReferencedBelow(tables, n);
    ReferencedBelowSpec(tables, n);
    forall i | |prehash| <= i < |extended| ensures extended[i] < n {
      assert extended[i] in ReferencedBelow(tables, n);
    }
    forall t, j | 0 <= t < |tables| && 0 <= j < |tables[t]| ensures tables[t][j] in extended {
      ReferencedIff(tables, tables[t][j]);
      assert tables[t][j] in ReferencedBelow(tables, n);
    }
  }

  /** The first loop of `getHashes`: `tmp[d]` is the bit `p[d] > means[d]` for every `d` of `prehash`. */
  method AboveMeanBits(p: seq<real>, means: seq<real>, prehash: seq<nat>) returns (tmp: array<bool>)
    requires forall i :: 0 <= i < |prehash| ==> prehash[i] < |p| && prehash[i] < |means|
    ensures fresh(tmp) && tmp.Length == |p|
    ensures forall d :: d in prehash ==> d < tmp.Length && tmp[d] == (p[d] > means[d])
  {
    tmp := new bool[|p|](_ => false);
    for k := 0 to |prehash|
      invariant forall i :: 0 <= i < k ==> tmp[prehash[i]] == (p[prehash[i]] > means[prehash[i]])
    {
      tmp[prehash[k]] := p[prehash[k]] > means[prehash[k]];
    }
    forall d | d in prehash ensures d < tmp.Length && tmp[d] == (p[d] > means[d]) {
      var i :| 0 <= i < |prehash| && prehash[i] == d;
    }
  }

  class LSH {
    /** The library hash of a signature, from which `bucket` takes the slot. */
    const hash: nat -> nat
    /** `n_total_hash_tables`. */
    const nTables: nat
    /** `n_total_bits`: the dimensions each table is meant to draw. */
    const nBits: nat

    /** One list of dimensions per table, in the order they were drawn. */
    var hashes: seq<seq<nat>>
    /** `original_data`: the stored rows; a row's id is its position. */
    var originalData: seq<seq<real>>
    /** The per-column means of the dataset given to `initialize`. */
    var means: seq<real>
    /** `map_hashes`: one table per hash table. */
    var mapHashes: seq<Table>
    /** The dimensions some table uses, for which `getHashes` computes the above-mean bit. */
    var prehash: seq<nat>
    /** `b_initialized`. */
    var initialized: bool

    /**
     * The state every operation keeps: one table per hash table, every id a
     * table holds names a stored row, and every dimension a table lists is a
     * column of the means and one `getHashes` computes a bit for.
     */
    ghost predicate Valid()
      reads this
    {
      |mapHashes| == nTables
      && IdsBelow(mapHashes, |originalData|)
      && DimsBelow(hashes, |means|)
      && (forall t, j :: 0 <= t < |hashes| && 0 <= j < |hashes[t]| ==> hashes[t][j] in prehash)
      && (forall i :: 0 <= i < |prehash| ==> prehash[i] < |means|)
    }

    /** `getHashes(p)` reads `p` at every dimension of `prehash`. */
    predicate Accepts(p: seq<real>)
      reads this
    {
      forall i :: 0 <= i < |prehash| ==> prehash[i] < |p|
    }

    /** The candidate ids `query(p)` returns, ascending. */
    ghost function QueryResult(p: seq<real>): (r: seq<nat>)
      requires Valid() && |hashes| == nTables && Accepts(p)
      reads this
      ensures forall i :: 0 <= i < |r| ==> r[i] < |originalData|
    {
      ValidDims(p);
      var sigs := Signatures(hashes, means, p);
      var unique := Candidates(hash, mapHashes, sigs);
      AscendingSpec(unique);
      CandidatesBelow(hash, mapHashes, sigs, nTables, |originalData|);
      assert forall i :: 0 <= i < |Ascending(unique)| ==> Ascending(unique)[i] in unique;
      Ascending(unique)
    }

    lemma ValidDims(p: seq<real>)
      requires Valid() && Accepts(p)
      ensures DimsBelow(hashes, |p|)
    {
      forall t, j | 0 <= t < |hashes| && 0 <= j < |hashes[t]| ensures hashes[t][j] < |p| {
        assert hashes[t][j] in prehash;
        var i :| 0 <= i < |prehash| && prehash[i] == hashes[t][j];
      }
    }

    /** `LSH(n_tables, n_bits_per_table = 32)`: one empty table per hash table, not built. */
    constructor(hash: nat -> nat, nTables: nat, nBits: nat := 32)
      ensures this.hash == hash && this.nTables == nTables && this.nBits == nBits
      ensures hashes == [] && originalData == [] && means == [] && prehash == []
      ensures mapHashes == seq(nTables, _ => map[])
      ensures !initialized
      ensures Valid()
    {
      this.hash := hash;
      this.nTables := nTables;
      this.nBits := nBits;
      hashes := [];
      originalData := [];
      means := [];
      mapHashes := seq(nTables, _ => map[]);
      prehash := [];
      initialized := false;
    }

    /** `isBuilt()`. */
    method IsBuilt() returns (built: bool)
      ensures built == initialized
    {
      built := initialized;
    }

    /**
     * `buildHashes`: the column means and variances of `data`, then for each
     * table dimensions drawn one target at a time (repeats within a table are
     * skipped) up to `nBits` of them, then `prehash` extended by the
     * dimensions used, ascending. The random targets are `targets`, consumed
     * in order; once they run out, the current table and all later ones stay
     * short of `nBits`.
     */
    method BuildHashes(data: seq<seq<real>>, targets: seq<real>) returns (ghost consumed: nat, ghost bounds: seq<nat>)
      requires Valid()
      requires |data| > 0 && |data[0]| > 0 && Rectangular(data, |data[0]|)
      requires forall i :: 0 <= i < |targets| ==> 0.0 <= targets[i] <= Sum(Variances(data))
      requires forall i :: 0 <= i < |prehash| ==> prehash[i] < |data[0]|
      modifies this
      ensures means == Means(data)
      ensures |hashes| == nTables
      ensures DrawnInTurn(hashes, Variances(data), targets, bounds, nBits) && consumed == bounds[|hashes|]
      ensures consumed <= |targets| && forall t :: 0 <= t < |hashes| && |hashes[t]| < nBits ==> consumed == |targets|
      ensures prehash == old(prehash) + ReferencedBelow(hashes, |data[0]|)
      ensures forall i :: 0 <= i < |prehash| ==> prehash[i] < |data[0]|
      ensures originalData == old(originalData) && mapHashes == old(mapHashes) && initialized == old(initialized)
      ensures Valid()
    {
      var nCols := |data[0]|;
      var variances := Variances(data);
      VariancesNonNegative(data);
      var used := new nat[nCols](_ => 0);
      var tables;
      tables, bounds := DrawTables(variances, targets, used, nTables, nBits);
      consumed := bounds[nTables];
      forall t | 0 <= t < |tables| && |tables[t]| < nBits ensures consumed == |targets| {
        ShortTableEndsDraws(tables, variances, targets, bounds, nBits, t);
      }
      DrawnInTurnWell(tables, variances, targets, bounds, nBits);
      var candidates := UsedDimensions(used, tables, prehash);
      PrehashCovers(tables, prehash, nCols);
      means := Means(data);
      hashes := tables;
      prehash := candidates;
    }

    /**
     * `getHashes(p)`: the above-mean bit of every `prehash` dimension, then
     * per table those bits folded into a `uint64_t` in the table's order.
     */
    method GetHashes(p: seq<real>) returns (result: seq<nat>)
      requires Valid() && |hashes| == nTables && Accepts(p)
      ensures DimsBelow(hashes, |p|)
      ensures result == Signatures(hashes, means, p)
    {
      ValidDims(p);
      var tmp := AboveMeanBits(p, means, prehash);
      forall t, j | 0 <= t < |hashes| && 0 <= j < |hashes[t]|
        ensures hashes[t][j] < tmp.Length && tmp[hashes[t][j]] == (p[hashes[t][j]] > means[hashes[t][j]])
      {
        assert hashes[t][j] in prehash;
      }
      result := PackTables(p, means, tmp, hashes);
    }

    /**
     * `insert(row)`: store the id `|originalData|` in every table under the
     * row's signature (an existing entry is kept), then append the row.
     */
    method Insert(row: seq<real>)
      requires Valid() && |hashes| == nTables && Accepts(row)
      modifies this
      ensures hashes == old(hashes) && means == old(means) && prehash == old(prehash) && initialized == old(initialized)
      ensures Valid() && DimsBelow(hashes, |row|)
      ensures originalData == old(originalData) + [row]
      ensures mapHashes == PutAll(old(mapHashes), Signatures(hashes, means, row), |old(originalData)|)
    {
      var hashValues := GetHashes(row);
      var id := |originalData|;
      for t := 0 to nTables
        invariant |mapHashes| == nTables
        invariant forall u :: 0 <= u < t ==> mapHashes[u] == Put(old(mapHashes)[u], hashValues[u], id)
        invariant forall u :: t <= u < nTables ==> mapHashes[u] == old(mapHashes)[u]
        invariant originalData == old(originalData) && hashes == old(hashes) && means == old(means)
        invariant prehash == old(prehash) && initialized == old(initialized)
      {
        mapHashes := mapHashes[t := Put(mapHashes[t], hashValues[t], id)];
      }
      assert mapHashes == PutAll(old(mapHashes), hashValues, id);
      PutAllIdsBelow(old(mapHashes), hashValues, id);
      originalData := originalData + [row];
    }

    /**
     * `initialize(data)`: build the hash functions from `data` (drawing the
     * targets from `targets`), store every row in order, and mark the index
     * as built.
     */
    method Initialize(data: seq<seq<real>>, targets: seq<real>) returns (ghost consumed: nat, ghost bounds: seq<nat>)
      requires Valid()
      requires |data| > 0 && |data[0]| > 0 && Rectangular(data, |data[0]|)
      requires forall i :: 0 <= i < |targets| ==> 0.0 <= targets[i] <= Sum(Variances(data))
      requires forall i :: 0 <= i < |prehash| ==> prehash[i] < |data[0]|
      modifies this
      ensures means == Means(data)
      ensures |hashes| == nTables
      ensures DrawnInTurn(hashes, Variances(data), targets, bounds, nBits) && consumed == bounds[|hashes|]
      ensures consumed <= |targets| && forall t :: 0 <= t < |hashes| && |hashes[t]| < nBits ==> consumed == |targets|
      ensures prehash == old(prehash) + ReferencedBelow(hashes, |data[0]|)
      ensures originalData == old(originalData) + data
      ensures RowsFit(hashes, data)
      ensures mapHashes == StoreRows(old(mapHashes), hashes, means, data, |data|, |old(originalData)|)
      ensures initialized
      ensures Valid()
    {
      consumed, bounds := BuildHashes(data, targets);
      InsertRows(data);
      initialized := true;
    }

    /** The loop of `initialize` that inserts the rows of the dataset in order. */
    method InsertRows(rows: seq<seq<real>>)
      requires Valid() && |hashes| == nTables
      requires forall i :: 0 <= i < |rows| ==> Accepts(rows[i])
      modifies this
      ensures hashes == old(hashes) && means == old(means) && prehash == old(prehash) && initialized == old(initialized)
      ensures Valid() && RowsFit(hashes, rows)
      ensures originalData == old(originalData) + rows
      ensures mapHashes == StoreRows(old(mapHashes), hashes, means, rows, |rows|, |old(originalData)|)
    {
      forall i | 0 <= i < |rows| ensures DimsBelow(hashes, |rows[i]|) {
        ValidDims(rows[i]);
      }
      for i := 0 to |rows|
        invariant Valid() && hashes == old(hashes) && means == old(means) && prehash == old(prehash)
        invariant initialized == old(initialized)
        invariant originalData == old(originalData) + rows[..i]
        invariant mapHashes == StoreRows(old(mapHashes), hashes, means, rows, i, |old(originalData)|)
      {
        InsertNext(rows, i, old(mapHashes), |old(originalData)|);
      }
      assert rows[..|rows|] == rows;
    }

    /** One step of `initialize`'s insertion loop: row i goes in under the next free id. */
    method InsertNext(rows: seq<seq<real>>, i: nat, ghost start: seq<Table>, ghost firstId: nat)
      requires Valid() && |hashes| == nTables && i < |rows| && Accepts(rows[i])
      requires RowsFit(hashes, rows) && |start| == |hashes|
      requires firstId + i == |originalData|
      requires mapHashes == StoreRows(start, hashes, means, rows, i, firstId)
      modifies this
      ensures hashes == old(hashes) && means == old(means) && prehash == old(prehash) && initialized == old(initialized)
      ensures Valid() && originalData == old(originalData) + [rows[i]]
      ensures mapHashes == StoreRows(start, hashes, means, rows, i + 1, firstId)
    {
      Insert(rows[i]);
    }

    /**
     * `query(p)`: the union over the tables of the ids in the bucket of p's
     * signature, returned ascending and without repeats (a `std::set`
     * traversal).
     */
    method Query(p: seq<real>) returns (values: seq<nat>)
      requires Valid() && |hashes| == nTables && Accepts(p)
      ensures values == QueryResult(p)
      ensures StrictlyIncreasing(values)
      ensures forall i :: i in values <==> i in Candidates(hash, mapHashes, Signatures(hashes, means, p))
      ensures forall i :: 0 <= i < |values| ==> values[i] < |originalData|
    {
      var sigs := GetHashes(p);
      var unique: set<nat> := {};
      for t := 0 to nTables
        invariant unique == CandidatesUpTo(hash, mapHashes, sigs, t)
      {
        unique := AddBucket(hash, mapHashes[t], sigs[t], unique);
      }
      assert unique == Candidates(hash, mapHashes, Signatures(hashes, means, p));
      values := InOrder(unique);
      AscendingSpec(unique);
      CandidatesBelow(hash, mapHashes, sigs, nTables, |originalData|);
      assert forall i :: 0 <= i < |values| ==> values[i] in unique;
    }

    /** Every stored row whose id `query(p)` returns has the width of `p`, as `p - original_data[id]` needs. */
    ghost predicate CandidateRowsMatch(p: seq<real>)
      requires Valid() && |hashes| == nTables && Accepts(p)
      reads this
    {
      forall i :: 0 <= i < |QueryResult(p)| ==> |originalData[QueryResult(p)[i]]| == |p|
    }

    /**
     * `knn(p)`: the query's candidates, reordered so that their squared
     * distances to `p` do not decrease.
     */
    method Knn(p: seq<real>) returns (nearest: seq<nat>)
      requires Valid() && |hashes| == nTables && Accepts(p) && CandidateRowsMatch(p)
      ensures multiset(nearest) == multiset(QueryResult(p))
      ensures forall i :: 0 <= i < |nearest| ==> nearest[i] < |originalData| && |originalData[nearest[i]]| == |p|
      ensures forall i, j :: 0 <= i < j < |nearest| ==> SqDist(p, originalData[nearest[i]]) <= SqDist(p, originalData[nearest[j]])
    {
      var neighbors := Query(p);
      var dists;
      dists, nearest := RankByDistance(p, originalData, neighbors);
    }

    /**
     * `knn(p, dists, nearest_neighbors)`: as `knn(p)`, also handing back the
     * negated squared distance of every candidate, in query order (not sorted).
     */
    method KnnWithDists(p: seq<real>) returns (dists: seq<real>, nearest: seq<nat>)
      requires Valid() && |hashes| == nTables && Accepts(p) && CandidateRowsMatch(p)
      ensures |dists| == |QueryResult(p)|
      ensures forall i :: 0 <= i < |dists| ==> dists[i] == -SqDist(p, originalData[QueryResult(p)[i]])
      ensures multiset(nearest) == multiset(QueryResult(p))
      ensures forall i :: 0 <= i < |nearest| ==> nearest[i] < |originalData| && |originalData[nearest[i]]| == |p|
      ensures forall i, j :: 0 <= i < j < |nearest| ==> SqDist(p, originalData[nearest[i]]) <= SqDist(p, originalData[nearest[j]])
    {
      var neighbors := Query(p);
      dists, nearest := RankByDistance(p, originalData, neighbors);
    }
  }
}
