/** The conversation memory: an append-only log of interactions with auto-incremented ids,
    kept in the `interactions` table of a local database. The database is modelled as an
    in-memory sequence of rows; the clock is a parameter. */
module Memory {
  import opened Wrappers
  import opened Json

  /** A stored row: the metadata column holds JSON text. */
  datatype Row = Row(id: nat, timestamp: string, userQuery: string, agentResponse: string, metadata: string)

  /** A record as `last_k_interactions` returns it, with the metadata decoded. */
  datatype Interaction = Interaction(timestamp: string, userQuery: string, agentResponse: string, metadata: Json)

  /** Every statement on the log fails with "no such table" until the table has been created. */
  datatype StoreError = NoSuchTable

  /** `metadata or {}`: a missing or falsy value is stored as the empty mapping. */
  function Normalized(m: Option<Json>): (r: Json)
    ensures m.Some? && Truthy(m.value) ==> r == m.value
    ensures !(m.Some? && Truthy(m.value)) ==> r == JObj([])
    ensures r == JObj([]) || Truthy(r)
  {
    if m.Some? && Truthy(m.value) then m.value else JObj([])
  }

  /** `json.dumps(metadata or {})`: the text written to the metadata column. */
  function StoredMetadata(m: Option<Json>): string
  {
    Dumps(Normalized(m), None)
  }

  /** The stored text decodes back to the normalized metadata. */
  lemma StoredMetadataDecodes(m: Option<Json>)
    ensures Loads(StoredMetadata(m)) == Some(Normalized(m))
  {
    LoadsDumps(Normalized(m), None);
  }

  predicate Decodable(rows: seq<Row>)
  {
    forall i :: 0 <= i < |rows| ==> Loads(rows[i].metadata).Some?
  }

  function Decoded(row: Row): Interaction
    requires Loads(row.metadata).Some?
  {
    Interaction(row.timestamp, row.userQuery, row.agentResponse, Loads(row.metadata).value)
  }

  /** `LIMIT k`: a negative limit means no limit. */
  function Limit(n: nat, k: int): (m: nat)
    ensures m <= n
    ensures k >= 0 ==> m == if k < n then k else n
    ensures k < 0 ==> m == n
  {
    if k < 0 || k > n then n else k
  }

  /** `ORDER BY id DESC LIMIT k` over rows stored in id order: the newest rows first. */
  function RecentRows(rows: seq<Row>, k: int): (r: seq<Row>)
    ensures |r| == Limit(|rows|, k)
    ensures forall i :: 0 <= i < |r| ==> r[i] == rows[|rows| - 1 - i]
  {
    seq(Limit(|rows|, k), i requires 0 <= i < Limit(|rows|, k) => rows[|rows| - 1 - i])
  }

  /** What `last_k_interactions(k)` returns for the given log. */
  function LastKOf(rows: seq<Row>, k: int): (r: seq<Interaction>)
    requires Decodable(rows)
    ensures |r| == |RecentRows(rows, k)| && |r| <= |rows|
    ensures forall i :: 0 <= i < |r| ==> r[i] == Decoded(rows[|rows| - 1 - i])
  {
    var recent := RecentRows(rows, k);
    assert forall i :: 0 <= i < |recent| ==> recent[i] == rows[|rows| - 1 - i];
    seq(|recent|, i requires 0 <= i < |recent| => Decoded(recent[i]))
  }

  predicate IdsIncreasing(rows: seq<Row>)
  {
    forall i, j :: 0 <= i < j < |rows| ==> rows[i].id < rows[j].id
  }

  /** `last_k_interactions(k)` yields `min(k, n)` records for `k >= 0`, none for `k = 0`, and all
      of them for a negative `k`. */
  lemma LastKLength(rows: seq<Row>, k: int)
    requires Decodable(rows)
    ensures k >= 0 ==> |LastKOf(rows, k)| == if k < |rows| then k else |rows|
    ensures k == 0 ==> LastKOf(rows, k) == []
    ensures k < 0 ==> |LastKOf(rows, k)| == |rows|
  {
  }

  /** The records come newest first, and every record left out is older than every record returned. */
  lemma RecentRowsNewestFirst(rows: seq<Row>, k: int)
    requires IdsIncreasing(rows)
    ensures var r := RecentRows(rows, k);
            && (forall i, j :: 0 <= i < j < |r| ==> r[i].id > r[j].id)
            && (forall i, j :: 0 <= i < |rows| - |r| && 0 <= j < |r| ==> rows[i].id < r[j].id)
            && (forall i :: 0 <= i < |r| ==> r[i] in rows)
  {
    var r := RecentRows(rows, k);
    forall i, j | 0 <= i < j < |r|
      ensures r[i].id > r[j].id
    {
      assert r[i] == rows[|rows| - 1 - i] && r[j] == rows[|rows| - 1 - j];
    }
    forall i, j | 0 <= i < |rows| - |r| && 0 <= j < |r|
      ensures rows[i].id < r[j].id
    {
      assert r[j] == rows[|rows| - 1 - j];
    }
  }

  /** Round trip: right after a save, the newest record is the one just saved, with its
      metadata as stored (`{}` for missing or falsy metadata). */
  lemma SaveThenLast(rows: seq<Row>, id: nat, now: string, q: string, a: string, m: Option<Json>)
    requires Decodable(rows)
    ensures Decodable(rows + [Row(id, now, q, a, StoredMetadata(m))])
    ensures LastKOf(rows + [Row(id, now, q, a, StoredMetadata(m))], 1) == [Interaction(now, q, a, Normalized(m))]
  {
    var rows' := rows + [Row(id, now, q, a, StoredMetadata(m))];
    StoredMetadataDecodes(m);
    assert forall i :: 0 <= i < |rows| ==> rows'[i] == rows[i];
    assert RecentRows(rows', 1) == [rows'[|rows|]];
  }

  /** The `interactions` table. `lastId` is the largest id ever handed out (AUTOINCREMENT never
      reuses one). */
  class InteractionStore {
    var tableExists: bool
    var rows: seq<Row>
    var lastId: nat

    ghost predicate Valid()
      reads this
    {
      && (!tableExists ==> rows == [] && lastId == 0)
      && IdsIncreasing(rows)
      && (forall i :: 0 <= i < |rows| ==> 1 <= rows[i].id <= lastId)
      && Decodable(rows)
    }

    /** A database file in which nothing has been created yet. */
    constructor ()
      ensures Valid() && !tableExists && rows == [] && lastId == 0
    {
      tableExists := false;
      rows := [];
      lastId := 0;
    }

    /** `init_db`: `CREATE TABLE IF NOT EXISTS` creates the table once and leaves an existing log alone. */
    method InitDb()
      requires Valid()
      modifies this
      ensures Valid() && tableExists
      ensures rows == old(rows) && lastId == old(lastId)
    {
      tableExists := true;
    }

    /** `save_interaction`: appends exactly one row with the next id; earlier rows are unchanged. */
    method SaveInteraction(userQuery: string, agentResponse: string, metadata: Option<Json>, now: string)
      returns (r: Result<nat, StoreError>)
      requires Valid()
      modifies this
      ensures Valid()
      ensures !old(tableExists) ==> r == Err(NoSuchTable) && rows == old(rows) && lastId == old(lastId) && !tableExists
      ensures old(tableExists) ==>
                && tableExists
                && r == Ok(old(lastId) + 1)
                && rows == old(rows) + [Row(old(lastId) + 1, now, userQuery, agentResponse, StoredMetadata(metadata))]
                && lastId == old(lastId) + 1
    {
      if !tableExists {
        return Err(NoSuchTable);
      }
      var id := lastId + 1;
      StoredMetadataDecodes(metadata);
      rows := rows + [Row(id, now, userQuery, agentResponse, StoredMetadata(metadata))];
      lastId := id;
      return Ok(id);
    }

    /** `last_k_interactions(k)`: reads the newest rows first and decodes their metadata; the log is not changed. */
    method LastK(k: int) returns (r: Result<seq<Interaction>, StoreError>)
      requires Valid()
      ensures !tableExists ==> r == Err(NoSuchTable)
      ensures tableExists ==> r == Ok(LastKOf(rows, k))
    {
      if !tableExists {
        return Err(NoSuchTable);
      }
      var n := Limit(|rows|, k);
      var out: seq<Interaction> := [];
      var i := 0;
      while i < n
        invariant 0 <= i <= n
        invariant |out| == i
        invariant forall j :: 0 <= j < i ==> out[j] == Decoded(rows[|rows| - 1 - j])
      {
        out := out + [Decoded(rows[|rows| - 1 - i])];
        i := i + 1;
      }
      assert |RecentRows(rows, k)| == n;
      assert forall j :: 0 <= j < n ==> RecentRows(rows, k)[j] == rows[|rows| - 1 - j];
      assert forall j :: 0 <= j < n ==> LastKOf(rows, k)[j] == out[j];
      assert out == LastKOf(rows, k);
      return Ok(out);
    }
  }

  /** Saving and then asking for the last interaction gives back what was saved. */
  method SaveThenRecall(store: InteractionStore, q: string, a: string, m: Option<Json>, now: string)
    returns (got: Result<seq<Interaction>, StoreError>)
    requires store.Valid() && store.tableExists
    modifies store
    ensures store.Valid()
    ensures got == Ok([Interaction(now, q, a, Normalized(m))])
  {
    var saved := store.SaveInteraction(q, a, m, now);
    SaveThenLast(old(store.rows), old(store.lastId) + 1, now, q, a, m);
    got := store.LastK(1);
  }
}
