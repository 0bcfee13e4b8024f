/**
  The `games` table behind `GameModel`, as a value: rows keyed by id, the
  store errors, and what each statement does to the rows. The SQL engine is
  replaced by these definitions; `GameModel` runs them one at a time.
 */
module GameTable {
  import opened Wrappers
  import opened Decimal
  import opened ScoreCodec
  import opened Games

  /** `ErrRecordNotFound`, `ErrEditConflict`, and every other database or timeout error. */
  datatype StoreError = ErrRecordNotFound | ErrEditConflict | StoreFailure

  /** One row of the table: the columns `Insert`, `Get` and `GetAll` read and write. */
  datatype Row = Row(id: int, createdAt: Timestamp, title: string, score: Score,
                     games: Option<seq<string>>, version: int)

  type Table = map<int, Row>

  /** Ids come from a sequence that starts at 1; each row carries its own key and a version of at least 1. */
  predicate TableInvariant(t: Table, nextId: int) {
    && nextId >= 1
    && forall id :: id in t ==> 1 <= id < nextId && t[id].id == id && 1 <= t[id].version <= MaxInt32
  }

  /** The row a `Game` struct currently describes. */
  function RowOf(g: Game): (r: Row)
    reads g
    ensures r.id == g.id && r.title == g.title && r.score == g.score && r.games == g.games
    ensures r.version == g.version && r.createdAt == g.createdAt
  {
    Row(g.id, g.createdAt, g.title, g.score, g.games, g.version)
  }

  /** `INSERT ... RETURNING id, created_at, version`: the next id, the clock, and version 1. */
  function Inserted(t: Table, nextId: int, now: Timestamp, title: string, score: Score,
                    games: Option<seq<string>>): (r: Table)
    ensures r.Keys == t.Keys + {nextId}
    ensures r[nextId] == Row(nextId, now, title, score, games, 1)
    ensures forall k :: k in t && k != nextId ==> r[k] == t[k]
  {
    t[nextId := Row(nextId, now, title, score, games, 1)]
  }

  /** The intended point lookup of `Get`: ids below 1 and missing ids are not found. */
  function Lookup(t: Table, id: int): (r: Result<Row, StoreError>)
    ensures r.Ok? <==> 1 <= id && id in t
    ensures r.Ok? ==> r.value == t[id]
    ensures r.Err? ==> r.error == ErrRecordNotFound
  {
    if id < 1 then Err(ErrRecordNotFound)
    else if id in t then Ok(t[id])
    else Err(ErrRecordNotFound)
  }

  /**
    `Get` as written: past the `id < 1` guard it sends a query whose select
    list starts with a stray comma, which the database refuses as a syntax
    error, so no row is ever returned.
   */
  function LookupAsWritten(t: Table, id: int): (r: Result<Row, StoreError>)
    ensures id < 1 ==> r == Err(ErrRecordNotFound)
  {
    if id < 1 then Err(ErrRecordNotFound) else Err(StoreFailure)
  }

  /**
    `UPDATE ... SET title, score, games, version = version + 1 WHERE id = $4
    AND version = $5 RETURNING version`: no matching row is an edit
    conflict; a match whose version is already the largest `integer` fails
    the increment.
   */
  function CompareAndIncrement(t: Table, id: int, expected: int, title: string, score: Score,
                               games: Option<seq<string>>): (r: Result<Table, StoreError>)
    ensures r == Err(ErrEditConflict) <==> id !in t || t[id].version != expected
    ensures r == Err(StoreFailure) <==> id in t && t[id].version == expected && expected >= MaxInt32
    ensures r.Ok? ==>
      && id in t && r.value.Keys == t.Keys
      && r.value[id] == t[id].(title := title, score := score, games := games, version := expected + 1)
      && r.value[id].version <= MaxInt32
      && forall k :: k in t && k != id ==> r.value[k] == t[k]
  {
    if id !in t || t[id].version != expected then Err(ErrEditConflict)
    else if expected >= MaxInt32 then Err(StoreFailure)
    else Ok(t[id := t[id].(title := title, score := score, games := games, version := expected + 1)])
  }

  /** `DELETE FROM games WHERE id = $1`, with the `id < 1` guard and "no row affected" as not found. */
  function Remove(t: Table, id: int): (r: Result<Table, StoreError>)
    ensures r.Ok? <==> 1 <= id && id in t
    ensures r.Err? ==> r.error == ErrRecordNotFound
    ensures r.Ok? ==> r.value.Keys == t.Keys - {id} && forall k :: k in r.value ==> r.value[k] == t[k]
  {
    if id < 1 || id !in t then Err(ErrRecordNotFound) else Ok(t - {id})
  }

  // ---- Lookup ----

  /** As written, `Get` never returns a row, even for an id that is present. */
  lemma LookupAsWrittenFails(t: Table, id: int)
    requires 1 <= id && id in t
    ensures LookupAsWritten(t, id) == Err(StoreFailure)
    ensures Lookup(t, id) == Ok(t[id])
  {
  }

  // ---- Insert ----

  /** A new row gets the next id and version 1, keeps only title, score and genres, and leaves the others alone. */
  lemma InsertThenLookup(t: Table, nextId: int, now: Timestamp, title: string, score: Score,
                         games: Option<seq<string>>, other: int)
    requires TableInvariant(t, nextId)
    ensures var t' := Inserted(t, nextId, now, title, score, games);
      && Lookup(t', nextId) == Ok(Row(nextId, now, title, score, games, 1))
      && (other != nextId ==> Lookup(t', other) == Lookup(t, other))
      && TableInvariant(t', nextId + 1)
      && nextId !in t
  {
  }

  // ---- Update ----

  /** Exactly the mismatches conflict: a missing id or a stored version other than the expected one. */
  lemma ConflictExactly(t: Table, id: int, expected: int, title: string, score: Score,
                        games: Option<seq<string>>)
    ensures CompareAndIncrement(t, id, expected, title, score, games) == Err(ErrEditConflict)
      <==> id !in t || t[id].version != expected
  {
  }

  /** A successful update replaces the three fields, bumps the version, keeps the id and creation time, and keeps the invariant. */
  lemma UpdateThenLookup(t: Table, nextId: int, id: int, expected: int, title: string, score: Score,
                         games: Option<seq<string>>, other: int)
    requires TableInvariant(t, nextId)
    requires CompareAndIncrement(t, id, expected, title, score, games).Ok?
    ensures var t' := CompareAndIncrement(t, id, expected, title, score, games).value;
      && Lookup(t', id) == Ok(Row(id, t[id].createdAt, title, score, games, expected + 1))
      && (other != id ==> Lookup(t', other) == Lookup(t, other))
      && TableInvariant(t', nextId)
  {
  }

  /**
    Two clients read the same version of a row and both try to write it.
    The first write succeeds; the second conflicts and changes nothing; the
    second client's write succeeds once it re-reads the new version.
   */
  lemma StaleWriterConflicts(t: Table, nextId: int, id: int, a: Row, b: Row)
    requires TableInvariant(t, nextId)
    requires Lookup(t, id).Ok?
    requires Lookup(t, id).value.version < MaxInt32 - 1
    ensures var v := Lookup(t, id).value.version;
      var t1 := CompareAndIncrement(t, id, v, a.title, a.score, a.games);
      && t1.Ok?
      && CompareAndIncrement(t1.value, id, v, b.title, b.score, b.games) == Err(ErrEditConflict)
      && Lookup(t1.value, id).value.version == v + 1
      && CompareAndIncrement(t1.value, id, v + 1, b.title, b.score, b.games).Ok?
  {
  }

  // ---- Delete ----

  /** Deleting removes exactly that row; deleting it again is not found. */
  lemma DeleteThenLookup(t: Table, nextId: int, id: int, other: int)
    requires TableInvariant(t, nextId)
    requires Remove(t, id).Ok?
    ensures var t' := Remove(t, id).value;
      && Lookup(t', id) == Err(ErrRecordNotFound)
      && (other != id ==> Lookup(t', other) == Lookup(t, other))
      && Remove(t', id) == Err(ErrRecordNotFound)
      && TableInvariant(t', nextId)
  {
  }

  /** Delete succeeds exactly for a present id; failures leave the table alone. */
  lemma RemoveExactly(t: Table, id: int)
    ensures Remove(t, id).Ok? <==> Lookup(t, id).Ok?
    ensures Remove(t, id).Ok? ==> Remove(t, id).value.Keys == t.Keys - {id}
  {
  }
}
