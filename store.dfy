/**
  `GameModel`: the five store operations over an in-memory `games` table.
  Each call is one atomic step; `failure` stands for a database or timeout
  error the call may meet, and `now` for the clock that fills `created_at`.
 */
module GameStore {
  import opened Wrappers
  import opened Decimal
  import opened ScoreCodec
  import opened Filters
  import opened Games
  import opened GameTable
  import opened GameQuery

  class GameModel {
    var rows: Table
    /** The next value of the id sequence. */
    var nextId: int

    ghost predicate Valid()
      reads this
    {
      TableInvariant(rows, nextId)
    }

    constructor ()
      ensures Valid() && rows == map[] && nextId == 1
    {
      rows := map[];
      nextId := 1;
    }

    /**
      `Insert(game)`: stores the title, score and genres and writes the
      assigned id, creation time and version 1 back into `game`; the
      description and the caller's id and version are ignored.
     */
    method Insert(game: Game, now: Timestamp, failure: bool) returns (err: Option<StoreError>)
      requires Valid()
      modifies this, game
      ensures Valid()
      ensures failure || old(nextId) > MaxInt64 ==>
        && err == Some(StoreFailure)
        && rows == old(rows) && nextId == old(nextId)
        && unchanged(game)
      ensures !failure && old(nextId) <= MaxInt64 ==>
        && err == None
        && rows == Inserted(old(rows), old(nextId), now, old(game.title), old(game.score), old(game.games))
        && nextId == old(nextId) + 1
        && game.id == old(nextId) && game.createdAt == now && game.version == 1
        && game.title == old(game.title) && game.score == old(game.score)
        && game.games == old(game.games) && game.description == old(game.description)
    {
      if failure || nextId > MaxInt64 {
        return Some(StoreFailure);
      }
      var id := nextId;
      rows := rows[id := Row(id, now, game.title, game.score, game.games, 1)];
      nextId := nextId + 1;
      game.id := id;
      game.createdAt := now;
      game.version := 1;
      InsertThenLookup(old(rows), id, now, game.title, game.score, game.games, id);
      return None;
    }

    /** `Get(id)`: a fresh game holding the row, or why there is none. */
    method Get(id: int, failure: bool) returns (game: Game?, err: Option<StoreError>)
      requires Valid()
      ensures id < 1 ==> game == null && err == Some(ErrRecordNotFound)
      ensures id >= 1 && failure ==> game == null && err == Some(StoreFailure)
      ensures id >= 1 && !failure ==>
        match Lookup(rows, id)
        case Ok(row) => err == None && game != null && fresh(game) && RowOf(game) == row && game.description == ""
        case Err(e) => game == null && err == Some(e)
    {
      if id < 1 {
        return null, Some(ErrRecordNotFound);
      }
      if failure {
        return null, Some(StoreFailure);
      }
      if id !in rows {
        return null, Some(ErrRecordNotFound);
      }
      var row := rows[id];
      game := new Game.Scanned(row.id, row.createdAt, row.title, row.score, row.games, row.version);
      return game, None;
    }

    /**
      `Update(game)`: replaces title, score and genres of the row whose id and
      version match `game`, and refreshes `game.version` to the new version.
     */
    method Update(game: Game, failure: bool) returns (err: Option<StoreError>)
      requires Valid()
      modifies this, game
      ensures Valid() && nextId == old(nextId)
      ensures var r := CompareAndIncrement(old(rows), old(game.id), old(game.version),
                                           old(game.title), old(game.score), old(game.games));
        if failure || r.Err? then
          && err == Some(if failure then StoreFailure else r.error)
          && rows == old(rows) && unchanged(game)
        else
          && err == None && rows == r.value
          && game.version == old(game.version) + 1
          && game.id == old(game.id) && game.title == old(game.title) && game.score == old(game.score)
          && game.games == old(game.games) && game.description == old(game.description)
          && game.createdAt == old(game.createdAt)
    {
      if failure {
        return Some(StoreFailure);
      }
      var r := CompareAndIncrement(rows, game.id, game.version, game.title, game.score, game.games);
      if r.Err? {
        return Some(r.error);
      }
      UpdateThenLookup(rows, nextId, game.id, game.version, game.title, game.score, game.games, game.id);
      assert TableInvariant(r.value, nextId) by {
        forall other | other in r.value
          ensures 1 <= other < nextId && r.value[other].id == other && 1 <= r.value[other].version <= MaxInt32
        {
          UpdateThenLookup(rows, nextId, game.id, game.version, game.title, game.score, game.games, other);
        }
      }
      rows := r.value;
      game.version := game.version + 1;
      return None;
    }

    /** `Delete(id)`: removes that row and no other. */
    method Delete(id: int, failure: bool) returns (err: Option<StoreError>)
      requires Valid()
      modifies this
      ensures Valid() && nextId == old(nextId)
      ensures id < 1 ==> err == Some(ErrRecordNotFound) && rows == old(rows)
      ensures id >= 1 && failure ==> err == Some(StoreFailure) && rows == old(rows)
      ensures id >= 1 && !failure ==>
        match Remove(old(rows), id)
        case Ok(t) => err == None && rows == t
        case Err(e) => err == Some(e) && rows == old(rows)
    {
      if id < 1 {
        return Some(ErrRecordNotFound);
      }
      if failure {
        return Some(StoreFailure);
      }
      if id !in rows {
        return Some(ErrRecordNotFound);
      }
      rows := rows - {id};
      return None;
    }

    /**
      `GetAll(title, genres, filters)`: one page of the matching games in
      order, and the metadata computed from the count the page carried.
      The sort key must be safelisted (`sortColumn` panics otherwise).
     */
    method GetAll(title: string, genres: seq<string>, filters: Filters,
                  fts: (string, string) -> bool, failure: bool)
      returns (games: seq<Game>, metadata: Metadata, err: Option<StoreError>)
      requires Valid()
      requires filters.sort in filters.sortSafelist
      ensures var column := ColumnOf(SortColumn(filters));
        if failure || column.None? || Limit(filters) < 0 || Offset(filters) < 0 then
          games == [] && metadata == Metadata(0, 0, 0, 0) && err == Some(StoreFailure)
        else
          var sel := Selected(rows, nextId, title, genres, fts, column.value, SortDirection(filters));
          var page := Window(sel, Offset(filters), Limit(filters));
          && err == None
          && |games| == |page|
          && (forall i :: 0 <= i < |games| ==> fresh(games[i]) && RowOf(games[i]) == page[i])
          && (forall i, j :: 0 <= i < j < |games| ==> games[i] != games[j])
          && metadata == CalculateMetadata(ReportedTotal(sel, Offset(filters), Limit(filters)),
                                           filters.page, filters.pageSize)
    {
      var column := ColumnOf(SortColumn(filters));
      var limit := Limit(filters);
      var offset := Offset(filters);
      if failure || column.None? || limit < 0 || offset < 0 {
        return [], Metadata(0, 0, 0, 0), Some(StoreFailure);
      }
      var sel := Selected(rows, nextId, title, genres, fts, column.value, SortDirection(filters));
      var rs := ResultSet(sel, offset, limit);
      var totalRecords;
      games, totalRecords := ScanRows(rs);
      metadata := CalculateMetadata(totalRecords, filters.page, filters.pageSize);
      return games, metadata, None;
    }
  }

  /**
    The `rows.Next()` loop of `GetAll`: one fresh game per row of the
    result set, and `totalRecords` overwritten by each row's count column.
   */
  method ScanRows(rs: seq<(nat, Row)>) returns (games: seq<Game>, totalRecords: nat)
    ensures |games| == |rs|
    ensures forall i :: 0 <= i < |games| ==> fresh(games[i]) && RowOf(games[i]) == rs[i].1
    ensures forall i, j :: 0 <= i < j < |games| ==> games[i] != games[j]
    ensures totalRecords == if |rs| == 0 then 0 else rs[|rs| - 1].0
  {
    totalRecords := 0;
    games := [];
    var i := 0;
    while i < |rs|
      invariant 0 <= i <= |rs|
      invariant |games| == i
      invariant forall k :: 0 <= k < i ==> fresh(games[k]) && RowOf(games[k]) == rs[k].1
      invariant forall k, l :: 0 <= k < l < i ==> games[k] != games[l]
      invariant totalRecords == if i == 0 then 0 else rs[i - 1].0
    {
      var row := rs[i].1;
      totalRecords := rs[i].0;
      var game := new Game.Scanned(row.id, row.createdAt, row.title, row.score, row.games, row.version);
      games := games + [game];
      i := i + 1;
    }
  }

  /**
    Two clients read the same game and each tries to save a change. The
    first save wins; the second gets `ErrEditConflict` and leaves the first
    client's row in place; after re-reading, the second client's save goes
    through with the next version.
   */
  method TwoWriters(store: GameModel, id: int, title1: string, title2: string)
    returns (first: Option<StoreError>, second: Option<StoreError>, retry: Option<StoreError>)
    requires store.Valid()
    requires Lookup(store.rows, id).Ok? && store.rows[id].version < MaxInt32 - 1
    modifies store
    ensures store.Valid()
    ensures first == None && second == Some(ErrEditConflict) && retry == None
    ensures Lookup(store.rows, id).Ok?
    ensures store.rows[id].title == title2 && store.rows[id].version == old(store.rows[id].version) + 2
  {
    var a, _ := store.Get(id, false);
    var b, _ := store.Get(id, false);
    a.title := title1;
    b.title := title2;
    first := store.Update(a, false);
    second := store.Update(b, false);
    var c, _ := store.Get(id, false);
    c.title := title2;
    retry := store.Update(c, false);
  }
}
