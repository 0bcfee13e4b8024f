/**
  The five game handlers, each as one step-by-step method over the store
  that returns the response it would write. Routing, the JSON envelope,
  logging and response writing are not part of this model.
 */
module Handlers {
  import opened Wrappers
  import opened Decimal
  import opened ScoreCodec
  import opened Validator
  import opened Filters
  import opened Games
  import opened GameTable
  import opened GameQuery
  import opened GameStore

  /** What a successful response carries in its envelope. */
  datatype Body =
    | GameBody(game: Game)
    | ListBody(games: seq<Game>, metadata: Metadata)
    | MessageBody(message: string)

  /** The response a handler writes. */
  datatype Outcome =
    | Created(location: string, body: Body)
    | Ok(body: Body)
    | NotFound
    | Conflict
    | ValidationFailed(errors: map<string, string>)
    | BadRequest
    | ServerError

  /**
    The create request's `input` struct after `readJSON`: the title, the raw
    JSON text of the `score` value when that key was sent, and the genre list
    (`None` when absent or `null`). `readJSON` itself is not part of this
    model; a body it refuses for any reason other than the score is `None`.
   */
  datatype CreateInput = CreateInput(title: string, score: Option<string>, games: Option<seq<string>>)

  /** The update request's `input` struct: each field `None` when absent (or `null`). */
  datatype UpdateInput = UpdateInput(title: Option<string>, score: Option<string>, games: Option<seq<string>>)

  /**
    Another request's write that lands between this handler's read and its
    write: an update of the same row from the same version, or its deletion.
   */
  datatype Interference =
    | NoInterference
    | ConcurrentUpdate(title: string, score: Score, games: Option<seq<string>>)
    | ConcurrentDelete

  const DeletedMessage: string := "game successfully deleted"

  /** The `Location` header of a created game. */
  function GameLocation(id: int): (location: string)
    ensures |location| > 10 && location[..10] == "/v1/games/" && location[10..] == Format(id)
  {
    "/v1/games/" + Format(id)
  }

  /**
    The create handler's score: a non-pointer `Score` keeps its zero value
    when the key is absent; a present value, `null` included, goes through
    `UnmarshalJSON`.
   */
  function CreateScore(raw: Option<string>): (r: Result<Score, CodecError>)
    ensures raw.None? ==> r == Result.Ok(0)
    ensures raw == Some("null") ==> r.Err?
    ensures forall x: Score :: raw == Some(MarshalJSON(x)) ==> r == Result.Ok(x)
  {
    DecodeEveryMarshal();
    match raw
    case None => Result.Ok(0)
    case Some(json) => Decode(json)
  }

  /** The update handler's `*Score`: absent and `null` leave the pointer nil; anything else is decoded. */
  function UpdateScore(raw: Option<string>): (r: Result<Option<Score>, CodecError>)
    ensures raw.None? || raw == Some("null") ==> r == Result.Ok(None)
    ensures r.Ok? && r.value.Some? ==> raw.Some? && Decode(raw.value) == Result.Ok(r.value.value)
    ensures r.Err? ==> raw.Some? && Decode(raw.value).Err?
    ensures forall x: Score :: raw == Some(MarshalJSON(x)) ==> r == Result.Ok(Some(x))
  {
    DecodeEveryMarshal();
    match raw
    case None => Result.Ok(None)
    case Some(json) =>
      if json == "null" then Result.Ok(None)
      else match Decode(json)
        case Ok(s) => Result.Ok(Some(s))
        case Err(e) => Err(e)
  }

  /** The stored row after the partial update: each present field (a non-nil pointer or slice) replaces the stored one. */
  function Merged(row: Row, title: Option<string>, score: Option<Score>, games: Option<seq<string>>): (m: Row)
    ensures m.id == row.id && m.createdAt == row.createdAt && m.version == row.version
    ensures (title.None? ==> m.title == row.title) && (title.Some? ==> m.title == title.value)
    ensures (score.None? ==> m.score == row.score) && (score.Some? ==> m.score == score.value)
    ensures (games.None? ==> m.games == row.games) && (games.Some? ==> m.games == games)
  {
    row.(title := title.GetOr(row.title), score := score.GetOr(row.score),
         games := if games.Some? then games else row.games)
  }

  // ---- createGameHandler ----

  /**
    Create: build the game from title, score and genres only, validate it,
    insert it, and answer 201 with its location. The store changes only on
    the 201 path.
   */
  method CreateGameHandler(store: GameModel, body: Option<CreateInput>, now: Timestamp, failure: bool)
    returns (outcome: Outcome)
    requires store.Valid()
    modifies store
    ensures store.Valid()
    ensures outcome.Created? <==>
      && body.Some? && CreateScore(body.value.score).Ok?
      && ValidGame(body.value.title, CreateScore(body.value.score).value, body.value.games)
      && !failure && old(store.nextId) <= MaxInt64
    ensures !outcome.Created? ==> store.rows == old(store.rows) && store.nextId == old(store.nextId)
    ensures outcome.Created? ==> store.nextId == old(store.nextId) + 1
    ensures body.None? || CreateScore(body.value.score).Err? ==> outcome == BadRequest
    ensures body.Some? && CreateScore(body.value.score).Ok? ==>
      var input := body.value;
      var score := CreateScore(input.score).value;
      var errors := GameErrors(map[], input.title, score, input.games);
      && (errors != map[] ==> outcome == ValidationFailed(errors))
      && (errors == map[] && (failure || old(store.nextId) > MaxInt64) ==> outcome == ServerError)
      && (outcome.Created? ==>
            && outcome.location == GameLocation(old(store.nextId))
            && outcome.body.GameBody?
            && RowOf(outcome.body.game) == Row(old(store.nextId), now, input.title, score, input.games, 1)
            && store.rows == Inserted(old(store.rows), old(store.nextId), now, input.title, score, input.games))
  {
    if body.None? {
      return BadRequest;
    }
    var input := body.value;
    var score := new ScoreVar(0);
    if input.score.Some? {
      var err := score.UnmarshalJSON(input.score.value);
      if err.Some? {
        return BadRequest;
      }
    }
    var game := new Game(input.title, score.value, input.games);
    var errors := CheckGame(game);
    GameErrorsKeys(game.title, game.score, game.games);
    if errors != map[] {
      return ValidationFailed(errors);
    }
    var err := store.Insert(game, now, failure);
    if err.Some? {
      return ServerError;
    }
    return Created(GameLocation(game.id), GameBody(game));
  }

  /** The status line and `Location` header a client receives. */
  datatype Response = Response(status: int, location: Option<string>)

  /** The response each outcome is meant to produce. */
  function Intended(o: Outcome): (r: Response)
    ensures r.location.Some? <==> o.Created?
    ensures o.Created? ==> r == Response(201, Some(o.location))
    ensures r.status == 200 <==> o.Ok?
    ensures r.status == 500 <==> o == ServerError
  {
    match o
    case Created(location, _) => Response(201, Some(location))
    case Ok(_) => Response(200, None)
    case NotFound => Response(404, None)
    case Conflict => Response(409, None)
    case ValidationFailed(_) => Response(422, None)
    case BadRequest => Response(400, None)
    case ServerError => Response(500, None)
  }

  /**
    What create answers as written. Once validation has passed, the debug
    print of the input is the first write to the response, which commits
    status 200 with no `Location` header; the 201, its header and any later
    error status are then dropped. The earlier answers are unaffected.
   */
  function CreateResponseAsWritten(o: Outcome): (r: Response)
    ensures o.Created? || o == ServerError ==> r == Response(200, None)
    ensures o.BadRequest? || o.ValidationFailed? ==> r == Intended(o)
  {
    if o.Created? || o == ServerError then Response(200, None) else Intended(o)
  }

  /** As written, a successful create answers 200 without the location, where 201 with it is meant. */
  lemma CreatedAnswersOkAsWritten(o: Outcome)
    requires o.Created?
    ensures CreateResponseAsWritten(o) != Intended(o)
    ensures CreateResponseAsWritten(o).status == 200 && CreateResponseAsWritten(o).location == None
    ensures Intended(o) == Response(201, Some(o.location))
  {
  }

  /** As written, a failed insert also answers 200, where 500 is meant. */
  lemma FailedInsertAnswersOkAsWritten()
    ensures CreateResponseAsWritten(ServerError).status == 200
    ensures Intended(ServerError).status == 500
  {
  }

  // ---- showGameHandler ----

  /** Show: the stored game, 404 for a bad or unknown id, 500 for any other error. */
  method ShowGameHandler(store: GameModel, id: Option<int>, failure: bool) returns (outcome: Outcome)
    requires store.Valid()
    ensures id.None? ==> outcome == NotFound
    ensures id.Some? && id.value >= 1 && failure ==> outcome == ServerError
    ensures id.Some? && (id.value < 1 || !failure) ==>
      match Lookup(store.rows, id.value)
      case Ok(row) => outcome.Ok? && outcome.body.GameBody? && RowOf(outcome.body.game) == row
      case Err(_) => outcome == NotFound
  {
    if id.None? {
      return NotFound;
    }
    var game, err := store.Get(id.value, failure);
    if err.Some? {
      return if err.value == ErrRecordNotFound then NotFound else ServerError;
    }
    return Outcome.Ok(GameBody(game));
  }

  // ---- updateGameHandler ----

  /**
    Update: read the game, merge the fields the client sent, validate, and
    write it back conditionally on the version that was read.
   */
  method UpdateGameHandler(store: GameModel, id: Option<int>, body: Option<UpdateInput>,
                           interference: Interference, readFailure: bool, writeFailure: bool)
    returns (outcome: Outcome)
    requires store.Valid()
    modifies store
    ensures store.Valid() && store.nextId == old(store.nextId)
    ensures id.None? ==> outcome == NotFound && store.rows == old(store.rows)
    ensures id.Some? && id.value >= 1 && readFailure ==> outcome == ServerError && store.rows == old(store.rows)
    ensures id.Some? && (id.value < 1 || !readFailure) && Lookup(old(store.rows), id.value).Err? ==>
      outcome == NotFound && store.rows == old(store.rows)
    ensures id.Some? && !readFailure && Lookup(old(store.rows), id.value).Ok? ==>
      var row := Lookup(old(store.rows), id.value).value;
      && (body.None? || UpdateScore(body.value.score).Err? ==>
            outcome == BadRequest && store.rows == old(store.rows))
      && (body.Some? && UpdateScore(body.value.score).Ok? ==>
            var input := body.value;
            var merged := Merged(row, input.title, UpdateScore(input.score).value, input.games);
            var errors := GameErrors(map[], merged.title, merged.score, merged.games);
            var written := merged.(version := row.version + 1);
            var clean := !writeFailure && interference == NoInterference && row.version < MaxInt32;
            && (errors != map[] ==> outcome == ValidationFailed(errors) && store.rows == old(store.rows))
            && (errors == map[] && clean ==>
                  && outcome.Ok? && outcome.body.GameBody? && RowOf(outcome.body.game) == written
                  && store.rows == old(store.rows)[row.id := written])
            && (errors == map[] && !clean ==> store.rows == Interfered(old(store.rows), row, interference))
            && (errors == map[] && writeFailure ==> outcome == ServerError)
            && (errors == map[] && !writeFailure && interference == NoInterference && row.version >= MaxInt32 ==>
                  outcome == ServerError)
            && (errors == map[] && !writeFailure && interference != NoInterference ==>
                  outcome == if row.version < MaxInt32 || interference.ConcurrentDelete? then Conflict else ServerError))
  {
    if id.None? {
      return NotFound;
    }
    var game, err := store.Get(id.value, readFailure);
    if err.Some? {
      return if err.value == ErrRecordNotFound then NotFound else ServerError;
    }
    if body.None? {
      return BadRequest;
    }
    var input := body.value;
    var score := ReadUpdateScore(input.score);
    if score.Err? {
      return BadRequest;
    }
    MergeInto(game, input.title, score.value, input.games);
    outcome := ValidateAndSave(store, game, interference, writeFailure);
  }

  /** Decoding the update's `*Score` field. */
  method ReadUpdateScore(raw: Option<string>) returns (score: Result<Option<Score>, CodecError>)
    ensures score == UpdateScore(raw)
  {
    if raw.None? || raw.value == "null" {
      return Result.Ok(None);
    }
    var decoded := new ScoreVar(0);
    var err := decoded.UnmarshalJSON(raw.value);
    if err.Some? {
      return Err(err.value);
    }
    return Result.Ok(Some(decoded.value));
  }

  /** Copies each present field into the game that was read. */
  method MergeInto(game: Game, title: Option<string>, score: Option<Score>, games: Option<seq<string>>)
    modifies game
    ensures RowOf(game) == Merged(old(RowOf(game)), title, score, games)
    ensures game.description == old(game.description)
  {
    if title.Some? {
      game.title := title.value;
    }
    if score.Some? {
      game.score := score.value;
    }
    if games.Some? {
      game.games := games;
    }
  }

  /**
    Validates the merged game and, when it passes, writes it back on the
    condition that the row still has the version that was read.
   */
  method ValidateAndSave(store: GameModel, game: Game, interference: Interference, writeFailure: bool)
    returns (outcome: Outcome)
    requires store.Valid() && Lookup(store.rows, game.id).Ok?
    requires store.rows[game.id].version == game.version && store.rows[game.id].createdAt == game.createdAt
    modifies store, game
    ensures store.Valid() && store.nextId == old(store.nextId)
    ensures var merged := old(RowOf(game));
      var errors := GameErrors(map[], merged.title, merged.score, merged.games);
      && (errors != map[] ==> outcome == ValidationFailed(errors) && store.rows == old(store.rows))
      && (errors == map[] ==>
            var written := merged.(version := merged.version + 1);
            var clean := !writeFailure && interference == NoInterference && merged.version < MaxInt32;
            && (clean ==>
                  && outcome.Ok? && outcome.body.GameBody? && RowOf(outcome.body.game) == written
                  && store.rows == old(store.rows)[merged.id := written])
            && (!clean ==> store.rows == Interfered(old(store.rows), old(store.rows[game.id]), interference))
            && (writeFailure ==> outcome == ServerError)
            && (!writeFailure && interference == NoInterference && merged.version >= MaxInt32 ==> outcome == ServerError)
            && (!writeFailure && interference != NoInterference ==>
                  outcome == if merged.version < MaxInt32 || interference.ConcurrentDelete? then Conflict else ServerError))
  {
    var errors := CheckGame(game);
    if errors != map[] {
      return ValidationFailed(errors);
    }
    outcome := Save(store, game, interference, writeFailure);
  }

  /** `ValidateMovie` on a fresh validator: the errors it collects. */
  method CheckGame(game: Game) returns (errors: map<string, string>)
    ensures errors == GameErrors(map[], game.title, game.score, game.games)
  {
    var v := new Validator();
    ValidateGame(v, game);
    return v.errors;
  }

  /** The conditional write, with whatever other write landed since the read. */
  method Save(store: GameModel, game: Game, interference: Interference, writeFailure: bool)
    returns (outcome: Outcome)
    requires store.Valid() && Lookup(store.rows, game.id).Ok?
    requires store.rows[game.id].version == game.version && store.rows[game.id].createdAt == game.createdAt
    modifies store, game
    ensures store.Valid() && store.nextId == old(store.nextId)
    ensures var read := old(RowOf(game));
      var written := read.(version := read.version + 1);
      var clean := !writeFailure && interference == NoInterference && read.version < MaxInt32;
      && (clean ==>
            && outcome.Ok? && outcome.body.GameBody? && RowOf(outcome.body.game) == written
            && store.rows == old(store.rows)[read.id := written])
      && (!clean ==> store.rows == Interfered(old(store.rows), old(store.rows[game.id]), interference))
      && (writeFailure ==> outcome == ServerError)
      && (!writeFailure && interference == NoInterference && read.version >= MaxInt32 ==> outcome == ServerError)
      && (!writeFailure && interference != NoInterference ==>
            outcome == if read.version < MaxInt32 || interference.ConcurrentDelete? then Conflict else ServerError)
  {
    Interfere(store, game.id, interference);
    var err := store.Update(game, writeFailure);
    if err.Some? {
      return if err.value == ErrEditConflict then Conflict else ServerError;
    }
    return Outcome.Ok(GameBody(game));
  }

  /** The table after the other request's write. */
  function Interfered(t: Table, row: Row, interference: Interference): (r: Table)
    ensures interference == NoInterference ==> r == t
    ensures r.Keys <= t.Keys && t.Keys - {row.id} <= r.Keys
    ensures forall k :: k in r && k != row.id ==> r[k] == t[k]
  {
    match interference
    case NoInterference => t
    case ConcurrentUpdate(title, score, games) =>
      var r := CompareAndIncrement(t, row.id, row.version, title, score, games);
      if r.Ok? then r.value else t
    case ConcurrentDelete =>
      var r := Remove(t, row.id);
      if r.Ok? then r.value else t
  }

  /** The other request's write, made through the same store operations. */
  method Interfere(store: GameModel, id: int, interference: Interference)
    requires store.Valid() && Lookup(store.rows, id).Ok?
    modifies store
    ensures store.Valid() && store.nextId == old(store.nextId)
    ensures store.rows == Interfered(old(store.rows), old(store.rows)[id], interference)
    ensures interference != NoInterference && old(store.rows)[id].version < MaxInt32 ==>
      id !in store.rows || store.rows[id].version != old(store.rows)[id].version
  {
    if interference.ConcurrentUpdate? {
      var row := store.rows[id];
      var other := new Game.Scanned(row.id, row.createdAt, interference.title, interference.score,
                                    interference.games, row.version);
      var _ := store.Update(other, false);
    } else if interference.ConcurrentDelete? {
      var _ := store.Delete(id, false);
    }
  }

  // ---- deleteGameHandler ----

  /** Delete: removes the row and confirms; 404 for a bad or unknown id, 500 for any other error. */
  method DeleteGameHandler(store: GameModel, id: Option<int>, failure: bool) returns (outcome: Outcome)
    requires store.Valid()
    modifies store
    ensures store.Valid() && store.nextId == old(store.nextId)
    ensures id.None? ==> outcome == NotFound && store.rows == old(store.rows)
    ensures id.Some? && id.value >= 1 && failure ==> outcome == ServerError && store.rows == old(store.rows)
    ensures id.Some? && (id.value < 1 || !failure) ==>
      match Remove(old(store.rows), id.value)
      case Ok(t) => outcome == Outcome.Ok(MessageBody(DeletedMessage)) && store.rows == t
      case Err(_) => outcome == NotFound && store.rows == old(store.rows)
  {
    if id.None? {
      return NotFound;
    }
    var err := store.Delete(id.value, failure);
    if err.Some? {
      return if err.value == ErrRecordNotFound then NotFound else ServerError;
    }
    return Outcome.Ok(MessageBody(DeletedMessage));
  }

  // ---- listGamesHandler ----

  /** The query string: the first value of each parameter that was sent. */
  type Query = map<string, string>

  /** `qs.Get(key)`: the empty string for a missing key. */
  function QueryGet(q: Query, key: string): string {
    if key in q then q[key] else ""
  }

  /** `readString`: the value, or the default when it is missing or empty. */
  function ReadString(q: Query, key: string, default: string): (s: string)
    ensures s == default || (key in q && s == q[key] && s != "")
  {
    var s := QueryGet(q, key);
    if s == "" then default else s
  }

  /** `readCSV`: the comma-separated values, or the default when missing or empty. */
  function ReadCSV(q: Query, key: string, default: seq<string>): (values: seq<string>)
    ensures QueryGet(q, key) == "" ==> values == default
    ensures QueryGet(q, key) != "" ==> |values| >= 1 && Join(values, ',') == q[key]
  {
    var csv := QueryGet(q, key);
    if csv == "" then default
    else
      SplitJoin(csv, ',');
      Split(csv, ',')
  }

  /** `readInt`'s value: the parsed integer, or the default when missing, empty or malformed. */
  function IntParam(q: Query, key: string, default: int): int {
    var s := QueryGet(q, key);
    if s == "" then default
    else match Atoi(s)
      case None => default
      case Some(i) => i
  }

  /** `readInt`'s report: "must be an integer value" when the text is not an integer. */
  function IntParamErrors(errors: map<string, string>, q: Query, key: string): map<string, string> {
    var s := QueryGet(q, key);
    Checked(errors, s == "" || Atoi(s).Some?, key, "must be an integer value")
  }

  /** `readInt(qs, key, default, v)`. */
  method ReadInt(q: Query, key: string, default: int, v: Validator) returns (n: int)
    modifies v
    ensures n == IntParam(q, key, default)
    ensures v.errors == IntParamErrors(old(v.errors), q, key)
  {
    var s := QueryGet(q, key);
    if s == "" {
      return default;
    }
    var i := Atoi(s);
    if i.None? {
      v.AddError(key, "must be an integer value");
      return default;
    }
    return i.value;
  }

  /** The sort keys a client may ask for. */
  const SortSafelist: seq<string> := ["id", "title", "score", "-id", "-title", "-score"]

  /** The filters the list handler builds from the query string. */
  function ListFilters(q: Query): Filters {
    Filters(IntParam(q, "page", 1), IntParam(q, "page_size", 20), ReadString(q, "sort", "id"), SortSafelist)
  }

  /** Everything the list handler reports before it reaches the store. */
  function ListErrors(q: Query): map<string, string> {
    FilterErrors(IntParamErrors(IntParamErrors(map[], q, "page"), q, "page_size"), ListFilters(q))
  }

  /**
    List: read the title, genres, page, page size and sort key with their
    defaults, validate the filters, and only then query the store.
   */
  method ListGamesHandler(store: GameModel, q: Query, fts: (string, string) -> bool, failure: bool)
    returns (outcome: Outcome)
    requires store.Valid()
    ensures ListErrors(q) != map[] ==> outcome == ValidationFailed(ListErrors(q))
    ensures ListErrors(q) == map[] && failure ==> outcome == ServerError
    ensures ListErrors(q) == map[] && !failure ==>
      var f := ListFilters(q);
      var sel := Selected(store.rows, store.nextId, ReadString(q, "title", ""), ReadCSV(q, "games", []),
                          fts, ColumnOf(SortColumn(f)).value, SortDirection(f));
      var page := Window(sel, Offset(f), Limit(f));
      && outcome.Ok? && outcome.body.ListBody?
      && |outcome.body.games| == |page|
      && (forall i :: 0 <= i < |page| ==> RowOf(outcome.body.games[i]) == page[i])
      && outcome.body.metadata == CalculateMetadata(ReportedTotal(sel, Offset(f), Limit(f)), f.page, f.pageSize)
  {
    var v := new Validator();
    var title := ReadString(q, "title", "");
    var genres := ReadCSV(q, "games", []);
    var page := ReadInt(q, "page", 1, v);
    var pageSize := ReadInt(q, "page_size", 20, v);
    var sort := ReadString(q, "sort", "id");
    var filters := Filters(page, pageSize, sort, SortSafelist);
    ValidateFilters(v, filters);
    if !v.Valid() {
      return ValidationFailed(v.errors);
    }
    ValidatedListReachesStore(q);
    var games, metadata, err := store.GetAll(title, genres, filters, fts, failure);
    if err.Some? {
      return ServerError;
    }
    return Outcome.Ok(ListBody(games, metadata));
  }

  // ---- Properties ----

  /** Every safelisted key names a real column, so a validated sort key never fails in the query. */
  lemma SafelistNamesColumns(f: Filters)
    requires f.sortSafelist == SortSafelist && f.sort in SortSafelist
    ensures ColumnOf(SortColumn(f)).Some?
    ensures SortDirection(f) == Desc <==> f.sort in ["-id", "-title", "-score"]
  {
  }

  /** Once the filters pass, page and page size give a non-negative window and the sort key a column. */
  lemma ValidatedListReachesStore(q: Query)
    requires ListErrors(q) == map[]
    ensures var f := ListFilters(q);
      && f.sort in f.sortSafelist
      && ColumnOf(SortColumn(f)).Some?
      && 1 <= Limit(f) <= MaxPageSize && Offset(f) >= 0
  {
    var f := ListFilters(q);
    var pre := IntParamErrors(IntParamErrors(map[], q, "page"), q, "page_size");
    var e := FilterErrors(pre, f);
    assert "page" !in e && "page_size" !in e && "sort" !in e;
    SafelistNamesColumns(f);
  }

  /** An empty query string lists page 1 of 20 by id with no search and no genre filter. */
  lemma ListDefaults()
    ensures ListFilters(map[]) == Filters(1, 20, "id", SortSafelist)
    ensures ReadString(map[], "title", "") == "" && ReadCSV(map[], "games", []) == []
    ensures ListErrors(map[]) == map[]
  {
  }

  /** A page number that is not an integer is reported as such, and the default page is used. */
  lemma MalformedPage(q: Query)
    requires "page" in q && q["page"] != "" && Atoi(q["page"]).None?
    ensures ListErrors(q)["page"] == "must be an integer value"
    ensures ListFilters(q).page == 1
  {
  }

  /** A sort key outside the safelist never reaches the store. */
  lemma UnsafeSortRejected(q: Query)
    requires QueryGet(q, "sort") != "" && QueryGet(q, "sort") !in SortSafelist
    ensures ListErrors(q)["sort"] == "invalid sort value"
  {
  }

  /** A create request without a score stores nothing: the zero score fails validation. */
  lemma CreateWithoutScoreFails(title: string, games: Option<seq<string>>)
    ensures CreateScore(None) == Result.Ok(0)
    ensures GameErrors(map[], title, 0, games)["score"] == "must be provided"
  {
    ScoreErrors(title, 0, games);
  }

  /** On create a `null` score goes to the decoder, which refuses it; on update `null` means absent. */
  lemma NullScore()
    ensures CreateScore(Some("null")).Err?
    ensures UpdateScore(Some("null")) == Result.Ok(None)
  {
  }

  /** An empty genre list sent on update replaces the stored one and fails validation, so no write happens. */
  lemma EmptyGenresBlockUpdate(row: Row, title: Option<string>, score: Option<Score>)
    ensures var m := Merged(row, title, score, Some([]));
      GameErrors(map[], m.title, m.score, m.games)["games"] == "must contain at least 1 genre"
  {
    var m := Merged(row, title, score, Some([]));
    GenresErrors(m.title, m.score, m.games);
  }

  /** Sending nothing leaves the row as read. */
  lemma EmptyMergeKeepsRow(row: Row)
    ensures Merged(row, None, None, None) == row
  {
  }
}
