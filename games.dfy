/** The game record (`Game`) and its validation rules (`ValidateMovie`). */
module Games {
  import opened Wrappers
  import opened ScoreCodec
  import opened Validator

  /** A server-assigned creation time; its value is never inspected. */
  datatype Timestamp = Timestamp(ticks: int)

  /** Go's zero `time.Time`, the value of a game not yet inserted. */
  const ZeroTime: Timestamp := Timestamp(0)

  /** Title limit, in bytes of the UTF-8 encoding. */
  const MaxTitleBytes: nat := 500

  /** Most genres a game may list. */
  const MaxGenres: nat := 5

  /** The game struct, updated in place by the store and the handlers. */
  class Game {
    var id: int
    var createdAt: Timestamp
    var title: string
    var description: string
    /** The genre list (the `Games` field); `None` is a nil slice. */
    var games: Option<seq<string>>
    var score: Score
    var version: int

    /** `&data.Game{Title: ..., Score: ..., Games: ...}`: every other field at its zero value. */
    constructor (title: string, score: Score, games: Option<seq<string>>)
      ensures this.title == title && this.score == score && this.games == games
      ensures id == 0 && createdAt == ZeroTime && description == "" && version == 0
    {
      this.id := 0;
      this.createdAt := ZeroTime;
      this.title := title;
      this.description := "";
      this.games := games;
      this.score := score;
      this.version := 0;
    }

    /** A fresh `var game Game` filled by `Scan` from a table row; the row has no description. */
    constructor Scanned(id: int, createdAt: Timestamp, title: string, score: Score,
                        games: Option<seq<string>>, version: int)
      ensures this.id == id && this.createdAt == createdAt && this.title == title
      ensures this.score == score && this.games == games && this.version == version
      ensures description == ""
    {
      this.id := id;
      this.createdAt := createdAt;
      this.title := title;
      this.description := "";
      this.games := games;
      this.score := score;
      this.version := version;
    }
  }

  /** Bytes of the UTF-8 encoding of one character. */
  function CharBytes(c: char): (n: nat)
    ensures 1 <= n <= 4
  {
    if c as int < 0x80 then 1 else if c as int < 0x800 then 2 else if c as int < 0x1_0000 then 3 else 4
  }

  /** `len(s)` of a Go string: its length in bytes, not characters. */
  function Utf8Length(s: string): (n: nat)
    ensures |s| <= n <= 4 * |s|
  {
    if s == [] then 0 else CharBytes(s[0]) + Utf8Length(s[1..])
  }

  lemma {:induction false} Utf8LengthBounds(s: string)
    ensures |s| <= Utf8Length(s) <= 4 * |s|
    ensures (forall i :: 0 <= i < |s| ==> s[i] as int < 0x80) ==> Utf8Length(s) == |s|
  {
    if s != [] {
      Utf8LengthBounds(s[1..]);
    }
  }

  lemma {:induction false} Utf8LengthRepeat(c: char, n: nat)
    ensures Utf8Length(seq(n, _ => c)) == n * CharBytes(c)
  {
    if n > 0 {
      assert seq(n, _ => c)[1..] == seq(n - 1, _ => c);
      Utf8LengthRepeat(c, n - 1);
    }
  }

  /** The error map after the eight game checks, in their order. */
  function GameErrors(errors: map<string, string>, title: string, score: Score,
                      games: Option<seq<string>>): (r: map<string, string>)
    ensures errors.Keys <= r.Keys <= errors.Keys + {"title", "score", "games"}
  {
    GenresChecked(ScoreChecked(TitleChecked(errors, title), score), games)
  }

  /** The two title checks. */
  function TitleChecked(errors: map<string, string>, title: string): (r: map<string, string>)
    ensures errors.Keys <= r.Keys <= errors.Keys + {"title"}
  {
    var e1 := Checked(errors, title != "", "title", "must be provided");
    Checked(e1, Utf8Length(title) <= MaxTitleBytes, "title", "must not be more than 500 bytes long")
  }

  /** The two score checks. */
  function ScoreChecked(errors: map<string, string>, score: Score): (r: map<string, string>)
    ensures errors.Keys <= r.Keys <= errors.Keys + {"score"}
  {
    var e3 := Checked(errors, score != 0, "score", "must be provided");
    Checked(e3, score > 0, "score", "must be a positive integer")
  }

  /** The four genre checks. */
  function GenresChecked(errors: map<string, string>, games: Option<seq<string>>): (r: map<string, string>)
    ensures errors.Keys <= r.Keys <= errors.Keys + {"games"}
  {
    var count := if games.Some? then |games.value| else 0;
    var e5 := Checked(errors, games.Some?, "games", "must be provided");
    var e6 := Checked(e5, count >= 1, "games", "must contain at least 1 genre");
    var e7 := Checked(e6, count <= MaxGenres, "games", "must not contain more than 5 genres");
    Checked(e7, Unique(games.GetOr([])), "games", "must not contain duplicate values")
  }

  /** `ValidateMovie(v, game)`: the eight checks, each keyed by its field. */
  method ValidateGame(v: Validator, game: Game)
    modifies v
    ensures v.errors == GameErrors(old(v.errors), game.title, game.score, game.games)
  {
    var count := if game.games.Some? then |game.games.value| else 0;
    v.Check(game.title != "", "title", "must be provided");
    v.Check(Utf8Length(game.title) <= MaxTitleBytes, "title", "must not be more than 500 bytes long");
    v.Check(game.score != 0, "score", "must be provided");
    v.Check(game.score > 0, "score", "must be a positive integer");
    v.Check(game.games.Some?, "games", "must be provided");
    v.Check(count >= 1, "games", "must contain at least 1 genre");
    v.Check(count <= MaxGenres, "games", "must not contain more than 5 genres");
    v.Check(Unique(game.games.GetOr([])), "games", "must not contain duplicate values");
  }

  predicate TitleOk(title: string) { title != "" && Utf8Length(title) <= MaxTitleBytes }

  predicate GenresOk(games: Option<seq<string>>) {
    games.Some? && 1 <= |games.value| <= MaxGenres && Unique(games.value)
  }

  /** A game that passes every check. */
  predicate ValidGame(title: string, score: Score, games: Option<seq<string>>) {
    TitleOk(title) && score > 0 && GenresOk(games)
  }

  /** Only the three fields are ever keyed, and a fresh validator stays empty exactly for a valid game. */
  lemma GameErrorsKeys(title: string, score: Score, games: Option<seq<string>>)
    ensures GameErrors(map[], title, score, games).Keys <= {"title", "score", "games"}
    ensures GameErrors(map[], title, score, games) == map[] <==> ValidGame(title, score, games)
  {
    var e := GameErrors(map[], title, score, games);
    if !ValidGame(title, score, games) {
      assert "title" in e || "score" in e || "games" in e;
    }
  }

  /** The title is reported when empty or over 500 bytes, with the first failing rule's message. */
  lemma TitleErrors(title: string, score: Score, games: Option<seq<string>>)
    ensures var e := GameErrors(map[], title, score, games);
      && ("title" in e <==> !TitleOk(title))
      && (title == "" ==> e["title"] == "must be provided")
      && (title != "" && Utf8Length(title) > MaxTitleBytes ==>
            e["title"] == "must not be more than 500 bytes long")
  {
  }

  /** Zero reports "must be provided"; a negative score "must be a positive integer". */
  lemma ScoreErrors(title: string, score: Score, games: Option<seq<string>>)
    ensures var e := GameErrors(map[], title, score, games);
      && ("score" in e <==> score <= 0)
      && (score == 0 ==> e["score"] == "must be provided")
      && (score < 0 ==> e["score"] == "must be a positive integer")
  {
  }

  /** A nil, empty, over-long or repeating genre list gets one message: the first failing rule's. */
  lemma GenresErrors(title: string, score: Score, games: Option<seq<string>>)
    ensures var e := GameErrors(map[], title, score, games);
      && ("games" in e <==> !GenresOk(games))
      && (games.None? ==> e["games"] == "must be provided")
      && (games == Some([]) ==> e["games"] == "must contain at least 1 genre")
      && (games.Some? && |games.value| > MaxGenres ==> e["games"] == "must not contain more than 5 genres")
      && (games.Some? && 1 <= |games.value| <= MaxGenres && !Unique(games.value) ==>
            e["games"] == "must not contain duplicate values")
  {
  }

  /** The limit counts bytes: 250 copies of 'é' fit, 251 do not, though both are well under 500 characters. */
  lemma TitleLimitCountsBytes()
    ensures TitleOk(seq(250, _ => 'é'))
    ensures !TitleOk(seq(251, _ => 'é'))
    ensures TitleOk(seq(500, _ => 'a')) && !TitleOk(seq(501, _ => 'a'))
  {
    Utf8LengthRepeat('é', 250);
    Utf8LengthRepeat('é', 251);
    Utf8LengthRepeat('a', 500);
    Utf8LengthRepeat('a', 501);
  }
}
