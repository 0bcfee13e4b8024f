/**
  What the `GetAll` query selects: the search and genre filters, the
  `ORDER BY <column> <direction>, id ASC` order, the `LIMIT`/`OFFSET` window
  and the `count(*) OVER()` column that rides on every returned row.
 */
module GameQuery {
  import opened Wrappers
  import opened ScoreCodec
  import opened Filters
  import opened GameTable

  /** The columns of the `games` table that a sort key may name. */
  datatype Column = IdColumn | CreatedAtColumn | TitleColumn | ScoreColumn | GamesColumn | VersionColumn

  /**
    The column a sort key names. The six columns the queries read are
    known; any other name is taken to be refused by the database.
   */
  function ColumnOf(name: string): (c: Option<Column>)
    ensures c.Some? <==> name in ["id", "created_at", "title", "score", "games", "version"]
    ensures c == Some(IdColumn) <==> name == "id"
    ensures c == Some(TitleColumn) <==> name == "title"
    ensures c == Some(ScoreColumn) <==> name == "score"
  {
    if name == "id" then Some(IdColumn)
    else if name == "created_at" then Some(CreatedAtColumn)
    else if name == "title" then Some(TitleColumn)
    else if name == "score" then Some(ScoreColumn)
    else if name == "games" then Some(GamesColumn)
    else if name == "version" then Some(VersionColumn)
    else None
  }

  // ---- Ordering ----

  /** Text order, character by character: a proper prefix comes first. */
  predicate LexLess(a: string, b: string)
    decreases |a|
  {
    |b| > 0 && (|a| == 0 || a[0] < b[0] || (a[0] == b[0] && LexLess(a[1..], b[1..])))
  }

  lemma {:induction false} LexIrreflexive(a: string)
    ensures !LexLess(a, a)
    decreases |a|
  {
    if |a| > 0 {
      LexIrreflexive(a[1..]);
    }
  }

  lemma {:induction false} LexTransitive(a: string, b: string, c: string)
    requires LexLess(a, b) && LexLess(b, c)
    ensures LexLess(a, c)
    decreases |a|
  {
    if |a| > 0 && a[0] == b[0] && b[0] == c[0] {
      LexTransitive(a[1..], b[1..], c[1..]);
    }
  }

  lemma {:induction false} LexTotal(a: string, b: string)
    requires a != b
    ensures LexLess(a, b) || LexLess(b, a)
    decreases |a|
  {
    if |a| > 0 && |b| > 0 && a[0] == b[0] {
      assert a == [a[0]] + a[1..] && b == [b[0]] + b[1..];
      LexTotal(a[1..], b[1..]);
    }
  }

  /** Array order on genre lists: element by element in text order, and a proper prefix comes first. */
  predicate ListLess(a: seq<string>, b: seq<string>)
    decreases |a|
  {
    |b| > 0 && (|a| == 0 || LexLess(a[0], b[0]) || (a[0] == b[0] && ListLess(a[1..], b[1..])))
  }

  lemma {:induction false} ListIrreflexive(a: seq<string>)
    ensures !ListLess(a, a)
    decreases |a|
  {
    if |a| > 0 {
      LexIrreflexive(a[0]);
      ListIrreflexive(a[1..]);
    }
  }

  lemma {:induction false} ListTransitive(a: seq<string>, b: seq<string>, c: seq<string>)
    requires ListLess(a, b) && ListLess(b, c)
    ensures ListLess(a, c)
    decreases |a|
  {
    if |a| > 0 {
      if LexLess(a[0], b[0]) && LexLess(b[0], c[0]) {
        LexTransitive(a[0], b[0], c[0]);
      } else if a[0] == b[0] && b[0] == c[0] {
        ListTransitive(a[1..], b[1..], c[1..]);
      }
    }
  }

  lemma {:induction false} ListTotal(a: seq<string>, b: seq<string>)
    requires a != b
    ensures ListLess(a, b) || ListLess(b, a)
    decreases |a|
  {
    if |a| > 0 && |b| > 0 {
      if a[0] == b[0] {
        assert a == [a[0]] + a[1..] && b == [b[0]] + b[1..];
        ListTotal(a[1..], b[1..]);
      } else {
        LexTotal(a[0], b[0]);
      }
    }
  }

  /** The `games` column's order: lists in array order, and `NULL` (a nil list) above every list. */
  predicate GenresLess(a: Option<seq<string>>, b: Option<seq<string>>) {
    a.Some? && (b.None? || ListLess(a.value, b.value))
  }

  lemma GenresTrichotomy(a: Option<seq<string>>, b: Option<seq<string>>)
    ensures GenresLess(a, b) || a == b || GenresLess(b, a)
    ensures !GenresLess(a, a)
    ensures !(GenresLess(a, b) && GenresLess(b, a))
  {
    if a.Some? {
      ListIrreflexive(a.value);
      if b.Some? {
        if a.value != b.value { ListTotal(a.value, b.value); }
        if ListLess(a.value, b.value) && ListLess(b.value, a.value) {
          ListTransitive(a.value, b.value, a.value);
        }
      }
    }
  }

  lemma GenresTransitive(a: Option<seq<string>>, b: Option<seq<string>>, c: Option<seq<string>>)
    requires GenresLess(a, b) && GenresLess(b, c)
    ensures GenresLess(a, c)
  {
    if c.Some? { ListTransitive(a.value, b.value, c.value); }
  }

  /** The sort key of `a` is below the sort key of `b`. */
  predicate KeyLess(a: Row, b: Row, col: Column) {
    match col
    case IdColumn => a.id < b.id
    case CreatedAtColumn => a.createdAt.ticks < b.createdAt.ticks
    case TitleColumn => LexLess(a.title, b.title)
    case ScoreColumn => a.score < b.score
    case GamesColumn => GenresLess(a.games, b.games)
    case VersionColumn => a.version < b.version
  }

  predicate KeyEqual(a: Row, b: Row, col: Column) {
    match col
    case IdColumn => a.id == b.id
    case CreatedAtColumn => a.createdAt.ticks == b.createdAt.ticks
    case TitleColumn => a.title == b.title
    case ScoreColumn => a.score == b.score
    case GamesColumn => a.games == b.games
    case VersionColumn => a.version == b.version
  }

  /** `ORDER BY <col> <dir>, id ASC`: `a` is listed before `b`. */
  predicate Precedes(a: Row, b: Row, col: Column, dir: Direction) {
    || (if dir == Asc then KeyLess(a, b, col) else KeyLess(b, a, col))
    || (KeyEqual(a, b, col) && a.id < b.id)
  }

  /** Exactly one of below, equal and above holds for any two keys. */
  lemma KeyTrichotomy(a: Row, b: Row, col: Column)
    ensures KeyLess(a, b, col) || KeyEqual(a, b, col) || KeyLess(b, a, col)
    ensures !(KeyLess(a, b, col) && KeyEqual(a, b, col))
    ensures !(KeyLess(b, a, col) && KeyEqual(a, b, col))
    ensures !(KeyLess(a, b, col) && KeyLess(b, a, col))
  {
    if col == TitleColumn {
      if a.title != b.title { LexTotal(a.title, b.title); }
      LexIrreflexive(a.title);
      if LexLess(a.title, b.title) && LexLess(b.title, a.title) {
        LexTransitive(a.title, b.title, a.title);
      }
    } else if col == GamesColumn {
      GenresTrichotomy(a.games, b.games);
    }
  }

  lemma KeyTransitive(a: Row, b: Row, c: Row, col: Column)
    requires KeyLess(a, b, col) && KeyLess(b, c, col)
    ensures KeyLess(a, c, col)
  {
    if col == TitleColumn { LexTransitive(a.title, b.title, c.title); }
    else if col == GamesColumn { GenresTransitive(a.games, b.games, c.games); }
  }

  lemma PrecedesIrreflexive(a: Row, col: Column, dir: Direction)
    ensures !Precedes(a, a, col, dir)
  {
    KeyTrichotomy(a, a, col);
  }

  lemma PrecedesTransitive(a: Row, b: Row, c: Row, col: Column, dir: Direction)
    requires Precedes(a, b, col, dir) && Precedes(b, c, col, dir)
    ensures Precedes(a, c, col, dir)
  {
    KeyTrichotomy(a, b, col);
    KeyTrichotomy(b, c, col);
    KeyTrichotomy(a, c, col);
    if dir == Asc {
      if KeyLess(a, b, col) && KeyLess(b, c, col) { KeyTransitive(a, b, c, col); }
    } else {
      if KeyLess(b, a, col) && KeyLess(c, b, col) { KeyTransitive(c, b, a, col); }
    }
  }

  /** The id tie-break makes the order total on rows with different ids. */
  lemma PrecedesTotal(a: Row, b: Row, col: Column, dir: Direction)
    requires a.id != b.id
    ensures Precedes(a, b, col, dir) || Precedes(b, a, col, dir)
  {
    KeyTrichotomy(a, b, col);
  }

  // ---- Sorting ----

  /** Every row precedes every later one. */
  predicate Ordered(s: seq<Row>, col: Column, dir: Direction) {
    forall i, j :: 0 <= i < j < |s| ==> Precedes(s[i], s[j], col, dir)
  }

  predicate DistinctIds(s: seq<Row>) {
    forall i, j :: 0 <= i < j < |s| ==> s[i].id != s[j].id
  }

  function InsertSorted(r: Row, s: seq<Row>, col: Column, dir: Direction): (out: seq<Row>)
    ensures |out| == |s| + 1
  {
    if s == [] then [r]
    else if Precedes(s[0], r, col, dir) then [s[0]] + InsertSorted(r, s[1..], col, dir)
    else [r] + s
  }

  /** The database's sort, as an insertion sort. */
  function Sort(s: seq<Row>, col: Column, dir: Direction): (sorted: seq<Row>)
    ensures |sorted| == |s|
  {
    if s == [] then [] else InsertSorted(s[0], Sort(s[1..], col, dir), col, dir)
  }

  lemma {:induction false} InsertSortedPermutes(r: Row, s: seq<Row>, col: Column, dir: Direction)
    ensures multiset(InsertSorted(r, s, col, dir)) == multiset(s) + multiset{r}
  {
    if s != [] && Precedes(s[0], r, col, dir) {
      InsertSortedPermutes(r, s[1..], col, dir);
      assert s == [s[0]] + s[1..];
    }
  }

  /** In an ordered sequence the first row precedes every later one. */
  lemma HeadPrecedesTail(s: seq<Row>, col: Column, dir: Direction)
    requires Ordered(s, col, dir) && |s| > 0
    ensures forall y :: y in s[1..] ==> Precedes(s[0], y, col, dir)
  {
    forall y | y in s[1..] ensures Precedes(s[0], y, col, dir) {
      var k :| 0 <= k < |s[1..]| && s[1..][k] == y;
      assert y == s[k + 1];
    }
  }

  /** Putting a row in front of an ordered sequence keeps it ordered when it precedes all of it. */
  lemma ConsOrdered(x: Row, s: seq<Row>, col: Column, dir: Direction)
    requires Ordered(s, col, dir)
    requires forall y :: y in s ==> Precedes(x, y, col, dir)
    ensures Ordered([x] + s, col, dir)
  {
    var out := [x] + s;
    forall i, j | 0 <= i < j < |out| ensures Precedes(out[i], out[j], col, dir) {
      assert out[j] == s[j - 1];
      if i > 0 { assert out[i] == s[i - 1]; }
    }
  }

  lemma TailOrdered(s: seq<Row>, col: Column, dir: Direction)
    requires Ordered(s, col, dir) && |s| > 0
    ensures Ordered(s[1..], col, dir)
  {
    var t := s[1..];
    forall i, j | 0 <= i < j < |t| ensures Precedes(t[i], t[j], col, dir) {
      assert t[i] == s[i + 1] && t[j] == s[j + 1];
    }
  }

  lemma {:induction false} InsertSortedOrdered(r: Row, s: seq<Row>, col: Column, dir: Direction)
    requires Ordered(s, col, dir)
    requires forall x :: x in s ==> x.id != r.id
    ensures Ordered(InsertSorted(r, s, col, dir), col, dir)
  {
    if s == [] {
    } else if Precedes(s[0], r, col, dir) {
      var tail := InsertSorted(r, s[1..], col, dir);
      TailOrdered(s, col, dir);
      InsertSortedOrdered(r, s[1..], col, dir);
      InsertSortedPermutes(r, s[1..], col, dir);
      HeadPrecedesTail(s, col, dir);
      forall y | y in tail ensures Precedes(s[0], y, col, dir) {
        assert y in multiset(s[1..]) + multiset{r};
      }
      ConsOrdered(s[0], tail, col, dir);
    } else {
      PrecedesTotal(r, s[0], col, dir);
      HeadPrecedesTail(s, col, dir);
      forall y | y in s ensures Precedes(r, y, col, dir) {
        if y != s[0] {
          assert y in s[1..] by { assert s == [s[0]] + s[1..]; }
          PrecedesTransitive(r, s[0], y, col, dir);
        }
      }
      ConsOrdered(r, s, col, dir);
    }
  }

  lemma {:induction false} SortPermutes(s: seq<Row>, col: Column, dir: Direction)
    ensures multiset(Sort(s, col, dir)) == multiset(s)
  {
    if s != [] {
      SortPermutes(s[1..], col, dir);
      InsertSortedPermutes(s[0], Sort(s[1..], col, dir), col, dir);
      assert s == [s[0]] + s[1..];
    }
  }

  lemma {:induction false} SortOrdered(s: seq<Row>, col: Column, dir: Direction)
    requires DistinctIds(s)
    ensures Ordered(Sort(s, col, dir), col, dir)
  {
    if s != [] {
      var rest := Sort(s[1..], col, dir);
      TailDistinct(s);
      SortOrdered(s[1..], col, dir);
      SortPermutes(s[1..], col, dir);
      forall x | x in rest ensures x.id != s[0].id {
        assert x in multiset(s[1..]);
        var k :| 0 <= k < |s[1..]| && s[1..][k] == x;
        assert x == s[k + 1];
      }
      InsertSortedOrdered(s[0], rest, col, dir);
    }
  }

  /**
    The tie-break makes the order a function of the rows alone: two ordered
    arrangements of the same rows are the same sequence, whatever order the
    table kept them in.
   */
  lemma {:induction false} OrderedUnique(a: seq<Row>, b: seq<Row>, col: Column, dir: Direction)
    requires Ordered(a, col, dir) && Ordered(b, col, dir)
    requires multiset(a) == multiset(b)
    ensures a == b
    decreases |a|
  {
    assert |a| == |b| by {
      assert |multiset(a)| == |multiset(b)|;
    }
    if |a| > 0 {
      HeadsAgree(a, b, col, dir);
      TailOrdered(a, col, dir);
      TailOrdered(b, col, dir);
      assert a == [a[0]] + a[1..] && b == [b[0]] + b[1..];
      assert multiset(a[1..]) == multiset(a) - multiset{a[0]};
      assert multiset(b[1..]) == multiset(b) - multiset{b[0]};
      OrderedUnique(a[1..], b[1..], col, dir);
    }
  }

  /** Two ordered arrangements of the same rows start with the same row. */
  lemma HeadsAgree(a: seq<Row>, b: seq<Row>, col: Column, dir: Direction)
    requires Ordered(a, col, dir) && Ordered(b, col, dir)
    requires multiset(a) == multiset(b) && |a| > 0
    ensures |b| > 0 && a[0] == b[0]
  {
    assert a[0] in multiset(b);
    assert |b| > 0;
    assert b[0] in multiset(a);
    if a[0] != b[0] {
      assert Precedes(a[0], b[0], col, dir) by {
        var k :| 0 <= k < |a| && a[k] == b[0];
      }
      assert Precedes(b[0], a[0], col, dir) by {
        var k :| 0 <= k < |b| && b[k] == a[0];
      }
      PrecedesTransitive(a[0], b[0], a[0], col, dir);
      PrecedesIrreflexive(a[0], col, dir);
      assert false;
    }
  }

  // ---- Filtering ----

  /** `to_tsvector('simple', title) @@ plainto_tsquery('simple', $1) OR $1 = ''`, the search given as `fts`. */
  predicate TitleMatches(row: Row, query: string, fts: (string, string) -> bool): (b: bool)
    ensures query == "" ==> b
    ensures query != "" ==> (b <==> fts(row.title, query))
  {
    query == "" || fts(row.title, query)
  }

  /** `games @> $2 OR $2 = '{}'`: the row lists every filter genre, or there is no filter. */
  predicate GenresMatch(row: Row, genres: seq<string>): (b: bool)
    ensures genres == [] ==> b
    ensures row.games.None? ==> (b <==> genres == [])
    ensures b && genres != [] ==> row.games.Some? && forall g :: g in genres ==> g in row.games.value
  {
    genres == [] || (row.games.Some? && forall g :: g in genres ==> g in row.games.value)
  }

  predicate Matches(row: Row, query: string, genres: seq<string>, fts: (string, string) -> bool) {
    TitleMatches(row, query, fts) && GenresMatch(row, genres)
  }

  /** The `WHERE` clause applied to rows, keeping their order. */
  function Matching(rows: seq<Row>, query: string, genres: seq<string>, fts: (string, string) -> bool): (m: seq<Row>)
    ensures forall r :: r in m <==> r in rows && Matches(r, query, genres, fts)
    ensures multiset(m) <= multiset(rows)
  {
    if rows == [] then []
    else
      var rest := Matching(rows[1..], query, genres, fts);
      assert rows == [rows[0]] + rows[1..];
      if Matches(rows[0], query, genres, fts) then [rows[0]] + rest else rest
  }

  /** Filtering keeps rows apart: no two selected rows share an id. */
  lemma {:induction false} MatchingDistinct(rows: seq<Row>, query: string, genres: seq<string>,
                                            fts: (string, string) -> bool)
    requires DistinctIds(rows)
    ensures DistinctIds(Matching(rows, query, genres, fts))
  {
    if rows != [] {
      var tail := rows[1..];
      TailDistinct(rows);
      MatchingDistinct(tail, query, genres, fts);
      var rest := Matching(tail, query, genres, fts);
      if Matches(rows[0], query, genres, fts) {
        HeadIdFresh(rows);
        var m := [rows[0]] + rest;
        forall j | 0 < j < |m| ensures m[0].id != m[j].id {
          assert m[j] == rest[j - 1];
          assert m[j] in tail;
        }
        forall i, j | 0 < i < j < |m| ensures m[i].id != m[j].id {
          assert m[i] == rest[i - 1] && m[j] == rest[j - 1];
        }
      }
    }
  }

  /** No later row shares the first row's id. */
  lemma HeadIdFresh(rows: seq<Row>)
    requires DistinctIds(rows) && |rows| > 0
    ensures forall x :: x in rows[1..] ==> x.id != rows[0].id
  {
    forall x | x in rows[1..] ensures x.id != rows[0].id {
      var k :| 0 <= k < |rows[1..]| && rows[1..][k] == x;
      assert x == rows[k + 1];
    }
  }

  lemma TailDistinct(rows: seq<Row>)
    requires DistinctIds(rows) && |rows| > 0
    ensures DistinctIds(rows[1..])
  {
    var tail := rows[1..];
    forall i, j | 0 <= i < j < |tail| ensures tail[i].id != tail[j].id {
      assert tail[i] == rows[i + 1] && tail[j] == rows[j + 1];
    }
  }

  /** The rows of the table, in id order. */
  function Listing(t: Table, below: int): (s: seq<Row>)
    decreases below
  {
    if below <= 1 then []
    else Listing(t, below - 1) + (if below - 1 in t then [t[below - 1]] else [])
  }

  /** The listing holds each row of the table once, under its own id, and nothing else. */
  lemma {:induction false} ListingContents(t: Table, below: int, nextId: int)
    requires TableInvariant(t, nextId)
    ensures forall r :: r in Listing(t, below) <==> 1 <= r.id < below && r.id in t && t[r.id] == r
    ensures forall i :: 0 <= i < |Listing(t, below)| ==> Listing(t, below)[i].id < below
    ensures DistinctIds(Listing(t, below))
    decreases below
  {
    if below > 1 {
      ListingContents(t, below - 1, nextId);
    }
  }

  lemma {:induction false} ListingEmpty(below: int)
    ensures Listing(map[], below) == []
    decreases below
  {
    if below > 1 {
      ListingEmpty(below - 1);
    }
  }

  /** The rows `GetAll` selects before paging: the matching rows of the table, sorted. */
  function Selected(t: Table, nextId: int, query: string, genres: seq<string>,
                    fts: (string, string) -> bool, col: Column, dir: Direction): (sel: seq<Row>)
    ensures forall r :: r in sel <==> r in Listing(t, nextId) && Matches(r, query, genres, fts)
  {
    var m := Matching(Listing(t, nextId), query, genres, fts);
    SortMembers(m, col, dir);
    Sort(m, col, dir)
  }

  /** Sorting keeps exactly the rows it was given. */
  lemma SortMembers(s: seq<Row>, col: Column, dir: Direction)
    ensures forall r :: r in Sort(s, col, dir) <==> r in s
  {
    SortPermutes(s, col, dir);
    forall r ensures r in Sort(s, col, dir) <==> r in s {
      assert r in Sort(s, col, dir) <==> r in multiset(Sort(s, col, dir));
    }
  }

  /**
    Selection: exactly the matching rows of the table, each once, ordered
    by the sort key and then by id; and no other arrangement of those rows
    is ordered.
   */
  lemma SelectedCharacterised(t: Table, nextId: int, query: string, genres: seq<string>,
                              fts: (string, string) -> bool, col: Column, dir: Direction)
    requires TableInvariant(t, nextId)
    ensures var sel := Selected(t, nextId, query, genres, fts, col, dir);
      && (forall r :: r in sel <==> r.id in t && t[r.id] == r && Matches(r, query, genres, fts))
      && Ordered(sel, col, dir)
      && DistinctIds(sel)
      && forall other :: Ordered(other, col, dir) && multiset(other) == multiset(sel) ==> other == sel
  {
    var listing := Listing(t, nextId);
    var m := Matching(listing, query, genres, fts);
    var sel := Sort(m, col, dir);
    ListingContents(t, nextId, nextId);
    MatchingDistinct(listing, query, genres, fts);
    SortPermutes(m, col, dir);
    SortOrdered(m, col, dir);
    forall r | r in sel ensures r in m { assert r in multiset(m); }
    forall r | r in m ensures r in sel { assert r in multiset(sel); }
    assert DistinctIds(sel) by {
      forall i, j | 0 <= i < j < |sel| ensures sel[i].id != sel[j].id {
        PrecedesIrreflexive(sel[i], col, dir);
        assert sel[i] in multiset(m) && sel[j] in multiset(m);
        assert sel[i] in m && sel[j] in m;
      }
    }
    forall other | Ordered(other, col, dir) && multiset(other) == multiset(sel) ensures other == sel {
      OrderedUnique(other, sel, col, dir);
    }
  }

  // ---- Paging ----

  /** `LIMIT limit OFFSET offset`: skip `offset` rows, then keep at most `limit`. */
  function Window<T>(s: seq<T>, offset: nat, limit: nat): (w: seq<T>)
    ensures |w| <= limit
    ensures |w| == if offset >= |s| then 0 else if offset + limit <= |s| then limit else |s| - offset
    ensures forall i :: 0 <= i < |w| ==> w[i] == s[offset + i]
  {
    if offset >= |s| then []
    else if offset + limit <= |s| then s[offset..offset + limit]
    else s[offset..]
  }

  /** Consecutive pages fit together: page `p` followed by page `p + 1` is the double-size window. */
  lemma PagesTile<T>(s: seq<T>, offset: nat, limit: nat)
    ensures Window(s, offset, limit) + Window(s, offset + limit, limit) == Window(s, offset, 2 * limit)
  {
    var w := Window(s, offset, limit) + Window(s, offset + limit, limit);
    var d := Window(s, offset, 2 * limit);
    assert |w| == |d|;
    forall i | 0 <= i < |w| ensures w[i] == d[i] {
      if i >= |Window(s, offset, limit)| {
        assert w[i] == Window(s, offset + limit, limit)[i - limit];
      }
    }
  }

  /** The rows of the result set: each selected row in the window, with the count of all selected rows. */
  function ResultSet(sel: seq<Row>, offset: nat, limit: nat): (rs: seq<(nat, Row)>)
    ensures |rs| == |Window(sel, offset, limit)|
    ensures forall i :: 0 <= i < |rs| ==> rs[i] == (|sel|, Window(sel, offset, limit)[i])
  {
    var w := Window(sel, offset, limit);
    seq(|w|, i requires 0 <= i < |w| => (|sel|, w[i]))
  }

  /**
    The `totalRecords` that `GetAll` ends with: the count column of the last
    row read, or its starting 0 when the window is empty.
   */
  function ReportedTotal(sel: seq<Row>, offset: nat, limit: nat): nat {
    var rs := ResultSet(sel, offset, limit);
    if |rs| == 0 then 0 else rs[|rs| - 1].0
  }

  /** A non-empty page reports the count of every matching row, not just those on the page. */
  lemma ReportedTotalOfPage(sel: seq<Row>, offset: nat, limit: nat)
    ensures offset < |sel| && limit > 0 ==> ReportedTotal(sel, offset, limit) == |sel|
    ensures offset >= |sel| || limit == 0 ==> ReportedTotal(sel, offset, limit) == 0
  {
  }

  /**
    No matching row, or a page beyond the last one, gives the all-zero
    metadata, even though rows do match in the second case.
   */
  lemma EmptyPageMetadata(sel: seq<Row>, f: Filters)
    requires f.page >= 1 && f.pageSize >= 1
    requires Offset(f) >= |sel|
    ensures ReportedTotal(sel, Offset(f), Limit(f)) == 0
    ensures CalculateMetadata(ReportedTotal(sel, Offset(f), Limit(f)), f.page, f.pageSize) == Metadata(0, 0, 0, 0)
    ensures Window(sel, Offset(f), Limit(f)) == []
  {
  }

  /** The second page of 45 matching rows in pages of 20 reports all 45 and a last page of 3. */
  lemma SecondPageMetadata(sel: seq<Row>)
    requires |sel| == 45
    ensures var f := Filters(2, 20, "id", ["id"]);
      && |Window(sel, Offset(f), Limit(f))| == 20
      && CalculateMetadata(ReportedTotal(sel, Offset(f), Limit(f)), f.page, f.pageSize) == Metadata(2, 20, 3, 45)
  {
  }

  /** With no search text and no genre filter every row matches. */
  lemma EmptyFiltersMatchAll(rows: seq<Row>, fts: (string, string) -> bool)
    ensures Matching(rows, "", [], fts) == rows
  {
  }

  /** An empty table selects nothing. */
  lemma EmptyTableSelectsNothing(nextId: int, query: string, genres: seq<string>,
                                 fts: (string, string) -> bool, col: Column, dir: Direction)
    ensures Selected(map[], nextId, query, genres, fts, col, dir) == []
  {
    ListingEmpty(nextId);
  }
}
