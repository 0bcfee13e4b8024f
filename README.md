# EBG games service: a verified model

EBG is a small JSON API for educational board games. This project models
its core in Dafny and proves properties of that model. The core has three parts:

- **The score wire codec** (`ScoreCodec`, `Decimal`). A score is a 32-bit
  signed integer. On the wire it is the JSON string `"<N> points"`.
  Encoding prints the decimal, appends ` points` and quotes the text.
  Decoding unquotes, splits on single spaces, demands exactly the parts
  `<N>` and `points`, and parses `<N>` as a base-10 int32. The decoder's
  receiver (`ScoreVar`) is written only when decoding succeeds.
- **Game validation and the game store** (`Validator`, `Filters`, `Games`,
  `GameTable`, `GameQuery`, `GameStore`).
  - `ValidateGame` runs the eight keyed checks on title, score and genres
    into a validator that keeps the first message per key.
  - `GameModel` is a class holding the `games` table as a `map<int, Row>`
    and the id sequence as a counter.
  - Its methods `Insert`, `Get`, `Update`, `Delete` and `GetAll` change or
    read that state. Each is specified against a function on tables
    (`Inserted`, `Lookup`, `CompareAndIncrement`, `Remove`, `Selected` and
    `Window`).
  - `Update` is a compare-and-increment on `(id, version)`.
  - `GetAll` filters by title search and genre containment. It orders by
    the chosen column and direction, then by id. It pages with
    limit/offset and reports the count the result set carried.
- **The HTTP handlers** (`Handlers`). Create, show, update, delete and list
  are methods over the store that return an `Outcome`: `Created`, `Ok`,
  `NotFound`, `Conflict`, `ValidationFailed`, `BadRequest` or
  `ServerError`.
  - The update handler reads the game, merges the fields the client sent,
    validates, and writes back conditionally on the version it read.
  - An `Interference` parameter lets another request's write land between
    that read and that write.

Inputs the model cannot compute are parameters:

- a database or timeout failure is a `bool` per call, giving `StoreFailure`;
- the clock is a `Timestamp` value;
- Postgres full-text search is a function `fts(title, query)`;
- the decoded request body and the parsed path id are `Option` values.

Two consequences of the code are worth stating up front:

- **Re-encoding a decoded score.** The decoder also accepts `"+5 points"`
  and `"007 points"`, so re-encoding a decoded score gives the input back
  only for canonical text. `MarshalDecoded` proves that this holds exactly
  for canonical wire text.
- **`totalRecords` in list metadata.** It is read from the `count(*) OVER()`
  column of the returned rows, so a page past the last one reports 0 with
  all-zero metadata (`EmptyPageMetadata`).

## Model

| member | source | states |
|---|---|---|
| Decimal.ParseInt32 | GoLandProject/EducationalBoardGame/EBG/internal/data/score.go:29 | any value base-10 parsing with bit size 32 accepts lies in the int32 range |
| Decimal.Format | GoLandProject/EducationalBoardGame/EBG/internal/data/score.go:15 | `%d` text is non-empty and starts with `-` exactly for a negative number |
| Decimal.ParseInt | GoLandProject/EducationalBoardGame/EBG/internal/data/score.go:29 | accepted text is non-empty, and a negative result comes only from text starting with `-` |
| Decimal.Atoi | GoLandProject/EducationalBoardGame/EBG/cmd/api/games.go:157-158 | any value the integer query parameters parse to lies in the int64 range |
| Decimal.ValueOfDigits | GoLandProject/EducationalBoardGame/EBG/internal/data/score.go:15 | the decimal digits of `n` read back as `n` |
| Decimal.DigitsOfValue | GoLandProject/EducationalBoardGame/EBG/internal/data/score.go:29 | digit text without a leading zero is exactly the decimal form of its value |
| Decimal.FormatShape | GoLandProject/EducationalBoardGame/EBG/internal/data/score.go:15-16 | `%d` output is canonical and holds only digits and `-`: no space, quote or backslash |
| Decimal.ParseFormat | GoLandProject/EducationalBoardGame/EBG/internal/data/score.go:29 | parsing the decimal form of any int32 gives it back |
| Decimal.ParseLenient | GoLandProject/EducationalBoardGame/EBG/internal/data/score.go:29 | the parser also accepts a `+` sign and a leading zero |
| Decimal.ParseOutOfRange | GoLandProject/EducationalBoardGame/EBG/internal/data/score.go:29-32 | the decimal form of any integer outside the int32 range is refused |
| Decimal.FormatParse | GoLandProject/EducationalBoardGame/EBG/internal/data/score.go:29 | re-formatting a parsed number gives the text back exactly when the text is canonical |
| ScoreCodec.MarshalJSON | GoLandProject/EducationalBoardGame/EBG/internal/data/score.go:14-18 | the encoding is `"` + decimal + ` points` + `"`: quoting adds nothing but the two quotes |
| ScoreCodec.Quote | GoLandProject/EducationalBoardGame/EBG/internal/data/score.go:16 | the quoted text starts and ends with `"` and is at least two longer than the input |
| ScoreCodec.Unquote | GoLandProject/EducationalBoardGame/EBG/internal/data/score.go:21 | only text between matching double or back quotes is accepted; a double-quoted literal unquotes to its interior, which holds no quote or backslash; the result is shorter than the literal |
| ScoreCodec.Split | GoLandProject/EducationalBoardGame/EBG/internal/data/score.go:25 | there is always at least one part |
| ScoreCodec.SplitWithout | GoLandProject/EducationalBoardGame/EBG/internal/data/score.go:25 | text without the separator splits into itself alone |
| ScoreCodec.Decode | GoLandProject/EducationalBoardGame/EBG/internal/data/score.go:20-35 | text that does not unquote is `ErrInvalidRuntimeFormat`; a success unquotes to at least `0 points` |
| ScoreCodec.DecodeEveryMarshal | GoLandProject/EducationalBoardGame/EBG/internal/data/score.go:14-34 | every score's encoding decodes to that score |
| ScoreCodec.EscapePlain | GoLandProject/EducationalBoardGame/EBG/internal/data/score.go:16 | quoting escapes nothing in text without quotes or backslashes |
| ScoreCodec.UnquoteQuote | GoLandProject/EducationalBoardGame/EBG/internal/data/score.go:21 | unquoting undoes quoting for such text |
| ScoreCodec.SplitJoin | GoLandProject/EducationalBoardGame/EBG/internal/data/score.go:25 | no split part holds the separator, and joining the parts gives the input back |
| ScoreCodec.SplitAtFirst | GoLandProject/EducationalBoardGame/EBG/internal/data/score.go:25 | splitting breaks at the first separator |
| ScoreCodec.SplitNumberUnit | GoLandProject/EducationalBoardGame/EBG/internal/data/score.go:25-26 | a space-free number followed by ` points` splits into exactly `[number, "points"]` |
| ScoreCodec.SplitTwo | GoLandProject/EducationalBoardGame/EBG/internal/data/score.go:26 | text that splits into two parts is those parts around one separator |
| ScoreCodec.ScoreVar.UnmarshalJSON | GoLandProject/EducationalBoardGame/EBG/internal/data/score.go:20-35 | on success the receiver holds the decoded value; on every failure it returns `ErrInvalidRuntimeFormat` and the receiver is unchanged |
| ScoreCodec.DecodeMarshal | GoLandProject/EducationalBoardGame/EBG/internal/data/score.go:14-34 | decoding the encoding of any score, zero and negatives included, gives it back |
| ScoreCodec.DecodeAccepted | GoLandProject/EducationalBoardGame/EBG/internal/data/score.go:21-33 | every accepted input unquotes to a space-free number, one space and `points`, and the number parses to the result |
| ScoreCodec.DecodeAccepts | GoLandProject/EducationalBoardGame/EBG/internal/data/score.go:21-34 | every input of that shape is accepted with the parsed value |
| ScoreCodec.DecodeRejects | GoLandProject/EducationalBoardGame/EBG/internal/data/score.go:21-32 | every input not of that shape is rejected with `ErrInvalidRuntimeFormat` |
| ScoreCodec.RejectsBody | GoLandProject/EducationalBoardGame/EBG/internal/data/score.go:25-32 | a double-quoted body that is not `<number> points` is rejected |
| ScoreCodec.RejectsUnquoted | GoLandProject/EducationalBoardGame/EBG/internal/data/score.go:21-24 | `5 points`, `12` and `null`, which are not string literals, are rejected |
| ScoreCodec.RejectsWrongUnit | GoLandProject/EducationalBoardGame/EBG/internal/data/score.go:26-27 | `"7 seconds"` is rejected |
| ScoreCodec.RejectsDoubleSpace | GoLandProject/EducationalBoardGame/EBG/internal/data/score.go:25-27 | `"5  points"` is rejected: it splits into three parts |
| ScoreCodec.RejectsTrailingWord | GoLandProject/EducationalBoardGame/EBG/internal/data/score.go:25-27 | `"5 points now"` is rejected |
| ScoreCodec.RejectsNonNumber | GoLandProject/EducationalBoardGame/EBG/internal/data/score.go:29-31 | `"abc points"` is rejected |
| ScoreCodec.RejectsOutOfRange | GoLandProject/EducationalBoardGame/EBG/internal/data/score.go:29-31 | `"<N> points"` is rejected for every N outside the int32 range, 2147483648 included |
| ScoreCodec.AcceptsBody | GoLandProject/EducationalBoardGame/EBG/internal/data/score.go:29-34 | any parsable signed number in `"<N> points"` decodes to its value, with no positivity check |
| ScoreCodec.DecodesPlusSign | GoLandProject/EducationalBoardGame/EBG/internal/data/score.go:29 | `"+N points"` decodes to N but is not what encoding N produces |
| ScoreCodec.DecodesLeadingZero | GoLandProject/EducationalBoardGame/EBG/internal/data/score.go:29 | `"0N points"` (such as `"007 points"`) decodes to N but is not what encoding N produces |
| ScoreCodec.MarshalCanonical | GoLandProject/EducationalBoardGame/EBG/internal/data/score.go:14-18 | every encoding is canonical wire text |
| ScoreCodec.MarshalDecodedCanonical | GoLandProject/EducationalBoardGame/EBG/internal/data/score.go:14-34 | re-encoding a decoded canonical input gives it back |
| ScoreCodec.MarshalDecoded | GoLandProject/EducationalBoardGame/EBG/internal/data/score.go:14-34 | for accepted input, re-encoding gives the input back exactly when it is canonical |
| Validator.Checked | GoLandProject/EducationalBoardGame/EBG/internal/data/games.go:24-31 | a failed check adds its key; a key already present keeps its first message; nothing else changes |
| Validator.Unique | GoLandProject/EducationalBoardGame/EBG/internal/data/games.go:31 | true exactly when the values have as many distinct members as entries |
| Validator.DistinctCount | GoLandProject/EducationalBoardGame/EBG/internal/data/games.go:31 | no value repeats exactly when the set of values is as large as the list, and it is never larger |
| Validator.Validator.Valid | GoLandProject/EducationalBoardGame/EBG/cmd/api/games.go:28 | valid exactly when no error was recorded |
| Validator.Validator.Check | GoLandProject/EducationalBoardGame/EBG/internal/data/games.go:24-31 | the new error map is the old one after that check |
| Validator.Validator.AddError | GoLandProject/EducationalBoardGame/EBG/cmd/api/games.go:157-158 | records the message unless the key already has one |
| Filters.Offset | GoLandProject/EducationalBoardGame/EBG/internal/data/games.go:182 | the offset is non-negative for a positive page and a non-negative page size |
| Filters.Limit | GoLandProject/EducationalBoardGame/EBG/internal/data/games.go:182 | once the filters pass, the limit is between 1 and 100 |
| Filters.FilterErrors | GoLandProject/EducationalBoardGame/EBG/cmd/api/games.go:161 | the filter checks add only `page`, `page_size` and `sort` and keep every earlier message |
| Filters.SortColumn | GoLandProject/EducationalBoardGame/EBG/internal/data/games.go:178 | the column is the safelisted sort key with any leading `-` removed |
| Filters.SortDirection | GoLandProject/EducationalBoardGame/EBG/internal/data/games.go:178 | descending exactly when the sort key starts with `-` |
| Filters.ValidateFilters | GoLandProject/EducationalBoardGame/EBG/cmd/api/games.go:161 | the validator gains the page, page size and sort checks in order |
| Filters.FilterErrorsEmpty | GoLandProject/EducationalBoardGame/EBG/cmd/api/games.go:161-164 | filters pass exactly when page ≥ 1, 1 ≤ page size ≤ 100 and the sort key is safelisted |
| Filters.CalculateMetadata | GoLandProject/EducationalBoardGame/EBG/internal/data/games.go:220 | all-zero metadata when nothing was counted; otherwise the page echoed and the last page is the least that holds every record |
| Filters.CeilingDivision | GoLandProject/EducationalBoardGame/EBG/internal/data/games.go:220 | rounding-up division gives the least page count that holds `n` rows |
| Filters.LastPageExample | GoLandProject/EducationalBoardGame/EBG/internal/data/games.go:220 | 45 records in pages of 20 end on page 3 |
| Games.Game.constructor | GoLandProject/EducationalBoardGame/EBG/cmd/api/games.go:22-26 | the new game holds only the given title, score and genres; id, version and description are zero values |
| Games.Game.Scanned | GoLandProject/EducationalBoardGame/EBG/internal/data/games.go:80-87 | a scanned game holds the row's six columns and an empty description |
| Games.ValidateGame | GoLandProject/EducationalBoardGame/EBG/internal/data/games.go:23-32 | the validator's errors after the eight checks in source order |
| Games.GameErrorsKeys | GoLandProject/EducationalBoardGame/EBG/internal/data/games.go:23-32 | only `title`, `score` and `games` are keyed, and no error is recorded exactly for a valid game |
| Games.TitleErrors | GoLandProject/EducationalBoardGame/EBG/internal/data/games.go:24-25 | the title is reported exactly when it is empty or over 500 bytes, with the first failing rule's message |
| Games.ScoreErrors | GoLandProject/EducationalBoardGame/EBG/internal/data/games.go:26-27 | the score is reported exactly when it is ≤ 0: zero as "must be provided", a negative score as "must be a positive integer" |
| Games.GenresErrors | GoLandProject/EducationalBoardGame/EBG/internal/data/games.go:28-31 | genres are reported exactly when nil, empty, over 5 or repeating, with one message, the first failing rule's |
| Games.CharBytes | GoLandProject/EducationalBoardGame/EBG/internal/data/games.go:25 | each character takes between one and four UTF-8 bytes |
| Games.Utf8LengthBounds | GoLandProject/EducationalBoardGame/EBG/internal/data/games.go:25 | a title's byte length is between one and four times its character count, and equal to it for ASCII |
| Games.Utf8LengthRepeat | GoLandProject/EducationalBoardGame/EBG/internal/data/games.go:25 | `n` copies of a character take `n` times its byte count |
| Games.Utf8Length | GoLandProject/EducationalBoardGame/EBG/internal/data/games.go:25 | a string takes between one and four bytes per character |
| Games.GameErrors | GoLandProject/EducationalBoardGame/EBG/internal/data/games.go:23-32 | the checks add only `title`, `score` and `games` to the errors they start from |
| Games.TitleChecked | GoLandProject/EducationalBoardGame/EBG/internal/data/games.go:24-25 | the title checks add at most the `title` key |
| Games.ScoreChecked | GoLandProject/EducationalBoardGame/EBG/internal/data/games.go:26-27 | the score checks add at most the `score` key |
| Games.GenresChecked | GoLandProject/EducationalBoardGame/EBG/internal/data/games.go:28-31 | the genre checks add at most the `games` key |
| Games.TitleLimitCountsBytes | GoLandProject/EducationalBoardGame/EBG/internal/data/games.go:25 | 250 two-byte characters pass the title limit and 251 do not; 500 ASCII characters pass and 501 do not |
| GameTable.Lookup | GoLandProject/EducationalBoardGame/EBG/internal/data/games.go:61-101 | the intended point lookup finds a row exactly for an id ≥ 1 that is present, and reports not found otherwise |
| GameTable.LookupAsWritten | GoLandProject/EducationalBoardGame/EBG/internal/data/games.go:62-69 | as written, ids below 1 are not found |
| GameTable.LookupAsWrittenFails | GoLandProject/EducationalBoardGame/EBG/internal/data/games.go:67 | as written, a lookup of a present id fails with a store error where the intended lookup returns the row |
| GameTable.Inserted | GoLandProject/EducationalBoardGame/EBG/internal/data/games.go:43-57 | the table gains exactly the next id, holding the caller's title, score and genres at version 1, and keeps every other row |
| GameTable.CompareAndIncrement | GoLandProject/EducationalBoardGame/EBG/internal/data/games.go:107-131 | an edit conflict exactly when the id is missing or the version differs; a store failure exactly when the version is already the Postgres `integer` maximum; otherwise the same ids, the new fields at version + 1 and the other rows kept |
| GameTable.Remove | GoLandProject/EducationalBoardGame/EBG/internal/data/games.go:137-163 | success exactly for a present id ≥ 1, removing only that key and keeping the other rows; every failure is `ErrRecordNotFound` |
| GameTable.InsertThenLookup | GoLandProject/EducationalBoardGame/EBG/internal/data/games.go:40-58 | an insert adds one row under the next id, with version 1 and only title, score and genres from the caller, and keeps the table invariant |
| GameTable.ConflictExactly | GoLandProject/EducationalBoardGame/EBG/internal/data/games.go:107-128 | an update conflicts exactly when the id is missing or its stored version differs from the expected one |
| GameTable.UpdateThenLookup | GoLandProject/EducationalBoardGame/EBG/internal/data/games.go:107-123 | a successful update replaces title, score and genres, stores version + 1, keeps id and creation time, leaves other rows alone and keeps the invariant |
| GameTable.StaleWriterConflicts | GoLandProject/EducationalBoardGame/EBG/internal/data/games.go:104-133 | of two writers holding the same version, the second conflicts after the first succeeds, and succeeds once it uses the new version |
| GameTable.DeleteThenLookup | GoLandProject/EducationalBoardGame/EBG/internal/data/games.go:136-165 | a delete removes exactly that row, a second delete is not found, and the invariant holds |
| GameTable.RemoveExactly | GoLandProject/EducationalBoardGame/EBG/internal/data/games.go:137-163 | a delete succeeds exactly for an id ≥ 1 that is present, and removes only that key |
| GameQuery.ColumnOf | GoLandProject/EducationalBoardGame/EBG/internal/data/games.go:177 | a sort column is known exactly for the six columns the queries read (`id`, `created_at`, `title`, `score`, `games`, `version`), and `id`, `title` and `score` name their own columns |
| GameQuery.LexIrreflexive | GoLandProject/EducationalBoardGame/EBG/internal/data/games.go:177 | no title sorts before itself |
| GameQuery.LexTransitive | GoLandProject/EducationalBoardGame/EBG/internal/data/games.go:177 | title order is transitive |
| GameQuery.LexTotal | GoLandProject/EducationalBoardGame/EBG/internal/data/games.go:177 | of two different titles one sorts first |
| GameQuery.ListIrreflexive | GoLandProject/EducationalBoardGame/EBG/internal/data/games.go:177 | no genre array sorts before itself |
| GameQuery.ListTransitive | GoLandProject/EducationalBoardGame/EBG/internal/data/games.go:177 | genre array order, element by element with a prefix first, is transitive |
| GameQuery.ListTotal | GoLandProject/EducationalBoardGame/EBG/internal/data/games.go:177 | of two different genre arrays one sorts first |
| GameQuery.GenresTrichotomy | GoLandProject/EducationalBoardGame/EBG/internal/data/games.go:177 | two genre columns, `NULL` sorting after every array, are less, equal or greater, and exactly one of these |
| GameQuery.GenresTransitive | GoLandProject/EducationalBoardGame/EBG/internal/data/games.go:177 | that order is transitive |
| GameQuery.KeyTrichotomy | GoLandProject/EducationalBoardGame/EBG/internal/data/games.go:177 | for each column, two rows' keys are less, equal or greater, and exactly one of these |
| GameQuery.KeyTransitive | GoLandProject/EducationalBoardGame/EBG/internal/data/games.go:177 | key order is transitive |
| GameQuery.PrecedesIrreflexive | GoLandProject/EducationalBoardGame/EBG/internal/data/games.go:177 | no row precedes itself under column, direction, then id |
| GameQuery.PrecedesTransitive | GoLandProject/EducationalBoardGame/EBG/internal/data/games.go:177 | that order is transitive in both directions |
| GameQuery.PrecedesTotal | GoLandProject/EducationalBoardGame/EBG/internal/data/games.go:177 | of two rows with different ids one precedes the other: the id tie-break makes the order total |
| GameQuery.Sort | GoLandProject/EducationalBoardGame/EBG/internal/data/games.go:177 | sorting keeps the number of rows |
| GameQuery.SortMembers | GoLandProject/EducationalBoardGame/EBG/internal/data/games.go:177 | sorting keeps exactly the rows it is given |
| GameQuery.InsertSortedPermutes | GoLandProject/EducationalBoardGame/EBG/internal/data/games.go:177 | inserting a row into a list adds exactly that row |
| GameQuery.InsertSortedOrdered | GoLandProject/EducationalBoardGame/EBG/internal/data/games.go:177 | inserting a row with a new id keeps an ordered list ordered |
| GameQuery.SortPermutes | GoLandProject/EducationalBoardGame/EBG/internal/data/games.go:177 | sorting is a permutation |
| GameQuery.SortOrdered | GoLandProject/EducationalBoardGame/EBG/internal/data/games.go:177 | rows with distinct ids come out ordered by column, direction, then id |
| GameQuery.OrderedUnique | GoLandProject/EducationalBoardGame/EBG/internal/data/games.go:177 | two ordered lists of the same rows are equal, so the order of the result is fully determined |
| GameQuery.Matching | GoLandProject/EducationalBoardGame/EBG/internal/data/games.go:175-176 | a row is kept exactly when its title matches (or the search is empty) and its genres contain every requested genre (or none is requested); no row is added |
| GameQuery.TitleMatches | GoLandProject/EducationalBoardGame/EBG/internal/data/games.go:175 | an empty search matches every title; otherwise a title matches exactly when full-text search finds the query |
| GameQuery.GenresMatch | GoLandProject/EducationalBoardGame/EBG/internal/data/games.go:176 | an empty filter matches every row; a row with `NULL` genres matches only the empty filter; a match of a non-empty filter holds every requested genre |
| GameQuery.MatchingDistinct | GoLandProject/EducationalBoardGame/EBG/internal/data/games.go:175-176 | filtering keeps ids distinct |
| GameQuery.EmptyFiltersMatchAll | GoLandProject/EducationalBoardGame/EBG/internal/data/games.go:175-176 | an empty search and an empty genre filter keep every row |
| GameQuery.ListingContents | GoLandProject/EducationalBoardGame/EBG/internal/data/games.go:174 | the table scan holds each stored row once, and nothing else |
| GameQuery.ListingEmpty | GoLandProject/EducationalBoardGame/EBG/internal/data/games.go:174 | an empty table scans to nothing |
| GameQuery.Selected | GoLandProject/EducationalBoardGame/EBG/internal/data/games.go:172-177 | a row is selected exactly when it is stored and matches both filters |
| GameQuery.SelectedCharacterised | GoLandProject/EducationalBoardGame/EBG/internal/data/games.go:172-177 | the selection is exactly the matching stored rows, each once, in order by column, direction and id, and it is the only ordered arrangement of them |
| GameQuery.EmptyTableSelectsNothing | GoLandProject/EducationalBoardGame/EBG/internal/data/games.go:172-177 | an empty table selects nothing |
| GameQuery.Window | GoLandProject/EducationalBoardGame/EBG/internal/data/games.go:178 | skips `offset` rows and keeps at most `limit`, in order |
| GameQuery.PagesTile | GoLandProject/EducationalBoardGame/EBG/internal/data/games.go:178 | two consecutive pages together are the double-size page |
| GameQuery.ResultSet | GoLandProject/EducationalBoardGame/EBG/internal/data/games.go:173 | the page's rows, each carrying the count of all selected rows |
| GameQuery.ReportedTotalOfPage | GoLandProject/EducationalBoardGame/EBG/internal/data/games.go:190-212 | a non-empty page reports the count of every selected row; an empty page reports 0 |
| GameQuery.EmptyPageMetadata | GoLandProject/EducationalBoardGame/EBG/internal/data/games.go:190-220 | no match, or a page past the last one, gives an empty page and all-zero metadata |
| GameQuery.SecondPageMetadata | GoLandProject/EducationalBoardGame/EBG/internal/data/games.go:190-220 | page 2 of 45 selected rows in pages of 20 holds 20 rows and reports page 2, size 20, last page 3, total 45 |
| GameStore.GameModel.constructor | GoLandProject/EducationalBoardGame/EBG/internal/data/games.go:35-37 | an empty table whose id sequence starts at 1 |
| GameStore.GameModel.Insert | GoLandProject/EducationalBoardGame/EBG/internal/data/games.go:40-58 | on success the table gains the inserted row, the caller's id, creation time and version are overwritten with the store's, and the other fields are kept; on failure nothing changes |
| GameStore.GameModel.Get | GoLandProject/EducationalBoardGame/EBG/internal/data/games.go:61-101 | ids below 1 are not found without a query; otherwise a fresh game equal to the stored row, not found, or a store failure |
| GameStore.GameModel.Update | GoLandProject/EducationalBoardGame/EBG/internal/data/games.go:104-133 | the table becomes the compare-and-increment result and the caller's version is refreshed; on conflict or failure the table and the game are unchanged |
| GameStore.GameModel.Delete | GoLandProject/EducationalBoardGame/EBG/internal/data/games.go:136-165 | ids below 1 and absent ids are not found and change nothing; otherwise exactly that row is removed |
| GameStore.GameModel.GetAll | GoLandProject/EducationalBoardGame/EBG/internal/data/games.go:170-224 | distinct fresh games, one per row of the selected page in order, for any of the six columns, and metadata from the count the page carried; an unknown column, a negative window or a store error gives no games and empty metadata |
| GameStore.ScanRows | GoLandProject/EducationalBoardGame/EBG/internal/data/games.go:190-212 | one fresh, distinct game per result row in order, holding that row, and `totalRecords` is the last row's count or 0 for no rows |
| GameStore.TwoWriters | GoLandProject/EducationalBoardGame/EBG/internal/data/games.go:104-133 | two clients read, both write: the first succeeds, the second conflicts, and its retry after re-reading succeeds two versions later |
| Handlers.GameLocation | GoLandProject/EducationalBoardGame/EBG/cmd/api/games.go:39 | the header is `/v1/games/` followed by the decimal id |
| Handlers.CreateScore | GoLandProject/EducationalBoardGame/EBG/cmd/api/games.go:12-21 | an omitted score is 0, `null` is refused, and the encoding of any score decodes to it |
| Handlers.UpdateScore | GoLandProject/EducationalBoardGame/EBG/cmd/api/games.go:84-93 | an omitted or `null` score is no change; otherwise the decoded value or the decoder's error, and the encoding of any score decodes to it |
| Handlers.Merged | GoLandProject/EducationalBoardGame/EBG/cmd/api/games.go:94-102 | each field sent replaces the stored one, each absent field keeps it; id, creation time and version are kept |
| Handlers.EmptyMergeKeepsRow | GoLandProject/EducationalBoardGame/EBG/cmd/api/games.go:94-102 | sending no field leaves the row as read |
| Handlers.MergeInto | GoLandProject/EducationalBoardGame/EBG/cmd/api/games.go:94-102 | the game read becomes the merged row in place; its description is kept |
| Handlers.EmptyGenresBlockUpdate | GoLandProject/EducationalBoardGame/EBG/cmd/api/games.go:100-107 | an empty genre list replaces the stored one and fails validation with "must contain at least 1 genre" |
| Handlers.CreateGameHandler | GoLandProject/EducationalBoardGame/EBG/cmd/api/games.go:11-44 | the intended response: `Created` exactly for a decodable, valid body when insert succeeds, with the location, the stored row built from title, score and genres alone and the next id advanced by one; bad body gives 400; invalid game gives the errors; the store changes only on `Created` |
| Handlers.Intended | GoLandProject/EducationalBoardGame/EBG/cmd/api/games.go:19-43 | each outcome's status: 201 with the location exactly for `Created`, 200 exactly for `Ok`, 500 exactly for a store failure |
| Handlers.CreateResponseAsWritten | GoLandProject/EducationalBoardGame/EBG/cmd/api/games.go:32-42 | as written, an insert that succeeds or fails answers 200 with no location; earlier refusals keep their status |
| Handlers.CreatedAnswersOkAsWritten | GoLandProject/EducationalBoardGame/EBG/cmd/api/games.go:32-40 | a successful create answers 200 without the location header where 201 with it is meant |
| Handlers.FailedInsertAnswersOkAsWritten | GoLandProject/EducationalBoardGame/EBG/cmd/api/games.go:32-36 | a failed insert answers 200 where 500 is meant |
| Handlers.CreateWithoutScoreFails | GoLandProject/EducationalBoardGame/EBG/cmd/api/games.go:12-31 | an omitted score is zero and fails validation with "must be provided" |
| Handlers.NullScore | GoLandProject/EducationalBoardGame/EBG/cmd/api/games.go:84-88 | a `null` score is refused on create, where the field is a value, and means absent on update, where it is a pointer |
| Handlers.ShowGameHandler | GoLandProject/EducationalBoardGame/EBG/cmd/api/games.go:46-66 | the stored row, 404 for a bad, non-positive or unknown id, 500 for a store failure |
| Handlers.UpdateGameHandler | GoLandProject/EducationalBoardGame/EBG/cmd/api/games.go:68-123 | 404 without a row; 400 for a bad body; the merged row's errors if invalid; otherwise the merged row at version + 1 when nothing interferes, 409 when another write landed since the read, 500 on a store failure or at the version limit; the table is pinned on every path (the write, the other request's write, or nothing) and the next id never moves |
| Handlers.ReadUpdateScore | GoLandProject/EducationalBoardGame/EBG/cmd/api/games.go:84-93 | the update score: absent or `null` is no change, anything else is decoded |
| Handlers.ValidateAndSave | GoLandProject/EducationalBoardGame/EBG/cmd/api/games.go:103-117 | an invalid game gives its errors and no write; a valid one is written conditionally on the version it was read with, and the table after every path is stated; the next id never moves |
| Handlers.CheckGame | GoLandProject/EducationalBoardGame/EBG/cmd/api/games.go:103-104 | the errors a fresh validator collects for the game |
| Handlers.Save | GoLandProject/EducationalBoardGame/EBG/cmd/api/games.go:108-117 | the written row at version + 1 when nothing came between; a conflict that keeps the other write when something did; 500 on failure or at the version limit, with the table then exactly as the other write left it; the next id never moves |
| Handlers.Interfered | GoLandProject/EducationalBoardGame/EBG/cmd/api/games.go:108-116 | no interference leaves the table alone; otherwise only the row being updated may change or disappear |
| Handlers.Interfere | GoLandProject/EducationalBoardGame/EBG/cmd/api/games.go:74-108 | another request's update or delete of the row, through the store operations; it always changes the row's version or removes it |
| Handlers.DeleteGameHandler | GoLandProject/EducationalBoardGame/EBG/cmd/api/games.go:125-145 | the confirmation and the row removed, 404 for a bad, non-positive or unknown id, 500 for a store failure; the next id never moves |
| Handlers.ReadString | GoLandProject/EducationalBoardGame/EBG/cmd/api/games.go:155 | the parameter when present and non-empty, the default otherwise |
| Handlers.ReadCSV | GoLandProject/EducationalBoardGame/EBG/cmd/api/games.go:156 | the default for a missing value, otherwise the comma-separated parts, which join back to the value |
| Handlers.ReadInt | GoLandProject/EducationalBoardGame/EBG/cmd/api/games.go:157-158 | the parsed integer or the default, and an "must be an integer value" error exactly for malformed text |
| Handlers.ListGamesHandler | GoLandProject/EducationalBoardGame/EBG/cmd/api/games.go:147-174 | any filter error is reported without a query; otherwise the selected page in order with its metadata, or 500 |
| Handlers.ListDefaults | GoLandProject/EducationalBoardGame/EBG/cmd/api/games.go:155-160 | an empty query string means no search, no genres, page 1, 20 per page, sort by id, and passes validation |
| Handlers.MalformedPage | GoLandProject/EducationalBoardGame/EBG/cmd/api/games.go:157 | a non-integer page is reported and page 1 is used |
| Handlers.UnsafeSortRejected | GoLandProject/EducationalBoardGame/EBG/cmd/api/games.go:159-164 | a sort key outside the safelist is reported as "invalid sort value" |
| Handlers.SafelistNamesColumns | GoLandProject/EducationalBoardGame/EBG/cmd/api/games.go:160 | every safelisted key names one of the known columns, and descending exactly for the three `-` keys |
| Handlers.ValidatedListReachesStore | GoLandProject/EducationalBoardGame/EBG/cmd/api/games.go:161-165 | filters that pass validation give a safelisted known column, a page size from 1 to 100 and a non-negative offset |

## Left out

- HTTP routing, `readJSON`, `readIDParam`, `writeJSON` and the error-response
  helpers are not modelled. The handlers take the decoded body and the
  parsed id as `Option` values and return the response as an `Outcome`.
  A failure of `writeJSON` after a successful store call is not modelled.
- The debug `fmt.Fprintf` of the create input (cmd/api/games.go:32) is the
  first write to the response once validation passes. `CreateGameHandler`'s
  `Created` and `ServerError` outcomes model the intended response; what is
  sent as written is `CreateResponseAsWritten` (see Findings). The text it
  prints ahead of the JSON body is not modelled.
- The status codes of the unseen error helpers are taken to be 400, 404,
  409, 422 and 500 (`Intended`).
- SQL text, `database/sql`, `pq.Array` and the 3-second context timeout are
  replaced by the in-memory table. Every database or timeout error is a
  `failure` flag that gives `StoreFailure`.
- The schema is not part of this model. It is assumed that `version` is a
  Postgres `integer`, so incrementing it past 2147483647 is an error, and
  that ids beyond the int64 range cannot be issued.
- Postgres full-text search is the parameter `fts`. Only "an empty search
  matches everything" is fixed.
- `GameQuery.ColumnOf`: the six columns the queries read are the known sort
  columns; any other sort expression is taken to be refused, because the
  schema is not part of this model. The safelist only offers `id`, `title`
  and `score`.
- Genre arrays are ordered element by element, a proper prefix first, with
  `NULL` after every array (last ascending, first descending), as Postgres
  does by default.
- Title ordering is code-point order (`LexLess`). The database's
  collation is not modelled.
- `GameQuery.GenresMatch`: a nil genre filter is not modelled. The list
  handler always passes a non-nil list, empty by default.
- Concurrency is not modelled. Each store call is one atomic step, and the
  update handler's race is the `Interference` parameter: one other write
  between its read and its write.
- `ScoreCodec.Unquote` covers double-quoted literals without escape
  sequences and back-quoted raw literals, not the full Go literal grammar. A
  score string written with an escape sequence (a backslash-u escape for the digit 5,
  say) is refused by the model and accepted by the code. `ScoreCodec.Quote` is modelled for
  printable ASCII only, which is all the encoder produces.
- `CreatedAt` is an opaque `Timestamp` given as the `now` parameter.
- `Validator`, `Filters`, `ValidateFilters` and `calculateMetadata` are
  called by the core, but their source (internal/validator and
  internal/data/filters.go) is not part of this model. The modules of those
  names state only the behaviour the core relies on:
  - first message per key wins;
  - limit is the page size and offset is (page - 1) × page size;
  - the sort column is the key without `-`;
  - the metadata rounds the last page up.
- Filters.Offset: the offset is `(page - 1) × page size` in unbounded
  integers. Go computes it in 64-bit `int`, so a page above about
  9.2 × 10^16 divided by the page size would wrap, and whether the unseen
  validator bounds the page is not known. The stand-in `Filters` also
  assumes a page-size cap of 100, no upper bound on the page, and the
  messages "must be greater than zero", "must be a maximum of 100" and
  "invalid sort value".
- Handlers.ValidatedListReachesStore: its non-negative offset rests on the
  same unbounded arithmetic as `Filters.Offset`.
- `readString`, `readCSV` and `readInt` are modelled from their use; their
  source is not part of this model.
- `Models`/`NewModels` are not modelled; they only wire the store to the
  database. Their `UserModel` and `TokenModel` are not shown. `ErrRecordNotFound` and
  `ErrEditConflict` are constructors of `StoreError`.
- The earlier tutorial snapshot under GoProject/MyProject (routes, main,
  movies) holds no logic and is not modelled.
- `Description` is never stored or read, so every game the store returns
  has an empty description.

## Findings

| source | as written | input that shows it | evidently intended | confidence | as-written member | corrected member |
|---|---|---|---|---|---|---|
| GoLandProject/EducationalBoardGame/EBG/internal/data/games.go:67 | the select list of `Get` starts with a stray comma, so the database refuses the query | any present id ≥ 1: the query fails with a syntax error, so show and update answer 500 | select the row's six columns and return it, or not found | not executed | GameTable.LookupAsWrittenFails | GameTable.Lookup |
| GoLandProject/EducationalBoardGame/EBG/cmd/api/games.go:32 | the debug print of the input writes the response before the real answer, committing status 200 and the headers set so far | any valid create request: it answers 200 without `Location`, and a failed insert also answers 200 | answer 201 with the `Location` header, or 500 when the insert fails | not executed | Handlers.CreatedAnswersOkAsWritten | Handlers.Intended |
