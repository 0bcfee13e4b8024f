/**
  The list-query parameters and the result summary. The Go `Filters` helpers
  (`limit`, `offset`, `sortColumn`, `sortDirection`, `ValidateFilters`) and
  `calculateMetadata` are not part of this model; these definitions give them
  the behaviour the games query relies on.
 */
module Filters {
  import opened Validator

  datatype Direction = Asc | Desc

  datatype Filters = Filters(page: int, pageSize: int, sort: string, sortSafelist: seq<string>)

  datatype Metadata = Metadata(currentPage: int, pageSize: int, lastPage: int, totalRecords: nat)

  /** The largest page size a client may ask for. */
  const MaxPageSize: int := 100

  /** `limit()`: one page of rows, between 1 and the cap once the filters pass. */
  function Limit(f: Filters): (limit: int)
    ensures FilterErrors(map[], f) == map[] ==> 1 <= limit <= MaxPageSize
  {
    FilterErrorsEmpty(f);
    f.pageSize
  }

  /** `offset()`: the rows of the earlier pages are skipped. */
  function Offset(f: Filters): (skip: int)
    ensures f.page >= 1 && f.pageSize >= 0 ==> skip >= 0
  {
    (f.page - 1) * f.pageSize
  }

  /** `sortColumn()`: the safelisted sort key without its `-` prefix; any other key is a panic. */
  function SortColumn(f: Filters): (column: string)
    requires f.sort in f.sortSafelist
    ensures if |f.sort| > 0 && f.sort[0] == '-' then f.sort == "-" + column else column == f.sort
  {
    if |f.sort| > 0 && f.sort[0] == '-' then f.sort[1..] else f.sort
  }

  /** `sortDirection()`: descending exactly when the key starts with `-`. */
  function SortDirection(f: Filters): (d: Direction)
    ensures d == Desc <==> |f.sort| > 0 && f.sort[0] == '-'
  {
    if |f.sort| > 0 && f.sort[0] == '-' then Desc else Asc
  }

  /** The error map after the filter checks, in their order. */
  function FilterErrors(errors: map<string, string>, f: Filters): (r: map<string, string>)
    ensures errors.Keys <= r.Keys <= errors.Keys + {"page", "page_size", "sort"}
    ensures forall k :: k in errors ==> r[k] == errors[k]
  {
    var e1 := Checked(errors, f.page > 0, "page", "must be greater than zero");
    var e2 := Checked(e1, f.pageSize > 0, "page_size", "must be greater than zero");
    var e3 := Checked(e2, f.pageSize <= MaxPageSize, "page_size", "must be a maximum of 100");
    Checked(e3, f.sort in f.sortSafelist, "sort", "invalid sort value")
  }

  /** `ValidateFilters(v, f)`. */
  method ValidateFilters(v: Validator, f: Filters)
    modifies v
    ensures v.errors == FilterErrors(old(v.errors), f)
  {
    v.Check(f.page > 0, "page", "must be greater than zero");
    v.Check(f.pageSize > 0, "page_size", "must be greater than zero");
    v.Check(f.pageSize <= MaxPageSize, "page_size", "must be a maximum of 100");
    v.Check(f.sort in f.sortSafelist, "sort", "invalid sort value");
  }

  /** Filters that pass validation have a positive page, a bounded positive page size and a safelisted sort. */
  lemma FilterErrorsEmpty(f: Filters)
    ensures FilterErrors(map[], f) == map[] <==>
      f.page >= 1 && 1 <= f.pageSize <= MaxPageSize && f.sort in f.sortSafelist
  {
    var e := FilterErrors(map[], f);
    if !(f.page >= 1) { assert "page" in e; }
    if !(1 <= f.pageSize <= MaxPageSize) { assert "page_size" in e; }
    if f.sort !in f.sortSafelist { assert "sort" in e; }
  }

  /** `calculateMetadata`: all zero for an empty result, otherwise the page echoed and the last page rounded up. */
  function CalculateMetadata(totalRecords: nat, page: int, pageSize: int): (m: Metadata)
    requires totalRecords > 0 ==> pageSize > 0
    ensures totalRecords == 0 ==> m == Metadata(0, 0, 0, 0)
    ensures totalRecords > 0 ==>
      && m.currentPage == page && m.pageSize == pageSize && m.totalRecords == totalRecords
      && (m.lastPage - 1) * pageSize < totalRecords <= m.lastPage * pageSize
  {
    if totalRecords == 0 then Metadata(0, 0, 0, 0)
    else
      var lastPage := (totalRecords + pageSize - 1) / pageSize;
      CeilingDivision(totalRecords, pageSize);
      Metadata(page, pageSize, lastPage, totalRecords)
  }

  /** `(n + d - 1) / d` is the least number of pages of `d` that hold `n` rows. */
  lemma CeilingDivision(n: nat, d: int)
    requires d > 0
    ensures var q := (n + d - 1) / d; (q - 1) * d < n <= q * d
  {
    var q := (n + d - 1) / d;
    var r := (n + d - 1) % d;
    assert n + d - 1 == q * d + r && 0 <= r < d;
    assert q * d == n + d - 1 - r;
    assert (q - 1) * d == q * d - d;
  }

  /** 45 records in pages of 20 end on page 3. */
  lemma LastPageExample()
    ensures CalculateMetadata(45, 1, 20).lastPage == 3
  {
  }
}
