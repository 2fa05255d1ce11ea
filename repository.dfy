/**
 * The logic of the abstract `Repository` base class: pagination, the
 * condition helpers, export, and the two failure-isolating handlers. The
 * repository's Eloquent model is the `Table` parameter; its table name is
 * `t.name` and `Schema::hasColumn` is membership in `t.columns`.
 */
module Repository {
  import opened Wrappers
  import opened Php
  import opened QueryModel

  const DefaultPage: int := 1
  const DefaultLimit: int := 5
  const DefaultDirection: string := "ASC"

  /** The exception `paginate` raises for an order column the table lacks. */
  datatype MissingColumnError = MissingColumn(column: string, table: string)
  {
    function Message(): string
    {
      "The column - \"" + column + "\" does not exist in the table - \"" + table + "\""
    }
  }

  /** The error message names both the column and the table. */
  lemma MessageNamesColumnAndTable(e: MissingColumnError)
    ensures OccursAt(e.Message(), e.column, 14)
    ensures OccursAt(e.Message(), e.table, 47 + |e.column|)
  {
  }

  /** The `data` entry: the query itself, or the rows it returns. */
  datatype PageData = Unexecuted(query: Query) | Rows(rows: seq<Row>)

  /** The collection `paginate` returns. */
  datatype Page = Page(
    total: nat,
    data: PageData,
    limit: int,
    order: string,
    page: int,
    columnOrder: Option<string>)

  /**
   * The page actually served: the requested one when its first row index is
   * below the count, otherwise the one before it. It is moved back by at most
   * one page, so it may still lie beyond the last row (see `ClampCanOvershoot`).
   */
  function ClampPage(page: int, limit: int, count: nat): (p: int)
    ensures p == page || p == page - 1
    ensures p == page <==> (page - 1) * limit < count
  {
    if (page - 1) * limit < count then page else page - 1
  }

  /** `if ($columnOrder)`: a null, empty or "0" column name orders nothing. */
  predicate OrderRequested(columnOrder: Option<string>)
  {
    columnOrder.Some? && TruthyString(columnOrder.value)
  }

  /** The query after `select($columns)` and the optional callback. */
  function Filtered(columns: seq<string>, callback: Option<Query -> Query>): Query
  {
    match callback
    case Some(f) => f(Select(columns))
    case None => Select(columns)
  }

  /**
   * `paginate`. The ghost `q` is the query as composed when the method
   * returns: it is what `data` holds, or what was executed to produce it.
   */
  method Paginate(t: Table, store: Store, columns: seq<string> := [], columnOrder: Option<string> := None,
                  page: Option<int> := Some(DefaultPage), limit: Option<int> := Some(DefaultLimit),
                  orderBy: Option<string> := Some(DefaultDirection),
                  callback: Option<Query -> Query> := None, queryBuilder: bool := false)
    returns (r: Result<Page, MissingColumnError>, ghost q: Query)
    ensures r.Failure? <==> OrderRequested(columnOrder) && columnOrder.value !in t.columns
    ensures r.Failure? ==> r.error == MissingColumn(columnOrder.value, t.name)
    ensures r.Success? ==>
              var lim := Coalesce(limit, DefaultLimit);
              var count := Count(store, t, Filtered(columns, callback));
              && r.value.total == count
              && r.value.page == ClampPage(Coalesce(page, DefaultPage), lim, count)
              && r.value.limit == lim
              && r.value.order == Coalesce(orderBy, DefaultDirection)
              && r.value.columnOrder == columnOrder
    ensures r.Success? ==>
              var base := Filtered(columns, callback);
              var lim := Coalesce(limit, DefaultLimit);
              var skip := (r.value.page - 1) * lim;
              && q.select == base.select
              && q.conditions == base.conditions
              && q.offset == (if skip > 0 then Some(skip) else base.offset)
              && q.orders == base.orders +
                   (if OrderRequested(columnOrder)
                    then [Order(columnOrder.value, r.value.order)] else [])
              && q.limit == (if lim > 0 then Some(lim) else base.limit)
              && r.value.data == (if queryBuilder then Unexecuted(q) else Rows(Get(store, t, q)))
    ensures r.Success? && r.value.data.Rows? && ValidStore(store) ==>
              && |r.value.data.rows| <= r.value.total
              && forall x :: x in r.value.data.rows ==>
                   x in t.rows && Satisfies(store, x, Filtered(columns, callback).conditions)
  {
    var query := Select(columns);
    var pg := Coalesce(page, DefaultPage);
    var lim := Coalesce(limit, DefaultLimit);
    var direction := Coalesce(orderBy, DefaultDirection);

    if callback.Some? {
      query := callback.value(query);
    }

    var count := Count(store, t, query);
    pg := ClampPage(pg, lim, count);
    var skip := (pg - 1) * lim;

    if skip > 0 {
      query := query.(offset := Some(skip));
    }

    if OrderRequested(columnOrder) {
      if columnOrder.value !in t.columns {
        r, q := Failure(MissingColumn(columnOrder.value, t.name)), query;
        return;
      }
      query := query.(orders := query.orders + [Order(columnOrder.value, direction)]);
    }

    if lim != 0 {
      query := Take(query, lim);
    }

    if ValidStore(store) {
      GetFromTable(store, t, query);
    }
    var data := if queryBuilder then Unexecuted(query) else Rows(Get(store, t, query));
    r := Success(Page(count, data, lim, direction, pg, columnOrder));
    q := query;
  }

  /** The page is moved back at most once, so an overshoot of one page is repaired. */
  lemma ClampRepairsOnePageOvershoot(page: int, limit: int, count: nat)
    requires (page - 2) * limit < count
    ensures (ClampPage(page, limit, count) - 1) * limit < count
  {
  }

  /**
   * The clamp does not keep the page within the rows: page 5 of 10 over 25
   * rows becomes page 4, whose first index 30 is past the end.
   */
  lemma ClampCanOvershoot()
    ensures ClampPage(5, 10, 25) == 4 && (4 - 1) * 10 >= 25
  {
  }

  /** Page 1 of an empty result is reported as page 0 and skips nothing. */
  lemma EmptyFirstPage(limit: int)
    requires limit >= 0
    ensures ClampPage(1, limit, 0) == 0
    ensures (ClampPage(1, limit, 0) - 1) * limit <= 0
  {
  }

  /** Page 3 of 10 over 25 rows serves rows 21 to 25. */
  method ThirdPageOfTwentyFive(rows: seq<Row>) returns (p: Page)
    requires |rows| == 25
    ensures p == Page(25, Rows(rows[20..25]), 10, "ASC", 3, None)
  {
    var t := Table("items", {"id"}, "id", rows);
    var store := Store((c, row) => true, (found, orders) => found);
    FilterNothing(store, rows);
    var r, q := Paginate(t, store, page := Some(3), limit := Some(10));
    p := r.value;
  }

  /** Page 5 of 10 over 25 rows is served as page 4, which holds no rows. */
  method FifthPageOfTwentyFive(rows: seq<Row>) returns (p: Page)
    requires |rows| == 25
    ensures p == Page(25, Rows([]), 10, "ASC", 4, None)
  {
    var t := Table("items", {"id"}, "id", rows);
    var store := Store((c, row) => true, (found, orders) => found);
    FilterNothing(store, rows);
    var r, q := Paginate(t, store, page := Some(5), limit := Some(10));
    p := r.value;
  }

  /** `array_key_exists($key, $data) && $data[$key]`. */
  predicate Present(data: map<string, Value>, key: string)
  {
    key in data && Truthy(data[key])
  }

  /** `whereBetween`: inclusive bounds on `table.field` from the `min` and `max` entries. */
  method WhereBetween(t: Table, query: Query, data: Option<map<string, Value>> := None, field: string := "")
    returns (q: Query)
    ensures data.None? ==> q == query
    ensures q.(conditions := query.conditions) == query
    ensures data.Some? ==>
              var col := Qualified(t.name, field);
              q.conditions == query.conditions
                + (if Present(data.value, "min") then [Where(col, ">=", data.value["min"])] else [])
                + (if Present(data.value, "max") then [Where(col, "<=", data.value["max"])] else [])
  {
    q := query;
    if data.None? {
      return;
    }
    var col := Qualified(t.name, field);
    if "min" in data.value && Truthy(data.value["min"]) {
      q := q.(conditions := q.conditions + [Where(col, ">=", data.value["min"])]);
    }
    if "max" in data.value && Truthy(data.value["max"]) {
      q := q.(conditions := q.conditions + [Where(col, "<=", data.value["max"])]);
    }
  }

  /** `whereBetweenDate`: the same with `whereDate` and the `from` and `to` entries. */
  method WhereBetweenDate(t: Table, query: Query, data: Option<map<string, Value>> := None, field: string := "")
    returns (q: Query)
    ensures data.None? ==> q == query
    ensures q.(conditions := query.conditions) == query
    ensures data.Some? ==>
              var col := Qualified(t.name, field);
              q.conditions == query.conditions
                + (if Present(data.value, "from") then [WhereDate(col, ">=", data.value["from"])] else [])
                + (if Present(data.value, "to") then [WhereDate(col, "<=", data.value["to"])] else [])
  {
    q := query;
    if data.None? {
      return;
    }
    var col := Qualified(t.name, field);
    if "from" in data.value && Truthy(data.value["from"]) {
      q := q.(conditions := q.conditions + [WhereDate(col, ">=", data.value["from"])]);
    }
    if "to" in data.value && Truthy(data.value["to"]) {
      q := q.(conditions := q.conditions + [WhereDate(col, "<=", data.value["to"])]);
    }
  }

  /** `whereText`: one `ilike` condition with the text wrapped in `%`. */
  method WhereText(t: Table, query: Query, data: Option<string> := None, field: string := "")
    returns (q: Query)
    ensures data.None? ==> q == query
    ensures data.Some? ==>
              q == query.(conditions := query.conditions
                             + [Where(Qualified(t.name, field), "ilike", Str("%" + data.value + "%"))])
  {
    q := query;
    if data.None? {
      return;
    }
    q := q.(conditions := q.conditions + [Where(Qualified(t.name, field), "ilike", Str("%" + data.value + "%"))]);
  }

  /** The entries of an ordered column array whose key is in `names`, in their order. */
  function KeepKeys(columns: seq<(string, string)>, names: seq<string>): (r: seq<(string, string)>)
    ensures |r| <= |columns|
    ensures forall e :: e in r <==> e in columns && e.0 in names
    decreases |columns|
  {
    if columns == [] then []
    else
      var rest := KeepKeys(columns[1..], names);
      assert forall e :: e in columns <==> e == columns[0] || e in columns[1..];
      if columns[0].0 in names then [columns[0]] + rest else rest
  }

  /** What `select` receives from a column array: its values, in order. */
  function ColumnValues(columns: seq<(string, string)>): (r: seq<string>)
    ensures |r| == |columns|
    ensures forall i :: 0 <= i < |columns| ==> r[i] == columns[i].1
  {
    seq(|columns|, i requires 0 <= i < |columns| => columns[i].1)
  }

  /** Filtering by an allow-list twice changes nothing further. */
  lemma {:induction false} KeepKeysIdempotent(columns: seq<(string, string)>, names: seq<string>)
    ensures KeepKeys(KeepKeys(columns, names), names) == KeepKeys(columns, names)
    decreases |columns|
  {
    if columns != [] {
      KeepKeysIdempotent(columns[1..], names);
    }
  }

  /** An allow-list that admits every key keeps the whole array, in order. */
  lemma {:induction false} KeepKeysAllAllowed(columns: seq<(string, string)>, names: seq<string>)
    requires forall i :: 0 <= i < |columns| ==> columns[i].0 in names
    ensures KeepKeys(columns, names) == columns
    decreases |columns|
  {
    if columns != [] {
      assert forall i :: 1 <= i < |columns| ==> columns[1..][i - 1] == columns[i];
      KeepKeysAllAllowed(columns[1..], names);
    }
  }

  /** Filtering a concatenation filters each part, so the kept entries keep their order. */
  lemma {:induction false} KeepKeysConcat(a: seq<(string, string)>, b: seq<(string, string)>, names: seq<string>)
    ensures KeepKeys(a + b, names) == KeepKeys(a, names) + KeepKeys(b, names)
    decreases |a|
  {
    if a == [] {
      assert a + b == b;
    } else {
      assert (a + b)[0] == a[0];
      assert (a + b)[1..] == a[1..] + b;
      KeepKeysConcat(a[1..], b, names);
    }
  }

  /** A single entry is kept exactly when its key is allowed. */
  lemma KeepKeysOne(entry: (string, string), names: seq<string>)
    ensures KeepKeys([entry], names) == if entry.0 in names then [entry] else []
  {
  }

  /** The default `$columnNames` of `export`. */
  const DefaultExportColumns: seq<string> := ["id"]

  /**
   * `export`. The ghost `q` is the query it executes: the (optionally
   * restricted) columns, and a single `id IN ids` condition when ids are given.
   */
  method Export(t: Table, store: Store, ids: seq<Value> := [],
                columnNames: seq<string> := DefaultExportColumns,
                columns: seq<(string, string)> := [])
    returns (rows: seq<Row>, ghost q: Query)
    ensures q.select == ColumnValues(if |columnNames| > 0 then KeepKeys(columns, columnNames) else columns)
    ensures q.conditions == (if |ids| > 0 then [WhereIn(Qualified(t.name, "id"), ids)] else [])
    ensures q.orders == [] && q.offset == None && q.limit == None
    ensures rows == Get(store, t, q)
    ensures |ids| == 0 ==> rows == t.rows
  {
    var cols := columns;
    if |columnNames| > 0 {
      cols := KeepKeys(columns, columnNames);
    }
    var query := Select(ColumnValues(cols));
    if |ids| > 0 {
      query := query.(conditions := query.conditions + [WhereIn(Qualified(t.name, "id"), ids)]);
    }
    FilterNothing(store, t.rows);
    rows := Get(store, t, query);
    q := query;
  }

  /** A line written to the error log. */
  datatype LogEntry = NoQueryResults(id: int) | Logged(message: string)

  /**
   * What a handler does: what it returns or lets escape, what it logged, and
   * which record the callback was invoked with, if any.
   */
  datatype Handled = Handled(outcome: Call<bool>, log: seq<LogEntry>, invoked: Option<Row>)

  /** The message of the engine error raised when null is called. */
  const NullNotCallable: string := "Value of type null is not callable"

  /**
   * What `findOrFail($id)` answers when the database does: the first row whose
   * primary key column `t.key` holds `id`.
   */
  function FindById(t: Table, id: int): (r: Option<Row>)
    ensures r.Some? ==> r.value in t.rows && t.key in r.value && r.value[t.key] == Int(id)
    ensures r.None? <==> forall row :: row in t.rows ==> !(t.key in row && row[t.key] == Int(id))
    decreases |t.rows|
  {
    if t.rows == [] then None
    else if t.key in t.rows[0] && t.rows[0][t.key] == Int(id) then Some(t.rows[0])
    else
      assert forall row :: row in t.rows <==> row == t.rows[0] || row in t.rows[1..];
      FindById(t.(rows := t.rows[1..]), id)
  }

  /**
   * `try { return $callback($model); } catch (\Exception $e) { log; return false; }`:
   * an exception is logged and becomes false; an engine error escapes.
   */
  function Invoke(callback: Row -> Call<bool>, model: Row): (h: Handled)
    ensures h.invoked == Some(model)
    ensures h.outcome.Threw? ==> h.outcome.thrown.Error?
    ensures callback(model).Returned? ==> h.outcome == callback(model) && h.log == []
    ensures callback(model).Threw? && callback(model).thrown.Exception? ==>
              h.outcome == Returned(false) && h.log == [Logged(callback(model).thrown.message)]
    ensures callback(model).Threw? && callback(model).thrown.Error? ==>
              h.outcome == callback(model) && h.log == []
  {
    match callback(model)
    case Threw(Exception(message)) => Handled(Returned(false), [Logged(message)], Some(model))
    case other => Handled(other, [], Some(model))
  }

  /**
   * `recordHandler($id, $callback)`. `lookup` is what `findOrFail($id)` did:
   * `Returned(None)` is the `ModelNotFoundException` that the handler catches,
   * `Returned(Some(model))` a found record, and `Threw(e)` any other throwable,
   * which the handler does not catch.
   */
  function RecordHandler(lookup: Call<Option<Row>>, id: int, callback: Option<Row -> Call<bool>> := None): (h: Handled)
    ensures lookup == Returned(None) ==> h == Handled(Returned(false), [NoQueryResults(id)], None)
    ensures lookup.Returned? && lookup.value.Some? && callback.Some? ==>
              h == Invoke(callback.value, lookup.value.value)
    ensures lookup.Returned? && lookup.value.Some? && callback.None? ==>
              h == Handled(Threw(Error(NullNotCallable)), [], None)
    ensures lookup.Threw? ==> h == Handled(Threw(lookup.thrown), [], None)
    ensures h.outcome.Threw? && h.outcome.thrown.Exception? ==> lookup.Threw?
    ensures |h.log| <= 1 && (h.log != [] ==> h.outcome == Returned(false))
  {
    match lookup
    case Threw(e) => Handled(Threw(e), [], None)
    case Returned(None) => Handled(Returned(false), [NoQueryResults(id)], None)
    case Returned(Some(model)) =>
      match callback
      case Some(f) => Invoke(f, model)
      case None => Handled(Threw(Error(NullNotCallable)), [], None)
  }

  /**
   * When the database answers, the handler either logs the missing id or
   * hands the callback the record with that key.
   */
  lemma RecordHandlerOnTable(t: Table, id: int, f: Row -> Call<bool>)
    ensures var h := RecordHandler(Returned(FindById(t, id)), id, Some(f));
            || (h.invoked == None && h.log == [NoQueryResults(id)] && h.outcome == Returned(false)
                && forall row :: row in t.rows ==> !(t.key in row && row[t.key] == Int(id)))
            || (h.invoked.Some? && h.invoked.value in t.rows
                && t.key in h.invoked.value && h.invoked.value[t.key] == Int(id))
  {
  }

  /** `saveHandler($callback)`; `created` is what resolving a fresh model from the container did. */
  function SaveHandler(created: Call<Row>, callback: Row -> Call<bool>): (h: Handled)
    ensures created.Threw? && created.thrown.Exception? ==>
              h == Handled(Returned(false), [Logged(created.thrown.message)], None)
    ensures created.Threw? && created.thrown.Error? ==> h == Handled(Threw(created.thrown), [], None)
    ensures created.Returned? ==> h == Invoke(callback, created.value)
    ensures h.outcome.Threw? ==> h.outcome.thrown.Error?
    ensures |h.log| <= 1 && (h.log != [] ==> h.outcome == Returned(false))
  {
    match created
    case Threw(Exception(message)) => Handled(Returned(false), [Logged(message)], None)
    case Threw(e) => Handled(Threw(e), [], None)
    case Returned(model) => Invoke(callback, model)
  }

  /** A missing record gives the same answer and log whatever the callback would do. */
  lemma MissingRecordIgnoresCallback(id: int, f: Option<Row -> Call<bool>>, g: Option<Row -> Call<bool>>)
    ensures RecordHandler(Returned(None), id, f) == RecordHandler(Returned(None), id, g)
    ensures RecordHandler(Returned(None), id, f).invoked == None
  {
  }
}
