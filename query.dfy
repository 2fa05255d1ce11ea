/**
 * An abstract model of the query builder the repository composes: a query is
 * a record of selected columns, conditions, orderings, an offset and a limit.
 * What a condition means for a row and how rows are ordered belong to the
 * database; they are parameters (a `Store`) rather than part of the model.
 */
module QueryModel {
  import opened Wrappers
  import opened Php

  /** A record: column name to value. */
  type Row = map<string, Value>

  /** A condition added by `where`, `whereDate` or `whereIn`; opaque to the model. */
  datatype Condition =
    | Where(column: string, operator: string, value: Value)
    | WhereDate(column: string, operator: string, value: Value)
    | WhereIn(column: string, values: seq<Value>)

  /** One `orderBy(column, direction)` clause. */
  datatype Order = Order(column: string, direction: string)

  /** An unexecuted query. */
  datatype Query = Query(
    select: seq<string>,
    conditions: seq<Condition>,
    orders: seq<Order>,
    offset: Option<int>,
    limit: Option<int>)

  /**
   * The model's table: its name, its schema's columns, the name of the model's
   * primary key column (`getKeyName()`) and its rows.
   */
  datatype Table = Table(name: string, columns: set<string>, key: string, rows: seq<Row>)

  /** The database's meaning of a condition and of an ordering. */
  datatype Store = Store(
    matches: (Condition, Row) -> bool,
    sort: (seq<Row>, seq<Order>) -> seq<Row>)

  /** `select($columns)` on a fresh model: no conditions, order, offset or limit. */
  function Select(columns: seq<string>): Query
  {
    Query(columns, [], [], None, None)
  }

  /**
   * `take($n)` on a builder: a negative count leaves the limit as it was, any
   * other count replaces it.
   */
  function Take(q: Query, n: int): (r: Query)
    ensures r.(limit := q.limit) == q
    ensures n >= 0 ==> r.limit == Some(n)
    ensures n < 0 ==> r == q
  {
    if n >= 0 then q.(limit := Some(n)) else q
  }

  /** The column name `"$tableName.$field"`. */
  function Qualified(table: string, field: string): string
  {
    table + "." + field
  }

  /** `row` meets every condition in `conds`. */
  predicate Satisfies(store: Store, row: Row, conds: seq<Condition>)
    decreases |conds|
  {
    conds == [] || (store.matches(conds[0], row) && Satisfies(store, row, conds[1..]))
  }

  /** The rows that meet every condition, in their original order. */
  function FilterRows(store: Store, rows: seq<Row>, conds: seq<Condition>): (r: seq<Row>)
    ensures |r| <= |rows|
    ensures forall x :: x in r ==> x in rows && Satisfies(store, x, conds)
    ensures forall i :: 0 <= i < |rows| && Satisfies(store, rows[i], conds) ==> rows[i] in r
    decreases |rows|
  {
    if rows == [] then []
    else
      var rest := FilterRows(store, rows[1..], conds);
      assert forall i :: 1 <= i < |rows| ==> rows[i] == rows[1..][i - 1];
      if Satisfies(store, rows[0], conds) then [rows[0]] + rest else rest
  }

  /** The number of rows `$query->count()` reports: conditions only. */
  function Count(store: Store, t: Table, q: Query): (n: nat)
    ensures n <= |t.rows|
    ensures q.conditions == [] ==> n == |t.rows|
  {
    FilterNothing(store, t.rows);
    |FilterRows(store, t.rows, q.conditions)|
  }

  /**
   * `skip` then `take` on already filtered and ordered rows. A non-positive
   * offset skips nothing and a negative limit takes everything, as the query
   * builder treats them.
   */
  function Window(rows: seq<Row>, offset: Option<int>, limit: Option<int>): (r: seq<Row>)
    ensures |r| <= |rows|
    ensures limit.Some? && limit.value >= 0 ==> |r| <= limit.value
    ensures (offset.None? || offset.value <= 0) && limit.None? ==> r == rows
    ensures forall x :: x in r ==> x in rows
  {
    var start := if offset.Some? && offset.value > 0 then
                   (if offset.value < |rows| then offset.value else |rows|)
                 else 0;
    var rest := rows[start..];
    if limit.Some? && 0 <= limit.value < |rest| then rest[..limit.value] else rest
  }

  /** `$query->get()`: filter, order (only when asked to), then the window. */
  function Get(store: Store, t: Table, q: Query): (r: seq<Row>)
    ensures q.limit.Some? && q.limit.value >= 0 ==> |r| <= q.limit.value
    ensures q.orders == [] ==>
              |r| <= Count(store, t, q) &&
              forall x :: x in r ==> x in t.rows && Satisfies(store, x, q.conditions)
  {
    var filtered := FilterRows(store, t.rows, q.conditions);
    var ordered := if q.orders == [] then filtered else store.sort(filtered, q.orders);
    Window(ordered, q.offset, q.limit)
  }

  /** An ORDER BY only rearranges the rows it is given. */
  ghost predicate ValidStore(store: Store)
  {
    forall rows, orders :: multiset(store.sort(rows, orders)) == multiset(rows)
  }

  /**
   * With a store whose sort only rearranges rows, `get()` returns table rows
   * that meet every condition, and no more of them than `count()` reports,
   * whatever the orders.
   */
  lemma GetFromTable(store: Store, t: Table, q: Query)
    requires ValidStore(store)
    ensures |Get(store, t, q)| <= Count(store, t, q)
    ensures forall x :: x in Get(store, t, q) ==> x in t.rows && Satisfies(store, x, q.conditions)
  {
    var filtered := FilterRows(store, t.rows, q.conditions);
    var ordered := if q.orders == [] then filtered else store.sort(filtered, q.orders);
    assert multiset(ordered) == multiset(filtered);
    assert |ordered| == |multiset(ordered)| == |filtered|;
    forall x | x in Get(store, t, q)
      ensures x in filtered
    {
      assert x in multiset(ordered);
    }
  }

  lemma {:induction false} SatisfiesAppend(store: Store, row: Row, c1: seq<Condition>, c2: seq<Condition>)
    ensures Satisfies(store, row, c1 + c2) <==> Satisfies(store, row, c1) && Satisfies(store, row, c2)
    decreases |c1|
  {
    if c1 != [] {
      assert (c1 + c2)[0] == c1[0];
      assert (c1 + c2)[1..] == c1[1..] + c2;
      SatisfiesAppend(store, row, c1[1..], c2);
    } else {
      assert c1 + c2 == c2;
    }
  }

  /** Conditions added later filter what the earlier ones let through. */
  lemma {:induction false} FilterAppend(store: Store, rows: seq<Row>, c1: seq<Condition>, c2: seq<Condition>)
    ensures FilterRows(store, rows, c1 + c2) == FilterRows(store, FilterRows(store, rows, c1), c2)
    decreases |rows|
  {
    if rows != [] {
      SatisfiesAppend(store, rows[0], c1, c2);
      FilterAppend(store, rows[1..], c1, c2);
    }
  }

  /** A single row is kept exactly when it meets the conditions. */
  lemma FilterOne(store: Store, row: Row, conds: seq<Condition>)
    ensures FilterRows(store, [row], conds) == if Satisfies(store, row, conds) then [row] else []
  {
  }

  /**
   * Filtering distributes over concatenation, so the filter keeps the rows'
   * order and every copy of a satisfying row.
   */
  lemma {:induction false} FilterConcat(store: Store, a: seq<Row>, b: seq<Row>, conds: seq<Condition>)
    ensures FilterRows(store, a + b, conds) == FilterRows(store, a, conds) + FilterRows(store, b, conds)
    decreases |a|
  {
    if a == [] {
      assert a + b == b;
    } else {
      assert (a + b)[0] == a[0];
      assert (a + b)[1..] == a[1..] + b;
      FilterConcat(store, a[1..], b, conds);
    }
  }

  /** A query without conditions keeps every row. */
  lemma {:induction false} FilterNothing(store: Store, rows: seq<Row>)
    ensures FilterRows(store, rows, []) == rows
    decreases |rows|
  {
    if rows != [] {
      FilterNothing(store, rows[1..]);
    }
  }

  /** Appending conditions to a query can only lower its count. */
  lemma ExtraConditionsNarrow(store: Store, t: Table, q: Query, extra: seq<Condition>)
    ensures Count(store, t, q.(conditions := q.conditions + extra)) <= Count(store, t, q)
  {
    FilterAppend(store, t.rows, q.conditions, extra);
  }

  /** For a non-negative offset and limit the window is one contiguous slice. */
  lemma WindowIsSlice(rows: seq<Row>, skip: int, take: nat)
    ensures var lo := if skip <= 0 then 0 else if skip < |rows| then skip else |rows|;
            var hi := if lo + take < |rows| then lo + take else |rows|;
            Window(rows, Some(skip), Some(take)) == rows[lo..hi]
  {
  }
}
