/** The hosted `translation_keys` table, reduced to what the service can
    observe: rows keyed by id, the order a full scan returns them in, and the
    response each query builder call produces. Network transport, the client
    object and `.execute()` are not modelled; a call that raises is a
    `Raised` response. */
module Store {
  import opened Wrappers
  import opened Text
  import opened Json

  type Id = string

  /** A row as the table returns it: column name to JSON value. */
  type Row = Object

  /** The table: rows by id, and the order in which a scan yields them. */
  datatype Table = Table(rows: map<Id, Row>, order: seq<Id>)

  /** What `.execute()` gives back: the rows of `response.data`, or the
      message of the exception it raised. */
  datatype Response = Raised(message: string) | Rows(data: seq<Row>)

  /** A write: the table after it, and the response the client saw. */
  datatype Written = Written(table: Table, response: Response)

  /** The filters of a select, as the service attaches them to the query. */
  datatype Query = Query(category: Option<string>, keyPattern: Option<string>)

  /** The message Postgres raises when an insert repeats a unique `key`. The
      constraint name follows Postgres' default naming for the `key` column. */
  const DuplicateKeyMessage := "duplicate key value violates unique constraint \"translation_keys_key_key\""

  /** The message with which the store rejects a negative `limit`. */
  const NegativeLimitMessage := "limit must be a non-negative integer"

  predicate Distinct(ids: seq<Id>) {
    forall i, j :: 0 <= i < j < |ids| ==> ids[i] != ids[j]
  }

  /** The scan order lists every row exactly once, and every row's `id`
      column holds the id it is stored under. */
  ghost predicate Valid(t: Table) {
    && Distinct(t.order)
    && (forall id :: id in t.rows <==> id in t.order)
    && (forall id :: id in t.rows ==> "id" in t.rows[id] && t.rows[id]["id"] == Str(id))
  }

  /** Every row of the table, in scan order. */
  function Scan(t: Table): (r: seq<Row>)
    requires Valid(t)
    ensures |r| == |t.order|
    ensures forall i :: 0 <= i < |r| ==> r[i] == t.rows[t.order[i]]
  {
    seq(|t.order|, i requires 0 <= i < |t.order| => t.rows[t.order[i]])
  }

  lemma {:induction false} DistinctCardinality(ids: seq<Id>)
    requires Distinct(ids)
    ensures |set id | id in ids| == |ids|
  {
    if |ids| > 0 {
      var rest := ids[1..];
      assert Distinct(rest);
      DistinctCardinality(rest);
      assert (set id | id in ids) == (set id | id in rest) + {ids[0]};
      assert ids[0] !in rest;
    }
  }

  /** A scan returns as many rows as the table holds. */
  lemma ScanCoversTable(t: Table)
    requires Valid(t)
    ensures |Scan(t)| == |t.rows|
  {
    DistinctCardinality(t.order);
    assert t.rows.Keys == set id | id in t.order;
  }

  // ---------------------------------------------------------------------------
  // Reads

  /** `select("*").eq("id", id)`. */
  function SelectById(t: Table, id: Id): (r: Response)
    requires Valid(t)
    ensures r.Rows? && |r.data| <= 1
    ensures |r.data| == 1 <==> id in t.rows
    ensures id in t.rows ==> r.data[0] == t.rows[id]
  {
    if id in t.rows then Rows([t.rows[id]]) else Rows([])
  }

  /** Whether a row passes the query's filters: `eq("category", c)` is exact
      equality of the column, `ilike("key", "%s%")` a case-insensitive
      substring test of the key text. */
  predicate Matches(q: Query, row: Row) {
    && (q.category.Some? ==> "category" in row && row["category"] == Str(q.category.value))
    && (q.keyPattern.Some? ==>
          "key" in row && row["key"].Str? && ContainsIgnoringCase(row["key"].s, q.keyPattern.value))
  }

  /** The rows that pass the filters, in their original order. */
  function Filter(q: Query, rows: seq<Row>): (r: seq<Row>)
    ensures |r| <= |rows|
    ensures forall i :: 0 <= i < |r| ==> Matches(q, r[i]) && r[i] in rows
    ensures forall i :: 0 <= i < |rows| && Matches(q, rows[i]) ==> rows[i] in r
    ensures |rows| == 1 ==> r == if Matches(q, rows[0]) then rows else []
  {
    if |rows| == 0 then []
    else (if Matches(q, rows[0]) then [rows[0]] else []) + Filter(q, rows[1..])
  }

  /** Filtering works segment by segment, so it keeps the matching rows in
      their original order; with the one-row case of `Filter` this
      determines the result for every sequence of rows. */
  lemma {:induction false} FilterAppend(q: Query, a: seq<Row>, b: seq<Row>)
    ensures Filter(q, a + b) == Filter(q, a) + Filter(q, b)
    decreases |a|
  {
    if |a| == 0 {
      assert a + b == b;
    } else {
      assert (a + b)[0] == a[0];
      assert (a + b)[1..] == a[1..] + b;
      FilterAppend(q, a[1..], b);
    }
  }

  /** `.limit(limit).offset(offset)` over rows already filtered. */
  function Page(rows: seq<Row>, limit: nat, offset: nat): (r: seq<Row>)
    ensures |r| <= limit
    ensures offset >= |rows| ==> r == []
    ensures offset < |rows| ==> |r| == if offset + limit <= |rows| then limit else |rows| - offset
    ensures forall i :: 0 <= i < |r| ==> r[i] == rows[offset + i]
  {
    if offset >= |rows| then []
    else if offset + limit <= |rows| then rows[offset..offset + limit]
    else rows[offset..]
  }

  /** A filtered, paged select. A negative limit is rejected by the store. */
  function SelectPage(t: Table, q: Query, limit: int, offset: nat): (r: Response)
    requires Valid(t)
    ensures limit < 0 <==> r.Raised?
    ensures r.Rows? ==> |r.data| <= limit && forall i :: 0 <= i < |r.data| ==> Matches(q, r.data[i])
    ensures r.Rows? ==> r.data == Page(Filter(q, Scan(t)), limit, offset)
  {
    if limit < 0 then Raised(NegativeLimitMessage)
    else Rows(Page(Filter(q, Scan(t)), limit, offset))
  }

  /** Without filters a select pages the whole scan. */
  lemma UnfilteredSelect(t: Table, limit: nat, offset: nat)
    requires Valid(t)
    ensures SelectPage(t, Query(None, None), limit, offset) == Rows(Page(Scan(t), limit, offset))
  {
    FilterKeepsAll(Query(None, None), Scan(t));
  }

  /** A page of the scan is a window onto the scan order. */
  lemma ScanWindow(t: Table, limit: nat, offset: nat)
    requires Valid(t)
    ensures var page := Page(Scan(t), limit, offset);
            && |page| == (if offset >= |t.rows| then 0 else if offset + limit <= |t.rows| then limit else |t.rows| - offset)
            && forall i :: 0 <= i < |page| ==> t.order[offset + i] in t.rows && page[i] == t.rows[t.order[offset + i]]
  {
    ScanCoversTable(t);
  }

  /** A property every stored row has holds for every row of a page. */
  lemma PageKeeps(t: Table, limit: nat, offset: nat, p: Row -> bool)
    requires Valid(t)
    requires forall id :: id in t.rows ==> p(t.rows[id])
    ensures forall i :: 0 <= i < |Page(Scan(t), limit, offset)| ==> p(Page(Scan(t), limit, offset)[i])
  {
    ScanWindow(t, limit, offset);
  }

  /** A query without filters keeps every row. */
  lemma {:induction false} FilterKeepsAll(q: Query, rows: seq<Row>)
    requires q == Query(None, None)
    ensures Filter(q, rows) == rows
  {
    if |rows| > 0 {
      FilterKeepsAll(q, rows[1..]);
    }
  }

  // ---------------------------------------------------------------------------
  // Writes

  /** Some stored row already has this `key` value. */
  predicate KeyTaken(t: Table, key: Value) {
    exists id :: id in t.rows && "key" in t.rows[id] && t.rows[id]["key"] == key
  }

  /** `insert(row)`: the unique constraint on `key` rejects a repeated key;
      otherwise the row is stored under the id the store assigns. */
  function Insert(t: Table, row: Row, freshId: Id): (w: Written)
    requires Valid(t)
    requires freshId !in t.rows
    ensures Valid(w.table)
    ensures w.response.Raised? <==> "key" in row && row["key"] != Null && KeyTaken(t, row["key"])
    ensures w.response.Raised? ==> w.table == t && w.response.message == DuplicateKeyMessage
    ensures w.response.Rows? ==> w.response.data == [row["id" := Str(freshId)]]
    ensures w.response.Rows? ==> w.table.rows == t.rows[freshId := row["id" := Str(freshId)]]
  {
    if "key" in row && row["key"] != Null && KeyTaken(t, row["key"]) then Written(t, Raised(DuplicateKeyMessage))
    else
      var stored := row["id" := Str(freshId)];
      Written(Table(t.rows[freshId := stored], t.order + [freshId]), Rows([stored]))
  }

  /** Some stored row other than `id` already has this `key` value. */
  predicate KeyTakenElsewhere(t: Table, id: Id, key: Value) {
    exists other :: other in t.rows && other != id && "key" in t.rows[other] && t.rows[other]["key"] == key
  }

  /** `update(payload).eq("id", id)`: the columns of `payload` replace those of
      the matching row, and the response lists the updated rows. The unique
      constraint on `key` rejects a payload whose key another row holds; an
      empty payload updates nothing and answers with no rows. */
  function UpdateWhere(t: Table, id: Id, payload: Row): (w: Written)
    requires Valid(t)
    requires "id" !in payload
    ensures Valid(w.table)
    ensures w.table.order == t.order && w.table.rows.Keys == t.rows.Keys
    ensures forall other :: other in t.rows && other != id ==> w.table.rows[other] == t.rows[other]
    ensures id !in t.rows || payload == map[] ==> w == Written(t, Rows([]))
    ensures w.response.Raised? <==>
              id in t.rows && "key" in payload && payload["key"] != Null && KeyTakenElsewhere(t, id, payload["key"])
    ensures w.response.Raised? ==> w.table == t && w.response.message == DuplicateKeyMessage
    ensures id in t.rows && payload != map[] && w.response.Rows? ==>
              w.table.rows[id] == t.rows[id] + payload && w.response == Rows([w.table.rows[id]])
  {
    if id !in t.rows || payload == map[] then Written(t, Rows([]))
    else if "key" in payload && payload["key"] != Null && KeyTakenElsewhere(t, id, payload["key"]) then
      Written(t, Raised(DuplicateKeyMessage))
    else
      var updated := t.rows[id] + payload;
      Written(Table(t.rows[id := updated], t.order), Rows([updated]))
  }

  function Without(ids: seq<Id>, id: Id): (r: seq<Id>)
    ensures forall x :: x in r <==> x in ids && x != id
    ensures Distinct(ids) ==> Distinct(r)
  {
    if |ids| == 0 then []
    else
      var rest := Without(ids[1..], id);
      assert Distinct(ids) ==> Distinct(ids[1..]) && ids[0] !in rest;
      (if ids[0] == id then [] else [ids[0]]) + rest
  }

  /** `delete().eq("id", id)`: the matching row is removed and, as the client
      asks for the representation by default, returned. */
  function DeleteWhere(t: Table, id: Id): (w: Written)
    requires Valid(t)
    ensures Valid(w.table)
    ensures id !in w.table.rows
    ensures w.table.rows == t.rows - {id}
    ensures id in t.rows ==> w.response == Rows([t.rows[id]])
    ensures id !in t.rows ==> w == Written(t, Rows([]))
  {
    if id in t.rows then Written(Table(t.rows - {id}, Without(t.order, id)), Rows([t.rows[id]]))
    else Written(t, Rows([]))
  }
}
