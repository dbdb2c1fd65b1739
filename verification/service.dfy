/** `DatabaseService` of database.py: get, list, create, update and delete of
    translation keys. Each operation is split into the logic the service applies
    to whatever `.execute()` returned (any response, including a raised
    exception) and its composition with the table's behaviour. */
module Service {
  import opened Wrappers
  import opened Text
  import opened Json
  import opened Codec
  import opened Models
  import opened Store

  /** FastAPI's `HTTPException(status_code, detail)`. */
  datatype HttpError = HttpError(status: nat, detail: string)

  /** A call that may have changed the table, and what it returned. */
  datatype Effect<T> = Effect(table: Table, result: Result<T, HttpError>)

  /** The 500 every operation raises when the store or validation fails. */
  function DatabaseError(message: string): (e: HttpError)
    ensures e.status == 500
  {
    HttpError(500, "Database error: " + message)
  }

  /** The message of a failed `TranslationKey(**data)`. Pydantic's full text
      is not modelled. */
  const ValidationMessage := "validation error for TranslationKey"

  /** The text create looks for in a store error to recognise a repeated key. */
  const DuplicateKeySignal := "duplicate key value violates unique constraint"

  // ---------------------------------------------------------------------------
  // Reading rows back

  /** The shared tail of get and update: no rows means None, otherwise the
      first row is parsed and validated; a failure is a 500. */
  function ReadFirst(iso: IsoFormat, resp: Response, now: Timestamp): (r: Result<Option<TranslationKey>, HttpError>)
    ensures resp.Raised? ==> r == Err(DatabaseError(resp.message))
    ensures resp.Rows? && resp.data == [] ==> r == Ok(None)
    ensures resp.Rows? && resp.data != [] ==>
              r == match KeyFromRow(ParseDatetimes(iso, resp.data[0]), now)
                   case Some(k) => Ok(Some(k))
                   case None => Err(DatabaseError(ValidationMessage))
    ensures r.Err? ==> r.error.status == 500
  {
    match resp
    case Raised(message) => Err(DatabaseError(message))
    case Rows(data) =>
      if data == [] then Ok(None)
      else match KeyFromRow(ParseDatetimes(iso, data[0]), now)
        case Some(k) => Ok(Some(k))
        case None => Err(DatabaseError(ValidationMessage))
  }

  /** Parses and validates every row of a list response, failing on the first
      row that does not validate. */
  function ReadAll(iso: IsoFormat, rows: seq<Row>, now: Timestamp): (r: Result<seq<TranslationKey>, HttpError>)
    ensures r.Ok? <==> forall i :: 0 <= i < |rows| ==> KeyFromRow(ParseDatetimes(iso, rows[i]), now).Some?
    ensures r.Ok? ==> |r.value| == |rows|
    ensures r.Ok? ==> forall i :: 0 <= i < |rows| ==> KeyFromRow(ParseDatetimes(iso, rows[i]), now) == Some(r.value[i])
    ensures r.Err? ==> r.error == DatabaseError(ValidationMessage)
  {
    var read := seq(|rows|, i requires 0 <= i < |rows| => KeyFromRow(ParseDatetimes(iso, rows[i]), now));
    assert forall i :: 0 <= i < |rows| ==> read[i] == KeyFromRow(ParseDatetimes(iso, rows[i]), now);
    match AllPresent(read)
    case Some(ks) => Ok(ks)
    case None => Err(DatabaseError(ValidationMessage))
  }

  /** The values of a sequence of options, or `None` as soon as one is missing. */
  function AllPresent<T>(xs: seq<Option<T>>): (r: Option<seq<T>>)
    ensures r.Some? <==> forall i :: 0 <= i < |xs| ==> xs[i].Some?
    ensures r.Some? ==> |r.value| == |xs| && forall i :: 0 <= i < |xs| ==> xs[i] == Some(r.value[i])
  {
    if |xs| == 0 then Some([])
    else match xs[0]
      case None => None
      case Some(x) =>
        match AllPresent(xs[1..])
        case None => None
        case Some(rest) =>
          assert forall i :: 1 <= i < |xs| ==> xs[i] == xs[1..][i - 1];
          Some([x] + rest)
  }

  // ---------------------------------------------------------------------------
  // get_translation_key

  /** `get_translation_key(id)`. The `now` fills in a translation's missing
      `updated_at`, as the model's default factory would. */
  function GetTranslationKey(iso: IsoFormat, t: Table, id: Id, now: Timestamp): (r: Result<Option<TranslationKey>, HttpError>)
    requires Valid(t)
    ensures r == Ok(None) <==> id !in t.rows
    ensures id in t.rows ==> (r.Err? <==> KeyFromRow(ParseDatetimes(iso, t.rows[id]), now).None?)
    ensures id in t.rows && r.Ok? ==> r.value == KeyFromRow(ParseDatetimes(iso, t.rows[id]), now)
    ensures r.Ok? && r.value.Some? ==> id in t.rows && r.value.value.id == Some(id)
    ensures r.Err? ==> id in t.rows && r.error == DatabaseError(ValidationMessage)
  {
    assert id in t.rows ==> KeyFromRow(ParseDatetimes(iso, t.rows[id]), now).Some? ==>
                            KeyFromRow(ParseDatetimes(iso, t.rows[id]), now).value.id == Some(id) by {
      if id in t.rows {
        ReadKeepsId(iso, t.rows[id], id, now);
      }
    }
    ReadFirst(iso, SelectById(t, id), now)
  }

  /** The id a row is read back with is the text of its `id` column. */
  lemma ReadKeepsId(iso: IsoFormat, row: Row, id: Id, now: Timestamp)
    requires "id" in row && row["id"] == Str(id)
    ensures KeyFromRow(ParseDatetimes(iso, row), now).Some? ==> KeyFromRow(ParseDatetimes(iso, row), now).value.id == Some(id)
  {
    assert ParseDatetimes(iso, row)["id"] == ParseValue(iso, Str(id));
  }

  /** A key stored in its serialized form reads back as itself. */
  lemma GetStoredKey(iso: IsoFormat, t: Table, k: TranslationKey, now: Timestamp)
    requires Valid(t) && RoundTrips(iso) && PlainKey(iso, k)
    requires k.id.Some? && k.id.value in t.rows
    requires t.rows[k.id.value] == SerializeDatetimes(iso, KeyDump(k))
    ensures GetTranslationKey(iso, t, k.id.value, now) == Ok(Some(k))
  {
    StoredKeyRoundTrip(iso, k, now);
  }

  // ---------------------------------------------------------------------------
  // list_translation_keys

  /** `if category:` / `if search:` — a filter is attached only for a
      non-empty string. */
  function ListQuery(category: Option<string>, search: Option<string>): (q: Query)
    ensures q.category.Some? <==> category.Some? && category.value != ""
    ensures q.keyPattern.Some? <==> search.Some? && search.value != ""
    ensures q.category.Some? ==> q.category == category
    ensures q.keyPattern.Some? ==> q.keyPattern == search
  {
    Query(if category.Some? && category.value != "" then category else None,
          if search.Some? && search.value != "" then search else None)
  }

  /** `list_translation_keys(category, search, limit, offset)`. The route caps
      `limit` at 100 and requires `offset >= 0`; nothing bounds `limit` below. */
  function ListTranslationKeys(iso: IsoFormat, t: Table, category: Option<string>, search: Option<string>,
                               limit: int, offset: int, now: Timestamp): (r: Result<seq<TranslationKey>, HttpError>)
    requires Valid(t)
    requires limit <= 100 && offset >= 0
    ensures limit < 0 ==> r == Err(DatabaseError(NegativeLimitMessage))
    ensures r.Ok? ==> |r.value| <= limit
    ensures r.Ok? && category.Some? && category.value != "" ==>
              forall i :: 0 <= i < |r.value| ==> r.value[i].category == category.value
    ensures r.Ok? && search.Some? && search.value != "" ==>
              forall i :: 0 <= i < |r.value| ==> ContainsIgnoringCase(r.value[i].key, search.value)
    ensures 0 <= limit ==>
              var rows := Listed(t, category, search, limit, offset);
              && (r.Ok? <==> forall i :: 0 <= i < |rows| ==> KeyFromRow(ParseDatetimes(iso, rows[i]), now).Some?)
              && (r.Ok? ==> |r.value| == |rows| && forall i :: 0 <= i < |rows| ==> KeyFromRow(ParseDatetimes(iso, rows[i]), now) == Some(r.value[i]))
              && (r.Err? ==> r.error == DatabaseError(ValidationMessage))
  {
    var q := ListQuery(category, search);
    var resp := SelectPage(t, q, limit, offset);
    var r := ListOutcome(iso, resp, now);
    assert resp.Rows? && r.Ok? ==> forall i :: 0 <= i < |resp.data| ==> ReadMatches(q, r.value[i]) by {
      if resp.Rows? && r.Ok? {
        forall i | 0 <= i < |resp.data|
          ensures ReadMatches(q, r.value[i])
        {
          ReadKeyMatches(iso, q, resp.data[i], now, r.value[i]);
        }
      }
    }
    r
  }

  /** Lines 71-89 over any answer of the select: an exception is a 500 with
      its message; rows are parsed and validated in order, and the first one
      that does not validate makes the call a 500. */
  function ListOutcome(iso: IsoFormat, resp: Response, now: Timestamp): (r: Result<seq<TranslationKey>, HttpError>)
    ensures resp.Raised? ==> r == Err(DatabaseError(resp.message))
    ensures resp.Rows? ==> (r.Ok? <==> forall i :: 0 <= i < |resp.data| ==> KeyFromRow(ParseDatetimes(iso, resp.data[i]), now).Some?)
    ensures resp.Rows? && r.Ok? ==>
              |r.value| == |resp.data|
              && forall i :: 0 <= i < |resp.data| ==> KeyFromRow(ParseDatetimes(iso, resp.data[i]), now) == Some(r.value[i])
    ensures resp.Rows? && r.Err? ==> r.error == DatabaseError(ValidationMessage)
    ensures r.Err? ==> r.error.status == 500
  {
    match resp
    case Raised(message) => Err(DatabaseError(message))
    case Rows(data) => ReadAll(iso, data, now)
  }

  /** The rows a listing reads: the window from `offset` onto the rows that
      pass the filters, in scan order. */
  function Listed(t: Table, category: Option<string>, search: Option<string>, limit: nat, offset: nat): seq<Row>
    requires Valid(t)
  {
    Page(Filter(ListQuery(category, search), Scan(t)), limit, offset)
  }

  /** A typed key passes the filters of a query. */
  predicate ReadMatches(q: Query, k: TranslationKey) {
    && (q.category.Some? ==> k.category == q.category.value)
    && (q.keyPattern.Some? ==> ContainsIgnoringCase(k.key, q.keyPattern.value))
  }

  /** A row that passed the store's filters still passes them once read. */
  lemma ReadKeyMatches(iso: IsoFormat, q: Query, row: Row, now: Timestamp, k: TranslationKey)
    requires Matches(q, row)
    requires KeyFromRow(ParseDatetimes(iso, row), now) == Some(k)
    ensures ReadMatches(q, k)
  {
    var parsed := ParseDatetimes(iso, row);
    assert parsed["key"] == row["key"];
    assert parsed["category"] == row["category"];
  }

  /** Without filters, and with every row readable, a page holds exactly the
      rows from `offset` on, at most `limit` of them. */
  lemma ListWindow(iso: IsoFormat, t: Table, limit: int, offset: int, now: Timestamp)
    requires Valid(t)
    requires 0 <= limit <= 100 && offset >= 0
    requires forall id :: id in t.rows ==> KeyFromRow(ParseDatetimes(iso, t.rows[id]), now).Some?
    ensures var r := ListTranslationKeys(iso, t, None, None, limit, offset, now);
            r.Ok? && |r.value| == if offset >= |t.rows| then 0 else if offset + limit <= |t.rows| then limit else |t.rows| - offset
  {
    UnfilteredList(iso, t, limit, offset, now);
    ScanWindow(t, limit, offset);
    PageReadable(iso, t, limit, offset, now);
  }

  /** A page of a table whose rows all read is read whole. */
  lemma PageReadable(iso: IsoFormat, t: Table, limit: nat, offset: nat, now: Timestamp)
    requires Valid(t)
    requires forall id :: id in t.rows ==> KeyFromRow(ParseDatetimes(iso, t.rows[id]), now).Some?
    ensures var page := Page(Scan(t), limit, offset);
            ReadAll(iso, page, now).Ok? && |ReadAll(iso, page, now).value| == |page|
  {
    var readable := row => KeyFromRow(ParseDatetimes(iso, row), now).Some?;
    PageKeeps(t, limit, offset, readable);
    ReadableRowsRead(iso, Page(Scan(t), limit, offset), now);
  }

  /** Rows that all validate are read whole. */
  lemma ReadableRowsRead(iso: IsoFormat, rows: seq<Row>, now: Timestamp)
    requires forall i :: 0 <= i < |rows| ==> KeyFromRow(ParseDatetimes(iso, rows[i]), now).Some?
    ensures ReadAll(iso, rows, now).Ok? && |ReadAll(iso, rows, now).value| == |rows|
  {
  }

  /** Without filters, listing reads the page of the whole scan. */
  lemma UnfilteredList(iso: IsoFormat, t: Table, limit: nat, offset: nat, now: Timestamp)
    requires Valid(t) && limit <= 100
    ensures ListTranslationKeys(iso, t, None, None, limit, offset, now) == ReadAll(iso, Page(Scan(t), limit, offset), now)
  {
    UnfilteredSelect(t, limit, offset);
    assert ListQuery(None, None) == Query(None, None);
  }

  // ---------------------------------------------------------------------------
  // create_translation_key

  /** `key.model_dump(exclude_unset=True)` with `translations` set to `{}`;
      an unset description is left to the column's null default. */
  function CreateDump(draft: TranslationKeyCreate): (d: Object)
    ensures "key" in d && d["key"] == Str(draft.key)
    ensures "category" in d && d["category"] == Str(draft.category)
    ensures "translations" in d && d["translations"] == Object(map[])
    ensures "description" in d <==> draft.description.Some?
    ensures "description" in d ==> d["description"] == Str(draft.description.value)
    ensures "id" !in d
    ensures d.Keys <= {"key", "category", "translations", "description"}
  {
    map["key" := Str(draft.key), "category" := Str(draft.category), "translations" := Object(map[])]
    + (if draft.description.Some? then map["description" := Str(draft.description.value)] else map[])
  }

  /** The logic of create around the insert: a duplicate-key message becomes
      409, any other raised error 500, and an empty response raises the 400 of
      line 103, which the surrounding `except` turns into a 500. */
  function CreateOutcome(iso: IsoFormat, draft: TranslationKeyCreate, resp: Response, now: Timestamp): (r: Result<TranslationKey, HttpError>)
    ensures resp.Raised? && Contains(resp.message, DuplicateKeySignal) ==>
              r == Err(HttpError(409, "Translation key '" + draft.key + "' already exists"))
    ensures resp.Raised? && !Contains(resp.message, DuplicateKeySignal) ==> r == Err(DatabaseError(resp.message))
    ensures resp == Rows([]) ==> r == Err(DatabaseError("400: Failed to create translation key"))
    ensures r.Ok? ==> resp.Rows? && resp.data != [] && KeyFromRow(ParseDatetimes(iso, resp.data[0]), now) == Some(r.value)
    ensures r.Err? ==> r.error.status in {409, 500}
  {
    match resp
    case Raised(message) =>
      if Contains(message, DuplicateKeySignal) then Err(HttpError(409, "Translation key '" + draft.key + "' already exists"))
      else Err(DatabaseError(message))
    case Rows(data) =>
      // str() of the HTTPException(400, ...) raised at line 103
      if data == [] then Err(DatabaseError("400: Failed to create translation key"))
      else match KeyFromRow(ParseDatetimes(iso, data[0]), now)
        case Some(k) => Ok(k)
        case None => Err(DatabaseError(ValidationMessage))
  }

  /** `create_translation_key(draft)` against the table; `freshId` is the id
      the store assigns. */
  function CreateTranslationKey(iso: IsoFormat, t: Table, draft: TranslationKeyCreate, freshId: Id, now: Timestamp): (r: Effect<TranslationKey>)
    requires Valid(t) && freshId !in t.rows
    ensures Valid(r.table)
    ensures r.result.Err? && r.result.error.status == 409 <==> KeyTaken(t, Str(draft.key))
    ensures KeyTaken(t, Str(draft.key)) ==> r.table == t
    ensures !KeyTaken(t, Str(draft.key)) ==>
              && r.table.rows == t.rows[freshId := CreateDump(draft)["id" := Str(freshId)]]
              && r.table.rows[freshId]["translations"] == Object(map[])
    ensures r.result.Ok? ==> r.result.value == TranslationKey(Some(freshId), draft.key, draft.category, draft.description, map[])
  {
    CreateDumpIsSerialized(iso, draft);
    InsertedDraftOutcome(iso, t, draft, freshId, now);
    var w := Insert(t, SerializeDatetimes(iso, CreateDump(draft)), freshId);
    Effect(w.table, CreateOutcome(iso, draft, w.response, now))
  }

  /** How the outcome of create follows from the insert of the draft's row. */
  lemma InsertedDraftOutcome(iso: IsoFormat, t: Table, draft: TranslationKeyCreate, freshId: Id, now: Timestamp)
    requires Valid(t) && freshId !in t.rows
    ensures var r := CreateOutcome(iso, draft, Insert(t, CreateDump(draft), freshId).response, now);
            && (r.Err? && r.error.status == 409 <==> KeyTaken(t, Str(draft.key)))
            && (r.Ok? ==> r.value == TranslationKey(Some(freshId), draft.key, draft.category, draft.description, map[]))
  {
    if KeyTaken(t, Str(draft.key)) {
      TakenKeyConflicts(iso, t, draft, freshId, now);
    } else {
      FreeKeyInserts(iso, t, draft, freshId, now);
    }
  }

  /** A taken key makes the insert raise the duplicate-key error, which create
      answers with 409. */
  lemma TakenKeyConflicts(iso: IsoFormat, t: Table, draft: TranslationKeyCreate, freshId: Id, now: Timestamp)
    requires Valid(t) && freshId !in t.rows && KeyTaken(t, Str(draft.key))
    ensures CreateOutcome(iso, draft, Insert(t, CreateDump(draft), freshId).response, now)
            == Err(HttpError(409, "Translation key '" + draft.key + "' already exists"))
  {
    DuplicateKeyMessageSignals();
    assert Insert(t, CreateDump(draft), freshId).response == Raised(DuplicateKeyMessage);
  }

  /** A free key is inserted, and create answers with the stored row or a 500. */
  lemma FreeKeyInserts(iso: IsoFormat, t: Table, draft: TranslationKeyCreate, freshId: Id, now: Timestamp)
    requires Valid(t) && freshId !in t.rows && !KeyTaken(t, Str(draft.key))
    ensures var r := CreateOutcome(iso, draft, Insert(t, CreateDump(draft), freshId).response, now);
            && (r.Err? ==> r.error.status == 500)
            && (r.Ok? ==> r.value == TranslationKey(Some(freshId), draft.key, draft.category, draft.description, map[]))
  {
    CreatedRowReadsBack(iso, draft, freshId, now);
    assert Insert(t, CreateDump(draft), freshId).response == Rows([CreateDump(draft)["id" := Str(freshId)]]);
  }

  lemma DuplicateKeyMessageSignals()
    ensures Contains(DuplicateKeyMessage, DuplicateKeySignal)
  {
    ContainsAt(DuplicateKeyMessage, DuplicateKeySignal, 0);
  }

  /** The create payload holds no datetime, so serializing leaves it alone. */
  lemma CreateDumpIsSerialized(iso: IsoFormat, draft: TranslationKeyCreate)
    ensures SerializeDatetimes(iso, CreateDump(draft)) == CreateDump(draft)
  {
    var d := CreateDump(draft);
    forall col | col in d
      ensures NoTime(d[col])
    {
    }
    SerializeFixesNoTime(iso, Object(d));
  }

  /** Whatever the created row validates to is the draft with the assigned id
      and empty translations. */
  lemma CreatedRowReadsBack(iso: IsoFormat, draft: TranslationKeyCreate, freshId: Id, now: Timestamp)
    ensures var k := KeyFromRow(ParseDatetimes(iso, CreateDump(draft)["id" := Str(freshId)]), now);
            k.Some? ==> k.value == TranslationKey(Some(freshId), draft.key, draft.category, draft.description, map[])
  {
    var row := CreateDump(draft)["id" := Str(freshId)];
    var parsed := ParseDatetimes(iso, row);
    var k := KeyFromRow(parsed, now);
    if k.Some? {
      assert parsed["key"] == row["key"] && parsed["category"] == row["category"];
      assert parsed["id"] == row["id"];
      if "description" in row {
        assert parsed["description"] == ParseValue(iso, row["description"]);
      }
      assert parsed["translations"] == Object(map[]);
      assert TranslationsFrom(Object(map[]), now) == Some(map[]);
    }
  }

  /** A draft none of whose text looks like a timestamp is created with the
      assigned id and empty translations. */
  lemma CreatePlainDraft(iso: IsoFormat, t: Table, draft: TranslationKeyCreate, freshId: Id, now: Timestamp)
    requires Valid(t) && freshId !in t.rows
    requires !KeyTaken(t, Str(draft.key))
    requires PlainKey(iso, TranslationKey(Some(freshId), draft.key, draft.category, draft.description, map[]))
    ensures CreateTranslationKey(iso, t, draft, freshId, now).result
            == Ok(TranslationKey(Some(freshId), draft.key, draft.category, draft.description, map[]))
  {
    CreatedRowIsPlain(iso, draft, freshId);
    CreatedRowValidates(draft, freshId, now);
  }

  lemma CreatedRowIsPlain(iso: IsoFormat, draft: TranslationKeyCreate, freshId: Id)
    requires PlainKey(iso, TranslationKey(Some(freshId), draft.key, draft.category, draft.description, map[]))
    ensures ParseDatetimes(iso, CreateDump(draft)["id" := Str(freshId)]) == CreateDump(draft)["id" := Str(freshId)]
  {
    var d := CreateDump(draft);
    CreateDumpIsPlain(iso, draft);
    var row := d["id" := Str(freshId)];
    forall col | col in row
      ensures NoIsoText(iso, row[col])
    {
      if col != "id" {
        assert row[col] == d[col];
      }
    }
    ParseFixesPlainObject(iso, row);
  }

  lemma CreateDumpIsPlain(iso: IsoFormat, draft: TranslationKeyCreate)
    requires PlainText(iso, draft.key) && PlainText(iso, draft.category) && PlainOptional(iso, draft.description)
    ensures forall col :: col in CreateDump(draft) ==> NoIsoText(iso, CreateDump(draft)[col])
  {
    var d := CreateDump(draft);
    forall col | col in d
      ensures NoIsoText(iso, d[col])
    {
      if col == "key" {
      } else if col == "category" {
      } else if col == "translations" {
      } else {
        assert col == "description";
      }
    }
  }

  lemma CreatedRowValidates(draft: TranslationKeyCreate, freshId: Id, now: Timestamp)
    ensures KeyFromRow(CreateDump(draft)["id" := Str(freshId)], now)
            == Some(TranslationKey(Some(freshId), draft.key, draft.category, draft.description, map[]))
  {
    assert TranslationsFrom(Object(map[]), now) == Some(map[]);
  }

  /** A key whose text parses as a timestamp is inserted, yet create answers
      500: the read-back validation rejects the datetime the parser made. */
  lemma CreateIsoLookingKey(iso: IsoFormat, t: Table, draft: TranslationKeyCreate, freshId: Id, now: Timestamp)
    requires Valid(t) && freshId !in t.rows
    requires !KeyTaken(t, Str(draft.key))
    requires IsoText(iso, draft.key)
    ensures var r := CreateTranslationKey(iso, t, draft, freshId, now);
            freshId in r.table.rows && r.result == Err(DatabaseError(ValidationMessage))
  {
    IsoLookingKeyIsUnreadable(iso, CreateDump(draft)["id" := Str(freshId)], now);
  }

  /** Creating the same key twice: the second create is a 409 and leaves the
      table as the first left it. */
  lemma CreateTwiceConflicts(iso: IsoFormat, t: Table, draft: TranslationKeyCreate, id1: Id, id2: Id, now: Timestamp)
    requires Valid(t) && id1 !in t.rows && id2 !in t.rows && id1 != id2
    requires !KeyTaken(t, Str(draft.key))
    ensures var first := CreateTranslationKey(iso, t, draft, id1, now);
            var second := CreateTranslationKey(iso, first.table, draft, id2, now);
            second.result == Err(HttpError(409, "Translation key '" + draft.key + "' already exists"))
            && second.table == first.table
  {
    var first := CreateTranslationKey(iso, t, draft, id1, now);
    assert first.table.rows[id1]["key"] == Str(draft.key);
    assert KeyTaken(first.table, Str(draft.key));
  }

  // ---------------------------------------------------------------------------
  // update_translation_key

  /** `update.model_dump(exclude_unset=True)`: only the fields that were sent,
      and inside each sent translation only its sent fields. */
  function UpdateDump(patch: TranslationKeyUpdate): (d: Object)
    ensures "key" in d <==> patch.key.Some?
    ensures "category" in d <==> patch.category.Some?
    ensures "description" in d <==> patch.description.Some?
    ensures "translations" in d <==> patch.translations.Some?
    ensures d.Keys <= {"key", "category", "description", "translations"}
    ensures patch.key.Some? ==> d["key"] == Str(patch.key.value)
    ensures patch.category.Some? ==> d["category"] == Str(patch.category.value)
    ensures patch.description.Some? ==> d["description"] == TextOrNull(patch.description.value)
    ensures patch.translations.Some? ==> d["translations"] == SentTranslationsDump(patch.translations.value)
  {
    (if patch.key.Some? then map["key" := Str(patch.key.value)] else map[])
    + (if patch.category.Some? then map["category" := Str(patch.category.value)] else map[])
    + (if patch.description.Some? then map["description" := TextOrNull(patch.description.value)] else map[])
    + (if patch.translations.Some? then map["translations" := SentTranslationsDump(patch.translations.value)] else map[])
  }

  /** The partial-update semantics the route promises, on the typed key: a
      field that was sent replaces the old one, any other is kept. Sent
      translations replace the whole dict; one sent without `updated_at`
      carries `now`, the time the updated row is read. */
  function ApplyUpdate(k: TranslationKey, patch: TranslationKeyUpdate, now: Timestamp): (u: TranslationKey)
    ensures u.id == k.id
    ensures patch.key.None? ==> u.key == k.key
    ensures patch.category.None? ==> u.category == k.category
    ensures patch.description.None? ==> u.description == k.description
    ensures patch.translations.None? ==> u.translations == k.translations
    ensures patch.key.Some? ==> u.key == patch.key.value
    ensures patch.category.Some? ==> u.category == patch.category.value
    ensures patch.description.Some? ==> u.description == patch.description.value
    ensures patch.translations.Some? ==>
              var sent := patch.translations.value;
              && u.translations.Keys == sent.Keys
              && (forall lang :: lang in sent ==>
                    u.translations[lang].value == sent[lang].value && u.translations[lang].updatedBy == sent[lang].updatedBy)
              && (forall lang :: lang in sent && sent[lang].updatedAt.Some? ==>
                    u.translations[lang].updatedAt == sent[lang].updatedAt.value)
              && (forall lang :: lang in sent && sent[lang].updatedAt.None? ==> u.translations[lang].updatedAt == now)
    ensures patch == NoChanges ==> u == k
  {
    var translations := match patch.translations
      case Some(sent) => map lang | lang in sent :: Received(sent[lang], now)
      case None => k.translations;
    TranslationKey(k.id, patch.key.GetOr(k.key), patch.category.GetOr(k.category),
                   patch.description.GetOr(k.description), translations)
  }

  /** The patch sends a key that another stored row already holds. */
  predicate KeyClash(t: Table, id: Id, patch: TranslationKeyUpdate) {
    id in t.rows && patch.key.Some? && KeyTakenElsewhere(t, id, Str(patch.key.value))
  }

  /** `update_translation_key(id, patch)` against the table. A key another row
      holds makes the store raise, which the `except` turns into a 500; a patch
      that sets nothing updates no row, so the answer is None. */
  function UpdateTranslationKey(iso: IsoFormat, t: Table, id: Id, patch: TranslationKeyUpdate, now: Timestamp): (r: Effect<Option<TranslationKey>>)
    requires Valid(t)
    ensures Valid(r.table)
    ensures id !in t.rows ==> r == Effect(t, Ok(None))
    ensures patch == NoChanges ==> r == Effect(t, Ok(None))
    ensures KeyClash(t, id, patch) ==> r == Effect(t, Err(DatabaseError(DuplicateKeyMessage)))
    ensures r.table.rows.Keys == t.rows.Keys && r.table.order == t.order
    ensures forall other :: other in t.rows && other != id ==> r.table.rows[other] == t.rows[other]
    ensures id in t.rows && !KeyClash(t, id, patch) ==>
              r.table.rows[id] == t.rows[id] + SerializeDatetimes(iso, UpdateDump(patch))
    ensures r.result.Ok? && r.result.value.Some? ==> r.result.value.value.id == Some(id)
    ensures id in t.rows && patch != NoChanges && !KeyClash(t, id, patch) ==>
              && (r.result.Err? <==> KeyFromRow(ParseDatetimes(iso, r.table.rows[id]), now).None?)
              && (r.result.Ok? ==> r.result.value == KeyFromRow(ParseDatetimes(iso, r.table.rows[id]), now))
  {
    var payload := SerializeDatetimes(iso, UpdateDump(patch));
    UpdatePayload(iso, patch);
    UpdatedRowKeepsId(iso, t, id, payload, now);
    UpdatedRowReadsBack(iso, t, id, payload, now);
    var w := UpdateWhere(t, id, payload);
    assert id in t.rows && !KeyClash(t, id, patch) ==> w.table.rows[id] == t.rows[id] + payload by {
      if id in t.rows && !KeyClash(t, id, patch) && payload == map[] {
        assert t.rows[id] + payload == t.rows[id];
      }
    }
    Effect(w.table, ReadFirst(iso, w.response, now))
  }

  /** The serialized patch holds exactly the sent columns, never `id`, is
      empty only for the patch that sets nothing, and carries the sent key as
      text. */
  lemma UpdatePayload(iso: IsoFormat, patch: TranslationKeyUpdate)
    ensures var payload := SerializeDatetimes(iso, UpdateDump(patch));
            && payload.Keys == UpdateDump(patch).Keys
            && "id" !in payload
            && (payload == map[] <==> patch == NoChanges)
            && ("key" in payload <==> patch.key.Some?)
            && (patch.key.Some? ==> payload["key"] == Str(patch.key.value))
  {
    var dump := UpdateDump(patch);
    var payload := SerializeDatetimes(iso, dump);
    if patch != NoChanges {
      assert patch.key.Some? || patch.category.Some? || patch.description.Some? || patch.translations.Some?;
      assert dump.Keys != {};
      assert payload.Keys != {};
    } else {
      assert dump.Keys == {};
    }
  }

  /** A translation sent without `updated_at` is stored without one: the
      nested `exclude_unset` of the dump leaves the column out. */
  lemma UnsentStampIsNotStored(iso: IsoFormat, t: Table, id: Id, patch: TranslationKeyUpdate, now: Timestamp, lang: string)
    requires Valid(t) && id in t.rows && !KeyClash(t, id, patch)
    requires patch.translations.Some? && lang in patch.translations.value
    requires patch.translations.value[lang].updatedAt.None?
    ensures var row := UpdateTranslationKey(iso, t, id, patch, now).table.rows[id];
            && "translations" in row && row["translations"].Object? && lang in row["translations"].fields
            && row["translations"].fields[lang].Object?
            && row["translations"].fields[lang].fields.Keys == {"value", "updated_by"}
  {
    var payload := SerializeDatetimes(iso, UpdateDump(patch));
    UnsentStampNotInPayload(iso, patch, lang);
    assert UpdateTranslationKey(iso, t, id, patch, now).table.rows[id]["translations"] == payload["translations"];
  }

  lemma UnsentStampNotInPayload(iso: IsoFormat, patch: TranslationKeyUpdate, lang: string)
    requires patch.translations.Some? && lang in patch.translations.value
    requires patch.translations.value[lang].updatedAt.None?
    ensures var payload := SerializeDatetimes(iso, UpdateDump(patch));
            && "translations" in payload && payload["translations"].Object? && lang in payload["translations"].fields
            && payload["translations"].fields[lang].Object?
            && payload["translations"].fields[lang].fields.Keys == {"value", "updated_by"}
  {
    var sent := patch.translations.value;
    var column := SerializeValue(iso, SentTranslationsDump(sent));
    assert SerializeDatetimes(iso, UpdateDump(patch))["translations"] == column;
    assert column.fields[lang] == SerializeValue(iso, SentDump(sent[lang]));
  }

  /** A row updated without touching its `id` column reads back with that id. */
  lemma UpdatedRowKeepsId(iso: IsoFormat, t: Table, id: Id, payload: Row, now: Timestamp)
    requires Valid(t) && "id" !in payload
    ensures var r := ReadFirst(iso, UpdateWhere(t, id, payload).response, now);
            r.Ok? && r.value.Some? ==> r.value.value.id == Some(id)
  {
    if id in t.rows {
      ReadKeepsId(iso, t.rows[id] + payload, id, now);
    }
  }

  /** An update that the store performs answers with the updated row as
      validated: a 500 exactly when that row does not validate. */
  lemma UpdatedRowReadsBack(iso: IsoFormat, t: Table, id: Id, payload: Row, now: Timestamp)
    requires Valid(t) && "id" !in payload
    ensures var w := UpdateWhere(t, id, payload);
            var r := ReadFirst(iso, w.response, now);
            id in t.rows && payload != map[] && w.response.Rows? ==>
            && (r.Err? <==> KeyFromRow(ParseDatetimes(iso, w.table.rows[id]), now).None?)
            && (r.Ok? ==> r.value == KeyFromRow(ParseDatetimes(iso, w.table.rows[id]), now))
  {
  }

  /** A patch that sets the key to text that parses as a timestamp is
      written, yet update answers 500: the read-back validation rejects the
      datetime the parser made. */
  lemma UpdateIsoLookingKey(iso: IsoFormat, t: Table, id: Id, patch: TranslationKeyUpdate, now: Timestamp)
    requires Valid(t) && id in t.rows
    requires patch.key.Some? && IsoText(iso, patch.key.value)
    requires !KeyClash(t, id, patch)
    ensures var r := UpdateTranslationKey(iso, t, id, patch, now);
            && r.table.rows[id] == t.rows[id] + SerializeDatetimes(iso, UpdateDump(patch))
            && r.result == Err(DatabaseError(ValidationMessage))
  {
    UpdatePayload(iso, patch);
    var r := UpdateTranslationKey(iso, t, id, patch, now);
    IsoLookingKeyIsUnreadable(iso, r.table.rows[id], now);
  }

  /** Every text field of the patch is one the codec leaves as text. */
  predicate PlainUpdate(iso: IsoFormat, patch: TranslationKeyUpdate) {
    && PlainOptional(iso, patch.key)
    && PlainOptional(iso, patch.category)
    && (patch.description.Some? ==> PlainOptional(iso, patch.description.value))
    && (patch.translations.Some? ==> PlainSent(iso, patch.translations.value))
  }

  lemma UpdateDumpHasNoIsoText(iso: IsoFormat, patch: TranslationKeyUpdate)
    requires PlainUpdate(iso, patch)
    ensures NoIsoText(iso, Object(UpdateDump(patch)))
  {
    var d := UpdateDump(patch);
    if patch.translations.Some? {
      SentTranslationsDumpHasNoIsoText(iso, patch.translations.value);
    }
    forall col | col in d
      ensures NoIsoText(iso, d[col])
    {
      if col == "key" {
      } else if col == "category" {
      } else if col == "description" {
      } else {
        assert col == "translations";
      }
    }
  }

  /** Update against a readable row agrees with the typed partial-update
      semantics: the fields sent are replaced, all others kept, and a
      translation sent without `updated_at` reads back with `now`. It needs a
      patch that sets something and a key no other row holds; the other two
      cases are the None and the 500 of `UpdateTranslationKey`. */
  lemma UpdateMatchesReference(iso: IsoFormat, t: Table, id: Id, patch: TranslationKeyUpdate, now: Timestamp, k: TranslationKey)
    requires Valid(t) && RoundTrips(iso)
    requires id in t.rows
    requires KeyFromRow(ParseDatetimes(iso, t.rows[id]), now) == Some(k)
    requires PlainUpdate(iso, patch)
    requires patch != NoChanges && !KeyClash(t, id, patch)
    ensures UpdateTranslationKey(iso, t, id, patch, now).result == Ok(Some(ApplyUpdate(k, patch, now)))
  {
    var dump := UpdateDump(patch);
    UpdateDumpHasNoIsoText(iso, patch);
    RoundTrip(iso, dump);
    var payload := SerializeDatetimes(iso, dump);
    UpdatePayload(iso, patch);
    ParseDistributes(iso, t.rows[id], payload);
    assert ParseDatetimes(iso, t.rows[id] + payload) == ParseDatetimes(iso, t.rows[id]) + dump;
    PatchedRowValidates(ParseDatetimes(iso, t.rows[id]), patch, now, k);
    assert UpdateWhere(t, id, payload).response == Rows([t.rows[id] + payload]);
  }

  /** A patch that only replaces the translations, each sent in full, dumps
      to that one column holding the typed dump. */
  lemma TranslationsOnlyDump(m: map<string, Translation>)
    ensures UpdateDump(TranslationKeyUpdate(None, None, None, Some(SentInFull(m)))) == map["translations" := TranslationsDump(m)]
  {
    var d := UpdateDump(TranslationKeyUpdate(None, None, None, Some(SentInFull(m))));
    var want := map["translations" := TranslationsDump(m)];
    SentInFullDumps(m);
    assert d.Keys == {"translations"} == want.Keys;
    assert d["translations"] == want["translations"];
    MapsAgree(d, want);
  }

  /** Validating a row overlaid with the update's fields gives the typed
      partial update of what the row validated to. */
  lemma PatchedRowValidates(before: Row, patch: TranslationKeyUpdate, now: Timestamp, k: TranslationKey)
    requires KeyFromRow(before, now) == Some(k)
    ensures KeyFromRow(before + UpdateDump(patch), now) == Some(ApplyUpdate(k, patch, now))
  {
    PatchedTextColumns(before, patch, now, k);
    PatchedTranslationsColumn(before, patch, now, k);
  }

  lemma PatchedTextColumns(before: Row, patch: TranslationKeyUpdate, now: Timestamp, k: TranslationKey)
    requires KeyFromRow(before, now) == Some(k)
    ensures var parsed := before + UpdateDump(patch);
            var u := ApplyUpdate(k, patch, now);
            && RequiredText(parsed, "key") == Some(u.key)
            && RequiredText(parsed, "category") == Some(u.category)
            && OptionalText(parsed, "id") == Some(u.id)
            && OptionalText(parsed, "description") == Some(u.description)
  {
    var dump := UpdateDump(patch);
    var parsed := before + dump;
    assert OptionalText(parsed, "id") == OptionalText(before, "id");
    if patch.key.None? {
      assert RequiredText(parsed, "key") == RequiredText(before, "key");
    }
    if patch.category.None? {
      assert RequiredText(parsed, "category") == RequiredText(before, "category");
    }
    if patch.description.None? {
      assert OptionalText(parsed, "description") == OptionalText(before, "description");
    }
  }

  lemma PatchedTranslationsColumn(before: Row, patch: TranslationKeyUpdate, now: Timestamp, k: TranslationKey)
    requires KeyFromRow(before, now) == Some(k)
    ensures var parsed := before + UpdateDump(patch);
            var u := ApplyUpdate(k, patch, now);
            && ("translations" in parsed ==> TranslationsFrom(parsed["translations"], now) == Some(u.translations))
            && ("translations" !in parsed ==> u.translations == map[])
  {
    if patch.translations.Some? {
      SentTranslationsDumpValidates(patch.translations.value, now);
    }
  }

  // ---------------------------------------------------------------------------
  // delete_translation_key

  /** `return response.data == []`. */
  function DeleteOutcome(resp: Response): (r: Result<bool, HttpError>)
    ensures resp.Raised? ==> r == Err(DatabaseError(resp.message))
    ensures resp.Rows? ==> r.Ok? && (r.value <==> |resp.data| == 0)
  {
    match resp
    case Raised(message) => Err(DatabaseError(message))
    case Rows(data) => Ok(data == [])
  }

  /** `delete_translation_key(id)` as written. Because the delete returns the
      rows it removed, the answer is true exactly when no row had that id. */
  function DeleteTranslationKey(t: Table, id: Id): (r: Effect<bool>)
    requires Valid(t)
    ensures Valid(r.table)
    ensures r.table.rows == t.rows - {id}
    ensures r.result == Ok(id !in t.rows)
  {
    var w := DeleteWhere(t, id);
    Effect(w.table, DeleteOutcome(w.response))
  }

  /** Deleting a key that exists removes it but reports failure, which the
      route turns into a 404. */
  lemma DeleteExistingReportsFailure(t: Table, id: Id)
    requires Valid(t) && id in t.rows
    ensures var r := DeleteTranslationKey(t, id);
            r.result == Ok(false) && id !in r.table.rows && |r.table.rows| == |t.rows| - 1
  {
  }

  /** The delete the route expects: true exactly when a row was removed. */
  function DeleteTranslationKeyChecked(t: Table, id: Id): (r: Effect<bool>)
    requires Valid(t)
    ensures Valid(r.table)
    ensures r.table.rows == t.rows - {id}
    ensures r.result == Ok(id in t.rows)
  {
    var w := DeleteWhere(t, id);
    match w.response
    case Raised(message) => Effect(w.table, Err(DatabaseError(message)))
    case Rows(data) => Effect(w.table, Ok(data != []))
  }
}
