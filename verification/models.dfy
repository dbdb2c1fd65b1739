/** The pydantic models of models.py and what constructing them from a dict
    (`TranslationKey(**data)`) accepts. Validation is modelled as an exact shape
    match: a field must already hold a value of its declared type, and the
    defaults of the models fill in missing fields. */
module Models {
  import opened Wrappers
  import opened Json
  import opened Codec

  /** One language's translation of a key. */
  datatype Translation = Translation(value: string, updatedAt: Timestamp, updatedBy: string)

  /** A translation key as stored and returned by the service. */
  datatype TranslationKey = TranslationKey(
    id: Option<string>,
    key: string,
    category: string,
    description: Option<string>,
    translations: map<string, Translation>)

  /** The body of a create request; it has no translations field. */
  datatype TranslationKeyCreate = TranslationKeyCreate(key: string, category: string, description: Option<string>)

  /** A translation inside the body of an update. `updatedAt` is None when
      the client left it out: pydantic then fills it from the default factory
      but does not mark it as set, so `model_dump(exclude_unset=True)`, which
      applies to nested models too, leaves it out of the dump. */
  datatype SentTranslation = SentTranslation(value: string, updatedAt: Option<Timestamp>, updatedBy: string)

  /** The body of a partial update. `None` means the field was not sent;
      for `description`, `Some(None)` means it was sent as null. */
  datatype TranslationKeyUpdate = TranslationKeyUpdate(
    key: Option<string>,
    category: Option<string>,
    description: Option<Option<string>>,
    translations: Option<map<string, SentTranslation>>)

  /** The edits for one key in a bulk request: language code to new text. */
  datatype KeyEdits = KeyEdits(keyId: string, values: map<string, string>)

  /** The body of a bulk request, in the order its keys arrived, and the editor. */
  datatype BulkTranslationUpdate = BulkTranslationUpdate(translations: seq<KeyEdits>, updatedBy: string)

  /** The update with every field left unset. */
  const NoChanges := TranslationKeyUpdate(None, None, None, None)

  // ---------------------------------------------------------------------------
  // From dicts to models

  /** A `str` field that must be present. */
  function RequiredText(d: Object, field: string): (r: Option<string>)
    ensures r.Some? <==> field in d && d[field].Str?
    ensures r.Some? ==> d[field] == Str(r.value)
  {
    if field in d && d[field].Str? then Some(d[field].s) else None
  }

  /** An `Optional[str] = None` field: absent or null gives `Some(None)`, text
      gives `Some(Some(text))`, anything else fails. */
  function OptionalText(d: Object, field: string): (r: Option<Option<string>>)
    ensures field !in d ==> r == Some(None)
    ensures r == Some(None) <==> field !in d || d[field] == Null
    ensures r.Some? && r.value.Some? ==> field in d && d[field] == Str(r.value.value)
    ensures field in d && d[field].Str? ==> r == Some(Some(d[field].s))
    ensures r.None? <==> field in d && d[field] != Null && !d[field].Str?
  {
    if field !in d || d[field] == Null then Some(None)
    else if d[field].Str? then Some(Some(d[field].s))
    else None
  }

  /** `Translation(**d)`: `value` and `updated_by` are required text,
      `updated_at` must be a datetime and defaults to `now`. */
  function TranslationFrom(v: Value, now: Timestamp): (r: Option<Translation>)
    ensures r.Some? ==> v.Object? && "value" in v.fields && v.fields["value"] == Str(r.value.value)
    ensures r.Some? ==> "updated_by" in v.fields && v.fields["updated_by"] == Str(r.value.updatedBy)
    ensures r.Some? && "updated_at" !in v.fields ==> r.value.updatedAt == now
    ensures r.Some? && "updated_at" in v.fields ==> v.fields["updated_at"] == Time(r.value.updatedAt)
    ensures r.Some? <==>
              && v.Object?
              && "value" in v.fields && v.fields["value"].Str?
              && "updated_by" in v.fields && v.fields["updated_by"].Str?
              && ("updated_at" in v.fields ==> v.fields["updated_at"].Time?)
  {
    match v
    case Object(d) =>
      if RequiredText(d, "value").Some? && RequiredText(d, "updated_by").Some?
         && ("updated_at" !in d || d["updated_at"].Time?)
      then
        var at := if "updated_at" in d then d["updated_at"].t else now;
        Some(Translation(d["value"].s, at, d["updated_by"].s))
      else None
    case _ => None
  }

  /** A `Dict[str, Translation]` field: a dict all of whose entries validate. */
  function TranslationsFrom(v: Value, now: Timestamp): (r: Option<map<string, Translation>>)
    ensures r.Some? <==> v.Object? && forall lang :: lang in v.fields ==> TranslationFrom(v.fields[lang], now).Some?
    ensures r.Some? ==> r.value.Keys == v.fields.Keys
    ensures r.Some? ==> forall lang :: lang in r.value ==> TranslationFrom(v.fields[lang], now) == Some(r.value[lang])
  {
    if v.Object? && forall lang :: lang in v.fields ==> TranslationFrom(v.fields[lang], now).Some?
    then Some(map lang | lang in v.fields :: TranslationFrom(v.fields[lang], now).value)
    else None
  }

  /** `TranslationKey(**row)`: `key` and `category` are required text, `id` and
      `description` default to None, `translations` defaults to the empty map.
      Columns the model does not declare are ignored. */
  function KeyFromRow(row: Object, now: Timestamp): (r: Option<TranslationKey>)
    ensures r.Some? ==> "key" in row && row["key"] == Str(r.value.key)
    ensures r.Some? ==> "category" in row && row["category"] == Str(r.value.category)
    ensures r.Some? ==> Some(r.value.id) == OptionalText(row, "id")
    ensures r.Some? ==> Some(r.value.description) == OptionalText(row, "description")
    ensures r.Some? && "translations" !in row ==> r.value.translations == map[]
    ensures r.Some? && "translations" in row ==> TranslationsFrom(row["translations"], now) == Some(r.value.translations)
    ensures r.None? <==>
              || RequiredText(row, "key").None?
              || RequiredText(row, "category").None?
              || OptionalText(row, "id").None?
              || OptionalText(row, "description").None?
              || ("translations" in row && TranslationsFrom(row["translations"], now).None?)
  {
    var key := RequiredText(row, "key");
    var category := RequiredText(row, "category");
    var id := OptionalText(row, "id");
    var description := OptionalText(row, "description");
    var translations := if "translations" in row then TranslationsFrom(row["translations"], now) else Some(map[]);
    if key.Some? && category.Some? && id.Some? && description.Some? && translations.Some?
    then Some(TranslationKey(id.value, key.value, category.value, description.value, translations.value))
    else None
  }

  // ---------------------------------------------------------------------------
  // From models to dicts

  function TextOrNull(s: Option<string>): Value {
    match s
    case Some(t) => Str(t)
    case None => Null
  }

  /** `Translation.model_dump()`: the updated_at field is still a datetime. */
  function TranslationDump(tr: Translation): (r: Value)
    ensures r.Object? && r.fields.Keys == {"value", "updated_at", "updated_by"}
    ensures r.fields["value"] == Str(tr.value) && r.fields["updated_by"] == Str(tr.updatedBy)
    ensures r.fields["updated_at"] == Time(tr.updatedAt)
  {
    Object(map["value" := Str(tr.value), "updated_at" := Time(tr.updatedAt), "updated_by" := Str(tr.updatedBy)])
  }

  function TranslationsDump(m: map<string, Translation>): Value {
    Object(map lang | lang in m :: TranslationDump(m[lang]))
  }

  /** `model_dump(exclude_unset=True)` of a sent translation: `updated_at`
      is a column only when the client sent it. */
  function SentDump(e: SentTranslation): (r: Value)
    ensures r.Object? && r.fields.Keys == {"value", "updated_by"} + (if e.updatedAt.Some? then {"updated_at"} else {})
    ensures r.fields["value"] == Str(e.value) && r.fields["updated_by"] == Str(e.updatedBy)
    ensures e.updatedAt.Some? ==> r.fields["updated_at"] == Time(e.updatedAt.value)
  {
    if e.updatedAt.Some? then
      Object(map["value" := Str(e.value), "updated_at" := Time(e.updatedAt.value), "updated_by" := Str(e.updatedBy)])
    else Object(map["value" := Str(e.value), "updated_by" := Str(e.updatedBy)])
  }

  function SentTranslationsDump(m: map<string, SentTranslation>): Value {
    Object(map lang | lang in m :: SentDump(m[lang]))
  }

  /** The translation that a sent one becomes once it is stored and read
      back: an unsent `updated_at` is filled at reading time. */
  function Received(e: SentTranslation, now: Timestamp): Translation {
    Translation(e.value, e.updatedAt.GetOr(now), e.updatedBy)
  }

  /** Typed translations sent with every field set. */
  function SentInFull(m: map<string, Translation>): map<string, SentTranslation> {
    map lang | lang in m :: SentTranslation(m[lang].value, Some(m[lang].updatedAt), m[lang].updatedBy)
  }

  /** Translations sent in full are received as themselves, whatever the
      time of reading. */
  lemma SentInFullReceived(m: map<string, Translation>, now: Timestamp)
    ensures (map lang | lang in SentInFull(m) :: Received(SentInFull(m)[lang], now)) == m
  {
    var s := SentInFull(m);
    var r := map lang | lang in s :: Received(s[lang], now);
    forall lang | lang in m
      ensures r[lang] == m[lang]
    {
      assert s[lang].updatedAt == Some(m[lang].updatedAt);
    }
    MapsAgree(r, m);
  }

  /** Translations sent in full dump like the typed ones. */
  lemma SentInFullDumps(m: map<string, Translation>)
    ensures SentTranslationsDump(SentInFull(m)) == TranslationsDump(m)
  {
    var s := SentInFull(m);
    var a := SentTranslationsDump(s).fields;
    var b := TranslationsDump(m).fields;
    forall lang | lang in m
      ensures a[lang] == b[lang]
    {
      SentInFullEntry(m[lang]);
    }
    assert a.Keys == b.Keys;
    MapsAgree(a, b);
  }

  lemma SentInFullEntry(tr: Translation)
    ensures SentDump(SentTranslation(tr.value, Some(tr.updatedAt), tr.updatedBy)) == TranslationDump(tr)
  {
  }

  /** Validation of a sent translation's dump: the sent fields come back, and
      a missing `updated_at` becomes `now`. */
  lemma SentDumpValidates(e: SentTranslation, now: Timestamp)
    ensures TranslationFrom(SentDump(e), now) == Some(Received(e, now))
  {
  }

  lemma SentTranslationsDumpValidates(m: map<string, SentTranslation>, now: Timestamp)
    ensures TranslationsFrom(SentTranslationsDump(m), now) == Some(map lang | lang in m :: Received(m[lang], now))
  {
    var t := SentTranslationsDump(m);
    var want := map lang | lang in m :: Received(m[lang], now);
    assert t.fields.Keys == m.Keys;
    forall lang | lang in t.fields
      ensures TranslationFrom(t.fields[lang], now) == Some(want[lang])
    {
      SentDumpValidates(m[lang], now);
    }
    var r := TranslationsFrom(t, now);
    assert r.Some?;
    MapsAgree(r.value, want);
  }

  /** `TranslationKey.model_dump()`. */
  function KeyDump(k: TranslationKey): (r: Object)
    ensures r.Keys == {"id", "key", "category", "description", "translations"}
    ensures r["key"].Str? && r["category"].Str?
    ensures r["translations"].Object? && r["translations"].fields.Keys == k.translations.Keys
  {
    map["id" := TextOrNull(k.id), "key" := Str(k.key), "category" := Str(k.category),
        "description" := TextOrNull(k.description), "translations" := TranslationsDump(k.translations)]
  }

  /** Validation undoes dumping: `TranslationKey(**k.model_dump()) == k`. */
  lemma DumpThenValidate(k: TranslationKey, now: Timestamp)
    ensures KeyFromRow(KeyDump(k), now) == Some(k)
  {
    var d := KeyDump(k);
    TranslationsDumpValidates(k.translations, now);
    DumpColumns(k);
    assert RequiredText(d, "key") == Some(k.key) && RequiredText(d, "category") == Some(k.category);
    assert OptionalText(d, "id") == Some(k.id) && OptionalText(d, "description") == Some(k.description);
  }

  /** Each column of the dump holds the field of the same name. */
  lemma DumpColumns(k: TranslationKey)
    ensures var d := KeyDump(k);
            && d["id"] == TextOrNull(k.id) && d["key"] == Str(k.key) && d["category"] == Str(k.category)
            && d["description"] == TextOrNull(k.description) && d["translations"] == TranslationsDump(k.translations)
  {
  }

  /** Validation undoes dumping one translation. */
  lemma TranslationDumpValidates(tr: Translation, now: Timestamp)
    ensures TranslationFrom(TranslationDump(tr), now) == Some(tr)
  {
  }

  /** Validation undoes dumping a translations map. */
  lemma TranslationsDumpValidates(m: map<string, Translation>, now: Timestamp)
    ensures TranslationsFrom(TranslationsDump(m), now) == Some(m)
  {
    var t := TranslationsDump(m);
    assert t.fields.Keys == m.Keys;
    forall lang | lang in t.fields
      ensures TranslationFrom(t.fields[lang], now) == Some(m[lang])
    {
      TranslationDumpValidates(m[lang], now);
    }
    var r := TranslationsFrom(t, now);
    assert r.Some?;
    assert r.value == m;
  }

  // ---------------------------------------------------------------------------
  // Keys that survive the timestamp codec

  /** Text the codec leaves as text. */
  predicate PlainText(iso: IsoFormat, s: string) {
    !IsoText(iso, s)
  }

  predicate PlainOptional(iso: IsoFormat, s: Option<string>) {
    s.Some? ==> PlainText(iso, s.value)
  }

  predicate PlainTranslations(iso: IsoFormat, m: map<string, Translation>) {
    forall lang :: lang in m ==> PlainText(iso, m[lang].value) && PlainText(iso, m[lang].updatedBy)
  }

  predicate PlainSent(iso: IsoFormat, m: map<string, SentTranslation>) {
    forall lang :: lang in m ==> PlainText(iso, m[lang].value) && PlainText(iso, m[lang].updatedBy)
  }

  /** Every piece of text in the key is one the codec leaves as text. */
  predicate PlainKey(iso: IsoFormat, k: TranslationKey) {
    && PlainOptional(iso, k.id)
    && PlainText(iso, k.key)
    && PlainText(iso, k.category)
    && PlainOptional(iso, k.description)
    && PlainTranslations(iso, k.translations)
  }

  lemma TranslationDumpHasNoIsoText(iso: IsoFormat, tr: Translation)
    requires PlainText(iso, tr.value) && PlainText(iso, tr.updatedBy)
    ensures NoIsoText(iso, TranslationDump(tr))
  {
    var d := TranslationDump(tr).fields;
    forall f | f in d
      ensures NoIsoText(iso, d[f])
    {
      assert f == "value" || f == "updated_at" || f == "updated_by";
    }
  }

  lemma TranslationsDumpHasNoIsoText(iso: IsoFormat, m: map<string, Translation>)
    requires PlainTranslations(iso, m)
    ensures NoIsoText(iso, TranslationsDump(m))
  {
    var t := TranslationsDump(m);
    forall lang | lang in t.fields
      ensures NoIsoText(iso, t.fields[lang])
    {
      TranslationDumpHasNoIsoText(iso, m[lang]);
    }
  }

  lemma SentTranslationsDumpHasNoIsoText(iso: IsoFormat, m: map<string, SentTranslation>)
    requires PlainSent(iso, m)
    ensures NoIsoText(iso, SentTranslationsDump(m))
  {
    var t := SentTranslationsDump(m);
    forall lang | lang in t.fields
      ensures NoIsoText(iso, t.fields[lang])
    {
      SentDumpHasNoIsoText(iso, m[lang]);
    }
  }

  lemma SentDumpHasNoIsoText(iso: IsoFormat, e: SentTranslation)
    requires PlainText(iso, e.value) && PlainText(iso, e.updatedBy)
    ensures NoIsoText(iso, SentDump(e))
  {
    var d := SentDump(e).fields;
    forall f | f in d
      ensures NoIsoText(iso, d[f])
    {
      assert f == "value" || f == "updated_at" || f == "updated_by";
    }
  }

  lemma DumpHasNoIsoText(iso: IsoFormat, k: TranslationKey)
    requires PlainKey(iso, k)
    ensures NoIsoText(iso, Object(KeyDump(k)))
  {
    TranslationsDumpHasNoIsoText(iso, k.translations);
    var dump := KeyDump(k);
    forall f | f in dump
      ensures NoIsoText(iso, dump[f])
    {
      assert f in {"id", "key", "category", "description", "translations"};
    }
  }

  /** A key written through `serialize_datetimes` and read back through
      `parse_datetimes` and validation is the key that was written, provided
      none of its text looks like a timestamp. */
  lemma StoredKeyRoundTrip(iso: IsoFormat, k: TranslationKey, now: Timestamp)
    requires RoundTrips(iso)
    requires PlainKey(iso, k)
    ensures KeyFromRow(ParseDatetimes(iso, SerializeDatetimes(iso, KeyDump(k))), now) == Some(k)
  {
    DumpHasNoIsoText(iso, k);
    RoundTrip(iso, KeyDump(k));
    DumpThenValidate(k, now);
  }

  /** Conversely, every key that reads back through `parse_datetimes` is plain:
      the parser has already turned any ISO-looking text into a datetime, and
      validation rejects a datetime where text is declared. */
  lemma ReadKeysArePlain(iso: IsoFormat, row: Object, now: Timestamp, k: TranslationKey)
    requires KeyFromRow(ParseDatetimes(iso, row), now) == Some(k)
    ensures PlainKey(iso, k)
  {
    ValidatedIsPlain(iso, ParseDatetimes(iso, row), now, k);
  }

  /** What validates out of a dict free of ISO-looking text is plain. */
  lemma ValidatedIsPlain(iso: IsoFormat, d: Object, now: Timestamp, k: TranslationKey)
    requires NoIsoText(iso, Object(d))
    requires KeyFromRow(d, now) == Some(k)
    ensures PlainKey(iso, k)
  {
    assert NoIsoText(iso, d["key"]) && NoIsoText(iso, d["category"]);
    if "id" in d {
      assert NoIsoText(iso, d["id"]);
    }
    if "description" in d {
      assert NoIsoText(iso, d["description"]);
    }
    if "translations" in d {
      assert NoIsoText(iso, d["translations"]);
      ValidatedTranslationsArePlain(iso, d["translations"], now, k.translations);
    }
  }

  lemma ValidatedTranslationsArePlain(iso: IsoFormat, v: Value, now: Timestamp, m: map<string, Translation>)
    requires NoIsoText(iso, v)
    requires TranslationsFrom(v, now) == Some(m)
    ensures PlainTranslations(iso, m)
  {
    forall lang | lang in m
      ensures PlainText(iso, m[lang].value) && PlainText(iso, m[lang].updatedBy)
    {
      ValidatedTranslationIsPlain(iso, v.fields[lang], now, m[lang]);
    }
  }

  lemma ValidatedTranslationIsPlain(iso: IsoFormat, v: Value, now: Timestamp, tr: Translation)
    requires NoIsoText(iso, v)
    requires TranslationFrom(v, now) == Some(tr)
    ensures PlainText(iso, tr.value) && PlainText(iso, tr.updatedBy)
  {
    assert NoIsoText(iso, v.fields["value"]) && NoIsoText(iso, v.fields["updated_by"]);
  }

  /** A row whose key text parses as a timestamp cannot be read back at all:
      `parse_datetimes` turns it into a datetime and validation of the `str`
      field fails. */
  lemma IsoLookingKeyIsUnreadable(iso: IsoFormat, row: Object, now: Timestamp)
    requires "key" in row && row["key"].Str? && IsoText(iso, row["key"].s)
    ensures KeyFromRow(ParseDatetimes(iso, row), now).None?
  {
    assert ParseDatetimes(iso, row)["key"].Time?;
  }
}
