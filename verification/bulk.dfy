/** `bulk_update_translations` of database.py: for each key of the request in
    turn, fetch the key, merge the new language entries into its translations
    (one timestamp and one editor for every entry of that key) and write back
    only the `translations` column. Missing keys are skipped and writes the
    store ignores are not counted; the first store error aborts the rest of
    the batch, and the writes made before it stay. */
module Bulk {
  import opened Wrappers
  import opened Json
  import opened Codec
  import opened Models
  import opened Store
  import opened Service

  /** How the store misbehaves for one key of the batch: the fetch raises, the
      write raises, or the write is answered with no rows (as a row-level
      policy would). Keys without a fault behave as the table says. */
  datatype Fault = FetchRaises(message: string) | WriteRaises(message: string) | WriteIgnored

  /** The outcome of handling one key. */
  datatype Step = Skipped | Stored(table: Table, acknowledged: bool) | Aborted(reason: string)

  /** The outcome of a run over several keys: the table, and either the number
      of acknowledged writes or the reason the run was aborted. */
  datatype Batch = Batch(table: Table, writes: Result<nat, string>)

  /** A translation entry as the bulk update writes it: plain JSON, with the
      timestamp already rendered as text. */
  function EntryObject(iso: IsoFormat, tr: Translation): (r: Value)
    ensures r.Object? && r.fields.Keys == {"value", "updated_at", "updated_by"}
    ensures r.fields["value"] == Str(tr.value) && r.fields["updated_by"] == Str(tr.updatedBy)
    ensures r.fields["updated_at"] == Str(iso.render(tr.updatedAt))
    ensures NoTime(r)
  {
    Object(map["value" := Str(tr.value), "updated_at" := Str(iso.render(tr.updatedAt)), "updated_by" := Str(tr.updatedBy)])
  }

  /** The merge on typed translations: every existing language is kept, every
      edited language is inserted or overwritten with the new text, the one
      timestamp of this key and the editor. */
  function MergeTranslations(current: map<string, Translation>, values: map<string, string>,
                             stamp: Timestamp, editor: string): (r: map<string, Translation>)
    ensures r.Keys == current.Keys + values.Keys
    ensures forall lang :: lang in current && lang !in values ==> r[lang] == current[lang]
    ensures forall lang :: lang in values ==>
              r[lang].value == values[lang] && r[lang].updatedAt == stamp && r[lang].updatedBy == editor
  {
    current + map lang | lang in values :: Translation(values[lang], stamp, editor)
  }

  /** The `translations` payload of one key: existing entries copied with
      their timestamps rendered, then the edited languages written over them. */
  function MergedEntries(iso: IsoFormat, current: map<string, Translation>, values: map<string, string>,
                         stamp: Timestamp, editor: string): (r: map<string, Value>)
    ensures r.Keys == current.Keys + values.Keys
    ensures forall lang :: lang in current && lang !in values ==> r[lang] == EntryObject(iso, current[lang])
    ensures forall lang :: lang in values ==> r[lang] == EntryObject(iso, Translation(values[lang], stamp, editor))
  {
    var existing := map lang | lang in current :: EntryObject(iso, current[lang]);
    var added := map lang | lang in values :: EntryObject(iso, Translation(values[lang], stamp, editor));
    existing + added
  }

  /** What a handled key may do to the table: keep it, or rewrite the
      `translations` column of that key's row and nothing else. */
  ghost predicate StepFrame(t: Table, id: Id, s: Step) {
    s.Stored? ==>
      && Valid(s.table) && s.table.order == t.order && s.table.rows.Keys == t.rows.Keys
      && (forall other :: other in t.rows && other != id ==> s.table.rows[other] == t.rows[other])
      && (!s.acknowledged ==> s.table == t)
      && (s.acknowledged ==>
            && id in t.rows
            && s.table.rows[id].Keys == t.rows[id].Keys + {"translations"}
            && forall col :: col in t.rows[id] && col != "translations" ==> s.table.rows[id][col] == t.rows[id][col])
  }

  /** Lines 176-196 for a key that was found as `k`. */
  function WriteMerged(iso: IsoFormat, t: Table, faults: map<Id, Fault>, edits: KeyEdits, k: TranslationKey,
                       stamp: Timestamp, editor: string): (s: Step)
    requires Valid(t)
    ensures StepFrame(t, edits.keyId, s)
    ensures s.Stored? && s.acknowledged ==>
              s.table.rows[edits.keyId]
              == t.rows[edits.keyId] + map["translations" := Object(MergedEntries(iso, k.translations, edits.values, stamp, editor))]
    ensures !s.Skipped?
    ensures edits.keyId in t.rows && edits.keyId !in faults ==> s.Stored? && s.acknowledged
    ensures s.Stored? && s.acknowledged ==> edits.keyId !in faults || faults[edits.keyId].FetchRaises?
    ensures s.Aborted? <==> edits.keyId in faults && faults[edits.keyId].WriteRaises?
  {
    var id := edits.keyId;
    var payload := map["translations" := Object(MergedEntries(iso, k.translations, edits.values, stamp, editor))];
    if id in faults && faults[id].WriteRaises? then Aborted(faults[id].message)
    else if id in faults && faults[id].WriteIgnored? then Stored(t, false)
    else
      UpdateIsStep(t, id, payload);
      var w := UpdateWhere(t, id, payload);
      Stored(w.table, w.response.Rows? && w.response.data != [])
  }

  /** Writing a translations-only payload is a step within the frame. */
  lemma UpdateIsStep(t: Table, id: Id, payload: Row)
    requires Valid(t) && payload.Keys == {"translations"}
    ensures var w := UpdateWhere(t, id, payload);
            && StepFrame(t, id, Stored(w.table, w.response.Rows? && w.response.data != []))
            && (id in t.rows <==> w.response.Rows? && w.response.data != [])
  {
    var w := UpdateWhere(t, id, payload);
    if id in t.rows {
      assert w.table.rows[id] == t.rows[id] + payload;
      assert w.table.rows[id].Keys == t.rows[id].Keys + {"translations"};
    }
  }

  /** The two readings of the clock while one key is handled: `readAt` when
      the key is fetched (it fills a missing `updated_at` through the model's
      default), `writtenAt` for `current_timestamp` of line 177. */
  datatype Clock = Clock(readAt: Timestamp, writtenAt: Timestamp)

  /** The key is there and the store behaves normally for it. */
  predicate Writable(keys: set<Id>, faults: map<Id, Fault>, id: Id) {
    id in keys && id !in faults
  }

  /** Handling the key raises: its fetch raises, or the key is there and
      either its stored row does not validate or its write raises. */
  predicate Raises(iso: IsoFormat, t: Table, faults: map<Id, Fault>, id: Id, clock: Clock)
    requires Valid(t)
  {
    || (id in faults && faults[id].FetchRaises?)
    || (id in t.rows && (GetTranslationKey(iso, t, id, clock.readAt).Err? || (id in faults && faults[id].WriteRaises?)))
  }

  /** Handles one key of the batch. */
  function MergeOne(iso: IsoFormat, t: Table, faults: map<Id, Fault>, edits: KeyEdits,
                    clock: Clock, editor: string): (s: Step)
    requires Valid(t)
    ensures StepFrame(t, edits.keyId, s)
    ensures s.Skipped? <==> edits.keyId !in t.rows && (edits.keyId in faults ==> !faults[edits.keyId].FetchRaises?)
    ensures s.Stored? && s.acknowledged <==> !s.Aborted? && Writable(t.rows.Keys, faults, edits.keyId)
    ensures s.Aborted? <==> Raises(iso, t, faults, edits.keyId, clock)
  {
    var id := edits.keyId;
    if id in faults && faults[id].FetchRaises? then
      // get_translation_key raises HTTPException(500, ...), and str() of it
      // is what the bulk handler reports
      Aborted("500: " + DatabaseError(faults[id].message).detail)
    else match GetTranslationKey(iso, t, id, clock.readAt)
      case Err(e) => Aborted("500: " + e.detail)
      case Ok(None) => Skipped
      case Ok(Some(k)) => WriteMerged(iso, t, faults, edits, k, clock.writtenAt, editor)
  }

  /** Some key of the batch has this id. */
  predicate Mentions(batch: seq<KeyEdits>, id: Id) {
    exists i :: 0 <= i < |batch| && batch[i].keyId == id
  }

  /** A key is mentioned by a non-empty batch iff it is the head's or the tail mentions it. */
  lemma MentionsSplit(batch: seq<KeyEdits>)
    requires |batch| > 0
    ensures forall id :: Mentions(batch, id) <==> batch[0].keyId == id || Mentions(batch[1..], id)
  {
    forall id | Mentions(batch[1..], id)
      ensures Mentions(batch, id)
    {
      var i :| 0 <= i < |batch[1..]| && batch[1..][i].keyId == id;
      assert batch[i + 1].keyId == id;
    }
  }

  /** Some key of the batch is there and has no fault. */
  predicate SomeWritable(keys: set<Id>, faults: map<Id, Fault>, batch: seq<KeyEdits>) {
    exists i :: 0 <= i < |batch| && Writable(keys, faults, batch[i].keyId)
  }

  /** A non-empty batch has a writable key iff its head's is or its tail has one. */
  lemma SomeWritableSplit(keys: set<Id>, faults: map<Id, Fault>, batch: seq<KeyEdits>)
    requires |batch| > 0
    ensures SomeWritable(keys, faults, batch)
            <==> Writable(keys, faults, batch[0].keyId) || SomeWritable(keys, faults, batch[1..])
  {
    if SomeWritable(keys, faults, batch[1..]) {
      var i :| 0 <= i < |batch[1..]| && Writable(keys, faults, batch[1..][i].keyId);
      assert batch[i + 1] == batch[1..][i];
    }
    if SomeWritable(keys, faults, batch) && !Writable(keys, faults, batch[0].keyId) {
      var i :| 0 <= i < |batch| && Writable(keys, faults, batch[i].keyId);
      assert batch[1..][i - 1] == batch[i];
    }
  }

  /** The loop of lines 150-196 over the keys of the batch, in order;
      `done` counts the writes acknowledged so far. */
  function ApplyEdits(iso: IsoFormat, t: Table, faults: map<Id, Fault>, batch: seq<KeyEdits>,
                      clocks: seq<Clock>, editor: string, done: nat): (b: Batch)
    requires Valid(t) && |clocks| == |batch|
    ensures Valid(b.table) && b.table.order == t.order && b.table.rows.Keys == t.rows.Keys
    ensures forall id :: id in t.rows && !Mentions(batch, id) ==> b.table.rows[id] == t.rows[id]
    ensures b.writes.Ok? ==> done <= b.writes.value <= done + |batch|
    ensures b.writes == Ok(done) ==> b.table == t
    decreases |batch|
  {
    if |batch| == 0 then Batch(t, Ok(done))
    else
      MentionsSplit(batch);
      match MergeOne(iso, t, faults, batch[0], clocks[0], editor)
      case Aborted(reason) => Batch(t, Err(reason))
      case Skipped => ApplyEdits(iso, t, faults, batch[1..], clocks[1..], editor, done)
      case Stored(next, acknowledged) =>
        ApplyEdits(iso, next, faults, batch[1..], clocks[1..], editor, if acknowledged then done + 1 else done)
  }

  /** A run that is not aborted has counted a write iff some key of the batch
      is there and has no fault: such a key is always written and
      acknowledged, and no other key is counted. */
  lemma {:induction false} CountsWritableKeys(iso: IsoFormat, t: Table, faults: map<Id, Fault>, batch: seq<KeyEdits>,
                                              clocks: seq<Clock>, editor: string, done: nat)
    requires Valid(t) && |clocks| == |batch|
    ensures var b := ApplyEdits(iso, t, faults, batch, clocks, editor, done);
            b.writes.Ok? ==> (b.writes.value > done <==> SomeWritable(t.rows.Keys, faults, batch))
    decreases |batch|
  {
    if |batch| > 0 {
      SomeWritableSplit(t.rows.Keys, faults, batch);
      match MergeOne(iso, t, faults, batch[0], clocks[0], editor)
      case Aborted(_) =>
      case Skipped =>
        CountsWritableKeys(iso, t, faults, batch[1..], clocks[1..], editor, done);
      case Stored(next, acknowledged) =>
        CountsWritableKeys(iso, next, faults, batch[1..], clocks[1..], editor, if acknowledged then done + 1 else done);
    }
  }

  /** `bulk_update_translations(updates, updated_by)`: true iff at least one
      write was acknowledged; an abort is a 500. `clocks` holds the two clock
      readings for each key of the request. */
  function BulkUpdateTranslations(iso: IsoFormat, t: Table, faults: map<Id, Fault>,
                                  request: BulkTranslationUpdate, clocks: seq<Clock>): (r: Effect<bool>)
    requires Valid(t) && |clocks| == |request.translations|
    ensures Valid(r.table) && r.table.rows.Keys == t.rows.Keys
    ensures r.result == Ok(false) ==> r.table == t
    ensures r.result.Err? ==> r.result.error.status == 500
    ensures r.table == ApplyEdits(iso, t, faults, request.translations, clocks, request.updatedBy, 0).table
    ensures r.result.Ok? <==> ApplyEdits(iso, t, faults, request.translations, clocks, request.updatedBy, 0).writes.Ok?
    ensures r.result == Ok(true) <==>
              && ApplyEdits(iso, t, faults, request.translations, clocks, request.updatedBy, 0).writes.Ok?
              && SomeWritable(t.rows.Keys, faults, request.translations)
  {
    var b := ApplyEdits(iso, t, faults, request.translations, clocks, request.updatedBy, 0);
    CountsWritableKeys(iso, t, faults, request.translations, clocks, request.updatedBy, 0);
    match b.writes
    case Ok(n) =>
      assert n == 0 ==> b.writes == Ok(0);
      Effect(b.table, Ok(n > 0))
    case Err(reason) => Effect(b.table, Err(HttpError(500, "Database error during bulk update: " + reason)))
  }

  // ---------------------------------------------------------------------------
  // Properties

  /** A batch none of whose keys exists, and whose fetches do not raise,
      changes nothing and answers false. */
  lemma {:induction false} NoKeysFound(iso: IsoFormat, t: Table, faults: map<Id, Fault>, batch: seq<KeyEdits>,
                                       clocks: seq<Clock>, editor: string, done: nat)
    requires Valid(t) && |clocks| == |batch|
    requires forall i :: 0 <= i < |batch| ==> batch[i].keyId !in t.rows
    requires forall i :: 0 <= i < |batch| ==> batch[i].keyId in faults ==> !faults[batch[i].keyId].FetchRaises?
    ensures ApplyEdits(iso, t, faults, batch, clocks, editor, done) == Batch(t, Ok(done))
    decreases |batch|
  {
    if |batch| > 0 {
      assert MergeOne(iso, t, faults, batch[0], clocks[0], editor).Skipped?;
      NoKeysFound(iso, t, faults, batch[1..], clocks[1..], editor, done);
    }
  }

  /** The request-level form: all keys missing answers false (the route's 400). */
  lemma NoKeysFoundAnswersFalse(iso: IsoFormat, t: Table, faults: map<Id, Fault>,
                                request: BulkTranslationUpdate, clocks: seq<Clock>)
    requires Valid(t) && |clocks| == |request.translations|
    requires forall i :: 0 <= i < |request.translations| ==> request.translations[i].keyId !in t.rows
    requires faults == map[]
    ensures BulkUpdateTranslations(iso, t, faults, request, clocks) == Effect(t, Ok(false))
  {
    NoKeysFound(iso, t, faults, request.translations, clocks, request.updatedBy, 0);
  }

  /** Running a batch in two pieces: an abort in the first piece ends the run,
      otherwise the second piece starts from the table and count the first
      left. */
  lemma {:induction false} ApplyEditsSplit(iso: IsoFormat, t: Table, faults: map<Id, Fault>,
                                           a: seq<KeyEdits>, sa: seq<Clock>,
                                           b: seq<KeyEdits>, sb: seq<Clock>, editor: string, done: nat)
    requires Valid(t) && |sa| == |a| && |sb| == |b|
    ensures var x := ApplyEdits(iso, t, faults, a, sa, editor, done);
            ApplyEdits(iso, t, faults, a + b, sa + sb, editor, done)
            == if x.writes.Err? then x else ApplyEdits(iso, x.table, faults, b, sb, editor, x.writes.value)
    decreases |a|
  {
    if |a| == 0 {
      assert a + b == b && sa + sb == sb;
    } else {
      assert (a + b)[1..] == a[1..] + b && (sa + sb)[1..] == sa[1..] + sb;
      assert (a + b)[0] == a[0] && (sa + sb)[0] == sa[0];
      match MergeOne(iso, t, faults, a[0], sa[0], editor)
      case Aborted(_) =>
      case Skipped =>
        ApplyEditsSplit(iso, t, faults, a[1..], sa[1..], b, sb, editor, done);
      case Stored(next, acknowledged) =>
        ApplyEditsSplit(iso, next, faults, a[1..], sa[1..], b, sb, editor, if acknowledged then done + 1 else done);
    }
  }

  lemma SplitAt<T>(s: seq<T>, j: nat)
    requires j < |s|
    ensures s[..j] + s[j..] == s && s[j..][0] == s[j]
  {
  }

  /** A key that aborts ends the run with the table as it found it. */
  lemma AbortedHeadEnds(iso: IsoFormat, t: Table, faults: map<Id, Fault>, batch: seq<KeyEdits>,
                        clocks: seq<Clock>, editor: string, done: nat)
    requires Valid(t) && |clocks| == |batch| && |batch| > 0
    requires MergeOne(iso, t, faults, batch[0], clocks[0], editor).Aborted?
    ensures ApplyEdits(iso, t, faults, batch, clocks, editor, done).table == t
    ensures ApplyEdits(iso, t, faults, batch, clocks, editor, done).writes.Err?
  {
  }

  /** No rollback: when the key at position `j` aborts the run, the table is
      the one the first `j` keys produced, with their writes in place. */
  lemma AbortKeepsEarlierWrites(iso: IsoFormat, t: Table, faults: map<Id, Fault>, batch: seq<KeyEdits>,
                                clocks: seq<Clock>, editor: string, j: nat)
    requires Valid(t) && |clocks| == |batch| && j < |batch|
    requires ApplyEdits(iso, t, faults, batch[..j], clocks[..j], editor, 0).writes.Ok?
    requires MergeOne(iso, ApplyEdits(iso, t, faults, batch[..j], clocks[..j], editor, 0).table,
                      faults, batch[j], clocks[j], editor).Aborted?
    ensures var whole := ApplyEdits(iso, t, faults, batch, clocks, editor, 0);
            whole.writes.Err? && whole.table == ApplyEdits(iso, t, faults, batch[..j], clocks[..j], editor, 0).table
  {
    var x := ApplyEdits(iso, t, faults, batch[..j], clocks[..j], editor, 0);
    var rest, srest := batch[j..], clocks[j..];
    SplitAt(batch, j);
    SplitAt(clocks, j);
    AbortedHeadEnds(iso, x.table, faults, rest, srest, editor, x.writes.value);
    ApplyEditsSplit(iso, t, faults, batch[..j], clocks[..j], rest, srest, editor, 0);
  }

  /** An exception at entry `j` aborts the whole request with a 500, and the
      writes of the entries before it stay. */
  lemma RaisingKeyAborts(iso: IsoFormat, t: Table, faults: map<Id, Fault>, request: BulkTranslationUpdate,
                         clocks: seq<Clock>, j: nat)
    requires Valid(t) && |clocks| == |request.translations| && j < |request.translations|
    requires var batch := request.translations;
             ApplyEdits(iso, t, faults, batch[..j], clocks[..j], request.updatedBy, 0).writes.Ok?
    requires var batch := request.translations;
             var before := ApplyEdits(iso, t, faults, batch[..j], clocks[..j], request.updatedBy, 0).table;
             Raises(iso, before, faults, batch[j].keyId, clocks[j])
    ensures var batch := request.translations;
            var r := BulkUpdateTranslations(iso, t, faults, request, clocks);
            && r.result.Err? && r.result.error.status == 500
            && r.table == ApplyEdits(iso, t, faults, batch[..j], clocks[..j], request.updatedBy, 0).table
  {
    var batch := request.translations;
    var before := ApplyEdits(iso, t, faults, batch[..j], clocks[..j], request.updatedBy, 0).table;
    assert MergeOne(iso, before, faults, batch[j], clocks[j], request.updatedBy).Aborted?;
    AbortKeepsEarlierWrites(iso, t, faults, batch, clocks, request.updatedBy, j);
  }

  // ---------------------------------------------------------------------------
  // The merge read back

  /** Every text of the edits, and the editor, is one the codec leaves as text. */
  predicate PlainEdits(iso: IsoFormat, values: map<string, string>, editor: string) {
    PlainText(iso, editor) && forall lang :: lang in values ==> PlainText(iso, values[lang])
  }

  /** The hand-built entry of lines 164-168 and 180-184 is what
      `serialize_datetimes` makes of the model's dump. */
  lemma EntryIsSerializedDump(iso: IsoFormat, tr: Translation)
    ensures EntryObject(iso, tr) == SerializeValue(iso, TranslationDump(tr))
  {
    var d := TranslationDump(tr).fields;
    var e := EntryObject(iso, tr).fields;
    var r := SerializeValue(iso, TranslationDump(tr)).fields;
    forall f | f in d
      ensures r[f] == e[f]
    {
      if f == "value" {
      } else if f == "updated_at" {
      } else {
        assert f == "updated_by";
      }
    }
  }

  /** The payload of one key renders the typed merge entry by entry. */
  lemma MergedEntriesRenderMerge(iso: IsoFormat, current: map<string, Translation>, values: map<string, string>,
                                 stamp: Timestamp, editor: string)
    ensures var m := MergeTranslations(current, values, stamp, editor);
            MergedEntries(iso, current, values, stamp, editor) == map lang | lang in m :: EntryObject(iso, m[lang])
  {
    var m := MergeTranslations(current, values, stamp, editor);
    var e := MergedEntries(iso, current, values, stamp, editor);
    forall lang | lang in m
      ensures e[lang] == EntryObject(iso, m[lang])
    {
      if lang in values {
        assert m[lang] == Translation(values[lang], stamp, editor);
      }
    }
  }

  /** Serializing the dump of typed translations renders them entry by entry. */
  lemma SerializedDumpRenders(iso: IsoFormat, m: map<string, Translation>)
    ensures SerializeValue(iso, TranslationsDump(m)) == Object(map lang | lang in m :: EntryObject(iso, m[lang]))
  {
    var dump := TranslationsDump(m);
    var r := SerializeValue(iso, dump).fields;
    var e := map lang | lang in m :: EntryObject(iso, m[lang]);
    assert r.Keys == m.Keys == e.Keys;
    forall lang | lang in m
      ensures r[lang] == e[lang]
    {
      EntryIsSerializedDump(iso, m[lang]);
    }
    MapsAgree(r, e);
  }

  /** The payload of one key is the serialized form of the typed merge. */
  lemma MergedEntriesAreSerializedMerge(iso: IsoFormat, current: map<string, Translation>, values: map<string, string>,
                                        stamp: Timestamp, editor: string)
    ensures var m := MergeTranslations(current, values, stamp, editor);
            Object(MergedEntries(iso, current, values, stamp, editor)) == SerializeValue(iso, TranslationsDump(m))
  {
    MergedEntriesRenderMerge(iso, current, values, stamp, editor);
    SerializedDumpRenders(iso, MergeTranslations(current, values, stamp, editor));
  }

  /** Read back through the codec, the payload of one key is the dump of the
      typed merge. */
  lemma MergedEntriesReadBack(iso: IsoFormat, current: map<string, Translation>, values: map<string, string>,
                              stamp: Timestamp, editor: string)
    requires RoundTrips(iso)
    requires PlainTranslations(iso, current) && PlainEdits(iso, values, editor)
    ensures ParseValue(iso, Object(MergedEntries(iso, current, values, stamp, editor)))
            == TranslationsDump(MergeTranslations(current, values, stamp, editor))
  {
    var m := MergeTranslations(current, values, stamp, editor);
    MergedEntriesAreSerializedMerge(iso, current, values, stamp, editor);
    MergeIsPlain(iso, current, values, stamp, editor);
    TranslationsDumpHasNoIsoText(iso, m);
    ValueRoundTrip(iso, TranslationsDump(m));
  }

  /** Merging plain edits into plain translations keeps them plain. */
  lemma MergeIsPlain(iso: IsoFormat, current: map<string, Translation>, values: map<string, string>,
                     stamp: Timestamp, editor: string)
    requires PlainTranslations(iso, current) && PlainEdits(iso, values, editor)
    ensures PlainTranslations(iso, MergeTranslations(current, values, stamp, editor))
  {
  }

  /** One found key, with no fault: its write is acknowledged, and reading
      the key back gives the key with the merged translations: every old
      language kept, every edited one carrying the new text, the write time
      of this key and the editor. */
  lemma MergeOneReadsBack(iso: IsoFormat, t: Table, faults: map<Id, Fault>, edits: KeyEdits,
                          clock: Clock, editor: string, k: TranslationKey)
    requires Valid(t) && RoundTrips(iso)
    requires edits.keyId !in faults
    requires GetTranslationKey(iso, t, edits.keyId, clock.readAt) == Ok(Some(k))
    requires PlainEdits(iso, edits.values, editor)
    ensures var s := MergeOne(iso, t, faults, edits, clock, editor);
            && s.Stored? && s.acknowledged
            && GetTranslationKey(iso, s.table, edits.keyId, clock.readAt)
               == Ok(Some(k.(translations := MergeTranslations(k.translations, edits.values, clock.writtenAt, editor))))
  {
    var id := edits.keyId;
    var stamp := clock.writtenAt;
    var payload := map["translations" := Object(MergedEntries(iso, k.translations, edits.values, stamp, editor))];
    var s := MergeOne(iso, t, faults, edits, clock, editor);
    assert s.Stored? && s.acknowledged && s.table.rows[id] == t.rows[id] + payload;
    MergedRowReadsBack(iso, t.rows[id], edits, clock.readAt, stamp, editor, k);
  }

  /** The row of a found key, with the merged payload written over it, reads
      back as the key with merged translations. `now` fills missing
      timestamps on reading, `stamp` is the time of the write. */
  lemma MergedRowReadsBack(iso: IsoFormat, row: Row, edits: KeyEdits, now: Timestamp, stamp: Timestamp,
                           editor: string, k: TranslationKey)
    requires RoundTrips(iso)
    requires KeyFromRow(ParseDatetimes(iso, row), now) == Some(k)
    requires PlainEdits(iso, edits.values, editor)
    ensures var payload := map["translations" := Object(MergedEntries(iso, k.translations, edits.values, stamp, editor))];
            KeyFromRow(ParseDatetimes(iso, row + payload), now)
            == Some(k.(translations := MergeTranslations(k.translations, edits.values, stamp, editor)))
  {
    ReadKeysArePlain(iso, row, now, k);
    var m := MergeTranslations(k.translations, edits.values, stamp, editor);
    var payload := map["translations" := Object(MergedEntries(iso, k.translations, edits.values, stamp, editor))];
    var patch := TranslationKeyUpdate(None, None, None, Some(SentInFull(m)));
    MergedPayloadParses(iso, k.translations, edits.values, stamp, editor);
    ParseDistributes(iso, row, payload);
    PatchedRowValidates(ParseDatetimes(iso, row), patch, now, k);
    SentInFullReceived(m, now);
    assert ApplyUpdate(k, patch, now) == k.(translations := m);
  }

  /** The merged payload parses back to the dump of a translations-only patch. */
  lemma MergedPayloadParses(iso: IsoFormat, current: map<string, Translation>, values: map<string, string>,
                            stamp: Timestamp, editor: string)
    requires RoundTrips(iso)
    requires PlainTranslations(iso, current) && PlainEdits(iso, values, editor)
    ensures ParseDatetimes(iso, map["translations" := Object(MergedEntries(iso, current, values, stamp, editor))])
            == UpdateDump(TranslationKeyUpdate(None, None, None, Some(SentInFull(MergeTranslations(current, values, stamp, editor)))))
  {
    var m := MergeTranslations(current, values, stamp, editor);
    var entries := Object(MergedEntries(iso, current, values, stamp, editor));
    MergedEntriesReadBack(iso, current, values, stamp, editor);
    ParseSingleton(iso, "translations", entries);
    TranslationsOnlyDump(m);
  }
}
