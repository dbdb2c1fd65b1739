# Translation keys: the persistence layer

This project models the persistence layer of the translation-management
backend in Dafny. That layer is `DatabaseService` and its two datetime helpers
in `database.py`, plus the pydantic models of `models.py`. The service stores
translation keys in one table, `translation_keys`. Each key has an id, a key
text, a category, an optional description, and a dict from language code to a
translation (value, `updated_at`, `updated_by`). The service offers these
operations:

- read one key;
- list keys with an optional category filter, a case-insensitive search on
  the key, and `limit`/`offset`;
- create a key (a repeated key gives 409);
- apply a partial update;
- delete a key;
- merge new translation texts into many keys at once;
- report, per language, the percentage of keys that carry a non-empty
  translation.

The modules follow the program:

| module | file | what it holds |
|---|---|---|
| `Wrappers` | wrappers.dfy | `Option` and `Result` |
| `Text` | text.dfy | suffix tests, `str.replace` of one character, substring search, ASCII lower-casing |
| `Json` | json.dfy | the JSON-like value tree of a row, Python truthiness, `dict.get` |
| `Codec` | codec.dfy | `serialize_datetimes` / `parse_datetimes`, with the ISO-8601 text format as a parameter |
| `Models` | models.dfy | the models, `model_dump`, and validation `TranslationKey(**row)` |
| `Store` | store.dfy | the table as rows by id plus a scan order, and the store operations the service calls |
| `Service` | service.dfy | get, list, create, update and delete |
| `Bulk` | bulk.dfy | `bulk_update_translations` |
| `Stats` | stats.dfy | `get_translation_completion_stats` |

Each service operation has two layers:

1. a function over any store response, `Raised(message)` or `Rows(data)`,
   which covers every error path of the source (`Service.ReadFirst` for get
   and update, `Service.ListOutcome`, `Service.CreateOutcome`,
   `Service.DeleteOutcome`, `Stats.CompletionStats`);
2. its composition with the fault-free semantics of the table, which returns
   the new table together with the result (`Effect`).

In bulk updates, an exception from the store at a given key is an explicit
`Fault` parameter.

The codec is lossless only when the ISO formatter round-trips. The model
states this as `Codec.RoundTrips` and assumes it only where a round trip is
claimed. `parse_datetimes` turns every string that parses as ISO text into a
datetime. A stored key, category, description, value or editor that looks
like a timestamp therefore cannot be read back. The `Plain*` predicates of
`Models` name the texts that stay text, and the read-back properties are
proved for plain keys. `Models.IsoLookingKeyIsUnreadable` and
`Service.CreateIsoLookingKey` prove the other side.

## Model

| member | source | states |
|---|---|---|
| Text.ReplaceChar | src/localization_management_api/database.py:32-34 | `value.replace('Z', '+00:00')` replaces every `Z`, not only a trailing one: a text without the character is unchanged, a one-character text becomes the replacement iff it is the character, and no occurrence survives when the replacement lacks it |
| Text.ReplaceCharAppend | src/localization_management_api/database.py:32-34 | replacing works character by character: the replacement of a concatenation is the concatenation of the replacements |
| Text.Lower | src/localization_management_api/database.py:76 | the case folding used by `ilike` keeps the length and folds each character on its own |
| Text.ContainsAt | src/localization_management_api/database.py:76 | a part that occurs at some index of the text is contained in it |
| Text.ContainsHasIndex | src/localization_management_api/database.py:76 | conversely, a contained part occurs at some index, so containment is exactly "occurs somewhere" |
| Json.Get | src/localization_management_api/database.py:216 | `item.get(k)` yields null for a missing key and the stored value otherwise |
| Codec.ParseIsoText | src/localization_management_api/database.py:32-37 | a text that ends in neither `Z` nor `+00:00`, or has no `Z`, goes to `fromisoformat` unchanged; a text ending in `Z` or in `+00:00` goes there with every `Z` replaced by `+00:00` |
| Codec.SerializeValue | src/localization_management_api/database.py:15-21 | datetimes become their ISO text; dicts keep their keys; lists keep their length and their non-dict items; other values are unchanged; no datetime is left at a visited position |
| Codec.ParseValue | src/localization_management_api/database.py:27-46 | a string becomes a datetime exactly when it parses; a string result is the input; dicts keep keys; lists keep length and non-dict items; no ISO text is left at a visited position |
| Codec.SerializeDatetimes | src/localization_management_api/database.py:12-22 | the copy has the same keys, carries datetimes as ISO text, keeps scalars, and leaves no datetime behind |
| Codec.ParseDatetimes | src/localization_management_api/database.py:25-47 | the result has the same keys, leaves no parseable text behind, keeps scalars, and every string it returns was in the input |
| Codec.ParseDistributes | src/localization_management_api/database.py:25-47 | parsing works key by key, so parsing a row merged with a payload equals merging the parsed parts |
| Codec.SerializeFixesNoTime | src/localization_management_api/database.py:12-22 | a value without datetimes at visited positions is a fixed point of serialization |
| Codec.ParseFixesNoIsoText | src/localization_management_api/database.py:25-47 | a value without ISO text at visited positions is a fixed point of parsing |
| Codec.ParseFixesPlainObject | src/localization_management_api/database.py:25-47 | a dict none of whose values holds ISO-looking text is returned unchanged by `parse_datetimes` |
| Codec.SerializeIdempotent | src/localization_management_api/database.py:12-22 | serializing twice is serializing once |
| Codec.ParseIdempotent | src/localization_management_api/database.py:25-47 | parsing twice is parsing once |
| Codec.ValueRoundTrip | src/localization_management_api/database.py:12-47 | for a lossless ISO format, parsing undoes serializing any value that holds no ISO-looking text |
| Codec.RoundTrip | src/localization_management_api/database.py:12-47 | `parse_datetimes(serialize_datetimes(d)) == d` for every dict without ISO-looking text, under a lossless format |
| Codec.ListStringsStayText | src/localization_management_api/database.py:43-44 | an ISO string directly inside a list is not parsed, although the same string as a dict value is |
| Models.RequiredText | src/localization_management_api/models.py:12-13 | a required `str` field validates iff it is present and a string, and then yields that string |
| Models.OptionalText | src/localization_management_api/models.py:10-14 | an `Optional[str]` field defaults to None when absent, accepts null as None, yields the stored string, and fails iff the value is present, not null and not a string |
| Models.TranslationFrom | src/localization_management_api/models.py:5-8 | a translation validates iff it is a dict with string `value` and `updated_by` whose `updated_at`, if present, is a datetime; `updated_at` is then the stored datetime, or the current time when absent |
| Models.TranslationsFrom | src/localization_management_api/models.py:15 | the translations dict validates iff it is a dict whose every entry validates; the result has the same languages and the validated entries |
| Models.KeyFromRow | src/localization_management_api/models.py:10-15 | `TranslationKey(**row)` fails iff some field fails; on success each field is the row's value, and missing translations default to `{}` |
| Models.KeyDump | src/localization_management_api/models.py:10-15 | `model_dump()` of a key has exactly the five fields as columns, string `key` and `category`, and a translations dict with the key's languages |
| Models.TranslationDump | src/localization_management_api/models.py:5-8 | `model_dump()` of a translation has exactly its three fields, with `updated_at` still a datetime |
| Models.SentDump | src/localization_management_api/database.py:119 | the nested dump of a sent translation has `value` and `updated_by`, and `updated_at` iff the client sent it |
| Models.SentDumpValidates | src/localization_management_api/models.py:5-8 | validating that dump gives back the sent texts, with the sent stamp or, when none was sent, the current time |
| Models.SentTranslationsDumpValidates | src/localization_management_api/models.py:15 | a dumped dict of sent translations validates entry by entry in the same way |
| Models.SentInFullDumps | src/localization_management_api/database.py:119 | translations sent with every field dump exactly like the typed ones |
| Models.SentInFullEntry | src/localization_management_api/database.py:119 | one translation sent with every field dumps like the typed one |
| Models.SentInFullReceived | src/localization_management_api/models.py:5-8 | translations sent with every field read back as themselves, whatever the time of reading |
| Models.DumpThenValidate | src/localization_management_api/models.py:10-15 | validating `model_dump()` of a key gives back the same key |
| Models.DumpColumns | src/localization_management_api/models.py:10-15 | each column of `model_dump()` holds the field of the same name |
| Models.TranslationsDumpValidates | src/localization_management_api/models.py:5-8 | validating the dump of a translations dict gives back the same dict |
| Models.DumpHasNoIsoText | src/localization_management_api/models.py:10-15 | the dump of a key whose texts are plain holds no ISO-looking text |
| Models.SentTranslationsDumpHasNoIsoText | src/localization_management_api/database.py:119 | the dump of plain sent translations holds no ISO-looking text |
| Models.SentDumpHasNoIsoText | src/localization_management_api/database.py:119 | the dump of one plain sent translation holds no ISO-looking text |
| Models.StoredKeyRoundTrip | src/localization_management_api/database.py:57-58 | a plain key that is serialized, parsed and validated comes back unchanged |
| Models.ReadKeysArePlain | src/localization_management_api/database.py:57-58 | every key that the read path returns is plain |
| Models.IsoLookingKeyIsUnreadable | src/localization_management_api/database.py:28-37 | a row whose key text parses as ISO does not validate after `parse_datetimes` |
| Store.Scan | src/localization_management_api/database.py:71 | `select("*")` returns each stored row once, in scan order |
| Store.ScanCoversTable | src/localization_management_api/database.py:71 | the scan is exactly as long as the table has rows |
| Store.SelectById | src/localization_management_api/database.py:53 | `eq("id", id)` returns at most one row, and exactly the stored row when the id is present |
| Store.Filter | src/localization_management_api/database.py:73-76 | the filtered rows are the matching rows: each result row matches and came from the input, every matching input row is kept, and a single row is kept iff it matches |
| Store.FilterAppend | src/localization_management_api/database.py:73-76 | filtering keeps the scan order: the filter of a concatenation is the concatenation of the filters |
| Store.FilterKeepsAll | src/localization_management_api/database.py:73-76 | a query without filters keeps every row |
| Store.Page | src/localization_management_api/database.py:78 | `limit(l).offset(o)` is the window that starts at `o`, with the exact length of the part of the rows that remains |
| Store.PageKeeps | src/localization_management_api/database.py:78 | every row of a page is a stored row, so a property of all stored rows holds on the page |
| Store.SelectPage | src/localization_management_api/database.py:71-78 | the store rejects a negative limit; otherwise the rows are exactly the `limit(l).offset(o)` window of the filtered scan, so at most `limit` rows, all matching |
| Store.UnfilteredSelect | src/localization_management_api/database.py:71-78 | with no filters the response is the window of the scan |
| Store.ScanWindow | src/localization_management_api/database.py:78 | the window of the scan has the closed-form length, and its i-th row is the row stored at position `offset + i` |
| Store.Insert | src/localization_management_api/database.py:101 | an insert is rejected with the unique-constraint message iff the key is already stored, and then the table is unchanged; otherwise it stores and returns the row under a fresh id |
| Store.UpdateWhere | src/localization_management_api/database.py:124 | `update(p).eq("id", id)` merges `p` into the one row with that id, returns it, and leaves every other row alone; an absent id or an empty payload changes nothing and returns no rows; a payload giving the row a key another row holds is rejected with the unique-constraint message and changes nothing |
| Store.Without | src/localization_management_api/database.py:139 | removing an id from the scan order keeps every other id and keeps the order free of duplicates |
| Store.DeleteWhere | src/localization_management_api/database.py:139 | delete removes exactly that id and returns the removed row; an absent id returns no rows |
| Service.ReadFirst | src/localization_management_api/database.py:54-61 | an error becomes a 500; no rows becomes None; otherwise the first row is parsed and validated, and a validation failure is a 500 |
| Service.ReadAll | src/localization_management_api/database.py:80-86 | the list succeeds iff every row validates after parsing; the result then has one key per row, in order |
| Service.GetTranslationKey | src/localization_management_api/database.py:51-61 | the answer is None iff the id is missing; for a stored id it is a 500 iff the stored row does not validate after parsing, and otherwise exactly the key that row validates to, carrying the requested id |
| Service.GetStoredKey | src/localization_management_api/database.py:51-58 | a plain key stored in serialized form is read back exactly |
| Service.ReadKeepsId | src/localization_management_api/database.py:57-58 | a key read from a row carries that row's id |
| Service.ListQuery | src/localization_management_api/database.py:73-76 | a category or search filter is attached iff the argument is a non-empty string |
| Service.ListTranslationKeys | src/localization_management_api/database.py:64-89 | a negative limit is a 500; otherwise the listing succeeds iff every row of the `limit`/`offset` window of the filtered scan validates, and then holds exactly those rows validated, in order, so each key has the requested category and contains the search text ignoring case; a row that does not validate makes it a 500 |
| Service.ListOutcome | src/localization_management_api/database.py:78-89 | over any answer of the select: an exception is a 500 with its message; rows give a listing iff every row validates after parsing, with one key per row in order; a row that does not validate gives the validation 500 |
| Service.ReadKeyMatches | src/localization_management_api/database.py:73-84 | a row that passed the store's filters still passes them after it is parsed and validated |
| Service.ListWindow | src/localization_management_api/database.py:78-86 | when every stored row is readable, the unfiltered listing succeeds with the exact window length |
| Service.PageReadable | src/localization_management_api/database.py:80-84 | a window of readable rows reads to one key per row |
| Service.ReadableRowsRead | src/localization_management_api/database.py:80-86 | rows that all validate are read to one key per row |
| Service.UnfilteredList | src/localization_management_api/database.py:71-86 | the unfiltered listing is reading the window of the scan |
| Service.CreateDump | src/localization_management_api/database.py:95-98 | `model_dump(exclude_unset=True)` plus the default: key, category and `{}` translations always; description only when set; never an id |
| Service.CreateOutcome | src/localization_management_api/database.py:101-113 | a duplicate-key error is a 409 naming the key; any other error is a 500; an empty insert answer is a 500 carrying the 400 text; success is the validated first row |
| Service.CreateTranslationKey | src/localization_management_api/database.py:92-113 | the answer is a 409 iff the key is taken, and then the table is unchanged; otherwise the row is stored with empty translations, and a success is the drafted key under the new id |
| Service.InsertedDraftOutcome | src/localization_management_api/database.py:101-112 | composing the insert with the outcome gives 409 exactly for a taken key, and a success equals the draft |
| Service.TakenKeyConflicts | src/localization_management_api/database.py:101-112 | inserting a draft whose key is taken ends in the 409 that names the key |
| Service.FreeKeyInserts | src/localization_management_api/database.py:101-107 | inserting a draft with a free key answers either the drafted key under the new id or a 500, never a 409 |
| Service.DuplicateKeyMessageSignals | src/localization_management_api/database.py:111 | the store's unique-constraint message contains the text the service looks for |
| Service.CreateDumpIsSerialized | src/localization_management_api/database.py:101 | serializing the create dump changes nothing, because it holds no datetime |
| Service.CreatedRowReadsBack | src/localization_management_api/database.py:106-107 | if the created row validates, it is the drafted key under the new id |
| Service.CreatedRowValidates | src/localization_management_api/database.py:107 | the inserted row, read without parsing, always validates to the draft |
| Service.CreatedRowIsPlain | src/localization_management_api/database.py:106 | parsing leaves the created row of a plain draft unchanged |
| Service.CreateDumpIsPlain | src/localization_management_api/database.py:95-98 | the create dump of a plain draft holds no ISO-looking text |
| Service.CreatePlainDraft | src/localization_management_api/database.py:92-107 | creating a plain draft with a free key succeeds with the drafted key |
| Service.CreateIsoLookingKey | src/localization_management_api/database.py:101-107 | a draft whose key text parses as ISO is stored but answered with a 500 |
| Service.CreateTwiceConflicts | src/localization_management_api/database.py:108-112 | creating the same draft twice gives a 409 the second time, and the second call does not change the table |
| Service.UpdateDump | src/localization_management_api/database.py:119 | `model_dump(exclude_unset=True)` of a patch holds exactly the fields that were sent, with their dumped values; sent translations are dumped with only their own sent fields |
| Service.ApplyUpdate | src/localization_management_api/models.py:5-8 | the reference patch semantics: id kept, each sent field takes the sent value, each unsent field is unchanged, the empty patch is the identity; sent translations replace the dict, and one sent without `updated_at` carries the time the row is read |
| Service.UpdateTranslationKey | src/localization_management_api/database.py:116-134 | a missing id or a patch with no fields gives None and no change; a new key that another row holds gives a 500 with the unique-constraint message and no change; otherwise the sent columns of that row are overwritten with the serialized nested-`exclude_unset` dump, every other row stays, and a returned key carries the id; after such a write the answer is the updated row as validated, and a 500 exactly when that row does not validate |
| Service.UnsentStampIsNotStored | src/localization_management_api/database.py:119-124 | a translation sent without `updated_at` is stored with only `value` and `updated_by` |
| Service.UnsentStampNotInPayload | src/localization_management_api/database.py:119-122 | in the serialized payload, a translation sent without `updated_at` has only `value` and `updated_by` |
| Service.UpdatePayload | src/localization_management_api/database.py:118-122 | the serialized update payload has exactly the sent fields, never `id`; it is empty iff nothing was sent, and carries `key` iff a key was sent, as that text |
| Service.UpdatedRowReadsBack | src/localization_management_api/database.py:124-131 | an update the store performs answers with the updated row as validated, a 500 exactly when that row does not validate |
| Service.UpdateIsoLookingKey | src/localization_management_api/database.py:124-134 | a patch whose key text parses as ISO is written but answered with a 500 |
| Service.UpdatedRowKeepsId | src/localization_management_api/database.py:124-131 | the key read back after an update carries the updated id |
| Service.UpdateDumpHasNoIsoText | src/localization_management_api/database.py:119-122 | the dump of a plain patch holds no ISO-looking text |
| Service.UpdateMatchesReference | src/localization_management_api/database.py:116-131 | updating a readable key with a plain, non-empty patch whose key is free returns exactly the reference patch applied to the stored key, with the read time in every translation sent without `updated_at` |
| Service.TranslationsOnlyDump | src/localization_management_api/database.py:119 | a patch that sends only translations, each with all its fields, dumps to the translations column holding their full dump |
| Service.PatchedRowValidates | src/localization_management_api/database.py:130-131 | a validated row merged with a patch dump validates to the patched key |
| Service.PatchedTextColumns | src/localization_management_api/database.py:130-131 | the text columns of the merged row validate to the patched key's fields |
| Service.PatchedTranslationsColumn | src/localization_management_api/database.py:130-131 | the translations column of the merged row validates to the patched key's translations, an unsent `updated_at` becoming the read time |
| Service.DeleteOutcome | src/localization_management_api/database.py:139-144 | an error is a 500; otherwise the answer is true iff the store returned no rows |
| Service.DeleteTranslationKey | src/localization_management_api/database.py:137-144 | as written: the row is removed, and the answer is true iff there was no such key |
| Service.DeleteExistingReportsFailure | src/localization_management_api/database.py:140-141 | as written, deleting an existing key removes it and still answers false |
| Service.DeleteTranslationKeyChecked | src/localization_management_api/database.py:137-144 | corrected: the row is removed, and the answer is true iff a key was removed |
| Bulk.MergeTranslations | src/localization_management_api/database.py:176-184 | the merge keeps every old language, and each edited language gets the new text, the one timestamp and the editor |
| Bulk.MergedEntries | src/localization_management_api/database.py:159-184 | the hand-built dict has the old plus the edited languages; untouched entries are re-rendered, edited ones are built from the edit |
| Bulk.EntryObject | src/localization_management_api/database.py:164-168 | the hand-built entry has exactly `value`, `updated_at` and `updated_by`, with the timestamp rendered as ISO text and no datetime left in it |
| Bulk.EntryIsSerializedDump | src/localization_management_api/database.py:164-168 | the hand-built entry is what `serialize_datetimes` makes of the translation's dump |
| Bulk.SerializedDumpRenders | src/localization_management_api/database.py:159-168 | serializing a translations dump renders each entry as it is built by hand |
| Bulk.MergedEntriesRenderMerge | src/localization_management_api/database.py:176-184 | the hand-built dict renders the typed merge, language by language |
| Bulk.MergedEntriesAreSerializedMerge | src/localization_management_api/database.py:159-188 | the payload equals the serialized dump of the typed merge |
| Bulk.MergeIsPlain | src/localization_management_api/database.py:176-184 | merging plain texts keeps the translations plain |
| Bulk.MergedEntriesReadBack | src/localization_management_api/database.py:188-191 | parsing the payload gives the dump of the typed merge |
| Bulk.MergedPayloadParses | src/localization_management_api/database.py:188 | the parsed payload is the update dump of a translations-only patch that sends the merge with every field |
| Bulk.MergedRowReadsBack | src/localization_management_api/database.py:188-191 | a readable row with the payload merged in reads back as the key with merged translations, whatever time fills missing timestamps |
| Bulk.UpdateIsStep | src/localization_management_api/database.py:191-194 | a translations-only update changes only that row's translations and is acknowledged iff the id exists |
| Bulk.WriteMerged | src/localization_management_api/database.py:186-196 | the write of one key touches only its translations column; an acknowledged write stores the merged entries; without a fault an existing key is written and counted; the write aborts iff the store raises on it |
| Bulk.MergeOne | src/localization_management_api/database.py:150-196 | a key is skipped iff it is missing and its fetch does not raise; its write is counted iff the step does not abort and the key exists with no fault; the step aborts iff `Bulk.Raises` holds: the fetch raises, or the key exists and its stored row does not validate or its write raises; a step touches no other row; the fetch and the write use separate clock readings |
| Bulk.MergeOneReadsBack | src/localization_management_api/database.py:150-194 | for a readable key and plain edits, after the step the key reads back with exactly the merged translations, stamped with the write time |
| Bulk.ApplyEdits | src/localization_management_api/database.py:149-196 | keys outside the request are untouched; the count grows by at most one per request entry; no successful write means the table is unchanged |
| Bulk.CountsWritableKeys | src/localization_management_api/database.py:149-198 | a run that does not abort counts a write iff some key of the batch exists and has no fault: such a key is always written and acknowledged, and no other key is counted |
| Bulk.SomeWritableSplit | src/localization_management_api/database.py:150 | a batch has a writable key iff its first key is writable or the rest has one |
| Bulk.BulkUpdateTranslations | src/localization_management_api/database.py:147-202 | the resulting table is the one the writes of the run produced, kept after an abort; false means nothing was written; every error is a 500; the call succeeds iff no step aborts; it answers true iff no step aborts and some key of the request exists with no fault |
| Bulk.NoKeysFound | src/localization_management_api/database.py:152-156 | a request naming only missing keys skips every entry and writes nothing |
| Bulk.NoKeysFoundAnswersFalse | src/localization_management_api/database.py:198 | such a request answers false and leaves the table as it was |
| Bulk.ApplyEditsSplit | src/localization_management_api/database.py:150 | processing a request is processing its prefix and then the rest from the resulting table and count |
| Bulk.AbortedHeadEnds | src/localization_management_api/database.py:200-202 | a first key whose step aborts (by `Bulk.MergeOne`, exactly when `Bulk.Raises` holds for it) ends the request with an error and no change |
| Bulk.AbortKeepsEarlierWrites | src/localization_management_api/database.py:200-202 | an aborting step at entry j keeps the writes of entries before j and reports an error |
| Bulk.RaisingKeyAborts | src/localization_management_api/database.py:150-202 | when entry j's fetch raises, or its key exists and its row does not validate or its write raises, the whole request is a 500 and the table is the one entries before j left |
| Stats.Languages | src/localization_management_api/database.py:214-218 | a language is collected iff some item's translations are a dict naming it |
| Stats.CheckEntry | src/localization_management_api/database.py:238 | an entry counts iff it is a dict with a truthy value; a truthy non-dict entry raises |
| Stats.CheckItem | src/localization_management_api/database.py:232-239 | an item counts for a language iff its translations are a dict whose entry for the language is a dict with a truthy value; it raises iff that entry is truthy and not a dict |
| Stats.CountTranslated | src/localization_management_api/database.py:232-239 | the count is at most the number of items, is full iff every item counts, and is zero iff none does |
| Stats.CountAppend | src/localization_management_api/database.py:233-239 | the count over two sequences of items is the sum of their counts |
| Stats.Percent | src/localization_management_api/database.py:242-244 | a percentage lies in [0, 100]; it is 100 iff all keys count and 0 iff none does |
| Stats.CompletionStats | src/localization_management_api/database.py:205-249 | every branch of the source: errors are 500s, no rows or no languages give `{}`, a success has exactly the languages of the first read as keys, an empty second read gives all zeros, otherwise each language of the first read maps to its share in the second; it fails iff a read raises or an entry has no `.get` |
| Stats.SelectTranslations | src/localization_management_api/database.py:208 | `select("translations")` gives one item per row, holding that row's translations |
| Stats.GetTranslationCompletionStats | src/localization_management_api/database.py:205-249 | against one table: an empty table gives `{}`; the reported languages are those the rows name; each share is the count over all rows, including rows without a translations dict, and lies in [0, 100]; it fails iff an entry has no `.get` |
| Stats.SnapshotStats | src/localization_management_api/database.py:208-229 | when both reads return the same rows, the reported languages are those of the rows, every share is taken over a non-zero total, and the call fails iff some entry has no `.get` |
| Stats.SnapshotZeroMeansUntranslated | src/localization_management_api/database.py:224-239 | a reported 0.0 means that no key carries the language |
| Stats.FullyTranslated | src/localization_management_api/database.py:231-244 | a language every key carries with a non-empty value reports 100.0 |
| Stats.EveryItemTranslated | src/localization_management_api/database.py:233-239 | if every stored row counts, the count equals the number of items |
| Stats.ReportedLanguages | src/localization_management_api/database.py:214-218 | a language is reported iff some stored key names it in a translations dict |
| Stats.LanguagesOfTable | src/localization_management_api/database.py:214-218 | the languages of the select are those the stored rows name |

## Left out

- The Supabase client, the network, `async`, and the `print` logging are not modelled. The store is a map of rows plus a scan order, with only the operations the service uses. Store exceptions enter as `Raised(message)` responses, or as `Fault`s in bulk updates. `config.py` is not part of this model.
- Concurrency is not modelled: two callers racing between the fetch and the write of a bulk update (a lost update) are outside the model.
- Real ISO-8601 parsing and printing are not modelled. `IsoFormat` takes both as parameters, and losslessness is the explicit assumption `Codec.RoundTrips`.
- `datetime.utcnow()` becomes a parameter: `now` for validation defaults, and one `Bulk.Clock` per bulk key. A clock holds the time read when the key is fetched (it fills missing `updated_at` values) and the time written as `current_timestamp`.
- Models.Received, Service.ApplyUpdate, Service.UpdateMatchesReference, Bulk.MergeOne: `Field(default_factory=datetime.utcnow)` reads the clock once for each translation that has no `updated_at`. The model uses one `now` (in bulk, one `Clock.readAt`) for every default filled in one validation. So two unsent entries of one patch, or two re-rendered stored entries of one bulk key, get the same stamp here. The source may give them stamps a few microseconds apart.
- The percentages are exact reals, not floating point.
- The `ilike` search is modelled as substring containment after ASCII lower-casing. Pattern characters in the search text are taken literally: `%` and `_`, PostgREST's `*` alias for `%`, and the `\` escape are not treated as wildcards or escapes. Non-ASCII case folding is not modelled.
- Models.KeyFromRow: pydantic's lax-mode conversions into `datetime` are not modelled: a number read as Unix time, or ISO text that `fromisoformat` rejected but pydantic accepts. A `str` field accepts only a string, as in pydantic v2. Every validation failure maps to one message, `ValidationMessage`, not to pydantic's text.
- JSON floats are not modelled: `Json.Value` has no float case, so a row holding a float, and its validation failure against a `str` field, is outside the model.
- Stats.NoGetMessage: the `AttributeError` text omits the Python type name that precedes it.
- The store's texts are assumed: the message for a negative limit, and the unique-constraint message (`Store.DuplicateKeyMessage`, with a constraint name chosen for the model).
- `Raised(message)` stands for both `e.message` and `str(e)`. The model assumes every store error has a string `message` attribute with the same text.
- Service.ListTranslationKeys: requires `limit <= 100` and `offset >= 0`, which the route enforces (main.py:39-40). What the store does with a negative offset is not modelled.
- Service.UpdateDump: a patch cannot send `null` for `key`, `category` or `translations`, although the source's update model accepts it, because the model's update has only "unset" or a value for those fields. If the store accepted such a null, every later read of that key would fail validation with a 500, since `key` and `category` must be strings and `translations` must be a dict. `description` can be sent as null.
- Store.UpdateWhere: an update with an empty payload is assumed to write nothing and to answer no rows; what the real store does with an empty update body is outside the model. `update_translation_key` then answers None, which the route turns into a 404.
- Store.Scan: the table keeps one scan order, and updates keep it, so `limit`/`offset` windows are stable across calls. An unordered `select("*")` in Postgres promises no order, so pages of the real store may differ between calls, and a row may move after it is updated.
- Service.CreateDump: a draft whose description was sent as an explicit `null` is treated like one that left it unset. Both store no description column.
- The bulk request dict is a sequence of `KeyEdits` in insertion order. Repeated ids, which a dict cannot hold, are allowed by the model.
- The non-`Translation` branch of lines 169-173 of database.py is unreachable: a validated key holds only `Translation` values.
- Stats.GetTranslationCompletionStats: both selects read one table, so the `total_keys == 0` branch cannot be taken. `Stats.CompletionStats` still models it, for two reads that differ.
- The routes of main.py are not modelled: the 404 for a missing key, the 400 for a bulk update that answers false, the 204 for delete. The placeholder endpoint `get_localizations` (main.py:24-26) is not modelled either.

## Findings

| source | as written | input that shows it | evidently intended | confidence | as-written member | corrected member |
|---|---|---|---|---|---|---|
| src/localization_management_api/database.py:141 | `delete_translation_key` returns `response.data == []` | deleting an existing id: the store returns the deleted row, so the answer is false and the route reports 404 although the key was deleted; deleting a missing id answers true | true iff a row was removed | medium: it depends on the client returning deleted rows, which is its default; not executed | Service.DeleteTranslationKey (counterexample lemma Service.DeleteExistingReportsFailure) | Service.DeleteTranslationKeyChecked |
