/** `get_translation_completion_stats` of database.py: for every language
    named in any key's translations, the share of keys that carry a non-empty
    value in that language, as a percentage. Percentages are exact reals here;
    the source computes them in floating point. */
module Stats {
  import opened Wrappers
  import opened Json
  import opened Store
  import opened Service

  /** `item.get("translations")`. */
  function TranslationsOf(item: Row): Value {
    Get(item, "translations")
  }

  /** The languages named by the dict-valued translations of the items: the
      `all_languages` set of lines 215-219. */
  function Languages(items: seq<Row>): (r: set<string>)
    ensures forall lang :: lang in r <==>
              exists i :: 0 <= i < |items| && TranslationsOf(items[i]).Object? && lang in TranslationsOf(items[i]).fields
  {
    if |items| == 0 then {}
    else
      var rest := Languages(items[1..]);
      assert forall i :: 1 <= i < |items| ==> items[i] == items[1..][i - 1];
      (if TranslationsOf(items[0]).Object? then TranslationsOf(items[0]).fields.Keys else {}) + rest
  }

  /** What line 234 does with one language of one dict of translations. */
  datatype Check = Translated | Untranslated | NoGet

  /** `translations.get(lang) and translations[lang].get("value")`: an entry
      counts when it is a dict whose `value` is truthy; a truthy entry that is
      not a dict has no `.get` and raises. */
  function CheckEntry(translations: map<string, Value>, lang: string): (c: Check)
    ensures c == Translated <==>
              lang in translations && translations[lang].Object? && Truthy(Get(translations[lang].fields, "value"))
    ensures c == NoGet <==> lang in translations && Truthy(translations[lang]) && !translations[lang].Object?
  {
    var entry := Get(translations, lang);
    if !Truthy(entry) then Untranslated
    else match entry
      case Object(fields) => if Truthy(Get(fields, "value")) then Translated else Untranslated
      case _ => NoGet
  }

  /** The check of one item for one language; items whose translations are
      not a dict are skipped (line 232). */
  function CheckItem(item: Row, lang: string): (c: Check)
    ensures c == Translated <==>
              && "translations" in item && item["translations"].Object? && lang in item["translations"].fields
              && item["translations"].fields[lang].Object?
              && Truthy(Get(item["translations"].fields[lang].fields, "value"))
    ensures c == NoGet <==>
              && "translations" in item && item["translations"].Object? && lang in item["translations"].fields
              && Truthy(item["translations"].fields[lang]) && !item["translations"].fields[lang].Object?
  {
    match TranslationsOf(item)
    case Object(translations) => CheckEntry(translations, lang)
    case _ => Untranslated
  }

  /** The counter `stats[lang]` after the loop of lines 230-235. */
  function CountTranslated(items: seq<Row>, lang: string): (r: nat)
    ensures r <= |items|
    ensures r == |items| <==> forall i :: 0 <= i < |items| ==> CheckItem(items[i], lang) == Translated
    ensures r == 0 <==> forall i :: 0 <= i < |items| ==> CheckItem(items[i], lang) != Translated
  {
    if |items| == 0 then 0
    else
      var rest := CountTranslated(items[1..], lang);
      assert forall i :: 1 <= i < |items| ==> items[i] == items[1..][i - 1];
      (if CheckItem(items[0], lang) == Translated then 1 else 0) + rest
  }

  /** Some item has an entry, in one of the languages, that has no `.get`. */
  predicate Raises(items: seq<Row>, languages: set<string>) {
    exists i, lang :: 0 <= i < |items| && lang in languages && CheckItem(items[i], lang) == NoGet
  }

  /** `(count / total_keys) * 100`. */
  function Percent(count: nat, total: nat): (p: real)
    requires 0 < total && count <= total
    ensures 0.0 <= p <= 100.0
    ensures p == 100.0 <==> count == total
    ensures p == 0.0 <==> count == 0
  {
    (count as real / total as real) * 100.0
  }

  /** The message of the `AttributeError` a non-dict entry raises; the type
      name Python puts in front of it is not modelled. */
  const NoGetMessage := "object has no attribute 'get'"

  /** The logic of lines 208-246 over the responses of its two selects:
      `first` gives the languages, `second` the keys that are counted. */
  function CompletionStats(first: Response, second: Response): (r: Result<map<string, real>, HttpError>)
    ensures first.Raised? ==> r == Err(DatabaseError(first.message))
    ensures first == Rows([]) ==> r == Ok(map[])
    ensures first.Rows? && Languages(first.data) == {} ==> r == Ok(map[])
    ensures first.Rows? && Languages(first.data) != {} && second.Raised? ==> r == Err(DatabaseError(second.message))
    ensures first.Rows? && second == Rows([]) ==> r.Ok? && forall lang :: lang in r.value ==> r.value[lang] == 0.0
    ensures r.Ok? ==> first.Rows? && r.value.Keys == Languages(first.data)
    ensures r.Ok? && second.Rows? && second.data != [] ==>
              forall lang :: lang in r.value ==> r.value[lang] == Percent(CountTranslated(second.data, lang), |second.data|)
    ensures r.Err? <==>
              || first.Raised?
              || (Languages(first.data) != {} && (second.Raised? || Raises(second.data, Languages(first.data))))
    ensures r.Err? ==> r.error.status == 500
  {
    match first
    case Raised(message) => Err(DatabaseError(message))
    case Rows(data) =>
      var languages := Languages(data);
      if data == [] || languages == {} then Ok(map[])
      else match second
        case Raised(message) => Err(DatabaseError(message))
        case Rows(items) =>
          if items == [] then
            var zeros := map lang | lang in languages :: 0.0;
            assert zeros.Keys == languages;
            Ok(zeros)
          else if Raises(items, languages) then Err(DatabaseError(NoGetMessage))
          else
            var shares := map lang | lang in languages :: Percent(CountTranslated(items, lang), |items|);
            assert shares.Keys == languages;
            Ok(shares)
  }

  /** `select("translations")`: every row reduced to its `translations`
      column, null where the row has none, in scan order. */
  function SelectTranslations(t: Table): (r: seq<Row>)
    requires Valid(t)
    ensures |r| == |t.order|
    ensures forall i :: 0 <= i < |r| ==> TranslationsOf(r[i]) == TranslationsOf(t.rows[t.order[i]])
  {
    seq(|t.order|, i requires 0 <= i < |t.order| => map["translations" := TranslationsOf(t.rows[t.order[i]])])
  }

  /** `get_translation_completion_stats()` against the table: both selects
      read the same table. */
  function GetTranslationCompletionStats(t: Table): (r: Result<map<string, real>, HttpError>)
    requires Valid(t)
    ensures |t.rows| == 0 ==> r == Ok(map[])
    ensures r.Ok? ==> forall lang :: lang in r.value ==> 0.0 <= r.value[lang] <= 100.0
    ensures r.Ok? ==> forall lang :: lang in r.value ==>
              0 < |SelectTranslations(t)| == |t.rows|
              && r.value[lang] == Percent(CountTranslated(SelectTranslations(t), lang), |SelectTranslations(t)|)
    ensures r.Ok? ==> r.value.Keys == Languages(SelectTranslations(t))
    ensures r.Err? <==> Raises(SelectTranslations(t), Languages(SelectTranslations(t)))
    ensures r.Err? ==> r == Err(DatabaseError(NoGetMessage))
  {
    var items := SelectTranslations(t);
    ScanCoversTable(t);
    SnapshotStats(items);
    CompletionStats(Rows(items), Rows(items))
  }

  /** Both selects answering with the same rows. */
  lemma SnapshotStats(items: seq<Row>)
    ensures var r := CompletionStats(Rows(items), Rows(items));
            && (items == [] ==> r == Ok(map[]))
            && (r.Ok? ==> r.value.Keys == Languages(items))
            && (r.Ok? ==> forall lang :: lang in r.value ==>
                  0 < |items| && r.value[lang] == Percent(CountTranslated(items, lang), |items|))
            && (r.Err? <==> Raises(items, Languages(items)))
            && (r.Err? ==> r == Err(DatabaseError(NoGetMessage)))
  {
    var r := CompletionStats(Rows(items), Rows(items));
    if items == [] {
      assert Languages(items) == {};
    } else if Languages(items) == {} {
      assert r == Ok(map[]);
    } else if Raises(items, Languages(items)) {
      assert r == Err(DatabaseError(NoGetMessage));
    } else {
      assert r.Ok?;
    }
  }

  // ---------------------------------------------------------------------------
  // Properties

  /** Counting distributes over concatenation: the count over a table is the
      sum of the counts over any split of it. */
  lemma {:induction false} CountAppend(a: seq<Row>, b: seq<Row>, lang: string)
    ensures CountTranslated(a + b, lang) == CountTranslated(a, lang) + CountTranslated(b, lang)
    decreases |a|
  {
    if |a| == 0 {
      assert a + b == b;
    } else {
      assert (a + b)[0] == a[0];
      assert (a + b)[1..] == a[1..] + b;
      CountAppend(a[1..], b, lang);
    }
  }

  /** With one snapshot the branch of line 227 cannot be taken: when
      languages were found the table has keys, and no language reports 0.0
      unless no key carries it. */
  lemma SnapshotZeroMeansUntranslated(t: Table, lang: string)
    requires Valid(t)
    requires GetTranslationCompletionStats(t).Ok? && lang in GetTranslationCompletionStats(t).value
    ensures GetTranslationCompletionStats(t).value[lang] == 0.0 <==>
              forall i :: 0 <= i < |t.order| ==> CheckItem(SelectTranslations(t)[i], lang) != Translated
  {
    ScanCoversTable(t);
  }

  /** A language every key carries with a non-empty value is complete. */
  lemma FullyTranslated(t: Table, lang: string)
    requires Valid(t)
    requires GetTranslationCompletionStats(t).Ok? && lang in GetTranslationCompletionStats(t).value
    requires forall id :: id in t.rows ==> CheckItem(t.rows[id], lang) == Translated
    ensures GetTranslationCompletionStats(t).value[lang] == 100.0
  {
    EveryItemTranslated(t, lang);
  }

  lemma EveryItemTranslated(t: Table, lang: string)
    requires Valid(t)
    requires forall id :: id in t.rows ==> CheckItem(t.rows[id], lang) == Translated
    ensures CountTranslated(SelectTranslations(t), lang) == |SelectTranslations(t)|
  {
    var items := SelectTranslations(t);
    forall i | 0 <= i < |items|
      ensures CheckItem(items[i], lang) == Translated
    {
      var id := t.order[i];
      assert id in t.rows;
      assert TranslationsOf(items[i]) == TranslationsOf(t.rows[id]);
    }
  }

  /** A language is reported iff some stored key names it in a dict of
      translations, as long as nothing raises. */
  lemma ReportedLanguages(t: Table, lang: string)
    requires Valid(t)
    requires GetTranslationCompletionStats(t).Ok?
    ensures lang in GetTranslationCompletionStats(t).value <==>
              exists id :: id in t.rows && TranslationsOf(t.rows[id]).Object? && lang in TranslationsOf(t.rows[id]).fields
  {
    LanguagesOfTable(t, lang);
  }

  /** The languages of a select are those the stored rows name. */
  lemma LanguagesOfTable(t: Table, lang: string)
    requires Valid(t)
    ensures lang in Languages(SelectTranslations(t)) <==>
              exists id :: id in t.rows && TranslationsOf(t.rows[id]).Object? && lang in TranslationsOf(t.rows[id]).fields
  {
    var items := SelectTranslations(t);
    if lang in Languages(items) {
      var i :| 0 <= i < |items| && TranslationsOf(items[i]).Object? && lang in TranslationsOf(items[i]).fields;
      assert t.order[i] in t.rows && TranslationsOf(t.rows[t.order[i]]) == TranslationsOf(items[i]);
    }
    if exists id :: id in t.rows && TranslationsOf(t.rows[id]).Object? && lang in TranslationsOf(t.rows[id]).fields {
      var id :| id in t.rows && TranslationsOf(t.rows[id]).Object? && lang in TranslationsOf(t.rows[id]).fields;
      var i := IndexOf(t.order, id);
      assert TranslationsOf(items[i]) == TranslationsOf(t.rows[id]);
    }
  }

  /** The position of an id in the scan order. */
  function IndexOf(ids: seq<Id>, id: Id): (i: nat)
    requires id in ids
    ensures i < |ids| && ids[i] == id
  {
    if ids[0] == id then 0 else 1 + IndexOf(ids[1..], id)
  }
}
