/** The timestamp codec of database.py: `serialize_datetimes` renders every
    datetime reached through dicts (and dicts inside lists) as ISO text, and
    `parse_datetimes` turns every string reached the same way that parses as
    ISO text back into a datetime. Strings sitting directly in a list are
    never parsed; datetimes sitting directly in a list are never rendered. */
module Codec {
  import opened Wrappers
  import opened Text
  import opened Json

  /** Python's `datetime.isoformat` and `datetime.fromisoformat`, left abstract:
      `render` gives the text of an instant, `fromIsoFormat` parses text and
      answers None where Python raises ValueError. */
  datatype IsoFormat = IsoFormat(render: Timestamp -> string, fromIsoFormat: string -> Option<Timestamp>)

  /** The parse step of `parse_datetimes` for one string: text ending in
      "+00:00" or "Z" has every "Z" rewritten to "+00:00" before parsing. */
  function ParseIsoText(iso: IsoFormat, s: string): (r: Option<Timestamp>)
    ensures !EndsWith(s, "Z") && !EndsWith(s, "+00:00") ==> r == iso.fromIsoFormat(s)
    ensures 'Z' !in s ==> r == iso.fromIsoFormat(s)
    ensures EndsWith(s, "Z") ==> r == iso.fromIsoFormat(ReplaceChar(s, 'Z', "+00:00"))
    ensures EndsWith(s, "+00:00") ==> r == iso.fromIsoFormat(ReplaceChar(s, 'Z', "+00:00"))
  {
    if EndsWith(s, "+00:00") || EndsWith(s, "Z") then iso.fromIsoFormat(ReplaceChar(s, 'Z', "+00:00"))
    else iso.fromIsoFormat(s)
  }

  /** Text that `parse_datetimes` would turn into a datetime. */
  predicate IsoText(iso: IsoFormat, s: string) {
    ParseIsoText(iso, s).Some?
  }

  /** The codec is lossless: the text `isoformat` produces parses back to the
      same instant. Python's datetimes have this property; the model assumes it
      wherever a round trip is claimed. */
  ghost predicate RoundTrips(iso: IsoFormat) {
    forall t :: ParseIsoText(iso, iso.render(t)) == Some(t)
  }

  /** No datetime remains at a position the codec visits: a dict value, or a
      value inside a dict that sits in a list. */
  predicate NoTime(v: Value) {
    match v
    case Time(_) => false
    case Object(m) => forall k :: k in m ==> NoTime(m[k])
    case Array(xs) => forall i :: 0 <= i < |xs| ==> (xs[i].Object? ==> NoTime(xs[i]))
    case _ => true
  }

  /** No string that parses as ISO text remains at a position the codec visits. */
  predicate NoIsoText(iso: IsoFormat, v: Value) {
    match v
    case Str(s) => !IsoText(iso, s)
    case Object(m) => forall k :: k in m ==> NoIsoText(iso, m[k])
    case Array(xs) => forall i :: 0 <= i < |xs| ==> (xs[i].Object? ==> NoIsoText(iso, xs[i]))
    case _ => true
  }

  /** One dict value as `serialize_datetimes` rewrites it. */
  function SerializeValue(iso: IsoFormat, v: Value): (r: Value)
    ensures v.Time? ==> r == Str(iso.render(v.t))
    ensures v.Object? ==> r.Object? && r.fields.Keys == v.fields.Keys
    ensures v.Array? ==> r.Array? && |r.items| == |v.items|
    ensures v.Array? ==> forall i :: 0 <= i < |v.items| && !v.items[i].Object? ==> r.items[i] == v.items[i]
    ensures !v.Time? && !v.Object? && !v.Array? ==> r == v
    ensures NoTime(r)
  {
    match v
    case Time(t) => Str(iso.render(t))
    case Object(m) => Object(map k | k in m :: SerializeValue(iso, m[k]))
    case Array(xs) =>
      Array(seq(|xs|, i requires 0 <= i < |xs| => if xs[i].Object? then SerializeValue(iso, xs[i]) else xs[i]))
    case _ => v
  }

  /** One dict value as `parse_datetimes` rewrites it. */
  function ParseValue(iso: IsoFormat, v: Value): (r: Value)
    ensures v.Str? ==> r == (if IsoText(iso, v.s) then Time(ParseIsoText(iso, v.s).value) else v)
    ensures r.Str? ==> r == v
    ensures v.Object? ==> r.Object? && r.fields.Keys == v.fields.Keys
    ensures v.Array? ==> r.Array? && |r.items| == |v.items|
    ensures v.Array? ==> forall i :: 0 <= i < |v.items| && !v.items[i].Object? ==> r.items[i] == v.items[i]
    ensures !v.Str? && !v.Object? && !v.Array? ==> r == v
    ensures NoIsoText(iso, r)
  {
    match v
    case Str(s) =>
      (match ParseIsoText(iso, s)
       case Some(t) => Time(t)
       case None => v)
    case Object(m) => Object(map k | k in m :: ParseValue(iso, m[k]))
    case Array(xs) =>
      Array(seq(|xs|, i requires 0 <= i < |xs| => if xs[i].Object? then ParseValue(iso, xs[i]) else xs[i]))
    case _ => v
  }

  /** `serialize_datetimes(data)`. */
  function SerializeDatetimes(iso: IsoFormat, data: Object): (r: Object)
    ensures r.Keys == data.Keys
    ensures NoTime(Object(r))
    ensures forall k :: k in data && !data[k].Time? && !data[k].Object? && !data[k].Array? ==> r[k] == data[k]
    ensures forall k :: k in data && data[k].Time? ==> r[k] == Str(iso.render(data[k].t))
  {
    map k | k in data :: SerializeValue(iso, data[k])
  }

  /** `parse_datetimes(data)`. */
  function ParseDatetimes(iso: IsoFormat, data: Object): (r: Object)
    ensures r.Keys == data.Keys
    ensures NoIsoText(iso, Object(r))
    ensures forall k :: k in data && !data[k].Str? && !data[k].Object? && !data[k].Array? ==> r[k] == data[k]
    ensures forall k :: k in r && r[k].Str? ==> r[k] == data[k]
  {
    map k | k in data :: ParseValue(iso, data[k])
  }

  /** Both functions work key by key, so they distribute over a dict update:
      the parse of `row + payload` is the parse of `row` updated with the parse
      of `payload`. */
  lemma ParseDistributes(iso: IsoFormat, row: Object, payload: Object)
    ensures ParseDatetimes(iso, row + payload) == ParseDatetimes(iso, row) + ParseDatetimes(iso, payload)
  {
  }

  /** A one-column dict parses column-wise. */
  lemma ParseSingleton(iso: IsoFormat, k: string, v: Value)
    ensures ParseDatetimes(iso, map[k := v]) == map[k := ParseValue(iso, v)]
  {
    var r := ParseDatetimes(iso, map[k := v]);
    assert r.Keys == {k} && r[k] == ParseValue(iso, v);
  }

  /** A value that holds no datetime is left alone by the serializer. */
  lemma {:induction false} SerializeFixesNoTime(iso: IsoFormat, v: Value)
    requires NoTime(v)
    ensures SerializeValue(iso, v) == v
    decreases v
  {
    match v
    case Object(m) =>
      forall k | k in m
        ensures SerializeValue(iso, m[k]) == m[k]
      {
        SerializeFixesNoTime(iso, m[k]);
      }
      assert SerializeValue(iso, v).fields == m;
    case Array(xs) =>
      var r := SerializeValue(iso, v);
      forall i | 0 <= i < |xs|
        ensures r.items[i] == xs[i]
      {
        if xs[i].Object? {
          SerializeFixesNoTime(iso, xs[i]);
        }
      }
      assert r.items == xs;
    case _ =>
  }

  /** A dict none of whose values holds ISO-looking text is left alone by
      `parse_datetimes`. */
  lemma ParseFixesPlainObject(iso: IsoFormat, d: Object)
    requires forall c :: c in d ==> NoIsoText(iso, d[c])
    ensures ParseDatetimes(iso, d) == d
  {
    forall c | c in d
      ensures ParseValue(iso, d[c]) == d[c]
    {
      ParseFixesNoIsoText(iso, d[c]);
    }
  }

  /** A value that holds no ISO-looking text is left alone by the parser. */
  lemma {:induction false} ParseFixesNoIsoText(iso: IsoFormat, v: Value)
    requires NoIsoText(iso, v)
    ensures ParseValue(iso, v) == v
    decreases v
  {
    match v
    case Object(m) =>
      forall k | k in m
        ensures ParseValue(iso, m[k]) == m[k]
      {
        ParseFixesNoIsoText(iso, m[k]);
      }
      assert ParseValue(iso, v).fields == m;
    case Array(xs) =>
      var r := ParseValue(iso, v);
      forall i | 0 <= i < |xs|
        ensures r.items[i] == xs[i]
      {
        if xs[i].Object? {
          ParseFixesNoIsoText(iso, xs[i]);
        }
      }
      assert r.items == xs;
    case _ =>
  }

  /** Serializing twice is serializing once. */
  lemma SerializeIdempotent(iso: IsoFormat, data: Object)
    ensures SerializeDatetimes(iso, SerializeDatetimes(iso, data)) == SerializeDatetimes(iso, data)
  {
    var once := SerializeDatetimes(iso, data);
    SerializeFixesNoTime(iso, Object(once));
    assert SerializeValue(iso, Object(once)).fields == SerializeDatetimes(iso, once);
  }

  /** Parsing twice is parsing once: text that failed to parse the first time
      fails again, and datetimes are never touched. */
  lemma ParseIdempotent(iso: IsoFormat, data: Object)
    ensures ParseDatetimes(iso, ParseDatetimes(iso, data)) == ParseDatetimes(iso, data)
  {
    var once := ParseDatetimes(iso, data);
    ParseFixesNoIsoText(iso, Object(once));
    assert ParseValue(iso, Object(once)).fields == ParseDatetimes(iso, once);
  }

  /** Round trip of one value: with a lossless codec, and no text in `v` that
      would itself parse as a timestamp, parsing undoes serializing. */
  lemma {:induction false} ValueRoundTrip(iso: IsoFormat, v: Value)
    requires RoundTrips(iso)
    requires NoIsoText(iso, v)
    ensures ParseValue(iso, SerializeValue(iso, v)) == v
    decreases v
  {
    match v
    case Time(t) =>
      assert ParseIsoText(iso, iso.render(t)) == Some(t);
    case Object(m) =>
      forall k | k in m
        ensures ParseValue(iso, SerializeValue(iso, m[k])) == m[k]
      {
        ValueRoundTrip(iso, m[k]);
      }
      assert ParseValue(iso, SerializeValue(iso, v)).fields == m;
    case Array(xs) =>
      var r := ParseValue(iso, SerializeValue(iso, v));
      forall i | 0 <= i < |xs|
        ensures r.items[i] == xs[i]
      {
        if xs[i].Object? {
          ValueRoundTrip(iso, xs[i]);
        }
      }
      assert r.items == xs;
    case _ =>
  }

  /** Round trip of a dict: `parse_datetimes(serialize_datetimes(d)) == d`
      whenever the codec is lossless and `d` holds no ISO-looking text. */
  lemma RoundTrip(iso: IsoFormat, data: Object)
    requires RoundTrips(iso)
    requires NoIsoText(iso, Object(data))
    ensures ParseDatetimes(iso, SerializeDatetimes(iso, data)) == data
  {
    forall k | k in data
      ensures ParseValue(iso, SerializeValue(iso, data[k])) == data[k]
    {
      ValueRoundTrip(iso, data[k]);
    }
  }

  /** The asymmetry of the codec: a string placed directly in a list is never
      parsed, even when it is ISO text that would be parsed as a dict value. */
  lemma ListStringsStayText(iso: IsoFormat, data: Object, k: string, i: nat)
    requires k in data && data[k].Array? && i < |data[k].items|
    requires data[k].items[i].Str? && IsoText(iso, data[k].items[i].s)
    ensures ParseDatetimes(iso, data)[k].items[i] == data[k].items[i]
    ensures ParseDatetimes(iso, data[k := data[k].items[i]])[k].Time?
  {
  }
}
