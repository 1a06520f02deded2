/** The escaping codec between values that contain datetimes and plain JSON. */
module DateTimeCodec {
  import opened Options
  import opened ModelValues

  datatype Kind = GraphiteKind | InstantKind | LocalDateKind | DurationKind

  predicate IsTime(v: Value) {
    v.Graphite? || v.Instant? || v.LocalDate? || v.Duration?
  }

  function KindOf(v: Value): Kind
    requires IsTime(v)
  {
    match v
    case Graphite(_) => GraphiteKind
    case Instant(_) => InstantKind
    case LocalDate(_) => LocalDateKind
    case Duration(_) => DurationKind
  }

  function Tag(kind: Kind): string {
    match kind
    case GraphiteKind => "graphite@1"
    case InstantKind => "instant@1"
    case LocalDateKind => "local-date@1"
    case DurationKind => "duration@1"
  }

  const OBJECT_TAG := "json-object@1"
  const TAG_KEY := "$doxa"
  const VALUE_KEY := "value"

  /** `toString` and `parse` of the four datetime classes, whose text format is not modelled. */
  datatype TimeText = TimeText(print_: Value -> string, parse: (Kind, string) -> Option<Value>)
  {
    /** Printing a datetime and parsing the text gives the datetime back, and parsing stays in its class. */
    ghost predicate Sound() {
      && (forall v: Value :: IsTime(v) ==> parse(KindOf(v), print_(v)) == Some(v))
      && (forall kind: Kind, text: string :: parse(kind, text).Some? ==>
            IsTime(parse(kind, text).value) && KindOf(parse(kind, text).value) == kind)
    }
  }

  datatype Entry = Entry(key: string, value: Doxa)

  /** `Foreign` is anything the codec refuses: functions, class instances, numbers that are not finite. */
  datatype Doxa = Scalar(v: Value) | List(items: seq<Doxa>) | Object(entries: seq<Entry>) | Foreign

  datatype JsonEntry = JsonEntry(key: string, value: Json)

  datatype Json = JNull | JBool(b: bool) | JNumber(n: real) | JString(s: string)
                | JArray(items: seq<Json>) | JObject(entries: seq<JsonEntry>)

  function Tagged(tag: string, value: Json): Json {
    JObject([JsonEntry(TAG_KEY, JString(tag)), JsonEntry(VALUE_KEY, value)])
  }

  predicate HasOwn(entries: seq<Entry>, key: string) {
    exists e :: e in entries && e.key == key
  }

  // ---------------------------------------------------------------- encode

  function EncodeScalar(t: TimeText, v: Value): Option<Json> {
    match v
    case Absent => None
    case Null => Some(JNull)
    case Flag(b) => Some(JBool(b))
    case Num(n) => Some(JNumber(n))
    case Text(s) => Some(JString(s))
    case _ => Some(Tagged(Tag(KindOf(v)), JString(t.print_(v))))
  }

  function Encode(t: TimeText, v: Doxa): Option<Json>
    decreases v
  {
    match v
    case Scalar(s) => EncodeScalar(t, s)
    case Foreign => None
    case List(items) =>
      var encoded := EncodeItems(t, items);
      if encoded.None? then None else Some(JArray(encoded.value))
    case Object(entries) =>
      var encoded := EncodeEntries(t, entries);
      if encoded.None? then None
      else if HasOwn(entries, TAG_KEY) then Some(Tagged(OBJECT_TAG, JObject(encoded.value)))
      else Some(JObject(encoded.value))
  }

  function EncodeItems(t: TimeText, items: seq<Doxa>): Option<seq<Json>>
    decreases items
  {
    if |items| == 0 then Some([])
    else
      var first, rest := Encode(t, items[0]), EncodeItems(t, items[1..]);
      if first.None? || rest.None? then None else Some([first.value] + rest.value)
  }

  function EncodeEntry(t: TimeText, e: Entry): Option<JsonEntry>
    decreases e
  {
    var encoded := Encode(t, e.value);
    if encoded.None? then None else Some(JsonEntry(e.key, encoded.value))
  }

  function EncodeEntries(t: TimeText, entries: seq<Entry>): Option<seq<JsonEntry>>
    decreases entries
  {
    if |entries| == 0 then Some([])
    else
      var first, rest := EncodeEntry(t, entries[0]), EncodeEntries(t, entries[1..]);
      if first.None? || rest.None? then None else Some([first.value] + rest.value)
  }

  /** The JSON that datetimes become, and the objects whose own `$doxa` key would be taken for a tag. */
  lemma WireFormat(t: TimeText, micros: int, iso: string, entries: seq<Entry>)
    ensures Encode(t, Scalar(Graphite(micros))) ==
            Some(JObject([JsonEntry("$doxa", JString("graphite@1")), JsonEntry("value", JString(t.print_(Graphite(micros))))]))
    ensures Encode(t, Scalar(Instant(micros))) ==
            Some(JObject([JsonEntry("$doxa", JString("instant@1")), JsonEntry("value", JString(t.print_(Instant(micros))))]))
    ensures Encode(t, Scalar(LocalDate(iso))) ==
            Some(JObject([JsonEntry("$doxa", JString("local-date@1")), JsonEntry("value", JString(t.print_(LocalDate(iso))))]))
    ensures Encode(t, Scalar(Duration(iso))) ==
            Some(JObject([JsonEntry("$doxa", JString("duration@1")), JsonEntry("value", JString(t.print_(Duration(iso))))]))
    ensures EncodeEntries(t, entries).Some? && (exists e :: e in entries && e.key == "$doxa") ==>
            Encode(t, Object(entries)) ==
            Some(JObject([JsonEntry("$doxa", JString("json-object@1")), JsonEntry("value", JObject(EncodeEntries(t, entries).value))]))
  {
  }

  // ---------------------------------------------------------------- decode

  predicate HasKey(entries: seq<JsonEntry>, key: string) {
    |entries| > 0 && (entries[0].key == key || HasKey(entries[1..], key))
  }

  function Lookup(entries: seq<JsonEntry>, key: string): Json
    requires HasKey(entries, key)
  {
    if entries[0].key == key then entries[0].value else Lookup(entries[1..], key)
  }

  function Decode(t: TimeText, j: Json): Option<Doxa>
    decreases j, 1
  {
    match j
    case JNull => Some(Scalar(Null))
    case JBool(b) => Some(Scalar(Flag(b)))
    case JNumber(n) => Some(Scalar(Num(n)))
    case JString(s) => Some(Scalar(Text(s)))
    case JArray(items) =>
      var decoded := DecodeItems(t, items);
      if decoded.None? then None else Some(List(decoded.value))
    case JObject(entries) =>
      if HasKey(entries, TAG_KEY) then DecodeTagged(t, j)
      else
        var decoded := DecodeEntries(t, entries);
        if decoded.None? then None else Some(Object(decoded.value))
  }

  function DecodeTagged(t: TimeText, j: Json): Option<Doxa>
    requires j.JObject? && HasKey(j.entries, TAG_KEY)
    decreases j, 0
  {
    if |j.entries| != 2 || !HasKey(j.entries, VALUE_KEY) then None
    else
      var tag, value := Lookup(j.entries, TAG_KEY), Lookup(j.entries, VALUE_KEY);
      LookupSmaller(j.entries, VALUE_KEY);
      if tag == JString(OBJECT_TAG) then
        if !value.JObject? then None
        else
          var decoded := DecodeEntries(t, value.entries);
          if decoded.None? then None else Some(Object(decoded.value))
      else if !value.JString? then None
      else if tag == JString(Tag(GraphiteKind)) then Wrap(t.parse(GraphiteKind, value.s))
      else if tag == JString(Tag(InstantKind)) then Wrap(t.parse(InstantKind, value.s))
      else if tag == JString(Tag(LocalDateKind)) then Wrap(t.parse(LocalDateKind, value.s))
      else if tag == JString(Tag(DurationKind)) then Wrap(t.parse(DurationKind, value.s))
      else None
  }

  function Wrap(v: Option<Value>): Option<Doxa> {
    if v.None? then None else Some(Scalar(v.value))
  }

  function DecodeItems(t: TimeText, items: seq<Json>): Option<seq<Doxa>>
    decreases items, 0
  {
    if |items| == 0 then Some([])
    else
      var first, rest := Decode(t, items[0]), DecodeItems(t, items[1..]);
      if first.None? || rest.None? then None else Some([first.value] + rest.value)
  }

  function DecodeEntry(t: TimeText, e: JsonEntry): Option<Entry>
    decreases e, 0
  {
    var decoded := Decode(t, e.value);
    if decoded.None? then None else Some(Entry(e.key, decoded.value))
  }

  function DecodeEntries(t: TimeText, entries: seq<JsonEntry>): Option<seq<Entry>>
    decreases entries, 0
  {
    if |entries| == 0 then Some([])
    else
      var first, rest := DecodeEntry(t, entries[0]), DecodeEntries(t, entries[1..]);
      if first.None? || rest.None? then None else Some([first.value] + rest.value)
  }

  lemma {:induction false} LookupSmaller(entries: seq<JsonEntry>, key: string)
    requires HasKey(entries, key)
    ensures exists i :: 0 <= i < |entries| && entries[i].value == Lookup(entries, key)
  {
    if entries[0].key != key {
      LookupSmaller(entries[1..], key);
    }
  }

  // ---------------------------------------------------------------- round trip

  /** No undefined and nothing foreign at any depth. */
  predicate Encodable(v: Doxa)
    decreases v
  {
    match v
    case Scalar(s) => s != Absent
    case Foreign => false
    case List(items) => forall i :: 0 <= i < |items| ==> Encodable(items[i])
    case Object(entries) => forall i :: 0 <= i < |entries| ==> EncodableEntry(entries[i])
  }

  predicate EncodableEntry(e: Entry)
    decreases e
  {
    Encodable(e.value)
  }

  /** Encoding succeeds on exactly the encodable values, and decoding gives every one of them back. */
  lemma {:induction false} RoundTrip(t: TimeText, v: Doxa)
    requires t.Sound()
    ensures Encode(t, v).Some? <==> Encodable(v)
    ensures Encode(t, v).Some? ==> Decode(t, Encode(t, v).value) == Some(v)
    decreases v, 1
  {
    match v
    case Scalar(s) =>
      if IsTime(s) {
        TaggedLookup(Tag(KindOf(s)), JString(t.print_(s)));
      }
    case Foreign =>
    case List(items) => RoundTripItems(t, items);
    case Object(entries) =>
      RoundTripEntries(t, entries);
      var encoded := EncodeEntries(t, entries);
      if encoded.Some? && HasOwn(entries, TAG_KEY) {
        TaggedLookup(OBJECT_TAG, JObject(encoded.value));
      }
  }

  lemma TaggedLookup(tag: string, value: Json)
    ensures var entries := Tagged(tag, value).entries;
            && HasKey(entries, TAG_KEY) && Lookup(entries, TAG_KEY) == JString(tag)
            && HasKey(entries, VALUE_KEY) && Lookup(entries, VALUE_KEY) == value
  {
    var entries := Tagged(tag, value).entries;
    assert entries[1..] == [JsonEntry(VALUE_KEY, value)];
    assert TAG_KEY[0] != VALUE_KEY[0];
  }

  lemma {:induction false} RoundTripItems(t: TimeText, items: seq<Doxa>)
    requires t.Sound()
    ensures EncodeItems(t, items).Some? <==> forall i :: 0 <= i < |items| ==> Encodable(items[i])
    ensures EncodeItems(t, items).Some? ==> DecodeItems(t, EncodeItems(t, items).value) == Some(items)
    decreases items, 0
  {
    if |items| > 0 {
      RoundTrip(t, items[0]);
      RoundTripItems(t, items[1..]);
      assert items == [items[0]] + items[1..];
      if EncodeItems(t, items).Some? {
        assert EncodeItems(t, items).value[1..] == EncodeItems(t, items[1..]).value;
      }
    }
  }

  lemma {:induction false} RoundTripEntry(t: TimeText, e: Entry)
    requires t.Sound()
    ensures EncodeEntry(t, e).Some? <==> EncodableEntry(e)
    ensures EncodeEntry(t, e).Some? ==> DecodeEntry(t, EncodeEntry(t, e).value) == Some(e)
    decreases e, 0
  {
    RoundTrip(t, e.value);
  }

  lemma {:induction false} RoundTripEntries(t: TimeText, entries: seq<Entry>)
    requires t.Sound()
    ensures EncodeEntries(t, entries).Some? <==> forall i :: 0 <= i < |entries| ==> EncodableEntry(entries[i])
    ensures EncodeEntries(t, entries).Some? ==>
              DecodeEntries(t, EncodeEntries(t, entries).value) == Some(entries) &&
              (HasKey(EncodeEntries(t, entries).value, TAG_KEY) <==> HasOwn(entries, TAG_KEY))
    decreases entries, 0
  {
    if |entries| > 0 {
      RoundTripEntry(t, entries[0]);
      RoundTripEntries(t, entries[1..]);
      assert entries == [entries[0]] + entries[1..];
      if EncodeEntries(t, entries).Some? {
        assert EncodeEntries(t, entries).value[1..] == EncodeEntries(t, entries[1..]).value;
        assert HasOwn(entries, TAG_KEY) <==> entries[0].key == TAG_KEY || HasOwn(entries[1..], TAG_KEY);
      }
    }
  }

  /** No two values share an encoding, however their own keys imitate the tags. */
  lemma EncodingIsInjective(t: TimeText, v: Doxa, w: Doxa)
    requires t.Sound() && Encode(t, v).Some?
    ensures Encode(t, v) == Encode(t, w) ==> v == w
  {
    RoundTrip(t, v);
    RoundTrip(t, w);
  }

  // ---------------------------------------------------------------- which JSON is an encoding

  /** Tags stand first, time texts are as printed, and the object tag wraps only objects that need it. */
  predicate Canonical(t: TimeText, j: Json)
    decreases j
  {
    match j
    case JArray(items) => forall i :: 0 <= i < |items| ==> Canonical(t, items[i])
    case JObject(entries) =>
      if HasKey(entries, TAG_KEY) then
        && |entries| == 2 && entries[0].key == TAG_KEY && entries[1].key == VALUE_KEY
        && match entries[1].value
           case JObject(inner) =>
             && entries[0].value == JString(OBJECT_TAG) && HasKey(inner, TAG_KEY)
             && forall i :: 0 <= i < |inner| ==> CanonicalEntry(t, inner[i])
           case JString(text) => PrintedTime(t, entries[0].value, text)
           case _ => false
      else forall i :: 0 <= i < |entries| ==> CanonicalEntry(t, entries[i])
    case _ => true
  }

  predicate CanonicalEntry(t: TimeText, e: JsonEntry)
    decreases e
  {
    Canonical(t, e.value)
  }

  /** `text` is what printing a datetime of the tagged class gives. */
  predicate PrintedTime(t: TimeText, tag: Json, text: string) {
    exists kind: Kind :: tag == JString(Tag(kind)) && t.parse(kind, text).Some? && t.print_(t.parse(kind, text).value) == text
  }

  lemma TagsDiffer()
    ensures forall a: Kind :: Tag(a) != OBJECT_TAG
    ensures forall a: Kind, b: Kind :: Tag(a) == Tag(b) ==> a == b
  {
    assert Tag(GraphiteKind)[0] == 'g' && Tag(InstantKind)[0] == 'i';
    assert Tag(LocalDateKind)[0] == 'l' && Tag(DurationKind)[0] == 'd' && OBJECT_TAG[0] == 'j';
  }

  lemma OneKey(e: JsonEntry, key: string)
    ensures HasKey([e], key) <==> e.key == key
    ensures HasKey([e], key) ==> Lookup([e], key) == e.value
  {
    assert [e][1..] == [];
  }

  /** A tagged object has its two keys in one of the two orders. */
  lemma TwoKeys(entries: seq<JsonEntry>)
    requires |entries| == 2 && HasKey(entries, TAG_KEY) && HasKey(entries, VALUE_KEY)
    ensures entries == [entries[0], entries[1]]
    ensures entries[0].key == TAG_KEY || entries[0].key == VALUE_KEY
    ensures entries[0].key == TAG_KEY ==>
              entries[1].key == VALUE_KEY &&
              Lookup(entries, TAG_KEY) == entries[0].value && Lookup(entries, VALUE_KEY) == entries[1].value
  {
    assert TAG_KEY[0] != VALUE_KEY[0];
    assert entries[1..] == [entries[1]];
    OneKey(entries[1], TAG_KEY);
    OneKey(entries[1], VALUE_KEY);
  }

  lemma {:induction false} CanonicalItems(t: TimeText, items: seq<Json>)
    requires t.Sound()
    ensures (forall i :: 0 <= i < |items| ==> Canonical(t, items[i])) <==>
            DecodeItems(t, items).Some? && EncodeItems(t, DecodeItems(t, items).value) == Some(items)
    decreases items, 0
  {
    if |items| > 0 {
      CanonicalIsTheImage(t, items[0]);
      CanonicalItems(t, items[1..]);
      assert items == [items[0]] + items[1..];
      if DecodeItems(t, items).Some? {
        assert DecodeItems(t, items).value[1..] == DecodeItems(t, items[1..]).value;
      }
    }
  }

  lemma {:induction false} CanonicalJsonEntry(t: TimeText, e: JsonEntry)
    requires t.Sound()
    ensures CanonicalEntry(t, e) <==>
            DecodeEntry(t, e).Some? && EncodeEntry(t, DecodeEntry(t, e).value) == Some(e)
    decreases e, 0
  {
    CanonicalIsTheImage(t, e.value);
  }

  lemma {:induction false} CanonicalEntries(t: TimeText, entries: seq<JsonEntry>)
    requires t.Sound()
    ensures (forall i :: 0 <= i < |entries| ==> CanonicalEntry(t, entries[i])) <==>
            DecodeEntries(t, entries).Some? && EncodeEntries(t, DecodeEntries(t, entries).value) == Some(entries)
    ensures DecodeEntries(t, entries).Some? ==>
              (HasOwn(DecodeEntries(t, entries).value, TAG_KEY) <==> HasKey(entries, TAG_KEY))
    decreases entries, 0
  {
    if |entries| > 0 {
      CanonicalJsonEntry(t, entries[0]);
      CanonicalEntries(t, entries[1..]);
      assert entries == [entries[0]] + entries[1..];
      if DecodeEntries(t, entries).Some? {
        var decoded := DecodeEntries(t, entries).value;
        assert decoded[1..] == DecodeEntries(t, entries[1..]).value;
        assert HasOwn(decoded, TAG_KEY) <==> decoded[0].key == TAG_KEY || HasOwn(decoded[1..], TAG_KEY);
      }
    }
  }

  /** Exactly the canonical JSON is the encoding of some value: its decoding. */
  lemma {:induction false} CanonicalIsTheImage(t: TimeText, j: Json)
    requires t.Sound()
    ensures Canonical(t, j) <==> Decode(t, j).Some? && Encode(t, Decode(t, j).value) == Some(j)
    decreases j, 1
  {
    match j
    case JArray(items) => CanonicalItems(t, items);
    case JObject(entries) =>
      if !HasKey(entries, TAG_KEY) {
        CanonicalEntries(t, entries);
      } else if |entries| == 2 && HasKey(entries, VALUE_KEY) {
        TwoKeys(entries);
        LookupSmaller(entries, VALUE_KEY);
        var value := Lookup(entries, VALUE_KEY);
        if value.JObject? {
          CanonicalObjectTag(t, entries, value);
        } else if value.JString? {
          CanonicalTimeTag(t, entries, value);
        } else {
          assert !Canonical(t, j);
        }
      } else if |entries| == 2 {
        assert entries[1..] == [entries[1]];
        OneKey(entries[1], VALUE_KEY);
      }
    case _ =>
  }

  lemma {:induction false} CanonicalObjectTag(t: TimeText, entries: seq<JsonEntry>, value: Json)
    requires t.Sound() && |entries| == 2 && HasKey(entries, TAG_KEY) && HasKey(entries, VALUE_KEY)
    requires value == Lookup(entries, VALUE_KEY) && value.JObject?
    ensures var j := JObject(entries);
            Canonical(t, j) <==> Decode(t, j).Some? && Encode(t, Decode(t, j).value) == Some(j)
    decreases entries, 0
  {
    TwoKeys(entries);
    LookupSmaller(entries, VALUE_KEY);
    TagsDiffer();
    var inner := value.entries;
    CanonicalEntries(t, inner);
    if Lookup(entries, TAG_KEY) == JString(OBJECT_TAG) {
      if DecodeEntries(t, inner).Some? {
        RoundTripEntries(t, DecodeEntries(t, inner).value);
        EncodeObject(t, DecodeEntries(t, inner).value);
        WrappedObject(entries, value, DecodeEntries(t, inner).value, EncodeEntries(t, DecodeEntries(t, inner).value));
      }
    }
  }

  lemma EncodeObject(t: TimeText, entries: seq<Entry>)
    ensures var encoded := EncodeEntries(t, entries);
            Encode(t, Object(entries)) ==
            if encoded.None? then None
            else if HasOwn(entries, TAG_KEY) then Some(Tagged(OBJECT_TAG, JObject(encoded.value)))
            else Some(JObject(encoded.value))
  {
  }

  /** The tagged form of an object is these two entries exactly if they are in their order and hold its encoding. */
  lemma WrappedObject(entries: seq<JsonEntry>, value: Json, own: seq<Entry>, encoded: Option<seq<JsonEntry>>)
    requires |entries| == 2 && value.JObject?
    ensures encoded.Some? ==>
              (Tagged(OBJECT_TAG, JObject(encoded.value)) == JObject(entries) <==>
               entries[0] == JsonEntry(TAG_KEY, JString(OBJECT_TAG)) && entries[1] == JsonEntry(VALUE_KEY, JObject(encoded.value)))
  {
    assert entries == [entries[0], entries[1]];
  }

  lemma CanonicalTimeTag(t: TimeText, entries: seq<JsonEntry>, value: Json)
    requires t.Sound() && |entries| == 2 && HasKey(entries, TAG_KEY) && HasKey(entries, VALUE_KEY)
    requires value == Lookup(entries, VALUE_KEY) && value.JString?
    ensures var j := JObject(entries);
            Canonical(t, j) <==> Decode(t, j).Some? && Encode(t, Decode(t, j).value) == Some(j)
  {
    TwoKeys(entries);
    TagsDiffer();
    var tag := Lookup(entries, TAG_KEY);
    if kind: Kind :| tag == JString(Tag(kind)) {
      DecodeTime(t, entries, kind, value.s);
    } else {
    }
  }

  lemma DecodeTime(t: TimeText, entries: seq<JsonEntry>, kind: Kind, text: string)
    requires |entries| == 2 && HasKey(entries, TAG_KEY) && HasKey(entries, VALUE_KEY)
    requires Lookup(entries, TAG_KEY) == JString(Tag(kind)) && Lookup(entries, VALUE_KEY) == JString(text)
    ensures Decode(t, JObject(entries)) == Wrap(t.parse(kind, text))
  {
    TagsDiffer();
    assert kind == GraphiteKind || kind == InstantKind || kind == LocalDateKind || kind == DurationKind;
  }
}
