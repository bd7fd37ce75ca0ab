/** Typed values over byte strings: NewValue and its readers, util/value.go and util/util.go. */
module Values {
  import opened Bytes
  import opened Wire
  import opened Messages

  /** A Value either carries an error or bytes. */
  datatype Value = Value(err: Option<nat>, b: Bytes)

  /** A value small enough to be an element of a list or map. */
  type Element = v: Value | |v.b| < 0x8000_0000_0000_0000 witness Value(None, [])

  /** What NewValue's type switch tells apart. Strings are their bytes; durations are nanoseconds. */
  datatype Input =
    | AnError(code: nat)
    | AValue(v: Value)
    | ABytes(b: Bytes)
    | AString(s: Bytes)
    | ABool(flag: bool)
    | AnInt(n: Int64)
    | ADuration(ns: Int64)
    | ABytesList(items: seq<Blob>)
    | AStringList(strings: seq<Blob>)
    | AValueList(values: seq<Element>)
    | AStringMap(texts: map<Blob, Blob>)
    | ABytesMap(h: map<Blob, Blob>)
    | ABoolMap(flags: map<Blob, bool>)
    | AnIntMap(ints: map<Blob, Int64>)
    | AValueMap(elements: map<Blob, Element>)
    | AnythingElse

  const UNKNOWN_TYPE: nat := 0

  lemma IntIsShort(n: Int64)
    ensures |MarshalInt(IntValue([], n))| <= 11
  {
    if n != 0 {
      Uint64FitsVarint(ZigZag(n));
      VarintLength(ZigZag(n), MaxVarintBytes());
    }
  }

  function BoolBytes(flag: bool): Blob {
    if flag then [1] else ZERO_BYTE
  }

  function IntBytes(n: Int64): (b: Blob)
    ensures |b| <= 11
  {
    IntIsShort(n);
    MarshalInt(IntValue([], n))
  }

  function ElementBytes(values: seq<Element>): (items: seq<Blob>)
    ensures |items| == |values|
  {
    seq(|values|, i requires 0 <= i < |values| => values[i].b)
  }

  /** The fields of the hash that a typed map is stored as. */
  function FieldsOf(t: Input): map<Blob, Blob>
    requires t.AStringMap? || t.ABytesMap? || t.ABoolMap? || t.AnIntMap? || t.AValueMap?
  {
    match t
    case AStringMap(texts) => texts
    case ABytesMap(h) => h
    case ABoolMap(flags) => map k | k in flags :: BoolBytes(flags[k])
    case AnIntMap(ints) => map k | k in ints :: IntBytes(ints[k])
    case AValueMap(elements) => map k | k in elements :: elements[k].b
  }

  /** A possible result of NewValue: maps are marshalled in whatever order they are walked. */
  ghost predicate Represents(v: Value, t: Input) {
    match t
    case AnError(code) => v == Value(Some(code), [])
    case AValue(w) => v == w
    case ABytes(b) => v == Value(None, b)
    case AString(s) => v == Value(None, s)
    case ABool(flag) => v == Value(None, BoolBytes(flag))
    case AnInt(n) => v == Value(None, IntBytes(n))
    case ADuration(ns) => v == Value(None, IntBytes(ns))
    case ABytesList(items) => v == Value(None, MarshalList(List([], items, 0)))
    case AStringList(strings) => v == Value(None, MarshalList(List([], strings, 0)))
    case AValueList(values) => v == Value(None, MarshalList(List([], ElementBytes(values), 0)))
    case AnythingElse => v == Value(Some(UNKNOWN_TYPE), [])
    case _ => v.err == None && IsHashEncoding(Hash([], FieldsOf(t)), v.b)
  }

  // ---------- the conversion loops ----------

  method ListStringToBytes(lst: seq<Blob>) returns (items: seq<Blob>)
    ensures items == lst
  {
    items := [];
    for i := 0 to |lst|
      invariant items == lst[..i]
    {
      items := items + [lst[i]];
    }
  }

  method ListValueToBytes(lst: seq<Element>) returns (items: seq<Blob>)
    ensures items == ElementBytes(lst)
  {
    items := [];
    for i := 0 to |lst|
      invariant |items| == i && forall j :: 0 <= j < i ==> items[j] == lst[j].b
    {
      items := items + [lst[i].b];
    }
  }

  method MapBoolToMapBytes(flags: map<Blob, bool>) returns (m: map<Blob, Blob>)
    ensures m == FieldsOf(ABoolMap(flags))
  {
    m := map[];
    var rest := flags.Keys;
    while rest != {}
      invariant rest <= flags.Keys && m == FieldsOf(ABoolMap(flags - rest))
      decreases rest
    {
      var k :| k in rest;
      m, rest := m[k := BoolBytes(flags[k])], rest - {k};
    }
    assert flags - {} == flags;
  }

  method MapIntToMapBytes(ints: map<Blob, Int64>) returns (m: map<Blob, Blob>)
    ensures m == FieldsOf(AnIntMap(ints))
  {
    m := map[];
    var rest := ints.Keys;
    while rest != {}
      invariant rest <= ints.Keys && m == FieldsOf(AnIntMap(ints - rest))
      decreases rest
    {
      var k :| k in rest;
      m, rest := m[k := IntBytes(ints[k])], rest - {k};
    }
    assert ints - {} == ints;
  }

  method MapValueToMapBytes(elements: map<Blob, Element>) returns (m: map<Blob, Blob>)
    ensures m == FieldsOf(AValueMap(elements))
  {
    m := map[];
    var rest := elements.Keys;
    while rest != {}
      invariant rest <= elements.Keys && m == FieldsOf(AValueMap(elements - rest))
      decreases rest
    {
      var k :| k in rest;
      m, rest := m[k := elements[k].b], rest - {k};
    }
    assert elements - {} == elements;
  }

  method ListToValues(items: seq<Blob>) returns (values: seq<Value>)
    ensures values == Wrapped(items)
  {
    values := [];
    for i := 0 to |items|
      invariant |values| == i && forall j :: 0 <= j < i ==> values[j] == Value(None, items[j])
    {
      values := values + [Value(None, items[i])];
    }
  }

  method MapBytesToValues(h: map<Blob, Blob>) returns (m: map<Blob, Value>)
    ensures m == WrappedMap(h)
  {
    m := map[];
    var rest := h.Keys;
    while rest != {}
      invariant rest <= h.Keys && m == WrappedMap(h - rest)
      decreases rest
    {
      var k :| k in rest;
      m, rest := m[k := Value(None, h[k])], rest - {k};
    }
    assert h - {} == h;
  }

  /** The type switch. */
  method NewValue(t: Input) returns (v: Value)
    ensures Represents(v, t)
  {
    hide MarshalList, HashBytes;
    match t
    case AnError(code) => return Value(Some(code), []);
    case AValue(w) => return w;
    case ABytes(b) => return Value(None, b);
    case AString(s) => return Value(None, s);
    case ABool(flag) => return Value(None, if flag then [1] else ZERO_BYTE);
    case AnInt(n) => return Value(None, MarshalInt(IntValue([], n)));
    case ADuration(ns) => return Value(None, MarshalInt(IntValue([], ns)));
    case ABytesList(items) => return Value(None, MarshalList(List([], items, 0)));
    case AStringList(strings) =>
      var items := ListStringToBytes(strings);
      return Value(None, MarshalList(List([], items, 0)));
    case AValueList(values) =>
      var items := ListValueToBytes(values);
      return Value(None, MarshalList(List([], items, 0)));
    case AStringMap(texts) => v := MarshalledMap(texts);
    case ABytesMap(h) => v := MarshalledMap(h);
    case ABoolMap(flags) =>
      var m := MapBoolToMapBytes(flags);
      v := MarshalledMap(m);
    case AnIntMap(ints) =>
      var m := MapIntToMapBytes(ints);
      v := MarshalledMap(m);
    case AValueMap(elements) =>
      var m := MapValueToMapBytes(elements);
      v := MarshalledMap(m);
    case AnythingElse => return Value(Some(UNKNOWN_TYPE), []);
  }

  method MarshalledMap(m: map<Blob, Blob>) returns (v: Value)
    ensures v.err == None && IsHashEncoding(Hash([], m), v.b)
  {
    hide HashBytes;
    var b, _ := MarshalFields(m);
    v := Value(None, b);
  }

  // ---------- the readers ----------

  datatype Read<+T> = Got(value: T) | Carried(code: nat) | Undecodable(cause: DecodeError)

  function Wrapped(items: seq<Blob>): seq<Value> {
    seq(|items|, i requires 0 <= i < |items| => Value(None, items[i]))
  }

  function WrappedMap(h: map<Blob, Blob>): map<Blob, Value> {
    map k | k in h :: Value(None, h[k])
  }

  function AsBytes(v: Value): Read<Bytes> {
    if v.err.Some? then Carried(v.err.value) else Got(v.b)
  }

  function AsString(v: Value): Read<Bytes> {
    if v.err.Some? then Carried(v.err.value) else Got(v.b)
  }

  function AsBool(v: Value): Read<bool> {
    if v.err.Some? then Carried(v.err.value) else Got(|v.b| > 0 && v.b[0] != 0)
  }

  /** Int and Duration read the same message. */
  function AsInt(v: Value): Read<Int64> {
    if v.err.Some? then Carried(v.err.value)
    else match UnmarshalInt(v.b)
      case Ok(iv) => Got(iv.value)
      case Err(e) => Undecodable(e)
  }

  function AsList(v: Value): Read<seq<Value>> {
    if v.err.Some? then Carried(v.err.value)
    else match UnmarshalList(v.b)
      case Ok(l) => Got(Wrapped(l.value))
      case Err(e) => Undecodable(e)
  }

  function AsMap(v: Value): Read<map<Blob, Value>> {
    if v.err.Some? then Carried(v.err.value)
    else match UnmarshalHash(v.b)
      case Ok(h) => Got(WrappedMap(h.value))
      case Err(e) => Undecodable(e)
  }

  // ---------- round trips ----------

  /** Scalars come back as they went in; durations through the same reader as integers. */
  lemma ScalarsRoundTrip(v: Value, t: Input)
    requires Represents(v, t)
    ensures t.ABytes? ==> AsBytes(v) == Got(t.b)
    ensures t.AString? ==> AsString(v) == Got(t.s) && AsBytes(v) == Got(t.s)
    ensures t.ABool? ==> AsBool(v) == Got(t.flag)
    ensures t.AnInt? ==> AsInt(v) == Got(t.n)
    ensures t.ADuration? ==> AsInt(v) == Got(t.ns)
    ensures t.AnError? ==> AsInt(v) == Carried(t.code) && AsList(v) == Carried(t.code) && AsMap(v) == Carried(t.code)
  {
    hide UnmarshalInt, MarshalInt, UnmarshalList, UnmarshalHash;
    if t.AnInt? {
      IntRoundTrip(IntValue([], t.n));
    } else if t.ADuration? {
      IntRoundTrip(IntValue([], t.ns));
    }
  }

  /** Every reader hands on the error a value carries; that is what a value of an unknown type does. */
  lemma ErrorsCarry(v: Value, t: Input)
    requires Represents(v, t) && (t.AnError? || t.AnythingElse?)
    ensures var code := if t.AnError? then t.code else UNKNOWN_TYPE;
            && AsBytes(v) == AsString(v) == Carried(code)
            && AsBool(v) == Carried(code) && AsInt(v) == Carried(code) && AsList(v) == Carried(code) && AsMap(v) == Carried(code)
  {
  }

  /** Wrapping a value again changes nothing: it still stands for whatever it stood for. */
  lemma RewrappingKeeps(v: Value, w: Value, t: Input)
    requires Represents(v, AValue(w))
    ensures Represents(v, t) <==> Represents(w, t)
  {
  }

  /** A list of anything that NewValue makes bytes of comes back item by item. */
  lemma ListsRoundTrip(v: Value, t: Input)
    requires Represents(v, t) && (t.ABytesList? || t.AStringList? || t.AValueList?)
    ensures AsList(v) == Got(Wrapped(if t.ABytesList? then t.items else if t.AStringList? then t.strings else ElementBytes(t.values)))
  {
    hide UnmarshalList, MarshalList;
    ListRoundTrip(List([], if t.ABytesList? then t.items else if t.AStringList? then t.strings else ElementBytes(t.values), 0));
  }

  /** So a list of typed values, each read back with its own reader, is the list that went in. */
  lemma TypedListRoundTrip(v: Value, ts: seq<Input>, values: seq<Element>, i: nat)
    requires |values| == |ts| && i < |ts| && Represents(v, AValueList(values))
    requires forall j :: 0 <= j < |ts| ==> values[j].err == None && Represents(values[j], ts[j])
    ensures AsList(v).Got? && |AsList(v).value| == |ts| && Represents(AsList(v).value[i], ts[i])
    ensures ts[i].ABytes? ==> AsBytes(AsList(v).value[i]) == Got(ts[i].b)
    ensures ts[i].ABool? ==> AsBool(AsList(v).value[i]) == Got(ts[i].flag)
    ensures ts[i].AnInt? ==> AsInt(AsList(v).value[i]) == Got(ts[i].n)
    ensures ts[i].AString? ==> AsString(AsList(v).value[i]) == Got(ts[i].s)
  {
    hide Represents, AsInt, AsBool, AsString, AsBytes, UnmarshalList;
    ListsRoundTrip(v, AValueList(values));
    assert AsList(v).value[i] == values[i];
    ScalarsRoundTrip(values[i], ts[i]);
  }

  /** A typed map comes back field by field, whatever order it was written in. */
  lemma MapsRoundTrip(v: Value, t: Input)
    requires t.AStringMap? || t.ABytesMap? || t.ABoolMap? || t.AnIntMap? || t.AValueMap?
    requires Represents(v, t) && FitsInMemory(FieldsOf(t))
    ensures AsMap(v) == Got(WrappedMap(FieldsOf(t)))
  {
    hide UnmarshalHash, HashBytes;
    HashRoundTrip(Hash([], FieldsOf(t)), v.b);
  }

  lemma TypedMapRoundTrip(v: Value, t: Input, k: Blob)
    requires t.AStringMap? || t.ABytesMap? || t.ABoolMap? || t.AnIntMap?
    requires Represents(v, t) && FitsInMemory(FieldsOf(t))
    ensures AsMap(v).Got? && AsMap(v).value.Keys == FieldsOf(t).Keys
    ensures t.AStringMap? && k in t.texts ==> AsString(AsMap(v).value[k]) == Got(t.texts[k])
    ensures t.ABytesMap? && k in t.h ==> AsBytes(AsMap(v).value[k]) == Got(t.h[k])
    ensures t.ABoolMap? && k in t.flags ==> AsBool(AsMap(v).value[k]) == Got(t.flags[k])
    ensures t.AnIntMap? && k in t.ints ==> AsInt(AsMap(v).value[k]) == Got(t.ints[k])
  {
    hide AsMap, UnmarshalInt, MarshalInt, Represents;
    MapsRoundTrip(v, t);
    if t.AnIntMap? && k in t.ints {
      IntRoundTrip(IntValue([], t.ints[k]));
    }
  }
}
