/**
 The three stored message types, as pb/mydis.proto fixes them. Marshalling follows field numbers,
 leaves out zero scalars and, for hashes, walks the map in an arbitrary order
 (Protocol Buffers Encoding guide, section "Maps").
 */
module Messages {
  import opened Bytes
  import opened Wire

  datatype IntValue = IntValue(key: Blob, value: Int64)
  datatype List = List(key: Blob, value: seq<Blob>, limit: Int64)
  datatype Hash = Hash(key: Blob, value: map<Blob, Blob>)

  const EMPTY_INT := IntValue([], 0)
  const EMPTY_LIST := List([], [], 0)
  const EMPTY_HASH := Hash([], map[])

  // ---------- encoding ----------

  function KeyPart(key: Blob): Bytes {
    if key == [] then [] else DelimitedField(1, key)
  }

  function MarshalInt(iv: IntValue): Bytes {
    KeyPart(iv.key) + if iv.value == 0 then [] else VarintField(2, ZigZag(iv.value))
  }

  function ItemsPart(items: seq<Blob>): Bytes {
    if items == [] then [] else DelimitedField(2, items[0]) + ItemsPart(items[1..])
  }

  function LimitPart(limit: Int64): Bytes {
    if limit == 0 then [] else VarintField(3, ToUnsigned(limit))
  }

  function MarshalList(lst: List): Bytes {
    KeyPart(lst.key) + ItemsPart(lst.value) + LimitPart(lst.limit)
  }

  /** One map entry. An empty value may or may not be written. */
  function EntryBody(field: Blob, value: Blob, omitEmpty: bool): Bytes {
    DelimitedField(1, field) + if omitEmpty && value == [] then [] else DelimitedField(2, value)
  }

  function EntriesPart(h: map<Blob, Blob>, order: seq<Blob>, omitEmpty: bool): Bytes
    requires forall f :: f in order ==> f in h
  {
    if order == [] then []
    else DelimitedField(2, EntryBody(order[0], h[order[0]], omitEmpty)) + EntriesPart(h, order[1..], omitEmpty)
  }

  /** A possible iteration order of a Go map: every field, once. */
  predicate IsOrderOf(order: seq<Blob>, h: map<Blob, Blob>) {
    && (forall f :: f in order ==> f in h)
    && (forall f :: f in h ==> f in order)
    && (forall i, j :: 0 <= i < j < |order| ==> order[i] != order[j])
  }

  function MarshalHash(h: Hash, order: seq<Blob>, omitEmpty: bool): Bytes
    requires forall f :: f in order ==> f in h.value
  {
    KeyPart(h.key) + EntriesPart(h.value, order, omitEmpty)
  }

  /** The choices marshalling a hash makes: the iteration order, and whether empty values are written. */
  datatype HashLayout = HashLayout(order: seq<Blob>, omitEmpty: bool)

  function HashBytes(h: Hash, how: HashLayout): Option<Bytes> {
    if IsOrderOf(how.order, h.value) then Some(MarshalHash(h, how.order, how.omitEmpty)) else None
  }

  /** Marshalling a hash is not a function: the bytes depend on those choices. */
  ghost predicate IsHashEncoding(h: Hash, b: Bytes) {
    exists how :: HashBytes(h, how) == Some(b)
  }

  /** proto.Marshal of a hash: the map is walked in an order nobody chose. */
  method MarshalFields(h: map<Blob, Blob>) returns (b: Bytes, how: HashLayout)
    ensures HashBytes(Hash([], h), how) == Some(b)
  {
    var omitEmpty: bool := *;
    var order: seq<Blob>, rest := [], h.Keys;
    while rest != {}
      invariant rest <= h.Keys
      invariant forall f :: f in h.Keys <==> f in rest || f in order
      invariant forall f :: f in order ==> f !in rest
      invariant forall i, j :: 0 <= i < j < |order| ==> order[i] != order[j]
      decreases rest
    {
      var f :| f in rest;
      order, rest := order + [f], rest - {f};
    }
    how := HashLayout(order, omitEmpty);
    b := MarshalHash(Hash([], h), order, omitEmpty);
  }

  // ---------- the bytes of each message ----------

  /** A length-delimited field behind a one-byte tag. */
  function Framed(tag: byte, b: Bytes): Bytes {
    [tag] + EncodeVarint(|b|) + b
  }

  lemma OneByteTag(number: nat, wire: nat)
    requires 0 < number < 16 && wire < 8
    ensures EncodeTag(number, wire) == [8 * number + wire]
  {
  }

  lemma FieldFrames(number: nat, b: Bytes, n: Uint64)
    requires 0 < number < 16
    ensures DelimitedField(number, b) == Framed(8 * number + 2, b)
    ensures VarintField(number, n) == [8 * number] + EncodeVarint(n)
  {
    hide EncodeVarint, EncodeTag;
    OneByteTag(number, DELIMITED);
    OneByteTag(number, VARINT);
    var tag: byte := 8 * number + 2;
    assert [tag] + (EncodeVarint(|b|) + b) == [tag] + EncodeVarint(|b|) + b;
  }

  /** IntValue: `string key = 1; sint64 value = 2`, zero values left out. */
  lemma IntLayout(iv: IntValue)
    ensures MarshalInt(iv) ==
            (if iv.key == [] then [] else Framed(0x0A, iv.key)) +
            (if iv.value == 0 then [] else [0x10] + EncodeVarint(ZigZag(iv.value)))
  {
    hide EncodeVarint, DelimitedField, VarintField, Framed;
    FieldFrames(1, iv.key, 0);
    FieldFrames(2, [], ZigZag(iv.value));
  }

  function FramedAll(tag: byte, items: seq<Blob>): Bytes {
    if items == [] then [] else Framed(tag, items[0]) + FramedAll(tag, items[1..])
  }

  lemma {:induction false} ItemsLayout(items: seq<Blob>)
    ensures ItemsPart(items) == FramedAll(0x12, items)
  {
    hide EncodeVarint, DelimitedField, Framed;
    if items != [] {
      FieldFrames(2, items[0], 0);
      ItemsLayout(items[1..]);
    }
  }

  /** List: `string key = 1; repeated bytes value = 2; int64 limit = 3`. */
  lemma ListLayout(lst: List)
    ensures MarshalList(lst) ==
            (if lst.key == [] then [] else Framed(0x0A, lst.key)) + FramedAll(0x12, lst.value) +
            (if lst.limit == 0 then [] else [0x18] + EncodeVarint(ToUnsigned(lst.limit)))
  {
    hide EncodeVarint, DelimitedField, VarintField, Framed, FramedAll, ItemsPart;
    FieldFrames(1, lst.key, 0);
    FieldFrames(3, [], ToUnsigned(lst.limit));
    ItemsLayout(lst.value);
  }

  /** One entry of `map<string, bytes> value = 2`: a record whose key is field 1 and whose value is field 2. */
  function FramedEntry(field: Blob, value: Blob, omitEmpty: bool): Bytes {
    Framed(0x12, Framed(0x0A, field) + if omitEmpty && value == [] then [] else Framed(0x12, value))
  }

  function FramedEntries(h: map<Blob, Blob>, order: seq<Blob>, omitEmpty: bool): Bytes
    requires forall f :: f in order ==> f in h
  {
    if order == [] then [] else FramedEntry(order[0], h[order[0]], omitEmpty) + FramedEntries(h, order[1..], omitEmpty)
  }

  lemma {:induction false} EntriesLayout(h: map<Blob, Blob>, order: seq<Blob>, omitEmpty: bool)
    requires forall f :: f in order ==> f in h
    ensures EntriesPart(h, order, omitEmpty) == FramedEntries(h, order, omitEmpty)
  {
    hide EncodeVarint, DelimitedField, Framed;
    if order != [] {
      var field, value := order[0], h[order[0]];
      FieldFrames(1, field, 0);
      FieldFrames(2, value, 0);
      FieldFrames(2, EntryBody(field, value, omitEmpty), 0);
      EntriesLayout(h, order[1..], omitEmpty);
    }
  }

  /** Hash: `string key = 1; map<string, bytes> value = 2`, entry after entry in the order walked. */
  lemma HashLayoutIs(h: Hash, how: HashLayout)
    requires IsOrderOf(how.order, h.value)
    ensures HashBytes(h, how) ==
            Some((if h.key == [] then [] else Framed(0x0A, h.key)) + FramedEntries(h.value, how.order, how.omitEmpty))
  {
    hide EncodeVarint, DelimitedField, Framed, EntriesPart, FramedEntries;
    FieldFrames(1, h.key, 0);
    EntriesLayout(h.value, how.order, how.omitEmpty);
  }

  // ---------- decoding ----------

  /** A field the message does not know is skipped, unless its wire type cannot be. */
  function SkipUnknown<M>(m: M, payload: Payload): Result<M> {
    if payload.Unskippable? then Err(UnknownWireType) else Ok(m)
  }

  function IntField(m: IntValue, f: Field): Result<IntValue> {
    match f.number
    case 1 => if f.payload.Delimited? then Ok(m.(key := f.payload.b)) else Err(BadWireType)
    case 2 => if f.payload.Varint? then Ok(m.(value := UnZigZag(f.payload.n))) else Err(BadWireType)
    case _ => SkipUnknown(m, f.payload)
  }

  function MergeInt(b: Bytes, m: IntValue): Result<IntValue>
    decreases |b|
  {
    if b == [] then Ok(m)
    else
      var (f, rest) :- NextField(b);
      var m :- IntField(m, f);
      MergeInt(rest, m)
  }

  function UnmarshalInt(b: Bytes): Result<IntValue> {
    MergeInt(b, EMPTY_INT)
  }

  function ListField(m: List, f: Field): Result<List> {
    match f.number
    case 1 => if f.payload.Delimited? then Ok(m.(key := f.payload.b)) else Err(BadWireType)
    case 2 => if f.payload.Delimited? then Ok(m.(value := m.value + [f.payload.b])) else Err(BadWireType)
    case 3 => if f.payload.Varint? then Ok(m.(limit := ToSigned(f.payload.n))) else Err(BadWireType)
    case _ => SkipUnknown(m, f.payload)
  }

  function MergeList(b: Bytes, m: List): Result<List>
    decreases |b|
  {
    if b == [] then Ok(m)
    else
      var (f, rest) :- NextField(b);
      var m :- ListField(m, f);
      MergeList(rest, m)
  }

  function UnmarshalList(b: Bytes): Result<List> {
    MergeList(b, EMPTY_LIST)
  }

  /** A map entry knows the one-byte tags of its two fields and no others. */
  function DecodeEntry(b: Bytes, field: Blob, value: Blob): Result<(Blob, Blob)>
    decreases |b|
  {
    if b == [] then Ok((field, value))
    else if b[0] == 8 * 1 + DELIMITED then
      var (field, rest) :- DecodeDelimited(b[1..]);
      DecodeEntry(rest, field, value)
    else if b[0] == 8 * 2 + DELIMITED then
      var (value, rest) :- DecodeDelimited(b[1..]);
      DecodeEntry(rest, field, value)
    else Err(BadMapEntry)
  }

  function HashField(m: Hash, f: Field): Result<Hash> {
    match f.number
    case 1 => if f.payload.Delimited? then Ok(m.(key := f.payload.b)) else Err(BadWireType)
    case 2 =>
      if f.payload.Delimited? then
        var (field, value) :- DecodeEntry(f.payload.b, [], []);
        Ok(m.(value := m.value[field := value]))
      else Err(BadWireType)
    case _ => SkipUnknown(m, f.payload)
  }

  function MergeHash(b: Bytes, m: Hash): Result<Hash>
    decreases |b|
  {
    if b == [] then Ok(m)
    else
      var (f, rest) :- NextField(b);
      var m :- HashField(m, f);
      MergeHash(rest, m)
  }

  function UnmarshalHash(b: Bytes): Result<Hash> {
    MergeHash(b, EMPTY_HASH)
  }

  // ---------- round trips ----------

  lemma IntRoundTrip(iv: IntValue)
    ensures UnmarshalInt(MarshalInt(iv)) == Ok(iv)
  {
    hide NextField, DelimitedField, VarintField;
    var tail := if iv.value == 0 then [] else VarintField(2, ZigZag(iv.value));
    assert MergeInt(tail, IntValue(iv.key, 0)) == Ok(iv) by {
      if iv.value != 0 {
        VarintFieldRoundTrip(2, ZigZag(iv.value), []);
        assert tail + [] == tail;
        ZigZagRoundTrip(iv.value, 0);
      }
    }
    if iv.key == [] {
      assert MarshalInt(iv) == tail;
    } else {
      DelimitedFieldRoundTrip(1, iv.key, tail);
    }
  }

  lemma ItemStep(item: Blob, rest: Bytes, m: List)
    ensures MergeList(DelimitedField(2, item) + rest, m) == MergeList(rest, m.(value := m.value + [item]))
  {
    hide NextField, DelimitedField;
    DelimitedFieldRoundTrip(2, item, rest);
  }

  lemma {:induction false} ItemsRoundTrip(items: seq<Blob>, rest: Bytes, m: List)
    ensures MergeList(ItemsPart(items) + rest, m) == MergeList(rest, m.(value := m.value + items))
  {
    hide MergeList, DelimitedField;
    if items == [] {
      assert ItemsPart(items) + rest == rest;
      assert m.value + items == m.value;
    } else {
      var tail := ItemsPart(items[1..]) + rest;
      assert ItemsPart(items) + rest == DelimitedField(2, items[0]) + tail;
      ItemStep(items[0], tail, m);
      ItemsRoundTrip(items[1..], rest, m.(value := m.value + [items[0]]));
      assert m.value + [items[0]] + items[1..] == m.value + items;
    }
  }

  lemma ListKeyStep(key: Blob, rest: Bytes)
    ensures MergeList(KeyPart(key) + rest, EMPTY_LIST) == MergeList(rest, List(key, [], 0))
  {
    hide NextField, DelimitedField;
    if key == [] {
      assert KeyPart(key) + rest == rest;
    } else {
      DelimitedFieldRoundTrip(1, key, rest);
    }
  }

  lemma LimitStep(limit: Int64, m: List)
    requires m.limit == 0
    ensures MergeList(LimitPart(limit), m) == Ok(m.(limit := limit))
  {
    hide NextField, VarintField;
    if limit != 0 {
      VarintFieldRoundTrip(3, ToUnsigned(limit), []);
      assert LimitPart(limit) + [] == LimitPart(limit);
      TwosComplementRoundTrip(limit);
    }
  }

  /** A list comes back with the same items in the same order and the same limit. */
  lemma ListRoundTrip(lst: List)
    ensures UnmarshalList(MarshalList(lst)) == Ok(lst)
  {
    hide MergeList, KeyPart, ItemsPart, LimitPart;
    var tail := ItemsPart(lst.value) + LimitPart(lst.limit);
    assert MarshalList(lst) == KeyPart(lst.key) + tail;
    ListKeyStep(lst.key, tail);
    ItemsRoundTrip(lst.value, LimitPart(lst.limit), List(lst.key, [], 0));
    assert [] + lst.value == lst.value;
    LimitStep(lst.limit, List(lst.key, lst.value, 0));
  }

  /** Every entry of the hash, framed, is itself a Go byte slice. */
  predicate FitsInMemory(h: map<Blob, Blob>) {
    forall f :: f in h ==> |f| + |h[f]| < TWO_TO_THE_63 - 64
  }

  /** A hash whose bytes fit in memory has entries that do. */
  lemma {:induction false} EntriesNoLonger(h: map<Blob, Blob>, order: seq<Blob>, omitEmpty: bool, f: Blob)
    requires (forall g :: g in order ==> g in h) && f in order
    ensures |f| + |h[f]| <= |EntriesPart(h, order, omitEmpty)|
  {
    hide EncodeVarint;
    if f != order[0] {
      assert f in order[1..];
      EntriesNoLonger(h, order[1..], omitEmpty, f);
    }
  }

  lemma StoredHashFits(h: Hash, b: Bytes)
    requires IsHashEncoding(h, b) && |b| < TWO_TO_THE_63 - 64
    ensures FitsInMemory(h.value)
  {
    hide EntriesPart;
    var how :| HashBytes(h, how) == Some(b);
    forall f | f in h.value ensures |f| + |h.value[f]| < TWO_TO_THE_63 - 64 {
      EntriesNoLonger(h.value, how.order, how.omitEmpty, f);
    }
  }

  lemma {:induction false} VarintLength(n: nat, budget: nat)
    requires FitsVarint(n, budget)
    ensures |EncodeVarint(n)| <= budget
  {
    if n >= 128 {
      VarintLength(n / 128, budget - 1);
    }
  }

  lemma EntryBodyLength(field: Blob, value: Blob, omitEmpty: bool)
    ensures |EntryBody(field, value, omitEmpty)| <= |field| + |value| + 22
  {
    Uint64FitsVarint(|field|);
    Uint64FitsVarint(|value|);
    VarintLength(|field|, MaxVarintBytes());
    VarintLength(|value|, MaxVarintBytes());
  }

  lemma EntryRoundTrip(field: Blob, value: Blob, omitEmpty: bool)
    ensures DecodeEntry(EntryBody(field, value, omitEmpty), [], []) == Ok((field, value))
  {
    hide DecodeDelimited, LengthDelimited;
    var b := EntryBody(field, value, omitEmpty);
    var tail := if omitEmpty && value == [] then [] else DelimitedField(2, value);
    assert EncodeTag(1, DELIMITED) == [8 * 1 + DELIMITED] && EncodeTag(2, DELIMITED) == [8 * 2 + DELIMITED];
    assert b[1..] == LengthDelimited(field) + tail;
    DelimitedRoundTrip(field, tail);
    if tail != [] {
      assert tail[1..] == LengthDelimited(value) + [];
      DelimitedRoundTrip(value, []);
    }
    assert DecodeEntry(tail, field, []) == Ok((field, value));
  }

  function Listed(h: map<Blob, Blob>, order: seq<Blob>): map<Blob, Blob>
    requires forall f :: f in order ==> f in h
  {
    map f | f in order :: h[f]
  }

  lemma ListedStep(h: map<Blob, Blob>, order: seq<Blob>, m: map<Blob, Blob>)
    requires forall f :: f in order ==> f in h
    ensures order == [] ==> m + Listed(h, order) == m
    ensures order != [] ==> m[order[0] := h[order[0]]] + Listed(h, order[1..]) == m + Listed(h, order)
  {
  }

  lemma EntryStep(field: Blob, value: Blob, omitEmpty: bool, rest: Bytes, m: Hash)
    requires |field| + |value| < TWO_TO_THE_63 - 64
    ensures MergeHash(DelimitedField(2, EntryBody(field, value, omitEmpty)) + rest, m) ==
            MergeHash(rest, m.(value := m.value[field := value]))
  {
    hide NextField, DelimitedField, EntryBody, DecodeEntry;
    EntryBodyLength(field, value, omitEmpty);
    DelimitedFieldRoundTrip(2, EntryBody(field, value, omitEmpty), rest);
    EntryRoundTrip(field, value, omitEmpty);
  }

  lemma {:induction false} EntriesRoundTrip(h: map<Blob, Blob>, order: seq<Blob>, omitEmpty: bool, m: Hash)
    requires forall f :: f in order ==> f in h
    requires FitsInMemory(h)
    ensures MergeHash(EntriesPart(h, order, omitEmpty), m) == Ok(m.(value := m.value + Listed(h, order)))
  {
    hide MergeHash, DelimitedField, EntryBody;
    ListedStep(h, order, m.value);
    if order == [] {
      assert MergeHash([], m) == Ok(m) by { NothingToMerge(m); }
    } else {
      hide Listed;
      var field, value := order[0], h[order[0]];
      EntryStep(field, value, omitEmpty, EntriesPart(h, order[1..], omitEmpty), m);
      EntriesRoundTrip(h, order[1..], omitEmpty, m.(value := m.value[field := value]));
    }
  }

  lemma NothingToMerge(m: Hash)
    ensures MergeHash([], m) == Ok(m)
  {
  }

  lemma HashKeyStep(key: Blob, rest: Bytes)
    ensures MergeHash(KeyPart(key) + rest, EMPTY_HASH) == MergeHash(rest, Hash(key, map[]))
  {
    hide NextField, DelimitedField;
    if key == [] {
      assert KeyPart(key) + rest == rest;
    } else {
      DelimitedFieldRoundTrip(1, key, rest);
    }
  }

  lemma OrderLists(h: map<Blob, Blob>, order: seq<Blob>)
    requires IsOrderOf(order, h)
    ensures map[] + Listed(h, order) == h
  {
  }

  /** Whatever the order the entries were written in, the same hash comes back. */
  lemma HashRoundTrip(h: Hash, b: Bytes)
    requires FitsInMemory(h.value)
    requires IsHashEncoding(h, b)
    ensures UnmarshalHash(b) == Ok(h)
  {
    hide MergeHash, EntriesPart, KeyPart;
    var how :| HashBytes(h, how) == Some(b);
    var tail := EntriesPart(h.value, how.order, how.omitEmpty);
    HashKeyStep(h.key, tail);
    EntriesRoundTrip(h.value, how.order, how.omitEmpty, Hash(h.key, map[]));
    OrderLists(h.value, how.order);
  }

  /** Blanking the key before storing, as every list write does, loses nothing but the key. */
  lemma BlankedListRoundTrip(lst: List)
    ensures UnmarshalList(MarshalList(lst.(key := []))) == Ok(List([], lst.value, lst.limit))
  {
    ListRoundTrip(lst.(key := []));
  }
}
