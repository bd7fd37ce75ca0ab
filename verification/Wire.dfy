/**
 The parts of the Protocol Buffers encoding that the stored values use: sections "Base 128 Varints",
 "Signed Integers" and "Length-Delimited Records" of the Protocol Buffers Encoding guide.
 */
module Wire {
  import opened Bytes

  datatype DecodeError =
    | Truncated
    | Overflow
    | BadTag
    | BadWireType
    | UnknownWireType
    | BadMapEntry

  datatype Result<+T> = Ok(value: T) | Err(error: DecodeError) {
    predicate IsFailure() { Err? }
    function PropagateFailure<U>(): Result<U> requires Err? { Err(error) }
    function Extract(): T requires Ok? { value }
  }

  const VARINT := 0
  const FIXED64 := 1
  const DELIMITED := 2
  const FIXED32 := 5

  datatype Payload =
    | Varint(n: Uint64)
    | Delimited(b: Blob)
    | Skippable
    | Unskippable

  datatype Field = Field(number: nat, payload: Payload)

  // ---------- varints ----------

  /** A 64-bit number takes at most ten groups of seven bits. */
  function MaxVarintBytes(): nat { 10 }

  function EncodeVarint(n: nat): (b: Bytes)
    ensures b != []
  {
    if n < 128 then [n] else [n % 128 + 128] + EncodeVarint(n / 128)
  }

  /** At most `budget` bytes are read; the value is not yet cut to 64 bits. */
  function RawVarint(b: Bytes, budget: nat): (r: Result<(nat, Bytes)>)
    ensures r.Ok? ==> |r.value.1| < |b|
  {
    if budget == 0 then Err(Overflow)
    else if b == [] then Err(Truncated)
    else if b[0] < 128 then Ok((b[0], b[1..]))
    else
      var (high, rest) :- RawVarint(b[1..], budget - 1);
      Ok((b[0] - 128 + 128 * high, rest))
  }

  function DecodeVarint(b: Bytes): (r: Result<(Uint64, Bytes)>)
    ensures r.Ok? ==> |r.value.1| < |b|
  {
    var (n, rest) :- RawVarint(b, MaxVarintBytes());
    Ok((n % TWO_TO_THE_64, rest))
  }

  predicate FitsVarint(n: nat, budget: nat) {
    budget > 0 && (n < 128 || FitsVarint(n / 128, budget - 1))
  }

  function Pow128(i: nat): (p: nat)
    ensures p > 0
  {
    if i == 0 then 1 else 128 * Pow128(i - 1)
  }

  lemma {:induction false} BelowPowerFits(n: nat, budget: nat)
    requires budget > 0 && n < Pow128(budget)
    ensures FitsVarint(n, budget)
  {
    if n >= 128 {
      BelowPowerFits(n / 128, budget - 1);
    }
  }

  lemma Uint64FitsVarint(n: Uint64)
    ensures FitsVarint(n, MaxVarintBytes())
  {
    assert Pow128(2) == 0x4000 && Pow128(4) == 0x1000_0000 && Pow128(6) == 0x400_0000_0000;
    assert Pow128(8) == 0x100_0000_0000_0000 && Pow128(10) == 0x40_0000_0000_0000_0000;
    BelowPowerFits(n, MaxVarintBytes());
  }

  lemma {:induction false} RawVarintRoundTrip(n: nat, budget: nat, rest: Bytes)
    requires FitsVarint(n, budget)
    ensures RawVarint(EncodeVarint(n) + rest, budget) == Ok((n, rest))
  {
    var b := EncodeVarint(n) + rest;
    if n < 128 {
      assert b[1..] == rest;
    } else {
      RawVarintRoundTrip(n / 128, budget - 1, rest);
      assert b[1..] == EncodeVarint(n / 128) + rest;
    }
  }

  /** Whatever follows it, an encoded 64-bit number is read back whole. */
  lemma VarintRoundTrip(n: Uint64, rest: Bytes)
    ensures DecodeVarint(EncodeVarint(n) + rest) == Ok((n, rest))
  {
    hide RawVarint, EncodeVarint, FitsVarint;
    Uint64FitsVarint(n);
    RawVarintRoundTrip(n, MaxVarintBytes(), rest);
  }

  lemma DivideTwice(n: nat, p: nat)
    requires p > 0
    ensures n / 128 / p == n / (128 * p)
  {
    var q := n / (128 * p);
    var r := n % (128 * p);
    assert n == 128 * p * q + r;
    assert n / 128 == p * q + r / 128 by {
      assert n == 128 * (p * q) + r;
    }
    assert 0 <= r / 128 < p;
    QuotientIs(n / 128, p, q, r / 128);
  }

  lemma {:induction false} NoLater(p: nat, k: nat, q: nat)
    requires k < q
    ensures p * k + p <= p * q
  {
    assert p * q == p * (q - 1) + p;
    if k < q - 1 {
      NoLater(p, k, q - 1);
    }
  }

  lemma QuotientIs(n: nat, p: nat, q: nat, r: nat)
    requires r < p && n == p * q + r
    ensures n / p == q
  {
    var k := n / p;
    assert n == p * k + n % p;
    if k < q {
      NoLater(p, k, q);
    } else if q < k {
      NoLater(p, q, k);
    }
  }

  /**
   The shape of a varint: groups of seven bits, the lowest first, the high bit set on all but the last,
   and no more groups than needed.
   */
  lemma {:induction false} VarintShape(n: nat, i: nat)
    requires i < |EncodeVarint(n)|
    ensures var b := EncodeVarint(n); var more := i < |b| - 1;
            && b[i] == n / Pow128(i) % 128 + (if more then 128 else 0)
            && (more <==> n / Pow128(i) >= 128)
  {
    if i > 0 {
      VarintShape(n / 128, i - 1);
      DivideTwice(n, Pow128(i - 1));
    }
  }

  // ---------- signed integers ----------

  /** sint64: (n << 1) ^ (n >> 63) */
  function ZigZag(n: Int64): Uint64 {
    if n >= 0 then 2 * n else -2 * n - 1
  }

  function UnZigZag(u: Uint64): Int64 {
    if u % 2 == 0 then u / 2 else -(u / 2) - 1
  }

  lemma ZigZagRoundTrip(n: Int64, u: Uint64)
    ensures UnZigZag(ZigZag(n)) == n
    ensures ZigZag(UnZigZag(u)) == u
  {
  }

  /** Even numbers stand for the non-negative ones, odd ones for the negative, in order of magnitude from 0 and -1 on. */
  lemma ZigZagShape(n: Int64, m: Int64)
    ensures ZigZag(n) % 2 == 0 <==> n >= 0
    ensures ZigZag(n) / 2 == if n >= 0 then n else -(n + 1)
    ensures 0 <= n < m || m < n < 0 ==> ZigZag(n) < ZigZag(m)
  {
  }

  /** int64: the two's complement bit pattern. */
  function ToUnsigned(n: Int64): Uint64 {
    n % TWO_TO_THE_64
  }

  function ToSigned(u: Uint64): Int64 {
    if u >= TWO_TO_THE_63 then u - TWO_TO_THE_64 else u
  }

  lemma TwosComplementShape(n: Int64)
    ensures ToUnsigned(n) == if n >= 0 then n else TWO_TO_THE_64 + n
  {
  }

  lemma TwosComplementRoundTrip(n: Int64)
    ensures ToSigned(ToUnsigned(n)) == n
  {
  }

  // ---------- records ----------

  function EncodeTag(number: nat, wire: nat): Bytes {
    EncodeVarint(8 * number + wire)
  }

  function VarintField(number: nat, n: Uint64): Bytes {
    EncodeTag(number, VARINT) + EncodeVarint(n)
  }

  function LengthDelimited(b: Bytes): Bytes {
    EncodeVarint(|b|) + b
  }

  function DelimitedField(number: nat, b: Bytes): Bytes {
    EncodeTag(number, DELIMITED) + LengthDelimited(b)
  }

  function DecodeDelimited(b: Bytes): (r: Result<(Blob, Bytes)>)
    ensures r.Ok? ==> |r.value.1| < |b|
  {
    var (n, rest) :- DecodeVarint(b);
    if n >= TWO_TO_THE_63 || n > |rest| then Err(Truncated) else Ok((rest[..n], rest[n..]))
  }

  function DecodeFixed(b: Bytes, size: nat): (r: Result<Bytes>)
    ensures r.Ok? ==> |r.value| <= |b|
  {
    if |b| < size then Err(Truncated) else Ok(b[size..])
  }

  /** Reads one record. Groups (wire types 3 and 4) are refused. */
  function NextField(b: Bytes): (r: Result<(Field, Bytes)>)
    ensures r.Ok? ==> |r.value.1| < |b|
  {
    var (tag, rest) :- DecodeVarint(b);
    var number, wire := tag / 8, tag % 8;
    if wire == 3 || wire == 4 || number == 0 then
      Err(BadTag)
    else if wire == VARINT then
      var (n, rest) :- DecodeVarint(rest);
      Ok((Field(number, Varint(n)), rest))
    else if wire == DELIMITED then
      var (body, rest) :- DecodeDelimited(rest);
      Ok((Field(number, Delimited(body)), rest))
    else if wire == FIXED64 then
      var rest :- DecodeFixed(rest, 8);
      Ok((Field(number, Skippable), rest))
    else if wire == FIXED32 then
      var rest :- DecodeFixed(rest, 4);
      Ok((Field(number, Skippable), rest))
    else
      Ok((Field(number, Unskippable), rest))
  }

  lemma DelimitedRoundTrip(b: Blob, rest: Bytes)
    ensures DecodeDelimited(LengthDelimited(b) + rest) == Ok((b, rest))
  {
    hide DecodeVarint, EncodeVarint;
    VarintRoundTrip(|b|, b + rest);
    assert LengthDelimited(b) + rest == EncodeVarint(|b|) + (b + rest);
    assert (b + rest)[..|b|] == b && (b + rest)[|b|..] == rest;
  }

  lemma TagRoundTrip(number: nat, wire: nat, rest: Bytes)
    requires 0 < number < 0x2000_0000 && wire < 8
    ensures DecodeVarint(EncodeTag(number, wire) + rest) == Ok((8 * number + wire, rest))
    ensures (8 * number + wire) / 8 == number && (8 * number + wire) % 8 == wire
  {
    hide DecodeVarint, EncodeVarint;
    VarintRoundTrip(8 * number + wire, rest);
  }

  lemma VarintFieldRoundTrip(number: nat, n: Uint64, rest: Bytes)
    requires 0 < number < 0x2000_0000
    ensures NextField(VarintField(number, n) + rest) == Ok((Field(number, Varint(n)), rest))
  {
    hide DecodeVarint, EncodeVarint;
    var tail := EncodeVarint(n) + rest;
    TagRoundTrip(number, VARINT, tail);
    VarintRoundTrip(n, rest);
    assert VarintField(number, n) + rest == EncodeTag(number, VARINT) + tail;
  }

  lemma DelimitedFieldRoundTrip(number: nat, b: Blob, rest: Bytes)
    requires 0 < number < 0x2000_0000
    ensures NextField(DelimitedField(number, b) + rest) == Ok((Field(number, Delimited(b)), rest))
  {
    hide DecodeDelimited, LengthDelimited, DecodeVarint, EncodeVarint;
    var tail := LengthDelimited(b) + rest;
    TagRoundTrip(number, DELIMITED, tail);
    DelimitedRoundTrip(b, rest);
    assert DelimitedField(number, b) + rest == EncodeTag(number, DELIMITED) + tail;
  }
}
