/** The Protocol Buffers wire primitives (sections "Base 128 Varints", "Message
    Structure" and "Length-Delimited Records" of the Encoding specification), with
    the limits the Go wire library applies: at most ten varint bytes, a tenth byte
    of at most 1, field numbers 1 to 2^31 - 1, groups nested at most 10000 deep. */
module ProtoWire {
  import opened Bytes

  const MAX_FIELD: int := 0x7fff_ffff
  const RECURSION_LIMIT: int := 10000

  const VARINT: int := 0
  const FIXED64: int := 1
  const BYTES: int := 2
  const START_GROUP: int := 3
  const END_GROUP: int := 4
  const FIXED32: int := 5

  /** A consumed value with the number of bytes it took. */
  datatype Consumed<+T> = Fail | Got(v: T, n: nat)

  datatype Tag = Tag(num: int, typ: int)

  type FieldNumber = x: int | 1 <= x <= MAX_FIELD witness 1
  type WireType = x: int | 0 <= x < 8

  // ---------- Varints ----------

  function AppendVarint(v: nat): (b: seq<byte>)
    ensures |b| >= 1
  {
    if v < 128 then [v] else [v % 128 + 128] + AppendVarint(v / 128)
  }

  /** Exclusive bound on what bytes i..9 of a varint can contribute. */
  function Capacity(i: nat): (c: nat)
    requires i <= 9
    ensures c >= 2 && (i < 9 ==> c >= 256)
    decreases 9 - i
  {
    if i == 9 then 2 else 128 * Capacity(i + 1)
  }

  lemma CapacityIsUint64()
    ensures Capacity(0) == TWO_64
  {
    assert Capacity(7) == 0x8000;
    assert Capacity(5) == 0x2000_0000;
    assert Capacity(3) == 0x800_0000_0000;
    assert Capacity(1) == 0x200_0000_0000_0000;
  }

  /** Reads bytes i..9 of a varint; fails when truncated or over ten bytes or 64 bits. */
  function ConsumeVarintFrom(b: seq<byte>, i: nat): (r: Consumed<nat>)
    requires i <= 9
    ensures r.Got? ==> 1 <= r.n <= |b| && r.v < Capacity(i)
    decreases 9 - i
  {
    if b == [] then Fail
    else if i == 9 then (if b[0] < 2 then Got(b[0], 1) else Fail)
    else if b[0] < 128 then Got(b[0], 1)
    else match ConsumeVarintFrom(b[1..], i + 1)
      case Fail => Fail
      case Got(v, n) => Got(b[0] - 128 + 128 * v, n + 1)
  }

  function ConsumeVarint(b: seq<byte>): (r: Consumed<uint64>)
    ensures r.Got? ==> 1 <= r.n <= |b|
  {
    CapacityIsUint64();
    match ConsumeVarintFrom(b, 0)
    case Fail => Fail
    case Got(v, n) => Got(v, n)
  }

  lemma {:induction false} VarintFromRoundTrip(v: nat, rest: seq<byte>, i: nat)
    requires i <= 9 && v < Capacity(i)
    ensures ConsumeVarintFrom(AppendVarint(v) + rest, i) == Got(v, |AppendVarint(v)|)
    decreases 9 - i
  {
    if v >= 128 {
      VarintFromRoundTrip(v / 128, rest, i + 1);
      var b := AppendVarint(v) + rest;
      assert b[1..] == AppendVarint(v / 128) + rest;
      assert b[0] == v % 128 + 128;
      hide AppendVarint, Capacity;
    }
  }

  /** Every uint64 survives the varint form, whatever bytes follow it. */
  lemma VarintRoundTrip(v: uint64, rest: seq<byte>)
    ensures ConsumeVarint(AppendVarint(v) + rest) == Got(v, |AppendVarint(v)|)
  {
    CapacityIsUint64();
    VarintFromRoundTrip(v, rest, 0);
  }

  lemma {:induction false} VarintFromExtend(a: seq<byte>, b: seq<byte>, i: nat)
    requires i <= 9 && ConsumeVarintFrom(a, i).Got?
    ensures ConsumeVarintFrom(a + b, i) == ConsumeVarintFrom(a, i)
    decreases 9 - i
  {
    if i < 9 && a[0] >= 128 {
      VarintFromExtend(a[1..], b, i + 1);
      assert (a + b)[1..] == a[1..] + b;
    }
  }

  /** A consumed varint does not depend on the bytes after it. */
  lemma VarintExtend(a: seq<byte>, b: seq<byte>)
    requires ConsumeVarint(a).Got?
    ensures ConsumeVarint(a + b) == ConsumeVarint(a)
  {
    VarintFromExtend(a, b, 0);
  }

  lemma {:induction false} VarintFromMinimal(b: seq<byte>, i: nat)
    requires i <= 9 && ConsumeVarintFrom(b, i).Got?
    ensures |AppendVarint(ConsumeVarintFrom(b, i).v)| <= ConsumeVarintFrom(b, i).n
    decreases 9 - i
  {
    if i < 9 && b[0] >= 128 {
      VarintFromMinimal(b[1..], i + 1);
      var v := ConsumeVarintFrom(b[1..], i + 1).v;
      assert (b[0] - 128 + 128 * v) / 128 == v;
    }
  }

  /** Non-minimal forms are accepted, but the emitted form is the shortest accepted one. */
  lemma VarintMinimal(b: seq<byte>)
    requires ConsumeVarint(b).Got?
    ensures |AppendVarint(ConsumeVarint(b).v)| <= ConsumeVarint(b).n
  {
    VarintFromMinimal(b, 0);
  }

  // ---------- Varint sizes ----------

  /** Number of bits needed for v, as math/bits.Len64. */
  function BitLen(v: nat): nat {
    if v == 0 then 0 else 1 + BitLen(v / 2)
  }

  /** The library's division-free size formula. */
  function SizeVarint(v: nat): nat {
    (9 * BitLen(v) + 64) / 64
  }

  lemma BitLenOfSeptet(v: nat)
    requires 1 <= v < 128
    ensures 1 <= BitLen(v) <= 7
  {
    assert BitLen(v) == 1 + BitLen(v / 2);
    assert v / 2 < 64 && (v / 2) / 2 < 32;
    assert BitLen(v / 2 / 2 / 2) <= 4 by {
      var w := v / 2 / 2 / 2;
      assert w < 16 && w / 2 < 8 && w / 2 / 2 < 4 && w / 2 / 2 / 2 < 2;
      assert BitLen(w / 2 / 2) <= 2;
    }
  }

  lemma BitLenShift(v: nat)
    requires v >= 128
    ensures BitLen(v) == 7 + BitLen(v / 128)
  {
    var w := v / 2 / 2 / 2 / 2;
    assert BitLen(v) == 2 + BitLen(v / 2 / 2);
    assert BitLen(v / 2 / 2) == 2 + BitLen(w);
    assert BitLen(w) == 2 + BitLen(w / 2 / 2);
    assert w / 2 / 2 / 2 == v / 128;
  }

  lemma {:induction false} VarintLength(v: nat, i: nat)
    requires i <= 9 && 1 <= v < Capacity(i)
    ensures |AppendVarint(v)| == 1 + (BitLen(v) - 1) / 7
    ensures 1 <= BitLen(v) <= 64 - 7 * i
    decreases 9 - i
  {
    if v >= 128 {
      VarintLength(v / 128, i + 1);
      BitLenShift(v);
    } else {
      BitLenOfSeptet(v);
    }
  }

  /** 9/64 is a good enough 1/7 for every 64-bit value: the size formula is exact,
      and no varint is longer than ten bytes. */
  lemma SizeVarintExact(v: uint64)
    ensures SizeVarint(v) == |AppendVarint(v)| <= 10
  {
    CapacityIsUint64();
    if v > 0 { VarintLength(v, 0); }
  }

  // ---------- Tags ----------

  function AppendTag(num: FieldNumber, typ: WireType): seq<byte> {
    AppendVarint(8 * num + typ)
  }

  function ConsumeTag(b: seq<byte>): (r: Consumed<Tag>)
    ensures r.Got? ==> 1 <= r.n <= |b| && 1 <= r.v.num <= MAX_FIELD && 0 <= r.v.typ < 8
  {
    match ConsumeVarint(b)
    case Fail => Fail
    case Got(x, n) =>
      if 1 <= x / 8 <= MAX_FIELD then Got(Tag(x / 8, x % 8), n) else Fail
  }

  lemma TagExtend(a: seq<byte>, b: seq<byte>)
    requires ConsumeTag(a).Got?
    ensures ConsumeTag(a + b) == ConsumeTag(a)
  {
    VarintExtend(a, b);
  }

  function SizeTag(num: FieldNumber): nat {
    SizeVarint(8 * num)
  }

  lemma TagRoundTrip(num: FieldNumber, typ: WireType, rest: seq<byte>)
    ensures ConsumeTag(AppendTag(num, typ) + rest) == Got(Tag(num, typ), |AppendTag(num, typ)|)
  {
    var x := 8 * num + typ;
    assert x / 8 == num && x % 8 == typ;
    VarintRoundTrip(x, rest);
    hide ConsumeVarint, AppendVarint;
  }

  /** The wire type never changes the length of a tag. */
  lemma TagSize(num: FieldNumber, typ: WireType)
    ensures SizeTag(num) == |AppendTag(num, typ)|
  {
    SizeVarintExact(8 * num);
    if num >= 16 {
      assert (8 * num + typ) / 128 == (8 * num) / 128;
    }
  }

  // ---------- Length-delimited records ----------

  /** A string or byte slice whose length fits the 64-bit length prefix. */
  type ByteString = s: seq<byte> | |s| < TWO_64

  function AppendBytes(s: ByteString): seq<byte> {
    AppendVarint(|s|) + s
  }

  function ConsumeBytes(b: seq<byte>): (r: Consumed<ByteString>)
    ensures r.Got? ==> |r.v| + 1 <= r.n <= |b|
  {
    match ConsumeVarint(b)
    case Fail => Fail
    case Got(m, n) => if m > |b[n..]| then Fail else Got(b[n..][..m], n + m)
  }

  function SizeBytes(n: nat): nat {
    SizeVarint(n) + n
  }

  lemma BytesRoundTrip(s: ByteString, rest: seq<byte>)
    ensures ConsumeBytes(AppendBytes(s) + rest) == Got(s, |AppendBytes(s)|)
  {
    VarintRoundTrip(|s|, s + rest);
    assert AppendBytes(s) + rest == AppendVarint(|s|) + (s + rest);
    assert (AppendBytes(s) + rest)[|AppendVarint(|s|)|..] == s + rest;
  }

  lemma BytesExtend(a: seq<byte>, b: seq<byte>)
    requires ConsumeBytes(a).Got?
    ensures ConsumeBytes(a + b) == ConsumeBytes(a)
  {
    VarintExtend(a, b);
    var n := ConsumeVarint(a).n;
    var m := ConsumeVarint(a).v;
    assert (a + b)[n..] == a[n..] + b;
    assert (a + b)[n..][..m] == a[n..][..m];
  }

  // ---------- Values of unknown fields ----------

  /** Length of a field value, given the field's number and wire type. */
  function ConsumeFieldValue(num: int, typ: int, b: seq<byte>, depth: int): (r: Option<nat>)
    ensures r.Some? ==> r.value <= |b|
    decreases |b|, 1
  {
    if typ == VARINT then (match ConsumeVarint(b) case Fail => None case Got(_, n) => Some(n))
    else if typ == FIXED32 then (if |b| < 4 then None else Some(4))
    else if typ == FIXED64 then (if |b| < 8 then None else Some(8))
    else if typ == BYTES then (match ConsumeBytes(b) case Fail => None case Got(_, n) => Some(n))
    else if typ == START_GROUP && depth >= 0 then ConsumeGroup(num, b, depth)
    else None
  }

  /** Fields up to and including the end tag that closes group `num`. */
  function ConsumeGroup(num: int, b: seq<byte>, depth: int): (r: Option<nat>)
    ensures r.Some? ==> r.value <= |b|
    decreases |b|, 0
  {
    match ConsumeTag(b)
    case Fail => None
    case Got(tag, n) =>
      if tag.typ == END_GROUP then
        if tag.num == num then Some(n) else None
      else
        match ConsumeFieldValue(tag.num, tag.typ, b[n..], depth - 1)
        case None => None
        case Some(k) =>
          match ConsumeGroup(num, b[n + k..], depth)
          case None => None
          case Some(j) => Some(n + k + j)
  }

  /** The repository's skip: it always passes field number 0. */
  function SkipField(b: seq<byte>, typ: int): (r: Option<nat>)
    ensures r.Some? ==> r.value <= |b|
  {
    ConsumeFieldValue(0, typ, b, RECURSION_LIMIT)
  }

  lemma {:induction false} GroupZeroNeverCloses(b: seq<byte>, depth: int)
    ensures ConsumeGroup(0, b, depth).None?
    decreases |b|
  {
    hide ConsumeTag;
    match ConsumeTag(b)
    case Fail =>
    case Got(tag, n) =>
      if tag.typ != END_GROUP {
        match ConsumeFieldValue(tag.num, tag.typ, b[n..], depth - 1)
        case None =>
        case Some(k) => GroupZeroNeverCloses(b[n + k..], depth);
      }
  }

  /** No end tag carries field number 0, so skipping a group always fails: an unknown
      field can be skipped only with wire types 0, 1, 2 and 5. */
  lemma SkipRejectsGroups(b: seq<byte>, typ: int)
    ensures SkipField(b, typ).Some? ==> typ in {0, 1, 2, 5}
  {
    GroupZeroNeverCloses(b, RECURSION_LIMIT);
  }

  /** The same group is well formed when skipped under its own number. */
  lemma ProperGroupIsRejected()
    ensures ConsumeFieldValue(7, START_GROUP, AppendTag(7, END_GROUP), RECURSION_LIMIT).Some?
    ensures SkipField(AppendTag(7, END_GROUP), START_GROUP).None?
  {
    TagRoundTrip(7, END_GROUP, []);
    assert AppendTag(7, END_GROUP) + [] == AppendTag(7, END_GROUP);
    GroupZeroNeverCloses(AppendTag(7, END_GROUP), RECURSION_LIMIT);
  }

  lemma SkipExtend(a: seq<byte>, typ: int, b: seq<byte>)
    requires SkipField(a, typ).Some?
    ensures SkipField(a + b, typ) == SkipField(a, typ)
  {
    SkipRejectsGroups(a, typ);
    if typ == VARINT { VarintExtend(a, b); }
    if typ == BYTES { BytesExtend(a, b); }
  }
}
