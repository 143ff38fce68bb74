/**
  The wire primitives the generated code calls, following the Protocol Buffers Encoding
  specification: "Base 128 Varints", "Message Structure" and "Length-Delimited Records".
  Every reader returns how many bytes it consumed.
 */
module Wire {
  type byte = x: int | 0 <= x < 256
  type bytes = seq<byte>

  const TWO32: nat := 0x1_0000_0000
  const TWO64: nat := 0x1_0000_0000_0000_0000
  /** Largest accepted length prefix: INT32_MAX less the sixteen slop bytes. */
  const MAX_SIZE: nat := 0x7FFF_FFEF

  type u64 = x: int | 0 <= x < TWO64

  // ---------------------------------------------------------------- varints

  function Varint(n: nat): (b: bytes)
    ensures 1 <= |b|
  {
    if n < 128 then [n] else [128 + n % 128] + Varint(n / 128)
  }

  datatype Scan = Truncated | Got(value: nat, n: nat)

  /** Reads a base-128 varint of at most `limit` bytes; the caller reduces the value to its width. */
  function ReadVarint(b: bytes, limit: nat): (r: Scan)
    ensures r.Got? ==> 1 <= r.n <= |b| && r.n <= limit
    decreases limit
  {
    if b == [] || limit == 0 then Truncated
    else if b[0] < 128 then Got(b[0], 1)
    else
      match ReadVarint(b[1..], limit - 1)
      case Truncated => Truncated
      case Got(v, n) => Got(b[0] - 128 + 128 * v, n + 1)
  }

  function Pow128(k: nat): nat { if k == 0 then 1 else 128 * Pow128(k - 1) }

  lemma {:induction false} VarintFits(n: nat, k: nat)
    requires k >= 1 && n < Pow128(k)
    ensures |Varint(n)| <= k
  {
    if n >= 128 { VarintFits(n / 128, k - 1); }
  }

  lemma VarintFits64(n: nat)
    requires n < TWO64
    ensures |Varint(n)| <= 10
  {
    assert Pow128(5) == 0x8_0000_0000;
    assert Pow128(10) == 0x40_0000_0000_0000_0000 by {
      assert Pow128(6) == 128 * Pow128(5);
      assert Pow128(7) == 128 * Pow128(6);
      assert Pow128(8) == 128 * Pow128(7);
      assert Pow128(9) == 128 * Pow128(8);
    }
    VarintFits(n, 10);
  }

  lemma VarintFits32(n: nat)
    requires n < TWO32
    ensures |Varint(n)| <= 5
  {
    assert Pow128(5) == 0x8_0000_0000;
    VarintFits(n, 5);
  }

  lemma {:induction false} VarintRoundTrip(n: nat, t: bytes, limit: nat)
    requires |Varint(n)| <= limit
    ensures ReadVarint(Varint(n) + t, limit) == Got(n, |Varint(n)|)
  {
    var b := Varint(n) + t;
    if n >= 128 {
      VarintRoundTrip(n / 128, t, limit - 1);
      assert b[1..] == Varint(n / 128) + t;
    }
  }

  /** A reader never looks past the bytes it consumes. */
  lemma {:induction false} VarintLocal(b: bytes, c: bytes, limit: nat)
    requires ReadVarint(b, limit).Got?
    requires b[..ReadVarint(b, limit).n] <= c
    ensures ReadVarint(c, limit) == ReadVarint(b, limit)
    decreases limit
  {
    var n := ReadVarint(b, limit).n;
    assert c[0] == b[..n][0] == b[0];
    if b[0] >= 128 {
      assert b[1..][..n - 1] == b[..n][1..];
      assert c[1..][..n - 1] == c[..n][1..];
      VarintLocal(b[1..], c[1..], limit - 1);
    }
  }

  /** The emitted form is the shortest of all accepted forms of a value. */
  lemma {:induction false} VarintMinimal(b: bytes, limit: nat)
    requires ReadVarint(b, limit).Got?
    ensures |Varint(ReadVarint(b, limit).value)| <= ReadVarint(b, limit).n
    decreases limit
  {
    if b[0] >= 128 { VarintMinimal(b[1..], limit - 1); }
  }

  lemma {:induction false} VarintMonotone(a: nat, b: nat)
    requires a <= b
    ensures |Varint(a)| <= |Varint(b)|
    decreases b
  {
    if b >= 128 && a >= 128 { VarintMonotone(a / 128, b / 128); }
  }

  lemma {:induction false} VarintDouble(n: nat)
    ensures |Varint(2 * n)| <= |Varint(n)| + 1
  {
    if n >= 128 {
      VarintDouble(n / 128);
      VarintMonotone(2 * n / 128, 2 * (n / 128) + 1);
      VarintOdd(n / 128);
    } else {
      assert |Varint(2 * n)| <= 2;
    }
  }

  lemma {:induction false} VarintOdd(n: nat)
    ensures |Varint(2 * n + 1)| == |Varint(2 * n)|
  {
    if n >= 64 {
      assert (2 * n + 1) / 128 == 2 * n / 128;
    }
  }

  /** Merging two payloads never needs a longer prefix than the two prefixes together. */
  lemma VarintSubadditive(a: nat, b: nat)
    ensures |Varint(a + b)| <= |Varint(a)| + |Varint(b)|
  {
    var m := if a < b then b else a;
    VarintMonotone(a + b, 2 * m);
    VarintDouble(m);
  }

  // ---------------------------------------------------------------- fixed width

  function Fixed(v: nat, k: nat): (b: bytes)
    ensures |b| == k
  {
    if k == 0 then [] else [v % 256] + Fixed(v / 256, k - 1)
  }

  function FixedValue(b: bytes): nat
  {
    if b == [] then 0 else b[0] + 256 * FixedValue(b[1..])
  }

  function Pow256(k: nat): nat { if k == 0 then 1 else 256 * Pow256(k - 1) }

  lemma {:induction false} FixedRoundTrip(v: nat, k: nat)
    requires v < Pow256(k)
    ensures FixedValue(Fixed(v, k)) == v
  {
    if k > 0 {
      FixedRoundTrip(v / 256, k - 1);
      assert Fixed(v, k)[1..] == Fixed(v / 256, k - 1);
    }
  }

  lemma {:induction false} FixedBound(b: bytes)
    ensures FixedValue(b) < Pow256(|b|)
  {
    if b != [] { FixedBound(b[1..]); }
  }

  lemma FixedWidths()
    ensures Pow256(4) == TWO32 && Pow256(8) == TWO64
  {
    assert Pow256(4) == TWO32;
    assert Pow256(8) == 256 * (256 * (256 * (256 * Pow256(4))));
  }

  // ---------------------------------------------------------------- records

  datatype Payload = VarintP(v: nat) | Fixed64P(v: nat) | LenP(b: bytes) | Fixed32P(v: nat)

  datatype Record = Record(num: nat, payload: Payload)

  function WireType(p: Payload): nat
  {
    match p
    case VarintP(_) => 0
    case Fixed64P(_) => 1
    case LenP(_) => 2
    case Fixed32P(_) => 5
  }

  predicate WFRecord(r: Record)
  {
    && 1 <= r.num < 0x2000_0000
    && match r.payload
       case VarintP(v) => v < TWO64
       case Fixed64P(v) => v < TWO64
       case LenP(b) => |b| <= MAX_SIZE
       case Fixed32P(v) => v < TWO32
  }

  function Tag(r: Record): nat { 8 * r.num + WireType(r.payload) }

  function EncodePayload(p: Payload): bytes
  {
    match p
    case VarintP(v) => Varint(v)
    case Fixed64P(v) => Fixed(v, 8)
    case LenP(b) => Varint(|b|) + b
    case Fixed32P(v) => Fixed(v, 4)
  }

  function EncodeRecord(r: Record): (b: bytes)
    ensures |b| >= 1
  {
    Varint(Tag(r)) + EncodePayload(r.payload)
  }

  function EncodeRecords(rs: seq<Record>): bytes
  {
    if rs == [] then [] else EncodeRecord(rs[0]) + EncodeRecords(rs[1..])
  }

  datatype PayloadScan = BadPayload | GotPayload(p: Payload, n: nat)

  /** The payload of a record of wire type `wt`; groups (3), end-groups and 6, 7 are rejected here. */
  function ReadPayload(b: bytes, wt: nat): (r: PayloadScan)
    ensures r.GotPayload? ==> r.n <= |b| && WireType(r.p) == wt
  {
    if wt == 0 then
      match ReadVarint(b, 10)
      case Truncated => BadPayload
      case Got(v, n) => GotPayload(VarintP(v % TWO64), n)
    else if wt == 1 then
      if |b| < 8 then BadPayload else GotPayload(Fixed64P(FixedValue(b[..8])), 8)
    else if wt == 2 then
      match ReadVarint(b, 5)
      case Truncated => BadPayload
      case Got(v, n) =>
        if v > MAX_SIZE || |b| - n < v then BadPayload else GotPayload(LenP(b[n..n + v]), n + v)
    else if wt == 5 then
      if |b| < 4 then BadPayload else GotPayload(Fixed32P(FixedValue(b[..4])), 4)
    else BadPayload
  }

  /** Malformed: the parser returns null. Halt: a zero or end-group tag, which stops the loop. */
  datatype Item = Malformed | Halt(tag: nat) | Item(r: Record, n: nat)

  function ReadRecord(b: bytes): (i: Item)
    ensures i.Item? ==> 1 <= i.n <= |b|
  {
    match ReadVarint(b, 5)
    case Truncated => Malformed
    case Got(v, n) =>
      var tag := v % TWO32;
      if tag == 0 || tag % 8 == 4 then Halt(tag)
      else if tag / 8 == 0 then Malformed
      else
        match ReadPayload(b[n..], tag % 8)
        case BadPayload => Malformed
        case GotPayload(p, k) => Item(Record(tag / 8, p), n + k)
  }

  lemma VarintPayloadRoundTrip(v: nat, t: bytes)
    requires v < TWO64
    ensures ReadPayload(Varint(v) + t, 0) == GotPayload(VarintP(v), |Varint(v)|)
  {
    hide Varint, ReadVarint;
    VarintFits64(v);
    VarintRoundTrip(v, t, 10);
  }

  lemma FixedPayloadRoundTrip(v: nat, t: bytes)
    ensures v < TWO64 ==> ReadPayload(Fixed(v, 8) + t, 1) == GotPayload(Fixed64P(v), 8)
    ensures v < TWO32 ==> ReadPayload(Fixed(v, 4) + t, 5) == GotPayload(Fixed32P(v), 4)
  {
    hide Fixed, FixedValue, Pow256;
    FixedWidths();
    if v < TWO64 { FixedRoundTrip(v, 8); }
    if v < TWO32 { FixedRoundTrip(v, 4); }
    assert (Fixed(v, 8) + t)[..8] == Fixed(v, 8);
    assert (Fixed(v, 4) + t)[..4] == Fixed(v, 4);
  }

  lemma LenPayloadRoundTrip(s: bytes, t: bytes)
    requires |s| <= MAX_SIZE
    ensures ReadPayload(Varint(|s|) + s + t, 2) == GotPayload(LenP(s), |Varint(|s|)| + |s|)
  {
    hide Varint, ReadVarint;
    var h := Varint(|s|);
    VarintFits32(|s|);
    VarintRoundTrip(|s|, s + t, 5);
    assert h + s + t == h + (s + t);
    assert (h + s + t)[|h|..|h| + |s|] == s;
  }

  lemma PayloadRoundTrip(p: Payload, t: bytes)
    requires WFRecord(Record(1, p))
    ensures ReadPayload(EncodePayload(p) + t, WireType(p)) == GotPayload(p, |EncodePayload(p)|)
  {
    hide ReadPayload, Varint, Fixed;
    match p {
      case VarintP(v) => VarintPayloadRoundTrip(v, t);
      case Fixed64P(v) => FixedPayloadRoundTrip(v, t);
      case LenP(s) => LenPayloadRoundTrip(s, t);
      case Fixed32P(v) => FixedPayloadRoundTrip(v, t);
    }
  }

  lemma {:induction false} RecordRoundTrip(r: Record, t: bytes)
    requires WFRecord(r)
    ensures ReadRecord(EncodeRecord(r) + t) == Item(r, |EncodeRecord(r)|)
  {
    hide ReadPayload, EncodePayload, Varint, ReadVarint;
    var h, p := Varint(Tag(r)), EncodePayload(r.payload);
    assert h + p + t == h + (p + t);
    VarintFits32(Tag(r));
    VarintRoundTrip(Tag(r), p + t, 5);
    assert (h + p + t)[|h|..] == p + t;
    assert WFRecord(Record(1, r.payload));
    PayloadRoundTrip(r.payload, t);
  }

  lemma PayloadLocal(b: bytes, c: bytes, wt: nat)
    requires ReadPayload(b, wt).GotPayload?
    requires b[..ReadPayload(b, wt).n] <= c
    ensures ReadPayload(c, wt) == ReadPayload(b, wt)
  {
    var n := ReadPayload(b, wt).n;
    if wt == 0 {
      VarintLocal(b, c, 10);
    } else if wt == 2 {
      var k := ReadVarint(b, 5).n;
      assert b[..k] == b[..n][..k];
      VarintLocal(b, c, 5);
      assert b[k..n] == b[..n][k..];
      assert c[k..n] == c[..n][k..];
    } else if wt == 1 {
      assert b[..8] == c[..8];
    } else {
      assert b[..4] == c[..4];
    }
  }

  lemma {:induction false} RecordLocal(b: bytes, c: bytes)
    requires ReadRecord(b).Item?
    requires b[..ReadRecord(b).n] <= c
    ensures ReadRecord(c) == ReadRecord(b)
  {
    var n := ReadRecord(b).n;
    var k := ReadVarint(b, 5).n;
    assert b[..k] == b[..n][..k];
    VarintLocal(b, c, 5);
    var wt := ReadVarint(b, 5).value % TWO32 % 8;
    var p := ReadPayload(b[k..], wt);
    assert b[k..][..p.n] == b[..n][k..];
    assert c[k..][..p.n] == c[..n][k..];
    PayloadLocal(b[k..], c[k..], wt);
  }

  lemma HaltLocal(b: bytes, c: bytes)
    requires ReadRecord(b).Halt?
    requires b <= c
    ensures ReadRecord(c) == ReadRecord(b)
  {
    var k := ReadVarint(b, 5).n;
    assert b[..k] == c[..k];
    VarintLocal(b, c, 5);
  }

  /** Whatever was read is a legal record, and re-encoding it takes no more bytes than were read. */
  lemma {:induction false} ReadRecordSound(b: bytes)
    requires ReadRecord(b).Item?
    ensures WFRecord(ReadRecord(b).r)
    ensures |EncodeRecord(ReadRecord(b).r)| <= ReadRecord(b).n
  {
    var Got(v, k) := ReadVarint(b, 5);
    var r := ReadRecord(b).r;
    assert Tag(r) == v % TWO32;
    VarintMinimal(b, 5);
    VarintMonotone(Tag(r), v);
    var c := b[k..];
    FixedWidths();
    match r.payload {
      case VarintP(x) =>
        VarintMinimal(c, 10);
        VarintMonotone(x, ReadVarint(c, 10).value);
      case Fixed64P(x) =>
        FixedBound(c[..8]);
      case LenP(x) =>
        VarintMinimal(c, 5);
      case Fixed32P(x) =>
        FixedBound(c[..4]);
    }
  }

  lemma {:induction false} EncodeRecordsConcat(a: seq<Record>, b: seq<Record>)
    ensures EncodeRecords(a + b) == EncodeRecords(a) + EncodeRecords(b)
  {
    hide EncodeRecord;
    if a == [] {
      assert a + b == b;
    } else {
      EncodeRecordsConcat(a[1..], b);
      assert (a + b)[1..] == a[1..] + b;
      assert EncodeRecords(a + b) == EncodeRecord(a[0]) + (EncodeRecords(a[1..]) + EncodeRecords(b));
      Associative(EncodeRecord(a[0]), EncodeRecords(a[1..]), EncodeRecords(b));
    }
  }

  lemma AssociativeSeq<T>(a: seq<T>, b: seq<T>, c: seq<T>)
    ensures (a + b) + c == a + (b + c)
  {
  }

  lemma Associative(a: bytes, b: bytes, c: bytes)
    ensures (a + b) + c == a + (b + c)
  {
  }
}
