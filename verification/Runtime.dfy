/**
  What the generated classes share: the readers and writers they call at a buffer position, and the
  facts that connect one trip round a parse loop, one printed field and one size term to the
  schema-level functions. Buffers are flat: a value cut off by the limit is a failure.
 */
module Runtime {
  import opened Options
  import opened Wire
  import opened Utf8
  import opened Message
  import opened RoundTrip
  import opened Canonical
  import opened Sizes
  import opened TwoPass

  type u32 = x: int | 0 <= x < TWO32
  type i64 = x: int | -0x8000_0000_0000_0000 <= x < 0x8000_0000_0000_0000
  type i32 = x: int | -0x8000_0000 <= x < 0x8000_0000

  // ---------------------------------------------------------------- signed numbers

  /** The 64-bit pattern a signed value travels as; negative int32 values are sign-extended. */
  function ToWire(i: i64): (n: u64) { if i < 0 then i + TWO64 else i }

  /** static_cast<int64_t> of a 64-bit varint. */
  function AsI64(n: u64): (i: i64) { if n < 0x8000_0000_0000_0000 then n else n - TWO64 }

  /** static_cast<int32_t>, which an enum or int32 field applies to what was read. */
  function AsI32(n: nat): (i: i32)
  {
    var w := n % TWO32;
    if w < 0x8000_0000 then w else w - TWO32
  }

  /** Two's complement: the casts change a number by a multiple of 2^64 or 2^32 only. */
  lemma {:induction false} TwosComplement(i: i64, n: u64)
    ensures (ToWire(i) - i) % TWO64 == 0 && (n - AsI64(n)) % TWO64 == 0 && (n - AsI32(n)) % TWO32 == 0
    ensures (n - Norm(U32, n)) % TWO32 == 0 && Norm(U32, n) < TWO32
    ensures AsI32(n) >= 0 ==> SignExtend(n) == AsI32(n)
    ensures AsI32(n) < 0 ==> SignExtend(n) == AsI32(n) + TWO64
  {
  }

  /** A negative number takes ten bytes, in the size pass as on the wire, and any width reads it back. */
  lemma {:induction false} SignedRoundTrip(i: i64, t: bytes)
    ensures ReadVarint(Varint(ToWire(i)) + t, 10) == Got(ToWire(i), VarintSize(ToWire(i)))
    ensures AsI64(ToWire(i)) == i
    ensures i < 0 ==> VarintSize(ToWire(i)) == 10
    ensures -0x8000_0000 <= i < 0x8000_0000 ==>
              AsI32(ToWire(i)) == AsI32(ToWire(i) % TWO32) == i &&
                Norm(I32, ToWire(i)) == Norm(Enum, ToWire(i)) == ToWire(i)
  {
    hide Varint, ReadVarint;
    VarintFits64(ToWire(i));
    VarintRoundTrip(ToWire(i), t, 10);
    if i < 0 { TenBytes(ToWire(i)); }
    assert TWO64 % TWO32 == 0;
    if -0x8000_0000 <= i < 0 { assert (i + TWO64) % TWO32 == i + TWO32; }
  }

  lemma TenBytes(n: nat)
    requires 0x8000_0000_0000_0000 <= n < TWO64
    ensures |Varint(n)| == 10
  {
    hide Varint;
    VarintFits64(n);
    VarintMonotone(0x8000_0000_0000_0000, n);
    assert |Varint(0x8000_0000_0000_0000)| == 10 by { TopBit(); }
  }

  lemma TopBit()
    ensures |Varint(0x8000_0000_0000_0000)| == 10
  {
    assert |Varint(1)| == 1;
    assert |Varint(0x80)| == 2;
    assert |Varint(0x4000)| == 3;
    assert |Varint(0x20_0000)| == 4;
    assert |Varint(0x1000_0000)| == 5;
    assert |Varint(0x8_0000_0000)| == 6;
    assert |Varint(0x400_0000_0000)| == 7;
    assert |Varint(0x2_0000_0000_0000)| == 8;
    assert |Varint(0x100_0000_0000_0000)| == 9;
  }

  lemma AsI32Wire(n: u64)
    ensures ToWire(AsI32(n)) == SignExtend(n)
  {
  }

  lemma AsI64Wire(n: u64)
    ensures ToWire(AsI64(n)) == n
  {
  }

  // ---------------------------------------------------------------- readers

  datatype NumAt = NoNum | NumAt(v: nat, ptr: nat)
  datatype StrAt = NoStr | StrAt(b: bytes, ptr: nat)
  /** A length prefix: the payload occupies [ptr, end). */
  datatype SpanAt = NoSpan | SpanAt(ptr: nat, end: nat)

  /** Up to five bytes, truncated to 32 bits. */
  function ReadTag(buf: bytes, ptr: nat, limit: nat): (r: NumAt)
    requires ptr <= limit <= |buf|
    ensures r.NumAt? ==> ptr < r.ptr <= limit && r.v < TWO32
  {
    match ReadVarint(buf[ptr..limit], 5)
    case Truncated => NoNum
    case Got(v, n) => NumAt(v % TWO32, ptr + n)
  }

  function ReadVarint64(buf: bytes, ptr: nat, limit: nat): (r: NumAt)
    requires ptr <= limit <= |buf|
    ensures r.NumAt? ==> ptr < r.ptr <= limit && r.v < TWO64
  {
    match ReadVarint(buf[ptr..limit], 10)
    case Truncated => NoNum
    case Got(v, n) => NumAt(v % TWO64, ptr + n)
  }

  function ReadVarint32(buf: bytes, ptr: nat, limit: nat): (r: NumAt)
    requires ptr <= limit <= |buf|
    ensures r.NumAt? ==> ptr < r.ptr <= limit && r.v < TWO32
  {
    match ReadVarint(buf[ptr..limit], 10)
    case Truncated => NoNum
    case Got(v, n) => NumAt(v % TWO32, ptr + n)
  }

  /** The raw bits of a double. */
  function ReadDouble(buf: bytes, ptr: nat, limit: nat): (r: NumAt)
    requires ptr <= limit <= |buf|
    ensures r.NumAt? ==> ptr < r.ptr <= limit && r.v < TWO64
  {
    if limit - ptr < 8 then NoNum
    else
      assert FixedValue(buf[ptr..ptr + 8]) < TWO64 by { FixedBound(buf[ptr..ptr + 8]); FixedWidths(); }
      NumAt(FixedValue(buf[ptr..ptr + 8]), ptr + 8)
  }

  function ReadSize(buf: bytes, ptr: nat, limit: nat): (r: SpanAt)
    requires ptr <= limit <= |buf|
    ensures r.SpanAt? ==> ptr < r.ptr <= r.end <= limit
  {
    match ReadVarint(buf[ptr..limit], 5)
    case Truncated => NoSpan
    case Got(v, n) => if v > MAX_SIZE || limit - ptr - n < v then NoSpan else SpanAt(ptr + n, ptr + n + v)
  }

  function ReadString(buf: bytes, ptr: nat, limit: nat): (r: StrAt)
    requires ptr <= limit <= |buf|
    ensures r.StrAt? ==> ptr < r.ptr <= limit
  {
    match ReadSize(buf, ptr, limit)
    case NoSpan => NoStr
    case SpanAt(q, e) => StrAt(buf[q..e], e)
  }

  /** How a parse loop ends: null on failure, at its limit, or at a tag it hands back to its caller. */
  datatype Status = Null | AtLimit | AtTag(tag: nat)

  /** How one trip round a switch ends: no case took the tag, a case failed, or it read up to `ptr`. */
  datatype Step = NotTaken | Bad | Next(ptr: nat)

  /** A has-bits word, as the set of the masks that are on in it. */
  type HasBits = set<nat>

  /** A repeated message field, as it would be printed. */
  function ManySlot(ms: seq<Msg>): Option<Value> { if ms == [] then None else Some(Many(ms)) }

  /** The loop's result read off the schema-level outcome. */
  ghost predicate Agrees(o: Outcome, st: Status, m: Msg)
  {
    match o
    case Failed => st == Null
    case Done(m') => st == AtLimit && m == m'
    case Stopped(m', tag) => st == AtTag(tag) && m == m'
  }

  /** ExpectTag: a one-byte tag is recognised from its byte alone. */
  lemma {:induction false} ExpectTag(buf: bytes, ptr: nat, limit: nat, tag: nat)
    requires ptr < limit <= |buf| && buf[ptr] == tag < 128
    ensures ReadTag(buf, ptr, limit) == NumAt(tag, ptr + 1)
  {
    assert buf[ptr..limit][0] == tag;
  }

  // ---------------------------------------------------------------- one trip round the loop

  lemma Middle(buf: bytes, ptr: nat, a: nat, e: nat, limit: nat)
    requires ptr <= a <= e <= limit <= |buf|
    ensures buf[ptr..limit][a - ptr..e - ptr] == buf[a..e]
  {
    assert forall i | 0 <= i < e - a :: buf[ptr..limit][a - ptr..e - ptr][i] == buf[a..e][i];
  }

  lemma Front(buf: bytes, ptr: nat, n: nat, limit: nat)
    requires ptr + n <= limit <= |buf|
    ensures buf[ptr..limit][..n] == buf[ptr..ptr + n]
  {
  }

  lemma Slices(buf: bytes, ptr: nat, n: nat, limit: nat)
    requires ptr + n <= limit <= |buf|
    ensures buf[ptr..limit][n..] == buf[ptr + n..limit]
  {
  }

  /** The loop stops at a zero or end-group tag, and fails on a broken tag. */
  lemma StepTag(s: Schema, m: Msg, buf: bytes, ptr: nat, limit: nat)
    requires ptr < limit <= |buf|
    ensures var t := ReadTag(buf, ptr, limit);
            t.NoNum? ==> Parse(s, m, buf[ptr..limit]) == Failed
    ensures var t := ReadTag(buf, ptr, limit);
            t.NumAt? && (t.v == 0 || t.v % 8 == 4) ==> Parse(s, m, buf[ptr..limit]) == Stopped(m, t.v)
  {
    hide ReadVarint, Apply, ReadPayload;
  }

  /** The rest of the parse once the tag was read and the payload starts at `q`. */
  function AfterTag(s: Schema, m: Msg, buf: bytes, q: nat, limit: nat, tag: nat): Outcome
    requires q <= limit <= |buf|
  {
    match ReadPayload(buf[q..limit], tag % 8)
    case BadPayload => Failed
    case GotPayload(p, n) => AfterPayload(s, Apply(s, m, Record(tag / 8, p)), buf[q + n..limit])
  }

  function AfterPayload(s: Schema, m: Option<Msg>, rest: bytes): Outcome
  {
    if m.None? then Failed else Parse(s, m.value, rest)
  }

  /** A tag with a field number and a wire type: read the payload, apply the record, go on. */
  lemma StepRecord(s: Schema, m: Msg, buf: bytes, ptr: nat, limit: nat)
    requires ptr < limit <= |buf|
    requires var t := ReadTag(buf, ptr, limit); t.NumAt? && t.v >= 8 && t.v % 8 != 4
    ensures var t := ReadTag(buf, ptr, limit);
            Parse(s, m, buf[ptr..limit]) == AfterTag(s, m, buf, t.ptr, limit, t.v)
  {
    hide ReadVarint, Apply, ReadPayload;
    var t := ReadTag(buf, ptr, limit);
    var b := buf[ptr..limit];
    Slices(buf, ptr, t.ptr - ptr, limit);
    var p := ReadPayload(buf[t.ptr..limit], t.v % 8);
    if p.GotPayload? {
      Slices(buf, ptr, t.ptr - ptr + p.n, limit);
      assert buf[ptr..limit][t.ptr - ptr + p.n..] == buf[t.ptr + p.n..limit];
    }
  }

  /** A tag some case takes: the field is updated from the payload that follows. */
  lemma StepKnown(s: Schema, m: Msg, buf: bytes, ptr: nat, limit: nat, k: nat)
    requires ptr < limit <= |buf| && k in s.fields && k >= 1
    requires ReadTag(buf, ptr, limit).NumAt? && ReadTag(buf, ptr, limit).v == 8 * k + WireOf(s.fields[k].kind)
    ensures var q := ReadTag(buf, ptr, limit).ptr;
            Parse(s, m, buf[ptr..limit]) ==
              AfterUpdate(s, m, k, ReadPayload(buf[q..limit], WireOf(s.fields[k].kind)), buf, q, limit)
  {
    hide ReadVarint, Parse, PutSlot, Update, ReadPayload;
    var f := s.fields[k];
    var tag := ReadTag(buf, ptr, limit).v;
    assert tag / 8 == k && tag % 8 == WireOf(f.kind);
    StepRecord(s, m, buf, ptr, limit);
  }

  function AfterUpdate(s: Schema, m: Msg, k: nat, x: PayloadScan, buf: bytes, q: nat, limit: nat): Outcome
    requires k in s.fields && q <= limit <= |buf| && (x.GotPayload? ==> x.n <= limit - q)
  {
    if x.BadPayload? then Failed
    else
      var v := Update(s.fields[k], x.p, Slot(m, k));
      if v.None? then Failed else Parse(s, PutSlot(s, m, k, v.value), buf[q + x.n..limit])
  }

  /** A scalar case: read, truncate to the field's type, store. */
  lemma StepVarint(s: Schema, m: Msg, buf: bytes, ptr: nat, limit: nat, k: nat)
    requires ptr < limit <= |buf| && k in s.fields && k >= 1
    requires var t := ReadTag(buf, ptr, limit); t.NumAt? && t.v == 8 * k
    requires WireOf(s.fields[k].kind) == 0
    ensures var f := s.fields[k];
            var x := ReadVarint64(buf, ReadTag(buf, ptr, limit).ptr, limit);
            if x.NoNum? then Parse(s, m, buf[ptr..limit]) == Failed
            else Parse(s, m, buf[ptr..limit]) ==
                 Parse(s, PutSlot(s, m, k, NumSlot(f, Norm(f.kind, x.v))), buf[x.ptr..limit])
  {
    hide ReadVarint, Parse, PutSlot, Norm;
    StepKnown(s, m, buf, ptr, limit, k);
  }

  lemma ReadersAgree(buf: bytes, ptr: nat, limit: nat)
    requires ptr <= limit <= |buf|
    ensures var (x, y) := (ReadVarint64(buf, ptr, limit), ReadVarint32(buf, ptr, limit));
            if x.NoNum? then y.NoNum? else y == NumAt(x.v % TWO32, x.ptr)
  {
    hide ReadVarint;
    match ReadVarint(buf[ptr..limit], 10) {
      case Truncated =>
      case Got(v, n) => assert v % TWO64 % TWO32 == v % TWO32 by { ModMod(v); }
    }
  }

  lemma ModMod(v: nat)
    ensures v % TWO64 % TWO32 == v % TWO32
  {
    var q := v / TWO64;
    var w := v % TWO64;
    assert v == q * TWO64 + w == (q * TWO32) * TWO32 + w;
    assert v % TWO32 == w % TWO32 by { AddMultiple(q * TWO32, w); }
  }

  lemma AddMultiple(q: nat, w: nat)
    ensures (q * TWO32 + w) % TWO32 == w % TWO32
    decreases q
  {
    if q > 0 {
      AddMultiple(q - 1, w);
      assert q * TWO32 + w == ((q - 1) * TWO32 + w) + TWO32;
    }
  }

  lemma StepDouble(s: Schema, m: Msg, buf: bytes, ptr: nat, limit: nat, k: nat)
    requires ptr < limit <= |buf| && k in s.fields && k >= 1
    requires var t := ReadTag(buf, ptr, limit); t.NumAt? && t.v == 8 * k + 1
    requires s.fields[k].kind.Double?
    ensures var f := s.fields[k];
            var x := ReadDouble(buf, ReadTag(buf, ptr, limit).ptr, limit);
            if x.NoNum? then Parse(s, m, buf[ptr..limit]) == Failed
            else Parse(s, m, buf[ptr..limit]) == Parse(s, PutSlot(s, m, k, NumSlot(f, x.v)), buf[x.ptr..limit])
  {
    hide ReadVarint, Parse, PutSlot, FixedValue;
    StepKnown(s, m, buf, ptr, limit, k);
    var q := ReadTag(buf, ptr, limit).ptr;
    if limit - q >= 8 { Front(buf, q, 8, limit); }
  }

  /** A length prefix delimits exactly the payload of the record. */
  lemma SpanIsPayload(buf: bytes, ptr: nat, limit: nat)
    requires ptr <= limit <= |buf|
    ensures var x := ReadSize(buf, ptr, limit);
            ReadPayload(buf[ptr..limit], 2) ==
            if x.NoSpan? then BadPayload else GotPayload(LenP(buf[x.ptr..x.end]), x.end - ptr)
  {
    hide ReadVarint;
    var x := ReadSize(buf, ptr, limit);
    if x.SpanAt? { Middle(buf, ptr, x.ptr, x.end, limit); }
  }

  lemma StepText(s: Schema, m: Msg, buf: bytes, ptr: nat, limit: nat, k: nat)
    requires ptr < limit <= |buf| && k in s.fields && k >= 1
    requires var t := ReadTag(buf, ptr, limit); t.NumAt? && t.v == 8 * k + 2
    requires s.fields[k].kind.Text? || s.fields[k].kind.Blob?
    ensures var f := s.fields[k];
            var x := ReadString(buf, ReadTag(buf, ptr, limit).ptr, limit);
            if x.NoStr? || (f.kind.Text? && !ValidUtf8(x.b)) then Parse(s, m, buf[ptr..limit]) == Failed
            else Parse(s, m, buf[ptr..limit]) == Parse(s, PutSlot(s, m, k, StrSlot(f, x.b)), buf[x.ptr..limit])
  {
    hide ReadVarint, Parse, PutSlot, ValidUtf8, ReadPayload, ReadSize, ParseEntry;
    StepKnown(s, m, buf, ptr, limit, k);
    SpanIsPayload(buf, ReadTag(buf, ptr, limit).ptr, limit);
  }

  /** A singular sub-message is parsed onto what is there, a repeated one into a new element. */
  function NestedBase(f: Field, v: Option<Value>): Msg { if f.kind.Sub? then MsgOf(v) else EMPTY }

  function NestedValue(f: Field, v: Option<Value>, c: Msg): Value
  {
    if f.kind.Sub? then SubV(c) else Many(ManyOf(v) + [c])
  }

  /** A nested message case, in terms of the nested parser's outcome on its span. */
  lemma StepNested(s: Schema, m: Msg, buf: bytes, ptr: nat, limit: nat, k: nat)
    requires ptr < limit <= |buf| && k in s.fields && k >= 1
    requires var t := ReadTag(buf, ptr, limit); t.NumAt? && t.v == 8 * k + 2
    requires s.fields[k].kind.Sub? || s.fields[k].kind.Rep?
    ensures var f := s.fields[k];
            var x := ReadSize(buf, ReadTag(buf, ptr, limit).ptr, limit);
            if x.NoSpan? then Parse(s, m, buf[ptr..limit]) == Failed
            else
              var c := Parse(f.kind.schema, NestedBase(f, Slot(m, k)), buf[x.ptr..x.end]);
              Parse(s, m, buf[ptr..limit]) ==
              if c.Done? then Parse(s, PutSlot(s, m, k, Some(NestedValue(f, Slot(m, k), c.m))), buf[x.end..limit])
              else Failed
  {
    hide ReadVarint, Parse, PutSlot, ValidUtf8, ReadPayload, ReadSize, ParseEntry;
    StepKnown(s, m, buf, ptr, limit, k);
    SpanIsPayload(buf, ReadTag(buf, ptr, limit).ptr, limit);
  }

  lemma StepEntry(s: Schema, m: Msg, buf: bytes, ptr: nat, limit: nat, k: nat)
    requires ptr < limit <= |buf| && k in s.fields && k >= 1
    requires var t := ReadTag(buf, ptr, limit); t.NumAt? && t.v == 8 * k + 2
    requires s.fields[k].kind.Dict?
    ensures var x := ReadSize(buf, ReadTag(buf, ptr, limit).ptr, limit);
            if x.NoSpan? then Parse(s, m, buf[ptr..limit]) == Failed
            else
              var e := ParseEntry([], [], buf[x.ptr..x.end]);
              Parse(s, m, buf[ptr..limit]) ==
              if e.Entry?
              then Parse(s, PutSlot(s, m, k, Some(Table(TableOf(Slot(m, k))[e.key := e.value]))), buf[x.end..limit])
              else Failed
  {
    hide ReadVarint, Parse, PutSlot, ValidUtf8, ReadPayload, ReadSize, ParseEntry;
    StepKnown(s, m, buf, ptr, limit, k);
    SpanIsPayload(buf, ReadTag(buf, ptr, limit).ptr, limit);
  }

  lemma ParseEnd(s: Schema, m: Msg, buf: bytes, limit: nat)
    requires limit <= |buf|
    ensures Parse(s, m, buf[limit..limit]) == Done(m)
  {
  }

  // ---------------------------------------------------------------- unknown fields

  datatype UnknownAt = NoUnknown | UnknownAt(r: Record, ptr: nat)

  /** UnknownFieldParse: a record of a field number and wire type no case takes. */
  function ReadUnknown(buf: bytes, ptr: nat, limit: nat, tag: u32): (r: UnknownAt)
    requires ptr <= limit <= |buf|
    ensures r.UnknownAt? ==> ptr <= r.ptr <= limit && r.r.num == tag / 8 && WireType(r.r.payload) == tag % 8 && tag >= 8
  {
    if tag < 8 then NoUnknown
    else
      match ReadPayload(buf[ptr..limit], tag % 8)
      case BadPayload => NoUnknown
      case GotPayload(p, n) => UnknownAt(Record(tag / 8, p), ptr + n)
  }

  /** Some case of the switch takes this tag. */
  predicate Takes(s: Schema, tag: nat)
  {
    tag / 8 in s.fields && tag % 8 == WireOf(s.fields[tag / 8].kind)
  }

  lemma {:induction false} StepUnknown(s: Schema, m: Msg, buf: bytes, ptr: nat, limit: nat)
    requires ptr < limit <= |buf|
    requires ReadTag(buf, ptr, limit).NumAt?
    requires ReadTag(buf, ptr, limit).v != 0 && ReadTag(buf, ptr, limit).v % 8 != 4
    requires !Takes(s, ReadTag(buf, ptr, limit).v)
    ensures var t := ReadTag(buf, ptr, limit);
            var x := ReadUnknown(buf, t.ptr, limit, t.v);
            if x.NoUnknown? then Parse(s, m, buf[ptr..limit]) == Failed
            else WFRecord(x.r) && !Known(s, x.r)
                 && Parse(s, m, buf[ptr..limit]) == Parse(s, m.(unknown := m.unknown + [x.r]), buf[x.ptr..limit])
  {
    hide ReadVarint, Parse, ReadPayload;
    var t := ReadTag(buf, ptr, limit);
    if t.v >= 8 {
      StepRecord(s, m, buf, ptr, limit);
      UnknownSound(buf, ptr, limit);
    } else {
      SmallTag(s, m, buf, ptr, limit);
    }
  }

  lemma SmallTag(s: Schema, m: Msg, buf: bytes, ptr: nat, limit: nat)
    requires ptr < limit <= |buf|
    requires var t := ReadTag(buf, ptr, limit); t.NumAt? && 0 < t.v < 8 && t.v % 8 != 4
    ensures Parse(s, m, buf[ptr..limit]) == Failed
  {
    hide ReadVarint, ReadPayload;
  }

  lemma UnknownSound(buf: bytes, ptr: nat, limit: nat)
    requires ptr < limit <= |buf|
    requires var t := ReadTag(buf, ptr, limit); t.NumAt? && t.v >= 8 && t.v % 8 != 4
    ensures var t := ReadTag(buf, ptr, limit);
            var x := ReadUnknown(buf, t.ptr, limit, t.v);
            x.UnknownAt? ==> WFRecord(x.r)
  {
    hide ReadVarint, ReadPayload, WFRecord, EncodeRecord;
    var t := ReadTag(buf, ptr, limit);
    Slices(buf, ptr, t.ptr - ptr, limit);
    if ReadUnknown(buf, t.ptr, limit, t.v).UnknownAt? {
      ReadRecordSound(buf[ptr..limit]);
    }
  }

  /** The unknown set of a class only ever holds legal records its switch does not take. */
  ghost predicate LegalUnknown(s: Schema, rs: seq<Record>)
  {
    forall r | r in rs :: WFRecord(r) && !Known(s, r)
  }

  lemma LegalAppend(s: Schema, rs: seq<Record>, r: Record)
    requires LegalUnknown(s, rs) && WFRecord(r) && !Known(s, r)
    ensures LegalUnknown(s, rs + [r])
  {
  }

  // ---------------------------------------------------------------- building messages from fields

  /** The message whose field `k` is `slots[k]`. */
  function Build(slots: seq<Option<Value>>, unknown: seq<Record>): Msg
  {
    Msg(map k: nat | k < |slots| && slots[k].Some? :: slots[k].value, unknown)
  }

  lemma BuildSlot(slots: seq<Option<Value>>, u: seq<Record>, k: nat)
    ensures Slot(Build(slots, u), k) == if k < |slots| then slots[k] else None
  {
  }

  lemma BuildPut(s: Schema, slots: seq<Option<Value>>, u: seq<Record>, k: nat, v: Option<Value>)
    requires k < |slots| && !OneofAt(s, k)
    ensures PutSlot(s, Build(slots, u), k, v) == Build(slots[k := v], u)
  {
    hide PutSlot, Build;
    forall j
      ensures Slot(PutSlot(s, Build(slots, u), k, v), j) == Slot(Build(slots[k := v], u), j)
    {
      PutSlotAt(s, Build(slots, u), k, v, j);
      BuildSlot(slots, u, j);
      BuildSlot(slots[k := v], u, j);
    }
    PutSlotAt(s, Build(slots, u), k, v, k);
    BuildUnknown(slots, u);
    BuildUnknown(slots[k := v], u);
    SameSlots(PutSlot(s, Build(slots, u), k, v), Build(slots[k := v], u));
  }

  lemma PutSlotAt(s: Schema, m: Msg, k: nat, v: Option<Value>, j: nat)
    ensures Slot(PutSlot(s, m, k, v), j) ==
            if j == k then v else if OneofAt(s, k) && OneofAt(s, j) then None else Slot(m, j)
    ensures PutSlot(s, m, k, v).unknown == m.unknown
  {
  }

  lemma BuildUnknown(slots: seq<Option<Value>>, u: seq<Record>)
    ensures Build(slots, u).unknown == u
  {
  }

  lemma BuildAppend(slots: seq<Option<Value>>, u: seq<Record>, r: Record)
    ensures Build(slots, u).(unknown := Build(slots, u).unknown + [r]) == Build(slots, u + [r])
  {
  }

  lemma BuildEmpty(slots: seq<Option<Value>>)
    requires forall k | 0 <= k < |slots| :: slots[k] == None
    ensures Build(slots, []) == EMPTY
  {
    assert Build(slots, []).fields == map[];
  }

  /** Merging field by field is merging the messages. */
  lemma {:induction false} BuildMerge(s: Schema, xs: seq<Option<Value>>, u: seq<Record>, ys: seq<Option<Value>>,
    w: seq<Record>,
                   zs: seq<Option<Value>>)
    requires |xs| == |ys| == |zs|
    requires forall k: nat | k < |zs| :: zs[k] == MergedSlot(s, Build(xs, u), Build(ys, w), k)
    ensures Merge(s, Build(xs, u), Build(ys, w)) == Build(zs, u + w)
  {
    hide MergeSlot, Build, Merge;
    var a, b := Build(xs, u), Build(ys, w);
    BuildUnknown(xs, u);
    BuildUnknown(ys, w);
    BuildUnknown(zs, u + w);
    MergeUnknown(s, a, b);
    forall k: nat
      ensures Slot(Merge(s, a, b), k) == Slot(Build(zs, u + w), k)
    {
      MergeSlots(s, a, b, k);
      BuildSlot(xs, u, k);
      BuildSlot(ys, w, k);
      BuildSlot(zs, u + w, k);
      if k >= |zs| { NoSlots(s, a, b, k); }
    }
    SameSlots(Merge(s, a, b), Build(zs, u + w));
  }

  lemma NoSlots(s: Schema, a: Msg, b: Msg, k: nat)
    requires Slot(a, k) == None && Slot(b, k) == None
    ensures MergedSlot(s, a, b, k) == None
  {
    hide Merge;
  }

  // ---------------------------------------------------------------- printing field by field

  /** Everything printed before field `k`, with the cached sizes in `c`. */
  function Printed(ord: Order, s: Schema, m: Msg, c: Cache, k: nat): bytes
  {
    if k == 0 then [] else Printed(ord, s, m, c, k - 1) + PrintAt(ord, s, m, c, k - 1)
  }

  lemma {:induction false} PrintedRest(ord: Order, s: Schema, m: Msg, c: Cache, k: nat)
    requires k <= s.max + 1
    ensures PrintFrom(ord, s, m, c, 0) == Printed(ord, s, m, c, k) + PrintFrom(ord, s, m, c, k)
  {
    hide PrintAt;
    if k > 0 {
      PrintedRest(ord, s, m, c, k - 1);
      Wire.Associative(Printed(ord, s, m, c, k - 1), PrintAt(ord, s, m, c, k - 1), PrintFrom(ord, s, m, c, k));
    }
  }

  /** Fields in ascending order, then the unknown records. */
  lemma {:induction false} PrintIsPrinted(ord: Order, s: Schema, m: Msg, c: Cache)
    ensures Print(ord, s, m, c) == Printed(ord, s, m, c, s.max + 1) + EncodeRecords(m.unknown)
  {
    hide Printed, PrintAt, EncodeRecords;
    PrintedRest(ord, s, m, c, s.max + 1);
    assert Printed(ord, s, m, c, s.max + 1) + [] == Printed(ord, s, m, c, s.max + 1);
  }

  function WriteVarint(k: nat, n: nat): bytes { Varint(8 * k) + Varint(n) }
  function WriteDouble(k: nat, n: nat): bytes { Varint(8 * k + 1) + Fixed(n, 8) }
  function WriteString(k: nat, b: bytes): bytes { Varint(8 * k + 2) + (Varint(|b|) + b) }

  function MapEntrySize(key: bytes, value: bytes): nat
  {
    1 + VarintSize(|key|) + |key| + (1 + VarintSize(|value|) + |value|)
  }

  /** One map entry, its length computed on the spot. */
  function WriteEntry(k: nat, key: bytes, value: bytes): bytes
  {
    Varint(8 * k + 2) + Varint(MapEntrySize(key, value)) + WriteString(1, key) + WriteString(2, value)
  }

  lemma {:induction false} EntryBytes(k: nat, key: bytes, value: bytes)
    ensures WriteEntry(k, key, value) == EncodeRecord(Record(k, LenP(EncodeEntry(key, value))))
    ensures 1 <= k <= 15 ==>
              |EncodeRecord(Record(k, LenP(EncodeEntry(key, value))))| ==
              1 + VarintSize(MapEntrySize(key, value)) + MapEntrySize(key, value)
  {
    hide Varint;
    StringRecord(1, key);
    StringRecord(2, value);
    EntryRecordSize(k, key, value);
    LenRecordSize(1, key);
    LenRecordSize(2, value);
    OneByteTag(1);
    OneByteTag(2);
    if 1 <= k <= 15 { OneByteTag(k); }
    Wire.Associative(Varint(8 * k + 2) + Varint(MapEntrySize(key, value)), WriteString(1, key), WriteString(2, value));
    Wire.Associative(Varint(8 * k + 2), Varint(MapEntrySize(key, value)), EncodeEntry(key, value));
  }

  lemma StringRecord(k: nat, b: bytes)
    ensures WriteString(k, b) == EncodeRecord(Record(k, LenP(b)))
  {
    hide Varint;
  }

  lemma BytesOfNum(ord: Order, s: Schema, m: Msg, c: Cache, k: nat, n: nat)
    requires k in s.fields && Slot(m, k) == Some(Num(n))
    ensures PrintAt(ord, s, m, c, k) == if s.fields[k].kind.Double? then WriteDouble(k, n) else WriteVarint(k, n)
  {
    hide Varint, Fixed, EncodeRecords;
    OneRecord(Record(k, if s.fields[k].kind.Double? then Fixed64P(n) else VarintP(n)));
  }

  lemma BytesOfStr(ord: Order, s: Schema, m: Msg, c: Cache, k: nat, b: bytes)
    requires k in s.fields && Slot(m, k) == Some(Str(b))
    ensures PrintAt(ord, s, m, c, k) == WriteString(k, b)
  {
    hide Varint, EncodeRecords;
    OneRecord(Record(k, LenP(b)));
  }

  lemma BytesOfSub(ord: Order, s: Schema, m: Msg, c: Cache, k: nat, sub: Msg)
    requires k in s.fields && s.fields[k].kind.Sub? && Slot(m, k) == Some(SubV(sub))
    ensures PrintAt(ord, s, m, c, k) ==
            WriteHeader(k, Kid(c, k, 0).size) + Print(ord, s.fields[k].kind.schema, sub, Kid(c, k, 0))
  {
    hide Print, Kid, WriteHeader, PrintField, PrintNested;
    PrintSubField(ord, k, s.fields[k], sub, c);
    PrintNestedParts(ord, k, s.fields[k].kind.schema, sub, Kid(c, k, 0));
  }

  lemma BytesOfTable(ord: Order, s: Schema, m: Msg, c: Cache, k: nat, t: map<bytes, bytes>)
    requires k in s.fields && Slot(m, k) == Some(Table(t)) && forall x | x in ord(t) :: x in t
    ensures PrintAt(ord, s, m, c, k) == EncodeRecords(EntryRecords(k, ord(t), t))
  {
    hide EncodeRecords, EntryRecords;
  }

  lemma BytesOfNone(ord: Order, s: Schema, m: Msg, c: Cache, k: nat)
    requires k !in s.fields || Slot(m, k) == None
    ensures PrintAt(ord, s, m, c, k) == []
  {
  }

  // ---------------------------------------------------------------- sizes field by field

  ghost function SizeAt(s: Schema, m: Msg, k: nat): nat
  {
    if k in s.fields && k in m.fields then FieldSize(k, s.fields[k], m.fields[k]) else 0
  }

  lemma SizeStepAt(s: Schema, m: Msg, k: nat)
    ensures FieldsSize(s, m, k) == if k > s.max then 0 else SizeAt(s, m, k) + FieldsSize(s, m, k + 1)
  {
    hide FieldSize;
  }

  lemma SizeOfNum(s: Schema, m: Msg, k: nat, n: nat)
    requires 1 <= k <= 15 && k in s.fields && Numeric(s.fields[k].kind)
    ensures Slot(m, k) == Some(Num(n)) ==>
              SizeAt(s, m, k) == if s.fields[k].kind.Double? then 1 + 8 else 1 + VarintSize(n)
    ensures Slot(m, k) == None ==> SizeAt(s, m, k) == 0
  {
    assert VarintSize(8 * k) == 1 && VarintSize(8 * k + 1) == 1;
  }

  lemma SizeOfStr(s: Schema, m: Msg, k: nat, b: bytes)
    requires 1 <= k <= 15 && k in s.fields
    ensures Slot(m, k) == Some(Str(b)) ==> SizeAt(s, m, k) == 1 + VarintSize(|b|) + |b|
    ensures Slot(m, k) == None ==> SizeAt(s, m, k) == 0
  {
    assert VarintSize(8 * k + 2) == 1;
  }

  lemma SizeOfSub(s: Schema, m: Msg, k: nat, c: Msg)
    requires 1 <= k <= 15 && k in s.fields && s.fields[k].kind.Sub? && Slot(m, k) == Some(SubV(c))
    ensures var n := ByteSize(s.fields[k].kind.schema, c); SizeAt(s, m, k) == 1 + VarintSize(n) + n
  {
    hide ByteSize;
    OneByteTag(k);
  }

  lemma SizeOfMany(s: Schema, m: Msg, k: nat, ms: seq<Msg>)
    requires k in s.fields && s.fields[k].kind.Rep?
    requires Slot(m, k) == if ms == [] then None else Some(Many(ms))
    ensures SizeAt(s, m, k) == ManySize(k, s.fields[k].kind.schema, ms)
  {
    hide ByteSize;
  }

  lemma SizeOfTable(s: Schema, m: Msg, k: nat, t: map<bytes, bytes>)
    requires k in s.fields && Slot(m, k) == if t == map[] then None else Some(Table(t))
    ensures SizeAt(s, m, k) == EntriesSize(k, t)
  {
    hide EntrySize, VarintSize, ManySize, LenSize, ByteSize;
  }

  // ---------------------------------------------------------------- steps of the printers

  /** One more field behind what was already printed. */
  lemma PrintStep(ord: Order, s: Schema, m: Msg, c: Cache, k: nat, target: bytes)
    ensures target + Printed(ord, s, m, c, k + 1) == target + Printed(ord, s, m, c, k) + PrintAt(ord, s, m, c, k)
  {
    hide PrintAt;
    Wire.Associative(target, Printed(ord, s, m, c, k), PrintAt(ord, s, m, c, k));
  }

  lemma PrintNone(ord: Order, s: Schema, m: Msg, c: Cache, k: nat, target: bytes)
    requires k !in s.fields || Slot(m, k) == None
    ensures target + Printed(ord, s, m, c, k + 1) == target + Printed(ord, s, m, c, k)
  {
    hide PrintAt, Printed;
    PrintStep(ord, s, m, c, k, target);
    BytesOfNone(ord, s, m, c, k);
    assert target + Printed(ord, s, m, c, k) + [] == target + Printed(ord, s, m, c, k);
  }

  lemma PrintStart(ord: Order, s: Schema, m: Msg, c: Cache, target: bytes)
    ensures target + Printed(ord, s, m, c, 0) == target
  {
  }

  /** The unknown records come last. */
  lemma PrintEnd(ord: Order, s: Schema, m: Msg, c: Cache, target: bytes)
    ensures target + Printed(ord, s, m, c, s.max + 1) + EncodeRecords(m.unknown) == target + Print(ord, s, m, c)
  {
    hide Printed, Print, EncodeRecords;
    PrintIsPrinted(ord, s, m, c);
    Wire.Associative(target, Printed(ord, s, m, c, s.max + 1), EncodeRecords(m.unknown));
  }

  /** An implicit-presence number: written when it is not zero. */
  lemma PrintNum(ord: Order, s: Schema, m: Msg, c: Cache, k: nat, n: nat, target: bytes)
    requires k in s.fields && Slot(m, k) == NumSlot(s.fields[k], n)
    ensures target + Printed(ord, s, m, c, k + 1) ==
            if n == 0 && !s.fields[k].explicit then target + Printed(ord, s, m, c, k)
            else target + Printed(ord, s, m, c, k)
                 + (if s.fields[k].kind.Double? then WriteDouble(k, n) else WriteVarint(k, n))
  {
    hide PrintAt, Printed;
    if n == 0 && !s.fields[k].explicit {
      PrintNone(ord, s, m, c, k, target);
    } else {
      PrintStep(ord, s, m, c, k, target);
      BytesOfNum(ord, s, m, c, k, n);
    }
  }

  lemma PrintStr(ord: Order, s: Schema, m: Msg, c: Cache, k: nat, b: bytes, target: bytes)
    requires k in s.fields && Slot(m, k) == StrSlot(s.fields[k], b)
    ensures target + Printed(ord, s, m, c, k + 1) ==
            if b == [] && !s.fields[k].explicit then target + Printed(ord, s, m, c, k)
            else target + Printed(ord, s, m, c, k) + WriteString(k, b)
  {
    hide PrintAt, Printed;
    if b == [] && !s.fields[k].explicit {
      PrintNone(ord, s, m, c, k, target);
    } else {
      PrintStep(ord, s, m, c, k, target);
      BytesOfStr(ord, s, m, c, k, b);
    }
  }

  lemma PrintMany(ord: Order, s: Schema, m: Msg, c: Cache, k: nat, ms: seq<Msg>, target: bytes)
    requires k in s.fields && s.fields[k].kind.Rep?
    requires Slot(m, k) == if ms == [] then None else Some(Many(ms))
    ensures target + Printed(ord, s, m, c, k + 1) ==
            target + Printed(ord, s, m, c, k) + PrintElements(ord, k, s.fields[k].kind.schema, ms, c, 0)
  {
    hide Printed, PrintElements;
    PrintStep(ord, s, m, c, k, target);
    if ms == [] { NoElements(ord, k, s.fields[k].kind.schema, c); }
  }

  lemma PrintSub(ord: Order, s: Schema, m: Msg, c: Cache, k: nat, sub: Msg, target: bytes)
    requires k in s.fields && s.fields[k].kind.Sub? && Slot(m, k) == Some(SubV(sub))
    ensures target + Printed(ord, s, m, c, k + 1) ==
            target + Printed(ord, s, m, c, k)
            + (WriteHeader(k, Kid(c, k, 0).size) + Print(ord, s.fields[k].kind.schema, sub, Kid(c, k, 0)))
  {
    hide Printed, Print, Kid, PrintAt, WriteHeader;
    PrintStep(ord, s, m, c, k, target);
    BytesOfSub(ord, s, m, c, k, sub);
  }

  lemma PrintTable(ord: Order, s: Schema, m: Msg, c: Cache, k: nat, t: map<bytes, bytes>, target: bytes)
    requires ValidOrder(ord) && k in s.fields && s.fields[k].kind.Dict?
    requires Slot(m, k) == if t == map[] then None else Some(Table(t))
    requires forall x | x in ord(t) :: x in t
    ensures target + Printed(ord, s, m, c, k + 1) ==
            target + Printed(ord, s, m, c, k) + EncodeRecords(EntryRecords(k, ord(t), t))
  {
    hide Printed, EncodeRecords, EntryRecords, PrintAt;
    PrintStep(ord, s, m, c, k, target);
    if t == map[] {
      EnumerationLength(ord(t), t);
      NoEntries(k, ord(t), t);
      BytesOfNone(ord, s, m, c, k);
    } else {
      BytesOfTable(ord, s, m, c, k, t);
    }
  }

  lemma NoElements(ord: Order, k: nat, cs: Schema, c: Cache)
    ensures PrintElements(ord, k, cs, [], c, 0) == []
  {
  }

  /** One more element behind those already printed: header with its cached size, then its fields. */
  lemma {:induction false} PrintElement(ord: Order, k: nat, cs: Schema, ms: seq<Msg>, x: Msg, c: Cache, i: nat)
    ensures PrintElements(ord, k, cs, ms + [x], c, i) ==
            PrintElements(ord, k, cs, ms, c, i)
            + (WriteHeader(k, Kid(c, k, i + |ms|).size) + Print(ord, cs, x, Kid(c, k, i + |ms|)))
    decreases |ms|
  {
    hide WriteHeader, Print, Kid;
    var last := PrintNested(ord, k, cs, x, Kid(c, k, i + |ms|));
    if ms == [] {
      assert ms + [x] == [x] && [x][1..] == [];
      assert PrintElements(ord, k, cs, [x], c, i) == last + [];
      assert last + [] == last && [] + last == last;
    } else {
      assert (ms + [x])[1..] == ms[1..] + [x];
      PrintElement(ord, k, cs, ms[1..], x, c, i + 1);
      Wire.Associative(PrintNested(ord, k, cs, ms[0], Kid(c, k, i)), PrintElements(ord, k, cs, ms[1..], c, i + 1),
        last);
    }
  }

  /** A nested class without classes in it prints its encoding behind the header. */
  lemma PrintLeaf(ord: Order, cs: Schema, m: Msg, c: Cache)
    requires Leaf(cs)
    ensures Print(ord, cs, m, c) == Encode(ord, cs, m)
  {
    hide Print, Encode;
    LeafPrint(ord, cs, m, c);
  }

  lemma OneByteTag(k: nat)
    requires 1 <= k <= 15
    ensures VarintSize(8 * k + 2) == 1
  {
  }

  // ---------------------------------------------------------------- merging plain fields

  /** Scalars and strings outside a oneof: the right operand wins where it is set. */
  lemma MergedPlain(s: Schema, a: Msg, b: Msg, k: nat)
    requires k in s.fields ==>
             !s.fields[k].oneof && !s.fields[k].kind.Sub? && !s.fields[k].kind.Rep? && !s.fields[k].kind.Dict?
    ensures MergedSlot(s, a, b, k) == if Slot(b, k).Some? then Slot(b, k) else Slot(a, k)
  {
  }

  function Overlay(xs: seq<Option<Value>>, ys: seq<Option<Value>>): seq<Option<Value>>
    requires |xs| == |ys|
  {
    seq(|xs|, i requires 0 <= i < |xs| => if ys[i].Some? then ys[i] else xs[i])
  }

  lemma PlainOverlay(s: Schema, xs: seq<Option<Value>>, u: seq<Record>, ys: seq<Option<Value>>, w: seq<Record>)
    requires |xs| == |ys|
    requires forall k | k in s.fields :: PlainField(s.fields[k])
    ensures Merge(s, Build(xs, u), Build(ys, w)) == Build(Overlay(xs, ys), u + w)
  {
    hide Merge, MergedSlot, Build;
    forall k: nat | k < |xs|
      ensures Overlay(xs, ys)[k] == MergedSlot(s, Build(xs, u), Build(ys, w), k)
    {
      MergedPlain(s, Build(xs, u), Build(ys, w), k);
      BuildSlot(xs, u, k);
      BuildSlot(ys, w, k);
    }
    BuildMerge(s, xs, u, ys, w, Overlay(xs, ys));
  }

  /** Merging onto an empty message copies, whatever the strings hold. */
  lemma PlainCopy(s: Schema, ys: seq<Option<Value>>, w: seq<Record>)
    requires forall k | k in s.fields :: PlainField(s.fields[k])
    ensures Merge(s, EMPTY, Build(ys, w)) == Build(ys, w)
  {
    hide Merge, Build;
    var xs := seq(|ys|, i => None);
    BuildEmpty(xs);
    PlainOverlay(s, xs, [], ys, w);
    assert Overlay(xs, ys) == ys;
    assert [] + w == w;
  }

  /** A built message is legal when every present slot is. */
  lemma BuildLegal(s: Schema, slots: seq<Option<Value>>, u: seq<Record>)
    requires LegalUnknown(s, u)
    requires forall k: nat | k < |slots| && slots[k].Some? :: k in s.fields && WFValue(s.fields[k], slots[k].value)
    requires forall i: nat, j: nat | i < |slots| && j < |slots| && slots[i].Some? && slots[j].Some? &&
                                     OneofAt(s, i) && OneofAt(s, j) :: i == j
    ensures WF(s, Build(slots, u))
  {
    hide WFValue, WFRecord;
  }

  predicate PlainField(f: Field)
  {
    !f.oneof && !f.kind.Sub? && !f.kind.Rep? && !f.kind.Dict?
  }

  lemma SizeOfNothing(s: Schema, m: Msg, k: nat)
    requires k !in s.fields || Slot(m, k) == None
    ensures SizeAt(s, m, k) == 0
  {
  }
}
