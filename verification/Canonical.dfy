/**
  Re-encoding: what a parser accepts is always a legal message, printing it again is a fixed point,
  and it takes no more bytes than the input exactly for the classes without map, int32 or enum fields at any depth.
 */
module Canonical {
  import opened Options
  import opened Wire
  import opened Utf8
  import opened Message
  import opened RoundTrip
  import opened Streaming
  import opened FieldOrder

  // ---------------------------------------------------------------- accepted inputs are legal messages

  lemma NormStable(kind: Kind, v: nat)
    requires v < TWO64
    ensures Norm(kind, v) < TWO64 && Norm(kind, Norm(kind, v)) == Norm(kind, v)
  {
    assert TWO64 % TWO32 == 0;
    var w := v % TWO32;
    assert (w + TWO64 - TWO32) % TWO32 == w;
  }

  lemma {:induction false} EntryLegal(key: bytes, value: bytes, b: bytes)
    requires ValidUtf8(key) && ValidUtf8(value)
    ensures var e := ParseEntry(key, value, b); e.Entry? ==> ValidUtf8(e.key) && ValidUtf8(e.value)
    decreases |b|
  {
    hide ReadRecord, ValidUtf8;
    if b != [] && ReadRecord(b).Item? {
      var Item(r, n) := ReadRecord(b);
      if r.num == 1 && r.payload.LenP? {
        if ValidUtf8(r.payload.b) { EntryLegal(r.payload.b, value, b[n..]); }
      } else if r.num == 2 && r.payload.LenP? {
        if ValidUtf8(r.payload.b) { EntryLegal(key, r.payload.b, b[n..]); }
      } else {
        EntryLegal(key, value, b[n..]);
      }
    }
  }

  /** One record leaves a legal value in its field. */
  lemma {:induction false} UpdateLegal(f: Field, p: Payload, v: Option<Value>)
    requires WFField(f) && WFRecord(Record(1, p)) && WireType(p) == WireOf(f.kind)
    requires v.Some? ==> WFValue(f, v.value)
    requires Update(f, p, v).Some? && Update(f, p, v).value.Some?
    ensures WFValue(f, Update(f, p, v).value.value)
    decreases f, 0
  {
    hide ValidUtf8, Parse, WF, ParseEntry;
    match f.kind {
      case Sub(cs) =>
        assert WF(cs, MsgOf(v)) by { EmptyLegal(cs); }
        ParseLegal(cs, MsgOf(v), p.b);
      case Rep(cs) =>
        EmptyLegal(cs);
        ParseLegal(cs, EMPTY, p.b);
      case Dict =>
        EmptyUtf8();
        EntryLegal([], [], p.b);
        assert ParseEntry([], [], p.b).key in Update(f, p, v).value.value.t;
      case Text =>
      case Blob =>
      case _ =>
        NormStable(f.kind, PayloadNum(p));
    }
  }

  lemma EmptyUtf8()
    ensures ValidUtf8([])
  {
  }

  lemma PutLegal(s: Schema, m: Msg, k: nat, v: Option<Value>)
    requires WF(s, m) && k in s.fields
    requires v.Some? ==> WFValue(s.fields[k], v.value)
    ensures WF(s, PutSlot(s, m, k, v))
  {
    hide WFValue, WFRecord;
  }

  lemma ApplyLegal(s: Schema, m: Msg, r: Record)
    requires WFSchema(s) && WF(s, m) && WFRecord(r)
    requires Apply(s, m, r).Some?
    ensures WF(s, Apply(s, m, r).value)
    decreases s, 0
  {
    hide WFValue, Update, PutSlot, WFField;
    if Known(s, r) {
      var f := s.fields[r.num];
      var v := Update(f, r.payload, Slot(m, r.num));
      if v.value.Some? { UpdateLegal(f, r.payload, Slot(m, r.num)); }
      PutLegal(s, m, r.num, v.value);
    }
  }

  /** Every reachable parse result is a legal message, also when the loop was stopped by a tag. */
  lemma {:induction false} ParseLegal(s: Schema, m: Msg, b: bytes)
    requires WFSchema(s) && WF(s, m)
    ensures !Parse(s, m, b).Failed? ==> WF(s, Parse(s, m, b).m)
    decreases s, 1, |b|
  {
    hide WF, WFSchema, Apply, ReadRecord, WFRecord;
    if b != [] && ReadRecord(b).Item? {
      var Item(r, n) := ReadRecord(b);
      ReadRecordSound(b);
      if Apply(s, m, r).Some? {
        ApplyLegal(s, m, r);
        ParseLegal(s, Apply(s, m, r).value, b[n..]);
      }
    }
  }

  // ---------------------------------------------------------------- re-encoding is a fixed point

  /** Printing what was parsed parses to the same message, and printing that changes nothing more. */
  lemma {:induction false} Reencoding(ord: Order, s: Schema, x: bytes)
    requires ValidOrder(ord) && WFSchema(s) && Parse(s, EMPTY, x).Done?
    requires |Encode(ord, s, Parse(s, EMPTY, x).m)| <= MAX_SIZE
    ensures var m := Parse(s, EMPTY, x).m;
            var y := Encode(ord, s, m);
            Parse(s, EMPTY, y) == Done(m) && Encode(ord, s, Parse(s, EMPTY, y).m) == y
  {
    hide Parse, Encode, WF, WFSchema;
    EmptyLegal(s);
    ParseLegal(s, EMPTY, x);
    RoundTrips(ord, s, Parse(s, EMPTY, x).m);
  }

  /** One hop: parse, then print. */
  function Hop(ord: Order, s: Schema, x: bytes): bytes
  {
    match Parse(s, EMPTY, x)
    case Done(m) => Encode(ord, s, m)
    case _ => []
  }

  function Hops(ord: Order, s: Schema, x: bytes, n: nat): bytes
    decreases n
  {
    if n == 0 then x else Hops(ord, s, Hop(ord, s, x), n - 1)
  }

  lemma {:induction false} KnownFirst(ord: Order, s: Schema, m: Msg)
    requires ValidOrder(ord) && WFSchema(s) && WF(s, m) && |Encode(ord, s, m)| <= MAX_SIZE
    ensures Frame(Encode(ord, s, m)) == Some(RecordsFrom(ord, s, m, 0) + m.unknown)
    ensures Select(s, RecordsFrom(ord, s, m, 0) + m.unknown, UnknownKey) == m.unknown
  {
    hide WFSchema, RecordsFrom, Select, EncodeRecords, WFRecord, Frame;
    var known := RecordsFrom(ord, s, m, 0);
    RecordsLegal(ord, s, m);
    FrameRecords(Records(ord, s, m));
    EncodeRecordsConcat(known, m.unknown);
    FieldRecordsKinds(ord, s, m, 0);
    SelectConcat(s, known, m.unknown, UnknownKey);
    SelectNone(s, known, UnknownKey);
    SelectAll(s, m.unknown);
  }

  lemma {:induction false} SelectAll(s: Schema, rs: seq<Record>)
    requires forall r | r in rs :: !Known(s, r)
    ensures Select(s, rs, UnknownKey) == rs
    decreases |rs|
  {
    if rs != [] { SelectAll(s, rs[1..]); }
  }

  /** Unknown records survive any number of hops, in order, and are printed after all known fields. */
  lemma {:induction false} UnknownSurvives(ord: Order, s: Schema, x: bytes, n: nat)
    requires ValidOrder(ord) && WFSchema(s) && Parse(s, EMPTY, x).Done? && n >= 1
    requires |Hop(ord, s, x)| <= MAX_SIZE
    ensures Parse(s, EMPTY, Hops(ord, s, x, n)) == Parse(s, EMPTY, x)
    ensures Frame(x).Some? && Frame(Hops(ord, s, x, n)).Some?
    ensures var kept := Select(s, Frame(x).value, UnknownKey);
            var out := Frame(Hops(ord, s, x, n)).value;
            Select(s, out, UnknownKey) == kept && |kept| <= |out| && out[|out| - |kept|..] == kept
    decreases n
  {
    hide Parse, Encode, Fold, WF, WFSchema, Frame, Select, RecordsFrom;
    var m := Parse(s, EMPTY, x).m;
    var y := Hop(ord, s, x);
    Reencoding(ord, s, x);
    if n == 1 {
      assert Hops(ord, s, x, 1) == Hops(ord, s, y, 0) == y;
      EmptyLegal(s);
      ParseLegal(s, EMPTY, x);
      KnownFirst(ord, s, m);
      ParseIsFold(s, EMPTY, x);
      NothingDropped(s, EMPTY, Frame(x).value);
      assert [] + Select(s, Frame(x).value, UnknownKey) == Select(s, Frame(x).value, UnknownKey);
    } else {
      assert Hop(ord, s, y) == y;
      UnknownSurvives(ord, s, y, n - 1);
      UnknownSurvives(ord, s, x, 1);
      assert Hops(ord, s, x, 1) == Hops(ord, s, y, 0) == y;
    }
  }

  // ---------------------------------------------------------------- sizes

  /** No map, int32 or enum field anywhere: the kinds whose printed form can be longer than what was read. */
  ghost predicate Compact(s: Schema)
  {
    forall k | k in s.fields :: CompactField(s.fields[k])
  }

  ghost predicate CompactField(f: Field)
  {
    match f.kind
    case Sub(cs) => Compact(cs)
    case Rep(cs) => Compact(cs)
    case Dict => false
    case I32 => false
    case Enum => false
    case _ => true
  }

  function SlotSize(ord: Order, s: Schema, m: Msg, k: nat): nat
  {
    if k in s.fields && k in m.fields then |EncodeRecords(FieldRecords(ord, k, s.fields[k], m.fields[k]))| else 0
  }

  function SizeFrom(ord: Order, s: Schema, m: Msg, k: nat): nat
  {
    |EncodeRecords(RecordsFrom(ord, s, m, k))|
  }

  lemma SizeStep(ord: Order, s: Schema, m: Msg, k: nat)
    requires k <= s.max
    ensures SizeFrom(ord, s, m, k) == SlotSize(ord, s, m, k) + SizeFrom(ord, s, m, k + 1)
  {
    hide FieldRecords;
    var head := if k in s.fields && k in m.fields then FieldRecords(ord, k, s.fields[k], m.fields[k]) else [];
    EncodeRecordsConcat(head, RecordsFrom(ord, s, m, k + 1));
    assert EncodeRecords([]) == [];
  }

  lemma EncodeSize(ord: Order, s: Schema, m: Msg)
    ensures |Encode(ord, s, m)| == SizeFrom(ord, s, m, 0) + |EncodeRecords(m.unknown)|
  {
    hide RecordsFrom, EncodeRecords;
    EncodeRecordsConcat(RecordsFrom(ord, s, m, 0), m.unknown);
  }

  /** Changing one field by at most `d` bytes, others kept or dropped, changes the total by at most `d`. */
  lemma {:induction false} SizeBump(ord: Order, s: Schema, m: Msg, m': Msg, j: nat, d: nat, k: nat)
    requires SlotSize(ord, s, m', j) <= SlotSize(ord, s, m, j) + d
    requires forall i | i != j :: SlotSize(ord, s, m', i) <= SlotSize(ord, s, m, i)
    requires k <= s.max + 1
    ensures SizeFrom(ord, s, m', k) <= SizeFrom(ord, s, m, k) + (if k <= j then d else 0)
    decreases s.max + 1 - k
  {
    hide SlotSize;
    if k <= s.max {
      SizeStep(ord, s, m, k);
      SizeStep(ord, s, m', k);
      SizeBump(ord, s, m, m', j, d, k + 1);
    }
  }

  lemma {:induction false} ManyConcat(ord: Order, k: nat, cs: Schema, a: seq<Msg>, b: seq<Msg>)
    ensures ManyRecords(ord, k, cs, a + b) == ManyRecords(ord, k, cs, a) + ManyRecords(ord, k, cs, b)
    decreases |a|
  {
    hide Encode;
    if a == [] {
      assert a + b == b;
    } else {
      assert (a + b)[1..] == a[1..] + b;
      ManyConcat(ord, k, cs, a[1..], b);
    }
  }

  lemma OneRecord(r: Record)
    ensures EncodeRecords([r]) == EncodeRecord(r)
  {
    hide EncodeRecord;
    assert [r][1..] == [];
  }

  /** A longer payload gives a record at least as long. */
  lemma LenRecordMonotone(k: nat, a: bytes, b: bytes)
    requires |a| <= |b|
    ensures |EncodeRecord(Record(k, LenP(a)))| <= |EncodeRecord(Record(k, LenP(b)))|
  {
    hide Varint;
    VarintMonotone(|a|, |b|);
  }

  /** One record holding both payloads is no longer than the two records. */
  lemma LenRecordMerged(k: nat, a: bytes, b: bytes, c: bytes)
    requires |c| <= |a| + |b|
    ensures |EncodeRecord(Record(k, LenP(c)))| <=
            |EncodeRecord(Record(k, LenP(a)))| + |EncodeRecord(Record(k, LenP(b)))|
  {
    hide Varint;
    VarintMonotone(|c|, |a| + |b|);
    VarintSubadditive(|a|, |b|);
  }

  function OptSize(ord: Order, k: nat, f: Field, v: Option<Value>): nat
  {
    if v.None? then 0 else |EncodeRecords(FieldRecords(ord, k, f, v.value))|
  }

  lemma NormSmaller(kind: Kind, v: nat)
    requires !kind.I32? && !kind.Enum?
    ensures Norm(kind, v) <= v
  {
  }

  lemma ScalarSize(ord: Order, k: nat, f: Field, p: Payload, v: Option<Value>)
    requires CompactField(f) && WireType(p) == WireOf(f.kind) && !f.kind.Sub? && !f.kind.Rep?
    requires Update(f, p, v).Some?
    ensures OptSize(ord, k, f, Update(f, p, v).value) <= |EncodeRecord(Record(k, p))|
  {
    hide ValidUtf8, Varint, EncodeRecords;
    var n := Norm(f.kind, PayloadNum(p));
    OneRecord(Record(k, LenP(PayloadBytes(p))));
    OneRecord(Record(k, if f.kind.Double? then Fixed64P(n) else VarintP(n)));
    NormSmaller(f.kind, PayloadNum(p));
    VarintMonotone(n, PayloadNum(p));
  }

  lemma {:induction false} UpdateSize(ord: Order, k: nat, f: Field, p: Payload, v: Option<Value>)
    requires CompactField(f) && WireType(p) == WireOf(f.kind) && Update(f, p, v).Some?
    ensures OptSize(ord, k, f, Update(f, p, v).value) <= OptSize(ord, k, f, v) + |EncodeRecord(Record(k, p))|
    decreases f, 0
  {
    hide EncodeRecord, Encode, EncodeRecords, Parse;
    match f.kind {
      case Sub(cs) =>
        assert p.LenP?;
        SubSize(ord, k, f, cs, p.b, v);
      case Rep(cs) =>
        assert p.LenP?;
        RepSize(ord, k, f, cs, p.b, v);
      case _ =>
        ScalarSize(ord, k, f, p, v);
    }
  }

  lemma SubSize(ord: Order, k: nat, f: Field, cs: Schema, b: bytes, v: Option<Value>)
    requires f.kind == Sub(cs) && Compact(cs) && Parse(cs, MsgOf(v), b).Done?
    ensures OptSize(ord, k, f, Some(SubV(Parse(cs, MsgOf(v), b).m))) <=
            OptSize(ord, k, f, v) + |EncodeRecord(Record(k, LenP(b)))|
    decreases cs, 2
  {
    hide EncodeRecord, Encode, EncodeRecords, Parse, Compact;
    var c := Parse(cs, MsgOf(v), b).m;
    NeverGrows(ord, cs, MsgOf(v), b);
    OneRecord(Record(k, LenP(Encode(ord, cs, c))));
    OneRecord(Record(k, LenP(Encode(ord, cs, MsgOf(v)))));
    if v.Some? && v.value.SubV? {
      LenRecordMerged(k, Encode(ord, cs, MsgOf(v)), b, Encode(ord, cs, c));
    } else {
      EmptySize(ord, cs);
      LenRecordMonotone(k, Encode(ord, cs, c), b);
    }
  }

  lemma RepSize(ord: Order, k: nat, f: Field, cs: Schema, b: bytes, v: Option<Value>)
    requires f.kind == Rep(cs) && Compact(cs) && Parse(cs, EMPTY, b).Done?
    ensures OptSize(ord, k, f, Some(Many(ManyOf(v) + [Parse(cs, EMPTY, b).m]))) <=
            OptSize(ord, k, f, v) + |EncodeRecord(Record(k, LenP(b)))|
    decreases cs, 2
  {
    hide EncodeRecord, Encode, EncodeRecords, Parse, Compact, ManyRecords;
    var c := Parse(cs, EMPTY, b).m;
    NeverGrows(ord, cs, EMPTY, b);
    EmptySize(ord, cs);
    LenRecordMonotone(k, Encode(ord, cs, c), b);
    ManyConcat(ord, k, cs, ManyOf(v), [c]);
    ManyOne(ord, k, cs, c);
    OneRecord(Record(k, LenP(Encode(ord, cs, c))));
    EncodeRecordsConcat(ManyRecords(ord, k, cs, ManyOf(v)), ManyRecords(ord, k, cs, [c]));
    if !(v.Some? && v.value.Many?) { ManyNone(ord, k, cs); }
  }

  lemma ManyOne(ord: Order, k: nat, cs: Schema, c: Msg)
    ensures ManyRecords(ord, k, cs, [c]) == [Record(k, LenP(Encode(ord, cs, c)))]
  {
    hide Encode;
    assert [c][1..] == [];
  }

  lemma ManyNone(ord: Order, k: nat, cs: Schema)
    ensures EncodeRecords(ManyRecords(ord, k, cs, [])) == []
  {
  }

  lemma {:induction false} EmptyFrom(ord: Order, s: Schema, k: nat)
    ensures RecordsFrom(ord, s, EMPTY, k) == []
    decreases if k <= s.max then s.max - k + 1 else 0
  {
    hide FieldRecords;
    if k <= s.max { EmptyFrom(ord, s, k + 1); }
  }

  lemma EmptySize(ord: Order, s: Schema)
    ensures Encode(ord, s, EMPTY) == []
  {
    hide RecordsFrom;
    EmptyFrom(ord, s, 0);
  }

  lemma ApplySize(ord: Order, s: Schema, m: Msg, r: Record)
    requires Compact(s) && Apply(s, m, r).Some?
    ensures |Encode(ord, s, Apply(s, m, r).value)| <= |Encode(ord, s, m)| + |EncodeRecord(r)|
    decreases s, 0
  {
    hide EncodeRecord, Encode, EncodeRecords, Update, PutSlot, FieldRecords, CompactField;
    var m' := Apply(s, m, r).value;
    EncodeSize(ord, s, m);
    EncodeSize(ord, s, m');
    if Known(s, r) {
      var f := s.fields[r.num];
      var v := Update(f, r.payload, Slot(m, r.num)).value;
      UpdateSize(ord, r.num, f, r.payload, Slot(m, r.num));
      PutSlots(s, m, r.num, v, r.num);
      forall i | i != r.num
        ensures SlotSize(ord, s, m', i) <= SlotSize(ord, s, m, i)
      {
        PutSlots(s, m, r.num, v, i);
      }
      SizeBump(ord, s, m, m', r.num, |EncodeRecord(r)|, 0);
    } else {
      EncodeRecordsConcat(m.unknown, [r]);
      OneRecord(r);
      SameFieldsSize(ord, s, m, m', 0);
    }
  }

  lemma {:induction false} SameFieldsSize(ord: Order, s: Schema, m: Msg, m': Msg, k: nat)
    requires m.fields == m'.fields
    ensures RecordsFrom(ord, s, m, k) == RecordsFrom(ord, s, m', k)
    decreases if k <= s.max then s.max - k + 1 else 0
  {
    hide FieldRecords;
    if k <= s.max { SameFieldsSize(ord, s, m, m', k + 1); }
  }

  /**
    For a compact class, printing the result of parsing takes at most as many bytes as printing the
    message parsed onto plus the input: over-long varints, repeats and truncated values only shrink.
   */
  lemma {:induction false} NeverGrows(ord: Order, s: Schema, m: Msg, b: bytes)
    requires Compact(s) && Parse(s, m, b).Done?
    ensures |Encode(ord, s, Parse(s, m, b).m)| <= |Encode(ord, s, m)| + |b|
    decreases s, 1, |b|
  {
    hide Apply, ReadRecord, EncodeRecord, Encode, Compact;
    if b != [] {
      var Item(r, n) := ReadRecord(b);
      ReadRecordSound(b);
      ApplySize(ord, s, m, r);
      NeverGrows(ord, s, Apply(s, m, r).value, b[n..]);
    }
  }

  // ---------------------------------------------------------------- the kinds that can grow

  lemma {:induction false} SingleField(ord: Order, s: Schema, k: nat, v: Value, j: nat)
    requires k in s.fields && k <= s.max
    ensures RecordsFrom(ord, s, Msg(map[k := v], []), j) == if j <= k then FieldRecords(ord, k, s.fields[k], v) else []
    decreases if j <= s.max then s.max - j + 1 else 0
  {
    hide FieldRecords;
    if j <= s.max { SingleField(ord, s, k, v, j + 1); }
  }

  lemma ParseOne(s: Schema, r: Record)
    requires WFRecord(r)
    ensures Parse(s, EMPTY, EncodeRecord(r)) ==
            match Apply(s, EMPTY, r) case None => Failed case Some(m) => Done(m)
  {
    hide Apply, WFRecord, EncodeRecord;
    ParseRecords(s, EMPTY, [r], []);
    OneRecord(r);
    FoldOne(s, EMPTY, r);
    assert EncodeRecord(r) + [] == EncodeRecord(r);
  }

  lemma PutOnEmpty(s: Schema, k: nat, v: Value)
    ensures PutSlot(s, EMPTY, k, Some(v)) == Msg(map[k := v], [])
  {
    SameSlots(PutSlot(s, EMPTY, k, Some(v)), Msg(map[k := v], []));
  }

  lemma WideVarints()
    ensures |Varint(0xFFFF_FFFF)| == 5 && |Varint(0xFFFF_FFFF_FFFF_FFFF)| == 10
  {
    assert |Varint(0xFFFF_FFFF)| == 5 by {
      assert |Varint(0x3FFF)| == 2;
      assert |Varint(0x1F_FFFF)| == 3;
      assert |Varint(0xFFF_FFFF)| == 4;
      assert |Varint(0xF)| == 1;
      assert |Varint(0x7FF)| == 2;
      assert |Varint(0x3_FFFF)| == 3;
      assert |Varint(0x1FF_FFFF)| == 4;
    }
    assert |Varint(0xFFFF_FFFF_FFFF_FFFF)| == 10 by {
      assert |Varint(1)| == 1;
      assert |Varint(0xFF)| == 2;
      assert |Varint(0x7FFF)| == 3;
      assert |Varint(0x3F_FFFF)| == 4;
      assert |Varint(0x1FFF_FFFF)| == 5;
      assert |Varint(0xF_FFFF_FFFF)| == 6;
      assert |Varint(0x7FF_FFFF_FFFF)| == 7;
      assert |Varint(0x3_FFFF_FFFF_FFFF)| == 8;
      assert |Varint(0x1FF_FFFF_FFFF_FFFF)| == 9;
    }
  }

  /** The record that makes a field of a non-compact kind grow: 2^32 - 1, or an entry with neither key nor value. */
  function GrowingRecord(s: Schema, k: nat): Record
    requires k in s.fields
  {
    Record(k, if s.fields[k].kind.Dict? then LenP([]) else VarintP(0xFFFF_FFFF))
  }

  function GrownValue(kind: Kind): Value
  {
    if kind.Dict? then Table(map[[] := []]) else Num(0xFFFF_FFFF_FFFF_FFFF)
  }

  lemma GrowingApply(s: Schema, k: nat)
    requires WFSchema(s) && k in s.fields
    requires s.fields[k].kind.Dict? || s.fields[k].kind.I32? || s.fields[k].kind.Enum?
    ensures WFRecord(GrowingRecord(s, k))
    ensures Apply(s, EMPTY, GrowingRecord(s, k)) == Some(Msg(map[k := GrownValue(s.fields[k].kind)], []))
  {
    hide PutSlot, WFField;
    var f := s.fields[k];
    PutOnEmpty(s, k, GrownValue(f.kind));
    if f.kind.Dict? {
      assert ParseEntry([], [], []) == Entry([], []);
    } else {
      assert SignExtend(0xFFFF_FFFF) == 0xFFFF_FFFF_FFFF_FFFF;
    }
  }

  lemma GrownSize(ord: Order, k: nat, f: Field)
    requires ValidOrder(ord)
    requires f.kind.Dict? || f.kind.I32? || f.kind.Enum?
    ensures var r := Record(k, if f.kind.Dict? then LenP([]) else VarintP(0xFFFF_FFFF));
            |EncodeRecords(FieldRecords(ord, k, f, GrownValue(f.kind)))| > |EncodeRecord(r)|
  {
    hide Varint;
    if f.kind.Dict? {
      GrownEntry(ord, k, f);
    } else {
      WideVarints();
      OneRecord(Record(k, VarintP(0xFFFF_FFFF_FFFF_FFFF)));
    }
  }

  lemma GrownEntry(ord: Order, k: nat, f: Field)
    requires ValidOrder(ord)
    ensures |EncodeRecords(FieldRecords(ord, k, f, Table(map[[] := []])))| > |EncodeRecord(Record(k, LenP([])))|
  {
    hide Varint, EncodeRecords, EncodeEntry;
    var t: map<bytes, bytes> := map[[] := []];
    var keys := ord(t);
    assert Enumerates(keys, t);
    assert [] in keys;
    var i :| 0 <= i < |keys| && keys[i] == [];
    var rs := FieldRecords(ord, k, f, Table(t));
    assert rs[i] == Record(k, LenP(EncodeEntry([], [])));
    MemberSize(rs, i);
    assert |EncodeEntry([], [])| > 0 by { EmptyEntry(); }
    VarintMonotone(0, |EncodeEntry([], [])|);
  }

  lemma EmptyEntry()
    ensures |EncodeEntry([], [])| > 0
  {
  }

  lemma {:induction false} MemberSize(rs: seq<Record>, i: nat)
    requires i < |rs|
    ensures |EncodeRecord(rs[i])| <= |EncodeRecords(rs)|
    decreases i
  {
    hide EncodeRecord;
    if i > 0 { MemberSize(rs[1..], i - 1); }
  }

  /** A class with a map, int32 or enum field accepts an input that its own printer makes longer. */
  lemma {:induction false} GrowsHere(ord: Order, s: Schema, k: nat) returns (x: bytes)
    requires ValidOrder(ord) && WFSchema(s) && k in s.fields
    requires s.fields[k].kind.Dict? || s.fields[k].kind.I32? || s.fields[k].kind.Enum?
    ensures |x| <= 10 && Parse(s, EMPTY, x).Done? && |Encode(ord, s, Parse(s, EMPTY, x).m)| > |x|
  {
    hide Parse, Apply, RecordsFrom, FieldRecords, EncodeRecord, EncodeRecords, WFRecord, WFField;
    var r := GrowingRecord(s, k);
    var v := GrownValue(s.fields[k].kind);
    x := EncodeRecord(r);
    GrowingApply(s, k);
    ParseOne(s, r);
    GrownSize(ord, k, s.fields[k]);
    EncodeSize(ord, s, Msg(map[k := v], []));
    SingleField(ord, s, k, v, 0);
    SmallRecord(s, k);
  }

  lemma SmallRecord(s: Schema, k: nat)
    requires k in s.fields && k < 0x2000_0000
    ensures |EncodeRecord(GrowingRecord(s, k))| <= 10
  {
    hide Varint;
    VarintFits32(8 * k);
    VarintFits32(8 * k + 2);
    VarintFits32(0xFFFF_FFFF);
    VarintFits32(0);
  }

  // ---------------------------------------------------------------- nested classes that can grow

  lemma WrapperSize(k: nat, b: bytes)
    requires k < 0x2000_0000 && |b| <= MAX_SIZE
    ensures |EncodeRecord(Record(k, LenP(b)))| <= |b| + 10
  {
    hide Varint;
    VarintFits32(8 * k + 2);
    VarintFits32(|b|);
  }

  lemma LongerContent(k: nat, a: bytes, b: bytes)
    requires |a| < |b|
    ensures |EncodeRecord(Record(k, LenP(a)))| < |EncodeRecord(Record(k, LenP(b)))|
  {
    hide Varint;
    VarintMonotone(|a|, |b|);
  }

  /** What a field of message type `cs` holds after one record, sent to an empty message. */
  function WrappedValue(f: Field, c: Msg): Value
  {
    if f.kind.Sub? then SubV(c) else Many([c])
  }

  lemma WrappedApply(s: Schema, k: nat, cs: Schema, b: bytes)
    requires k in s.fields && (s.fields[k].kind == Sub(cs) || s.fields[k].kind == Rep(cs)) && Parse(cs, EMPTY, b).Done?
    ensures Apply(s, EMPTY, Record(k, LenP(b))) ==
            Some(Msg(map[k := WrappedValue(s.fields[k], Parse(cs, EMPTY, b).m)], []))
  {
    hide Parse, PutSlot;
    var c := Parse(cs, EMPTY, b).m;
    assert Slot(EMPTY, k) == None;
    assert [] + [c] == [c];
    PutOnEmpty(s, k, WrappedValue(s.fields[k], c));
  }

  lemma WrappedPrint(ord: Order, s: Schema, k: nat, cs: Schema, c: Msg)
    requires k in s.fields && k <= s.max && (s.fields[k].kind == Sub(cs) || s.fields[k].kind == Rep(cs))
    ensures Encode(ord, s, Msg(map[k := WrappedValue(s.fields[k], c)], [])) ==
            EncodeRecord(Record(k, LenP(Encode(ord, cs, c))))
  {
    hide EncodeRecord, EncodeRecords, RecordsFrom, ManyRecords;
    var v := WrappedValue(s.fields[k], c);
    var r := Record(k, LenP(Encode(ord, cs, c)));
    SingleField(ord, s, k, v, 0);
    ManyOne(ord, k, cs, c);
    assert FieldRecords(ord, k, s.fields[k], v) == [r];
    OneRecord(r);
    assert [r] + [] == [r];
  }

  /** A growing input of a nested class, sent as one record, is a growing input of the outer class. */
  lemma {:induction false} GrowsOutside(ord: Order, s: Schema, k: nat, cs: Schema, b: bytes) returns (x: bytes)
    requires WFSchema(s) && k in s.fields && (s.fields[k].kind == Sub(cs) || s.fields[k].kind == Rep(cs))
    requires |b| <= MAX_SIZE && Parse(cs, EMPTY, b).Done? && |Encode(ord, cs, Parse(cs, EMPTY, b).m)| > |b|
    ensures |x| <= |b| + 10 && Parse(s, EMPTY, x).Done? && |Encode(ord, s, Parse(s, EMPTY, x).m)| > |x|
  {
    hide Parse, Apply, Encode, EncodeRecord, WFField;
    var c := Parse(cs, EMPTY, b).m;
    x := EncodeRecord(Record(k, LenP(b)));
    WrappedApply(s, k, cs, b);
    ParseOne(s, Record(k, LenP(b)));
    WrappedPrint(ord, s, k, cs, c);
    LongerContent(k, b, Encode(ord, cs, c));
    WrapperSize(k, b);
  }

  /** A map, int32 or enum field at most `d` classes deep. */
  ghost predicate GrowsWithin(s: Schema, d: nat)
    decreases d, 1
  {
    exists k | k in s.fields :: GrowingField(s.fields[k], d)
  }

  ghost predicate GrowingField(f: Field, d: nat)
    decreases d, 0
  {
    match f.kind
    case Sub(cs) => d > 0 && GrowsWithin(cs, d - 1)
    case Rep(cs) => d > 0 && GrowsWithin(cs, d - 1)
    case Dict => true
    case I32 => true
    case Enum => true
    case _ => false
  }

  /** Nesting at most `d` classes deep. */
  ghost predicate Shallow(s: Schema, d: nat)
    decreases d, 1
  {
    forall k | k in s.fields :: ShallowField(s.fields[k], d)
  }

  ghost predicate ShallowField(f: Field, d: nat)
    decreases d, 0
  {
    match f.kind
    case Sub(cs) => d > 0 && Shallow(cs, d - 1)
    case Rep(cs) => d > 0 && Shallow(cs, d - 1)
    case _ => true
  }

  lemma {:induction false} CompactExactly(s: Schema, d: nat)
    requires Shallow(s, d)
    ensures GrowsWithin(s, d) <==> !Compact(s)
    decreases d
  {
    forall k | k in s.fields
      ensures GrowingField(s.fields[k], d) <==> !CompactField(s.fields[k])
    {
      assert ShallowField(s.fields[k], d);
      match s.fields[k].kind {
        case Sub(cs) => CompactExactly(cs, d - 1);
        case Rep(cs) => CompactExactly(cs, d - 1);
        case _ =>
      }
    }
  }

  /** A class with such a field, however deep, accepts an input that its printer makes longer. */
  lemma {:induction false} Grows(ord: Order, s: Schema, d: nat) returns (x: bytes)
    requires ValidOrder(ord) && WFSchema(s) && GrowsWithin(s, d) && 10 * d + 10 <= MAX_SIZE
    ensures |x| <= 10 * d + 10 && Parse(s, EMPTY, x).Done? && |Encode(ord, s, Parse(s, EMPTY, x).m)| > |x|
    decreases d
  {
    hide Parse, Encode;
    var k :| k in s.fields && GrowingField(s.fields[k], d);
    assert WFField(s.fields[k]);
    match s.fields[k].kind {
      case Sub(cs) =>
        x := Grows(ord, cs, d - 1);
        x := GrowsOutside(ord, s, k, cs, x);
      case Rep(cs) =>
        x := Grows(ord, cs, d - 1);
        x := GrowsOutside(ord, s, k, cs, x);
      case _ =>
        x := GrowsHere(ord, s, k);
    }
  }

  /** No accepted input becomes longer when it is printed again. */
  ghost predicate NeverLonger(ord: Order, s: Schema)
  {
    forall x | Parse(s, EMPTY, x).Done? :: |Encode(ord, s, Parse(s, EMPTY, x).m)| <= |x|
  }

  lemma CompactNeverLonger(ord: Order, s: Schema)
    requires Compact(s)
    ensures NeverLonger(ord, s)
  {
    hide Parse, Encode, Compact;
    forall x | Parse(s, EMPTY, x).Done?
      ensures |Encode(ord, s, Parse(s, EMPTY, x).m)| <= |x|
    {
      NeverGrows(ord, s, EMPTY, x);
      EmptySize(ord, s);
    }
  }

  lemma GrowingIsLonger(ord: Order, s: Schema, d: nat)
    requires ValidOrder(ord) && WFSchema(s) && GrowsWithin(s, d) && 10 * d + 10 <= MAX_SIZE
    ensures !NeverLonger(ord, s)
  {
    hide Parse, Encode, GrowsWithin, WFSchema;
    var x := Grows(ord, s, d);
  }

  /** Re-encoding never takes more bytes exactly for the compact classes. */
  lemma {:induction false} NeverLongerExactly(ord: Order, s: Schema, d: nat)
    requires ValidOrder(ord) && WFSchema(s) && Shallow(s, d) && 10 * d + 10 <= MAX_SIZE
    ensures NeverLonger(ord, s) <==> Compact(s)
  {
    hide NeverLonger, Compact, Shallow, GrowsWithin, WFSchema;
    if Compact(s) {
      CompactNeverLonger(ord, s);
    } else {
      CompactExactly(s, d);
      GrowingIsLonger(ord, s, d);
    }
  }
}
