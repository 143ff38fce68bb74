/**
  The classes that are given as field tables only, one literal tag at a time: what each case of their
  switches leaves in the message, and that everything else is kept as unknown.
 */
module Tables {
  import opened Options
  import opened Wire
  import opened Utf8
  import opened Message
  import opened RoundTrip
  import opened Literals
  import opened Schemas

  // ---------------------------------------------------------------- one record in front

  /** The message with `v` in field `k` and every other field as it was. */
  function With(m: Msg, k: nat, v: Option<Value>): Msg
  {
    Msg(if v.Some? then m.fields[k := v.value] else m.fields - {k}, m.unknown)
  }

  lemma PutIsWith(s: Schema, m: Msg, k: nat, v: Option<Value>)
    requires !OneofAt(s, k)
    ensures PutSlot(s, m, k, v) == With(m, k, v)
  {
    SameSlots(PutSlot(s, m, k, v), With(m, k, v));
  }

  lemma OneRecord(s: Schema, m: Msg, r: Record, t: bytes)
    requires WFRecord(r)
    ensures Parse(s, m, EncodeRecord(r) + t) ==
            match Apply(s, m, r) case None => Failed case Some(m') => Parse(s, m', t)
  {
    hide Apply, Parse, EncodeRecord, WFRecord;
    ParseRecords(s, m, [r], t);
    FoldOne(s, m, r);
    Single(r);
  }

  /** A field outside a oneof: its record updates it, or the parse fails. */
  lemma OneField(s: Schema, m: Msg, k: nat, p: Payload, t: bytes)
    requires WFRecord(Record(k, p)) && k in s.fields && !s.fields[k].oneof && WireType(p) == WireOf(s.fields[k].kind)
    ensures Parse(s, m, EncodeRecord(Record(k, p)) + t) ==
            match Update(s.fields[k], p, Slot(m, k)) case None => Failed case Some(v) => Parse(s, With(m, k, v), t)
  {
    hide Parse, Update, PutSlot, EncodeRecord;
    OneRecord(s, m, Record(k, p), t);
    var u := Update(s.fields[k], p, Slot(m, k));
    if u.Some? { PutIsWith(s, m, k, u.value); }
  }

  /** Records no case takes are kept. */
  lemma Kept(s: Schema, m: Msg, r: Record, t: bytes)
    requires WFRecord(r) && !Known(s, r)
    ensures Parse(s, m, EncodeRecord(r) + t) == Parse(s, m.(unknown := m.unknown + [r]), t)
  {
    hide Parse, EncodeRecord;
    OneRecord(s, m, r, t);
  }

  function Content(k: nat, x: bytes): bytes
    requires 1 <= k <= 15
  {
    [8 * k + 2] + (Varint(|x|) + x)
  }

  lemma ContentRecord(k: nat, x: bytes)
    requires 1 <= k <= 15
    ensures EncodeRecord(Record(k, LenP(x))) == Content(k, x)
  {
    hide EncodeRecord, Varint;
    RecordBytes(Record(k, LenP(x)));
    SmallVarint(8 * k + 2);
  }

  function Number(k: nat, v: nat): bytes
    requires 1 <= k <= 15
  {
    [8 * k] + Varint(v)
  }

  lemma NumberRecord(k: nat, v: nat)
    requires 1 <= k <= 15
    ensures EncodeRecord(Record(k, VarintP(v))) == Number(k, v)
  {
    hide EncodeRecord, Varint;
    RecordBytes(Record(k, VarintP(v)));
    SmallVarint(8 * k);
  }

  function Texted(x: bytes): Option<Value> { if x == [] then None else Some(Str(x)) }

  function Numbered(n: nat): Option<Value> { if n == 0 then None else Some(Num(n)) }

  /** The 64-bit pattern of the signed value of the low 32 bits. */
  function Signed32(v: nat): nat
  {
    var w := v % 0x1_0000_0000;
    if w < 0x8000_0000 then w else w + 0xFFFF_FFFF_0000_0000
  }

  lemma TextField(s: Schema, m: Msg, k: nat, x: bytes, t: bytes)
    requires 1 <= k <= 15 && k in s.fields && s.fields[k] == Plain(Text) && |x| <= MAX_SIZE
    ensures Parse(s, m, Content(k, x) + t) == if ValidUtf8(x) then Parse(s, With(m, k, Texted(x)), t) else Failed
  {
    hide Parse, EncodeRecord, Content, ValidUtf8, With;
    OneField(s, m, k, LenP(x), t);
    ContentRecord(k, x);
  }

  lemma NumberField(s: Schema, m: Msg, k: nat, v: nat, t: bytes)
    requires 1 <= k <= 15 && k in s.fields && v < TWO64
    requires s.fields[k] in {Plain(U32), Plain(U64), Plain(I32), Plain(I64), Plain(Enum)}
    ensures Parse(s, m, Number(k, v) + t) ==
            Parse(s, With(m, k, Numbered(match s.fields[k].kind
                                         case U32 => v % 0x1_0000_0000
                                         case I32 => Signed32(v)
                                         case Enum => Signed32(v)
                                         case _ => v)), t)
  {
    hide Parse, EncodeRecord, Number, With;
    OneField(s, m, k, VarintP(v), t);
    NumberRecord(k, v);
  }

  lemma SubField(s: Schema, m: Msg, k: nat, cs: Schema, x: bytes, t: bytes)
    requires 1 <= k <= 15 && k in s.fields && s.fields[k] == Optional(Sub(cs)) && |x| <= MAX_SIZE
    ensures var c := Parse(cs, MsgOf(Slot(m, k)), x);
            Parse(s, m, Content(k, x) + t) == if c.Done? then Parse(s, With(m, k, Some(SubV(c.m))), t) else Failed
  {
    hide Parse, EncodeRecord, Content, With;
    OneField(s, m, k, LenP(x), t);
    ContentRecord(k, x);
  }

  lemma RepField(s: Schema, m: Msg, k: nat, cs: Schema, x: bytes, t: bytes)
    requires 1 <= k <= 15 && k in s.fields && s.fields[k] == Plain(Rep(cs)) && |x| <= MAX_SIZE
    ensures var c := Parse(cs, EMPTY, x);
            Parse(s, m, Content(k, x) + t) ==
            if c.Done? then Parse(s, With(m, k, Some(Many(ManyOf(Slot(m, k)) + [c.m]))), t) else Failed
  {
    hide Parse, EncodeRecord, Content, With;
    OneField(s, m, k, LenP(x), t);
    ContentRecord(k, x);
  }

  lemma EntryField(s: Schema, m: Msg, k: nat, key: bytes, value: bytes, t: bytes)
    requires 1 <= k <= 15 && k in s.fields && s.fields[k] == Plain(Dict) && ValidUtf8(key) && ValidUtf8(value)
    requires |EntryText(key, value)| <= MAX_SIZE
    ensures Parse(s, m, Content(k, EntryText(key, value)) + t) ==
            Parse(s, With(m, k, Some(Table(TableOf(Slot(m, k))[key := value]))), t)
  {
    hide Parse, ParseEntry, EncodeEntry, EntryText, EncodeRecord, Content, With, ValidUtf8;
    OneField(s, m, k, LenP(EntryText(key, value)), t);
    ContentRecord(k, EntryText(key, value));
    EntryIsText(key, value);
    EntryRoundTrip(key, value);
  }

  // ---------------------------------------------------------------- MetricDefinition

  lemma DefinitionFields()
    ensures METRIC_DEFINITION.fields.Keys == {1, 2, 3, 4, 5, 6, 7, 8, 9}
    ensures forall k | k in {1, 2, 3, 4, 7, 8, 9} :: METRIC_DEFINITION.fields[k] == Plain(Text)
    ensures METRIC_DEFINITION.fields[5] == METRIC_DEFINITION.fields[6] == Plain(Enum)
  {
  }

  /** metric_id, display_name, unit, scope, denominator, category and description, by their tags. */
  lemma {:induction false} DefinitionTexts(m: Msg, x: bytes, t: bytes)
    requires ValidUtf8(x) && |x| <= MAX_SIZE
    ensures Parse(METRIC_DEFINITION, m, [10] + (Varint(|x|) + x) + t) ==
            Parse(METRIC_DEFINITION, With(m, 1, Texted(x)), t)
    ensures Parse(METRIC_DEFINITION, m, [18] + (Varint(|x|) + x) + t) ==
            Parse(METRIC_DEFINITION, With(m, 2, Texted(x)), t)
    ensures Parse(METRIC_DEFINITION, m, [26] + (Varint(|x|) + x) + t) ==
            Parse(METRIC_DEFINITION, With(m, 3, Texted(x)), t)
    ensures Parse(METRIC_DEFINITION, m, [34] + (Varint(|x|) + x) + t) ==
            Parse(METRIC_DEFINITION, With(m, 4, Texted(x)), t)
    ensures Parse(METRIC_DEFINITION, m, [58] + (Varint(|x|) + x) + t) ==
            Parse(METRIC_DEFINITION, With(m, 7, Texted(x)), t)
    ensures Parse(METRIC_DEFINITION, m, [66] + (Varint(|x|) + x) + t) ==
            Parse(METRIC_DEFINITION, With(m, 8, Texted(x)), t)
    ensures Parse(METRIC_DEFINITION, m, [74] + (Varint(|x|) + x) + t) ==
            Parse(METRIC_DEFINITION, With(m, 9, Texted(x)), t)
  {
    hide Parse, Varint, With, Texted, ValidUtf8, METRIC_DEFINITION;
    DefinitionFields();
    TextField(METRIC_DEFINITION, m, 1, x, t);
    TextField(METRIC_DEFINITION, m, 2, x, t);
    TextField(METRIC_DEFINITION, m, 3, x, t);
    TextField(METRIC_DEFINITION, m, 4, x, t);
    TextField(METRIC_DEFINITION, m, 7, x, t);
    TextField(METRIC_DEFINITION, m, 8, x, t);
    TextField(METRIC_DEFINITION, m, 9, x, t);
  }

  /** value_type and aggregation: open enums, cut to 32 bits. */
  lemma {:induction false} DefinitionEnums(m: Msg, v: nat, t: bytes)
    requires v < TWO64
    ensures Parse(METRIC_DEFINITION, m, [40] + Varint(v) + t) ==
            Parse(METRIC_DEFINITION, With(m, 5, Numbered(Signed32(v))), t)
    ensures Parse(METRIC_DEFINITION, m, [48] + Varint(v) + t) ==
            Parse(METRIC_DEFINITION, With(m, 6, Numbered(Signed32(v))), t)
  {
    hide Parse, Varint, With, Numbered, Signed32, METRIC_DEFINITION;
    DefinitionFields();
    NumberField(METRIC_DEFINITION, m, 5, v, t);
    NumberField(METRIC_DEFINITION, m, 6, v, t);
  }

  lemma {:induction false} DefinitionOthers(m: Msg, r: Record, t: bytes)
    requires WFRecord(r)
    requires !(r.payload.LenP? && r.num in {1, 2, 3, 4, 7, 8, 9}) && !(r.payload.VarintP? && r.num in {5, 6})
    ensures Parse(METRIC_DEFINITION, m, EncodeRecord(r) + t) ==
            Parse(METRIC_DEFINITION, m.(unknown := m.unknown + [r]), t)
  {
    hide Parse, EncodeRecord, WFRecord, METRIC_DEFINITION;
    DefinitionFields();
    Kept(METRIC_DEFINITION, m, r, t);
  }

  // ---------------------------------------------------------------- RegisteredMetricRecord

  lemma RegisteredFields()
    ensures REGISTERED_METRIC_RECORD.fields.Keys == {1, 2, 3}
    ensures REGISTERED_METRIC_RECORD.fields[1] == Plain(Rep(METRIC_DEFINITION))
    ensures REGISTERED_METRIC_RECORD.fields[2] == Plain(Rep(METRIC_POINT))
    ensures REGISTERED_METRIC_RECORD.fields[3] == Plain(Dict)
  {
    hide METRIC_DEFINITION, METRIC_POINT;
  }

  /** Tag 10 appends a definition, whatever definition parser makes of the content; no definition, no record. */
  lemma {:induction false} RegisteredDefinition(m: Msg, x: bytes, t: bytes)
    requires |x| <= MAX_SIZE
    ensures var d := Parse(METRIC_DEFINITION, EMPTY, x);
            Parse(REGISTERED_METRIC_RECORD, m, [10] + (Varint(|x|) + x) + t) ==
            if d.Done? then Parse(REGISTERED_METRIC_RECORD, With(m, 1, Some(Many(ManyOf(Slot(m, 1)) + [d.m]))), t)
              else Failed
  {
    hide Parse, Varint, With, METRIC_DEFINITION, METRIC_POINT, REGISTERED_METRIC_RECORD;
    RegisteredFields();
    RepField(REGISTERED_METRIC_RECORD, m, 1, METRIC_DEFINITION, x, t);
  }

  /** Tag 18 appends a point. */
  lemma {:induction false} RegisteredPoint(m: Msg, x: bytes, t: bytes)
    requires |x| <= MAX_SIZE
    ensures var p := Parse(METRIC_POINT, EMPTY, x);
            Parse(REGISTERED_METRIC_RECORD, m, [18] + (Varint(|x|) + x) + t) ==
            if p.Done? then Parse(REGISTERED_METRIC_RECORD, With(m, 2, Some(Many(ManyOf(Slot(m, 2)) + [p.m]))), t)
              else Failed
  {
    hide Parse, Varint, With, METRIC_DEFINITION, METRIC_POINT, REGISTERED_METRIC_RECORD;
    RegisteredFields();
    RepField(REGISTERED_METRIC_RECORD, m, 2, METRIC_POINT, x, t);
  }

  /** Tag 26 stores an attribute: entry field 1 is the key, entry field 2 the value. */
  lemma {:induction false} RegisteredAttribute(m: Msg, key: bytes, value: bytes, t: bytes)
    requires ValidUtf8(key) && ValidUtf8(value) && |EntryText(key, value)| <= MAX_SIZE
    ensures var x := EntryText(key, value);
            Parse(REGISTERED_METRIC_RECORD, m, [26] + (Varint(|x|) + x) + t) ==
            Parse(REGISTERED_METRIC_RECORD, With(m, 3, Some(Table(TableOf(Slot(m, 3))[key := value]))), t)
  {
    hide Parse, Varint, With, EntryText, ValidUtf8, METRIC_DEFINITION, METRIC_POINT, REGISTERED_METRIC_RECORD;
    RegisteredFields();
    EntryField(REGISTERED_METRIC_RECORD, m, 3, key, value, t);
  }

  lemma {:induction false} RegisteredOthers(m: Msg, r: Record, t: bytes)
    requires WFRecord(r) && !(r.payload.LenP? && r.num in {1, 2, 3})
    ensures Parse(REGISTERED_METRIC_RECORD, m, EncodeRecord(r) + t) ==
            Parse(REGISTERED_METRIC_RECORD, m.(unknown := m.unknown + [r]), t)
  {
    hide Parse, EncodeRecord, WFRecord, METRIC_DEFINITION, METRIC_POINT, REGISTERED_METRIC_RECORD;
    RegisteredFields();
    Kept(REGISTERED_METRIC_RECORD, m, r, t);
  }

  /** One printed definition and one printed point behind it are read as exactly these two. */
  lemma {:induction false} RegisteredBoth(ord: Order, d: Msg, p: Msg)
    requires ValidOrder(ord) && WF(METRIC_DEFINITION, d) && WF(METRIC_POINT, p)
    requires |Encode(ord, METRIC_DEFINITION, d)| <= MAX_SIZE && |Encode(ord, METRIC_POINT, p)| <= MAX_SIZE
    ensures var x, y := Encode(ord, METRIC_DEFINITION, d), Encode(ord, METRIC_POINT, p);
            Parse(REGISTERED_METRIC_RECORD, EMPTY, [10] + (Varint(|x|) + x) + ([18] + (Varint(|y|) + y))) ==
            Done(Msg(map[1 := Many([d]), 2 := Many([p])], []))
  {
    hide Parse, Encode, Varint, WF, WFSchema, METRIC_DEFINITION, METRIC_POINT, REGISTERED_METRIC_RECORD;
    var x, y := Encode(ord, METRIC_DEFINITION, d), Encode(ord, METRIC_POINT, p);
    TablesOfRecord();
    RoundTrips(ord, METRIC_DEFINITION, d);
    RoundTrips(ord, METRIC_POINT, p);
    RegisteredDefinition(EMPTY, x, [18] + (Varint(|y|) + y));
    assert [] + [d] == [d] && [] + [p] == [p];
    var m := With(EMPTY, 1, Some(Many([d])));
    RegisteredPoint(m, y, []);
    assert [18] + (Varint(|y|) + y) + [] == [18] + (Varint(|y|) + y);
    Ended(With(m, 2, Some(Many([p]))));
  }

  lemma TablesOfRecord()
    ensures WFSchema(METRIC_DEFINITION) && WFSchema(METRIC_POINT)
  {
    hide WFSchema, METRIC_DEFINITION, METRIC_POINT;
    DefinitionTable();
    PointTable();
  }

  lemma Ended(m: Msg)
    ensures Parse(REGISTERED_METRIC_RECORD, m, []) == Done(m)
  {
  }

  // ---------------------------------------------------------------- MetricBatchCursor

  lemma CursorFields(identity: Schema)
    ensures var s := CursorSchema(identity);
            s.fields.Keys == {1, 2, 3} && s.fields[1] == Optional(Sub(identity)) &&
              s.fields[2] == s.fields[3] == Plain(U64)
  {
  }

  /** Tags 16 and 24 are the two sequence numbers. */
  lemma {:induction false} CursorNumbers(identity: Schema, m: Msg, v: nat, t: bytes)
    requires v < TWO64
    ensures var s := CursorSchema(identity);
            && Parse(s, m, [16] + Varint(v) + t) == Parse(s, With(m, 2, Numbered(v)), t)
            && Parse(s, m, [24] + Varint(v) + t) == Parse(s, With(m, 3, Numbered(v)), t)
  {
    hide Parse, Varint, With, Numbered, CursorSchema;
    CursorFields(identity);
    NumberField(CursorSchema(identity), m, 2, v, t);
    NumberField(CursorSchema(identity), m, 3, v, t);
  }

  /** Tag 10 parses onto the identity held. */
  lemma {:induction false} CursorIdentity(identity: Schema, m: Msg, x: bytes, t: bytes)
    requires |x| <= MAX_SIZE
    ensures var s, c := CursorSchema(identity), Parse(identity, MsgOf(Slot(m, 1)), x);
            Parse(s, m, [10] + (Varint(|x|) + x) + t) ==
            if c.Done? then Parse(s, With(m, 1, Some(SubV(c.m))), t) else Failed
  {
    hide Parse, Varint, With, CursorSchema;
    CursorFields(identity);
    SubField(CursorSchema(identity), m, 1, identity, x, t);
  }

  lemma CursorOthers(identity: Schema, m: Msg, r: Record, t: bytes)
    requires WFRecord(r) && !(r.payload.LenP? && r.num == 1) && !(r.payload.VarintP? && r.num in {2, 3})
    ensures Parse(CursorSchema(identity), m, EncodeRecord(r) + t) ==
            Parse(CursorSchema(identity), m.(unknown := m.unknown + [r]), t)
  {
    hide Parse, EncodeRecord, WFRecord, CursorSchema;
    CursorFields(identity);
    Kept(CursorSchema(identity), m, r, t);
  }

  // ---------------------------------------------------------------- GetMetricBatchReq

  lemma RequestFields(identity: Schema)
    ensures var s := RequestSchema(identity);
            && s.fields.Keys == {2, 3, 4, 5, 6} && s.fields[2] == Optional(Sub(identity))
            && s.fields[3] == Optional(Sub(CursorSchema(identity)))
            && s.fields[4] == Plain(U32) && s.fields[5] == Plain(I64) && s.fields[6] == Plain(I32)
  {
    hide CursorSchema;
  }

  /** Tag 32 keeps 32 bits, tag 40 all 64, tag 48 the signed value of 32 bits. */
  lemma {:induction false} RequestNumbers(identity: Schema, m: Msg, v: nat, t: bytes)
    requires v < TWO64
    ensures var s := RequestSchema(identity);
            && Parse(s, m, [32] + Varint(v) + t) == Parse(s, With(m, 4, Numbered(v % 0x1_0000_0000)), t)
            && Parse(s, m, [40] + Varint(v) + t) == Parse(s, With(m, 5, Numbered(v)), t)
            && Parse(s, m, [48] + Varint(v) + t) == Parse(s, With(m, 6, Numbered(Signed32(v))), t)
  {
    hide Parse, Varint, With, Numbered, Signed32, RequestSchema;
    RequestFields(identity);
    NumberField(RequestSchema(identity), m, 4, v, t);
    NumberField(RequestSchema(identity), m, 5, v, t);
    NumberField(RequestSchema(identity), m, 6, v, t);
  }

  /** Tag 18 parses onto the identity held, tag 26 onto the cursor held. */
  lemma {:induction false} RequestNested(identity: Schema, m: Msg, x: bytes, t: bytes)
    requires |x| <= MAX_SIZE
    ensures var s, c := RequestSchema(identity), Parse(identity, MsgOf(Slot(m, 2)), x);
            Parse(s, m, [18] + (Varint(|x|) + x) + t) ==
            if c.Done? then Parse(s, With(m, 2, Some(SubV(c.m))), t) else Failed
    ensures var s, c := RequestSchema(identity), Parse(CursorSchema(identity), MsgOf(Slot(m, 3)), x);
            Parse(s, m, [26] + (Varint(|x|) + x) + t) ==
            if c.Done? then Parse(s, With(m, 3, Some(SubV(c.m))), t) else Failed
  {
    hide Parse, Varint, With, RequestSchema, CursorSchema;
    RequestFields(identity);
    SubField(RequestSchema(identity), m, 2, identity, x, t);
    SubField(RequestSchema(identity), m, 3, CursorSchema(identity), x, t);
  }

  lemma RequestOthers(identity: Schema, m: Msg, r: Record, t: bytes)
    requires WFRecord(r) && !(r.payload.LenP? && r.num in {2, 3}) && !(r.payload.VarintP? && r.num in {4, 5, 6})
    ensures Parse(RequestSchema(identity), m, EncodeRecord(r) + t) ==
            Parse(RequestSchema(identity), m.(unknown := m.unknown + [r]), t)
  {
    hide Parse, EncodeRecord, WFRecord, RequestSchema;
    RequestFields(identity);
    Kept(RequestSchema(identity), m, r, t);
  }
}
