/**
  What the fields of a MetricPoint stand for, as values, and what each case of its switch, each merged
  field and each printed field means for the message.
 */
module PointState {
  import opened Options
  import opened Wire
  import opened Utf8
  import opened Message
  import opened Sizes
  import opened TwoPass
  import opened Schemas
  import opened Runtime

  datatype Which = NoValue | Scalar(n: u64) | Unsigned(n: u64) | SumCount(m: Msg)

  datatype PointState = PointState(
    bits: HasBits, attributes: map<bytes, bytes>, metricId: bytes, start: u64, end: u64, which: Which,
    unknown: seq<Record>)
  {
    /** What field `k` holds, as it would be printed. */
    function SlotAt(k: nat): Option<Value>
    {
      match k
      case 1 => StrSlot(Plain(Text), metricId)
      case 2 => if which.Scalar? then Some(Num(which.n)) else None
      case 3 => if which.Unsigned? then Some(Num(which.n)) else None
      case 4 => if which.SumCount? then Some(SubV(which.m)) else None
      case 5 => TableSlot(attributes)
      case 6 => if 1 in bits then Some(Num(start)) else None
      case 7 => if 2 in bits then Some(Num(end)) else None
      case _ => None
    }

    function Slots(): (q: seq<Option<Value>>)
      ensures |q| == 8 && forall k: nat | k < 8 :: q[k] == SlotAt(k)
    {
      seq(8, k requires 0 <= k < 8 => SlotAt(k))
    }

    function Abs(): Msg { Build(Slots(), unknown) }

    /** Only declared bits are on, and a clear one means a stored zero. */
    predicate HasBitsCover()
    {
      bits <= {1, 2} && (1 !in bits ==> start == 0) && (2 !in bits ==> end == 0)
    }

    ghost predicate Valid()
    {
      HasBitsCover() && LegalUnknown(METRIC_POINT, unknown)
    }
  }

  function TableSlot(t: map<bytes, bytes>): Option<Value> { if t == map[] then None else Some(Table(t)) }

  const EMPTY_POINT := PointState({}, map[], [], 0, 0, NoValue, [])

  lemma EmptyPoint()
    ensures EMPTY_POINT.Valid() && EMPTY_POINT.Abs() == EMPTY
  {
    BuildEmpty(EMPTY_POINT.Slots());
  }

  lemma AbsSlot(st: PointState, k: nat)
    ensures Slot(st.Abs(), k) == if k < 8 then st.SlotAt(k) else None
    ensures st.Abs().unknown == st.unknown
  {
    hide Build, PointState.SlotAt;
    BuildSlot(st.Slots(), st.unknown, k);
    BuildUnknown(st.Slots(), st.unknown);
  }

  lemma PointFields()
    ensures METRIC_POINT.max == 7 && METRIC_POINT.fields.Keys == {1, 2, 3, 4, 5, 6, 7}
    ensures METRIC_POINT.fields[1] == Plain(Text)
    ensures METRIC_POINT.fields[2] == Alternative(Double)
    ensures METRIC_POINT.fields[3] == Alternative(U64)
    ensures METRIC_POINT.fields[4] == Alternative(Sub(METRIC_SUM_COUNT))
    ensures METRIC_POINT.fields[5] == Plain(Dict)
    ensures METRIC_POINT.fields[6] == METRIC_POINT.fields[7] == Optional(I64)
  {
  }

  // ---------------------------------------------------------------- storing

  /** `st'` differs from `st` only in field `k`, or in the oneof when `k` is one of its alternatives. */
  predicate ChangedAt(st: PointState, st': PointState, k: nat)
  {
    && 1 <= k <= 7 && st'.unknown == st.unknown
    && if 2 <= k <= 4 then
         st' == st.(which := st'.which) && st'.SlotAt(k).Some?
       else
         forall j: nat | j < 8 && j != k :: st'.SlotAt(j) == st.SlotAt(j)
  }

  /** Storing into a field, switching the oneof where it is an alternative. */
  lemma {:induction false} PutField(st: PointState, st': PointState, k: nat)
    requires ChangedAt(st, st', k)
    ensures k in METRIC_POINT.fields && st'.Abs() == PutSlot(METRIC_POINT, st.Abs(), k, st'.SlotAt(k))
  {
    hide PutSlot, PointState.Abs, METRIC_POINT;
    PointFields();
    var m := PutSlot(METRIC_POINT, st.Abs(), k, st'.SlotAt(k));
    PutSlotAt(METRIC_POINT, st.Abs(), k, st'.SlotAt(k), k);
    AbsSlot(st, k);
    AbsSlot(st', k);
    forall j: nat
      ensures Slot(m, j) == Slot(st'.Abs(), j)
    {
      PutSlotAt(METRIC_POINT, st.Abs(), k, st'.SlotAt(k), j);
      AbsSlot(st, j);
      AbsSlot(st', j);
    }
    SameSlots(m, st'.Abs());
  }

  // ---------------------------------------------------------------- the cases of the switch

  lemma TextCase(st: PointState, buf: bytes, ptr: nat, limit: nat)
    requires ptr < limit <= |buf|
    requires ReadTag(buf, ptr, limit).NumAt? && ReadTag(buf, ptr, limit).v == 10
    ensures var x := ReadString(buf, ReadTag(buf, ptr, limit).ptr, limit);
            Parse(METRIC_POINT, st.Abs(), buf[ptr..limit]) ==
            if x.NoStr? || !ValidUtf8(x.b) then Failed
            else Parse(METRIC_POINT, st.(metricId := x.b).Abs(), buf[x.ptr..limit])
  {
    hide Parse, ReadTag, ReadString, PutSlot, PointState.Abs, ValidUtf8, METRIC_POINT;
    PointFields();
    StepText(METRIC_POINT, st.Abs(), buf, ptr, limit, 1);
    var x := ReadString(buf, ReadTag(buf, ptr, limit).ptr, limit);
    if x.StrAt? { PutField(st, st.(metricId := x.b), 1); }
  }

  lemma ScalarCase(st: PointState, buf: bytes, ptr: nat, limit: nat)
    requires ptr < limit <= |buf|
    requires ReadTag(buf, ptr, limit).NumAt? && ReadTag(buf, ptr, limit).v == 17
    ensures var x := ReadDouble(buf, ReadTag(buf, ptr, limit).ptr, limit);
            Parse(METRIC_POINT, st.Abs(), buf[ptr..limit]) ==
            if x.NoNum? then Failed
            else Parse(METRIC_POINT, st.(which := Scalar(x.v)).Abs(), buf[x.ptr..limit])
  {
    hide Parse, ReadTag, ReadDouble, PutSlot, PointState.Abs, METRIC_POINT;
    PointFields();
    StepDouble(METRIC_POINT, st.Abs(), buf, ptr, limit, 2);
    var x := ReadDouble(buf, ReadTag(buf, ptr, limit).ptr, limit);
    if x.NumAt? { PutField(st, st.(which := Scalar(x.v)), 2); }
  }

  lemma UnsignedCase(st: PointState, buf: bytes, ptr: nat, limit: nat)
    requires ptr < limit <= |buf|
    requires ReadTag(buf, ptr, limit).NumAt? && ReadTag(buf, ptr, limit).v == 24
    ensures var x := ReadVarint64(buf, ReadTag(buf, ptr, limit).ptr, limit);
            Parse(METRIC_POINT, st.Abs(), buf[ptr..limit]) ==
            if x.NoNum? then Failed
            else Parse(METRIC_POINT, st.(which := Unsigned(x.v)).Abs(), buf[x.ptr..limit])
  {
    hide Parse, ReadTag, ReadVarint64, PutSlot, PointState.Abs, METRIC_POINT;
    PointFields();
    StepVarint(METRIC_POINT, st.Abs(), buf, ptr, limit, 3);
    var x := ReadVarint64(buf, ReadTag(buf, ptr, limit).ptr, limit);
    if x.NumAt? { PutField(st, st.(which := Unsigned(x.v)), 3); }
  }

  /** The message a sum_count case parses onto. */
  function SumCountBase(w: Which): Msg { if w.SumCount? then w.m else EMPTY }

  lemma SumCountCase(st: PointState, buf: bytes, ptr: nat, limit: nat)
    requires ptr < limit <= |buf|
    requires ReadTag(buf, ptr, limit).NumAt? && ReadTag(buf, ptr, limit).v == 34
    ensures var x := ReadSize(buf, ReadTag(buf, ptr, limit).ptr, limit);
            x.NoSpan? ==> Parse(METRIC_POINT, st.Abs(), buf[ptr..limit]) == Failed
    ensures var x := ReadSize(buf, ReadTag(buf, ptr, limit).ptr, limit);
            x.SpanAt? ==>
              var c := Parse(METRIC_SUM_COUNT, SumCountBase(st.which), buf[x.ptr..x.end]);
              Parse(METRIC_POINT, st.Abs(), buf[ptr..limit]) ==
              if c.Done? then Parse(METRIC_POINT, st.(which := SumCount(c.m)).Abs(), buf[x.end..limit]) else Failed
  {
    hide Parse, ReadTag, ReadSize, PutSlot, PointState.Abs, METRIC_POINT, METRIC_SUM_COUNT;
    PointFields();
    StepNested(METRIC_POINT, st.Abs(), buf, ptr, limit, 4);
    AbsSlot(st, 4);
    var x := ReadSize(buf, ReadTag(buf, ptr, limit).ptr, limit);
    if x.SpanAt? {
      var c := Parse(METRIC_SUM_COUNT, SumCountBase(st.which), buf[x.ptr..x.end]);
      if c.Done? { PutField(st, st.(which := SumCount(c.m)), 4); }
    }
  }

  lemma EntryCase(st: PointState, buf: bytes, ptr: nat, limit: nat)
    requires ptr < limit <= |buf|
    requires ReadTag(buf, ptr, limit).NumAt? && ReadTag(buf, ptr, limit).v == 42
    ensures var x := ReadSize(buf, ReadTag(buf, ptr, limit).ptr, limit);
            x.NoSpan? ==> Parse(METRIC_POINT, st.Abs(), buf[ptr..limit]) == Failed
    ensures var x := ReadSize(buf, ReadTag(buf, ptr, limit).ptr, limit);
            x.SpanAt? ==>
              var e := ParseEntry([], [], buf[x.ptr..x.end]);
              Parse(METRIC_POINT, st.Abs(), buf[ptr..limit]) ==
              if e.Entry?
              then Parse(METRIC_POINT, st.(attributes := st.attributes[e.key := e.value]).Abs(), buf[x.end..limit])
              else Failed
  {
    hide Parse, ReadTag, ReadSize, PutSlot, PointState.Abs, METRIC_POINT, ParseEntry;
    PointFields();
    StepEntry(METRIC_POINT, st.Abs(), buf, ptr, limit, 5);
    AbsSlot(st, 5);
    var x := ReadSize(buf, ReadTag(buf, ptr, limit).ptr, limit);
    if x.SpanAt? {
      var e := ParseEntry([], [], buf[x.ptr..x.end]);
      if e.Entry? {
        var st' := st.(attributes := st.attributes[e.key := e.value]);
        assert e.key in st'.attributes;
        PutField(st, st', 5);
      }
    }
  }

  function WithInterval(st: PointState, k: nat, n: u64): PointState
  {
    if k == 6 then st.(bits := st.bits + {1}, start := n) else st.(bits := st.bits + {2}, end := n)
  }

  function WithoutInterval(st: PointState, k: nat): PointState
  {
    if k == 6 then st.(bits := st.bits - {1}, start := 0) else st.(bits := st.bits - {2}, end := 0)
  }

  /** Setting and clearing an interval end change its slot alone, and a present zero is not absence. */
  lemma {:induction false} IntervalSlots(st: PointState, k: nat, n: u64, j: nat)
    requires k == 6 || k == 7
    ensures Slot(WithInterval(st, k, n).Abs(), j) == if j == k then Some(Num(n)) else Slot(st.Abs(), j)
    ensures Slot(WithoutInterval(st, k).Abs(), j) == if j == k then None else Slot(st.Abs(), j)
    ensures WithoutInterval(WithInterval(st, k, n), k).Abs() == WithoutInterval(st, k).Abs()
  {
    hide PointState.Abs;
    AbsSlot(st, j);
    AbsSlot(WithInterval(st, k, n), j);
    AbsSlot(WithoutInterval(st, k), j);
    assert WithoutInterval(WithInterval(st, k, n), k) == WithoutInterval(st, k);
  }

  lemma IntervalCase(st: PointState, buf: bytes, ptr: nat, limit: nat, k: nat)
    requires ptr < limit <= |buf| && (k == 6 || k == 7)
    requires ReadTag(buf, ptr, limit).NumAt? && ReadTag(buf, ptr, limit).v == 8 * k
    ensures var x := ReadVarint64(buf, ReadTag(buf, ptr, limit).ptr, limit);
            Parse(METRIC_POINT, st.Abs(), buf[ptr..limit]) ==
            if x.NoNum? then Failed
            else Parse(METRIC_POINT, WithInterval(st, k, x.v).Abs(), buf[x.ptr..limit])
  {
    hide Parse, ReadTag, ReadVarint64, PutSlot, PointState.Abs, METRIC_POINT;
    PointFields();
    StepVarint(METRIC_POINT, st.Abs(), buf, ptr, limit, k);
    var x := ReadVarint64(buf, ReadTag(buf, ptr, limit).ptr, limit);
    if x.NumAt? { PutField(st, WithInterval(st, k, x.v), k); }
  }

  lemma NoCaseTakes(tag: nat)
    requires tag !in {10, 17, 24, 34, 42, 48, 56}
    ensures !Takes(METRIC_POINT, tag)
  {
    hide METRIC_POINT;
    PointFields();
  }

  lemma UnknownCase(st: PointState, buf: bytes, ptr: nat, limit: nat)
    requires ptr < limit <= |buf|
    requires var t := ReadTag(buf, ptr, limit);
             t.NumAt? && t.v != 0 && t.v % 8 != 4 && !Takes(METRIC_POINT, t.v)
    ensures var t := ReadTag(buf, ptr, limit);
            var x := ReadUnknown(buf, t.ptr, limit, t.v);
            x.NoUnknown? ==> Parse(METRIC_POINT, st.Abs(), buf[ptr..limit]) == Failed
    ensures var t := ReadTag(buf, ptr, limit);
            var x := ReadUnknown(buf, t.ptr, limit, t.v);
            x.UnknownAt? ==>
              var st' := st.(unknown := st.unknown + [x.r]);
              Parse(METRIC_POINT, st.Abs(), buf[ptr..limit]) == Parse(METRIC_POINT, st'.Abs(), buf[x.ptr..limit])
              && (st.Valid() ==> st'.Valid())
  {
    hide Parse, ReadTag, ReadUnknown, Build, Takes, WFRecord, Known, METRIC_POINT;
    StepUnknown(METRIC_POINT, st.Abs(), buf, ptr, limit);
    var t := ReadTag(buf, ptr, limit);
    var x := ReadUnknown(buf, t.ptr, limit, t.v);
    if x.UnknownAt? {
      BuildAppend(st.Slots(), st.unknown, x.r);
      assert st.(unknown := st.unknown + [x.r]).Slots() == st.Slots();
    }
  }

  // ---------------------------------------------------------------- merging

  function MergedWhich(a: Which, b: Which): Which
  {
    match b
    case NoValue => a
    case SumCount(m) => SumCount(Merge(METRIC_SUM_COUNT, SumCountBase(a), m))
    case _ => b
  }

  /** What MergeImpl leaves in each field. */
  function MergePoints(a: PointState, b: PointState): PointState
  {
    PointState(
      a.bits + b.bits,
      a.attributes + b.attributes,
      if b.metricId != [] then b.metricId else a.metricId,
      if 1 in b.bits then b.start else a.start,
      if 2 in b.bits then b.end else a.end,
      MergedWhich(a.which, b.which),
      a.unknown + b.unknown)
  }

  lemma MergedFields(a: PointState, b: PointState, m: PointState)
    requires m.bits == a.bits + b.bits && m.attributes == a.attributes + b.attributes &&
             m.unknown == a.unknown + b.unknown
    requires m.metricId == if b.metricId != [] then b.metricId else a.metricId
    requires m.start == if 1 in b.bits then b.start else a.start
    requires m.end == if 2 in b.bits then b.end else a.end
    requires m.which == MergedWhich(a.which, b.which)
    ensures m == MergePoints(a, b)
  {
  }

  lemma ValidCovers(st: PointState)
    requires st.Valid()
    ensures st.HasBitsCover()
  {
    hide PointState.HasBitsCover;
  }

  lemma {:induction false} MergePointsValid(a: PointState, b: PointState)
    requires a.Valid() && b.Valid()
    ensures MergePoints(a, b).Valid()
  {
    hide WFRecord, Known;
  }

  lemma HoldsValue(st: PointState)
    ensures HasOneof(METRIC_POINT, st.Abs()) <==> !st.which.NoValue?
  {
    hide PointState.Abs, METRIC_POINT;
    PointFields();
    forall k: nat
      ensures k in st.Abs().fields <==> k < 8 && st.SlotAt(k).Some?
    {
      AbsSlot(st, k);
    }
    assert forall k :: OneofAt(METRIC_POINT, k) <==> 2 <= k <= 4;
    assert OneofAt(METRIC_POINT, 2) && OneofAt(METRIC_POINT, 3) && OneofAt(METRIC_POINT, 4);
    if !st.which.NoValue? {
      var k := if st.which.Scalar? then 2 else if st.which.Unsigned? then 3 else 4;
      assert k in st.Abs().fields && OneofAt(METRIC_POINT, k);
    }
  }

  lemma MergedPointSlot(a: PointState, b: PointState, k: nat)
    requires k < 8
    ensures MergedSlot(METRIC_POINT, a.Abs(), b.Abs(), k) == MergePoints(a, b).SlotAt(k)
  {
    hide Merge, PointState.Abs, METRIC_POINT, METRIC_SUM_COUNT, HasOneof;
    PointFields();
    AbsSlot(a, k);
    AbsSlot(b, k);
    HoldsValue(b);
    if 2 <= k <= 4 {
      assert OneofAt(METRIC_POINT, k);
    } else {
      assert !OneofAt(METRIC_POINT, k);
      if k == 5 { MergedTables(a.attributes, b.attributes); }
    }
  }

  lemma MergedTables(a: map<bytes, bytes>, b: map<bytes, bytes>)
    ensures b == map[] ==> a + b == a
    ensures a == map[] ==> a + b == b
    ensures a + b == map[] <==> a == map[] && b == map[]
  {
    if b != map[] {
      var x :| x in b;
      assert x in a + b;
    }
    if a != map[] {
      var x :| x in a;
      assert x in a + b;
    }
  }

  /** The field-by-field merge, oneof included, is the merge of the messages. */
  lemma {:induction false} MergePointsIsMerge(a: PointState, b: PointState)
    ensures MergePoints(a, b).Abs() == Merge(METRIC_POINT, a.Abs(), b.Abs())
  {
    hide Merge, MergedSlot, Build, PointState.SlotAt, MergedWhich, METRIC_POINT;
    var m := MergePoints(a, b);
    forall k: nat | k < 8
      ensures m.Slots()[k] == MergedSlot(METRIC_POINT, a.Abs(), b.Abs(), k)
    {
      MergedPointSlot(a, b, k);
    }
    BuildMerge(METRIC_POINT, a.Slots(), a.unknown, b.Slots(), b.unknown, m.Slots());
  }

  /** Merging into an empty point copies every field; a held sum_count must itself be copied by a merge. */
  lemma MergeOntoEmpty(b: PointState)
    requires b.HasBitsCover()
    requires b.which.SumCount? ==> Merge(METRIC_SUM_COUNT, EMPTY, b.which.m) == b.which.m
    ensures MergePoints(EMPTY_POINT, b) == b
  {
    hide Merge;
    assert {} + b.bits == b.bits && [] + b.unknown == b.unknown && map[] + b.attributes == b.attributes;
  }

  /** Only the sum_count nests. */
  lemma OneNestedField(st: PointState, c: Cache)
    ensures Exact(METRIC_POINT, st.Abs(), c) <==>
            (st.which.SumCount? ==> Sound(METRIC_SUM_COUNT, st.which.m, Kid(c, 4, 0)))
  {
    hide PointState.Abs, Sound, Kid, METRIC_POINT, METRIC_SUM_COUNT;
    var s, m := METRIC_POINT, st.Abs();
    PointFields();
    AbsSlot(st, 4);
    forall k | k in s.fields && k in m.fields && k != 4
      ensures ExactField(k, s.fields[k], m.fields[k], c)
    {
      AbsSlot(st, k);
    }
    assert st.which.SumCount? ==> 4 in m.fields && m.fields[4] == SubV(st.which.m);
  }

  // ---------------------------------------------------------------- legality

  lemma {:induction false} LegalPoint(st: PointState)
    requires st.Valid() && ValidUtf8(st.metricId)
    requires forall x | x in st.attributes :: ValidUtf8(x) && ValidUtf8(st.attributes[x])
    requires st.which.SumCount? ==> WF(METRIC_SUM_COUNT, st.which.m)
    ensures WF(METRIC_POINT, st.Abs())
  {
    hide WF, ValidUtf8, METRIC_POINT, METRIC_SUM_COUNT, LegalUnknown;
    PointFields();
    assert forall k :: OneofAt(METRIC_POINT, k) <==> 2 <= k <= 4;
    BuildLegal(METRIC_POINT, st.Slots(), st.unknown);
  }

  // ---------------------------------------------------------------- sizes

  function WhichSize(w: Which): nat
  {
    match w
    case NoValue => 0
    case Scalar(_) => 1 + 8
    case Unsigned(n) => 1 + VarintSize(n)
    case SumCount(_) => 0
  }

  /** The size of the encoding, in the order the size pass visits the fields. */
  lemma {:induction false} SizeOfPoint(st: PointState)
    ensures ByteSize(METRIC_POINT, st.Abs()) ==
            EntriesSize(5, st.attributes)
            + (if st.metricId == [] then 0 else 1 + VarintSize(|st.metricId|) + |st.metricId|)
            + (if 1 in st.bits then 1 + VarintSize(st.start) else 0)
            + (if 2 in st.bits then 1 + VarintSize(st.end) else 0)
            + WhichSize(st.which)
            + SumCountSize(st.which)
            + |EncodeRecords(st.unknown)|
  {
    hide PointState.Abs, FieldsSize, VarintSize, SizeAt, EntriesSize, METRIC_POINT, WhichSize, SumCountSize;
    var m := st.Abs();
    PointFields();
    AbsSlot(st, 0);
    SizeStepAt(METRIC_POINT, m, 0);
    SizeOfNothing(METRIC_POINT, m, 0);
    SizeStepAt(METRIC_POINT, m, 1);
    SizeStepAt(METRIC_POINT, m, 2);
    SizeStepAt(METRIC_POINT, m, 3);
    SizeStepAt(METRIC_POINT, m, 4);
    SizeStepAt(METRIC_POINT, m, 5);
    SizeStepAt(METRIC_POINT, m, 6);
    SizeStepAt(METRIC_POINT, m, 7);
    SizeStepAt(METRIC_POINT, m, 8);
    PlainTerms(st);
    ValueTerms(st);
  }

  lemma PlainTerms(st: PointState)
    ensures SizeAt(METRIC_POINT, st.Abs(), 1) == if st.metricId == [] then 0
            else 1 + VarintSize(|st.metricId|) + |st.metricId|
    ensures SizeAt(METRIC_POINT, st.Abs(), 5) == EntriesSize(5, st.attributes)
    ensures SizeAt(METRIC_POINT, st.Abs(), 6) == if 1 in st.bits then 1 + VarintSize(st.start) else 0
    ensures SizeAt(METRIC_POINT, st.Abs(), 7) == if 2 in st.bits then 1 + VarintSize(st.end) else 0
  {
    hide PointState.Abs, VarintSize, SizeAt, METRIC_POINT;
    PointFields();
    AbsSlot(st, 1);
    AbsSlot(st, 5);
    AbsSlot(st, 6);
    AbsSlot(st, 7);
    SizeOfStr(METRIC_POINT, st.Abs(), 1, st.metricId);
    SizeOfTable(METRIC_POINT, st.Abs(), 5, st.attributes);
    SizeOfNum(METRIC_POINT, st.Abs(), 6, st.start);
    SizeOfNum(METRIC_POINT, st.Abs(), 7, st.end);
  }

  ghost function SumCountSize(w: Which): nat
  {
    if w.SumCount? then var n := ByteSize(METRIC_SUM_COUNT, w.m); 1 + VarintSize(n) + n else 0
  }

  lemma ValueTerms(st: PointState)
    ensures SizeAt(METRIC_POINT, st.Abs(), 2) + SizeAt(METRIC_POINT, st.Abs(), 3) + SizeAt(METRIC_POINT, st.Abs(), 4) ==
            WhichSize(st.which) + SumCountSize(st.which)
  {
    hide PointState.Abs, VarintSize, SizeAt, METRIC_POINT, ByteSize;
    PointFields();
    AbsSlot(st, 2);
    AbsSlot(st, 3);
    AbsSlot(st, 4);
    SizeOfNum(METRIC_POINT, st.Abs(), 2, if st.which.Scalar? then st.which.n else 0);
    SizeOfNum(METRIC_POINT, st.Abs(), 3, if st.which.Unsigned? then st.which.n else 0);
    if st.which.SumCount? {
      SizeOfSub(METRIC_POINT, st.Abs(), 4, st.which.m);
    } else {
      SizeOfNothing(METRIC_POINT, st.Abs(), 4);
    }
  }
}
