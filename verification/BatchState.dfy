/**
  What the fields of a MetricBatch stand for, as values: repeated events, two sub-messages that are
  present when their pointer is not null, and the plain fields in the order Impl_ declares them.
  `identity` is the schema of ServiceInstanceIdentity, whatever it is.
 */
module BatchState {
  import opened Options
  import opened Wire
  import opened Memory
  import opened Message
  import opened Sizes
  import opened TwoPass
  import opened Schemas
  import opened Runtime

  // Positions of the plain fields from batch_sequence_ to source_final_.
  const BATCH_SEQUENCE := 0
  const CREATED_AT_UNIX_MS := 1
  const FIRST_EVENT_SEQUENCE := 2
  const LAST_EVENT_SEQUENCE := 3
  const FINAL_EVENT_SEQUENCE := 4
  const HEARTBEAT := 5
  const SOURCE_FINAL := 6
  const CELLS := 7

  type Cells = c: seq<u64> | |c| == CELLS witness [0, 0, 0, 0, 0, 0, 0]

  function CellOf(k: nat): (c: nat)
    ensures c < CELLS
  {
    match k
    case 4 => BATCH_SEQUENCE
    case 6 => CREATED_AT_UNIX_MS
    case 7 => FIRST_EVENT_SEQUENCE
    case 8 => LAST_EVENT_SEQUENCE
    case 10 => HEARTBEAT
    case 11 => SOURCE_FINAL
    case _ => FINAL_EVENT_SEQUENCE
  }

  predicate NumberField(k: nat) { k in {4, 6, 7, 8, 10, 11, 12} }

  lemma LayoutInjective(j: nat, k: nat)
    requires NumberField(j) && NumberField(k) && j != k
    ensures CellOf(j) != CellOf(k)
  {
  }

  function SubSlot(m: Option<Msg>): Option<Value> { if m.Some? then Some(SubV(m.value)) else None }
  function CellSlot(n: u64): Option<Value> { if n == 0 then None else Some(Num(n)) }

  /** The one range of fields whose copy reproduces all of them: from batch_sequence_ to source_final_. */
  lemma {:induction false} CopiedRangeExactly(first: nat, last: nat)
    requires first <= last < CELLS
    ensures Reproduces(CELLS, first, last + 1) <==> first == BATCH_SEQUENCE && last == SOURCE_FINAL
  {
    hide Reproduces;
    ReproducesExactly(CELLS, first, last + 1);
  }

  datatype BatchState = BatchState(
    events: seq<Msg>, source: Option<Msg>, gap: Option<Msg>, cells: Cells, unknown: seq<Record>)
  {
    function SlotAt(k: nat): Option<Value>
    {
      if NumberField(k) then CellSlot(cells[CellOf(k)])
      else if k == 3 then SubSlot(source)
      else if k == 9 then ManySlot(events)
      else if k == 14 then SubSlot(gap)
      else None
    }

    function Slots(): (q: seq<Option<Value>>)
      ensures |q| == 15 && forall k: nat | k < 15 :: q[k] == SlotAt(k)
    {
      seq(15, k requires 0 <= k < 15 => SlotAt(k))
    }

    function Abs(): Msg { Build(Slots(), unknown) }
  }

  const EMPTY_BATCH := BatchState([], None, None, [0, 0, 0, 0, 0, 0, 0], [])

  lemma EmptyBatch()
    ensures EMPTY_BATCH.Abs() == EMPTY
  {
    BuildEmpty(EMPTY_BATCH.Slots());
  }

  lemma AbsSlot(st: BatchState, k: nat)
    ensures Slot(st.Abs(), k) == if k < 15 then st.SlotAt(k) else None
    ensures st.Abs().unknown == st.unknown
  {
    hide Build, BatchState.SlotAt;
    BuildSlot(st.Slots(), st.unknown, k);
    BuildUnknown(st.Slots(), st.unknown);
  }

  lemma BatchFields(identity: Schema)
    ensures var s := BatchSchema(identity);
            && s.max == 14 && s.fields.Keys == {3, 4, 6, 7, 8, 9, 10, 11, 12, 14}
            && (forall k | k in s.fields :: !s.fields[k].oneof)
            && s.fields[3] == Optional(Sub(identity))
            && s.fields[4] == s.fields[7] == s.fields[8] == s.fields[12] == Plain(U64)
            && s.fields[6] == Plain(I64)
            && s.fields[9] == Plain(Rep(METRIC_EVENT))
            && s.fields[10] == s.fields[11] == Plain(Bool)
            && s.fields[14] == Optional(Sub(METRIC_SEQUENCE_GAP))
  {
  }

  // ---------------------------------------------------------------- storing

  /** Storing into field `k` and nothing else. */
  lemma {:induction false} PutField(identity: Schema, st: BatchState, st': BatchState, k: nat)
    requires k in BatchSchema(identity).fields && st'.unknown == st.unknown
    requires forall j: nat | j < 15 && j != k :: st'.SlotAt(j) == st.SlotAt(j)
    ensures st'.Abs() == PutSlot(BatchSchema(identity), st.Abs(), k, st'.SlotAt(k))
  {
    hide Build, PutSlot, BatchState.SlotAt, BatchSchema;
    BatchFields(identity);
    assert st'.Slots() == st.Slots()[k := st'.SlotAt(k)];
    BuildPut(BatchSchema(identity), st.Slots(), st.unknown, k, st'.SlotAt(k));
  }

  function Store(st: BatchState, k: nat, n: u64): BatchState
  {
    st.(cells := st.cells[CellOf(k) := n])
  }

  lemma StoreSlots(st: BatchState, k: nat, n: u64, j: nat)
    requires NumberField(k)
    ensures Store(st, k, n).SlotAt(j) == if j == k then CellSlot(n) else st.SlotAt(j)
  {
    hide CellOf;
    if NumberField(j) && j != k { LayoutInjective(j, k); }
  }

  // ---------------------------------------------------------------- the cases of the switch

  /** The value a varint case stores. */
  function Stored(k: nat, v: u64): u64 { if k == 10 || k == 11 then (if v == 0 then 0 else 1) else v }

  lemma VarintCase(identity: Schema, st: BatchState, buf: bytes, ptr: nat, limit: nat, k: nat)
    requires NumberField(k) && ptr < limit <= |buf|
    requires ReadTag(buf, ptr, limit).NumAt? && ReadTag(buf, ptr, limit).v == 8 * k
    ensures var x := ReadVarint64(buf, ReadTag(buf, ptr, limit).ptr, limit);
            Parse(BatchSchema(identity), st.Abs(), buf[ptr..limit]) ==
            if x.NoNum? then Failed
            else Parse(BatchSchema(identity), Store(st, k, Stored(k, x.v)).Abs(), buf[x.ptr..limit])
  {
    hide Parse, ReadTag, ReadVarint64, PutSlot, BatchState.Abs, BatchState.SlotAt, CellOf, BatchSchema;
    BatchFields(identity);
    StepVarint(BatchSchema(identity), st.Abs(), buf, ptr, limit, k);
    var x := ReadVarint64(buf, ReadTag(buf, ptr, limit).ptr, limit);
    if x.NumAt? {
      var st' := Store(st, k, Stored(k, x.v));
      forall j: nat | j < 15
        ensures st'.SlotAt(j) == if j == k then CellSlot(Stored(k, x.v)) else st.SlotAt(j)
      {
        StoreSlots(st, k, Stored(k, x.v), j);
      }
      StoreSlots(st, k, Stored(k, x.v), k);
      PutField(identity, st, st', k);
    }
  }

  function BaseOf(m: Option<Msg>): Msg { if m.Some? then m.value else EMPTY }

  function WithSub(st: BatchState, k: nat, m: Option<Msg>): BatchState
  {
    if k == 3 then st.(source := m) else st.(gap := m)
  }

  function SubAt(st: BatchState, k: nat): Option<Msg> { if k == 3 then st.source else st.gap }

  function SubSchema(identity: Schema, k: nat): Schema { if k == 3 then identity else METRIC_SEQUENCE_GAP }

  /** The two sub-message cases: parsed onto what is there, or onto a new object. */
  lemma SubCase(identity: Schema, st: BatchState, buf: bytes, ptr: nat, limit: nat, k: nat)
    requires (k == 3 || k == 14) && ptr < limit <= |buf|
    requires ReadTag(buf, ptr, limit).NumAt? && ReadTag(buf, ptr, limit).v == 8 * k + 2
    ensures var x := ReadSize(buf, ReadTag(buf, ptr, limit).ptr, limit);
            x.NoSpan? ==> Parse(BatchSchema(identity), st.Abs(), buf[ptr..limit]) == Failed
    ensures var x := ReadSize(buf, ReadTag(buf, ptr, limit).ptr, limit);
            x.SpanAt? ==>
              var c := Parse(SubSchema(identity, k), BaseOf(SubAt(st, k)), buf[x.ptr..x.end]);
              Parse(BatchSchema(identity), st.Abs(), buf[ptr..limit]) ==
              if c.Done? then Parse(BatchSchema(identity), WithSub(st, k, Some(c.m)).Abs(), buf[x.end..limit])
                else Failed
  {
    hide Parse, ReadTag, ReadSize, PutSlot, BatchState.Abs, BatchSchema, METRIC_SEQUENCE_GAP;
    BatchFields(identity);
    StepNested(BatchSchema(identity), st.Abs(), buf, ptr, limit, k);
    AbsSlot(st, k);
    var x := ReadSize(buf, ReadTag(buf, ptr, limit).ptr, limit);
    if x.SpanAt? {
      var c := Parse(SubSchema(identity, k), BaseOf(SubAt(st, k)), buf[x.ptr..x.end]);
      if c.Done? { PutField(identity, st, WithSub(st, k, Some(c.m)), k); }
    }
  }

  lemma EventCase(identity: Schema, st: BatchState, buf: bytes, ptr: nat, limit: nat)
    requires ptr < limit <= |buf|
    requires ReadTag(buf, ptr, limit).NumAt? && ReadTag(buf, ptr, limit).v == 74
    ensures var x := ReadSize(buf, ReadTag(buf, ptr, limit).ptr, limit);
            x.NoSpan? ==> Parse(BatchSchema(identity), st.Abs(), buf[ptr..limit]) == Failed
    ensures var x := ReadSize(buf, ReadTag(buf, ptr, limit).ptr, limit);
            x.SpanAt? ==>
              var c := Parse(METRIC_EVENT, EMPTY, buf[x.ptr..x.end]);
              Parse(BatchSchema(identity), st.Abs(), buf[ptr..limit]) ==
              if c.Done? then Parse(BatchSchema(identity), st.(events := st.events + [c.m]).Abs(), buf[x.end..limit])
                else Failed
  {
    hide Parse, ReadTag, ReadSize, PutSlot, BatchState.Abs, BatchSchema, METRIC_EVENT;
    BatchFields(identity);
    StepNested(BatchSchema(identity), st.Abs(), buf, ptr, limit, 9);
    AbsSlot(st, 9);
    var x := ReadSize(buf, ReadTag(buf, ptr, limit).ptr, limit);
    if x.SpanAt? {
      var c := Parse(METRIC_EVENT, EMPTY, buf[x.ptr..x.end]);
      if c.Done? { PutField(identity, st, st.(events := st.events + [c.m]), 9); }
    }
  }

  lemma NoCaseTakes(identity: Schema, tag: nat)
    requires tag !in {26, 32, 48, 56, 64, 74, 80, 88, 96, 114}
    ensures !Takes(BatchSchema(identity), tag)
  {
    hide BatchSchema;
    BatchFields(identity);
  }

  lemma UnknownCase(identity: Schema, st: BatchState, buf: bytes, ptr: nat, limit: nat)
    requires ptr < limit <= |buf|
    requires var t := ReadTag(buf, ptr, limit);
             t.NumAt? && t.v != 0 && t.v % 8 != 4 && !Takes(BatchSchema(identity), t.v)
    ensures var t := ReadTag(buf, ptr, limit);
            var x := ReadUnknown(buf, t.ptr, limit, t.v);
            x.NoUnknown? ==> Parse(BatchSchema(identity), st.Abs(), buf[ptr..limit]) == Failed
    ensures var t := ReadTag(buf, ptr, limit);
            var x := ReadUnknown(buf, t.ptr, limit, t.v);
            x.UnknownAt? ==>
              Parse(BatchSchema(identity), st.Abs(), buf[ptr..limit]) ==
              Parse(BatchSchema(identity), st.(unknown := st.unknown + [x.r]).Abs(), buf[x.ptr..limit])
  {
    hide Parse, ReadTag, ReadUnknown, Build, Takes, WFRecord, Known, BatchSchema;
    StepUnknown(BatchSchema(identity), st.Abs(), buf, ptr, limit);
    var t := ReadTag(buf, ptr, limit);
    var x := ReadUnknown(buf, t.ptr, limit, t.v);
    if x.UnknownAt? {
      BuildAppend(st.Slots(), st.unknown, x.r);
      assert st.(unknown := st.unknown + [x.r]).Slots() == st.Slots();
    }
  }

  // ---------------------------------------------------------------- merging

  function MergedSub(s: Schema, a: Option<Msg>, b: Option<Msg>): Option<Msg>
  {
    if b.Some? then Some(Merge(s, BaseOf(a), b.value)) else a
  }

  function MergedCells(x: Cells, y: Cells): Cells
  {
    seq(CELLS, c requires 0 <= c < CELLS => if y[c] != 0 then y[c] else x[c])
  }

  /** What MergeImpl leaves in each field. */
  function MergeBatches(identity: Schema, a: BatchState, b: BatchState): BatchState
  {
    BatchState(
      a.events + b.events,
      MergedSub(identity, a.source, b.source),
      MergedSub(METRIC_SEQUENCE_GAP, a.gap, b.gap),
      MergedCells(a.cells, b.cells),
      a.unknown + b.unknown)
  }

  lemma MergedBatchSlot(identity: Schema, a: BatchState, b: BatchState, k: nat)
    requires k < 15
    ensures MergedSlot(BatchSchema(identity), a.Abs(), b.Abs(), k) == MergeBatches(identity, a, b).SlotAt(k)
  {
    hide Merge, BatchState.Abs, BatchSchema, METRIC_SEQUENCE_GAP, CellOf;
    BatchFields(identity);
    AbsSlot(a, k);
    AbsSlot(b, k);
    if k == 9 { assert [] + b.events == b.events && a.events + [] == a.events; }
  }

  lemma {:induction false} MergeBatchesIsMerge(identity: Schema, a: BatchState, b: BatchState)
    ensures MergeBatches(identity, a, b).Abs() == Merge(BatchSchema(identity), a.Abs(), b.Abs())
  {
    hide Merge, MergedSlot, Build, BatchState.SlotAt, BatchSchema, MergedSub, MergedCells;
    var m := MergeBatches(identity, a, b);
    forall k: nat | k < 15
      ensures m.Slots()[k] == MergedSlot(BatchSchema(identity), a.Abs(), b.Abs(), k)
    {
      MergedBatchSlot(identity, a, b, k);
    }
    BuildMerge(BatchSchema(identity), a.Slots(), a.unknown, b.Slots(), b.unknown, m.Slots());
  }

  /** Merging into an empty batch copies it when merging into empty sub-messages does. */
  lemma MergeOntoEmpty(identity: Schema, b: BatchState)
    requires b.source.Some? ==> Merge(identity, EMPTY, b.source.value) == b.source.value
    requires b.gap.Some? ==> Merge(METRIC_SEQUENCE_GAP, EMPTY, b.gap.value) == b.gap.value
    ensures MergeBatches(identity, EMPTY_BATCH, b) == b
  {
    hide Merge;
    assert [] + b.events == b.events && [] + b.unknown == b.unknown;
    assert forall c | 0 <= c < CELLS :: EMPTY_BATCH.cells[c] == 0;
    assert MergedCells(EMPTY_BATCH.cells, b.cells) == b.cells;
  }

  // ---------------------------------------------------------------- sizes

  function VarintTerm(n: nat): nat { if n == 0 then 0 else 1 + VarintSize(n) }
  function BoolTerm(n: nat): nat { if n == 0 then 0 else 1 + 1 }

  ghost function SubTerm(s: Schema, m: Option<Msg>): nat
  {
    if m.Some? then 1 + VarintSize(ByteSize(s, m.value)) + ByteSize(s, m.value) else 0
  }

  function PlainTerms(c: Cells): nat
  {
    VarintTerm(c[BATCH_SEQUENCE]) + VarintTerm(c[CREATED_AT_UNIX_MS])
    + VarintTerm(c[FIRST_EVENT_SEQUENCE]) + VarintTerm(c[LAST_EVENT_SEQUENCE]) + VarintTerm(c[FINAL_EVENT_SEQUENCE])
    + BoolTerm(c[HEARTBEAT]) + BoolTerm(c[SOURCE_FINAL])
  }

  /** The size of the encoding, regrouped in the order the size pass visits memory. */
  lemma {:induction false} SizeOfBatch(identity: Schema, st: BatchState)
    requires st.cells[HEARTBEAT] <= 1 && st.cells[SOURCE_FINAL] <= 1
    ensures ByteSize(BatchSchema(identity), st.Abs()) ==
            ManySize(9, METRIC_EVENT, st.events) + SubTerm(identity, st.source) + SubTerm(METRIC_SEQUENCE_GAP, st.gap)
            + PlainTerms(st.cells) + |EncodeRecords(st.unknown)|
  {
    hide BatchState.Abs, FieldsSize, SizeAt, ManySize, SubTerm, BatchSchema, VarintTerm, BoolTerm;
    var s := BatchSchema(identity);
    var m := st.Abs();
    BatchFields(identity);
    AbsSlot(st, 0);
    assert FieldsSize(s, m, 0) == FieldsSize(s, m, 3) by {
      SizeStepAt(s, m, 0);
      SizeStepAt(s, m, 1);
      SizeStepAt(s, m, 2);
      SizeOfNothing(s, m, 0);
      SizeOfNothing(s, m, 1);
      SizeOfNothing(s, m, 2);
    }
    SizeStepAt(s, m, 3);
    SizeStepAt(s, m, 4);
    SizeStepAt(s, m, 5);
    SizeOfNothing(s, m, 5);
    SizeStepAt(s, m, 6);
    SizeStepAt(s, m, 7);
    SizeStepAt(s, m, 8);
    SizeStepAt(s, m, 9);
    SizeStepAt(s, m, 10);
    SizeStepAt(s, m, 11);
    SizeStepAt(s, m, 12);
    SizeStepAt(s, m, 13);
    SizeOfNothing(s, m, 13);
    SizeStepAt(s, m, 14);
    SizeStepAt(s, m, 15);
    NumberTerms(identity, st);
    OtherTerms(identity, st);
  }

  lemma NumberTerm(identity: Schema, st: BatchState, k: nat)
    requires NumberField(k)
    ensures SizeAt(BatchSchema(identity), st.Abs(), k) == VarintTerm(st.cells[CellOf(k)])
  {
    hide BatchState.Abs, SizeAt, BatchSchema, VarintSize, CellOf;
    BatchFields(identity);
    AbsSlot(st, k);
    SizeOfNum(BatchSchema(identity), st.Abs(), k, st.cells[CellOf(k)]);
  }

  lemma NumberTerms(identity: Schema, st: BatchState)
    requires st.cells[HEARTBEAT] <= 1 && st.cells[SOURCE_FINAL] <= 1
    ensures var (s, m) := (BatchSchema(identity), st.Abs());
            SizeAt(s, m, 4) + SizeAt(s, m, 6) + SizeAt(s, m, 7) + SizeAt(s, m, 8) + SizeAt(s, m, 10) + SizeAt(s, m, 11)
            + SizeAt(s, m, 12) == PlainTerms(st.cells)
  {
    hide BatchState.Abs, SizeAt, BatchSchema, VarintSize;
    NumberTerm(identity, st, 4);
    NumberTerm(identity, st, 6);
    NumberTerm(identity, st, 7);
    NumberTerm(identity, st, 8);
    NumberTerm(identity, st, 10);
    NumberTerm(identity, st, 11);
    NumberTerm(identity, st, 12);
    OneByteBool();
  }

  lemma OneByteBool()
    ensures VarintSize(1) == 1
  {
  }

  lemma OtherTerms(identity: Schema, st: BatchState)
    ensures SizeAt(BatchSchema(identity), st.Abs(), 3) == SubTerm(identity, st.source)
    ensures SizeAt(BatchSchema(identity), st.Abs(), 9) == ManySize(9, METRIC_EVENT, st.events)
    ensures SizeAt(BatchSchema(identity), st.Abs(), 14) == SubTerm(METRIC_SEQUENCE_GAP, st.gap)
  {
    hide BatchState.Abs, SizeAt, BatchSchema, VarintSize, ByteSize, ManySize;
    BatchFields(identity);
    AbsSlot(st, 3);
    AbsSlot(st, 9);
    AbsSlot(st, 14);
    if st.source.Some? {
      SizeOfSub(BatchSchema(identity), st.Abs(), 3, st.source.value);
    } else {
      SizeOfNothing(BatchSchema(identity), st.Abs(), 3);
    }
    SizeOfMany(BatchSchema(identity), st.Abs(), 9, st.events);
    if st.gap.Some? {
      SizeOfSub(BatchSchema(identity), st.Abs(), 14, st.gap.value);
    } else {
      SizeOfNothing(BatchSchema(identity), st.Abs(), 14);
    }
  }

  // ---------------------------------------------------------------- printing

  lemma PrintCell(ord: Order, identity: Schema, st: BatchState, c: Cache, k: nat, target: bytes)
    requires NumberField(k)
    ensures var (s, m, n) := (BatchSchema(identity), st.Abs(), st.cells[CellOf(k)]);
            target + Printed(ord, s, m, c, k + 1) ==
            if n == 0 then target + Printed(ord, s, m, c, k) else target + Printed(ord, s, m, c, k) + WriteVarint(k, n)
  {
    hide BatchState.Abs, Printed, WriteVarint, CellOf, BatchSchema;
    BatchFields(identity);
    AbsSlot(st, k);
    PrintNum(ord, BatchSchema(identity), st.Abs(), c, k, st.cells[CellOf(k)], target);
  }

  lemma PrintNoField(ord: Order, identity: Schema, st: BatchState, c: Cache, k: nat, target: bytes)
    requires k in {0, 1, 2, 5, 13}
    ensures var (s, m) := (BatchSchema(identity), st.Abs());
            target + Printed(ord, s, m, c, k + 1) == target + Printed(ord, s, m, c, k)
  {
    hide BatchState.Abs, Printed, BatchSchema;
    BatchFields(identity);
    PrintNone(ord, BatchSchema(identity), st.Abs(), c, k, target);
  }

  lemma PrintSubAt(ord: Order, identity: Schema, st: BatchState, c: Cache, k: nat, target: bytes)
    requires k == 3 || k == 14
    ensures var (s, m, cs, sub) := (BatchSchema(identity), st.Abs(), SubSchema(identity, k), SubAt(st, k));
            target + Printed(ord, s, m, c, k + 1) ==
            if sub.None? then target + Printed(ord, s, m, c, k)
            else
              target + Printed(ord, s, m, c, k) +
              (WriteHeader(k, Kid(c, k, 0).size) + Print(ord, cs, sub.value, Kid(c, k, 0)))
  {
    hide BatchState.Abs, Printed, WriteHeader, Print, Kid, BatchSchema, METRIC_SEQUENCE_GAP;
    BatchFields(identity);
    AbsSlot(st, k);
    if SubAt(st, k).Some? {
      PrintSub(ord, BatchSchema(identity), st.Abs(), c, k, SubAt(st, k).value, target);
    } else {
      PrintNone(ord, BatchSchema(identity), st.Abs(), c, k, target);
    }
  }

  lemma PrintEvents(ord: Order, identity: Schema, st: BatchState, c: Cache, target: bytes)
    ensures var (s, m) := (BatchSchema(identity), st.Abs());
            target + Printed(ord, s, m, c, 10) ==
            target + Printed(ord, s, m, c, 9) + PrintElements(ord, 9, METRIC_EVENT, st.events, c, 0)
  {
    hide BatchState.Abs, Printed, PrintElements, BatchSchema;
    BatchFields(identity);
    AbsSlot(st, 9);
    PrintMany(ord, BatchSchema(identity), st.Abs(), c, 9, st.events, target);
  }

  lemma LastField(identity: Schema)
    ensures BatchSchema(identity).max == 14
  {
  }

  /** The events and the two sub-messages nest. */
  lemma NestedFields(identity: Schema, st: BatchState, c: Cache)
    ensures Exact(BatchSchema(identity), st.Abs(), c) <==>
            && (forall i | 0 <= i < |st.events| :: Sound(METRIC_EVENT, st.events[i], Kid(c, 9, i)))
            && (st.source.Some? ==> Sound(identity, st.source.value, Kid(c, 3, 0)))
            && (st.gap.Some? ==> Sound(METRIC_SEQUENCE_GAP, st.gap.value, Kid(c, 14, 0)))
  {
    hide BatchState.Abs, Sound, Kid, BatchSchema, METRIC_EVENT, METRIC_SEQUENCE_GAP;
    var s, m := BatchSchema(identity), st.Abs();
    BatchFields(identity);
    AbsSlot(st, 3);
    AbsSlot(st, 9);
    AbsSlot(st, 14);
    forall k | k in s.fields && k in m.fields && k != 3 && k != 9 && k != 14
      ensures ExactField(k, s.fields[k], m.fields[k], c)
    {
      AbsSlot(st, k);
    }
    assert st.events != [] ==> 9 in m.fields && m.fields[9] == Many(st.events);
    assert st.source.Some? ==> 3 in m.fields && m.fields[3] == SubV(st.source.value);
    assert st.gap.Some? ==> 14 in m.fields && m.fields[14] == SubV(st.gap.value);
  }
}
