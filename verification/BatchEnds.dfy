/**
  Batches used end to end: size pass, print pass, and a parse into another batch.
 */
module BatchEnds {
  import opened Wire
  import opened Utf8
  import opened Message
  import opened RoundTrip
  import opened Sizes
  import opened TwoPass
  import opened Schemas
  import opened Runtime
  import opened Transport
  import opened BatchState
  import opened Batches

  /** The one string of a batch that is text, the reason of its gap, is valid UTF-8. */
  predicate Printable(b: MetricBatch)
    reads b, b.Subs()
  {
    b.gap != null ==> ValidUtf8(b.gap.reason)
  }

  /** What an event holds is a legal message: its payload is bytes, so no premise on its content is needed. */
  lemma {:induction false} EventLegal(e: MetricEvent)
    requires e.Valid()
    ensures WF(METRIC_EVENT, e.Abs())
  {
    hide WF, LegalUnknown;
    AsI32Wire(ToWire(e.factKind));
    BuildLegal(METRIC_EVENT, e.Slots(e.hasObservedAt), e.unknown);
  }

  lemma GapLegal(g: MetricSequenceGap)
    requires g.Valid() && ValidUtf8(g.reason)
    ensures WF(METRIC_SEQUENCE_GAP, g.Abs())
  {
    hide WF, LegalUnknown, ValidUtf8;
    BuildLegal(METRIC_SEQUENCE_GAP, g.Slots(), g.unknown);
  }

  lemma LegalBatchSlot(identity: Schema, st: BatchState, k: nat)
    requires k < 15 && st.SlotAt(k).Some? && st.cells[HEARTBEAT] <= 1 && st.cells[SOURCE_FINAL] <= 1
    requires forall x | x in st.events :: WF(METRIC_EVENT, x)
    requires st.source.Some? ==> WF(identity, st.source.value)
    requires st.gap.Some? ==> WF(METRIC_SEQUENCE_GAP, st.gap.value)
    ensures var s := BatchSchema(identity);
            k in s.fields && !s.fields[k].oneof && WFValue(s.fields[k], st.SlotAt(k).value)
  {
    hide WF, BatchSchema, METRIC_EVENT, METRIC_SEQUENCE_GAP;
    BatchFields(identity);
  }

  /** What a batch holds is a legal message as soon as the reason of its gap is valid. */
  lemma {:induction false} BatchLegal(b: MetricBatch)
    requires b.Valid() && Printable(b)
    ensures WF(BatchSchema(b.identity), b.Abs())
  {
    hide WF, BatchState.SlotAt, EventMessages, LegalUnknown, ValidUtf8, MetricEvent.Abs, MetricSequenceGap.Abs,
      BatchSchema, WFSchema, METRIC_EVENT, METRIC_SEQUENCE_GAP;
    var st := b.State();
    forall x | x in b.events
      ensures WF(METRIC_EVENT, x.Abs())
    {
      EventLegal(x);
    }
    if b.gap != null { GapLegal(b.gap); }
    forall k: nat | k < 15 && st.Slots()[k].Some?
      ensures var s := BatchSchema(b.identity);
              k in s.fields && !s.fields[k].oneof && WFValue(s.fields[k], st.Slots()[k].value)
    {
      LegalBatchSlot(b.identity, st, k);
    }
    BuildLegal(BatchSchema(b.identity), st.Slots(), st.unknown);
  }

  /** The size pass and the print pass over an untouched batch. */
  method Serialize(b: MetricBatch, ord: Order) returns (out: bytes)
    requires b.Valid() && ValidOrder(ord)
    modifies b`cachedSize, b.events`cachedSize, b.Subs()
    ensures b.Valid() && b.State() == old(b.State())
    ensures out == Encode(ord, BatchSchema(b.identity), b.Abs()) && |out| == b.cachedSize
  {
    hide Encode, Print, Exact, ByteSize, BatchState.Abs, BatchSchema, MetricBatch.Valid, MetricBatch.Caches, ValidOrder;
    b.ValidLength();
    var size := b.ByteSizeLong(ord);
    b.ValidLength();
    ghost var m := b.Abs();
    PrintExact(ord, BatchSchema(b.identity), m, b.Caches());
    EncodedLength(ord, BatchSchema(b.identity), m);
    out := b.InternalSerialize(ord, []);
    assert [] + Encode(ord, BatchSchema(b.identity), m) == Encode(ord, BatchSchema(b.identity), m);
  }

  /** What one batch prints another reads back: same source, same events, same gap, same numbers. */
  method Transfer(from: MetricBatch, to: MetricBatch, ord: Order) returns (ok: bool)
    requires from.Valid() && to.Valid() && from.Apart(to) && from.identity == to.identity && Printable(from)
    requires ValidOrder(ord) && ByteSize(BatchSchema(from.identity), from.Abs()) <= MAX_SIZE
    modifies from`cachedSize, from.events`cachedSize, from.Subs(), to, to.cells
    ensures ok && to.Valid() && to.Abs() == old(from.Abs())
  {
    hide Parse, Encode, ByteSize, BatchState.Abs, MetricBatch.State, WF, WFSchema, Printable, BatchSchema, LegalUnknown,
      ValidOrder;
    ghost var (s, m) := (BatchSchema(from.identity), from.Abs());
    BatchLegal(from);
    BatchTable(from.identity);
    EncodedLength(ord, s, m);
    RoundTrips(ord, s, m);
    var out := Serialize(from, ord);
    ok := ParseFrom(to, out);
  }

  /** Clears `b` and parses all of `data` into it. */
  method ParseFrom(b: MetricBatch, data: bytes) returns (ok: bool)
    requires b.cells.Length == CELLS && WFSchema(b.identity)
    modifies b, b.cells
    ensures b.Valid() && (ok <==> Parse(BatchSchema(b.identity), EMPTY, data).Done?)
    ensures ok ==> b.Abs() == Parse(BatchSchema(b.identity), EMPTY, data).m
  {
    hide Parse, BatchState.Abs, MetricBatch.State, MetricBatch.Valid, WFSchema, BatchSchema;
    b.Clear();
    b.ValidLength();
    assert data[0..|data|] == data;
    var st := b.InternalParse(data, 0, |data|);
    b.ValidLength();
    ok := st == AtLimit;
  }
}
