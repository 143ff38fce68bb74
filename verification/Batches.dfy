/**
  MetricBatch of proto/metrics/transport.pb.cc and transport.pb.h as an object that updates itself in
  place: repeated events, two lazily created sub-messages, and plain fields in one memory range.
 */
module Batches {
  import opened Options
  import opened Wire
  import opened Message
  import opened RoundTrip
  import opened MergeAlgebra
  import opened Canonical
  import opened Sizes
  import opened TwoPass
  import opened Schemas
  import opened Runtime
  import opened Transport
  import opened BatchState
  import opened Memory

  /**
    The source of a batch. Its generated code is not part of this model: any legal schema is allowed,
    and its methods do what the schema-level functions say.
   */
  class ServiceInstanceIdentity {
    const schema: Schema
    var content: Msg
    var cachedSize: nat

    ghost predicate Valid()
      reads this`content
    {
      WFSchema(schema) && WF(schema, content)
    }

    constructor (schema: Schema)
      requires WFSchema(schema)
      ensures Valid() && this.schema == schema && content == EMPTY
    {
      this.schema := schema;
      content, cachedSize := EMPTY, 0;
      new;
      EmptyLegal(schema);
    }

    constructor Copy(from: ServiceInstanceIdentity)
      requires from.Valid()
      ensures Valid() && schema == from.schema && content == from.content
    {
      schema, content, cachedSize := from.schema, from.content, 0;
    }

    method InternalParse(buf: bytes, start: nat, limit: nat) returns (st: Status)
      requires Valid() && start <= limit <= |buf|
      modifies this`content
      ensures Valid() && Agrees(Parse(schema, old(content), buf[start..limit]), st, content)
    {
      hide Parse, WF, WFSchema;
      ParseLegal(schema, content, buf[start..limit]);
      match Parse(schema, content, buf[start..limit]) {
        case Failed => return Null;
        case Done(m) =>
          content := m;
          return AtLimit;
        case Stopped(m, tag) =>
          content := m;
          return AtTag(tag);
      }
    }

    method ByteSizeLong(ord: Order) returns (total: nat)
      requires ValidOrder(ord)
      modifies this`cachedSize
      ensures total == cachedSize == ByteSize(schema, content)
    {
      hide Encode, ByteSize;
      EncodedLength(ord, schema, content);
      total := |Encode(ord, schema, content)|;
      cachedSize := total;
    }

    method InternalSerialize(ord: Order, target: bytes) returns (out: bytes)
      ensures out == target + Encode(ord, schema, content)
    {
      out := target + Encode(ord, schema, content);
    }

    method MergeFrom(from: ServiceInstanceIdentity)
      requires Valid() && from.Valid() && from != this && from.schema == schema
      modifies this`content
      ensures Valid() && content == Merge(schema, old(content), from.content)
    {
      hide Merge, WF, WFSchema;
      MergeLegal(schema, content, from.content);
      content := Merge(schema, content, from.content);
    }
  }

  // ---------------------------------------------------------------- events

  function EventMessages(es: seq<MetricEvent>): (ms: seq<Msg>)
    reads es`hasObservedAt, es`factPayload, es`eventSequence, es`observedAt, es`factKind, es`unknown
    ensures |ms| == |es|
    ensures forall i | 0 <= i < |es| :: ms[i] == es[i].Abs()
  {
    if es == [] then [] else EventMessages(es[..|es| - 1]) + [es[|es| - 1].Abs()]
  }

  function EventCaches(es: seq<MetricEvent>): (r: seq<Cache>)
    reads es`cachedSize
    ensures |r| == |es|
    ensures forall i | 0 <= i < |es| :: r[i] == Cache(es[i].cachedSize, map[])
  {
    if es == [] then [] else EventCaches(es[..|es| - 1]) + [Cache(es[|es| - 1].cachedSize, map[])]
  }

  lemma EventsAppend(es: seq<MetricEvent>, e: MetricEvent)
    ensures EventMessages(es + [e]) == EventMessages(es) + [e.Abs()]
  {
    assert (es + [e])[..|es|] == es;
  }

  lemma {:induction false} EventsConcat(a: seq<MetricEvent>, b: seq<MetricEvent>)
    ensures EventMessages(a + b) == EventMessages(a) + EventMessages(b)
    decreases |b|
  {
    hide MetricEvent.Abs;
    if b == [] {
      assert a + b == a;
    } else {
      var e := b[|b| - 1];
      assert a + b == (a + b[..|b| - 1]) + [e];
      EventsConcat(a, b[..|b| - 1]);
      EventsAppend(a + b[..|b| - 1], e);
      Wire.AssociativeSeq(EventMessages(a), EventMessages(b[..|b| - 1]), [e.Abs()]);
    }
  }

  function SourceContent(p: ServiceInstanceIdentity?): Option<Msg>
    reads if p == null then {} else {p}
  {
    if p == null then None else Some(p.content)
  }

  /** What lies below the source is sized by its own class, which is not part of this model. */
  ghost function SourceCaches(p: ServiceInstanceIdentity?): seq<Cache>
    reads if p == null then {} else {p}
  {
    if p == null then [] else [Cache(p.cachedSize, Sized(p.schema, p.content).kids)]
  }

  function GapCaches(p: MetricSequenceGap?): seq<Cache>
    reads if p == null then {} else {p}
  {
    if p == null then [] else [Cache(p.cachedSize, map[])]
  }

  function GapContent(p: MetricSequenceGap?): Option<Msg>
    reads if p == null then {} else {p}
  {
    if p == null then None else Some(p.Abs())
  }

  /** What `delete` destroys: nothing when the pointer is null. */
  function Pointed(p: object?): multiset<object> { if p == null then multiset{} else multiset{p} }

  class MetricBatch {
    const identity: Schema
    var events: seq<MetricEvent>
    var source: ServiceInstanceIdentity?
    var gap: MetricSequenceGap?
    const cells: array<u64>
    var unknown: seq<Record>
    var cachedSize: nat
    ghost var deleted: multiset<object>

    function Subs(): set<object>
      reads this`source, this`gap
    {
      (if source == null then {} else {source}) + (if gap == null then {} else {gap})
    }

    function State(): BatchState
      requires cells.Length == CELLS
      reads this`events, this`source, this`gap, this`unknown, cells, Subs()
      reads events`hasObservedAt, events`factPayload, events`eventSequence, events`observedAt, events`factKind,
            events`unknown
    {
      BatchState(EventMessages(events), SourceContent(source), GapContent(gap), cells[..], unknown)
    }

    function Abs(): Msg
      requires cells.Length == CELLS
      reads this`events, this`source, this`gap, this`unknown, cells, Subs()
      reads events`hasObservedAt, events`factPayload, events`eventSequence, events`observedAt, events`factKind,
            events`unknown
    {
      State().Abs()
    }

    ghost predicate Valid()
      reads this`events, this`source, this`gap, this`unknown, cells, Subs()
      reads events`hasObservedAt, events`observedAt, events`unknown
    {
      && cells.Length == CELLS && cells[HEARTBEAT] <= 1 && cells[SOURCE_FINAL] <= 1
      && WFSchema(identity) && LegalUnknown(BatchSchema(identity), unknown)
      && (forall e | e in events :: e.Valid())
      && (source != null ==> source.Valid() && source.schema == identity)
      && (gap != null ==> gap.Valid())
    }

    constructor (identity: Schema)
      requires WFSchema(identity)
      ensures Valid() && this.identity == identity && State() == EMPTY_BATCH && Abs() == EMPTY && fresh(cells)
      ensures deleted == multiset{}
    {
      this.identity := identity;
      cells := new u64[CELLS](_ => 0);
      events, source, gap := [], null, null;
      unknown, cachedSize, deleted := [], 0, multiset{};
      new;
      assert State() == EMPTY_BATCH;
      EmptyBatch();
    }

    // -------------------------------------------------------------- the sub-messages

    /** The gap, created on first use. */
    method MutableGap() returns (p: MetricSequenceGap)
      requires Valid()
      modifies this`gap
      ensures Valid() && gap == p && (p == old(gap) || fresh(p))
      ensures State() == old(State()).(gap := Some(BaseOf(old(State()).gap)))
    {
      hide BatchState.SlotAt, EventMessages, LegalUnknown, WF, WFSchema, MetricSequenceGap.Abs;
      if gap == null {
        var made := new MetricSequenceGap();
        gap := made;
      }
      p := gap;
    }

    /** The caller takes the gap over; none is reported afterwards. */
    method ReleaseGap() returns (temp: MetricSequenceGap?)
      requires Valid()
      modifies this`gap
      ensures Valid() && temp == old(gap) && gap == null && State() == old(State()).(gap := None)
    {
      hide BatchState.SlotAt, EventMessages, LegalUnknown, WF, WFSchema, MetricSequenceGap.Abs;
      temp := gap;
      gap := null;
    }

    /** The old gap is deleted before the new one is stored, so they must differ. */
    method SetAllocatedGap(given: MetricSequenceGap?)
      requires Valid() && (given != null ==> given != gap && given.Valid())
      modifies this`gap, this`deleted
      ensures Valid() && gap == given && State() == old(State()).(gap := GapContent(given))
      ensures deleted == old(deleted) + Pointed(old(gap))
    {
      hide BatchState.SlotAt, EventMessages, LegalUnknown, WF, WFSchema, MetricSequenceGap.Abs;
      deleted := deleted + Pointed(gap);
      gap := given;
    }

    method ClearGap()
      requires Valid()
      modifies this`gap, this`deleted
      ensures Valid() && gap == null && State() == old(State()).(gap := None)
      ensures deleted == old(deleted) + Pointed(old(gap))
    {
      hide BatchState.SlotAt, EventMessages, LegalUnknown, WF, WFSchema, MetricSequenceGap.Abs;
      deleted := deleted + Pointed(gap);
      gap := null;
    }

    method MutableSource() returns (p: ServiceInstanceIdentity)
      requires Valid()
      modifies this`source
      ensures Valid() && source == p && (p == old(source) || fresh(p))
      ensures State() == old(State()).(source := Some(BaseOf(old(State()).source)))
    {
      hide BatchState.SlotAt, EventMessages, LegalUnknown, WF, WFSchema, MetricSequenceGap.Abs;
      if source == null {
        var made := new ServiceInstanceIdentity(identity);
        source := made;
      }
      p := source;
    }

    // -------------------------------------------------------------- parsing

    method InternalParse(buf: bytes, start: nat, limit: nat) returns (st: Status)
      requires Valid() && start <= limit <= |buf|
      modifies this, cells, Subs()
      ensures Valid()
      ensures Agrees(Parse(BatchSchema(identity), old(Abs()), buf[start..limit]), st, Abs())
      ensures forall o | o in Subs() :: o in old(Subs()) || fresh(o)
      ensures forall e | e in events :: e in old(events) || fresh(e)
      ensures deleted == old(deleted)
    {
      hide Parse, ReadTag, BatchState.Abs, MetricBatch.State, MetricBatch.Valid, BatchSchema;
      var ptr := start;
      assert cells.Length == CELLS by { ValidLength(); }
      while ptr < limit
        invariant start <= ptr <= limit && Valid() && cells.Length == CELLS && deleted == old(deleted)
        invariant forall o | o in Subs() :: o in old(Subs()) || fresh(o)
        invariant forall e | e in events :: e in old(events) || fresh(e)
        invariant Parse(BatchSchema(identity), State().Abs(), buf[ptr..limit]) ==
                  Parse(BatchSchema(identity), old(Abs()), buf[start..limit])
        decreases limit - ptr
      {
        StepTag(BatchSchema(identity), State().Abs(), buf, ptr, limit);
        var t := ReadTag(buf, ptr, limit);
        if t.NoNum? { return Null; }
        var step := SwitchCase(buf, ptr, limit, t);
        if step.Bad? { return Null; }
        if step.Next? { ptr := step.ptr; continue; }
        if t.v == 0 || t.v % 8 == 4 { return AtTag(t.v); }
        step := KeepUnknown(buf, ptr, limit, t);
        if step.Bad? { return Null; }
        ptr := step.ptr;
      }
      ParseEnd(BatchSchema(identity), Abs(), buf, limit);
      return AtLimit;
    }

    lemma ValidLength()
      requires Valid()
      ensures cells.Length == CELLS
    {
    }

    method KeepUnknown(buf: bytes, ptr: nat, limit: nat, t: NumAt) returns (step: Step)
      requires Valid() && ptr < limit <= |buf| && t == ReadTag(buf, ptr, limit) && t.NumAt?
      requires t.v !in {26, 32, 48, 56, 64, 74, 80, 88, 96, 114} && t.v != 0 && t.v % 8 != 4
      modifies this`unknown
      ensures Valid() && !step.NotTaken?
      ensures step.Bad? ==> Parse(BatchSchema(identity), old(State()).Abs(), buf[ptr..limit]) == Failed
      ensures step.Next? ==>
                ptr < step.ptr <= limit
                && Parse(BatchSchema(identity), old(State()).Abs(), buf[ptr..limit]) ==
                   Parse(BatchSchema(identity), State().Abs(), buf[step.ptr..limit])
    {
      hide Parse, ReadTag, ReadUnknown, BatchState.Abs, EventMessages, LegalUnknown, WF, WFSchema, BatchSchema,
        MetricSequenceGap.Abs;
      NoCaseTakes(identity, t.v);
      UnknownCase(identity, State(), buf, ptr, limit);
      StepUnknown(BatchSchema(identity), State().Abs(), buf, ptr, limit);
      var u := ReadUnknown(buf, t.ptr, limit, t.v);
      if u.NoUnknown? { return Bad; }
      LegalAppend(BatchSchema(identity), unknown, u.r);
      unknown := unknown + [u.r];
      return Next(u.ptr);
    }

    /** The switch on a tag: not taken by any case, taken and failed, or taken and read up to a position. */
    method SwitchCase(buf: bytes, ptr: nat, limit: nat, t: NumAt) returns (step: Step)
      requires Valid() && ptr < limit <= |buf| && t == ReadTag(buf, ptr, limit) && t.NumAt?
      modifies this`events, this`source, this`gap, cells, Subs()
      ensures Valid()
      ensures step.NotTaken? <==> t.v !in {26, 32, 48, 56, 64, 74, 80, 88, 96, 114}
      ensures step.NotTaken? ==> State() == old(State())
      ensures step.Bad? ==> Parse(BatchSchema(identity), old(State()).Abs(), buf[ptr..limit]) == Failed
      ensures step.Next? ==>
                ptr < step.ptr <= limit
                && Parse(BatchSchema(identity), old(State()).Abs(), buf[ptr..limit]) ==
                   Parse(BatchSchema(identity), State().Abs(), buf[step.ptr..limit])
      ensures forall o | o in Subs() :: o in old(Subs()) || fresh(o)
      ensures forall e | e in events :: e in old(events) || fresh(e)
    {
      hide Parse, ReadTag, BatchState.Abs, MetricBatch.State, MetricBatch.Valid, BatchSchema, CellOf;
      step := NotTaken;
      if t.v / 8 == 3 && t.v % 256 == 26 {
        step := ParseSource(buf, ptr, limit, t);
      } else if t.v / 8 == 4 && t.v % 256 == 32 {
        step := ParseNumber(buf, ptr, limit, t, 4);
      } else if t.v / 8 == 6 && t.v % 256 == 48 {
        step := ParseNumber(buf, ptr, limit, t, 6);
      } else if t.v / 8 == 7 && t.v % 256 == 56 {
        step := ParseNumber(buf, ptr, limit, t, 7);
      } else if t.v / 8 == 8 && t.v % 256 == 64 {
        step := ParseNumber(buf, ptr, limit, t, 8);
      } else if t.v / 8 == 9 && t.v % 256 == 74 {
        step := ParseEvents(buf, ptr, limit);
      } else if t.v / 8 == 10 && t.v % 256 == 80 {
        step := ParseNumber(buf, ptr, limit, t, 10);
      } else if t.v / 8 == 11 && t.v % 256 == 88 {
        step := ParseNumber(buf, ptr, limit, t, 11);
      } else if t.v / 8 == 12 && t.v % 256 == 96 {
        step := ParseNumber(buf, ptr, limit, t, 12);
      } else if t.v / 8 == 14 && t.v % 256 == 114 {
        step := ParseGap(buf, ptr, limit, t);
      }
    }

    /** Cases 4, 6, 7, 8, 10, 11 and 12: the varint goes to the field's cell, a bool as 0 or 1. */
    method ParseNumber(buf: bytes, ptr: nat, limit: nat, t: NumAt, k: nat) returns (step: Step)
      requires Valid() && ptr < limit <= |buf| && t == ReadTag(buf, ptr, limit) && t.NumAt?
      requires NumberField(k) && t.v == 8 * k
      modifies cells
      ensures Valid() && !step.NotTaken?
      ensures step.Bad? ==> Parse(BatchSchema(identity), old(State()).Abs(), buf[ptr..limit]) == Failed
      ensures step.Next? ==>
                ptr < step.ptr <= limit
                && Parse(BatchSchema(identity), old(State()).Abs(), buf[ptr..limit]) ==
                   Parse(BatchSchema(identity), State().Abs(), buf[step.ptr..limit])
    {
      hide Parse, ReadTag, ReadVarint64, BatchState.Abs, EventMessages, LegalUnknown, WF, WFSchema, BatchSchema,
        MetricSequenceGap.Abs;
      ghost var before := State();
      VarintCase(identity, before, buf, ptr, limit, k);
      var x := ReadVarint64(buf, t.ptr, limit);
      if x.NoNum? { return Bad; }
      cells[CellOf(k)] := Stored(k, x.v);
      assert State() == Store(before, k, Stored(k, x.v));
      return Next(x.ptr);
    }

    method ParseGap(buf: bytes, ptr: nat, limit: nat, t: NumAt) returns (step: Step)
      requires Valid() && ptr < limit <= |buf| && t == ReadTag(buf, ptr, limit) && t.NumAt? && t.v == 114
      modifies this`gap, Subs()
      ensures Valid() && !step.NotTaken?
      ensures step.Bad? ==> Parse(BatchSchema(identity), old(State()).Abs(), buf[ptr..limit]) == Failed
      ensures step.Next? ==>
                ptr < step.ptr <= limit
                && Parse(BatchSchema(identity), old(State()).Abs(), buf[ptr..limit]) ==
                   Parse(BatchSchema(identity), State().Abs(), buf[step.ptr..limit])
      ensures forall o | o in Subs() :: o in old(Subs()) || fresh(o)
    {
      hide Parse, ReadTag, ReadSize, BatchState.Abs, EventMessages, LegalUnknown, WF, WFSchema, BatchSchema,
        MetricSequenceGap.Abs;
      ghost var before := State();
      SubCase(identity, before, buf, ptr, limit, 14);
      var p := MutableGap();
      var x := ReadSize(buf, t.ptr, limit);
      if x.NoSpan? { return Bad; }
      var inner := p.InternalParse(buf, x.ptr, x.end);
      if inner != AtLimit { return Bad; }
      assert State() == WithSub(before, 14, Some(p.Abs()));
      return Next(x.end);
    }

    method ParseSource(buf: bytes, ptr: nat, limit: nat, t: NumAt) returns (step: Step)
      requires Valid() && ptr < limit <= |buf| && t == ReadTag(buf, ptr, limit) && t.NumAt? && t.v == 26
      modifies this`source, Subs()
      ensures Valid() && !step.NotTaken?
      ensures step.Bad? ==> Parse(BatchSchema(identity), old(State()).Abs(), buf[ptr..limit]) == Failed
      ensures step.Next? ==>
                ptr < step.ptr <= limit
                && Parse(BatchSchema(identity), old(State()).Abs(), buf[ptr..limit]) ==
                   Parse(BatchSchema(identity), State().Abs(), buf[step.ptr..limit])
      ensures forall o | o in Subs() :: o in old(Subs()) || fresh(o)
    {
      hide Parse, ReadTag, ReadSize, BatchState.Abs, EventMessages, LegalUnknown, WF, WFSchema, BatchSchema,
        MetricSequenceGap.Abs;
      ghost var before := State();
      SubCase(identity, before, buf, ptr, limit, 3);
      var p := MutableSource();
      var x := ReadSize(buf, t.ptr, limit);
      if x.NoSpan? { return Bad; }
      var inner := p.InternalParse(buf, x.ptr, x.end);
      if inner != AtLimit { return Bad; }
      assert State() == WithSub(before, 3, Some(p.content));
      return Next(x.end);
    }

    /** A new event, parsed from its span; it stays in the list even when that fails. */
    method AddEvent(buf: bytes, start: nat, limit: nat) returns (inner: Status)
      requires Valid() && start <= limit <= |buf|
      modifies this`events
      ensures Valid()
      ensures |events| == |old(events)| + 1 && fresh(events[|events| - 1])
      ensures forall e | e in events :: e in old(events) || fresh(e)
      ensures Agrees(Parse(METRIC_EVENT, EMPTY, buf[start..limit]), inner, events[|events| - 1].Abs())
      ensures State() == old(State()).(events := old(State()).events + [events[|events| - 1].Abs()])
    {
      hide Parse, BatchState.SlotAt, EventMessages, LegalUnknown, WF, WFSchema, MetricSequenceGap.Abs, MetricEvent.Abs;
      var event := new MetricEvent();
      inner := event.InternalParse(buf, start, limit);
      EventsAppend(events, event);
      events := events + [event];
    }

    /** Case 9: consecutive events are consumed without going back to the switch. */
    method ParseEvents(buf: bytes, start: nat, limit: nat) returns (step: Step)
      requires Valid() && start < limit <= |buf|
      requires ReadTag(buf, start, limit).NumAt? && ReadTag(buf, start, limit).v == 74
      modifies this`events
      ensures Valid() && !step.NotTaken?
      ensures forall e | e in events :: e in old(events) || fresh(e)
      ensures step.Next? ==> start < step.ptr <= limit
      ensures Parse(BatchSchema(identity), old(State()).Abs(), buf[start..limit]) ==
              if step.Next? then Parse(BatchSchema(identity), State().Abs(), buf[step.ptr..limit]) else Failed
    {
      hide Parse, ReadTag, ReadSize, BatchState.Abs, MetricBatch.State, MetricBatch.Valid, BatchSchema, METRIC_EVENT,
        MetricEvent.Abs;
      ghost var tagAt: nat := start;
      var ptr := ReadTag(buf, start, limit).ptr;
      assert cells.Length == CELLS by { ValidLength(); }
      while true
        invariant Valid()
        invariant forall e | e in events :: e in old(events) || fresh(e)
        invariant start <= tagAt < ptr <= limit && ReadTag(buf, tagAt, limit) == NumAt(74, ptr)
        invariant Parse(BatchSchema(identity), old(State()).Abs(), buf[start..limit]) ==
                  Parse(BatchSchema(identity), State().Abs(), buf[tagAt..limit])
        decreases limit - ptr
      {
        EventCase(identity, State(), buf, tagAt, limit);
        var x := ReadSize(buf, ptr, limit);
        if x.NoSpan? { return Bad; }
        var inner := AddEvent(buf, x.ptr, x.end);
        if inner != AtLimit { return Bad; }
        ptr := x.end;
        if ptr >= limit || buf[ptr] != 74 { return Next(ptr); }
        ExpectTag(buf, ptr, limit, 74);
        tagAt := ptr;
        ptr := ptr + 1;
      }
    }

    // -------------------------------------------------------------- size and print

    /** The sizes cached in this object and those nested in it. */
    ghost function Caches(): Cache
      reads this`cachedSize, this`events, this`source, this`gap, events`cachedSize, Subs()
    {
      Cache(cachedSize, map[9 := EventCaches(events), 3 := SourceCaches(source), 14 := GapCaches(gap)])
    }

    lemma KidCaches()
      ensures forall i | 0 <= i < |events| :: Kid(Caches(), 9, i) == Cache(events[i].cachedSize, map[])
      ensures source != null ==>
              Kid(Caches(), 3, 0) == Cache(source.cachedSize, Sized(source.schema, source.content).kids)
      ensures gap != null ==> Kid(Caches(), 14, 0) == Cache(gap.cachedSize, map[])
    {
      hide Sized;
    }

    /** Every nested object carries its own size. */
    ghost predicate Cached()
      reads this`events, this`source, this`gap, events, source, gap
    {
      && (forall e | e in events :: e.cachedSize == ByteSize(METRIC_EVENT, e.Abs()))
      && (source != null ==> source.cachedSize == ByteSize(source.schema, source.content))
      && (gap != null ==> gap.cachedSize == ByteSize(METRIC_SEQUENCE_GAP, gap.Abs()))
    }

    /** The caches are right exactly when every nested object carries its own size. */
    lemma {:induction false} CachedExactly()
      requires Valid()
      ensures Cached() <==> Exact(BatchSchema(identity), Abs(), Caches())
    {
      hide BatchState.Abs, BatchState.SlotAt, EventMessages, MetricEvent.Abs, MetricSequenceGap.Abs, ByteSize, Exact,
        BatchSchema, METRIC_EVENT, METRIC_SEQUENCE_GAP, Leaf, Kid, MetricBatch.Caches, Sized, LegalUnknown, WF,
        WFSchema;
      var c := Caches();
      KidCaches();
      LeafTables();
      NestedFields(identity, State(), c);
      forall i | 0 <= i < |events|
        ensures Sound(METRIC_EVENT, EventMessages(events)[i], Kid(c, 9, i)) <==>
                events[i].cachedSize == ByteSize(METRIC_EVENT, events[i].Abs())
      {
        LeafExact(METRIC_EVENT, events[i].Abs(), Kid(c, 9, i));
      }
      if source != null { SizedKids(identity, source.content, Kid(c, 3, 0)); }
      if gap != null { LeafExact(METRIC_SEQUENCE_GAP, gap.Abs(), Kid(c, 14, 0)); }
    }

    /** The size pass visits the events first, then the sub-messages, then the plain fields as laid out. */
    method ByteSizeLong(ord: Order) returns (total: nat)
      requires Valid() && ValidOrder(ord)
      modifies this`cachedSize, events`cachedSize, Subs()
      ensures Valid() && State() == old(State())
      ensures total == cachedSize == ByteSize(BatchSchema(identity), Abs())
      ensures Exact(BatchSchema(identity), Abs(), Caches())
    {
      hide BatchState.Abs, BatchState.SlotAt, ByteSize, ManySize, SubTerm, PlainTerms, EventMessages,
        MetricBatch.Cached, BatchSchema, LegalUnknown, WF, WFSchema, Exact, MetricBatch.Caches;
      SizeOfBatch(identity, State());
      total := NestedSizes(ord);
      var plain := PlainSizes();
      total := total + plain + |EncodeRecords(unknown)|;
      SetCachedSize(total);
      CachedExactly();
    }

    method SetCachedSize(size: nat)
      requires Valid() && Cached()
      modifies this`cachedSize
      ensures Valid() && Cached() && State() == old(State()) && cachedSize == size
    {
      hide EventMessages, MetricEvent.Abs, MetricSequenceGap.Abs, ByteSize, LegalUnknown, WF, WFSchema, BatchSchema;
      cachedSize := size;
    }

    /** Sizes every nested object; what they hold does not change. */
    method NestedSizes(ord: Order) returns (total: nat)
      requires Valid() && ValidOrder(ord)
      modifies events`cachedSize, Subs()
      ensures Valid() && State() == old(State()) && Cached()
      ensures total == ManySize(9, METRIC_EVENT, State().events) + SubTerm(identity, State().source)
                       + SubTerm(METRIC_SEQUENCE_GAP, State().gap)
    {
      hide BatchState.SlotAt, ByteSize, ManySize, SubTerm, EventMessages, GapContent, MetricEvent.Abs,
        MetricSequenceGap.Slots, BatchSchema, LegalUnknown, WF, WFSchema;
      total := EventsSize();
      var n := SubSizes(ord);
      total := total + n;
    }

    method SubSizes(ord: Order) returns (total: nat)
      requires Valid() && ValidOrder(ord)
      modifies Subs()
      ensures Valid()
      ensures SourceContent(source) == old(SourceContent(source)) && GapContent(gap) == old(GapContent(gap))
      ensures total == SubTerm(identity, SourceContent(source)) + SubTerm(METRIC_SEQUENCE_GAP, GapContent(gap))
      ensures source != null ==> source.cachedSize == ByteSize(source.schema, source.content)
      ensures gap != null ==> gap.cachedSize == ByteSize(METRIC_SEQUENCE_GAP, gap.Abs())
    {
      hide ByteSize, SubTerm, EventMessages, MetricSequenceGap.Abs, BatchSchema, LegalUnknown, WF, WFSchema;
      total := SourceSize(ord);
      var g := GapSize();
      total := total + g;
    }

    method EventsSize() returns (total: nat)
      modifies events`cachedSize
      ensures total == ManySize(9, METRIC_EVENT, EventMessages(events))
      ensures forall e | e in events :: e.cachedSize == ByteSize(METRIC_EVENT, e.Abs())
    {
      hide ByteSize, EventMessages, MetricEvent.Abs, ManySize, VarintSize;
      total := |events|;
      var i := 0;
      NothingToSize(9, METRIC_EVENT);
      while i < |events|
        invariant i <= |events|
        invariant total == |events| - i + ManySize(9, METRIC_EVENT, EventMessages(events[..i]))
        invariant forall e | e in events[..i] :: e.cachedSize == ByteSize(METRIC_EVENT, e.Abs())
      {
        var size := events[i].ByteSizeLong();
        total := total + VarintSize(size) + size;
        EventsAppend(events[..i], events[i]);
        assert events[..i + 1] == events[..i] + [events[i]];
        ManySizeAppend(9, METRIC_EVENT, EventMessages(events[..i]), events[i].Abs());
        OneByteTag(9);
        i := i + 1;
      }
      assert events[..i] == events;
    }

    method SourceSize(ord: Order) returns (total: nat)
      requires Valid() && ValidOrder(ord)
      modifies if source == null then {} else {source}
      ensures Valid() && SourceContent(source) == old(SourceContent(source))
      ensures total == SubTerm(identity, SourceContent(source))
      ensures source != null ==> source.cachedSize == ByteSize(source.schema, source.content)
    {
      hide ByteSize, VarintSize, LegalUnknown, WF, WFSchema, EventMessages, BatchSchema;
      total := 0;
      if source != null {
        var n := source.ByteSizeLong(ord);
        total := 1 + VarintSize(n) + n;
      }
    }

    method GapSize() returns (total: nat)
      requires Valid()
      modifies if gap == null then {} else {gap}
      ensures Valid() && GapContent(gap) == old(GapContent(gap))
      ensures total == SubTerm(METRIC_SEQUENCE_GAP, GapContent(gap))
      ensures gap != null ==> gap.cachedSize == ByteSize(METRIC_SEQUENCE_GAP, gap.Abs())
    {
      hide ByteSize, VarintSize, LegalUnknown, WF, WFSchema, EventMessages, BatchSchema, MetricSequenceGap.Slots;
      total := 0;
      if gap != null {
        var n := gap.ByteSizeLong();
        total := 1 + VarintSize(n) + n;
      }
    }

    method PlainSizes() returns (total: nat)
      requires cells.Length == CELLS
      ensures total == PlainTerms(cells[..])
    {
      hide VarintSize;
      total := 0;
      if cells[BATCH_SEQUENCE] != 0 { total := total + 1 + VarintSize(cells[BATCH_SEQUENCE]); }
      if cells[CREATED_AT_UNIX_MS] != 0 { total := total + 1 + VarintSize(cells[CREATED_AT_UNIX_MS]); }
      if cells[FIRST_EVENT_SEQUENCE] != 0 { total := total + 1 + VarintSize(cells[FIRST_EVENT_SEQUENCE]); }
      if cells[LAST_EVENT_SEQUENCE] != 0 { total := total + 1 + VarintSize(cells[LAST_EVENT_SEQUENCE]); }
      if cells[FINAL_EVENT_SEQUENCE] != 0 { total := total + 1 + VarintSize(cells[FINAL_EVENT_SEQUENCE]); }
      if cells[HEARTBEAT] != 0 { total := total + 1 + 1; }
      if cells[SOURCE_FINAL] != 0 { total := total + 1 + 1; }
    }

    /** The print pass visits the fields by number and trusts the cached sizes for the length prefixes. */
    method InternalSerialize(ord: Order, target: bytes) returns (out: bytes)
      requires Valid() && ValidOrder(ord)
      ensures out == target + Print(ord, BatchSchema(identity), Abs(), Caches())
    {
      hide Printed, Print, EncodeRecords, MetricBatch.Valid, ValidOrder, BatchSchema, EventMessages, BatchState.Abs,
        GapContent, EventCaches, SourceCaches, GapCaches, Kid;
      AbsUnknown();
      LastField(identity);
      ghost var c := Caches();
      KidCaches();
      out := SerializeFields(ord, c, target);
      PrintEnd(ord, BatchSchema(identity), Abs(), c, target);
      out := out + EncodeRecords(unknown);
    }

    /** `c` lists the sizes that are cached in the nested objects. */
    ghost predicate Describes(c: Cache)
      reads this`events, this`source, this`gap, events`cachedSize, Subs()
    {
      && (forall i | 0 <= i < |events| :: Kid(c, 9, i) == Cache(events[i].cachedSize, map[]))
      && (source != null ==> Kid(c, 3, 0) == Cache(source.cachedSize, Sized(source.schema, source.content).kids))
      && (gap != null ==> Kid(c, 14, 0) == Cache(gap.cachedSize, map[]))
    }

    method SerializeFields(ord: Order, ghost c: Cache, target: bytes) returns (out: bytes)
      requires Valid() && ValidOrder(ord) && Describes(c)
      ensures out == target + Printed(ord, BatchSchema(identity), Abs(), c, 15)
    {
      hide Printed, MetricBatch.Valid, Kid, Sized, ValidOrder, BatchSchema, EventMessages, BatchState.Abs, GapContent;
      AbsUnknown();
      out := SerializeUpToEvents(ord, c, target);
      out := SerializeFlags(ord, c, target, out);
      out := SerializeGap(ord, c, target, out);
    }

    method SerializeUpToEvents(ord: Order, ghost c: Cache, target: bytes) returns (out: bytes)
      requires Valid() && ValidOrder(ord) && Describes(c)
      ensures out == target + Printed(ord, BatchSchema(identity), Abs(), c, 10)
    {
      hide Printed, MetricBatch.Valid, Kid, Sized, ValidOrder, BatchSchema, EventMessages, BatchState.Abs, GapContent;
      AbsUnknown();
      out := SerializeSource(ord, c, target);
      out := SerializeNumbers(ord, c, target, out);
      out := SerializeEvents(ord, c, target, out);
    }

    lemma AbsUnknown()
      requires Valid()
      ensures cells.Length == CELLS && Abs().unknown == unknown
    {
      hide BatchState.Abs, BatchState.SlotAt, EventMessages;
      AbsSlot(State(), 0);
    }

    /** Field 3. */
    method SerializeSource(ord: Order, ghost c: Cache, target: bytes) returns (out: bytes)
      requires Valid() && ValidOrder(ord) && Describes(c)
      ensures out == target + Printed(ord, BatchSchema(identity), Abs(), c, 4)
    {
      hide BatchState.Abs, Printed, Print, Encode, WriteHeader, EventMessages, ValidOrder, BatchSchema,
        MetricSequenceGap.Abs, MetricEvent.Abs, METRIC_EVENT, METRIC_SEQUENCE_GAP, LegalUnknown, WF, WFSchema, Kid,
        Sized, Exact;
      ghost var st := State();
      PrintStart(ord, BatchSchema(identity), st.Abs(), c, target);
      PrintNoField(ord, identity, st, c, 0, target);
      PrintNoField(ord, identity, st, c, 1, target);
      PrintNoField(ord, identity, st, c, 2, target);
      PrintSubAt(ord, identity, st, c, 3, target);
      out := target;
      if source != null {
        SizedKids(identity, source.content, Kid(c, 3, 0));
        PrintExact(ord, identity, source.content, Kid(c, 3, 0));
        out := out + WriteHeader(3, source.cachedSize);
        out := source.InternalSerialize(ord, out);
        Wire.Associative(target, WriteHeader(3, source.cachedSize), Encode(ord, identity, source.content));
      }
    }

    /** Fields 4 to 8. */
    method SerializeNumbers(ghost ord: Order, ghost c: Cache, ghost target: bytes, before: bytes) returns (out: bytes)
      requires cells.Length == CELLS
      requires before == target + Printed(ord, BatchSchema(identity), Abs(), c, 4)
      ensures out == target + Printed(ord, BatchSchema(identity), Abs(), c, 9)
    {
      hide BatchState.Abs, BatchState.SlotAt, Printed, WriteVarint, EventMessages, BatchSchema, MetricSequenceGap.Abs;
      ghost var st := State();
      out := before;
      PrintCell(ord, identity, st, c, 4, target);
      if cells[BATCH_SEQUENCE] != 0 { out := out + WriteVarint(4, cells[BATCH_SEQUENCE]); }
      PrintNoField(ord, identity, st, c, 5, target);
      PrintCell(ord, identity, st, c, 6, target);
      if cells[CREATED_AT_UNIX_MS] != 0 { out := out + WriteVarint(6, cells[CREATED_AT_UNIX_MS]); }
      PrintCell(ord, identity, st, c, 7, target);
      if cells[FIRST_EVENT_SEQUENCE] != 0 { out := out + WriteVarint(7, cells[FIRST_EVENT_SEQUENCE]); }
      PrintCell(ord, identity, st, c, 8, target);
      if cells[LAST_EVENT_SEQUENCE] != 0 { out := out + WriteVarint(8, cells[LAST_EVENT_SEQUENCE]); }
    }

    /** Field 9: a header with the cached size in front of every event. */
    method SerializeEvents(ghost ord: Order, ghost c: Cache, ghost target: bytes, before: bytes) returns (out: bytes)
      requires cells.Length == CELLS && Describes(c)
      requires before == target + Printed(ord, BatchSchema(identity), Abs(), c, 9)
      ensures out == target + Printed(ord, BatchSchema(identity), Abs(), c, 10)
    {
      hide BatchState.Abs, BatchState.SlotAt, Printed, Print, Encode, WriteHeader, EventMessages, PrintElements,
        MetricEvent.Abs, MetricSequenceGap.Abs, BatchSchema, Kid, Leaf, Sized;
      out := before;
      NoElements(ord, 9, METRIC_EVENT, c);
      LeafTables();
      for i := 0 to |events|
        invariant out == before + PrintElements(ord, 9, METRIC_EVENT, EventMessages(events[..i]), c, 0)
      {
        var event := events[i];
        ghost var done := PrintElements(ord, 9, METRIC_EVENT, EventMessages(events[..i]), c, 0);
        out := out + WriteHeader(9, event.cachedSize);
        out := event.InternalSerialize(ord, out);
        EventsAppend(events[..i], event);
        assert events[..i + 1] == events[..i] + [event];
        PrintElement(ord, 9, METRIC_EVENT, EventMessages(events[..i]), event.Abs(), c, 0);
        PrintLeaf(ord, METRIC_EVENT, event.Abs(), Kid(c, 9, i));
        ghost var header, content := WriteHeader(9, event.cachedSize), Encode(ord, METRIC_EVENT, event.Abs());
        Wire.Associative(before + done, header, content);
        Wire.Associative(before, done, header + content);
      }
      assert events[..|events|] == events;
      PrintEvents(ord, identity, State(), c, target);
    }

    /** Fields 10 to 12. */
    method SerializeFlags(ghost ord: Order, ghost c: Cache, ghost target: bytes, before: bytes) returns (out: bytes)
      requires cells.Length == CELLS
      requires before == target + Printed(ord, BatchSchema(identity), Abs(), c, 10)
      ensures out == target + Printed(ord, BatchSchema(identity), Abs(), c, 14)
    {
      hide BatchState.Abs, BatchState.SlotAt, Printed, WriteVarint, EventMessages, BatchSchema, MetricSequenceGap.Abs;
      ghost var st := State();
      out := before;
      PrintCell(ord, identity, st, c, 10, target);
      if cells[HEARTBEAT] != 0 { out := out + WriteVarint(10, cells[HEARTBEAT]); }
      PrintCell(ord, identity, st, c, 11, target);
      if cells[SOURCE_FINAL] != 0 { out := out + WriteVarint(11, cells[SOURCE_FINAL]); }
      PrintCell(ord, identity, st, c, 12, target);
      if cells[FINAL_EVENT_SEQUENCE] != 0 { out := out + WriteVarint(12, cells[FINAL_EVENT_SEQUENCE]); }
      PrintNoField(ord, identity, st, c, 13, target);
    }

    /** Field 14. */
    method SerializeGap(ghost ord: Order, ghost c: Cache, ghost target: bytes, before: bytes) returns (out: bytes)
      requires cells.Length == CELLS && Describes(c)
      requires before == target + Printed(ord, BatchSchema(identity), Abs(), c, 14)
      ensures out == target + Printed(ord, BatchSchema(identity), Abs(), c, 15)
    {
      hide BatchState.Abs, Printed, Print, Encode, WriteHeader, EventMessages, BatchSchema, MetricSequenceGap.Abs,
        MetricEvent.Abs, METRIC_EVENT, METRIC_SEQUENCE_GAP, Kid, Leaf, Sized;
      PrintSubAt(ord, identity, State(), c, 14, target);
      out := before;
      if gap != null {
        LeafTables();
        PrintLeaf(ord, METRIC_SEQUENCE_GAP, gap.Abs(), Kid(c, 14, 0));
        out := out + WriteHeader(14, gap.cachedSize);
        out := gap.InternalSerialize(ord, out);
        Wire.Associative(before, WriteHeader(14, gap.cachedSize), Encode(ord, METRIC_SEQUENCE_GAP, gap.Abs()));
      }
    }

    // -------------------------------------------------------------- merge, clear, copy, swap

    /** Deep copies of events. */
    method CopyEvents(from: seq<MetricEvent>) returns (copies: seq<MetricEvent>)
      requires forall e | e in from :: e.Valid()
      ensures EventMessages(copies) == EventMessages(from)
      ensures forall e | e in copies :: fresh(e) && e.Valid()
    {
      hide EventMessages, MetricEvent.Slots, Build, LegalUnknown;
      copies := [];
      for i := 0 to |from|
        invariant EventMessages(copies) == EventMessages(from[..i])
        invariant forall e | e in copies :: fresh(e) && e.Valid()
      {
        var copy := new MetricEvent();
        copy.CopyFrom(from[i]);
        EventsAppend(copies, copy);
        EventsAppend(from[..i], from[i]);
        assert from[..i + 1] == from[..i] + [from[i]];
        copies := copies + [copy];
      }
      assert from[..|from|] == from;
    }

    /** The two batches share nothing that is written. */
    ghost predicate Apart(from: MetricBatch)
      reads this`source, this`gap, from`source, from`gap
    {
      from != this && from.cells != cells && Subs() !! from.Subs()
    }

    method MergeFrom(from: MetricBatch)
      requires Valid() && from.Valid() && Apart(from) && from.identity == identity
      modifies this, cells, Subs()
      ensures Valid() && State() == MergeBatches(identity, old(State()), from.State())
      ensures Abs() == Merge(BatchSchema(identity), old(Abs()), from.Abs())
      ensures deleted == old(deleted)
      ensures forall o | o in Subs() :: o in old(Subs()) || fresh(o)
    {
      hide BatchState.Abs, MetricBatch.State, MetricBatch.Valid, Merge, MergeBatches, BatchSchema;
      assert cells.Length == CELLS && from.cells.Length == CELLS by {
        ValidLength();
        from.ValidLength();
      }
      MergeBatchesIsMerge(identity, State(), from.State());
      MergeFields(from);
    }

    method MergeFields(from: MetricBatch)
      requires Valid() && from.Valid() && Apart(from) && from.identity == identity
      modifies this, cells, Subs()
      ensures Valid() && from.Valid() && from.State() == old(from.State())
      ensures State() == MergeBatches(identity, old(State()), from.State())
      ensures deleted == old(deleted)
      ensures forall o | o in Subs() :: o in old(Subs()) || fresh(o)
    {
      hide BatchState.Abs, MetricBatch.State, MetricBatch.Valid, MergedCells, MergedSub, BatchSchema;
      MergeEvents(from);
      MergeSource(from);
      MergeGap(from);
      MergeRest(from);
    }

    method MergeEvents(from: MetricBatch)
      requires Valid() && from.Valid() && from != this
      modifies this`events
      ensures Valid() && from.Valid() && from.State() == old(from.State())
      ensures State() == old(State()).(events := old(State()).events + from.State().events)
    {
      hide BatchState.SlotAt, EventMessages, GapContent, SourceContent, LegalUnknown, WF, WFSchema, BatchSchema,
        MetricEvent.Abs;
      var copies := CopyEvents(from.events);
      EventsConcat(events, copies);
      events := events + copies;
    }

    method MergeSource(from: MetricBatch)
      requires Valid() && from.Valid() && Apart(from) && from.identity == identity
      modifies this`source, if source == null then {} else {source}
      ensures Valid() && from.Valid() && from.State() == old(from.State())
      ensures State() == old(State()).(source := MergedSub(identity, old(State()).source, from.State().source))
      ensures gap == old(gap) && (source == old(source) || fresh(source))
    {
      hide BatchState.SlotAt, EventMessages, GapContent, LegalUnknown, WF, WFSchema, BatchSchema, Merge,
        MetricSequenceGap.Valid;
      if from.source != null {
        var p := MutableSource();
        p.MergeFrom(from.source);
      }
    }

    method MergeGap(from: MetricBatch)
      requires Valid() && from.Valid() && Apart(from)
      modifies this`gap, if gap == null then {} else {gap}
      ensures Valid() && from.Valid() && from.State() == old(from.State())
      ensures State() == old(State()).(gap := MergedSub(METRIC_SEQUENCE_GAP, old(State()).gap, from.State().gap))
      ensures source == old(source) && (gap == old(gap) || fresh(gap))
    {
      hide BatchState.SlotAt, EventMessages, SourceContent, LegalUnknown, WF, WFSchema, BatchSchema,
        MetricSequenceGap.Abs, Merge;
      if from.gap != null {
        var p := MutableGap();
        p.MergeFrom(from.gap);
      }
    }

    /** The plain fields that are not zero, and the unknown records. */
    method MergeRest(from: MetricBatch)
      requires Valid() && from.Valid() && from != this && from.cells != cells && from.identity == identity
      modifies this`unknown, cells
      ensures Valid() && from.Valid() && from.State() == old(from.State())
      ensures State() == old(State()).(cells := MergedCells(old(State()).cells, from.State().cells),
                                       unknown := old(State()).unknown + from.State().unknown)
    {
      hide BatchState.SlotAt, WFRecord, Known, WF, WFSchema, BatchSchema, EventMessages, GapContent, SourceContent,
        MetricSequenceGap.Valid, MetricEvent.Valid;
      for i := 0 to CELLS
        invariant forall j | 0 <= j < CELLS ::
                    cells[j] == if j < i && from.cells[j] != 0 then from.cells[j] else old(cells[j])
        invariant unknown == old(unknown)
      {
        if from.cells[i] != 0 { cells[i] := from.cells[i]; }
      }
      unknown := unknown + from.unknown;
    }

    method Clear()
      requires cells.Length == CELLS && WFSchema(identity)
      modifies this, cells
      ensures Valid() && State() == EMPTY_BATCH && Abs() == EMPTY && Subs() == {}
      ensures deleted == old(deleted) + Pointed(old(source)) + Pointed(old(gap))
    {
      hide BatchState.Abs, BatchState.SlotAt, WF, WFSchema, BatchSchema, MetricSequenceGap.Abs, Pointed,
        MetricSequenceGap.Valid, MetricEvent.Valid, ServiceInstanceIdentity.Valid;
      DropNested();
      MemSet(cells, BATCH_SEQUENCE, SOURCE_FINAL + 1);
      unknown := [];
      assert State() == EMPTY_BATCH;
      EmptyBatch();
    }

    method DropNested()
      modifies this`events, this`source, this`gap, this`deleted
      ensures events == [] && source == null && gap == null
      ensures deleted == old(deleted) + Pointed(old(source)) + Pointed(old(gap))
    {
      deleted := deleted + Pointed(source) + Pointed(gap);
      events, source, gap := [], null, null;
    }

    method CopyFrom(from: MetricBatch)
      requires Valid() && from.Valid() && (from == this || Apart(from)) && from.identity == identity
      modifies this, cells, Subs()
      ensures Valid() && State() == old(from.State())
      ensures deleted == if from == this then old(deleted) else old(deleted) + Pointed(old(source)) + Pointed(old(gap))
    {
      hide BatchState.Abs, BatchState.SlotAt, EventMessages, Merge, MergeBatches, LegalUnknown, WF, WFSchema,
        MetricSequenceGap.Abs, BatchSchema, Pointed;
      if from == this { return; }
      from.CopiedByMerging();
      Clear();
      MergeFields(from);
    }

    /** Merging this batch into an empty one copies it. */
    lemma CopiedByMerging()
      requires Valid()
      ensures MergeBatches(identity, EMPTY_BATCH, State()) == State()
    {
      hide Merge, EventMessages, WF, WFSchema, LegalUnknown, MergeBatches, METRIC_SEQUENCE_GAP;
      if source != null { MergeEmptyLeft(identity, source.content); }
      if gap != null { gap.CopiedByMerging(); }
      MergeOntoEmpty(identity, State());
    }

    /** The copy constructor: sub-objects and events are copied, the plain range in one memcpy. */
    constructor Copy(from: MetricBatch)
      requires from.Valid()
      ensures Valid() && identity == from.identity && State() == from.State()
      ensures fresh(cells) && fresh(Subs()) && deleted == multiset{}
    {
      hide BatchState.SlotAt, EventMessages, GapContent, SourceContent, LegalUnknown, WF, WFSchema, BatchSchema;
      identity := from.identity;
      cells := new u64[CELLS](_ => 0);
      events, source, gap := [], null, null;
      unknown, cachedSize, deleted := from.unknown, 0, multiset{};
      new;
      CopyCells(from);
      CopyNested(from);
    }

    /** memcpy of the plain fields. */
    method CopyCells(from: MetricBatch)
      requires cells.Length == CELLS && from.cells.Length == CELLS
      modifies cells
      ensures cells[..] == old(from.cells[..])
    {
      MemCopy(cells, from.cells, BATCH_SEQUENCE, SOURCE_FINAL + 1);
    }

    method CopyNested(from: MetricBatch)
      requires from.Valid() && from != this && source == null && gap == null
      modifies this`events, this`source, this`gap
      ensures EventMessages(events) == EventMessages(from.events) && from.State() == old(from.State())
      ensures SourceContent(source) == SourceContent(from.source) && GapContent(gap) == GapContent(from.gap)
      ensures (forall e | e in events :: e.Valid()) && (gap != null ==> gap.Valid())
      ensures source != null ==> source.Valid() && source.schema == from.identity
      ensures fresh(Subs())
    {
      hide BatchState.SlotAt, EventMessages, LegalUnknown, WF, WFSchema, MetricSequenceGap.Abs, BatchSchema,
        MetricEvent.Abs;
      events := CopyEvents(from.events);
      CopySubs(from);
    }

    method CopySubs(from: MetricBatch)
      requires from.Valid() && from != this && source == null && gap == null
      modifies this`source, this`gap
      ensures SourceContent(source) == SourceContent(from.source) == old(SourceContent(from.source))
      ensures GapContent(gap) == GapContent(from.gap) == old(GapContent(from.gap))
      ensures gap != null ==> gap.Valid()
      ensures source != null ==> source.Valid() && source.schema == from.identity
      ensures fresh(Subs())
    {
      hide EventMessages, LegalUnknown, WF, WFSchema, MetricSequenceGap.Abs, BatchSchema;
      if from.source != null { source := new ServiceInstanceIdentity.Copy(from.source); }
      if from.gap != null { gap := new MetricSequenceGap.Copy(from.gap); }
    }

    /** The destructor deletes what the two pointers own. */
    method Destroy()
      modifies this`deleted
      ensures deleted == old(deleted) + Pointed(source) + Pointed(gap)
    {
      deleted := deleted + Pointed(source);
      deleted := deleted + Pointed(gap);
    }

    /** The events and both pointers one by one, the plain fields as one range; nothing is deleted. */
    method InternalSwap(other: MetricBatch)
      requires Valid() && other.Valid() && other != this && other.cells != cells && other.identity == identity
      modifies this, other, cells, other.cells
      ensures Valid() && other.Valid()
      ensures State() == old(other.State()) && other.State() == old(State())
      ensures source == old(other.source) && other.source == old(source)
      ensures gap == old(other.gap) && other.gap == old(gap)
      ensures deleted == old(deleted) && other.deleted == old(other.deleted)
    {
      hide BatchState.SlotAt, EventMessages, LegalUnknown, WF, WFSchema, MetricSequenceGap.Abs, BatchSchema;
      SwapWords(other);
      SwapCells(other);
    }

    method SwapWords(other: MetricBatch)
      requires other != this
      modifies this`unknown, this`events, this`source, this`gap, other`unknown, other`events, other`source, other`gap
      ensures unknown == old(other.unknown) && other.unknown == old(unknown)
      ensures events == old(other.events) && other.events == old(events)
      ensures source == old(other.source) && other.source == old(source)
      ensures gap == old(other.gap) && other.gap == old(gap)
    {
      unknown, other.unknown := other.unknown, unknown;
      events, other.events := other.events, events;
      source, other.source := other.source, source;
      gap, other.gap := other.gap, gap;
    }

    method SwapCells(other: MetricBatch)
      requires cells.Length == CELLS && other.cells.Length == CELLS && other.cells != cells
      modifies cells, other.cells
      ensures cells[..] == old(other.cells[..]) && other.cells[..] == old(cells[..])
    {
      MemSwap(cells, other.cells, BATCH_SEQUENCE, SOURCE_FINAL + 1);
    }
  }
}
