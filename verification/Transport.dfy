/**
  The leaf classes of proto/metrics/transport.pb.cc as objects that update themselves in place:
  a retention gap, and an event whose payload is raw bytes and whose kind is an open enum.
 */
module Transport {
  import opened Options
  import opened Wire
  import opened Utf8
  import opened Message
  import opened Sizes
  import opened TwoPass
  import opened Schemas
  import opened Runtime

  class MetricSequenceGap {
    var reason: bytes
    var firstUnavailable: u64
    var lastUnavailable: u64
    var oldestAvailable: u64
    var unknown: seq<Record>
    var cachedSize: nat

    ghost predicate Valid()
      reads this`unknown
    {
      LegalUnknown(METRIC_SEQUENCE_GAP, unknown)
    }

    function Slots(): seq<Option<Value>>
      reads this`reason, this`firstUnavailable, this`lastUnavailable, this`oldestAvailable
    {
      [None, NumSlot(Plain(U64), firstUnavailable), NumSlot(Plain(U64), lastUnavailable),
       NumSlot(Plain(U64), oldestAvailable), StrSlot(Plain(Text), reason)]
    }

    function Abs(): Msg
      reads this`reason, this`firstUnavailable, this`lastUnavailable, this`oldestAvailable, this`unknown
    {
      Build(Slots(), unknown)
    }

    constructor ()
      ensures Valid() && Abs() == EMPTY
    {
      reason, firstUnavailable, lastUnavailable, oldestAvailable := [], 0, 0, 0;
      unknown, cachedSize := [], 0;
      new;
      BuildEmpty(Slots());
    }

    /** The copy constructor: every field is taken over as it is. */
    constructor Copy(from: MetricSequenceGap)
      requires from.Valid()
      ensures Valid() && Abs() == from.Abs()
    {
      reason, firstUnavailable := from.reason, from.firstUnavailable;
      lastUnavailable, oldestAvailable := from.lastUnavailable, from.oldestAvailable;
      unknown, cachedSize := from.unknown, 0;
    }

    method Clear()
      modifies this
      ensures Valid() && Abs() == EMPTY
    {
      reason, firstUnavailable, lastUnavailable, oldestAvailable := [], 0, 0, 0;
      unknown := [];
      BuildEmpty(Slots());
    }

    method InternalParse(buf: bytes, start: nat, limit: nat) returns (st: Status)
      requires Valid() && start <= limit <= |buf|
      modifies this
      ensures Valid()
      ensures Agrees(Parse(METRIC_SEQUENCE_GAP, old(Abs()), buf[start..limit]), st, Abs())
    {
      hide Parse, ReadTag, ReadVarint64, ReadString, ReadUnknown, PutSlot, Build, ValidUtf8;
      var ptr := start;
      while ptr < limit
        invariant start <= ptr <= limit && Valid()
        invariant Parse(METRIC_SEQUENCE_GAP, Abs(), buf[ptr..limit]) ==
                  Parse(METRIC_SEQUENCE_GAP, old(Abs()), buf[start..limit])
        decreases limit - ptr
      {
        ghost var slots := Slots();
        StepTag(METRIC_SEQUENCE_GAP, Abs(), buf, ptr, limit);
        var t := ReadTag(buf, ptr, limit);
        if t.NoNum? { return Null; }
        if t.v / 8 == 1 && t.v % 256 == 8 {
          StepVarint(METRIC_SEQUENCE_GAP, Abs(), buf, ptr, limit, 1);
          var x := ReadVarint64(buf, t.ptr, limit);
          if x.NoNum? { return Null; }
          BuildPut(METRIC_SEQUENCE_GAP, slots, unknown, 1, NumSlot(Plain(U64), x.v));
          firstUnavailable := x.v;
          assert Slots() == slots[1 := NumSlot(Plain(U64), x.v)];
          ptr := x.ptr;
          continue;
        } else if t.v / 8 == 2 && t.v % 256 == 16 {
          StepVarint(METRIC_SEQUENCE_GAP, Abs(), buf, ptr, limit, 2);
          var x := ReadVarint64(buf, t.ptr, limit);
          if x.NoNum? { return Null; }
          BuildPut(METRIC_SEQUENCE_GAP, slots, unknown, 2, NumSlot(Plain(U64), x.v));
          lastUnavailable := x.v;
          assert Slots() == slots[2 := NumSlot(Plain(U64), x.v)];
          ptr := x.ptr;
          continue;
        } else if t.v / 8 == 3 && t.v % 256 == 24 {
          StepVarint(METRIC_SEQUENCE_GAP, Abs(), buf, ptr, limit, 3);
          var x := ReadVarint64(buf, t.ptr, limit);
          if x.NoNum? { return Null; }
          BuildPut(METRIC_SEQUENCE_GAP, slots, unknown, 3, NumSlot(Plain(U64), x.v));
          oldestAvailable := x.v;
          assert Slots() == slots[3 := NumSlot(Plain(U64), x.v)];
          ptr := x.ptr;
          continue;
        } else if t.v / 8 == 4 && t.v % 256 == 34 {
          StepText(METRIC_SEQUENCE_GAP, Abs(), buf, ptr, limit, 4);
          var x := ReadString(buf, t.ptr, limit);
          if x.NoStr? { return Null; }
          BuildPut(METRIC_SEQUENCE_GAP, slots, unknown, 4, StrSlot(Plain(Text), x.b));
          reason := x.b;  // stored before it is checked
          if !ValidUtf8(reason) { return Null; }
          assert Slots() == slots[4 := StrSlot(Plain(Text), x.b)];
          ptr := x.ptr;
          continue;
        }
        if t.v == 0 || t.v % 8 == 4 { return AtTag(t.v); }
        StepUnknown(METRIC_SEQUENCE_GAP, Abs(), buf, ptr, limit);
        var u := ReadUnknown(buf, t.ptr, limit, t.v);
        if u.NoUnknown? { return Null; }
        BuildAppend(slots, unknown, u.r);
        unknown := unknown + [u.r];
        ptr := u.ptr;
      }
      ParseEnd(METRIC_SEQUENCE_GAP, Abs(), buf, limit);
      return AtLimit;
    }

    /** The string first, then the numbers as laid out. */
    method ByteSizeLong() returns (total: nat)
      modifies this`cachedSize
      ensures total == cachedSize == ByteSize(METRIC_SEQUENCE_GAP, Abs())
    {
      hide VarintSize, FieldsSize, SizeAt, Build;
      total := 0;
      if reason != [] { total := total + 1 + VarintSize(|reason|) + |reason|; }
      if firstUnavailable != 0 { total := total + 1 + VarintSize(firstUnavailable); }
      if lastUnavailable != 0 { total := total + 1 + VarintSize(lastUnavailable); }
      if oldestAvailable != 0 { total := total + 1 + VarintSize(oldestAvailable); }
      SizeOfFields();
      total := total + |EncodeRecords(unknown)|;
      cachedSize := total;
    }

    lemma SizeOfFields()
      ensures ByteSize(METRIC_SEQUENCE_GAP, Abs()) ==
              (if firstUnavailable == 0 then 0 else 1 + VarintSize(firstUnavailable))
              + (if lastUnavailable == 0 then 0 else 1 + VarintSize(lastUnavailable))
              + (if oldestAvailable == 0 then 0 else 1 + VarintSize(oldestAvailable))
              + (if reason == [] then 0 else 1 + VarintSize(|reason|) + |reason|)
              + |EncodeRecords(unknown)|
    {
      hide VarintSize, FieldsSize, SizeAt, Build;
      var m := Abs();
      BuildUnknown(Slots(), unknown);
      SizeStepAt(METRIC_SEQUENCE_GAP, m, 0);
      SizeOfNothing(METRIC_SEQUENCE_GAP, m, 0);
      SizeStepAt(METRIC_SEQUENCE_GAP, m, 1);
      BuildSlot(Slots(), unknown, 1);
      SizeOfNum(METRIC_SEQUENCE_GAP, m, 1, firstUnavailable);
      SizeStepAt(METRIC_SEQUENCE_GAP, m, 2);
      BuildSlot(Slots(), unknown, 2);
      SizeOfNum(METRIC_SEQUENCE_GAP, m, 2, lastUnavailable);
      SizeStepAt(METRIC_SEQUENCE_GAP, m, 3);
      BuildSlot(Slots(), unknown, 3);
      SizeOfNum(METRIC_SEQUENCE_GAP, m, 3, oldestAvailable);
      SizeStepAt(METRIC_SEQUENCE_GAP, m, 4);
      BuildSlot(Slots(), unknown, 4);
      SizeOfStr(METRIC_SEQUENCE_GAP, m, 4, reason);
      SizeStepAt(METRIC_SEQUENCE_GAP, m, 5);
    }

    method InternalSerialize(ghost ord: Order, target: bytes) returns (out: bytes)
      ensures out == target + Encode(ord, METRIC_SEQUENCE_GAP, Abs())
    {
      hide Printed, Print, Leaf, Encode, Build, WriteVarint, WriteString, EncodeRecords;
      out := target;
      ghost var m := Abs();
      BuildUnknown(Slots(), unknown);
      PrintStart(ord, METRIC_SEQUENCE_GAP, m, FRESH, target);
      PrintNone(ord, METRIC_SEQUENCE_GAP, m, FRESH, 0, target);
      BuildSlot(Slots(), unknown, 1);
      PrintNum(ord, METRIC_SEQUENCE_GAP, m, FRESH, 1, firstUnavailable, target);
      if firstUnavailable != 0 { out := out + WriteVarint(1, firstUnavailable); }
      BuildSlot(Slots(), unknown, 2);
      PrintNum(ord, METRIC_SEQUENCE_GAP, m, FRESH, 2, lastUnavailable, target);
      if lastUnavailable != 0 { out := out + WriteVarint(2, lastUnavailable); }
      BuildSlot(Slots(), unknown, 3);
      PrintNum(ord, METRIC_SEQUENCE_GAP, m, FRESH, 3, oldestAvailable, target);
      if oldestAvailable != 0 { out := out + WriteVarint(3, oldestAvailable); }
      BuildSlot(Slots(), unknown, 4);
      PrintStr(ord, METRIC_SEQUENCE_GAP, m, FRESH, 4, reason, target);
      if reason != [] { out := out + WriteString(4, reason); }
      PrintEnd(ord, METRIC_SEQUENCE_GAP, m, FRESH, target);
      LeafTables();
      PrintLeaf(ord, METRIC_SEQUENCE_GAP, m, FRESH);
      out := out + EncodeRecords(unknown);
    }

    method MergeFrom(from: MetricSequenceGap)
      requires Valid() && from.Valid() && from != this
      modifies this
      ensures Valid() && Abs() == Merge(METRIC_SEQUENCE_GAP, old(Abs()), from.Abs())
    {
      hide Merge, MergedSlot, Build;
      MergedFields(from);
      if from.reason != [] { reason := from.reason; }
      if from.firstUnavailable != 0 { firstUnavailable := from.firstUnavailable; }
      if from.lastUnavailable != 0 { lastUnavailable := from.lastUnavailable; }
      if from.oldestAvailable != 0 { oldestAvailable := from.oldestAvailable; }
      unknown := unknown + from.unknown;
      assert Slots() == Overlay(old(Slots()), from.Slots());
    }

    lemma MergedFields(from: MetricSequenceGap)
      ensures Merge(METRIC_SEQUENCE_GAP, Abs(), from.Abs()) ==
              Build(Overlay(Slots(), from.Slots()), unknown + from.unknown)
    {
      hide Merge, MergedSlot, Build;
      PlainOverlay(METRIC_SEQUENCE_GAP, Slots(), unknown, from.Slots(), from.unknown);
    }

    method CopyFrom(from: MetricSequenceGap)
      requires Valid() && from.Valid()
      modifies this
      ensures Valid() && Abs() == old(from.Abs())
    {
      if from == this { return; }
      Clear();
      MergeFrom(from);
      from.CopiedByMerging();
    }

    lemma CopiedByMerging()
      ensures Merge(METRIC_SEQUENCE_GAP, EMPTY, Abs()) == Abs()
    {
      hide Merge, MetricSequenceGap.Slots;
      PlainCopy(METRIC_SEQUENCE_GAP, Slots(), unknown);
    }

    method InternalSwap(other: MetricSequenceGap)
      requires Valid() && other.Valid()
      modifies this, other
      ensures Valid() && other.Valid()
      ensures Abs() == old(other.Abs()) && other.Abs() == old(Abs())
    {
      unknown, other.unknown := other.unknown, unknown;
      reason, other.reason := other.reason, reason;
      firstUnavailable, other.firstUnavailable := other.firstUnavailable, firstUnavailable;
      lastUnavailable, other.lastUnavailable := other.lastUnavailable, lastUnavailable;
      oldestAvailable, other.oldestAvailable := other.oldestAvailable, oldestAvailable;
    }
  }

  function EventSlots(sequence: u64, observed: Option<i64>, payload: bytes, kind: i32): seq<Option<Value>>
  {
    [None, None, None, None, NumSlot(Plain(U64), sequence),
     if observed.Some? then Some(Num(ToWire(observed.value))) else None,
     StrSlot(Plain(Blob), payload), NumSlot(Plain(Enum), ToWire(kind))]
  }

  /** What storing each field does to the message. */
  lemma {:induction false} EventPut(n: u64, o: Option<i64>, p: bytes, k: i32, u: seq<Record>, x: u64, b: bytes)
    ensures var m := Build(EventSlots(n, o, p, k), u);
            && PutSlot(METRIC_EVENT, m, 4, NumSlot(Plain(U64), x)) == Build(EventSlots(x, o, p, k), u)
            && PutSlot(METRIC_EVENT, m, 5, NumSlot(Optional(I64), x)) == Build(EventSlots(n, Some(AsI64(x)), p, k), u)
            && PutSlot(METRIC_EVENT, m, 6, StrSlot(Plain(Blob), b)) == Build(EventSlots(n, o, b, k), u)
            && PutSlot(METRIC_EVENT, m, 7, NumSlot(Plain(Enum), SignExtend(x))) ==
              Build(EventSlots(n, o, p, AsI32(x)), u)
  {
    hide Build, PutSlot, ToWire, AsI64, AsI32, SignExtend;
    var slots := EventSlots(n, o, p, k);
    AsI64Wire(x);
    AsI32Wire(x);
    BuildPut(METRIC_EVENT, slots, u, 4, NumSlot(Plain(U64), x));
    assert EventSlots(x, o, p, k) == slots[4 := NumSlot(Plain(U64), x)];
    BuildPut(METRIC_EVENT, slots, u, 5, NumSlot(Optional(I64), x));
    assert EventSlots(n, Some(AsI64(x)), p, k) == slots[5 := NumSlot(Optional(I64), x)];
    BuildPut(METRIC_EVENT, slots, u, 6, StrSlot(Plain(Blob), b));
    assert EventSlots(n, o, b, k) == slots[6 := StrSlot(Plain(Blob), b)];
    BuildPut(METRIC_EVENT, slots, u, 7, NumSlot(Plain(Enum), SignExtend(x)));
    assert EventSlots(n, o, p, AsI32(x)) == slots[7 := NumSlot(Plain(Enum), SignExtend(x))];
  }

  lemma EventFields()
    ensures METRIC_EVENT.fields.Keys == {4, 5, 6, 7}
    ensures METRIC_EVENT.fields[4] == Plain(U64) && METRIC_EVENT.fields[5] == Optional(I64)
    ensures METRIC_EVENT.fields[6] == Plain(Blob) && METRIC_EVENT.fields[7] == Plain(Enum)
  {
  }

  class MetricEvent {
    var hasObservedAt: bool  // the one has-bit
    var factPayload: bytes
    var eventSequence: u64
    var observedAt: i64
    var factKind: i32
    var unknown: seq<Record>
    var cachedSize: nat

    /** A clear has-bit means a stored zero. */
    ghost predicate Valid()
      reads this`hasObservedAt, this`observedAt, this`unknown
    {
      (!hasObservedAt ==> observedAt == 0) && LegalUnknown(METRIC_EVENT, unknown)
    }

    /** The slots with the has-bit `has`: inside the parser it may still be in its local word. */
    function Slots(has: bool): seq<Option<Value>>
      reads this`factPayload, this`eventSequence, this`observedAt, this`factKind
    {
      EventSlots(eventSequence, if has then Some(observedAt) else None, factPayload, factKind)
    }

    function Abs(): Msg
      reads this`hasObservedAt, this`factPayload, this`eventSequence, this`observedAt, this`factKind, this`unknown
    {
      Build(Slots(hasObservedAt), unknown)
    }

    constructor ()
      ensures Valid() && Abs() == EMPTY
    {
      hasObservedAt, factPayload, eventSequence, observedAt, factKind := false, [], 0, 0, 0;
      unknown, cachedSize := [], 0;
      new;
      BuildEmpty(Slots(false));
    }

    /** The copy constructor: every field is taken over as it is. */
    constructor Copy(from: MetricEvent)
      requires from.Valid()
      ensures Valid() && Abs() == from.Abs()
    {
      hasObservedAt, factPayload := from.hasObservedAt, from.factPayload;
      eventSequence, observedAt, factKind := from.eventSequence, from.observedAt, from.factKind;
      unknown, cachedSize := from.unknown, 0;
    }

    /** Unguarded: the one optional field is reset whether or not it is present. */
    method Clear()
      modifies this
      ensures Valid() && Abs() == EMPTY
    {
      factPayload, eventSequence, observedAt, factKind := [], 0, 0, 0;
      hasObservedAt, unknown := false, [];
      BuildEmpty(Slots(false));
    }

    /** The has-bit gathers in the local `marked` and is or-ed in on every way out. */
    method InternalParse(buf: bytes, start: nat, limit: nat) returns (st: Status)
      requires Valid() && start <= limit <= |buf|
      modifies this
      ensures Valid()
      ensures Agrees(Parse(METRIC_EVENT, old(Abs()), buf[start..limit]), st, Abs())
    {
      hide Parse, ReadTag, ReadVarint64, ReadString, ReadUnknown, PutSlot, Build, AsI64, AsI32, SignExtend, EventSlots,
        NumSlot, StrSlot, METRIC_EVENT, LegalUnknown, WFRecord, Known;
      EventFields();
      var marked := false;
      var ptr := start;
      st := AtLimit;
      while ptr < limit
        invariant start <= ptr <= limit && st == AtLimit && hasObservedAt == old(hasObservedAt)
        invariant (!(hasObservedAt || marked) ==> observedAt == 0) && LegalUnknown(METRIC_EVENT, unknown)
        invariant Parse(METRIC_EVENT, Build(Slots(hasObservedAt || marked), unknown), buf[ptr..limit]) ==
                  Parse(METRIC_EVENT, old(Abs()), buf[start..limit])
        decreases limit - ptr
      {
        ghost var has := hasObservedAt || marked;
        ghost var slots := Slots(has);
        ghost var m := Build(slots, unknown);
        StepTag(METRIC_EVENT, m, buf, ptr, limit);
        var t := ReadTag(buf, ptr, limit);
        if t.NoNum? { st := Null; break; }
        if t.v / 8 == 4 && t.v % 256 == 32 {
          StepVarint(METRIC_EVENT, m, buf, ptr, limit, 4);
          var x := ReadVarint64(buf, t.ptr, limit);
          if x.NoNum? { st := Null; break; }
          EventPut(eventSequence, if has then Some(observedAt) else None, factPayload, factKind, unknown, x.v, []);
          eventSequence := x.v;
          ptr := x.ptr;
          continue;
        } else if t.v / 8 == 5 && t.v % 256 == 40 {
          StepVarint(METRIC_EVENT, m, buf, ptr, limit, 5);
          var x := ReadVarint64(buf, t.ptr, limit);
          if x.NumAt? {
            EventPut(eventSequence, if has then Some(observedAt) else None, factPayload, factKind, unknown, x.v, []);
          }
          marked := true;
          observedAt := if x.NoNum? then 0 else AsI64(x.v);
          if x.NoNum? { st := Null; break; }
          ptr := x.ptr;
          continue;
        } else if t.v / 8 == 6 && t.v % 256 == 50 {
          StepText(METRIC_EVENT, m, buf, ptr, limit, 6);
          var x := ReadString(buf, t.ptr, limit);
          if x.NoStr? { st := Null; break; }
          EventPut(eventSequence, if has then Some(observedAt) else None, factPayload, factKind, unknown, 0, x.b);
          factPayload := x.b;
          ptr := x.ptr;
          continue;
        } else if t.v / 8 == 7 && t.v % 256 == 56 {
          StepVarint(METRIC_EVENT, m, buf, ptr, limit, 7);
          var x := ReadVarint64(buf, t.ptr, limit);
          if x.NoNum? { st := Null; break; }
          EventPut(eventSequence, if has then Some(observedAt) else None, factPayload, factKind, unknown, x.v, []);
          factKind := AsI32(x.v);
          ptr := x.ptr;
          continue;
        }
        if t.v == 0 || t.v % 8 == 4 { st := AtTag(t.v); break; }
        StepUnknown(METRIC_EVENT, m, buf, ptr, limit);
        var u := ReadUnknown(buf, t.ptr, limit, t.v);
        if u.NoUnknown? { st := Null; break; }
        BuildAppend(slots, unknown, u.r);
        LegalAppend(METRIC_EVENT, unknown, u.r);
        unknown := unknown + [u.r];
        ptr := u.ptr;
      }
      hasObservedAt := hasObservedAt || marked;
      if st == AtLimit { ParseEnd(METRIC_EVENT, Abs(), buf, limit); }
    }

    method ByteSizeLong() returns (total: nat)
      modifies this`cachedSize
      ensures total == cachedSize == ByteSize(METRIC_EVENT, Abs())
    {
      hide VarintSize, FieldsSize, SizeAt, Build, ToWire;
      total := 0;
      if factPayload != [] { total := total + 1 + VarintSize(|factPayload|) + |factPayload|; }
      if eventSequence != 0 { total := total + 1 + VarintSize(eventSequence); }
      if hasObservedAt { total := total + 1 + VarintSize(ToWire(observedAt)); }
      if factKind != 0 { total := total + 1 + VarintSize(ToWire(factKind)); }
      SizeOfFields();
      total := total + |EncodeRecords(unknown)|;
      cachedSize := total;
    }

    lemma SizeOfFields()
      ensures ByteSize(METRIC_EVENT, Abs()) ==
              (if eventSequence == 0 then 0 else 1 + VarintSize(eventSequence))
              + (if hasObservedAt then 1 + VarintSize(ToWire(observedAt)) else 0)
              + (if factPayload == [] then 0 else 1 + VarintSize(|factPayload|) + |factPayload|)
              + (if factKind == 0 then 0 else 1 + VarintSize(ToWire(factKind)))
              + |EncodeRecords(unknown)|
    {
      hide VarintSize, FieldsSize, SizeAt, Build;
      var m := Abs();
      var slots := Slots(hasObservedAt);
      BuildUnknown(slots, unknown);
      SizeStepAt(METRIC_EVENT, m, 0);
      SizeStepAt(METRIC_EVENT, m, 1);
      SizeStepAt(METRIC_EVENT, m, 2);
      SizeStepAt(METRIC_EVENT, m, 3);
      NoLowFields(m);
      SizeStepAt(METRIC_EVENT, m, 4);
      BuildSlot(slots, unknown, 4);
      SizeOfNum(METRIC_EVENT, m, 4, eventSequence);
      SizeStepAt(METRIC_EVENT, m, 5);
      BuildSlot(slots, unknown, 5);
      SizeOfNum(METRIC_EVENT, m, 5, ToWire(observedAt));
      SizeStepAt(METRIC_EVENT, m, 6);
      BuildSlot(slots, unknown, 6);
      SizeOfStr(METRIC_EVENT, m, 6, factPayload);
      SizeStepAt(METRIC_EVENT, m, 7);
      BuildSlot(slots, unknown, 7);
      SizeOfNum(METRIC_EVENT, m, 7, ToWire(factKind));
      SizeStepAt(METRIC_EVENT, m, 8);
    }

    method InternalSerialize(ghost ord: Order, target: bytes) returns (out: bytes)
      ensures out == target + Encode(ord, METRIC_EVENT, Abs())
    {
      hide Printed, Print, Leaf, Encode, Build, WriteVarint, WriteString, EncodeRecords;
      out := target;
      ghost var m := Abs();
      ghost var slots := Slots(hasObservedAt);
      BuildUnknown(slots, unknown);
      PrintStart(ord, METRIC_EVENT, m, FRESH, target);
      PrintNone(ord, METRIC_EVENT, m, FRESH, 0, target);
      PrintNone(ord, METRIC_EVENT, m, FRESH, 1, target);
      PrintNone(ord, METRIC_EVENT, m, FRESH, 2, target);
      PrintNone(ord, METRIC_EVENT, m, FRESH, 3, target);
      BuildSlot(slots, unknown, 4);
      PrintNum(ord, METRIC_EVENT, m, FRESH, 4, eventSequence, target);
      if eventSequence != 0 { out := out + WriteVarint(4, eventSequence); }
      BuildSlot(slots, unknown, 5);
      if hasObservedAt {
        PrintNum(ord, METRIC_EVENT, m, FRESH, 5, ToWire(observedAt), target);
        out := out + WriteVarint(5, ToWire(observedAt));
      } else {
        PrintNone(ord, METRIC_EVENT, m, FRESH, 5, target);
      }
      BuildSlot(slots, unknown, 6);
      PrintStr(ord, METRIC_EVENT, m, FRESH, 6, factPayload, target);
      if factPayload != [] { out := out + WriteString(6, factPayload); }
      BuildSlot(slots, unknown, 7);
      PrintNum(ord, METRIC_EVENT, m, FRESH, 7, ToWire(factKind), target);
      if factKind != 0 { out := out + WriteVarint(7, ToWire(factKind)); }
      PrintEnd(ord, METRIC_EVENT, m, FRESH, target);
      LeafTables();
      PrintLeaf(ord, METRIC_EVENT, m, FRESH);
      out := out + EncodeRecords(unknown);
    }

    method MergeFrom(from: MetricEvent)
      requires Valid() && from.Valid() && from != this
      modifies this
      ensures Valid() && Abs() == Merge(METRIC_EVENT, old(Abs()), from.Abs())
    {
      hide Merge, Build, EventSlots;
      MergedFields(from);
      if from.factPayload != [] { factPayload := from.factPayload; }
      if from.eventSequence != 0 { eventSequence := from.eventSequence; }
      if from.hasObservedAt { SetObservedAt(from.observedAt); }
      if from.factKind != 0 { factKind := from.factKind; }
      unknown := unknown + from.unknown;
    }

    lemma MergedFields(from: MetricEvent)
      ensures Merge(METRIC_EVENT, Abs(), from.Abs()) ==
              Build(EventSlots(
                      if from.eventSequence != 0 then from.eventSequence else eventSequence,
                      if from.hasObservedAt then Some(from.observedAt)
                      else if hasObservedAt then Some(observedAt) else None,
                      if from.factPayload != [] then from.factPayload else factPayload,
                      if from.factKind != 0 then from.factKind else factKind), unknown + from.unknown)
    {
      hide Merge, MergedSlot, Build;
      var xs, ys := Slots(hasObservedAt), from.Slots(from.hasObservedAt);
      PlainOverlay(METRIC_EVENT, xs, unknown, ys, from.unknown);
      assert Overlay(xs, ys) ==
             EventSlots(
               if from.eventSequence != 0 then from.eventSequence else eventSequence,
               if from.hasObservedAt then Some(from.observedAt) else if hasObservedAt then Some(observedAt) else None,
               if from.factPayload != [] then from.factPayload else factPayload,
               if from.factKind != 0 then from.factKind else factKind);
    }

    method CopyFrom(from: MetricEvent)
      requires Valid() && from.Valid()
      modifies this
      ensures Valid() && Abs() == old(from.Abs())
    {
      if from == this { return; }
      Clear();
      MergeFrom(from);
      from.CopiedByMerging();
    }

    lemma {:induction false} CopiedByMerging()
      ensures Merge(METRIC_EVENT, EMPTY, Abs()) == Abs()
    {
      hide Merge, MetricEvent.Slots;
      PlainCopy(METRIC_EVENT, Slots(hasObservedAt), unknown);
    }

    method InternalSwap(other: MetricEvent)
      requires Valid() && other.Valid()
      modifies this, other
      ensures Valid() && other.Valid()
      ensures Abs() == old(other.Abs()) && other.Abs() == old(Abs())
    {
      hide Build, ToWire;
      unknown, other.unknown := other.unknown, unknown;
      hasObservedAt, other.hasObservedAt := other.hasObservedAt, hasObservedAt;
      factPayload, other.factPayload := other.factPayload, factPayload;
      eventSequence, other.eventSequence := other.eventSequence, eventSequence;
      observedAt, other.observedAt := other.observedAt, observedAt;
      factKind, other.factKind := other.factKind, factKind;
    }

    /** A present zero is not absence: the slot is filled whatever the value. */
    method SetObservedAt(i: i64)
      requires Valid()
      modifies this`hasObservedAt, this`observedAt
      ensures Valid() && hasObservedAt && observedAt == i
      ensures Slot(Abs(), 5) == Some(Num(ToWire(i)))
    {
      hide Build, ToWire;
      hasObservedAt := true;
      observedAt := i;
      BuildSlot(Slots(true), unknown, 5);
    }

    method ClearObservedAt()
      requires Valid()
      modifies this`hasObservedAt, this`observedAt
      ensures Valid() && !hasObservedAt && Slot(Abs(), 5) == None
    {
      hide Build, ToWire;
      observedAt := 0;
      hasObservedAt := false;
      BuildSlot(Slots(false), unknown, 5);
    }
  }

  lemma NoLowFields(m: Msg)
    ensures SizeAt(METRIC_EVENT, m, 0) == SizeAt(METRIC_EVENT, m, 1) == 0
    ensures SizeAt(METRIC_EVENT, m, 2) == SizeAt(METRIC_EVENT, m, 3) == 0
  {
  }
}
