/**
  The counting classes of proto/metrics/registry.pb.cc as objects that update themselves in place.
  `Abs` is the message an object stands for; every method is tied to the schema-level functions.
 */
module Counts {
  import opened Options
  import opened Wire
  import opened Utf8
  import opened Message
  import opened Sizes
  import opened TwoPass
  import opened Schemas
  import opened Runtime

  /** A sum and a count: two scalars with implicit presence. */
  class MetricSumCount {
    var sum: u64  // raw bits of the double
    var count: u64
    var unknown: seq<Record>
    var cachedSize: nat

    ghost predicate Valid()
      reads this`unknown
    {
      LegalUnknown(METRIC_SUM_COUNT, unknown)
    }

    function Slots(): seq<Option<Value>>
      reads this`sum, this`count
    {
      [None, NumSlot(Plain(Double), sum), NumSlot(Plain(U64), count)]
    }

    function Abs(): Msg
      reads this`sum, this`count, this`unknown
    {
      Build(Slots(), unknown)
    }

    constructor ()
      ensures Valid() && Abs() == EMPTY
    {
      sum, count := 0, 0;
      unknown, cachedSize := [], 0;
      new;
      BuildEmpty(Slots());
    }

    /** The copy constructor: every field is taken over as it is. */
    constructor Copy(from: MetricSumCount)
      requires from.Valid()
      ensures Valid() && Abs() == from.Abs()
    {
      sum, count := from.sum, from.count;
      unknown, cachedSize := from.unknown, 0;
    }

    method Clear()
      modifies this
      ensures Valid() && Abs() == EMPTY
    {
      sum, count := 0, 0;
      unknown := [];
      BuildEmpty(Slots());
    }

    method InternalParse(buf: bytes, start: nat, limit: nat) returns (st: Status)
      requires Valid() && start <= limit <= |buf|
      modifies this
      ensures Valid()
      ensures Agrees(Parse(METRIC_SUM_COUNT, old(Abs()), buf[start..limit]), st, Abs())
    {
      hide Parse, ReadTag, ReadDouble, ReadVarint64, ReadString, ReadUnknown, PutSlot, Build, ValidUtf8;
      var ptr := start;
      while ptr < limit
        invariant start <= ptr <= limit && Valid()
        invariant Parse(METRIC_SUM_COUNT, Abs(), buf[ptr..limit]) ==
                  Parse(METRIC_SUM_COUNT, old(Abs()), buf[start..limit])
        decreases limit - ptr
      {
        ghost var slots := Slots();
        StepTag(METRIC_SUM_COUNT, Abs(), buf, ptr, limit);
        var t := ReadTag(buf, ptr, limit);
        if t.NoNum? { return Null; }
        if t.v / 8 == 1 && t.v % 256 == 9 {
          StepDouble(METRIC_SUM_COUNT, Abs(), buf, ptr, limit, 1);
          var x := ReadDouble(buf, t.ptr, limit);
          if x.NoNum? { return Null; }
          BuildPut(METRIC_SUM_COUNT, slots, unknown, 1, NumSlot(Plain(Double), x.v));
          sum := x.v;
          assert Slots() == slots[1 := NumSlot(Plain(Double), x.v)];
          ptr := x.ptr;
          continue;
        } else if t.v / 8 == 2 && t.v % 256 == 16 {
          StepVarint(METRIC_SUM_COUNT, Abs(), buf, ptr, limit, 2);
          var x := ReadVarint64(buf, t.ptr, limit);
          if x.NoNum? { return Null; }
          BuildPut(METRIC_SUM_COUNT, slots, unknown, 2, NumSlot(Plain(U64), x.v));
          count := x.v;
          assert Slots() == slots[2 := NumSlot(Plain(U64), x.v)];
          ptr := x.ptr;
          continue;
        }
        if t.v == 0 || t.v % 8 == 4 { return AtTag(t.v); }
        StepUnknown(METRIC_SUM_COUNT, Abs(), buf, ptr, limit);
        var u := ReadUnknown(buf, t.ptr, limit, t.v);
        if u.NoUnknown? { return Null; }
        BuildAppend(slots, unknown, u.r);
        unknown := unknown + [u.r];
        ptr := u.ptr;
      }
      ParseEnd(METRIC_SUM_COUNT, Abs(), buf, limit);
      return AtLimit;
    }

    method ByteSizeLong() returns (total: nat)
      modifies this`cachedSize
      ensures total == cachedSize == ByteSize(METRIC_SUM_COUNT, Abs())
    {
      hide VarintSize, FieldsSize, SizeAt, Build;
      total := 0;
      if sum != 0 { total := total + 1 + 8; }
      if count != 0 { total := total + 1 + VarintSize(count); }
      SizeOfFields();
      total := total + |EncodeRecords(unknown)|;
      cachedSize := total;
    }

    /** The terms of the size pass, in field order. */
    lemma SizeOfFields()
      ensures ByteSize(METRIC_SUM_COUNT, Abs()) ==
              (if sum == 0 then 0 else 1 + 8)
              + (if count == 0 then 0 else 1 + VarintSize(count))
              + |EncodeRecords(unknown)|
    {
      hide VarintSize, FieldsSize, SizeAt, Build;
      var m := Abs();
      BuildUnknown(Slots(), unknown);
      SizeStepAt(METRIC_SUM_COUNT, m, 0);
      SizeOfNothing(METRIC_SUM_COUNT, m, 0);
      SizeStepAt(METRIC_SUM_COUNT, m, 1);
      BuildSlot(Slots(), unknown, 1);
      SizeOfNum(METRIC_SUM_COUNT, m, 1, sum);
      SizeStepAt(METRIC_SUM_COUNT, m, 2);
      BuildSlot(Slots(), unknown, 2);
      SizeOfNum(METRIC_SUM_COUNT, m, 2, count);
      SizeStepAt(METRIC_SUM_COUNT, m, 3);
    }

    method InternalSerialize(ghost ord: Order, target: bytes) returns (out: bytes)
      ensures out == target + Encode(ord, METRIC_SUM_COUNT, Abs())
    {
      hide Printed, Print, Leaf, Encode, Build, WriteDouble, WriteVarint, WriteString, EncodeRecords;
      out := target;
      ghost var m := Abs();
      BuildUnknown(Slots(), unknown);
      PrintStart(ord, METRIC_SUM_COUNT, m, FRESH, target);
      PrintNone(ord, METRIC_SUM_COUNT, m, FRESH, 0, target);
      BuildSlot(Slots(), unknown, 1);
      PrintNum(ord, METRIC_SUM_COUNT, m, FRESH, 1, sum, target);
      if sum != 0 { out := out + WriteDouble(1, sum); }
      BuildSlot(Slots(), unknown, 2);
      PrintNum(ord, METRIC_SUM_COUNT, m, FRESH, 2, count, target);
      if count != 0 { out := out + WriteVarint(2, count); }
      PrintEnd(ord, METRIC_SUM_COUNT, m, FRESH, target);
      LeafTables();
      PrintLeaf(ord, METRIC_SUM_COUNT, m, FRESH);
      out := out + EncodeRecords(unknown);
    }

    method MergeFrom(from: MetricSumCount)
      requires Valid() && from.Valid() && from != this
      modifies this
      ensures Valid() && Abs() == Merge(METRIC_SUM_COUNT, old(Abs()), from.Abs())
    {
      hide Merge, MergedSlot, Build;
      MergedFields(from);
      if from.sum != 0 { sum := from.sum; }
      if from.count != 0 { count := from.count; }
      unknown := unknown + from.unknown;
      assert Slots() == Overlay(old(Slots()), from.Slots());
    }

    lemma MergedFields(from: MetricSumCount)
      ensures Merge(METRIC_SUM_COUNT, Abs(), from.Abs()) ==
              Build(Overlay(Slots(), from.Slots()), unknown + from.unknown)
    {
      hide Merge, MergedSlot, Build;
      PlainOverlay(METRIC_SUM_COUNT, Slots(), unknown, from.Slots(), from.unknown);
    }

    method CopyFrom(from: MetricSumCount)
      requires Valid() && from.Valid()
      modifies this
      ensures Valid() && Abs() == old(from.Abs())
    {
      if from == this { return; }
      Clear();
      MergeFrom(from);
      from.CopiedByMerging();
    }

    /** Merging into an empty object copies every field. */
    lemma {:induction false} CopiedByMerging()
      ensures Merge(METRIC_SUM_COUNT, EMPTY, Abs()) == Abs()
    {
      hide Merge, MetricSumCount.Slots;
      PlainCopy(METRIC_SUM_COUNT, Slots(), unknown);
    }

    /** What an object holds is a legal message. */
    lemma Legal()
      requires Valid()
      ensures WF(METRIC_SUM_COUNT, Abs())
    {
      hide LegalUnknown, WF;
      BuildLegal(METRIC_SUM_COUNT, Slots(), unknown);
    }

    method InternalSwap(other: MetricSumCount)
      requires Valid() && other.Valid()
      modifies this, other
      ensures Valid() && other.Valid()
      ensures Abs() == old(other.Abs()) && other.Abs() == old(Abs())
    {
      unknown, other.unknown := other.unknown, unknown;
      sum, other.sum := other.sum, sum;
      count, other.count := other.count, count;
    }
  }

  /** A named sum and count. */
  class RawMetricSumCount {
    var fieldId: bytes
    var sum: u64  // raw bits of the double
    var count: u64
    var unknown: seq<Record>
    var cachedSize: nat

    ghost predicate Valid()
      reads this`unknown
    {
      LegalUnknown(RAW_METRIC_SUM_COUNT, unknown)
    }

    function Slots(): seq<Option<Value>>
      reads this`fieldId, this`sum, this`count
    {
      [None, StrSlot(Plain(Text), fieldId), NumSlot(Plain(Double), sum), NumSlot(Plain(U64), count)]
    }

    function Abs(): Msg
      reads this`fieldId, this`sum, this`count, this`unknown
    {
      Build(Slots(), unknown)
    }

    constructor ()
      ensures Valid() && Abs() == EMPTY
    {
      fieldId, sum, count := [], 0, 0;
      unknown, cachedSize := [], 0;
      new;
      BuildEmpty(Slots());
    }

    /** The copy constructor: every field is taken over as it is. */
    constructor Copy(from: RawMetricSumCount)
      requires from.Valid()
      ensures Valid() && Abs() == from.Abs()
    {
      fieldId, sum, count := from.fieldId, from.sum, from.count;
      unknown, cachedSize := from.unknown, 0;
    }

    method Clear()
      modifies this
      ensures Valid() && Abs() == EMPTY
    {
      fieldId, sum, count := [], 0, 0;
      unknown := [];
      BuildEmpty(Slots());
    }

    method InternalParse(buf: bytes, start: nat, limit: nat) returns (st: Status)
      requires Valid() && start <= limit <= |buf|
      modifies this
      ensures Valid()
      ensures Agrees(Parse(RAW_METRIC_SUM_COUNT, old(Abs()), buf[start..limit]), st, Abs())
    {
      hide Parse, ReadTag, ReadDouble, ReadVarint64, ReadString, ReadUnknown, PutSlot, Build, ValidUtf8;
      var ptr := start;
      while ptr < limit
        invariant start <= ptr <= limit && Valid()
        invariant Parse(RAW_METRIC_SUM_COUNT, Abs(), buf[ptr..limit]) ==
                  Parse(RAW_METRIC_SUM_COUNT, old(Abs()), buf[start..limit])
        decreases limit - ptr
      {
        ghost var slots := Slots();
        StepTag(RAW_METRIC_SUM_COUNT, Abs(), buf, ptr, limit);
        var t := ReadTag(buf, ptr, limit);
        if t.NoNum? { return Null; }
        if t.v / 8 == 1 && t.v % 256 == 10 {
          StepText(RAW_METRIC_SUM_COUNT, Abs(), buf, ptr, limit, 1);
          var x := ReadString(buf, t.ptr, limit);
          if x.NoStr? { return Null; }
          BuildPut(RAW_METRIC_SUM_COUNT, slots, unknown, 1, StrSlot(Plain(Text), x.b));
          fieldId := x.b;  // stored before it is checked
          if !ValidUtf8(fieldId) { return Null; }
          assert Slots() == slots[1 := StrSlot(Plain(Text), x.b)];
          ptr := x.ptr;
          continue;
        } else if t.v / 8 == 2 && t.v % 256 == 17 {
          StepDouble(RAW_METRIC_SUM_COUNT, Abs(), buf, ptr, limit, 2);
          var x := ReadDouble(buf, t.ptr, limit);
          if x.NoNum? { return Null; }
          BuildPut(RAW_METRIC_SUM_COUNT, slots, unknown, 2, NumSlot(Plain(Double), x.v));
          sum := x.v;
          assert Slots() == slots[2 := NumSlot(Plain(Double), x.v)];
          ptr := x.ptr;
          continue;
        } else if t.v / 8 == 3 && t.v % 256 == 24 {
          StepVarint(RAW_METRIC_SUM_COUNT, Abs(), buf, ptr, limit, 3);
          var x := ReadVarint64(buf, t.ptr, limit);
          if x.NoNum? { return Null; }
          BuildPut(RAW_METRIC_SUM_COUNT, slots, unknown, 3, NumSlot(Plain(U64), x.v));
          count := x.v;
          assert Slots() == slots[3 := NumSlot(Plain(U64), x.v)];
          ptr := x.ptr;
          continue;
        }
        if t.v == 0 || t.v % 8 == 4 { return AtTag(t.v); }
        StepUnknown(RAW_METRIC_SUM_COUNT, Abs(), buf, ptr, limit);
        var u := ReadUnknown(buf, t.ptr, limit, t.v);
        if u.NoUnknown? { return Null; }
        BuildAppend(slots, unknown, u.r);
        unknown := unknown + [u.r];
        ptr := u.ptr;
      }
      ParseEnd(RAW_METRIC_SUM_COUNT, Abs(), buf, limit);
      return AtLimit;
    }

    method ByteSizeLong() returns (total: nat)
      modifies this`cachedSize
      ensures total == cachedSize == ByteSize(RAW_METRIC_SUM_COUNT, Abs())
    {
      hide VarintSize, FieldsSize, SizeAt, Build;
      total := 0;
      if fieldId != [] { total := total + 1 + VarintSize(|fieldId|) + |fieldId|; }
      if sum != 0 { total := total + 1 + 8; }
      if count != 0 { total := total + 1 + VarintSize(count); }
      SizeOfFields();
      total := total + |EncodeRecords(unknown)|;
      cachedSize := total;
    }

    /** The terms of the size pass, in field order. */
    lemma SizeOfFields()
      ensures ByteSize(RAW_METRIC_SUM_COUNT, Abs()) ==
              (if fieldId == [] then 0 else 1 + VarintSize(|fieldId|) + |fieldId|)
              + (if sum == 0 then 0 else 1 + 8)
              + (if count == 0 then 0 else 1 + VarintSize(count))
              + |EncodeRecords(unknown)|
    {
      hide VarintSize, FieldsSize, SizeAt, Build;
      var m := Abs();
      BuildUnknown(Slots(), unknown);
      SizeStepAt(RAW_METRIC_SUM_COUNT, m, 0);
      SizeOfNothing(RAW_METRIC_SUM_COUNT, m, 0);
      SizeStepAt(RAW_METRIC_SUM_COUNT, m, 1);
      BuildSlot(Slots(), unknown, 1);
      SizeOfStr(RAW_METRIC_SUM_COUNT, m, 1, fieldId);
      SizeStepAt(RAW_METRIC_SUM_COUNT, m, 2);
      BuildSlot(Slots(), unknown, 2);
      SizeOfNum(RAW_METRIC_SUM_COUNT, m, 2, sum);
      SizeStepAt(RAW_METRIC_SUM_COUNT, m, 3);
      BuildSlot(Slots(), unknown, 3);
      SizeOfNum(RAW_METRIC_SUM_COUNT, m, 3, count);
      SizeStepAt(RAW_METRIC_SUM_COUNT, m, 4);
    }

    method InternalSerialize(ghost ord: Order, target: bytes) returns (out: bytes)
      ensures out == target + Encode(ord, RAW_METRIC_SUM_COUNT, Abs())
    {
      hide Printed, Print, Leaf, Encode, Build, WriteDouble, WriteVarint, WriteString, EncodeRecords;
      out := target;
      ghost var m := Abs();
      BuildUnknown(Slots(), unknown);
      PrintStart(ord, RAW_METRIC_SUM_COUNT, m, FRESH, target);
      PrintNone(ord, RAW_METRIC_SUM_COUNT, m, FRESH, 0, target);
      BuildSlot(Slots(), unknown, 1);
      PrintStr(ord, RAW_METRIC_SUM_COUNT, m, FRESH, 1, fieldId, target);
      if fieldId != [] { out := out + WriteString(1, fieldId); }
      BuildSlot(Slots(), unknown, 2);
      PrintNum(ord, RAW_METRIC_SUM_COUNT, m, FRESH, 2, sum, target);
      if sum != 0 { out := out + WriteDouble(2, sum); }
      BuildSlot(Slots(), unknown, 3);
      PrintNum(ord, RAW_METRIC_SUM_COUNT, m, FRESH, 3, count, target);
      if count != 0 { out := out + WriteVarint(3, count); }
      PrintEnd(ord, RAW_METRIC_SUM_COUNT, m, FRESH, target);
      LeafTables();
      PrintLeaf(ord, RAW_METRIC_SUM_COUNT, m, FRESH);
      out := out + EncodeRecords(unknown);
    }

    method MergeFrom(from: RawMetricSumCount)
      requires Valid() && from.Valid() && from != this
      modifies this
      ensures Valid() && Abs() == Merge(RAW_METRIC_SUM_COUNT, old(Abs()), from.Abs())
    {
      hide Merge, MergedSlot, Build;
      MergedFields(from);
      if from.fieldId != [] { fieldId := from.fieldId; }
      if from.sum != 0 { sum := from.sum; }
      if from.count != 0 { count := from.count; }
      unknown := unknown + from.unknown;
      assert Slots() == Overlay(old(Slots()), from.Slots());
    }

    lemma MergedFields(from: RawMetricSumCount)
      ensures Merge(RAW_METRIC_SUM_COUNT, Abs(), from.Abs()) ==
              Build(Overlay(Slots(), from.Slots()), unknown + from.unknown)
    {
      hide Merge, MergedSlot, Build;
      PlainOverlay(RAW_METRIC_SUM_COUNT, Slots(), unknown, from.Slots(), from.unknown);
    }

    method CopyFrom(from: RawMetricSumCount)
      requires Valid() && from.Valid()
      modifies this
      ensures Valid() && Abs() == old(from.Abs())
    {
      if from == this { return; }
      Clear();
      MergeFrom(from);
      PlainCopy(RAW_METRIC_SUM_COUNT, from.Slots(), from.unknown);
    }

    /** What an object holds is a legal message, once its string is UTF-8. */
    lemma {:induction false} Legal()
      requires Valid() && ValidUtf8(fieldId)
      ensures WF(RAW_METRIC_SUM_COUNT, Abs())
    {
      hide ValidUtf8, LegalUnknown, WF;
      BuildLegal(RAW_METRIC_SUM_COUNT, Slots(), unknown);
    }

    method InternalSwap(other: RawMetricSumCount)
      requires Valid() && other.Valid()
      modifies this, other
      ensures Valid() && other.Valid()
      ensures Abs() == old(other.Abs()) && other.Abs() == old(Abs())
    {
      unknown, other.unknown := other.unknown, unknown;
      fieldId, other.fieldId := other.fieldId, fieldId;
      sum, other.sum := other.sum, sum;
      count, other.count := other.count, count;
    }
  }
}
