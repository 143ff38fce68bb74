/**
  The field tables of the generated classes: the numbers, wire types and presence their switches,
  printers and mergers implement. ServiceInstanceIdentity is a parameter: any schema will do.
 */
module Schemas {
  import opened Options
  import opened Wire
  import opened Message
  import opened MergeAlgebra
  import opened FieldOrder
  import opened Canonical
  import opened TwoPass

  function Plain(kind: Kind): Field { Field(kind, false, false) }
  function Optional(kind: Kind): Field { Field(kind, true, false) }
  function Alternative(kind: Kind): Field { Field(kind, true, true) }

  const RAW_METRIC_SUM_COUNT := Schema(map[1 := Plain(Text), 2 := Plain(Double), 3 := Plain(U64)], 3)

  const METRIC_SUM_COUNT := Schema(map[1 := Plain(Double), 2 := Plain(U64)], 2)

  const METRIC_DEFINITION := Schema(map[
    1 := Plain(Text), 2 := Plain(Text), 3 := Plain(Text), 4 := Plain(Text),
    5 := Plain(Enum), 6 := Plain(Enum),
    7 := Plain(Text), 8 := Plain(Text), 9 := Plain(Text)], 9)

  const METRIC_POINT := Schema(map[
    1 := Plain(Text),
    2 := Alternative(Double), 3 := Alternative(U64), 4 := Alternative(Sub(METRIC_SUM_COUNT)),
    5 := Plain(Dict),
    6 := Optional(I64), 7 := Optional(I64)], 7)

  const REGISTERED_METRIC_RECORD := Schema(map[
    1 := Plain(Rep(METRIC_DEFINITION)), 2 := Plain(Rep(METRIC_POINT)), 3 := Plain(Dict)], 3)

  const AGENT_EPISODE_METRIC_FACT := Schema(map[
    1 := Plain(U32), 2 := Plain(Double), 3 := Plain(U64), 4 := Plain(Bool), 5 := Plain(Text),
    6 := Plain(U32), 7 := Plain(U64), 8 := Plain(U64), 9 := Plain(U64),
    10 := Plain(Rep(RAW_METRIC_SUM_COUNT)),
    11 := Optional(U64), 12 := Optional(U64), 13 := Plain(Text),
    14 := Optional(U64), 15 := Optional(U32)], 15)

  const EPISODE_METRIC_FACT := Schema(map[
    2 := Plain(Text), 3 := Plain(Text), 5 := Plain(Rep(AGENT_EPISODE_METRIC_FACT))], 5)

  const METRIC_EVENT := Schema(map[
    4 := Plain(U64), 5 := Optional(I64), 6 := Plain(Blob), 7 := Plain(Enum)], 7)

  const METRIC_SEQUENCE_GAP := Schema(map[
    1 := Plain(U64), 2 := Plain(U64), 3 := Plain(U64), 4 := Plain(Text)], 4)

  function BatchSchema(identity: Schema): Schema
  {
    Schema(map[
      3 := Optional(Sub(identity)), 4 := Plain(U64), 6 := Plain(I64), 7 := Plain(U64), 8 := Plain(U64),
      9 := Plain(Rep(METRIC_EVENT)), 10 := Plain(Bool), 11 := Plain(Bool), 12 := Plain(U64),
      14 := Optional(Sub(METRIC_SEQUENCE_GAP))], 14)
  }

  function CursorSchema(identity: Schema): Schema
  {
    Schema(map[1 := Optional(Sub(identity)), 2 := Plain(U64), 3 := Plain(U64)], 3)
  }

  function RequestSchema(identity: Schema): Schema
  {
    Schema(map[
      2 := Optional(Sub(identity)), 3 := Optional(Sub(CursorSchema(identity))),
      4 := Plain(U32), 5 := Plain(I64), 6 := Plain(I32)], 6)
  }

  lemma RawSumCountTable()
    ensures WFSchema(RAW_METRIC_SUM_COUNT) && OneofFree(RAW_METRIC_SUM_COUNT) && Compact(RAW_METRIC_SUM_COUNT)
  {
  }

  lemma SumCountTable()
    ensures WFSchema(METRIC_SUM_COUNT) && OneofFree(METRIC_SUM_COUNT) && Compact(METRIC_SUM_COUNT)
  {
  }

  /** The classes in which no class nests: their bytes do not depend on cached sizes. */
  lemma LeafTables()
    ensures Leaf(RAW_METRIC_SUM_COUNT) && Leaf(METRIC_SUM_COUNT) && Leaf(METRIC_EVENT) && Leaf(METRIC_SEQUENCE_GAP)
    ensures Leaf(METRIC_DEFINITION)
  {
  }

  lemma DefinitionTable()
    ensures WFSchema(METRIC_DEFINITION) && OneofFree(METRIC_DEFINITION) && !Compact(METRIC_DEFINITION)
  {
    assert !CompactField(METRIC_DEFINITION.fields[5]);
  }

  lemma EventTable()
    ensures WFSchema(METRIC_EVENT) && OneofFree(METRIC_EVENT) && !Compact(METRIC_EVENT)
  {
    assert !CompactField(METRIC_EVENT.fields[7]);
  }

  lemma GapTable()
    ensures WFSchema(METRIC_SEQUENCE_GAP) && OneofFree(METRIC_SEQUENCE_GAP) && Compact(METRIC_SEQUENCE_GAP)
  {
  }

  lemma PointTable()
    ensures WFSchema(METRIC_POINT) && Tame(METRIC_POINT) && !Compact(METRIC_POINT)
  {
    hide WFSchema, OneofFree, Compact, METRIC_SUM_COUNT;
    SumCountTable();
    LegalFields(METRIC_POINT);
    NotCompact(METRIC_POINT, 5);
  }

  lemma {:induction false} RegisteredTable()
    ensures WFSchema(REGISTERED_METRIC_RECORD) && OneofFree(REGISTERED_METRIC_RECORD) &&
            !Compact(REGISTERED_METRIC_RECORD)
  {
    hide WFSchema, OneofFree, Compact, METRIC_DEFINITION, METRIC_POINT;
    DefinitionTable();
    PointTable();
    LegalFields(REGISTERED_METRIC_RECORD);
    FieldsOneofFree(REGISTERED_METRIC_RECORD);
    NotCompact(REGISTERED_METRIC_RECORD, 3);
  }

  lemma LegalFields(s: Schema)
    requires s.max < 0x2000_0000 && forall k | k in s.fields :: 1 <= k <= s.max && WFField(s.fields[k])
    ensures WFSchema(s)
  {
  }

  lemma AgentFactTable()
    ensures WFSchema(AGENT_EPISODE_METRIC_FACT) && OneofFree(AGENT_EPISODE_METRIC_FACT) &&
            Compact(AGENT_EPISODE_METRIC_FACT)
  {
    hide WFSchema, OneofFree, Compact, RAW_METRIC_SUM_COUNT;
    RawSumCountTable();
    LegalFields(AGENT_EPISODE_METRIC_FACT);
    FieldsOneofFree(AGENT_EPISODE_METRIC_FACT);
    CompactFields(AGENT_EPISODE_METRIC_FACT);
  }

  lemma {:induction false} EpisodeFactTable()
    ensures WFSchema(EPISODE_METRIC_FACT) && OneofFree(EPISODE_METRIC_FACT) && Compact(EPISODE_METRIC_FACT)
  {
    hide WFSchema, OneofFree, Compact, AGENT_EPISODE_METRIC_FACT;
    AgentFactTable();
    LegalFields(EPISODE_METRIC_FACT);
    FieldsOneofFree(EPISODE_METRIC_FACT);
    CompactFields(EPISODE_METRIC_FACT);
  }

  lemma CompactFields(s: Schema)
    requires forall k | k in s.fields :: CompactField(s.fields[k])
    ensures Compact(s)
  {
  }

  lemma BatchTable(identity: Schema)
    requires WFSchema(identity)
    ensures WFSchema(BatchSchema(identity)) && (OneofFree(identity) ==> OneofFree(BatchSchema(identity)))
    ensures !Compact(BatchSchema(identity))
  {
    hide WFSchema, OneofFree, Compact, METRIC_EVENT, METRIC_SEQUENCE_GAP;
    EventTable();
    GapTable();
    LegalFields(BatchSchema(identity));
    if OneofFree(identity) { FieldsOneofFree(BatchSchema(identity)); }
    NotCompact(BatchSchema(identity), 9);
  }

  lemma FieldsOneofFree(s: Schema)
    requires forall k | k in s.fields :: OneofFreeField(s.fields[k])
    ensures OneofFree(s)
  {
  }

  lemma NotCompact(s: Schema, k: nat)
    requires k in s.fields && !CompactField(s.fields[k])
    ensures !Compact(s)
  {
  }

  lemma CursorTable(identity: Schema)
    requires WFSchema(identity)
    ensures WFSchema(CursorSchema(identity)) && (OneofFree(identity) ==> OneofFree(CursorSchema(identity)))
  {
    hide WFSchema, OneofFree;
    LegalFields(CursorSchema(identity));
    if OneofFree(identity) { FieldsOneofFree(CursorSchema(identity)); }
  }

  lemma {:induction false} RequestTable(identity: Schema)
    requires WFSchema(identity)
    ensures WFSchema(RequestSchema(identity)) && (OneofFree(identity) ==> OneofFree(RequestSchema(identity)))
    ensures !Compact(RequestSchema(identity))
  {
    hide WFSchema, OneofFree, Compact, CursorSchema;
    CursorTable(identity);
    LegalFields(RequestSchema(identity));
    if OneofFree(identity) { FieldsOneofFree(RequestSchema(identity)); }
    NotCompact(RequestSchema(identity), 6);
  }

  /** Every table is a legal class description, so all results about schemas apply to these classes. */
  lemma {:induction false} TablesAreLegal(identity: Schema)
    requires WFSchema(identity)
    ensures WFSchema(RAW_METRIC_SUM_COUNT) && WFSchema(METRIC_SUM_COUNT) && WFSchema(METRIC_DEFINITION)
    ensures WFSchema(METRIC_POINT) && WFSchema(REGISTERED_METRIC_RECORD)
    ensures WFSchema(AGENT_EPISODE_METRIC_FACT) && WFSchema(EPISODE_METRIC_FACT)
    ensures WFSchema(METRIC_EVENT) && WFSchema(METRIC_SEQUENCE_GAP)
    ensures WFSchema(BatchSchema(identity)) && WFSchema(CursorSchema(identity))
    ensures WFSchema(RequestSchema(identity))
  {
    hide WFSchema, BatchSchema, CursorSchema, RequestSchema, Tame, OneofFree, Compact;
    RawSumCountTable();
    SumCountTable();
    DefinitionTable();
    PointTable();
    RegisteredTable();
    AgentFactTable();
    EpisodeFactTable();
    EventTable();
    GapTable();
    BatchTable(identity);
    CursorTable(identity);
    RequestTable(identity);
  }

  // ---------------------------------------------------------------- which classes can grow

  lemma GrowsAt(s: Schema, k: nat, d: nat)
    requires k in s.fields && GrowingField(s.fields[k], d)
    ensures GrowsWithin(s, d)
  {
  }

  lemma GrowingTables(identity: Schema)
    ensures GrowsWithin(METRIC_DEFINITION, 0) && GrowsWithin(METRIC_POINT, 0) &&
            GrowsWithin(REGISTERED_METRIC_RECORD, 0)
    ensures GrowsWithin(METRIC_EVENT, 0) && GrowsWithin(BatchSchema(identity), 1) &&
            GrowsWithin(RequestSchema(identity), 0)
  {
    hide GrowsWithin;
    GrowsAt(METRIC_DEFINITION, 5, 0);
    GrowsAt(METRIC_POINT, 5, 0);
    GrowsAt(REGISTERED_METRIC_RECORD, 3, 0);
    GrowsAt(METRIC_EVENT, 7, 0);
    GrowsAt(BatchSchema(identity), 9, 1);
    GrowsAt(RequestSchema(identity), 6, 0);
  }

  /** The classes whose accepted inputs never become longer by re-encoding, and those that have one that does. */
  lemma {:induction false} WhichTablesGrow(ord: Order, identity: Schema)
    requires ValidOrder(ord) && WFSchema(identity)
    ensures NeverLonger(ord, RAW_METRIC_SUM_COUNT) && NeverLonger(ord, METRIC_SUM_COUNT)
    ensures NeverLonger(ord, AGENT_EPISODE_METRIC_FACT) && NeverLonger(ord, EPISODE_METRIC_FACT)
    ensures NeverLonger(ord, METRIC_SEQUENCE_GAP)
    ensures !NeverLonger(ord, METRIC_DEFINITION) && !NeverLonger(ord, METRIC_POINT)
    ensures !NeverLonger(ord, REGISTERED_METRIC_RECORD) && !NeverLonger(ord, METRIC_EVENT)
    ensures !NeverLonger(ord, BatchSchema(identity)) && !NeverLonger(ord, RequestSchema(identity))
  {
    hide NeverLonger, GrowsWithin, Compact, WFSchema, OneofFree, Tame, BatchSchema, RequestSchema, CursorSchema, Leaf;
    TablesAreLegal(identity);
    RawSumCountTable();
    SumCountTable();
    AgentFactTable();
    EpisodeFactTable();
    GapTable();
    CompactNeverLonger(ord, RAW_METRIC_SUM_COUNT);
    CompactNeverLonger(ord, METRIC_SUM_COUNT);
    CompactNeverLonger(ord, AGENT_EPISODE_METRIC_FACT);
    CompactNeverLonger(ord, EPISODE_METRIC_FACT);
    CompactNeverLonger(ord, METRIC_SEQUENCE_GAP);
    GrowingTables(identity);
    GrowingIsLonger(ord, METRIC_DEFINITION, 0);
    GrowingIsLonger(ord, METRIC_POINT, 0);
    GrowingIsLonger(ord, REGISTERED_METRIC_RECORD, 0);
    GrowingIsLonger(ord, METRIC_EVENT, 0);
    GrowingIsLonger(ord, BatchSchema(identity), 1);
    GrowingIsLonger(ord, RequestSchema(identity), 0);
  }

  // ---------------------------------------------------------------- MetricPoint: when grouping merges matters

  /** The alternatives of the value oneof. */
  predicate HoldsOther(m: Msg) { 2 in m.fields || 3 in m.fields }

  /**
    Merging three points is independent of the grouping unless the outer ones hold a sum_count, the
    middle one a scalar or unsigned_value, and the last sum_count leaves out something the first has.
   */
  lemma {:induction false} PointMergeExactly(a: Msg, b: Msg, c: Msg)
    requires WF(METRIC_POINT, a) && WF(METRIC_POINT, b) && WF(METRIC_POINT, c)
    ensures Left(METRIC_POINT, a, b, c) == Right(METRIC_POINT, a, b, c) <==>
            (4 in a.fields && HoldsOther(b) && 4 in c.fields ==>
               var (p, q) := (MsgOf(Slot(a, 4)), MsgOf(Slot(c, 4)));
               p.fields.Keys <= q.fields.Keys && p.unknown == [])
  {
    hide Merge, Left, Right, WFRecord, WFSchema, Tame, Flat, Conflict, HasOneof;
    var s := METRIC_POINT;
    PointShape();
    AssociativeExactly(s, a, b, c);
    PointHoldsOther(b);
    assert forall k :: Conflict(s, a, b, c, k) <==> k == 4 && 4 in a.fields && HoldsOther(b) && 4 in c.fields by {
      forall k
        ensures Conflict(s, a, b, c, k) <==> k == 4 && 4 in a.fields && HoldsOther(b) && 4 in c.fields
      {
        PointConflict(a, b, c, k);
      }
    }
    if 4 in a.fields && HoldsOther(b) && 4 in c.fields {
      assert WFValue(s.fields[4], a.fields[4]) && WFValue(s.fields[4], c.fields[4]);
      FlatAbsorbs(METRIC_SUM_COUNT, MsgOf(Slot(a, 4)), MsgOf(Slot(c, 4)));
      PointConflict(a, b, c, 4);
    }
  }

  lemma PointShape()
    ensures WFSchema(METRIC_POINT) && Tame(METRIC_POINT) && Flat(METRIC_SUM_COUNT)
    ensures METRIC_POINT.fields[4].kind == Sub(METRIC_SUM_COUNT)
    ensures forall k :: OneofAt(METRIC_POINT, k) <==> k == 2 || k == 3 || k == 4
  {
    hide WFSchema, Tame, OneofFree;
    PointTable();
  }

  lemma PointHoldsOther(b: Msg)
    ensures HasOneof(METRIC_POINT, b) <==> HoldsOther(b) || 4 in b.fields
  {
    PointShape();
    assert OneofAt(METRIC_POINT, 2) && OneofAt(METRIC_POINT, 3) && OneofAt(METRIC_POINT, 4);
  }

  lemma PointConflict(a: Msg, b: Msg, c: Msg, k: nat)
    requires WF(METRIC_POINT, b)
    ensures Conflict(METRIC_POINT, a, b, c, k) <==> k == 4 && 4 in a.fields && HoldsOther(b) && 4 in c.fields
  {
    hide WFValue, WFRecord;
    PointShape();
    PointHoldsOther(b);
    assert OneofAt(METRIC_POINT, 2) && OneofAt(METRIC_POINT, 3) && OneofAt(METRIC_POINT, 4);
  }

  /** A concrete triple: the first count survives one grouping and is lost in the other. */
  lemma {:induction false} PointMergeCounterexample() returns (a: Msg, b: Msg, c: Msg)
    ensures WF(METRIC_POINT, a) && WF(METRIC_POINT, b) && WF(METRIC_POINT, c)
    ensures Left(METRIC_POINT, a, b, c) != Right(METRIC_POINT, a, b, c)
  {
    var count := Msg(map[2 := Num(7)], []);
    var sum := Msg(map[1 := Num(0x3FF0_0000_0000_0000)], []);
    a := Msg(map[4 := SubV(count)], []);
    b := Msg(map[3 := Num(1)], []);
    c := Msg(map[4 := SubV(sum)], []);
    hide WF, Left, Right, Merge, METRIC_POINT, METRIC_SUM_COUNT;
    SumCountOf(2, 7);
    SumCountOf(1, 0x3FF0_0000_0000_0000);
    PointHolding(count);
    PointHolding(sum);
    PointUnsigned(1);
    PointMergeExactly(a, b, c);
    assert 2 in MsgOf(Slot(a, 4)).fields.Keys && 2 !in MsgOf(Slot(c, 4)).fields.Keys;
  }

  lemma SumCountOf(k: nat, n: nat)
    requires 1 <= k <= 2 && 0 < n < TWO64
    ensures WF(METRIC_SUM_COUNT, Msg(map[k := Num(n)], []))
  {
  }

  lemma PointUnsigned(n: nat)
    requires n < TWO64
    ensures WF(METRIC_POINT, Msg(map[3 := Num(n)], []))
  {
  }

  lemma PointHolding(x: Msg)
    requires WF(METRIC_SUM_COUNT, x)
    ensures WF(METRIC_POINT, Msg(map[4 := SubV(x)], []))
  {
  }

  /** Inside the oneof the order of two records shows: a scalar and an unsigned_value swapped. */
  lemma {:induction false} OneofOrderMatters() returns (a: Record, b: Record)
    ensures WFRecord(a) && WFRecord(b) && KeyOf(METRIC_POINT, a) == KeyOf(METRIC_POINT, b) == OneofKey
    ensures Then(METRIC_POINT, Apply(METRIC_POINT, EMPTY, a), b) != Then(METRIC_POINT, Apply(METRIC_POINT, EMPTY, b), a)
  {
    a, b := Record(2, Fixed64P(1)), Record(3, VarintP(1));
    hide Apply, PutSlot;
    ScalarRecord(EMPTY);
    UnsignedRecord(EMPTY);
    var x, y := Apply(METRIC_POINT, EMPTY, a).value, Apply(METRIC_POINT, EMPTY, b).value;
    ScalarRecord(y);
    UnsignedRecord(x);
  }

  lemma ScalarRecord(m: Msg)
    ensures Apply(METRIC_POINT, m, Record(2, Fixed64P(1))) == Some(PutSlot(METRIC_POINT, m, 2, Some(Num(1))))
    ensures Slot(PutSlot(METRIC_POINT, m, 2, Some(Num(1))), 2) == Some(Num(1))
  {
    hide PutSlot, METRIC_SUM_COUNT;
    PutsAt(m, 2);
  }

  lemma UnsignedRecord(m: Msg)
    ensures Apply(METRIC_POINT, m, Record(3, VarintP(1))) == Some(PutSlot(METRIC_POINT, m, 3, Some(Num(1))))
    ensures Slot(PutSlot(METRIC_POINT, m, 3, Some(Num(1))), 2) == None
  {
    hide PutSlot, METRIC_SUM_COUNT;
    PutsAt(m, 3);
  }

  lemma PutsAt(m: Msg, k: nat)
    requires k == 2 || k == 3
    ensures Slot(PutSlot(METRIC_POINT, m, k, Some(Num(1))), 2) == if k == 2 then Some(Num(1)) else None
  {
    assert OneofAt(METRIC_POINT, 2) && OneofAt(METRIC_POINT, 3);
  }

  lemma OneofOfPoint(k: nat)
    ensures OneofAt(METRIC_POINT, k) <==> k in {2, 3, 4}
    ensures METRIC_POINT.fields[2] == Alternative(Double) && METRIC_POINT.fields[3] == Alternative(U64)
    ensures METRIC_POINT.fields[4] == Alternative(Sub(METRIC_SUM_COUNT))
  {
    hide METRIC_SUM_COUNT;
  }

  /**
    What accepted records leave in the oneof of a point: the alternative of the last one and no other. A number
    is the last number sent; a sum_count is parsed from the sum_count records behind the last number, onto the
    sum_count held before when there is no number at all.
   */
  lemma {:induction false} PointValue(m: Msg, rs: seq<Record>)
    requires Fold(METRIC_POINT, m, rs).Some? && Select(METRIC_POINT, rs, OneofKey) != []
    ensures var m' := Fold(METRIC_POINT, m, rs).value;
            var q := Select(METRIC_POINT, rs, OneofKey);
            var last, run := q[|q| - 1], LastRun(q, 4);
            && last.num in {2, 3, 4}
            && (forall k | k in {2, 3, 4} && k != last.num :: Slot(m', k) == None)
            && (last.num != 4 ==> Slot(m', last.num) == Some(Num(PayloadNum(last.payload))))
            && (last.num == 4 ==>
                  var c := Parse(METRIC_SUM_COUNT, if run == q then MsgOf(Slot(m, 4)) else EMPTY, Contents(run));
                  c.Done? && Slot(m', 4) == Some(SubV(c.m)))
  {
    hide Fold, Select, Parse, LastRun, Contents, WFSchema, Tame, METRIC_POINT, METRIC_SUM_COUNT;
    PointTable();
    var q := Select(METRIC_POINT, rs, OneofKey);
    OneofHoldsLast(METRIC_POINT, m, rs);
    OneofMergesLastRun(METRIC_POINT, m, rs);
    OneofOfPoint(q[|q| - 1].num);
    forall k | k in {2, 3, 4} && k != q[|q| - 1].num
      ensures Slot(Fold(METRIC_POINT, m, rs).value, k) == None
    {
      OneofOfPoint(k);
      OneofShowsLast(METRIC_POINT, m, rs, k);
    }
  }

  // ---------------------------------------------------------------- episode facts

  /** Re-encoding an accepted episode fact is canonical and never longer than the input. */
  lemma {:induction false} EpisodeFactReencoding(ord: Order, x: bytes)
    requires ValidOrder(ord) && Parse(EPISODE_METRIC_FACT, EMPTY, x).Done? && |x| <= MAX_SIZE
    ensures var m := Parse(EPISODE_METRIC_FACT, EMPTY, x).m;
            var y := Encode(ord, EPISODE_METRIC_FACT, m);
            |y| <= |x| && Parse(EPISODE_METRIC_FACT, EMPTY, y) == Done(m)
  {
    hide Parse, Encode, WFSchema, Compact;
    EpisodeFactTable();
    NeverGrows(ord, EPISODE_METRIC_FACT, EMPTY, x);
    EmptySize(ord, EPISODE_METRIC_FACT);
    Reencoding(ord, EPISODE_METRIC_FACT, x);
  }
}
