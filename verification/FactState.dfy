/**
  The layout of AgentEpisodeMetricFact and what its raw fields stand for, as values: the trivially
  copyable fields in the order Impl_ declares them, the has-bits word, and the cases of the switch.
 */
module FactState {
  import opened Options
  import opened Wire
  import opened Memory
  import opened Utf8
  import opened Message
  import opened Sizes
  import opened TwoPass
  import opened Schemas
  import opened Runtime

  // Positions of the plain fields from episode_return_ to terminal_frame_id_.
  const EPISODE_RETURN := 0
  const AGENT_ID := 1
  const SUCCESS := 2
  const TRANSITION_COUNT := 3
  const UNIQUE_CELL_COUNT := 4
  const BLOCKED_MOVE_COUNT := 5
  const ATTEMPTED_MOVE_COUNT := 6
  const SHORTEST_ACTION_STEPS := 7
  const GOAL_RANK_GROUP := 8
  const MINIMUM_BEHAVIOR_MODEL_STEP := 9
  const MAXIMUM_BEHAVIOR_MODEL_STEP := 10
  const TERMINAL_FRAME_ID := 11
  const CELLS := 12

  type Cells = c: seq<u64> | |c| == CELLS witness [0, 0, 0, 0, 0, 0, 0, 0, 0, 0, 0, 0]

  /** Where the varint case of field `k` stores, and the has-bit it sets (none for most). */
  function CellOf(k: nat): (c: nat)
    ensures c < CELLS
  {
    match k
    case 1 => AGENT_ID
    case 3 => TRANSITION_COUNT
    case 4 => SUCCESS
    case 6 => SHORTEST_ACTION_STEPS
    case 7 => UNIQUE_CELL_COUNT
    case 8 => BLOCKED_MOVE_COUNT
    case 9 => ATTEMPTED_MOVE_COUNT
    case 11 => MINIMUM_BEHAVIOR_MODEL_STEP
    case 12 => MAXIMUM_BEHAVIOR_MODEL_STEP
    case 14 => TERMINAL_FRAME_ID
    case 15 => GOAL_RANK_GROUP
    case _ => EPISODE_RETURN
  }

  function BitOf(k: nat): HasBits
  {
    match k
    case 11 => {2}
    case 12 => {4}
    case 14 => {8}
    case 15 => {1}
    case _ => {}
  }

  /** The fields whose case reads a varint; field 2 reads a double. */
  predicate VarintCase(k: nat) { k in {1, 3, 4, 6, 7, 8, 9, 11, 12, 14, 15} }

  predicate NumberField(k: nat) { VarintCase(k) || k == 2 }

  /** The layout gives every number its own position and every optional number its own bit. */
  lemma {:induction false} LayoutInjective(j: nat, k: nat)
    requires NumberField(j) && NumberField(k) && j != k
    ensures CellOf(j) != CellOf(k) && BitOf(j) !! BitOf(k)
  {
  }

  /** The one range of fields whose copy reproduces all of them: from episode_return_ to terminal_frame_id_. */
  lemma {:induction false} CopiedRangeExactly(first: nat, last: nat)
    requires first <= last < CELLS
    ensures Reproduces(CELLS, first, last + 1) <==> first == EPISODE_RETURN && last == TERMINAL_FRAME_ID
  {
    hide Reproduces;
    ReproducesExactly(CELLS, first, last + 1);
  }

  datatype FactState = FactState(
    bits: HasBits, cells: Cells, reason: bytes, lineage: bytes, many: seq<Msg>, unknown: seq<Record>)
  {
    /** What field `k` holds, as it would be printed. */
    function SlotAt(k: nat): Option<Value>
    {
      if NumberField(k) then
        if (BitOf(k) == {} && cells[CellOf(k)] == 0) || !(BitOf(k) <= bits) then None else Some(Num(cells[CellOf(k)]))
      else if k == 5 then StrSlot(Plain(Text), reason)
      else if k == 13 then StrSlot(Plain(Text), lineage)
      else if k == 10 then ManySlot(many)
      else None
    }

    function Slots(): (q: seq<Option<Value>>)
      ensures |q| == 16 && forall k: nat | k < 16 :: q[k] == SlotAt(k)
    {
      seq(16, k requires 0 <= k < 16 => SlotAt(k))
    }

    function Abs(): Msg { Build(Slots(), unknown) }

    /** Only declared bits are on, and a clear one means a stored zero. */
    predicate HasBitsCover()
    {
      && bits <= {1, 2, 4, 8}
      && (1 !in bits ==> cells[GOAL_RANK_GROUP] == 0)
      && (2 !in bits ==> cells[MINIMUM_BEHAVIOR_MODEL_STEP] == 0)
      && (4 !in bits ==> cells[MAXIMUM_BEHAVIOR_MODEL_STEP] == 0)
      && (8 !in bits ==> cells[TERMINAL_FRAME_ID] == 0)
    }

    predicate Typed()
    {
      && cells[AGENT_ID] < TWO32 && cells[SHORTEST_ACTION_STEPS] < TWO32 && cells[GOAL_RANK_GROUP] < TWO32
      && cells[SUCCESS] <= 1
    }

    ghost predicate Valid()
    {
      HasBitsCover() && Typed() && LegalUnknown(AGENT_EPISODE_METRIC_FACT, unknown)
    }
  }

  const EMPTY_STATE := FactState({}, [0, 0, 0, 0, 0, 0, 0, 0, 0, 0, 0, 0], [], [], [], [])

  lemma EmptyState()
    ensures EMPTY_STATE.Valid() && EMPTY_STATE.Abs() == EMPTY
  {
    BuildEmpty(EMPTY_STATE.Slots());
  }

  // ---------------------------------------------------------------- the cases of the switch

  lemma FieldAt(k: nat)
    requires NumberField(k)
    ensures k in AGENT_EPISODE_METRIC_FACT.fields
    ensures var kind := if k == 2 then Double else if k == 4 then Bool else if k in {1, 6, 15} then U32 else U64;
            AGENT_EPISODE_METRIC_FACT.fields[k] == Field(kind, BitOf(k) != {}, false)
  {
  }

  /** The field holds `n` and, if it has one, its has-bit is on. */
  function Store(st: FactState, k: nat, n: u64): FactState
  {
    st.(cells := st.cells[CellOf(k) := n], bits := if BitOf(k) == {} then st.bits else st.bits + BitOf(k))
  }

  /** Storing a number, with its has-bit, changes exactly the slot of its field. */
  lemma StoreNumber(st: FactState, k: nat, n: u64)
    requires NumberField(k)
    ensures Store(st, k, n).Slots() == st.Slots()[k := if n == 0 && BitOf(k) == {} then None else Some(Num(n))]
  {
    hide CellOf, BitOf, VarintCase;
    var st' := Store(st, k, n);
    forall j: nat | j < 16 && j != k
      ensures st'.SlotAt(j) == st.SlotAt(j)
    {
      if NumberField(j) { LayoutInjective(j, k); }
    }
    InRange(k);
  }

  lemma InRange(k: nat)
    requires NumberField(k)
    ensures k < 16
  {
  }

  lemma {:induction false} PutNumber(st: FactState, k: nat, n: u64)
    requires NumberField(k)
    ensures var s := AGENT_EPISODE_METRIC_FACT;
            k in s.fields && Store(st, k, n).Abs() == PutSlot(s, st.Abs(), k, NumSlot(s.fields[k], n))
  {
    hide Build, PutSlot, FactState.Slots, CellOf;
    StoreNumber(st, k, n);
    FieldAt(k);
    BuildPut(AGENT_EPISODE_METRIC_FACT, st.Slots(), st.unknown, k, NumSlot(AGENT_EPISODE_METRIC_FACT.fields[k], n));
  }

  /** The value a varint case stores: truncated to the declared type of its field. */
  function Stored(k: nat, v: u64): u64
  {
    if k == 4 then (if v == 0 then 0 else 1) else if k == 1 || k == 6 || k == 15 then v % TWO32 else v
  }

  lemma VarintCaseStep(st: FactState, buf: bytes, ptr: nat, limit: nat, k: nat)
    requires VarintCase(k) && ptr < limit <= |buf|
    requires ReadTag(buf, ptr, limit).NumAt? && ReadTag(buf, ptr, limit).v == 8 * k
    ensures var x := ReadVarint64(buf, ReadTag(buf, ptr, limit).ptr, limit);
            Parse(AGENT_EPISODE_METRIC_FACT, st.Abs(), buf[ptr..limit]) ==
            if x.NoNum? then Failed
            else Parse(AGENT_EPISODE_METRIC_FACT,
                       Store(st, k, Stored(k, x.v)).Abs(), buf[x.ptr..limit])
  {
    hide Parse, ReadTag, ReadVarint64, PutSlot, NumSlot, FactState.Abs, CellOf;
    FieldAt(k);
    StepVarint(AGENT_EPISODE_METRIC_FACT, st.Abs(), buf, ptr, limit, k);
    var x := ReadVarint64(buf, ReadTag(buf, ptr, limit).ptr, limit);
    if x.NumAt? { PutNumber(st, k, Stored(k, x.v)); }
  }

  /** Storing a value of the field's type keeps the representation invariant. */
  lemma {:induction false} StoreValid(st: FactState, k: nat, n: u64)
    requires NumberField(k) && st.Valid()
    requires n == 0 || (k != 2 && n == Stored(k, n)) || k == 2
    ensures Store(st, k, n).Valid()
  {
    hide LegalUnknown;
  }

  lemma DoubleCaseStep(st: FactState, buf: bytes, ptr: nat, limit: nat)
    requires ptr < limit <= |buf|
    requires ReadTag(buf, ptr, limit).NumAt? && ReadTag(buf, ptr, limit).v == 17
    ensures var x := ReadDouble(buf, ReadTag(buf, ptr, limit).ptr, limit);
            Parse(AGENT_EPISODE_METRIC_FACT, st.Abs(), buf[ptr..limit]) ==
            if x.NoNum? then Failed
            else Parse(AGENT_EPISODE_METRIC_FACT, Store(st, 2, x.v).Abs(), buf[x.ptr..limit])
  {
    hide Parse, ReadTag, ReadDouble, PutSlot, FactState.Abs;
    FieldAt(2);
    StepDouble(AGENT_EPISODE_METRIC_FACT, st.Abs(), buf, ptr, limit, 2);
    var x := ReadDouble(buf, ReadTag(buf, ptr, limit).ptr, limit);
    if x.NumAt? { PutNumber(st, 2, x.v); }
  }

  lemma TextFields()
    ensures AGENT_EPISODE_METRIC_FACT.fields[5] == AGENT_EPISODE_METRIC_FACT.fields[13] == Plain(Text)
    ensures AGENT_EPISODE_METRIC_FACT.fields[10] == Plain(Rep(RAW_METRIC_SUM_COUNT))
    ensures 5 in AGENT_EPISODE_METRIC_FACT.fields && 13 in AGENT_EPISODE_METRIC_FACT.fields
    ensures 10 in AGENT_EPISODE_METRIC_FACT.fields
  {
  }

  /** Storing a string or the repeated elements changes exactly their slot. */
  lemma StoreOther(st: FactState, st': FactState, k: nat)
    requires k == 5 || k == 10 || k == 13
    requires st' == match k
                    case 5 => st.(reason := st'.reason)
                    case 13 => st.(lineage := st'.lineage)
                    case _ => st.(many := st'.many)
    ensures st'.Abs() == PutSlot(AGENT_EPISODE_METRIC_FACT, st.Abs(), k, st'.SlotAt(k))
  {
    hide Build, PutSlot, StrSlot, ManySlot;
    TextFields();
    assert st'.Slots() == st.Slots()[k := st'.SlotAt(k)];
    BuildPut(AGENT_EPISODE_METRIC_FACT, st.Slots(), st.unknown, k, st'.SlotAt(k));
  }

  /** A string case; the string is stored before it is checked. */
  lemma TextCaseStep(st: FactState, buf: bytes, ptr: nat, limit: nat, k: nat)
    requires (k == 5 || k == 13) && ptr < limit <= |buf|
    requires ReadTag(buf, ptr, limit).NumAt? && ReadTag(buf, ptr, limit).v == 8 * k + 2
    ensures var x := ReadString(buf, ReadTag(buf, ptr, limit).ptr, limit);
            Parse(AGENT_EPISODE_METRIC_FACT, st.Abs(), buf[ptr..limit]) ==
            if x.NoStr? || !ValidUtf8(x.b) then Failed
            else Parse(AGENT_EPISODE_METRIC_FACT,
                       (if k == 5 then st.(reason := x.b) else st.(lineage := x.b)).Abs(), buf[x.ptr..limit])
  {
    hide Parse, ReadTag, ReadString, PutSlot, FactState.Abs, ValidUtf8;
    TextFields();
    StepText(AGENT_EPISODE_METRIC_FACT, st.Abs(), buf, ptr, limit, k);
    var x := ReadString(buf, ReadTag(buf, ptr, limit).ptr, limit);
    if x.StrAt? { StoreOther(st, if k == 5 then st.(reason := x.b) else st.(lineage := x.b), k); }
  }

  /** The repeated case: the element is parsed from its span and appended. */
  lemma ElementCaseStep(st: FactState, buf: bytes, ptr: nat, limit: nat)
    requires ptr < limit <= |buf|
    requires ReadTag(buf, ptr, limit).NumAt? && ReadTag(buf, ptr, limit).v == 82
    ensures var x := ReadSize(buf, ReadTag(buf, ptr, limit).ptr, limit);
            x.NoSpan? ==> Parse(AGENT_EPISODE_METRIC_FACT, st.Abs(), buf[ptr..limit]) == Failed
    ensures var x := ReadSize(buf, ReadTag(buf, ptr, limit).ptr, limit);
            x.SpanAt? ==>
              var c := Parse(RAW_METRIC_SUM_COUNT, EMPTY, buf[x.ptr..x.end]);
              Parse(AGENT_EPISODE_METRIC_FACT, st.Abs(), buf[ptr..limit]) ==
              if c.Done? then Parse(AGENT_EPISODE_METRIC_FACT, st.(many := st.many + [c.m]).Abs(), buf[x.end..limit])
                else Failed
  {
    hide Parse, ReadTag, ReadSize, PutSlot, FactState.Abs, Build;
    TextFields();
    StepNested(AGENT_EPISODE_METRIC_FACT, st.Abs(), buf, ptr, limit, 10);
    var x := ReadSize(buf, ReadTag(buf, ptr, limit).ptr, limit);
    if x.SpanAt? {
      var c := Parse(RAW_METRIC_SUM_COUNT, EMPTY, buf[x.ptr..x.end]);
      AbsSlot(st, 10);
      if c.Done? { StoreOther(st, st.(many := st.many + [c.m]), 10); }
    }
  }

  lemma ValidWithElements(st: FactState, ms: seq<Msg>)
    ensures st.(many := ms).Valid() == st.Valid()
  {
  }

  /** A tag none of the fifteen cases takes. */
  lemma NoCaseTakes(tag: nat)
    requires tag !in {8, 17, 24, 32, 42, 48, 56, 64, 72, 82, 88, 96, 106, 112, 120}
    ensures !Takes(AGENT_EPISODE_METRIC_FACT, tag)
  {
  }

  lemma UnknownCaseStep(st: FactState, buf: bytes, ptr: nat, limit: nat)
    requires ptr < limit <= |buf|
    requires var t := ReadTag(buf, ptr, limit);
             t.NumAt? && t.v != 0 && t.v % 8 != 4 && !Takes(AGENT_EPISODE_METRIC_FACT, t.v)
    ensures var t := ReadTag(buf, ptr, limit);
            var x := ReadUnknown(buf, t.ptr, limit, t.v);
            x.NoUnknown? ==> Parse(AGENT_EPISODE_METRIC_FACT, st.Abs(), buf[ptr..limit]) == Failed
    ensures var t := ReadTag(buf, ptr, limit);
            var x := ReadUnknown(buf, t.ptr, limit, t.v);
            x.UnknownAt? ==>
              var st' := st.(unknown := st.unknown + [x.r]);
              Parse(AGENT_EPISODE_METRIC_FACT, st.Abs(), buf[ptr..limit]) ==
                Parse(AGENT_EPISODE_METRIC_FACT, st'.Abs(), buf[x.ptr..limit])
              && (st.Valid() ==> st'.Valid())
  {
    hide Parse, ReadTag, ReadUnknown, Build, Takes, WFRecord, Known;
    StepUnknown(AGENT_EPISODE_METRIC_FACT, st.Abs(), buf, ptr, limit);
    var t := ReadTag(buf, ptr, limit);
    var x := ReadUnknown(buf, t.ptr, limit, t.v);
    if x.UnknownAt? {
      BuildAppend(st.Slots(), st.unknown, x.r);
      assert st.(unknown := st.unknown + [x.r]).Slots() == st.Slots();
    }
  }

  lemma AbsSlot(st: FactState, k: nat)
    ensures Slot(st.Abs(), k) == if k < 16 then st.SlotAt(k) else None
    ensures st.Abs().unknown == st.unknown
  {
    hide Build, FactState.SlotAt;
    BuildSlot(st.Slots(), st.unknown, k);
    BuildUnknown(st.Slots(), st.unknown);
  }

  // ---------------------------------------------------------------- merging

  /** The mask guarding an optional field's cell in MergeImpl. */
  function MaskOf(c: nat): HasBits
  {
    match c
    case 8 => {1}
    case 9 => {2}
    case 10 => {4}
    case 11 => {8}
    case _ => {}
  }

  function MergedCells(x: Cells, y: Cells, bits: HasBits): Cells
  {
    seq(CELLS, c requires 0 <= c < CELLS =>
      if c < GOAL_RANK_GROUP then (if y[c] != 0 then y[c] else x[c])
      else if MaskOf(c) <= bits then y[c] else x[c])
  }

  /** What MergeImpl leaves in each field. */
  function MergeStates(a: FactState, b: FactState): FactState
  {
    FactState(
      a.bits + b.bits,
      MergedCells(a.cells, b.cells, b.bits),
      if b.reason != [] then b.reason else a.reason,
      if b.lineage != [] then b.lineage else a.lineage,
      a.many + b.many,
      a.unknown + b.unknown)
  }

  function PlainMerged(x: Cells, y: Cells): Cells
  {
    seq(CELLS, c requires 0 <= c < CELLS => if c < GOAL_RANK_GROUP && y[c] != 0 then y[c] else x[c])
  }

  function NonZeroTaken(x: Cells, y: Cells, c: nat): Cells
    requires c < CELLS
  {
    if y[c] != 0 then x[c := y[c]] else x
  }

  /** One field after the other, all numbers with implicit presence are covered. */
  lemma TakenInOrder(x: Cells, y: Cells)
    ensures NonZeroTaken(NonZeroTaken(NonZeroTaken(NonZeroTaken(NonZeroTaken(NonZeroTaken(NonZeroTaken(NonZeroTaken(
              x, y, EPISODE_RETURN), y, AGENT_ID), y, SUCCESS), y, TRANSITION_COUNT), y, UNIQUE_CELL_COUNT),
              y, BLOCKED_MOVE_COUNT), y, ATTEMPTED_MOVE_COUNT), y, SHORTEST_ACTION_STEPS) == PlainMerged(x, y)
  {
    hide NonZeroTaken, PlainMerged;
    forall c | 0 <= c < CELLS
      ensures TakenUpTo(x, y, SHORTEST_ACTION_STEPS)[c] == PlainMerged(x, y)[c]
    {
      TakenAt(x, y, SHORTEST_ACTION_STEPS, c);
      PlainMergedAt(x, y, c);
    }
    assert TakenUpTo(x, y, SHORTEST_ACTION_STEPS) == PlainMerged(x, y);
    assert TakenUpTo(x, y, 1) == NonZeroTaken(NonZeroTaken(x, y, 0), y, 1);
    assert TakenUpTo(x, y, 3) == NonZeroTaken(NonZeroTaken(TakenUpTo(x, y, 1), y, 2), y, 3);
    assert TakenUpTo(x, y, 5) == NonZeroTaken(NonZeroTaken(TakenUpTo(x, y, 3), y, 4), y, 5);
  }

  lemma PlainMergedAt(x: Cells, y: Cells, c: nat)
    requires c < CELLS
    ensures PlainMerged(x, y)[c] == if c < GOAL_RANK_GROUP && y[c] != 0 then y[c] else x[c]
  {
  }

  function TakenUpTo(x: Cells, y: Cells, hi: nat): Cells
    requires hi < CELLS
  {
    NonZeroTaken(if hi == 0 then x else TakenUpTo(x, y, hi - 1), y, hi)
  }

  lemma {:induction false} TakenAt(x: Cells, y: Cells, hi: nat, c: nat)
    requires hi < CELLS && c < CELLS
    ensures TakenUpTo(x, y, hi)[c] == if c <= hi && y[c] != 0 then y[c] else x[c]
  {
    if hi > 0 { TakenAt(x, y, hi - 1, c); }
  }

  function OptionalMerged(x: Cells, y: Cells, bits: HasBits): Cells
  {
    seq(CELLS, c requires 0 <= c < CELLS => if GOAL_RANK_GROUP <= c && MaskOf(c) <= bits then y[c] else x[c])
  }

  /** The numbers first, then the optional ones unless every has-bit is off. */
  lemma {:induction false} MergedInOrder(x: Cells, y: Cells, bits: HasBits)
    ensures var plain := PlainMerged(x, y);
            MergedCells(x, y, bits) == if bits * {1, 2, 4, 8} != {} then OptionalMerged(plain, y, bits) else plain
  {
    var plain := PlainMerged(x, y);
    if bits * {1, 2, 4, 8} == {} {
      assert forall b | b in {1, 2, 4, 8} && b in bits :: b in bits * {1, 2, 4, 8};
      assert MergedCells(x, y, bits) == plain;
    } else {
      assert MergedCells(x, y, bits) == OptionalMerged(plain, y, bits);
    }
  }

  lemma MergedSlotAt(a: FactState, b: FactState, k: nat)
    requires k < 16
    ensures MergeStates(a, b).SlotAt(k) ==
            if k == 10 then ManySlot(a.many + b.many)
            else if b.SlotAt(k).Some? then b.SlotAt(k) else a.SlotAt(k)
  {
    if NumberField(k) { MaskIsBit(k); }
  }

  lemma MaskIsBit(k: nat)
    requires NumberField(k)
    ensures MaskOf(CellOf(k)) == BitOf(k) && (CellOf(k) < GOAL_RANK_GROUP <==> BitOf(k) == {})
    ensures |BitOf(k)| <= 1
  {
  }

  /** The field-by-field merge is the merge of the messages. */
  lemma {:induction false} MergeStatesIsMerge(a: FactState, b: FactState)
    ensures MergeStates(a, b).Abs() == Merge(AGENT_EPISODE_METRIC_FACT, a.Abs(), b.Abs())
  {
    hide Merge, MergedSlot, Build, FactState.SlotAt, MergeStates;
    var m := MergeStates(a, b);
    forall k: nat | k < 16
      ensures m.Slots()[k] == MergedSlot(AGENT_EPISODE_METRIC_FACT, a.Abs(), b.Abs(), k)
    {
      MergedSlotAt(a, b, k);
      AbsSlot(a, k);
      AbsSlot(b, k);
      FactMergedSlot(a, b, k);
    }
    assert m.unknown == a.unknown + b.unknown by { MergedUnknown(a, b); }
    BuildMerge(AGENT_EPISODE_METRIC_FACT, a.Slots(), a.unknown, b.Slots(), b.unknown, m.Slots());
  }

  lemma MergedUnknown(a: FactState, b: FactState)
    ensures MergeStates(a, b).unknown == a.unknown + b.unknown
  {
  }

  lemma FactMergedSlot(a: FactState, b: FactState, k: nat)
    requires k < 16
    ensures MergedSlot(AGENT_EPISODE_METRIC_FACT, a.Abs(), b.Abs(), k) ==
            if k == 10 then ManySlot(a.many + b.many)
            else if b.SlotAt(k).Some? then b.SlotAt(k) else a.SlotAt(k)
  {
    hide Merge, FactState.Abs;
    AbsSlot(a, k);
    AbsSlot(b, k);
    if k == 10 {
      TextFields();
      assert a.many + [] == a.many && [] + b.many == b.many;
    } else {
      FieldKinds(k);
      MergedPlain(AGENT_EPISODE_METRIC_FACT, a.Abs(), b.Abs(), k);
    }
  }

  lemma FieldKinds(k: nat)
    requires k != 10
    ensures k in AGENT_EPISODE_METRIC_FACT.fields ==> PlainField(AGENT_EPISODE_METRIC_FACT.fields[k])
  {
  }

  /** Merging keeps the representation invariant. */
  lemma {:induction false} MergeStatesValid(a: FactState, b: FactState)
    requires a.Valid() && b.Valid()
    ensures MergeStates(a, b).Valid()
  {
    hide WFRecord, Known;
  }

  // ---------------------------------------------------------------- clearing

  /** The guarded Clear of the plain fields: the optional ones are only reset when some has-bit is on. */
  function ClearedCells(bits: HasBits, cells: Cells): Cells
  {
    seq(CELLS, c requires 0 <= c < CELLS =>
      if c <= SHORTEST_ACTION_STEPS || bits * {1, 2, 4, 8} != {} then 0 else cells[c])
  }

  /** The guard is harmless exactly when, with no has-bit on, the optional fields already held zero. */
  lemma {:induction false} GuardedClearExactly(bits: HasBits, cells: Cells)
    ensures ClearedCells(bits, cells) == EMPTY_STATE.cells <==>
            bits * {1, 2, 4, 8} != {} || forall c | GOAL_RANK_GROUP <= c < CELLS :: cells[c] == 0
  {
    var z := ClearedCells(bits, cells);
    assert forall c | 0 <= c < CELLS :: EMPTY_STATE.cells[c] == 0;
    if z == EMPTY_STATE.cells && bits * {1, 2, 4, 8} == {} {
      forall c | GOAL_RANK_GROUP <= c < CELLS
        ensures cells[c] == 0
      {
        assert z[c] == cells[c];
      }
    }
  }

  /** Under the has-bit invariant Clear leaves every plain field at zero. */
  lemma {:induction false} ClearRestoresZero(st: FactState)
    requires st.HasBitsCover()
    ensures ClearedCells(st.bits, st.cells) == EMPTY_STATE.cells
  {
    assert forall b | b in {1, 2, 4, 8} && b in st.bits :: b in st.bits * {1, 2, 4, 8};
    GuardedClearExactly(st.bits, st.cells);
  }

  /** An accepted state is a legal message. */
  lemma {:induction false} LegalState(st: FactState)
    requires st.Valid() && ValidUtf8(st.reason) && ValidUtf8(st.lineage)
    requires forall x | x in st.many :: WF(RAW_METRIC_SUM_COUNT, x)
    ensures WF(AGENT_EPISODE_METRIC_FACT, st.Abs())
  {
    hide WF, ValidUtf8, FactState.SlotAt, LegalUnknown;
    forall k: nat | k < 16 && st.Slots()[k].Some?
      ensures k in AGENT_EPISODE_METRIC_FACT.fields && !AGENT_EPISODE_METRIC_FACT.fields[k].oneof
      ensures WFValue(AGENT_EPISODE_METRIC_FACT.fields[k], st.Slots()[k].value)
    {
      LegalSlot(st, k);
    }
    BuildLegal(AGENT_EPISODE_METRIC_FACT, st.Slots(), st.unknown);
  }

  lemma LegalSlot(st: FactState, k: nat)
    requires st.Valid() && ValidUtf8(st.reason) && ValidUtf8(st.lineage)
    requires forall x | x in st.many :: WF(RAW_METRIC_SUM_COUNT, x)
    requires k < 16 && st.SlotAt(k).Some?
    ensures k in AGENT_EPISODE_METRIC_FACT.fields && !AGENT_EPISODE_METRIC_FACT.fields[k].oneof
    ensures WFValue(AGENT_EPISODE_METRIC_FACT.fields[k], st.SlotAt(k).value)
  {
    hide WF, ValidUtf8, LegalUnknown;
    if NumberField(k) { FieldAt(k); } else { TextFields(); }
  }

  // ---------------------------------------------------------------- sizes

  /** The size term of a number. */
  function NumberSize(st: FactState, k: nat): nat
    requires NumberField(k)
  {
    var n := st.cells[CellOf(k)];
    if (BitOf(k) == {} && n == 0) || !(BitOf(k) <= st.bits) then 0
    else if k == 2 then 1 + 8
    else 1 + VarintSize(n)
  }

  function StringSize(b: bytes): nat
  {
    if b == [] then 0 else 1 + VarintSize(|b|) + |b|
  }

  ghost function TermSize(st: FactState, k: nat): nat
  {
    if NumberField(k) then NumberSize(st, k)
    else if k == 5 then StringSize(st.reason)
    else if k == 13 then StringSize(st.lineage)
    else if k == 10 then ManySize(10, RAW_METRIC_SUM_COUNT, st.many)
    else 0
  }

  lemma TermIsSize(st: FactState, k: nat)
    requires k <= 15
    ensures SizeAt(AGENT_EPISODE_METRIC_FACT, st.Abs(), k) == TermSize(st, k)
  {
    hide FactState.Abs, VarintSize, ByteSize, SizeAt, CellOf, VarintCase;
    AbsSlot(st, k);
    var m := st.Abs();
    var s := AGENT_EPISODE_METRIC_FACT;
    if NumberField(k) {
      FieldAt(k);
      InRange(k);
      SizeOfNum(s, m, k, st.cells[CellOf(k)]);
    } else if k == 5 {
      TextFields();
      SizeOfStr(s, m, k, st.reason);
    } else if k == 13 {
      TextFields();
      SizeOfStr(s, m, k, st.lineage);
    } else if k == 10 {
      TextFields();
      SizeOfMany(s, m, k, st.many);
    } else {
      NoFieldZero();
      SizeOfNothing(s, m, k);
    }
  }

  /** Only the components nest. */
  lemma OneNestedField(st: FactState, c: Cache)
    ensures Exact(AGENT_EPISODE_METRIC_FACT, st.Abs(), c) <==>
            forall i | 0 <= i < |st.many| :: Sound(RAW_METRIC_SUM_COUNT, st.many[i], Kid(c, 10, i))
  {
    hide FactState.Abs, Sound, Kid;
    var s, m := AGENT_EPISODE_METRIC_FACT, st.Abs();
    TextFields();
    AbsSlot(st, 10);
    forall k | k in s.fields && k in m.fields && k != 10
      ensures ExactField(k, s.fields[k], m.fields[k], c)
    {
      AbsSlot(st, k);
    }
    assert 10 in m.fields ==> m.fields[10] == Many(st.many);
  }

  lemma LastField()
    ensures AGENT_EPISODE_METRIC_FACT.max == 15
  {
  }

  lemma NoFieldZero()
    ensures 0 !in AGENT_EPISODE_METRIC_FACT.fields
  {
  }

  /** All terms, in field order. */
  ghost function TermsFrom(st: FactState, k: nat): nat
    decreases 16 - k
  {
    if k >= 16 then 0 else TermSize(st, k) + TermsFrom(st, k + 1)
  }

  lemma {:induction false} TermsAreSizes(st: FactState, k: nat)
    requires k <= 16
    ensures FieldsSize(AGENT_EPISODE_METRIC_FACT, st.Abs(), k) == TermsFrom(st, k)
    decreases 16 - k
  {
    hide FactState.Abs, SizeAt, FieldsSize, TermSize;
    SizeStepAt(AGENT_EPISODE_METRIC_FACT, st.Abs(), k);
    if k < 16 {
      TermIsSize(st, k);
      TermsAreSizes(st, k + 1);
    }
  }

  /** A varint field with a one-byte tag. */
  function VarintTerm(present: bool, n: nat): nat { if present then 1 + VarintSize(n) else 0 }

  /** The terms of the numbers with implicit presence, in declared order. */
  function PlainTerms(c: Cells): nat
  {
    (if c[EPISODE_RETURN] == 0 then 0 else 1 + 8)
    + VarintTerm(c[AGENT_ID] != 0, c[AGENT_ID])
    + VarintTerm(c[SUCCESS] != 0, c[SUCCESS])
    + VarintTerm(c[TRANSITION_COUNT] != 0, c[TRANSITION_COUNT])
    + VarintTerm(c[UNIQUE_CELL_COUNT] != 0, c[UNIQUE_CELL_COUNT])
    + VarintTerm(c[BLOCKED_MOVE_COUNT] != 0, c[BLOCKED_MOVE_COUNT])
    + VarintTerm(c[ATTEMPTED_MOVE_COUNT] != 0, c[ATTEMPTED_MOVE_COUNT])
    + VarintTerm(c[SHORTEST_ACTION_STEPS] != 0, c[SHORTEST_ACTION_STEPS])
  }

  function OptionalTerms(bits: HasBits, c: Cells): nat
  {
    VarintTerm(1 in bits, c[GOAL_RANK_GROUP])
    + VarintTerm(2 in bits, c[MINIMUM_BEHAVIOR_MODEL_STEP])
    + VarintTerm(4 in bits, c[MAXIMUM_BEHAVIOR_MODEL_STEP])
    + VarintTerm(8 in bits, c[TERMINAL_FRAME_ID])
  }

  /** The size of the encoding, regrouped in the order the size pass visits memory. */
  lemma {:induction false} SizeOfState(st: FactState)
    ensures ByteSize(AGENT_EPISODE_METRIC_FACT, st.Abs()) ==
            ManySize(10, RAW_METRIC_SUM_COUNT, st.many) + StringSize(st.reason) + StringSize(st.lineage)
            + PlainTerms(st.cells) + OptionalTerms(st.bits, st.cells) + |EncodeRecords(st.unknown)|
  {
    hide FactState.Abs, FieldsSize, NumberSize, StringSize, ManySize, PlainTerms, OptionalTerms;
    AbsSlot(st, 0);
    TermsAreSizes(st, 0);
    TermsUnrolled(st);
    PlainTermsByNumber(st);
    OptionalTermsByNumber(st);
  }

  lemma PlainTermsByNumber(st: FactState)
    ensures PlainTerms(st.cells) ==
            NumberSize(st, 2) + NumberSize(st, 1) + NumberSize(st, 4) + NumberSize(st, 3) + NumberSize(st, 7)
            + NumberSize(st, 8) + NumberSize(st, 9) + NumberSize(st, 6)
  {
    hide VarintSize;
  }

  lemma OptionalTermsByNumber(st: FactState)
    ensures OptionalTerms(st.bits, st.cells) ==
            NumberSize(st, 15) + NumberSize(st, 11) + NumberSize(st, 12) + NumberSize(st, 14)
  {
    hide VarintSize;
  }

  lemma TermsUnrolled(st: FactState)
    ensures TermsFrom(st, 0) ==
            ManySize(10, RAW_METRIC_SUM_COUNT, st.many) + StringSize(st.reason) + StringSize(st.lineage)
            + NumberSize(st, 2) + NumberSize(st, 1) + NumberSize(st, 4) + NumberSize(st, 3) + NumberSize(st, 7)
            + NumberSize(st, 8) + NumberSize(st, 9) + NumberSize(st, 6)
            + NumberSize(st, 15) + NumberSize(st, 11) + NumberSize(st, 12) + NumberSize(st, 14)
  {
    hide NumberSize, StringSize, ManySize;
    assert TermsFrom(st, 12) ==
           NumberSize(st, 12) + StringSize(st.lineage) + NumberSize(st, 14) + NumberSize(st, 15) by {
      assert TermsFrom(st, 14) == NumberSize(st, 14) + NumberSize(st, 15);
    }
    assert TermsFrom(st, 8) ==
           NumberSize(st, 8) + NumberSize(st, 9) + TermSize(st, 10) + NumberSize(st, 11) + TermsFrom(st, 12) by {
      assert TermsFrom(st, 10) == TermSize(st, 10) + NumberSize(st, 11) + TermsFrom(st, 12);
    }
    assert TermsFrom(st, 4) ==
           NumberSize(st, 4) + StringSize(st.reason) + NumberSize(st, 6) + NumberSize(st, 7) + TermsFrom(st, 8) by {
      assert TermsFrom(st, 6) == NumberSize(st, 6) + NumberSize(st, 7) + TermsFrom(st, 8);
    }
    assert TermsFrom(st, 2) == NumberSize(st, 2) + NumberSize(st, 3) + TermsFrom(st, 4);
    assert TermsFrom(st, 0) == NumberSize(st, 1) + TermsFrom(st, 2);
  }

  // ---------------------------------------------------------------- printing

  lemma PrintNoField(ord: Order, st: FactState, c: Cache, k: nat, target: bytes)
    requires k == 0
    ensures var (s, m) := (AGENT_EPISODE_METRIC_FACT, st.Abs());
            target + Printed(ord, s, m, c, k + 1) == target + Printed(ord, s, m, c, k)
  {
    hide FactState.Abs, Printed;
    NoFieldZero();
    PrintNone(ord, AGENT_EPISODE_METRIC_FACT, st.Abs(), c, k, target);
  }

  /** A number is written when it is not zero, an optional one when its bit is on. */
  lemma PrintNumber(ord: Order, st: FactState, c: Cache, k: nat, target: bytes)
    requires NumberField(k)
    ensures var (s, m, n) := (AGENT_EPISODE_METRIC_FACT, st.Abs(), st.cells[CellOf(k)]);
            target + Printed(ord, s, m, c, k + 1) ==
            if (BitOf(k) == {} && n == 0) || !(BitOf(k) <= st.bits) then target + Printed(ord, s, m, c, k)
            else target + Printed(ord, s, m, c, k) + (if k == 2 then WriteDouble(k, n) else WriteVarint(k, n))
  {
    hide FactState.Abs, Printed, CellOf, VarintCase, WriteDouble, WriteVarint;
    FieldAt(k);
    InRange(k);
    AbsSlot(st, k);
    if BitOf(k) <= st.bits {
      PrintNum(ord, AGENT_EPISODE_METRIC_FACT, st.Abs(), c, k, st.cells[CellOf(k)], target);
    } else {
      PrintNone(ord, AGENT_EPISODE_METRIC_FACT, st.Abs(), c, k, target);
    }
  }

  lemma PrintText(ord: Order, st: FactState, c: Cache, k: nat, target: bytes)
    requires k == 5 || k == 13
    ensures var (s, m, b) := (AGENT_EPISODE_METRIC_FACT, st.Abs(), if k == 5 then st.reason else st.lineage);
            target + Printed(ord, s, m, c, k + 1) ==
            if b == [] then target + Printed(ord, s, m, c, k) else target + Printed(ord, s, m, c, k) + WriteString(k, b)
  {
    hide FactState.Abs, Printed, WriteString;
    TextFields();
    AbsSlot(st, k);
    PrintStr(ord, AGENT_EPISODE_METRIC_FACT, st.Abs(), c, k, if k == 5 then st.reason else st.lineage, target);
  }

  lemma PrintComponents(ord: Order, st: FactState, c: Cache, target: bytes)
    ensures var (s, m) := (AGENT_EPISODE_METRIC_FACT, st.Abs());
            target + Printed(ord, s, m, c, 11) ==
            target + Printed(ord, s, m, c, 10) + PrintElements(ord, 10, RAW_METRIC_SUM_COUNT, st.many, c, 0)
  {
    hide FactState.Abs, Printed, PrintElements;
    TextFields();
    AbsSlot(st, 10);
    PrintMany(ord, AGENT_EPISODE_METRIC_FACT, st.Abs(), c, 10, st.many, target);
  }

  // ---------------------------------------------------------------- copying and single optional fields

  lemma ValidCovers(st: FactState)
    requires st.Valid()
    ensures st.HasBitsCover()
  {
    hide FactState.HasBitsCover;
  }

  /** Merging into an empty object copies every field, presence included. */
  lemma {:induction false} MergeOntoEmpty(b: FactState)
    requires b.HasBitsCover()
    ensures MergeStates(EMPTY_STATE, b) == b
  {
    hide FactState.SlotAt;
    var m := MergeStates(EMPTY_STATE, b);
    forall c | 0 <= c < CELLS
      ensures m.cells[c] == b.cells[c]
    {
      assert EMPTY_STATE.cells[c] == 0;
    }
    assert m.cells == b.cells;
    assert {} + b.bits == b.bits && [] + b.many == b.many && [] + b.unknown == b.unknown;
  }

  /** The field is absent again, and its storage zero. */
  function Unstore(st: FactState, k: nat): FactState
  {
    st.(cells := st.cells[CellOf(k) := 0], bits := st.bits - BitOf(k))
  }

  lemma {:induction false} UnstoreValid(st: FactState, k: nat)
    requires st.Valid() && k in {11, 12, 14, 15}
    ensures Unstore(st, k).Valid() && !(BitOf(k) <= Unstore(st, k).bits)
    ensures Slot(Unstore(st, k).Abs(), k) == None
    ensures forall j | j != k :: Slot(Unstore(st, k).Abs(), j) == Slot(st.Abs(), j)
  {
    hide LegalUnknown, FactState.Abs;
    AbsSlot(Unstore(st, k), k);
    forall j: nat | j != k
      ensures Slot(Unstore(st, k).Abs(), j) == Slot(st.Abs(), j)
    {
      AbsSlot(Unstore(st, k), j);
      AbsSlot(st, j);
      if NumberField(j) { LayoutInjective(j, k); }
    }
  }
}
