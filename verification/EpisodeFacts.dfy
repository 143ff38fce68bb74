/**
  AgentEpisodeMetricFact of proto/maze/metrics.pb.cc as an object that updates itself in place: a
  has-bits word, plain fields in one memory range, strings, repeated sub-objects and cached sizes.
 */
module EpisodeFacts {
  import opened Wire
  import opened Utf8
  import opened Message
  import opened Sizes
  import opened TwoPass
  import opened Schemas
  import opened Runtime
  import opened Counts
  import opened FactState
  import opened Memory

  // ---------------------------------------------------------------- elements

  function Messages(cs: seq<RawMetricSumCount>): (ms: seq<Msg>)
    reads cs`fieldId, cs`sum, cs`count, cs`unknown
    ensures |ms| == |cs|
    ensures forall i | 0 <= i < |cs| :: ms[i] == cs[i].Abs()
  {
    if cs == [] then [] else Messages(cs[..|cs| - 1]) + [cs[|cs| - 1].Abs()]
  }

  function ElementCaches(cs: seq<RawMetricSumCount>): (r: seq<Cache>)
    reads cs`cachedSize
    ensures |r| == |cs|
    ensures forall i | 0 <= i < |cs| :: r[i] == Cache(cs[i].cachedSize, map[])
  {
    if cs == [] then [] else ElementCaches(cs[..|cs| - 1]) + [Cache(cs[|cs| - 1].cachedSize, map[])]
  }

  lemma MessagesAppend(cs: seq<RawMetricSumCount>, c: RawMetricSumCount)
    ensures Messages(cs + [c]) == Messages(cs) + [c.Abs()]
  {
    assert (cs + [c])[..|cs|] == cs;
  }

  class AgentEpisodeMetricFact {
    var hasBits: HasBits
    const cells: array<u64>
    var terminationReason: bytes
    var behaviorModelLineageId: bytes
    var rewardComponents: seq<RawMetricSumCount>
    var unknown: seq<Record>
    var cachedSize: nat

    /** The state with the has-bits `bits`: inside the parser some are still in its local word. */
    function State(bits: HasBits): FactState
      requires cells.Length == CELLS
      reads this`terminationReason, this`behaviorModelLineageId, this`rewardComponents, this`unknown, cells
      reads rewardComponents`fieldId, rewardComponents`sum, rewardComponents`count, rewardComponents`unknown
    {
      FactState(bits, cells[..], terminationReason, behaviorModelLineageId, Messages(rewardComponents), unknown)
    }

    /** The invariant with the has-bits `bits`. */
    ghost predicate Parsing(bits: HasBits)
      reads this`terminationReason, this`behaviorModelLineageId, this`rewardComponents, this`unknown, cells
      reads rewardComponents`fieldId, rewardComponents`sum, rewardComponents`count, rewardComponents`unknown
    {
      cells.Length == CELLS && State(bits).Valid() && forall c | c in rewardComponents :: c.Valid()
    }

    ghost predicate Valid()
      reads this`hasBits, this`terminationReason, this`behaviorModelLineageId, this`rewardComponents, this`unknown,
            cells
      reads rewardComponents`fieldId, rewardComponents`sum, rewardComponents`count, rewardComponents`unknown
    {
      cells.Length == CELLS && Parsing(hasBits)
    }

    function Abs(): Msg
      requires cells.Length == CELLS
      reads this`hasBits, this`terminationReason, this`behaviorModelLineageId, this`rewardComponents, this`unknown,
            cells
      reads rewardComponents`fieldId, rewardComponents`sum, rewardComponents`count, rewardComponents`unknown
    {
      State(hasBits).Abs()
    }

    constructor ()
      ensures Valid() && Abs() == EMPTY && fresh(cells) && rewardComponents == []
    {
      cells := new u64[CELLS](_ => 0);
      hasBits := {};
      terminationReason, behaviorModelLineageId, rewardComponents := [], [], [];
      unknown, cachedSize := [], 0;
      new;
      assert State(hasBits) == EMPTY_STATE;
      EmptyState();
    }

    /**
      The parse loop. Has-bits gather in the local word `bits` and are or-ed into the object's word on
      every way out, failures included. The switch is split by the kind of its cases.
     */
    method InternalParse(buf: bytes, start: nat, limit: nat) returns (st: Status)
      requires Valid() && start <= limit <= |buf|
      modifies this, cells
      ensures Valid()
      ensures Agrees(Parse(AGENT_EPISODE_METRIC_FACT, old(Abs()), buf[start..limit]), st, Abs())
      ensures old(hasBits) <= hasBits
      ensures forall c | c in rewardComponents :: c in old(rewardComponents) || fresh(c)
    {
      hide Parse, ReadTag, FactState.Abs, AgentEpisodeMetricFact.State, AgentEpisodeMetricFact.Parsing;
      var bits: HasBits := {};
      var ptr := start;
      st := AtLimit;
      assert hasBits + bits == hasBits;
      while ptr < limit
        invariant start <= ptr <= limit && st == AtLimit
        invariant cells.Length == CELLS && Parsing(hasBits + bits) && hasBits == old(hasBits)
        invariant forall c | c in rewardComponents :: c in old(rewardComponents) || fresh(c)
        invariant Parse(AGENT_EPISODE_METRIC_FACT, State(hasBits + bits).Abs(), buf[ptr..limit]) ==
                  Parse(AGENT_EPISODE_METRIC_FACT, old(Abs()), buf[start..limit])
        decreases limit - ptr
      {
        StepTag(AGENT_EPISODE_METRIC_FACT, State(hasBits + bits).Abs(), buf, ptr, limit);
        var t := ReadTag(buf, ptr, limit);
        if t.NoNum? { st := Null; break; }
        var step;
        step, bits := SwitchCase(buf, ptr, limit, t, bits);
        if step.Bad? { st := Null; break; }
        if step.Next? { ptr := step.ptr; continue; }
        if t.v == 0 || t.v % 8 == 4 { st := AtTag(t.v); break; }
        step := KeepUnknown(buf, ptr, limit, t, hasBits + bits);
        if step.Bad? { st := Null; break; }
        ptr := step.ptr;
      }
      OrBits(bits);
      if st == AtLimit { ParseEnd(AGENT_EPISODE_METRIC_FACT, Abs(), buf, limit); }
    }

    method OrBits(bits: HasBits)
      requires Parsing(hasBits + bits)
      modifies this`hasBits
      ensures Valid() && State(hasBits) == old(State(hasBits + bits)) && hasBits == old(hasBits) + bits
    {
      hide FactState.Valid, RawMetricSumCount.Valid, Messages;
      hasBits := hasBits + bits;
    }

    /** A record no case takes goes to the unknown set. */
    method KeepUnknown(buf: bytes, ptr: nat, limit: nat, t: NumAt, ghost bits: HasBits) returns (step: Step)
      requires Parsing(bits) && ptr < limit <= |buf| && t == ReadTag(buf, ptr, limit) && t.NumAt?
      requires t.v !in {8, 17, 24, 32, 42, 48, 56, 64, 72, 82, 88, 96, 106, 112, 120} && t.v != 0 && t.v % 8 != 4
      modifies this`unknown
      ensures Parsing(bits) && !step.NotTaken?
      ensures step.Bad? ==> Parse(AGENT_EPISODE_METRIC_FACT, old(State(bits)).Abs(), buf[ptr..limit]) == Failed
      ensures step.Next? ==>
                ptr < step.ptr <= limit
                && Parse(AGENT_EPISODE_METRIC_FACT, old(State(bits)).Abs(), buf[ptr..limit]) ==
                   Parse(AGENT_EPISODE_METRIC_FACT, State(bits).Abs(), buf[step.ptr..limit])
    {
      hide Parse, ReadTag, ReadUnknown, FactState.Abs, LegalUnknown, FactState.SlotAt, FactState.Valid, Messages;
      ghost var before := State(bits);
      NoCaseTakes(t.v);
      UnknownCaseStep(before, buf, ptr, limit);
      var u := ReadUnknown(buf, t.ptr, limit, t.v);
      if u.NoUnknown? { return Bad; }
      unknown := unknown + [u.r];
      assert State(bits) == before.(unknown := before.unknown + [u.r]);
      return Next(u.ptr);
    }

    /** The switch on a tag: not taken by any case, taken and failed, or taken and read up to a position. */
    method SwitchCase(buf: bytes, ptr: nat, limit: nat, t: NumAt, bits: HasBits) returns (step: Step, marked: HasBits)
      requires Parsing(hasBits + bits) && ptr < limit <= |buf| && t == ReadTag(buf, ptr, limit) && t.NumAt?
      modifies this`terminationReason, this`behaviorModelLineageId, this`rewardComponents, cells
      ensures Parsing(hasBits + marked)
      ensures step.NotTaken? <==> t.v !in {8, 17, 24, 32, 42, 48, 56, 64, 72, 82, 88, 96, 106, 112, 120}
      ensures step.NotTaken? ==> State(hasBits + marked) == old(State(hasBits + bits))
      ensures step.Bad? ==>
                Parse(AGENT_EPISODE_METRIC_FACT, old(State(hasBits + bits)).Abs(), buf[ptr..limit]) == Failed
      ensures step.Next? ==>
                ptr < step.ptr <= limit
                && Parse(AGENT_EPISODE_METRIC_FACT, old(State(hasBits + bits)).Abs(), buf[ptr..limit]) ==
                   Parse(AGENT_EPISODE_METRIC_FACT, State(hasBits + marked).Abs(), buf[step.ptr..limit])
      ensures forall c | c in rewardComponents :: c in old(rewardComponents) || fresh(c)
    {
      hide Parse, ReadTag, FactState.Abs, LegalUnknown, FactState.SlotAt, FactState.Valid, Messages;
      step := NumberCase(buf, ptr, limit, t, bits);
      marked := bits;
      if !step.NotTaken? { return; }
      step, marked := OptionalCase(buf, ptr, limit, t, bits);
      if !step.NotTaken? { return; }
      step := StringCase(buf, ptr, limit, t, bits);
      if !step.NotTaken? { return; }
      if t.v / 8 == 10 && t.v % 256 == 82 {
        step := ParseComponents(buf, ptr, limit, bits);
      }
    }

    /** Numbers with implicit presence. */
    method NumberCase(buf: bytes, ptr: nat, limit: nat, t: NumAt, ghost bits: HasBits) returns (step: Step)
      requires Parsing(hasBits + bits) && ptr < limit <= |buf| && t == ReadTag(buf, ptr, limit) && t.NumAt?
      modifies cells
      ensures Parsing(hasBits + bits)
      ensures step.NotTaken? <==> t.v !in {8, 17, 24, 32, 48, 56, 64, 72}
      ensures step.NotTaken? ==> State(hasBits + bits) == old(State(hasBits + bits))
      ensures step.Bad? ==>
                Parse(AGENT_EPISODE_METRIC_FACT, old(State(hasBits + bits)).Abs(), buf[ptr..limit]) == Failed
      ensures step.Next? ==>
                ptr < step.ptr <= limit
                && Parse(AGENT_EPISODE_METRIC_FACT, old(State(hasBits + bits)).Abs(), buf[ptr..limit]) ==
                   Parse(AGENT_EPISODE_METRIC_FACT, State(hasBits + bits).Abs(), buf[step.ptr..limit])
    {
      hide Parse, ReadTag, ReadDouble, ReadVarint64, ReadVarint32, ReadString, ReadSize, FactState.Abs, ValidUtf8,
        LegalUnknown, FactState.SlotAt, FactState.Valid, Messages;
      ghost var before := State(hasBits + bits);
      step := NotTaken;
      if t.v / 8 == 1 && t.v % 256 == 8 {
        VarintCaseStep(before, buf, ptr, limit, 1);
        ReadersAgree(buf, t.ptr, limit);
        var x := ReadVarint32(buf, t.ptr, limit);
        if x.NoNum? { return Bad; }
        StoreValid(before, 1, x.v);
        SetCell(AGENT_ID, x.v, hasBits + bits);
        assert State(hasBits + bits) == Store(before, 1, x.v);
        return Next(x.ptr);
      } else if t.v / 8 == 2 && t.v % 256 == 17 {
        DoubleCaseStep(before, buf, ptr, limit);
        var x := ReadDouble(buf, t.ptr, limit);
        if x.NoNum? { return Bad; }
        StoreValid(before, 2, x.v);
        SetCell(EPISODE_RETURN, x.v, hasBits + bits);
        assert State(hasBits + bits) == Store(before, 2, x.v);
        return Next(x.ptr);
      } else if t.v / 8 == 3 && t.v % 256 == 24 {
        VarintCaseStep(before, buf, ptr, limit, 3);
        var x := ReadVarint64(buf, t.ptr, limit);
        if x.NoNum? { return Bad; }
        StoreValid(before, 3, x.v);
        SetCell(TRANSITION_COUNT, x.v, hasBits + bits);
        assert State(hasBits + bits) == Store(before, 3, x.v);
        return Next(x.ptr);
      } else if t.v / 8 == 4 && t.v % 256 == 32 {
        VarintCaseStep(before, buf, ptr, limit, 4);
        var x := ReadVarint64(buf, t.ptr, limit);
        if x.NoNum? { return Bad; }
        StoreValid(before, 4, (if x.v == 0 then 0 else 1));
        SetCell(SUCCESS, (if x.v == 0 then 0 else 1), hasBits + bits);
        assert State(hasBits + bits) == Store(before, 4, (if x.v == 0 then 0 else 1));
        return Next(x.ptr);
      } else if t.v / 8 == 6 && t.v % 256 == 48 {
        VarintCaseStep(before, buf, ptr, limit, 6);
        ReadersAgree(buf, t.ptr, limit);
        var x := ReadVarint32(buf, t.ptr, limit);
        if x.NoNum? { return Bad; }
        StoreValid(before, 6, x.v);
        SetCell(SHORTEST_ACTION_STEPS, x.v, hasBits + bits);
        assert State(hasBits + bits) == Store(before, 6, x.v);
        return Next(x.ptr);
      } else if t.v / 8 == 7 && t.v % 256 == 56 {
        VarintCaseStep(before, buf, ptr, limit, 7);
        var x := ReadVarint64(buf, t.ptr, limit);
        if x.NoNum? { return Bad; }
        StoreValid(before, 7, x.v);
        SetCell(UNIQUE_CELL_COUNT, x.v, hasBits + bits);
        assert State(hasBits + bits) == Store(before, 7, x.v);
        return Next(x.ptr);
      } else if t.v / 8 == 8 && t.v % 256 == 64 {
        VarintCaseStep(before, buf, ptr, limit, 8);
        var x := ReadVarint64(buf, t.ptr, limit);
        if x.NoNum? { return Bad; }
        StoreValid(before, 8, x.v);
        SetCell(BLOCKED_MOVE_COUNT, x.v, hasBits + bits);
        assert State(hasBits + bits) == Store(before, 8, x.v);
        return Next(x.ptr);
      } else if t.v / 8 == 9 && t.v % 256 == 72 {
        VarintCaseStep(before, buf, ptr, limit, 9);
        var x := ReadVarint64(buf, t.ptr, limit);
        if x.NoNum? { return Bad; }
        StoreValid(before, 9, x.v);
        SetCell(ATTEMPTED_MOVE_COUNT, x.v, hasBits + bits);
        assert State(hasBits + bits) == Store(before, 9, x.v);
        return Next(x.ptr);
      }
    }

    /** Numbers with a has-bit: it is marked before the value is read, and a failed read stores zero. */
    method OptionalCase(buf: bytes, ptr: nat, limit: nat, t: NumAt, bits: HasBits) returns (step: Step, marked: HasBits)
      requires Parsing(hasBits + bits) && ptr < limit <= |buf| && t == ReadTag(buf, ptr, limit) && t.NumAt?
      modifies cells
      ensures Parsing(hasBits + marked)
      ensures step.NotTaken? <==> t.v !in {88, 96, 112, 120}
      ensures step.NotTaken? ==> State(hasBits + marked) == old(State(hasBits + bits))
      ensures !step.NotTaken? ==> marked == bits + BitOf(t.v / 8)
      ensures step.Bad? ==> State(hasBits + marked) == Store(old(State(hasBits + bits)), t.v / 8, 0)
      ensures step.Bad? ==>
                Parse(AGENT_EPISODE_METRIC_FACT, old(State(hasBits + bits)).Abs(), buf[ptr..limit]) == Failed
      ensures step.Next? ==>
                ptr < step.ptr <= limit
                && Parse(AGENT_EPISODE_METRIC_FACT, old(State(hasBits + bits)).Abs(), buf[ptr..limit]) ==
                   Parse(AGENT_EPISODE_METRIC_FACT, State(hasBits + marked).Abs(), buf[step.ptr..limit])
    {
      hide Parse, ReadTag, ReadDouble, ReadVarint64, ReadVarint32, ReadString, ReadSize, FactState.Abs, ValidUtf8,
        LegalUnknown, FactState.SlotAt, FactState.Valid, Messages;
      ghost var before := State(hasBits + bits);
      step, marked := NotTaken, bits;
      if t.v / 8 == 11 && t.v % 256 == 88 {
        VarintCaseStep(before, buf, ptr, limit, 11);
        var x := ReadVarint64(buf, t.ptr, limit);
        marked := bits + {2};
        var n := if x.NoNum? then 0 else x.v;
        StoreValid(before, 11, n);
        assert hasBits + marked == before.bits + {2};
        SetCell(MINIMUM_BEHAVIOR_MODEL_STEP, n, hasBits + marked);
        assert State(hasBits + marked) == Store(before, 11, n);
        return if x.NoNum? then Bad else Next(x.ptr), marked;
      } else if t.v / 8 == 12 && t.v % 256 == 96 {
        VarintCaseStep(before, buf, ptr, limit, 12);
        var x := ReadVarint64(buf, t.ptr, limit);
        marked := bits + {4};
        var n := if x.NoNum? then 0 else x.v;
        StoreValid(before, 12, n);
        assert hasBits + marked == before.bits + {4};
        SetCell(MAXIMUM_BEHAVIOR_MODEL_STEP, n, hasBits + marked);
        assert State(hasBits + marked) == Store(before, 12, n);
        return if x.NoNum? then Bad else Next(x.ptr), marked;
      } else if t.v / 8 == 14 && t.v % 256 == 112 {
        VarintCaseStep(before, buf, ptr, limit, 14);
        var x := ReadVarint64(buf, t.ptr, limit);
        marked := bits + {8};
        var n := if x.NoNum? then 0 else x.v;
        StoreValid(before, 14, n);
        assert hasBits + marked == before.bits + {8};
        SetCell(TERMINAL_FRAME_ID, n, hasBits + marked);
        assert State(hasBits + marked) == Store(before, 14, n);
        return if x.NoNum? then Bad else Next(x.ptr), marked;
      } else if t.v / 8 == 15 && t.v % 256 == 120 {
        VarintCaseStep(before, buf, ptr, limit, 15);
        ReadersAgree(buf, t.ptr, limit);
        var x := ReadVarint32(buf, t.ptr, limit);
        marked := bits + {1};
        var n := if x.NoNum? then 0 else x.v;
        StoreValid(before, 15, n);
        assert hasBits + marked == before.bits + {1};
        SetCell(GOAL_RANK_GROUP, n, hasBits + marked);
        assert State(hasBits + marked) == Store(before, 15, n);
        return if x.NoNum? then Bad else Next(x.ptr), marked;
      }
    }

    /** Strings: stored, then checked. */
    method StringCase(buf: bytes, ptr: nat, limit: nat, t: NumAt, ghost bits: HasBits) returns (step: Step)
      requires Parsing(hasBits + bits) && ptr < limit <= |buf| && t == ReadTag(buf, ptr, limit) && t.NumAt?
      modifies this`terminationReason, this`behaviorModelLineageId
      ensures Parsing(hasBits + bits)
      ensures step.NotTaken? <==> t.v !in {42, 106}
      ensures step.NotTaken? ==> State(hasBits + bits) == old(State(hasBits + bits))
      ensures step.Bad? ==>
                Parse(AGENT_EPISODE_METRIC_FACT, old(State(hasBits + bits)).Abs(), buf[ptr..limit]) == Failed
      ensures step.Next? ==>
                ptr < step.ptr <= limit
                && Parse(AGENT_EPISODE_METRIC_FACT, old(State(hasBits + bits)).Abs(), buf[ptr..limit]) ==
                   Parse(AGENT_EPISODE_METRIC_FACT, State(hasBits + bits).Abs(), buf[step.ptr..limit])
    {
      hide Parse, ReadTag, ReadDouble, ReadVarint64, ReadVarint32, ReadString, ReadSize, FactState.Abs, ValidUtf8,
        LegalUnknown, FactState.SlotAt, Messages;
      ghost var before := State(hasBits + bits);
      step := NotTaken;
      if t.v / 8 == 5 && t.v % 256 == 42 {
        TextCaseStep(before, buf, ptr, limit, 5);
        var x := ReadString(buf, t.ptr, limit);
        if x.NoStr? { return Bad; }
        terminationReason := x.b;
        return if ValidUtf8(terminationReason) then Next(x.ptr) else Bad;
      } else if t.v / 8 == 13 && t.v % 256 == 106 {
        TextCaseStep(before, buf, ptr, limit, 13);
        var x := ReadString(buf, t.ptr, limit);
        if x.NoStr? { return Bad; }
        behaviorModelLineageId := x.b;
        return if ValidUtf8(behaviorModelLineageId) then Next(x.ptr) else Bad;
      }
    }

    method SetCell(c: nat, n: u64, ghost bits: HasBits)
      requires cells.Length == CELLS && c < CELLS && forall x | x in rewardComponents :: x.Valid()
      modifies cells
      ensures State(bits) == old(State(bits)).(cells := old(cells[..])[c := n])
      ensures forall x | x in rewardComponents :: x.Valid()
    {
      cells[c] := n;
    }

    /** A new element, parsed from its span; it stays in the list even when that fails. */
    method AddComponent(buf: bytes, start: nat, limit: nat, ghost bits: HasBits) returns (inner: Status)
      requires Parsing(bits) && start <= limit <= |buf|
      modifies this`rewardComponents
      ensures Parsing(bits)
      ensures |rewardComponents| == |old(rewardComponents)| + 1 && old(rewardComponents) <= rewardComponents
      ensures fresh(rewardComponents[|rewardComponents| - 1])
      ensures forall c | c in rewardComponents :: c in old(rewardComponents) || fresh(c)
      ensures Agrees(Parse(RAW_METRIC_SUM_COUNT, EMPTY, buf[start..limit]), inner,
                     rewardComponents[|rewardComponents| - 1].Abs())
      ensures var many := old(State(bits)).many + [rewardComponents[|rewardComponents| - 1].Abs()];
              State(bits) == old(State(bits)).(many := many)
    {
      hide Parse, FactState.Valid, FactState.SlotAt, RawMetricSumCount.Slots, Build, LegalUnknown, Messages;
      ghost var before := State(bits);
      var element := new RawMetricSumCount();
      inner := element.InternalParse(buf, start, limit);
      MessagesAppend(rewardComponents, element);
      ValidWithElements(before, before.many + [element.Abs()]);
      rewardComponents := rewardComponents + [element];
    }

    /** Case 10: consecutive elements are consumed without going back to the switch. */
    method ParseComponents(buf: bytes, start: nat, limit: nat, ghost bits: HasBits) returns (step: Step)
      requires Parsing(hasBits + bits) && start < limit <= |buf|
      requires ReadTag(buf, start, limit).NumAt? && ReadTag(buf, start, limit).v == 82
      modifies this`rewardComponents
      ensures Parsing(hasBits + bits) && !step.NotTaken?
      ensures forall c | c in rewardComponents :: c in old(rewardComponents) || fresh(c)
      ensures step.Next? ==> start < step.ptr <= limit
      ensures Parse(AGENT_EPISODE_METRIC_FACT, old(State(hasBits + bits)).Abs(), buf[start..limit]) ==
              if step.Next? then Parse(AGENT_EPISODE_METRIC_FACT, State(hasBits + bits).Abs(), buf[step.ptr..limit])
                else Failed
    {
      hide Parse, ReadTag, ReadSize, FactState.Abs, FactState.Valid, FactState.SlotAt, LegalUnknown, WF, Messages,
        Build, RawMetricSumCount.Slots;
      ghost var tagAt: nat := start;
      var ptr := ReadTag(buf, start, limit).ptr;
      while true
        invariant Parsing(hasBits + bits)
        invariant forall c | c in rewardComponents :: c in old(rewardComponents) || fresh(c)
        invariant start <= tagAt < ptr <= limit && ReadTag(buf, tagAt, limit) == NumAt(82, ptr)
        invariant Parse(AGENT_EPISODE_METRIC_FACT, old(State(hasBits + bits)).Abs(), buf[start..limit]) ==
                  Parse(AGENT_EPISODE_METRIC_FACT, State(hasBits + bits).Abs(), buf[tagAt..limit])
        decreases limit - ptr
      {
        ElementCaseStep(State(hasBits + bits), buf, tagAt, limit);
        var x := ReadSize(buf, ptr, limit);
        if x.NoSpan? { return Bad; }
        var inner := AddComponent(buf, x.ptr, x.end, hasBits + bits);
        if inner != AtLimit { return Bad; }
        ptr := x.end;
        if ptr >= limit || buf[ptr] != 82 { return Next(ptr); }
        ExpectTag(buf, ptr, limit, 82);
        tagAt := ptr;
        ptr := ptr + 1;
      }
    }

    // -------------------------------------------------------------- size and print

    /** The sizes cached in this object and its elements. */
    function Caches(): Cache
      reads this`cachedSize, this`rewardComponents, rewardComponents`cachedSize
    {
      Cache(cachedSize, map[10 := ElementCaches(rewardComponents)])
    }

    lemma KidCaches()
      ensures forall i | 0 <= i < |rewardComponents| ::
              Kid(Caches(), 10, i) == Cache(rewardComponents[i].cachedSize, map[])
    {
    }

    /** Every element carries its own size. */
    ghost predicate Cached()
      reads this`rewardComponents, rewardComponents
    {
      forall c | c in rewardComponents :: c.cachedSize == ByteSize(RAW_METRIC_SUM_COUNT, c.Abs())
    }

    /** The caches are right exactly when every element carries its own size. */
    lemma {:induction false} CachedExactly()
      requires cells.Length == CELLS
      ensures Cached() <==> Exact(AGENT_EPISODE_METRIC_FACT, Abs(), Caches())
    {
      hide FactState.Abs, FactState.SlotAt, Messages, RawMetricSumCount.Abs, ByteSize, Exact,
        AGENT_EPISODE_METRIC_FACT, Leaf, RAW_METRIC_SUM_COUNT, Kid, ElementCaches;
      var c, ms := Caches(), Messages(rewardComponents);
      KidCaches();
      OneNestedField(State(hasBits), c);
      forall i | 0 <= i < |rewardComponents|
        ensures Sound(RAW_METRIC_SUM_COUNT, ms[i], Kid(c, 10, i)) <==>
                rewardComponents[i].cachedSize == ByteSize(RAW_METRIC_SUM_COUNT, rewardComponents[i].Abs())
      {
        LeafTables();
        LeafExact(RAW_METRIC_SUM_COUNT, ms[i], Kid(c, 10, i));
      }
    }

    /** The size pass visits the elements first, then the strings, then the plain fields as laid out. */
    method ByteSizeLong() returns (total: nat)
      requires cells.Length == CELLS
      modifies this`cachedSize, rewardComponents`cachedSize
      ensures total == cachedSize == ByteSize(AGENT_EPISODE_METRIC_FACT, Abs())
      ensures Exact(AGENT_EPISODE_METRIC_FACT, Abs(), Caches())
    {
      hide FactState.Abs, ByteSize, VarintSize, ManySize, PlainTerms, OptionalTerms, Messages, RawMetricSumCount.Abs,
        AGENT_EPISODE_METRIC_FACT, RAW_METRIC_SUM_COUNT, AgentEpisodeMetricFact.Cached, AgentEpisodeMetricFact.Caches,
        Exact;
      ghost var st := State(hasBits);
      SizeOfState(st);
      total := ComponentsSize();
      if terminationReason != [] { total := total + 1 + VarintSize(|terminationReason|) + |terminationReason|; }
      if behaviorModelLineageId != [] {
        total := total + 1 + VarintSize(|behaviorModelLineageId|) + |behaviorModelLineageId|;
      }
      var plain := PlainSizes();
      var optional := OptionalSizes();
      total := total + plain + optional + |EncodeRecords(unknown)|;
      cachedSize := total;
      CachedExactly();
    }

    method ComponentsSize() returns (total: nat)
      modifies rewardComponents`cachedSize
      ensures total == ManySize(10, RAW_METRIC_SUM_COUNT, Messages(rewardComponents)) && Cached()
    {
      hide ByteSize, Messages, RawMetricSumCount.Abs, ManySize, VarintSize;
      total := |rewardComponents|;
      var i := 0;
      NothingToSize(10, RAW_METRIC_SUM_COUNT);
      while i < |rewardComponents|
        invariant i <= |rewardComponents|
        invariant total == |rewardComponents| - i + ManySize(10, RAW_METRIC_SUM_COUNT, Messages(rewardComponents[..i]))
        invariant forall c | c in rewardComponents[..i] :: c.cachedSize == ByteSize(RAW_METRIC_SUM_COUNT, c.Abs())
      {
        var size := rewardComponents[i].ByteSizeLong();
        total := total + VarintSize(size) + size;
        MessagesAppend(rewardComponents[..i], rewardComponents[i]);
        assert rewardComponents[..i + 1] == rewardComponents[..i] + [rewardComponents[i]];
        ManySizeAppend(10, RAW_METRIC_SUM_COUNT, Messages(rewardComponents[..i]), rewardComponents[i].Abs());
        OneByteTag(10);
        i := i + 1;
      }
      assert rewardComponents[..i] == rewardComponents;
    }

    /** The numbers with implicit presence, in declared order. */
    method PlainSizes() returns (total: nat)
      requires cells.Length == CELLS
      ensures total == PlainTerms(cells[..])
    {
      total := WideSizes();
      var rest := CounterSizes();
      total := total + rest;
    }

    method WideSizes() returns (total: nat)
      requires cells.Length == CELLS
      ensures total == (if cells[EPISODE_RETURN] == 0 then 0 else 1 + 8)
                       + VarintTerm(cells[AGENT_ID] != 0, cells[AGENT_ID])
                       + VarintTerm(cells[SUCCESS] != 0, cells[SUCCESS])
                       + VarintTerm(cells[TRANSITION_COUNT] != 0, cells[TRANSITION_COUNT])
    {
      hide VarintSize;
      total := 0;
      if cells[EPISODE_RETURN] != 0 { total := total + 1 + 8; }
      if cells[AGENT_ID] != 0 { total := total + 1 + VarintSize(cells[AGENT_ID]); }
      if cells[SUCCESS] != 0 { total := total + 1 + VarintSize(cells[SUCCESS]); }
      if cells[TRANSITION_COUNT] != 0 { total := total + 1 + VarintSize(cells[TRANSITION_COUNT]); }
    }

    method CounterSizes() returns (total: nat)
      requires cells.Length == CELLS
      ensures total == VarintTerm(cells[UNIQUE_CELL_COUNT] != 0, cells[UNIQUE_CELL_COUNT])
                       + VarintTerm(cells[BLOCKED_MOVE_COUNT] != 0, cells[BLOCKED_MOVE_COUNT])
                       + VarintTerm(cells[ATTEMPTED_MOVE_COUNT] != 0, cells[ATTEMPTED_MOVE_COUNT])
                       + VarintTerm(cells[SHORTEST_ACTION_STEPS] != 0, cells[SHORTEST_ACTION_STEPS])
    {
      hide VarintSize;
      total := 0;
      if cells[UNIQUE_CELL_COUNT] != 0 { total := total + 1 + VarintSize(cells[UNIQUE_CELL_COUNT]); }
      if cells[BLOCKED_MOVE_COUNT] != 0 { total := total + 1 + VarintSize(cells[BLOCKED_MOVE_COUNT]); }
      if cells[ATTEMPTED_MOVE_COUNT] != 0 { total := total + 1 + VarintSize(cells[ATTEMPTED_MOVE_COUNT]); }
      if cells[SHORTEST_ACTION_STEPS] != 0 { total := total + 1 + VarintSize(cells[SHORTEST_ACTION_STEPS]); }
    }

    /** The optional numbers, looked at only when some has-bit is on. */
    method OptionalSizes() returns (total: nat)
      requires cells.Length == CELLS
      ensures total == OptionalTerms(hasBits, cells[..])
    {
      hide VarintSize;
      total := 0;
      if hasBits * {1, 2, 4, 8} != {} {
        if 1 in hasBits { total := total + 1 + VarintSize(cells[GOAL_RANK_GROUP]); }
        if 2 in hasBits { total := total + 1 + VarintSize(cells[MINIMUM_BEHAVIOR_MODEL_STEP]); }
        if 4 in hasBits { total := total + 1 + VarintSize(cells[MAXIMUM_BEHAVIOR_MODEL_STEP]); }
        if 8 in hasBits { total := total + 1 + VarintSize(cells[TERMINAL_FRAME_ID]); }
      } else {
        assert forall b | b in {1, 2, 4, 8} && b in hasBits :: b in hasBits * {1, 2, 4, 8};
      }
    }

    /** The print pass visits the fields by number and trusts the cached sizes for the length prefixes. */
    method InternalSerialize(ghost ord: Order, target: bytes) returns (out: bytes)
      requires cells.Length == CELLS
      ensures out == target + Print(ord, AGENT_EPISODE_METRIC_FACT, Abs(), Caches())
    {
      hide FactState.Abs, Printed, Print, EncodeRecords, Messages, FactState.SlotAt, AgentEpisodeMetricFact.Caches,
        AGENT_EPISODE_METRIC_FACT, RawMetricSumCount.Abs;
      AbsSlot(State(hasBits), 0);
      LastField();
      ghost var c := Caches();
      KidCaches();
      out := SerializeScalars(ord, c, target);
      out := SerializeCounters(ord, c, target, out);
      out := SerializeComponents(ord, c, target, out);
      out := SerializeRest(ord, c, target, out);
      PrintEnd(ord, AGENT_EPISODE_METRIC_FACT, Abs(), c, target);
      out := out + EncodeRecords(unknown);
    }

    /** Fields 1 to 5. */
    method SerializeScalars(ghost ord: Order, ghost c: Cache, target: bytes) returns (out: bytes)
      requires cells.Length == CELLS
      ensures out == target + Printed(ord, AGENT_EPISODE_METRIC_FACT, Abs(), c, 6)
    {
      hide FactState.Abs, Printed, Messages, WriteVarint, WriteDouble, WriteString, FactState.SlotAt;
      ghost var st := State(hasBits);
      out := target;
      PrintStart(ord, AGENT_EPISODE_METRIC_FACT, Abs(), c, target);
      PrintNoField(ord, st, c, 0, target);
      PrintNumber(ord, st, c, 1, target);
      if cells[AGENT_ID] != 0 { out := out + WriteVarint(1, cells[AGENT_ID]); }
      PrintNumber(ord, st, c, 2, target);
      if cells[EPISODE_RETURN] != 0 { out := out + WriteDouble(2, cells[EPISODE_RETURN]); }
      PrintNumber(ord, st, c, 3, target);
      if cells[TRANSITION_COUNT] != 0 { out := out + WriteVarint(3, cells[TRANSITION_COUNT]); }
      PrintNumber(ord, st, c, 4, target);
      if cells[SUCCESS] != 0 { out := out + WriteVarint(4, cells[SUCCESS]); }
      PrintText(ord, st, c, 5, target);
      if terminationReason != [] { out := out + WriteString(5, terminationReason); }
    }

    /** Fields 6 to 9. */
    method SerializeCounters(ghost ord: Order, ghost c: Cache, ghost target: bytes, before: bytes) returns (out: bytes)
      requires cells.Length == CELLS
      requires before == target + Printed(ord, AGENT_EPISODE_METRIC_FACT, Abs(), c, 6)
      ensures out == target + Printed(ord, AGENT_EPISODE_METRIC_FACT, Abs(), c, 10)
    {
      hide FactState.Abs, Printed, Messages, WriteVarint, WriteDouble, WriteString, FactState.SlotAt;
      ghost var st := State(hasBits);
      out := before;
      PrintNumber(ord, st, c, 6, target);
      if cells[SHORTEST_ACTION_STEPS] != 0 { out := out + WriteVarint(6, cells[SHORTEST_ACTION_STEPS]); }
      PrintNumber(ord, st, c, 7, target);
      if cells[UNIQUE_CELL_COUNT] != 0 { out := out + WriteVarint(7, cells[UNIQUE_CELL_COUNT]); }
      PrintNumber(ord, st, c, 8, target);
      if cells[BLOCKED_MOVE_COUNT] != 0 { out := out + WriteVarint(8, cells[BLOCKED_MOVE_COUNT]); }
      PrintNumber(ord, st, c, 9, target);
      if cells[ATTEMPTED_MOVE_COUNT] != 0 { out := out + WriteVarint(9, cells[ATTEMPTED_MOVE_COUNT]); }
    }

    /** Field 10: a header with the cached size in front of every element. */
    method SerializeComponents(ghost ord: Order, ghost c: Cache, ghost target: bytes, before: bytes)
      returns (out: bytes)
      requires cells.Length == CELLS
      requires forall i | 0 <= i < |rewardComponents| :: Kid(c, 10, i) == Cache(rewardComponents[i].cachedSize, map[])
      requires before == target + Printed(ord, AGENT_EPISODE_METRIC_FACT, Abs(), c, 10)
      ensures out == target + Printed(ord, AGENT_EPISODE_METRIC_FACT, Abs(), c, 11)
    {
      hide FactState.Abs, Printed, Print, Encode, EncodeRecords, WriteHeader, Messages, PrintElements,
        RawMetricSumCount.Abs, Kid, Leaf;
      out := before;
      NoElements(ord, 10, RAW_METRIC_SUM_COUNT, c);
      LeafTables();
      for i := 0 to |rewardComponents|
        invariant out == before + PrintElements(ord, 10, RAW_METRIC_SUM_COUNT, Messages(rewardComponents[..i]), c, 0)
      {
        var element := rewardComponents[i];
        ghost var done := PrintElements(ord, 10, RAW_METRIC_SUM_COUNT, Messages(rewardComponents[..i]), c, 0);
        out := out + WriteHeader(10, element.cachedSize);
        out := element.InternalSerialize(ord, out);
        MessagesAppend(rewardComponents[..i], element);
        assert rewardComponents[..i + 1] == rewardComponents[..i] + [element];
        PrintElement(ord, 10, RAW_METRIC_SUM_COUNT, Messages(rewardComponents[..i]), element.Abs(), c, 0);
        PrintLeaf(ord, RAW_METRIC_SUM_COUNT, element.Abs(), Kid(c, 10, i));
        ghost var header, content :=
          WriteHeader(10, element.cachedSize), Encode(ord, RAW_METRIC_SUM_COUNT, element.Abs());
        Wire.Associative(before + done, header, content);
        Wire.Associative(before, done, header + content);
      }
      assert rewardComponents[..|rewardComponents|] == rewardComponents;
      PrintComponents(ord, State(hasBits), c, target);
    }

    /** Fields 11 to 15. */
    method SerializeRest(ghost ord: Order, ghost c: Cache, ghost target: bytes, before: bytes) returns (out: bytes)
      requires cells.Length == CELLS
      requires before == target + Printed(ord, AGENT_EPISODE_METRIC_FACT, Abs(), c, 11)
      ensures out == target + Printed(ord, AGENT_EPISODE_METRIC_FACT, Abs(), c, 16)
    {
      hide FactState.Abs, Printed, Messages, WriteVarint, WriteString, FactState.SlotAt;
      ghost var st := State(hasBits);
      out := before;
      PrintNumber(ord, st, c, 11, target);
      if 2 in hasBits { out := out + WriteVarint(11, cells[MINIMUM_BEHAVIOR_MODEL_STEP]); }
      PrintNumber(ord, st, c, 12, target);
      if 4 in hasBits { out := out + WriteVarint(12, cells[MAXIMUM_BEHAVIOR_MODEL_STEP]); }
      PrintText(ord, st, c, 13, target);
      if behaviorModelLineageId != [] { out := out + WriteString(13, behaviorModelLineageId); }
      PrintNumber(ord, st, c, 14, target);
      if 8 in hasBits { out := out + WriteVarint(14, cells[TERMINAL_FRAME_ID]); }
      PrintNumber(ord, st, c, 15, target);
      if 1 in hasBits { out := out + WriteVarint(15, cells[GOAL_RANK_GROUP]); }
    }

    // -------------------------------------------------------------- merge, clear, copy, swap

    /** Deep copies of elements. */
    method CopyComponents(from: seq<RawMetricSumCount>) returns (copies: seq<RawMetricSumCount>)
      requires forall c | c in from :: c.Valid()
      ensures Messages(copies) == Messages(from)
      ensures forall c | c in copies :: fresh(c) && c.Valid()
    {
      hide Messages, RawMetricSumCount.Slots, Build, LegalUnknown;
      copies := [];
      for i := 0 to |from|
        invariant Messages(copies) == Messages(from[..i])
        invariant forall c | c in copies :: fresh(c) && c.Valid()
      {
        var copy := new RawMetricSumCount();
        copy.CopyFrom(from[i]);
        MessagesAppend(copies, copy);
        MessagesAppend(from[..i], from[i]);
        assert from[..i + 1] == from[..i] + [from[i]];
        copies := copies + [copy];
      }
      assert from[..|from|] == from;
    }

    method MergeFrom(from: AgentEpisodeMetricFact)
      requires Valid() && from.Valid() && from != this && from.cells != cells
      modifies this, cells
      ensures Valid()
      ensures State(hasBits) == MergeStates(old(State(hasBits)), from.State(from.hasBits))
      ensures Abs() == Merge(AGENT_EPISODE_METRIC_FACT, old(Abs()), from.Abs())
      ensures forall c | c in rewardComponents :: c in old(rewardComponents) || fresh(c)
    {
      hide FactState.Abs, FactState.Valid, Merge, FactState.SlotAt, Messages, MergeStates;
      ghost var (a, b) := (State(hasBits), from.State(from.hasBits));
      MergeStatesIsMerge(a, b);
      MergeStatesValid(a, b);
      ValidCovers(b);
      MergeFields(from);
    }

    method MergeFields(from: AgentEpisodeMetricFact)
      requires cells.Length == CELLS && from.cells.Length == CELLS && from != this && from.cells != cells
      requires from.hasBits <= {1, 2, 4, 8}
      requires forall c | c in rewardComponents || c in from.rewardComponents :: c.Valid()
      modifies this, cells
      ensures forall c | c in rewardComponents :: c.Valid() && (c in old(rewardComponents) || fresh(c))
      ensures State(hasBits) == MergeStates(old(State(hasBits)), from.State(from.hasBits))
    {
      hide FactState.Abs, FactState.Valid, FactState.SlotAt, Messages, MergedCells, PlainMerged, OptionalMerged;
      MergeComponents(from);
      MergeStrings(from);
      MergeCells(from);
      unknown := unknown + from.unknown;
    }

    /** The repeated elements, copied deeply. */
    method MergeComponents(from: AgentEpisodeMetricFact)
      requires from != this && forall c | c in rewardComponents || c in from.rewardComponents :: c.Valid()
      modifies this`rewardComponents
      ensures forall c | c in rewardComponents :: c.Valid() && (c in old(rewardComponents) || fresh(c))
      ensures Messages(rewardComponents) == old(Messages(rewardComponents)) + Messages(from.rewardComponents)
    {
      hide Messages, LegalUnknown;
      var copies := CopyComponents(from.rewardComponents);
      MessagesConcat(rewardComponents, copies);
      rewardComponents := rewardComponents + copies;
    }

    method MergeStrings(from: AgentEpisodeMetricFact)
      modifies this`terminationReason, this`behaviorModelLineageId
      ensures terminationReason == if old(from.terminationReason) != [] then old(from.terminationReason)
              else old(terminationReason)
      ensures behaviorModelLineageId ==
              if old(from.behaviorModelLineageId) != [] then old(from.behaviorModelLineageId)
                else old(behaviorModelLineageId)
    {
      if from.terminationReason != [] { terminationReason := from.terminationReason; }
      if from.behaviorModelLineageId != [] { behaviorModelLineageId := from.behaviorModelLineageId; }
    }

    /** The plain fields; the optional ones and their bits only when some bit is on. */
    method MergeCells(from: AgentEpisodeMetricFact)
      requires cells.Length == CELLS && from.cells.Length == CELLS && from != this && from.cells != cells
      requires from.hasBits <= {1, 2, 4, 8}
      modifies cells, this`hasBits
      ensures cells[..] == MergedCells(old(cells[..]), from.cells[..], from.hasBits)
      ensures hasBits == old(hasBits) + from.hasBits
    {
      hide MergedCells, PlainMerged, OptionalMerged;
      MergedInOrder(cells[..], from.cells[..], from.hasBits);
      MergePlainCells(from);
      if from.hasBits * {1, 2, 4, 8} != {} {
        MergeOptionalCells(from);
        hasBits := hasBits + from.hasBits;
      } else {
        assert from.hasBits == from.hasBits * {1, 2, 4, 8};
      }
    }

    /** Stores one plain field of `from`. */
    method TakeCell(from: AgentEpisodeMetricFact, c: nat)
      requires c < cells.Length == from.cells.Length && from.cells != cells
      modifies cells
      ensures cells[..] == old(cells[..])[c := from.cells[c]]
    {
      cells[c] := from.cells[c];
    }

    /** A number with implicit presence is taken over when it is not zero. */
    method TakeNonZero(from: AgentEpisodeMetricFact, c: nat)
      requires c < cells.Length == from.cells.Length == CELLS && from.cells != cells
      modifies cells
      ensures cells[..] == NonZeroTaken(old(cells[..]), from.cells[..], c)
    {
      if from.cells[c] != 0 { cells[c] := from.cells[c]; }
    }

    method MergePlainCells(from: AgentEpisodeMetricFact)
      requires cells.Length == CELLS && from.cells.Length == CELLS && from.cells != cells
      modifies cells
      ensures cells[..] == PlainMerged(old(cells[..]), from.cells[..])
    {
      hide FactState.Abs, FactState.Valid, FactState.SlotAt, Messages, NonZeroTaken, PlainMerged;
      TakenInOrder(cells[..], from.cells[..]);
      TakeNonZero(from, EPISODE_RETURN);
      TakeNonZero(from, AGENT_ID);
      TakeNonZero(from, SUCCESS);
      TakeNonZero(from, TRANSITION_COUNT);
      TakeNonZero(from, UNIQUE_CELL_COUNT);
      TakeNonZero(from, BLOCKED_MOVE_COUNT);
      TakeNonZero(from, ATTEMPTED_MOVE_COUNT);
      TakeNonZero(from, SHORTEST_ACTION_STEPS);
    }

    /** An optional number is taken over when its bit is on, zero or not. */
    method MergeOptionalCells(from: AgentEpisodeMetricFact)
      requires cells.Length == CELLS && from.cells.Length == CELLS && from.cells != cells
      modifies cells
      ensures cells[..] == OptionalMerged(old(cells[..]), from.cells[..], from.hasBits)
    {
      hide FactState.Abs, FactState.Valid, FactState.SlotAt, Messages;
      if 1 in from.hasBits { TakeCell(from, GOAL_RANK_GROUP); }
      if 2 in from.hasBits { TakeCell(from, MINIMUM_BEHAVIOR_MODEL_STEP); }
      if 4 in from.hasBits { TakeCell(from, MAXIMUM_BEHAVIOR_MODEL_STEP); }
      if 8 in from.hasBits { TakeCell(from, TERMINAL_FRAME_ID); }
    }

    method Clear()
      requires Valid()
      modifies this, cells
      ensures Valid() && State(hasBits) == EMPTY_STATE && Abs() == EMPTY
    {
      hide FactState.Abs, FactState.SlotAt;
      ghost var (bits, was) := (hasBits, cells[..]);
      ClearRestoresZero(State(hasBits));
      rewardComponents, terminationReason, behaviorModelLineageId := [], [], [];
      MemSet(cells, EPISODE_RETURN, SHORTEST_ACTION_STEPS + 1);
      if hasBits * {1, 2, 4, 8} != {} {
        MemSet(cells, GOAL_RANK_GROUP, TERMINAL_FRAME_ID + 1);
      }
      assert cells[..] == ClearedCells(bits, was);
      hasBits, unknown := {}, [];
      EmptyState();
    }

    method CopyFrom(from: AgentEpisodeMetricFact)
      requires Valid() && from.Valid() && (from == this || from.cells != cells)
      modifies this, cells
      ensures Valid() && State(hasBits) == old(from.State(from.hasBits))
    {
      hide FactState.Abs, FactState.Valid, FactState.SlotAt, Messages, MergeStates;
      if from == this { return; }
      ValidCovers(from.State(from.hasBits));
      Clear();
      MergeFrom(from);
      MergeOntoEmpty(from.State(from.hasBits));
    }

    /** The copy constructor: has-bits and strings one by one, elements deeply, the plain range in one memcpy. */
    constructor Copy(from: AgentEpisodeMetricFact)
      requires from.Valid()
      ensures Valid() && State(hasBits) == from.State(from.hasBits) && fresh(cells)
    {
      hide FactState.Abs, FactState.Valid, FactState.SlotAt, Messages, LegalUnknown;
      cells := new u64[CELLS](_ => 0);
      hasBits := from.hasBits;
      terminationReason, behaviorModelLineageId := from.terminationReason, from.behaviorModelLineageId;
      rewardComponents := [];
      unknown, cachedSize := from.unknown, 0;
      new;
      CopyCells(from);
      CopyElements(from);
    }

    method CopyElements(from: AgentEpisodeMetricFact)
      requires from != this && forall c | c in from.rewardComponents :: c.Valid()
      modifies this`rewardComponents
      ensures Messages(rewardComponents) == Messages(from.rewardComponents) == old(Messages(from.rewardComponents))
      ensures forall c | c in rewardComponents :: c.Valid() && fresh(c)
    {
      hide Messages, RawMetricSumCount.Valid;
      rewardComponents := CopyComponents(from.rewardComponents);
    }

    /** memcpy of the plain fields. */
    method CopyCells(from: AgentEpisodeMetricFact)
      requires cells.Length == CELLS && from.cells.Length == CELLS
      modifies cells
      ensures cells[..] == old(from.cells[..])
    {
      MemCopy(cells, from.cells, EPISODE_RETURN, TERMINAL_FRAME_ID + 1);
    }

    /** memswap of the plain fields. */
    method SwapCells(other: AgentEpisodeMetricFact)
      requires cells.Length == CELLS && other.cells.Length == CELLS && other.cells != cells
      modifies cells, other.cells
      ensures cells[..] == old(other.cells[..]) && other.cells[..] == old(cells[..])
    {
      MemSwap(cells, other.cells, EPISODE_RETURN, TERMINAL_FRAME_ID + 1);
    }

    method SwapWords(other: AgentEpisodeMetricFact)
      requires other != this
      modifies this, other
      ensures unknown == old(other.unknown) && other.unknown == old(unknown)
      ensures hasBits == old(other.hasBits) && other.hasBits == old(hasBits)
      ensures rewardComponents == old(other.rewardComponents) && other.rewardComponents == old(rewardComponents)
      ensures terminationReason == old(other.terminationReason) && other.terminationReason == old(terminationReason)
      ensures behaviorModelLineageId == old(other.behaviorModelLineageId)
      ensures other.behaviorModelLineageId == old(behaviorModelLineageId)
    {
      unknown, other.unknown := other.unknown, unknown;
      hasBits, other.hasBits := other.hasBits, hasBits;
      rewardComponents, other.rewardComponents := other.rewardComponents, rewardComponents;
      terminationReason, other.terminationReason := other.terminationReason, terminationReason;
      behaviorModelLineageId, other.behaviorModelLineageId := other.behaviorModelLineageId, behaviorModelLineageId;
    }

    method InternalSwap(other: AgentEpisodeMetricFact)
      requires Valid() && other.Valid() && other != this && other.cells != cells
      modifies this, other, cells, other.cells
      ensures Valid() && other.Valid()
      ensures State(hasBits) == old(other.State(other.hasBits)) && other.State(other.hasBits) == old(State(hasBits))
    {
      hide FactState.Abs, FactState.Valid, FactState.SlotAt, Messages;
      SwapWords(other);
      SwapCells(other);
    }

    // -------------------------------------------------------------- optional accessors

    /** set_goal_rank_group and its three siblings: `k` is the field number. */
    method SetOptional(k: nat, n: u64)
      requires Valid() && k in {11, 12, 14, 15} && (k == 15 ==> n < TWO32)
      modifies this, cells
      ensures Valid() && State(hasBits) == Store(old(State(hasBits)), k, n)
    {
      hide FactState.Abs, FactState.Valid, FactState.SlotAt, Messages;
      ghost var before := State(hasBits);
      StoreValid(before, k, n);
      hasBits := hasBits + BitOf(k);
      SetCell(CellOf(k), n, hasBits);
    }

    /** clear_goal_rank_group and its three siblings. */
    method ClearOptional(k: nat)
      requires Valid() && k in {11, 12, 14, 15}
      modifies this, cells
      ensures Valid() && State(hasBits) == Unstore(old(State(hasBits)), k)
    {
      hide FactState.Abs, FactState.Valid, FactState.SlotAt, Messages;
      ghost var before := State(hasBits);
      UnstoreValid(before, k);
      SetCell(CellOf(k), 0, hasBits);
      hasBits := hasBits - BitOf(k);
      assert State(hasBits) == Unstore(before, k);
    }
  }

  lemma {:induction false} MessagesConcat(a: seq<RawMetricSumCount>, b: seq<RawMetricSumCount>)
    ensures Messages(a + b) == Messages(a) + Messages(b)
    decreases |b|
  {
    hide RawMetricSumCount.Abs;
    if b == [] {
      assert a + b == a;
    } else {
      var c := b[|b| - 1];
      assert a + b == (a + b[..|b| - 1]) + [c];
      MessagesConcat(a, b[..|b| - 1]);
      MessagesAppend(a + b[..|b| - 1], c);
      Wire.AssociativeSeq(Messages(a), Messages(b[..|b| - 1]), [c.Abs()]);
    }
  }
}
