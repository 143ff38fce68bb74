/**
  MetricPoint of proto/metrics/registry.pb.cc and registry.pb.h as an object that updates itself in
  place: two has-bits, a map, and a oneof whose union may own a MetricSumCount.
 */
module Points {
  import opened Options
  import opened Wire
  import opened Utf8
  import opened Message
  import opened Literals
  import opened Streaming
  import opened Sizes
  import opened TwoPass
  import opened Schemas
  import opened Runtime
  import opened Counts
  import opened PointState
  import O = Oneof

  /** A nullable pointer as an option. */
  function Pointee(p: MetricSumCount?): Option<MetricSumCount> { if p == null then None else Some(p) }

  /** The sub-object owned through the union. */
  function HeldBy(tag: nat, v: O.ValueUnion<MetricSumCount>): set<MetricSumCount>
  {
    if tag == O.K_SUM_COUNT && v.Pointer? && v.p.Some? then {v.p.value} else {}
  }

  function ValueOf(tag: nat, v: O.ValueUnion<MetricSumCount>): Which
    reads HeldBy(tag, v)`sum, HeldBy(tag, v)`count, HeldBy(tag, v)`unknown
  {
    if tag == O.K_SCALAR && v.Bits? then Scalar(v.n)
    else if tag == O.K_UNSIGNED && v.Bits? then Unsigned(v.n)
    else if tag == O.K_SUM_COUNT && v.Pointer? && v.p.Some? then SumCount(v.p.value.Abs())
    else NoValue
  }

  /** Sorted by key in deterministic mode when there is something to sort, in hash order otherwise. */
  function Emission(deterministic: bool, sorted: Order, hashed: Order): Order
  {
    (t: map<bytes, bytes>) => if deterministic && |t| > 1 then sorted(t) else hashed(t)
  }

  lemma EmissionValid(deterministic: bool, sorted: Order, hashed: Order)
    requires ValidOrder(sorted) && ValidOrder(hashed)
    ensures ValidOrder(Emission(deterministic, sorted, hashed))
  {
    forall t
      ensures Enumerates(Emission(deterministic, sorted, hashed)(t), t)
    {
      assert Enumerates(sorted(t), t) && Enumerates(hashed(t), t);
    }
  }

  /** Contents of consecutive map entries, the first one's length prefix at `at`, each further one behind a byte 42. */
  predicate Consecutive(buf: bytes, at: nat, limit: nat, spans: seq<SpanAt>)
    requires at <= limit <= |buf|
  {
    forall i | 0 <= i < |spans| ::
      && spans[i].SpanAt? && spans[i].ptr <= spans[i].end <= limit
      && (i == 0 ==> spans[i] == ReadSize(buf, at, limit))
      && (i > 0 ==>
            && spans[i - 1].SpanAt? && spans[i - 1].end < limit && buf[spans[i - 1].end] == 42
            && spans[i] == ReadSize(buf, spans[i - 1].end + 1, limit))
  }

  /** `ptr` is where the length prefix of the next entry is. */
  predicate Behind(buf: bytes, at: nat, limit: nat, spans: seq<SpanAt>, ptr: nat)
    requires at <= limit <= |buf|
  {
    && Consecutive(buf, at, limit, spans)
    && if spans == [] then ptr == at
       else
         var end := spans[|spans| - 1].end;
         end < limit && buf[end] == 42 && ptr == end + 1
  }

  function Contents(buf: bytes, at: nat, limit: nat, spans: seq<SpanAt>): (es: seq<bytes>)
    requires at <= limit <= |buf| && Consecutive(buf, at, limit, spans)
    ensures |es| == |spans| && forall i | 0 <= i < |spans| :: es[i] == buf[spans[i].ptr..spans[i].end]
  {
    seq(|spans|, i requires 0 <= i < |spans| => buf[spans[i].ptr..spans[i].end])
  }

  class MetricPoint {
    var hasBits: HasBits
    var attributes: map<bytes, bytes>
    var metricId: bytes
    var intervalStart: u64
    var intervalEnd: u64
    var value: O.ValueUnion<MetricSumCount>
    var oneofCase: nat
    var unknown: seq<Record>
    var cachedSize: nat
    ghost var acquired: multiset<MetricSumCount>
    ghost var released: multiset<MetricSumCount>
    ghost var destroyed: multiset<MetricSumCount>
    ghost var history: seq<O.Op<MetricSumCount>>

    // -------------------------------------------------------------- abstraction

    ghost function Holder(): O.Holder<MetricSumCount>
      reads this`oneofCase, this`value, this`acquired, this`released, this`destroyed
    {
      O.Holder(oneofCase, value, acquired, released, destroyed)
    }

    /** The oneof is in good shape, and what it answers for is what its history since construction says. */
    ghost predicate Owns()
      reads this`oneofCase, this`value, this`acquired, this`released, this`destroyed, this`history
    {
      O.Good(Holder()) && O.Lived(Holder(), history)
    }

    function Held(): set<MetricSumCount>
      reads this`oneofCase, this`value
    {
      HeldBy(oneofCase, value)
    }

    function Value(): Which
      reads this`oneofCase, this`value, Held()`sum, Held()`count, Held()`unknown
    {
      ValueOf(oneofCase, value)
    }

    /** The state with the has-bits `bits`: inside the parser some are still in its local word. */
    function State(bits: HasBits): PointState
      reads this`attributes, this`metricId, this`intervalStart, this`intervalEnd, this`unknown
      reads this`oneofCase, this`value, Held()`sum, Held()`count, Held()`unknown
    {
      PointState(bits, attributes, metricId, intervalStart, intervalEnd, Value(), unknown)
    }

    /** The invariant with the has-bits `bits`. */
    ghost predicate Parsing(bits: HasBits)
      reads this`attributes, this`metricId, this`intervalStart, this`intervalEnd, this`unknown
      reads this`oneofCase, this`value, this`acquired, this`released, this`destroyed, this`history
      reads Held()`sum, Held()`count, Held()`unknown
    {
      Owns() && State(bits).Valid() && forall c | c in Held() :: c.Valid()
    }

    ghost predicate Valid()
      reads this, Held()`sum, Held()`count, Held()`unknown
    {
      Parsing(hasBits)
    }

    /** The part of the invariant that the oneof has no part in. */
    ghost predicate PlainValid()
      reads this`hasBits, this`intervalStart, this`intervalEnd, this`unknown
    {
      PointState(hasBits, map[], [], intervalStart, intervalEnd, NoValue, unknown).Valid()
    }

    lemma ValidParts()
      ensures Valid() <==> PlainValid() && Owns() && forall c | c in Held() :: c.Valid()
    {
      hide LegalUnknown, O.Good, O.Lived, MetricSumCount.Abs;
    }

    function Abs(): Msg
      reads this`hasBits, this`attributes, this`metricId, this`intervalStart, this`intervalEnd, this`unknown
      reads this`oneofCase, this`value, Held()`sum, Held()`count, Held()`unknown
    {
      State(hasBits).Abs()
    }

    constructor ()
      ensures Valid() && State(hasBits) == EMPTY_POINT && Abs() == EMPTY && Holder() == O.Initial() && history == []
    {
      hasBits, attributes, metricId, intervalStart, intervalEnd := {}, map[], [], 0, 0;
      value, oneofCase := O.Bits(0), O.NOT_SET;
      unknown, cachedSize := [], 0;
      acquired, released, destroyed, history := multiset{}, multiset{}, multiset{}, [];
      new;
      EmptyPoint();
      O.InitialGood<MetricSumCount>();
      O.LivedInitially<MetricSumCount>();
    }

    // -------------------------------------------------------------- the oneof

    /** What a step deletes was held. */
    lemma DestroysHeld(op: O.Op<MetricSumCount>)
      requires O.Good(Holder())
      ensures forall x | x in O.Step(Holder(), op).destroyed :: x in destroyed || x in Held()
    {
      hide O.Step;
      O.GoodShape(Holder());
      O.DestroysOwned(Holder(), op);
    }

    /** Deletes an owned sub-object; the union keeps its bytes. */
    method ClearValue()
      requires Owns()
      modifies this`oneofCase, this`destroyed, this`history
      ensures Holder() == O.Step(old(Holder()), O.ClearValue)
      ensures Owns() && history == old(history) + [O.ClearValue]
      ensures forall x | x in destroyed :: x in old(destroyed) || x in old(Held())
      ensures Value() == NoValue && Held() == {}
    {
      hide O.Good, O.Lived, MetricSumCount.Abs;
      O.LivedStep(Holder(), history, O.ClearValue);
      DestroysHeld(O.ClearValue);
      destroyed := destroyed + O.Owned(Holder());
      oneofCase := O.NOT_SET;
      history := history + [O.ClearValue];
    }

    method SetScalar(n: u64)
      requires Owns()
      modifies this`oneofCase, this`value, this`destroyed, this`history
      ensures Holder() == O.Step(old(Holder()), O.SetScalar(n))
      ensures Owns() && history == old(history) + [O.SetScalar(n)]
      ensures forall x | x in destroyed :: x in old(destroyed) || x in old(Held())
      ensures Value() == Scalar(n) && Held() == {}
    {
      hide O.Good, O.Lived, O.Step, MetricSumCount.Abs;
      O.LivedStep(Holder(), history, O.SetScalar(n));
      DestroysHeld(O.SetScalar(n));
      O.SetStep(Holder(), n);
      if oneofCase != O.K_SCALAR {
        ClearValue();
        oneofCase := O.K_SCALAR;
      }
      value := O.Bits(n);
      history := old(history) + [O.SetScalar(n)];
    }

    method SetUnsigned(n: u64)
      requires Owns()
      modifies this`oneofCase, this`value, this`destroyed, this`history
      ensures Holder() == O.Step(old(Holder()), O.SetUnsigned(n))
      ensures Owns() && history == old(history) + [O.SetUnsigned(n)]
      ensures forall x | x in destroyed :: x in old(destroyed) || x in old(Held())
      ensures Value() == Unsigned(n) && Held() == {}
    {
      hide O.Good, O.Lived, O.Step, MetricSumCount.Abs;
      O.LivedStep(Holder(), history, O.SetUnsigned(n));
      DestroysHeld(O.SetUnsigned(n));
      O.SetStep(Holder(), n);
      if oneofCase != O.K_UNSIGNED {
        ClearValue();
        oneofCase := O.K_UNSIGNED;
      }
      value := O.Bits(n);
      history := old(history) + [O.SetUnsigned(n)];
    }

    lemma MayAdopt(p: MetricSumCount)
      requires O.Good(Holder()) && p !in destroyed && p !in Held()
      ensures O.Legal(Holder(), O.SetAllocated(Some(p)))
    {
      O.GoodShape(Holder());
    }

    /** clear_value, then the case and the pointer: shared by creation and adoption. */
    method TakeOver(p: MetricSumCount)
      requires Owns() && p !in destroyed && p !in Held()
      modifies this`oneofCase, this`value, this`destroyed, this`acquired, this`history
      ensures Holder() == O.Step(old(Holder()), O.SetAllocated(Some(p)))
      ensures Owns() && history == old(history) + [O.SetAllocated(Some(p))]
      ensures forall x | x in destroyed :: x in old(destroyed) || x in old(Held())
      ensures Held() == {p}
    {
      hide O.Good, O.Lived, O.Step, O.Legal, MetricSumCount.Abs;
      MayAdopt(p);
      O.AdoptStep(Holder(), p);
      O.LivedStep(Holder(), history, O.SetAllocated(Some(p)));
      DestroysHeld(O.SetAllocated(Some(p)));
      ClearValue();
      oneofCase := O.K_SUM_COUNT;
      value := O.Pointer(Some(p));
      acquired := acquired + multiset{p};
      history := old(history) + [O.SetAllocated(Some(p))];
    }

    /** The owned sub-object, created when the oneof holds something else. */
    method MutableSumCount() returns (p: MetricSumCount)
      requires Owns() && forall c | c in Held() :: c.Valid()
      modifies this`oneofCase, this`value, this`destroyed, this`acquired, this`history
      ensures Holder() == O.Step(old(Holder()), O.MutableSumCount(p))
      ensures Owns() && history == old(history) + [O.MutableSumCount(p)]
      ensures Held() == {p} && p.Valid() && (p in old(Held()) || fresh(p))
      ensures forall x | x in destroyed :: x in old(destroyed) || x in old(Held())
      ensures Value() == SumCount(SumCountBase(old(Value())))
    {
      hide O.Good, O.Lived, O.Step, O.Legal, MetricSumCount.Abs, LegalUnknown;
      O.GoodShape(Holder());
      if oneofCase != O.K_SUM_COUNT {
        p := CreateSumCount();
      } else {
        p := value.p.value;
        O.MutableStep(Holder(), p);
        O.LivedStep(Holder(), history, O.MutableSumCount(p));
      }
      history := old(history) + [O.MutableSumCount(p)];
    }

    method CreateSumCount() returns (p: MetricSumCount)
      requires Owns() && oneofCase != O.K_SUM_COUNT
      modifies this`oneofCase, this`value, this`destroyed, this`acquired, this`history
      ensures Holder() == O.Step(old(Holder()), O.MutableSumCount(p)) && O.Good(Holder())
      ensures O.Lived(Holder(), old(history) + [O.MutableSumCount(p)])
      ensures Held() == {p} && fresh(p) && p.Valid() && p.Abs() == EMPTY
      ensures forall x | x in destroyed :: x in old(destroyed) || x in old(Held())
    {
      hide O.Good, O.Lived, O.Step, O.Legal, MetricSumCount.Abs, LegalUnknown;
      O.GoodCounts(Holder());
      p := new MetricSumCount();
      O.MutableStep(Holder(), p);
      DestroysHeld(O.MutableSumCount(p));
      O.LivedStep(Holder(), history, O.MutableSumCount(p));
      TakeOver(p);
    }

    method ReleaseSumCount() returns (temp: MetricSumCount?)
      requires Owns()
      modifies this`oneofCase, this`value, this`released, this`history
      ensures Holder() == O.Step(old(Holder()), O.ReleaseSumCount)
      ensures Owns() && history == old(history) + [O.ReleaseSumCount]
      ensures if old(Value()).SumCount? then temp != null && old(Held()) == {temp} && Held() == {} && Value() == NoValue
              else temp == null && Value() == old(Value())
      ensures Held() <= old(Held())
    {
      hide O.Good, O.Lived, MetricSumCount.Abs;
      O.GoodShape(Holder());
      O.LivedStep(Holder(), history, O.ReleaseSumCount);
      if oneofCase == O.K_SUM_COUNT {
        oneofCase := O.NOT_SET;
        temp := value.p.value;
        released := released + multiset{value.p.value};
        value := O.Pointer(None);
      } else {
        temp := null;
      }
      history := history + [O.ReleaseSumCount];
    }

    /** Adopts `given`, which must be alive and not the object already held. */
    method SetAllocatedSumCount(given: MetricSumCount?)
      requires Owns() && (given != null ==> given !in destroyed && given !in Held() && given.Valid())
      modifies this`oneofCase, this`value, this`destroyed, this`acquired, this`history
      ensures Holder() == O.Step(old(Holder()), O.SetAllocated(Pointee(given)))
      ensures Owns() && history == old(history) + [O.SetAllocated(Pointee(given))]
      ensures forall x | x in destroyed :: x in old(destroyed) || x in old(Held())
      ensures if given == null then Value() == NoValue && Held() == {}
              else Held() == {given} && Value() == SumCount(given.Abs())
    {
      hide O.Good, O.Lived, O.Cleared, MetricSumCount.Abs, LegalUnknown;
      if given == null {
        O.LivedStep(Holder(), history, O.SetAllocated(None));
        ClearValue();
        history := old(history) + [O.SetAllocated(None)];
      } else {
        TakeOver(given);
      }
    }

    method ClearScalar()
      requires Owns()
      modifies this`oneofCase, this`value, this`history
      ensures Holder() == O.Step(old(Holder()), O.ClearScalar)
      ensures Owns() && history == old(history) + [O.ClearScalar]
      ensures Value() == if old(Value()).Scalar? then NoValue else old(Value())
      ensures Held() <= old(Held())
    {
      hide O.Good, O.Lived, MetricSumCount.Abs;
      O.GoodShape(Holder());
      O.LivedStep(Holder(), history, O.ClearScalar);
      if oneofCase == O.K_SCALAR {
        value := O.Bits(0);
        oneofCase := O.NOT_SET;
      }
      history := history + [O.ClearScalar];
    }

    method ClearUnsigned()
      requires Owns()
      modifies this`oneofCase, this`value, this`history
      ensures Holder() == O.Step(old(Holder()), O.ClearUnsigned)
      ensures Owns() && history == old(history) + [O.ClearUnsigned]
      ensures Value() == if old(Value()).Unsigned? then NoValue else old(Value())
      ensures Held() <= old(Held())
    {
      hide O.Good, O.Lived, MetricSumCount.Abs;
      O.GoodShape(Holder());
      O.LivedStep(Holder(), history, O.ClearUnsigned);
      if oneofCase == O.K_UNSIGNED {
        value := O.Bits(0);
        oneofCase := O.NOT_SET;
      }
      history := history + [O.ClearUnsigned];
    }

    method ClearSumCount()
      requires Owns()
      modifies this`oneofCase, this`destroyed, this`history
      ensures Holder() == O.Step(old(Holder()), O.ClearSumCount)
      ensures Owns() && history == old(history) + [O.ClearSumCount]
      ensures forall x | x in destroyed :: x in old(destroyed) || x in old(Held())
      ensures Value() == if old(Value()).SumCount? then NoValue else old(Value())
      ensures Held() <= old(Held())
    {
      hide O.Good, O.Lived, MetricSumCount.Abs;
      O.GoodShape(Holder());
      O.LivedStep(Holder(), history, O.ClearSumCount);
      DestroysHeld(O.ClearSumCount);
      if oneofCase == O.K_SUM_COUNT {
        destroyed := destroyed + multiset{value.p.value};
        oneofCase := O.NOT_SET;
      }
      history := history + [O.ClearSumCount];
    }

    /** The destructor: what the oneof ever owned was released or deleted, and nothing was deleted twice. */
    method Destroy()
      requires Owns()
      modifies this`oneofCase, this`destroyed, this`history
      ensures Holder() == O.Step(old(Holder()), O.ClearValue) && history == old(history) + [O.ClearValue]
      ensures Owns() && Held() == {}
      ensures acquired == released + destroyed && forall x | x in destroyed :: destroyed[x] == 1
      ensures forall x | x in destroyed :: x in old(destroyed) || x in old(Held())
    {
      hide O.Good, O.Lived;
      O.Settled(Holder(), history);
      O.LivedStep(Holder(), history, O.ClearValue);
      if oneofCase != O.NOT_SET { ClearValue(); }
      history := old(history) + [O.ClearValue];
    }

    // -------------------------------------------------------------- parsing

    /** The parse loop; its has-bits are or-ed in on every way out. */
    method InternalParse(buf: bytes, start: nat, limit: nat) returns (st: Status)
      requires Valid() && start <= limit <= |buf|
      modifies this, Held()
      ensures Valid()
      ensures Agrees(Parse(METRIC_POINT, old(Abs()), buf[start..limit]), st, Abs())
      ensures O.ByParsing(old(history), history) && old(hasBits) <= hasBits
      ensures forall c | c in Held() :: c in old(Held()) || fresh(c)
      ensures forall x | x in destroyed :: x in old(destroyed) || x in old(Held()) || fresh(x)
    {
      hide Parse, ReadTag, PointState.Abs, MetricPoint.State, MetricPoint.Parsing;
      var bits: HasBits := {};
      var ptr := start;
      st := AtLimit;
      assert hasBits + bits == hasBits;
      while ptr < limit
        invariant start <= ptr <= limit && st == AtLimit
        invariant Parsing(hasBits + bits) && hasBits == old(hasBits) && O.ByParsing(old(history), history)
        invariant forall c | c in Held() :: c in old(Held()) || fresh(c)
        invariant forall x | x in destroyed :: x in old(destroyed) || x in old(Held()) || fresh(x)
        invariant Parse(METRIC_POINT, State(hasBits + bits).Abs(), buf[ptr..limit]) ==
                  Parse(METRIC_POINT, old(Abs()), buf[start..limit])
        decreases limit - ptr
      {
        StepTag(METRIC_POINT, State(hasBits + bits).Abs(), buf, ptr, limit);
        var t := ReadTag(buf, ptr, limit);
        if t.NoNum? { st := Null; break; }
        var step;
        step, bits := SwitchCase(buf, ptr, limit, t, bits);
        if step.Bad? { st := Null; break; }
        if step.Next? { ptr := step.ptr; continue; }
        if t.v == 0 || t.v % 8 == 4 { st := AtTag(t.v); break; }
        step := KeepUnknown(buf, ptr, limit, t, hasBits + bits);
        if step.Bad? { st := Null; break; }
        ptr := step.ptr;
      }
      OrBits(bits);
      if st == AtLimit { ParseEnd(METRIC_POINT, Abs(), buf, limit); }
    }

    method OrBits(bits: HasBits)
      requires Parsing(hasBits + bits)
      modifies this`hasBits
      ensures Valid() && State(hasBits) == old(State(hasBits + bits)) && hasBits == old(hasBits) + bits
    {
      hide PointState.Valid, MetricSumCount.Abs, LegalUnknown, O.Good, O.Lived;
      hasBits := hasBits + bits;
    }

    method KeepUnknown(buf: bytes, ptr: nat, limit: nat, t: NumAt, ghost bits: HasBits) returns (step: Step)
      requires Parsing(bits) && ptr < limit <= |buf| && t == ReadTag(buf, ptr, limit) && t.NumAt?
      requires t.v !in {10, 17, 24, 34, 42, 48, 56} && t.v != 0 && t.v % 8 != 4
      modifies this`unknown
      ensures Parsing(bits) && !step.NotTaken?
      ensures step.Bad? ==> Parse(METRIC_POINT, old(State(bits)).Abs(), buf[ptr..limit]) == Failed
      ensures step.Next? ==>
                ptr < step.ptr <= limit
                && Parse(METRIC_POINT, old(State(bits)).Abs(), buf[ptr..limit]) ==
                   Parse(METRIC_POINT, State(bits).Abs(), buf[step.ptr..limit])
    {
      hide Parse, ReadTag, ReadUnknown, PointState.Abs, PointState.Valid, MetricSumCount.Abs, LegalUnknown, O.Good,
        O.Lived;
      ghost var before := State(bits);
      NoCaseTakes(t.v);
      UnknownCase(before, buf, ptr, limit);
      var u := ReadUnknown(buf, t.ptr, limit, t.v);
      if u.NoUnknown? { return Bad; }
      unknown := unknown + [u.r];
      assert State(bits) == before.(unknown := before.unknown + [u.r]);
      return Next(u.ptr);
    }

    /** The switch on a tag: not taken by any case, taken and failed, or taken and read up to a position. */
    method SwitchCase(buf: bytes, ptr: nat, limit: nat, t: NumAt, bits: HasBits) returns (step: Step, marked: HasBits)
      requires Parsing(hasBits + bits) && ptr < limit <= |buf| && t == ReadTag(buf, ptr, limit) && t.NumAt?
      modifies this`metricId, this`attributes, this`intervalStart, this`intervalEnd
      modifies this`oneofCase, this`value, this`destroyed, this`acquired, this`history, Held()
      ensures Parsing(hasBits + marked)
      ensures step.NotTaken? <==> t.v !in {10, 17, 24, 34, 42, 48, 56}
      ensures step.NotTaken? ==> State(hasBits + marked) == old(State(hasBits + bits))
      ensures step.Bad? ==> Parse(METRIC_POINT, old(State(hasBits + bits)).Abs(), buf[ptr..limit]) == Failed
      ensures step.Next? ==>
                ptr < step.ptr <= limit
                && Parse(METRIC_POINT, old(State(hasBits + bits)).Abs(), buf[ptr..limit]) ==
                   Parse(METRIC_POINT, State(hasBits + marked).Abs(), buf[step.ptr..limit])
      ensures forall c | c in Held() :: c in old(Held()) || fresh(c)
      ensures forall x | x in destroyed :: x in old(destroyed) || x in old(Held()) || fresh(x)
      ensures O.ByParsing(old(history), history)
    {
      hide Parse, ReadTag, MetricPoint.Owns, MetricPoint.Holder, ValueOf, PointState.Abs, PointState.Valid,
        MetricSumCount.Abs, LegalUnknown, O.Good, O.Lived;
      step, marked := PlainCase(buf, ptr, limit, t, bits);
      if !step.NotTaken? { return; }
      step := ScalarCases(buf, ptr, limit, t, bits);
      if !step.NotTaken? { return; }
      if t.v / 8 == 4 && t.v % 256 == 34 {
        step := ParseSumCount(buf, ptr, limit, t, bits);
      } else if t.v / 8 == 5 && t.v % 256 == 42 {
        ghost var spans;
        step, spans := ParseAttributes(buf, ptr, limit, bits);
      }
    }

    /** The string and the two optional numbers, whose bits are marked before their values are read. */
    method PlainCase(buf: bytes, ptr: nat, limit: nat, t: NumAt, bits: HasBits) returns (step: Step, marked: HasBits)
      requires Parsing(hasBits + bits) && ptr < limit <= |buf| && t == ReadTag(buf, ptr, limit) && t.NumAt?
      modifies this`metricId, this`intervalStart, this`intervalEnd
      ensures Parsing(hasBits + marked)
      ensures step.NotTaken? <==> t.v !in {10, 48, 56}
      ensures step.Bad? && t.v == 48 ==> marked == bits + {1} && intervalStart == 0
      ensures step.Bad? && t.v == 56 ==> marked == bits + {2} && intervalEnd == 0
      ensures step.NotTaken? ==> State(hasBits + marked) == old(State(hasBits + bits))
      ensures step.Bad? ==> Parse(METRIC_POINT, old(State(hasBits + bits)).Abs(), buf[ptr..limit]) == Failed
      ensures step.Next? ==>
                ptr < step.ptr <= limit
                && Parse(METRIC_POINT, old(State(hasBits + bits)).Abs(), buf[ptr..limit]) ==
                   Parse(METRIC_POINT, State(hasBits + marked).Abs(), buf[step.ptr..limit])
    {
      hide Parse, ReadTag, ReadString, ReadVarint64, PointState.Abs, MetricSumCount.Abs, LegalUnknown, O.Good,
        O.Lived, ValidUtf8;
      ghost var before := State(hasBits + bits);
      step, marked := NotTaken, bits;
      if t.v / 8 == 1 && t.v % 256 == 10 {
        TextCase(before, buf, ptr, limit);
        var x := ReadString(buf, t.ptr, limit);
        if x.NoStr? { return Bad, bits; }
        metricId := x.b;
        return if ValidUtf8(metricId) then Next(x.ptr) else Bad, bits;
      } else if t.v / 8 == 6 && t.v % 256 == 48 {
        IntervalCase(before, buf, ptr, limit, 6);
        marked := bits + {1};
        assert hasBits + marked == before.bits + {1};
        var x := ReadVarint64(buf, t.ptr, limit);
        intervalStart := if x.NoNum? then 0 else x.v;
        return if x.NoNum? then Bad else Next(x.ptr), marked;
      } else if t.v / 8 == 7 && t.v % 256 == 56 {
        IntervalCase(before, buf, ptr, limit, 7);
        marked := bits + {2};
        assert hasBits + marked == before.bits + {2};
        var x := ReadVarint64(buf, t.ptr, limit);
        intervalEnd := if x.NoNum? then 0 else x.v;
        return if x.NoNum? then Bad else Next(x.ptr), marked;
      }
    }

    /** The plain alternatives of the oneof; a failed varint still switches the oneof, to zero. */
    method ScalarCases(buf: bytes, ptr: nat, limit: nat, t: NumAt, ghost bits: HasBits) returns (step: Step)
      requires Parsing(hasBits + bits) && ptr < limit <= |buf| && t == ReadTag(buf, ptr, limit) && t.NumAt?
      modifies this`oneofCase, this`value, this`destroyed, this`history
      ensures Parsing(hasBits + bits)
      ensures step.NotTaken? <==> t.v !in {17, 24}
      ensures step.NotTaken? ==> State(hasBits + bits) == old(State(hasBits + bits)) && Held() == old(Held())
      ensures step.Bad? ==> Parse(METRIC_POINT, old(State(hasBits + bits)).Abs(), buf[ptr..limit]) == Failed
      ensures step.Next? ==>
                ptr < step.ptr <= limit
                && Parse(METRIC_POINT, old(State(hasBits + bits)).Abs(), buf[ptr..limit]) ==
                   Parse(METRIC_POINT, State(hasBits + bits).Abs(), buf[step.ptr..limit])
      ensures forall c | c in Held() :: c in old(Held())
      ensures O.ByParsing(old(history), history)
      ensures step.Bad? ==> Value() == if t.v == 24 then Unsigned(0) else old(Value())
      ensures forall x | x in destroyed :: x in old(destroyed) || x in old(Held())
    {
      hide Parse, ReadTag, ReadDouble, ReadVarint64, PointState.Abs, MetricSumCount.Abs, LegalUnknown, O.Good, O.Lived;
      ghost var before := State(hasBits + bits);
      step := NotTaken;
      if t.v / 8 == 2 && t.v % 256 == 17 {
        ScalarCase(before, buf, ptr, limit);
        var x := ReadDouble(buf, t.ptr, limit);
        if x.NoNum? { return Bad; }
        SetScalar(x.v);
        assert State(hasBits + bits) == before.(which := Scalar(x.v));
        return Next(x.ptr);
      } else if t.v / 8 == 3 && t.v % 256 == 24 {
        UnsignedCase(before, buf, ptr, limit);
        var x := ReadVarint64(buf, t.ptr, limit);
        SetUnsigned(if x.NoNum? then 0 else x.v);
        assert State(hasBits + bits) == before.(which := Unsigned(if x.NoNum? then 0 else x.v));
        return if x.NoNum? then Bad else Next(x.ptr);
      }
    }

    /** Parsed onto the sub-object held, or onto a new one. */
    method ParseSumCount(buf: bytes, ptr: nat, limit: nat, t: NumAt, ghost bits: HasBits) returns (step: Step)
      requires Parsing(hasBits + bits) && ptr < limit <= |buf| && t == ReadTag(buf, ptr, limit) && t.NumAt? && t.v == 34
      modifies this`oneofCase, this`value, this`destroyed, this`acquired, this`history, Held()
      ensures Parsing(hasBits + bits) && !step.NotTaken?
      ensures step.Bad? ==> Parse(METRIC_POINT, old(State(hasBits + bits)).Abs(), buf[ptr..limit]) == Failed
      ensures step.Next? ==>
                ptr < step.ptr <= limit
                && Parse(METRIC_POINT, old(State(hasBits + bits)).Abs(), buf[ptr..limit]) ==
                   Parse(METRIC_POINT, State(hasBits + bits).Abs(), buf[step.ptr..limit])
      ensures forall c | c in Held() :: c in old(Held()) || fresh(c)
      ensures forall x | x in destroyed :: x in old(destroyed) || x in old(Held()) || fresh(x)
      ensures O.ByParsing(old(history), history)
    {
      hide Parse, ReadTag, ReadSize, PointState.Abs, MetricSumCount.Abs, LegalUnknown, O.Good, O.Lived, O.Step,
        PointState.SlotAt;
      ghost var before := State(hasBits + bits);
      SumCountCase(before, buf, ptr, limit);
      var sumCount := MutableSumCount();
      var x := ReadSize(buf, t.ptr, limit);
      if x.NoSpan? { return Bad; }
      var inner := sumCount.InternalParse(buf, x.ptr, x.end);
      if inner != AtLimit { return Bad; }
      assert State(hasBits + bits) == before.(which := SumCount(sumCount.Abs()));
      return Next(x.end);
    }

    static lemma NoEntryYet(t: map<bytes, bytes>, buf: bytes, at: nat, limit: nat)
      requires at <= limit <= |buf|
      ensures Consecutive(buf, at, limit, []) && Behind(buf, at, limit, [], at)
      ensures AfterEntries(t, Contents(buf, at, limit, [])) == t
    {
    }

    static lemma OneMoreEntry(t: map<bytes, bytes>, buf: bytes, at: nat, limit: nat, spans: seq<SpanAt>, ptr: nat)
      requires at <= limit <= |buf| && ptr <= limit && Behind(buf, at, limit, spans, ptr)
      requires Consecutive(buf, at, limit, spans)
      requires var x := ReadSize(buf, ptr, limit); x.SpanAt? && ParseEntry([], [], buf[x.ptr..x.end]).Entry?
      ensures var x := ReadSize(buf, ptr, limit);
              var e := ParseEntry([], [], buf[x.ptr..x.end]);
              Consecutive(buf, at, limit, spans + [x])
              && AfterEntries(t, Contents(buf, at, limit, spans + [x])) ==
                 AfterEntries(t, Contents(buf, at, limit, spans))[e.key := e.value]
              && (x.end < limit && buf[x.end] == 42 ==> Behind(buf, at, limit, spans + [x], x.end + 1))
    {
      hide ReadSize, ParseEntry, Frame;
      var x := ReadSize(buf, ptr, limit);
      var e := ParseEntry([], [], buf[x.ptr..x.end]);
      EntryExactly(buf[x.ptr..x.end], e.key, e.value);
      var es := Contents(buf, at, limit, spans + [x]);
      assert es[..|spans|] == Contents(buf, at, limit, spans);
    }

    /** Case 5: consecutive map entries are consumed without going back to the switch. */
    method ParseAttributes(buf: bytes, start: nat, limit: nat, ghost bits: HasBits)
      returns (step: Step, ghost spans: seq<SpanAt>)
      requires Parsing(hasBits + bits) && start < limit <= |buf|
      requires ReadTag(buf, start, limit).NumAt? && ReadTag(buf, start, limit).v == 42
      modifies this`attributes
      ensures Parsing(hasBits + bits) && !step.NotTaken?
      ensures step.Next? ==> start < step.ptr <= limit
      ensures Parse(METRIC_POINT, old(State(hasBits + bits)).Abs(), buf[start..limit]) ==
              if step.Next? then Parse(METRIC_POINT, State(hasBits + bits).Abs(), buf[step.ptr..limit]) else Failed
      ensures var at := ReadTag(buf, start, limit).ptr;
              Consecutive(buf, at, limit, spans)
              && attributes == AfterEntries(old(attributes), Contents(buf, at, limit, spans))
              && (step.Next? ==> spans != [] && step.ptr == spans[|spans| - 1].end
                                 && (step.ptr == limit || buf[step.ptr] != 42))
    {
      hide Parse, ParseEntry, ReadTag, ReadSize, PointState.Abs, MetricSumCount.Abs, LegalUnknown, O.Good, O.Lived,
        Consecutive, Behind, Contents, AfterEntries, ValueOf;
      ghost var tagAt: nat := start;
      var ptr := ReadTag(buf, start, limit).ptr;
      ghost var at := ptr;
      spans := [];
      NoEntryYet(attributes, buf, at, limit);
      while true
        invariant Parsing(hasBits + bits)
        invariant start <= tagAt < ptr <= limit && ReadTag(buf, tagAt, limit) == NumAt(42, ptr)
        invariant Consecutive(buf, at, limit, spans) && Behind(buf, at, limit, spans, ptr)
        invariant attributes == AfterEntries(old(attributes), Contents(buf, at, limit, spans))
        invariant Parse(METRIC_POINT, old(State(hasBits + bits)).Abs(), buf[start..limit]) ==
                  Parse(METRIC_POINT, State(hasBits + bits).Abs(), buf[tagAt..limit])
        decreases limit - ptr
      {
        EntryCase(State(hasBits + bits), buf, tagAt, limit);
        var x := ReadSize(buf, ptr, limit);
        if x.NoSpan? { return Bad, spans; }
        var e := ParseEntry([], [], buf[x.ptr..x.end]);
        if e.BadEntry? { return Bad, spans; }
        OneMoreEntry(old(attributes), buf, at, limit, spans, ptr);
        spans := spans + [x];
        attributes := attributes[e.key := e.value];
        ptr := x.end;
        if ptr >= limit || buf[ptr] != 42 { return Next(ptr), spans; }
        ExpectTag(buf, ptr, limit, 42);
        tagAt := ptr;
        ptr := ptr + 1;
      }
    }

    // -------------------------------------------------------------- size and print

    /** The sizes cached in this object and its sub-object. */
    function Caches(): Cache
      reads this`cachedSize, this`oneofCase, this`value, Held()`cachedSize
    {
      Cache(cachedSize, if Held() == {} || !value.Pointer? || value.p.None? then map[]
                        else map[4 := [Cache(value.p.value.cachedSize, map[])]])
    }

    /** The sub-object carries its own size. */
    ghost predicate Cached()
      reads this`oneofCase, this`value, Held()
    {
      forall c | c in Held() :: c.cachedSize == ByteSize(METRIC_SUM_COUNT, c.Abs())
    }

    /** The caches are right exactly when the sub-object carries its own size. */
    lemma {:induction false} CachedExactly()
      ensures Cached() <==> Exact(METRIC_POINT, Abs(), Caches())
    {
      hide PointState.Abs, PointState.SlotAt, MetricSumCount.Abs, ByteSize, Exact, METRIC_POINT, METRIC_SUM_COUNT, Leaf;
      OneNestedField(State(hasBits), Caches());
      LeafTables();
      if Value().SumCount? { LeafExact(METRIC_SUM_COUNT, Value().m, Kid(Caches(), 4, 0)); }
    }

    /** The size pass visits the map first, in an order of its own, and the oneof last. */
    method ByteSizeLong(hashed: Order) returns (total: nat)
      requires O.Good(Holder()) && ValidOrder(hashed)
      modifies this`cachedSize, Held()`cachedSize
      ensures total == cachedSize == ByteSize(METRIC_POINT, Abs()) && Exact(METRIC_POINT, Abs(), Caches())
    {
      hide PointState.Abs, ByteSize, VarintSize, EntriesSize, WhichSize, SumCountSize, MetricSumCount.Abs, O.Good,
        Exact, MetricPoint.Caches;
      ghost var st := State(hasBits);
      SizeOfPoint(st);
      total := AttributesSize(hashed);
      if metricId != [] { total := total + 1 + VarintSize(|metricId|) + |metricId|; }
      if hasBits * {1, 2} != {} {
        if 1 in hasBits { total := total + 1 + VarintSize(intervalStart); }
        if 2 in hasBits { total := total + 1 + VarintSize(intervalEnd); }
      } else {
        assert forall b | b in {1, 2} && b in hasBits :: b in hasBits * {1, 2};
      }
      var v := ValueSize();
      total := total + v + |EncodeRecords(unknown)|;
      cachedSize := total;
      CachedExactly();
    }

    method AttributesSize(hashed: Order) returns (total: nat)
      requires ValidOrder(hashed)
      ensures total == EntriesSize(5, attributes)
    {
      hide VarintSize, EncodeRecords, EncodeRecord, EncodeEntry, EntryRecords, MapEntrySize;
      var keys := hashed(attributes);
      assert Enumerates(keys, attributes);
      EnumerationLength(keys, attributes);
      NoEntries(5, [], attributes);
      total := |attributes|;
      for i := 0 to |keys|
        invariant total == |keys| - i + |EncodeRecords(EntryRecords(5, keys[..i], attributes))|
      {
        var n := MapEntrySize(keys[i], attributes[keys[i]]);
        total := total + VarintSize(n) + n;
        EntryAppend(5, keys, attributes, i);
        EntryBytes(5, keys[i], attributes[keys[i]]);
      }
      assert keys[..|keys|] == keys;
      EntriesInAnyOrder(5, keys, attributes);
    }

    method ValueSize() returns (total: nat)
      requires O.Good(Holder())
      modifies Held()`cachedSize
      ensures total == WhichSize(Value()) + SumCountSize(Value()) && Cached()
    {
      hide ByteSize, VarintSize, MetricSumCount.Abs, O.Good;
      O.GoodShape(Holder());
      if oneofCase == O.K_SCALAR {
        total := 1 + 8;
      } else if oneofCase == O.K_UNSIGNED {
        total := 1 + VarintSize(value.n);
      } else if oneofCase == O.K_SUM_COUNT {
        var n := value.p.value.ByteSizeLong();
        total := 1 + VarintSize(n) + n;
      } else {
        total := 0;
      }
    }

    /** Fields in ascending order; the map in sorted order when the stream is deterministic. */
    method InternalSerialize(deterministic: bool, sorted: Order, hashed: Order, target: bytes) returns (out: bytes)
      requires O.Good(Holder()) && ValidOrder(sorted) && ValidOrder(hashed)
      ensures out == target + Print(Emission(deterministic, sorted, hashed), METRIC_POINT, Abs(), Caches())
    {
      hide PointState.Abs, Printed, Print, EncodeRecords, Emission, MetricSumCount.Abs, O.Good, METRIC_POINT;
      ghost var c := Caches();
      ghost var ord := Emission(deterministic, sorted, hashed);
      EmissionValid(deterministic, sorted, hashed);
      PointFields();
      AbsSlot(State(hasBits), 0);
      PrintStart(ord, METRIC_POINT, Abs(), c, target);
      PrintNone(ord, METRIC_POINT, Abs(), c, 0, target);
      out := SerializeValue(ord, c, target);
      out := SerializeAttributes(deterministic, sorted, hashed, c, target, out);
      out := SerializeInterval(ord, c, target, out);
      PrintEnd(ord, METRIC_POINT, Abs(), c, target);
      out := out + EncodeRecords(unknown);
    }

    /** Fields 1 to 4. */
    method SerializeValue(ghost ord: Order, ghost c: Cache, target: bytes) returns (out: bytes)
      requires O.Good(Holder()) && (forall p | p in Held() :: Kid(c, 4, 0) == Cache(p.cachedSize, map[]))
      requires target + Printed(ord, METRIC_POINT, Abs(), c, 1) == target
      ensures out == target + Printed(ord, METRIC_POINT, Abs(), c, 5)
    {
      hide PointState.Abs, Printed, WriteString, WriteDouble, WriteVarint, MetricSumCount.Abs, O.Good, METRIC_POINT,
        Kid;
      O.GoodShape(Holder());
      ghost var st := State(hasBits);
      PointFields();
      out := target;
      AbsSlot(st, 1);
      PrintStr(ord, METRIC_POINT, Abs(), c, 1, metricId, target);
      if metricId != [] { out := out + WriteString(1, metricId); }
      AbsSlot(st, 2);
      if oneofCase == O.K_SCALAR {
        PrintNum(ord, METRIC_POINT, Abs(), c, 2, value.n, target);
        out := out + WriteDouble(2, value.n);
      } else {
        PrintNone(ord, METRIC_POINT, Abs(), c, 2, target);
      }
      AbsSlot(st, 3);
      if oneofCase == O.K_UNSIGNED {
        PrintNum(ord, METRIC_POINT, Abs(), c, 3, value.n, target);
        out := out + WriteVarint(3, value.n);
      } else {
        PrintNone(ord, METRIC_POINT, Abs(), c, 3, target);
      }
      out := SerializeSumCount(ord, c, target, out);
    }

    /** Field 4, its length prefix taken from the sub-object's cached size. */
    method SerializeSumCount(ghost ord: Order, ghost c: Cache, ghost target: bytes, before: bytes) returns (out: bytes)
      requires O.Good(Holder()) && (forall p | p in Held() :: Kid(c, 4, 0) == Cache(p.cachedSize, map[]))
      requires before == target + Printed(ord, METRIC_POINT, Abs(), c, 4)
      ensures out == target + Printed(ord, METRIC_POINT, Abs(), c, 5)
    {
      hide PointState.Abs, Printed, Print, Encode, WriteHeader, MetricSumCount.Abs, O.Good, METRIC_POINT,
        METRIC_SUM_COUNT, Kid, Leaf;
      O.GoodShape(Holder());
      PointFields();
      AbsSlot(State(hasBits), 4);
      out := before;
      if oneofCase == O.K_SUM_COUNT {
        var sumCount := value.p.value;
        PrintSub(ord, METRIC_POINT, Abs(), c, 4, sumCount.Abs(), target);
        LeafTables();
        PrintLeaf(ord, METRIC_SUM_COUNT, sumCount.Abs(), Kid(c, 4, 0));
        out := out + WriteHeader(4, sumCount.cachedSize);
        out := sumCount.InternalSerialize(ord, out);
        Wire.Associative(before, WriteHeader(4, sumCount.cachedSize), Encode(ord, METRIC_SUM_COUNT, sumCount.Abs()));
      } else {
        PrintNone(ord, METRIC_POINT, Abs(), c, 4, target);
      }
    }

    /** Field 5. */
    method SerializeAttributes(deterministic: bool, sorted: Order, hashed: Order, ghost c: Cache,
                               ghost target: bytes, before: bytes)
      returns (out: bytes)
      requires ValidOrder(sorted) && ValidOrder(hashed)
      requires before == target + Printed(Emission(deterministic, sorted, hashed), METRIC_POINT, Abs(), c, 5)
      ensures out == target + Printed(Emission(deterministic, sorted, hashed), METRIC_POINT, Abs(), c, 6)
      ensures var keys := if deterministic && |attributes| > 1 then sorted(attributes) else hashed(attributes);
              (forall x :: x in keys <==> x in attributes) && out == before + EntriesText(42, keys, attributes)
    {
      hide PointState.Abs, Printed, EncodeRecords, EncodeRecord, EncodeEntry, EntryRecords, WriteEntry,
        MetricSumCount.Abs, METRIC_POINT, EntriesText;
      ghost var ord := Emission(deterministic, sorted, hashed);
      EmissionValid(deterministic, sorted, hashed);
      var keys := if deterministic && |attributes| > 1 then sorted(attributes) else hashed(attributes);
      assert keys == ord(attributes) && Enumerates(ord(attributes), attributes);
      out := before;
      NoEntries(5, [], attributes);
      for i := 0 to |keys|
        invariant out == before + EncodeRecords(EntryRecords(5, keys[..i], attributes))
      {
        EntryAppend(5, keys, attributes, i);
        EntryBytes(5, keys[i], attributes[keys[i]]);
        Wire.Associative(before, EncodeRecords(EntryRecords(5, keys[..i], attributes)),
          WriteEntry(5, keys[i], attributes[keys[i]]));
        out := out + WriteEntry(5, keys[i], attributes[keys[i]]);
      }
      assert keys[..|keys|] == keys;
      EntriesBytes(5, keys, attributes);
      PointFields();
      AbsSlot(State(hasBits), 5);
      PrintTable(ord, METRIC_POINT, Abs(), c, 5, attributes, target);
    }

    /** Fields 6 and 7. */
    method SerializeInterval(ghost ord: Order, ghost c: Cache, ghost target: bytes, before: bytes) returns (out: bytes)
      requires before == target + Printed(ord, METRIC_POINT, Abs(), c, 6)
      ensures out == target + Printed(ord, METRIC_POINT, Abs(), c, 8)
    {
      hide PointState.Abs, Printed, WriteVarint, MetricSumCount.Abs, METRIC_POINT;
      PointFields();
      out := before;
      AbsSlot(State(hasBits), 6);
      if 1 in hasBits {
        PrintNum(ord, METRIC_POINT, Abs(), c, 6, intervalStart, target);
        out := out + WriteVarint(6, intervalStart);
      } else {
        PrintNone(ord, METRIC_POINT, Abs(), c, 6, target);
      }
      AbsSlot(State(hasBits), 7);
      if 2 in hasBits {
        PrintNum(ord, METRIC_POINT, Abs(), c, 7, intervalEnd, target);
        out := out + WriteVarint(7, intervalEnd);
      } else {
        PrintNone(ord, METRIC_POINT, Abs(), c, 7, target);
      }
    }

    // -------------------------------------------------------------- merge, clear, copy, swap

    method MergeFrom(from: MetricPoint)
      requires Valid() && from.Valid() && from != this && Held() !! from.Held()
      modifies this, Held()
      ensures Valid() && State(hasBits) == MergePoints(old(State(hasBits)), from.State(from.hasBits))
      ensures Abs() == Merge(METRIC_POINT, old(Abs()), from.Abs())
      ensures O.ByMerging(old(history), history, O.Reported(from.Holder()))
      ensures forall c | c in Held() :: c in old(Held()) || fresh(c)
      ensures forall x | x in destroyed :: x in old(destroyed) || x in old(Held()) || fresh(x)
    {
      hide PointState.Abs, PointState.Valid, Merge, MergePoints, MetricSumCount.Abs, LegalUnknown, O.Good, O.Lived;
      MergePointsIsMerge(State(hasBits), from.State(from.hasBits));
      MergePointsValid(State(hasBits), from.State(from.hasBits));
      ValidCovers(from.State(from.hasBits));
      MergeFields(from);
    }

    method MergeFields(from: MetricPoint)
      requires Owns() && from.Owns() && from != this && Held() !! from.Held() && from.hasBits <= {1, 2}
      requires (forall c | c in Held() :: c.Valid()) && forall c | c in from.Held() :: c.Valid()
      modifies this, Held()
      ensures Owns() && State(hasBits) == MergePoints(old(State(hasBits)), from.State(from.hasBits))
      ensures O.ByMerging(old(history), history, O.Reported(from.Holder()))
      ensures forall c | c in Held() :: c.Valid() && (c in old(Held()) || fresh(c))
      ensures forall x | x in destroyed :: x in old(destroyed) || x in old(Held()) || fresh(x)
    {
      hide MergePoints, ValueOf, MetricPoint.Holder, MetricSumCount.Valid, O.Good, O.Lived, MergedWhich;
      MergePlain(from);
      MergeValue(from);
      unknown := unknown + from.unknown;
      MergedFields(old(State(hasBits)), from.State(from.hasBits), State(hasBits));
    }

    method MergePlain(from: MetricPoint)
      requires from != this && from.hasBits <= {1, 2}
      modifies this`attributes, this`metricId, this`intervalStart, this`intervalEnd, this`hasBits
      ensures attributes == old(attributes) + from.attributes && hasBits == old(hasBits) + from.hasBits
      ensures metricId == if from.metricId != [] then from.metricId else old(metricId)
      ensures intervalStart == if 1 in from.hasBits then from.intervalStart else old(intervalStart)
      ensures intervalEnd == if 2 in from.hasBits then from.intervalEnd else old(intervalEnd)
    {
      attributes := attributes + from.attributes;
      if from.metricId != [] { metricId := from.metricId; }
      assert from.hasBits == from.hasBits * {1, 2};
      if from.hasBits * {1, 2} != {} {
        if 1 in from.hasBits { intervalStart := from.intervalStart; }
        if 2 in from.hasBits { intervalEnd := from.intervalEnd; }
        hasBits := hasBits + from.hasBits;
      }
    }

    /** The oneof: a scalar replaces, a sum_count merges into the one held or into a new one. */
    method MergeValue(from: MetricPoint)
      requires Owns() && from.Owns() && from != this && Held() !! from.Held()
      requires (forall c | c in Held() :: c.Valid()) && forall c | c in from.Held() :: c.Valid()
      modifies this`oneofCase, this`value, this`destroyed, this`acquired, this`history, Held()
      ensures O.ByMerging(old(history), history, O.Reported(from.Holder()))
      ensures Owns() && Value() == MergedWhich(old(Value()), from.Value())
      ensures from.Value() == old(from.Value())
      ensures forall c | c in Held() :: c.Valid() && (c in old(Held()) || fresh(c))
      ensures forall x | x in destroyed :: x in old(destroyed) || x in old(Held()) || fresh(x)
    {
      hide Merge, MetricSumCount.Abs, LegalUnknown, O.Good, O.Lived, O.Step;
      O.GoodShape(from.Holder());
      O.GoodShape(Holder());
      if from.oneofCase == O.K_SCALAR {
        SetScalar(from.value.n);
      } else if from.oneofCase == O.K_UNSIGNED {
        SetUnsigned(from.value.n);
      } else if from.oneofCase == O.K_SUM_COUNT {
        MergeSumCount(from.value.p.value);
      }
    }

    method MergeSumCount(c: MetricSumCount)
      requires Owns() && c !in Held() && c.Valid() && forall x | x in Held() :: x.Valid()
      modifies this`oneofCase, this`value, this`destroyed, this`acquired, this`history, Held()
      ensures Owns() && Value() == SumCount(Merge(METRIC_SUM_COUNT, SumCountBase(old(Value())), c.Abs()))
      ensures c.Abs() == old(c.Abs())
      ensures exists p :: history == old(history) + [O.MutableSumCount(p)]
      ensures forall x | x in Held() :: x.Valid() && (x in old(Held()) || fresh(x))
      ensures forall x | x in destroyed :: x in old(destroyed) || x in old(Held()) || fresh(x)
    {
      hide Merge, MetricSumCount.Abs, LegalUnknown, O.Good, O.Lived, O.Step;
      var sumCount := MutableSumCount();
      sumCount.MergeFrom(c);
    }

    method Clear()
      requires Valid()
      modifies this
      ensures Valid() && State(hasBits) == EMPTY_POINT && Abs() == EMPTY && Held() == {}
      ensures Holder() == O.Step(old(Holder()), O.ClearValue) && history == old(history) + [O.ClearValue]
      ensures forall x | x in destroyed :: x in old(destroyed) || x in old(Held())
    {
      hide PointState.Abs, PointState.Valid, MetricPoint.State, O.Good, O.Lived, EMPTY_POINT;
      ValidCovers(State(hasBits));
      ClearFields();
      EmptyPoint();
    }

    method ClearFields()
      requires Owns() && State(hasBits).HasBitsCover()
      modifies this
      ensures Owns() && State(hasBits) == EMPTY_POINT && Held() == {}
      ensures Holder() == O.Step(old(Holder()), O.ClearValue) && history == old(history) + [O.ClearValue]
      ensures forall x | x in destroyed :: x in old(destroyed) || x in old(Held())
    {
      hide ValueOf, HeldBy, O.Good, O.Lived, MetricPoint.Holder;
      attributes, metricId := map[], [];
      ResetInterval();
      ClearValue();
      hasBits, unknown := {}, [];
    }

    /** The interval's storage is only reset when one of its bits is on. */
    method ResetInterval()
      requires State(hasBits).HasBitsCover()
      modifies this`intervalStart, this`intervalEnd
      ensures intervalStart == intervalEnd == 0
    {
      if hasBits * {1, 2} != {} {
        intervalStart, intervalEnd := 0, 0;
      } else {
        assert forall b | b in {1, 2} && b in hasBits :: b in hasBits * {1, 2};
      }
    }

    method CopyFrom(from: MetricPoint)
      requires Valid() && from.Valid() && (from == this || Held() !! from.Held())
      modifies this, Held()
      ensures Valid() && State(hasBits) == old(from.State(from.hasBits))
      ensures forall c | c in Held() :: c in old(Held()) || fresh(c)
      ensures forall x | x in destroyed :: x in old(destroyed) || x in old(Held()) || fresh(x)
      ensures if from == this then history == old(history)
              else O.ByMerging(old(history) + [O.ClearValue], history, O.Reported(from.Holder()))
    {
      hide PointState.Abs, PointState.Valid, Merge, MergePoints, MetricSumCount.Abs, LegalUnknown, O.Good, O.Lived;
      if from == this { return; }
      Clear();
      from.CopiesByMerging();
      MergeFrom(from);
    }

    /** Merging this point into an empty one copies it. */
    lemma CopiesByMerging()
      requires Valid()
      ensures MergePoints(EMPTY_POINT, State(hasBits)) == State(hasBits)
      ensures forall c | c in Held() :: Merge(METRIC_SUM_COUNT, EMPTY, c.Abs()) == c.Abs()
    {
      hide Merge, LegalUnknown, O.Good, O.Lived, METRIC_SUM_COUNT, MergePoints, MetricSumCount.Slots;
      forall c | c in Held()
        ensures Merge(METRIC_SUM_COUNT, EMPTY, c.Abs()) == c.Abs()
      {
        c.CopiedByMerging();
      }
      MergeOntoEmpty(State(hasBits));
    }

    /** A value merged into an unset oneof is the value. */
    lemma CopiedValue()
      requires Valid()
      ensures MergedWhich(NoValue, Value()) == Value()
    {
      hide Merge, LegalUnknown, O.Good, O.Lived, METRIC_SUM_COUNT, MetricSumCount.Abs;
      CopiesByMerging();
    }

    /** The copy constructor: bits and interval as they are, the map and a sub-object by merging. */
    constructor Copy(from: MetricPoint)
      requires from.Valid()
      ensures Valid() && State(hasBits) == from.State(from.hasBits)
      ensures fresh(Held()) && O.ByMerging([], history, O.Reported(from.Holder()))
    {
      hide PointState.Valid, ValueOf, LegalUnknown, O.Good, O.Lived, O.ByMerging, O.Reported,
        MetricPoint.Holder;
      hasBits, attributes, metricId := from.hasBits, map[], [];
      intervalStart, intervalEnd := from.intervalStart, from.intervalEnd;
      value, oneofCase := O.Bits(0), O.NOT_SET;
      unknown, cachedSize := from.unknown, 0;
      acquired, released, destroyed, history := multiset{}, multiset{}, multiset{}, [];
      new;
      CopyStrings(from);
      CopyValue(from);
    }

    method CopyStrings(from: MetricPoint)
      requires attributes == map[] && metricId == [] && from != this
      modifies this`attributes, this`metricId
      ensures attributes == from.attributes && metricId == from.metricId && from.Value() == old(from.Value())
    {
      hide MetricSumCount.Abs;
      attributes := attributes + from.attributes;
      assert attributes == from.attributes;
      if from.metricId != [] { metricId := from.metricId; }
    }

    method CopyValue(from: MetricPoint)
      requires from.Valid() && from != this && oneofCase == O.NOT_SET && value == O.Bits(0)
      requires acquired == released == destroyed == multiset{} && history == []
      modifies this`oneofCase, this`value, this`destroyed, this`acquired, this`history
      ensures O.ByMerging([], history, O.Reported(from.Holder()))
      ensures Owns() && Value() == from.Value() == old(from.Value())
      ensures forall c | c in Held() :: c.Valid() && fresh(c)
    {
      hide PointState.Valid, MergedWhich, MetricSumCount.Valid, MetricSumCount.Abs, O.Good, O.Lived;
      O.InitialGood<MetricSumCount>();
      O.LivedInitially<MetricSumCount>();
      from.CopiedValue();
      MergeValue(from);
    }

    method InternalSwap(other: MetricPoint)
      requires Valid() && other.Valid() && other != this && Held() !! other.Held()
      modifies this, other
      ensures Valid() && other.Valid()
      ensures State(hasBits) == old(other.State(other.hasBits)) && other.State(other.hasBits) == old(State(hasBits))
      ensures Held() == old(other.Held()) && other.Held() == old(Held())
      ensures Holder() == old(other.Holder()) && other.Holder() == old(Holder())
      ensures history == old(other.history) && other.history == old(history)
    {
      hide PointState.Valid, ValueOf, MetricSumCount.Valid, O.Good, O.Lived;
      SwapPlain(other);
      SwapValue(other);
    }

    method SwapPlain(other: MetricPoint)
      requires other != this
      modifies this`unknown, this`hasBits, this`attributes, this`metricId, this`intervalStart, this`intervalEnd
      modifies other`unknown, other`hasBits, other`attributes, other`metricId, other`intervalStart, other`intervalEnd
      ensures unknown == old(other.unknown) && other.unknown == old(unknown)
      ensures hasBits == old(other.hasBits) && other.hasBits == old(hasBits)
      ensures attributes == old(other.attributes) && other.attributes == old(attributes)
      ensures metricId == old(other.metricId) && other.metricId == old(metricId)
      ensures intervalStart == old(other.intervalStart) && other.intervalStart == old(intervalStart)
      ensures intervalEnd == old(other.intervalEnd) && other.intervalEnd == old(intervalEnd)
    {
      unknown, other.unknown := other.unknown, unknown;
      hasBits, other.hasBits := other.hasBits, hasBits;
      attributes, other.attributes := other.attributes, attributes;
      metricId, other.metricId := other.metricId, metricId;
      intervalStart, other.intervalStart := other.intervalStart, intervalStart;
      intervalEnd, other.intervalEnd := other.intervalEnd, intervalEnd;
    }

    /** The union and its case change places, and with them what each object answers for. */
    method SwapValue(other: MetricPoint)
      requires other != this
      modifies this`value, this`oneofCase, this`acquired, this`released, this`destroyed, this`history
      modifies other`value, other`oneofCase, other`acquired, other`released, other`destroyed, other`history
      ensures oneofCase == old(other.oneofCase) && other.oneofCase == old(oneofCase)
      ensures value == old(other.value) && other.value == old(value)
      ensures acquired == old(other.acquired) && other.acquired == old(acquired)
      ensures released == old(other.released) && other.released == old(released)
      ensures destroyed == old(other.destroyed) && other.destroyed == old(destroyed)
      ensures history == old(other.history) && other.history == old(history)
    {
      value, other.value := other.value, value;
      oneofCase, other.oneofCase := other.oneofCase, oneofCase;
      acquired, other.acquired := other.acquired, acquired;
      released, other.released := other.released, released;
      destroyed, other.destroyed := other.destroyed, destroyed;
      history, other.history := other.history, history;
    }

    // -------------------------------------------------------------- optional accessors

    /** set_interval_start_unix_ms (`k` is 6) and set_interval_end_unix_ms (7). */
    method SetInterval(k: nat, i: i64)
      requires Valid() && (k == 6 || k == 7)
      modifies this`hasBits, this`intervalStart, this`intervalEnd
      ensures Valid() && State(hasBits) == WithInterval(old(State(hasBits)), k, ToWire(i))
    {
      hide PointState.Abs, MetricSumCount.Abs, LegalUnknown, O.Good, O.Lived;
      if k == 6 {
        hasBits := hasBits + {1};
        intervalStart := ToWire(i);
      } else {
        hasBits := hasBits + {2};
        intervalEnd := ToWire(i);
      }
    }

    /** clear_interval_start_unix_ms and clear_interval_end_unix_ms. */
    method ClearInterval(k: nat)
      requires Valid() && (k == 6 || k == 7)
      modifies this`hasBits, this`intervalStart, this`intervalEnd
      ensures Valid() && State(hasBits) == WithoutInterval(old(State(hasBits)), k)
    {
      hide PointState.Abs, MetricSumCount.Abs, LegalUnknown, O.Good, O.Lived;
      if k == 6 {
        intervalStart := 0;
        hasBits := hasBits - {1};
      } else {
        intervalEnd := 0;
        hasBits := hasBits - {2};
      }
    }
  }
}
