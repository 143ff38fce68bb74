/**
  The value oneof of MetricPoint as a state machine: a case word, a union whose bytes outlive the case
  that wrote them, and the sub-objects the union's pointer may own. `T` is the type of pointers.
 */
module Oneof {
  import opened Options
  import opened Wire

  const NOT_SET := 0
  const K_SCALAR := 2
  const K_UNSIGNED := 3
  const K_SUM_COUNT := 4

  /** The bytes of the union, as what was last written into them. */
  datatype ValueUnion<+T> = Bits(n: u64) | Pointer(p: Option<T>)

  /** `acquired`: created or adopted; `released`: handed to the caller; `destroyed`: deleted. */
  datatype Holder<T> = Holder(
    tag: nat, value: ValueUnion<T>,
    acquired: multiset<T>, released: multiset<T>, destroyed: multiset<T>)

  /** `made` is the object that mutable_sum_count creates when there is none. */
  datatype Op<T> =
    | SetScalar(n: u64) | SetUnsigned(n: u64)
    | MutableSumCount(made: T) | ReleaseSumCount | SetAllocated(given: Option<T>)
    | ClearScalar | ClearUnsigned | ClearSumCount | ClearValue

  function Initial<T(==)>(): Holder<T> { Holder(NOT_SET, Bits(0), multiset{}, multiset{}, multiset{}) }

  function PointerOf<T>(h: Holder<T>): Option<T>
  {
    if h.value.Pointer? then h.value.p else None
  }

  function Just<T(==)>(p: Option<T>): multiset<T>
  {
    if p.Some? then multiset{p.value} else multiset{}
  }

  /** What the holder would delete. */
  function Owned<T(==)>(h: Holder<T>): multiset<T>
  {
    if h.tag == K_SUM_COUNT then Just(PointerOf(h)) else multiset{}
  }

  // ---------------------------------------------------------------- the operations

  function Deleted<T(==)>(h: Holder<T>): Holder<T>
  {
    h.(destroyed := h.destroyed + Owned(h))
  }

  /** clear_value: deletes an owned sub-object and leaves the union's bytes as they are. */
  function Cleared<T(==)>(h: Holder<T>): Holder<T>
  {
    Deleted(h).(tag := NOT_SET)
  }

  function Switched<T(==)>(h: Holder<T>, tag: nat): Holder<T>
  {
    if h.tag == tag then h else Cleared(h).(tag := tag)
  }

  function Step<T(==)>(h: Holder<T>, op: Op<T>): Holder<T>
  {
    match op
    case SetScalar(n) => Switched(h, K_SCALAR).(value := Bits(n))
    case SetUnsigned(n) => Switched(h, K_UNSIGNED).(value := Bits(n))
    case MutableSumCount(made) =>
      if h.tag == K_SUM_COUNT then h
      else Cleared(h).(tag := K_SUM_COUNT, value := Pointer(Some(made)), acquired := h.acquired + multiset{made})
    case ReleaseSumCount =>
      if h.tag == K_SUM_COUNT then h.(tag := NOT_SET, value := Pointer(None), released := h.released + Owned(h)) else h
    case SetAllocated(given) =>
      if given.None? then Cleared(h)
      else Cleared(h).(tag := K_SUM_COUNT, value := Pointer(given), acquired := h.acquired + Just(given))
    case ClearScalar => if h.tag == K_SCALAR then h.(tag := NOT_SET, value := Bits(0)) else h
    case ClearUnsigned => if h.tag == K_UNSIGNED then h.(tag := NOT_SET, value := Bits(0)) else h
    case ClearSumCount => if h.tag == K_SUM_COUNT then Cleared(h) else h
    case ClearValue => Cleared(h)
  }

  // ---------------------------------------------------------------- the invariant

  /** The case says what the union's bytes are, and no object was deleted twice or is held after deletion. */
  ghost predicate Good<T>(h: Holder<T>)
  {
    && h.tag in {NOT_SET, K_SCALAR, K_UNSIGNED, K_SUM_COUNT}
    && (h.tag == K_SCALAR || h.tag == K_UNSIGNED ==> h.value.Bits?)
    && (h.tag == K_SUM_COUNT ==> PointerOf(h).Some?)
    && h.acquired == h.released + h.destroyed + Owned(h)
    && (forall x | x in h.destroyed :: h.destroyed[x] == 1 && x !in Owned(h))
  }

  /** What a caller owes: objects it hands over are alive and not the one already held. */
  ghost predicate Legal<T>(h: Holder<T>, op: Op<T>)
  {
    match op
    case MutableSumCount(made) => h.tag == K_SUM_COUNT || made !in h.acquired
    case SetAllocated(given) => given.None? || (given.value !in h.destroyed && given.value !in Owned(h))
    case _ => true
  }

  /** The shape of the union that the case word promises. */
  lemma GoodShape<T>(h: Holder<T>)
    requires Good(h)
    ensures h.tag == K_SUM_COUNT ==> h.value.Pointer? && h.value.p.Some?
    ensures h.tag == K_SCALAR || h.tag == K_UNSIGNED ==> h.value.Bits?
  {
  }

  /** Adopting is clearing, then storing the pointer. */
  lemma AdoptStep<T>(h: Holder<T>, p: T)
    ensures Step(h, SetAllocated(Some(p))) ==
            Step(h, ClearValue).(tag := K_SUM_COUNT, value := Pointer(Some(p)), acquired := h.acquired + multiset{p})
  {
  }

  /** Creating is adopting what was created; without creation nothing happens. */
  lemma MutableStep<T>(h: Holder<T>, p: T)
    ensures Step(h, MutableSumCount(p)) == if h.tag == K_SUM_COUNT then h else Step(h, SetAllocated(Some(p)))
    ensures Step(h, SetAllocated(Some(p))).acquired == h.acquired + multiset{p}
    ensures h.tag == K_SUM_COUNT || p !in h.acquired ==> Legal(h, MutableSumCount(p))
  {
  }

  /** No step deletes anything but what is owned. */
  lemma DestroysOwned<T>(h: Holder<T>, op: Op<T>)
    ensures forall x | x in Step(h, op).destroyed :: x in h.destroyed || x in Owned(h)
  {
    match op { case _ => }
  }

  /** Setting a number is clearing when something else is there, then storing. */
  lemma SetStep<T>(h: Holder<T>, n: u64)
    ensures Step(h, SetScalar(n)) ==
            (if h.tag == K_SCALAR then h else Step(h, ClearValue)).(tag := K_SCALAR, value := Bits(n))
    ensures Step(h, SetUnsigned(n)) ==
            (if h.tag == K_UNSIGNED then h else Step(h, ClearValue)).(tag := K_UNSIGNED, value := Bits(n))
  {
  }

  lemma ClearedGood<T>(h: Holder<T>)
    requires Good(h)
    ensures Good(Cleared(h)) && Cleared(h).tag == NOT_SET && Cleared(h).acquired == h.acquired
    ensures forall x :: x !in h.destroyed && x !in Owned(h) ==> x !in Cleared(h).destroyed
  {
    var c := Cleared(h);
    assert c.destroyed == h.destroyed + Owned(h);
    assert c.acquired == c.released + c.destroyed + Owned(c);
  }

  lemma SwitchedGood<T>(h: Holder<T>, tag: nat, n: u64)
    requires Good(h) && (tag == K_SCALAR || tag == K_UNSIGNED)
    ensures Good(Switched(h, tag).(value := Bits(n)))
  {
    hide Cleared;
    ClearedGood(h);
  }

  lemma TakenGood<T>(h: Holder<T>, p: T)
    requires Good(h) && h.tag == NOT_SET && p !in h.destroyed
    ensures Good(h.(tag := K_SUM_COUNT, value := Pointer(Some(p)), acquired := h.acquired + multiset{p}))
  {
  }

  lemma ReleasedGood<T>(h: Holder<T>)
    requires Good(h)
    ensures Good(Step(h, ReleaseSumCount))
  {
  }

  /** Every operation keeps the invariant. */
  lemma {:induction false} StepKeeps<T>(h: Holder<T>, op: Op<T>)
    requires Good(h) && Legal(h, op)
    ensures Good(Step(h, op))
  {
    hide Cleared, Switched, Good;
    ClearedGood(h);
    match op {
      case SetScalar(n) => SwitchedGood(h, K_SCALAR, n);
      case SetUnsigned(n) => SwitchedGood(h, K_UNSIGNED, n);
      case MutableSumCount(made) =>
        GoodCounts(h);
        if h.tag != K_SUM_COUNT { TakenGood(Cleared(h), made); }
      case SetAllocated(given) =>
        if given.Some? { TakenGood(Cleared(h), given.value); }
      case ReleaseSumCount => ReleasedGood(h);
      case _ => BitsDropped(h);
    }
  }

  lemma GoodCounts<T>(h: Holder<T>)
    requires Good(h)
    ensures forall x :: x !in h.acquired ==> x !in h.destroyed && x !in Owned(h)
  {
  }

  lemma BitsDropped<T>(h: Holder<T>)
    requires Good(h)
    ensures h.tag == K_SCALAR || h.tag == K_UNSIGNED ==> Good(h.(tag := NOT_SET, value := Bits(0)))
  {
  }

  /** Adopting a live object keeps the invariant exactly when it is not the one already held. */
  lemma {:induction false} AdoptExactly<T>(h: Holder<T>, p: T)
    requires Good(h) && p !in h.destroyed
    ensures Good(Step(h, SetAllocated(Some(p)))) <==> p !in Owned(h)
  {
    if p in Owned(h) {
      assert p in Step(h, SetAllocated(Some(p))).destroyed;
    }
  }

  // ---------------------------------------------------------------- what is reported

  datatype Shown<T> = Nothing | Scalar(n: u64) | Unsigned(n: u64) | SumCount(p: T)

  /** What has_scalar, has_unsigned_value and has_sum_count and their getters report. */
  function Reported<T>(h: Holder<T>): Shown<T>
    requires Good(h)
  {
    if h.tag == K_SCALAR then Scalar(h.value.n)
    else if h.tag == K_UNSIGNED then Unsigned(h.value.n)
    else if h.tag == K_SUM_COUNT then SumCount(PointerOf(h).value)
    else Nothing
  }

  /** The oneof as its user thinks of it: one value or none. */
  function Meant<T>(v: Shown<T>, op: Op<T>): Shown<T>
  {
    match op
    case SetScalar(n) => Scalar(n)
    case SetUnsigned(n) => Unsigned(n)
    case MutableSumCount(made) => if v.SumCount? then v else SumCount(made)
    case ReleaseSumCount => if v.SumCount? then Nothing else v
    case SetAllocated(given) => if given.Some? then SumCount(given.value) else Nothing
    case ClearScalar => if v.Scalar? then Nothing else v
    case ClearUnsigned => if v.Unsigned? then Nothing else v
    case ClearSumCount => if v.SumCount? then Nothing else v
    case ClearValue => Nothing
  }

  function Steps<T(==)>(h: Holder<T>, ops: seq<Op<T>>): Holder<T>
  {
    if ops == [] then h else Step(Steps(h, ops[..|ops| - 1]), ops[|ops| - 1])
  }

  function MeantBy<T>(v: Shown<T>, ops: seq<Op<T>>): Shown<T>
  {
    if ops == [] then v else Meant(MeantBy(v, ops[..|ops| - 1]), ops[|ops| - 1])
  }

  ghost predicate LegalRun<T>(h: Holder<T>, ops: seq<Op<T>>)
  {
    forall i | 0 <= i < |ops| :: Legal(Steps(h, ops[..i]), ops[i])
  }

  /** Over any run: one alternative at most is reported, the one the run asked for, whatever the union held before. */
  lemma {:induction false} RunReports<T>(h: Holder<T>, ops: seq<Op<T>>)
    requires Good(h) && LegalRun(h, ops)
    ensures Good(Steps(h, ops))
    ensures Reported(Steps(h, ops)) == MeantBy(Reported(h), ops)
  {
    hide Good, Legal, Step;
    if ops != [] {
      var init := ops[..|ops| - 1];
      forall i | 0 <= i < |init|
        ensures Legal(Steps(h, init[..i]), init[i])
      {
        assert init[..i] == ops[..i];
      }
      RunReports(h, init);
      StepKeeps(Steps(h, init), ops[|ops| - 1]);
      StepMeant(Steps(h, init), ops[|ops| - 1]);
    }
  }

  lemma StepMeant<T>(h: Holder<T>, op: Op<T>)
    requires Good(h) && Good(Step(h, op))
    ensures Reported(Step(h, op)) == Meant(Reported(h), op)
  {
    hide Good, Deleted;
    GoodShape(h);
    GoodTag(h);
    match op {
      case MutableSumCount(_) =>
      case SetAllocated(_) =>
      case _ =>
    }
  }

  lemma GoodTag<T>(h: Holder<T>)
    requires Good(h)
    ensures h.tag in {NOT_SET, K_SCALAR, K_UNSIGNED, K_SUM_COUNT}
  {
  }

  /** A sub-object is owned exactly when the case says so, and then it is the one reported. */
  lemma {:induction false} OwnedWhenReported<T>(h: Holder<T>)
    requires Good(h)
    ensures Reported(h).SumCount? <==> |Owned(h)| == 1
    ensures Reported(h).SumCount? ==> Owned(h) == multiset{Reported(h).p}
    ensures !Reported(h).SumCount? ==> Owned(h) == multiset{}
  {
  }

  /**
    From construction to destruction, every object that was created or adopted was released or deleted
    as often as it was acquired, and deleted at most once.
   */
  lemma {:induction false} ExactlyOnce<T>(ops: seq<Op<T>>, x: T)
    requires LegalRun(Initial(), ops)
    ensures var h := Step(Steps(Initial(), ops), ClearValue);
            h.acquired[x] == h.released[x] + h.destroyed[x] && h.destroyed[x] <= 1
    ensures var h := Step(Steps(Initial(), ops), ClearValue);
            h.acquired[x] == 1 ==> h.released[x] + h.destroyed[x] == 1
  {
    hide Step;
    InitialGood<T>();
    RunReports(Initial(), ops);
    StepKeeps(Steps(Initial(), ops), ClearValue);
    NothingLeft(Steps(Initial(), ops));
  }

  lemma InitialGood<T>()
    ensures Good(Initial<T>()) && Reported(Initial<T>()) == Nothing
  {
  }

  lemma NothingLeft<T>(h: Holder<T>)
    ensures Owned(Step(h, ClearValue)) == multiset{}
  {
  }

  // ---------------------------------------------------------------- the life of a holder

  /** `ops` is everything done to the oneof since construction, and each step was legal when it was taken. */
  ghost predicate Lived<T>(h: Holder<T>, ops: seq<Op<T>>)
  {
    Good(h) && LegalRun(Initial(), ops) && h == Steps(Initial(), ops)
  }

  lemma LivedInitially<T>()
    ensures Lived(Initial<T>(), [])
  {
  }

  lemma {:induction false} LivedStep<T>(h: Holder<T>, ops: seq<Op<T>>, op: Op<T>)
    requires Lived(h, ops) && Legal(h, op)
    ensures Lived(Step(h, op), ops + [op]) && Good(Step(h, op))
  {
    hide Good, Legal, Step;
    var all := ops + [op];
    StepKeeps(h, op);
    assert all[..|ops|] == ops;
    forall i | 0 <= i < |all|
      ensures Legal(Steps(Initial(), all[..i]), all[i])
    {
      if i < |ops| { assert all[..i] == ops[..i]; }
    }
  }

  /** Parsing switches the oneof to what it reads, and never hands anything over or takes anything in. */
  predicate ByParsing<T(==)>(before: seq<Op<T>>, after: seq<Op<T>>)
  {
    before <= after
    && forall i | |before| <= i < |after| :: after[i].SetScalar? || after[i].SetUnsigned? || after[i].MutableSumCount?
  }

  /** Merging in a oneof that reports `v` is at most one step. */
  predicate ByMerging<T(==)>(before: seq<Op<T>>, after: seq<Op<T>>, v: Shown<T>)
  {
    match v
    case Nothing => after == before
    case Scalar(n) => after == before + [SetScalar(n)]
    case Unsigned(n) => after == before + [SetUnsigned(n)]
    case SumCount(_) => before < after && |after| == |before| + 1 && after[|before|].MutableSumCount?
  }

  /** Once the oneof is cleared for good, whatever it ever owned was released or deleted, and deleted once. */
  lemma {:induction false} Settled<T>(h: Holder<T>, ops: seq<Op<T>>)
    requires Lived(h, ops)
    ensures var last := Step(h, ClearValue);
            last.acquired == last.released + last.destroyed && forall x | x in last.destroyed :: last.destroyed[x] == 1
  {
    hide Step;
    StepKeeps(h, ClearValue);
    NothingLeft(h);
  }
}
