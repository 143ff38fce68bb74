/**
  Whole lives of two points that pass sub-objects to one another: any sequence of accessor calls, parses,
  merges, copies, clears and swaps between construction and destruction, and what became of every sub-object.
 */
module Lives {
  import opened Wire
  import opened Counts
  import opened Points
  import O = Oneof

  /**
    What a user does to one point. Merging, copying and swapping involve the other; a released object is in
    the user's hands until it is adopted, by the same point or by the other.
   */
  datatype Call =
    | SetScalar(n: u64) | SetUnsigned(n: u64)
    | MutableSumCount | ReleaseSumCount | AdoptNothing | AdoptNew | AdoptReleased
    | ClearScalar | ClearUnsigned | ClearSumCount | ClearValue
    | Clear | Parse(data: bytes) | MergeOther | CopyOther | SwapOther

  type SumCounts = set<MetricSumCount>
  type Deletions = multiset<MetricSumCount>

  /** Two owners, each with what it holds and what it deleted: neither has any part in what is the other's. */
  ghost predicate Separate(h: SumCounts, d: Deletions, h2: SumCounts, d2: Deletions)
  {
    h !! h2 && (forall x | x in d :: x !in d2 && x !in h2) && forall x | x in d2 :: x !in h
  }

  /** An owner stays separate when what it holds and deletes was its own or nobody's. */
  lemma StaysSeparate(h: SumCounts, d: Deletions, h2: SumCounts, d2: Deletions, h': SumCounts, d': Deletions)
    requires Separate(h, d, h2, d2)
    requires forall x | x in h' :: x in h || (x !in h2 && x !in d2)
    requires forall x | x in d' :: x in d || x in h || (x !in h2 && x !in d2)
    ensures Separate(h', d', h2, d2)
  {
  }

  ghost predicate Apart(p: MetricPoint, q: MetricPoint)
    reads p, p.Held()`sum, p.Held()`count, p.Held()`unknown, q, q.Held()`sum, q.Held()`count, q.Held()`unknown
  {
    p != q && p.Valid() && q.Valid() && Separate(p.Held(), p.destroyed, q.Held(), q.destroyed)
  }

  /** An object in the user's hands: alive and held by neither point. */
  ghost predicate Loose(p: MetricPoint, q: MetricPoint, c: MetricSumCount?)
    reads p, q, if c == null then {} else {c}
  {
    c != null ==>
      && c.Valid() && c !in p.Held() && c !in q.Held() && c !in p.destroyed && c !in q.destroyed
  }

  lemma Parts(p: MetricPoint)
    requires p.Valid()
    ensures p.Owns() && p.PlainValid() && forall c | c in p.Held() :: c.Valid() && c !in p.destroyed
  {
    hide O.Lived, MetricSumCount.Valid;
    p.ValidParts();
    O.GoodShape(p.Holder());
  }

  // ---------------------------------------------------------------- one call on one point

  method SetNumber(p: MetricPoint, call: Call)
    requires p.Valid()
    modifies p
    ensures p.Valid() && p.Held() == {}
    ensures forall x | x in p.destroyed :: x in old(p.destroyed) || x in old(p.Held())
  {
    hide MetricPoint.Valid, MetricPoint.PlainValid, MetricPoint.Owns, MetricPoint.Holder, MetricSumCount.Valid, ValueOf;
    Parts(p);
    if call.SetScalar? { p.SetScalar(call.n); } else { p.SetUnsigned(if call.SetUnsigned? then call.n else 0); }
    p.ValidParts();
  }

  method Create(p: MetricPoint)
    requires p.Valid()
    modifies p
    ensures p.Valid() && forall c | c in p.Held() :: c in old(p.Held()) || fresh(c)
    ensures forall x | x in p.destroyed :: x in old(p.destroyed) || x in old(p.Held())
  {
    hide MetricPoint.Valid, MetricPoint.PlainValid, MetricPoint.Owns, MetricPoint.Holder, MetricSumCount.Valid, ValueOf;
    Parts(p);
    var c := p.MutableSumCount();
    p.ValidParts();
  }

  /** Clearing one alternative, or whatever there is. */
  method Unset(p: MetricPoint, call: Call)
    requires p.Valid()
    modifies p
    ensures p.Valid() && p.Held() <= old(p.Held())
    ensures forall x | x in p.destroyed :: x in old(p.destroyed) || x in old(p.Held())
  {
    hide MetricPoint.Valid, MetricPoint.PlainValid, MetricPoint.Owns, MetricPoint.Holder, MetricSumCount.Valid, ValueOf;
    Parts(p);
    match call {
      case ClearScalar => p.ClearScalar();
      case ClearUnsigned => p.ClearUnsigned();
      case ClearSumCount => p.ClearSumCount();
      case _ => p.ClearValue();
    }
    p.ValidParts();
  }

  method Release(p: MetricPoint) returns (c: MetricSumCount?)
    requires p.Valid()
    modifies p
    ensures p.Valid() && p.Held() <= old(p.Held()) && p.destroyed == old(p.destroyed)
    ensures c != null ==> c.Valid() && c in old(p.Held()) && c !in p.Held() && c !in p.destroyed
  {
    hide MetricPoint.Valid, MetricPoint.PlainValid, MetricPoint.Owns, MetricPoint.Holder, MetricSumCount.Valid, ValueOf;
    Parts(p);
    c := p.ReleaseSumCount();
    p.ValidParts();
  }

  method Adopt(p: MetricPoint, c: MetricSumCount?)
    requires p.Valid() && (c != null ==> c.Valid() && c !in p.Held() && c !in p.destroyed)
    modifies p
    ensures p.Valid() && p.Held() == if c == null then {} else {c}
    ensures forall x | x in p.destroyed :: x in old(p.destroyed) || x in old(p.Held())
  {
    hide MetricPoint.Valid, MetricPoint.PlainValid, MetricPoint.Owns, MetricPoint.Holder, MetricSumCount.Valid, ValueOf;
    Parts(p);
    p.SetAllocatedSumCount(c);
    p.ValidParts();
  }

  /** The calls that go through the whole message; the other point is only read. */
  method Whole(p: MetricPoint, q: MetricPoint, call: Call)
    requires p.Valid() && q.Valid() && p != q && p.Held() !! q.Held()
    modifies p, p.Held()
    ensures p.Valid() && forall c | c in p.Held() :: c in old(p.Held()) || fresh(c)
    ensures forall x | x in p.destroyed :: x in old(p.destroyed) || x in old(p.Held()) || fresh(x)
  {
    hide O.Good, O.Lived, O.ByParsing, O.ByMerging, MetricPoint.Valid, MetricPoint.State, MetricPoint.Abs,
      MetricPoint.Holder;
    match call {
      case Parse(data) => var st := p.InternalParse(data, 0, |data|);
      case MergeOther => p.MergeFrom(q);
      case CopyOther => p.CopyFrom(q);
      case _ => p.Clear();
    }
  }

  // ---------------------------------------------------------------- one call on one of two points

  /** Calls that neither take an object in nor hand one out. */
  method Alone(p: MetricPoint, q: MetricPoint, spare: MetricSumCount?, call: Call)
    requires Apart(p, q) && Loose(p, q, spare)
    modifies p, p.Held()
    ensures Apart(p, q) && Loose(p, q, spare) && forall x | x in p.Held() :: x in old(p.Held()) || fresh(x)
  {
    hide MetricPoint.Valid, MetricSumCount.Valid, MetricPoint.Holder, Separate;
    ghost var (h, d) := (p.Held(), p.destroyed);
    HeldApart(p, q);
    Step(p, q, call);
    StaysSeparate(h, d, q.Held(), q.destroyed, p.Held(), p.destroyed);
  }

  lemma HeldApart(p: MetricPoint, q: MetricPoint)
    requires Apart(p, q)
    ensures p.Held() !! q.Held()
  {
  }

  method Step(p: MetricPoint, q: MetricPoint, call: Call)
    requires p.Valid() && q.Valid() && p != q && p.Held() !! q.Held()
    modifies p, p.Held()
    ensures p.Valid() && forall c | c in p.Held() :: c in old(p.Held()) || fresh(c)
    ensures forall x | x in p.destroyed :: x in old(p.destroyed) || x in old(p.Held()) || fresh(x)
  {
    hide MetricPoint.Valid, MetricSumCount.Valid, MetricPoint.Holder;
    if call.Parse? || call.MergeOther? || call.CopyOther? || call.Clear? {
      Whole(p, q, call);
    } else if call.SetScalar? || call.SetUnsigned? {
      SetNumber(p, call);
    } else if call.MutableSumCount? {
      Create(p);
    } else {
      Unset(p, call);
    }
  }

  /** The released object goes to the user, who drops any other. */
  method Take(p: MetricPoint, q: MetricPoint, spare: MetricSumCount?) returns (c: MetricSumCount?)
    requires Apart(p, q) && Loose(p, q, spare)
    modifies p
    ensures Apart(p, q) && Loose(p, q, c) && (c == spare || c in old(p.Held())) && p.Held() <= old(p.Held())
  {
    hide MetricPoint.Valid, MetricSumCount.Valid, MetricPoint.Holder;
    c := Release(p);
    if c == null { c := spare; }
  }

  method Give(p: MetricPoint, q: MetricPoint, c: MetricSumCount?)
    requires Apart(p, q) && Loose(p, q, c)
    modifies p
    ensures Apart(p, q) && p.Held() == if c == null then {} else {c}
    ensures forall x | x in p.destroyed :: x in old(p.destroyed) || x in old(p.Held())
  {
    hide MetricPoint.Valid, MetricSumCount.Valid, MetricPoint.Holder, Separate;
    ghost var (h, d) := (p.Held(), p.destroyed);
    Adopt(p, c);
    StaysSeparate(h, d, q.Held(), q.destroyed, p.Held(), p.destroyed);
  }

  /** The user keeps `spare` and lets the point adopt nothing or something new. */
  method GiveOther(p: MetricPoint, q: MetricPoint, spare: MetricSumCount?, call: Call)
    requires Apart(p, q) && Loose(p, q, spare)
    modifies p
    ensures Apart(p, q) && Loose(p, q, spare) && forall x | x in p.Held() :: fresh(x)
  {
    hide MetricPoint.Valid, MetricSumCount.Valid, MetricPoint.Holder, Separate;
    var c: MetricSumCount? := null;
    if call.AdoptNew? { c := new MetricSumCount(); }
    Give(p, q, c);
  }

  lemma Both(p: MetricPoint, q: MetricPoint)
    requires Apart(p, q)
    ensures p.Valid() && q.Valid() && p != q
  {
  }

  method Swap(p: MetricPoint, q: MetricPoint, spare: MetricSumCount?)
    requires Apart(p, q) && Loose(p, q, spare)
    modifies p, q
    ensures Apart(p, q) && Loose(p, q, spare) && p.Held() == old(q.Held()) && q.Held() == old(p.Held())
  {
    hide MetricPoint.Valid, MetricSumCount.Valid, MetricPoint.State, MetricPoint.Held, O.Good, O.Lived;
    p.InternalSwap(q);
    Parts(p);
    Parts(q);
  }

  method Perform(p: MetricPoint, q: MetricPoint, spare: MetricSumCount?, call: Call) returns (c: MetricSumCount?)
    requires Apart(p, q) && Loose(p, q, spare)
    modifies p, p.Held(), q
    ensures Apart(p, q) && Loose(p, q, c) && (c == null || c == spare || c in old(p.Held()))
    ensures forall x | x in p.Held() || x in q.Held() ::
              x in old(p.Held()) || x in old(q.Held()) || x == spare || fresh(x)
  {
    hide Apart, Loose, MetricPoint.Valid, MetricSumCount.Valid, MetricPoint.Holder, MetricPoint.Held;
    Both(p, q);
    c := spare;
    match call {
      case SwapOther => Swap(p, q, spare);
      case ReleaseSumCount => c := Take(p, q, spare);
      case AdoptReleased =>
        Give(p, q, spare);
        NothingSpare(p, q);
        c := null;
      case AdoptNothing => GiveOther(p, q, spare, call);
      case AdoptNew => GiveOther(p, q, spare, call);
      case _ => Alone(p, q, spare, call);
    }
  }

  lemma NothingSpare(p: MetricPoint, q: MetricPoint)
    ensures Loose(p, q, null)
  {
  }

  // ---------------------------------------------------------------- whole lives

  method Construct() returns (p: MetricPoint, q: MetricPoint)
    ensures fresh(p) && fresh(q) && Apart(p, q) && p.Held() == q.Held() == {}
  {
    hide O.Good, O.Lived, MetricPoint.Valid, MetricPoint.State, MetricPoint.Abs, MetricPoint.Holder;
    p := new MetricPoint();
    NothingHeld(p);
    q := new MetricPoint();
    NothingHeld(q);
  }

  lemma NothingHeld(p: MetricPoint)
    requires p.Holder() == O.Initial()
    ensures p.Held() == {} && p.destroyed == multiset{}
  {
  }

  /** Whatever a point acquired was handed over or deleted, and nothing was deleted twice, by one of them or by both. */
  ghost predicate AllSettled(p: MetricPoint, q: MetricPoint)
    reads p, q
  {
    && p.Held() == {} && q.Held() == {}
    && p.acquired == p.released + p.destroyed && q.acquired == q.released + q.destroyed
    && forall x | x in p.destroyed + q.destroyed :: (p.destroyed + q.destroyed)[x] == 1
  }

  method Destruct(p: MetricPoint, q: MetricPoint)
    requires Apart(p, q)
    modifies p, q
    ensures AllSettled(p, q)
  {
    hide MetricPoint.Valid, MetricPoint.Holder, O.Good, O.Lived, O.Step;
    Parts(p);
    Parts(q);
    p.Destroy();
    q.Destroy();
    assert forall x | x in p.destroyed :: x !in q.destroyed;
  }

  /**
    From construction to destruction, whatever is done: every sub-object that a point created or adopted was
    handed over or deleted, and none was deleted twice, even if it changed hands in between.
   */
  method Live(calls: seq<Call>) returns (p: MetricPoint, q: MetricPoint)
    ensures AllSettled(p, q)
  {
    hide O.Good, O.Lived, MetricPoint.Valid, MetricPoint.Held, AllSettled;
    p, q := Construct();
    var spare: MetricSumCount? := null;
    for i := 0 to |calls|
      invariant fresh(p) && fresh(q) && Apart(p, q) && Loose(p, q, spare) && (spare != null ==> fresh(spare))
      invariant forall x | x in p.Held() || x in q.Held() :: fresh(x)
    {
      spare := Perform(p, q, spare, calls[i]);
    }
    Destruct(p, q);
  }
}
