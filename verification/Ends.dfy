/**
  The objects used end to end: size pass, print pass, and a parse into another object. What the classes
  promise separately composes to the round trip and to concatenation being merge.
 */
module Ends {
  import opened Wire
  import opened Utf8
  import opened Message
  import opened RoundTrip
  import opened Sizes
  import opened TwoPass
  import opened Schemas
  import opened Runtime
  import opened Counts
  import opened PointState
  import opened Points
  import O = Oneof

  /** The strings a point holds are valid UTF-8. */
  predicate Printable(st: PointState)
  {
    ValidUtf8(st.metricId) && forall x | x in st.attributes :: ValidUtf8(x) && ValidUtf8(st.attributes[x])
  }

  lemma PointLegal(p: MetricPoint)
    requires p.Valid() && Printable(p.State(p.hasBits))
    ensures WF(METRIC_POINT, p.Abs())
  {
    hide WF, ValidUtf8, PointState.Abs, LegalUnknown, O.Good, O.Lived, MetricSumCount.Abs, METRIC_POINT,
      METRIC_SUM_COUNT;
    forall c | c in p.Held()
      ensures WF(METRIC_SUM_COUNT, c.Abs())
    {
      c.Legal();
    }
    LegalPoint(p.State(p.hasBits));
  }

  /** The size pass and the print pass over an untouched object. */
  method Serialize(p: MetricPoint, deterministic: bool, sorted: Order, hashed: Order) returns (out: bytes)
    requires p.Valid() && ValidOrder(sorted) && ValidOrder(hashed)
    modifies p`cachedSize, p.Held()`cachedSize
    ensures p.Valid() && p.Held() == old(p.Held()) && p.State(p.hasBits) == old(p.State(p.hasBits))
    ensures out == Encode(Emission(deterministic, sorted, hashed), METRIC_POINT, p.Abs())
    ensures |out| == p.cachedSize
  {
    hide Encode, Print, Exact, Emission, ByteSize, PointState.Abs, PointState.Valid, MetricSumCount.Abs, METRIC_POINT,
      O.Good, O.Lived, LegalUnknown;
    EmissionValid(deterministic, sorted, hashed);
    var size := p.ByteSizeLong(hashed);
    PrintExact(Emission(deterministic, sorted, hashed), METRIC_POINT, p.Abs(), p.Caches());
    out := p.InternalSerialize(deterministic, sorted, hashed, []);
    EncodedLength(Emission(deterministic, sorted, hashed), METRIC_POINT, p.Abs());
    assert [] + Encode(Emission(deterministic, sorted, hashed), METRIC_POINT, p.Abs()) ==
           Encode(Emission(deterministic, sorted, hashed), METRIC_POINT, p.Abs());
  }

  /** Clears `p` and parses all of `data` into it. */
  method ParseFrom(p: MetricPoint, data: bytes) returns (ok: bool)
    requires p.Valid()
    modifies p
    ensures p.Valid()
    ensures ok <==> Parse(METRIC_POINT, EMPTY, data).Done?
    ensures ok ==> p.Abs() == Parse(METRIC_POINT, EMPTY, data).m
  {
    hide Parse, PointState.Abs, PointState.Valid, MetricSumCount.Abs, METRIC_POINT, O.Good, O.Lived,
      MetricPoint.State, LegalUnknown;
    p.Clear();
    assert data[0..|data|] == data;
    var st := p.InternalParse(data, 0, |data|);
    ok := st == AtLimit;
  }

  /** An object of which only cached sizes may have changed holds what it held. */
  twostate lemma OnlySizes(p: MetricPoint)
    requires old(p.Valid())
    requires p.hasBits == old(p.hasBits) && p.attributes == old(p.attributes) && p.metricId == old(p.metricId)
    requires p.intervalStart == old(p.intervalStart) && p.intervalEnd == old(p.intervalEnd) &&
             p.unknown == old(p.unknown)
    requires p.oneofCase == old(p.oneofCase) && p.value == old(p.value)
    requires p.acquired == old(p.acquired) && p.released == old(p.released) && p.destroyed == old(p.destroyed)
    requires p.history == old(p.history)
    requires forall c | c in p.Held() :: c.sum == old(c.sum) && c.count == old(c.count) && c.unknown == old(c.unknown)
    ensures p.Valid() && p.State(p.hasBits) == old(p.State(p.hasBits))
  {
    hide PointState.Abs, PointState.Valid, O.Good, O.Lived, LegalUnknown;
  }

  /** What one object prints, another object reads back: same fields, same presence, same oneof case. */
  method Transfer(from: MetricPoint, to: MetricPoint, deterministic: bool, sorted: Order, hashed: Order)
    returns (ok: bool)
    requires from.Valid() && to.Valid() && from != to && Printable(from.State(from.hasBits))
    requires ValidOrder(sorted) && ValidOrder(hashed) && ByteSize(METRIC_POINT, from.Abs()) <= MAX_SIZE
    modifies from`cachedSize, from.Held()`cachedSize, to
    ensures ok && to.Valid() && to.Abs() == old(from.Abs())
  {
    hide Parse, Encode, Emission, ByteSize, PointState.Abs, PointState.Valid, ValueOf, O.Good, O.Lived, Printable, WF,
      METRIC_POINT;
    PointLegal(from);
    TableOfPoint();
    EmissionValid(deterministic, sorted, hashed);
    var out := Serialize(from, deterministic, sorted, hashed);
    EncodedLength(Emission(deterministic, sorted, hashed), METRIC_POINT, from.Abs());
    RoundTrips(Emission(deterministic, sorted, hashed), METRIC_POINT, from.Abs());
    OnlySizes(to);
    ok := ParseFrom(to, out);
  }

  lemma TableOfPoint()
    ensures WFSchema(METRIC_POINT)
  {
    PointTable();
  }

  /** Printing two objects one after the other and parsing the bytes is merging the second into the first. */
  method TransferBoth(a: MetricPoint, b: MetricPoint, to: MetricPoint, deterministic: bool, sorted: Order,
    hashed: Order)
    returns (ok: bool)
    requires a.Valid() && b.Valid() && to.Valid() && a != b && a != to && b != to
    requires Printable(a.State(a.hasBits)) && Printable(b.State(b.hasBits))
    requires ValidOrder(sorted) && ValidOrder(hashed)
    requires ByteSize(METRIC_POINT, a.Abs()) <= MAX_SIZE && ByteSize(METRIC_POINT, b.Abs()) <= MAX_SIZE
    modifies a`cachedSize, a.Held()`cachedSize, b`cachedSize, b.Held()`cachedSize, to
    ensures ok && to.Valid() && to.Abs() == Merge(METRIC_POINT, old(a.Abs()), old(b.Abs()))
  {
    hide Parse, Encode, Emission, ByteSize, Merge, PointState.Abs, PointState.Valid, ValueOf, O.Good, O.Lived,
      Printable, WF, METRIC_POINT;
    ghost var (m, n) := (a.Abs(), b.Abs());
    PointLegal(a);
    PointLegal(b);
    TableOfPoint();
    EmissionValid(deterministic, sorted, hashed);
    ghost var ord := Emission(deterministic, sorted, hashed);
    EncodedLength(ord, METRIC_POINT, m);
    EncodedLength(ord, METRIC_POINT, n);
    ConcatenationIsMerge(ord, ord, METRIC_POINT, m, n);
    var first := Serialize(a, deterministic, sorted, hashed);
    OnlySizes(b);
    OnlySizes(to);
    var second := Serialize(b, deterministic, sorted, hashed);
    OnlySizes(to);
    ok := ParseFrom(to, first + second);
  }
}
