/**
  A point's double on the wire, byte by byte: what is printed after it was set, and what is set after it
  was read.
 */
module PointBytes {
  import opened Options
  import opened Wire
  import opened Message
  import opened TwoPass
  import opened Literals
  import opened Schemas
  import opened PointState
  import opened Points
  import O = Oneof

  /** What is printed before the oneof. */
  function MetricId(id: bytes): bytes { if id == [] then [] else [10] + (Varint(|id|) + id) }

  lemma RecordsStep(ord: Order, m: Msg, k: nat)
    requires k <= 7
    ensures RecordsFrom(ord, METRIC_POINT, m, k) ==
            (if k in METRIC_POINT.fields && k in m.fields
             then FieldRecords(ord, k, METRIC_POINT.fields[k], m.fields[k])
             else [])
            + RecordsFrom(ord, METRIC_POINT, m, k + 1)
  {
    hide FieldRecords, METRIC_POINT;
    PointFields();
  }

  lemma TextOrNumber(ord: Order, k: nat, b: bytes, n: nat)
    ensures FieldRecords(ord, k, Plain(Text), Str(b)) == [Record(k, LenP(b))]
    ensures FieldRecords(ord, k, Alternative(Double), Num(n)) == [Record(k, Fixed64P(n))]
  {
  }

  /** The records of a point that holds a scalar begin with its metric_id, if any, and the scalar. */
  lemma ScalarRecords(ord: Order, st: PointState, n: u64)
    requires st.which == Scalar(n)
    ensures RecordsFrom(ord, METRIC_POINT, st.Abs(), 0) ==
            (if st.metricId == [] then [] else [Record(1, LenP(st.metricId))]) + [Record(2, Fixed64P(n))]
            + RecordsFrom(ord, METRIC_POINT, st.Abs(), 3)
  {
    hide PointState.Abs, METRIC_POINT, RecordsFrom, FieldRecords;
    PointFields();
    var m := st.Abs();
    AbsSlot(st, 0);
    AbsSlot(st, 1);
    AbsSlot(st, 2);
    TextOrNumber(ord, 1, st.metricId, n);
    TextOrNumber(ord, 2, st.metricId, n);
    RecordsStep(ord, m, 0);
    RecordsStep(ord, m, 1);
    RecordsStep(ord, m, 2);
    var head := if st.metricId == [] then [] else [Record(1, LenP(st.metricId))];
    var tail := RecordsFrom(ord, METRIC_POINT, m, 3);
    assert [] + (head + ([Record(2, Fixed64P(n))] + tail)) == head + [Record(2, Fixed64P(n))] + tail;
  }

  /** Tag 17 stands behind the metric_id, and the eight octets of the double behind it. */
  lemma ScalarBytes(ord: Order, st: PointState, n: u64) returns (tail: bytes)
    requires st.which == Scalar(n)
    ensures Encode(ord, METRIC_POINT, st.Abs()) == MetricId(st.metricId) + ([17] + Fixed(n, 8)) + tail
  {
    hide PointState.Abs, METRIC_POINT, RecordsFrom, EncodeRecords, EncodeRecord, Varint, Fixed;
    var id := if st.metricId == [] then [] else [Record(1, LenP(st.metricId))];
    var rest := RecordsFrom(ord, METRIC_POINT, st.Abs(), 3) + st.Abs().unknown;
    var r := Record(2, Fixed64P(n));
    ScalarRecords(ord, st, n);
    assert Records(ord, METRIC_POINT, st.Abs()) == id + [r] + rest;
    EncodeRecordsConcat(id + [r], rest);
    EncodeRecordsConcat(id, [r]);
    Single(r);
    RecordBytes(r);
    SmallVarint(17);
    if st.metricId == [] {
      Nothing();
    } else {
      Single(id[0]);
      RecordBytes(id[0]);
      SmallVarint(10);
    }
    tail := EncodeRecords(rest);
  }

  /** set_scalar, then both passes: byte `i` behind tag 17 carries bits 8i to 8i + 7 of the number set. */
  method PrintScalar(p: MetricPoint, n: u64, deterministic: bool, sorted: Order, hashed: Order)
    returns (out: bytes, ghost at: nat)
    requires p.Valid() && ValidOrder(sorted) && ValidOrder(hashed)
    modifies p
    ensures at == |MetricId(p.metricId)| && at + 9 <= |out| && out[..at] == MetricId(p.metricId) && out[at] == 17
    ensures forall i | 0 <= i < 8 :: Pow256(i) > 0 && out[at + 1 + i] == n / Pow256(i) % 256
  {
    hide PointState.Abs, METRIC_POINT, Encode, Print, Exact, Fixed, Varint, O.Good, O.Lived, MetricPoint.Caches,
      Emission, PointState.Valid;
    p.SetScalar(n);
    ghost var ord := Emission(deterministic, sorted, hashed);
    EmissionValid(deterministic, sorted, hashed);
    p.CachedExactly();
    PrintExact(ord, METRIC_POINT, p.Abs(), p.Caches());
    ghost var tail := ScalarBytes(ord, p.State(p.hasBits), n);
    out := p.InternalSerialize(deterministic, sorted, hashed, []);
    at := |MetricId(p.metricId)|;
    assert out == MetricId(p.metricId) + ([17] + Fixed(n, 8)) + tail;
    forall i | 0 <= i < 8
      ensures Pow256(i) > 0 && out[at + 1 + i] == n / Pow256(i) % 256
    {
      FixedByte(n, 8, i);
      assert out[at + 1 + i] == Fixed(n, 8)[i];
    }
  }

  lemma ScalarRead(m: Msg, x: bytes)
    requires |x| == 8
    ensures Parse(METRIC_POINT, m, [17] + x) == Done(PutSlot(METRIC_POINT, m, 2, Some(Num(Octets(x)))))
  {
    hide Octets, PutSlot, ReadRecord, METRIC_POINT;
    PointFields();
    var b := [17] + x;
    assert b[..1] == [17] && b[1..] == x && x[..8] == x;
    assert Groups([17]) == 17 by { assert [17][..0] == []; }
    var r := Record(2, Fixed64P(Octets(x)));
    StartIsRead(b, r, 1, 0);
    assert Apply(METRIC_POINT, m, r) == Some(PutSlot(METRIC_POINT, m, 2, Some(Num(Octets(x)))));
    assert b[9..] == [];
  }

  /** Parsing tag 17 and eight bytes leaves the number these octets stand for, whatever the point held. */
  method ParseScalar(p: MetricPoint, buf: bytes, start: nat)
    requires p.Valid() && start + 9 <= |buf| && buf[start] == 17
    modifies p, p.Held()
    ensures var n := Octets(buf[start + 1..start + 9]);
            n < TWO64 && p.Valid() && p.Value() == Scalar(n)
  {
    hide Parse, Octets, PutSlot, PointState.Abs, PointState.Valid, METRIC_POINT, O.Good, O.Lived, O.ByParsing;
    ghost var x := buf[start + 1..start + 9];
    assert buf[start..start + 9] == [17] + x;
    ScalarRead(p.Abs(), x);
    ghost var m := p.Abs();
    var st := p.InternalParse(buf, start, start + 9);
    PutSlotHere(m, Octets(x));
    OctetsBound(x);
    AbsSlot(p.State(p.hasBits), 2);
  }

  lemma PutSlotHere(m: Msg, n: nat)
    ensures Slot(PutSlot(METRIC_POINT, m, 2, Some(Num(n))), 2) == Some(Num(n))
  {
    hide METRIC_POINT;
  }
}
