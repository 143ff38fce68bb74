/**
  Printing and parsing undo each other, and parsing a printed message onto another one merges it
  ("Last One Wins" and "Maps" of the Protocol Buffers Encoding specification), for every schema.
 */
module RoundTrip {
  import opened Options
  import opened Wire
  import opened Utf8
  import opened Message

  // ---------------------------------------------------------------- folding records

  lemma {:induction false} FoldConcat(s: Schema, m: Msg, a: seq<Record>, b: seq<Record>)
    ensures Fold(s, m, a + b) == match Fold(s, m, a) case None => None case Some(m') => Fold(s, m', b)
    decreases |a|
  {
    hide Apply;
    if a == [] {
      assert a + b == b;
    } else {
      assert (a + b)[1..] == a[1..] + b;
      match Apply(s, m, a[0]) {
        case None =>
        case Some(m') => FoldConcat(s, m', a[1..], b);
      }
    }
  }

  /** Parsing printed records is applying them one after the other. */
  lemma {:induction false} ParseRecords(s: Schema, m: Msg, rs: seq<Record>, t: bytes)
    requires forall r | r in rs :: WFRecord(r)
    ensures Parse(s, m, EncodeRecords(rs) + t) ==
            match Fold(s, m, rs) case None => Failed case Some(m') => Parse(s, m', t)
    decreases |rs|
  {
    hide Apply, ReadRecord, EncodeRecord, WFRecord;
    if rs == [] {
      assert EncodeRecords(rs) + t == t;
    } else {
      var rest := EncodeRecords(rs[1..]) + t;
      var b := EncodeRecords(rs) + t;
      assert b == EncodeRecord(rs[0]) + rest;
      RecordRoundTrip(rs[0], rest);
      assert b[|EncodeRecord(rs[0])|..] == rest;
      match Apply(s, m, rs[0]) {
        case None =>
        case Some(m') => ParseRecords(s, m', rs[1..], t);
      }
    }
  }

  lemma {:induction false} FoldUnknown(s: Schema, m: Msg, rs: seq<Record>)
    requires forall r | r in rs :: !Known(s, r)
    ensures Fold(s, m, rs) == Some(m.(unknown := m.unknown + rs))
    decreases |rs|
  {
    hide Update, PutSlot;
    if rs == [] {
      assert m.unknown + rs == m.unknown;
    } else {
      var m' := m.(unknown := m.unknown + [rs[0]]);
      FoldUnknown(s, m', rs[1..]);
      assert m.unknown + [rs[0]] + rs[1..] == m.unknown + rs;
    }
  }

  /** A printed list of records is at least as long as the payload of any record in it. */
  lemma {:induction false} PayloadFits(rs: seq<Record>, i: nat)
    requires i < |rs|
    ensures |PayloadBytes(rs[i].payload)| <= |EncodeRecords(rs)|
    decreases i
  {
    hide Varint, Fixed;
    if i > 0 { PayloadFits(rs[1..], i - 1); }
  }

  // ---------------------------------------------------------------- the empty message is a unit

  lemma EmptyLegal(s: Schema)
    ensures WF(s, EMPTY)
  {
  }

  lemma {:induction false} MergeEmptyLeft(s: Schema, m: Msg)
    requires WF(s, m)
    ensures Merge(s, EMPTY, m) == m
    decreases s
  {
    forall k
      ensures Slot(Merge(s, EMPTY, m), k) == Slot(m, k)
    {
      MergeSlots(s, EMPTY, m, k);
      if k in m.fields {
        var f := s.fields[k];
        assert WFValue(f, m.fields[k]);
        if f.kind.Sub? {
          MergeEmptyLeft(f.kind.schema, m.fields[k].m);
        } else if f.kind.Rep? {
          assert [] + m.fields[k].ms == m.fields[k].ms;
        } else if f.kind.Dict? {
          assert map[] + m.fields[k].t == m.fields[k].t;
        }
      }
    }
    assert [] + m.unknown == m.unknown;
    SameSlots(Merge(s, EMPTY, m), m);
  }

  lemma {:induction false} MergeEmptyRight(s: Schema, m: Msg)
    ensures Merge(s, m, EMPTY) == m
  {
    forall k
      ensures Slot(Merge(s, m, EMPTY), k) == Slot(m, k)
    {
      MergeSlots(s, m, EMPTY, k);
    }
    assert m.unknown + [] == m.unknown;
    SameSlots(Merge(s, m, EMPTY), m);
  }

  // ---------------------------------------------------------------- one field

  lemma {:induction false} EntryRoundTrip(key: bytes, value: bytes)
    requires ValidUtf8(key) && ValidUtf8(value)
    requires |EncodeEntry(key, value)| <= MAX_SIZE
    ensures ParseEntry([], [], EncodeEntry(key, value)) == Entry(key, value)
  {
    hide ReadRecord, ValidUtf8, Varint;
    var r1, r2 := Record(1, LenP(key)), Record(2, LenP(value));
    var b1, b2 := EncodeRecord(r1), EncodeRecord(r2);
    RecordRoundTrip(r1, b2);
    assert (b1 + b2)[|b1|..] == b2;
    RecordRoundTrip(r2, []);
    assert b2 + [] == b2;
    assert b2[|b2|..] == [];
    assert ParseEntry(key, value, []) == Entry(key, value);
    assert ParseEntry(key, [], b2) == ParseEntry(key, value, []);
  }

  lemma PutTwice(s: Schema, m: Msg, k: nat, u: Option<Value>, v: Option<Value>)
    ensures PutSlot(s, PutSlot(s, m, k, u), k, v) == PutSlot(s, m, k, v)
  {
    SameSlots(PutSlot(s, PutSlot(s, m, k, u), k, v), PutSlot(s, m, k, v));
  }

  /** The entries still to be visited: the part of `t` whose keys are listed. */
  function Part(keys: seq<bytes>, t: map<bytes, bytes>): map<bytes, bytes>
  {
    map x | x in keys && x in t :: t[x]
  }

  /** One printed map entry inserts or overwrites its key. */
  lemma ApplyEntry(s: Schema, m: Msg, k: nat, x: bytes, v: bytes)
    requires k in s.fields && s.fields[k].kind.Dict?
    requires ValidUtf8(x) && ValidUtf8(v) && |EncodeEntry(x, v)| <= MAX_SIZE
    ensures Apply(s, m, Record(k, LenP(EncodeEntry(x, v)))) ==
            Some(PutSlot(s, m, k, Some(Table(TableOf(Slot(m, k))[x := v]))))
  {
    hide ParseEntry, EncodeEntry, PutSlot;
    EntryRoundTrip(x, v);
  }

  /** Two entries for one key: the later one decides, as if the earlier had not been there. */
  lemma {:induction false} DuplicateKey(s: Schema, m: Msg, k: nat, x: bytes, v: bytes, w: bytes)
    requires k in s.fields && s.fields[k].kind.Dict?
    requires ValidUtf8(x) && ValidUtf8(v) && ValidUtf8(w)
    requires |EncodeEntry(x, v)| <= MAX_SIZE && |EncodeEntry(x, w)| <= MAX_SIZE
    ensures Fold(s, m, [Record(k, LenP(EncodeEntry(x, v))), Record(k, LenP(EncodeEntry(x, w)))]) ==
            Apply(s, m, Record(k, LenP(EncodeEntry(x, w))))
  {
    hide Apply, PutSlot, EncodeEntry, ValidUtf8;
    var (a, b) := (Record(k, LenP(EncodeEntry(x, v))), Record(k, LenP(EncodeEntry(x, w))));
    var old_ := TableOf(Slot(m, k));
    ApplyEntry(s, m, k, x, v);
    ApplyEntry(s, m, k, x, w);
    var m' := PutSlot(s, m, k, Some(Table(old_[x := v])));
    ApplyEntry(s, m', k, x, w);
    PutTwice(s, m, k, Some(Table(old_[x := v])), Some(Table(old_[x := w])));
    assert old_[x := v][x := w] == old_[x := w];
    assert [a, b][1..] == [b];
    assert Slot(m', k) == Some(Table(old_[x := v])) by { PutHolds(s, m, k, Table(old_[x := v])); }
    assert Fold(s, m', [b]) == Apply(s, m', b) by { FoldOne(s, m', b); }
  }

  lemma PutHolds(s: Schema, m: Msg, k: nat, v: Value)
    ensures Slot(PutSlot(s, m, k, Some(v)), k) == Some(v)
  {
  }

  lemma PartStep(keys: seq<bytes>, t: map<bytes, bytes>, base: map<bytes, bytes>)
    requires keys != [] && keys[0] in t
    ensures base[keys[0] := t[keys[0]]] + Part(keys[1..], t) == base + Part(keys, t)
  {
    assert forall y :: y in keys <==> y == keys[0] || y in keys[1..];
  }

  lemma {:induction false} FoldEntries(s: Schema, m: Msg, k: nat, keys: seq<bytes>, t: map<bytes, bytes>)
    requires k in s.fields && s.fields[k].kind.Dict? && keys != []
    requires forall x | x in keys :: x in t && ValidUtf8(x) && ValidUtf8(t[x])
    requires forall i, j | 0 <= i < j < |keys| :: keys[i] != keys[j]
    requires |EncodeRecords(EntryRecords(k, keys, t))| <= MAX_SIZE
    ensures Fold(s, m, EntryRecords(k, keys, t)) ==
            Some(PutSlot(s, m, k, Some(Table(TableOf(Slot(m, k)) + Part(keys, t)))))
    decreases |keys|
  {
    hide Apply, PutSlot, EncodeEntry, ValidUtf8, EncodeRecord;
    var rs := EntryRecords(k, keys, t);
    var x := keys[0];
    PayloadFits(rs, 0);
    ApplyEntry(s, m, k, x, t[x]);
    var first := Table(TableOf(Slot(m, k))[x := t[x]]);
    var m' := PutSlot(s, m, k, Some(first));
    assert rs[1..] == EntryRecords(k, keys[1..], t);
    PartStep(keys, t, TableOf(Slot(m, k)));
    if |keys| == 1 {
      assert first.t + Part(keys[1..], t) == first.t;
      assert rs[1..] == [];
    } else {
      EncodeRecordsTail(rs);
      FoldEntries(s, m', k, keys[1..], t);
      PutTwice(s, m, k, Some(first), Some(Table(first.t + Part(keys[1..], t))));
    }
  }

  lemma EncodeRecordsTail(rs: seq<Record>)
    requires rs != []
    ensures |EncodeRecords(rs[1..])| <= |EncodeRecords(rs)|
  {
  }

  /** One printed element is appended. */
  lemma ApplyElement(ord: Order, s: Schema, m: Msg, k: nat, cs: Schema, x: Msg)
    requires k in s.fields && s.fields[k].kind == Rep(cs)
    requires Parse(cs, EMPTY, Encode(ord, cs, x)) == Done(x)
    ensures Apply(s, m, Record(k, LenP(Encode(ord, cs, x)))) ==
            Some(PutSlot(s, m, k, Some(Many(ManyOf(Slot(m, k)) + [x]))))
  {
    hide Parse, Encode, PutSlot;
  }

  lemma {:induction false} FoldMany(ord: Order, s: Schema, m: Msg, k: nat, cs: Schema, ms: seq<Msg>)
    requires ValidOrder(ord) && WFSchema(cs)
    requires k in s.fields && s.fields[k].kind == Rep(cs) && ms != []
    requires forall x | x in ms :: WF(cs, x)
    requires |EncodeRecords(ManyRecords(ord, k, cs, ms))| <= MAX_SIZE
    ensures Fold(s, m, ManyRecords(ord, k, cs, ms)) == Some(PutSlot(s, m, k, Some(Many(ManyOf(Slot(m, k)) + ms))))
    decreases cs, 2, |ms|
  {
    hide Apply, PutSlot, Parse, Encode, EncodeRecord, WF, WFSchema, ValidOrder;
    var rs := ManyRecords(ord, k, cs, ms);
    assert rs[0] == Record(k, LenP(Encode(ord, cs, ms[0])));
    PayloadFits(rs, 0);
    RoundTrips(ord, cs, ms[0]);
    ApplyElement(ord, s, m, k, cs, ms[0]);
    var first := Many(ManyOf(Slot(m, k)) + [ms[0]]);
    var m' := PutSlot(s, m, k, Some(first));
    assert rs[1..] == ManyRecords(ord, k, cs, ms[1..]);
    if |ms| == 1 {
      assert ms == [ms[0]];
      assert rs[1..] == [];
    } else {
      EncodeRecordsTail(rs);
      FoldMany(ord, s, m', k, cs, ms[1..]);
      assert first.ms + ms[1..] == ManyOf(Slot(m, k)) + ms;
      PutTwice(s, m, k, Some(first), Some(Many(first.ms + ms[1..])));
    }
  }

  lemma FoldOne(s: Schema, m: Msg, r: Record)
    ensures Fold(s, m, [r]) == Apply(s, m, r)
  {
    hide Apply;
    assert [r][1..] == [];
  }

  lemma ApplySub(ord: Order, s: Schema, m: Msg, k: nat, cs: Schema, x: Msg)
    requires k in s.fields && s.fields[k].kind == Sub(cs)
    requires Parse(cs, MsgOf(Slot(m, k)), Encode(ord, cs, x)) == Done(Merge(cs, MsgOf(Slot(m, k)), x))
    ensures Apply(s, m, Record(k, LenP(Encode(ord, cs, x)))) ==
            Some(PutSlot(s, m, k, MergeSlot(s.fields[k], Slot(m, k), Some(SubV(x)))))
  {
    hide Parse, Encode, PutSlot, Merge;
  }

  lemma FoldScalar(ord: Order, s: Schema, m: Msg, k: nat, v: Value)
    requires k in s.fields && WFValue(s.fields[k], v)
    requires Numeric(s.fields[k].kind) || s.fields[k].kind.Text? || s.fields[k].kind.Blob?
    ensures Fold(s, m, FieldRecords(ord, k, s.fields[k], v)) == Some(PutSlot(s, m, k, Some(v)))
  {
    hide Fold, PutSlot, ValidUtf8;
    var rs := FieldRecords(ord, k, s.fields[k], v);
    FoldOne(s, m, rs[0]);
    assert rs == [rs[0]];
  }

  lemma FoldDict(ord: Order, s: Schema, m: Msg, k: nat, t: map<bytes, bytes>)
    requires ValidOrder(ord) && k in s.fields && s.fields[k].kind.Dict? && WFValue(s.fields[k], Table(t))
    requires |EncodeRecords(FieldRecords(ord, k, s.fields[k], Table(t)))| <= MAX_SIZE
    ensures Fold(s, m, FieldRecords(ord, k, s.fields[k], Table(t))) ==
            Some(PutSlot(s, m, k, Some(Table(TableOf(Slot(m, k)) + t))))
  {
    hide Fold, PutSlot, ValidUtf8, EncodeRecords;
    var keys := ord(t);
    assert Enumerates(keys, t);
    var x :| x in t;
    assert x in keys;
    assert Part(keys, t) == t;
    FoldEntries(s, m, k, keys, t);
  }

  /** Applying the records a field is printed as merges the field. */
  lemma {:induction false} FoldField(ord: Order, s: Schema, m: Msg, k: nat, v: Value)
    requires ValidOrder(ord)
    requires k in s.fields && WFField(s.fields[k]) && WFValue(s.fields[k], v)
    requires |EncodeRecords(FieldRecords(ord, k, s.fields[k], v))| <= MAX_SIZE
    ensures Fold(s, m, FieldRecords(ord, k, s.fields[k], v)) ==
            Some(PutSlot(s, m, k, MergeSlot(s.fields[k], Slot(m, k), Some(v))))
    decreases s.fields[k], 3, 0
  {
    hide Fold, Apply, PutSlot, Parse, Encode, Merge, EncodeRecord, ValidUtf8, ManyRecords;
    var f := s.fields[k];
    var rs := FieldRecords(ord, k, f, v);
    match f.kind {
      case Sub(cs) =>
        assert rs == [Record(k, LenP(Encode(ord, cs, v.m)))];
        PayloadFits(rs, 0);
        ParseOnto(ord, cs, MsgOf(Slot(m, k)), v.m);
        ApplySub(ord, s, m, k, cs, v.m);
        FoldOne(s, m, rs[0]);
      case Rep(cs) =>
        FoldMany(ord, s, m, k, cs, v.ms);
      case Dict =>
        FoldDict(ord, s, m, k, v.t);
      case _ =>
        FoldScalar(ord, s, m, k, v);
    }
  }

  // ---------------------------------------------------------------- the whole message

  function Below(m: Msg, k: nat): Msg
  {
    Msg(map j | j in m.fields && j < k :: m.fields[j], [])
  }

  lemma OneofBelow(s: Schema, b: Msg, k: nat)
    requires WF(s, b) && k in b.fields
    ensures if OneofAt(s, k) then !HasOneof(s, Below(b, k)) && HasOneof(s, Below(b, k + 1))
            else HasOneof(s, Below(b, k)) == HasOneof(s, Below(b, k + 1))
  {
    assert k in Below(b, k + 1).fields;
    if HasOneof(s, Below(b, k)) {
      var j :| j in Below(b, k).fields && OneofAt(s, j);
      assert j in Below(b, k + 1).fields;
    }
  }

  lemma MergeStepSlot(s: Schema, a: Msg, b: Msg, k: nat, j: nat)
    requires WF(s, b) && k in b.fields
    ensures MergedSlot(s, a, Below(b, k), k) == Slot(a, k)
    ensures MergedSlot(s, a, Below(b, k + 1), j) ==
            if j == k then MergeSlot(s.fields[k], Slot(a, k), Slot(b, k))
            else if OneofAt(s, k) && OneofAt(s, j) then None
            else MergedSlot(s, a, Below(b, k), j)
  {
    OneofBelow(s, b, k);
    var lo, hi := Below(b, k), Below(b, k + 1);
    assert Slot(lo, k) == None && Slot(hi, k) == Slot(b, k);
    if j != k {
      assert Slot(hi, j) == Slot(lo, j);
    }
  }

  lemma MergeStep(s: Schema, a: Msg, b: Msg, k: nat)
    requires WF(s, b) && k in b.fields
    ensures PutSlot(s, Merge(s, a, Below(b, k)), k, MergeSlot(s.fields[k], Slot(a, k), Slot(b, k)))
         == Merge(s, a, Below(b, k + 1))
    ensures Slot(Merge(s, a, Below(b, k)), k) == Slot(a, k)
  {
    var m := Merge(s, a, Below(b, k));
    var m' := Merge(s, a, Below(b, k + 1));
    var p := PutSlot(s, m, k, MergeSlot(s.fields[k], Slot(a, k), Slot(b, k)));
    MergeSlots(s, a, Below(b, k), k);
    MergeStepSlot(s, a, b, k, k);
    forall j
      ensures Slot(p, j) == Slot(m', j)
    {
      MergeSlots(s, a, Below(b, k), j);
      MergeSlots(s, a, Below(b, k + 1), j);
      MergeStepSlot(s, a, b, k, j);
    }
    SameSlots(p, m');
  }

  lemma {:induction false} FoldFields(ord: Order, s: Schema, a: Msg, b: Msg, k: nat)
    requires ValidOrder(ord) && WFSchema(s) && WF(s, b) && k <= s.max + 1
    requires |EncodeRecords(RecordsFrom(ord, s, b, k))| <= MAX_SIZE
    ensures Fold(s, Merge(s, a, Below(b, k)), RecordsFrom(ord, s, b, k)) == Some(Merge(s, a, Below(b, s.max + 1)))
    decreases s, 0, s.max + 1 - k
  {
    hide PutSlot, Merge, MergeSlot, FieldRecords, Apply, WFField, WFValue, EncodeRecords;
    if k <= s.max {
      var m := Merge(s, a, Below(b, k));
      var tail := RecordsFrom(ord, s, b, k + 1);
      if k in b.fields {
        var head := FieldRecords(ord, k, s.fields[k], b.fields[k]);
        EncodeRecordsConcat(head, tail);
        MergeStep(s, a, b, k);
        FoldField(ord, s, m, k, b.fields[k]);
        FoldConcat(s, m, head, tail);
      } else {
        assert Below(b, k) == Below(b, k + 1);
        assert [] + tail == tail;
      }
      FoldFields(ord, s, a, b, k + 1);
    }
  }

  lemma {:induction false} FieldRecordsKinds(ord: Order, s: Schema, b: Msg, k: nat)
    requires ValidOrder(ord) && WFSchema(s) && WF(s, b) && k <= s.max + 1
    requires |EncodeRecords(RecordsFrom(ord, s, b, k))| <= MAX_SIZE
    ensures forall r | r in RecordsFrom(ord, s, b, k) :: WFRecord(r) && Known(s, r)
    decreases s.max + 1 - k
  {
    hide EncodeRecord, EncodeRecords, FieldRecords, WFValue, WFField;
    if k <= s.max {
      var tail := RecordsFrom(ord, s, b, k + 1);
      assert [] + tail == tail;
      if k in b.fields {
        var head := FieldRecords(ord, k, s.fields[k], b.fields[k]);
        EncodeRecordsConcat(head, tail);
        forall i | 0 <= i < |head|
          ensures WFRecord(head[i]) && Known(s, head[i])
        {
          PayloadFits(head, i);
          OneFieldRecord(ord, k, s.fields[k], b.fields[k], i);
        }
      }
      FieldRecordsKinds(ord, s, b, k + 1);
    }
  }

  lemma OneFieldRecord(ord: Order, k: nat, f: Field, v: Value, i: nat)
    requires WFValue(f, v) && i < |FieldRecords(ord, k, f, v)|
    ensures var r := FieldRecords(ord, k, f, v)[i];
            r.num == k && WireType(r.payload) == WireOf(f.kind)
            && match r.payload case VarintP(n) => n < TWO64 case Fixed64P(n) => n < TWO64 case _ => r.payload.LenP?
  {
    if f.kind.Rep? { OneManyRecord(ord, k, f.kind.schema, v.ms, i); }
  }

  lemma {:induction false} OneManyRecord(ord: Order, k: nat, cs: Schema, ms: seq<Msg>, i: nat)
    requires i < |ms|
    ensures ManyRecords(ord, k, cs, ms)[i] == Record(k, LenP(Encode(ord, cs, ms[i])))
    decreases i
  {
    if i > 0 { OneManyRecord(ord, k, cs, ms[1..], i - 1); }
  }

  /** Every printed record is legal. */
  lemma RecordsLegal(ord: Order, s: Schema, b: Msg)
    requires ValidOrder(ord) && WFSchema(s) && WF(s, b)
    requires |Encode(ord, s, b)| <= MAX_SIZE
    ensures forall r | r in Records(ord, s, b) :: WFRecord(r)
  {
    EncodeRecordsConcat(RecordsFrom(ord, s, b, 0), b.unknown);
    FieldRecordsKinds(ord, s, b, 0);
  }

  lemma MergeAll(s: Schema, a: Msg, b: Msg)
    requires WFSchema(s) && WF(s, b)
    ensures var m := Merge(s, a, Below(b, s.max + 1));
            m.(unknown := m.unknown + b.unknown) == Merge(s, a, b)
  {
    hide MergeSlot, WFValue, WFRecord, Merge;
    var m := Merge(s, a, Below(b, s.max + 1));
    assert Below(b, s.max + 1).fields == b.fields;
    assert m.unknown == a.unknown && Merge(s, a, b).unknown == a.unknown + b.unknown by {
      MergeUnknown(s, a, b);
      MergeUnknown(s, a, Below(b, s.max + 1));
    }
    forall k
      ensures Slot(m, k) == Slot(Merge(s, a, b), k)
    {
      MergeSlots(s, a, Below(b, s.max + 1), k);
      MergeSlots(s, a, b, k);
    }
    SameSlots(m.(unknown := m.unknown + b.unknown), Merge(s, a, b));
  }

  lemma MergeUnknown(s: Schema, a: Msg, b: Msg)
    ensures Merge(s, a, b).unknown == a.unknown + b.unknown
  {
  }

  /** Applying everything a message is printed as merges that message. */
  lemma {:induction false} FoldIsMerge(ord: Order, s: Schema, a: Msg, b: Msg)
    requires ValidOrder(ord) && WFSchema(s) && WF(s, b)
    requires |Encode(ord, s, b)| <= MAX_SIZE
    ensures Fold(s, a, Records(ord, s, b)) == Some(Merge(s, a, b))
    decreases s, 1, 0
  {
    hide RecordsFrom, Fold, Merge, EncodeRecords, WFRecord, WFSchema, WFValue;
    var known := RecordsFrom(ord, s, b, 0);
    EncodeRecordsConcat(known, b.unknown);
    assert Below(b, 0) == EMPTY;
    MergeEmptyRight(s, a);
    FoldFields(ord, s, a, b, 0);
    FoldConcat(s, a, known, b.unknown);
    FoldUnknown(s, Merge(s, a, Below(b, s.max + 1)), b.unknown);
    MergeAll(s, a, b);
  }

  /** Parsing a printed message onto `a`, with anything after it, continues from the merge. */
  lemma {:induction false} ParseThrough(ord: Order, s: Schema, a: Msg, b: Msg, t: bytes)
    requires ValidOrder(ord) && WFSchema(s) && WF(s, b)
    requires |Encode(ord, s, b)| <= MAX_SIZE
    ensures Parse(s, a, Encode(ord, s, b) + t) == Parse(s, Merge(s, a, b), t)
    decreases s, 1, 1
  {
    RecordsLegal(ord, s, b);
    FoldIsMerge(ord, s, a, b);
    ParseRecords(s, a, Records(ord, s, b), t);
  }

  lemma ParseOnto(ord: Order, s: Schema, a: Msg, b: Msg)
    requires ValidOrder(ord) && WFSchema(s) && WF(s, b)
    requires |Encode(ord, s, b)| <= MAX_SIZE
    ensures Parse(s, a, Encode(ord, s, b)) == Done(Merge(s, a, b))
    decreases s, 1, 2
  {
    ParseThrough(ord, s, a, b, []);
    assert Encode(ord, s, b) + [] == Encode(ord, s, b);
  }

  /** Round trip: reading back what was printed gives the message itself. */
  lemma {:induction false} RoundTrips(ord: Order, s: Schema, m: Msg)
    requires ValidOrder(ord) && WFSchema(s) && WF(s, m)
    requires |Encode(ord, s, m)| <= MAX_SIZE
    ensures Parse(s, EMPTY, Encode(ord, s, m)) == Done(m)
    decreases s, 1, 3
  {
    ParseOnto(ord, s, EMPTY, m);
    MergeEmptyLeft(s, m);
  }

  /** Concatenation is merge: the two prints may even use different map orders. */
  lemma {:induction false} ConcatenationIsMerge(ord1: Order, ord2: Order, s: Schema, a: Msg, b: Msg)
    requires ValidOrder(ord1) && ValidOrder(ord2) && WFSchema(s) && WF(s, a) && WF(s, b)
    requires |Encode(ord1, s, a)| <= MAX_SIZE && |Encode(ord2, s, b)| <= MAX_SIZE
    ensures Parse(s, EMPTY, Encode(ord1, s, a) + Encode(ord2, s, b)) == Done(Merge(s, a, b))
  {
    ParseThrough(ord1, s, EMPTY, a, Encode(ord2, s, b));
    MergeEmptyLeft(s, a);
    ParseOnto(ord2, s, a, b);
  }
}
