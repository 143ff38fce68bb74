/**
  The algebra of MergeFrom: the default message is a unit, merging is associative as long as no
  oneof holds a message, and the exact triples on which a oneof breaks associativity.
 */
module MergeAlgebra {
  import opened Options
  import opened Wire
  import opened Message
  import opened RoundTrip

  /** No oneof here nor in any singular sub-message. */
  ghost predicate OneofFree(s: Schema)
  {
    forall k | k in s.fields :: OneofFreeField(s.fields[k])
  }

  ghost predicate OneofFreeField(f: Field)
  {
    !f.oneof && match f.kind case Sub(cs) => OneofFree(cs) case _ => true
  }

  /** Sub-messages are free of oneofs; the message itself may have one. */
  ghost predicate Tame(s: Schema)
  {
    forall k | k in s.fields :: s.fields[k].kind.Sub? ==> OneofFree(s.fields[k].kind.schema)
  }

  /** `k` is a oneof message the outer operands both hold and the middle one replaced. */
  ghost predicate Conflict(s: Schema, a: Msg, b: Msg, c: Msg, k: nat)
  {
    && OneofAt(s, k) && s.fields[k].kind.Sub?
    && k in a.fields && k in c.fields && k !in b.fields && HasOneof(s, b)
  }

  function Left(s: Schema, a: Msg, b: Msg, c: Msg): Msg { Merge(s, Merge(s, a, b), c) }
  function Right(s: Schema, a: Msg, b: Msg, c: Msg): Msg { Merge(s, a, Merge(s, b, c)) }

  lemma MergeHasOneof(s: Schema, a: Msg, b: Msg)
    requires WF(s, a) && WF(s, b)
    ensures HasOneof(s, Merge(s, a, b)) <==> HasOneof(s, a) || HasOneof(s, b)
  {
    hide MergeSlot, WFValue;
    if HasOneof(s, b) {
      var k :| k in b.fields && OneofAt(s, k);
      MergeSlots(s, a, b, k);
      MergeSlotPresent(s.fields[k], Slot(a, k), Slot(b, k));
      assert k in Merge(s, a, b).fields;
    } else if HasOneof(s, a) {
      var k :| k in a.fields && OneofAt(s, k);
      MergeSlots(s, a, b, k);
      MergeSlotPresent(s.fields[k], Slot(a, k), Slot(b, k));
      assert k in Merge(s, a, b).fields;
    }
    if HasOneof(s, Merge(s, a, b)) {
      var k :| k in Merge(s, a, b).fields && OneofAt(s, k);
      MergeSlots(s, a, b, k);
      MergeSlotPresent(s.fields[k], Slot(a, k), Slot(b, k));
    }
  }

  lemma MergeSlotPresent(f: Field, a: Option<Value>, b: Option<Value>)
    ensures MergeSlot(f, a, b).Some? <==> a.Some? || b.Some?
    ensures a.None? && b.Some? && !f.kind.Sub? && !f.kind.Rep? && !f.kind.Dict? ==> MergeSlot(f, a, b) == b
    ensures b.None? ==> MergeSlot(f, a, b) == a
  {
    hide Merge;
  }

  /** Values of one field, without the oneof in play. */
  lemma MergeSlotAssociative(f: Field, a: Option<Value>, b: Option<Value>, c: Option<Value>)
    requires f.kind.Sub? ==> OneofFree(f.kind.schema)
    requires a.Some? ==> WFValue(f, a.value)
    requires b.Some? ==> WFValue(f, b.value)
    requires c.Some? ==> WFValue(f, c.value)
    ensures MergeSlot(f, MergeSlot(f, a, b), c) == MergeSlot(f, a, MergeSlot(f, b, c))
    decreases f, 0
  {
    hide Merge, WF;
    if f.kind.Sub? && c.Some? {
      if b.Some? { SubAssociative(f, f.kind.schema, a, b, c); }
      MergeEmptyLeft(f.kind.schema, MsgOf(c));
    } else {
      CollectionAssociative(ManyOf(a), ManyOf(b), ManyOf(c), TableOf(a), TableOf(b), TableOf(c));
    }
  }

  lemma CollectionAssociative(a: seq<Msg>, b: seq<Msg>, c: seq<Msg>,
                              t: map<bytes, bytes>, u: map<bytes, bytes>, v: map<bytes, bytes>)
    ensures a + b + c == a + (b + c) && [] + c == c
    ensures t + u + v == t + (u + v) && map[] + v == v
  {
  }

  lemma SubAssociative(f: Field, cs: Schema, a: Option<Value>, b: Option<Value>, c: Option<Value>)
    requires f.kind == Sub(cs) && OneofFree(cs) && b.Some? && c.Some?
    requires a.Some? ==> WFValue(f, a.value)
    requires WFValue(f, b.value) && WFValue(f, c.value)
    ensures MergeSlot(f, MergeSlot(f, a, b), c) == MergeSlot(f, a, MergeSlot(f, b, c))
    decreases cs, 2
  {
    hide Merge, WF, OneofFree;
    assert WF(cs, MsgOf(b)) && WF(cs, MsgOf(c));
    assert WF(cs, MsgOf(a)) by { if a.None? { EmptyLegal(cs); } }
    Associative(cs, MsgOf(a), MsgOf(b), MsgOf(c));
  }

  /** Merging legal messages gives a legal message: two alternatives of a oneof never meet. */
  lemma {:induction false} MergeLegal(s: Schema, a: Msg, b: Msg)
    requires WFSchema(s) && WF(s, a) && WF(s, b)
    ensures WF(s, Merge(s, a, b))
    decreases s, 1
  {
    hide Merge, MergeSlot, WFValue, WFField, WFRecord;
    var m := Merge(s, a, b);
    forall k | k in m.fields
      ensures k in s.fields && WFValue(s.fields[k], m.fields[k])
    {
      MergeSlots(s, a, b, k);
      if k in s.fields { MergeSlotLegal(s.fields[k], Slot(a, k), Slot(b, k)); }
    }
    forall i, j | i in m.fields && j in m.fields && OneofAt(s, i) && OneofAt(s, j)
      ensures i == j
    {
      MergeSlots(s, a, b, i);
      MergeSlots(s, a, b, j);
      MergeSlotPresent(s.fields[i], Slot(a, i), Slot(b, i));
      MergeSlotPresent(s.fields[j], Slot(a, j), Slot(b, j));
    }
    MergeUnknown(s, a, b);
  }

  lemma MergeSlotLegal(f: Field, a: Option<Value>, b: Option<Value>)
    requires WFField(f) && (a.Some? ==> WFValue(f, a.value)) && (b.Some? ==> WFValue(f, b.value))
    ensures MergeSlot(f, a, b).Some? ==> WFValue(f, MergeSlot(f, a, b).value)
    decreases f, 0
  {
    hide Merge, WF, WFSchema;
    if b.Some? && f.kind.Sub? {
      if a.None? { EmptyLegal(f.kind.schema); }
      MergeLegal(f.kind.schema, MsgOf(a), MsgOf(b));
    } else if b.Some? && f.kind.Dict? {
      var k :| k in b.value.t;
      assert k in TableOf(a) + TableOf(b);
    }
  }

  /** Associativity, for every class without a oneof in itself or its singular sub-messages. */
  lemma {:induction false} Associative(s: Schema, a: Msg, b: Msg, c: Msg)
    requires OneofFree(s) && WF(s, a) && WF(s, b) && WF(s, c)
    ensures Left(s, a, b, c) == Right(s, a, b, c)
    decreases s, 1
  {
    hide Merge, MergeSlot, WFValue, WFRecord;
    forall k
      ensures Slot(Left(s, a, b, c), k) == Slot(Right(s, a, b, c), k)
    {
      MergeSlots(s, a, b, k);
      MergeSlots(s, b, c, k);
      MergeSlots(s, Merge(s, a, b), c, k);
      MergeSlots(s, a, Merge(s, b, c), k);
      if k in s.fields {
        MergeSlotAssociative(s.fields[k], Slot(a, k), Slot(b, k), Slot(c, k));
      }
    }
    SameUnknown(s, a, b, c);
    SameSlots(Left(s, a, b, c), Right(s, a, b, c));
  }

  lemma SameUnknown(s: Schema, a: Msg, b: Msg, c: Msg)
    ensures Left(s, a, b, c).unknown == Right(s, a, b, c).unknown
  {
    hide MergedSlot;
    assert a.unknown + b.unknown + c.unknown == a.unknown + (b.unknown + c.unknown);
  }

  /** Slot by slot: both groupings agree except at a conflict, where the right one merges the outer operands. */
  lemma SlotsOfGroupings(s: Schema, a: Msg, b: Msg, c: Msg, k: nat)
    requires Tame(s) && WFSchema(s) && WF(s, a) && WF(s, b) && WF(s, c)
    ensures if Conflict(s, a, b, c, k)
            then Slot(Left(s, a, b, c), k) == Slot(c, k)
                 && Slot(Right(s, a, b, c), k) ==
                    Some(SubV(Merge(s.fields[k].kind.schema, MsgOf(Slot(a, k)), MsgOf(Slot(c, k)))))
            else Slot(Left(s, a, b, c), k) == Slot(Right(s, a, b, c), k)
  {
    hide Merge, MergeSlot, WFValue, WFRecord, WFField, OneofFree;
    MergeSlots(s, a, b, k);
    MergeSlots(s, b, c, k);
    MergeSlots(s, Merge(s, a, b), c, k);
    MergeSlots(s, a, Merge(s, b, c), k);
    if k in s.fields {
      var f := s.fields[k];
      var (x, y, z) := (Slot(a, k), Slot(b, k), Slot(c, k));
      MergeSlotAssociative(f, x, y, z);
      MergeHasOneof(s, b, c);
      MergeSlotPresent(f, x, y);
      MergeSlotPresent(f, y, z);
      if OneofAt(s, k) && k in c.fields && k !in b.fields && HasOneof(s, b) {
        OneofAlone(s, a, c, k);
      }
    }
  }

  /** Merging a oneof member onto nothing is that member; onto the same member, their merge. */
  lemma OneofAlone(s: Schema, a: Msg, c: Msg, k: nat)
    requires WFSchema(s) && WF(s, a) && WF(s, c) && OneofAt(s, k) && k in c.fields
    ensures MergeSlot(s.fields[k], None, Slot(c, k)) == Slot(c, k)
    ensures s.fields[k].kind.Sub? && k in a.fields ==>
              MergeSlot(s.fields[k], Slot(a, k), Slot(c, k)) ==
              Some(SubV(Merge(s.fields[k].kind.schema, MsgOf(Slot(a, k)), MsgOf(Slot(c, k)))))
    ensures !(s.fields[k].kind.Sub? && k in a.fields) ==>
              MergeSlot(s.fields[k], Slot(a, k), Slot(c, k)) == Slot(c, k)
  {
    hide Merge;
    assert WFField(s.fields[k]);
    assert WFValue(s.fields[k], c.fields[k]);
    if s.fields[k].kind.Sub? {
      MergeEmptyLeft(s.fields[k].kind.schema, c.fields[k].m);
      if k in a.fields { assert WFValue(s.fields[k], a.fields[k]); }
    }
  }

  /** Exactly when the grouping of three merges does not matter. */
  lemma {:induction false} AssociativeExactly(s: Schema, a: Msg, b: Msg, c: Msg)
    requires Tame(s) && WFSchema(s) && WF(s, a) && WF(s, b) && WF(s, c)
    ensures Left(s, a, b, c) == Right(s, a, b, c) <==>
            forall k | Conflict(s, a, b, c, k) ::
              Merge(s.fields[k].kind.schema, MsgOf(Slot(a, k)), MsgOf(Slot(c, k))) == MsgOf(Slot(c, k))
  {
    hide Left, Right, WFField, Merge, WFRecord;
    forall k | Conflict(s, a, b, c, k)
      ensures a.fields[k].SubV? && c.fields[k].SubV?
    {
      assert WFValue(s.fields[k], a.fields[k]) && WFValue(s.fields[k], c.fields[k]);
    }
    if Left(s, a, b, c) == Right(s, a, b, c) {
      forall k | Conflict(s, a, b, c, k)
        ensures Merge(s.fields[k].kind.schema, MsgOf(Slot(a, k)), MsgOf(Slot(c, k))) == MsgOf(Slot(c, k))
      {
        SlotsOfGroupings(s, a, b, c, k);
      }
    }
    if forall k | Conflict(s, a, b, c, k) ::
         Merge(s.fields[k].kind.schema, MsgOf(Slot(a, k)), MsgOf(Slot(c, k))) == MsgOf(Slot(c, k)) {
      forall k
        ensures Slot(Left(s, a, b, c), k) == Slot(Right(s, a, b, c), k)
      {
        SlotsOfGroupings(s, a, b, c, k);
      }
      LeftRightUnknown(s, a, b, c);
      SameSlots(Left(s, a, b, c), Right(s, a, b, c));
    }
  }

  lemma LeftRightUnknown(s: Schema, a: Msg, b: Msg, c: Msg)
    ensures Left(s, a, b, c).unknown == Right(s, a, b, c).unknown
  {
    SameUnknown(s, a, b, c);
  }

  /** Only scalars and strings: merging replaces field by field. */
  ghost predicate Flat(s: Schema)
  {
    forall k | k in s.fields :: !s.fields[k].oneof && !s.fields[k].kind.Sub? && !s.fields[k].kind.Rep? &&
      !s.fields[k].kind.Dict?
  }

  /** For a flat class the right operand absorbs the left one exactly when it sets every field the left one sets. */
  lemma FlatAbsorbs(s: Schema, a: Msg, c: Msg)
    requires Flat(s) && WF(s, a) && WF(s, c)
    ensures Merge(s, a, c) == c <==> a.fields.Keys <= c.fields.Keys && a.unknown == []
  {
    hide WFValue, WFRecord;
    assert Merge(s, a, c).unknown == a.unknown + c.unknown;
    if Merge(s, a, c) == c {
      assert |a.unknown| + |c.unknown| == |c.unknown|;
      forall k | k in a.fields
        ensures k in c.fields
      {
        MergeSlots(s, a, c, k);
      }
    }
    if a.fields.Keys <= c.fields.Keys && a.unknown == [] {
      forall k
        ensures Slot(Merge(s, a, c), k) == Slot(c, k)
      {
        MergeSlots(s, a, c, k);
      }
      assert [] + c.unknown == c.unknown;
      SameSlots(Merge(s, a, c), c);
    }
  }
}
