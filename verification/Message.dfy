/**
  What a generated message class does with a byte string, for every schema at once.
  A schema lists the fields a class switches on; a message maps each field number that
  would be printed to its value, so an implicit-presence field holding its default is absent.
  Numbers are kept as the 64-bit pattern that travels (negative int32 values sign-extended).
 */
module Message {
  import opened Options
  import opened Wire
  import opened Utf8

  datatype Kind =
    | U32 | U64 | I32 | I64 | Bool | Enum | Double
    | Text | Blob
    | Sub(schema: Schema) | Rep(schema: Schema)
    | Dict

  /** `explicit`: has a has-bit or is a oneof alternative; `oneof`: member of the message's oneof. */
  datatype Field = Field(kind: Kind, explicit: bool, oneof: bool)

  datatype Schema = Schema(fields: map<nat, Field>, max: nat)

  datatype Value =
    | Num(n: nat)
    | Str(b: bytes)
    | SubV(m: Msg)
    | Many(ms: seq<Msg>)
    | Table(t: map<bytes, bytes>)

  datatype Msg = Msg(fields: map<nat, Value>, unknown: seq<Record>)

  const EMPTY := Msg(map[], [])

  // ---------------------------------------------------------------- slots

  function Slot(m: Msg, k: nat): Option<Value>
  {
    if k in m.fields then Some(m.fields[k]) else None
  }

  function MsgOf(o: Option<Value>): Msg { if o.Some? && o.value.SubV? then o.value.m else EMPTY }
  function ManyOf(o: Option<Value>): seq<Msg> { if o.Some? && o.value.Many? then o.value.ms else [] }
  function TableOf(o: Option<Value>): map<bytes, bytes> { if o.Some? && o.value.Table? then o.value.t else map[] }

  predicate OneofAt(s: Schema, k: nat) { k in s.fields && s.fields[k].oneof }

  predicate HasOneof(s: Schema, m: Msg) { exists k | k in m.fields :: OneofAt(s, k) }

  /** Stores `v` at `k`; storing a oneof member clears the other members. */
  function PutSlot(s: Schema, m: Msg, k: nat, v: Option<Value>): (r: Msg)
    ensures r.unknown == m.unknown
    ensures forall j :: Slot(r, j) ==
                        if j == k then v
                        else if OneofAt(s, k) && OneofAt(s, j) then None
                        else Slot(m, j)
  {
    var rest := map j | j in m.fields && j != k && !(OneofAt(s, k) && OneofAt(s, j)) :: m.fields[j];
    Msg(if v.Some? then rest[k := v.value] else rest, m.unknown)
  }

  /** Messages are determined by their slots and their unknown records. */
  lemma {:induction false} SameSlots(a: Msg, b: Msg)
    requires a.unknown == b.unknown
    requires forall k :: Slot(a, k) == Slot(b, k)
    ensures a == b
  {
    forall k
      ensures k in a.fields <==> k in b.fields
      ensures k in a.fields ==> a.fields[k] == b.fields[k]
    {
      assert Slot(a, k) == Slot(b, k);
    }
    assert a.fields == b.fields;
  }

  // ---------------------------------------------------------------- scalars

  /** The 64-bit pattern of a 32-bit two's complement value. */
  function SignExtend(v: nat): nat
  {
    var w := v % TWO32;
    if w < 0x8000_0000 then w else w + TWO64 - TWO32
  }

  /** What a field of numeric kind holds after a varint or fixed64 of value `v` was assigned to it. */
  function Norm(kind: Kind, v: nat): nat
  {
    match kind
    case U32 => v % TWO32
    case I32 => SignExtend(v)
    case Enum => SignExtend(v)
    case Bool => if v == 0 then 0 else 1
    case _ => v
  }

  function WireOf(kind: Kind): nat
  {
    match kind
    case Double => 1
    case Text => 2
    case Blob => 2
    case Sub(_) => 2
    case Rep(_) => 2
    case Dict => 2
    case _ => 0
  }

  predicate Numeric(kind: Kind)
  {
    WireOf(kind) != 2
  }

  function NumSlot(f: Field, n: nat): Option<Value>
  {
    if n == 0 && !f.explicit then None else Some(Num(n))
  }

  function StrSlot(f: Field, b: bytes): Option<Value>
  {
    if b == [] && !f.explicit then None else Some(Str(b))
  }

  function PayloadNum(p: Payload): nat
  {
    match p
    case VarintP(v) => v
    case Fixed64P(v) => v
    case Fixed32P(v) => v
    case LenP(_) => 0
  }

  function PayloadBytes(p: Payload): bytes { if p.LenP? then p.b else [] }

  // ---------------------------------------------------------------- parsing

  /** A switch case takes a record only when both its number and its wire type match. */
  predicate Known(s: Schema, r: Record)
  {
    r.num in s.fields && WireType(r.payload) == WireOf(s.fields[r.num].kind)
  }

  datatype Entry = BadEntry | Entry(key: bytes, value: bytes)

  /** One map entry: fields 1 and 2, last one wins, anything else inside the entry is skipped. */
  function ParseEntry(key: bytes, value: bytes, b: bytes): Entry
    decreases |b|
  {
    if b == [] then Entry(key, value)
    else
      match ReadRecord(b)
      case Malformed => BadEntry
      case Halt(_) => BadEntry
      case Item(r, n) =>
        if r.num == 1 && r.payload.LenP? then
          if ValidUtf8(r.payload.b) then ParseEntry(r.payload.b, value, b[n..]) else BadEntry
        else if r.num == 2 && r.payload.LenP? then
          if ValidUtf8(r.payload.b) then ParseEntry(key, r.payload.b, b[n..]) else BadEntry
        else ParseEntry(key, value, b[n..])
  }

  /** The new content of a field after one of its records, or None when the record is rejected. */
  function Update(f: Field, p: Payload, old_: Option<Value>): Option<Option<Value>>
    decreases f, 2, 0
  {
    match f.kind
    case Text => if ValidUtf8(PayloadBytes(p)) then Some(StrSlot(f, PayloadBytes(p))) else None
    case Blob => Some(StrSlot(f, PayloadBytes(p)))
    case Sub(cs) =>
      (match Parse(cs, MsgOf(old_), PayloadBytes(p))
       case Done(c) => Some(Some(SubV(c)))
       case _ => None)
    case Rep(cs) =>
      (match Parse(cs, EMPTY, PayloadBytes(p))
       case Done(c) => Some(Some(Many(ManyOf(old_) + [c])))
       case _ => None)
    case Dict =>
      (match ParseEntry([], [], PayloadBytes(p))
       case Entry(k, v) => Some(Some(Table(TableOf(old_)[k := v])))
       case BadEntry => None)
    case _ => Some(NumSlot(f, Norm(f.kind, PayloadNum(p))))
  }

  function Apply(s: Schema, m: Msg, r: Record): Option<Msg>
    decreases s, 0, 0
  {
    if !Known(s, r) then Some(m.(unknown := m.unknown + [r]))
    else
      match Update(s.fields[r.num], r.payload, Slot(m, r.num))
      case None => None
      case Some(v) => Some(PutSlot(s, m, r.num, v))
  }

  /** Done: the input ended at its limit. Stopped: a zero or end-group tag ended the loop early. */
  datatype Outcome = Done(m: Msg) | Stopped(m: Msg, tag: nat) | Failed

  function Parse(s: Schema, m: Msg, b: bytes): Outcome
    decreases s, 1, |b|
  {
    if b == [] then Done(m)
    else
      match ReadRecord(b)
      case Malformed => Failed
      case Halt(tag) => Stopped(m, tag)
      case Item(r, n) =>
        match Apply(s, m, r)
        case None => Failed
        case Some(m') => Parse(s, m', b[n..])
  }

  /** Applying records one after the other. */
  function Fold(s: Schema, m: Msg, rs: seq<Record>): Option<Msg>
    decreases |rs|
  {
    if rs == [] then Some(m)
    else
      match Apply(s, m, rs[0])
      case None => None
      case Some(m') => Fold(s, m', rs[1..])
  }

  // ---------------------------------------------------------------- merging

  function MergeSlot(f: Field, a: Option<Value>, b: Option<Value>): Option<Value>
    decreases f, 2
  {
    if b.None? then a
    else
      match f.kind
      case Sub(cs) => Some(SubV(Merge(cs, MsgOf(a), MsgOf(b))))
      case Rep(_) => Some(Many(ManyOf(a) + ManyOf(b)))
      case Dict => Some(Table(TableOf(a) + TableOf(b)))
      case _ => b
  }

  function MergedSlot(s: Schema, a: Msg, b: Msg, k: nat): Option<Value>
    decreases s, 0
  {
    if k !in s.fields then (if k in b.fields then Slot(b, k) else Slot(a, k))
    else if OneofAt(s, k) && k !in b.fields && HasOneof(s, b) then None
    else MergeSlot(s.fields[k], Slot(a, k), Slot(b, k))
  }

  function Merge(s: Schema, a: Msg, b: Msg): Msg
    decreases s, 1
  {
    Msg(map k | k in a.fields.Keys + b.fields.Keys && MergedSlot(s, a, b, k).Some? :: MergedSlot(s, a, b, k).value,
        a.unknown + b.unknown)
  }

  lemma MergeSlots(s: Schema, a: Msg, b: Msg, k: nat)
    ensures Slot(Merge(s, a, b), k) == MergedSlot(s, a, b, k)
  {
  }

  // ---------------------------------------------------------------- printing

  /** The order in which a hash map's keys are visited: sorted or arbitrary, each key once. */
  type Order = map<bytes, bytes> -> seq<bytes>

  ghost predicate Enumerates(keys: seq<bytes>, t: map<bytes, bytes>)
  {
    && (forall k :: k in keys <==> k in t)
    && (forall i, j | 0 <= i < j < |keys| :: keys[i] != keys[j])
  }

  ghost predicate ValidOrder(ord: Order)
  {
    forall t :: Enumerates(ord(t), t)
  }

  function EncodeEntry(key: bytes, value: bytes): bytes
  {
    EncodeRecord(Record(1, LenP(key))) + EncodeRecord(Record(2, LenP(value)))
  }

  function EntryRecords(k: nat, keys: seq<bytes>, t: map<bytes, bytes>): (rs: seq<Record>)
    requires forall x | x in keys :: x in t
    ensures |rs| == |keys|
    ensures forall i | 0 <= i < |keys| :: rs[i] == Record(k, LenP(EncodeEntry(keys[i], t[keys[i]])))
  {
    seq(|keys|, i requires 0 <= i < |keys| => Record(k, LenP(EncodeEntry(keys[i], t[keys[i]]))))
  }

  function ManyRecords(ord: Order, k: nat, cs: Schema, ms: seq<Msg>): (rs: seq<Record>)
    ensures |rs| == |ms|
    decreases cs, 2, |ms|
  {
    if ms == [] then []
    else [Record(k, LenP(Encode(ord, cs, ms[0])))] + ManyRecords(ord, k, cs, ms[1..])
  }

  /** The records a present field is printed as. */
  function FieldRecords(ord: Order, k: nat, f: Field, v: Value): seq<Record>
    decreases f, 3, 0
  {
    match v
    case Num(n) => [Record(k, if f.kind.Double? then Fixed64P(n) else VarintP(n))]
    case Str(b) => [Record(k, LenP(b))]
    case SubV(c) => if f.kind.Sub? then [Record(k, LenP(Encode(ord, f.kind.schema, c)))] else []
    case Many(ms) => if f.kind.Rep? then ManyRecords(ord, k, f.kind.schema, ms) else []
    case Table(t) => EntryRecords(k, KeysIn(ord(t), t), t)
  }

  function KeysIn(keys: seq<bytes>, t: map<bytes, bytes>): (r: seq<bytes>)
    ensures forall x | x in r :: x in t
    ensures (forall x | x in keys :: x in t) ==> r == keys
  {
    if forall x | x in keys :: x in t then keys else []
  }

  /** Fields `k`, `k + 1`, ... in ascending order, as the printers emit them. */
  function RecordsFrom(ord: Order, s: Schema, m: Msg, k: nat): seq<Record>
    decreases s, 0, if k <= s.max then s.max - k + 1 else 0
  {
    if k > s.max then []
    else (if k in s.fields && k in m.fields then FieldRecords(ord, k, s.fields[k], m.fields[k]) else [])
         + RecordsFrom(ord, s, m, k + 1)
  }

  function Records(ord: Order, s: Schema, m: Msg): seq<Record>
    decreases s, 1, 0
  {
    RecordsFrom(ord, s, m, 0) + m.unknown
  }

  function Encode(ord: Order, s: Schema, m: Msg): bytes
    decreases s, 1, 1
  {
    EncodeRecords(Records(ord, s, m))
  }

  // ---------------------------------------------------------------- well-formedness

  /** What protoc guarantees of a class: field numbers in range; oneof members have presence. */
  ghost predicate WFSchema(s: Schema)
  {
    && s.max < 0x2000_0000
    && forall k | k in s.fields :: 1 <= k <= s.max && WFField(s.fields[k])
  }

  ghost predicate WFField(f: Field)
  {
    && (f.oneof ==> f.explicit && !f.kind.Rep? && !f.kind.Dict?)
    && match f.kind
       case Sub(cs) => WFSchema(cs)
       case Rep(cs) => WFSchema(cs)
       case _ => true
  }

  /** The values a message object can hold. */
  ghost predicate WF(s: Schema, m: Msg)
    decreases s, 1
  {
    && (forall k | k in m.fields :: k in s.fields && WFValue(s.fields[k], m.fields[k]))
    && (forall i, j | i in m.fields && j in m.fields && OneofAt(s, i) && OneofAt(s, j) :: i == j)
    && (forall r | r in m.unknown :: WFRecord(r) && !Known(s, r))
  }

  ghost predicate WFValue(f: Field, v: Value)
    decreases f, 0
  {
    match f.kind
    case Text => v.Str? && ValidUtf8(v.b) && (f.explicit || v.b != [])
    case Blob => v.Str? && (f.explicit || v.b != [])
    case Sub(cs) => v.SubV? && WF(cs, v.m)
    case Rep(cs) => v.Many? && v.ms != [] && forall x | x in v.ms :: WF(cs, x)
    case Dict => v.Table? && v.t != map[] && forall k | k in v.t :: ValidUtf8(k) && ValidUtf8(v.t[k])
    case _ => v.Num? && v.n < TWO64 && Norm(f.kind, v.n) == v.n && (f.explicit || v.n != 0)
  }
}
