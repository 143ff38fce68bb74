/**
  The size pass, stated without reference to any printing order: field sizes are added up, a map's
  entries in whatever order. Every printer output has exactly this length.
 */
module Sizes {
  import opened Wire
  import opened Message
  import opened RoundTrip
  import opened Canonical

  // ---------------------------------------------------------------- varints

  /** The position of the highest bit that is on, 0 for 0. */
  function Log2Floor(n: nat): nat { if n < 2 then 0 else 1 + Log2Floor(n / 2) }

  /** The size pass never writes: it counts seven-bit groups by the highest bit. That is what the writer emits. */
  function VarintSize(n: nat): (size: nat)
    ensures size == |Varint(n)|
  {
    VarintGroups(n);
    1 + Log2Floor(n) / 7
  }

  lemma {:induction false} VarintGroups(n: nat)
    ensures |Varint(n)| == 1 + Log2Floor(n) / 7
  {
    if n < 128 {
      Halves(n);
    } else {
      VarintGroups(n / 128);
      Shifted(n);
    }
  }

  lemma Eighth(n: nat)
    requires n >= 8
    ensures Log2Floor(n) == 3 + Log2Floor(n / 8)
  {
    assert Log2Floor(n / 2) == 1 + Log2Floor(n / 4);
    assert Log2Floor(n / 4) == 1 + Log2Floor(n / 8);
  }

  lemma Halves(n: nat)
    requires n < 128
    ensures Log2Floor(n) <= 6
  {
    if n >= 8 { Eighth(n); }
    if n >= 64 { Eighth(n / 8); }
  }

  lemma Shifted(n: nat)
    requires n >= 128
    ensures Log2Floor(n) == 7 + Log2Floor(n / 128)
  {
    Eighth(n);
    Eighth(n / 8);
    assert Log2Floor(n / 64) == 1 + Log2Floor(n / 128);
  }

  // ---------------------------------------------------------------- what the size pass adds up

  /** A length-delimited field: tag, prefix and content. */
  function LenSize(k: nat, len: nat): nat { VarintSize(8 * k + 2) + VarintSize(len) + len }

  function EntrySize(k: nat, key: bytes, value: bytes): nat
  {
    LenSize(k, LenSize(1, |key|) + LenSize(2, |value|))
  }

  ghost function EntriesSize(k: nat, t: map<bytes, bytes>): nat
    decreases |t|
  {
    if t == map[] then 0
    else
      var x :| x in t;
      EntrySize(k, x, t[x]) + EntriesSize(k, t - {x})
  }

  ghost function ManySize(k: nat, cs: Schema, ms: seq<Msg>): nat
    decreases cs, 3, |ms|
  {
    if ms == [] then 0 else LenSize(k, ByteSize(cs, ms[0])) + ManySize(k, cs, ms[1..])
  }

  ghost function FieldSize(k: nat, f: Field, v: Value): nat
    decreases f, 4, 0
  {
    match v
    case Num(n) => if f.kind.Double? then VarintSize(8 * k + 1) + 8 else VarintSize(8 * k) + VarintSize(n)
    case Str(b) => LenSize(k, |b|)
    case SubV(c) => if f.kind.Sub? then LenSize(k, ByteSize(f.kind.schema, c)) else 0
    case Many(ms) => if f.kind.Rep? then ManySize(k, f.kind.schema, ms) else 0
    case Table(t) => EntriesSize(k, t)
  }

  ghost function FieldsSize(s: Schema, m: Msg, k: nat): nat
    decreases s, 1, if k <= s.max then s.max - k + 1 else 0
  {
    if k > s.max then 0
    else
      (if k in s.fields && k in m.fields then FieldSize(k, s.fields[k], m.fields[k]) else 0) + FieldsSize(s, m, k + 1)
  }

  /** What ByteSizeLong adds up. */
  ghost function ByteSize(s: Schema, m: Msg): nat
    decreases s, 2, 0
  {
    FieldsSize(s, m, 0) + |EncodeRecords(m.unknown)|
  }

  // ---------------------------------------------------------------- map entries in any order

  lemma LenRecordSize(k: nat, b: bytes)
    ensures |EncodeRecord(Record(k, LenP(b)))| == LenSize(k, |b|)
  {
    hide Varint, VarintSize;
  }

  lemma EntryRecordSize(k: nat, x: bytes, v: bytes)
    ensures |EncodeRecord(Record(k, LenP(EncodeEntry(x, v))))| == EntrySize(k, x, v)
  {
    hide EncodeRecord, VarintSize;
    LenRecordSize(1, x);
    LenRecordSize(2, v);
    LenRecordSize(k, EncodeEntry(x, v));
  }

  lemma RemoveRecord(a: seq<Record>, r: Record, b: seq<Record>)
    ensures |EncodeRecords(a + [r] + b)| == |EncodeRecord(r)| + |EncodeRecords(a + b)|
  {
    hide EncodeRecord, EncodeRecords;
    EncodeRecordsConcat(a + [r], b);
    EncodeRecordsConcat(a, [r]);
    EncodeRecordsConcat(a, b);
    OneRecord(r);
  }

  lemma RecordsWithout(k: nat, keys: seq<bytes>, t: map<bytes, bytes>, i: nat)
    requires Enumerates(keys, t) && i < |keys|
    requires Enumerates(keys[..i] + keys[i + 1..], t - {keys[i]})
    ensures var rs := EntryRecords(k, keys, t);
            rs == rs[..i] + [rs[i]] + rs[i + 1..]
            && rs[..i] + rs[i + 1..] == EntryRecords(k, keys[..i] + keys[i + 1..], t - {keys[i]})
  {
    hide EncodeEntry, EntryRecords;
  }

  /** Taking one key out of an enumeration takes its entry out of the total. */
  lemma WithoutKey(k: nat, keys: seq<bytes>, t: map<bytes, bytes>, i: nat)
    requires Enumerates(keys, t) && i < |keys|
    ensures var rest := keys[..i] + keys[i + 1..];
            Enumerates(rest, t - {keys[i]})
            && |EncodeRecords(EntryRecords(k, keys, t))| ==
               EntrySize(k, keys[i], t[keys[i]]) + |EncodeRecords(EntryRecords(k, rest, t - {keys[i]}))|
  {
    hide EncodeRecord, EncodeRecords, EntrySize, EncodeEntry;
    RemoveKey(keys, t, i);
    var rs := EntryRecords(k, keys, t);
    RecordsWithout(k, keys, t, i);
    RemoveRecord(rs[..i], rs[i], rs[i + 1..]);
    EntryRecordSize(k, keys[i], t[keys[i]]);
  }

  /** Any enumeration of a map prints to the same number of bytes. */
  lemma {:induction false} EntriesInAnyOrder(k: nat, keys: seq<bytes>, t: map<bytes, bytes>)
    requires Enumerates(keys, t)
    ensures |EncodeRecords(EntryRecords(k, keys, t))| == EntriesSize(k, t)
    decreases |t|
  {
    hide EncodeRecord, EntrySize, EncodeEntry;
    if keys == [] {
      assert t == map[];
    } else {
      assert keys[0] in t;
      var x :| x in t && EntriesSize(k, t) == EntrySize(k, x, t[x]) + EntriesSize(k, t - {x});
      assert x in keys;
      var i :| 0 <= i < |keys| && keys[i] == x;
      WithoutKey(k, keys, t, i);
      EntriesInAnyOrder(k, keys[..i] + keys[i + 1..], t - {x});
    }
  }

  lemma RemoveKey(keys: seq<bytes>, t: map<bytes, bytes>, i: nat)
    requires Enumerates(keys, t) && i < |keys|
    ensures Enumerates(keys[..i] + keys[i + 1..], t - {keys[i]})
  {
    var rest := keys[..i] + keys[i + 1..];
    forall y
      ensures y in rest <==> y in t - {keys[i]}
    {
      if y in t - {keys[i]} {
        var j :| 0 <= j < |keys| && keys[j] == y;
        assert rest[if j < i then j else j - 1] == y;
      }
    }
  }

  lemma {:induction false} DistinctCount(keys: seq<bytes>)
    requires forall i, j | 0 <= i < j < |keys| :: keys[i] != keys[j]
    ensures |set x | x in keys| == |keys|
  {
    if keys != [] {
      var n := |keys| - 1;
      DistinctCount(keys[..n]);
      assert (set x | x in keys) == (set x | x in keys[..n]) + {keys[n]};
    }
  }

  /** An enumeration visits as many keys as the map has. */
  lemma EnumerationLength(keys: seq<bytes>, t: map<bytes, bytes>)
    requires Enumerates(keys, t)
    ensures |keys| == |t|
  {
    DistinctCount(keys);
    assert (set x | x in keys) == t.Keys;
  }

  /** One more entry behind those already printed or counted. */
  lemma EntryAppend(k: nat, keys: seq<bytes>, t: map<bytes, bytes>, i: nat)
    requires i < |keys| && forall x | x in keys :: x in t
    ensures EncodeRecords(EntryRecords(k, keys[..i + 1], t)) ==
            EncodeRecords(EntryRecords(k, keys[..i], t)) +
              EncodeRecord(Record(k, LenP(EncodeEntry(keys[i], t[keys[i]]))))
  {
    hide EncodeRecord, EncodeEntry, EncodeRecords;
    var r := Record(k, LenP(EncodeEntry(keys[i], t[keys[i]])));
    assert EntryRecords(k, keys[..i + 1], t) == EntryRecords(k, keys[..i], t) + [r];
    EncodeRecordsConcat(EntryRecords(k, keys[..i], t), [r]);
    OneRecord(r);
  }

  lemma NoEntries(k: nat, keys: seq<bytes>, t: map<bytes, bytes>)
    requires keys == []
    ensures EncodeRecords(EntryRecords(k, keys, t)) == []
  {
  }

  // ---------------------------------------------------------------- the orders there are

  ghost function Listed(keys: set<bytes>): (r: seq<bytes>)
    ensures (forall x :: x in r <==> x in keys) && forall i, j | 0 <= i < j < |r| :: r[i] != r[j]
  {
    if keys == {} then []
    else
      var x :| x in keys;
      [x] + Listed(keys - {x})
  }

  /** Every enumeration of a map is what some order of visiting makes of it: results about all orders are about all. */
  lemma {:induction false} AnyEnumeration(t: map<bytes, bytes>, keys: seq<bytes>) returns (ord: Order)
    requires Enumerates(keys, t)
    ensures ValidOrder(ord) && ord(t) == keys
  {
    ord := (u: map<bytes, bytes>) => if u == t then keys else Listed(u.Keys);
    forall u
      ensures Enumerates(ord(u), u)
    {
    }
  }

  /** Keys listed once each, and no others, are an enumeration: as many as the map has. */
  lemma {:induction false} EnumeratesExactly(keys: seq<bytes>, t: map<bytes, bytes>)
    ensures Enumerates(keys, t) <==> multiset(keys) == multiset(t.Keys)
  {
    if Enumerates(keys, t) {
      EnumeratedOnce(keys);
    }
    if multiset(keys) == multiset(t.Keys) {
      forall x
        ensures x in keys <==> x in t
      {
        assert x in keys <==> x in multiset(keys);
      }
      forall i, j | 0 <= i < j < |keys|
        ensures keys[i] != keys[j]
      {
        if keys[i] == keys[j] { Repeated(keys, i, j); }
      }
    }
  }

  lemma {:induction false} EnumeratedOnce(keys: seq<bytes>)
    requires forall i, j | 0 <= i < j < |keys| :: keys[i] != keys[j]
    ensures multiset(keys) == multiset(set x | x in keys)
  {
    forall x | x in keys
      ensures multiset(keys)[x] == 1
    {
      var i :| 0 <= i < |keys| && keys[i] == x;
      assert keys == keys[..i] + [x] + keys[i + 1..];
      assert x !in keys[..i] && x !in keys[i + 1..];
    }
  }

  lemma Repeated(keys: seq<bytes>, i: nat, j: nat)
    requires i < j < |keys| && keys[i] == keys[j]
    ensures multiset(keys)[keys[i]] >= 2
  {
    assert keys == keys[..i] + [keys[i]] + keys[i + 1..j] + [keys[j]] + keys[j + 1..];
  }

  // ---------------------------------------------------------------- the printers' length

  lemma {:induction false} ManyRecordsSize(ord: Order, k: nat, cs: Schema, ms: seq<Msg>)
    requires ValidOrder(ord)
    ensures |EncodeRecords(ManyRecords(ord, k, cs, ms))| == ManySize(k, cs, ms)
    decreases cs, 3, |ms|
  {
    hide Encode, ByteSize, EncodeRecord;
    if ms != [] {
      EncodedLength(ord, cs, ms[0]);
      ManyRecordsSize(ord, k, cs, ms[1..]);
      LenRecordSize(k, Encode(ord, cs, ms[0]));
      assert ManyRecords(ord, k, cs, ms)[1..] == ManyRecords(ord, k, cs, ms[1..]);
    }
  }

  lemma NothingToSize(k: nat, cs: Schema)
    ensures ManySize(k, cs, []) == 0
  {
  }

  lemma {:induction false} ManySizeAppend(k: nat, cs: Schema, ms: seq<Msg>, x: Msg)
    ensures ManySize(k, cs, ms + [x]) == ManySize(k, cs, ms) + LenSize(k, ByteSize(cs, x))
    decreases |ms|
  {
    hide ByteSize, LenSize;
    if ms == [] {
      assert [x][1..] == [];
    } else {
      assert (ms + [x])[1..] == ms[1..] + [x];
      ManySizeAppend(k, cs, ms[1..], x);
    }
  }

  lemma FieldRecordsSize(ord: Order, k: nat, f: Field, v: Value)
    requires ValidOrder(ord)
    ensures |EncodeRecords(FieldRecords(ord, k, f, v))| == FieldSize(k, f, v)
    decreases f, 4, 0
  {
    hide Encode, ByteSize, Varint, EncodeRecords;
    match v {
      case Num(n) =>
        OneRecord(Record(k, if f.kind.Double? then Fixed64P(n) else VarintP(n)));
      case Str(b) =>
        OneRecord(Record(k, LenP(b)));
      case SubV(c) =>
        if f.kind.Sub? {
          OneRecord(Record(k, LenP(Encode(ord, f.kind.schema, c))));
          EncodedLength(ord, f.kind.schema, c);
        } else {
          assert EncodeRecords([]) == [] by { NoRecords(); }
        }
      case Many(ms) =>
        if f.kind.Rep? { ManyRecordsSize(ord, k, f.kind.schema, ms); } else { NoRecords(); }
      case Table(t) =>
        assert Enumerates(ord(t), t);
        EntriesInAnyOrder(k, ord(t), t);
    }
  }

  lemma NoRecords()
    ensures EncodeRecords([]) == []
  {
  }

  lemma {:induction false} FieldsLength(ord: Order, s: Schema, m: Msg, k: nat)
    requires ValidOrder(ord)
    ensures |EncodeRecords(RecordsFrom(ord, s, m, k))| == FieldsSize(s, m, k)
    decreases s, 1, if k <= s.max then s.max - k + 1 else 0
  {
    hide FieldRecords, FieldSize, EncodeRecords;
    if k <= s.max {
      var head := if k in s.fields && k in m.fields then FieldRecords(ord, k, s.fields[k], m.fields[k]) else [];
      EncodeRecordsConcat(head, RecordsFrom(ord, s, m, k + 1));
      NoRecords();
      if k in s.fields && k in m.fields { FieldRecordsSize(ord, k, s.fields[k], m.fields[k]); }
      FieldsLength(ord, s, m, k + 1);
    } else {
      NoRecords();
    }
  }

  /** Whatever the map order, a printer emits exactly as many bytes as the size pass adds up. */
  lemma {:induction false} EncodedLength(ord: Order, s: Schema, m: Msg)
    requires ValidOrder(ord)
    ensures |Encode(ord, s, m)| == ByteSize(s, m)
    decreases s, 2, 0
  {
    hide RecordsFrom, FieldsSize, EncodeRecords;
    EncodeRecordsConcat(RecordsFrom(ord, s, m, 0), m.unknown);
    FieldsLength(ord, s, m, 0);
  }

  /** Sorted or hash order: same length, same parsed message. */
  lemma {:induction false} MapOrderIrrelevant(ord1: Order, ord2: Order, s: Schema, m: Msg)
    requires ValidOrder(ord1) && ValidOrder(ord2) && WFSchema(s) && WF(s, m)
    requires ByteSize(s, m) <= MAX_SIZE
    ensures |Encode(ord1, s, m)| == |Encode(ord2, s, m)| == ByteSize(s, m)
    ensures Parse(s, EMPTY, Encode(ord1, s, m)) == Parse(s, EMPTY, Encode(ord2, s, m)) == Done(m)
  {
    hide Encode, Parse, ByteSize, WF, WFSchema, ValidOrder;
    EncodedLength(ord1, s, m);
    EncodedLength(ord2, s, m);
    RoundTrips(ord1, s, m);
    RoundTrips(ord2, s, m);
  }
}
