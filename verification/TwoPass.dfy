/**
  The two-pass protocol for every class at once: ByteSizeLong leaves in each nested object the size it
  computed, and the printer writes those cached sizes as length prefixes without looking again.
 */
module TwoPass {
  import opened Wire
  import opened Message
  import opened RoundTrip
  import opened Canonical
  import opened Sizes

  /** The `_cached_size_` of an object, and the caches of its nested objects by field and position. */
  datatype Cache = Cache(size: nat, kids: map<nat, seq<Cache>>)

  /** A nested object the size pass has not visited yet. */
  const FRESH := Cache(0, map[])

  function Kid(c: Cache, k: nat, i: nat): Cache
  {
    if k in c.kids && i < |c.kids[k]| then c.kids[k][i] else FRESH
  }

  // ---------------------------------------------------------------- the size pass

  ghost function SizedAll(cs: Schema, ms: seq<Msg>): (r: seq<Cache>)
    ensures |r| == |ms|
    decreases cs, 3, |ms|
  {
    if ms == [] then [] else [Sized(cs, ms[0])] + SizedAll(cs, ms[1..])
  }

  ghost function SizedField(f: Field, v: Value): seq<Cache>
    decreases f, 4
  {
    match v
    case SubV(c) => if f.kind.Sub? then [Sized(f.kind.schema, c)] else []
    case Many(ms) => if f.kind.Rep? then SizedAll(f.kind.schema, ms) else []
    case _ => []
  }

  /** What the size pass leaves behind. */
  ghost function Sized(s: Schema, m: Msg): Cache
    decreases s, 2
  {
    Cache(ByteSize(s, m), map k | k in m.fields && k in s.fields :: SizedField(s.fields[k], m.fields[k]))
  }

  // ---------------------------------------------------------------- the print pass

  /** Tag and length prefix of a nested message; the prefix is the size the size pass cached. */
  function WriteHeader(k: nat, cached: nat): bytes { Varint(8 * k + 2) + Varint(cached) }

  function PrintNested(ord: Order, k: nat, cs: Schema, m: Msg, c: Cache): bytes
    decreases cs, 2
  {
    WriteHeader(k, c.size) + Print(ord, cs, m, c)
  }

  /** Elements `i`, `i + 1`, ... of a repeated field of `c`. */
  function PrintElements(ord: Order, k: nat, cs: Schema, ms: seq<Msg>, c: Cache, i: nat): bytes
    decreases cs, 3, |ms|
  {
    if ms == [] then [] else PrintNested(ord, k, cs, ms[0], Kid(c, k, i)) + PrintElements(ord, k, cs, ms[1..], c, i + 1)
  }

  function PrintField(ord: Order, k: nat, f: Field, v: Value, c: Cache): bytes
    decreases f, 4
  {
    match v
    case SubV(m) => if f.kind.Sub? then PrintNested(ord, k, f.kind.schema, m, Kid(c, k, 0)) else []
    case Many(ms) => if f.kind.Rep? then PrintElements(ord, k, f.kind.schema, ms, c, 0) else []
    case _ => EncodeRecords(FieldRecords(ord, k, f, v))
  }

  function PrintAt(ord: Order, s: Schema, m: Msg, c: Cache, k: nat): bytes
    decreases s, 0, 0
  {
    if k in s.fields && k in m.fields then PrintField(ord, k, s.fields[k], m.fields[k], c) else []
  }

  function PrintFrom(ord: Order, s: Schema, m: Msg, c: Cache, k: nat): bytes
    decreases s, 0, if k <= s.max then s.max - k + 1 else 0
  {
    if k > s.max then [] else PrintAt(ord, s, m, c, k) + PrintFrom(ord, s, m, c, k + 1)
  }

  /** What the printer emits from `m` when its nested objects carry the cached sizes in `c`. */
  function Print(ord: Order, s: Schema, m: Msg, c: Cache): bytes
    decreases s, 1
  {
    PrintFrom(ord, s, m, c, 0) + EncodeRecords(m.unknown)
  }

  lemma PrintSubField(ord: Order, k: nat, f: Field, sub: Msg, c: Cache)
    requires f.kind.Sub?
    ensures PrintField(ord, k, f, SubV(sub), c) == PrintNested(ord, k, f.kind.schema, sub, Kid(c, k, 0))
  {
    hide PrintNested, Kid;
  }

  lemma PrintNestedParts(ord: Order, k: nat, cs: Schema, m: Msg, c: Cache)
    ensures PrintNested(ord, k, cs, m, c) == WriteHeader(k, c.size) + Print(ord, cs, m, c)
  {
    hide Print, WriteHeader;
  }

  // ---------------------------------------------------------------- right caches

  /** The cached size of `m` and of everything below it is its encoded length. */
  ghost predicate Sound(cs: Schema, m: Msg, c: Cache)
    decreases cs, 2
  {
    c.size == ByteSize(cs, m) && Exact(cs, m, c)
  }

  ghost predicate ExactField(k: nat, f: Field, v: Value, c: Cache)
    decreases f, 4
  {
    match v
    case SubV(m) => f.kind.Sub? ==> Sound(f.kind.schema, m, Kid(c, k, 0))
    case Many(ms) => f.kind.Rep? ==> forall i | 0 <= i < |ms| :: Sound(f.kind.schema, ms[i], Kid(c, k, i))
    case _ => true
  }

  /** Every nested object, at every depth, carries its true encoded length. */
  ghost predicate Exact(s: Schema, m: Msg, c: Cache)
    decreases s, 1
  {
    forall k | k in s.fields && k in m.fields :: ExactField(k, s.fields[k], m.fields[k], c)
  }

  lemma {:induction false} SizedElements(cs: Schema, ms: seq<Msg>, i: nat)
    requires i < |ms|
    ensures SizedAll(cs, ms)[i] == Sized(cs, ms[i])
    decreases |ms|
  {
    hide Sized;
    if i > 0 { SizedElements(cs, ms[1..], i - 1); }
  }

  /** The size pass makes every cache exact. */
  lemma {:induction false} SizePassExact(s: Schema, m: Msg)
    ensures Sound(s, m, Sized(s, m))
    decreases s
  {
    hide ByteSize, SizedAll;
    var c := Sized(s, m);
    forall k | k in s.fields && k in m.fields
      ensures ExactField(k, s.fields[k], m.fields[k], c)
    {
      var f, v := s.fields[k], m.fields[k];
      assert c.kids[k] == SizedField(f, v);
      if v.SubV? && f.kind.Sub? {
        SizePassExact(f.kind.schema, v.m);
      } else if v.Many? && f.kind.Rep? {
        forall i | 0 <= i < |v.ms|
          ensures Sound(f.kind.schema, v.ms[i], Kid(c, k, i))
        {
          SizePassExact(f.kind.schema, v.ms[i]);
          SizedElements(f.kind.schema, v.ms, i);
        }
      }
    }
  }

  /** Whatever an object's own cached size, with a size pass behind what is below it the caches are exact. */
  lemma SizedKids(s: Schema, m: Msg, c: Cache)
    requires c.kids == Sized(s, m).kids
    ensures Exact(s, m, c)
  {
    hide Sized, Sound;
    SizePassExact(s, m);
    assert Exact(s, m, Sized(s, m)) by { SoundExact(s, m, Sized(s, m)); }
    forall k: nat, i: nat
      ensures Kid(c, k, i) == Kid(Sized(s, m), k, i)
    {
    }
  }

  lemma SoundExact(s: Schema, m: Msg, c: Cache)
    requires Sound(s, m, c)
    ensures Exact(s, m, c)
  {
  }

  // ---------------------------------------------------------------- exact caches print the encoding

  function FieldBytes(ord: Order, s: Schema, m: Msg, k: nat): bytes
  {
    if k in s.fields && k in m.fields then EncodeRecords(FieldRecords(ord, k, s.fields[k], m.fields[k])) else []
  }

  lemma FieldBytesFirst(ord: Order, s: Schema, m: Msg, k: nat)
    requires k <= s.max
    ensures EncodeRecords(RecordsFrom(ord, s, m, k)) ==
            FieldBytes(ord, s, m, k) + EncodeRecords(RecordsFrom(ord, s, m, k + 1))
  {
    hide FieldRecords, EncodeRecord;
    var head := if k in s.fields && k in m.fields then FieldRecords(ord, k, s.fields[k], m.fields[k]) else [];
    EncodeRecordsConcat(head, RecordsFrom(ord, s, m, k + 1));
  }

  lemma NestedRecord(ord: Order, k: nat, cs: Schema, m: Msg)
    requires ValidOrder(ord)
    ensures EncodeRecord(Record(k, LenP(Encode(ord, cs, m)))) == WriteHeader(k, ByteSize(cs, m)) + Encode(ord, cs, m)
  {
    hide Varint, Encode, ByteSize;
    EncodedLength(ord, cs, m);
    Wire.Associative(Varint(8 * k + 2), Varint(ByteSize(cs, m)), Encode(ord, cs, m));
  }

  lemma ElementRecords(ord: Order, k: nat, cs: Schema, ms: seq<Msg>)
    requires ValidOrder(ord) && ms != []
    ensures EncodeRecords(ManyRecords(ord, k, cs, ms)) ==
            WriteHeader(k, ByteSize(cs, ms[0])) + Encode(ord, cs, ms[0]) +
              EncodeRecords(ManyRecords(ord, k, cs, ms[1..]))
  {
    hide WriteHeader, Encode, ByteSize, EncodeRecord, EncodeRecords;
    NestedRecord(ord, k, cs, ms[0]);
    var r := Record(k, LenP(Encode(ord, cs, ms[0])));
    EncodeRecordsConcat([r], ManyRecords(ord, k, cs, ms[1..]));
    OneRecord(r);
  }

  lemma NestedExact(ord: Order, k: nat, cs: Schema, m: Msg, c: Cache)
    requires ValidOrder(ord) && Sound(cs, m, c)
    ensures PrintNested(ord, k, cs, m, c) == WriteHeader(k, ByteSize(cs, m)) + Encode(ord, cs, m)
    decreases cs, 2
  {
    hide WriteHeader, Encode, ByteSize, Print, Exact;
    PrintExact(ord, cs, m, c);
  }

  lemma {:induction false} ElementsExact(ord: Order, k: nat, cs: Schema, ms: seq<Msg>, c: Cache, i: nat)
    requires ValidOrder(ord) && forall j | 0 <= j < |ms| :: Sound(cs, ms[j], Kid(c, k, i + j))
    ensures PrintElements(ord, k, cs, ms, c, i) == EncodeRecords(ManyRecords(ord, k, cs, ms))
    decreases cs, 3, |ms|
  {
    hide WriteHeader, Encode, ByteSize, PrintNested, Sound, EncodeRecord, Kid;
    if ms != [] {
      assert Sound(cs, ms[0], Kid(c, k, i + 0));
      NestedExact(ord, k, cs, ms[0], Kid(c, k, i));
      forall j | 0 <= j < |ms[1..]|
        ensures Sound(cs, ms[1..][j], Kid(c, k, i + 1 + j))
      {
        assert Sound(cs, ms[j + 1], Kid(c, k, i + (j + 1)));
      }
      ElementsExact(ord, k, cs, ms[1..], c, i + 1);
      ElementRecords(ord, k, cs, ms);
    }
  }

  lemma FieldExact(ord: Order, k: nat, f: Field, v: Value, c: Cache)
    requires ValidOrder(ord) && ExactField(k, f, v, c)
    ensures PrintField(ord, k, f, v, c) == EncodeRecords(FieldRecords(ord, k, f, v))
    decreases f, 4
  {
    hide WriteHeader, Encode, ByteSize, PrintNested, PrintElements, Sound, EncodeRecord, Kid;
    if v.SubV? && f.kind.Sub? {
      NestedExact(ord, k, f.kind.schema, v.m, Kid(c, k, 0));
      NestedRecord(ord, k, f.kind.schema, v.m);
      OneRecord(Record(k, LenP(Encode(ord, f.kind.schema, v.m))));
    } else if v.Many? && f.kind.Rep? {
      forall j | 0 <= j < |v.ms|
        ensures Sound(f.kind.schema, v.ms[j], Kid(c, k, 0 + j))
      {
      }
      ElementsExact(ord, k, f.kind.schema, v.ms, c, 0);
    }
  }

  lemma {:induction false} PrintFromExact(ord: Order, s: Schema, m: Msg, c: Cache, k: nat)
    requires ValidOrder(ord) && Exact(s, m, c)
    ensures PrintFrom(ord, s, m, c, k) == EncodeRecords(RecordsFrom(ord, s, m, k))
    decreases s, 0, if k <= s.max then s.max - k + 1 else 0
  {
    hide PrintField, EncodeRecord, ExactField, FieldRecords;
    if k <= s.max {
      FieldBytesFirst(ord, s, m, k);
      PrintFromExact(ord, s, m, c, k + 1);
      if k in s.fields && k in m.fields { FieldExact(ord, k, s.fields[k], m.fields[k], c); }
    }
  }

  /** With right caches the printer emits the encoding, correct prefixes at every depth. */
  lemma PrintExact(ord: Order, s: Schema, m: Msg, c: Cache)
    requires ValidOrder(ord) && Exact(s, m, c)
    ensures Print(ord, s, m, c) == Encode(ord, s, m)
    decreases s, 1
  {
    hide PrintFrom, RecordsFrom, Exact;
    PrintFromExact(ord, s, m, c, 0);
    EncodeRecordsConcat(RecordsFrom(ord, s, m, 0), m.unknown);
  }

  /** No class nests in this one. */
  predicate Leaf(s: Schema)
  {
    forall k | k in s.fields :: !s.fields[k].kind.Sub? && !s.fields[k].kind.Rep?
  }

  lemma LeafAt(ord: Order, s: Schema, m: Msg, c: Cache, k: nat)
    requires Leaf(s)
    ensures PrintAt(ord, s, m, c, k) == FieldBytes(ord, s, m, k)
  {
    hide EncodeRecord;
    if k in s.fields && k in m.fields { assert !s.fields[k].kind.Sub? && !s.fields[k].kind.Rep?; }
  }

  lemma {:induction false} LeafFrom(ord: Order, s: Schema, m: Msg, c: Cache, k: nat)
    requires Leaf(s)
    ensures PrintFrom(ord, s, m, c, k) == EncodeRecords(RecordsFrom(ord, s, m, k))
    decreases if k <= s.max then s.max - k + 1 else 0
  {
    hide EncodeRecord, PrintAt, FieldBytes, Leaf;
    if k <= s.max {
      FieldBytesFirst(ord, s, m, k);
      LeafAt(ord, s, m, c, k);
      LeafFrom(ord, s, m, c, k + 1);
    }
  }

  /** A class without nested classes prints the encoding whatever was cached. */
  lemma {:induction false} LeafPrint(ord: Order, s: Schema, m: Msg, c: Cache)
    requires Leaf(s)
    ensures Print(ord, s, m, c) == Encode(ord, s, m) && Exact(s, m, c)
  {
    hide PrintFrom, RecordsFrom;
    LeafFrom(ord, s, m, c, 0);
    EncodeRecordsConcat(RecordsFrom(ord, s, m, 0), m.unknown);
  }

  /** Below a leaf there is nothing to cache. */
  lemma LeafExact(s: Schema, m: Msg, c: Cache)
    requires Leaf(s)
    ensures Exact(s, m, c)
  {
  }

  // ---------------------------------------------------------------- wrong caches do not

  lemma Cancel(p: bytes, a: bytes, b: bytes)
    requires p + a == p + b
    ensures a == b
  {
    assert a == (p + a)[|p|..] && b == (p + b)[|p|..];
  }

  lemma VarintCancel(x: nat, a: bytes, y: nat, b: bytes)
    requires Varint(x) + a == Varint(y) + b
    ensures x == y && a == b
  {
    hide Varint, ReadVarint;
    var limit := if |Varint(x)| < |Varint(y)| then |Varint(y)| else |Varint(x)|;
    VarintRoundTrip(x, a, limit);
    VarintRoundTrip(y, b, limit);
    Cancel(Varint(x), a, b);
  }

  lemma NestedCancel(ord: Order, k: nat, cs: Schema, m: Msg, c: Cache, x: bytes, y: bytes)
    requires ValidOrder(ord) && WFSchema(cs)
    requires PrintNested(ord, k, cs, m, c) + x == WriteHeader(k, ByteSize(cs, m)) + Encode(ord, cs, m) + y
    ensures Sound(cs, m, c) && x == y
    decreases cs, 3
  {
    hide Varint, Encode, ByteSize, Print, Exact, WFSchema;
    var tag, n := Varint(8 * k + 2), ByteSize(cs, m);
    assert PrintNested(ord, k, cs, m, c) + x == tag + (Varint(c.size) + (Print(ord, cs, m, c) + x));
    assert WriteHeader(k, n) + Encode(ord, cs, m) + y == tag + (Varint(n) + (Encode(ord, cs, m) + y));
    Cancel(tag, Varint(c.size) + (Print(ord, cs, m, c) + x), Varint(n) + (Encode(ord, cs, m) + y));
    VarintCancel(c.size, Print(ord, cs, m, c) + x, n, Encode(ord, cs, m) + y);
    PrintCancel(ord, cs, m, c, x, y);
  }

  lemma {:induction false} ElementsCancel(ord: Order, k: nat, cs: Schema, ms: seq<Msg>, c: Cache, i: nat, x: bytes,
    y: bytes)
    requires ValidOrder(ord) && WFSchema(cs)
    requires PrintElements(ord, k, cs, ms, c, i) + x == EncodeRecords(ManyRecords(ord, k, cs, ms)) + y
    ensures x == y && forall j | 0 <= j < |ms| :: Sound(cs, ms[j], Kid(c, k, i + j))
    decreases cs, 4, |ms|
  {
    hide WriteHeader, Encode, ByteSize, PrintNested, Sound, EncodeRecord, Kid, WFSchema;
    if ms == [] {
      assert [] + x == x && [] + y == y;
    } else {
      var head := PrintNested(ord, k, cs, ms[0], Kid(c, k, i));
      var rest := PrintElements(ord, k, cs, ms[1..], c, i + 1);
      var want := WriteHeader(k, ByteSize(cs, ms[0])) + Encode(ord, cs, ms[0]);
      var more := EncodeRecords(ManyRecords(ord, k, cs, ms[1..]));
      ElementRecords(ord, k, cs, ms);
      assert head + rest + x == head + (rest + x) && want + more + y == want + (more + y);
      NestedCancel(ord, k, cs, ms[0], Kid(c, k, i), rest + x, more + y);
      ElementsCancel(ord, k, cs, ms[1..], c, i + 1, x, y);
      forall j | 0 <= j < |ms|
        ensures Sound(cs, ms[j], Kid(c, k, i + j))
      {
        if j > 0 { assert Sound(cs, ms[1..][j - 1], Kid(c, k, i + 1 + (j - 1))); }
      }
    }
  }

  lemma FieldCancel(ord: Order, k: nat, f: Field, v: Value, c: Cache, x: bytes, y: bytes)
    requires ValidOrder(ord) && WFField(f)
    requires PrintField(ord, k, f, v, c) + x == EncodeRecords(FieldRecords(ord, k, f, v)) + y
    ensures ExactField(k, f, v, c) && x == y
    decreases f, 4
  {
    hide WriteHeader, Encode, ByteSize, PrintNested, PrintElements, Sound, EncodeRecord, Kid, WFSchema;
    if v.SubV? && f.kind.Sub? {
      NestedRecord(ord, k, f.kind.schema, v.m);
      OneRecord(Record(k, LenP(Encode(ord, f.kind.schema, v.m))));
      NestedCancel(ord, k, f.kind.schema, v.m, Kid(c, k, 0), x, y);
    } else if v.Many? && f.kind.Rep? {
      ElementsCancel(ord, k, f.kind.schema, v.ms, c, 0, x, y);
      forall j | 0 <= j < |v.ms|
        ensures Sound(f.kind.schema, v.ms[j], Kid(c, k, j))
      {
        assert Sound(f.kind.schema, v.ms[j], Kid(c, k, 0 + j));
      }
    } else {
      Cancel(PrintField(ord, k, f, v, c), x, y);
    }
  }

  lemma AtCancel(ord: Order, s: Schema, m: Msg, c: Cache, k: nat, x: bytes, y: bytes)
    requires ValidOrder(ord) && WFSchema(s)
    requires PrintAt(ord, s, m, c, k) + x == FieldBytes(ord, s, m, k) + y
    ensures x == y && (k in s.fields && k in m.fields ==> ExactField(k, s.fields[k], m.fields[k], c))
    decreases s, 0, 0
  {
    hide PrintField, EncodeRecords, ExactField, FieldRecords, WFField;
    if k in s.fields && k in m.fields {
      FieldCancel(ord, k, s.fields[k], m.fields[k], c, x, y);
    } else {
      assert [] + x == x && [] + y == y;
    }
  }

  lemma {:induction false} FromCancel(ord: Order, s: Schema, m: Msg, c: Cache, k: nat, x: bytes, y: bytes)
    requires ValidOrder(ord) && WFSchema(s)
    requires PrintFrom(ord, s, m, c, k) + x == EncodeRecords(RecordsFrom(ord, s, m, k)) + y
    ensures x == y && forall j | j in s.fields && j in m.fields && k <= j <= s.max ::
            ExactField(j, s.fields[j], m.fields[j], c)
    decreases s, 1, if k <= s.max then s.max - k + 1 else 0
  {
    hide PrintAt, FieldBytes, EncodeRecord, ExactField, FieldRecords, WFSchema;
    if k > s.max {
      assert [] + x == x && [] + y == y;
    } else {
      var head, rest := PrintAt(ord, s, m, c, k), PrintFrom(ord, s, m, c, k + 1);
      var want, more := FieldBytes(ord, s, m, k), EncodeRecords(RecordsFrom(ord, s, m, k + 1));
      FieldBytesFirst(ord, s, m, k);
      Wire.Associative(head, rest, x);
      Wire.Associative(want, more, y);
      AtCancel(ord, s, m, c, k, rest + x, more + y);
      FromCancel(ord, s, m, c, k + 1, x, y);
    }
  }

  lemma PrintCancel(ord: Order, s: Schema, m: Msg, c: Cache, x: bytes, y: bytes)
    requires ValidOrder(ord) && WFSchema(s)
    requires Print(ord, s, m, c) + x == Encode(ord, s, m) + y
    ensures Exact(s, m, c) && x == y
    decreases s, 2
  {
    hide PrintFrom, RecordsFrom, ExactField, EncodeRecords, WFField;
    var tail := EncodeRecords(m.unknown);
    EncodeRecordsConcat(RecordsFrom(ord, s, m, 0), m.unknown);
    Wire.Associative(PrintFrom(ord, s, m, c, 0), tail, x);
    Wire.Associative(EncodeRecords(RecordsFrom(ord, s, m, 0)), tail, y);
    FromCancel(ord, s, m, c, 0, tail + x, tail + y);
    Cancel(tail, x, y);
  }

  /**
    The printer emits the encoding exactly when every cached size below the message is right: one stale
    size anywhere, at any depth, and the bytes differ.
   */
  lemma {:induction false} PrintsExactly(ord: Order, s: Schema, m: Msg, c: Cache)
    requires ValidOrder(ord) && WFSchema(s)
    ensures Print(ord, s, m, c) == Encode(ord, s, m) <==> Exact(s, m, c)
  {
    hide Print, Encode, Exact, WFSchema;
    if Exact(s, m, c) { PrintExact(ord, s, m, c); }
    if Print(ord, s, m, c) == Encode(ord, s, m) { PrintCancel(ord, s, m, c, [], []); }
  }

  /** Size pass, then print pass: the announced number of bytes, and they parse back to the message. */
  lemma {:induction false} TwoPasses(ord: Order, s: Schema, m: Msg)
    requires ValidOrder(ord) && WFSchema(s) && WF(s, m) && Sized(s, m).size <= MAX_SIZE
    ensures var out := Print(ord, s, m, Sized(s, m));
            |out| == Sized(s, m).size && Parse(s, EMPTY, out) == Done(m)
  {
    hide Print, Encode, Exact, Parse, WF, WFSchema;
    SizePassExact(s, m);
    PrintExact(ord, s, m, Sized(s, m));
    EncodedLength(ord, s, m);
    RoundTrips(ord, s, m);
  }
}
