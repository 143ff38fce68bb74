/**
  What the wire primitives put into each byte and take from each byte, stated from the numbers alone:
  groups of seven bits, octets, tags and the two fields of a map entry.
 */
module Literals {
  import opened Wire
  import opened Utf8
  import opened Message
  import opened Streaming

  // ---------------------------------------------------------------- division by powers

  lemma DivideTwice(n: nat, a: nat, b: nat)
    requires a > 0 && b > 0
    ensures a * b > 0 && n / a / b == n / (a * b)
  {
    Multiple(a, b);
    var q, r := n / (a * b), n % (a * b);
    Regroup(a, b, q);
    Quotient(n, a, b * q, r);
    Small(r, a, b);
    Quotient(n / a, b, q, r / a);
    Below(r / a, b);
  }

  lemma Regroup(a: nat, b: nat, q: nat)
    ensures a * b * q == a * (b * q)
  {
  }

  lemma Below(r: nat, b: nat)
    requires r < b
    ensures r / b == 0
  {
  }

  lemma Multiple(a: nat, d: int)
    ensures d >= 1 ==> a * d >= a
    ensures d <= -1 ==> a * d <= 0 - a
  {
  }

  lemma Quotient(n: nat, a: nat, q: nat, r: nat)
    requires a > 0 && n == a * q + r
    ensures n / a == q + r / a
  {
    var d := n / a - (q + r / a);
    assert a * d == r % a - n % a;
    Multiple(a, d);
  }

  lemma Small(r: nat, a: nat, b: nat)
    requires a > 0 && r < a * b
    ensures r / a < b
  {
    Multiple(a, r / a - b);
    assert a * (r / a) <= r;
  }

  lemma Positive(i: nat)
    ensures Pow128(i) > 0 && Pow256(i) > 0
  {
    if i > 0 { Positive(i - 1); }
  }

  // ---------------------------------------------------------------- varints, group by group

  /** Byte `i` of a varint carries bits 7i to 7i + 6, and all bytes but the last the continuation bit. */
  lemma {:induction false} VarintByte(n: nat, i: nat)
    requires i < |Varint(n)|
    ensures Pow128(i) > 0
    ensures Varint(n)[i] == n / Pow128(i) % 128 + if i < |Varint(n)| - 1 then 128 else 0
    decreases i
  {
    Positive(i);
    if i > 0 {
      VarintByte(n / 128, i - 1);
      Positive(i - 1);
      DivideTwice(n, 128, Pow128(i - 1));
      assert Varint(n)[i] == Varint(n / 128)[i - 1];
    }
  }

  /** There are as many bytes as the number has groups of seven bits. */
  lemma {:induction false} VarintLength(n: nat)
    ensures var k := |Varint(n)|; n < Pow128(k) && (k > 1 ==> Pow128(k - 1) <= n)
  {
    if n >= 128 { VarintLength(n / 128); }
  }

  /** The number that groups of seven bits stand for, the least significant first. */
  function Groups(b: bytes): nat
  {
    if b == [] then 0 else Groups(b[..|b| - 1]) + b[|b| - 1] % 128 * Pow128(|b| - 1)
  }

  lemma {:induction false} GroupsCons(c: byte, b: bytes)
    ensures Groups([c] + b) == c % 128 + 128 * Groups(b)
    decreases |b|
  {
    if b == [] {
      assert ([c] + b)[..0] == [];
    } else {
      var n := |b| - 1;
      GroupsCons(c, b[..n]);
      assert ([c] + b)[..n + 1] == [c] + b[..n];
      Distribute(b[n] % 128, Pow128(n));
    }
  }

  lemma Distribute(d: nat, p: nat)
    ensures d * (128 * p) == 128 * (d * p)
  {
  }

  /** The first `k` bytes form a varint: continuation bits on all but the last. */
  predicate Delimited(b: bytes, k: nat)
  {
    1 <= k <= |b| && b[k - 1] < 128 && forall i | 0 <= i < k - 1 :: b[i] >= 128
  }

  lemma {:induction false} DelimitedIsRead(b: bytes, limit: nat, k: nat)
    requires k <= limit && Delimited(b, k)
    ensures ReadVarint(b, limit) == Got(Groups(b[..k]), k)
    decreases limit
  {
    assert b[..k] == [b[0]] + b[1..][..k - 1];
    GroupsCons(b[0], b[1..][..k - 1]);
    if k > 1 { DelimitedIsRead(b[1..], limit - 1, k - 1); }
  }

  lemma {:induction false} ReadIsDelimited(b: bytes, limit: nat)
    requires ReadVarint(b, limit).Got?
    ensures Delimited(b, ReadVarint(b, limit).n)
    decreases limit
  {
    if b[0] >= 128 {
      ReadIsDelimited(b[1..], limit - 1);
      var k := ReadVarint(b, limit).n;
      assert forall i | 0 < i < k - 1 :: b[i] == b[1..][i - 1];
    }
  }

  /** A varint is read exactly when its last byte lies within the limit, and its value is that of its groups. */
  lemma {:induction false} ReadVarintExactly(b: bytes, limit: nat, v: nat, k: nat)
    ensures ReadVarint(b, limit) == Got(v, k) <==> k <= limit && Delimited(b, k) && v == Groups(b[..k])
  {
    hide ReadVarint, Groups, Delimited;
    if ReadVarint(b, limit).Got? {
      ReadIsDelimited(b, limit);
      DelimitedIsRead(b, limit, ReadVarint(b, limit).n);
    }
    if k <= limit && Delimited(b, k) { DelimitedIsRead(b, limit, k); }
  }

  /** 300 is two bytes on the wire. */
  lemma {:induction false} VarintExample(t: bytes)
    ensures Varint(300) == [0xAC, 0x02] && ReadVarint([0xAC, 0x02] + t, 10) == Got(300, 2)
  {
    VarintRoundTrip(300, t, 10);
  }

  // ---------------------------------------------------------------- fixed width, byte by byte

  /** Byte `i` of a fixed-width number carries bits 8i to 8i + 7. */
  lemma {:induction false} FixedByte(v: nat, k: nat, i: nat)
    requires i < k
    ensures Pow256(i) > 0 && Fixed(v, k)[i] == v / Pow256(i) % 256
    decreases i
  {
    Positive(i);
    if i > 0 {
      FixedByte(v / 256, k - 1, i - 1);
      Positive(i - 1);
      DivideTwice(v, 256, Pow256(i - 1));
    }
  }

  /** The number that octets stand for, the least significant first. */
  function Octets(b: bytes): nat
  {
    if b == [] then 0 else Octets(b[..|b| - 1]) + b[|b| - 1] * Pow256(|b| - 1)
  }

  lemma {:induction false} OctetsCons(c: byte, b: bytes)
    ensures Octets([c] + b) == c + 256 * Octets(b)
    decreases |b|
  {
    if b == [] {
      assert ([c] + b)[..0] == [];
    } else {
      var n := |b| - 1;
      OctetsCons(c, b[..n]);
      assert ([c] + b)[..n + 1] == [c] + b[..n];
      assert b[n] * (256 * Pow256(n)) == 256 * (b[n] * Pow256(n));
    }
  }

  lemma {:induction false} FixedValueIsOctets(b: bytes)
    ensures FixedValue(b) == Octets(b)
  {
    if b != [] {
      FixedValueIsOctets(b[1..]);
      OctetsCons(b[0], b[1..]);
      assert b == [b[0]] + b[1..];
    }
  }

  lemma OctetsBound(b: bytes)
    requires |b| == 8
    ensures Octets(b) < TWO64
  {
    hide Pow256;
    FixedValueIsOctets(b);
    FixedBound(b);
    FixedWidths();
  }

  lemma ZeroOctet(v: nat, k: nat)
    ensures Fixed(256 * v, k + 1) == [0] + Fixed(v, k)
  {
  }

  /** The double 1.0, bit pattern 0x3FF0000000000000, on the wire. */
  lemma {:induction false} DoubleExample()
    ensures Fixed(0x3FF0_0000_0000_0000, 8) == [0, 0, 0, 0, 0, 0, 0xF0, 0x3F]
    ensures FixedValue([0, 0, 0, 0, 0, 0, 0xF0, 0x3F]) == 0x3FF0_0000_0000_0000
  {
    hide FixedValue;
    var one := [0, 0, 0, 0, 0, 0, 0xF0, 0x3F];
    assert Fixed(0x3FF0, 2) == one[6..];
    ZeroOctet(0x3FF0, 2);
    ZeroOctet(0x3FF0_00, 3);
    ZeroOctet(0x3FF0_0000, 4);
    ZeroOctet(0x3FF0_0000_00, 5);
    ZeroOctet(0x3FF0_0000_0000, 6);
    ZeroOctet(0x3FF0_0000_0000_00, 7);
    assert [0] + ([0] + ([0] + ([0] + ([0] + ([0] + one[6..]))))) == one;
    FixedWidths();
    FixedRoundTrip(0x3FF0_0000_0000_0000, 8);
  }

  // ---------------------------------------------------------------- records

  /** A record is its tag, eight times the number plus 0, 1, 2 or 5, and its payload; content follows its length. */
  lemma {:induction false} RecordBytes(r: Record)
    ensures EncodeRecord(r) ==
            match r.payload
            case VarintP(v) => Varint(8 * r.num) + Varint(v)
            case Fixed64P(v) => Varint(8 * r.num + 1) + Fixed(v, 8)
            case LenP(s) => Varint(8 * r.num + 2) + (Varint(|s|) + s)
            case Fixed32P(v) => Varint(8 * r.num + 5) + Fixed(v, 4)
  {
    hide Varint, Fixed;
  }

  /** `b` starts with record `r`: a tag of `k` bytes, then a varint or length prefix of `j` bytes, none if fixed. */
  predicate Starts(b: bytes, r: Record, k: nat, j: nat)
  {
    && k <= 5 && Delimited(b, k)
    && var tag, c := Groups(b[..k]) % 0x1_0000_0000, b[k..];
       && 1 <= r.num == tag / 8
       && match r.payload
          case VarintP(v) => tag % 8 == 0 && j <= 10 && Delimited(c, j) && v == Groups(c[..j]) % 0x1_0000_0000_0000_0000
          case Fixed64P(v) => tag % 8 == 1 && j == 0 && |c| >= 8 && v == Octets(c[..8])
          case LenP(s) =>
            && tag % 8 == 2 && j <= 5 && Delimited(c, j) && |s| == Groups(c[..j]) <= 0x7FFF_FFEF
            && s <= c[j..]
          case Fixed32P(v) => tag % 8 == 5 && j == 0 && |c| >= 4 && v == Octets(c[..4])
  }

  function Extent(r: Record, k: nat, j: nat): nat
  {
    k + j + match r.payload
            case VarintP(_) => 0
            case Fixed64P(_) => 8
            case LenP(s) => |s|
            case Fixed32P(_) => 4
  }

  lemma {:induction false} StartIsRead(b: bytes, r: Record, k: nat, j: nat)
    requires Starts(b, r, k, j)
    ensures ReadRecord(b) == Item(r, Extent(r, k, j))
  {
    hide ReadVarint, Groups, Octets, FixedValue;
    var c := b[k..];
    ReadVarintExactly(b, 5, Groups(b[..k]), k);
    match r.payload {
      case VarintP(v) => ReadVarintExactly(c, 10, Groups(c[..j]), j);
      case Fixed64P(v) => FixedValueIsOctets(c[..8]);
      case LenP(s) => ReadVarintExactly(c, 5, Groups(c[..j]), j);
      case Fixed32P(v) => FixedValueIsOctets(c[..4]);
    }
  }

  /** Every record read has that form. */
  lemma {:induction false} ReadIsStart(b: bytes) returns (k: nat, j: nat)
    requires ReadRecord(b).Item?
    ensures Starts(b, ReadRecord(b).r, k, j) && ReadRecord(b).n == Extent(ReadRecord(b).r, k, j)
  {
    hide ReadVarint, Groups, Octets, FixedValue, Delimited;
    var r := ReadRecord(b).r;
    k := ReadVarint(b, 5).n;
    ReadVarintExactly(b, 5, ReadVarint(b, 5).value, k);
    var c := b[k..];
    j := 0;
    match r.payload {
      case VarintP(v) =>
        j := ReadVarint(c, 10).n;
        ReadVarintExactly(c, 10, ReadVarint(c, 10).value, j);
      case Fixed64P(v) => FixedValueIsOctets(c[..8]);
      case LenP(s) =>
        j := ReadVarint(c, 5).n;
        ReadVarintExactly(c, 5, ReadVarint(c, 5).value, j);
      case Fixed32P(v) => FixedValueIsOctets(c[..4]);
    }
  }

  // ---------------------------------------------------------------- map entries

  /** Tag 10, length, key; tag 18, length, value. */
  function EntryText(key: bytes, value: bytes): bytes
  {
    [10] + Varint(|key|) + key + ([18] + Varint(|value|) + value)
  }

  lemma TextRecord(k: nat, s: bytes)
    requires k == 1 || k == 2
    ensures EncodeRecord(Record(k, LenP(s))) == [8 * k + 2] + Varint(|s|) + s
  {
    hide Varint, EncodeRecord;
    RecordBytes(Record(k, LenP(s)));
    SmallVarint(8 * k + 2);
    Associative([8 * k + 2], Varint(|s|), s);
  }

  lemma SmallVarint(n: nat)
    requires n < 128
    ensures Varint(n) == [n]
  {
  }

  lemma {:induction false} EntryIsText(key: bytes, value: bytes)
    ensures EncodeEntry(key, value) == EntryText(key, value)
  {
    hide EncodeRecord, Varint;
    TextRecord(1, key);
    TextRecord(2, value);
  }

  /** The last content among the length-delimited records numbered `k`, `default` when there is none. */
  function LastText(rs: seq<Record>, k: nat, default: bytes): bytes
  {
    if rs == [] then default
    else
      var last := rs[|rs| - 1];
      if last.num == k && last.payload.LenP? then last.payload.b else LastText(rs[..|rs| - 1], k, default)
  }

  lemma {:induction false} LastTextCons(r: Record, rs: seq<Record>, k: nat, default: bytes)
    ensures LastText([r] + rs, k, default) ==
            LastText(rs, k, if r.num == k && r.payload.LenP? then r.payload.b else default)
    decreases |rs|
  {
    if rs == [] {
      assert ([r] + rs)[..0] == [];
    } else {
      assert ([r] + rs)[..|rs|] == [r] + rs[..|rs| - 1];
      LastTextCons(r, rs[..|rs| - 1], k, default);
    }
  }

  /** The texts of an entry that the parser checks. */
  predicate EntryTextsValid(rs: seq<Record>)
  {
    forall r | r in rs && r.payload.LenP? && (r.num == 1 || r.num == 2) :: ValidUtf8(r.payload.b)
  }

  lemma {:induction false} EntryFrom(key: bytes, value: bytes, b: bytes)
    ensures ParseEntry(key, value, b).Entry? <==> Frame(b).Some? && EntryTextsValid(Frame(b).value)
    ensures ParseEntry(key, value, b).Entry? ==>
              ParseEntry(key, value, b) == Entry(LastText(Frame(b).value, 1, key), LastText(Frame(b).value, 2, value))
    decreases |b|
  {
    hide ReadRecord, ValidUtf8;
    if b != [] && ReadRecord(b).Item? {
      var Item(r, n) := ReadRecord(b);
      var rest := b[n..];
      if r.num == 1 && r.payload.LenP? {
        EntryFrom(r.payload.b, value, rest);
      } else if r.num == 2 && r.payload.LenP? {
        EntryFrom(key, r.payload.b, rest);
      } else {
        EntryFrom(key, value, rest);
      }
      if Frame(rest).Some? {
        LastTextCons(r, Frame(rest).value, 1, key);
        LastTextCons(r, Frame(rest).value, 2, value);
        assert forall x :: x in [r] + Frame(rest).value <==> x == r || x in Frame(rest).value;
      }
    }
  }

  /**
    An entry is accepted exactly when it is whole records whose texts numbered 1 and 2 are valid; its key is the
    last content numbered 1, its value the last numbered 2, each empty when there is none.
   */
  lemma {:induction false} EntryExactly(b: bytes, key: bytes, value: bytes)
    ensures ParseEntry([], [], b) == Entry(key, value) <==>
            && Frame(b).Some? && EntryTextsValid(Frame(b).value)
            && key == LastText(Frame(b).value, 1, []) && value == LastText(Frame(b).value, 2, [])
  {
    hide Frame, ParseEntry, EntryTextsValid;
    EntryFrom([], [], b);
  }

  /** A map after entries with contents `es` were sent, one after the other. */
  function AfterEntries(t: map<bytes, bytes>, es: seq<bytes>): map<bytes, bytes>
  {
    if es == [] then t
    else
      var n := |es| - 1;
      var rs := if Frame(es[n]).Some? then Frame(es[n]).value else [];
      AfterEntries(t, es[..n])[LastText(rs, 1, []) := LastText(rs, 2, [])]
  }

  /** The entries of `keys` as they are printed: tag, length and text of each. */
  function EntriesText(tag: byte, keys: seq<bytes>, t: map<bytes, bytes>): bytes
    requires forall x | x in keys :: x in t
  {
    if keys == [] then []
    else
      var n := |keys| - 1;
      assert keys[n] in keys;
      var e := EntryText(keys[n], t[keys[n]]);
      EntriesText(tag, keys[..n], t) + ([tag] + Varint(|e|) + e)
  }

  lemma {:induction false} EntriesBytes(k: nat, keys: seq<bytes>, t: map<bytes, bytes>)
    requires 1 <= k <= 15 && forall x | x in keys :: x in t
    ensures EncodeRecords(EntryRecords(k, keys, t)) == EntriesText(8 * k + 2, keys, t)
    decreases |keys|
  {
    hide EncodeRecord, EncodeEntry, EntryText, EncodeRecords, Varint;
    if keys == [] {
      assert EntryRecords(k, keys, t) == [];
      assert EncodeRecords([]) == [] by { Nothing(); }
    } else {
      var n := |keys| - 1;
      var key := keys[n];
      assert key in keys;
      EntriesBytes(k, keys[..n], t);
      var r := Record(k, LenP(EncodeEntry(key, t[key])));
      assert EntryRecords(k, keys, t) == EntryRecords(k, keys[..n], t) + [r];
      EncodeRecordsConcat(EntryRecords(k, keys[..n], t), [r]);
      Single(r);
      EntryIsText(key, t[key]);
      RecordBytes(r);
      SmallVarint(8 * k + 2);
      Associative([8 * k + 2], Varint(|EntryText(key, t[key])|), EntryText(key, t[key]));
    }
  }

  lemma Nothing()
    ensures EncodeRecords([]) == []
  {
  }

  lemma Single(r: Record)
    ensures EncodeRecords([r]) == EncodeRecord(r)
  {
    hide EncodeRecord;
    assert [r][1..] == [];
  }
}
