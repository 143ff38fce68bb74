/**
  What well-formed UTF-8 is: the encodings of Unicode scalar values, section 3 of RFC 3629, one after the
  other, each computed from its number.
 */
module Unicode {
  import opened Wire
  import opened Utf8

  /** A Unicode scalar value: a code point that is not a surrogate. */
  predicate IsScalar(c: nat) { c < 0xD800 || 0xE000 <= c <= 0x10FFFF }

  /** Its encoding, from the number: one to four bytes of seven, eleven, sixteen or twenty-one bits. */
  function EncodeScalar(c: nat): (b: bytes)
    requires IsScalar(c)
    ensures 1 <= |b| <= 4
  {
    if c < 0x80 then [c]
    else if c < 0x800 then [0xC0 + c / 64, 0x80 + c % 64]
    else if c < 0x1_0000 then [0xE0 + c / 4096, 0x80 + c / 64 % 64, 0x80 + c % 64]
    else [0xF0 + c / 0x4_0000, 0x80 + c / 4096 % 64, 0x80 + c / 64 % 64, 0x80 + c % 64]
  }

  predicate Scalars(cs: seq<nat>) { forall c | c in cs :: IsScalar(c) }

  function EncodeText(cs: seq<nat>): bytes
    requires Scalars(cs)
  {
    if cs == [] then [] else EncodeScalar(cs[0]) + EncodeText(cs[1..])
  }

  function Two(x: int, y: int): int { (x - 0xC0) * 64 + (y - 0x80) }
  function Three(x: int, y: int, z: int): int { (x - 0xE0) * 4096 + (y - 0x80) * 64 + (z - 0x80) }
  function Four(w: int, x: int, y: int, z: int): int
  {
    (w - 0xF0) * 0x4_0000 + (x - 0x80) * 4096 + (y - 0x80) * 64 + (z - 0x80)
  }

  lemma TwoBytes(x: byte, y: byte)
    requires 0xC2 <= x <= 0xDF && Tail(y)
    ensures 0x80 <= Two(x, y) < 0x800 && EncodeScalar(Two(x, y)) == [x, y]
  {
    var c := Two(x, y);
    assert c / 64 == x - 0xC0 && c % 64 == y - 0x80;
  }

  lemma ThreeBytes(x: byte, y: byte, z: byte)
    requires 0xE0 <= x <= 0xEF && Tail(y) && Tail(z) && (x == 0xE0 ==> y >= 0xA0) && (x == 0xED ==> y <= 0x9F)
    ensures var c := Three(x, y, z); 0x800 <= c < 0x1_0000 && IsScalar(c) && EncodeScalar(c) == [x, y, z]
  {
    var c := Three(x, y, z);
    assert c % 64 == z - 0x80 && c / 64 == (x - 0xE0) * 64 + (y - 0x80);
    assert c / 64 % 64 == y - 0x80 && c / 4096 == x - 0xE0;
  }

  lemma FourBytes(w: byte, x: byte, y: byte, z: byte)
    requires 0xF0 <= w <= 0xF4 && Tail(x) && Tail(y) && Tail(z) && (w == 0xF0 ==> x >= 0x90) &&
             (w == 0xF4 ==> x <= 0x8F)
    ensures var c := Four(w, x, y, z); 0x1_0000 <= c <= 0x10FFFF && EncodeScalar(c) == [w, x, y, z]
  {
    var c := Four(w, x, y, z);
    assert c % 64 == z - 0x80 && c / 64 == (w - 0xF0) * 4096 + (x - 0x80) * 64 + (y - 0x80);
    assert c / 64 % 64 == y - 0x80 && c / 4096 == (w - 0xF0) * 64 + (x - 0x80);
    assert c / 4096 % 64 == x - 0x80 && c / 0x4_0000 == w - 0xF0;
  }

  /** A character that is accepted is the encoding of a scalar value. */
  lemma {:induction false} CharIsScalar(b: bytes) returns (c: nat)
    requires b != [] && CharLength(b) > 0
    ensures IsScalar(c) && b[..CharLength(b)] == EncodeScalar(c)
  {
    hide EncodeScalar, Two, Three, Four;
    match CharLength(b) {
      case 1 =>
        c := b[0];
        OneByte(c);
      case 2 =>
        TwoBytes(b[0], b[1]);
        c := Two(b[0], b[1]);
      case 3 =>
        ThreeBytes(b[0], b[1], b[2]);
        c := Three(b[0], b[1], b[2]);
      case _ =>
        FourBytes(b[0], b[1], b[2], b[3]);
        c := Four(b[0], b[1], b[2], b[3]);
    }
  }

  lemma OneByte(c: nat)
    requires c < 0x80
    ensures EncodeScalar(c) == [c]
  {
  }

  /** What stands in the bytes of an encoding, by the size of the number. */
  lemma ScalarShape(c: nat)
    requires IsScalar(c)
    ensures var b := EncodeScalar(c);
            if c < 0x80 then |b| == 1 && b[0] == c
            else if c < 0x800 then |b| == 2 && 0xC2 <= b[0] <= 0xDF && Tail(b[1])
            else if c < 0x1_0000 then
              |b| == 3 && 0xE0 <= b[0] <= 0xEF && Tail(b[1]) && Tail(b[2])
              && (b[0] == 0xE0 ==> b[1] >= 0xA0) && (b[0] == 0xED ==> b[1] <= 0x9F)
            else
              |b| == 4 && 0xF0 <= b[0] <= 0xF4 && Tail(b[1]) && Tail(b[2]) && Tail(b[3])
              && (b[0] == 0xF0 ==> b[1] >= 0x90) && (b[0] == 0xF4 ==> b[1] <= 0x8F)
  {
  }

  lemma ScalarIsChar(c: nat, t: bytes)
    requires IsScalar(c)
    ensures CharLength(EncodeScalar(c) + t) == |EncodeScalar(c)|
  {
    hide EncodeScalar;
    ScalarShape(c);
  }

  lemma {:induction false} ValidIsText(b: bytes) returns (cs: seq<nat>)
    requires ValidUtf8(b)
    ensures Scalars(cs) && b == EncodeText(cs)
    decreases |b|
  {
    hide CharLength, EncodeScalar;
    if b == [] {
      cs := [];
    } else {
      var c := CharIsScalar(b);
      var rest := ValidIsText(b[CharLength(b)..]);
      cs := [c] + rest;
      assert cs[1..] == rest;
      assert b == b[..CharLength(b)] + b[CharLength(b)..];
    }
  }

  lemma {:induction false} TextIsValid(cs: seq<nat>)
    requires Scalars(cs)
    ensures ValidUtf8(EncodeText(cs))
  {
    hide CharLength, EncodeScalar;
    if cs != [] {
      var t := EncodeText(cs[1..]);
      ScalarIsChar(cs[0], t);
      TextIsValid(cs[1..]);
      assert (EncodeScalar(cs[0]) + t)[|EncodeScalar(cs[0])|..] == t;
    }
  }

  /** Bytes are valid exactly when they are the encodings of scalar values, one after the other. */
  lemma {:induction false} ValidExactly(b: bytes)
    ensures ValidUtf8(b) <==> exists cs :: Scalars(cs) && b == EncodeText(cs)
  {
    hide ValidUtf8, EncodeText, Scalars;
    if ValidUtf8(b) { var cs := ValidIsText(b); }
    if cs :| Scalars(cs) && b == EncodeText(cs) { TextIsValid(cs); }
  }
}
