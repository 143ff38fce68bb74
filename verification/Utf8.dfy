/** Well-formed UTF-8, the syntax of section 4 of RFC 3629, which string fields are checked against. */
module Utf8 {
  import opened Wire

  predicate Tail(b: byte) { 0x80 <= b <= 0xBF }

  predicate Tails(b: bytes, from: nat, count: nat)
  {
    from + count <= |b| && forall i | from <= i < from + count :: Tail(b[i])
  }

  /** Length of the character that starts `b`, or 0 when there is none. */
  function CharLength(b: bytes): (n: nat)
    requires b != []
    ensures n <= |b|
  {
    var c := b[0];
    if c <= 0x7F then 1
    else if 0xC2 <= c <= 0xDF && Tails(b, 1, 1) then 2
    else if c == 0xE0 && Tails(b, 1, 2) && b[1] >= 0xA0 then 3
    else if c == 0xED && Tails(b, 1, 2) && b[1] <= 0x9F then 3
    else if 0xE1 <= c <= 0xEF && c != 0xED && Tails(b, 1, 2) then 3
    else if c == 0xF0 && Tails(b, 1, 3) && b[1] >= 0x90 then 4
    else if 0xF1 <= c <= 0xF3 && Tails(b, 1, 3) then 4
    else if c == 0xF4 && Tails(b, 1, 3) && b[1] <= 0x8F then 4
    else 0
  }

  predicate ValidUtf8(b: bytes)
  {
    b == [] || (var n := CharLength(b); n > 0 && ValidUtf8(b[n..]))
  }
}
