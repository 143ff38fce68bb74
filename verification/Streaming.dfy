/**
  Parsing as framing followed by folding: a byte string is accepted exactly when it splits into
  records that are all accepted, parsing can stop and resume at any record boundary, and a
  truncated input is accepted exactly when it was cut at a record boundary.
 */
module Streaming {
  import opened Options
  import opened Wire
  import opened Message
  import opened RoundTrip

  /** The records of a byte string, when it consists of whole records only. */
  function Frame(b: bytes): Option<seq<Record>>
    decreases |b|
  {
    if b == [] then Some([])
    else
      match ReadRecord(b)
      case Item(r, n) =>
        (match Frame(b[n..])
         case Some(rs) => Some([r] + rs)
         case None => None)
      case _ => None
  }

  /** The loop ends at its limit exactly when the input is whole records, all of them accepted. */
  lemma {:induction false} ParseIsFold(s: Schema, m: Msg, b: bytes)
    ensures Parse(s, m, b).Done? <==> Frame(b).Some? && Fold(s, m, Frame(b).value).Some?
    ensures Parse(s, m, b).Done? ==> Fold(s, m, Frame(b).value) == Some(Parse(s, m, b).m)
    decreases |b|
  {
    hide Apply, ReadRecord;
    if b != [] && ReadRecord(b).Item? {
      var Item(r, n) := ReadRecord(b);
      if Frame(b[n..]).Some? {
        assert ([r] + Frame(b[n..]).value)[1..] == Frame(b[n..]).value;
      }
      match Apply(s, m, r) {
        case None =>
        case Some(m') => ParseIsFold(s, m', b[n..]);
      }
    }
  }

  /** Printed records frame back to themselves. */
  lemma {:induction false} FrameRecords(rs: seq<Record>)
    requires forall r | r in rs :: WFRecord(r)
    ensures Frame(EncodeRecords(rs)) == Some(rs)
    decreases |rs|
  {
    hide ReadRecord, EncodeRecord, WFRecord;
    if rs != [] {
      var head, tail := EncodeRecord(rs[0]), EncodeRecords(rs[1..]);
      RecordRoundTrip(rs[0], tail);
      assert (head + tail)[|head|..] == tail;
      FrameRecords(rs[1..]);
      assert [rs[0]] + rs[1..] == rs;
    }
  }

  /** Records read from the wire are legal, and printing them again takes no more room. */
  lemma {:induction false} FrameSound(b: bytes)
    requires Frame(b).Some?
    ensures forall r | r in Frame(b).value :: WFRecord(r)
    ensures |EncodeRecords(Frame(b).value)| <= |b|
    decreases |b|
  {
    hide ReadRecord, EncodeRecord, WFRecord;
    if b != [] {
      var Item(r, n) := ReadRecord(b);
      ReadRecordSound(b);
      FrameSound(b[n..]);
      var tail := Frame(b[n..]).value;
      assert ([r] + tail)[1..] == tail;
    }
  }

  // ---------------------------------------------------------------- resuming

  /** Parsing `x ++ y` onto a message is parsing `y` onto what parsing `x` left behind. */
  lemma {:induction false} Resume(s: Schema, m: Msg, x: bytes, y: bytes)
    requires Parse(s, m, x).Done?
    ensures Parse(s, m, x + y) == Parse(s, Parse(s, m, x).m, y)
    decreases |x|
  {
    hide Apply, ReadRecord;
    if x == [] {
      assert x + y == y;
    } else {
      var Item(r, n) := ReadRecord(x);
      assert x[..n] <= x + y;
      RecordLocal(x, x + y);
      assert (x + y)[n..] == x[n..] + y;
      Resume(s, Apply(s, m, r).value, x[n..], y);
    }
  }

  // ---------------------------------------------------------------- truncation

  /** `k` bytes of `b` are a whole number of records. */
  predicate Boundary(b: bytes, k: nat)
    decreases |b|
  {
    k == 0 || (b != [] && match ReadRecord(b) case Item(_, n) => n <= k && Boundary(b[n..], k - n) case _ => false)
  }

  /** Cutting an accepted input short is accepted at a boundary and fails anywhere else. */
  lemma {:induction false} Truncation(s: Schema, m: Msg, x: bytes, k: nat)
    requires Parse(s, m, x).Done? && k <= |x|
    ensures Parse(s, m, x[..k]).Done? <==> Boundary(x, k)
    ensures !Boundary(x, k) ==> Parse(s, m, x[..k]) == Failed
    decreases |x|
  {
    hide Apply, ReadRecord;
    if k > 0 {
      var Item(r, n) := ReadRecord(x);
      var p := x[..k];
      if n <= k {
        assert x[..n] == p[..n];
        RecordLocal(x, p);
        assert p[n..] == x[n..][..k - n];
        Truncation(s, Apply(s, m, r).value, x[n..], k - n);
      } else if ReadRecord(p).Item? {
        assert p[..ReadRecord(p).n] <= x;
        RecordLocal(p, x);
      } else if ReadRecord(p).Halt? {
        HaltLocal(p, x);
      }
    }
  }

  /** `k` bytes are exactly the first few records of a printed list. */
  ghost predicate RecordEnd(rs: seq<Record>, k: nat)
  {
    exists j | 0 <= j <= |rs| :: k == |EncodeRecords(rs[..j])|
  }

  /** In a printed message the boundaries are the ends of its records. */
  lemma {:induction false} BoundaryIsRecordEnd(rs: seq<Record>, k: nat)
    requires forall r | r in rs :: WFRecord(r)
    ensures Boundary(EncodeRecords(rs), k) <==> RecordEnd(rs, k)
    decreases |rs|
  {
    hide ReadRecord, EncodeRecord, WFRecord;
    if rs == [] || k == 0 {
      assert |EncodeRecords(rs[..0])| == 0;
    } else {
      var head, tail := EncodeRecord(rs[0]), EncodeRecords(rs[1..]);
      RecordRoundTrip(rs[0], tail);
      assert (head + tail)[|head|..] == tail;
      forall j | 1 <= j <= |rs|
        ensures |EncodeRecords(rs[..j])| == |head| + |EncodeRecords(rs[1..][..j - 1])|
      {
        assert rs[..j][1..] == rs[1..][..j - 1];
      }
      if k >= |head| {
        BoundaryIsRecordEnd(rs[1..], k - |head|);
        if Boundary(tail, k - |head|) {
          var i :| 0 <= i <= |rs[1..]| && k - |head| == |EncodeRecords(rs[1..][..i])|;
          assert k == |EncodeRecords(rs[..i + 1])|;
        }
      }
    }
  }

  /** A prefix of a printed message parses to its end exactly at the end of one of its records. */
  lemma {:induction false} PrintedTruncation(ord: Order, s: Schema, m: Msg, k: nat)
    requires ValidOrder(ord) && WFSchema(s) && WF(s, m)
    requires |Encode(ord, s, m)| <= MAX_SIZE && k <= |Encode(ord, s, m)|
    ensures Parse(s, EMPTY, Encode(ord, s, m)[..k]).Done? <==> RecordEnd(Records(ord, s, m), k)
  {
    hide Parse, Records, Boundary, RecordEnd, WF, WFSchema, WFRecord;
    RoundTrips(ord, s, m);
    RecordsLegal(ord, s, m);
    Truncation(s, EMPTY, Encode(ord, s, m), k);
    BoundaryIsRecordEnd(Records(ord, s, m), k);
  }
}
