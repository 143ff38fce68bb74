/**
  "Field Order" and "Unknown Fields": which reorderings of the records of a message matter, what
  the final value of each field depends on, and that no record is ever lost.
 */
module FieldOrder {
  import opened Options
  import opened Wire
  import opened Message
  import opened Streaming

  /** Only records with the same key can influence one another. */
  datatype Key = FieldKey(num: nat) | OneofKey | UnknownKey

  function KeyOf(s: Schema, r: Record): Key
  {
    if !Known(s, r) then UnknownKey
    else if OneofAt(s, r.num) then OneofKey
    else FieldKey(r.num)
  }

  /** The records with key `key`, in their order of appearance. */
  function Select(s: Schema, rs: seq<Record>, key: Key): (q: seq<Record>)
    ensures |q| <= |rs|
    ensures forall r | r in q :: KeyOf(s, r) == key
  {
    if rs == [] then []
    else (if KeyOf(s, rs[0]) == key then [rs[0]] else []) + Select(s, rs[1..], key)
  }

  // ---------------------------------------------------------------- adjacent records

  lemma PutCommutes(s: Schema, m: Msg, i: nat, u: Option<Value>, j: nat, v: Option<Value>)
    requires i != j && !(OneofAt(s, i) && OneofAt(s, j))
    ensures PutSlot(s, PutSlot(s, m, i, u), j, v) == PutSlot(s, PutSlot(s, m, j, v), i, u)
  {
    SameSlots(PutSlot(s, PutSlot(s, m, i, u), j, v), PutSlot(s, PutSlot(s, m, j, v), i, u));
  }

  lemma PutUnknown(s: Schema, m: Msg, i: nat, u: Option<Value>, us: seq<Record>)
    ensures PutSlot(s, m.(unknown := us), i, u) == PutSlot(s, m, i, u).(unknown := us)
  {
    SameSlots(PutSlot(s, m.(unknown := us), i, u), PutSlot(s, m, i, u).(unknown := us));
  }

  function Then(s: Schema, o: Option<Msg>, r: Record): Option<Msg>
  {
    if o.None? then None else Apply(s, o.value, r)
  }

  /** Two adjacent records with different keys may change places. */
  lemma {:induction false} Commutes(s: Schema, m: Msg, a: Record, b: Record)
    requires KeyOf(s, a) != KeyOf(s, b)
    ensures Then(s, Apply(s, m, a), b) == Then(s, Apply(s, m, b), a)
  {
    hide Update, PutSlot;
    if Known(s, a) && Known(s, b) {
      var u := Update(s.fields[a.num], a.payload, Slot(m, a.num));
      var v := Update(s.fields[b.num], b.payload, Slot(m, b.num));
      if u.Some? { PutSlots(s, m, a.num, u.value, b.num); }
      if v.Some? { PutSlots(s, m, b.num, v.value, a.num); }
      if u.Some? && v.Some? { PutCommutes(s, m, a.num, u.value, b.num, v.value); }
    } else if Known(s, a) {
      CommutesUnknown(s, m, a, b);
    } else {
      CommutesUnknown(s, m, b, a);
    }
  }

  lemma PutSlots(s: Schema, m: Msg, k: nat, v: Option<Value>, j: nat)
    ensures Slot(PutSlot(s, m, k, v), j) ==
            if j == k then v else if OneofAt(s, k) && OneofAt(s, j) then None else Slot(m, j)
    ensures PutSlot(s, m, k, v).unknown == m.unknown
  {
  }

  lemma CommutesUnknown(s: Schema, m: Msg, a: Record, b: Record)
    requires Known(s, a) && !Known(s, b)
    ensures Then(s, Apply(s, m, a), b) == Then(s, Apply(s, m, b), a)
  {
    hide Update, PutSlot;
    var u := Update(s.fields[a.num], a.payload, Slot(m, a.num));
    assert Slot(m.(unknown := m.unknown + [b]), a.num) == Slot(m, a.num);
    if u.Some? {
      PutSlots(s, m, a.num, u.value, a.num);
      PutUnknown(s, m, a.num, u.value, m.unknown + [b]);
    }
  }

  // ---------------------------------------------------------------- permutations

  lemma FoldTwo(s: Schema, m: Msg, a: Record, rest: seq<Record>)
    ensures Fold(s, m, [a] + rest) == match Apply(s, m, a) case None => None case Some(m') => Fold(s, m', rest)
  {
    hide Apply;
    assert ([a] + rest)[1..] == rest;
  }

  /** A record may move to the front past records with other keys. */
  lemma {:induction false} MoveToFront(s: Schema, m: Msg, pre: seq<Record>, r: Record, post: seq<Record>)
    requires forall p | p in pre :: KeyOf(s, p) != KeyOf(s, r)
    ensures Fold(s, m, pre + [r] + post) == Fold(s, m, [r] + (pre + post))
    decreases |pre|
  {
    hide Apply, Fold, KeyOf;
    if pre == [] {
      assert pre + [r] + post == [r] + (pre + post);
    } else {
      var p, q := pre[0], pre[1..];
      assert pre + [r] + post == [p] + (q + [r] + post);
      assert pre + post == [p] + (q + post);
      FoldTwo(s, m, p, q + [r] + post);
      FoldTwo(s, m, r, pre + post);
      Commutes(s, m, p, r);
      match Apply(s, m, p) {
        case None =>
          if Apply(s, m, r).Some? { FoldTwo(s, Apply(s, m, r).value, p, q + post); }
        case Some(m') =>
          MoveToFront(s, m', q, r, post);
          FoldTwo(s, m', r, q + post);
          if Apply(s, m, r).Some? { FoldTwo(s, Apply(s, m, r).value, p, q + post); }
      }
    }
  }

  lemma {:induction false} SelectConcat(s: Schema, a: seq<Record>, b: seq<Record>, key: Key)
    ensures Select(s, a + b, key) == Select(s, a, key) + Select(s, b, key)
    decreases |a|
  {
    hide KeyOf;
    if a == [] {
      assert a + b == b;
    } else {
      assert (a + b)[1..] == a[1..] + b;
      SelectConcat(s, a[1..], b, key);
    }
  }

  /** The first record with a given key, with everything before and after it. */
  lemma {:induction false} SplitAtFirst(s: Schema, rs: seq<Record>, key: Key)
    returns (pre: seq<Record>, post: seq<Record>)
    requires Select(s, rs, key) != []
    ensures rs == pre + [Select(s, rs, key)[0]] + post
    ensures forall p | p in pre :: KeyOf(s, p) != key
    decreases |rs|
  {
    hide KeyOf;
    if KeyOf(s, rs[0]) == key {
      pre, post := [], rs[1..];
    } else {
      assert Select(s, rs, key) == Select(s, rs[1..], key);
      var q;
      q, post := SplitAtFirst(s, rs[1..], key);
      pre := [rs[0]] + q;
      assert rs == [rs[0]] + rs[1..];
    }
  }

  lemma {:induction false} SelectNone(s: Schema, rs: seq<Record>, key: Key)
    requires forall p | p in rs :: KeyOf(s, p) != key
    ensures Select(s, rs, key) == []
    decreases |rs|
  {
    hide KeyOf;
    if rs != [] { SelectNone(s, rs[1..], key); }
  }

  lemma SelectOne(s: Schema, r: Record, rest: seq<Record>, key: Key)
    ensures Select(s, [r] + rest, key) == (if KeyOf(s, r) == key then [r] else []) + Select(s, rest, key)
  {
    hide KeyOf;
    assert ([r] + rest)[1..] == rest;
  }

  lemma SelectAround(s: Schema, pre: seq<Record>, r: Record, post: seq<Record>, key: Key)
    requires forall p | p in pre :: KeyOf(s, p) != KeyOf(s, r)
    ensures Select(s, pre + [r] + post, key) == Select(s, [r] + (pre + post), key)
  {
    hide KeyOf, Select;
    assert pre + [r] + post == pre + ([r] + post);
    SelectConcat(s, pre, [r] + post, key);
    SelectConcat(s, pre, post, key);
    SelectOne(s, r, post, key);
    SelectOne(s, r, pre + post, key);
    if key == KeyOf(s, r) {
      SelectNone(s, pre, key);
      assert [] + ([r] + Select(s, post, key)) == [r] + ([] + Select(s, post, key));
    } else {
      assert [] + Select(s, post, key) == Select(s, post, key);
      assert [] + (Select(s, pre, key) + Select(s, post, key)) == Select(s, pre, key) + Select(s, post, key);
    }
  }

  ghost predicate SameByKey(s: Schema, rs: seq<Record>, qs: seq<Record>)
  {
    forall key :: Select(s, rs, key) == Select(s, qs, key)
  }

  lemma NotSameAsNone(s: Schema, rs: seq<Record>)
    requires rs != []
    ensures !SameByKey(s, rs, [])
  {
    var key := KeyOf(s, rs[0]);
    assert Select(s, rs, key) != Select(s, [], key);
  }

  /**
    Order independence: two record lists that agree key by key have the same effect, on every
    message, including whether they are accepted at all.
   */
  lemma {:induction false} OrderIndependence(s: Schema, m: Msg, rs: seq<Record>, qs: seq<Record>)
    requires SameByKey(s, rs, qs)
    ensures Fold(s, m, rs) == Fold(s, m, qs)
    decreases |qs|
  {
    hide Apply, Fold, KeyOf;
    if qs == [] {
      if rs != [] { NotSameAsNone(s, rs); }
    } else {
      var r := qs[0];
      var key := KeyOf(s, r);
      assert Select(s, rs, key) == Select(s, qs, key);
      assert Select(s, qs, key)[0] == r;
      var pre, post := SplitAtFirst(s, rs, key);
      assert qs == [r] + qs[1..];
      MoveToFront(s, m, pre, r, post);
      forall k
        ensures Select(s, pre + post, k) == Select(s, qs[1..], k)
      {
        assert Select(s, rs, k) == Select(s, qs, k);
        SelectAround(s, pre, r, post, k);
        SelectOne(s, r, pre + post, k);
        SelectOne(s, r, qs[1..], k);
        var h := if KeyOf(s, r) == k then [r] else [];
        assert (h + Select(s, pre + post, k))[|h|..] == Select(s, pre + post, k);
        assert (h + Select(s, qs[1..], k))[|h|..] == Select(s, qs[1..], k);
      }
      FoldTwo(s, m, r, pre + post);
      FoldTwo(s, m, r, qs[1..]);
      if Apply(s, m, r).Some? {
        OrderIndependence(s, Apply(s, m, r).value, pre + post, qs[1..]);
      }
    }
  }

  /** The same on the wire: inputs whose records agree key by key are parsed alike. */
  lemma {:induction false} ReorderedInput(s: Schema, m: Msg, x: bytes, y: bytes)
    requires Frame(x).Some? && Frame(y).Some? && SameByKey(s, Frame(x).value, Frame(y).value)
    ensures Parse(s, m, x).Done? <==> Parse(s, m, y).Done?
    ensures Parse(s, m, x).Done? ==> Parse(s, m, x) == Parse(s, m, y)
  {
    hide Parse, Fold, Frame, SameByKey;
    ParseIsFold(s, m, x);
    ParseIsFold(s, m, y);
    OrderIndependence(s, m, Frame(x).value, Frame(y).value);
  }

  // ---------------------------------------------------------------- what a field ends up holding

  /**
    The effect on one field of all records of that field, nothing else taken into account; None when one is
    rejected.
   */
  function FoldSlot(f: Field, v: Option<Value>, rs: seq<Record>): Option<Option<Value>>
    decreases |rs|
  {
    if rs == [] then Some(v)
    else
      match Update(f, rs[0].payload, v)
      case None => None
      case Some(v') => FoldSlot(f, v', rs[1..])
  }

  /** A field outside the oneof holds what its own records make of it, all of them in order. */
  lemma {:induction false} FieldIsFoldOfItsRecords(s: Schema, m: Msg, rs: seq<Record>, k: nat)
    requires k in s.fields && !OneofAt(s, k) && Fold(s, m, rs).Some?
    ensures FoldSlot(s.fields[k], Slot(m, k), Select(s, rs, FieldKey(k))) == Some(Slot(Fold(s, m, rs).value, k))
    decreases |rs|
  {
    hide Update, PutSlot;
    if rs != [] {
      var m' := Apply(s, m, rs[0]).value;
      FieldIsFoldOfItsRecords(s, m', rs[1..], k);
      var rest := Select(s, rs[1..], FieldKey(k));
      if KeyOf(s, rs[0]) == FieldKey(k) {
        PutSlots(s, m, k, Update(s.fields[k], rs[0].payload, Slot(m, k)).value, k);
        assert Select(s, rs, FieldKey(k)) == [rs[0]] + rest;
        assert ([rs[0]] + rest)[1..] == rest;
      } else {
        assert Select(s, rs, FieldKey(k)) == rest;
        if Known(s, rs[0]) {
          PutSlots(s, m, rs[0].num, Update(s.fields[rs[0].num], rs[0].payload, Slot(m, rs[0].num)).value, k);
        }
      }
    }
  }

  /** Kinds whose value is replaced as a whole. */
  predicate Single(kind: Kind) { !kind.Sub? && !kind.Rep? && !kind.Dict? }

  /** A field after one value was assigned to it. */
  function Assigned(f: Field, p: Payload): Option<Value>
  {
    if Numeric(f.kind) then NumSlot(f, Norm(f.kind, PayloadNum(p))) else StrSlot(f, PayloadBytes(p))
  }

  lemma {:induction false} SingleFold(f: Field, v: Option<Value>, rs: seq<Record>)
    requires Single(f.kind) && FoldSlot(f, v, rs).Some?
    ensures FoldSlot(f, v, rs) == Some(if rs == [] then v else Assigned(f, rs[|rs| - 1].payload))
    decreases |rs|
  {
    if rs != [] {
      assert Update(f, rs[0].payload, v) == Some(Assigned(f, rs[0].payload));
      SingleFold(f, Assigned(f, rs[0].payload), rs[1..]);
    }
  }

  /** "Last One Wins": a number, string or bytes field holds the last value sent; never sent, it is unchanged. */
  lemma {:induction false} LastOneWins(s: Schema, m: Msg, rs: seq<Record>, k: nat)
    requires k in s.fields && !OneofAt(s, k) && Single(s.fields[k].kind) && Fold(s, m, rs).Some?
    ensures var sent := Select(s, rs, FieldKey(k));
            Slot(Fold(s, m, rs).value, k) ==
            if sent == [] then Slot(m, k) else Assigned(s.fields[k], sent[|sent| - 1].payload)
  {
    hide Fold, Select, FoldSlot, Assigned;
    FieldIsFoldOfItsRecords(s, m, rs, k);
    SingleFold(s.fields[k], Slot(m, k), Select(s, rs, FieldKey(k)));
  }

  function Contents(rs: seq<Record>): bytes
  {
    if rs == [] then [] else PayloadBytes(rs[0].payload) + Contents(rs[1..])
  }

  /** A sub-message sent in parts is the sub-message sent in one piece. */
  lemma {:induction false} SubFold(f: Field, v: Option<Value>, rs: seq<Record>)
    requires f.kind.Sub? && rs != [] && FoldSlot(f, v, rs).Some?
    ensures Parse(f.kind.schema, MsgOf(v), Contents(rs)).Done?
    ensures FoldSlot(f, v, rs) == Some(Some(SubV(Parse(f.kind.schema, MsgOf(v), Contents(rs)).m)))
    decreases |rs|
  {
    hide Parse;
    var x := PayloadBytes(rs[0].payload);
    var c := Parse(f.kind.schema, MsgOf(v), x).m;
    if |rs| == 1 {
      assert x + [] == x;
      assert Contents(rs[1..]) == [];
    } else {
      SubFold(f, Some(SubV(c)), rs[1..]);
      Resume(f.kind.schema, MsgOf(v), x, Contents(rs[1..]));
    }
  }

  // ---------------------------------------------------------------- what a oneof ends up holding

  /** The records of alternative `k` that no other alternative follows. */
  function LastRun(q: seq<Record>, k: nat): (run: seq<Record>)
    ensures |run| <= |q| && run == q[|q| - |run|..]
    ensures forall r | r in run :: r.num == k
    ensures run == [] <==> q == [] || q[|q| - 1].num != k
  {
    if q == [] || q[|q| - 1].num != k then []
    else
      var run := LastRun(q[..|q| - 1], k);
      assert q[|q| - 1 - |run|..] == q[..|q| - 1][|q| - 1 - |run|..] + [q[|q| - 1]];
      run + [q[|q| - 1]]
  }

  /** The effect on alternative `k` of all records of the oneof: any other alternative empties it. */
  function FoldAlternative(f: Field, k: nat, v: Option<Value>, q: seq<Record>): Option<Option<Value>>
    decreases |q|
  {
    if q == [] then Some(v)
    else if q[0].num != k then FoldAlternative(f, k, None, q[1..])
    else
      match Update(f, q[0].payload, v)
      case None => None
      case Some(v') => FoldAlternative(f, k, v', q[1..])
  }

  lemma {:induction false} AlternativeIsFold(s: Schema, m: Msg, rs: seq<Record>, k: nat)
    requires OneofAt(s, k) && Fold(s, m, rs).Some?
    ensures FoldAlternative(s.fields[k], k, Slot(m, k), Select(s, rs, OneofKey)) == Some(Slot(Fold(s, m, rs).value, k))
    decreases |rs|
  {
    hide Update, PutSlot;
    if rs != [] {
      var r := rs[0];
      AlternativeIsFold(s, Apply(s, m, r).value, rs[1..], k);
      var rest := Select(s, rs[1..], OneofKey);
      if Known(s, r) { PutSlots(s, m, r.num, Update(s.fields[r.num], r.payload, Slot(m, r.num)).value, k); }
      if KeyOf(s, r) == OneofKey {
        assert Select(s, rs, OneofKey) == [r] + rest;
        assert ([r] + rest)[1..] == rest;
      } else {
        assert Select(s, rs, OneofKey) == rest;
      }
    }
  }

  lemma {:induction false} AlternativeSnoc(f: Field, k: nat, v: Option<Value>, q: seq<Record>, r: Record)
    ensures FoldAlternative(f, k, v, q + [r]) ==
            match FoldAlternative(f, k, v, q)
            case None => None
            case Some(w) => if r.num != k then Some(None) else Update(f, r.payload, w)
    decreases |q|
  {
    hide Update;
    if q == [] {
      assert [r][1..] == [];
    } else {
      assert (q + [r])[1..] == q[1..] + [r];
      if q[0].num != k {
        AlternativeSnoc(f, k, None, q[1..], r);
      } else if Update(f, q[0].payload, v).Some? {
        AlternativeSnoc(f, k, Update(f, q[0].payload, v).value, q[1..], r);
      }
    }
  }

  lemma {:induction false} SlotSnoc(f: Field, v: Option<Value>, q: seq<Record>, r: Record)
    ensures FoldSlot(f, v, q + [r]) ==
            match FoldSlot(f, v, q)
            case None => None
            case Some(w) => Update(f, r.payload, w)
    decreases |q|
  {
    hide Update;
    if q == [] {
      assert [r][1..] == [];
    } else {
      assert (q + [r])[1..] == q[1..] + [r];
      if Update(f, q[0].payload, v).Some? { SlotSnoc(f, Update(f, q[0].payload, v).value, q[1..], r); }
    }
  }

  lemma {:induction false} AlternativeIsLastRun(f: Field, k: nat, v: Option<Value>, q: seq<Record>)
    requires FoldAlternative(f, k, v, q).Some?
    ensures var run := LastRun(q, k);
            FoldAlternative(f, k, v, q) == FoldSlot(f, if run == q then v else None, run)
    decreases |q|
  {
    hide Update;
    if q != [] {
      var init, r := q[..|q| - 1], q[|q| - 1];
      assert q == init + [r];
      AlternativeSnoc(f, k, v, init, r);
      AlternativeIsLastRun(f, k, v, init);
      var run := LastRun(init, k);
      if r.num == k {
        assert LastRun(q, k) == run + [r];
        assert run == init <==> run + [r] == q;
        SlotSnoc(f, if run == init then v else None, run, r);
      }
    }
  }

  /**
    A oneof alternative holds what its own records make of it, counting from the last record of another
    alternative; nothing in between reaches it.
   */
  lemma {:induction false} OneofIsLastRun(s: Schema, m: Msg, rs: seq<Record>, k: nat)
    requires OneofAt(s, k) && Fold(s, m, rs).Some?
    ensures var q := Select(s, rs, OneofKey);
            var run := LastRun(q, k);
            FoldSlot(s.fields[k], if run == q then Slot(m, k) else None, run) == Some(Slot(Fold(s, m, rs).value, k))
  {
    hide Fold, FoldSlot, FoldAlternative;
    AlternativeIsFold(s, m, rs, k);
    AlternativeIsLastRun(s.fields[k], k, Slot(m, k), Select(s, rs, OneofKey));
  }

  lemma {:induction false} PresentAfter(f: Field, v: Option<Value>, rs: seq<Record>)
    requires f.explicit && rs != [] && FoldSlot(f, v, rs).Some?
    ensures FoldSlot(f, v, rs).value.Some?
    decreases |rs|
  {
    hide Parse, ParseEntry;
    if |rs| > 1 { PresentAfter(f, Update(f, rs[0].payload, v).value, rs[1..]); }
  }

  /** After accepted records of a oneof exactly the alternative of the last one is present, whatever was before. */
  lemma {:induction false} OneofShowsLast(s: Schema, m: Msg, rs: seq<Record>, k: nat)
    requires WFSchema(s) && OneofAt(s, k) && Fold(s, m, rs).Some? && Select(s, rs, OneofKey) != []
    ensures var q := Select(s, rs, OneofKey);
            Slot(Fold(s, m, rs).value, k).Some? <==> k == q[|q| - 1].num
  {
    hide Fold, Select;
    var q := Select(s, rs, OneofKey);
    OneofIsLastRun(s, m, rs, k);
    if k == q[|q| - 1].num {
      PresentAfter(s.fields[k], if LastRun(q, k) == q then Slot(m, k) else None, LastRun(q, k));
    }
  }

  /** A number or string of a oneof holds the last value sent. */
  lemma {:induction false} OneofHoldsLast(s: Schema, m: Msg, rs: seq<Record>)
    requires Fold(s, m, rs).Some? && Select(s, rs, OneofKey) != []
    ensures var q := Select(s, rs, OneofKey);
            var last := q[|q| - 1];
            OneofAt(s, last.num)
            && (Single(s.fields[last.num].kind) ==>
                  Slot(Fold(s, m, rs).value, last.num) == Assigned(s.fields[last.num], last.payload))
  {
    hide Fold, Select, FoldSlot, Assigned;
    var q := Select(s, rs, OneofKey);
    var k := q[|q| - 1].num;
    assert q[|q| - 1] in q;
    OneofIsLastRun(s, m, rs, k);
    if Single(s.fields[k].kind) {
      SingleFold(s.fields[k], if LastRun(q, k) == q then Slot(m, k) else None, LastRun(q, k));
    }
  }

  /** A sub-message of a oneof is parsed from its last run as from one piece: onto what was there, or from empty. */
  lemma {:induction false} OneofMergesLastRun(s: Schema, m: Msg, rs: seq<Record>)
    requires Fold(s, m, rs).Some? && Select(s, rs, OneofKey) != []
    ensures var q := Select(s, rs, OneofKey);
            var k := q[|q| - 1].num;
            var run := LastRun(q, k);
            OneofAt(s, k)
            && (s.fields[k].kind.Sub? ==>
                  var c := Parse(s.fields[k].kind.schema, if run == q then MsgOf(Slot(m, k)) else EMPTY, Contents(run));
                  c.Done? && Slot(Fold(s, m, rs).value, k) == Some(SubV(c.m)))
  {
    hide Fold, Select, FoldSlot, Parse;
    var q := Select(s, rs, OneofKey);
    var k := q[|q| - 1].num;
    assert q[|q| - 1] in q;
    OneofIsLastRun(s, m, rs, k);
    if s.fields[k].kind.Sub? {
      SubFold(s.fields[k], if LastRun(q, k) == q then Slot(m, k) else None, LastRun(q, k));
    }
  }

  // ---------------------------------------------------------------- whether records are accepted

  /** What field `k` makes of its own records, or of those of its oneof. */
  function FieldFold(s: Schema, m: Msg, rs: seq<Record>, k: nat): Option<Option<Value>>
    requires k in s.fields
  {
    if OneofAt(s, k) then FoldAlternative(s.fields[k], k, Slot(m, k), Select(s, rs, OneofKey))
    else FoldSlot(s.fields[k], Slot(m, k), Select(s, rs, FieldKey(k)))
  }

  lemma FieldFoldStep(s: Schema, m: Msg, rs: seq<Record>, k: nat)
    requires k in s.fields && rs != [] && Apply(s, m, rs[0]).Some?
    ensures FieldFold(s, m, rs, k) == FieldFold(s, Apply(s, m, rs[0]).value, rs[1..], k)
  {
    hide Update, PutSlot;
    var r := rs[0];
    var key := if OneofAt(s, k) then OneofKey else FieldKey(k);
    var rest := Select(s, rs[1..], key);
    if Known(s, r) { PutSlots(s, m, r.num, Update(s.fields[r.num], r.payload, Slot(m, r.num)).value, k); }
    if KeyOf(s, r) == key {
      assert Select(s, rs, key) == [r] + rest;
      assert ([r] + rest)[1..] == rest;
    } else {
      assert Select(s, rs, key) == rest;
    }
  }

  lemma {:induction false} RejectedByField(s: Schema, m: Msg, rs: seq<Record>) returns (k: nat)
    requires Fold(s, m, rs).None?
    ensures k in s.fields && FieldFold(s, m, rs, k).None?
    decreases |rs|
  {
    hide Update, FoldSlot, FoldAlternative, FieldFold;
    if Apply(s, m, rs[0]).Some? {
      k := RejectedByField(s, Apply(s, m, rs[0]).value, rs[1..]);
      FieldFoldStep(s, m, rs, k);
    } else {
      k := rs[0].num;
      RejectedAtOnce(s, m, rs);
    }
  }

  lemma RejectedAtOnce(s: Schema, m: Msg, rs: seq<Record>)
    requires rs != [] && Apply(s, m, rs[0]).None?
    ensures rs[0].num in s.fields && FieldFold(s, m, rs, rs[0].num).None?
  {
    hide Update;
    var key := KeyOf(s, rs[0]);
    assert Select(s, rs, key)[0] == rs[0];
  }

  /** Records are accepted exactly when every field accepts its own, or those of its oneof. */
  lemma {:induction false} AcceptedByEveryField(s: Schema, m: Msg, rs: seq<Record>)
    ensures Fold(s, m, rs).Some? <==> forall k | k in s.fields :: FieldFold(s, m, rs, k).Some?
  {
    hide Fold, FoldSlot, FoldAlternative, Select;
    if Fold(s, m, rs).Some? {
      forall k | k in s.fields
        ensures FieldFold(s, m, rs, k).Some?
      {
        if OneofAt(s, k) { AlternativeIsFold(s, m, rs, k); } else { FieldIsFoldOfItsRecords(s, m, rs, k); }
      }
    } else {
      var k := RejectedByField(s, m, rs);
    }
  }

  // ---------------------------------------------------------------- nothing is dropped

  /** Records the switch does not take are kept, all of them and in order, after those already there. */
  lemma {:induction false} NothingDropped(s: Schema, m: Msg, rs: seq<Record>)
    requires Fold(s, m, rs).Some?
    ensures Fold(s, m, rs).value.unknown == m.unknown + Select(s, rs, UnknownKey)
    decreases |rs|
  {
    hide Update, PutSlot;
    if rs == [] {
      assert m.unknown + [] == m.unknown;
    } else {
      NothingDropped(s, Apply(s, m, rs[0]).value, rs[1..]);
      var rest := Select(s, rs[1..], UnknownKey);
      if Known(s, rs[0]) {
        PutSlots(s, m, rs[0].num, Update(s.fields[rs[0].num], rs[0].payload, Slot(m, rs[0].num)).value, 0);
        assert [] + rest == rest;
      } else {
        assert m.unknown + [rs[0]] + rest == m.unknown + ([rs[0]] + rest);
      }
    }
  }
}
