/** memset, memcpy and memswap over a range of trivially copyable fields, one field a cell. */
module Memory {
  import opened Wire

  /** `dst` with the cells from `lo` to `hi` taken from `src`. */
  function Spliced(dst: seq<u64>, src: seq<u64>, lo: nat, hi: nat): seq<u64>
    requires lo <= hi <= |dst| && hi <= |src|
  {
    dst[..lo] + src[lo..hi] + dst[hi..]
  }

  lemma IsSpliced(r: seq<u64>, dst: seq<u64>, src: seq<u64>, lo: nat, hi: nat)
    requires lo <= hi <= |dst| == |r| && hi <= |src|
    requires forall i | 0 <= i < |r| :: r[i] == if lo <= i < hi then src[i] else dst[i]
    ensures r == Spliced(dst, src, lo, hi)
  {
  }

  /** Copying the range reproduces a run of `n` fields, whatever is in it and whatever was there. */
  ghost predicate Reproduces(n: nat, lo: nat, hi: nat)
    requires lo <= hi <= n
  {
    forall dst: seq<u64>, src: seq<u64> | |dst| == n && |src| == n :: Spliced(dst, src, lo, hi) == src
  }

  /** A range reproduces a run of fields exactly when it spans all of it. */
  lemma {:induction false} ReproducesExactly(n: nat, lo: nat, hi: nat)
    requires lo <= hi <= n
    ensures Reproduces(n, lo, hi) <==> lo == 0 && hi == n
  {
    if lo == 0 && hi == n {
      forall dst: seq<u64>, src: seq<u64> | |dst| == n && |src| == n
        ensures Spliced(dst, src, lo, hi) == src
      {
      }
    } else {
      var i := if lo > 0 then 0 else n - 1;
      var dst, src := seq(n, _ => 0 as u64), seq(n, _ => 1 as u64);
      assert Spliced(dst, src, lo, hi)[i] == 0 != src[i];
    }
  }

  /** Exchanging a range twice restores both runs, whatever the range. */
  lemma {:induction false} ExchangeTwice(a: seq<u64>, b: seq<u64>, lo: nat, hi: nat)
    requires lo <= hi <= |a| == |b|
    ensures Spliced(Spliced(a, b, lo, hi), Spliced(b, a, lo, hi), lo, hi) == a
  {
    var x, y := Spliced(a, b, lo, hi), Spliced(b, a, lo, hi);
    assert x[..lo] == a[..lo] && y[lo..hi] == a[lo..hi] && x[hi..] == a[hi..];
  }

  method MemSet(a: array<u64>, lo: nat, hi: nat)
    requires lo <= hi <= a.Length
    modifies a
    ensures forall i | 0 <= i < a.Length :: a[i] == if lo <= i < hi then 0 else old(a[i])
  {
    for i := lo to hi
      invariant forall j | 0 <= j < a.Length :: a[j] == if lo <= j < i then 0 else old(a[j])
    {
      a[i] := 0;
    }
  }

  method MemCopy(dst: array<u64>, src: array<u64>, lo: nat, hi: nat)
    requires lo <= hi <= dst.Length && hi <= src.Length
    modifies dst
    ensures forall i | 0 <= i < dst.Length :: dst[i] == if lo <= i < hi then old(src[i]) else old(dst[i])
    ensures dst[..] == Spliced(old(dst[..]), old(src[..]), lo, hi)
  {
    hide Spliced;
    for i := lo to hi
      invariant forall j | 0 <= j < dst.Length :: dst[j] == if lo <= j < i then old(src[j]) else old(dst[j])
      invariant dst != src ==> forall j | 0 <= j < src.Length :: src[j] == old(src[j])
    {
      dst[i] := src[i];
    }
    IsSpliced(dst[..], old(dst[..]), old(src[..]), lo, hi);
  }

  method MemSwap(a: array<u64>, b: array<u64>, lo: nat, hi: nat)
    requires lo <= hi <= a.Length && hi <= b.Length
    modifies a, b
    ensures forall i | 0 <= i < a.Length :: a[i] == if lo <= i < hi then old(b[i]) else old(a[i])
    ensures forall i | 0 <= i < b.Length :: b[i] == if lo <= i < hi then old(a[i]) else old(b[i])
    ensures a[..] == Spliced(old(a[..]), old(b[..]), lo, hi) && b[..] == Spliced(old(b[..]), old(a[..]), lo, hi)
  {
    hide Spliced;
    for i := lo to hi
      invariant forall j | 0 <= j < a.Length :: a[j] == if lo <= j < i then old(b[j]) else old(a[j])
      invariant forall j | 0 <= j < b.Length :: b[j] == if lo <= j < i then old(a[j]) else old(b[j])
    {
      a[i], b[i] := b[i], a[i];
    }
    IsSpliced(a[..], old(a[..]), old(b[..]), lo, hi);
    IsSpliced(b[..], old(b[..]), old(a[..]), lo, hi);
  }
}
