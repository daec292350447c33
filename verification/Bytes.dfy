/** Bytes, byte sequences and the arithmetic of equal-sized chunks. */
module Bytes {

  type byte = x: int | 0 <= x < 256

  type bytes = seq<byte>

  /** `s` with `bs` written over it at `p`. */
  function Splice(s: bytes, p: nat, bs: bytes): (r: bytes)
    requires p + |bs| <= |s|
    ensures |r| == |s|
  {
    s[..p] + bs + s[p + |bs|..]
  }

  lemma SpliceOn(s: bytes, p: nat, bs: bytes, i: nat, j: nat)
    requires i <= j <= |bs| && p + |bs| <= |s|
    ensures Splice(Splice(s, p, bs[..i]), p + i, bs[i..j]) == Splice(s, p, bs[..j])
  {
  }

  lemma SpliceNothing(s: bytes, p: nat)
    requires p <= |s|
    ensures Splice(s, p, []) == s
  {
  }

  lemma SpliceAll(s: bytes, p: nat, bs: bytes, n: nat)
    requires p + |bs| <= |s| && n == |bs|
    ensures Splice(s, p, bs[..n]) == Splice(s, p, bs)
  {
    assert bs[..n] == bs;
  }

  lemma SliceOn(s: bytes, a: nat, i: nat, j: nat)
    requires a <= i <= j <= |s|
    ensures s[a..i] + s[i..j] == s[a..j]
  {
  }

  lemma SliceOfPrefix(s: bytes, k: nat, i: nat, j: nat)
    requires i <= j <= k <= |s|
    ensures s[..k][i..j] == s[i..j]
  {
  }

  lemma ConcatAssociates(x: bytes, y: bytes, z: bytes)
    ensures (x + y) + z == x + (y + z)
  {
  }

  lemma TakeFront(data: bytes, tail: bytes)
    ensures (data + tail)[..|data|] == data && (data + tail)[|data|..] == tail
  {
  }

  function Flat(cs: seq<bytes>): bytes {
    if cs == [] then [] else cs[0] + Flat(cs[1..])
  }

  predicate Uniform(cs: seq<bytes>, b: nat) {
    forall i :: 0 <= i < |cs| ==> |cs[i]| == b
  }

  lemma {:induction false} FlatLength(cs: seq<bytes>, b: nat)
    requires Uniform(cs, b)
    ensures |Flat(cs)| == Span(b, |cs|)
  {
    if cs != [] {
      FlatLength(cs[1..], b);
    }
  }

  lemma {:induction false} FlatAppend(cs: seq<bytes>, ds: seq<bytes>)
    ensures Flat(cs + ds) == Flat(cs) + Flat(ds)
  {
    if cs == [] {
      assert cs + ds == ds;
    } else {
      assert (cs + ds)[1..] == cs[1..] + ds;
      FlatAppend(cs[1..], ds);
    }
  }

  /** The flat sequence, cut at chunk `i`. */
  lemma FlatAround(cs: seq<bytes>, b: nat, i: nat)
    requires Uniform(cs, b) && i < |cs|
    ensures Flat(cs) == Flat(cs[..i]) + cs[i] + Flat(cs[i + 1..])
    ensures |Flat(cs[..i])| == Span(b, i)
  {
    assert cs == cs[..i] + ([cs[i]] + cs[i + 1..]);
    FlatAppend(cs[..i], [cs[i]] + cs[i + 1..]);
    FlatLength(cs[..i], b);
  }

  /** Writing inside one chunk is writing into the flat sequence. */
  lemma WriteInChunk(cs: seq<bytes>, b: nat, i: nat, at: nat, bs: bytes)
    requires Uniform(cs, b) && i < |cs| && at + |bs| <= b
    ensures Span(b, i) + at + |bs| <= |Flat(cs)|
    ensures Uniform(cs[i := Splice(cs[i], at, bs)], b)
    ensures Flat(cs[i := Splice(cs[i], at, bs)]) == Splice(Flat(cs), Span(b, i) + at, bs)
  {
    var ds := cs[i := Splice(cs[i], at, bs)];
    FlatAround(cs, b, i);
    FlatAround(ds, b, i);
    assert ds[..i] == cs[..i] && ds[i + 1..] == cs[i + 1..];
  }

  /** Reading inside one chunk is reading the flat sequence. */
  lemma ReadInChunk(cs: seq<bytes>, b: nat, i: nat, at: nat, n: nat)
    requires Uniform(cs, b) && i < |cs| && at + n <= b
    ensures Span(b, i) + at + n <= |Flat(cs)|
    ensures cs[i][at..at + n] == Flat(cs)[Span(b, i) + at..Span(b, i) + at + n]
  {
    FlatAround(cs, b, i);
  }

  // --------------------------------------------------------------- arithmetic

  lemma DivModUnique(p: nat, b: nat, q: nat, r: nat)
    requires b > 0 && p == b * q + r && r < b
    ensures p / b == q && p % b == r
  {
    assert p == b * (p / b) + p % b;
    assert b * (q - p / b) == p % b - r;
    assert b * (p / b - q) == r - p % b;
    SmallMultiple(b, q - p / b);
  }

  lemma SmallMultiple(b: nat, k: int)
    requires b * k < b && b * -k < b
    ensures k == 0
  {
    if k > 0 {
      MulMonotone(b, 1, k);
    } else if k < 0 {
      MulMonotone(b, 1, -k);
    }
  }

  lemma MulMonotone(b: nat, m: nat, n: nat)
    requires m <= n
    ensures b * m <= b * n
  {
  }

  lemma MulAdd(b: nat, m: nat, n: nat)
    ensures b * (m + n) == b * m + b * n
  {
  }

  /** The size of `n` chunks of `b` bytes. */
  function Span(b: nat, n: nat): nat {
    if n == 0 then 0 else Span(b, n - 1) + b
  }

  lemma {:induction false} SpanIsProduct(b: nat, n: nat)
    ensures Span(b, n) == b * n
  {
    if n > 0 {
      SpanIsProduct(b, n - 1);
      MulAdd(b, n - 1, 1);
    }
  }

  lemma {:induction false} SpanAdd(b: nat, m: nat, n: nat)
    ensures Span(b, m + n) == Span(b, m) + Span(b, n)
  {
    if n > 0 {
      SpanAdd(b, m, n - 1);
    }
  }

  lemma SpanMonotone(b: nat, m: nat, n: nat)
    requires m <= n
    ensures Span(b, m) <= Span(b, n)
  {
    SpanAdd(b, m, n - m);
  }

  /** The chunk that holds a position is the only one that does. */
  lemma SlotUnique(p: nat, b: nat, slot: nat)
    requires b > 0 && Span(b, slot) <= p < Span(b, slot) + b
    ensures p / b == slot && p % b == p - Span(b, slot)
  {
    SpanIsProduct(b, slot);
    DivModUnique(p, b, slot, p - b * slot);
  }

  /** Chunks needed for `n` more bytes: the ceiling of n / b. */
  function CeilDiv(n: nat, b: nat): nat
    requires b > 0
  {
    (n + b - 1) / b
  }

  lemma CeilDivBounds(n: nat, b: nat)
    requires b > 0
    ensures n <= Span(b, CeilDiv(n, b)) < n + b
  {
    var m := n + b - 1;
    assert m == b * (m / b) + m % b;
    SpanIsProduct(b, CeilDiv(n, b));
  }
}
