/** The byte array as its users see it: bytes, a position and a capacity. */
module FlatBuffer {
  import opened Bytes

  /** `data` is what has been written (its length is the array's size); `cap` grows in
      steps of `base`. */
  datatype Buf = Buf(base: nat, data: bytes, pos: nat, cap: nat)

  predicate Legal(b: Buf) {
    b.base > 0 && b.pos <= |b.data| <= b.cap
  }

  function Fresh(base: nat): Buf {
    Buf(base, [], 0, base)
  }

  /** Result of a read.  `OutOfRange` is the exception; `NullCursor` is the dereference of
      the null cursor that a read of nothing performs when the position is at capacity. */
  datatype Out<+T> = Ok(value: T, rest: Buf) | OutOfRange(rest: Buf) | NullCursor {
    predicate IsFailure() { !Ok? }
    function PropagateFailure<U>(): Out<U>
      requires IsFailure()
    {
      if OutOfRange? then OutOfRange(rest) else NullCursor
    }
    function Extract(): (T, Buf)
      requires Ok?
    {
      (value, rest)
    }
  }

  /** Capacity after room for `n` bytes has been made at `pos`. */
  function Grown(b: Buf, n: nat): nat
    requires Legal(b)
  {
    if n <= b.cap - b.pos then b.cap else b.cap + Span(b.base, CeilDiv(n - (b.cap - b.pos), b.base))
  }

  function Overwritten(data: bytes, pos: nat, bs: bytes): bytes
    requires pos <= |data|
  {
    data[..pos] + bs + if pos + |bs| <= |data| then data[pos + |bs|..] else []
  }

  /** Splicing into the whole store is overwriting what of it counts as written. */
  lemma SpliceIsOverwrite(store: bytes, grown: bytes, size: nat, pos: nat, bs: bytes)
    requires store <= grown && pos <= size <= |store| && pos + |bs| <= |grown|
    ensures Splice(grown, pos, bs)[..if pos + |bs| > size then pos + |bs| else size]
            == Overwritten(store[..size], pos, bs)
  {
  }

  /** Overwriting piece by piece is overwriting at once. */
  lemma OverwrittenOn(data: bytes, pos: nat, x: bytes, y: bytes)
    requires pos <= |data|
    ensures pos + |x| <= |Overwritten(data, pos, x)|
    ensures Overwritten(Overwritten(data, pos, x), pos + |x|, y) == Overwritten(data, pos, x + y)
  {
  }

  function Put(b: Buf, bs: bytes): (r: Buf)
    requires Legal(b)
    ensures Legal(r) && r.base == b.base
  {
    CeilDivBounds(if |bs| <= b.cap - b.pos then 0 else |bs| - (b.cap - b.pos), b.base);
    Buf(b.base, Overwritten(b.data, b.pos, bs), b.pos + |bs|, Grown(b, |bs|))
  }

  function Take(b: Buf, n: nat): (r: Out<bytes>)
    requires Legal(b)
    ensures r.Ok? ==> Legal(r.rest) && |r.value| == n && r.rest.data == b.data
  {
    if n > |b.data| - b.pos then OutOfRange(b)
    else if n == 0 && b.pos == b.cap then NullCursor
    else Ok(b.data[b.pos..b.pos + n], b.(pos := b.pos + n))
  }

  // ----------------------------------------------------------------- place by place

  /** Writing changes the places from the position on, moves the position behind them, and lets the
      size grow with it. */
  lemma PutAt(b: Buf, bs: bytes, i: nat)
    requires Legal(b)
    ensures var r := Put(b, bs);
      && r.pos == b.pos + |bs| && |r.data| == (if r.pos > |b.data| then r.pos else |b.data|)
      && (i < |r.data| ==> r.data[i] == if b.pos <= i < r.pos then bs[i - b.pos] else b.data[i])
  {
  }

  /** The capacity grows by chunks, and by no more of them than it takes. */
  lemma PutGrows(b: Buf, bs: bytes) returns (chunks: nat)
    requires Legal(b)
    ensures Put(b, bs).cap == b.cap + b.base * chunks
    ensures chunks > 0 ==> b.cap + b.base * (chunks - 1) < b.pos + |bs| <= b.cap + b.base * chunks
    ensures chunks == 0 <==> b.pos + |bs| <= b.cap
  {
    chunks := 0;
    if |bs| > b.cap - b.pos {
      var more := |bs| - (b.cap - b.pos);
      chunks := CeilDiv(more, b.base);
      CeilDivBounds(more, b.base);
      SpanIsProduct(b.base, chunks);
      MulAdd(b.base, chunks - 1, 1);
    }
  }

  /** Reading gives the places from the position on and moves the position behind them, exactly if
      there are that many and not: none at the capacity. */
  lemma TakeAt(b: Buf, n: nat, i: nat)
    requires Legal(b)
    ensures var r := Take(b, n);
      && (r.OutOfRange? <==> b.pos + n > |b.data|)
      && (r.NullCursor? <==> n == 0 && b.pos == b.cap)
      && (r.OutOfRange? ==> r.rest == b)
      && (r.Ok? ==> r.rest.pos == b.pos + n && r.rest.cap == b.cap && r.rest.base == b.base)
      && (r.Ok? && i < n ==> r.value[i] == b.data[b.pos + i])
  {
  }
}
