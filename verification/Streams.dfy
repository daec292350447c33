/** A byte stream (src/streams/Stream.cpp): what the peer has sent and is still unread, and what
    has been written.  A single read returns any part of what was asked for. */
module Streams {
  import opened Bytes
  import opened FlatBuffer
  import opened ByteArrays
  import opened ByteBuffers

  class Stream {
    var input: bytes
    var output: bytes
    var closed: bool

    constructor (input: bytes)
      ensures this.input == input && output == [] && !closed
    {
      this.input, output, closed := input, [], false;
    }

    /** At least one byte if there is one, and no more than asked for. */
    method Read(n: nat) returns (data: bytes)
      modifies `input
      ensures |data| <= n && |data| <= |old(input)|
      ensures data == old(input)[..|data|] && input == old(input)[|data|..]
      ensures n > 0 && old(input) != [] ==> |data| > 0
    {
      data := [];
      if n > 0 && input != [] {
        var k :| 1 <= k <= n && k <= |input|;
        data, input := input[..k], input[k..];
      }
    }

    /** Read until `n` bytes are there; zero when the stream ends before. */
    method ReadFixSize(n: nat) returns (rt: nat, data: bytes)
      modifies `input
      ensures n <= |old(input)| ==> rt == n && data == old(input)[..n] && input == old(input)[n..]
      ensures n > |old(input)| ==> rt == 0 && input == []
    {
      ghost var whole := input;
      data := [];
      var left: nat := n;
      while left > 0
        invariant left <= n && n - left <= |whole|
        invariant data == whole[..n - left] && input == whole[n - left..]
      {
        var more := Read(left);
        if |more| == 0 {
          return 0, data;
        }
        SliceOn(whole, 0, n - left, n - left + |more|);
        data := data + more;
        left := left - |more|;
      }
      return n, data;
    }

    /** `n - left` bytes of `whole` have been moved from the stream to the position of the array,
        for which room has been made by the first read. */
    ghost predicate Moved(ba: ByteArray, whole: bytes, before: Buf, n: nat, left: nat)
      reads this, ba, ba.Repr
    {
      && ba.Valid() && this !in ba.Repr && Legal(before)
      && left <= n && n - left <= |whole| && input == whole[n - left..]
      && ba.View() == Filling(before, whole, n, left)
    }

    /** `SocketStream::read`: the buffers of the room behind the position take what comes. */
    method ReadSome(ba: ByteArray, n: nat) returns (k: nat)
      requires ba.Valid() && n > 0 && this !in ba.Repr
      modifies `input, ba, ba.Repr
      ensures ba.Valid() && fresh(ba.Repr - old(ba.Repr)) && ba.order == old(ba.order)
      ensures k <= n && k <= |old(input)| && input == old(input)[k..] && (k == 0 ==> old(input) == [])
      ensures k > 0 ==> Legal(Roomy(old(ba.View()), n)) && ba.View() == Put(Roomy(old(ba.View()), n), old(input)[..k])
    {
      var buffers := GetWriteBuffers(ba, n);
      var more := Read(n);
      k := |more|;
      if k > 0 {
        Receive(ba, n, buffers, more);
      }
    }

    method MoveSome(ba: ByteArray, left: nat, ghost whole: bytes, ghost before: Buf, ghost n: nat) returns (k: nat)
      requires Moved(ba, whole, before, n, left) && left > 0
      modifies `input, ba, ba.Repr
      ensures ba.Valid() && fresh(ba.Repr - old(ba.Repr)) && ba.order == old(ba.order)
      ensures k == 0 ==> |whole| < n && input == []
      ensures k > 0 ==> k <= left && Moved(ba, whole, before, n, left - k)
    {
      k := ReadSome(ba, left);
      if k > 0 {
        FillingOn(before, whole, n, left, k);
      }
    }

    lemma NothingMoved(ba: ByteArray, n: nat)
      requires ba.Valid() && this !in ba.Repr
      ensures Moved(ba, input, ba.View(), n, n)
    {
      assert input[0..] == input;
    }

    lemma AllMoved(ba: ByteArray, whole: bytes, before: Buf, n: nat)
      requires Moved(ba, whole, before, n, 0)
      ensures ba.Valid() && n <= |whole| && input == whole[n..] && ba.View() == Put(before, whole[..n])
    {
      FilledUp(before, whole, n);
    }

    /** The same, into a byte array. */
    method ReadInto(ba: ByteArray, n: nat) returns (rt: nat)
      requires ba.Valid() && this !in ba.Repr
      modifies `input, ba, ba.Repr
      ensures ba.Valid() && fresh(ba.Repr - old(ba.Repr)) && ba.order == old(ba.order)
      ensures n <= |old(input)| ==>
              rt == n && input == old(input)[n..]
              && ba.View() == Put(old(ba.View()), old(input)[..n])
      ensures n > |old(input)| ==> rt == 0 && input == []
    {
      ghost var whole, before := input, ba.View();
      NothingMoved(ba, n);
      var left: nat := n;
      while left > 0
        invariant Moved(ba, whole, before, n, left)
        invariant fresh(ba.Repr - old(ba.Repr)) && ba.order == old(ba.order)
      {
        var k := MoveSome(ba, left, whole, before, n);
        if k == 0 {
          return 0;
        }
        left := left - k;
      }
      AllMoved(ba, whole, before, n);
      return n;
    }

    /** Some of the bytes, at least one if there are any. */
    method Write(data: bytes) returns (k: nat)
      modifies `output
      ensures k <= |data| && (data != [] ==> k > 0)
      ensures output == old(output) + data[..k]
    {
      k := 0;
      if data != [] {
        k :| 1 <= k <= |data|;
      }
      output := output + data[..k];
    }

    /** Write until everything is out. */
    method WriteFixSize(data: bytes) returns (rt: nat)
      modifies `output
      ensures rt == |data| && output == old(output) + data
    {
      ghost var before := output;
      var left: nat := |data|;
      while left > 0
        invariant left <= |data| && output == before + data[..|data| - left]
      {
        var k := Write(data[|data| - left..]);
        SliceOn(data, 0, |data| - left, |data| - left + k);
        left := left - k;
      }
      return |data|;
    }

    /** `SocketStream::write`: part of the buffers of what is written goes out. */
    method WriteSome(ba: ByteArray, left: nat) returns (k: nat)
      requires ba.Valid() && left > 0 && this !in ba.Repr
      modifies `output, ba`position, ba`size, ba`cur, ba`slot
      ensures ba.Valid() && k <= left && k <= old(ba.size - ba.position) && (k == 0 <==> old(ba.size == ba.position))
      ensures ba.View() == old(ba.View()).(pos := old(ba.position) + k)
      ensures output == old(output) + old(ba.View()).data[old(ba.position)..old(ba.position) + k]
    {
      k := 0;
      if ba.size > ba.position {
        k :| 1 <= k <= left && k <= ba.size - ba.position;
      }
      var part := Send(ba, left, k);
      output := output + part;
    }

    /** The bytes of `b` from its position up to `at` have gone from the array into the stream. */
    ghost predicate Sent(ba: ByteArray, before: bytes, b: Buf, at: nat)
      reads this, ba, ba.Repr
    {
      && ba.Valid() && this !in ba.Repr && b.pos <= at <= |b.data|
      && ba.View() == b.(pos := at) && output == before + b.data[b.pos..at]
    }

    method SendSome(ba: ByteArray, left: nat, ghost before: bytes, ghost b: Buf, ghost at: nat) returns (k: nat)
      requires Sent(ba, before, b, at) && left > 0
      modifies `output, ba`position, ba`size, ba`cur, ba`slot
      ensures k <= left && at + k <= |b.data| && (k == 0 <==> at == |b.data|) && Sent(ba, before, b, at + k)
    {
      k := WriteSome(ba, left);
      SliceOn(b.data, b.pos, at, at + k);
    }

    /** The same, from the position of a byte array, which moves on by what has been taken.  Asked
        for more than is written there, it sends all of that and then fails. */
    method WriteFrom(ba: ByteArray, n: nat) returns (rt: nat)
      requires ba.Valid() && this !in ba.Repr
      modifies `output, ba`position, ba`size, ba`cur, ba`slot
      ensures ba.Valid() && rt == if n <= old(ba.size - ba.position) then n else 0
      ensures var k := if n <= old(ba.size - ba.position) then n else old(ba.size - ba.position);
        && ba.View() == old(ba.View()).(pos := old(ba.position) + k)
        && output == old(output) + old(ba.View()).data[old(ba.position)..old(ba.position) + k]
    {
      ghost var before, b, at := output, ba.View(), ba.position;
      var left: nat := n;
      while left > 0
        invariant left <= n && at == b.pos + (n - left) && Sent(ba, before, b, at)
      {
        var k := SendSome(ba, left, before, b, at);
        if k == 0 {
          return 0;
        }
        left, at := left - k, at + k;
      }
      return n;
    }
  }

  /** The array while it is being filled: room for `n` bytes, of which `data` is there. */
  ghost function Filled(b: Buf, data: bytes, n: nat): Buf
    requires Legal(b)
  {
    Put(b, data).(cap := Grown(b, n))
  }

  /** The first read makes the room. */
  ghost function Filling(b: Buf, whole: bytes, n: nat, left: nat): Buf
    requires Legal(b) && left <= n && n - left <= |whole|
  {
    if left == n then b else Filled(b, whole[..n - left], n)
  }

  /** Room for `n` bytes at the position. */
  ghost function Roomy(b: Buf, n: nat): Buf
    requires Legal(b)
  {
    b.(cap := Grown(b, n))
  }

  lemma {:induction false} RoomIsLegal(b: Buf, n: nat)
    requires Legal(b)
    ensures b.pos + n <= Grown(b, n) && Legal(Roomy(b, n))
  {
    CeilDivBounds(if n <= b.cap - b.pos then 0 else n - (b.cap - b.pos), b.base);
  }

  /** The later reads find the room that the first one has made. */
  lemma {:induction false} FilledFurther(b: Buf, data: bytes, more: bytes, n: nat)
    requires Legal(b) && |data| + |more| <= n
    ensures var b' := if data == [] then b else Filled(b, data, n);
      && Legal(b') && Legal(Roomy(b', n - |data|))
      && Put(Roomy(b', n - |data|), more) == Filled(b, data + more, n)
  {
    RoomIsLegal(b, n);
    OverwrittenOn(b.data, b.pos, data, more);
    if data == [] {
      assert data + more == more;
    }
  }

  lemma {:induction false} FillingOn(b: Buf, whole: bytes, n: nat, left: nat, k: nat)
    requires Legal(b) && 0 < k <= left <= n && n - left + k <= |whole|
    ensures var b' := Filling(b, whole, n, left);
      && Legal(b') && Legal(Roomy(b', left))
      && Put(Roomy(b', left), whole[n - left..][..k]) == Filling(b, whole, n, left - k)
    ensures whole[n - left..][k..] == whole[n - (left - k)..]
  {
    var done := n - left;
    FilledFurther(b, whole[..done], whole[done..done + k], n);
    SliceOn(whole, 0, done, done + k);
    assert whole[done..][..k] == whole[done..done + k];
  }

  lemma {:induction false} FilledUp(b: Buf, whole: bytes, n: nat)
    requires Legal(b) && n <= |whole|
    ensures Filling(b, whole, n, 0) == Put(b, whole[..n])
  {
    if n == 0 {
      assert Overwritten(b.data, b.pos, []) == b.data;
    }
  }
}
