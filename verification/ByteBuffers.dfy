/** The byte array as a list of buffers for scattered input and gathered output
    (src/ByteArray.cpp). */
module ByteBuffers {
  import opened Bytes
  import opened FlatBuffer
  import opened ByteArrays

  /** `iovec`: a part of the storage of one node. */
  datatype Iovec = Iovec(mem: array<byte>, start: nat, len: nat)

  /** The parts that hold `n` bytes from offset `at` of node `i` on. */
  ghost function Cover(nodes: seq<Node>, base: nat, i: nat, at: nat, n: nat): seq<Iovec>
    requires at < base
    decreases n
  {
    if n == 0 || i >= |nodes| then []
    else if n <= base - at then [Iovec(nodes[i].data, at, n)]
    else [Iovec(nodes[i].data, at, base - at)] + Cover(nodes, base, i + 1, 0, n - (base - at))
  }

  ghost predicate InRange(buffers: seq<Iovec>) {
    forall k :: 0 <= k < |buffers| ==> buffers[k].start + buffers[k].len <= buffers[k].mem.Length
  }

  /** What the buffers hold together, in their order. */
  ghost function Gathered(buffers: seq<Iovec>): bytes
    requires InRange(buffers)
    reads set k | 0 <= k < |buffers| :: buffers[k].mem
  {
    if buffers == [] then []
    else buffers[0].mem[buffers[0].start..buffers[0].start + buffers[0].len] + Gathered(buffers[1..])
  }

  /** The nodes hold these chunks. */
  ghost predicate Stored(nodes: seq<Node>, chunks: seq<bytes>, base: nat)
    reads set i | 0 <= i < |nodes| :: nodes[i].data
  {
    && |nodes| == |chunks| && Uniform(chunks, base)
    && forall i :: 0 <= i < |nodes| ==> nodes[i].data.Length == base && nodes[i].data[..] == chunks[i]
  }

  lemma {:induction false} ChainIsStored(ba: ByteArray)
    requires ba.Chain()
    ensures Stored(ba.nodes, ba.chunks, ba.baseSize) && |ba.Store()| == ba.capacity == Span(ba.baseSize, |ba.nodes|)
  {
    FlatLength(ba.chunks, ba.baseSize);
  }

  /** How many of `n` bytes from offset `at` on fit the node. */
  ghost function Part(base: nat, at: nat, n: nat): nat
    requires at < base
  {
    if n <= base - at then n else base - at
  }

  lemma {:induction false} FirstPart(nodes: seq<Node>, base: nat, i: nat, at: nat, n: nat)
    requires at < base && n > 0 && Span(base, i) + at + n <= Span(base, |nodes|)
    ensures i < |nodes|
    ensures var k, all := Part(base, at, n), Cover(nodes, base, i, at, n);
      && all != [] && all[0] == Iovec(nodes[i].data, at, k)
      && all[1..] == if k < n then Cover(nodes, base, i + 1, 0, n - k) else []
  {
    if i >= |nodes| {
      SpanMonotone(base, |nodes|, i);
    }
  }

  lemma {:induction false} GatherFirst(buffers: seq<Iovec>)
    requires buffers != [] && InRange(buffers[1..]) && buffers[0].start + buffers[0].len <= buffers[0].mem.Length
    ensures InRange(buffers)
    ensures var v := buffers[0]; Gathered(buffers) == v.mem[v.start..v.start + v.len] + Gathered(buffers[1..])
  {
    assert forall k :: 1 <= k < |buffers| ==> buffers[k] == buffers[1..][k - 1];
  }

  /** A part of one node holds what the flat store has there. */
  lemma {:induction false} PartHolds(nodes: seq<Node>, chunks: seq<bytes>, base: nat, i: nat, at: nat, k: nat)
    requires Stored(nodes, chunks, base) && i < |nodes| && at + k <= base
    ensures var p := Span(base, i) + at;
      && p + k <= |Flat(chunks)| && at + k <= nodes[i].data.Length
      && nodes[i].data[at..at + k] == Flat(chunks)[p..p + k]
  {
    ReadInChunk(chunks, base, i, at, k);
    assert nodes[i].data[..][at..at + k] == nodes[i].data[at..at + k];
  }

  lemma {:induction false} CoverStep(buffers: seq<Iovec>, mem: array<byte>, at: nat, k: nat, store: bytes, p: nat,
                                     n: nat)
    requires at + k <= mem.Length && k <= n && p + n <= |store| && mem[at..at + k] == store[p..p + k]
    requires buffers != [] && buffers[0] == Iovec(mem, at, k) && InRange(buffers[1..])
    requires Gathered(buffers[1..]) == store[p + k..p + n]
    ensures InRange(buffers) && Gathered(buffers) == store[p..p + n]
  {
    GatherFirst(buffers);
    SliceOn(store, p, p + k, p + n);
  }

  /** So the parts of the nodes hold what the flat store has there. */
  lemma {:induction false} CoverGathers(buffers: seq<Iovec>, nodes: seq<Node>, chunks: seq<bytes>, base: nat,
                                        i: nat, at: nat, n: nat)
    requires Stored(nodes, chunks, base) && at < base && Span(base, i) + at + n <= |Flat(chunks)|
    requires buffers == Cover(nodes, base, i, at, n)
    ensures InRange(buffers)
    ensures var p := Span(base, i) + at; Gathered(buffers) == Flat(chunks)[p..p + n]
    decreases n
  {
    if n > 0 {
      FlatLength(chunks, base);
      FirstPart(nodes, base, i, at, n);
      var k := Part(base, at, n);
      PartHolds(nodes, chunks, base, i, at, k);
      if k < n {
        CoverGathers(buffers[1..], nodes, chunks, base, i + 1, 0, n - k);
      }
      CoverStep(buffers, nodes[i].data, at, k, Flat(chunks), Span(base, i) + at, n);
    }
  }

  lemma {:induction false} WrittenPart(ba: ByteArray, i: nat, at: nat, n: nat)
    requires ba.Valid() && at < ba.baseSize && Span(ba.baseSize, i) + at + n <= ba.size
    ensures var buffers, p := Cover(ba.nodes, ba.baseSize, i, at, n), Span(ba.baseSize, i) + at;
      InRange(buffers) && Gathered(buffers) == ba.View().data[p..p + n]
  {
    ChainIsStored(ba);
    CoverGathers(Cover(ba.nodes, ba.baseSize, i, at, n), ba.nodes, ba.chunks, ba.baseSize, i, at, n);
    SliceOfPrefix(ba.Store(), ba.size, Span(ba.baseSize, i) + at, Span(ba.baseSize, i) + at + n);
  }

  /** One turn: the buffers so far and those to come are all the buffers. */
  lemma {:induction false} CoverOn(buffers: seq<Iovec>, nodes: seq<Node>, base: nat, i: nat, at: nat, n: nat)
    requires at < base && i < |nodes| && n > 0
    ensures n <= base - at ==>
              buffers + Cover(nodes, base, i, at, n) == buffers + [Iovec(nodes[i].data, at, n)]
    ensures n > base - at ==>
              buffers + Cover(nodes, base, i, at, n)
              == (buffers + [Iovec(nodes[i].data, at, base - at)]) + Cover(nodes, base, i + 1, 0, n - (base - at))
  {
  }

  /** The loop shared by both kinds of buffers: `len` bytes from offset `npos` of node `cur` on.
      Where the nodes end before, it goes on to the null that the last one links to. */
  method Collect(ba: ByteArray, cur: Node, npos: nat, len: nat, ghost i: nat)
    returns (status: Status, buffers: seq<Iovec>)
    requires ba.Chain() && i < |ba.nodes| && cur == ba.nodes[i] && npos < ba.baseSize && len > 0
    ensures status == if Span(ba.baseSize, i) + npos + len <= ba.capacity then Done else Crashed
    ensures status == Done ==> buffers == Cover(ba.nodes, ba.baseSize, i, npos, len)
  {
    buffers := [];
    var node := cur;
    var at: nat, left: nat := npos, len;
    ghost var j: nat := i;
    ghost var all, end := Cover(ba.nodes, ba.baseSize, i, npos, len), Span(ba.baseSize, i) + npos + len;
    while left > 0
      invariant at < ba.baseSize && j < |ba.nodes| && node == ba.nodes[j]
      invariant left > 0 ==>
              Span(ba.baseSize, j) + at + left == end
              && buffers + Cover(ba.nodes, ba.baseSize, j, at, left) == all
      invariant left == 0 ==> buffers == all && end <= Span(ba.baseSize, j) + ba.baseSize
      decreases left
    {
      CoverOn(buffers, ba.nodes, ba.baseSize, j, at, left);
      var room := node.data.Length - at;
      if room >= left {
        buffers := buffers + [Iovec(node.data, at, left)];
        left := 0;
      } else {
        var next := node.next;
        NextOrEnd(ba, j);
        if next == null {
          return Crashed, buffers;
        }
        buffers := buffers + [Iovec(node.data, at, room)];
        left := left - room;
        node, at, j := next, 0, j + 1;
      }
    }
    SpanMonotone(ba.baseSize, j + 1, |ba.nodes|);
    return Done, buffers;
  }

  lemma {:induction false} NextOrEnd(ba: ByteArray, i: nat)
    requires ba.Chain() && i < |ba.nodes|
    ensures Span(ba.baseSize, i + 1) == Span(ba.baseSize, i) + ba.baseSize
    ensures if i + 1 < |ba.nodes| then ba.nodes[i].next == ba.nodes[i + 1]
            else ba.nodes[i].next == null && ba.capacity == Span(ba.baseSize, i + 1)
  {
  }

  method FromCursor(ba: ByteArray, len: nat) returns (buffers: seq<Iovec>)
    requires ba.Valid() && 0 < len && ba.position + len <= ba.capacity
    ensures buffers == Cover(ba.nodes, ba.baseSize, ba.slot, ba.position - Span(ba.baseSize, ba.slot), len)
  {
    ba.CursorSlot();
    var npos, _ := ba.Offset();
    var status;
    status, buffers := Collect(ba, ba.cur, npos, len, ba.slot);
  }

  method WrittenFromCursor(ba: ByteArray, size: nat) returns (buffers: seq<Iovec>)
    requires ba.Valid() && 0 < size <= ba.size - ba.position
    ensures InRange(buffers) && Gathered(buffers) == ba.View().data[ba.position..ba.position + size]
  {
    buffers := FromCursor(ba, size);
    WrittenPart(ba, ba.slot, ba.position - Span(ba.baseSize, ba.slot), size);
  }

  /** The buffers of the written bytes from the position on. */
  method GetReadBuffers(ba: ByteArray, len: nat) returns (size: nat, buffers: seq<Iovec>)
    requires ba.Valid()
    ensures size == if len > ba.size - ba.position then ba.size - ba.position else len
    ensures InRange(buffers) && Gathered(buffers) == ba.View().data[ba.position..ba.position + size]
  {
    size := if len > ba.size - ba.position then ba.size - ba.position else len;
    buffers := [];
    if size > 0 {
      buffers := WrittenFromCursor(ba, size);
    }
  }

  /** The same from any position on; but the length is still cut to what is left behind the
      array's own position, so the walk and the loop meet the null behind the last node if that
      reaches beyond the capacity. */
  method GetReadBuffersAt(ba: ByteArray, len: nat, at: nat) returns (status: Status, size: nat, buffers: seq<Iovec>)
    requires ba.Valid()
    ensures size == if len > ba.size - ba.position then ba.size - ba.position else len
    ensures status == if size > 0 && at + size > ba.capacity then Crashed else Done
    ensures status == Done && at + size <= ba.size ==>
              InRange(buffers) && Gathered(buffers) == ba.View().data[at..at + size]
  {
    size := if len > ba.size - ba.position then ba.size - ba.position else len;
    buffers := [];
    if size == 0 {
      return Done, size, buffers;
    }
    ChunkAt(ba, at);
    status, buffers := FromRoot(ba, at / ba.baseSize, at % ba.baseSize, size);
  }

  /** `size` bytes from offset `npos` of node `count` on. */
  method FromRoot(ba: ByteArray, count: nat, npos: nat, size: nat) returns (status: Status, buffers: seq<Iovec>)
    requires ba.Valid() && npos < ba.baseSize && size > 0
    ensures var at := Span(ba.baseSize, count) + npos;
      && status == (if at + size > ba.capacity then Crashed else Done)
      && (at + size <= ba.size ==>
            InRange(buffers) && Gathered(buffers) == ba.View().data[at..at + size])
  {
    buffers := [];
    var cur := Walk(ba, count);
    if cur == null {
      SpanMonotone(ba.baseSize, |ba.nodes|, count);
      return Crashed, buffers;
    }
    status, buffers := Collect(ba, cur, npos, size, count);
    if Span(ba.baseSize, count) + npos + size <= ba.size {
      WrittenPart(ba, count, npos, size);
    }
  }

  lemma {:induction false} ChunkAt(ba: ByteArray, p: nat)
    requires ba.baseSize > 0
    ensures p % ba.baseSize < ba.baseSize && Span(ba.baseSize, p / ba.baseSize) + p % ba.baseSize == p
  {
    SpanIsProduct(ba.baseSize, p / ba.baseSize);
  }

  /** `count` links from the root: a node, or the null that ends the walk beyond the last one. */
  method Walk(ba: ByteArray, count: nat) returns (cur: Node?)
    requires ba.Chain()
    ensures cur == if count < |ba.nodes| then ba.nodes[count] else null
  {
    cur := ba.root;
    var left: nat := count;
    ghost var i: nat := 0;
    while left > 0
      invariant i + left == count && i < |ba.nodes| && cur == ba.nodes[i]
    {
      NextOrEnd(ba, i);
      cur, left, i := cur.next, left - 1, i + 1;
      if cur == null {
        return null;
      }
    }
  }

  /** Room for `n` bytes at the position, and its buffers. */
  method GetWriteBuffers(ba: ByteArray, n: nat) returns (buffers: seq<Iovec>)
    requires ba.Valid()
    modifies ba, ba.Repr
    ensures ba.Valid() && fresh(ba.Repr - old(ba.Repr)) && ba.order == old(ba.order)
    ensures ba.View() == old(ba.View()).(cap := old(Grown(ba.View(), n)))
    ensures ba.position + n <= ba.capacity
    ensures buffers == Cover(ba.nodes, ba.baseSize, ba.slot, ba.position - Span(ba.baseSize, ba.slot), n)
  {
    if n == 0 {
      return [];
    }
    ba.Reserve(n);
    buffers := FromCursor(ba, n);
  }

  /** `done` bytes of `data` have gone to `p`; the next one goes to buffer `b`, which is offset
      `at` of node `i`, and `n` bytes fit from there on. */
  ghost predicate Scattering(ba: ByteArray, buffers: seq<Iovec>, data: bytes, b: nat, done: nat,
                             i: nat, at: nat, n: nat, store: bytes, p: nat)
    reads ba, ba.Repr
  {
    && ba.Chain() && b <= |buffers| && done <= |data| && p + |data| <= |store|
    && ba.Store() == Splice(store, p, data[..done])
    && (done < |data| ==>
          && at < ba.baseSize && |data| - done <= n
          && Span(ba.baseSize, i) + at == p + done && p + done + n <= ba.capacity
          && buffers[b..] == Cover(ba.nodes, ba.baseSize, i, at, n))
  }

  lemma {:induction false} NextBuffer(buffers: seq<Iovec>, b: nat, nodes: seq<Node>, base: nat, i: nat, at: nat, n: nat)
    requires at < base && n > 0 && Span(base, i) + at + n <= Span(base, |nodes|)
    requires b <= |buffers| && buffers[b..] == Cover(nodes, base, i, at, n)
    ensures i < |nodes| && b < |buffers| && buffers[b] == Iovec(nodes[i].data, at, Part(base, at, n))
    ensures Part(base, at, n) < n ==> buffers[b + 1..] == Cover(nodes, base, i + 1, 0, n - Part(base, at, n))
  {
    FirstPart(nodes, base, i, at, n);
    assert buffers[b] == buffers[b..][0] && buffers[b + 1..] == buffers[b..][1..];
  }

  /** From the data that has gone into buffer `b` to what is still to come. */
  lemma {:induction false} ScatteringOn(ba: ByteArray, buffers: seq<Iovec>, data: bytes, b: nat, done: nat, k: nat,
                                        i: nat, at: nat, n: nat, store: bytes, p: nat)
    requires ba.Chain() && b < |buffers| && done < done + k <= |data| && p + |data| <= |store|
    requires at < ba.baseSize && |data| - done <= n
    requires Span(ba.baseSize, i) + at == p + done && p + done + n <= ba.capacity
    requires k == if Part(ba.baseSize, at, n) < |data| - done then Part(ba.baseSize, at, n) else |data| - done
    requires Part(ba.baseSize, at, n) < n ==>
               buffers[b + 1..] == Cover(ba.nodes, ba.baseSize, i + 1, 0, n - Part(ba.baseSize, at, n))
    requires ba.Store() == Splice(Splice(store, p, data[..done]), p + done, data[done..done + k])
    ensures Scattering(ba, buffers, data, b + 1, done + k, i + 1, 0, n - Part(ba.baseSize, at, n), store, p)
  {
    SpliceOn(store, p, data, done, done + k);
  }

  /** One buffer is filled, or the last of the data goes into it. */
  method ScatterOne(ba: ByteArray, buffers: seq<Iovec>, data: bytes, b: nat, done: nat,
                    ghost i: nat, ghost at: nat, ghost n: nat, ghost store: bytes, ghost p: nat)
    returns (done': nat, ghost n': nat)
    requires Scattering(ba, buffers, data, b, done, i, at, n, store, p) && done < |data|
    modifies ba`chunks, ba.Repr
    ensures done < done' <= |data| && Scattering(ba, buffers, data, b + 1, done', i + 1, 0, n', store, p)
  {
    NextBuffer(buffers, b, ba.nodes, ba.baseSize, i, at, n);
    var v := buffers[b];
    var k := if v.len < |data| - done then v.len else |data| - done;
    ba.CopyIn(v.mem, v.start, data[done..done + k], i);
    ScatteringOn(ba, buffers, data, b, done, k, i, at, n, store, p);
    done', n' := done + k, n - v.len;
  }

  lemma {:induction false} ScatteringStarts(ba: ByteArray, buffers: seq<Iovec>, data: bytes, i: nat, at: nat, n: nat)
    requires ba.Chain() && at < ba.baseSize && |data| <= n && Span(ba.baseSize, i) + at + n <= ba.capacity
    requires buffers == Cover(ba.nodes, ba.baseSize, i, at, n)
    ensures Scattering(ba, buffers, data, 0, 0, i, at, n, ba.Store(), Span(ba.baseSize, i) + at)
    ensures |ba.Store()| == ba.capacity
  {
    ba.StoreGrows(ba.chunks);
    SpliceNothing(ba.Store(), Span(ba.baseSize, i) + at);
    assert data[..0] == [] && buffers[0..] == buffers;
  }

  lemma {:induction false} ScatteringEnds(ba: ByteArray, buffers: seq<Iovec>, data: bytes, b: nat,
                                          i: nat, at: nat, n: nat, store: bytes, p: nat)
    requires Scattering(ba, buffers, data, b, |data|, i, at, n, store, p)
    ensures ba.Chain() && p + |data| <= |store| && ba.Store() == Splice(store, p, data)
  {
    SpliceAll(store, p, data, |data|);
  }

  /** What a scattering read does: `data` goes into the buffers, one after the other. */
  method Scatter(ba: ByteArray, buffers: seq<Iovec>, data: bytes, ghost i: nat, ghost at: nat, ghost n: nat)
    requires ba.Chain() && at < ba.baseSize && |data| <= n && Span(ba.baseSize, i) + at + n <= ba.capacity
    requires buffers == Cover(ba.nodes, ba.baseSize, i, at, n)
    modifies ba`chunks, ba.Repr
    ensures ba.Chain() && |old(ba.Store())| == ba.capacity
    ensures ba.Store() == Splice(old(ba.Store()), Span(ba.baseSize, i) + at, data)
  {
    ghost var store, p := ba.Store(), Span(ba.baseSize, i) + at;
    ScatteringStarts(ba, buffers, data, i, at, n);
    var b: nat, done: nat := 0, 0;
    ghost var j: nat, off: nat, m: nat := i, at, n;
    while done < |data|
      invariant done <= |data| && Scattering(ba, buffers, data, b, done, j, off, m, store, p)
      decreases |data| - done
    {
      done, m := ScatterOne(ba, buffers, data, b, done, j, off, m, store, p);
      b, j, off := b + 1, j + 1, 0;
    }
    ScatteringEnds(ba, buffers, data, b, j, off, m, store, p);
  }

  /** What the flat buffer is after a splice at the position that stays within the capacity. */
  lemma {:induction false} SplicedIsPut(b: Buf, store: bytes, data: bytes)
    requires Legal(b) && b.data <= store && |store| == b.cap && b.pos + |data| <= b.cap
    ensures var end := b.pos + |data|;
      Put(b, data) == Buf(b.base, Splice(store, b.pos, data)[..if end > |b.data| then end else |b.data|], end, b.cap)
  {
    SpliceIsOverwrite(store, store, |b.data|, b.pos, data);
    assert store[..|b.data|] == b.data;
  }

  /** Data received into the buffers of the room at the position counts as written once the
      position has been set behind it: it is as if it had been written. */
  method Receive(ba: ByteArray, n: nat, buffers: seq<Iovec>, data: bytes)
    requires ba.Valid() && 0 < |data| <= n && ba.position + n <= ba.capacity
    requires buffers == Cover(ba.nodes, ba.baseSize, ba.slot, ba.position - Span(ba.baseSize, ba.slot), n)
    modifies ba, ba.Repr
    ensures ba.Valid() && ba.Repr == old(ba.Repr) && ba.order == old(ba.order)
    ensures ba.View() == Put(old(ba.View()), data)
  {
    ChainIsStored(ba);
    SplicedIsPut(ba.View(), ba.Store(), data);
    Scatter(ba, buffers, data, ba.slot, ba.position - Span(ba.baseSize, ba.slot), n);
    var _ := ba.SetPosition(ba.position + |data|);
  }

  lemma {:induction false} InRangeTail(buffers: seq<Iovec>)
    requires InRange(buffers) && buffers != []
    ensures InRange(buffers[1..])
  {
  }

  /** What a gathering write takes: the first `k` bytes of the buffers. */
  method Gather(buffers: seq<Iovec>, k: nat) returns (data: bytes)
    requires InRange(buffers) && k <= |Gathered(buffers)|
    ensures data == Gathered(buffers)[..k]
  {
    data := [];
    var rest, left: nat := buffers, k;
    while left > 0
      invariant InRange(rest) && left <= k && left <= |Gathered(rest)|
      invariant data + Gathered(rest)[..left] == Gathered(buffers)[..k]
      decreases |rest|
    {
      var part;
      part, left := TakeOne(rest, left, data);
      data, rest := data + part, rest[1..];
    }
  }

  /** What the first buffer gives, and how much is left to come from the others. */
  method TakeOne(buffers: seq<Iovec>, k: nat, ghost data: bytes) returns (part: bytes, left: nat)
    requires InRange(buffers) && 0 < k <= |Gathered(buffers)|
    ensures buffers != [] && InRange(buffers[1..]) && left <= k && left <= |Gathered(buffers[1..])|
    ensures data + Gathered(buffers)[..k] == (data + part) + Gathered(buffers[1..])[..left]
  {
    InRangeTail(buffers);
    var v := buffers[0];
    var n := if v.len < k then v.len else k;
    part, left := v.mem[v.start..v.start + n], k - n;
    SplitPrefix(v.mem[v.start..v.start + v.len], Gathered(buffers[1..]), k, n, data);
    assert v.mem[v.start..v.start + v.len][..n] == part;
  }

  lemma {:induction false} SplitPrefix(first: bytes, rest: bytes, k: nat, n: nat, data: bytes)
    requires k <= |first + rest| && n == if |first| < k then |first| else k
    ensures k - n <= |rest| && data + (first + rest)[..k] == (data + first[..n]) + rest[..k - n]
  {
  }

  /** Part of what is written is sent, and the position set behind it. */
  method Send(ba: ByteArray, len: nat, k: nat) returns (data: bytes)
    requires ba.Valid() && k <= len && k <= ba.size - ba.position
    modifies ba`position, ba`size, ba`cur, ba`slot
    ensures ba.Valid() && ba.View() == old(ba.View()).(pos := old(ba.position) + k)
    ensures data == old(ba.View()).data[old(ba.position)..old(ba.position) + k]
  {
    data := GatherSome(ba, len, k);
    var _ := ba.SetPosition(ba.position + k);
  }

  method GatherSome(ba: ByteArray, len: nat, k: nat) returns (data: bytes)
    requires ba.Valid() && k <= len && k <= ba.size - ba.position
    ensures data == ba.View().data[ba.position..ba.position + k]
  {
    var n, buffers := GetReadBuffers(ba, len);
    PrefixOfSlice(ba.View().data, ba.position, n, k);
    data := Gather(buffers, k);
  }

  lemma {:induction false} PrefixOfSlice(s: bytes, p: nat, n: nat, k: nat)
    requires p + n <= |s| && k <= n
    ensures s[p..p + n][..k] == s[p..p + k]
  {
  }
}
