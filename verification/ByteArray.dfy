/** The chained byte array (src/ByteArray.cpp, src/ByteArray.h): equal chunks linked from
    a root, and a cursor to the chunk that holds the position. */
module ByteArrays {
  import opened Bytes
  import opened FlatBuffer
  import opened Codec
  import opened TypedValues

  class Node {
    const data: array<byte>
    var next: Node?

    constructor (size: nat)
      ensures fresh(data) && data.Length == size && next == null
    {
      data := new byte[size];
      next := null;
    }
  }

  /** No two nodes, and no two of their storages, are one. */
  ghost predicate Different(nodes: seq<Node>) {
    nodes != [] ==>
      && Different(nodes[..|nodes| - 1])
      && forall i :: 0 <= i < |nodes| - 1 ==> nodes[i] != nodes[|nodes| - 1] && nodes[i].data != nodes[|nodes| - 1].data
  }

  lemma {:induction false} DifferentFrom(nodes: seq<Node>, i: nat)
    requires Different(nodes) && i < |nodes|
    ensures forall j :: 0 <= j < |nodes| && j != i ==> nodes[j] != nodes[i] && nodes[j].data != nodes[i].data
    decreases |nodes|
  {
    var front := nodes[..|nodes| - 1];
    if i < |front| {
      DifferentFrom(front, i);
      assert forall j :: 0 <= j < |front| ==> front[j] == nodes[j];
    }
  }

  lemma {:induction false} DifferentAppend(nodes: seq<Node>, node: Node)
    requires Different(nodes) && forall i :: 0 <= i < |nodes| ==> nodes[i] != node && nodes[i].data != node.data
    ensures Different(nodes + [node])
  {
    assert (nodes + [node])[..|nodes|] == nodes;
  }

  class ByteArray {
    const baseSize: nat
    const host: Order
    var capacity: nat
    var position: nat
    var size: nat
    var order: Order
    var root: Node
    var cur: Node?

    ghost var nodes: seq<Node>
    ghost var chunks: seq<bytes>   // what the nodes hold
    ghost var slot: nat            // index of the cursor's node
    ghost var Repr: set<object>    // the nodes and their storage

    /** The chain: distinct nodes of `baseSize` bytes, linked in order from the root. */
    ghost predicate Chain()
      reads `root, `capacity, `nodes, `chunks, `Repr, Repr
    {
      && this !in Repr
      && baseSize > 0 && |nodes| > 0 && root == nodes[0]
      && |chunks| == |nodes| && capacity == Span(baseSize, |nodes|)
      && (forall i :: 0 <= i < |nodes| ==>
            && nodes[i] in Repr && nodes[i].data in Repr
            && nodes[i].data.Length == baseSize && nodes[i].data[..] == chunks[i])
      && (forall i {:trigger nodes[i].next} :: 0 <= i < |nodes| - 1 ==> nodes[i].next == nodes[i + 1])
      && nodes[|nodes| - 1].next == null
      && Different(nodes)
      && Uniform(chunks, baseSize)
    }

    /** The cursor is at the node that holds the position, or null behind the last node. */
    ghost predicate Placed()
      reads `nodes, `slot, `position, `cur
    {
      && slot <= |nodes|
      && Span(baseSize, slot) <= position < Span(baseSize, slot) + baseSize
      && (slot < |nodes| ==> cur == nodes[slot])
      && (slot == |nodes| ==> cur == null && position == Span(baseSize, slot))
    }

    ghost predicate Valid()
      reads this, Repr
    {
      Chain() && Placed() && position <= size <= capacity
    }

    ghost function Store(): bytes
      reads `chunks
    {
      Flat(chunks)
    }

    /** The array as a flat buffer. */
    ghost function View(): (b: Buf)
      reads this, Repr
      requires Valid()
      ensures Legal(b) && b.base == baseSize && |b.data| == size && b.pos == position && b.cap == capacity
    {
      FlatLength(chunks, baseSize);
      Buf(baseSize, Store()[..size], position, capacity)
    }

    lemma CursorSlot()
      requires Chain() && Placed()
      ensures slot == |nodes| <==> position == capacity
      ensures cur == null <==> position == capacity
      ensures position <= capacity
    {
      if slot < |nodes| {
        SpanMonotone(baseSize, slot + 1, |nodes|);
      }
    }

    /** The cursor is the node numbered position / baseSize, and null exactly at capacity. */
    lemma CursorFollowsPosition()
      requires Valid()
      ensures cur == null <==> position == capacity
      ensures cur != null ==> position / baseSize < |nodes| && cur == nodes[position / baseSize]
    {
      CursorSlot();
      SlotUnique(position, baseSize, slot);
    }

    lemma CapacityIsProduct()
      requires Chain()
      ensures capacity == baseSize * |nodes|
    {
      SpanIsProduct(baseSize, |nodes|);
    }

    constructor (base: nat, host: Order)
      requires base > 0
      ensures Valid() && fresh(Repr)
      ensures View() == Fresh(base) && order == Big && this.host == host
    {
      baseSize, capacity, position, size := base, base, 0, 0;
      this.host := host;
      order := Big;
      var node := new Node(base);
      root, cur := node, node;
      nodes, chunks, slot := [node], [node.data[..]], 0;
      Repr := {node, node.data};
    }

    // ------------------------------------------------------------------ capacity

    /** Link one new node behind `tail`, the last one. */
    method Link(tail: Node) returns (node: Node)
      requires Chain() && tail == nodes[|nodes| - 1]
      modifies `capacity, `nodes, `chunks, `Repr, tail`next
      ensures Chain() && fresh(node) && Repr == old(Repr) + {node, node.data} && fresh(node.data)
      ensures nodes == old(nodes) + [node] && |chunks| == |old(chunks)| + 1 && old(chunks) <= chunks
    {
      node := new Node(baseSize);
      DifferentFrom(nodes, |nodes| - 1);
      DifferentAppend(nodes, node);
      tail.next := node;
      nodes := nodes + [node];
      chunks := chunks + [node.data[..]];
      Repr := Repr + {node, node.data};
      capacity := capacity + baseSize;
    }

    /** Link `count` new nodes behind `tail`; `first` is the first of them. */
    method AppendNodes(tail: Node, count: nat) returns (first: Node?)
      requires Chain() && tail == nodes[|nodes| - 1]
      modifies `capacity, `nodes, `chunks, `Repr, tail`next
      ensures Chain() && fresh(Repr - old(Repr)) && old(Repr) <= Repr
      ensures |nodes| == |old(nodes)| + count && old(nodes) <= nodes && old(chunks) <= chunks
      ensures first == if count == 0 then null else nodes[|old(nodes)|]
    {
      first := null;
      var tmp := tail;
      for i := 0 to count
        invariant Chain() && fresh(Repr - old(Repr)) && old(Repr) <= Repr
        invariant |nodes| == |old(nodes)| + i && old(nodes) <= nodes && old(chunks) <= chunks
        invariant tmp == nodes[|nodes| - 1] && (tmp == tail || fresh(tmp))
        invariant first == if i == 0 then null else nodes[|old(nodes)|]
      {
        var node := Link(tmp);
        if first == null {
          first := node;
        }
        tmp := node;
      }
    }

    method LastNode() returns (tmp: Node)
      requires Chain()
      ensures tmp == nodes[|nodes| - 1]
    {
      tmp := root;
      ghost var i := 0;
      while tmp.next != null
        invariant 0 <= i < |nodes| && tmp == nodes[i]
        invariant tmp.next == if i + 1 < |nodes| then nodes[i + 1] else null
        decreases |nodes| - i
      {
        tmp := tmp.next;
        i := i + 1;
      }
    }

    lemma StoreGrows(cs: seq<bytes>)
      requires Chain() && cs <= chunks
      ensures Flat(cs) <= Store() && |Store()| == capacity
    {
      assert chunks == cs + chunks[|cs|..];
      FlatAppend(cs, chunks[|cs|..]);
      FlatLength(chunks, baseSize);
    }

    method AppendAtEnd(count: nat) returns (first: Node?)
      requires Chain()
      modifies `capacity, `nodes, `chunks, `Repr, Repr
      ensures Chain() && fresh(Repr - old(Repr))
      ensures |nodes| == |old(nodes)| + count && old(nodes) <= nodes
      ensures first == if count == 0 then null else nodes[|old(nodes)|]
      ensures capacity == old(capacity) + Span(baseSize, count)
      ensures old(Store()) <= Store() && |old(Store())| == old(capacity)
    {
      StoreGrows(chunks);
      var tmp := LastNode();
      first := AppendNodes(tmp, count);
      SpanAdd(baseSize, |old(nodes)|, count);
      StoreGrows(old(chunks));
    }

    /** Append `count` nodes; a cursor that had run off the end moves to the first of them. */
    method Extend(count: nat)
      requires Chain() && Placed() && count > 0
      modifies this, Repr
      ensures Chain() && Placed() && fresh(Repr - old(Repr))
      ensures capacity == old(capacity) + Span(baseSize, count)
      ensures position == old(position) && size == old(size) && order == old(order)
      ensures old(Store()) <= Store() && |old(Store())| == old(capacity)
    {
      CursorSlot();
      var atEnd := position == capacity;
      var first := AppendAtEnd(count);
      if atEnd {
        cur := first;
      }
    }

    /** Room for `n` more bytes at the position. */
    method AddCapacity(n: nat)
      requires Valid()
      modifies this, Repr
      ensures Valid() && fresh(Repr - old(Repr))
      ensures position + n <= capacity == old(Grown(View(), n))
      ensures position == old(position) && size == old(size) && order == old(order)
      ensures old(Store()) <= Store() && |old(Store())| == old(capacity)
    {
      StoreGrows(chunks);
      if n == 0 {
        return;
      }
      if capacity - position > n {
        return;
      }
      var oldCap := capacity - position;
      if oldCap >= n {
        return;
      }
      var count := CeilDiv(n - oldCap, baseSize);
      CeilDivBounds(n - oldCap, baseSize);
      Extend(count);
    }

    /** Room is made, and nothing else changes for the users of the array. */
    method Reserve(n: nat)
      requires Valid()
      modifies this, Repr
      ensures Valid() && fresh(Repr - old(Repr)) && order == old(order)
      ensures View() == old(View()).(cap := old(Grown(View(), n))) && position + n <= capacity
    {
      ghost var store := Store();
      AddCapacity(n);
      assert Store()[..size] == store[..size];
    }

    // ------------------------------------------------------------ write and read

    /** `memcpy` into the storage of node `i`. */
    method CopyIn(data: array<byte>, at: nat, bs: bytes, ghost i: nat)
      requires Chain() && i < |nodes| && data == nodes[i].data && at + |bs| <= baseSize
      modifies data, `chunks
      ensures Chain() && Span(baseSize, i) + at + |bs| <= |old(Store())|
      ensures Store() == Splice(old(Store()), Span(baseSize, i) + at, bs)
    {
      WriteInChunk(chunks, baseSize, i, at, bs);
      DifferentFrom(nodes, i);
      forall k | 0 <= k < |bs| {
        data[at + k] := bs[k];
      }
      assert data[..] == Splice(old(data[..]), at, bs);
      chunks := chunks[i := Splice(chunks[i], at, bs)];
    }

    /** The cursor moves `n` bytes on inside its node, and off it when the node is used up. */
    method Step(npos: nat, n: nat)
      requires Chain() && Placed() && slot < |nodes|
      requires npos == position - Span(baseSize, slot) && npos + n <= baseSize
      modifies `position, `cur, `slot
      ensures Placed() && position == old(position) + n
      ensures npos + n < baseSize ==> slot == old(slot)
      ensures npos + n == baseSize ==> slot == old(slot) + 1 && position == Span(baseSize, slot)
    {
      position := position + n;
      if cur.data.Length == npos + n {
        cur := cur.next;
        slot := slot + 1;
      }
    }

    /** One turn of the writing loop: the next `n` bytes of `buf` go to the cursor's node. */
    method WriteTurn(npos: nat, buf: bytes, bpos: nat, n: nat, ghost store: bytes, ghost start: nat)
      requires Chain() && Placed() && slot < |nodes|
      requires npos == position - Span(baseSize, slot) && npos + n <= baseSize
      requires bpos + n <= |buf| && start + |buf| <= |store| && position == start + bpos
      requires Store() == Splice(store, start, buf[..bpos])
      modifies `position, `cur, `slot, `chunks, cur.data
      ensures Chain() && Placed() && position == start + bpos + n
      ensures npos + n < baseSize ==> slot == old(slot)
      ensures npos + n == baseSize ==> slot == old(slot) + 1 && position == Span(baseSize, slot)
      ensures Store() == Splice(store, start, buf[..bpos + n])
    {
      CopyIn(cur.data, npos, buf[bpos..bpos + n], slot);
      SpliceOn(store, start, buf, bpos, bpos + n);
      Step(npos, n);
    }

    /** The offset of the position in the cursor's node and the room behind it. */
    method Offset() returns (npos: nat, ncap: nat)
      requires Chain() && Placed() && position < capacity
      ensures slot < |nodes| && npos == position - Span(baseSize, slot) && npos + ncap == baseSize
      ensures npos == position % baseSize
    {
      CursorSlot();
      SlotUnique(position, baseSize, slot);
      npos := position % baseSize;
      ncap := cur.data.Length - npos;
    }

    /** The writing loop's invariant: the first `bpos` bytes of `buf` are in, `left` are to
        come, and the next of them goes to offset `npos` of the cursor's node. */
    ghost predicate Midway(buf: bytes, bpos: nat, left: nat, npos: nat, ncap: nat, store: bytes, start: nat)
      reads this, Repr
    {
      && Chain() && Placed()
      && bpos + left == |buf| && position == start + bpos && start + |buf| <= |store| == capacity
      && (left > 0 ==> slot < |nodes| && npos == position - Span(baseSize, slot) && npos + ncap == baseSize)
      && Store() == Written(store, start, buf, bpos)
    }

    ghost function Written(store: bytes, start: nat, buf: bytes, n: nat): bytes
      requires n <= |buf| && start + |buf| <= |store|
    {
      Splice(store, start, buf[..n])
    }

    /** The body of the writing loop. */
    method WriteBody(buf: bytes, bpos: nat, left: nat, npos: nat, ncap: nat, ghost store: bytes, ghost start: nat)
      returns (bpos': nat, left': nat, npos': nat, ncap': nat)
      requires Midway(buf, bpos, left, npos, ncap, store, start) && left > 0
      modifies `position, `cur, `slot, `chunks, Repr
      ensures Midway(buf, bpos', left', npos', ncap', store, start) && left' < left
    {
      if ncap >= left {
        WriteTurn(npos, buf, bpos, left, store, start);
        return bpos + left, 0, npos, ncap;
      } else {
        WriteTurn(npos, buf, bpos, ncap, store, start);
        CursorSlot();
        return bpos + ncap, left - ncap, 0, cur.data.Length;
      }
    }

    /** The writing loop, once there is room. */
    method WriteLoop(buf: bytes)
      requires Chain() && Placed() && position + |buf| <= capacity && |buf| > 0
      modifies `position, `cur, `slot, `chunks, Repr
      ensures Chain() && Placed() && position == old(position) + |buf|
      ensures |old(Store())| == capacity
      ensures Store() == Splice(old(Store()), old(position), buf)
    {
      ghost var store, start := Store(), position;
      var npos: nat, ncap: nat := Offset();
      var bpos: nat, left: nat := 0, |buf|;
      MidwayAtStart(buf, npos, ncap);
      while left > 0
        invariant Midway(buf, bpos, left, npos, ncap, store, start)
        decreases left
      {
        bpos, left, npos, ncap := WriteBody(buf, bpos, left, npos, ncap, store, start);
      }
      MidwayAtEnd(buf, npos, ncap, store, start);
    }

    lemma MidwayAtEnd(buf: bytes, npos: nat, ncap: nat, store: bytes, start: nat)
      requires Midway(buf, |buf|, 0, npos, ncap, store, start)
      ensures Chain() && Placed() && position == start + |buf| && start + |buf| <= |store| == capacity
      ensures Store() == Splice(store, start, buf)
    {
      SpliceAll(store, start, buf, |buf|);
    }

    lemma MidwayAtStart(buf: bytes, npos: nat, ncap: nat)
      requires Chain() && Placed() && position + |buf| <= capacity && slot < |nodes|
      requires npos == position - Span(baseSize, slot) && npos + ncap == baseSize
      ensures Midway(buf, 0, |buf|, npos, ncap, Store(), position) && |Store()| == capacity
    {
      StoreGrows(chunks);
      SpliceNothing(Store(), position);
    }

    /** Write into room that is there; `store` is what was held before the room was made. */
    method WriteInPlace(buf: bytes, ghost store: bytes)
      requires Chain() && Placed() && |buf| > 0 && position <= size <= |store| && position + |buf| <= capacity
      requires store <= Store()
      modifies `position, `size, `cur, `slot, `chunks, Repr
      ensures Chain() && Placed() && |Store()| == capacity
      ensures position == old(position) + |buf| <= size <= capacity
      ensures size == if position > old(size) then position else old(size)
      ensures Store()[..size] == Overwritten(store[..old(size)], old(position), buf)
    {
      StoreGrows(chunks);
      ghost var grown := Store();
      WriteLoop(buf);
      SpliceIsOverwrite(store, grown, size, old(position), buf);
      if position > size {
        size := position;
      }
    }

    method Write(buf: bytes)
      requires Valid()
      modifies this, Repr
      ensures Valid() && fresh(Repr - old(Repr))
      ensures View() == Put(old(View()), buf)
      ensures order == old(order)
    {
      if |buf| == 0 {
        return;
      }
      AddCapacity(|buf|);
      WriteInPlace(buf, old(Store()));
    }

    method ReadTurn(npos: nat, n: nat) returns (bs: bytes)
      requires Chain() && Placed() && slot < |nodes|
      requires npos == position - Span(baseSize, slot) && npos + n <= baseSize
      modifies `position, `cur, `slot
      ensures Placed() && position == old(position) + n <= |Store()|
      ensures npos + n == baseSize ==> slot == old(slot) + 1 && position == Span(baseSize, slot)
      ensures bs == Store()[old(position)..position]
    {
      ReadInChunk(chunks, baseSize, slot, npos, n);
      bs := cur.data[npos..npos + n];
      assert bs == chunks[slot][npos..npos + n];
      Step(npos, n);
    }

    /** The reading loop's invariant: all but `left` of the `n` bytes have been copied out. */
    ghost predicate ReadMidway(bs: bytes, left: nat, npos: nat, ncap: nat, start: nat, n: nat)
      reads this, Repr
    {
      && Chain() && Placed() && |Store()| == capacity
      && (left > 0 ==> slot < |nodes| && npos == position - Span(baseSize, slot) && npos + ncap == baseSize)
      && left <= n && position == start + n - left && start + n <= |Store()|
      && bs == Store()[start..position]
    }

    /** The body of the reading loop. */
    method ReadBody(bs: bytes, left: nat, npos: nat, ncap: nat, ghost start: nat, ghost n: nat)
      returns (bs': bytes, left': nat, npos': nat, ncap': nat)
      requires ReadMidway(bs, left, npos, ncap, start, n) && left > 0
      modifies `position, `cur, `slot
      ensures ReadMidway(bs', left', npos', ncap', start, n) && left' < left
    {
      if ncap >= left {
        var more := ReadTurn(npos, left);
        SliceOn(Store(), start, old(position), position);
        return bs + more, 0, npos, ncap;
      } else {
        var more := ReadTurn(npos, ncap);
        SliceOn(Store(), start, old(position), position);
        CursorSlot();
        return bs + more, left - ncap, 0, cur.data.Length;
      }
    }

    /** The reading loop, once the position is inside the chain. */
    method ReadLoop(n: nat) returns (bs: bytes)
      requires Chain() && Placed() && position < capacity && position + n <= capacity
      modifies `position, `cur, `slot
      ensures Placed() && position == old(position) + n <= |Store()|
      ensures bs == Store()[old(position)..position]
    {
      StoreGrows(chunks);
      var npos: nat, ncap: nat := Offset();
      var left: nat := n;
      bs := [];
      while left > 0
        invariant ReadMidway(bs, left, npos, ncap, old(position), n)
      {
        bs, left, npos, ncap := ReadBody(bs, left, npos, ncap, old(position), n);
      }
    }

    /** A read of nothing at capacity dereferences the null cursor: `Crashed`. */
    method Read(n: nat) returns (status: Status, bs: bytes)
      requires Valid()
      modifies `position, `cur, `slot
      ensures Valid() && Agrees(Take(old(View()), n), status, bs, View())
    {
      bs := [];
      if n > size - position {
        return Threw, bs;
      }
      CursorSlot();
      if cur == null {
        return Crashed, bs;
      }
      StoreGrows(chunks);
      SliceOfPrefix(Store(), size, position, position + n);
      bs := ReadLoop(n);
      status := Done;
    }

    /** Walk from the root to the node where offset `v` belongs. */
    method Seek(v: nat)
      requires Chain() && v <= capacity
      modifies `position, `cur, `slot
      ensures Placed() && position == v
    {
      position := v;
      cur := root;
      slot := 0;
      var w: nat := v;
      while w > cur.data.Length
        invariant position == v && slot < |nodes| && cur == nodes[slot] && v == Span(baseSize, slot) + w
        decreases w
      {
        NotLast(w);
        w := w - cur.data.Length;
        cur := cur.next;
        slot := slot + 1;
      }
      if w == cur.data.Length {
        cur := cur.next;
        slot := slot + 1;
      }
    }

    method SetPosition(v: nat) returns (status: Status)
      requires Valid()
      modifies `position, `size, `cur, `slot
      ensures Valid()
      ensures v > capacity ==> status == Threw && View() == old(View())
      ensures v <= capacity ==> status == Done && position == v && size == (if v > old(size) then v else old(size))
      ensures Store() == old(Store()) && old(View()).data <= View().data
      ensures v <= old(size) ==> View() == old(View()).(pos := v)
    {
      if v > capacity {
        return Threw;
      }
      StoreGrows(chunks);
      Seek(v);
      if position > size {
        size := position;
      }
      return Done;
    }

    lemma NotLast(w: nat)
      requires Chain() && slot < |nodes| && Span(baseSize, slot) + w <= capacity && w > baseSize
      ensures slot + 1 < |nodes|
    {
      assert Span(baseSize, slot + 1) == Span(baseSize, slot) + baseSize;
    }

    /** Only the root is left. */
    method Cut()
      requires Chain()
      modifies `capacity, `nodes, `chunks, `Repr, root`next
      ensures Chain() && nodes == [root] && capacity == baseSize && Repr <= old(Repr)
    {
      root.next := null;
      capacity := baseSize;
      nodes, chunks := [root], [chunks[0]];
      Repr := {root, root.data};
    }

    /** Back to one chunk; what the root holds is no longer counted as written. */
    method Clear()
      requires Valid()
      modifies this, root
      ensures Valid() && View() == Fresh(baseSize) && Repr <= old(Repr)
      ensures order == old(order)
    {
      position, size := 0, 0;
      Cut();
      cur := root;
      slot := 0;
    }

    // ---------------------------------------------------------------- typed values

    /** The byte order may change between one value and the next. */
    method SetIsLittleEndian(little: bool)
      requires Valid()
      modifies `order
      ensures Valid() && View() == old(View()) && order.Little? == little
    {
      order := if little then Little else Big;
    }

    /** `writeFuint8` .. `writeFuint64` */
    method WriteFixed(v: nat, n: nat)
      requires Valid()
      modifies this, Repr
      ensures Valid() && fresh(Repr - old(Repr)) && order == old(order)
      ensures View() == Put(old(View()), FixedBytes(v, n, order, host))
    {
      var w := v;
      if order != host {
        w := ByteSwap(w, n);
      }
      Write(InMemory(w, n, host));
    }

    /** `writeUint32`, `writeUint64`: the bytes are collected in a scratch array first. */
    method WriteVarint(v: nat)
      requires Valid()
      modifies this, Repr
      ensures Valid() && fresh(Repr - old(Repr)) && order == old(order)
      ensures View() == Put(old(View()), Varint(v))
    {
      var value, tmp: bytes := v, [];
      while value >= 0x80
        invariant value >= 0 && tmp + Varint(value) == Varint(v)
        decreases value
      {
        tmp := tmp + [value % 0x80 + 0x80];
        value := value / 0x80;
      }
      tmp := tmp + [value];
      Write(tmp);
    }

    method WriteInt32(v: int)
      requires Valid() && Int32(v)
      modifies this, Repr
      ensures Valid() && fresh(Repr - old(Repr)) && order == old(order)
      ensures View() == PutValue(old(View()), Num(Int32T, v), order, host)
    {
      WriteVarint(EncodeZigzag32(v));
    }

    method WriteInt64(v: int)
      requires Valid() && Int64(v)
      modifies this, Repr
      ensures Valid() && fresh(Repr - old(Repr)) && order == old(order)
      ensures View() == PutValue(old(View()), Num(Int64T, v), order, host)
    {
      WriteVarint(EncodeZigzag64(v));
    }

    /** `writeStringF16`, `writeStringF32`, `writeStringF64`: the length is cut to its field. */
    method WriteStringF(s: bytes, w: nat)
      requires Valid() && |s| < TWO_64 && (w == 2 || w == 4 || w == 8)
      modifies this, Repr
      ensures Valid() && fresh(Repr - old(Repr)) && order == old(order)
      ensures View() == PutValue(old(View()), Str(StringF(w), s), order, host)
    {
      PutFixedString(View(), w, s, order, host);
      WriteFixed(|s| % Pow256(w), w);
      Write(s);
    }

    method WriteStringVint(s: bytes)
      requires Valid() && |s| < TWO_64
      modifies this, Repr
      ensures Valid() && fresh(Repr - old(Repr)) && order == old(order)
      ensures View() == PutValue(old(View()), Str(StringVint, s), order, host)
    {
      PutVintString(View(), Str(StringVint, s), order, host);
      WriteVarint(|s|);
      Write(s);
    }

    /** `readFuint8` .. `readFuint64` */
    method ReadFixed(n: nat) returns (status: Status, v: nat)
      requires Valid()
      modifies `position, `cur, `slot
      ensures Valid() && Agrees(GetFixed(old(View()), n, order, host), status, v, View())
    {
      var bs;
      status, bs := Read(n);
      if status != Done {
        return status, 0;
      }
      v := FromMemory(bs, host);
      if order != host {
        v := ByteSwap(v, n);
      }
    }

    /** One turn of the loop below: the next byte, unless it cannot be read. */
    method VarintTurn(bits: nat, i: nat, v: nat) returns (status: Status, more: bool, v': nat)
      requires Valid() && i < bits
      modifies `position, `cur, `slot
      ensures Valid()
      ensures if status == Done && more
              then GetVarintFrom(old(View()), bits, i, v) == GetVarintFrom(View(), bits, i + 7, v')
              else Agrees(GetVarintFrom(old(View()), bits, i, v), status, v', View())
    {
      var bs;
      status, bs := Read(1);
      if status != Done {
        return status, false, v;
      }
      var b := bs[0];
      if b < 0x80 {
        return Done, false, v + b * Pow2(i) % Pow2(bits);
      } else {
        return Done, true, v + (b - 0x80) * Pow2(i) % Pow2(bits);
      }
    }

    /** `readUint32`, `readUint64` */
    method ReadVarint(bits: nat) returns (status: Status, v: nat)
      requires Valid()
      modifies `position, `cur, `slot
      ensures Valid() && Agrees(GetVarint(old(View()), bits), status, v, View())
    {
      status, v := Done, 0;
      var i := 0;
      while i < bits
        invariant Valid() && status == Done && GetVarint(old(View()), bits) == GetVarintFrom(View(), bits, i, v)
        decreases bits - i
      {
        var more;
        status, more, v := VarintTurn(bits, i, v);
        if !(status == Done && more) {
          return;
        }
        i := i + 7;
      }
    }

    method ReadInt32() returns (status: Status, v: int)
      requires Valid()
      modifies `position, `cur, `slot
      ensures Valid() && Agrees(GetValue(old(View()), Int32T, order, host), status, Num(Int32T, v), View())
    {
      var m;
      status, m := ReadVarint(32);
      v := DecodeZigzag(m % TWO_32, TWO_32);
    }

    method ReadInt64() returns (status: Status, v: int)
      requires Valid()
      modifies `position, `cur, `slot
      ensures Valid() && Agrees(GetValue(old(View()), Int64T, order, host), status, Num(Int64T, v), View())
    {
      var m;
      status, m := ReadVarint(64);
      v := DecodeZigzag(m % TWO_64, TWO_64);
    }

    /** The body of a string whose length `n` has just been read. */
    method ReadText(n: nat, ghost t: Type, ghost head: Out<nat>) returns (status: Status, s: bytes)
      requires Valid() && IsText(t) && head == Ok(n, View())
      modifies `position, `cur, `slot
      ensures Valid() && Agrees(GetRest(t, head), status, Str(t, s), View())
    {
      status, s := Read(n);
    }

    method ReadStringF(w: nat) returns (status: Status, s: bytes)
      requires Valid()
      modifies `position, `cur, `slot
      ensures Valid() && Agrees(GetValue(old(View()), StringF(w), order, host), status, Str(StringF(w), s), View())
    {
      var n;
      ghost var head := GetFixed(View(), w, order, host);
      status, n := ReadFixed(w);
      if status != Done {
        return status, [];
      }
      status, s := ReadText(n, StringF(w), head);
    }

    method ReadStringVint() returns (status: Status, s: bytes)
      requires Valid()
      modifies `position, `cur, `slot
      ensures Valid() && Agrees(GetValue(old(View()), StringVint, order, host), status, Str(StringVint, s), View())
    {
      var n;
      ghost var head := GetVarint(View(), 64);
      status, n := ReadVarint(64);
      if status != Done {
        return status, [];
      }
      status, s := ReadText(n, StringVint, head);
    }
  }

  datatype Status = Done | Threw | Crashed

  /** A method's outcome is the one the flat buffer prescribes. */
  ghost predicate Agrees<T>(out: Out<T>, status: Status, value: T, view: Buf) {
    match out
    case Ok(v, rest) => status == Done && value == v && view == rest
    case OutOfRange(rest) => status == Threw && view == rest
    case NullCursor => status == Crashed
  }
}
