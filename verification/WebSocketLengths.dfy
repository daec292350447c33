/** When the sum of the lengths of a WebSocket message exceeds 64 bits (src/http/WSSession.cpp). */
module WebSocketLengths {
  import opened Wrappers
  import opened Bytes
  import opened Codec
  import opened WebSocket

  /** A data frame stands at the head of the stream, with its length, and its mask bit is as
      demanded. */
  predicate DataHead(s: bytes, client: bool) {
    && |s| >= 2 && s[0] % 16 <= BIN_FRAME && (client || s[1] >= 128)
    && |s| - 2 >= Extra(s[1] % 128)
  }

  /** The length it announces. */
  function Announced(s: bytes, client: bool, host: Order): (n: nat)
    requires DataHead(s, client)
    ensures n < TWO_64
  {
    var payload := s[1] % 128;
    var k := Extra(payload);
    assert Pow256(2) == TWO_16 && Pow256(8) == TWO_64;
    if k == 0 then payload else FixedValue(s[2..][..k], Big, host)
  }

  predicate Overflows(s: bytes, data: bytes, client: bool, host: Order) {
    DataHead(s, client) && |data| + Announced(s, client, host) >= TWO_64
  }

  lemma {:induction false} WrapsIff(s: bytes, opcode: nat, data: bytes, client: bool, max: nat, host: Order)
    ensures RecvFrame(s, opcode, data, client, max, host).0 == Wraps <==> Overflows(s, data, client, host)
  {
  }

  /** What is left of the stream, and what has been collected, after some frames. */
  datatype Progress = Progress(rest: bytes, opcode: nat, data: bytes)

  function AfterFrames(p: Progress, client: bool, max: nat, host: Order, k: nat): Option<Progress>
    decreases k
  {
    if k == 0 then Some(p)
    else
      match RecvFrame(p.rest, p.opcode, p.data, client, max, host)
      case (More(opcode, data, _), rest) => AfterFrames(Progress(rest, opcode, data), client, max, host, k - 1)
      case _ => None
  }

  ghost predicate OverflowsAfter(p: Progress, client: bool, max: nat, host: Order, k: nat) {
    && AfterFrames(p, client, max, host, k).Some?
    && var q := AfterFrames(p, client, max, host, k).value; Overflows(q.rest, q.data, client, host)
  }

  /** For every stream: what is received is undefined if and only if after some frames a data frame
      announces a length that exceeds 64 bits together with what has been collected. */
  lemma {:induction false} UndefinedIff(p: Progress, client: bool, max: nat, host: Order)
    ensures Recv(p.rest, p.opcode, p.data, client, max, host).got == Undefined <==>
            exists k: nat :: OverflowsAfter(p, client, max, host, k)
    decreases |p.rest|
  {
    var (step, rest) := RecvFrame(p.rest, p.opcode, p.data, client, max, host);
    RecvStep(p.rest, p.opcode, p.data, client, max, host);
    WrapsIff(p.rest, p.opcode, p.data, client, max, host);
    assert OverflowsAfter(p, client, max, host, 0) <==> step == Wraps;
    match step {
      case More(opcode, data, _) =>
        var q := Progress(rest, opcode, data);
        UndefinedIff(q, client, max, host);
        forall k: nat
          ensures OverflowsAfter(p, client, max, host, k + 1) <==> OverflowsAfter(q, client, max, host, k)
        {
        }
        if k: nat :| OverflowsAfter(q, client, max, host, k) {
          assert OverflowsAfter(p, client, max, host, k + 1);
        }
        if k: nat :| OverflowsAfter(p, client, max, host, k) {
          assert k > 0 && OverflowsAfter(q, client, max, host, k - 1);
        }
      case _ =>
        forall k: nat
          ensures k > 0 ==> AfterFrames(p, client, max, host, k) == None
        {
        }
    }
  }

  /** The first data frame of a message never overflows. */
  lemma {:induction false} FirstNeverOverflows(s: bytes, client: bool, host: Order)
    ensures !Overflows(s, [], client, host)
  {
  }

  // ------------------------------------------------------- after frames of a message

  /** The beginning of a message: data frames without FIN, and control frames. */
  predicate IsPart(ps: seq<Piece>)
    decreases |ps|
  {
    ps == []
    || ((ps[0].Data? ==> ps[0].opcode <= BIN_FRAME && |ps[0].key| == KEY && !ps[0].fin) && IsPart(ps[1..]))
  }

  function PartWire(ps: seq<Piece>, client: bool, junk: bytes, host: Order): bytes
    requires IsPart(ps)
    decreases |ps|
  {
    if ps == [] then [] else PieceBytes(ps[0], client, junk, host) + PartWire(ps[1..], client, junk, host)
  }

  /** Frames that are accepted are collected, and what follows them decides. */
  lemma {:induction false} PartReceived(ps: seq<Piece>, s: bytes, client: bool, junk: bytes, sender: Order, tail: bytes,
                                        opcode: nat, data: bytes, receiver: bool, max: nat, host: Order)
    requires IsPart(ps) && |junk| == 8 && max <= TWO_31 && |data| <= max
    requires s == PartWire(ps, client, junk, sender) + tail && (ps != [] ==> Travels(ps, client, receiver, |data|, max))
    ensures Recv(s, opcode, data, receiver, max, host).got
         == Recv(tail, Opcode(ps, opcode), data + Text(ps), receiver, max, host).got
    decreases |ps|
  {
    if ps == [] {
      assert s == tail && data + Text(ps) == data;
    } else {
      var p, rest := ps[0], ps[1..];
      var others := PartWire(rest, client, junk, sender) + tail;
      ConcatAssociates(PieceBytes(p, client, junk, sender), PartWire(rest, client, junk, sender), tail);
      RecvStep(s, opcode, data, receiver, max, host);
      if p.Control? {
        RecvControl(p.ping, others, opcode, data, receiver, max, host);
        assert Text(ps) == Text(rest);
        PartReceived(rest, others, client, junk, sender, tail, opcode, data, receiver, max, host);
      } else {
        DataArrives(p, others, client, junk, sender, opcode, data, receiver, max, host);
        ConcatAssociates(data, p.data, Text(rest));
        PartReceived(rest, others, client, junk, sender, tail, FirstOpcode(opcode, p.opcode), data + p.data,
                     receiver, max, host);
      }
    }
  }

  /** The head of a data frame that announces a length of `n` in eight bytes. */
  function LongHead(h: nat, fin: bool, mask: bool, n: nat, sender: Order): bytes {
    HeadBytes(h, fin, 127, mask) + FixedBytes(n, 8, Big, sender)
  }

  lemma {:induction false} LongHeadAnnounces(h: nat, fin: bool, mask: bool, n: nat, sender: Order, rest: bytes,
                                             client: bool, host: Order)
    requires h <= BIN_FRAME && n < TWO_64 && (client || mask)
    ensures var s := LongHead(h, fin, mask, n, sender) + rest;
      DataHead(s, client) && Announced(s, client, host) == n
  {
    var head, len := HeadBytes(h, fin, 127, mask), FixedBytes(n, 8, Big, sender);
    HeadFields(h, fin, 127, mask);
    ConcatAssociates(head, len, rest);
    TakeFront(head, len + rest);
    TakeFront(len, rest);
    assert Pow256(8) == TWO_64;
    FixedRoundTrip(n, 8, Big, sender, host);
    assert (head + (len + rest))[0] == head[0] && (head + (len + rest))[1] == head[1];
  }

  /** After frames that have been accepted, with text `t`, a frame that announces `n` and takes the
      message over the limit: the outcome is undefined if and only if |t| + n exceeds 64 bits, and
      the connection is closed otherwise. */
  lemma {:induction false} LengthDecides(ps: seq<Piece>, client: bool, junk: bytes, sender: Order, h: nat, fin: bool,
                                         mask: bool, n: nat, rest: bytes, receiver: bool, max: nat, host: Order)
    requires IsPart(ps) && |junk| == 8 && max <= TWO_31 && (ps != [] ==> Travels(ps, client, receiver, 0, max))
    requires h <= BIN_FRAME && n < TWO_64 && (receiver || mask) && |Text(ps)| + n >= max
    ensures Recv(PartWire(ps, client, junk, sender) + (LongHead(h, fin, mask, n, sender) + rest), 0, [], receiver,
            max, host).got
         == if |Text(ps)| + n >= TWO_64 then Undefined else Closed
  {
    var s := LongHead(h, fin, mask, n, sender) + rest;
    LongHeadAnnounces(h, fin, mask, n, sender, rest, receiver, host);
    PartReceived(ps, PartWire(ps, client, junk, sender) + s, client, junk, sender, s, 0, [], receiver, max, host);
    assert [] + Text(ps) == Text(ps);
    RecvStep(s, Opcode(ps, 0), Text(ps), receiver, max, host);
    WrapsIff(s, Opcode(ps, 0), Text(ps), receiver, max, host);
    if |Text(ps)| + n < TWO_64 {
      TooLong(s, Opcode(ps, 0), Text(ps), receiver, max, host);
    }
  }

  lemma {:induction false} TooLong(s: bytes, opcode: nat, data: bytes, client: bool, max: nat, host: Order)
    requires DataHead(s, client) && max <= |data| + Announced(s, client, host) < TWO_64
    ensures RecvFrame(s, opcode, data, client, max, host).0 == Stop
  {
  }

  /** A text frame of one byte, and then one that announces 2^64 - 1. */
  lemma {:induction false} OverflowingStream(x: byte, key: bytes, rest: bytes, sender: Order, max: nat, host: Order)
    requires |key| == KEY && 1 < max <= TWO_31
    ensures var first := FrameBytes(TEXT_FRAME, [x], false, true, key, ZEROS, sender);
      Recv(first + (LongHead(CONTINUE, true, true, TWO_64 - 1, sender) + rest), 0, [], false, max, host).got
          == Undefined
  {
    var ps := [Data(TEXT_FRAME, [x], key, false)];
    var first := FrameBytes(TEXT_FRAME, [x], false, true, key, ZEROS, sender);
    assert ps[1..] == [] && |ZEROS| == 8;
    assert Text(ps) == [x] + Text(ps[1..]) && Text(ps) == [x];
    assert Sizes(ps[1..]) && Sizes(ps) && IsPart(ps[1..]) && IsPart(ps);
    assert PartWire(ps, true, ZEROS, sender) == first + PartWire(ps[1..], true, ZEROS, sender) == first;
    LengthDecides(ps, true, ZEROS, sender, CONTINUE, true, true, TWO_64 - 1, rest, false, max, host);
  }
}
