/** WebSocket frames and messages as bytes (src/http/WSSession.cpp, src/http/WSSession.h;
    sections 5.2 to 5.4 of RFC 6455). */
module WebSocket {
  import opened Bytes
  import opened Codec

  const CONTINUE: nat := 0
  const TEXT_FRAME: nat := 1
  const BIN_FRAME: nat := 2
  const PING: nat := 9
  const PONG: nat := 10

  const KEY: nat := 4

  // ------------------------------------------------------------------- masking

  /** Exclusive or of the low `n` bits. */
  function Xor(a: nat, b: nat, n: nat): (r: nat)
    ensures r < Pow2(n)
  {
    if n == 0 then 0 else (a + b) % 2 + 2 * Xor(a / 2, b / 2, n - 1)
  }

  lemma {:induction false} XorParts(a: nat, b: nat, n: nat)
    requires n > 0
    ensures Xor(a, b, n) % 2 == (a + b) % 2 && Xor(a, b, n) / 2 == Xor(a / 2, b / 2, n - 1)
  {
  }

  lemma {:induction false} LowBitTwice(a: nat, b: nat, x: nat)
    requires x % 2 == (a + b) % 2
    ensures (x + b) % 2 == a % 2
  {
  }

  lemma {:induction false} XorTwice(a: nat, b: nat, n: nat)
    requires a < Pow2(n)
    ensures Xor(Xor(a, b, n), b, n) == a
  {
    if n > 0 {
      var x := Xor(a, b, n);
      XorParts(a, b, n);
      LowBitTwice(a, b, x);
      XorTwice(a / 2, b / 2, n - 1);
    }
  }

  lemma {:induction false} XorSame(a: nat, b: nat, n: nat)
    requires a < Pow2(n) && b < Pow2(n)
    ensures Xor(a, b, n) == a <==> b == 0
  {
    if n > 0 {
      XorSame(a / 2, b / 2, n - 1);
      XorParts(a, b, n);
    }
  }

  function XorByte(a: byte, b: byte): byte {
    assert Pow2(8) == 256;
    Xor(a, b, 8)
  }

  /** Each byte combined with the byte of the key that its index selects. */
  function Masked(data: bytes, key: bytes): (r: bytes)
    requires |key| == KEY
    ensures |r| == |data|
  {
    seq(|data|, i requires 0 <= i < |data| => XorByte(data[i], key[i % KEY]))
  }

  lemma {:induction false} MaskedTwice(data: bytes, key: bytes)
    requires |key| == KEY
    ensures Masked(Masked(data, key), key) == data
  {
    assert Pow2(8) == 256;
    forall i | 0 <= i < |data|
      ensures Masked(Masked(data, key), key)[i] == data[i]
    {
      XorTwice(data[i], key[i % KEY], 8);
    }
  }

  /** Masking leaves data as it is only where the key is zero. */
  lemma {:induction false} MaskedSame(data: bytes, key: bytes)
    requires |key| == KEY
    ensures Masked(data, key) == data <==> forall i :: 0 <= i < |data| ==> key[i % KEY] == 0
  {
    assert Pow2(8) == 256;
    forall i | 0 <= i < |data|
      ensures Masked(data, key)[i] == data[i] <==> key[i % KEY] == 0
    {
      XorSame(data[i], key[i % KEY], 8);
    }
  }

  // ------------------------------------------------------------------- sending

  /** The two bytes of `WSFrameHead`: opcode and FIN, payload and mask bit.  Bit-fields are laid
      out by the compiler; this is the layout from the lowest bit up, which RFC 6455 needs, and
      which compilers for little-endian hosts choose. */
  function HeadBytes(opcode: int, fin: bool, payload: nat, mask: bool): (r: bytes)
    requires payload < 128
    ensures |r| == 2
  {
    [opcode % 16 + if fin then 128 else 0, payload + if mask then 128 else 0]
  }

  /** Seven bits of length; 126 announces two bytes more, 127 eight. */
  function ShortLength(size: nat): (r: nat)
    ensures r < 128
  {
    if size < 126 then size else if size < TWO_16 then 126 else 127
  }

  function Extra(payload: nat): nat {
    if payload == 126 then 2 else if payload == 127 then 8 else 0
  }

  /** The length behind the head.  The eight-byte form is taken from a variable that has no
      value yet, so its bytes are any. */
  function LengthBytes(size: nat, junk: bytes, host: Order): bytes {
    if size < 126 then [] else if size < TWO_16 then FixedBytes(size, 2, Big, host) else junk
  }

  function KeyBytes(client: bool, key: bytes): bytes {
    if client then key else []
  }

  function Payload(data: bytes, client: bool, key: bytes): (r: bytes)
    requires |key| == KEY
    ensures |r| == |data|
  {
    if client then Masked(data, key) else data
  }

  /** `WSSendMessage`: what goes into the stream for one message. */
  function FrameBytes(opcode: int, data: bytes, fin: bool, client: bool, key: bytes, junk: bytes, host: Order): bytes
    requires |key| == KEY
  {
    HeadBytes(opcode, fin, ShortLength(|data|), client)
    + (LengthBytes(|data|, junk, host) + (KeyBytes(client, key) + Payload(data, client, key)))
  }

  /** `WSPing` and `WSPong` */
  function ControlBytes(opcode: nat): (r: bytes)
    ensures |r| == 2
  {
    HeadBytes(opcode, true, 0, false)
  }

  function Pongs(n: nat): bytes {
    if n == 0 then [] else Pongs(n - 1) + ControlBytes(PONG)
  }

  // ----------------------------------------------------------------- receiving

  /** What one frame does to the message that is being received.  `Wraps`: the sum of the
      lengths exceeds 64 bits, and C++ does not define what follows. */
  datatype Step =
    | More(opcode: nat, data: bytes, pong: bool)
    | Last(opcode: nat, data: bytes)
    | Stop
    | Wraps

  /** The opcode of the message is the first one that is not CONTINUE. */
  function FirstOpcode(opcode: nat, next: nat): nat {
    if opcode == 0 then next else opcode
  }

  /** The payload of a data frame, once its length is known. */
  function RecvPayload(s: bytes, n: nat, head: nat, fin: bool, mask: bool, opcode: nat, data: bytes): (r: (Step, bytes))
    ensures r.0.More? ==> |r.1| <= |s|
  {
    if mask && |s| < KEY then (Stop, [])
    else
      var body := if mask then s[KEY..] else s;
      if n == 0 then (Stop, body)
      else if |body| < n then (Stop, [])
      else
        var part := if mask then Masked(body[..n], s[..KEY]) else body[..n];
        var opcode' := FirstOpcode(opcode, head);
        (if fin then Last(opcode', data + part) else More(opcode', data + part, false), body[n..])
  }

  function RecvData(s: bytes, payload: nat, head: nat, fin: bool, mask: bool, opcode: nat, data: bytes, max: nat,
                    host: Order)
      : (r: (Step, bytes))
    ensures r.0.More? ==> |r.1| <= |s|
  {
    var k := Extra(payload);
    if |s| < k then (Stop, [])
    else
      var n := if k == 0 then payload else FixedValue(s[..k], Big, host);
      if |data| + n >= TWO_64 then (Wraps, s[k..])
      else if |data| + n >= max then (Stop, s[k..])
      else RecvPayload(s[k..], n, head, fin, mask, opcode, data)
  }

  /** One turn of the loop of `WSRecvMessage`, and what is left in the stream. */
  function RecvFrame(s: bytes, opcode: nat, data: bytes, client: bool, max: nat, host: Order): (r: (Step, bytes))
    ensures r.0.More? ==> |r.1| < |s|
  {
    if |s| < 2 then (Stop, [])
    else
      var head, fin, payload, mask := s[0] % 16, s[0] >= 128, s[1] % 128, s[1] >= 128;
      if head == PING then (More(opcode, data, true), s[2..])
      else if head == PONG || head > BIN_FRAME then (More(opcode, data, false), s[2..])
      else if !client && !mask then (Stop, s[2..])
      else RecvData(s[2..], payload, head, fin, mask, opcode, data, max, host)
  }

  datatype Got = Message(opcode: nat, data: bytes) | Closed | Undefined

  /** What `WSRecvMessage` returns, what it leaves in the stream, and how many PONGs it wrote,
      from the state with `opcode` and `data` on. */
  datatype Received = Received(got: Got, rest: bytes, pongs: nat)

  function Recv(s: bytes, opcode: nat, data: bytes, client: bool, max: nat, host: Order): Received
    decreases |s|
  {
    var (step, rest) := RecvFrame(s, opcode, data, client, max, host);
    match step
    case More(opcode', data', pong) =>
      var r := Recv(rest, opcode', data', client, max, host);
      r.(pongs := r.pongs + if pong then 1 else 0)
    case Last(opcode', data') => Received(Message(opcode', data'), rest, 0)
    case Stop => Received(Closed, rest, 0)
    case Wraps => Received(Undefined, rest, 0)
  }

  // ------------------------------------------------------------- whole messages

  /** What a sender puts into the stream: data frames, each with a key, and control frames. */
  datatype Piece =
    | Data(opcode: nat, data: bytes, key: bytes, fin: bool)
    | Control(ping: bool)

  /** Data frames of which the last alone, and last of all, has FIN; control frames in between. */
  predicate IsMessage(ps: seq<Piece>)
    decreases |ps|
  {
    && ps != []
    && (ps[0].Data? ==> ps[0].opcode <= BIN_FRAME && |ps[0].key| == KEY)
    && (if ps[0].Data? && ps[0].fin then |ps| == 1 else IsMessage(ps[1..]))
  }

  function Opcode(ps: seq<Piece>, opcode: nat): nat
    decreases |ps|
  {
    if ps == [] then opcode
    else Opcode(ps[1..], if ps[0].Data? then FirstOpcode(opcode, ps[0].opcode) else opcode)
  }

  function Text(ps: seq<Piece>): bytes
    decreases |ps|
  {
    if ps == [] then [] else (if ps[0].Data? then ps[0].data else []) + Text(ps[1..])
  }

  function Pings(ps: seq<Piece>): nat
    decreases |ps|
  {
    if ps == [] then 0 else Pings(ps[1..]) + if ps[0] == Control(true) then 1 else 0
  }

  function PieceBytes(p: Piece, client: bool, junk: bytes, host: Order): bytes
    requires p.Data? ==> |p.key| == KEY
  {
    match p
    case Data(opcode, data, key, fin) => FrameBytes(opcode, data, fin, client, key, junk, host)
    case Control(ping) => ControlBytes(if ping then PING else PONG)
  }

  function Wire(ps: seq<Piece>, client: bool, junk: bytes, host: Order): bytes
    requires IsMessage(ps)
    decreases |ps|
  {
    PieceBytes(ps[0], client, junk, host) + if |ps| == 1 then [] else Wire(ps[1..], client, junk, host)
  }

  // ------------------------------------------------------------------ one frame

  lemma {:induction false} HeadFields(opcode: nat, fin: bool, payload: nat, mask: bool)
    requires payload < 128
    ensures var head := HeadBytes(opcode, fin, payload, mask);
      && head[0] % 16 == opcode % 16 && (head[0] >= 128 <==> fin)
      && head[1] % 128 == payload && (head[1] >= 128 <==> mask)
  {
  }

  lemma {:induction false} RecvHead(head: bytes, body: bytes, h: nat, fin: bool, payload: nat, mask: bool,
                                    opcode: nat, data: bytes, client: bool, max: nat, host: Order)
    requires payload < 128 && head == HeadBytes(h, fin, payload, mask) && h <= BIN_FRAME
    ensures RecvFrame(head + body, opcode, data, client, max, host) ==
            if !client && !mask then (Stop, body) else RecvData(body, payload, h, fin, mask, opcode, data, max, host)
  {
    var s := head + body;
    TakeFront(head, body);
    HeadFields(h, fin, payload, mask);
    assert s[0] == head[0] && s[1] == head[1] && |s| >= 2;
  }

  lemma {:induction false} RecvControl(ping: bool, tail: bytes, opcode: nat, data: bytes, client: bool, max: nat,
                                       host: Order)
    ensures RecvFrame(ControlBytes(if ping then PING else PONG) + tail, opcode, data, client, max, host)
            == (More(opcode, data, ping), tail)
  {
    var head := ControlBytes(if ping then PING else PONG);
    TakeFront(head, tail);
    assert (head + tail)[0] == head[0];
  }

  const ZEROS: bytes := [0, 0, 0, 0, 0, 0, 0, 0]

  lemma {:induction false} LittleZeros(n: nat)
    requires n <= 8
    ensures FromLittle(ZEROS[..n]) == 0
  {
    if n > 0 {
      assert ZEROS[..n][1..] == ZEROS[..n - 1];
      LittleZeros(n - 1);
    }
  }

  lemma {:induction false} ToZeros(n: nat)
    requires n <= 8
    ensures ToLittle(0, n) == ZEROS[..n]
  {
    if n > 0 {
      assert ZEROS[..n] == [0] + ZEROS[..n - 1];
      ToZeros(n - 1);
    }
  }

  lemma {:induction false} ZerosRead(host: Order)
    ensures FixedValue(ZEROS, Big, host) == 0
  {
    assert Reverse(ZEROS) == ZEROS && ZEROS[..8] == ZEROS;
    LittleZeros(8);
    ToZeros(8);
  }

  /** The length as the receiver sees it. */
  lemma {:induction false} LengthReads(size: nat, junk: bytes, sender: Order, host: Order)
    requires |junk| == 8
    ensures |LengthBytes(size, junk, sender)| == Extra(ShortLength(size))
    ensures size < 126 ==> ShortLength(size) == size && Extra(size) == 0
    ensures 126 <= size < TWO_16 ==> FixedValue(LengthBytes(size, junk, sender), Big, host) == size
    ensures size >= TWO_16 && junk == ZEROS ==> FixedValue(LengthBytes(size, junk, sender), Big, host) == 0
  {
    if size < 126 {
    } else if size < TWO_16 {
      assert Pow256(2) == TWO_16;
      FixedRoundTrip(size, 2, Big, sender, host);
    } else {
      ZerosRead(host);
    }
  }

  lemma {:induction false} RecvLength(size: nat, junk: bytes, sender: Order, rest: bytes, h: nat, fin: bool, mask: bool,
                                      opcode: nat, data: bytes, max: nat, host: Order)
    requires |junk| == 8 && |data| <= max <= TWO_31
    requires size < TWO_16 || junk == ZEROS
    ensures var n := if size < TWO_16 then size else 0;
      RecvData(LengthBytes(size, junk, sender) + rest, ShortLength(size), h, fin, mask, opcode, data, max, host)
      == if |data| + n >= max then (Stop, rest) else RecvPayload(rest, n, h, fin, mask, opcode, data)
  {
    LengthReads(size, junk, sender, host);
    TakeFront(LengthBytes(size, junk, sender), rest);
  }

  lemma {:induction false} RecvText(text: bytes, client: bool, key: bytes, tail: bytes, h: nat, fin: bool,
                                    opcode: nat, data: bytes)
    requires |key| == KEY && text != []
    ensures RecvPayload(KeyBytes(client, key) + (Payload(text, client, key) + tail), |text|, h, fin, client, opcode,
            data)
            == (if fin then Last(FirstOpcode(opcode, h), data + text)
                else More(FirstOpcode(opcode, h), data + text, false), tail)
  {
    var part := Payload(text, client, key);
    TakeFront(KeyBytes(client, key), part + tail);
    TakeFront(part, tail);
    MaskedTwice(text, key);
  }

  /** What a receiver accepts: a masked frame if it is a server, neither empty nor too long. */
  predicate Accepted(p: Piece, client: bool, receiver: bool, n: nat, max: nat) {
    p.Data? ==> (client || receiver) && 1 <= |p.data| < TWO_16 && n + |p.data| < max
  }

  /** One frame at the head of the stream: taken in whole, or the end of the connection. */
  lemma {:induction false} DataArrives(p: Piece, tail: bytes, client: bool, junk: bytes, sender: Order,
                                       opcode: nat, data: bytes, receiver: bool, max: nat, host: Order)
    requires p.Data? && p.opcode <= BIN_FRAME && |p.key| == KEY && |junk| == 8 && |data| <= max <= TWO_31
    ensures var (step, rest) := RecvFrame(PieceBytes(p, client, junk, sender) + tail, opcode, data, receiver, max,
            host);
      var opcode' := FirstOpcode(opcode, p.opcode);
      && (Accepted(p, client, receiver, |data|, max) ==>
            rest == tail && step == if p.fin then Last(opcode', data + p.data) else More(opcode', data + p.data, false))
      && (!Accepted(p, client, receiver, |data|, max) && (|p.data| < TWO_16 || junk == ZEROS) ==> step == Stop)
  {
    var size := |p.data|;
    var head := HeadBytes(p.opcode, p.fin, ShortLength(size), client);
    var len, key, text := LengthBytes(size, junk, sender), KeyBytes(client, p.key), Payload(p.data, client, p.key);
    var rest := key + (text + tail);
    Regroup(head, len, key, text, tail);
    RecvHead(head, len + rest, p.opcode, p.fin, ShortLength(size), client, opcode, data, receiver, max, host);
    if size < TWO_16 || junk == ZEROS {
      RecvLength(size, junk, sender, rest, p.opcode, p.fin, client, opcode, data, max, host);
      if 0 < size < TWO_16 {
        RecvText(p.data, client, p.key, tail, p.opcode, p.fin, opcode, data);
      }
    }
  }

  lemma {:induction false} Regroup(head: bytes, len: bytes, key: bytes, text: bytes, tail: bytes)
    ensures (head + (len + (key + text))) + tail == head + (len + (key + (text + tail)))
  {
    ConcatAssociates(head, len + (key + text), tail);
    ConcatAssociates(len, key + text, tail);
    ConcatAssociates(key, text, tail);
  }

  // --------------------------------------------------------------- the round trip

  /** No data frame is empty, and none needs a length of eight bytes. */
  predicate Sizes(ps: seq<Piece>)
    decreases |ps|
  {
    ps == [] || ((ps[0].Data? ==> 1 <= |ps[0].data| < TWO_16) && Sizes(ps[1..]))
  }

  predicate Travels(ps: seq<Piece>, client: bool, receiver: bool, n: nat, max: nat) {
    Sizes(ps) && (client || receiver) && n + |Text(ps)| < max
  }

  lemma {:induction false} WireStep(ps: seq<Piece>, client: bool, junk: bytes, sender: Order, tail: bytes)
    requires IsMessage(ps)
    ensures var others := if |ps| == 1 then tail else Wire(ps[1..], client, junk, sender) + tail;
      Wire(ps, client, junk, sender) + tail == PieceBytes(ps[0], client, junk, sender) + others
  {
    var first := PieceBytes(ps[0], client, junk, sender);
    if |ps| == 1 {
      assert first + [] == first;
    } else {
      ConcatAssociates(first, Wire(ps[1..], client, junk, sender), tail);
    }
  }

  /** A message, received when `opcode` and `data` have been collected already. */
  predicate Outcome(ps: seq<Piece>, client: bool, junk: bytes, opcode: nat, data: bytes, receiver: bool, max: nat,
                    tail: bytes, r: Received) {
    && (Travels(ps, client, receiver, |data|, max) ==>
          r == Received(Message(Opcode(ps, opcode), data + Text(ps)), tail, Pings(ps)))
    && (!Travels(ps, client, receiver, |data|, max) && (Sizes(ps) || junk == ZEROS) ==> r.got == Closed)
  }

  lemma {:induction false} RecvStep(s: bytes, opcode: nat, data: bytes, client: bool, max: nat, host: Order)
    ensures var (step, rest) := RecvFrame(s, opcode, data, client, max, host);
      Recv(s, opcode, data, client, max, host) ==
        match step
        case More(opcode', data', pong) =>
          var r := Recv(rest, opcode', data', client, max, host);
          r.(pongs := r.pongs + if pong then 1 else 0)
        case Last(opcode', data') => Received(Message(opcode', data'), rest, 0)
        case Stop => Received(Closed, rest, 0)
        case Wraps => Received(Undefined, rest, 0)
  {
  }

  lemma {:induction false} Arrives(ps: seq<Piece>, s: bytes, client: bool, junk: bytes, sender: Order, tail: bytes,
                                   opcode: nat, data: bytes, receiver: bool, max: nat, host: Order)
    requires IsMessage(ps) && |junk| == 8 && |data| <= max <= TWO_31
    requires s == Wire(ps, client, junk, sender) + tail
    ensures Outcome(ps, client, junk, opcode, data, receiver, max, tail, Recv(s, opcode, data, receiver, max, host))
    decreases |ps|
  {
    var p, rest := ps[0], ps[1..];
    var others := if |ps| == 1 then tail else Wire(rest, client, junk, sender) + tail;
    WireStep(ps, client, junk, sender, tail);
    RecvStep(s, opcode, data, receiver, max, host);
    if p.Control? {
      RecvControl(p.ping, others, opcode, data, receiver, max, host);
      Arrives(rest, others, client, junk, sender, tail, opcode, data, receiver, max, host);
      ControlStep(ps, client, junk, opcode, data, receiver, max, tail, Recv(others, opcode, data, receiver, max, host));
    } else {
      DataArrives(p, others, client, junk, sender, opcode, data, receiver, max, host);
      var opcode', data' := FirstOpcode(opcode, p.opcode), data + p.data;
      if Accepted(p, client, receiver, |data|, max) && !p.fin {
        Arrives(rest, others, client, junk, sender, tail, opcode', data', receiver, max, host);
      }
      DataStep(ps, client, junk, opcode, data, receiver, max, tail,
               Recv(s, opcode, data, receiver, max, host), Recv(others, opcode', data', receiver, max, host));
    }
  }

  /** From the rest of a message to the whole, over a control frame and over a data frame. */
  lemma {:induction false} ControlStep(ps: seq<Piece>, client: bool, junk: bytes, opcode: nat, data: bytes,
                                       receiver: bool, max: nat, tail: bytes, r: Received)
    requires IsMessage(ps) && ps[0].Control?
    requires Outcome(ps[1..], client, junk, opcode, data, receiver, max, tail, r)
    ensures Outcome(ps, client, junk, opcode, data, receiver, max, tail,
                    r.(pongs := r.pongs + if ps[0].ping then 1 else 0))
  {
    assert Text(ps) == Text(ps[1..]);
  }

  lemma {:induction false} DataStep(ps: seq<Piece>, client: bool, junk: bytes, opcode: nat, data: bytes,
                                    receiver: bool, max: nat, tail: bytes, r: Received, r': Received)
    requires IsMessage(ps) && ps[0].Data?
    requires var p := ps[0];
      var opcode', data' := FirstOpcode(opcode, p.opcode), data + p.data;
      if !Accepted(p, client, receiver, |data|, max) then (|p.data| < TWO_16 || junk == ZEROS) ==> r.got == Closed
      else if p.fin then r == Received(Message(opcode', data'), tail, 0)
      else r == r' && Outcome(ps[1..], client, junk, opcode', data', receiver, max, tail, r')
    ensures Outcome(ps, client, junk, opcode, data, receiver, max, tail, r)
  {
    var p := ps[0];
    ConcatAssociates(data, p.data, Text(ps[1..]));
    assert |Text(ps)| == |p.data| + |Text(ps[1..])|;
    if p.fin {
      assert ps[1..] == [] && Text(ps) == p.data;
      assert Sizes(ps[1..]) && Pings(ps[1..]) == 0;
      assert Opcode(ps, opcode) == Opcode(ps[1..], FirstOpcode(opcode, p.opcode));
    }
  }

  /** A message whose first frame is TEXT or BIN has the opcode of that frame. */
  lemma {:induction false} OpcodeIsFirst(ps: seq<Piece>, opcode: nat)
    requires opcode != CONTINUE
    ensures Opcode(ps, opcode) == opcode
    decreases |ps|
  {
    if ps != [] {
      OpcodeIsFirst(ps[1..], opcode);
    }
  }

  /** A message split into data frames, each with its own key and with control frames in between,
      comes back as the concatenation of the frames with the opcode of the first, leaves the
      stream at the byte behind it, and has every PING answered; whatever the uninitialised
      length bytes are, this is so if and only if every data frame holds 1 to 65535 bytes, the
      sender masks or the receiver is a client, and the whole stays below the limit. */
  lemma {:induction false} ReassemblesIff(ps: seq<Piece>, client: bool, sender: Order, tail: bytes,
                                          receiver: bool, max: nat, host: Order)
    requires IsMessage(ps) && max <= TWO_31
    ensures (forall junk: bytes | |junk| == 8 ::
               Recv(Wire(ps, client, junk, sender) + tail, 0, [], receiver, max, host)
               == Received(Message(Opcode(ps, 0), Text(ps)), tail, Pings(ps)))
            <==> Travels(ps, client, receiver, 0, max)
  {
    assert [] + Text(ps) == Text(ps);
    forall junk: bytes | |junk| == 8
      ensures Outcome(ps, client, junk, 0, [], receiver, max, tail,
                      Recv(Wire(ps, client, junk, sender) + tail, 0, [], receiver, max, host))
    {
      Arrives(ps, Wire(ps, client, junk, sender) + tail, client, junk, sender, tail, 0, [], receiver, max, host);
    }
    assert |ZEROS| == 8;
    var r := Recv(Wire(ps, client, ZEROS, sender) + tail, 0, [], receiver, max, host);
  }

  // ------------------------------------------------------------------ the opcode

  /** Piece `k` is the first data frame with an opcode other than CONTINUE. */
  ghost predicate Names(ps: seq<Piece>, k: nat) {
    && k < |ps| && ps[k].Data? && ps[k].opcode != CONTINUE
    && forall j :: 0 <= j < k && ps[j].Data? ==> ps[j].opcode == CONTINUE
  }

  lemma {:induction false} OpcodeIsNamed(ps: seq<Piece>, k: nat)
    requires Names(ps, k)
    ensures Opcode(ps, CONTINUE) == ps[k].opcode
    decreases |ps|
  {
    if k == 0 {
      OpcodeIsFirst(ps[1..], ps[0].opcode);
    } else {
      assert forall j :: 0 < j < |ps| ==> ps[1..][j - 1] == ps[j];
      OpcodeIsNamed(ps[1..], k - 1);
    }
  }

  lemma {:induction false} OpcodeIsNone(ps: seq<Piece>)
    requires forall j :: 0 <= j < |ps| && ps[j].Data? ==> ps[j].opcode == CONTINUE
    ensures Opcode(ps, CONTINUE) == CONTINUE
    decreases |ps|
  {
    if ps != [] {
      assert forall j :: 0 < j < |ps| ==> ps[1..][j - 1] == ps[j];
      OpcodeIsNone(ps[1..]);
    }
  }

  /** The opcode of a message that is received is that of its first data frame which is not a
      continuation, in particular that of its first frame if this is TEXT or BIN, and 0 exactly if
      all its data frames are continuations. */
  lemma {:induction false} ReceivedOpcode(ps: seq<Piece>, client: bool, junk: bytes, sender: Order, tail: bytes,
                                          receiver: bool, max: nat, host: Order)
    requires IsMessage(ps) && |junk| == 8 && max <= TWO_31 && Travels(ps, client, receiver, 0, max)
    ensures var got := Recv(Wire(ps, client, junk, sender) + tail, 0, [], receiver, max, host).got;
      && got.Message?
      && (forall k: nat :: Names(ps, k) ==> got.opcode == ps[k].opcode)
      && (ps[0].Data? && (ps[0].opcode == 1 || ps[0].opcode == 2) ==> got.opcode == ps[0].opcode)
      && (got.opcode == 0 <==> forall j :: 0 <= j < |ps| && ps[j].Data? ==> ps[j].opcode == 0)
  {
    ReassemblesIff(ps, client, sender, tail, receiver, max, host);
    forall k: nat | Names(ps, k)
      ensures Opcode(ps, CONTINUE) == ps[k].opcode
    {
      OpcodeIsNamed(ps, k);
    }
    if forall j :: 0 <= j < |ps| && ps[j].Data? ==> ps[j].opcode == CONTINUE {
      OpcodeIsNone(ps);
    } else {
      var k := FirstNamed(ps);
      OpcodeIsNamed(ps, k);
    }
    if ps[0].Data? && ps[0].opcode != CONTINUE {
      assert Names(ps, 0);
    }
  }

  lemma {:induction false} FirstNamed(ps: seq<Piece>) returns (k: nat)
    requires exists j :: 0 <= j < |ps| && ps[j].Data? && ps[j].opcode != CONTINUE
    ensures Names(ps, k)
  {
    k := 0;
    while !(ps[k].Data? && ps[k].opcode != CONTINUE)
      invariant k < |ps| && forall j :: 0 <= j < k && ps[j].Data? ==> ps[j].opcode == CONTINUE
      invariant exists j :: k <= j < |ps| && ps[j].Data? && ps[j].opcode != CONTINUE
      decreases |ps| - k
    {
      k := k + 1;
    }
  }

  lemma {:induction false} InFront(p: Piece, ps: seq<Piece>)
    ensures ([p] + ps)[0] == p && ([p] + ps)[1..] == ps
    ensures Text([p] + ps) == (if p.Data? then p.data else []) + Text(ps)
    ensures Pings([p] + ps) == Pings(ps) + if p == Control(true) then 1 else 0
    ensures Sizes([p] + ps) == ((p.Data? ==> 1 <= |p.data| < TWO_16) && Sizes(ps))
  {
    assert ([p] + ps)[1..] == ps;
  }

  lemma {:induction false} FirstInFront(p: Piece, ps: seq<Piece>, client: bool, junk: bytes, sender: Order)
    requires IsMessage(ps) && (p.Data? ==> !p.fin && p.opcode <= BIN_FRAME && |p.key| == KEY)
    ensures IsMessage([p] + ps)
    ensures Wire([p] + ps, client, junk, sender) == PieceBytes(p, client, junk, sender) + Wire(ps, client, junk, sender)
  {
    InFront(p, ps);
  }

  lemma {:induction false} LastAlone(p: Piece, client: bool, junk: bytes, sender: Order)
    requires p.Data? && p.fin && p.opcode <= BIN_FRAME && |p.key| == KEY
    ensures IsMessage([p]) && Wire([p], client, junk, sender) == PieceBytes(p, client, junk, sender)
    ensures Text([p]) == p.data && Pings([p]) == 0 && Sizes([p]) == (1 <= |p.data| < TWO_16)
  {
    InFront(p, []);
    assert [p] + [] == [p];
  }

  /** A message that travels, by its bytes, its text and its pings alone. */
  lemma {:induction false} Travelled(ps: seq<Piece>, wire: bytes, text: bytes, pings: nat, client: bool, junk: bytes,
                                     sender: Order, tail: bytes, receiver: bool, max: nat, host: Order)
    requires IsMessage(ps) && ps[0].Data? && 1 <= ps[0].opcode <= 2 && |junk| == 8 && max <= TWO_31
    requires Wire(ps, client, junk, sender) == wire && Text(ps) == text && Pings(ps) == pings
    requires Sizes(ps) && |text| < max && (client || receiver)
    ensures Recv(wire + tail, 0, [], receiver, max, host) == Received(Message(ps[0].opcode, text), tail, pings)
  {
    assert Names(ps, 0);
    OpcodeIsNamed(ps, 0);
    ReassemblesIff(ps, client, sender, tail, receiver, max, host);
  }

  lemma {:induction false} PieceIs(opcode: nat, data: bytes, key: bytes, fin: bool, client: bool, junk: bytes,
                                   sender: Order)
    requires |key| == KEY
    ensures PieceBytes(Data(opcode, data, key, fin), client, junk, sender)
         == FrameBytes(opcode, data, fin, client, key, junk, sender)
    ensures PieceBytes(Control(true), client, junk, sender) == [0x89, 0]
  {
  }

  /** One frame: what comes of it, with nothing but bytes. */
  lemma {:induction false} OneFrame(h: nat, a: bytes, key: bytes, client: bool, junk: bytes, sender: Order, tail: bytes,
                                    receiver: bool, max: nat, host: Order)
    requires 1 <= h <= 2 && |key| == KEY && |junk| == 8
    requires 1 <= |a| < TWO_16 && |a| < max <= TWO_31 && (client || receiver)
    ensures Recv(FrameBytes(h, a, true, client, key, junk, sender) + tail, 0, [], receiver, max, host)
         == Received(Message(h, a), tail, 0)
  {
    var p, wire := Data(h, a, key, true), FrameBytes(h, a, true, client, key, junk, sender);
    LastAlone(p, client, junk, sender);
    PieceIs(h, a, key, true, client, junk, sender);
    Travelled([p], wire, a, 0, client, junk, sender, tail, receiver, max, host);
  }

  /** A message of two frames with a PING in between. */
  lemma {:induction false} Three(p: Piece, q: Piece, last: Piece, client: bool, junk: bytes, sender: Order)
    returns (ps: seq<Piece>)
    requires p.Data? && !p.fin && p.opcode <= BIN_FRAME && |p.key| == KEY && q == Control(true)
    requires last.Data? && last.fin && last.opcode <= BIN_FRAME && |last.key| == KEY
    ensures |ps| == 3 && ps[0] == p && IsMessage(ps) && Text(ps) == p.data + last.data && Pings(ps) == 1
    ensures Sizes(ps) == (1 <= |p.data| < TWO_16 && 1 <= |last.data| < TWO_16)
    ensures Wire(ps, client, junk, sender) == PieceBytes(p, client, junk, sender)
      + (PieceBytes(q, client, junk, sender) + PieceBytes(last, client, junk, sender))
  {
    LastAlone(last, client, junk, sender);
    InFront(q, [last]);
    FirstInFront(q, [last], client, junk, sender);
    var rest := [q] + [last];
    InFront(p, rest);
    FirstInFront(p, rest, client, junk, sender);
    ps := [p] + rest;
  }

  lemma {:induction false} TwoFrames(h: nat, a: bytes, b: bytes, key: bytes, key': bytes, client: bool, junk: bytes,
                                     sender: Order, tail: bytes, receiver: bool, max: nat, host: Order)
    requires 1 <= h <= 2 && |key| == KEY && |key'| == KEY && |junk| == 8
    requires 1 <= |a| < TWO_16 && 1 <= |b| < TWO_16 && |a| + |b| < max <= TWO_31 && (client || receiver)
    ensures var first := FrameBytes(h, a, false, client, key, junk, sender);
      var second := FrameBytes(0, b, true, client, key', junk, sender);
      Recv(first + ([0x89, 0] + second) + tail, 0, [], receiver, max, host) == Received(Message(h, a + b), tail, 1)
  {
    var first := FrameBytes(h, a, false, client, key, junk, sender);
    var second := FrameBytes(0, b, true, client, key', junk, sender);
    PieceIs(h, a, key, false, client, junk, sender);
    PieceIs(0, b, key', true, client, junk, sender);
    var ps := Three(Data(h, a, key, false), Control(true), Data(0, b, key', true), client, junk, sender);
    var wire := first + ([0x89, 0] + second);
    Travelled(ps, wire, a + b, 1, client, junk, sender, tail, receiver, max, host);
  }

  // -------------------------------------------------------------- the bytes on the wire

  /** Bit by bit, masking is exclusive or. */
  lemma {:induction false} XorBit(a: nat, b: nat, n: nat, j: nat)
    requires j < n
    ensures Xor(a, b, n) / Pow2(j) % 2 == (a / Pow2(j) + b / Pow2(j)) % 2
  {
    XorParts(a, b, n);
    if j == 0 {
      assert Pow2(0) == 1;
      SumLowBit(a, b);
    } else {
      XorBit(a / 2, b / 2, n - 1, j - 1);
      HalfThenShift(a, j);
      HalfThenShift(b, j);
      HalfThenShift(Xor(a, b, n), j);
    }
  }

  /** Byte by byte the key is gone through over and over. */
  lemma {:induction false} MaskedBit(data: bytes, key: bytes, i: nat, j: nat)
    requires |key| == 4 && i < |data| && j < 8
    ensures Masked(data, key)[i] / Pow2(j) % 2 == (data[i] / Pow2(j) + key[i % 4] / Pow2(j)) % 2
  {
    assert Pow2(8) == 256;
    XorBit(data[i], key[i % 4], 8, j);
  }

  lemma {:induction false} SumLowBit(a: nat, b: nat)
    ensures (a + b) % 2 == (a / 1 + b / 1) % 2
  {
  }

  lemma {:induction false} HalfThenShift(a: nat, j: nat)
    requires j > 0
    ensures a / 2 / Pow2(j - 1) == a / Pow2(j)
  {
    var p := Pow2(j - 1);
    var q, r := a / 2 / p, a / 2 % p;
    assert a / 2 == p * q + r;
    DivModUnique(a, 2 * p, q, 2 * r + a % 2);
  }

  /** The frame of section 5.2 of RFC 6455: FIN is the top bit of the first byte and the opcode its low
      four; the mask bit is the top bit of the second, and its low seven are the length, or 126 before
      two bytes of it, most significant first, or 127 before eight bytes of any value; then the key, if
      there is one, and the payload. */
  lemma {:induction false} WireFormat(opcode: nat, data: bytes, fin: bool, client: bool, key: bytes, junk: bytes,
                                      host: Order)
    requires |key| == KEY && opcode < 16 && |junk| == 8
    ensures var s := FrameBytes(opcode, data, fin, client, key, junk, host);
      var start := (if |data| < 126 then 2 else if |data| < 0x1_0000 then 4 else 10) + if client then 4 else 0;
      && |s| == start + |data|
      && s[0] == opcode + (if fin then 0x80 else 0)
      && s[1] == (if |data| < 126 then |data| else if |data| < 0x1_0000 then 126 else 127)
          + (if client then 0x80 else 0)
      && (|data| >= 0x1_0000 ==> s[2..10] == junk)
      && (126 <= |data| < 0x1_0000 ==> s[2] == |data| / 256 && s[3] == |data| % 256)
      && (client ==> s[start - 4..start] == key)
      && s[start..] == if client then Masked(data, key) else data
  {
    var head := HeadBytes(opcode, fin, ShortLength(|data|), client);
    var len, k, text := LengthBytes(|data|, junk, host), KeyBytes(client, key), Payload(data, client, key);
    var s := head + (len + (k + text));
    if 126 <= |data| < TWO_16 {
      TwoBytes(|data|, host);
    }
    Layout(head, len, k, text, s);
  }

  /** Where the four parts of a frame stand. */
  lemma {:induction false} Layout(head: bytes, len: bytes, key: bytes, text: bytes, s: bytes)
    requires s == head + (len + (key + text)) && |head| == 2
    ensures |s| == 2 + |len| + |key| + |text| && s[0] == head[0] && s[1] == head[1]
    ensures forall i :: 0 <= i < |len| ==> s[2 + i] == len[i]
    ensures s[2..2 + |len|] == len && s[2 + |len|..2 + |len| + |key|] == key && s[2 + |len| + |key|..] == text
  {
  }

  lemma {:induction false} TwoBytes(n: nat, host: Order)
    requires n < TWO_16
    ensures FixedBytes(n, 2, Big, host) == [n / 256, n % 256]
  {
    FixedBytesHostFree(n, 2, Big, host);
    assert ToLittle(n, 2) == [n % 256] + ToLittle(n / 256, 1);
    assert ToLittle(n / 256, 1) == [n / 256 % 256] + ToLittle(n / 256 / 256, 0);
    assert ToLittle(n, 2) == [n % 256, n / 256];
    assert [n % 256, n / 256][1..] == [n / 256] && [n / 256][1..] == [];
    assert Reverse([n / 256]) == [n / 256];
  }

  /** PING and PONG are two bytes, never masked; frames with any other opcode that is not one of the
      three for data are passed over by their first two bytes. */
  lemma {:induction false} OtherFrames(s: bytes, opcode: nat, data: bytes, client: bool, max: nat, host: Order)
    requires |s| >= 2
    ensures ControlBytes(PING) == [0x89, 0] && ControlBytes(PONG) == [0x8A, 0]
    ensures s[0] % 16 == 9 ==> RecvFrame(s, opcode, data, client, max, host) == (More(opcode, data, true), s[2..])
    ensures s[0] % 16 > 2 && s[0] % 16 != 9 ==>
              RecvFrame(s, opcode, data, client, max, host) == (More(opcode, data, false), s[2..])
    ensures s[0] % 16 <= 2 && !client && s[1] < 0x80 ==>
              RecvFrame(s, opcode, data, client, max, host) == (Stop, s[2..])
  {
  }

  /** What the bytes behind the head announce: a number of seven bits, of two bytes, or of eight. */
  function Announced(s: bytes, host: Order): nat
    requires |s| >= 2 && (s[1] % 128 == 126 ==> |s| >= 4) && (s[1] % 128 == 127 ==> |s| >= 10)
  {
    if s[1] % 128 < 126 then s[1] % 128
    else if s[1] % 128 == 126 then s[2] * 256 + s[3]
    else FixedValue(s[2..10], Big, host)
  }

  /** How long the head of a data frame is, the length included but not the key. */
  function HeadLength(s: bytes): nat
    requires |s| >= 2
  {
    if s[1] % 128 < 126 then 2 else if s[1] % 128 == 126 then 4 else 10
  }

  /** A frame that announces `n` bytes, with its head of `head` bytes: it is taken exactly if the key and
      the payload are there in full, the payload is not empty, and the message stays below the limit; it
      ends the message exactly if FIN is set, and everything behind it stays. */
  predicate TakenIff(s: bytes, head: nat, n: nat, opcode: nat, data: bytes, max: nat, step: Step, rest: bytes)
    requires 2 <= head <= |s|
  {
    var start := head + if s[1] >= 128 then 4 else 0;
    && (step.More? || step.Last? <==> 0 < n <= |s| - start && |data| + n < max)
    && (step.Wraps? <==> |data| + n >= TWO_64)
    && (0 < n <= |s| - start && |data| + n < max ==>
          var part := if s[1] >= 128 then Masked(s[start..start + n], s[head..start]) else s[start..start + n];
          var first := if opcode == 0 then s[0] % 16 else opcode;
          step == (if s[0] >= 128 then Last(first, data + part) else More(first, data + part, false))
          && rest == s[start + n..])
  }

  /** What any bytes do to a message under way, where a data frame may stand: without a whole length the
      connection ends, and otherwise the frame is taken if it can be. */
  lemma {:induction false} AnyDataFrame(s: bytes, opcode: nat, data: bytes, client: bool, max: nat, host: Order)
    requires |s| >= 2 && s[0] % 16 <= 2 && (client || s[1] >= 128) && max <= TWO_31
    ensures var (step, rest) := RecvFrame(s, opcode, data, client, max, host);
      if |s| < HeadLength(s) then step == Stop
      else TakenIff(s, HeadLength(s), Announced(s, host), opcode, data, max, step, rest)
  {
    FrameIsData(s, opcode, data, client, max, host);
    if |s| >= HeadLength(s) {
      LengthOf(s, HeadLength(s), host);
      WholeLength(s, HeadLength(s), Announced(s, host), opcode, data, max, host);
    }
  }

  lemma {:induction false} FrameIsData(s: bytes, opcode: nat, data: bytes, client: bool, max: nat, host: Order)
    requires |s| >= 2 && s[0] % 16 <= 2 && (client || s[1] >= 128)
    ensures RecvFrame(s, opcode, data, client, max, host)
         == RecvData(s[2..], s[1] % 128, s[0] % 16, s[0] >= 128, s[1] >= 128, opcode, data, max, host)
    ensures |s| < HeadLength(s) ==> RecvFrame(s, opcode, data, client, max, host).0 == Stop
  {
  }

  lemma {:induction false} WholeLength(s: bytes, head: nat, n: nat, opcode: nat, data: bytes, max: nat, host: Order)
    requires 2 <= head <= |s| && Extra(s[1] % 128) == head - 2 && max <= TWO_31
    requires n == if head == 2 then s[1] % 128 else FixedValue(s[2..][..head - 2], Big, host)
    ensures var (step, rest) :=
        RecvData(s[2..], s[1] % 128, s[0] % 16, s[0] >= 128, s[1] >= 128, opcode, data, max, host);
      TakenIff(s, head, n, opcode, data, max, step, rest)
  {
    LengthTaken(s[2..], s[1] % 128, head - 2, n, s[0] % 16, s[0] >= 128, s[1] >= 128, opcode, data, max, host);
    PayloadAt(s, head, n, s[0] % 16, s[0] >= 128, s[1] >= 128, opcode, data);
    assert s[2..][head - 2..] == s[head..];
  }

  lemma {:induction false} LengthOf(s: bytes, head: nat, host: Order)
    requires |s| >= 2 && |s| >= head && head == if s[1] % 128 < 126 then 2 else if s[1] % 128 == 126 then 4 else 10
    ensures Announced(s, host)
         == if head == 2 then s[1] % 128 else FixedValue(s[2..][..head - 2], Big, host)
  {
    if head == 4 {
      assert s[2..][..2] == [s[2], s[3]];
      TwoRead(s[2], s[3], host);
    } else if head == 10 {
      assert s[2..][..8] == s[2..10];
    }
  }

  lemma {:induction false} TwoRead(a: byte, b: byte, host: Order)
    ensures FixedValue([a, b], Big, host) == a * 256 + b
  {
    var n: nat := a as nat * 256 + b;
    TwoBytes(n, host);
    assert Pow256(2) == TWO_16;
    DivModUnique(n, 256, a, b);
    FixedRoundTrip(n, 2, Big, host, host);
  }

  lemma {:induction false} LengthTaken(t: bytes, payload: nat, k: nat, n: nat, head: nat, fin: bool, mask: bool,
                                       opcode: nat, data: bytes, max: nat, host: Order)
    requires k == Extra(payload) && k <= |t| && n == (if k == 0 then payload else FixedValue(t[..k], Big, host))
    ensures RecvData(t, payload, head, fin, mask, opcode, data, max, host)
         == if |data| + n >= TWO_64 then (Wraps, t[k..])
            else if |data| + n >= max then (Stop, t[k..])
            else RecvPayload(t[k..], n, head, fin, mask, opcode, data)
  {
  }

  lemma {:induction false} PayloadAt(s: bytes, at: nat, n: nat, head: nat, fin: bool, mask: bool, opcode: nat,
                                     data: bytes)
    requires at <= |s|
    ensures var (step, rest) := RecvPayload(s[at..], n, head, fin, mask, opcode, data);
      var start := at + if mask then 4 else 0;
      && (step.More? || step.Last? <==> 0 < n <= |s| - start) && !step.Wraps?
      && (0 < n <= |s| - start ==>
            var part := if mask then Masked(s[start..start + n], s[at..start]) else s[start..start + n];
            var first := if opcode == 0 then head else opcode;
            step == (if fin then Last(first, data + part) else More(first, data + part, false))
            && rest == s[start + n..])
  {
    var t := s[at..];
    var start := at + if mask then 4 else 0;
    if |s| >= start {
      assert t[start - at..] == s[start..];
      if n <= |s| - start {
        assert s[start..][..n] == s[start..start + n];
        assert s[start..][n..] == s[start + n..];
      }
      if mask {
        assert t[..4] == s[at..start];
      }
    }
  }
}
