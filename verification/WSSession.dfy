/** Sending and receiving WebSocket messages over a stream (src/http/WSSession.cpp). */
module WebSocketObjects {
  import opened Bytes
  import opened Codec
  import opened Streams
  import opened WebSocket

  class WSFrameMessage {
    var opcode: int
    var data: bytes

    constructor (opcode: int, data: bytes)
      ensures this.opcode == opcode && this.data == data
    {
      this.opcode, this.data := opcode, data;
    }

    /** The loop that masks the data in place. */
    method Mask(key: bytes)
      requires |key| == KEY
      modifies `data
      ensures data == Masked(old(data), key)
    {
      data := MaskFrom(data, 0, key);
    }
  }

  /** The bytes from `start` on, combined with the key one by one. */
  method MaskFrom(data: bytes, start: nat, key: bytes) returns (r: bytes)
    requires |key| == KEY && start <= |data|
    ensures r == data[..start] + Masked(data[start..], key)
  {
    r := data;
    var i := 0;
    while i < |data| - start
      invariant 0 <= i <= |data| - start && |r| == |data|
      invariant forall j :: 0 <= j < start ==> r[j] == data[j]
      invariant forall j :: start <= j < start + i ==> r[j] == XorByte(data[j], key[(j - start) % KEY])
      invariant forall j :: start + i <= j < |data| ==> r[j] == data[j]
    {
      r := r[start + i := XorByte(r[start + i], key[i % KEY])];
      i := i + 1;
    }
  }

  /** Nothing for a short message, two bytes for a longer one, and eight bytes of any value. */
  method WriteLength(stream: Stream, payload: nat, size: nat, junk: bytes, host: Order)
    requires payload == ShortLength(size)
    modifies stream`output
    ensures stream.output == old(stream.output) + LengthBytes(size, junk, host)
  {
    if payload == 126 {
      var _ := stream.WriteFixSize(FixedBytes(size, 2, Big, host));
    } else if payload == 127 {
      var _ := stream.WriteFixSize(junk);
    }
  }

  /** `WSSendMessage`.  The key is random; `junk` is what the variable of the eight-byte length
      happens to hold.  A client's message is masked in place. */
  method SendMessage(stream: Stream, msg: WSFrameMessage, client: bool, fin: bool, key: bytes, junk: bytes, host: Order)
    returns (rt: int)
    requires |key| == KEY && |junk| == 8
    modifies stream`output, stream`closed, msg`data
    ensures msg.data == Payload(old(msg.data), client, key)
    ensures stream.output == old(stream.output) + FrameBytes(msg.opcode, old(msg.data), fin, client, key, junk, host)
    ensures if old(msg.data) == [] then rt == -1 && stream.closed
            else rt == |msg.data| + 2 && stream.closed == old(stream.closed)
  {
    ghost var before, text := stream.output, msg.data;
    var size := |msg.data|;
    var payload := ShortLength(size);
    var head := HeadBytes(msg.opcode, fin, payload, client);
    var _ := stream.WriteFixSize(head);
    WriteLength(stream, payload, size, junk, host);
    if client {
      msg.Mask(key);
      var _ := stream.WriteFixSize(key);
    }
    var n := stream.WriteFixSize(msg.data);
    Joined(before, head, LengthBytes(size, junk, host), KeyBytes(client, key), msg.data);
    if n == 0 {
      stream.closed := true;
      return -1;
    }
    return size + 2;
  }

  lemma {:induction false} Joined(before: bytes, head: bytes, len: bytes, key: bytes, text: bytes)
    ensures before + head + len + key + text == before + (head + (len + (key + text)))
    ensures before + head + len + [] == before + head + len
  {
  }

  /** `WSPing`, `WSPong` */
  method SendControl(stream: Stream, opcode: nat) returns (rt: nat)
    modifies stream`output
    ensures rt == 2 && stream.output == old(stream.output) + ControlBytes(opcode)
  {
    rt := stream.WriteFixSize(ControlBytes(opcode));
  }

  /** The length of a data frame: seven bits, or the bytes behind the head. */
  method ReadLength(stream: Stream, payload: nat, host: Order) returns (ok: bool, length: nat)
    modifies stream`input
    ensures var k := Extra(payload);
      if |old(stream.input)| < k then !ok && stream.input == []
      else
        && ok && stream.input == old(stream.input)[k..]
        && length == if k == 0 then payload else FixedValue(old(stream.input)[..k], Big, host)
  {
    var k := Extra(payload);
    if k == 0 {
      return true, payload;
    }
    var rt, len := stream.ReadFixSize(k);
    if rt == 0 {
      return false, 0;
    }
    return true, FixedValue(len, Big, host);
  }

  method ReadPayload(stream: Stream, n: nat, head: nat, fin: bool, mask: bool, opcode: nat, data: bytes)
    returns (step: Step)
    modifies stream`input
    ensures (step, stream.input) == RecvPayload(old(stream.input), n, head, fin, mask, opcode, data)
  {
    ghost var s := stream.input;
    var rt, key := KEY, [0, 0, 0, 0];
    if mask {
      rt, key := stream.ReadFixSize(KEY);
      if rt == 0 {
        return Stop;
      }
    }
    var part;
    rt, part := stream.ReadFixSize(n);
    if rt == 0 {
      return Stop;
    }
    var data' := data + part;
    TakeFront(data, part);
    if mask {
      data' := MaskFrom(data', |data|, key);
    }
    var opcode' := FirstOpcode(opcode, head);
    return if fin then Last(opcode', data') else More(opcode', data', false);
  }

  /** One turn of the receiving loop. */
  method RecvTurn(stream: Stream, opcode: nat, data: bytes, client: bool, max: nat, host: Order) returns (step: Step)
    modifies stream`input, stream`output
    ensures (step, stream.input) == RecvFrame(old(stream.input), opcode, data, client, max, host)
    ensures stream.output == old(stream.output) + if step.More? && step.pong then ControlBytes(PONG) else []
  {
    var rt, h := stream.ReadFixSize(2);
    if rt == 0 {
      return Stop;
    }
    var head, fin, payload, mask := h[0] % 16, h[0] >= 128, h[1] % 128, h[1] >= 128;
    if head == PING {
      var _ := SendControl(stream, PONG);
      return More(opcode, data, true);
    } else if head == PONG || head > BIN_FRAME {
      return More(opcode, data, false);
    } else if !client && !mask {
      return Stop;
    }
    var ok, length := ReadLength(stream, payload, host);
    if !ok {
      return Stop;
    } else if |data| + length >= TWO_64 {
      return Wraps;
    } else if |data| + length >= max {
      return Stop;
    }
    step := ReadPayload(stream, length, head, fin, mask, opcode, data);
  }

  /** `WSRecvMessage`: frames are taken until one ends the message or the connection. */
  method RecvMessage(stream: Stream, client: bool, max: nat, host: Order) returns (got: Got)
    requires max <= TWO_31
    modifies stream
    ensures var r := Recv(old(stream.input), 0, [], client, max, host);
      && got == r.got && stream.input == r.rest && stream.output == old(stream.output) + Pongs(r.pongs)
    ensures stream.closed == (old(stream.closed) || got == Closed)
  {
    ghost var all, before := stream.input, stream.output;
    ghost var k := 0;
    var opcode, data := 0, [];
    while true
      invariant var r := Recv(stream.input, opcode, data, client, max, host);
        Recv(all, 0, [], client, max, host) == r.(pongs := r.pongs + k)
      invariant stream.output == before + Pongs(k) && stream.closed == old(stream.closed)
      decreases |stream.input|
    {
      RecvStep(stream.input, opcode, data, client, max, host);
      var step := RecvTurn(stream, opcode, data, client, max, host);
      match step {
        case More(opcode', data', pong) =>
          if pong {
            ConcatAssociates(before, Pongs(k), ControlBytes(PONG));
            k := k + 1;
          }
          opcode, data := opcode', data';
        case Last(opcode', data') =>
          return Message(opcode', data');
        case Stop =>
          stream.closed := true;
          return Closed;
        case Wraps =>
          return Undefined;
      }
    }
  }
}
