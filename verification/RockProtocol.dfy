/** Rock messages as objects, and the decoder that moves them over streams
    (src/Protocol.cpp, src/rpc/RockProtocol.cpp). */
module RockObjects {
  import opened Bytes
  import opened FlatBuffer
  import opened Codec
  import opened TypedValues
  import opened ByteArrays
  import opened Streams
  import opened RockModel
  import F = RockFrames

  /** `writeStringF32` of a body. */
  method WriteBody(ba: ByteArray, s: bytes)
    requires ba.Valid() && ba.order == Big && |s| < TWO_64
    modifies ba, ba.Repr
    ensures ba.Valid() && fresh(ba.Repr - old(ba.Repr)) && ba.order == Big
    ensures ba.View() == PutBody(old(ba.View()), s, ba.host)
  {
    PutFixedString(ba.View(), 4, s, Big, ba.host);
    ba.WriteStringF(s, 4);
  }

  lemma {:induction false} BodyRest(head: Out<nat>)
    requires head.Ok? ==> Legal(head.rest)
    ensures GetRest(StringF(4), head) ==
            if !head.Ok? then head.PropagateFailure()
            else
              match Take(head.rest, head.value)
              case Ok(s, rest) => Ok(Str(StringF(4), s), rest)
              case OutOfRange(rest) => OutOfRange(rest)
              case NullCursor => NullCursor
  {
  }

  /** `readStringF32` of a body. */
  method ReadBody(ba: ByteArray) returns (status: Status, s: bytes)
    requires ba.Valid() && ba.order == Big
    modifies ba`position, ba`cur, ba`slot
    ensures ba.Valid() && Agrees(GetBody(old(ba.View()), ba.host), status, s, ba.View())
  {
    BodyRest(GetFixed(ba.View(), 4, Big, ba.host));
    status, s := ba.ReadStringF(4);
  }

  lemma {:induction false} TextRest(head: Out<nat>)
    requires head.Ok? ==> Legal(head.rest)
    ensures GetRest(StringVint, head) ==
            if !head.Ok? then head.PropagateFailure()
            else
              match Take(head.rest, head.value)
              case Ok(s, rest) => Ok(Str(StringVint, s), rest)
              case OutOfRange(rest) => OutOfRange(rest)
              case NullCursor => NullCursor
  {
  }

  method ReadText(ba: ByteArray) returns (status: Status, s: bytes)
    requires ba.Valid()
    modifies ba`position, ba`cur, ba`slot
    ensures ba.Valid() && Agrees(GetText(old(ba.View())), status, s, ba.View())
  {
    TextRest(GetVarint(ba.View(), 64));
    status, s := ba.ReadStringVint();
  }

  /** Two numbers in a row: sequence number and command. */
  method WriteTwo(ba: ByteArray, v: nat, w: nat)
    requires ba.Valid() && ba.order == Big
    modifies ba, ba.Repr
    ensures ba.Valid() && fresh(ba.Repr - old(ba.Repr)) && ba.order == Big
    ensures ba.View() == Put(Put(old(ba.View()), Varint(v)), Varint(w))
  {
    ba.WriteVarint(v);
    ba.WriteVarint(w);
  }

  method ReadTwo(ba: ByteArray) returns (status: Status, v: nat, w: nat)
    requires ba.Valid()
    modifies ba`position, ba`cur, ba`slot
    ensures ba.Valid() && Agrees(GetTwo(old(ba.View())), status, (v, w), ba.View())
  {
    w := 0;
    status, v := ba.ReadVarint(32);
    if status != Done {
      return;
    }
    status, w := ba.ReadVarint(32);
  }

  /** The result of a response and its text. */
  method WriteStatus(ba: ByteArray, result: nat, resStr: bytes)
    requires ba.Valid() && ba.order == Big && |resStr| < TWO_64
    modifies ba, ba.Repr
    ensures ba.Valid() && fresh(ba.Repr - old(ba.Repr)) && ba.order == Big
    ensures ba.View() == Put(Put(Put(old(ba.View()), Varint(result)), Varint(|resStr|)), resStr)
  {
    ba.WriteVarint(result);
    PutVintString(ba.View(), Str(StringVint, resStr), Big, ba.host);
    ba.WriteStringVint(resStr);
  }

  method ReadStatus(ba: ByteArray) returns (status: Status, result: nat, resStr: bytes)
    requires ba.Valid()
    modifies ba`position, ba`cur, ba`slot
    ensures ba.Valid() && Agrees(GetStatus(old(ba.View())), status, (result, resStr), ba.View())
  {
    resStr := [];
    status, result := ba.ReadVarint(32);
    if status != Done {
      return;
    }
    status, resStr := ReadText(ba);
  }

  /** How the outcome for a message follows from those for its parts, read one after another. */
  lemma {:induction false} RequestAgrees(b: Buf, b1: Buf, b2: Buf, first: Status, second: Status,
                                         sn: nat, cmd: nat, body: bytes, host: Order)
    requires Legal(b) && Agrees(GetTwo(b), first, (sn, cmd), b1)
    requires first == Done ==> Legal(b1) && Agrees(GetBody(b1, host), second, body, b2)
    ensures if first == Done then Agrees(GetRequest(b, host), second, Request(sn, cmd, body), b2)
            else forall m :: Agrees(GetRequest(b, host), first, m, b1)
  {
  }

  lemma {:induction false} NotifyAgrees(b: Buf, b1: Buf, b2: Buf, first: Status, second: Status,
                                        notify: nat, body: bytes, host: Order)
    requires Legal(b) && Agrees(GetVarint(b, 32), first, notify, b1)
    requires first == Done ==> Legal(b1) && Agrees(GetBody(b1, host), second, body, b2)
    ensures if first == Done then Agrees(GetNotify(b, host), second, Notify(notify, body), b2)
            else forall m :: Agrees(GetNotify(b, host), first, m, b1)
  {
  }

  lemma {:induction false} HeadAgrees(b: Buf, b1: Buf, b2: Buf, first: Status, second: Status,
                                      sn: nat, cmd: nat, result: nat, resStr: bytes)
    requires Legal(b) && Agrees(GetTwo(b), first, (sn, cmd), b1)
    requires first == Done ==> Legal(b1) && Agrees(GetStatus(b1), second, (result, resStr), b2)
    ensures if first == Done then Agrees(GetHead(b), second, (sn, cmd, result, resStr), b2)
            else forall h :: Agrees(GetHead(b), first, h, b1)
  {
  }

  lemma {:induction false} ResponseAgrees(b: Buf, b1: Buf, b2: Buf, first: Status, second: Status, m: Msg, host: Order)
    requires Legal(b) && m.Response? && Agrees(GetHead(b), first, (m.sn, m.cmd, m.result, m.resStr), b1)
    requires first == Done ==> Legal(b1) && Agrees(GetBody(b1, host), second, m.body, b2)
    ensures if first == Done then Agrees(GetResponse(b, host), second, m, b2)
            else forall m' :: Agrees(GetResponse(b, host), first, m', b1)
  {
  }

  method ReadHead(ba: ByteArray) returns (status: Status, sn: nat, cmd: nat, result: nat, resStr: bytes)
    requires ba.Valid() && ba.order == Big
    modifies ba`position, ba`cur, ba`slot
    ensures ba.Valid() && Agrees(GetHead(old(ba.View())), status, (sn, cmd, result, resStr), ba.View())
  {
    ghost var b := ba.View();
    result, resStr := 0, [];
    status, sn, cmd := ReadTwo(ba);
    ghost var first, b1 := status, ba.View();
    if status != Done {
      HeadAgrees(b, b1, b1, first, first, sn, cmd, result, resStr);
      return;
    }
    status, result, resStr := ReadStatus(ba);
    HeadAgrees(b, b1, ba.View(), first, status, sn, cmd, result, resStr);
  }

  method ReadResponse(ba: ByteArray)
    returns (status: Status, sn: nat, cmd: nat, result: nat, resStr: bytes, body: bytes)
    requires ba.Valid() && ba.order == Big
    modifies ba`position, ba`cur, ba`slot
    ensures ba.Valid()
    ensures Agrees(GetResponse(old(ba.View()), ba.host), status, Response(sn, cmd, result, resStr, body), ba.View())
  {
    ghost var b := ba.View();
    body := [];
    status, sn, cmd, result, resStr := ReadHead(ba);
    ghost var first, b1 := status, ba.View();
    if status != Done {
      ResponseAgrees(b, b1, b1, first, first, Response(sn, cmd, result, resStr, body), ba.host);
      return;
    }
    status, body := ReadBody(ba);
    ResponseAgrees(b, b1, ba.View(), first, status, Response(sn, cmd, result, resStr, body), ba.host);
  }

  method ReadNotify(ba: ByteArray) returns (status: Status, notify: nat, body: bytes)
    requires ba.Valid() && ba.order == Big
    modifies ba`position, ba`cur, ba`slot
    ensures ba.Valid() && Agrees(GetNotify(old(ba.View()), ba.host), status, Notify(notify, body), ba.View())
  {
    ghost var b := ba.View();
    body := [];
    status, notify := ba.ReadVarint(32);
    ghost var first, b1 := status, ba.View();
    if status != Done {
      NotifyAgrees(b, b1, b1, first, first, notify, body, ba.host);
      return;
    }
    status, body := ReadBody(ba);
    NotifyAgrees(b, b1, ba.View(), first, status, notify, body, ba.host);
  }

  method ReadRequest(ba: ByteArray) returns (status: Status, sn: nat, cmd: nat, body: bytes)
    requires ba.Valid() && ba.order == Big
    modifies ba`position, ba`cur, ba`slot
    ensures ba.Valid() && Agrees(GetRequest(old(ba.View()), ba.host), status, Request(sn, cmd, body), ba.View())
  {
    ghost var b := ba.View();
    body := [];
    status, sn, cmd := ReadTwo(ba);
    ghost var first, b1 := status, ba.View();
    if status != Done {
      RequestAgrees(b, b1, b1, first, first, sn, cmd, body, ba.host);
      return;
    }
    status, body := ReadBody(ba);
    RequestAgrees(b, b1, ba.View(), first, status, sn, cmd, body, ba.host);
  }

  class RockRequest {
    var sn: nat
    var cmd: nat
    var body: bytes

    constructor (sn: nat, cmd: nat, body: bytes)
      ensures AsMsg() == Request(sn, cmd, body)
    {
      this.sn, this.cmd, this.body := sn, cmd, body;
    }

    function AsMsg(): Msg
      reads this
    {
      Request(sn, cmd, body)
    }

    method ToByteArray(host: Order) returns (ba: ByteArray)
      requires InRanges(AsMsg())
      ensures ba.Valid() && fresh(ba) && fresh(ba.Repr) && ba.host == host
              && ba.View() == PutMsg(Fresh(CHUNK), AsMsg(), host)
    {
      ba := new ByteArray(CHUNK, host);
      SerializeToByteArray(ba);
    }

    method SerializeToByteArray(ba: ByteArray)
      requires ba.Valid() && ba.order == Big && this !in ba.Repr && InRanges(AsMsg())
      modifies ba, ba.Repr
      ensures ba.Valid() && fresh(ba.Repr - old(ba.Repr)) && ba.order == Big
      ensures ba.View() == PutMsg(old(ba.View()), AsMsg(), ba.host)
    {
      ba.WriteFixed(REQUEST, 1);
      WriteTwo(ba, sn, cmd);
      WriteBody(ba, body);
    }

    /** The type has been read already. */
    method ParseFromByteArray(ba: ByteArray) returns (status: Status)
      requires ba.Valid() && ba.order == Big && this !in ba.Repr
      modifies this, ba`position, ba`cur, ba`slot
      ensures ba.Valid() && Agrees(GetRequest(old(ba.View()), ba.host), status, AsMsg(), ba.View())
    {
      status, sn, cmd, body := ReadRequest(ba);
    }
  }

  class RockResponse {
    var sn: nat
    var cmd: nat
    var result: nat
    var resStr: bytes
    var body: bytes

    constructor (sn: nat, cmd: nat, result: nat, resStr: bytes, body: bytes)
      ensures AsMsg() == Response(sn, cmd, result, resStr, body)
    {
      this.sn, this.cmd, this.result, this.resStr, this.body := sn, cmd, result, resStr, body;
    }

    function AsMsg(): Msg
      reads this
    {
      Response(sn, cmd, result, resStr, body)
    }

    method ToByteArray(host: Order) returns (ba: ByteArray)
      requires InRanges(AsMsg())
      ensures ba.Valid() && fresh(ba) && fresh(ba.Repr) && ba.host == host
              && ba.View() == PutMsg(Fresh(CHUNK), AsMsg(), host)
    {
      ba := new ByteArray(CHUNK, host);
      SerializeToByteArray(ba);
    }

    /** `Response::serializeToByteArray` */
    method SerializeHead(ba: ByteArray)
      requires ba.Valid() && ba.order == Big && this !in ba.Repr && |resStr| < TWO_64
      modifies ba, ba.Repr
      ensures ba.Valid() && fresh(ba.Repr - old(ba.Repr)) && ba.order == Big
      ensures var b2 := Put(Put(Put(old(ba.View()), FixedBytes(RESPONSE, 1, Big, ba.host)), Varint(sn)), Varint(cmd));
        ba.View() == Put(Put(Put(b2, Varint(result)), Varint(|resStr|)), resStr)
    {
      ba.WriteFixed(RESPONSE, 1);
      WriteTwo(ba, sn, cmd);
      WriteStatus(ba, result, resStr);
    }

    method SerializeToByteArray(ba: ByteArray)
      requires ba.Valid() && ba.order == Big && this !in ba.Repr && InRanges(AsMsg())
      modifies ba, ba.Repr
      ensures ba.Valid() && fresh(ba.Repr - old(ba.Repr)) && ba.order == Big
      ensures ba.View() == PutMsg(old(ba.View()), AsMsg(), ba.host)
    {
      SerializeHead(ba);
      WriteBody(ba, body);
    }

    method ParseFromByteArray(ba: ByteArray) returns (status: Status)
      requires ba.Valid() && ba.order == Big && this !in ba.Repr
      modifies this, ba`position, ba`cur, ba`slot
      ensures ba.Valid() && Agrees(GetResponse(old(ba.View()), ba.host), status, AsMsg(), ba.View())
    {
      var v, w, code, text, s;
      status, v, w, code, text, s := ReadResponse(ba);
      SetAll(v, w, code, text, s);
    }

    method SetAll(sn: nat, cmd: nat, result: nat, resStr: bytes, body: bytes)
      modifies this
      ensures AsMsg() == Response(sn, cmd, result, resStr, body)
    {
      this.sn, this.cmd, this.result, this.resStr, this.body := sn, cmd, result, resStr, body;
    }
  }

  class RockNotify {
    var notify: nat
    var body: bytes

    constructor (notify: nat, body: bytes)
      ensures AsMsg() == Notify(notify, body)
    {
      this.notify, this.body := notify, body;
    }

    function AsMsg(): Msg
      reads this
    {
      Notify(notify, body)
    }

    method ToByteArray(host: Order) returns (ba: ByteArray)
      requires InRanges(AsMsg())
      ensures ba.Valid() && fresh(ba) && fresh(ba.Repr) && ba.host == host
              && ba.View() == PutMsg(Fresh(CHUNK), AsMsg(), host)
    {
      ba := new ByteArray(CHUNK, host);
      SerializeToByteArray(ba);
    }

    method SerializeToByteArray(ba: ByteArray)
      requires ba.Valid() && ba.order == Big && this !in ba.Repr && InRanges(AsMsg())
      modifies ba, ba.Repr
      ensures ba.Valid() && fresh(ba.Repr - old(ba.Repr)) && ba.order == Big
      ensures ba.View() == PutMsg(old(ba.View()), AsMsg(), ba.host)
    {
      ba.WriteFixed(NOTIFY, 1);
      ba.WriteVarint(notify);
      WriteBody(ba, body);
    }

    method ParseFromByteArray(ba: ByteArray) returns (status: Status)
      requires ba.Valid() && ba.order == Big && this !in ba.Repr
      modifies this, ba`position, ba`cur, ba`slot
      ensures ba.Valid() && Agrees(GetNotify(old(ba.View()), ba.host), status, AsMsg(), ba.View())
    {
      status, notify, body := ReadNotify(ba);
    }
  }

  /** `toByteArray`, for a message of any of the three kinds. */
  method ToByteArray(m: Msg, host: Order) returns (ba: ByteArray)
    requires InRanges(m)
    ensures ba.Valid() && fresh(ba) && fresh(ba.Repr) && ba.host == host && ba.View() == PutMsg(Fresh(CHUNK), m, host)
  {
    match m
    case Request(sn, cmd, body) =>
      var o := new RockRequest(sn, cmd, body);
      ba := o.ToByteArray(host);
    case Response(sn, cmd, result, resStr, body) =>
      var o := new RockResponse(sn, cmd, result, resStr, body);
      ba := o.ToByteArray(host);
    case Notify(notify, body) =>
      var o := new RockNotify(notify, body);
      ba := o.ToByteArray(host);
  }

  /** The message that a type stands for, parsed; an unknown type is nothing. */
  method ParsePayload(t: byte, ba: ByteArray) returns (status: Status, m: Msg)
    requires ba.Valid() && ba.order == Big
    modifies ba`position, ba`cur, ba`slot
    ensures ba.Valid() && Agrees(GetPayload(t, old(ba.View()), ba.host), status, m, ba.View())
  {
    m := Notify(0, []);
    if t == REQUEST {
      var o := new RockRequest(0, 0, []);
      status := o.ParseFromByteArray(ba);
      m := o.AsMsg();
    } else if t == RESPONSE {
      var o := new RockResponse(0, 0, 404, [], []);
      status := o.ParseFromByteArray(ba);
      m := o.AsMsg();
    } else if t == NOTIFY {
      var o := new RockNotify(0, []);
      status := o.ParseFromByteArray(ba);
      m := o.AsMsg();
    } else {
      status := Threw;
    }
  }

  // ------------------------------------------------------------------ the decoder

  /** What `serializeTo` did: bytes and header counted, or the bytes handed to the compressor. */
  datatype Sent = Sent(count: nat) | ToCompress

  /** The header, then what the byte array holds. */
  method SendFrame(stream: Stream, ba: ByteArray)
    requires ba.Valid() && ba.position == 0 && stream !in ba.Repr
    modifies stream`output, ba`position, ba`size, ba`cur, ba`slot
    ensures ba.Valid() && ba.size == old(ba.size)
    ensures stream.output == old(stream.output) + (F.Header(ba.size, ba.host) + old(ba.View()).data)
  {
    var head := F.Header(ba.size, ba.host);
    ConcatAssociates(stream.output, head, ba.View().data);
    WholeSlice(ba.View().data);
    var _ := stream.WriteFixSize(head);
    var _ := stream.WriteFrom(ba, ba.size - ba.position);
  }

  /** The bytes of a message, with the position at their start. */
  method Rewound(m: Msg, host: Order) returns (ba: ByteArray)
    requires InRanges(m)
    ensures ba.Valid() && fresh(ba) && fresh(ba.Repr) && ba.host == host
    ensures ba.position == 0 && ba.View().data == MsgBytes(m, host)
  {
    ba := ToByteArray(m, host);
    PutMsgIs(m, host);
    var _ := ba.SetPosition(0);
  }

  /** `serializeTo`.  The length of the header has 32 bits; where it reaches `gzipMin` the bytes
      are compressed, which is not modelled. */
  method SerializeTo(stream: Stream, m: Msg, gzipMin: nat, host: Order) returns (sent: Sent)
    requires InRanges(m)
    modifies stream`output
    ensures |MsgBytes(m, host)| % TWO_32 < gzipMin ==>
              && sent == Sent(F.HEADER + |MsgBytes(m, host)|)
              && stream.output == old(stream.output) + F.Frame(m, host)
    ensures |MsgBytes(m, host)| % TWO_32 >= gzipMin ==> sent == ToCompress && stream.output == old(stream.output)
  {
    var ba := Rewound(m, host);
    if ba.size % TWO_32 >= gzipMin {
      return ToCompress;
    }
    SendFrame(stream, ba);
    return Sent(F.HEADER + ba.size);
  }

  lemma {:induction false} WholeSlice(data: bytes)
    ensures data[0..|data|] == data
  {
  }

  /** The type and the message behind it. */
  method ParseBody(ba: ByteArray) returns (status: Status, m: Msg)
    requires ba.Valid() && ba.order == Big
    modifies ba`position, ba`cur, ba`slot
    ensures ba.Valid() && Agrees(GetMsg(old(ba.View()), ba.host), status, m, ba.View())
  {
    m := Notify(0, []);
    var t;
    status, t := ba.ReadFixed(1);
    if status != Done {
      return;
    }
    status, m := ParsePayload(t, ba);
  }

  /** `parseFrom` */
  method ParseFrom(stream: Stream, max: nat, host: Order) returns (outcome: F.Outcome)
    requires max <= TWO_31
    modifies stream`input
    ensures (outcome, stream.input) == F.ParseFrame(old(stream.input), max, host)
  {
    var rt, head := stream.ReadFixSize(F.HEADER);
    if rt == 0 || head[0] != F.MAGIC_0 || head[1] != F.MAGIC_1 || head[2] != F.VERSION {
      return F.Nothing;
    }
    var length := FixedValue(head[4..], Big, host);
    if length >= max {
      return F.Nothing;
    }
    var ba := new ByteArray(CHUNK, host);
    rt := stream.ReadInto(ba, length);
    if rt == 0 {
      return F.Nothing;
    }
    var status := ba.SetPosition(0);
    if head[3] % 2 == 1 {
      return F.Compressed;
    }
    var m;
    status, m := ParseBody(ba);
    match status
    case Done => outcome := F.Parsed(m);
    case Threw => outcome := F.Nothing;
    case Crashed => outcome := F.Crashed;
  }
}
