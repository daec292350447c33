/** Rock messages and frames as bytes (src/Protocol.cpp, src/rpc/RockProtocol.cpp). */
module RockModel {
  import opened Bytes
  import opened FlatBuffer
  import opened Codec
  import opened TypedValues

  datatype Msg =
    | Request(sn: nat, cmd: nat, body: bytes)
    | Response(sn: nat, cmd: nat, result: nat, resStr: bytes, body: bytes)
    | Notify(notify: nat, body: bytes)

  /** The numbers are unsigned 32-bit integers, the lengths of the strings 64-bit ones. */
  predicate InRanges(m: Msg) {
    && |m.body| < TWO_64
    && (match m
        case Request(sn, cmd, _) => sn < TWO_32 && cmd < TWO_32
        case Response(sn, cmd, result, resStr, _) => sn < TWO_32 && cmd < TWO_32 && result < TWO_32 && |resStr| < TWO_64
        case Notify(notify, _) => notify < TWO_32)
  }

  const REQUEST: byte := 1
  const RESPONSE: byte := 2
  const NOTIFY: byte := 3

  /** The chunk size of the byte arrays that carry messages. */
  const CHUNK: nat := 4096

  function TypeOf(m: Msg): byte {
    match m
    case Request(_, _, _) => REQUEST
    case Response(_, _, _, _, _) => RESPONSE
    case Notify(_, _) => NOTIFY
  }

  // ------------------------------------------------------------------- writing

  function PutBody(b: Buf, s: bytes, host: Order): (r: Buf)
    requires Legal(b)
    ensures Legal(r) && r.base == b.base
  {
    Put(Put(b, FixedBytes(|s| % Pow256(4), 4, Big, host)), s)
  }

  /** `serializeToByteArray`: the type, the fields, the body. */
  function PutMsg(b: Buf, m: Msg, host: Order): (r: Buf)
    requires Legal(b)
    ensures Legal(r) && r.base == b.base
  {
    var b0 := Put(b, FixedBytes(TypeOf(m), 1, Big, host));
    match m
    case Request(sn, cmd, body) =>
      PutBody(Put(Put(b0, Varint(sn)), Varint(cmd)), body, host)
    case Response(sn, cmd, result, resStr, body) =>
      PutBody(Put(Put(Put(Put(Put(b0, Varint(sn)), Varint(cmd)), Varint(result)), Varint(|resStr|)), resStr), body,
          host)
    case Notify(notify, body) =>
      PutBody(Put(b0, Varint(notify)), body, host)
  }

  function BodyBytes(s: bytes, host: Order): bytes {
    FixedBytes(|s| % Pow256(4), 4, Big, host) + s
  }

  /** The bytes of a message behind its type. */
  function Payload(m: Msg, host: Order): bytes {
    match m
    case Request(sn, cmd, body) => Varint(sn) + (Varint(cmd) + BodyBytes(body, host))
    case Response(sn, cmd, result, resStr, body) =>
      Varint(sn) + (Varint(cmd) + (Varint(result) + (Varint(|resStr|) + (resStr + BodyBytes(body, host)))))
    case Notify(notify, body) => Varint(notify) + BodyBytes(body, host)
  }

  function MsgBytes(m: Msg, host: Order): (r: bytes)
    ensures |r| > 0
  {
    FixedBytes(TypeOf(m), 1, Big, host) + Payload(m, host)
  }

  /** The position is at the end of what has been written, which is `data`. */
  predicate Holds(b: Buf, data: bytes) {
    Legal(b) && b.data == data && b.pos == |data|
  }

  lemma {:induction false} PutOn(b: Buf, data: bytes, x: bytes)
    requires Holds(b, data)
    ensures Holds(Put(b, x), data + x)
  {
  }

  lemma {:induction false} PutBodyOn(b: Buf, data: bytes, s: bytes, host: Order)
    requires Holds(b, data)
    ensures Holds(PutBody(b, s, host), data + BodyBytes(s, host))
  {
    var len := FixedBytes(|s| % Pow256(4), 4, Big, host);
    PutOn(b, data, len);
    PutOn(Put(b, len), data + len, s);
    ConcatAssociates(data, len, s);
  }

  lemma {:induction false} RequestPuts(b: Buf, t: bytes, m: Msg, host: Order)
    requires Holds(b, t) && m.Request?
    ensures Holds(PutBody(Put(Put(b, Varint(m.sn)), Varint(m.cmd)), m.body, host), t + Payload(m, host))
  {
    var sn, cmd, tail := Varint(m.sn), Varint(m.cmd), BodyBytes(m.body, host);
    PutOn(b, t, sn);
    PutOn(Put(b, sn), t + sn, cmd);
    PutBodyOn(Put(Put(b, sn), cmd), t + sn + cmd, m.body, host);
    ConcatAssociates(t + sn, cmd, tail);
    ConcatAssociates(t, sn, cmd + tail);
  }

  lemma {:induction false} TextPuts(b: Buf, t: bytes, s: bytes, body: bytes, host: Order)
    requires Holds(b, t)
    ensures Holds(PutBody(Put(Put(b, Varint(|s|)), s), body, host), t + (Varint(|s|) + (s + BodyBytes(body, host))))
  {
    var n, tail := Varint(|s|), BodyBytes(body, host);
    PutOn(b, t, n);
    PutOn(Put(b, n), t + n, s);
    PutBodyOn(Put(Put(b, n), s), t + n + s, body, host);
    ConcatAssociates(t + n, s, tail);
    ConcatAssociates(t, n, s + tail);
  }

  lemma {:induction false} ResponsePuts(b: Buf, t: bytes, m: Msg, host: Order)
    requires Holds(b, t) && m.Response?
    ensures var b3 := Put(Put(Put(b, Varint(m.sn)), Varint(m.cmd)), Varint(m.result));
      Holds(PutBody(Put(Put(b3, Varint(|m.resStr|)), m.resStr), m.body, host), t + Payload(m, host))
  {
    var sn, cmd, result := Varint(m.sn), Varint(m.cmd), Varint(m.result);
    var tail := Varint(|m.resStr|) + (m.resStr + BodyBytes(m.body, host));
    PutOn(b, t, sn);
    PutOn(Put(b, sn), t + sn, cmd);
    PutOn(Put(Put(b, sn), cmd), t + sn + cmd, result);
    TextPuts(Put(Put(Put(b, sn), cmd), result), t + sn + cmd + result, m.resStr, m.body, host);
    ConcatAssociates(t + sn + cmd, result, tail);
    ConcatAssociates(t + sn, cmd, result + tail);
    ConcatAssociates(t, sn, cmd + (result + tail));
  }

  lemma {:induction false} NotifyPuts(b: Buf, t: bytes, m: Msg, host: Order)
    requires Holds(b, t) && m.Notify?
    ensures Holds(PutBody(Put(b, Varint(m.notify)), m.body, host), t + Payload(m, host))
  {
    PutOn(b, t, Varint(m.notify));
    PutBodyOn(Put(b, Varint(m.notify)), t + Varint(m.notify), m.body, host);
    ConcatAssociates(t, Varint(m.notify), BodyBytes(m.body, host));
  }

  /** A message written into a fresh array is its bytes. */
  lemma {:induction false} PutMsgIs(m: Msg, host: Order)
    ensures Holds(PutMsg(Fresh(CHUNK), m, host), MsgBytes(m, host))
  {
    var t := FixedBytes(TypeOf(m), 1, Big, host);
    var b := Put(Fresh(CHUNK), t);
    PutOn(Fresh(CHUNK), [], t);
    match m
    case Request(_, _, _) => RequestPuts(b, t, m, host);
    case Response(_, _, _, _, _) => ResponsePuts(b, t, m, host);
    case Notify(_, _) => NotifyPuts(b, t, m, host);
  }

  // ------------------------------------------------------------------- reading

  function GetBody(b: Buf, host: Order): (r: Out<bytes>)
    requires Legal(b)
    ensures r.Ok? ==> Legal(r.rest) && r.rest.data == b.data
  {
    var (n, b1) :- GetFixed(b, 4, Big, host);
    Take(b1, n)
  }

  function GetText(b: Buf): (r: Out<bytes>)
    requires Legal(b)
    ensures r.Ok? ==> Legal(r.rest) && r.rest.data == b.data
  {
    var (n, b1) :- GetVarint(b, 64);
    Take(b1, n)
  }

  /** Sequence number and command. */
  function GetTwo(b: Buf): (r: Out<(nat, nat)>)
    requires Legal(b)
    ensures r.Ok? ==> Legal(r.rest) && r.rest.data == b.data
  {
    var (v, b1) :- GetVarint(b, 32);
    var (w, b2) :- GetVarint(b1, 32);
    Ok((v, w), b2)
  }

  /** Result and result text. */
  function GetStatus(b: Buf): (r: Out<(nat, bytes)>)
    requires Legal(b)
    ensures r.Ok? ==> Legal(r.rest) && r.rest.data == b.data
  {
    var (result, b1) :- GetVarint(b, 32);
    var (resStr, b2) :- GetText(b1);
    Ok((result, resStr), b2)
  }

  /** All of a response but its body. */
  function GetHead(b: Buf): (r: Out<(nat, nat, nat, bytes)>)
    requires Legal(b)
    ensures r.Ok? ==> Legal(r.rest) && r.rest.data == b.data
  {
    var (two, b2) :- GetTwo(b);
    var (st, b4) :- GetStatus(b2);
    Ok((two.0, two.1, st.0, st.1), b4)
  }

  function GetRequest(b: Buf, host: Order): Out<Msg>
    requires Legal(b)
  {
    var (two, b2) :- GetTwo(b);
    var (body, b3) :- GetBody(b2, host);
    Ok(Request(two.0, two.1, body), b3)
  }

  function GetResponse(b: Buf, host: Order): Out<Msg>
    requires Legal(b)
  {
    var (head, b4) :- GetHead(b);
    var (body, b5) :- GetBody(b4, host);
    Ok(Response(head.0, head.1, head.2, head.3, body), b5)
  }

  function GetNotify(b: Buf, host: Order): Out<Msg>
    requires Legal(b)
  {
    var (notify, b1) :- GetVarint(b, 32);
    var (body, b2) :- GetBody(b1, host);
    Ok(Notify(notify, body), b2)
  }

  /** `parseFromByteArray` of the message that a type stands for.  An unknown type gives no
      message, just as bytes that run out do. */
  function GetPayload(t: byte, b: Buf, host: Order): Out<Msg>
    requires Legal(b)
  {
    if t == REQUEST then GetRequest(b, host)
    else if t == RESPONSE then GetResponse(b, host)
    else if t == NOTIFY then GetNotify(b, host)
    else OutOfRange(b)
  }

  function GetMsg(b: Buf, host: Order): Out<Msg>
    requires Legal(b)
  {
    var (t, b1) :- GetFixed(b, 1, Big, host);
    if t < 256 then GetPayload(t, b1, host) else OutOfRange(b1)
  }

  // --------------------------------------------------------------- one message

  lemma {:induction false} Uint32ReadsBack(b: Buf, v: nat, tail: bytes) returns (b': Buf)
    requires Legal(b) && v < TWO_32 && Ahead(b, Varint(v) + tail)
    ensures b' == b.(pos := b.pos + |Varint(v)|) && Legal(b') && Ahead(b', tail)
    ensures GetVarint(b, 32) == Ok(v, b')
  {
    AheadParts(b, Varint(v), tail);
    PowersOfTwo();
    VintReadsBack(b, 32, v);
    b' := b.(pos := b.pos + |Varint(v)|);
  }

  /** The bytes of a string whose length has been read. */
  lemma {:induction false} TakeReads(b: Buf, s: bytes)
    requires Legal(b) && Ahead(b, s)
    ensures Take(b, |s|) == if s == [] && b.pos == b.cap then NullCursor else Ok(s, b.(pos := b.pos + |s|))
  {
  }

  lemma {:induction false} TextReads(b: Buf, s: bytes, tail: bytes) returns (b': Buf)
    requires Legal(b) && |s| < TWO_64 && tail != [] && Ahead(b, Varint(|s|) + (s + tail))
    ensures b' == b.(pos := b.pos + |Varint(|s|)| + |s|) && Legal(b') && Ahead(b', tail)
    ensures GetText(b) == Ok(s, b')
  {
    AheadParts(b, Varint(|s|), s + tail);
    PowersOfTwo();
    VintReadsBack(b, 64, |s|);
    var b1 := b.(pos := b.pos + |Varint(|s|)|);
    AheadParts(b1, s, tail);
    TakeReads(b1, s);
    b' := b1.(pos := b1.pos + |s|);
  }

  lemma {:induction false} LengthReads(b: Buf, n: nat, s: bytes, host: Order) returns (b': Buf)
    requires Legal(b) && n < TWO_32 && Ahead(b, FixedBytes(n % Pow256(4), 4, Big, host) + s)
    ensures b' == b.(pos := b.pos + 4) && Legal(b') && Ahead(b', s)
    ensures GetFixed(b, 4, Big, host) == Ok(n, b')
  {
    assert Pow256(4) == TWO_32;
    SmallMod(n, Pow256(4));
    AheadParts(b, FixedBytes(n, 4, Big, host), s);
    PlainReadsBack(b, 4, n, Big, host);
    b' := b.(pos := b.pos + 4);
  }

  /** The body is last, so an empty one may meet the null cursor at capacity. */
  lemma {:induction false} BodyReads(b: Buf, s: bytes, host: Order)
    requires Legal(b) && |s| < TWO_32 && Ahead(b, BodyBytes(s, host))
    ensures var end := b.pos + |BodyBytes(s, host)|;
      GetBody(b, host) == if s == [] && end == b.cap then NullCursor else Ok(s, b.(pos := end))
  {
    var b' := LengthReads(b, |s|, s, host);
    TakeReads(b', s);
  }

  /** What reading at `b` a message gives whose bytes behind the type stand there. */
  predicate Reads(b: Buf, m: Msg, host: Order, r: Out<Msg>) {
    var end := b.pos + |Payload(m, host)|;
    r == if m.body == [] && end == b.cap then NullCursor else Ok(m, b.(pos := end))
  }

  lemma {:induction false} RequestReads(b: Buf, m: Msg, host: Order)
    requires Legal(b) && m.Request? && InRanges(m) && |m.body| < TWO_32 && Ahead(b, Payload(m, host))
    ensures Reads(b, m, host, GetRequest(b, host))
  {
    var b2 := TwoUint32sRead(b, m.sn, m.cmd, BodyBytes(m.body, host));
    BodyReads(b2, m.body, host);
  }

  /** A response, once its sequence number and command have been read. */
  lemma {:induction false} StatusReads(b: Buf, m: Msg, host: Order) returns (b': Buf)
    requires Legal(b) && m.Response? && InRanges(m) && |m.body| < TWO_32
    requires Ahead(b, Varint(m.result) + (Varint(|m.resStr|) + (m.resStr + BodyBytes(m.body, host))))
    ensures b' == b.(pos := b.pos + |Varint(m.result)| + |Varint(|m.resStr|)| + |m.resStr|)
    ensures Legal(b') && GetStatus(b) == Ok((m.result, m.resStr), b') && Ahead(b', BodyBytes(m.body, host))
  {
    var b1 := Uint32ReadsBack(b, m.result, Varint(|m.resStr|) + (m.resStr + BodyBytes(m.body, host)));
    b' := TextReads(b1, m.resStr, BodyBytes(m.body, host));
  }

  lemma {:induction false} ResponseReads(b: Buf, m: Msg, host: Order)
    requires Legal(b) && m.Response? && InRanges(m) && |m.body| < TWO_32 && Ahead(b, Payload(m, host))
    ensures Reads(b, m, host, GetResponse(b, host))
  {
    var tail := Varint(m.result) + (Varint(|m.resStr|) + (m.resStr + BodyBytes(m.body, host)));
    var b2 := TwoUint32sRead(b, m.sn, m.cmd, tail);
    var b4 := StatusReads(b2, m, host);
    BodyReads(b4, m.body, host);
  }

  lemma {:induction false} TwoUint32sRead(b: Buf, v: nat, w: nat, tail: bytes) returns (b': Buf)
    requires Legal(b) && v < TWO_32 && w < TWO_32 && Ahead(b, Varint(v) + (Varint(w) + tail))
    ensures b' == b.(pos := b.pos + |Varint(v)| + |Varint(w)|) && Legal(b') && Ahead(b', tail)
    ensures GetTwo(b) == Ok((v, w), b')
  {
    var b1 := Uint32ReadsBack(b, v, Varint(w) + tail);
    b' := Uint32ReadsBack(b1, w, tail);
  }

  lemma {:induction false} NotifyReads(b: Buf, m: Msg, host: Order)
    requires Legal(b) && m.Notify? && InRanges(m) && |m.body| < TWO_32 && Ahead(b, Payload(m, host))
    ensures Reads(b, m, host, GetNotify(b, host))
  {
    var b1 := Uint32ReadsBack(b, m.notify, BodyBytes(m.body, host));
    BodyReads(b1, m.body, host);
  }

  lemma {:induction false} PayloadReads(b: Buf, m: Msg, host: Order)
    requires Legal(b) && InRanges(m) && |m.body| < TWO_32 && Ahead(b, Payload(m, host))
    ensures Reads(b, m, host, GetPayload(TypeOf(m), b, host))
  {
    match m
    case Request(_, _, _) => RequestReads(b, m, host);
    case Response(_, _, _, _, _) => ResponseReads(b, m, host);
    case Notify(_, _) => NotifyReads(b, m, host);
  }

  /** The array of the receiver: the bytes written into a fresh one, and the position set back. */
  function Received(data: bytes): (b: Buf)
    ensures Legal(b) && b.data == data && b.pos == 0
  {
    Put(Fresh(CHUNK), data).(pos := 0)
  }

  /** The capacity is reached exactly when the bytes fill whole chunks. */
  lemma {:induction false} ReceivedFull(data: bytes)
    ensures |data| == Received(data).cap <==> |data| > 0 && |data| % CHUNK == 0
  {
    var k := PutSnug(Fresh(CHUNK), data, 1);
    SnugFull(Put(Fresh(CHUNK), data), k);
  }

  /** The one family of messages that cannot be read back: an empty body, and bytes that fill
      whole chunks. */
  predicate HitsTheEnd(m: Msg, host: Order) {
    m.body == [] && |MsgBytes(m, host)| % CHUNK == 0
  }

  /** A received message is read back, or the null cursor is met at its end. */
  lemma {:induction false} MsgReadsBack(m: Msg, host: Order)
    requires InRanges(m) && |m.body| < TWO_32
    ensures var data := MsgBytes(m, host);
      GetMsg(Received(data), host) == if HitsTheEnd(m, host) then NullCursor else Ok(m, Received(data).(pos := |data|))
  {
    var data := MsgBytes(m, host);
    var b := Received(data);
    var t := FixedBytes(TypeOf(m), 1, Big, host);
    assert b.data[0..|data|] == data;
    AheadParts(b, t, Payload(m, host));
    assert Pow256(1) == 256;
    PlainReadsBack(b, 1, TypeOf(m), Big, host);
    PayloadReads(b.(pos := 1), m, host);
    ReceivedFull(data);
  }

  lemma {:induction false} ShortMessages(m: Msg, host: Order)
    requires InRanges(m) && m.body == [] && !m.Response?
    ensures 0 < |MsgBytes(m, host)| <= 15
  {
    match m
    case Request(sn, cmd, _) =>
      VarintFitsScratch(sn);
      VarintFitsScratch(cmd);
    case Notify(notify, _) =>
      VarintFitsScratch(notify);
  }

  /** Only a response can be of that family: a request or notify with an empty body is short. */
  lemma {:induction false} OnlyResponsesHitTheEnd(m: Msg, host: Order)
    requires InRanges(m) && HitsTheEnd(m, host)
    ensures m.Response?
  {
    if m.body == [] && !m.Response? {
      ShortMessages(m, host);
    }
  }

  // -------------------------------------------------------------- the bytes on the wire

  /** Four bytes, most significant first. */
  lemma {:induction false} FourBytes(n: nat, host: Order)
    requires n < TWO_32
    ensures FixedBytes(n, 4, Big, host) == [n / 0x100_0000, n / 0x1_0000 % 256, n / 256 % 256, n % 256]
  {
    FixedByteAt(n, 4, Big, host);
    assert Pow256(1) == 256 && Pow256(2) == 0x1_0000 && Pow256(3) == 0x100_0000;
  }

  /** The type, 1 for a request, 2 for a response and 3 for a notify; the numbers of the message;
      for a response the length and the bytes of its text; the length of the body in four bytes,
      and the body. */
  lemma {:induction false} MsgIs(m: Msg, host: Order)
    requires InRanges(m) && |m.body| < TWO_32
    ensures var n := |m.body|;
      var len := [n / 0x100_0000, n / 0x1_0000 % 256, n / 256 % 256, n % 256];
      match m
      case Request(sn, cmd, body) => MsgBytes(m, host) == [1] + (Varint(sn) + (Varint(cmd) + (len + body)))
      case Response(sn, cmd, result, resStr, body) =>
        MsgBytes(m, host) == [2] + (Varint(sn) + (Varint(cmd) + (Varint(result)
          + (Varint(|resStr|) + (resStr + (len + body))))))
      case Notify(notify, body) => MsgBytes(m, host) == [3] + (Varint(notify) + (len + body))
  {
    assert Pow256(4) == TWO_32;
    SmallMod(|m.body|, Pow256(4));
    FourBytes(|m.body|, host);
    OneByte(TypeOf(m), host);
  }

  lemma {:induction false} OneByte(t: byte, host: Order)
    ensures FixedBytes(t, 1, Big, host) == [t]
  {
    FixedByteAt(t, 1, Big, host);
  }
}
