/** Rock frames on a stream of bytes (src/rpc/RockProtocol.cpp). */
module RockFrames {
  import opened Bytes
  import opened FlatBuffer
  import opened Codec
  import opened TypedValues
  import opened RockModel

  const MAGIC_0: byte := 0x12
  const MAGIC_1: byte := 0x21
  const VERSION: byte := 1
  const HEADER: nat := 8

  /** Magic, version, an empty flag, and the length, which is big-endian on every host. */
  function Header(n: nat, host: Order): (r: bytes)
    ensures |r| == HEADER
  {
    [MAGIC_0, MAGIC_1, VERSION, 0] + FixedBytes(n, 4, Big, host)
  }

  function Frame(m: Msg, host: Order): bytes {
    Header(|MsgBytes(m, host)|, host) + MsgBytes(m, host)
  }

  /** `Compressed`: the body goes to the decompressor, which is not modelled.  `Crashed`: the
      null cursor of the byte array is dereferenced. */
  datatype Outcome = Parsed(msg: Msg) | Nothing | Compressed | Crashed

  /** What a received body is decoded to. */
  function Decoded(data: bytes, flag: byte, host: Order): Outcome {
    if flag % 2 == 1 then Compressed
    else
      match GetMsg(Received(data), host)
      case Ok(m, _) => Parsed(m)
      case OutOfRange(_) => Nothing
      case NullCursor => Crashed
  }

  /** `parseFrom`: the outcome and what is left in the stream.  A short read consumes what there
      is, a rejected header only itself. */
  function ParseFrame(s: bytes, max: nat, host: Order): (Outcome, bytes) {
    if |s| < HEADER then (Nothing, [])
    else
      var body := s[HEADER..];
      if s[0] != MAGIC_0 || s[1] != MAGIC_1 || s[2] != VERSION then (Nothing, body)
      else
        var n := FixedValue(s[4..HEADER], Big, host);
        if n >= max || n == 0 then (Nothing, body)
        else if |body| < n then (Nothing, [])
        else (Decoded(body[..n], s[3], host), body[n..])
  }

  /** The message can be received: it is short enough, and not of the family that crashes. */
  predicate Fits(m: Msg, max: nat, host: Order) {
    |MsgBytes(m, host)| < max && !HitsTheEnd(m, host)
  }

  lemma {:induction false} BodyIsPart(m: Msg, host: Order)
    ensures |m.body| < |MsgBytes(m, host)|
  {
  }

  lemma {:induction false} HeaderReads(n: nat, data: bytes, tail: bytes, host: Order, s: bytes)
    requires n < TWO_32 && n == |data| && s == Header(n, host) + data + tail
    ensures |s| >= HEADER && s[0] == MAGIC_0 && s[1] == MAGIC_1 && s[2] == VERSION && s[3] == 0
    ensures FixedValue(s[4..HEADER], Big, host) == n
    ensures s[HEADER..] == data + tail
  {
    assert s[4..HEADER] == FixedBytes(n, 4, Big, host);
    assert Pow256(4) == TWO_32;
    FixedRoundTrip(n, 4, Big, host, host);
  }

  /** What becomes of one frame at the head of a stream, for every message. */
  lemma {:induction false} FrameReads(m: Msg, tail: bytes, max: nat, host: Order)
    requires InRanges(m) && |MsgBytes(m, host)| < TWO_32
    ensures var n, r := |MsgBytes(m, host)|, ParseFrame(Frame(m, host) + tail, max, host);
      if n >= max then r == (Nothing, MsgBytes(m, host) + tail)
      else if HitsTheEnd(m, host) then r == (Crashed, tail)
      else r == (Parsed(m), tail)
  {
    var data := MsgBytes(m, host);
    HeaderReads(|data|, data, tail, host, Frame(m, host) + tail);
    BodyIsPart(m, host);
    MsgReadsBack(m, host);
    TakeFront(data, tail);
  }

  // ------------------------------------------------------------- whole streams

  function Frames(ms: seq<Msg>, host: Order): bytes
    decreases |ms|
  {
    if ms == [] then [] else Frame(ms[0], host) + Frames(ms[1..], host)
  }

  datatype Run = All(msgs: seq<Msg>, rest: bytes) | Stopped

  /** `n` calls of `parseFrom`, as long as each yields a message. */
  function ParseAll(s: bytes, n: nat, max: nat, host: Order): Run {
    if n == 0 then All([], s)
    else
      var (outcome, rest) := ParseFrame(s, max, host);
      if !outcome.Parsed? then Stopped
      else
        match ParseAll(rest, n - 1, max, host)
        case All(ms, rest') => All([outcome.msg] + ms, rest')
        case Stopped => Stopped
  }

  /** Messages whose fields are in range and that are sent uncompressed. */
  predicate Plain(ms: seq<Msg>, gzipMin: nat, host: Order)
    decreases |ms|
  {
    ms == [] || (InRanges(ms[0]) && |MsgBytes(ms[0], host)| < gzipMin && Plain(ms[1..], gzipMin, host))
  }

  predicate AllFit(ms: seq<Msg>, max: nat, host: Order)
    decreases |ms|
  {
    ms == [] || (Fits(ms[0], max, host) && AllFit(ms[1..], max, host))
  }

  lemma {:induction false} AllFitIff(ms: seq<Msg>, max: nat, host: Order)
    ensures AllFit(ms, max, host) <==> forall i :: 0 <= i < |ms| ==> Fits(ms[i], max, host)
    decreases |ms|
  {
    if ms != [] {
      var rest := ms[1..];
      AllFitIff(rest, max, host);
      assert forall i :: 0 < i < |ms| ==> ms[i] == rest[i - 1];
      assert forall i :: 0 <= i < |rest| ==> rest[i] == ms[i + 1];
    }
  }

  lemma {:induction false} ParseAllStep(s: bytes, n: nat, max: nat, host: Order, outcome: Outcome, rest: bytes)
    requires n > 0 && ParseFrame(s, max, host) == (outcome, rest)
    ensures !outcome.Parsed? ==> ParseAll(s, n, max, host) == Stopped
    ensures outcome.Parsed? ==>
              ParseAll(s, n, max, host) == var r := ParseAll(rest, n - 1, max, host);
                                           if r.All? then All([outcome.msg] + r.msgs, r.rest) else Stopped
  {
  }

  /** The first frame decides, or leaves it to the others. */
  lemma {:induction false} StreamStep(ms: seq<Msg>, s: bytes, others: bytes, tail: bytes, max: nat, host: Order)
    requires ms != [] && InRanges(ms[0]) && |MsgBytes(ms[0], host)| < TWO_32
    requires s == Frame(ms[0], host) + others
    ensures ParseAll(s, |ms|, max, host) == All(ms, tail) <==>
            Fits(ms[0], max, host) && ParseAll(others, |ms| - 1, max, host) == All(ms[1..], tail)
  {
    var m := ms[0];
    FrameReads(m, others, max, host);
    var (outcome, rest) := ParseFrame(s, max, host);
    ParseAllStep(s, |ms|, max, host, outcome, rest);
    if outcome.Parsed? {
      HeadAndTail(ms, m, ParseAll(others, |ms| - 1, max, host), tail);
    }
  }

  lemma {:induction false} NoFrames(s: bytes, tail: bytes, max: nat, host: Order)
    requires s == [] + tail
    ensures ParseAll(s, 0, max, host) == All([], tail)
  {
  }

  lemma {:induction false} StreamDecodes(ms: seq<Msg>, s: bytes, tail: bytes, gzipMin: nat, max: nat, host: Order)
    requires gzipMin <= TWO_32 && Plain(ms, gzipMin, host) && s == Frames(ms, host) + tail
    ensures ParseAll(s, |ms|, max, host) == All(ms, tail) <==> AllFit(ms, max, host)
    decreases |ms|
  {
    if ms == [] {
      NoFrames(s, tail, max, host);
    } else {
      var others := Frames(ms[1..], host) + tail;
      FramesStep(ms, tail, host);
      StreamDecodes(ms[1..], others, tail, gzipMin, max, host);
      StreamJoins(ms, ms[1..], s, others, tail, max, host);
    }
  }

  lemma {:induction false} StreamJoins(ms: seq<Msg>, rest: seq<Msg>, s: bytes, others: bytes, tail: bytes, max: nat,
                                       host: Order)
    requires ms != [] && rest == ms[1..] && InRanges(ms[0]) && |MsgBytes(ms[0], host)| < TWO_32
    requires s == Frame(ms[0], host) + others
    requires ParseAll(others, |rest|, max, host) == All(rest, tail) <==> AllFit(rest, max, host)
    ensures ParseAll(s, |ms|, max, host) == All(ms, tail) <==> AllFit(ms, max, host)
  {
    StreamStep(ms, s, others, tail, max, host);
  }

  /** A stream that holds any messages sent uncompressed, and then anything, decodes to exactly
      these messages, each frame consuming its header and the declared length, if and only if
      each message is shorter than the limit and none has an empty body and bytes that fill
      whole chunks. */
  lemma {:induction false} StreamRoundTripIff(ms: seq<Msg>, tail: bytes, gzipMin: nat, max: nat, host: Order)
    requires gzipMin <= TWO_32 && Plain(ms, gzipMin, host)
    ensures ParseAll(Frames(ms, host) + tail, |ms|, max, host) == All(ms, tail) <==> AllFit(ms, max, host)
  {
    StreamDecodes(ms, Frames(ms, host) + tail, tail, gzipMin, max, host);
  }

  /** Nothing of a frame depends on the host that writes it. */
  lemma {:induction false} FramesHostFree(ms: seq<Msg>, host: Order, other: Order)
    ensures Frames(ms, host) == Frames(ms, other)
    decreases |ms|
  {
    if ms != [] {
      FrameHostFree(ms[0], host, other);
      FramesHostFree(ms[1..], host, other);
    }
  }

  lemma {:induction false} FrameHostFree(m: Msg, host: Order, other: Order)
    ensures MsgBytes(m, host) == MsgBytes(m, other) && Frame(m, host) == Frame(m, other)
  {
    FixedHostFree(|m.body| % Pow256(4), 4, host, other);
    FixedHostFree(TypeOf(m), 1, host, other);
    FixedHostFree(|MsgBytes(m, host)|, 4, host, other);
  }

  lemma {:induction false} FixedHostFree(v: nat, n: nat, host: Order, other: Order)
    ensures FixedBytes(v, n, Big, host) == FixedBytes(v, n, Big, other)
  {
    FixedBytesHostFree(v, n, Big, host);
    FixedBytesHostFree(v, n, Big, other);
  }

  /** So sender and receiver may differ in byte order. */
  lemma {:induction false} AcrossHosts(ms: seq<Msg>, tail: bytes, gzipMin: nat, max: nat, sender: Order, host: Order)
    requires gzipMin <= TWO_32 && Plain(ms, gzipMin, host)
    ensures ParseAll(Frames(ms, sender) + tail, |ms|, max, host) == All(ms, tail) <==> AllFit(ms, max, host)
  {
    FramesHostFree(ms, sender, host);
    StreamRoundTripIff(ms, tail, gzipMin, max, host);
  }

  lemma {:induction false} FramesStep(ms: seq<Msg>, tail: bytes, host: Order)
    requires ms != []
    ensures Frames(ms, host) + tail == Frame(ms[0], host) + (Frames(ms[1..], host) + tail)
  {
    ConcatAssociates(Frame(ms[0], host), Frames(ms[1..], host), tail);
  }

  lemma {:induction false} HeadAndTail(ms: seq<Msg>, m: Msg, r: Run, tail: bytes)
    requires ms != [] && m == ms[0]
    ensures r.All? ==> (All([m] + r.msgs, r.rest) == All(ms, tail) <==> r == All(ms[1..], tail))
  {
    if r.All? {
      assert ([m] + r.msgs)[1..] == r.msgs;
      assert ms == [m] + ms[1..];
    }
  }

  /** A response that crashes its receiver: an empty body, and 4086 bytes of result text. */
  lemma {:induction false} ResponseThatCrashes(text: bytes, tail: bytes, max: nat, host: Order)
    requires |text| == 4086 && max > CHUNK
    ensures ParseFrame(Frame(Response(0, 0, 0, text, []), host) + tail, max, host) == (Crashed, tail)
  {
    var m := Response(0, 0, 0, text, []);
    assert |Varint(4086)| == 2 && |Varint(0)| == 1;
    assert |MsgBytes(m, host)| == CHUNK;
    FrameReads(m, tail, max, host);
  }

  // -------------------------------------------------------------- the bytes on the wire

  /** The header: magic 12 21, version 1, no flag, and the length, most significant byte first. */
  lemma {:induction false} FrameIs(m: Msg, host: Order)
    requires |MsgBytes(m, host)| < TWO_32
    ensures var n := |MsgBytes(m, host)|;
      Frame(m, host)
        == [0x12, 0x21, 1, 0, n / 0x100_0000, n / 0x1_0000 % 256, n / 256 % 256, n % 256] + MsgBytes(m, host)
  {
    FourBytes(|MsgBytes(m, host)|, host);
  }

  /** The number in four bytes, most significant first. */
  function Number(a: nat, b: nat, c: nat, d: nat): nat {
    a * 0x100_0000 + b * 0x1_0000 + c * 256 + d
  }

  /** What `parseFrom` makes of any bytes at all: fewer than a header, a wrong magic or version, a
      length of zero or from the limit on, a body cut short, a compressed one, or a message. */
  lemma {:induction false} AnyFrame(s: bytes, max: nat, host: Order)
    ensures var (outcome, rest) := ParseFrame(s, max, host);
      && (|s| < 8 ==> outcome == Nothing && rest == [])
      && (|s| >= 8 ==>
        var n := Number(s[4], s[5], s[6], s[7]);
        if s[0] != 0x12 || s[1] != 0x21 || s[2] != 1 || n == 0 || n >= max then outcome == Nothing && rest == s[8..]
        else if |s| - 8 < n then outcome == Nothing && rest == []
        else rest == s[8 + n..] && (outcome == Compressed <==> s[3] % 2 == 1))
  {
    if |s| >= 8 {
      FourRead(s[4], s[5], s[6], s[7], host);
      assert s[4..8] == [s[4], s[5], s[6], s[7]];
      var n := Number(s[4], s[5], s[6], s[7]);
      if n <= |s| - 8 {
        assert s[8..][n..] == s[8 + n..];
      }
    }
  }

  lemma {:induction false} FourRead(a: byte, b: byte, c: byte, d: byte, host: Order)
    ensures FixedValue([a, b, c, d], Big, host) == Number(a, b, c, d)
  {
    var n := Number(a, b, c, d);
    NumberBytes(a, b, c, d);
    FourBytes(n, host);
    assert Pow256(4) == TWO_32;
    FixedRoundTrip(n, 4, Big, host, host);
  }

  lemma {:induction false} NumberBytes(a: byte, b: byte, c: byte, d: byte)
    ensures var n := Number(a, b, c, d);
      n < TWO_32 && n / 0x100_0000 == a && n / 0x1_0000 % 256 == b && n / 256 % 256 == c && n % 256 == d
  {
    var n := Number(a, b, c, d);
    DivModUnique(n, 256, a * 0x1_0000 + b * 256 + c, d);
    DivModUnique(n, 0x1_0000, a * 256 + b, c * 256 + d);
    DivModUnique(n, 0x100_0000, a, b * 0x1_0000 + c * 256 + d);
    DivModUnique(a * 256 + b, 256, a, b);
    DivModUnique(a * 0x1_0000 + b * 256 + c, 256, a * 256 + b, c);
  }

  /** A body of no known type is no message, and neither is one that ends before its first number. */
  lemma {:induction false} NoMessage(data: bytes, flag: byte, host: Order)
    requires flag % 2 == 0 && data != [] && (data[0] == 0 || data[0] > 3 || |data| == 1)
    ensures Decoded(data, flag, host) == Nothing
  {
    var b := Received(data);
    OneByte(data[0], host);
    assert b.data[0..1] == [data[0]];
    assert Pow256(1) == 256;
    assert Ahead(b, FixedBytes(data[0], 1, Big, host));
    PlainReadsBack(b, 1, data[0], Big, host);
  }
}
