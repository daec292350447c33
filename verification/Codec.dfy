/** The integer and string encodings of the byte array (src/ByteArray.cpp), and the round
    trip of typed values through them. */
module Codec {
  import opened Bytes
  import opened FlatBuffer

  const TWO_8 := 0x100
  const TWO_16 := 0x1_0000
  const TWO_31 := 0x8000_0000
  const TWO_32 := 0x1_0000_0000
  const TWO_63 := 0x8000_0000_0000_0000
  const TWO_64 := 0x1_0000_0000_0000_0000

  // --------------------------------------------------------------- fixed width

  datatype Order = Little | Big

  function Pow256(n: nat): (r: nat)
    ensures r > 0
  {
    if n == 0 then 1 else 256 * Pow256(n - 1)
  }

  /** The `n` low bytes of `v`, least significant first. */
  function ToLittle(v: nat, n: nat): (r: bytes)
    ensures |r| == n
  {
    if n == 0 then [] else [v % 256] + ToLittle(v / 256, n - 1)
  }

  function FromLittle(bs: bytes): (r: nat)
    ensures r < Pow256(|bs|)
  {
    if bs == [] then 0 else bs[0] + 256 * FromLittle(bs[1..])
  }

  function Reverse(bs: bytes): (r: bytes)
    ensures |r| == |bs|
  {
    if bs == [] then [] else Reverse(bs[1..]) + [bs[0]]
  }

  lemma {:induction false} ReverseAppend(bs: bytes, x: byte)
    ensures Reverse(bs + [x]) == [x] + Reverse(bs)
  {
    if bs == [] {
      assert bs + [x] == [x];
    } else {
      assert (bs + [x])[1..] == bs[1..] + [x];
      ReverseAppend(bs[1..], x);
    }
  }

  lemma {:induction false} ReverseTwice(bs: bytes)
    ensures Reverse(Reverse(bs)) == bs
  {
    if bs != [] {
      ReverseAppend(Reverse(bs[1..]), bs[0]);
      ReverseTwice(bs[1..]);
    }
  }

  lemma {:induction false} LittleThere(v: nat, n: nat)
    requires v < Pow256(n)
    ensures FromLittle(ToLittle(v, n)) == v
  {
    if n > 0 {
      LittleThere(v / 256, n - 1);
      assert ToLittle(v, n)[1..] == ToLittle(v / 256, n - 1);
    }
  }

  lemma {:induction false} LittleBack(bs: bytes)
    ensures ToLittle(FromLittle(bs), |bs|) == bs
  {
    if bs != [] {
      LittleBack(bs[1..]);
      assert FromLittle(bs) % 256 == bs[0] && FromLittle(bs) / 256 == FromLittle(bs[1..]);
    }
  }

  /** What an `n`-byte unsigned integer looks like in the memory of a host. */
  function InMemory(v: nat, n: nat, host: Order): (r: bytes)
    ensures |r| == n
  {
    if host.Little? then ToLittle(v, n) else Reverse(ToLittle(v, n))
  }

  function FromMemory(bs: bytes, host: Order): (r: nat)
    ensures r < Pow256(|bs|)
  {
    if host.Little? then FromLittle(bs) else FromLittle(Reverse(bs))
  }

  function ByteSwap(v: nat, n: nat): (r: nat)
    ensures r < Pow256(n)
  {
    FromLittle(Reverse(ToLittle(v, n)))
  }

  /** `writeFuintN`: swap when the chosen order is not the host's, then copy the memory. */
  function FixedBytes(v: nat, n: nat, order: Order, host: Order): (r: bytes)
    ensures |r| == n
  {
    InMemory(if order != host then ByteSwap(v, n) else v, n, host)
  }

  /** `readFuintN` */
  function FixedValue(bs: bytes, order: Order, host: Order): (r: nat)
    ensures r < Pow256(|bs|)
  {
    var v := FromMemory(bs, host);
    if order == host then v else ByteSwap(v, |bs|)
  }

  /** The bytes written are those of the chosen order on every host. */
  lemma FixedBytesHostFree(v: nat, n: nat, order: Order, host: Order)
    ensures FixedBytes(v, n, order, host) == if order.Little? then ToLittle(v, n) else Reverse(ToLittle(v, n))
  {
    LittleBack(Reverse(ToLittle(v, n)));
    ReverseTwice(ToLittle(v, n));
  }

  lemma FixedRoundTrip(v: nat, n: nat, order: Order, writer: Order, reader: Order)
    requires v < Pow256(n)
    ensures FixedValue(FixedBytes(v, n, order, writer), order, reader) == v
  {
    FixedBytesHostFree(v, n, order, writer);
    LittleThere(v, n);
    ReverseTwice(ToLittle(v, n));
    LittleBack(Reverse(ToLittle(v, n)));
  }

  /** Reading a fixed-width integer. */
  function GetFixed(b: Buf, n: nat, order: Order, host: Order): (r: Out<nat>)
    requires Legal(b)
    ensures r.Ok? ==> Legal(r.rest) && r.rest.data == b.data && r.value < Pow256(n)
  {
    var (bs, b') :- Take(b, n);
    Ok(FixedValue(bs, order, host), b')
  }

  // -------------------------------------------------------------------- varint

  function Pow2(n: nat): (r: nat)
    ensures r > 0
  {
    if n == 0 then 1 else 2 * Pow2(n - 1)
  }

  /** `writeUint32`, `writeUint64`: seven bits a byte, low bits first, high bit = more. */
  function Varint(v: nat): (r: bytes)
    ensures |r| >= 1
    decreases v
  {
    if v < 128 then [v] else [v % 128 + 128] + Varint(v / 128)
  }

  /** The loop of `readUint32` (bits = 32) and `readUint64` (bits = 64) from bit `i` on:
      each byte is shifted into place and truncated to the width. */
  function GetVarintFrom(b: Buf, bits: nat, i: nat, res: nat): (r: Out<nat>)
    requires Legal(b)
    ensures r.Ok? ==> Legal(r.rest) && r.rest.data == b.data
    decreases |b.data| - b.pos
  {
    if i >= bits then Ok(res, b)
    else
      var (bs, b') :- Take(b, 1);
      var x := bs[0];
      if x < 128 then Ok(res + x * Pow2(i) % Pow2(bits), b')
      else GetVarintFrom(b', bits, i + 7, res + (x - 128) * Pow2(i) % Pow2(bits))
  }

  function GetVarint(b: Buf, bits: nat): (r: Out<nat>)
    requires Legal(b)
    ensures r.Ok? ==> Legal(r.rest) && r.rest.data == b.data
  {
    GetVarintFrom(b, bits, 0, 0)
  }

  lemma {:induction false} Pow2Grows(m: nat, n: nat)
    requires m <= n
    ensures Pow2(m) <= Pow2(n)
  {
    if m < n {
      Pow2Grows(m, n - 1);
    }
  }

  lemma Pow2Seven(i: nat)
    ensures Pow2(i + 7) == 128 * Pow2(i)
  {
    assert Pow2(i + 7) == 2 * Pow2(i + 6) == 4 * Pow2(i + 5) == 8 * Pow2(i + 4);
    assert Pow2(i + 4) == 2 * Pow2(i + 3) == 4 * Pow2(i + 2) == 8 * Pow2(i + 1);
  }

  /** `bs` stands at the position of `b`. */
  predicate Ahead(b: Buf, bs: bytes) {
    b.pos + |bs| <= |b.data| && b.data[b.pos..b.pos + |bs|] == bs
  }

  lemma VarintFits(v: nat, bits: nat, i: nat)
    requires v * Pow2(i) < Pow2(bits) && (v > 0 || i < bits)
    ensures i < bits
  {
    if i >= bits {
      Pow2Grows(bits, i);
      MulMonotone(Pow2(i), 1, v);
    }
  }

  lemma AheadTail(b: Buf, bs: bytes)
    requires Legal(b) && Ahead(b, bs) && |bs| >= 1
    ensures Take(b, 1) == Ok([bs[0]], b.(pos := b.pos + 1))
    ensures Ahead(b.(pos := b.pos + 1), bs[1..])
  {
    assert b.data[b.pos] == bs[0];
    assert b.data[b.pos..b.pos + 1] == [bs[0]];
    assert b.data[b.pos + 1..b.pos + |bs|] == b.data[b.pos..b.pos + |bs|][1..];
  }

  /** The arithmetic of one byte: `p` is the weight of the byte, `m` the width. */
  lemma ByteArithmetic(v: nat, p: nat, m: nat)
    requires v * p < m
    ensures (v % 128) * p % m == (v % 128) * p
    ensures (v / 128) * (128 * p) + (v % 128) * p == v * p
  {
    var low, high := v % 128, v / 128;
    assert v == low + 128 * high;
    assert (low + 128 * high) * p == low * p + high * (128 * p);
    assert 0 <= low * p <= v * p;
    SmallMod(low * p, m);
  }

  lemma SmallMod(a: nat, m: nat)
    requires a < m
    ensures a % m == a
  {
  }

  /** One turn of the reading loop. */
  lemma GetVarintStep(b: Buf, bits: nat, i: nat, res: nat, x: byte)
    requires Legal(b) && i < bits && Take(b, 1) == Ok([x], b.(pos := b.pos + 1))
    ensures GetVarintFrom(b, bits, i, res) ==
            if x < 128 then Ok(res + x * Pow2(i) % Pow2(bits), b.(pos := b.pos + 1))
            else GetVarintFrom(b.(pos := b.pos + 1), bits, i + 7, res + (x - 128) * Pow2(i) % Pow2(bits))
  {
  }

  lemma {:induction false} VarintDecodes(b: Buf, v: nat, bits: nat, i: nat, res: nat)
    requires Legal(b) && Ahead(b, Varint(v))
    requires v * Pow2(i) < Pow2(bits) && (v > 0 || i < bits)
    ensures GetVarintFrom(b, bits, i, res) == Ok(res + v * Pow2(i), b.(pos := b.pos + |Varint(v)|))
    decreases v
  {
    VarintFits(v, bits, i);
    AheadTail(b, Varint(v));
    GetVarintStep(b, bits, i, res, Varint(v)[0]);
    var p, m := Pow2(i), Pow2(bits);
    ByteArithmetic(v, p, m);
    if v >= 128 {
      var b' := b.(pos := b.pos + 1);
      assert Varint(v)[1..] == Varint(v / 128);
      Pow2Seven(i);
      VarintDecodes(b', v / 128, bits, i + 7, res + (v % 128) * p);
    }
  }

  lemma {:induction false} VarintLength(v: nat, k: nat)
    requires v < Pow2(7 * k) && k > 0
    ensures |Varint(v)| <= k
  {
    if v >= 128 {
      assert k > 1;
      Pow2Seven(7 * (k - 1));
      VarintLength(v / 128, k - 1);
    }
  }

  /** The encodings fit the scratch arrays of the writers. */
  lemma VarintFitsScratch(v: nat)
    ensures v < TWO_32 ==> |Varint(v)| <= 5
    ensures v < TWO_64 ==> |Varint(v)| <= 10
  {
    PowersOfTwo();
    if v < TWO_32 {
      VarintLength(v, 5);
    }
    if v < TWO_64 {
      VarintLength(v, 10);
    }
  }

  lemma PowersOfTwo()
    ensures Pow2(32) == TWO_32 && Pow2(64) == TWO_64 && Pow2(35) > TWO_32 && Pow2(70) > TWO_64
  {
    assert Pow2(8) == 0x100;
    assert Pow2(16) == 0x1_0000;
    assert Pow2(24) == 0x100_0000;
    assert Pow2(32) == TWO_32;
    assert Pow2(40) == TWO_32 * 0x100;
    assert Pow2(48) == TWO_32 * 0x1_0000;
    assert Pow2(56) == TWO_32 * 0x100_0000;
    assert Pow2(64) == TWO_64;
  }

  // -------------------------------------------------------------------- zigzag

  /** Two's complement reinterpretations at the width whose modulus is `m`. */
  function Unsigned(v: int, m: nat): nat
    requires 0 <= v + m
  {
    if v < 0 then v + m else v
  }

  function Signed(v: nat, m: nat): int {
    if v < m / 2 then v else v - m
  }

  /** Negation and doubling wrap at the width of the operands. */
  function EncodeZigzag32(v: int): nat {
    if v < 0 then (Unsigned(-v, TWO_32) * 2 - 1) % TWO_32 else v * 2 % TWO_32
  }

  /** Computed on 64 bits and returned as a 32-bit value. */
  function EncodeZigzag64(v: int): nat {
    (if v < 0 then (Unsigned(-v, TWO_64) * 2 - 1) % TWO_64 else v * 2 % TWO_64) % TWO_32
  }

  /** Exclusive-or with all ones, which is what minus one is, is the complement. */
  function DecodeZigzag(v: nat, m: nat): int
    requires v < m
  {
    Signed(if v % 2 == 0 then v / 2 else m - 1 - v / 2, m)
  }

  predicate Int32(v: int) {
    -TWO_31 <= v < TWO_31
  }

  predicate Int64(v: int) {
    -TWO_63 <= v < TWO_63
  }

  lemma Zigzag32RoundTrip(v: int)
    requires Int32(v)
    ensures EncodeZigzag32(v) < TWO_32 && DecodeZigzag(EncodeZigzag32(v), TWO_32) == v
  {
  }

  lemma Zigzag64Small(v: int)
    requires Int32(v)
    ensures EncodeZigzag64(v) == if v < 0 then -2 * v - 1 else 2 * v
  {
  }

  /** The 64-bit pair is the identity exactly on the 32-bit integers. */
  lemma Zigzag64RoundTripIff(v: int)
    requires Int64(v)
    ensures EncodeZigzag64(v) < TWO_32
    ensures DecodeZigzag(EncodeZigzag64(v), TWO_64) == v <==> Int32(v)
  {
    var e := EncodeZigzag64(v);
    assert Int32(DecodeZigzag(e, TWO_64));
    if Int32(v) {
      Zigzag64Small(v);
    }
  }

  // -------------------------------------------------------------- the bytes on the wire

  lemma {:induction false} LittleAt(v: nat, n: nat, i: nat)
    requires i < n
    ensures ToLittle(v, n)[i] == v / Pow256(i) % 256
    decreases n
  {
    if i > 0 {
      LittleAt(v / 256, n - 1, i - 1);
      DivTwice(v, 256, Pow256(i - 1));
    }
  }

  lemma {:induction false} DivTwice(v: nat, a: nat, b: nat)
    requires a > 0 && b > 0
    ensures a * b > 0 && v / a / b == v / (a * b)
  {
    DivParts(v, a);
    DivParts(v / a, b);
    DivJoins(v, a, b, v / a, v % a, v / a / b, v / a % b);
  }

  lemma {:induction false} DivParts(v: nat, a: nat)
    requires a > 0
    ensures v == a * (v / a) + v % a
  {
  }

  lemma {:induction false} DivJoins(v: nat, a: nat, b: nat, w: nat, low: nat, q: nat, r: nat)
    requires v == a * w + low && low < a && w == b * q + r && r < b
    ensures a * b > 0 && v / (a * b) == q
  {
    MulMonotone(a, 1, b);
    MulMonotone(a, r + 1, b);
    MulAdd(a, b * q, r);
    MulAdd(a, r, 1);
    MulAssociates(a, b, q);
    DivModUnique(v, a * b, q, a * r + low);
  }

  lemma {:induction false} MulAssociates(a: nat, b: nat, c: nat)
    ensures a * (b * c) == (a * b) * c
  {
  }

  lemma {:induction false} ReverseAt(bs: bytes, i: nat)
    requires i < |bs|
    ensures Reverse(bs)[i] == bs[|bs| - 1 - i]
    decreases |bs|
  {
    if i < |bs| - 1 {
      ReverseAt(bs[1..], i);
    }
  }

  /** The byte of weight `256^i` stands at `i` in little-endian order, and as far from the end in
      big-endian order, on every host. */
  lemma {:induction false} FixedByteAt(v: nat, n: nat, order: Order, host: Order)
    ensures forall i: nat :: i < n ==>
              FixedBytes(v, n, order, host)[if order.Little? then i else n - 1 - i] == v / Pow256(i) % 256
  {
    FixedBytesHostFree(v, n, order, host);
    forall i: nat | i < n
      ensures FixedBytes(v, n, order, host)[if order.Little? then i else n - 1 - i] == v / Pow256(i) % 256
    {
      LittleAt(v, n, i);
      ReverseAt(ToLittle(v, n), n - 1 - i);
    }
  }

  /** Seven bits a byte, lowest first, the high bit set on all but the last; and no more bytes than
      the number needs. */
  lemma {:induction false} VarintAt(v: nat, i: nat)
    requires i < |Varint(v)|
    ensures Varint(v)[i] == v / Pow2(7 * i) % 128 + if i + 1 < |Varint(v)| then 128 else 0
    decreases i
  {
    if i == 0 {
      assert Pow2(7 * i) == 1;
    } else {
      VarintAt(v / 128, i - 1);
      Pow2Seven(7 * (i - 1));
      DivTwice(v, 128, Pow2(7 * (i - 1)));
    }
  }

  lemma {:induction false} VarintLengthIff(v: nat, k: nat)
    requires k > 0
    ensures |Varint(v)| <= k <==> v < Pow2(7 * k)
    decreases k
  {
    Pow2Seven(7 * (k - 1));
    if k == 1 {
      assert Pow2(7 * k) == 128 * Pow2(0) == 128;
    } else if v < 128 {
      MulMonotone(128, 1, Pow2(7 * (k - 1)));
    } else {
      VarintLengthIff(v / 128, k - 1);
    }
  }

  /** Numbers of small magnitude become small: minus one goes to 1, one to 2, and so on. */
  lemma {:induction false} ZigzagIs(v: int)
    ensures Int32(v) ==> EncodeZigzag32(v) == if v < 0 then -2 * v - 1 else 2 * v
    ensures Int64(v) ==> EncodeZigzag64(v) == (if v < 0 then -2 * v - 1 else 2 * v) % 0x1_0000_0000
  {
  }
}
