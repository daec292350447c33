/** Lists of typed values written into a byte array and read back. */
module TypedValues {
  import opened Bytes
  import opened FlatBuffer
  import opened Codec

  /** How a number is laid down: raw bytes of a width, or a varint read at a width. */
  datatype Form = Plain(width: nat) | Vint(bits: nat)

  datatype Type =
    | Fuint(width: nat) | Fint(width: nat)
    | Uint32T | Uint64T | Int32T | Int64T
    | StringF(width: nat) | StringVint

  datatype Value = Num(t: Type, n: int) | Str(t: Type, s: bytes)

  predicate Width(w: nat) {
    w == 1 || w == 2 || w == 4 || w == 8
  }

  predicate IsText(t: Type) {
    t.StringF? || t.StringVint?
  }

  /** The form of a number, or of a string's length. */
  function FormOf(t: Type): Form {
    match t
    case Fuint(w) => Plain(w)
    case Fint(w) => Plain(w)
    case StringF(w) => Plain(w)
    case Uint32T => Vint(32)
    case Int32T => Vint(32)
    case _ => Vint(64)
  }

  predicate FormOk(f: Form) {
    if f.Plain? then Width(f.width) else f.bits == 32 || f.bits == 64
  }

  function Modulus(f: Form): (m: nat)
    ensures m > 0
  {
    if f.Plain? then Pow256(f.width) else Pow2(f.bits)
  }

  /** What the writer of a type hands to its form. */
  function Raw(t: Type, n: int): int {
    match t
    case Fint(w) => if n < 0 then n + Pow256(w) else n
    case Int32T => EncodeZigzag32(n)
    case Int64T => EncodeZigzag64(n)
    case _ => n
  }

  /** What the reader of a type makes of what its form holds. */
  function Cooked(t: Type, m: nat): int {
    match t
    case Fint(w) => Signed(m, Pow256(w))
    case Int32T => DecodeZigzag(m % TWO_32, TWO_32)
    case Int64T => DecodeZigzag(m % TWO_64, TWO_64)
    case _ => m
  }

  /** The number is one of its C++ type. */
  predicate InRange(t: Type, n: int) {
    match t
    case Fint(w) => 0 <= Pow256(w) + 2 * n && 2 * n < Pow256(w)
    case Int32T => Int32(n)
    case Int64T => Int64(n)
    case _ => 0 <= n < Modulus(FormOf(t))
  }

  predicate WellTyped(v: Value) {
    && FormOk(FormOf(v.t))
    && (v.Str? <==> IsText(v.t))
    && (v.Num? ==> InRange(v.t, v.n))
    && (v.Str? ==> |v.s| < TWO_64)
  }

  /** The value survives its own encoding: a zigzag int64 must fit 32 bits, and a string's
      length must fit its length field. */
  predicate Codable(v: Value) {
    match v
    case Num(t, n) => t == Int64T ==> Int32(n)
    case Str(t, s) => |s| < Modulus(FormOf(t))
  }

  lemma RawFits(t: Type, n: int)
    requires FormOk(FormOf(t)) && InRange(t, n)
    ensures 0 <= Raw(t, n) < Modulus(FormOf(t))
  {
    PowersOfTwo();
    match t
    case Int32T => Zigzag32RoundTrip(n);
    case Int64T => Zigzag64RoundTripIff(n);
    case _ =>
  }

  lemma SignedInverts(n: int, m: nat)
    requires m % 2 == 0 && 0 <= m + 2 * n && 2 * n < m
    ensures 0 <= (if n < 0 then n + m else n) && Signed(if n < 0 then n + m else n, m) == n
  {
  }

  lemma Pow256Even(w: nat)
    requires w > 0
    ensures Pow256(w) % 2 == 0
  {
    assert Pow256(w) == 2 * (128 * Pow256(w - 1));
  }

  lemma CookedRaw(t: Type, n: int)
    requires FormOk(FormOf(t)) && InRange(t, n) && 0 <= Raw(t, n)
    ensures Cooked(t, Raw(t, n)) == n <==> (t == Int64T ==> Int32(n))
  {
    if t == Int32T {
      Zigzag32RoundTrip(n);
      SmallMod(EncodeZigzag32(n), TWO_32);
    } else if t == Int64T {
      Zigzag64RoundTripIff(n);
      SmallMod(EncodeZigzag64(n), TWO_64);
    } else if t.Fint? {
      Pow256Even(t.width);
      SignedInverts(n, Pow256(t.width));
    }
  }

  /** The number a value's form holds: the number itself, or a string's length, truncated. */
  function HeadNumber(v: Value): (m: nat)
    requires WellTyped(v)
    ensures m < Modulus(FormOf(v.t))
  {
    if v.Num? then RawFits(v.t, v.n); Raw(v.t, v.n)
    else |v.s| % Modulus(FormOf(v.t))
  }

  function FormBytes(f: Form, m: nat, order: Order, host: Order): (r: bytes)
    requires FormOk(f)
    ensures |r| >= 1
  {
    if f.Plain? then FixedBytes(m, f.width, order, host) else Varint(m)
  }

  function Head(v: Value, order: Order, host: Order): (r: bytes)
    requires WellTyped(v)
    ensures |r| >= 1
  {
    FormBytes(FormOf(v.t), HeadNumber(v), order, host)
  }

  function Encoded(v: Value, order: Order, host: Order): bytes
    requires WellTyped(v)
  {
    Head(v, order, host) + if v.Str? then v.s else []
  }

  function PutValue(b: Buf, v: Value, order: Order, host: Order): (r: Buf)
    requires Legal(b) && WellTyped(v)
    ensures Legal(r) && r.base == b.base
  {
    if v.Str? then Put(Put(b, Head(v, order, host)), v.s) else Put(b, Head(v, order, host))
  }

  function GetForm(b: Buf, f: Form, order: Order, host: Order): (r: Out<nat>)
    requires Legal(b)
    ensures r.Ok? ==> Legal(r.rest) && r.rest.data == b.data
  {
    if f.Plain? then GetFixed(b, f.width, order, host) else GetVarint(b, f.bits)
  }

  /** The value whose number, or whose length, has been read. */
  function GetRest(t: Type, head: Out<nat>): (r: Out<Value>)
    requires head.Ok? ==> Legal(head.rest)
    ensures r.Ok? ==> head.Ok? && Legal(r.rest) && r.rest.data == head.rest.data
  {
    var (m, b) :- head;
    if IsText(t) then
      var (s, b') :- Take(b, m);
      Ok(Str(t, s), b')
    else
      Ok(Num(t, Cooked(t, m)), b)
  }

  function GetValue(b: Buf, t: Type, order: Order, host: Order): (r: Out<Value>)
    requires Legal(b)
    ensures r.Ok? ==> Legal(r.rest) && r.rest.data == b.data
  {
    GetRest(t, GetForm(b, FormOf(t), order, host))
  }

  lemma PutFixedString(b: Buf, w: nat, s: bytes, order: Order, host: Order)
    requires Legal(b) && (w == 2 || w == 4 || w == 8) && |s| < TWO_64
    ensures PutValue(b, Str(StringF(w), s), order, host) == Put(Put(b, FixedBytes(|s| % Pow256(w), w, order, host)), s)
  {
  }

  lemma VintLength(n: nat, bits: nat)
    requires n < TWO_64 && bits == 64
    ensures n % Pow2(bits) == n
  {
    PowersOfTwo();
    SmallMod(n, Pow2(bits));
  }

  lemma VintHead(v: Value, order: Order, host: Order)
    requires WellTyped(v) && v.t == StringVint
    ensures Head(v, order, host) == Varint(|v.s|)
  {
    VintLength(|v.s|, FormOf(v.t).bits);
  }

  lemma PutVintString(b: Buf, v: Value, order: Order, host: Order)
    requires Legal(b) && WellTyped(v) && v.t == StringVint
    ensures PutValue(b, v, order, host) == Put(Put(b, Varint(|v.s|)), v.s)
  {
    VintHead(v, order, host);
  }

  // ------------------------------------------------------------------ one value

  lemma {:induction false} PlainReadsBack(b: Buf, w: nat, m: nat, order: Order, host: Order)
    requires Legal(b) && w > 0 && m < Pow256(w) && Ahead(b, FixedBytes(m, w, order, host))
    ensures Take(b, w) == Ok(FixedBytes(m, w, order, host), b.(pos := b.pos + w))
    ensures FixedValue(FixedBytes(m, w, order, host), order, host) == m
  {
    FixedRoundTrip(m, w, order, host, host);
  }

  lemma FormReadsBack(b: Buf, f: Form, m: nat, order: Order, host: Order)
    requires Legal(b) && FormOk(f) && m < Modulus(f) && Ahead(b, FormBytes(f, m, order, host))
    ensures GetForm(b, f, order, host) == Ok(m, b.(pos := b.pos + |FormBytes(f, m, order, host)|))
  {
    if f.Plain? {
      PlainReadsBack(b, f.width, m, order, host);
    } else {
      VintReadsBack(b, f.bits, m);
    }
  }

  lemma VintReadsBack(b: Buf, bits: nat, m: nat)
    requires Legal(b) && bits > 0 && m < Pow2(bits) && Ahead(b, Varint(m))
    ensures GetVarint(b, bits) == Ok(m, b.(pos := b.pos + |Varint(m)|))
  {
    VarintDecodes(b, m, bits, 0, 0);
  }

  lemma AheadParts(b: Buf, x: bytes, y: bytes)
    requires Legal(b) && Ahead(b, x + y)
    ensures Ahead(b, x) && Ahead(b.(pos := b.pos + |x|), y)
  {
    var z := b.data[b.pos..b.pos + |x + y|];
    assert b.data[b.pos..b.pos + |x|] == z[..|x|];
    assert b.data[b.pos + |x|..b.pos + |x| + |y|] == z[|x|..];
  }

  /** A string whose length field holds `m`. */
  lemma TextReadsBack(b: Buf, t: Type, s: bytes, m: nat)
    requires Legal(b) && IsText(t) && Ahead(b, s) && m <= |s|
    ensures var r := GetRest(t, Ok(m, b));
            if m < |s| then r.Ok? ==> r.value != Str(t, s)
            else if s == [] && b.pos == b.cap then r == NullCursor
            else r == Ok(Str(t, s), b.(pos := b.pos + |s|))
  {
  }

  lemma ModuloIsIdentityIff(a: nat, m: nat)
    requires m > 0
    ensures a % m <= a
    ensures a % m == a <==> a < m
  {
    assert a == m * (a / m) + a % m;
  }

  predicate IsEmptyString(v: Value) {
    v.Str? && v.s == []
  }

  /** Reading at `b` a value whose encoding ends at `end`. */
  predicate ReadsAs(b: Buf, v: Value, end: nat, r: Out<Value>) {
    if !Codable(v) then r.Ok? ==> r.value != v
    else if IsEmptyString(v) && end == b.cap then r == NullCursor
    else r == Ok(v, b.(pos := end))
  }

  lemma StringReadsBack(b: Buf, v: Value, order: Order, host: Order)
    requires Legal(b) && WellTyped(v) && v.Str? && Ahead(b, Encoded(v, order, host))
    ensures ReadsAs(b, v, b.pos + |Encoded(v, order, host)|, GetValue(b, v.t, order, host))
  {
    var h := Head(v, order, host);
    AheadParts(b, h, v.s);
    FormReadsBack(b, FormOf(v.t), HeadNumber(v), order, host);
    ModuloIsIdentityIff(|v.s|, Modulus(FormOf(v.t)));
    TextReadsBack(b.(pos := b.pos + |h|), v.t, v.s, HeadNumber(v));
  }

  lemma NumberReadsBack(b: Buf, v: Value, order: Order, host: Order)
    requires Legal(b) && WellTyped(v) && v.Num? && Ahead(b, Encoded(v, order, host))
    ensures ReadsAs(b, v, b.pos + |Encoded(v, order, host)|, GetValue(b, v.t, order, host))
  {
    assert Encoded(v, order, host) == Head(v, order, host);
    FormReadsBack(b, FormOf(v.t), HeadNumber(v), order, host);
    CookedRaw(v.t, v.n);
  }

  lemma ValueReadsBack(b: Buf, v: Value, order: Order, host: Order)
    requires Legal(b) && WellTyped(v) && Ahead(b, Encoded(v, order, host))
    ensures ReadsAs(b, v, b.pos + |Encoded(v, order, host)|, GetValue(b, v.t, order, host))
  {
    if v.Str? {
      StringReadsBack(b, v, order, host);
    } else {
      NumberReadsBack(b, v, order, host);
    }
  }

  // ------------------------------------------------------------------- all values

  predicate AllTyped(vs: seq<Value>) {
    forall i :: 0 <= i < |vs| ==> WellTyped(vs[i])
  }

  predicate AllCodable(vs: seq<Value>) {
    forall i :: 0 <= i < |vs| ==> Codable(vs[i])
  }

  /** Each value in the byte order that is set when it is written. */
  function PutAll(b: Buf, vs: seq<Value>, orders: seq<Order>, host: Order): (r: Buf)
    requires Legal(b) && AllTyped(vs) && |orders| == |vs|
    ensures Legal(r) && r.base == b.base
    decreases vs
  {
    if vs == [] then b else PutAll(PutValue(b, vs[0], orders[0], host), vs[1..], orders[1..], host)
  }

  function Joined(r: Out<Value>, q: Out<seq<Value>>): Out<seq<Value>> {
    if !r.Ok? then r.PropagateFailure()
    else if !q.Ok? then q
    else Ok([r.value] + q.value, q.rest)
  }

  function GetAll(b: Buf, ts: seq<Type>, orders: seq<Order>, host: Order): (r: Out<seq<Value>>)
    requires Legal(b) && |orders| == |ts|
    decreases ts
  {
    if ts == [] then Ok([], b)
    else
      var r := GetValue(b, ts[0], orders[0], host);
      Joined(r, if r.Ok? then GetAll(r.rest, ts[1..], orders[1..], host) else NullCursor)
  }

  function EncodedAll(vs: seq<Value>, orders: seq<Order>, host: Order): bytes
    requires AllTyped(vs) && |orders| == |vs|
  {
    if vs == [] then [] else Encoded(vs[0], orders[0], host) + EncodedAll(vs[1..], orders[1..], host)
  }

  function Types(vs: seq<Value>): (ts: seq<Type>)
    ensures |ts| == |vs|
  {
    if vs == [] then [] else [vs[0].t] + Types(vs[1..])
  }

  predicate EndsEmpty(vs: seq<Value>) {
    vs != [] && IsEmptyString(vs[|vs| - 1])
  }

  predicate ReadsBack(b: Buf, vs: seq<Value>) {
    AllCodable(vs) && !(EndsEmpty(vs) && |b.data| == b.cap)
  }

  lemma ReadsBackStep(b: Buf, vs: seq<Value>, next: nat)
    requires vs != [] && b.pos <= next
    requires vs[1..] == [] ==> next == |b.data|
    requires vs[1..] != [] ==> next < |b.data| <= b.cap
    ensures ReadsBack(b, vs) <==>
            Codable(vs[0]) && !(IsEmptyString(vs[0]) && next == b.cap) && ReadsBack(b.(pos := next), vs[1..])
  {
    assert vs == [vs[0]] + vs[1..];
    assert AllCodable(vs) <==> Codable(vs[0]) && AllCodable(vs[1..]) by {
      if Codable(vs[0]) && AllCodable(vs[1..]) {
        forall i | 0 <= i < |vs| ensures Codable(vs[i]) {
          assert i > 0 ==> vs[i] == vs[1..][i - 1];
        }
      }
    }
  }

  /** How the outcome for a list follows from those for its head and its tail. */
  lemma CombineReads(b: Buf, vs: seq<Value>, next: nat, r: Out<Value>, q: Out<seq<Value>>, all: Out<seq<Value>>)
    requires vs != [] && b.pos <= next
    requires vs[1..] == [] ==> next == |b.data|
    requires vs[1..] != [] ==> next < |b.data| <= b.cap
    requires ReadsAs(b, vs[0], next, r)
    requires r == Ok(vs[0], b.(pos := next)) ==> ReadsAllAs(b.(pos := next), vs[1..], q)
    requires all == Joined(r, q)
    ensures ReadsAllAs(b, vs, all)
  {
    ReadsBackStep(b, vs, next);
    assert vs == [vs[0]] + vs[1..];
    if all.Ok? && all.value == vs {
      assert r.value == all.value[0] && q.value == all.value[1..];
    }
  }

  predicate ReadsAllAs(b: Buf, vs: seq<Value>, all: Out<seq<Value>>) {
    if ReadsBack(b, vs) then all == Ok(vs, b.(pos := |b.data|)) else all.Ok? ==> all.value != vs
  }

  /** Reading the types of values that stand ahead, up to the end of the data. */
  lemma {:induction false} AllReadBack(b: Buf, vs: seq<Value>, orders: seq<Order>, host: Order)
    requires Legal(b) && AllTyped(vs) && |orders| == |vs| && Ahead(b, EncodedAll(vs, orders, host))
    requires b.pos + |EncodedAll(vs, orders, host)| == |b.data|
    ensures ReadsAllAs(b, vs, GetAll(b, Types(vs), orders, host))
    decreases vs
  {
    if vs != [] {
      var v, rest, order, later := vs[0], vs[1..], orders[0], orders[1..];
      var e := Encoded(v, order, host);
      AheadParts(b, e, EncodedAll(rest, later, host));
      ValueReadsBack(b, v, order, host);
      var r := GetValue(b, v.t, order, host);
      var q := if r.Ok? then GetAll(r.rest, Types(rest), later, host) else NullCursor;
      if r == Ok(v, b.(pos := b.pos + |e|)) {
        AllReadBack(r.rest, rest, later, host);
      }
      GetAllStep(b, vs, orders, host);
      EncodedNonEmpty(rest, later, host);
      CombineReads(b, vs, b.pos + |e|, r, q, GetAll(b, Types(vs), orders, host));
    }
  }

  lemma {:induction false} EncodedNonEmpty(vs: seq<Value>, orders: seq<Order>, host: Order)
    requires AllTyped(vs) && |orders| == |vs|
    ensures vs != [] ==> |EncodedAll(vs, orders, host)| >= 1
  {
  }

  lemma {:induction false} GetAllStep(b: Buf, vs: seq<Value>, orders: seq<Order>, host: Order)
    requires Legal(b) && vs != [] && |orders| == |vs|
    ensures var r := GetValue(b, vs[0].t, orders[0], host);
            GetAll(b, Types(vs), orders, host) ==
            Joined(r, if r.Ok? then GetAll(r.rest, Types(vs[1..]), orders[1..], host) else NullCursor)
  {
    assert Types(vs)[1..] == Types(vs[1..]);
  }

  // ---------------------------------------------------------- writing from scratch

  /** The position is at the end, and the capacity is the least positive number of chunks
      that hold the data. */
  predicate Snug(b: Buf, k: nat) {
    && Legal(b) && b.pos == |b.data|
    && k > 0 && b.cap == Span(b.base, k)
    && (k == 1 || Span(b.base, k - 1) < |b.data|)
  }

  lemma PutSnug(b: Buf, bs: bytes, k: nat) returns (k': nat)
    requires Snug(b, k)
    ensures Snug(Put(b, bs), k')
    ensures Put(b, bs).data == b.data + bs
  {
    k' := k;
    if |bs| > b.cap - b.pos {
      var c := CeilDiv(|bs| - (b.cap - b.pos), b.base);
      CeilDivBounds(|bs| - (b.cap - b.pos), b.base);
      k' := k + c;
      SpanAdd(b.base, k, c);
    }
  }

  lemma PutValueSnug(b: Buf, v: Value, order: Order, host: Order, k: nat) returns (k': nat)
    requires Snug(b, k) && WellTyped(v)
    ensures Snug(PutValue(b, v, order, host), k')
    ensures PutValue(b, v, order, host).data == b.data + Encoded(v, order, host)
  {
    var h := Head(v, order, host);
    k' := PutSnug(b, h, k);
    if v.Str? {
      k' := PutSnug(Put(b, h), v.s, k');
      assert (b.data + h) + v.s == b.data + (h + v.s);
    }
  }

  lemma {:induction false} PutAllStep(b: Buf, vs: seq<Value>, orders: seq<Order>, host: Order)
    requires Legal(b) && AllTyped(vs) && vs != [] && |orders| == |vs|
    ensures PutAll(b, vs, orders, host) == PutAll(PutValue(b, vs[0], orders[0], host), vs[1..], orders[1..], host)
    ensures EncodedAll(vs, orders, host) == Encoded(vs[0], orders[0], host) + EncodedAll(vs[1..], orders[1..], host)
  {
  }

  lemma {:induction false} PutAllSnug(b: Buf, vs: seq<Value>, orders: seq<Order>, host: Order, k: nat) returns (k': nat)
    requires Snug(b, k) && AllTyped(vs) && |orders| == |vs|
    ensures Snug(PutAll(b, vs, orders, host), k')
    ensures PutAll(b, vs, orders, host).data == b.data + EncodedAll(vs, orders, host)
    decreases vs
  {
    k' := k;
    if vs != [] {
      var b' := PutValue(b, vs[0], orders[0], host);
      k' := PutValueSnug(b, vs[0], orders[0], host, k);
      k' := PutAllSnug(b', vs[1..], orders[1..], host, k');
      PutAllStep(b, vs, orders, host);
      ConcatAssociates(b.data, Encoded(vs[0], orders[0], host), EncodedAll(vs[1..], orders[1..], host));
    }
  }

  lemma SnugFull(b: Buf, k: nat)
    requires Snug(b, k)
    ensures |b.data| == b.cap <==> |b.data| > 0 && |b.data| % b.base == 0
  {
    if |b.data| == b.cap {
      SlotUnique(|b.data|, b.base, k);
    } else {
      SlotUnique(|b.data|, b.base, k - 1);
    }
  }

  /** Writing any list of typed values, each in a byte order of its own, into a fresh array of any
      chunk size, going back to position 0 and reading the same types in the same orders returns the same
      values with the position at the end, if and only if every value is codable and it is not the case
      that the last value is an empty string and the bytes written fill whole chunks exactly. */
  lemma {:induction false} RoundTripIff(base: nat, vs: seq<Value>, orders: seq<Order>, host: Order)
    requires base > 0 && AllTyped(vs) && |orders| == |vs|
    ensures var n := |EncodedAll(vs, orders, host)|;
            var b := PutAll(Fresh(base), vs, orders, host);
            && |b.data| == n && b.pos == n
            && (AllCodable(vs) && !(EndsEmpty(vs) && n % base == 0) <==>
                GetAll(b.(pos := 0), Types(vs), orders, host) == Ok(vs, b.(pos := n)))
  {
    var b := PutAll(Fresh(base), vs, orders, host);
    var k := PutAllSnug(Fresh(base), vs, orders, host, 1);
    SnugFull(b, k);
    AllReadBack(b.(pos := 0), vs, orders, host);
  }

  /** A concrete array that cannot be read back: one empty short string in chunks of two. */
  lemma {:induction false} EmptyStringAtCapacity()
    ensures var b := PutAll(Fresh(2), [Str(StringF(2), [])], [Big], Little);
            GetAll(b.(pos := 0), [StringF(2)], [Big], Little) == NullCursor
  {
    var v := Str(StringF(2), []);
    var vs := [v];
    var b := PutAll(Fresh(2), vs, [Big], Little);
    PutAllStep(Fresh(2), vs, [Big], Little);
    assert b == PutValue(Fresh(2), v, Big, Little);
    ValueReadsBack(b.(pos := 0), v, Big, Little);
    GetAllStep(b.(pos := 0), vs, [Big], Little);
    assert Types(vs) == [StringF(2)];
  }

  /** How each type looks on the wire: numbers of fixed width as their low bytes in the chosen order,
      the others as varints, signed ones zigzagged first; strings behind their length. */
  lemma {:induction false} OnTheWire(v: Value, order: Order, host: Order)
    requires WellTyped(v)
    ensures var bs := Encoded(v, order, host);
      match v.t
      case Fuint(w) => bs == FixedBytes(v.n, w, order, host)
      case Fint(w) => bs == FixedBytes(v.n % Pow256(w), w, order, host)
      case Uint32T => bs == Varint(v.n)
      case Uint64T => bs == Varint(v.n)
      case Int32T => bs == Varint(if v.n < 0 then -2 * v.n - 1 else 2 * v.n)
      case Int64T => bs == Varint((if v.n < 0 then -2 * v.n - 1 else 2 * v.n) % 0x1_0000_0000)
      case StringF(w) => bs == FixedBytes(|v.s| % Pow256(w), w, order, host) + v.s
      case StringVint => bs == Varint(|v.s|) + v.s
  {
    var h := Head(v, order, host);
    if v.Num? {
      assert h + [] == h;
      ZigzagIs(v.n);
      if v.t.Fint? {
        WrapsNegative(v.n, Pow256(v.t.width));
      }
    } else if v.t.StringVint? {
      VintHead(v, order, host);
    }
  }

  lemma {:induction false} WrapsNegative(n: int, m: nat)
    requires m > 0 && 0 <= m + 2 * n && 2 * n < m
    ensures n % m == if n < 0 then n + m else n
  {
    if n < 0 {
      ModShift(n, m);
    } else {
      SmallMod(n, m);
    }
  }

  lemma {:induction false} ModShift(n: int, m: nat)
    requires m > 0 && n < 0 <= n + m
    ensures n % m == n + m
  {
    assert n == m * -1 + (n + m);
  }
}
