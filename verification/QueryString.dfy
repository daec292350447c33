/** The parameters of a query (src/http/HTTP.cpp). */
module QueryString {
  import opened Wrappers
  import opened Bytes
  import opened UrlCodec

  /** A key and its value. */
  datatype Pair = Pair(key: bytes, value: bytes)

  /** `find`: the first place of `c` from `pos` on, or the length. */
  function Find(s: bytes, c: byte, pos: nat): (i: nat)
    requires pos <= |s|
    ensures pos <= i <= |s|
    ensures i < |s| ==> s[i] == c
    decreases |s| - pos
  {
    if pos == |s| || s[pos] == c then pos else Find(s, c, pos + 1)
  }

  lemma {:induction false} FindSkips(s: bytes, c: byte, pos: nat)
    requires pos <= |s|
    ensures Free(s[pos..Find(s, c, pos)], c)
    decreases |s| - pos
  {
    if pos < |s| && s[pos] != c {
      FindSkips(s, c, pos + 1);
      assert s[pos..Find(s, c, pos)] == [s[pos]] + s[pos + 1..Find(s, c, pos + 1)];
    }
  }

  lemma {:induction false} FindIs(s: bytes, c: byte, pos: nat, i: nat)
    requires pos <= i <= |s| && Free(s[pos..i], c) && (i < |s| ==> s[i] == c)
    ensures Find(s, c, pos) == i
    decreases i - pos
  {
    if pos < i {
      assert s[pos..i][0] == s[pos];
      assert s[pos + 1..i] == s[pos..i][1..];
      FindIs(s, c, pos + 1, i);
    }
  }

  /** The pair with its equals sign at `e` and its end at `f`. */
  function PairAt(s: bytes, pos: nat, e: nat, f: nat): Pair
    requires pos <= e < f <= |s|
  {
    Pair(s[pos..e], Decoded(s[e + 1..f], true))
  }

  /** From `pos` on: a key reaches to the next equals sign, and its value from there to the next
      ampersand; text behind the last pair that has no equals sign is dropped. */
  function ParsedFrom(s: bytes, pos: nat): seq<Pair>
    requires pos <= |s|
    decreases |s| - pos
  {
    var e := Find(s, EQUALS, pos);
    if e == |s| then []
    else
      var f := Find(s, AMPERSAND, e);
      [PairAt(s, pos, e, f)] + if f == |s| then [] else ParsedFrom(s, f + 1)
  }

  function Parsed(s: bytes): seq<Pair> {
    ParsedFrom(s, 0)
  }

  /** What is parsed after a pair that ends at `f`. */
  function ParsedBehind(s: bytes, f: nat): seq<Pair>
    requires f <= |s|
  {
    if f == |s| then [] else ParsedFrom(s, f + 1)
  }

  /** One turn of the parser. */
  lemma ParsedStep(s: bytes, pos: nat, e: nat, f: nat)
    requires pos <= e < |s| && e == Find(s, EQUALS, pos) && f == Find(s, AMPERSAND, e)
    ensures f > e && ParsedFrom(s, pos) == [PairAt(s, pos, e, f)] + ParsedBehind(s, f)
  {
  }

  // ------------------------------------------------------------- the parameter map

  function Lower(c: byte): byte {
    if Between(0x41, c, 0x5A) then c + 0x20 else c
  }

  /** What `strcasecmp` sees of a key: the text before a NUL, in lower case. */
  function Canon(k: bytes): bytes {
    if k == [] || k[0] == 0 then [] else [Lower(k[0])] + Canon(k[1..])
  }

  /** The map, ordered ignoring case, keeps the key as first inserted. */
  type Params = map<bytes, Pair>

  function Inserted(m: Params, p: Pair): Params {
    if Canon(p.key) in m then m else m[Canon(p.key) := p]
  }

  function AllInserted(m: Params, ps: seq<Pair>): Params
    decreases |ps|
  {
    if ps == [] then m else AllInserted(Inserted(m, ps[0]), ps[1..])
  }

  /** `find`, which compares as `strcasecmp` does. */
  function Found(m: Params, k: bytes): Option<Pair> {
    if Canon(k) in m then Some(m[Canon(k)]) else None
  }

  class HttpRequest {
    const query: bytes
    var params: Params
    var queryParsed: bool   // the lowest bit of the parse flags

    constructor (query: bytes)
      ensures this.query == query && params == map[] && !queryParsed
    {
      this.query, params, queryParsed := query, map[], false;
    }

    /** Every spelling that the map takes for `key` now finds the value, under the spelling that
        was inserted first; every other key finds what it found before. */
    method SetParam(key: bytes, value: bytes)
      modifies `params
      ensures forall k :: Canon(k) == Canon(key) ==>
                Found(params, k) == Some(Pair(
                  if Found(old(params), key).Some? then Found(old(params), key).value.key else key, value))
      ensures forall k :: Canon(k) != Canon(key) ==> Found(params, k) == Found(old(params), k)
      ensures params.Keys == old(params).Keys + {Canon(key)}
    {
      var k := if Canon(key) in params then params[Canon(key)].key else key;
      params := params[Canon(key) := Pair(k, value)];
    }

    /** The query is parsed once; parameters that are there already are kept. */
    method InitQueryParam()
      modifies `params, `queryParsed
      ensures queryParsed
      ensures params == if old(queryParsed) then old(params) else AllInserted(old(params), Parsed(query))
    {
      if queryParsed {
        return;
      }
      params := ParseParam(query, params);
      queryParsed := true;
    }
  }

  /** What the parsing loop makes of the map from `pos` on. */
  function ParsedInto(m: Params, s: bytes, pos: nat): Params
    requires pos <= |s|
    decreases |s| - pos
  {
    var e := Find(s, EQUALS, pos);
    if e == |s| then m
    else
      var f := Find(s, AMPERSAND, e);
      var m' := Inserted(m, PairAt(s, pos, e, f));
      if f == |s| then m' else ParsedInto(m', s, f + 1)
  }

  /** What is left to do after a pair that ends at `f`. */
  function ParsedIntoBehind(m: Params, s: bytes, f: nat): Params
    requires f <= |s|
  {
    if f == |s| then m else ParsedInto(m, s, f + 1)
  }

  lemma {:induction false} ParsedIntoStep(m: Params, s: bytes, pos: nat, e: nat, f: nat, m': Params)
    requires pos <= e < f <= |s| && e == Find(s, EQUALS, pos) && f == Find(s, AMPERSAND, e)
    requires m' == Inserted(m, PairAt(s, pos, e, f))
    ensures ParsedInto(m, s, pos) == ParsedIntoBehind(m', s, f)
  {
  }

  lemma {:induction false} AllInsertedStep(m: Params, s: bytes, pos: nat, e: nat, f: nat, m': Params)
    requires pos <= e < f <= |s| && e == Find(s, EQUALS, pos) && f == Find(s, AMPERSAND, e)
    requires m' == Inserted(m, PairAt(s, pos, e, f))
    ensures AllInserted(m, ParsedFrom(s, pos)) == AllInserted(m', ParsedBehind(s, f))
  {
    ParsedStep(s, pos, e, f);
    InsertedFirst(m, PairAt(s, pos, e, f), ParsedBehind(s, f));
  }

  lemma {:induction false} ParsedIntoJoins(m: Params, s: bytes, pos: nat, e: nat, f: nat, m': Params)
    requires pos <= e < f <= |s| && e == Find(s, EQUALS, pos) && f == Find(s, AMPERSAND, e)
    requires m' == Inserted(m, PairAt(s, pos, e, f))
    requires ParsedIntoBehind(m', s, f) == AllInserted(m', ParsedBehind(s, f))
    ensures ParsedInto(m, s, pos) == AllInserted(m, ParsedFrom(s, pos))
  {
    ParsedIntoStep(m, s, pos, e, f, m');
    AllInsertedStep(m, s, pos, e, f, m');
  }

  lemma {:induction false} NothingToParse(m: Params, s: bytes, pos: nat)
    requires pos <= |s| && Find(s, EQUALS, pos) == |s|
    ensures ParsedInto(m, s, pos) == m == AllInserted(m, ParsedFrom(s, pos))
  {
  }

  /** The loop inserts the parsed pairs one after the other. */
  lemma {:induction false} ParsedIntoIs(m: Params, s: bytes, pos: nat)
    requires pos <= |s|
    ensures ParsedInto(m, s, pos) == AllInserted(m, ParsedFrom(s, pos))
    decreases |s| - pos
  {
    var e := Find(s, EQUALS, pos);
    if e == |s| {
      NothingToParse(m, s, pos);
    } else {
      var f := Find(s, AMPERSAND, e);
      var m' := Inserted(m, PairAt(s, pos, e, f));
      if f < |s| {
        ParsedIntoIs(m', s, f + 1);
      }
      ParsedIntoJoins(m, s, pos, e, f, m');
    }
  }

  /** The parsing loop, over any text. */
  method ParseParam(str: bytes, m0: Params) returns (m: Params)
    ensures m == AllInserted(m0, Parsed(str))
  {
    m := m0;
    var pos := 0;
    while true
      invariant pos <= |str|
      invariant ParsedInto(m, str, pos) == ParsedInto(m0, str, 0)
      decreases |str| - pos
    {
      var last := pos;
      pos := Find(str, EQUALS, pos);
      if pos == |str| {
        break;
      }
      var key := pos;
      pos := Find(str, AMPERSAND, pos);
      var value := UrlDecode(str[key + 1..pos], true);
      ghost var before := m;
      m := Inserted(m, Pair(str[last..key], value));
      ParsedIntoStep(before, str, last, key, pos, m);
      if pos == |str| {
        break;
      }
      pos := pos + 1;
    }
    ParsedIntoIs(m0, str, 0);
  }

  lemma {:induction false} InsertedFirst(m: Params, p: Pair, rest: seq<Pair>)
    ensures AllInserted(m, [p] + rest) == AllInserted(Inserted(m, p), rest)
  {
    assert ([p] + rest)[1..] == rest;
  }

  // -------------------------------------------------------------------- round trip

  /** `key=value` with the value encoded. */
  function Item(p: Pair, plus: bool): bytes {
    p.key + [EQUALS] + Encoded(p.value, plus)
  }

  /** The items joined with ampersands. */
  function Joined(ps: seq<Pair>, plus: bool): bytes
    decreases |ps|
  {
    if ps == [] then []
    else if |ps| == 1 then Item(ps[0], plus)
    else Item(ps[0], plus) + [AMPERSAND] + Joined(ps[1..], plus)
  }

  /** `x` stands at `pos`. */
  predicate At(s: bytes, pos: nat, x: bytes)
    decreases |x|
  {
    x == [] || (pos < |s| && s[pos] == x[0] && At(s, pos + 1, x[1..]))
  }

  lemma {:induction false} AtSlice(s: bytes, pos: nat, x: bytes)
    requires At(s, pos, x) && pos <= |s|
    ensures pos + |x| <= |s| && s[pos..pos + |x|] == x
    decreases |x|
  {
    if x != [] {
      AtSlice(s, pos + 1, x[1..]);
      assert s[pos..pos + |x|] == [s[pos]] + s[pos + 1..pos + |x|];
    }
  }

  lemma {:induction false} AtSuffix(s: bytes, pos: nat)
    requires pos <= |s|
    ensures At(s, pos, s[pos..])
    decreases |s| - pos
  {
    if pos < |s| {
      AtSuffix(s, pos + 1);
      assert s[pos..][1..] == s[pos + 1..];
    }
  }

  lemma {:induction false} AtParts(s: bytes, pos: nat, x: bytes, y: bytes)
    requires At(s, pos, x + y)
    ensures At(s, pos, x) && At(s, pos + |x|, y)
    decreases |x|
  {
    if x == [] {
      assert x + y == y;
    } else {
      assert (x + y)[1..] == x[1..] + y;
      AtParts(s, pos + 1, x[1..], y);
    }
  }

  /** A clean key, an equals sign, an encoded value, and then the end or an ampersand. */
  lemma {:induction false} PairParses(s: bytes, pos: nat, p: Pair, plus: bool, e: nat, f: nat)
    requires Free(p.key, EQUALS) && e == pos + |p.key| && f == e + 1 + |Encoded(p.value, plus)| && pos <= |s|
    requires At(s, pos, p.key) && At(s, e, [EQUALS]) && At(s, e + 1, Encoded(p.value, plus))
    requires f == |s| || At(s, f, [AMPERSAND])
    ensures f <= |s| && ParsedFrom(s, pos) == [p] + ParsedBehind(s, f)
  {
    SeparatorsAt(s, pos, p, plus, e, f);
    AtSlice(s, pos, p.key);
    AtSlice(s, e + 1, Encoded(p.value, plus));
    DecodeInverts(p.value, plus);
    ParsedStep(s, pos, e, f);
  }

  lemma {:induction false} SeparatorsAt(s: bytes, pos: nat, p: Pair, plus: bool, e: nat, f: nat)
    requires Free(p.key, EQUALS) && e == pos + |p.key| && f == e + 1 + |Encoded(p.value, plus)| && pos <= |s|
    requires At(s, pos, p.key) && At(s, e, [EQUALS]) && At(s, e + 1, Encoded(p.value, plus))
    requires f == |s| || At(s, f, [AMPERSAND])
    ensures f <= |s| && Find(s, EQUALS, pos) == e && Find(s, AMPERSAND, e) == f
  {
    AtSlice(s, pos, p.key);
    AtSlice(s, e + 1, Encoded(p.value, plus));
    FindIs(s, EQUALS, pos, e);
    EncodedHasNoAmpersand(p.value, plus);
    FindIs(s, AMPERSAND, e + 1, f);
    assert Find(s, AMPERSAND, e) == Find(s, AMPERSAND, e + 1);
  }

  /** No key has an equals sign in it. */
  predicate CleanKeys(ps: seq<Pair>)
    decreases |ps|
  {
    ps == [] || (Free(ps[0].key, EQUALS) && CleanKeys(ps[1..]))
  }

  lemma {:induction false} CleanAt(ps: seq<Pair>, i: nat)
    requires CleanKeys(ps) && i < |ps|
    ensures Free(ps[i].key, EQUALS)
    decreases |ps|
  {
    if i > 0 {
      CleanAt(ps[1..], i - 1);
    }
  }

  lemma {:induction false} CleanIfAll(ps: seq<Pair>)
    requires forall i :: 0 <= i < |ps| ==> Free(ps[i].key, EQUALS)
    ensures CleanKeys(ps)
    decreases |ps|
  {
    if ps != [] {
      CleanIfAll(ps[1..]);
    }
  }

  lemma {:induction false} CleanInFront(p: Pair, rest: seq<Pair>)
    requires Free(p.key, EQUALS) && CleanKeys(rest)
    ensures CleanKeys([p] + rest)
  {
    assert ([p] + rest)[1..] == rest;
  }

  /** The keys that come out of the parser have no equals sign. */
  lemma {:induction false} ParsedKeysAreClean(s: bytes, pos: nat)
    requires pos <= |s|
    ensures CleanKeys(ParsedFrom(s, pos))
    decreases |s| - pos
  {
    var e := Find(s, EQUALS, pos);
    if e < |s| {
      var f := Find(s, AMPERSAND, e);
      if f < |s| {
        ParsedKeysAreClean(s, f + 1);
      }
      ParsedStep(s, pos, e, f);
      FindSkips(s, EQUALS, pos);
      CleanInFront(PairAt(s, pos, e, f), ParsedBehind(s, f));
    }
  }

  lemma {:induction false} ItemParts(s: bytes, pos: nat, p: Pair, plus: bool)
    requires At(s, pos, Item(p, plus))
    ensures var e := pos + |p.key|;
            At(s, pos, p.key) && At(s, e, [EQUALS]) && At(s, e + 1, Encoded(p.value, plus))
  {
    AtParts(s, pos, p.key + [EQUALS], Encoded(p.value, plus));
    AtParts(s, pos, p.key, [EQUALS]);
  }

  lemma {:induction false} JoinedParts(s: bytes, pos: nat, ps: seq<Pair>, plus: bool)
    requires |ps| > 1 && At(s, pos, Joined(ps, plus))
    ensures var f := pos + |Item(ps[0], plus)|;
            && At(s, pos, Item(ps[0], plus)) && At(s, f, [AMPERSAND]) && At(s, f + 1, Joined(ps[1..], plus))
            && |Joined(ps, plus)| == |Item(ps[0], plus)| + 1 + |Joined(ps[1..], plus)|
  {
    var item, rest := Item(ps[0], plus), Joined(ps[1..], plus);
    assert Joined(ps, plus) == item + [AMPERSAND] + rest;
    AtParts(s, pos, item + [AMPERSAND], rest);
    AtParts(s, pos, item, [AMPERSAND]);
  }

  lemma {:induction false} ItemParses(s: bytes, pos: nat, p: Pair, plus: bool, f: nat)
    requires Free(p.key, EQUALS) && At(s, pos, Item(p, plus)) && f == pos + |Item(p, plus)| && pos <= |s|
    requires f == |s| || At(s, f, [AMPERSAND])
    ensures f <= |s| && ParsedFrom(s, pos) == [p] + ParsedBehind(s, f)
  {
    ItemParts(s, pos, p, plus);
    PairParses(s, pos, p, plus, pos + |p.key|, f);
  }

  lemma {:induction false} OneOfManyParses(s: bytes, pos: nat, p: Pair, plus: bool, f: nat, rest: seq<Pair>)
    requires Free(p.key, EQUALS) && At(s, pos, Item(p, plus)) && f == pos + |Item(p, plus)|
    requires At(s, f, [AMPERSAND]) && f < |s| && ParsedFrom(s, f + 1) == rest
    ensures ParsedFrom(s, pos) == [p] + rest
  {
    ItemParses(s, pos, p, plus, f);
  }

  lemma {:induction false} CleanParses(s: bytes, pos: nat, ps: seq<Pair>, plus: bool)
    requires CleanKeys(ps) && At(s, pos, Joined(ps, plus)) && pos + |Joined(ps, plus)| == |s|
    ensures ParsedFrom(s, pos) == ps
    decreases |ps|
  {
    if |ps| == 1 {
      OnlyOneParses(s, pos, ps, plus);
    } else if |ps| > 1 {
      JoinedParts(s, pos, ps, plus);
      CleanParses(s, pos + |Item(ps[0], plus)| + 1, ps[1..], plus);
      ManyParse(s, pos, ps, plus);
    }
  }

  lemma {:induction false} ManyParse(s: bytes, pos: nat, ps: seq<Pair>, plus: bool)
    requires |ps| > 1 && CleanKeys(ps) && At(s, pos, Joined(ps, plus)) && pos + |Joined(ps, plus)| == |s|
    requires var f := pos + |Item(ps[0], plus)|; f < |s| && ParsedFrom(s, f + 1) == ps[1..]
    ensures ParsedFrom(s, pos) == ps
  {
    JoinedParts(s, pos, ps, plus);
    OneOfManyParses(s, pos, ps[0], plus, pos + |Item(ps[0], plus)|, ps[1..]);
    HeadAndRest(ps);
  }

  lemma {:induction false} HeadAndRest(ps: seq<Pair>)
    requires ps != []
    ensures [ps[0]] + ps[1..] == ps
  {
  }

  lemma {:induction false} OnlyOneParses(s: bytes, pos: nat, ps: seq<Pair>, plus: bool)
    requires |ps| == 1 && CleanKeys(ps) && At(s, pos, Joined(ps, plus)) && pos + |Joined(ps, plus)| == |s|
    ensures ParsedFrom(s, pos) == ps
  {
    ItemParses(s, pos, ps[0], plus, |s|);
  }

  /** Parsing a joined list gives back the same pairs in the same order, under either plus flag,
      if and only if no key has an equals sign in it.  Ampersands in keys do no harm. */
  lemma ParseInvertsIff(ps: seq<Pair>, plus: bool)
    ensures Parsed(Joined(ps, plus)) == ps <==> CleanKeys(ps)
  {
    if CleanKeys(ps) {
      var s := Joined(ps, plus);
      assert s[0..] == s;
      AtSuffix(s, 0);
      CleanParses(s, 0, ps, plus);
    }
    ParsedKeysAreClean(Joined(ps, plus), 0);
  }

  /** The map holds exactly these pairs. */
  predicate Holds(m: Params, ps: seq<Pair>) {
    && (forall i :: 0 <= i < |ps| ==> Canon(ps[i].key) in m && m[Canon(ps[i].key)] == ps[i])
    && (forall k :: k in m ==> m[k] in ps)
  }

  /** Pairs whose keys the map cannot tell apart are the same pair. */
  predicate Unambiguous(ps: seq<Pair>) {
    forall i, j :: 0 <= i < j < |ps| && Canon(ps[i].key) == Canon(ps[j].key) ==> ps[i] == ps[j]
  }

  /** Each key finds the pair that was there, or else the first pair with that key. */
  lemma {:induction false} InsertedFinds(m: Params, ps: seq<Pair>)
    ensures var r := AllInserted(m, ps);
            && (forall k :: k in m ==> k in r && r[k] == m[k])
            && (forall i :: 0 <= i < |ps| ==> Canon(ps[i].key) in r)
            && (forall k :: k in r && k !in m ==>
                  exists i :: 0 <= i < |ps| && Canon(ps[i].key) == k && r[k] == ps[i]
                              && forall j :: 0 <= j < i ==> Canon(ps[j].key) != k)
    decreases |ps|
  {
    if ps != [] {
      var m' := Inserted(m, ps[0]);
      var r := AllInserted(m, ps);
      InsertedFinds(m', ps[1..]);
      forall i | 0 <= i < |ps|
        ensures Canon(ps[i].key) in r
      {
        assert i > 0 ==> ps[1..][i - 1] == ps[i];
      }
      forall k | k in r && k !in m
        ensures exists i :: 0 <= i < |ps| && Canon(ps[i].key) == k && r[k] == ps[i]
                            && forall j :: 0 <= j < i ==> Canon(ps[j].key) != k
      {
        if k in m' {
          assert Canon(ps[0].key) == k && r[k] == ps[0];
        } else {
          var i :| 0 <= i < |ps[1..]| && Canon(ps[1..][i].key) == k && r[k] == ps[1..][i]
                   && forall j :: 0 <= j < i ==> Canon(ps[1..][j].key) != k;
          FirstBehind(ps, k, i);
        }
      }
    }
  }

  lemma {:induction false} FirstBehind(ps: seq<Pair>, k: bytes, i: nat)
    requires i + 1 < |ps| && Canon(ps[0].key) != k
    requires forall j :: 0 <= j < i ==> Canon(ps[1..][j].key) != k
    ensures ps[i + 1] == ps[1..][i] && forall j :: 0 <= j < i + 1 ==> Canon(ps[j].key) != k
  {
    forall j | 0 <= j < i + 1
      ensures Canon(ps[j].key) != k
    {
      assert j > 0 ==> ps[j] == ps[1..][j - 1];
    }
  }

  lemma FoundIsTheOne(ps: seq<Pair>, m: Params, i: nat)
    requires Unambiguous(ps) && i < |ps|
    requires exists j :: 0 <= j < |ps| && Canon(ps[j].key) == Canon(ps[i].key) && Canon(ps[i].key) in m
                         && m[Canon(ps[i].key)] == ps[j]
    ensures m[Canon(ps[i].key)] == ps[i]
  {
    var j :| 0 <= j < |ps| && Canon(ps[j].key) == Canon(ps[i].key) && m[Canon(ps[i].key)] == ps[j];
    assert j < i || i < j ==> ps[i] == ps[j];
  }

  lemma HoldsIff(ps: seq<Pair>)
    ensures Holds(AllInserted(map[], ps), ps) <==> Unambiguous(ps)
  {
    var m := AllInserted(map[], ps);
    InsertedFinds(map[], ps);
    if Unambiguous(ps) {
      forall i | 0 <= i < |ps|
        ensures m[Canon(ps[i].key)] == ps[i]
      {
        FoundIsTheOne(ps, m, i);
      }
    }
  }

  /** The query round trip: a request whose query is the joined list holds, once initialised,
      exactly the pairs of the list, if and only if no key has an equals sign in it and pairs
      whose keys agree ignoring case are the same. */
  lemma QueryRoundTripIff(ps: seq<Pair>, plus: bool)
    ensures Holds(AllInserted(map[], Parsed(Joined(ps, plus))), ps) <==> CleanKeys(ps) && Unambiguous(ps)
  {
    var q := Parsed(Joined(ps, plus));
    var m := AllInserted(map[], q);
    ParseInvertsIff(ps, plus);
    HoldsIff(ps);
    if Holds(m, ps) {
      ParsedKeysAreClean(Joined(ps, plus), 0);
      HeldAreClean(q, ps);
    }
  }

  lemma HeldAreClean(q: seq<Pair>, ps: seq<Pair>)
    requires CleanKeys(q) && Holds(AllInserted(map[], q), ps)
    ensures CleanKeys(ps)
  {
    var m := AllInserted(map[], q);
    InsertedFinds(map[], q);
    forall i | 0 <= i < |ps|
      ensures Free(ps[i].key, EQUALS)
    {
      var k := Canon(ps[i].key);
      assert k in m;
      var j :| 0 <= j < |q| && m[k] == q[j];
      CleanAt(q, j);
    }
    CleanIfAll(ps);
  }

  // --------------------------------------------------------------- what keys are alike

  /** A byte of a C string; the text ends with a NUL. */
  function CharAt(s: bytes, i: nat): byte {
    if i < |s| then s[i] else 0
  }

  /** What the map sees of a key ends before the first NUL, and only the letters from A to Z change. */
  lemma {:induction false} CanonIs(k: bytes, n: nat)
    requires n <= |k| && CharAt(k, n) == 0 && forall i :: 0 <= i < n ==> k[i] != 0
    ensures |Canon(k)| == n
    ensures forall i :: 0 <= i < n ==> Canon(k)[i] == if 0x41 <= k[i] <= 0x5A then k[i] + 0x20 else k[i]
    decreases n
  {
    if n > 0 {
      CanonIs(k[1..], n - 1);
      assert forall i :: 0 < i < n ==> Canon(k)[i] == Canon(k[1..])[i - 1] && k[i] == k[1..][i - 1];
    }
  }

  /** The comparison of two C strings from `i` on: on to the first difference or the end. */
  predicate Alike(a: bytes, b: bytes, i: nat)
    decreases |a| - i
  {
    var x, y := CharAt(a, i), CharAt(b, i);
    && (x == y || (0x41 <= x <= 0x5A && y == x + 0x20) || (0x41 <= y <= 0x5A && x == y + 0x20))
    && (x == 0 || Alike(a, b, i + 1))
  }

  /** Two keys are one to the map exactly if comparing them byte by byte finds no difference but
      that of upper and lower case before the first NUL. */
  lemma {:induction false} SameKeyIff(a: bytes, b: bytes, i: nat)
    requires i <= |a| && i <= |b|
    ensures Canon(a[i..]) == Canon(b[i..]) <==> Alike(a, b, i)
    decreases |a| - i
  {
    var x, y := CharAt(a, i), CharAt(b, i);
    if x != 0 && y != 0 {
      SameKeyIff(a, b, i + 1);
      CanonOn(a, i);
      CanonOn(b, i);
      HeadsAndTails(Lower(x), Canon(a[i + 1..]), Lower(y), Canon(b[i + 1..]));
    }
  }

  lemma {:induction false} CanonOn(k: bytes, i: nat)
    requires i < |k| && k[i] != 0
    ensures Canon(k[i..]) == [Lower(k[i])] + Canon(k[i + 1..])
  {
    assert k[i..][1..] == k[i + 1..];
  }

  lemma {:induction false} HeadsAndTails(x: byte, s: bytes, y: byte, t: bytes)
    ensures [x] + s == [y] + t <==> x == y && s == t
  {
    if [x] + s == [y] + t {
      assert x == ([x] + s)[0] && s == ([x] + s)[1..];
      assert y == ([y] + t)[0] && t == ([y] + t)[1..];
    }
  }

  // -------------------------------------------------------------- any text, parsed

  /** `t` is what `s` holds from `d` on. */
  predicate Tail(s: bytes, t: bytes, d: nat) {
    |s| == d + |t| && At(s, d, t)
  }

  lemma {:induction false} TailIs(s: bytes, t: bytes, d: nat)
    requires Tail(s, t, d)
    ensures |s| == d + |t| && forall i :: 0 <= i < |t| ==> t[i] == s[d + i]
  {
    AtSlice(s, d, t);
  }

  lemma {:induction false} FindShifts(s: bytes, t: bytes, c: byte, pos: nat, d: nat)
    requires Tail(s, t, d) && pos <= |t|
    ensures Find(s, c, d + pos) == d + Find(t, c, pos)
    decreases |t| - pos
  {
    TailIs(s, t, d);
    if pos < |t| && t[pos] != c {
      FindShifts(s, t, c, pos + 1, d);
    }
  }

  lemma {:induction false} PairShifts(s: bytes, t: bytes, pos: nat, e: nat, f: nat, d: nat)
    requires Tail(s, t, d) && pos <= e < f <= |t|
    ensures PairAt(s, d + pos, d + e, d + f) == PairAt(t, pos, e, f)
  {
    TailIs(s, t, d);
    assert s[d + pos..d + e] == t[pos..e];
    assert s[d + e + 1..d + f] == t[e + 1..f];
  }

  lemma {:induction false} BothStep(s: bytes, t: bytes, pos: nat, pos': nat, e: nat, e': nat, f: nat, f': nat)
    requires pos <= e < |s| && e == Find(s, EQUALS, pos) && f == Find(s, AMPERSAND, e)
    requires pos' <= e' < |t| && e' == Find(t, EQUALS, pos') && f' == Find(t, AMPERSAND, e')
    requires e < f && e' < f' && PairAt(s, pos, e, f) == PairAt(t, pos', e', f')
    requires ParsedBehind(s, f) == ParsedBehind(t, f')
    ensures ParsedFrom(s, pos) == ParsedFrom(t, pos')
  {
    ParsedStep(s, pos, e, f);
    ParsedStep(t, pos', e', f');
  }

  lemma {:induction false} NoneParsed(s: bytes, pos: nat)
    requires pos <= |s| && Find(s, EQUALS, pos) == |s|
    ensures ParsedFrom(s, pos) == []
  {
  }

  lemma {:induction false} PlacesShift(s: bytes, t: bytes, pos: nat, d: nat, e: nat, f: nat)
    requires Tail(s, t, d) && pos <= e < |t| && e == Find(t, EQUALS, pos) && f == Find(t, AMPERSAND, e)
    ensures e < f <= |t| && Find(s, EQUALS, d + pos) == d + e && Find(s, AMPERSAND, d + e) == d + f
    ensures PairAt(s, d + pos, d + e, d + f) == PairAt(t, pos, e, f)
  {
    FindShifts(s, t, EQUALS, pos, d);
    FindShifts(s, t, AMPERSAND, e, d);
    BehindEquals(t, pos, e, f);
    PairShifts(s, t, pos, e, f, d);
  }

  /** The first pair, found at the same place of the rest. */
  lemma {:induction false} TurnShifts(s: bytes, t: bytes, pos: nat, d: nat, e: nat, f: nat)
    requires Tail(s, t, d) && pos <= e < |t| && e == Find(t, EQUALS, pos) && f == Find(t, AMPERSAND, e)
    requires f <= |t| && ParsedBehind(s, d + f) == ParsedBehind(t, f)
    ensures ParsedFrom(s, d + pos) == ParsedFrom(t, pos)
  {
    PlacesShift(s, t, pos, d, e, f);
    BothStep(s, t, d + pos, pos, d + e, e, d + f, f);
  }

  lemma {:induction false} NoTurnShifts(s: bytes, t: bytes, pos: nat, d: nat)
    requires Tail(s, t, d) && pos <= |t| && Find(t, EQUALS, pos) == |t|
    ensures ParsedFrom(s, d + pos) == ParsedFrom(t, pos)
  {
    FindShifts(s, t, EQUALS, pos, d);
    NoneParsed(t, pos);
    NoneParsed(s, d + pos);
  }

  lemma {:induction false} BehindShifts(s: bytes, t: bytes, f: nat, d: nat)
    requires |s| == d + |t| && f <= |t| && (f < |t| ==> ParsedFrom(s, d + (f + 1)) == ParsedFrom(t, f + 1))
    ensures ParsedBehind(s, d + f) == ParsedBehind(t, f)
  {
  }

  predicate Same(s: bytes, t: bytes, pos: nat, d: nat) {
    |s| == d + |t| && pos <= |t| && ParsedFrom(s, d + pos) == ParsedFrom(t, pos)
  }

  lemma {:induction false} TurnIsSame(s: bytes, t: bytes, pos: nat, d: nat, e: nat, f: nat)
    requires Tail(s, t, d) && pos <= e < |t| && e == Find(t, EQUALS, pos) && f == Find(t, AMPERSAND, e)
    requires f <= |t| && (f < |t| ==> Same(s, t, f + 1, d))
    ensures Same(s, t, pos, d)
  {
    BehindShifts(s, t, f, d);
    TurnShifts(s, t, pos, d, e, f);
  }

  lemma {:induction false} NoTurnIsSame(s: bytes, t: bytes, pos: nat, d: nat)
    requires Tail(s, t, d) && pos <= |t| && Find(t, EQUALS, pos) == |t|
    ensures Same(s, t, pos, d)
  {
    NoTurnShifts(s, t, pos, d);
  }

  /** Parsing from a position on is parsing the rest. */
  lemma {:induction false} ParsedShifts(s: bytes, t: bytes, pos: nat, d: nat)
    requires Tail(s, t, d) && pos <= |t|
    ensures Same(s, t, pos, d)
    decreases |t| - pos
  {
    var e := Find(t, EQUALS, pos);
    if e == |t| {
      NoTurnIsSame(s, t, pos, d);
    } else {
      var f := Find(t, AMPERSAND, e);
      BehindEquals(t, pos, e, f);
      if f < |t| {
        ParsedShifts(s, t, f + 1, d);
      }
      TurnIsSame(s, t, pos, d, e, f);
    }
  }

  lemma {:induction false} BehindEquals(s: bytes, pos: nat, e: nat, f: nat)
    requires pos <= e < |s| && e == Find(s, EQUALS, pos) && f == Find(s, AMPERSAND, e)
    ensures e < f
  {
  }

  /** Text without an equals sign holds no pair. */
  lemma {:induction false} NoPair(s: bytes)
    requires forall i :: 0 <= i < |s| ==> s[i] != 0x3D
    ensures Parsed(s) == []
  {
  }

  /** The text up to the first equals sign is the key, the text from there on is the value, which is
      decoded. */
  lemma {:induction false} LastPair(key: bytes, value: bytes)
    requires forall i :: 0 <= i < |key| ==> key[i] != 0x3D
    requires forall i :: 0 <= i < |value| ==> value[i] != 0x26
    ensures Parsed(key + [0x3D] + value) == [Pair(key, Decoded(value, true))]
  {
    var last := key + [0x3D] + value;
    OnePair(last, key, value, last);
  }

  /** Or up to the next ampersand; whatever stands behind that is parsed alike. */
  lemma {:induction false} FirstPair(key: bytes, value: bytes, rest: bytes)
    requires forall i :: 0 <= i < |key| ==> key[i] != 0x3D
    requires forall i :: 0 <= i < |value| ==> value[i] != 0x26
    ensures Parsed((key + [0x3D] + value) + ([0x26] + rest)) == [Pair(key, Decoded(value, true))] + Parsed(rest)
  {
    var last, more := key + [0x3D] + value, (key + [0x3D] + value) + ([0x26] + rest);
    OnePair(last, key, value, more);
    PairBefore(last, rest, more);
  }

  lemma {:induction false} PairBefore(last: bytes, rest: bytes, s: bytes)
    requires s == last + ([0x26] + rest)
    ensures ParsedBehind(s, |last|) == Parsed(rest)
  {
    TailBehind(last, rest, s);
    ParsedShifts(s, rest, 0, |last| + 1);
  }

  lemma {:induction false} TailBehind(last: bytes, rest: bytes, s: bytes)
    requires s == last + ([0x26] + rest)
    ensures |s| > |last| && Tail(s, rest, |last| + 1)
  {
    AtSuffix(s, |last| + 1);
    assert s[|last| + 1..] == rest;
  }

  lemma {:induction false} OnePair(last: bytes, key: bytes, value: bytes, s: bytes)
    requires last == key + [0x3D] + value && last <= s && (|s| > |last| ==> s[|last|] == 0x26)
    requires Free(key, EQUALS) && Free(value, AMPERSAND)
    ensures Parsed(s) == [Pair(key, Decoded(value, true))] + ParsedBehind(s, |last|)
  {
    var e, f := |key|, |last|;
    assert s[0..e] == key;
    assert s[e] == last[e] == EQUALS;
    assert s[e + 1..f] == value;
    FindIs(s, EQUALS, 0, e);
    FindIs(s, AMPERSAND, e + 1, f);
    ParsedStep(s, 0, e, f);
  }
}
