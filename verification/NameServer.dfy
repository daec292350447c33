/** The name server's registry as a value (src/ns/NameServerModule.cpp,
    src/ns/NameServerProtocol.cpp): an index from domain and command to nodes, and the
    session each client has registered. */
module NameServer {
  import opened Wrappers

  type Id = nat
  type Cmd = nat
  type Stream = nat

  /** An address as written, with the 32-bit number `inet_addr` reads from it. */
  datatype Ip = Ip(text: string, addr: nat)

  datatype Node = Node(ip: Ip, port: nat, weight: nat)

  const TWO_32 := 0x1_0000_0000
  const TWO_16 := 0x1_0000

  function IdOf(n: Node): Id {
    n.ip.addr * TWO_32 + n.port
  }

  type Pairs = map<string, set<Cmd>>

  predicate Listed(p: Pairs, d: string, c: Cmd) {
    d in p && c in p[d]
  }

  datatype Client = Client(node: Node, cmds: Pairs)

  type Index = map<string, map<Cmd, map<Id, Node>>>

  function Find(x: Index, d: string, c: Cmd, i: Id): Option<Node> {
    if d in x && c in x[d] && i in x[d][c] then Some(x[d][c][i]) else None
  }

  /** No command of a domain is kept without nodes. */
  predicate Tidy(x: Index) {
    forall d, c :: d in x && c in x[d] ==> x[d][c] != map[]
  }

  // ------------------------------------------------------------- index operations

  function NodesOf(x: Index, d: string, c: Cmd): map<Id, Node> {
    if d in x && c in x[d] then x[d][c] else map[]
  }

  function CmdsOf(x: Index, d: string): map<Cmd, map<Id, Node>> {
    if d in x then x[d] else map[]
  }

  /** `NSDomain::add`, on a domain made on demand. */
  function Add(x: Index, d: string, c: Cmd, n: Node): Index {
    x[d := CmdsOf(x, d)[c := NodesOf(x, d, c)[IdOf(n) := n]]]
  }

  /** `NSDomain::del`: a command left without nodes goes too. */
  function Del(x: Index, d: string, c: Cmd, i: Id): Index {
    if d !in x || c !in x[d] then x
    else
      var left: map<Id, Node> := x[d][c] - {i};
      var cmds: map<Cmd, map<Id, Node>> := if left == map[] then x[d] - {c} else x[d][c := left];
      x[d := cmds]
  }

  lemma AddFinds(x: Index, d: string, c: Cmd, n: Node)
    ensures forall d', c', i' :: Find(Add(x, d, c, n), d', c', i') ==
                                 if d' == d && c' == c && i' == IdOf(n) then Some(n) else Find(x, d', c', i')
    ensures Tidy(x) ==> Tidy(Add(x, d, c, n))
  {
    assert IdOf(n) in Add(x, d, c, n)[d][c];
  }

  lemma DelFinds(x: Index, d: string, c: Cmd, i: Id)
    ensures forall d', c', i' :: Find(Del(x, d, c, i), d', c', i') ==
                                 if d' == d && c' == c && i' == i then None else Find(x, d', c', i')
    ensures Tidy(x) ==> Tidy(Del(x, d, c, i))
  {
    if d in x && c in x[d] {
      var left: map<Id, Node> := x[d][c] - {i};
      forall i' | i' in x[d][c] && i' != i
        ensures i' in left && left != map[]
      {
      }
    }
  }

  // ----------------------------------------------------------- replacing a session

  predicate OldLists(old': Option<Client>, d: string, c: Cmd) {
    old'.Some? && Listed(old'.value.cmds, d, c)
  }

  /** What `set` makes of one entry: pairs given up lose the old node, pairs gained get the new
      one, and pairs kept get the new one only if its weight differs. */
  function Replaced(found: Option<Node>, d: string, c: Cmd, i: Id, old': Option<Client>,
                    new': Option<Client>): Option<Node> {
    if new'.Some? && i == IdOf(new'.value.node) && Listed(new'.value.cmds, d, c)
       && (!OldLists(old', d, c) || old'.value.node.weight != new'.value.node.weight)
    then Some(new'.value.node)
    else if OldLists(old', d, c) && i == IdOf(old'.value.node) && !OldLists(new', d, c) then None
    else found
  }

  ghost predicate IsReplaced(x: Index, x': Index, old': Option<Client>, new': Option<Client>) {
    forall d, c, i :: Find(x', d, c, i) == Replaced(Find(x, d, c, i), d, c, i, old', new')
  }

  type Sessions = map<Stream, Client>

  function Session(s: Sessions, r: Stream): Option<Client> {
    if r in s then Some(s[r]) else None
  }

  function WithSession(s: Sessions, r: Stream, info: Option<Client>): Sessions {
    if info.Some? then s[r := info.value] else s - {r}
  }

  /** Nodes agree on everything but the spelling of the address. */
  predicate Same(a: Node, b: Node) {
    IdOf(a) == IdOf(b) && a.weight == b.weight
  }

  ghost predicate Registered(s: Sessions, r: Stream, d: string, c: Cmd, i: Id) {
    r in s && Listed(s[r].cmds, d, c) && IdOf(s[r].node) == i
  }

  ghost predicate Distinct(s: Sessions) {
    forall r, q :: r in s && q in s && r != q ==> IdOf(s[r].node) != IdOf(s[q].node)
  }

  /** The entry recomputed from the sessions alone. */
  ghost function Recomputed(s: Sessions, d: string, c: Cmd, i: Id): (n: Option<Node>)
    ensures n.Some? <==> exists r :: Registered(s, r, d, c, i)
  {
    if exists r :: Registered(s, r, d, c, i) then
      var r :| Registered(s, r, d, c, i);
      Some(s[r].node)
    else None
  }

  predicate SameEntry(a: Option<Node>, b: Option<Node>) {
    (a.Some? <==> b.Some?) && (a.Some? ==> Same(a.value, b.value))
  }

  ghost predicate Mirrors(x: Index, s: Sessions) {
    forall d, c, i :: SameEntry(Find(x, d, c, i), Recomputed(s, d, c, i))
  }

  lemma RecomputedIs(s: Sessions, r: Stream, d: string, c: Cmd, i: Id)
    requires Distinct(s) && Registered(s, r, d, c, i)
    ensures Recomputed(s, d, c, i) == Some(s[r].node)
  {
  }

  /** The entry is there exactly if some session has registered it, and then with the weight of
      such a session. */
  ghost predicate EntryReflects(found: Option<Node>, s: Sessions, d: string, c: Cmd, i: Id) {
    match found
    case None => forall r :: !Registered(s, r, d, c, i)
    case Some(n) => exists r :: Registered(s, r, d, c, i) && Same(n, s[r].node)
  }

  ghost predicate Reflects(x: Index, s: Sessions) {
    forall d, c, i :: EntryReflects(Find(x, d, c, i), s, d, c, i)
  }

  /** Membership alone. */
  ghost predicate ListsAll(x: Index, s: Sessions) {
    forall d, c, i :: Find(x, d, c, i).Some? <==> exists r :: Registered(s, r, d, c, i)
  }

  lemma {:induction false} ReflectsLists(x: Index, s: Sessions)
    requires Reflects(x, s)
    ensures ListsAll(x, s)
  {
    forall d, c, i
      ensures Find(x, d, c, i).Some? <==> exists r :: Registered(s, r, d, c, i)
    {
      assert EntryReflects(Find(x, d, c, i), s, d, c, i);
    }
  }

  /** No other session of the same identity has registered a pair that session `r` gives up when
      it is replaced by `info`. */
  ghost predicate Harmless(s: Sessions, r: Stream, info: Option<Client>) {
    forall q, d, c :: r in s && q != r && Registered(s, q, d, c, IdOf(s[r].node)) && Listed(s[r].cmds, d, c) ==>
                        OldLists(info, d, c)
  }

  lemma {:induction false} OthersStay(s: Sessions, r: Stream, info: Option<Client>, q: Stream, d: string, c: Cmd, i: Id)
    requires q != r
    ensures Registered(WithSession(s, r, info), q, d, c, i) <==> Registered(s, q, d, c, i)
    ensures q in s ==> q in WithSession(s, r, info) && WithSession(s, r, info)[q] == s[q]
  {
  }

  lemma {:induction false} EntryStays(found: Option<Node>, s: Sessions, r: Stream, info: Option<Client>, d: string,
                                      c: Cmd, i: Id)
    requires EntryReflects(found, s, d, c, i) && Harmless(s, r, info)
    requires r in s && info.Some? ==> IdOf(s[r].node) == IdOf(info.value.node)
    ensures EntryReflects(Replaced(found, d, c, i, Session(s, r), info), WithSession(s, r, info), d, c, i)
  {
    var s', found' := WithSession(s, r, info), Replaced(found, d, c, i, Session(s, r), info);
    if found'.None? {
      forall q
        ensures !Registered(s', q, d, c, i)
      {
        if q != r {
          OthersStay(s, r, info, q, d, c, i);
        }
        if found.None? {
          assert !Registered(s, q, d, c, i) && !Registered(s, r, d, c, i);
        } else {
          assert i == IdOf(s[r].node);
          assert q != r && Registered(s, q, d, c, IdOf(s[r].node)) ==> OldLists(info, d, c);
        }
      }
    } else if Registered(s', r, d, c, i) && Same(found'.value, s'[r].node) {
    } else {
      var z :| Registered(s, z, d, c, i) && Same(found.value, s[z].node);
      OthersStay(s, r, info, z, d, c, i);
      assert Registered(s', z, d, c, i) && Same(found'.value, s'[z].node);
    }
  }

  /** Replacing a session by differences keeps the index up to date, in its entries as in their
      weights, if and only if the replacement does no harm. */
  lemma {:induction false} ReplacingKeepsIff(x: Index, x': Index, s: Sessions, r: Stream, info: Option<Client>)
    requires Reflects(x, s) && IsReplaced(x, x', Session(s, r), info)
    requires r in s && info.Some? ==> IdOf(s[r].node) == IdOf(info.value.node)
    ensures Reflects(x', WithSession(s, r, info)) <==> Harmless(s, r, info)
    ensures ListsAll(x', WithSession(s, r, info)) <==> Harmless(s, r, info)
  {
    var s' := WithSession(s, r, info);
    if Harmless(s, r, info) {
      forall d, c, i
        ensures EntryReflects(Find(x', d, c, i), s', d, c, i)
      {
        assert EntryReflects(Find(x, d, c, i), s, d, c, i);
        EntryStays(Find(x, d, c, i), s, r, info, d, c, i);
      }
      ReflectsLists(x', s');
    } else {
      var q, d, c :| r in s && q != r && Registered(s, q, d, c, IdOf(s[r].node)) && Listed(s[r].cmds, d, c)
                     && !OldLists(info, d, c);
      var i := IdOf(s[r].node);
      OthersStay(s, r, info, q, d, c, i);
      assert Find(x', d, c, i) == None && Registered(s', q, d, c, i);
      if Reflects(x', s') {
        ReflectsLists(x', s');
      }
    }
  }

  lemma {:induction false} DistinctIsHarmless(s: Sessions, r: Stream, info: Option<Client>)
    requires Distinct(s)
    ensures Harmless(s, r, info)
  {
  }

  /** With distinct identities only one session can stand behind an entry. */
  lemma {:induction false} ReflectsMirrors(x: Index, s: Sessions)
    requires Distinct(s)
    ensures Reflects(x, s) <==> Mirrors(x, s)
  {
    forall d, c, i
      ensures EntryReflects(Find(x, d, c, i), s, d, c, i) <==> SameEntry(Find(x, d, c, i), Recomputed(s, d, c, i))
    {
      if r :| Registered(s, r, d, c, i) {
        RecomputedIs(s, r, d, c, i);
        assert forall q :: Registered(s, q, d, c, i) ==> q == r;
      }
    }
    if Reflects(x, s) {
      assert forall d, c, i :: EntryReflects(Find(x, d, c, i), s, d, c, i);
    }
    if Mirrors(x, s) {
      assert forall d, c, i :: SameEntry(Find(x, d, c, i), Recomputed(s, d, c, i));
    }
  }

  /** Replacing a session updates the mirror, if its node keeps its identity and shares it
      with no other session. */
  lemma {:induction false} ReplacingKeepsMirror(x: Index, x': Index, s: Sessions, r: Stream, info: Option<Client>)
    requires Mirrors(x, s) && Distinct(s) && Distinct(WithSession(s, r, info))
    requires r in s && info.Some? ==> IdOf(s[r].node) == IdOf(info.value.node)
    requires IsReplaced(x, x', Session(s, r), info)
    ensures Mirrors(x', WithSession(s, r, info))
  {
    ReflectsMirrors(x, s);
    DistinctIsHarmless(s, r, info);
    ReplacingKeepsIff(x, x', s, r, info);
    ReflectsMirrors(x', WithSession(s, r, info));
  }

  // ---------------------------------------------------------------- registering

  datatype NodeMsg = NodeMsg(ip: Option<Ip>, port: Option<nat>, weight: Option<nat>)

  datatype Info = Info(domain: Option<string>, cmds: seq<Cmd>, node: Option<NodeMsg>)

  /** The node of an entry; the port is narrowed to 16 bits. */
  function NodeFrom(m: NodeMsg): Node
    requires m.ip.Some? && m.port.Some? && m.weight.Some?
  {
    Node(m.ip.value, m.port.value % TWO_16, m.weight.value)
  }

  /** An entry with every field, a command, and an address other than 0.0.0.0. */
  predicate Complete(e: Info) {
    && e.node.Some? && e.domain.Some? && e.cmds != []
    && e.node.value.ip.Some? && e.node.value.port.Some? && e.node.value.weight.Some?
    && IdOf(NodeFrom(e.node.value)) / TWO_32 != 0
  }

  function EntryId(e: Info): Id {
    if Complete(e) then IdOf(NodeFrom(e.node.value)) else 0
  }

  datatype Gathered = Rejected | Accepted(info: Option<Client>)

  function WithCmds(p: Pairs, d: string, cmds: seq<Cmd>): Pairs {
    p[d := (if d in p then p[d] else {}) + set c | c in cmds]
  }

  /** One turn of the loop in `handleRegister`. */
  function Next(old': Option<Client>, before: Option<Client>, e: Info): Gathered {
    if !Complete(e) then Rejected
    else
      var n := NodeFrom(e.node.value);
      if old'.Some? && IdOf(old'.value.node) != IdOf(n) then Rejected
      else if before.Some? && IdOf(before.value.node) != IdOf(n) then Rejected
      else
        var client := if before.Some? then before.value else Client(n, map[]);
        Accepted(Some(client.(cmds := WithCmds(client.cmds, e.domain.value, e.cmds))))
  }

  /** The whole loop. */
  function Gather(old': Option<Client>, infos: seq<Info>): Gathered
    decreases infos
  {
    if infos == [] then Accepted(None)
    else
      var before := Gather(old', infos[..|infos| - 1]);
      if before.Rejected? then Rejected else Next(old', before.info, infos[|infos| - 1])
  }

  predicate Names(e: Info, d: string, c: Cmd) {
    e.domain == Some(d) && c in e.cmds
  }

  /** Every entry is complete, and all of them, and the session if there is one, name one node. */
  ghost predicate Acceptable(old': Option<Client>, infos: seq<Info>) {
    forall k :: 0 <= k < |infos| ==>
                  && Complete(infos[k]) && EntryId(infos[k]) == EntryId(infos[0])
                  && (old'.Some? ==> EntryId(infos[k]) == IdOf(old'.value.node))
  }

  lemma AcceptableNext(old': Option<Client>, front: seq<Info>, e: Info)
    ensures Acceptable(old', front + [e]) <==>
            && Acceptable(old', front) && Complete(e) && (front != [] ==> EntryId(e) == EntryId(front[0]))
            && (old'.Some? ==> EntryId(e) == IdOf(old'.value.node))
  {
    var infos := front + [e];
    assert infos[|front|] == e;
    if Acceptable(old', infos) {
      forall k | 0 <= k < |front|
        ensures Complete(front[k]) && EntryId(front[k]) == EntryId(front[0])
        ensures old'.Some? ==> EntryId(front[k]) == IdOf(old'.value.node)
      {
        assert front[k] == infos[k];
      }
    }
  }

  lemma {:induction false} AcceptedIff(old': Option<Client>, infos: seq<Info>)
    ensures var g := Gather(old', infos);
            && (g.Accepted? <==> Acceptable(old', infos))
            && (g.Accepted? ==> (g.info == None <==> infos == []))
            && (g.Accepted? && infos != [] ==> Complete(infos[0]) && g.info.value.node == NodeFrom(infos[0].node.value))
    decreases infos
  {
    if infos != [] {
      var front, e := infos[..|infos| - 1], infos[|infos| - 1];
      AcceptedIff(old', front);
      AcceptableNext(old', front, e);
      assert infos == front + [e];
      if front != [] {
        assert front[0] == infos[0];
      }
    }
  }

  /** Acceptance, written out: every entry has all its fields, a command and an address that does not
      read as zero; and address and port are the same in all of them, and in the session. */
  lemma {:induction false} AcceptableIff(old': Option<Client>, infos: seq<Info>)
    ensures Acceptable(old', infos) <==>
            && (forall k :: 0 <= k < |infos| ==>
                  && infos[k].domain.Some? && infos[k].cmds != [] && infos[k].node.Some?
                  && infos[k].node.value.ip.Some? && infos[k].node.value.port.Some? && infos[k].node.value.weight.Some?
                  && infos[k].node.value.ip.value.addr != 0)
            && (forall k :: 0 <= k < |infos| ==>
                  && infos[k].node.value.ip.value.addr == infos[0].node.value.ip.value.addr
                  && infos[k].node.value.port.value % 65536 == infos[0].node.value.port.value % 65536)
            && (old'.Some? ==> forall k :: 0 <= k < |infos| ==>
                  infos[k].node.value.ip.value.addr * 0x1_0000_0000 + infos[k].node.value.port.value % 65536
                  == old'.value.node.ip.addr * 0x1_0000_0000 + old'.value.node.port)
  {
    forall k | 0 <= k < |infos|
      ensures Complete(infos[k]) <==>
              && infos[k].domain.Some? && infos[k].cmds != [] && infos[k].node.Some?
              && infos[k].node.value.ip.Some? && infos[k].node.value.port.Some? && infos[k].node.value.weight.Some?
              && infos[k].node.value.ip.value.addr != 0
    {
      if infos[k].domain.Some? && infos[k].cmds != [] && infos[k].node.Some?
         && infos[k].node.value.ip.Some? && infos[k].node.value.port.Some? && infos[k].node.value.weight.Some? {
        CompleteIff(infos[k]);
      }
    }
    if forall k :: 0 <= k < |infos| ==> Complete(infos[k]) {
      forall k | 0 <= k < |infos|
        ensures EntryId(infos[k]) == EntryId(infos[0]) <==>
                && infos[k].node.value.ip.value.addr == infos[0].node.value.ip.value.addr
                && infos[k].node.value.port.value % 65536 == infos[0].node.value.port.value % 65536
      {
        assert Complete(infos[k]) && Complete(infos[0]);
        CollideIff(infos[k].node.value, infos[0].node.value);
      }
    }
  }

  /** A request is accepted exactly when it is acceptable.  The result is the node of the first
      entry, under exactly the pairs of all the entries; an empty request yields no session. */
  lemma {:induction false} RegisterExactly(old': Option<Client>, infos: seq<Info>)
    ensures var g := Gather(old', infos);
            && (g.Accepted? <==> Acceptable(old', infos))
            && (g.Accepted? ==> (g.info == None <==> infos == []))
            && (g.Accepted? && infos != [] ==>
                  && Complete(infos[0]) && g.info.value.node == NodeFrom(infos[0].node.value)
                  && g.info.value.node.ip == infos[0].node.value.ip.value
                  && g.info.value.node.port == infos[0].node.value.port.value % 65536
                  && g.info.value.node.weight == infos[0].node.value.weight.value
                  && forall d, c :: Listed(g.info.value.cmds, d, c) <==>
                       exists k :: 0 <= k < |infos| && Names(infos[k], d, c))
    decreases infos
  {
    AcceptedIff(old', infos);
    var g := Gather(old', infos);
    if infos != [] && g.Accepted? {
      var front, e := infos[..|infos| - 1], infos[|infos| - 1];
      RegisterExactly(old', front);
      GatheredPairs(Gather(old', front), e, g, front, infos);
    }
  }

  lemma WithCmdsLists(p: Pairs, d: string, cmds: seq<Cmd>, d': string, c: Cmd)
    ensures Listed(WithCmds(p, d, cmds), d', c) <==> Listed(p, d', c) || (d' == d && c in cmds)
  {
  }

  lemma GatheredPairs(before: Gathered, e: Info, g: Gathered, front: seq<Info>, infos: seq<Info>)
    requires Complete(e) && infos == front + [e]
    requires before.Accepted? && g.Accepted? && g.info.Some? && (before.info == None <==> front == [])
    requires before.info.Some? ==>
               forall d, c :: Listed(before.info.value.cmds, d, c) <==>
                 exists k :: 0 <= k < |front| && Names(front[k], d, c)
    requires g.info.value.cmds ==
             WithCmds(if before.info.Some? then before.info.value.cmds else map[], e.domain.value, e.cmds)
    ensures forall d, c :: Listed(g.info.value.cmds, d, c) <==> exists k :: 0 <= k < |infos| && Names(infos[k], d, c)
  {
    forall d, c
      ensures Listed(g.info.value.cmds, d, c) <==> exists k :: 0 <= k < |infos| && Names(infos[k], d, c)
    {
      WithCmdsLists(if before.info.Some? then before.info.value.cmds else map[], e.domain.value, e.cmds, d, c);
      if k :| 0 <= k < |infos| && Names(infos[k], d, c) {
        if k < |front| {
          assert Names(front[k], d, c);
        }
      }
      if Listed(g.info.value.cmds, d, c) {
        if Names(e, d, c) {
          assert Names(infos[|front|], d, c);
        } else {
          assert Listed(before.info.value.cmds, d, c);
          var k :| 0 <= k < |front| && Names(front[k], d, c);
          assert Names(infos[k], d, c);
        }
      }
    }
  }

  // ------------------------------------------------------------------ whole runs

  datatype Registry = Registry(index: Index, sessions: Sessions)

  datatype Op =
    | DoRegister(stream: Stream, connected: bool, infos: Option<seq<Info>>)   // None: not a register request
    | DoDisconnect(stream: Stream)

  /** The client `set` is called with, or None if it is not called. */
  function Update(s: Sessions, op: Op): Option<Option<Client>> {
    match op
    case DoDisconnect(_) => Some(None)
    case DoRegister(r, connected, None) => None
    case DoRegister(r, connected, Some(infos)) =>
      var g := Gather(Session(s, r), infos);
      if g.Rejected? then None else Some(if connected then g.info else None)
  }

  ghost predicate Step(g: Registry, op: Op, g': Registry) {
    match Update(g.sessions, op)
    case None => g' == g
    case Some(info) =>
      && IsReplaced(g.index, g'.index, Session(g.sessions, op.stream), info)
      && (Tidy(g.index) ==> Tidy(g'.index))
      && g'.sessions == WithSession(g.sessions, op.stream, info)
  }

  ghost predicate IsRun(run: seq<Registry>, ops: seq<Op>) {
    && |run| == |ops| + 1 && run[0] == Registry(map[], map[])
    && forall k :: 0 <= k < |ops| ==> Step(run[k], ops[k], run[k + 1])
  }

  lemma AcceptedKeepsIdentity(s: Sessions, op: Op)
    requires Update(s, op).Some? && Update(s, op).value.Some?
    ensures op.stream in s ==> IdOf(s[op.stream].node) == IdOf(Update(s, op).value.value.node)
  {
    RegisterExactly(Session(s, op.stream), op.infos.value);
  }

  /** The condition on a request, readable off the sessions before it. */
  ghost predicate Fits(s: Sessions, op: Op) {
    Update(s, op).Some? ==> Harmless(s, op.stream, Update(s, op).value)
  }

  lemma {:induction false} StepKeepsIff(g: Registry, op: Op, g': Registry)
    requires Step(g, op, g') && Reflects(g.index, g.sessions)
    ensures Reflects(g'.index, g'.sessions) <==> Fits(g.sessions, op)
    ensures ListsAll(g'.index, g'.sessions) <==> Fits(g.sessions, op)
  {
    var u := Update(g.sessions, op);
    if u.Some? {
      if u.value.Some? {
        AcceptedKeepsIdentity(g.sessions, op);
      }
      ReplacingKeepsIff(g.index, g'.index, g.sessions, op.stream, u.value);
    } else {
      ReflectsLists(g.index, g.sessions);
    }
  }

  lemma {:induction false} RunReflects(run: seq<Registry>, ops: seq<Op>, n: nat)
    requires IsRun(run, ops) && n < |run| && forall k :: 0 <= k < n ==> Fits(run[k].sessions, ops[k])
    ensures Reflects(run[n].index, run[n].sessions)
  {
    if n > 0 {
      RunReflects(run, ops, n - 1);
      StepKeepsIff(run[n - 1], ops[n - 1], run[n]);
    }
  }

  lemma {:induction false} RunIsTidy(run: seq<Registry>, ops: seq<Op>, n: nat)
    requires IsRun(run, ops) && n < |run|
    ensures Tidy(run[n].index)
  {
    if n > 0 {
      RunIsTidy(run, ops, n - 1);
      assert Step(run[n - 1], ops[n - 1], run[n]);
    }
  }

  /** Over every run of registers, accepted or not, and disconnects, whether sessions share
      identities or not: the index lists exactly what the sessions have registered, at every
      moment, if and only if no request takes away a pair that another session of the same
      identity has registered too; and then the weights listed are those of such sessions. */
  lemma {:induction false} IndexMirrorsIff(run: seq<Registry>, ops: seq<Op>)
    requires IsRun(run, ops)
    ensures (forall k :: 0 <= k < |ops| ==> Fits(run[k].sessions, ops[k])) <==>
            (forall n :: 0 <= n < |run| ==> ListsAll(run[n].index, run[n].sessions))
    ensures (forall k :: 0 <= k < |ops| ==> Fits(run[k].sessions, ops[k])) <==>
            (forall n :: 0 <= n < |run| ==> Reflects(run[n].index, run[n].sessions))
  {
    if forall k :: 0 <= k < |ops| ==> Fits(run[k].sessions, ops[k]) {
      forall n | 0 <= n < |run|
        ensures Reflects(run[n].index, run[n].sessions) && ListsAll(run[n].index, run[n].sessions)
      {
        RunReflects(run, ops, n);
        ReflectsLists(run[n].index, run[n].sessions);
      }
    } else {
      var k := FirstMisfit(run, ops);
      RunReflects(run, ops, k);
      StepKeepsIff(run[k], ops[k], run[k + 1]);
    }
  }

  lemma {:induction false} FirstMisfit(run: seq<Registry>, ops: seq<Op>) returns (k: nat)
    requires IsRun(run, ops) && exists j :: 0 <= j < |ops| && !Fits(run[j].sessions, ops[j])
    ensures k < |ops| && !Fits(run[k].sessions, ops[k]) && forall j :: 0 <= j < k ==> Fits(run[j].sessions, ops[j])
  {
    k := 0;
    while Fits(run[k].sessions, ops[k])
      invariant k < |ops| && forall j :: 0 <= j < k ==> Fits(run[j].sessions, ops[j])
      decreases |ops| - k
    {
      var j :| 0 <= j < |ops| && !Fits(run[j].sessions, ops[j]);
      k := k + 1;
    }
  }

  /** After any run of registers, accepted or not, and disconnects in which no two sessions ever
      share a node identity: the index, maintained by differences, is the one recomputed from
      the sessions, and lists no command without nodes. */
  lemma {:induction false} IndexMirrorsSessions(run: seq<Registry>, ops: seq<Op>, n: nat)
    requires IsRun(run, ops) && n < |run|
    requires forall k :: 0 <= k <= n ==> Distinct(run[k].sessions)
    ensures Mirrors(run[n].index, run[n].sessions) && Tidy(run[n].index)
  {
    forall k | 0 <= k < n
      ensures Fits(run[k].sessions, ops[k])
    {
      var u := Update(run[k].sessions, ops[k]);
      if u.Some? {
        DistinctIsHarmless(run[k].sessions, ops[k].stream, u.value);
      }
    }
    RunReflects(run, ops, n);
    ReflectsMirrors(run[n].index, run[n].sessions);
    RunIsTidy(run, ops, n);
  }

  /** What `query` answers under a pair, as long as no request has done harm: a node is listed
      exactly when a session of its identity has registered the pair, and with the weight of such
      a session; so a session alone under its identity finds itself, with its own weight, exactly
      under its pairs. */
  lemma {:induction false} QueryAnswers(run: seq<Registry>, ops: seq<Op>, n: nat, r: Stream, d: string, c: Cmd)
    requires IsRun(run, ops) && n < |run|
    requires forall k :: 0 <= k < n ==> Fits(run[k].sessions, ops[k])
    requires r in run[n].sessions
    ensures var s := run[n].sessions;
            var i := IdOf(s[r].node);
            var found := Find(run[n].index, d, c, i);
            && (found.Some? <==> exists q :: Registered(s, q, d, c, i))
            && (found.Some? ==> exists q :: Registered(s, q, d, c, i) && found.value.weight == s[q].node.weight)
            && ((forall q :: q in s && q != r ==> IdOf(s[q].node) != i) ==>
                  (found.Some? <==> Listed(s[r].cmds, d, c))
                  && (found.Some? ==> found.value.weight == s[r].node.weight))
  {
    RunReflects(run, ops, n);
    var s, i := run[n].sessions, IdOf(run[n].sessions[r].node);
    assert EntryReflects(Find(run[n].index, d, c, i), s, d, c, i);
    assert Listed(s[r].cmds, d, c) <==> Registered(s, r, d, c, i);
  }

  /** What each request makes of the sessions: leaving takes the own one away; a request that does not
      parse or is not acceptable changes nothing at all; an accepted one of a connected stream that
      names a node replaces the own one, and any other accepted one counts as leaving. */
  lemma {:induction false} StepSessions(g: Registry, op: Op, g': Registry)
    requires Step(g, op, g')
    ensures op.DoDisconnect? ==> g'.sessions == g.sessions - {op.stream}
    ensures op.DoRegister? && (op.infos.None? || !Acceptable(Session(g.sessions, op.stream), op.infos.value))
            ==> g' == g
    ensures op.DoRegister? && op.infos.Some? && Acceptable(Session(g.sessions, op.stream), op.infos.value) ==>
              if op.connected && op.infos.value != []
              then op.stream in g'.sessions && g'.sessions - {op.stream} == g.sessions - {op.stream}
              else g'.sessions == g.sessions - {op.stream}
  {
    if op.DoRegister? && op.infos.Some? {
      RegisterExactly(Session(g.sessions, op.stream), op.infos.value);
    }
  }

  lemma {:induction false} SessionStays(run: seq<Registry>, ops: seq<Op>, m: nat, n: nat, r: Stream)
    requires IsRun(run, ops) && m <= n < |run|
    requires forall k :: m <= k < n ==> ops[k].stream != r
    ensures Session(run[n].sessions, r) == Session(run[m].sessions, r)
  {
    if m < n {
      SessionStays(run, ops, m, n - 1, r);
      assert Step(run[n - 1], ops[n - 1], run[n]);
    }
  }

  /** What clients are told of an accepted request of a connected stream, later on, with no further
      request of that stream, no other session of its identity and no harm done before: its node is
      found under exactly the pairs that its entries name, with the weight of the first entry. */
  lemma {:induction false} RegisteredIsShown(run: seq<Registry>, ops: seq<Op>, m: nat, n: nat, r: Stream,
                                             infos: seq<Info>, d: string, c: Cmd)
    requires IsRun(run, ops) && m < n < |run| && infos != []
    requires ops[m] == DoRegister(r, true, Some(infos)) && Gather(Session(run[m].sessions, r), infos).Accepted?
    requires forall k :: m < k < n ==> ops[k].stream != r
    requires forall k :: 0 <= k < n ==> Fits(run[k].sessions, ops[k])
    requires forall q :: q in run[n].sessions && q != r ==>
               r in run[n].sessions && IdOf(run[n].sessions[q].node) != IdOf(run[n].sessions[r].node)
    ensures infos[0].node.Some? && infos[0].node.value.ip.Some? && infos[0].node.value.port.Some?
    ensures var node := infos[0].node.value;
      var id := node.ip.value.addr * 0x1_0000_0000 + node.port.value % 65536;
      var found := Find(run[n].index, d, c, id);
      && (found.Some? <==> exists k :: 0 <= k < |infos| && infos[k].domain == Some(d) && c in infos[k].cmds)
      && (found.Some? ==> node.weight == Some(found.value.weight))
  {
    RegisterExactly(Session(run[m].sessions, r), infos);
    assert Step(run[m], ops[m], run[m + 1]);
    SessionStays(run, ops, m + 1, n, r);
    var client := Gather(Session(run[m].sessions, r), infos).info.value;
    assert Session(run[n].sessions, r) == Some(client);
    QueryAnswers(run, ops, n, r, d, c);
    assert forall k :: 0 <= k < |infos| ==>
             (Names(infos[k], d, c) <==> infos[k].domain == Some(d) && c in infos[k].cmds);
  }

  // ------------------------------------------------------ where the mirror is imperfect

  /** Two sessions under one identity: when either leaves, the other disappears from the pairs
      they shared although it is still registered. */
  lemma SharedIdentityIsLost(x: Index, x': Index, s: Sessions, r: Stream, q: Stream, d: string, c: Cmd)
    requires r in s && q in s && r != q && IdOf(s[r].node) == IdOf(s[q].node)
    requires Listed(s[r].cmds, d, c) && Listed(s[q].cmds, d, c)
    requires IsReplaced(x, x', Session(s, r), None)
    ensures Find(x', d, c, IdOf(s[q].node)) == None && Registered(WithSession(s, r, None), q, d, c, IdOf(s[q].node))
    ensures !Mirrors(x', WithSession(s, r, None))
  {
    var i := IdOf(s[q].node);
    assert Find(x', d, c, i) == Replaced(Find(x, d, c, i), d, c, i, Session(s, r), None);
    assert Registered(WithSession(s, r, None), q, d, c, i);
    assert Recomputed(WithSession(s, r, None), d, c, i).Some?;
    assert !SameEntry(Find(x', d, c, i), Recomputed(WithSession(s, r, None), d, c, i));
  }

  /** Registering again under another spelling of the same address: the pairs kept show the
      new spelling exactly when they already did or the weight changed too. */
  lemma SpellingShownIff(x: Index, x': Index, old': Client, new': Client, d: string, c: Cmd)
    requires IdOf(old'.node) == IdOf(new'.node) && Listed(old'.cmds, d, c) && Listed(new'.cmds, d, c)
    requires Find(x, d, c, IdOf(old'.node)) == Some(old'.node)
    requires IsReplaced(x, x', Some(old'), Some(new'))
    ensures Find(x', d, c, IdOf(new'.node)) == Some(new'.node) <==>
            old'.node == new'.node || old'.node.weight != new'.node.weight
  {
  }

  /** Two entries with all their fields are one identity exactly when `inet_addr` reads the same
      number from their addresses and their ports agree in the low 16 bits. */
  lemma {:induction false} CollideIff(a: NodeMsg, b: NodeMsg)
    requires a.ip.Some? && a.port.Some? && a.weight.Some? && b.ip.Some? && b.port.Some? && b.weight.Some?
    ensures IdOf(NodeFrom(a)) == IdOf(NodeFrom(b)) <==>
            a.ip.value.addr == b.ip.value.addr && a.port.value % TWO_16 == b.port.value % TWO_16
  {
    SplitId(a.ip.value.addr, b.ip.value.addr, a.port.value % TWO_16, b.port.value % TWO_16);
  }

  lemma {:induction false} SplitId(a: nat, b: nat, p: nat, q: nat)
    requires p < TWO_32 && q < TWO_32
    ensures a * TWO_32 + p == b * TWO_32 + q <==> a == b && p == q
    ensures (a * TWO_32 + p) / TWO_32 == a
  {
  }

  /** Of an entry with all its fields and a command, only the address zero is turned away. */
  lemma {:induction false} CompleteIff(e: Info)
    requires e.node.Some? && e.domain.Some? && e.cmds != []
    requires e.node.value.ip.Some? && e.node.value.port.Some? && e.node.value.weight.Some?
    ensures Complete(e) <==> e.node.value.ip.value.addr != 0
  {
    var p := e.node.value.port.value % TWO_16;
    SplitId(e.node.value.ip.value.addr, 0, p, p);
  }

  /** `inet_addr` reads all ones from every malformed address, so the check for 0.0.0.0 lets
      them through, and two of them with one port are one identity. */
  lemma {:induction false} MalformedAddressesCollide(a: string, b: string, port: nat, weight: nat, d: string, c: Cmd)
    requires port < TWO_16
    ensures var e, f := Info(Some(d), [c], Some(NodeMsg(Some(Ip(a, TWO_32 - 1)), Some(port), Some(weight)))),
                        Info(Some(d), [c], Some(NodeMsg(Some(Ip(b, TWO_32 - 1)), Some(port), Some(weight))));
            Complete(e) && Complete(f) && IdOf(NodeFrom(e.node.value)) == IdOf(NodeFrom(f.node.value))
  {
    CompleteIff(Info(Some(d), [c], Some(NodeMsg(Some(Ip(a, TWO_32 - 1)), Some(port), Some(weight)))));
    CompleteIff(Info(Some(d), [c], Some(NodeMsg(Some(Ip(b, TWO_32 - 1)), Some(port), Some(weight)))));
  }
}
