/** The registry as an object, updated in loops (src/ns/NameServerModule.cpp).  The nested node
    sets are values in one field; a session is replaced as one atomic step. */
module NameServerObjects {
  import opened Wrappers
  import opened NameServer

  function Insert(p: Pairs, d: string, c: Cmd): Pairs {
    p[d := (if d in p then p[d] else {}) + {c}]
  }

  lemma InsertLists(p: Pairs, d: string, c: Cmd)
    ensures forall d', c' :: Listed(Insert(p, d, c), d', c') <==> Listed(p, d', c') || (d' == d && c' == c)
  {
  }

  /** One domain known to both sides: what only the first has, and what both have. */
  method DiffDomain(d: string, mine: set<Cmd>, theirs: set<Cmd>, only0: Pairs, both0: Pairs)
    returns (only: Pairs, both: Pairs)
    ensures forall d', c :: Listed(only, d', c) <==> Listed(only0, d', c) || (d' == d && c in mine && c !in theirs)
    ensures forall d', c :: Listed(both, d', c) <==> Listed(both0, d', c) || (d' == d && c in mine && c in theirs)
    ensures only.Keys <= only0.Keys + {d} && both.Keys <= both0.Keys + {d}
  {
    only, both := only0, both0;
    var todo := mine;
    while todo != {}
      invariant todo <= mine
      invariant forall d', c :: Listed(only, d', c) <==>
              Listed(only0, d', c)
              || (d' == d && c in mine - todo && c !in theirs)
      invariant forall d', c :: Listed(both, d', c) <==>
              Listed(both0, d', c)
              || (d' == d && c in mine - todo && c in theirs)
      invariant only.Keys <= only0.Keys + {d} && both.Keys <= both0.Keys + {d}
      decreases |todo|
    {
      var n :| n in todo;
      if n !in theirs {
        InsertLists(only, d, n);
        only := Insert(only, d, n);
      } else {
        InsertLists(both, d, n);
        both := Insert(both, d, n);
      }
      todo := todo - {n};
    }
  }

  /** One direction of `diff`: the pairs only `mine` lists, and those both list. */
  method DiffOneWay(mine: Pairs, theirs: Pairs) returns (only: Pairs, both: Pairs)
    ensures forall d, c :: Listed(only, d, c) <==> Listed(mine, d, c) && !Listed(theirs, d, c)
    ensures forall d, c :: Listed(both, d, c) <==> Listed(mine, d, c) && Listed(theirs, d, c)
    ensures only.Keys <= mine.Keys && both.Keys <= mine.Keys * theirs.Keys
  {
    only, both := map[], map[];
    var todo := mine.Keys;
    while todo != {}
      invariant todo <= mine.Keys
      invariant forall d, c :: Listed(only, d, c) <==> d !in todo && Listed(mine, d, c) && !Listed(theirs, d, c)
      invariant forall d, c :: Listed(both, d, c) <==> d !in todo && Listed(mine, d, c) && Listed(theirs, d, c)
      invariant only.Keys <= mine.Keys - todo && both.Keys <= (mine.Keys - todo) * theirs.Keys
      decreases |todo|
    {
      var d :| d in todo;
      if d !in theirs {
        only := only[d := mine[d]];
      } else {
        only, both := DiffDomain(d, mine[d], theirs[d], only, both);
      }
      todo := todo - {d};
    }
  }

  /** `dels`, `news` and `comms` split the two sides exactly. */
  method Diff(oldValue: Pairs, newValue: Pairs) returns (dels: Pairs, news: Pairs, comms: Pairs)
    ensures forall d, c :: Listed(dels, d, c) <==> Listed(oldValue, d, c) && !Listed(newValue, d, c)
    ensures forall d, c :: Listed(news, d, c) <==> Listed(newValue, d, c) && !Listed(oldValue, d, c)
    ensures forall d, c :: Listed(comms, d, c) <==> Listed(oldValue, d, c) && Listed(newValue, d, c)
    ensures dels.Keys <= oldValue.Keys && news.Keys <= newValue.Keys && comms.Keys <= oldValue.Keys * newValue.Keys
  {
    dels, comms := DiffOneWay(oldValue, newValue);
    var again: Pairs;
    news, again := DiffOneWay(newValue, oldValue);
  }

  class NameServerModule {
    var domains: Index
    var sessions: Sessions

    constructor ()
      ensures domains == map[] && sessions == map[]
    {
      domains, sessions := map[], map[];
    }

    method RemoveFromDomain(d: string, cmds: set<Cmd>, i: Id)
      modifies this`domains
      ensures forall d', c, i' :: Find(domains, d', c, i') ==
                                  if d' == d && c in cmds && i' == i then None else Find(old(domains), d', c, i')
      ensures Tidy(old(domains)) ==> Tidy(domains)
    {
      if d !in domains {
        return;
      }
      var todo := cmds;
      while todo != {}
        invariant todo <= cmds
        invariant forall d', c, i' :: Find(domains, d', c, i') ==
                                      if d' == d && c in cmds - todo && i' == i
                                      then None else Find(old(domains), d', c, i')
        invariant Tidy(old(domains)) ==> Tidy(domains)
        decreases |todo|
      {
        var c :| c in todo;
        DelFinds(domains, d, c, i);
        domains := Del(domains, d, c, i);
        todo := todo - {c};
      }
    }

    method RemovePairs(pairs: Pairs, i: Id)
      modifies this`domains
      ensures forall d, c, i' :: Find(domains, d, c, i') ==
                                 if Listed(pairs, d, c) && i' == i then None else Find(old(domains), d, c, i')
      ensures Tidy(old(domains)) ==> Tidy(domains)
    {
      var todo := pairs.Keys;
      while todo != {}
        invariant todo <= pairs.Keys
        invariant forall d, c, i' :: Find(domains, d, c, i') ==
                                     if d !in todo && Listed(pairs, d, c) && i' == i
                                     then None else Find(old(domains), d, c, i')
        invariant Tidy(old(domains)) ==> Tidy(domains)
        decreases |todo|
      {
        var d :| d in todo;
        RemoveFromDomain(d, pairs[d], i);
        todo := todo - {d};
      }
    }

    method AddToDomain(d: string, cmds: set<Cmd>, n: Node)
      modifies this`domains
      ensures forall d', c, i :: Find(domains, d', c, i) ==
                                 if d' == d && c in cmds && i == IdOf(n) then Some(n) else Find(old(domains), d', c, i)
      ensures Tidy(old(domains)) ==> Tidy(domains)
    {
      if d !in domains {
        domains := domains[d := map[]];
      }
      var todo := cmds;
      while todo != {}
        invariant todo <= cmds
        invariant forall d', c, i :: Find(domains, d', c, i) ==
                                     if d' == d && c in cmds - todo && i == IdOf(n)
                                     then Some(n) else Find(old(domains), d', c, i)
        invariant Tidy(old(domains)) ==> Tidy(domains)
        decreases |todo|
      {
        var c :| c in todo;
        AddFinds(domains, d, c, n);
        domains := Add(domains, d, c, n);
        todo := todo - {c};
      }
    }

    method AddPairs(pairs: Pairs, n: Node)
      modifies this`domains
      ensures forall d, c, i :: Find(domains, d, c, i) ==
                                if Listed(pairs, d, c) && i == IdOf(n) then Some(n) else Find(old(domains), d, c, i)
      ensures Tidy(old(domains)) ==> Tidy(domains)
    {
      var todo := pairs.Keys;
      while todo != {}
        invariant todo <= pairs.Keys
        invariant forall d, c, i :: Find(domains, d, c, i) ==
                                    if d !in todo && Listed(pairs, d, c) && i == IdOf(n)
                                    then Some(n) else Find(old(domains), d, c, i)
        invariant Tidy(old(domains)) ==> Tidy(domains)
        decreases |todo|
      {
        var d :| d in todo;
        AddToDomain(d, pairs[d], n);
        todo := todo - {d};
      }
    }

    /** `set`; `connected` is the state of the stream. */
    method Set(r: Stream, info: Option<Client>, connected: bool)
      modifies this
      ensures var info' := if connected then info else None;
              && IsReplaced(old(domains), domains, Session(old(sessions), r), info')
              && sessions == WithSession(old(sessions), r, info')
      ensures Tidy(old(domains)) ==> Tidy(domains)
    {
      var info' := if connected then info else None;
      var old' := Session(sessions, r);
      var oldV := if old'.Some? then old'.value.cmds else map[];
      var newV := if info'.Some? then info'.value.cmds else map[];
      var dels, news, comms := Diff(oldV, newV);
      if old'.Some? {
        RemovePairs(dels, IdOf(old'.value.node));
      }
      if info'.Some? {
        AddPairs(news, info'.value.node);
      }
      if comms != map[] {
        var d :| d in comms.Keys;
        if old'.value.node.weight != info'.value.node.weight {
          AddPairs(comms, info'.value.node);
        }
      }
      sessions := WithSession(sessions, r, info');
    }

    /** `handleRegister`; None stands for a body that does not parse. */
    method HandleRegister(r: Stream, connected: bool, request: Option<seq<Info>>) returns (ok: bool)
      modifies this
      ensures Step(Registry(old(domains), old(sessions)), DoRegister(r, connected, request),
              Registry(domains, sessions))
      ensures ok == (request.Some? && Gather(Session(old(sessions), r), request.value).Accepted?)
    {
      if request == None {
        return false;
      }
      var infos := request.value;
      var old' := Session(sessions, r);
      var fresh' := None;
      var k := 0;
      while k < |infos|
        invariant k <= |infos|
        invariant Gather(old', infos[..k]) == Accepted(fresh')
        invariant domains == old(domains) && sessions == old(sessions)
      {
        assert infos[..k + 1][..k] == infos[..k];
        match Next(old', fresh', infos[k]) {
          case Rejected =>
            RejectedForGood(old', infos, k + 1);
            return false;
          case Accepted(info) =>
            fresh' := info;
        }
        k := k + 1;
      }
      assert infos[..k] == infos;
      Set(r, fresh', connected);
      return true;
    }

    method OnDisconnect(r: Stream, connected: bool)
      modifies this
      ensures Step(Registry(old(domains), old(sessions)), DoDisconnect(r), Registry(domains, sessions))
    {
      Set(r, None, connected);
    }
  }

  lemma {:induction false} RejectedForGood(old': Option<Client>, infos: seq<Info>, k: nat)
    requires k <= |infos| && Gather(old', infos[..k]).Rejected?
    ensures Gather(old', infos).Rejected?
    decreases |infos| - k
  {
    if k == |infos| {
      assert infos[..k] == infos;
    } else {
      assert infos[..k + 1][..k] == infos[..k];
      RejectedForGood(old', infos, k + 1);
    }
  }
}
