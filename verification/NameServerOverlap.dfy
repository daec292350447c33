/** Two calls of `set` for one stream that overlap (src/ns/NameServerModule.cpp): both read the old
    session before either stores its own, as the source allows by taking its lock for each part. */
module NameServerOverlap {
  import opened Wrappers
  import opened NameServer

  /** The pairs for which replacing `old'` by `new'` writes to the index. */
  predicate Touches(old': Option<Client>, new': Option<Client>, d: string, c: Cmd) {
    || OldLists(old', d, c) != OldLists(new', d, c)
    || (OldLists(old', d, c) && OldLists(new', d, c) && old'.value.node.weight != new'.value.node.weight)
  }

  /** Under identity `i` the index lists exactly the pairs of this client. */
  ghost predicate ListsJust(x: Index, info: Option<Client>, i: Id) {
    forall d, c :: Find(x, d, c, i).Some? <==> OldLists(info, d, c)
  }

  ghost predicate HasId(info: Option<Client>, i: Id) {
    info.Some? ==> IdOf(info.value.node) == i
  }

  lemma {:induction false} ReplacedLists(x: Index, x': Index, old': Option<Client>, new': Option<Client>, i: Id,
                                         d: string, c: Cmd)
    requires HasId(old', i) && HasId(new', i) && IsReplaced(x, x', old', new')
    ensures Find(x', d, c, i).Some? <==>
            if Touches(old', new', d, c) then OldLists(new', d, c) else Find(x, d, c, i).Some?
  {
    assert Find(x', d, c, i) == Replaced(Find(x, d, c, i), d, c, i, old', new');
  }

  /** The index is updated for `a` and then for `b`, both by their differences from the old session;
      the session stored last stays.  Where that is `b`, the index lists its pairs if and only if `b`
      touches every pair that `a` has gained or given up; where it is `a`, if and only if they agree on
      every pair that `b` touches. */
  lemma {:induction false} OverlapIff(x: Index, x1: Index, x2: Index, old': Option<Client>, a: Option<Client>,
                                      b: Option<Client>, i: Id)
    requires HasId(old', i) && HasId(a, i) && HasId(b, i) && ListsJust(x, old', i)
    requires IsReplaced(x, x1, old', a) && IsReplaced(x1, x2, old', b)
    ensures ListsJust(x2, b, i) <==>
            forall d, c :: OldLists(a, d, c) != OldLists(old', d, c) ==> Touches(old', b, d, c)
    ensures ListsJust(x2, a, i) <==>
            forall d, c :: Touches(old', b, d, c) ==> OldLists(b, d, c) == OldLists(a, d, c)
  {
    forall d, c
      ensures Find(x2, d, c, i).Some? <==>
              if Touches(old', b, d, c) then OldLists(b, d, c)
              else if Touches(old', a, d, c) then OldLists(a, d, c) else OldLists(old', d, c)
    {
      ReplacedLists(x, x1, old', a, i, d, c);
      ReplacedLists(x1, x2, old', b, i, d, c);
    }
  }

  /** A client that registers for the first time while its stream is being closed: both calls find no
      old session, the closing one stores last, and the client's pairs stay in the index for good. */
  lemma {:induction false} GoneButListed(x: Index, x1: Index, x2: Index, client: Client, d: string, c: Cmd)
    requires ListsJust(x, None, IdOf(client.node)) && Listed(client.cmds, d, c)
    requires IsReplaced(x, x1, None, Some(client)) && IsReplaced(x1, x2, None, None)
    ensures Find(x2, d, c, IdOf(client.node)) == Some(client.node)
    ensures !ListsJust(x2, None, IdOf(client.node))
  {
    var i := IdOf(client.node);
    assert Find(x1, d, c, i) == Replaced(Find(x, d, c, i), d, c, i, None, Some(client));
    assert Find(x2, d, c, i) == Replaced(Find(x1, d, c, i), d, c, i, None, None);
  }
}
