/** The broadcasting plan of one event type: listeners grouped by subscription and encoding. */
module Broadcaster {
  import opened Outcomes

  datatype ListenerId = ListenerId(value: nat)

  type Connections<C> = map<ListenerId, C>
  type Encodings<E, C> = map<E, Connections<C>>
  type Groups<S, E, C> = map<S, Encodings<E, C>>

  datatype Listener<S, C> = Listener(subscription: S, connection: C)

  /** The listener is in this group. */
  predicate InGroup<S, E, C>(g: Groups<S, E, C>, s: S, e: E, id: ListenerId)
  {
    s in g && e in g[s] && id in g[s][e]
  }

  /** The nested plan holds each listener of the flat map once, in its group, and has no empty group. */
  ghost predicate Refines<S(!new), E(!new), C>(g: Groups<S, E, C>, flat: map<ListenerId, Listener<S, C>>, enc: C -> E)
  {
    Places(g, flat, enc) && NoEmptyGroup(g)
  }

  ghost predicate Places<S(!new), E(!new), C>(g: Groups<S, E, C>, flat: map<ListenerId, Listener<S, C>>, enc: C -> E)
  {
    && (forall s, e, id :: InGroup(g, s, e, id) ==> Placed(g, flat, enc, s, e, id))
    && (forall id :: id in flat ==> InGroup(g, flat[id].subscription, enc(flat[id].connection), id))
  }

  /** The group is the one its listener belongs to, and holds its connection. */
  ghost predicate Placed<S, E, C>(
    g: Groups<S, E, C>, flat: map<ListenerId, Listener<S, C>>, enc: C -> E, s: S, e: E, id: ListenerId)
    requires InGroup(g, s, e, id)
  {
    id in flat && flat[id].subscription == s && enc(flat[id].connection) == e && g[s][e][id] == flat[id].connection
  }

  ghost predicate NoEmptyGroup<S(!new), E(!new), C>(g: Groups<S, E, C>)
  {
    forall s :: s in g ==> g[s] != map[] && forall e :: e in g[s] ==> g[s][e] != map[]
  }

  // ---- removal ----

  /** At most one of the sets holds the listener. */
  ghost predicate AtMostOne<E(!new), C>(sets: Encodings<E, C>, id: ListenerId)
  {
    forall e, e' :: e in sets && e' in sets && id in sets[e] && id in sets[e'] ==> e == e'
  }

  /** What taking the listener out of the set e leaves, returns and reports. */
  ghost predicate TakenFrom<E(!new), C>(
    sets: Encodings<E, C>, id: ListenerId, e: E, sets': Encodings<E, C>, result: Option<C>, emptied: Option<E>)
  {
    && e in sets && id in sets[e]
    && sets' == sets[e := sets[e] - {id}]
    && result == Some(sets[e][id])
    && emptied == if sets[e] - {id} == map[] then Some(e) else None
  }

  /** Takes the listener out of whichever set holds it; reports the set if that left it empty. */
  method RemoveFromSets<E(==, !new), C>(sets: Encodings<E, C>, id: ListenerId)
    returns (sets': Encodings<E, C>, result: Option<C>, emptied: Option<E>)
    requires AtMostOne(sets, id)
    ensures forall e :: e in sets && id in sets[e] ==> TakenFrom(sets, id, e, sets', result, emptied)
    ensures (forall e :: e in sets ==> id !in sets[e]) ==> sets' == sets && result == None && emptied == None
  {
    sets', result, emptied := sets, None, None;
    var todo := sets.Keys;
    while todo != {}
      invariant todo <= sets.Keys
      invariant result.None? ==> sets' == sets && emptied == None && forall e :: e in sets && e !in todo ==> id !in sets[e]
      invariant result.Some? ==> exists e :: e !in todo && TakenFrom(sets, id, e, sets', result, emptied)
    {
      var e :| e in todo;
      todo := todo - {e};
      if id in sets'[e] {
        result := Some(sets'[e][id]);
        sets' := sets'[e := sets'[e] - {id}];
        if sets'[e] == map[] {
          emptied := Some(e);
          break;
        }
      }
    }
  }

  /** The plan without the listener of group (s, e), and without the groups that this empties. */
  function Cleaned<S, E, C>(g: Groups<S, E, C>, s: S, e: E, id: ListenerId): Groups<S, E, C>
    requires InGroup(g, s, e, id)
  {
    var conns := g[s][e] - {id};
    var sets := g[s] - {e};
    if conns != map[] then g[s := g[s][e := conns]]
    else if sets != map[] then g[s := sets]
    else g - {s}
  }

  lemma CleanedGroups<S, E, C>(g: Groups<S, E, C>, s: S, e: E, id: ListenerId, s': S, e': E, id': ListenerId)
    requires InGroup(g, s, e, id)
    ensures InGroup(Cleaned(g, s, e, id), s', e', id') <==> InGroup(g, s', e', id') && (s', e', id') != (s, e, id)
    ensures InGroup(Cleaned(g, s, e, id), s', e', id') ==> Cleaned(g, s, e, id)[s'][e'][id'] == g[s'][e'][id']
  {
    if s' == s && e' == e && id' in g[s][e] && id' != id {
      assert id' in g[s][e] - {id};
    }
    if s' == s && e' != e && e' in g[s] {
      assert e' in g[s] - {e};
    }
  }

  lemma CleanedRefines<S(!new), E(!new), C>(
    g: Groups<S, E, C>, flat: map<ListenerId, Listener<S, C>>, enc: C -> E, id: ListenerId)
    requires Refines(g, flat, enc) && id in flat
    ensures Refines(Cleaned(g, flat[id].subscription, enc(flat[id].connection), id), flat - {id}, enc)
  {
    CleanedPlaces(g, flat, enc, id, flat[id].subscription, enc(flat[id].connection));
    CleanedHasNoEmptyGroup(g, flat[id].subscription, enc(flat[id].connection), id);
  }

  lemma CleanedPlaces<S(!new), E(!new), C>(
    g: Groups<S, E, C>, flat: map<ListenerId, Listener<S, C>>, enc: C -> E, id: ListenerId, s: S, e: E)
    requires Places(g, flat, enc) && id in flat && s == flat[id].subscription && e == enc(flat[id].connection)
    ensures Places(Cleaned(g, s, e, id), flat - {id}, enc)
  {
    var g' := Cleaned(g, s, e, id);
    forall s', e', id' | InGroup(g', s', e', id') ensures Placed(g', flat - {id}, enc, s', e', id') {
      CleanedGroups(g, s, e, id, s', e', id');
    }
    forall id' | id' in flat - {id} ensures InGroup(g', flat[id'].subscription, enc(flat[id'].connection), id') {
      CleanedGroups(g, s, e, id, flat[id'].subscription, enc(flat[id'].connection), id');
    }
  }

  lemma CleanedHasNoEmptyGroup<S(!new), E(!new), C>(g: Groups<S, E, C>, s: S, e: E, id: ListenerId)
    requires NoEmptyGroup(g) && InGroup(g, s, e, id)
    ensures NoEmptyGroup(Cleaned(g, s, e, id))
  {
    var g' := Cleaned(g, s, e, id);
    forall s' | s' in g' ensures g'[s'] != map[] && forall e' :: e' in g'[s'] ==> g'[s'][e'] != map[] {
      if s' == s && g[s][e] - {id} != map[] { assert e in g'[s]; }
    }
  }

  // ---- the search ----

  /** The only group that can hold the listener is its home, and it does. */
  ghost predicate Located<S(!new), E(!new), C>(g: Groups<S, E, C>, id: ListenerId, home: Option<(S, E)>)
  {
    && (forall s, e :: InGroup(g, s, e, id) ==> home == Some((s, e)))
    && (home.Some? ==> InGroup(g, home.value.0, home.value.1, id))
  }

  /** The plan once the listener has left its home, before cleaning. */
  function Dropped<S, E, C>(g: Groups<S, E, C>, s: S, e: E, id: ListenerId): Groups<S, E, C>
    requires InGroup(g, s, e, id)
  {
    g[s := g[s][e := g[s][e] - {id}]]
  }

  /** How far the search has come: the listener not met yet, or taken out of its home. */
  ghost predicate Searched<S(!new), E(!new), C>(
    g: Groups<S, E, C>, id: ListenerId, home: Option<(S, E)>, todo: set<S>,
    g': Groups<S, E, C>, result: Option<C>, found: Option<(S, E)>)
    requires Located(g, id, home)
  {
    if home.None? || home.value.0 in todo then
      g' == g && result == None && found == None
    else
      var (s, e) := home.value;
      && g' == Dropped(g, s, e, id)
      && result == Some(g[s][e][id])
      && found == if g[s][e] - {id} == map[] then home else None
  }

  method Search<S(==, !new), E(==, !new), C>(g: Groups<S, E, C>, id: ListenerId, ghost home: Option<(S, E)>)
    returns (g': Groups<S, E, C>, result: Option<C>, found: Option<(S, E)>)
    requires Located(g, id, home)
    ensures Searched(g, id, home, {}, g', result, found)
  {
    g', result, found := g, None, None;
    var todo := g.Keys;
    while todo != {}
      invariant todo <= g.Keys && g'.Keys == g.Keys
      invariant forall s :: s in todo ==> g'[s] == g[s]
      invariant Searched(g, id, home, todo, g', result, found)
    {
      var s :| s in todo;
      todo := todo - {s};
      SetsOf(g, id, home, s);
      var sets, taken, emptied := RemoveFromSets(g'[s], id);
      if taken.Some? {
        g', result := g'[s := sets], taken;
      }
      if emptied.Some? {
        found := Some((s, emptied.value));
        break;
      }
    }
  }

  lemma SetsOf<S(!new), E(!new), C>(g: Groups<S, E, C>, id: ListenerId, home: Option<(S, E)>, s: S)
    requires Located(g, id, home) && s in g
    ensures AtMostOne(g[s], id)
    ensures home.None? || home.value.0 != s ==> forall e :: e in g[s] ==> id !in g[s][e]
  {
    forall e | e in g[s] && id in g[s][e] ensures home == Some((s, e)) {
      assert InGroup(g, s, e, id);
    }
  }

  /** Drops a set found empty, and its subscription if that leaves none. */
  method CleanUp<S(==, !new), E(==, !new), C>(g: Groups<S, E, C>, found: Option<(S, E)>) returns (g': Groups<S, E, C>)
    requires found.Some? ==> found.value.0 in g
    ensures found.None? ==> g' == g
    ensures found.Some? ==>
      var (s, e) := found.value;
      g' == if g[s] - {e} == map[] then g - {s} else g[s := g[s] - {e}]
  {
    g' := g;
    if found.Some? {
      var (s, e) := found.value;
      g' := g'[s := g'[s] - {e}];
      if |g'[s]| == 0 {
        g' := g' - {s};
      }
    }
  }

  lemma DroppedThenCleaned<S, E, C>(g: Groups<S, E, C>, s: S, e: E, id: ListenerId)
    requires InGroup(g, s, e, id)
    ensures var d := Dropped(g, s, e, id);
            && (g[s][e] - {id} != map[] ==> Cleaned(g, s, e, id) == d)
            && (g[s][e] - {id} == map[] ==>
                 Cleaned(g, s, e, id) == if d[s] - {e} == map[] then d - {s} else d[s := d[s] - {e}])
  {
    var d := Dropped(g, s, e, id);
    assert d[s] - {e} == g[s] - {e};
  }

  lemma HomeIsLocated<S(!new), E(!new), C>(
    g: Groups<S, E, C>, flat: map<ListenerId, Listener<S, C>>, enc: C -> E, id: ListenerId)
    requires Refines(g, flat, enc)
    ensures Located(g, id, if id in flat then Some((flat[id].subscription, enc(flat[id].connection))) else None)
    ensures id in flat ==> g[flat[id].subscription][enc(flat[id].connection)][id] == flat[id].connection
  {
  }

  /** Takes a listener out, wherever it is. */
  method RemoveListener<S(==, !new), E(==, !new), C>(
    g: Groups<S, E, C>, id: ListenerId, ghost flat: map<ListenerId, Listener<S, C>>, ghost enc: C -> E)
    returns (g': Groups<S, E, C>, result: Option<C>)
    requires Refines(g, flat, enc)
    ensures Refines(g', flat - {id}, enc)
    ensures result == if id in flat then Some(flat[id].connection) else None
  {
    HomeIsLocated(g, flat, enc, id);
    ghost var home := if id in flat then Some((flat[id].subscription, enc(flat[id].connection))) else None;
    var found;
    g', result, found := Search(g, id, home);
    g' := CleanUp(g', found);
    if id in flat {
      CleanedRefines(g, flat, enc, id);
      DroppedThenCleaned(g, flat[id].subscription, enc(flat[id].connection), id);
    } else {
      assert flat - {id} == flat;
    }
  }

  // ---- insertion ----

  function Added<S, E, C>(g: Groups<S, E, C>, s: S, e: E, id: ListenerId, c: C): Groups<S, E, C>
  {
    var sets: Encodings<E, C> := if s in g then g[s] else map[];
    var conns: Connections<C> := if e in sets then sets[e] else map[];
    g[s := sets[e := conns[id := c]]]
  }

  lemma AddedGroups<S, E, C>(g: Groups<S, E, C>, s: S, e: E, id: ListenerId, c: C, s': S, e': E, id': ListenerId)
    ensures InGroup(Added(g, s, e, id, c), s', e', id') <==> InGroup(g, s', e', id') || (s', e', id') == (s, e, id)
    ensures InGroup(Added(g, s, e, id, c), s', e', id') ==>
      Added(g, s, e, id, c)[s'][e'][id'] == if (s', e', id') == (s, e, id) then c else g[s'][e'][id']
  {
  }

  lemma AddedRefines<S(!new), E(!new), C>(
    g: Groups<S, E, C>, flat: map<ListenerId, Listener<S, C>>, enc: C -> E, s: S, id: ListenerId, c: C)
    requires Refines(g, flat, enc) && id !in flat
    ensures Refines(Added(g, s, enc(c), id, c), flat[id := Listener(s, c)], enc)
  {
    var g', flat' := Added(g, s, enc(c), id, c), flat[id := Listener(s, c)];
    forall s', e', id' | InGroup(g', s', e', id') ensures Placed(g', flat', enc, s', e', id') {
      AddedGroups(g, s, enc(c), id, c, s', e', id');
    }
    forall id' | id' in flat' ensures InGroup(g', flat'[id'].subscription, enc(flat'[id'].connection), id') {
      AddedGroups(g, s, enc(c), id, c, flat'[id'].subscription, enc(flat'[id'].connection), id');
    }
    AddedHasNoEmptyGroup(g, s, enc(c), id, c);
  }

  lemma AddedHasNoEmptyGroup<S(!new), E(!new), C>(g: Groups<S, E, C>, s: S, e: E, id: ListenerId, c: C)
    requires NoEmptyGroup(g)
    ensures NoEmptyGroup(Added(g, s, e, id, c))
  {
    var g' := Added(g, s, e, id, c);
    assert e in g'[s] && id in g'[s][e];
    forall s' | s' in g' ensures g'[s'] != map[] && forall e' :: e' in g'[s'] ==> g'[s'][e'] != map[] {
      if s' != s { assert g'[s'] == g[s']; }
    }
  }

  /** Puts a listener into its group, after taking it out of any other. */
  method InsertListener<S(==, !new), E(==, !new), C>(
    g: Groups<S, E, C>, s: S, id: ListenerId, c: C, ghost flat: map<ListenerId, Listener<S, C>>, enc: C -> E)
    returns (g': Groups<S, E, C>, previous: Option<C>)
    requires Refines(g, flat, enc)
    ensures Refines(g', flat[id := Listener(s, c)], enc)
    ensures previous == if id in flat then Some(flat[id].connection) else None
  {
    var rest;
    rest, previous := RemoveListener(g, id, flat, enc);
    AddedRefines(rest, flat - {id}, enc, s, id, c);
    Replaced(flat, id, Listener(s, c));
    g' := Added(rest, s, enc(c), id, c);
  }

  lemma Replaced<S, C>(flat: map<ListenerId, Listener<S, C>>, id: ListenerId, l: Listener<S, C>)
    ensures (flat - {id})[id := l] == flat[id := l]
  {
  }

  // ---- sending ----

  datatype SendOutcome = Sent | Refused | Closed

  type Log<M> = seq<(ListenerId, M)>

  /** The log holds one entry for every listener of m, with its message, and no other. */
  ghost predicate Once<M>(log: Log<M>, m: map<ListenerId, M>)
  {
    && (forall i, j :: 0 <= i < j < |log| ==> log[i].0 != log[j].0)
    && (forall i :: 0 <= i < |log| ==> log[i].0 in m && m[log[i].0] == log[i].1)
    && (forall id :: id in m ==> (id, m[id]) in log)
  }

  /** One send for every listener of m, and a purge list of those found closed. */
  ghost predicate Sends<M>(
    log: Log<M>, purge: seq<ListenerId>, m: map<ListenerId, M>, outcome: ListenerId -> SendOutcome)
  {
    Once(log, m) && forall id :: id in purge <==> id in m && outcome(id) == Closed
  }

  lemma OnceAppend<M>(log: Log<M>, m: map<ListenerId, M>, log': Log<M>, m': map<ListenerId, M>)
    requires Once(log, m) && Once(log', m') && m.Keys !! m'.Keys
    ensures Once(log + log', m + m')
  {
    var l := log + log';
    forall i, j | 0 <= i < j < |l| ensures l[i].0 != l[j].0 {
      if i < |log| <= j { assert l[i].0 in m.Keys && l[j].0 in m'.Keys; }
    }
    forall i | 0 <= i < |l| ensures l[i].0 in m + m' && (m + m')[l[i].0] == l[i].1 {
      if i < |log| { assert l[i].0 in m.Keys && l[i].0 !in m'.Keys; }
    }
    forall id | id in m + m' ensures (id, (m + m')[id]) in l {
      if id in m' { assert (id, m'[id]) in log'; } else { assert (id, m[id]) in log; }
    }
  }

  lemma SendsAppend<M>(log: Log<M>, purge: seq<ListenerId>, m: map<ListenerId, M>,
                       log': Log<M>, purge': seq<ListenerId>, m': map<ListenerId, M>, outcome: ListenerId -> SendOutcome)
    requires Sends(log, purge, m, outcome) && Sends(log', purge', m', outcome) && m.Keys !! m'.Keys
    ensures Sends(log + log', purge + purge', m + m', outcome)
  {
    OnceAppend(log, m, log', m');
  }

  lemma SendsOne<M>(id: ListenerId, message: M, outcome: ListenerId -> SendOutcome)
    ensures Sends([(id, message)], if outcome(id) == Closed then [id] else [], map[id := message], outcome)
  {
    var log := [(id, message)];
    assert log[0] == (id, message);
  }

  ghost function Messages<M>(ids: set<ListenerId>, message: M): map<ListenerId, M>
  {
    map id | id in ids :: message
  }

  lemma MessagesStep<M>(ids: set<ListenerId>, todo: set<ListenerId>, id: ListenerId, message: M)
    requires id in todo && todo <= ids
    ensures Messages(ids - todo, message) + map[id := message] == Messages(ids - (todo - {id}), message)
  {
  }

  /** One message to every connection of a set. */
  method SendToConnections<C, M>(conns: Connections<C>, message: M, outcome: ListenerId -> SendOutcome)
    returns (log: Log<M>, purge: seq<ListenerId>)
    ensures Sends(log, purge, Messages(conns.Keys, message), outcome)
  {
    log, purge := [], [];
    var todo := conns.Keys;
    assert conns.Keys - todo == {};
    while todo != {}
      invariant todo <= conns.Keys && Sends(log, purge, Messages(conns.Keys - todo, message), outcome)
    {
      var id :| id in todo;
      SendsOne(id, message, outcome);
      SendsAppend(log, purge, Messages(conns.Keys - todo, message),
                  [(id, message)], if outcome(id) == Closed then [id] else [], map[id := message], outcome);
      MessagesStep(conns.Keys, todo, id, message);
      todo := todo - {id};
      log := log + [(id, message)];
      purge := purge + if outcome(id) == Closed then [id] else [];
    }
    assert conns.Keys - todo == conns.Keys;
  }

  /** How notifications are narrowed to a subscription and encoded. */
  datatype Protocol<!S, !E, !C, !N, !A, !M> = Protocol(encoding: C -> E, apply: (N, S) -> Option<A>, message: (A, E) -> M)

  /** What the listeners of one subscription with one of the encodings are to receive. */
  ghost function ExpectedOf<S, E, C, N, A, M>(
    p: Protocol<S, E, C, N, A, M>, flat: map<ListenerId, Listener<S, C>>, a: A, s: S, encs: set<E>): map<ListenerId, M>
  {
    map id | id in flat && flat[id].subscription == s && p.encoding(flat[id].connection) in encs ::
      p.message(a, p.encoding(flat[id].connection))
  }

  /** What the listeners of the subscriptions are to receive: those whose subscription accepts the notification. */
  ghost function ExpectedIn<S, E, C, N, A, M>(
    p: Protocol<S, E, C, N, A, M>, flat: map<ListenerId, Listener<S, C>>, n: N, subs: set<S>): map<ListenerId, M>
  {
    map id | id in flat && flat[id].subscription in subs && p.apply(n, flat[id].subscription).Some? ::
      p.message(p.apply(n, flat[id].subscription).value, p.encoding(flat[id].connection))
  }

  lemma GroupMembers<S(!new), E(!new), C>(
    g: Groups<S, E, C>, flat: map<ListenerId, Listener<S, C>>, enc: C -> E, s: S, e: E, id: ListenerId)
    requires Refines(g, flat, enc) && s in g && e in g[s]
    ensures id in g[s][e] <==> id in flat && flat[id].subscription == s && enc(flat[id].connection) == e
  {
    assert id in g[s][e] <==> InGroup(g, s, e, id);
  }

  /** At this listener m is split into a and b. */
  ghost predicate PartAt<M>(m: map<ListenerId, M>, a: map<ListenerId, M>, b: map<ListenerId, M>, id: ListenerId)
  {
    && (id in m <==> id in a || id in b) && !(id in a && id in b)
    && (id in a ==> a[id] == m[id]) && (id in b ==> b[id] == m[id])
  }

  lemma Parts<M>(m: map<ListenerId, M>, a: map<ListenerId, M>, b: map<ListenerId, M>)
    requires forall id :: PartAt(m, a, b, id)
    ensures m == a + b && a.Keys !! b.Keys
  {
    forall id ensures (id in m <==> id in a + b) && (id in m ==> m[id] == (a + b)[id]) && !(id in a && id in b) {
      assert PartAt(m, a, b, id);
    }
  }

  lemma EncodingStep<S(!new), E(!new), C, N, A, M>(
    p: Protocol<S, E, C, N, A, M>, g: Groups<S, E, C>, flat: map<ListenerId, Listener<S, C>>, a: A, s: S, e: E, todo: set<E>)
    requires Refines(g, flat, p.encoding) && s in g && e in todo && todo <= g[s].Keys
    ensures var before, more := ExpectedOf(p, flat, a, s, g[s].Keys - todo), Messages(g[s][e].Keys, p.message(a, e));
            ExpectedOf(p, flat, a, s, g[s].Keys - (todo - {e})) == before + more && before.Keys !! more.Keys
  {
    var before, more := ExpectedOf(p, flat, a, s, g[s].Keys - todo), Messages(g[s][e].Keys, p.message(a, e));
    var after := ExpectedOf(p, flat, a, s, g[s].Keys - (todo - {e}));
    forall id ensures PartAt(after, before, more, id) { GroupMembers(g, flat, p.encoding, s, e, id); }
    Parts(after, before, more);
  }

  /** Encodes once per encoding, and sends to every connection with that encoding. */
  method SendToEncodings<S(==, !new), E(==, !new), C, N, A, M>(
    p: Protocol<S, E, C, N, A, M>, g: Groups<S, E, C>, ghost flat: map<ListenerId, Listener<S, C>>, a: A, s: S,
    outcome: ListenerId -> SendOutcome)
    returns (log: Log<M>, purge: seq<ListenerId>)
    requires Refines(g, flat, p.encoding) && s in g
    ensures Sends(log, purge, ExpectedOf(p, flat, a, s, g[s].Keys), outcome)
  {
    log, purge := [], [];
    var todo := g[s].Keys;
    assert ExpectedOf(p, flat, a, s, g[s].Keys - todo) == map[];
    while todo != {}
      invariant todo <= g[s].Keys && Sends(log, purge, ExpectedOf(p, flat, a, s, g[s].Keys - todo), outcome)
    {
      var e :| e in todo;
      var log', purge' := SendToConnections(g[s][e], p.message(a, e), outcome);
      EncodingStep(p, g, flat, a, s, e, todo);
      SendsAppend(log, purge, ExpectedOf(p, flat, a, s, g[s].Keys - todo),
                  log', purge', Messages(g[s][e].Keys, p.message(a, e)), outcome);
      todo := todo - {e};
      log, purge := log + log', purge + purge';
    }
    assert g[s].Keys - todo == g[s].Keys;
  }

  /** A subscription that does not accept the notification adds nothing. */
  lemma SubscriptionSkipped<S(!new), E(!new), C, N, A, M>(
    p: Protocol<S, E, C, N, A, M>, flat: map<ListenerId, Listener<S, C>>, n: N, all: set<S>, s: S, todo: set<S>)
    requires s in todo && todo <= all && p.apply(n, s).None?
    ensures ExpectedIn(p, flat, n, all - (todo - {s})) == ExpectedIn(p, flat, n, all - todo)
  {
  }

  /** One that does adds all its listeners. */
  lemma SubscriptionStep<S(!new), E(!new), C, N, A, M>(
    p: Protocol<S, E, C, N, A, M>, g: Groups<S, E, C>, flat: map<ListenerId, Listener<S, C>>, n: N, s: S, todo: set<S>)
    requires Refines(g, flat, p.encoding) && s in todo && todo <= g.Keys && p.apply(n, s).Some?
    ensures var before := ExpectedIn(p, flat, n, g.Keys - todo);
            var more := ExpectedOf(p, flat, p.apply(n, s).value, s, g[s].Keys);
            ExpectedIn(p, flat, n, g.Keys - (todo - {s})) == before + more && before.Keys !! more.Keys
  {
    var before, more := ExpectedIn(p, flat, n, g.Keys - todo), ExpectedOf(p, flat, p.apply(n, s).value, s, g[s].Keys);
    var after := ExpectedIn(p, flat, n, g.Keys - (todo - {s}));
    forall id ensures PartAt(after, before, more, id) {
      if id in flat { assert InGroup(g, flat[id].subscription, p.encoding(flat[id].connection), id); }
    }
    Parts(after, before, more);
  }

  /** Sends to every listener whose subscription accepts the notification, once, and to no other. */
  method SendToAll<S(==, !new), E(==, !new), C, N, A, M>(
    p: Protocol<S, E, C, N, A, M>, g: Groups<S, E, C>, ghost flat: map<ListenerId, Listener<S, C>>, n: N,
    outcome: ListenerId -> SendOutcome)
    returns (log: Log<M>, purge: seq<ListenerId>)
    requires Refines(g, flat, p.encoding)
    ensures Sends(log, purge, ExpectedIn(p, flat, n, g.Keys), outcome)
  {
    log, purge := [], [];
    var todo := g.Keys;
    assert ExpectedIn(p, flat, n, g.Keys - todo) == map[];
    while todo != {}
      invariant todo <= g.Keys && Sends(log, purge, ExpectedIn(p, flat, n, g.Keys - todo), outcome)
    {
      var s :| s in todo;
      if p.apply(n, s).Some? {
        SubscriptionStep(p, g, flat, n, s, todo);
        var a := p.apply(n, s).value;
        var log', purge' := SendToEncodings(p, g, flat, a, s, outcome);
        SendsAppend(log, purge, ExpectedIn(p, flat, n, g.Keys - todo),
                    log', purge', ExpectedOf(p, flat, a, s, g[s].Keys), outcome);
        log, purge := log + log', purge + purge';
      } else {
        SubscriptionSkipped(p, flat, n, g.Keys, s, todo);
      }
      todo := todo - {s};
    }
    assert g.Keys - todo == g.Keys;
  }

  // ---- the broadcaster ----

  /** One plan per event type; T is the set of event types. */
  class Broadcaster<T(==, !new), S(==, !new), E(==, !new), C, N, A, M> {
    const protocol: Protocol<S, E, C, N, A, M>
    var plan: map<T, Groups<S, E, C>>
    ghost var listeners: map<T, map<ListenerId, Listener<S, C>>>

    ghost predicate Valid()
      reads this
    {
      plan.Keys == listeners.Keys && forall t :: t in plan ==> Refines(plan[t], listeners[t], protocol.encoding)
    }

    constructor (p: Protocol<S, E, C, N, A, M>, events: set<T>)
      ensures Valid() && protocol == p && listeners == map t | t in events :: map[]
    {
      protocol := p;
      plan := map t | t in events :: map[];
      listeners := map t | t in events :: map[];
    }

    /** Registering replaces whatever the listener had for the event. */
    method Register(event: T, subscription: S, id: ListenerId, connection: C) returns (previous: Option<C>)
      requires Valid() && event in plan
      modifies this
      ensures Valid()
      ensures listeners == old(listeners)[event := old(listeners)[event][id := Listener(subscription, connection)]]
      ensures previous == if id in old(listeners)[event] then Some(old(listeners)[event][id].connection) else None
    {
      var g;
      g, previous := InsertListener(plan[event], subscription, id, connection, listeners[event], protocol.encoding);
      plan := plan[event := g];
      listeners := listeners[event := listeners[event][id := Listener(subscription, connection)]];
    }

    method Unregister(event: T, id: ListenerId) returns (removed: Option<C>)
      requires Valid() && event in plan
      modifies this
      ensures Valid()
      ensures listeners == old(listeners)[event := old(listeners)[event] - {id}]
      ensures removed == if id in old(listeners)[event] then Some(old(listeners)[event][id].connection) else None
    {
      var g;
      g, removed := RemoveListener(plan[event], id, listeners[event], protocol.encoding);
      plan := plan[event := g];
      listeners := listeners[event := listeners[event] - {id}];
    }

    /** Sends the notification, then removes the listeners whose connections were found closed. */
    method Broadcast(event: T, n: N, outcome: ListenerId -> SendOutcome) returns (log: Log<M>)
      requires Valid() && event in plan
      modifies this
      ensures Valid()
      ensures Once(log, Expected(protocol, old(listeners)[event], n))
      ensures var flat := old(listeners)[event];
              listeners == old(listeners)[event := flat - ClosedIn(Expected(protocol, flat, n), outcome)]
    {
      ghost var flat := listeners[event];
      var purge;
      log, purge := SendToAll(protocol, plan[event], flat, n, outcome);
      var g := Purge(plan[event], purge, flat, protocol.encoding);
      PurgedIds(purge, Expected(protocol, flat, n), outcome);
      plan := plan[event := g];
      listeners := listeners[event := flat - Ids(purge)];
    }
  }

  /** What every listener is to receive: the narrowed notification in its encoding, if its subscription accepts it. */
  ghost function Expected<S, E, C, N, A, M>(
    p: Protocol<S, E, C, N, A, M>, flat: map<ListenerId, Listener<S, C>>, n: N): map<ListenerId, M>
  {
    map id | id in flat && p.apply(n, flat[id].subscription).Some? ::
      p.message(p.apply(n, flat[id].subscription).value, p.encoding(flat[id].connection))
  }

  ghost function Ids(s: seq<ListenerId>): set<ListenerId>
  {
    set id | id in s
  }

  /** The logged listeners whose connection was found closed. */
  ghost function ClosedIn<M>(m: map<ListenerId, M>, outcome: ListenerId -> SendOutcome): set<ListenerId>
  {
    set id | id in m && outcome(id) == Closed
  }

  /**
   * A listener is to receive something exactly when its subscription accepts the notification, and then the
   * narrowed notification in the encoding of its connection; it is removed exactly when that send found it closed.
   */
  lemma ExpectedMeans<S, E, C, N, A, M>(
    p: Protocol<S, E, C, N, A, M>, flat: map<ListenerId, Listener<S, C>>, n: N, id: ListenerId,
    outcome: ListenerId -> SendOutcome)
    ensures var m := Expected(p, flat, n);
            && (id in m <==> id in flat && p.apply(n, flat[id].subscription).Some?)
            && (id in m ==> m[id] == p.message(p.apply(n, flat[id].subscription).value, p.encoding(flat[id].connection)))
            && (id in ClosedIn(m, outcome) <==> id in m && outcome(id) == Closed)
  {
  }

  lemma PurgedIds<M>(purge: seq<ListenerId>, m: map<ListenerId, M>, outcome: ListenerId -> SendOutcome)
    requires forall id :: id in purge <==> id in m && outcome(id) == Closed
    ensures Ids(purge) == ClosedIn(m, outcome)
  {
  }

  method Purge<S(==, !new), E(==, !new), C>(
    g: Groups<S, E, C>, purge: seq<ListenerId>, ghost flat: map<ListenerId, Listener<S, C>>, ghost enc: C -> E)
    returns (g': Groups<S, E, C>)
    requires Refines(g, flat, enc)
    ensures Refines(g', flat - Ids(purge), enc)
  {
    g' := g;
    ghost var now := flat;
    assert flat - Ids(purge[..0]) == flat;
    for i := 0 to |purge|
      invariant Refines(g', now, enc) && now == flat - Ids(purge[..i])
    {
      var removed;
      g', removed := RemoveListener(g', purge[i], now, enc);
      PurgeStep(flat, purge, i);
      now := now - {purge[i]};
    }
    assert purge[..|purge|] == purge;
  }

  lemma PurgeStep<S, C>(flat: map<ListenerId, Listener<S, C>>, purge: seq<ListenerId>, i: nat)
    requires i < |purge|
    ensures flat - Ids(purge[..i]) - {purge[i]} == flat - Ids(purge[..i + 1])
  {
    assert forall id :: id in purge[..i + 1] <==> id in purge[..i] || id == purge[i];
  }
}
