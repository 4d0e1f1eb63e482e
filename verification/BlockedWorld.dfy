/** A round of handleClientsBlockedOnKeys() as a function of the server's state: who is served, who waits, and
    which keys are left for the next round. */
module BlockedWorld {
  import opened CString
  import opened BlockedIndex

  /** Clients, queues, the keys still to be handled in this round, and those for the next. */
  datatype World = World(clients: Clients, queues: Queues, pending: seq<Key>, ready: seq<Key>)

  function LeaveAll(queues: Queues, c: ClientId): Queues {
    map k | k in queues && Without(queues[k], c) != [] :: Without(queues[k], c)
  }

  function JoinAll(queues: Queues, c: ClientId, keys: set<Key>): Queues {
    map k | k in queues.Keys + keys :: QueueOf(queues, k) + if k in keys then [c] else []
  }

  function Freed(c: Client): Client { Client(c.isModule, None, {}, false) }

  function Unblocked(w: World, c: ClientId): World
    requires c in w.clients
  {
    w.(clients := w.clients[c := Freed(w.clients[c])], queues := LeaveAll(w.queues, c))
  }

  function Waits(c: Client, b: Block): Client { Client(c.isModule, Some(b.btype), KeySet(b.keys), b.onNoKey) }

  function BlockedAgain(w: World, c: ClientId, b: Block): World
    requires c in w.clients
  {
    w.(clients := w.clients[c := Waits(w.clients[c], b)], queues := JoinAll(w.queues, c, KeySet(b.keys)))
  }

  /** Some client is blocked in the way this signal is about, and some client waits for the key. */
  predicate Heard(w: World, g: Signaling) {
    && g.btype.Some?
    && (OfType(w.clients, g.btype.value) != {} || OfType(w.clients, MODULE) != {})
    && (if g.deleted then Wanting(w.clients, QueueOf(w.queues, g.key)) != {} else g.key in w.queues)
  }

  function Signaled(w: World, g: Signaling): World {
    if Heard(w, g) && g.key !in w.pending + w.ready then w.(ready := w.ready + [g.key]) else w
  }

  function SignaledAll(w: World, gs: seq<Signaling>): (r: World)
    ensures r.clients == w.clients && r.queues == w.queues && r.pending == w.pending && w.ready <= r.ready
  {
    if gs == [] then w
    else
      var n := |gs| - 1;
      Signaled(SignaledAll(w, gs[..n]), gs[n])
  }

  function Reacted(w: World, c: ClientId, r: Reaction): World
    requires c in w.clients
  {
    SignaledAll(if r.again.Some? then BlockedAgain(w, c, r.again.value) else w, r.signals)
  }

  /** One client of the queue of a key. */
  function Visited(w: World, c: ClientId, t: Option<BlockType>, r: Reaction): (v: World)
    ensures v.pending == w.pending && w.ready <= v.ready && v.clients.Keys == w.clients.Keys
  {
    if WakesOf(w.clients, c, t) then Reacted(Unblocked(w, c), c, r) else w
  }

  /** The clients that were in the queue, in its order. */
  function Pass(w: World, q: seq<ClientId>, types: seq<Option<BlockType>>, reactions: seq<Reaction>): (v: World)
    requires |q| == |types| == |reactions|
    ensures v.pending == w.pending && w.ready <= v.ready && v.clients.Keys == w.clients.Keys
  {
    if q == [] then w
    else
      var n := |q| - 1;
      Visited(Pass(w, q[..n], types[..n], reactions[..n]), q[n], types[n], reactions[n])
  }

  /** The world after the first clients of the queue. */
  ghost predicate PassedOver(start: World, q: seq<ClientId>, types: seq<Option<BlockType>>, reactions: seq<Reaction>,
                             i: nat, w: World)
  {
    && i <= |q| == |types| == |reactions|
    && w == Pass(start, q[..i], types[..i], reactions[..i])
  }

  lemma PassWhole(w: World, q: seq<ClientId>, types: seq<Option<BlockType>>, reactions: seq<Reaction>, v: World)
    requires PassedOver(w, q, types, reactions, |q|, v)
    ensures v == Pass(w, q, types, reactions)
  {
    assert q[..|q|] == q && types[..|q|] == types && reactions[..|q|] == reactions;
  }

  /** The answers to the `i`-th key of a round: what it holds and how the served clients react. */
  datatype Answers = Answers(types: (int, int) -> Option<BlockType>, reactions: (int, int) -> Reaction)

  function TypesAt(a: Answers, i: nat, n: nat): seq<Option<BlockType>> { seq(n, j => a.types(i, j)) }

  function ReactionsAt(a: Answers, i: nat, n: nat): seq<Reaction> { seq(n, j => a.reactions(i, j)) }

  /** The first pending key is taken off and its queue passed over. */
  function KeyHandled(w: World, i: nat, a: Answers): (v: World)
    requires w.pending != []
    ensures v.pending == w.pending[1..] && w.ready <= v.ready
  {
    var q := QueueOf(w.queues, w.pending[0]);
    Pass(w.(pending := w.pending[1..]), q, TypesAt(a, i, |q|), ReactionsAt(a, i, |q|))
  }

  function KeyServed(w: World, i: nat, a: Answers): seq<ClientId>
    requires w.pending != []
  {
    var q := QueueOf(w.queues, w.pending[0]);
    Served(w.clients, q, TypesAt(a, i, |q|))
  }

  /** The round from its `i`-th key on, and the clients it serves, key by key. */
  function Round(w: World, i: nat, a: Answers): (v: World)
    ensures v.pending == [] && w.ready <= v.ready
    decreases |w.pending|
  {
    if w.pending == [] then w else Round(KeyHandled(w, i, a), i + 1, a)
  }

  function RoundServed(w: World, i: nat, a: Answers): seq<seq<ClientId>>
    decreases |w.pending|
  {
    if w.pending == [] then [] else [KeyServed(w, i, a)] + RoundServed(KeyHandled(w, i, a), i + 1, a)
  }

  /** The world when the `j`-th key of a round comes up. */
  function RoundAt(w: World, a: Answers, j: nat): (v: World)
    requires j <= |w.pending|
    ensures v.pending == w.pending[j..]
  {
    if j == 0 then w else KeyHandled(RoundAt(w, a, j - 1), j - 1, a)
  }

  /** The clients served when the first pending key comes up, by what each of them waits for. */
  ghost predicate ServedOfKey(w: World, a: Answers, i: nat, served: seq<ClientId>)
    requires w.pending != []
  {
    var q := QueueOf(w.queues, w.pending[0]);
    ServesRightly(w.clients, q, TypesAt(a, i, |q|), served) && InOrder(served, q)
  }

  /** So it goes key by key, each in the world it finds. */
  ghost predicate ServedByKey(w: World, a: Answers, served: seq<seq<ClientId>>) {
    |served| <= |w.pending| && forall j :: 0 <= j < |served| ==> ServedOfKey(RoundAt(w, a, j), a, j, served[j])
  }

  /** In the middle of a round: what is handled and served so far, and the world now. */
  ghost predicate InRound(start: World, a: Answers, handled: seq<Key>, served: seq<seq<ClientId>>, w: World) {
    && handled + w.pending == start.pending && |served| == |handled|
    && w == RoundAt(start, a, |handled|)
    && Round(start, 0, a) == Round(w, |handled|, a)
    && RoundServed(start, 0, a) == served + RoundServed(w, |handled|, a)
    && ServedByKey(start, a, served)
  }

  lemma RoundBegins(start: World, a: Answers)
    ensures InRound(start, a, [], [], start)
  {
    hide Round, RoundServed, KeyHandled;
    assert [] + start.pending == start.pending;
    assert [] + RoundServed(start, 0, a) == RoundServed(start, 0, a);
  }

  lemma RoundGoesOn(start: World, a: Answers, handled: seq<Key>, served: seq<seq<ClientId>>, w: World, k: Key,
                    now: seq<ClientId>)
    requires InRound(start, a, handled, served, w) && w.pending != [] && k == w.pending[0]
    requires now == KeyServed(w, |handled|, a) && ServedOfKey(w, a, |handled|, now)
    ensures InRound(start, a, handled + [k], served + [now], KeyHandled(w, |handled|, a))
  {
    hide Round, RoundServed, KeyHandled, KeyServed, ServedOfKey, ServedByKey, RoundAt;
    RoundNext(w, |handled|, a, served);
    OneKeyLess(handled, w.pending, start.pending, k);
    OneKeyMore(start, a, served, w, now);
  }

  lemma OneKeyLess(handled: seq<Key>, pending: seq<Key>, all: seq<Key>, k: Key)
    requires pending != [] && handled + pending == all && k == pending[0]
    ensures handled + [k] + pending[1..] == all && |handled| < |all|
  {
    assert pending == [k] + pending[1..];
  }

  lemma OneKeyMore(w: World, a: Answers, served: seq<seq<ClientId>>, now: World, more: seq<ClientId>)
    requires ServedByKey(w, a, served) && |served| < |w.pending| && now == RoundAt(w, a, |served|) && now.pending != []
    requires ServedOfKey(now, a, |served|, more)
    ensures RoundAt(w, a, |served| + 1) == KeyHandled(now, |served|, a) && ServedByKey(w, a, served + [more])
  {
    hide ServedOfKey, KeyHandled;
  }

  lemma RoundIsOver(start: World, a: Answers, handled: seq<Key>, served: seq<seq<ClientId>>, w: World)
    requires InRound(start, a, handled, served, w) && w.pending == []
    ensures handled == start.pending && w == Round(start, 0, a) && served == RoundServed(start, 0, a)
    ensures |served| == |handled| && ServedByKey(start, a, served)
  {
    hide Round, RoundServed, ServedByKey, RoundAt;
    RoundEnds(w, |handled|, a);
    assert handled + [] == handled && served + [] == served;
  }

  // ----- what is left for the next round -----

  /** Some signal for the key is heard. */
  ghost predicate HeardAmong(w: World, gs: seq<Signaling>, k: Key) {
    exists i :: 0 <= i < |gs| && gs[i].key == k && Heard(w, gs[i])
  }

  lemma HeardAmongMore(w: World, gs: seq<Signaling>, k: Key)
    requires gs != []
    ensures var n := |gs| - 1;
      HeardAmong(w, gs, k) <==> HeardAmong(w, gs[..n], k) || (gs[n].key == k && Heard(w, gs[n]))
  {
    hide Heard;
    var n := |gs| - 1;
    assert forall i :: 0 <= i < n ==> gs[..n][i] == gs[i];
  }

  lemma HeardSame(w: World, v: World, g: Signaling)
    requires w.clients == v.clients && w.queues == v.queues
    ensures Heard(w, g) == Heard(v, g)
  {
  }

  /** A key enters the ready list exactly by a signal that is heard, unless it is waiting already. */
  lemma {:induction false} SignaledReady(w: World, gs: seq<Signaling>, k: Key)
    ensures k in SignaledAll(w, gs).ready <==> k in w.ready || (k !in w.pending && HeardAmong(w, gs, k))
    ensures NoDuplicates(w.pending + w.ready) ==> NoDuplicates(w.pending + SignaledAll(w, gs).ready)
  {
    hide Heard, HeardAmong, NoDuplicates;
    if gs == [] {
      HeardNothing(w, k);
    } else {
      var n := |gs| - 1;
      SignaledReady(w, gs[..n], k);
      var v := SignaledAll(w, gs[..n]);
      HeardSame(w, v, gs[n]);
      HeardAmongMore(w, gs, k);
      if NoDuplicates(w.pending + w.ready) { SignaledOnce(v, gs[n]); }
    }
  }

  lemma HeardNothing(w: World, k: Key)
    ensures !HeardAmong(w, [], k)
  {
  }

  lemma SignaledOnce(v: World, g: Signaling)
    requires NoDuplicates(v.pending + v.ready)
    ensures NoDuplicates(v.pending + Signaled(v, g).ready)
  {
    hide Heard;
    if g.key !in v.pending + v.ready {
      NoDuplicatesAppend(v.pending + v.ready, g.key);
      assert v.pending + v.ready + [g.key] == v.pending + (v.ready + [g.key]);
    }
  }

  /** The world in which the signals of a served client are heard. */
  function Settled(w: World, c: ClientId, r: Reaction): World
    requires c in w.clients
  {
    var u := Unblocked(w, c);
    if r.again.Some? then BlockedAgain(u, c, r.again.value) else u
  }

  /** Visiting a client adds exactly the keys a served one signals with somebody listening. */
  lemma VisitedReady(w: World, c: ClientId, t: Option<BlockType>, r: Reaction, k: Key)
    ensures k in Visited(w, c, t, r).ready <==>
            k in w.ready || (WakesOf(w.clients, c, t) && k !in w.pending && HeardAmong(Settled(w, c, r), r.signals, k))
    ensures NoDuplicates(w.pending + w.ready) ==> NoDuplicates(w.pending + Visited(w, c, t, r).ready)
  {
    hide HeardAmong, NoDuplicates, LeaveAll, JoinAll, Wakes;
    if WakesOf(w.clients, c, t) { SignaledReady(Settled(w, c, r), r.signals, k); }
  }

  ghost predicate Announces(rs: seq<Reaction>, k: Key) {
    exists j, m :: 0 <= j < |rs| && 0 <= m < |rs[j].signals| && rs[j].signals[m].key == k
  }

  lemma {:induction false} PassReady(w: World, q: seq<ClientId>, types: seq<Option<BlockType>>,
                                     reactions: seq<Reaction>, k: Key)
    requires |q| == |types| == |reactions|
    ensures k in Pass(w, q, types, reactions).ready ==> k in w.ready || Announces(reactions, k)
    ensures NoDuplicates(w.pending + w.ready) ==> NoDuplicates(w.pending + Pass(w, q, types, reactions).ready)
  {
    hide Visited, NoDuplicates, Wakes, WakesOf, Settled, Heard, Announces;
    if q != [] {
      var n := |q| - 1;
      var v := Pass(w, q[..n], types[..n], reactions[..n]);
      PassReady(w, q[..n], types[..n], reactions[..n], k);
      VisitedReady(v, q[n], types[n], reactions[n], k);
      AnnouncedMore(reactions, k);
    }
  }

  lemma AnnouncedMore(rs: seq<Reaction>, k: Key)
    requires rs != []
    ensures var n := |rs| - 1;
      Announces(rs[..n], k) || (exists m :: 0 <= m < |rs[n].signals| && rs[n].signals[m].key == k) ==> Announces(rs, k)
  {
    var n := |rs| - 1;
    if Announces(rs[..n], k) {
      var j, m :| 0 <= j < n && 0 <= m < |rs[..n][j].signals| && rs[..n][j].signals[m].key == k;
      assert rs[j].signals[m].key == k;
    }
  }

  /** The answers to some key of the round announce `k`. */
  ghost predicate Announced(a: Answers, k: Key) { exists i: nat, n: nat :: Announces(ReactionsAt(a, i, n), k) }

  /** What is ready after a round was signaled in it, and each such key once; what was ready stays ready. */
  lemma {:induction false} RoundReady(w: World, i: nat, a: Answers, k: Key)
    requires NoDuplicates(w.pending + w.ready)
    ensures k in Round(w, i, a).ready ==> k in w.ready || Announced(a, k)
    ensures NoDuplicates(Round(w, i, a).ready)
    decreases |w.pending|
  {
    hide Pass, Announces, NoDuplicates, ReactionsAt, TypesAt, Served;
    if w.pending == [] {
      assert w.pending + w.ready == w.ready;
    } else {
      var q := QueueOf(w.queues, w.pending[0]);
      var u := w.(pending := w.pending[1..]);
      NoDuplicatesRest(w.pending, w.ready);
      ReactionCount(a, i, |q|);
      PassReady(u, q, TypesAt(a, i, |q|), ReactionsAt(a, i, |q|), k);
      RoundReady(KeyHandled(w, i, a), i + 1, a, k);
    }
  }

  lemma ReactionCount(a: Answers, i: nat, n: nat)
    ensures |ReactionsAt(a, i, n)| == |TypesAt(a, i, n)| == n
  {
  }

  lemma NoDuplicatesRest(p: seq<Key>, r: seq<Key>)
    requires p != [] && NoDuplicates(p + r)
    ensures NoDuplicates(p[1..] + r)
  {
    assert (p + r)[1..] == p[1..] + r;
  }

  lemma QueuesSame(a: Queues, b: Queues)
    requires forall k :: k in a ==> a[k] != []
    requires forall k :: k in b ==> b[k] != []
    requires forall k :: QueueOf(a, k) == QueueOf(b, k)
    ensures a == b
  {
    forall k
      ensures k in a <==> k in b
    {
      assert QueueOf(a, k) == QueueOf(b, k);
    }
    forall k | k in a
      ensures a[k] == b[k]
    {
      assert QueueOf(a, k) == QueueOf(b, k);
    }
  }

  lemma LeftAll(before: Queues, after: Queues, c: ClientId)
    requires forall k :: k in after ==> after[k] != []
    requires forall k :: QueueOf(after, k) == Without(QueueOf(before, k), c)
    ensures after == LeaveAll(before, c)
  {
    var all := LeaveAll(before, c);
    forall k
      ensures QueueOf(all, k) == QueueOf(after, k)
    {
    }
    QueuesSame(after, all);
  }

  lemma JoinedAll(before: Queues, after: Queues, c: ClientId, keys: set<Key>)
    requires forall k :: k in before ==> before[k] != []
    requires forall k :: k in after ==> after[k] != []
    requires forall k :: QueueOf(after, k) == QueueOf(before, k) + if k in keys then [c] else []
    ensures after == JoinAll(before, c, keys)
  {
    var all := JoinAll(before, c, keys);
    forall k
      ensures QueueOf(all, k) == QueueOf(after, k)
    {
    }
    QueuesSame(after, all);
  }

  lemma NeverEmpty(clients: Clients, queues: Queues, noKey: map<Key, nat>)
    requires Core(clients, queues, noKey)
    ensures forall k :: k in queues ==> queues[k] != []
  {
  }

  lemma PassNothing(w: World, q: seq<ClientId>, types: seq<Option<BlockType>>, reactions: seq<Reaction>)
    requires |q| == |types| == |reactions|
    ensures PassedOver(w, q, types, reactions, 0, w)
  {
  }

  lemma PassOneMore(w: World, q: seq<ClientId>, types: seq<Option<BlockType>>, reactions: seq<Reaction>, i: nat,
                    v: World)
    requires |q| == |types| == |reactions| && i < |q| && PassedOver(w, q, types, reactions, i, v)
    ensures PassedOver(w, q, types, reactions, i + 1, Visited(v, q[i], types[i], reactions[i]))
  {
    hide Visited;
    assert q[..i + 1][..i] == q[..i] && types[..i + 1][..i] == types[..i];
    assert reactions[..i + 1][..i] == reactions[..i];
  }

  /** What the counters tell signalKeyAsReadyLogic() about the clients. */
  lemma SignalHeard(clients: Clients, queues: Queues, noKey: map<Key, nat>, byType: map<BlockType, nat>, blocked: nat,
                    g: Signaling, pending: seq<Key>, ready: seq<Key>)
    requires Core(clients, queues, noKey) && Counted(clients, byType, blocked)
    ensures g.btype.Some? ==> g.btype.value in byType && MODULE in byType
    ensures Heard(World(clients, queues, pending, ready), g) <==>
      && g.btype.Some? && (byType[g.btype.value] != 0 || byType[MODULE] != 0)
      && (if g.deleted then g.key in noKey else g.key in queues)
  {
    assert CountOf(noKey, g.key) == |Wanting(clients, QueueOf(queues, g.key))|;
    if g.btype.Some? { assert byType[g.btype.value] == |OfType(clients, g.btype.value)|; }
  }

  lemma ReadyDictIs(dict: set<Key>, pending: seq<Key>, ready: seq<Key>, k: Key)
    requires ReadyIs(dict, pending + ready)
    ensures k in dict <==> k in pending + ready
  {
  }

  lemma RoundNext(w: World, i: nat, a: Answers, served: seq<seq<ClientId>>)
    requires w.pending != []
    ensures Round(w, i, a) == Round(KeyHandled(w, i, a), i + 1, a)
    ensures served + RoundServed(w, i, a)
         == served + [KeyServed(w, i, a)] + RoundServed(KeyHandled(w, i, a), i + 1, a)
  {
    hide KeyHandled, KeyServed;
  }

  lemma RoundEnds(w: World, i: nat, a: Answers)
    requires w.pending == []
    ensures Round(w, i, a) == w && RoundServed(w, i, a) == []
  {
  }

  /** The clients of the queue from the `i`-th on are as they were. */
  ghost predicate Untouched(clients: Clients, all: Clients, q: seq<ClientId>, i: nat) {
    forall j :: i <= j < |q| ==> q[j] in clients && q[j] in all && clients[q[j]] == all[q[j]]
  }

  lemma UntouchedAll(clients: Clients, q: seq<ClientId>)
    requires forall c :: c in q ==> c in clients
    ensures Untouched(clients, clients, q, 0)
  {
  }

  lemma UntouchedAt(clients: Clients, all: Clients, q: seq<ClientId>, i: nat)
    requires Untouched(clients, all, q, i) && i < |q|
    ensures q[i] in clients && q[i] in all && clients[q[i]] == all[q[i]]
  {
  }

  lemma UntouchedNext(before: Clients, after: Clients, all: Clients, q: seq<ClientId>, i: nat)
    requires Untouched(before, all, q, i) && i < |q| && NoDuplicates(q)
    requires forall x :: x in before && x != q[i] ==> x in after && after[x] == before[x]
    ensures Untouched(after, all, q, i + 1)
  {
    hide NoDuplicates;
    NoDuplicatesAt(q, i);
    forall j | i < j < |q|
      ensures q[j] in after && after[q[j]] == before[q[j]]
    {
      assert q[j] == q[i + 1..][j - i - 1];
    }
  }
}
