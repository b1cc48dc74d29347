/** How long an agent's records survive on other relays, while it has a home and once it has been removed. Nothing
    announces a removal, so copies elsewhere are left to expire. */
module Survival {
  import opened Common
  import opened Records
  import opened RegistryModel
  import opened Merge
  import opened Network
  import opened Resurrection

  /** Every registration of `p` in these steps is made at one of `homes`. */
  ghost predicate RegistersOnlyAt(steps: seq<Step>, p: string, homes: set<string>) {
    forall k | 0 <= k < |steps| && steps[k].act.Local? && steps[k].act.op.Register? && steps[k].act.op.peer == p ::
      steps[k].at in homes
  }

  /** When a registration or heartbeat at relay `id` now would expire. */
  function LeaseEnd(w: World, s: System, id: string): Time
    requires id in w.cfgs && id in s.relays
  {
    s.relays[id].clock + w.cfgs[id].ttl
  }

  /** Relay `id` holds `p` only if it is a home, and for no longer than a lease given now. */
  ghost predicate RecordLeased(w: World, s: System, p: string, homes: set<string>, id: string)
    requires id in w.cfgs && id in s.relays
  {
    p in s.relays[id].view.entries ==> id in homes && s.relays[id].view.entries[p].expiresAt <= LeaseEnd(w, s, id)
  }

  /** The message comes from a home and ends no later than a lease given there now. */
  ghost predicate MessageLeased(w: World, s: System, homes: set<string>, m: Registration) {
    m.origin in homes && m.origin in w.cfgs && m.origin in s.relays && m.expiresAt <= LeaseEnd(w, s, m.origin)
  }

  ghost predicate Leased(w: World, s: System, p: string, homes: set<string>) {
    && (forall id | id in w.cfgs && id in s.relays :: RecordLeased(w, s, p, homes, id))
    && (forall m | m in s.net && m.peerID == p :: MessageLeased(w, s, homes, m))
  }

  /** A step that moves no clock back and sends nothing about `p` keeps the messages leased. */
  lemma MessagesStayLeased(w: World, s: System, t: System, p: string, homes: set<string>)
    requires forall m | m in s.net && m.peerID == p :: MessageLeased(w, s, homes, m)
    requires forall id | id in s.relays :: id in t.relays && s.relays[id].clock <= t.relays[id].clock
    requires forall m | m in t.net && m.peerID == p :: m in s.net
    ensures forall m | m in t.net && m.peerID == p :: MessageLeased(w, t, homes, m)
  {
  }

  lemma LeasedLocal(w: World, s: System, id: string, op: LocalOp, p: string, homes: set<string>)
    requires Leased(w, s, p, homes) && id in w.cfgs && id in s.relays
    requires op.Register? && op.peer == p ==> id in homes
    ensures Leased(w, Act(w.cfgs[id], s, id, Local(op)), p, homes)
  {
    var t := Act(w.cfgs[id], s, id, Local(op));
    MessagesStayLeased(w, s, t, p, homes);
    assert RecordLeased(w, s, p, homes, id);
    if p in t.relays[id].view.entries {
      LocalOpOnPeer(w.cfgs[id], s.relays[id].view, op, s.relays[id].clock, p);
    }
    forall h | h in w.cfgs && h in t.relays && h != id ensures RecordLeased(w, t, p, homes, h) {
      assert RecordLeased(w, s, p, homes, h);
    }
  }

  lemma LeasedSend(w: World, s: System, id: string, peer: string, p: string, homes: set<string>)
    requires Leased(w, s, p, homes) && LocalsKeyed(s) && id in w.cfgs && id in s.relays
    ensures Leased(w, Act(w.cfgs[id], s, id, Send(peer)), p, homes)
  {
    var t := Act(w.cfgs[id], s, id, Send(peer));
    assert RecordLeased(w, s, p, homes, id);
    forall m | m in t.net && m.peerID == p ensures MessageLeased(w, t, homes, m) {
      assert m in s.net ==> MessageLeased(w, s, homes, m);
    }
    forall h | h in w.cfgs && h in t.relays ensures RecordLeased(w, t, p, homes, h) {
      assert RecordLeased(w, s, p, homes, h);
    }
  }

  lemma LeasedTick(w: World, s: System, id: string, c: Reading, p: string, homes: set<string>)
    requires Leased(w, s, p, homes) && id in w.cfgs && id in s.relays
    ensures Leased(w, Act(w.cfgs[id], s, id, Tick(c)), p, homes)
  {
    var t := Act(w.cfgs[id], s, id, Tick(c));
    MessagesStayLeased(w, s, t, p, homes);
    forall h | h in w.cfgs && h in t.relays ensures RecordLeased(w, t, p, homes, h) {
      assert RecordLeased(w, s, p, homes, h);
    }
  }

  lemma LeasedReceive(w: World, s: System, id: string, msg: Registration, p: string, homes: set<string>)
    requires Leased(w, s, p, homes) && id in w.cfgs && id in s.relays
    ensures Leased(w, Act(w.cfgs[id], s, id, Receive(msg)), p, homes)
  {
    var t := Act(w.cfgs[id], s, id, Receive(msg));
    MessagesStayLeased(w, s, t, p, homes);
    forall h | h in w.cfgs && h in t.relays ensures RecordLeased(w, t, p, homes, h) {
      assert RecordLeased(w, s, p, homes, h);
    }
  }

  lemma LeasedStep(w: World, s: System, id: string, act: Action, p: string, homes: set<string>)
    requires Leased(w, s, p, homes) && LocalsKeyed(s) && id in w.cfgs && id in s.relays
    requires act.Local? && act.op.Register? && act.op.peer == p ==> id in homes
    ensures Leased(w, Act(w.cfgs[id], s, id, act), p, homes)
  {
    match act
    case Local(op) => LeasedLocal(w, s, id, op, p, homes);
    case Send(peer) => LeasedSend(w, s, id, peer, p, homes);
    case Tick(c) => LeasedTick(w, s, id, c, p, homes);
    case Receive(msg) => LeasedReceive(w, s, id, msg, p, homes);
  }

  lemma {:induction false} AlwaysLeased(w: World, steps: seq<Step>, p: string, homes: set<string>)
    requires w.Valid() && RegistersOnlyAt(steps, p, homes)
    ensures Leased(w, After(w, steps), p, homes)
  {
    if steps != [] {
      var front, step := steps[..|steps| - 1], steps[|steps| - 1];
      AlwaysLeased(w, front, p, homes);
      StoredCameFromNet(w, front);
      RelaysStay(w, front);
      if step.at in w.cfgs { LeasedStep(w, After(w, front), step.at, step.act, p, homes); }
    }
  }

  // ---- Copies of a single home's records ----

  /** What replaces a record from the same home expires no earlier. */
  lemma SuccessorOutlives(w: World, s: System, ttl: Time, p: string, o: string, n: Registration, k: Registration)
    requires OriginInv(s, ttl, p, o) && Leased(w, s, p, {o})
    requires n in s.net && k in s.net && n.peerID == p == k.peerID && Succeeds(n, k)
    ensures k.version <= n.version && k.expiresAt <= n.expiresAt
  {
    assert MessageLeased(w, s, {o}, n) && MessageLeased(w, s, {o}, k);
    LessTotal(n.origin, k.origin);
  }

  /** Once a relay has stored a version of a peer with one home, it shows that version or a newer one for as long as
      the record it stored has not expired: nothing but expiry takes it away. */
  lemma StaysVisible(w: World, steps: seq<Step>, more: seq<Step>, r: string, p: string, o: string, k: Registration)
    requires w.Valid() && o in w.cfgs && SingleHome(steps + more, p, o) && Federated(After(w, steps), r, p, k)
    requires r in After(w, steps + more).relays && !Expired(k, After(w, steps + more).relays[r].clock)
    ensures exists reg :: Shown(After(w, steps + more), r, p, reg) && reg.version >= k.version
  {
    var s := After(w, steps + more);
    GuardedForever(w, steps, more, r, p, k);
    StoredCameFromNet(w, steps);
    StoredCameFromNet(w, steps + more);
    NetGrows(w, steps, more);
    OriginInvHolds(w, steps + more, p, o);
    AlwaysLeased(w, steps + more, p, {o});
    if n :| n in s.net && n.peerID == p && Succeeds(n, k) && Expired(n, s.relays[r].clock) {
      SuccessorOutlives(w, s, w.cfgs[o].ttl, p, o, n, k);
      assert false;
    }
    var f := s.relays[r].view.federated[p];
    assert Federated(s, r, p, f);
    SuccessorOutlives(w, s, w.cfgs[o].ttl, p, o, f, k);
    assert Shown(s, r, p, f);
  }

  // ---- Removed agents ----

  ghost predicate HeldNowhere(s: System, p: string) {
    forall id | id in s.relays :: p !in s.relays[id].view.entries
  }

  /** While no relay accepts `p` again, none holds it, and no message about it is new. */
  lemma {:induction false} NothingNewAbout(w: World, steps: seq<Step>, more: seq<Step>, p: string)
    requires w.Valid() && HeldNowhere(After(w, steps), p) && RegistersOnlyAt(more, p, {})
    ensures HeldNowhere(After(w, steps + more), p)
    ensures forall m | m in After(w, steps + more).net && m.peerID == p :: m in After(w, steps).net
  {
    if more == [] {
      assert steps + more == steps;
    } else {
      var front, step := steps + more[..|more| - 1], more[|more| - 1];
      assert (steps + more)[..|steps + more| - 1] == front;
      NothingNewAbout(w, steps, more[..|more| - 1], p);
      StoredCameFromNet(w, front);
      assert !(step.act.Local? && step.act.op.Register? && step.act.op.peer == p);
    }
  }

  /** Once every home of an agent has dropped it and none accepts it again, no relay whose clock has passed the end of
      the leases the homes could then have given answers it any more, in whatever runs the network continues. */
  lemma RemovedAgentFades(w: World, steps: seq<Step>, more: seq<Step>, p: string, homes: set<string>, r: string,
                          q: Query, limit: int, includeFederated: bool, results: seq<Registration>)
    requires w.Valid() && RegistersOnlyAt(steps, p, homes) && RegistersOnlyAt(more, p, {})
    requires HeldNowhere(After(w, steps), p)
    requires r in After(w, steps + more).relays && q.now == After(w, steps + more).relays[r].clock
    requires forall h | h in homes && h in w.cfgs ::
               h in After(w, steps).relays && LeaseEnd(w, After(w, steps), h) < q.now
    requires IsDiscovery(After(w, steps + more).relays[r].view, q, limit, includeFederated, results)
    ensures p !in PeersIn(results) && Lookup(After(w, steps + more).relays[r].view, p, q.now) == None
  {
    AlwaysLeased(w, steps, p, homes);
    NothingNewAbout(w, steps, more, p);
    StoredCameFromNet(w, steps + more);
    var v := After(w, steps + more).relays[r].view;
    if p in v.federated {
      assert Federated(After(w, steps + more), r, p, v.federated[p]);
      assert Expired(v.federated[p], q.now);
    }
    if i :| 0 <= i < |results| && results[i].peerID == p {
      DiscoveryIsSound(v, q, limit, includeFederated, results);
      DiscoveryPrefersLocal(v, q, limit, includeFederated, results, i);
    }
  }

  /** How what a relay shows of an agent it does not hold itself is answered. */
  lemma ShownIsAnswered(v: View, p: string, q: Query, limit: int, results: seq<Registration>)
    requires p !in v.entries && IsDiscovery(v, q, limit, true, results)
    requires |Matching(v.entries, q) + Unshadowed(v, q, true)| <= EffectiveLimit(limit)
    ensures p in PeersIn(results) <==> p in v.federated && q.Matches(v.federated[p])
    ensures Lookup(v, p, q.now)
            == if p in v.federated && Fresh(v.federated[p], q.now) then Some(v.federated[p]) else None
  {
    DiscoveryIsComplete(v, q, limit, true, results);
  }

  /** Some continuation in which no relay accepts `p` makes `r` show it. */
  ghost predicate CanShowRemoved(w: World, steps: seq<Step>, r: string, p: string) {
    exists more, reg :: RegistersOnlyAt(more, p, {}) && Shown(After(w, steps + more), r, p, reg)
  }

  ghost predicate CanShowRemovedQuietly(w: World, steps: seq<Step>, r: string, p: string) {
    exists more, reg ::
      NoSends(more) && RegistersOnlyAt(more, p, {}) && Shown(After(w, steps + more), r, p, reg)
  }

  lemma RemovedNeedsOutstanding(w: World, steps: seq<Step>, more: seq<Step>, r: string, p: string, reg: Registration)
    requires w.Valid() && r in w.cfgs && HeldNowhere(After(w, steps), p) && RegistersOnlyAt(more, p, {})
    requires Shown(After(w, steps + more), r, p, reg)
    ensures r in After(w, steps).relays && Outstanding(After(w, steps), r, p, reg)
  {
    NothingNewAbout(w, steps, more, p);
    StoredCameFromNet(w, steps + more);
    ClockGrows(w, steps, more, r);
  }

  /** After an agent has been removed everywhere, a relay can come to show it again or still if and only if the network
      carries a message about it that has not expired there and the relay has or in time can have room; for a relay
      that holds it or has room, whatever else is registered and sent meanwhile. */
  lemma RemovedAgentSurvivesExactly(w: World, steps: seq<Step>, r: string, p: string)
    requires w.Valid() && r in w.cfgs && r in After(w, steps).relays && HeldNowhere(After(w, steps), p)
    ensures CanShowRemovedQuietly(w, steps, r, p)
            <==> exists m :: Outstanding(After(w, steps), r, p, m)
                             && RoomWithin(After(w, steps), r, p, w.cfgs[r].maxFederated, m)
    ensures var fed := After(w, steps).relays[r].view.federated;
            p in fed || |fed| < w.cfgs[r].maxFederated
            ==> (CanShowRemoved(w, steps, r, p) <==> exists m :: Outstanding(After(w, steps), r, p, m))
  {
    if more, reg :| NoSends(more) && RegistersOnlyAt(more, p, {}) && Shown(After(w, steps + more), r, p, reg) {
      ShowingNeedsRoom(w, steps, more, r, p, reg);
    }
    if more, reg :| RegistersOnlyAt(more, p, {}) && Shown(After(w, steps + more), r, p, reg) {
      RemovedNeedsOutstanding(w, steps, more, r, p, reg);
    }
    if m :| Outstanding(After(w, steps), r, p, m) && RoomWithin(After(w, steps), r, p, w.cfgs[r].maxFederated, m) {
      var more, reg := ShowIt(w, steps, r, p, m);
      assert NoSends(more) && RegistersOnlyAt(more, p, {});
    }
  }
}
