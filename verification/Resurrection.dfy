/** When a version of a peer that a relay has already superseded can become visible there again: evictions
    forget versions, and the network may deliver anything it has ever carried. */
module Resurrection {
  import opened Common
  import opened Records
  import opened RegistryModel
  import opened Merge
  import opened Network

  /** `n` is `k`, or replaces it. */
  predicate Succeeds(n: Registration, k: Registration) {
    n == k || Beats(n, k)
  }

  lemma SucceedsTransitive(a: Registration, b: Registration, c: Registration)
    requires Succeeds(a, b) && Succeeds(b, c)
    ensures Succeeds(a, c)
  {
    BeatsIsStrictTotalOrder(a, b, c);
  }

  /** Relay `r`, having once stored `k`, still stores a successor of it, or one has expired at its clock. */
  ghost predicate Guarded(s: System, r: string, p: string, k: Registration) {
    && r in s.relays
    && (|| (p in s.relays[r].view.federated && Succeeds(s.relays[r].view.federated[p], k))
        || exists n :: n in s.net && n.peerID == p && Succeeds(n, k) && Expired(n, s.relays[r].clock))
  }

  lemma GuardedStep(cfg: Config, s: System, id: string, act: Action, r: string, p: string, k: Registration)
    requires OnlySnapshotsStored(s) && id in s.relays && Guarded(s, r, p, k)
    ensures Guarded(Act(cfg, s, id, act), r, p, k)
  {
    var t := Act(cfg, s, id, act);
    if n :| n in s.net && n.peerID == p && Succeeds(n, k) && Expired(n, s.relays[r].clock) {
      assert n in t.net && Expired(n, t.relays[r].clock);
    } else {
      var f := s.relays[r].view.federated[p];
      assert Federated(s, r, p, f);
      if act.Receive? && Beats(act.msg, f) { SucceedsTransitive(act.msg, f, k); }
    }
  }

  /** In every run, with no assumption on homes, clocks or lifetimes. */
  lemma {:induction false} GuardedForever(w: World, steps: seq<Step>, more: seq<Step>, r: string, p: string,
                                          k: Registration)
    requires w.Valid() && Guarded(After(w, steps), r, p, k)
    ensures Guarded(After(w, steps + more), r, p, k)
  {
    if more == [] {
      assert steps + more == steps;
    } else {
      var front, step := steps + more[..|more| - 1], more[|more| - 1];
      assert (steps + more)[..|steps + more| - 1] == front;
      GuardedForever(w, steps, more[..|more| - 1], r, p, k);
      StoredCameFromNet(w, front);
      RelaysStay(w, front);
      if step.at in w.cfgs {
        GuardedStep(w.cfgs[step.at], After(w, front), step.at, step.act, r, p, k);
      }
    }
  }

  /** The messages about `p` expire in the order of their versions. */
  ghost predicate ExpireInOrder(s: System, p: string) {
    forall m, n | m in s.net && n in s.net && m.peerID == p == n.peerID ::
      m.version < n.version ==> m.expiresAt <= n.expiresAt
  }

  /** While all messages about a peer expire in version order, from however many relays they come, no relay ever
      shows a version older than one it has stored. */
  lemma OrderedNeverResurrects(w: World, steps: seq<Step>, more: seq<Step>, r: string, p: string,
                               stored: Registration, visible: Registration)
    requires w.Valid() && ExpireInOrder(After(w, steps + more), p)
    requires Federated(After(w, steps), r, p, stored)
    requires Federated(After(w, steps + more), r, p, visible)
    requires !Expired(visible, After(w, steps + more).relays[r].clock)
    ensures visible.version >= stored.version
  {
    GuardedForever(w, steps, more, r, p, stored);
    StoredCameFromNet(w, steps + more);
  }

  /** A peer that registers at one relay only, under a fixed lifetime, is such a peer: once a relay has stored a
      version of it, no older version is ever visible there again. */
  lemma NoStaleResurrection(w: World, steps: seq<Step>, more: seq<Step>, r: string, p: string, o: string,
                            stored: Registration, visible: Registration)
    requires w.Valid() && o in w.cfgs && SingleHome(steps + more, p, o)
    requires Federated(After(w, steps), r, p, stored)
    requires Federated(After(w, steps + more), r, p, visible)
    requires !Expired(visible, After(w, steps + more).relays[r].clock)
    ensures visible.version >= stored.version
  {
    OriginInvHolds(w, steps + more, p, o);
    OrderedNeverResurrects(w, steps, more, r, p, stored, visible);
  }

  /** So no discovery at `r`, in any iteration order, ever answers `p` from an older version again. */
  lemma NoStaleDiscovery(w: World, steps: seq<Step>, more: seq<Step>, r: string, p: string, o: string,
                         stored: Registration, q: Query, limit: int, results: seq<Registration>, i: nat)
    requires w.Valid() && o in w.cfgs && SingleHome(steps + more, p, o)
    requires Federated(After(w, steps), r, p, stored)
    requires var s := After(w, steps + more);
             r in s.relays && q.now == s.relays[r].clock && IsDiscovery(s.relays[r].view, q, limit, true, results)
    requires i < |results| && results[i].peerID == p
    ensures results[i].version >= stored.version
  {
    var s := After(w, steps + more);
    var v := s.relays[r].view;
    DiscoveryIsSound(v, q, limit, true, results);
    DiscoveryPrefersLocal(v, q, limit, true, results, i);
    if p in Matching(v.entries, q) {
      OriginInvHolds(w, steps + more, p, o);
      StoredCameFromNet(w, steps);
      NetGrows(w, steps, more);
      assert Newest(v.entries[p], w.cfgs[o].ttl, stored);
    } else {
      NoStaleResurrection(w, steps, more, r, p, o, stored, results[i]);
    }
  }

  // ---- Exactly when a relay can show a peer ----

  /** The first reading, no earlier than `clock`, at which `n` has expired. */
  function AfterExpiry(n: Registration, clock: Reading): Time {
    if n.expiresAt < clock then clock else n.expiresAt + 1
  }

  /** A clock now reading `clock` can come to an instant at which `n` has expired and `m` has not. */
  predicate CanOutlive(m: Registration, n: Registration, clock: Reading) {
    AfterExpiry(n, clock) <= m.expiresAt && AfterExpiry(n, clock) < 0x8000_0000_0000_0000
  }

  /** Relay `r` holds `p`, has room for it, or can have made room while `m` has not expired: by the expiry of a
      message for a peer it holds. */
  ghost predicate RoomWithin(s: System, r: string, p: string, cap: int, m: Registration)
    requires r in s.relays
  {
    var fed := s.relays[r].view.federated;
    p in fed || |fed| < cap
    || exists g :: g in s.net && g.peerID in fed && Succeeds(g, fed[g.peerID]) && CanOutlive(m, g, s.relays[r].clock)
  }

  /** Relay `r` stores this record of `p`, and it has not expired there. */
  ghost predicate Shown(s: System, r: string, p: string, reg: Registration) {
    Federated(s, r, p, reg) && !Expired(reg, s.relays[r].clock)
  }

  /** A message about `p` that has not expired by the clock of `r`. */
  ghost predicate Outstanding(s: System, r: string, p: string, m: Registration)
    requires r in s.relays
  {
    m in s.net && m.peerID == p && !Expired(m, s.relays[r].clock)
  }

  ghost predicate CanShow(w: World, steps: seq<Step>, r: string, p: string) {
    exists more, reg :: NoSends(more) && Shown(After(w, steps + more), r, p, reg)
  }

  lemma ReceiveStep(w: World, steps: seq<Step>, r: string, msg: Registration)
    requires w.Valid() && r in w.cfgs && msg in After(w, steps).net
    ensures var s, t := After(w, steps), After(w, steps + [Step(r, Receive(msg))]);
            && r in s.relays && r in t.relays && t.net == s.net && t.relays[r].clock == s.relays[r].clock
            && t.relays[r].view.federated == MergeOne(s.relays[r].view.federated, msg, w.cfgs[r].maxFederated)
  {
    RelaysStay(w, steps);
    OneMoreStep(w, steps, Step(r, Receive(msg)));
  }

  lemma EvictAtStep(w: World, steps: seq<Step>, r: string, c: Reading)
    requires w.Valid() && r in w.cfgs && r in After(w, steps).relays && After(w, steps).relays[r].clock <= c
    ensures var s, t := After(w, steps), After(w, steps + [Step(r, Tick(c)), Step(r, Local(EvictExpired))]);
            && r in t.relays && t.net == s.net && t.relays[r].clock == c
            && t.relays[r].view.federated == Alive(s.relays[r].view.federated, c)
  {
    OneMoreStep(w, steps, Step(r, Tick(c)));
    OneMoreStep(w, steps + [Step(r, Tick(c))], Step(r, Local(EvictExpired)));
    assert steps + [Step(r, Tick(c))] + [Step(r, Local(EvictExpired))]
        == steps + [Step(r, Tick(c)), Step(r, Local(EvictExpired))];
  }

  lemma JoinPassive(steps: seq<Step>, a: seq<Step>, b: seq<Step>)
    requires Passive(a) && Passive(b)
    ensures Passive(a + b) && steps + a + b == steps + (a + b)
  {
  }

  /** Evicting a stored record makes room. */
  lemma EvictPeer(w: World, steps: seq<Step>, r: string, p: string, c: Reading) returns (b: seq<Step>)
    requires w.Valid() && r in w.cfgs && r in After(w, steps).relays && p in After(w, steps).relays[r].view.federated
    requires After(w, steps).relays[r].clock <= c && Expired(After(w, steps).relays[r].view.federated[p], c)
    ensures Passive(b)
    ensures var s, t := After(w, steps), After(w, steps + b);
            && r in t.relays && t.net == s.net && t.relays[r].clock == c
            && t.relays[r].view.federated.Keys <= s.relays[r].view.federated.Keys - {p}
            && |t.relays[r].view.federated| < w.cfgs[r].maxFederated
  {
    b := [Step(r, Tick(c)), Step(r, Local(EvictExpired))];
    NeverOverCapacity(w, steps, r);
    EvictAtStep(w, steps, r, c);
    var fed := After(w, steps).relays[r].view.federated;
    assert Alive(fed, c).Keys <= fed.Keys - {p};
    SubsetOfSize(Alive(fed, c).Keys, fed.Keys - {p});
  }

  /** A relay that takes `n` (in steps `a`) and then lets it expire and evicts it (in steps `b`) has room again, and
      nothing stored for the peer. */
  lemma StoreThenEvict(w: World, steps: seq<Step>, r: string, n: Registration, c: Reading)
    returns (a: seq<Step>, b: seq<Step>)
    requires w.Valid() && r in w.cfgs && r in After(w, steps).relays && n in After(w, steps).net
    requires var fed := After(w, steps).relays[r].view.federated;
             if n.peerID in fed then Succeeds(n, fed[n.peerID]) else |fed| < w.cfgs[r].maxFederated
    requires After(w, steps).relays[r].clock <= c && n.expiresAt < c
    ensures Passive(a) && Passive(b) && Federated(After(w, steps + a), r, n.peerID, n)
    ensures var s, t := After(w, steps), After(w, steps + a + b);
            && r in t.relays && t.net == s.net && t.relays[r].clock == c
            && t.relays[r].view.federated.Keys <= s.relays[r].view.federated.Keys - {n.peerID}
            && |t.relays[r].view.federated| < w.cfgs[r].maxFederated
  {
    a := [Step(r, Receive(n))];
    ReceiveStep(w, steps, r, n);
    b := EvictPeer(w, steps + a, r, n.peerID, c);
  }

  lemma ThenShow(w: World, steps: seq<Step>, r: string, m: Registration) returns (b: seq<Step>)
    requires w.Valid() && r in w.cfgs && r in After(w, steps).relays && m in After(w, steps).net
    requires var fed := After(w, steps).relays[r].view.federated;
             m.peerID !in fed && |fed| < w.cfgs[r].maxFederated
    requires !Expired(m, After(w, steps).relays[r].clock)
    ensures Passive(b) && Shown(After(w, steps + b), r, m.peerID, m)
  {
    b := [Step(r, Receive(m))];
    ReceiveStep(w, steps, r, m);
  }

  /** Some expiry makes room at a full relay while `m` lasts. */
  lemma MakeRoom(w: World, steps: seq<Step>, r: string, p: string, m: Registration) returns (pre: seq<Step>)
    requires w.Valid() && r in w.cfgs && r in After(w, steps).relays && m in After(w, steps).net && m.peerID == p
    requires var fed := After(w, steps).relays[r].view.federated; p !in fed && |fed| >= w.cfgs[r].maxFederated
    requires RoomWithin(After(w, steps), r, p, w.cfgs[r].maxFederated, m)
    ensures Passive(pre)
    ensures var s, t := After(w, steps), After(w, steps + pre);
            && r in t.relays && t.net == s.net && s.relays[r].clock <= t.relays[r].clock <= m.expiresAt
            && p !in t.relays[r].view.federated && |t.relays[r].view.federated| < w.cfgs[r].maxFederated
  {
    var s := After(w, steps);
    var fed := s.relays[r].view.federated;
    var g :| g in s.net && g.peerID in fed && Succeeds(g, fed[g.peerID]) && CanOutlive(m, g, s.relays[r].clock);
    var a, evict := StoreThenEvict(w, steps, r, g, AfterExpiry(g, s.relays[r].clock));
    JoinPassive(steps, a, evict);
    pre := a + evict;
  }

  lemma ShowIt(w: World, steps: seq<Step>, r: string, p: string, m: Registration)
    returns (more: seq<Step>, reg: Registration)
    requires w.Valid() && r in w.cfgs && r in After(w, steps).relays && Outstanding(After(w, steps), r, p, m)
    requires RoomWithin(After(w, steps), r, p, w.cfgs[r].maxFederated, m)
    ensures Passive(more) && Shown(After(w, steps + more), r, p, reg)
  {
    var s := After(w, steps);
    var fed := s.relays[r].view.federated;
    var pre: seq<Step> := [];
    assert steps + pre == steps;
    if p in fed && !Expired(fed[p], s.relays[r].clock) {
      return [], fed[p];
    } else if p in fed {
      pre := EvictPeer(w, steps, r, p, s.relays[r].clock);
    } else if |fed| >= w.cfgs[r].maxFederated {
      pre := MakeRoom(w, steps, r, p, m);
    }
    var show := ThenShow(w, steps + pre, r, m);
    JoinPassive(steps, pre, show);
    more, reg := pre + show, m;
  }

  /** A full relay that has come to store a new peer has let some other expire. */
  lemma RoomWasMade(w: World, steps: seq<Step>, a: seq<Step>, r: string, p: string) returns (g: Registration)
    requires w.Valid() && r in w.cfgs && NoSends(a) && r in After(w, steps).relays && r in After(w, steps + a).relays
    requires p !in After(w, steps).relays[r].view.federated && p in After(w, steps + a).relays[r].view.federated
    requires |After(w, steps).relays[r].view.federated| >= w.cfgs[r].maxFederated
    ensures var s := After(w, steps);
            && g in s.net && g.peerID in s.relays[r].view.federated
            && Succeeds(g, s.relays[r].view.federated[g.peerID]) && Expired(g, After(w, steps + a).relays[r].clock)
  {
    var fed, later := After(w, steps).relays[r].view.federated, After(w, steps + a).relays[r].view.federated;
    NeverOverCapacity(w, steps + a, r);
    if fed.Keys <= later.Keys { SubsetOfSize(fed.Keys + {p}, later.Keys); }
    var q :| q in fed && q !in later;
    GuardedForever(w, steps, a, r, q, fed[q]);
    QuietNet(w, steps, a);
    g :| g in After(w, steps).net && g.peerID == q && Succeeds(g, fed[q])
         && Expired(g, After(w, steps + a).relays[r].clock);
  }

  lemma ShowingNeedsRoom(w: World, steps: seq<Step>, more: seq<Step>, r: string, p: string, reg: Registration)
    requires w.Valid() && r in w.cfgs && NoSends(more) && Shown(After(w, steps + more), r, p, reg)
    ensures r in After(w, steps).relays && Outstanding(After(w, steps), r, p, reg)
    ensures RoomWithin(After(w, steps), r, p, w.cfgs[r].maxFederated, reg)
  {
    QuietNet(w, steps, more);
    ClockGrows(w, steps, more, r);
    StoredCameFromNet(w, steps + more);
    var s := After(w, steps);
    if p !in s.relays[r].view.federated && |s.relays[r].view.federated| >= w.cfgs[r].maxFederated {
      var g := RoomWasMade(w, steps, more, r, p);
      assert CanOutlive(reg, g, s.relays[r].clock);
    }
  }

  /** In any state of any run, and with nothing more being sent, a relay can come to show a peer if and only if the
      network carries a message about it that has not expired there and the relay has or in time can have room. */
  lemma CanShowExactly(w: World, steps: seq<Step>, r: string, p: string)
    requires w.Valid() && r in w.cfgs && r in After(w, steps).relays
    ensures CanShow(w, steps, r, p)
            <==> exists m :: Outstanding(After(w, steps), r, p, m)
                             && RoomWithin(After(w, steps), r, p, w.cfgs[r].maxFederated, m)
  {
    if more, reg :| NoSends(more) && Shown(After(w, steps + more), r, p, reg) {
      ShowingNeedsRoom(w, steps, more, r, p, reg);
    }
    if m :| Outstanding(After(w, steps), r, p, m) && RoomWithin(After(w, steps), r, p, w.cfgs[r].maxFederated, m) {
      var more, reg := ShowIt(w, steps, r, p, m);
      assert NoSends(more);
    }
  }

  // ---- Exactly when an older version can come back ----

  /** Among the messages there is an older version `m` that can outlive a newer one `n`, and `n` replaces or
      repeats what `r` stores for `p`, if it stores anything. */
  ghost predicate Threat(s: System, r: string, p: string, m: Registration, n: Registration)
    requires r in s.relays
  {
    && m in s.net && n in s.net && m.peerID == p == n.peerID && m.version < n.version
    && (p in s.relays[r].view.federated ==> Succeeds(n, s.relays[r].view.federated[p]))
    && CanOutlive(m, n, s.relays[r].clock)
  }

  /** At the end of the run `r` shows an older version than it stored after the first `j` steps. */
  ghost predicate Resurrects(w: World, run: seq<Step>, j: nat, r: string, p: string,
                             stored: Registration, visible: Registration)
  {
    && j <= |run| && Federated(After(w, run[..j]), r, p, stored)
    && Shown(After(w, run), r, p, visible) && visible.version < stored.version
  }

  /** Some continuation in which nothing new is sent makes `r` show an older version than one it has ever stored. */
  ghost predicate CanResurrect(w: World, steps: seq<Step>, r: string, p: string) {
    exists more, j, stored, visible :: NoSends(more) && Resurrects(w, steps + more, j, r, p, stored, visible)
  }

  lemma ThreatWithRoom(w: World, steps: seq<Step>, r: string, p: string, m: Registration, n: Registration)
    returns (more: seq<Step>, j: nat)
    requires w.Valid() && r in w.cfgs && r in After(w, steps).relays
    requires var fed := After(w, steps).relays[r].view.federated; p in fed || |fed| < w.cfgs[r].maxFederated
    requires Threat(After(w, steps), r, p, m, n)
    ensures Passive(more) && Resurrects(w, steps + more, j, r, p, n, m)
  {
    var a, evict := StoreThenEvict(w, steps, r, n, AfterExpiry(n, After(w, steps).relays[r].clock));
    var show := ThenShow(w, steps + a + evict, r, m);
    JoinPassive(steps, a, evict);
    JoinPassive(steps, a + evict, show);
    more, j := a + evict + show, |steps + a|;
    assert (steps + more)[..j] == steps + a;
  }

  lemma ThreatResurrects(w: World, steps: seq<Step>, r: string, p: string, m: Registration, n: Registration)
    requires w.Valid() && r in w.cfgs && r in After(w, steps).relays
    requires Threat(After(w, steps), r, p, m, n) && RoomWithin(After(w, steps), r, p, w.cfgs[r].maxFederated, m)
    ensures CanResurrect(w, steps, r, p)
  {
    var fed := After(w, steps).relays[r].view.federated;
    var pre: seq<Step> := [];
    assert steps + pre == steps;
    if p !in fed && |fed| >= w.cfgs[r].maxFederated {
      pre := MakeRoom(w, steps, r, p, m);
    }
    var more, j := ThreatWithRoom(w, steps + pre, r, p, m, n);
    JoinPassive(steps, pre, more);
    assert NoSends(pre + more) && Resurrects(w, steps + (pre + more), j, r, p, n, m);
  }

  lemma ResurrectionNeedsThreat(w: World, steps: seq<Step>, more: seq<Step>, j: nat, r: string, p: string,
                                stored: Registration, visible: Registration)
    requires w.Valid() && r in w.cfgs && NoSends(more) && Resurrects(w, steps + more, j, r, p, stored, visible)
    ensures r in After(w, steps).relays && exists n :: Threat(After(w, steps), r, p, visible, n)
  {
    var run := steps + more;
    QuietNet(w, steps, more);
    ClockGrows(w, steps, more, r);
    StoredCameFromNet(w, run);
    var s, last := After(w, steps), After(w, run).relays[r].clock;
    assert run[..j] + run[j..] == run;
    GuardedForever(w, run[..j], run[j..], r, p, stored);
    var n :| n in s.net && n.peerID == p && Succeeds(n, stored) && Expired(n, last);
    if p in s.relays[r].view.federated {
      var k := s.relays[r].view.federated[p];
      if k.version > visible.version {
        GuardedForever(w, steps, more, r, p, k);
        n :| n in s.net && n.peerID == p && Succeeds(n, k) && Expired(n, last);
      } else {
        SucceedsTransitive(n, stored, k);
      }
    }
    assert Threat(s, r, p, visible, n);
  }

  /** In any state of any run, and with nothing more being sent, a relay can come to show an older version of a peer
      than one it has ever stored if and only if the network carries an older version that can outlive a newer one
      which the relay would take, and the relay has or in time can have room for the peer. */
  lemma ResurrectionExactly(w: World, steps: seq<Step>, r: string, p: string)
    requires w.Valid() && r in w.cfgs && r in After(w, steps).relays
    ensures CanResurrect(w, steps, r, p)
            <==> exists m, n :: Threat(After(w, steps), r, p, m, n)
                                && RoomWithin(After(w, steps), r, p, w.cfgs[r].maxFederated, m)
  {
    if more, j, stored, visible :| NoSends(more) && Resurrects(w, steps + more, j, r, p, stored, visible) {
      ResurrectionNeedsThreat(w, steps, more, j, r, p, stored, visible);
      ShowingNeedsRoom(w, steps, more, r, p, visible);
    }
    if m, n :| Threat(After(w, steps), r, p, m, n) && RoomWithin(After(w, steps), r, p, w.cfgs[r].maxFederated, m) {
      ThreatResurrects(w, steps, r, p, m, n);
    }
  }
}
