/** N relays exchanging records over a network that may lose, repeat, delay and reorder them. */
module Network {
  import opened Common
  import opened Records
  import opened RegistryModel
  import opened Merge

  datatype Relay = Relay(view: View, clock: Reading)

  /** `net` holds every snapshot ever taken for a peer relay; a delivery takes any of them, any number of times. */
  datatype System = System(relays: map<string, Relay>, net: set<Registration>)

  /** The configurations, which never change, and the state in which the relays start. */
  datatype World = World(cfgs: map<string, Config>, init: System) {
    ghost predicate Valid() {
      && cfgs.Keys == init.relays.Keys && "" !in cfgs
      && init.net == {}
      && forall id | id in init.relays :: init.relays[id].view == View(map[], map[])
    }
  }

  datatype Action =
    | Tick(to: Reading)
    | Local(op: LocalOp)
    | Send(peer: string)
    | Receive(msg: Registration)

  datatype Step = Step(at: string, act: Action)

  /** A local record as another relay sees it. */
  function Export(id: string, reg: Registration): Registration {
    reg.(origin := id)
  }

  function Act(cfg: Config, s: System, id: string, act: Action): System
    requires id in s.relays
  {
    var r := s.relays[id];
    match act
    case Tick(to) => if r.clock <= to then s.(relays := s.relays[id := r.(clock := to)]) else s
    case Local(op) => s.(relays := s.relays[id := r.(view := Apply(cfg, r.view, op, r.clock))])
    case Send(peer) =>
      if peer in r.view.entries then s.(net := s.net + {Export(id, r.view.entries[peer])}) else s
    case Receive(msg) =>
      if msg in s.net
      then
        var fed := MergeOne(r.view.federated, msg, cfg.maxFederated);
        s.(relays := s.relays[id := r.(view := r.view.(federated := fed))])
      else s
  }

  function After(w: World, steps: seq<Step>): System {
    if steps == [] then w.init
    else
      var s, step := After(w, steps[..|steps| - 1]), steps[|steps| - 1];
      if step.at in s.relays && step.at in w.cfgs then Act(w.cfgs[step.at], s, step.at, step.act) else s
  }

  lemma {:induction false} RelaysStay(w: World, steps: seq<Step>)
    requires w.Valid()
    ensures After(w, steps).relays.Keys == w.cfgs.Keys
  {
    if steps != [] { RelaysStay(w, steps[..|steps| - 1]); }
  }

  // ---- Provenance ----

  /** Some relay held `reg` as a local registration of its own after some prefix of the run. */
  ghost predicate HeldByOrigin(w: World, steps: seq<Step>, reg: Registration) {
    exists k | 0 <= k <= |steps| :: HoldsNow(After(w, steps[..k]), reg)
  }

  ghost predicate HoldsNow(s: System, reg: Registration) {
    && reg.origin in s.relays
    && var local := s.relays[reg.origin].view.entries;
       reg.peerID in local && Export(reg.origin, local[reg.peerID]) == reg
  }

  ghost predicate Federated(s: System, id: string, p: string, reg: Registration) {
    id in s.relays && p in s.relays[id].view.federated && s.relays[id].view.federated[p] == reg
  }

  ghost predicate OnlySnapshotsStored(s: System) {
    forall id, p, reg | Federated(s, id, p, reg) :: reg in s.net && reg.peerID == p
  }

  ghost predicate LocalsKeyed(s: System) {
    forall id | id in s.relays :: Keyed(s.relays[id].view.entries)
  }

  lemma {:induction false} StoredCameFromNet(w: World, steps: seq<Step>)
    requires w.Valid()
    ensures OnlySnapshotsStored(After(w, steps)) && LocalsKeyed(After(w, steps))
  {
    if steps != [] {
      var front, step := steps[..|steps| - 1], steps[|steps| - 1];
      StoredCameFromNet(w, front);
      RelaysStay(w, front);
      if step.at in w.cfgs {
        StoredCameFromNetStep(w.cfgs[step.at], After(w, front), step.at, step.act);
      }
    }
  }

  lemma StoredCameFromNetStep(cfg: Config, s: System, id: string, act: Action)
    requires OnlySnapshotsStored(s) && LocalsKeyed(s) && id in s.relays
    ensures OnlySnapshotsStored(Act(cfg, s, id, act)) && LocalsKeyed(Act(cfg, s, id, act))
  {
    var t := Act(cfg, s, id, act);
    forall i, p, reg | Federated(t, i, p, reg) ensures reg in t.net && reg.peerID == p {
      assert Federated(s, i, p, reg) || (act == Receive(reg) && reg.peerID == p && reg in s.net);
    }
    assert Keyed(t.relays[id].view.entries);
  }

  lemma {:induction false} SentWasHeld(w: World, steps: seq<Step>, m: Registration)
    requires w.Valid() && m in After(w, steps).net
    ensures HeldByOrigin(w, steps, m)
  {
    var n := |steps| - 1;
    var before := After(w, steps[..n]);
    if m in before.net {
      SentWasHeld(w, steps[..n], m);
      var k :| 0 <= k <= n && HoldsNow(After(w, steps[..n][..k]), m);
      assert steps[..n][..k] == steps[..k];
    } else {
      StoredCameFromNet(w, steps[..n]);
      assert HoldsNow(before, m);
    }
  }

  /** Every federated record is a snapshot of a registration its origin relay held locally, one hop away. */
  lemma OneHopProvenance(w: World, steps: seq<Step>, id: string, p: string, reg: Registration)
    requires w.Valid() && Federated(After(w, steps), id, p, reg)
    ensures reg.peerID == p && reg.origin != "" && HeldByOrigin(w, steps, reg)
  {
    StoredCameFromNet(w, steps);
    SentWasHeld(w, steps, reg);
    var k :| 0 <= k <= |steps| && HoldsNow(After(w, steps[..k]), reg);
    RelaysStay(w, steps[..k]);
  }

  // ---- No stale resurrection ----

  /** Only relay `o` ever accepts registrations from `p`. */
  ghost predicate SingleHome(steps: seq<Step>, p: string, o: string) {
    forall k | 0 <= k < |steps| && steps[k].act.Local? && steps[k].act.op.Register? && steps[k].act.op.peer == p ::
      steps[k].at == o
  }

  ghost predicate HeldOnlyAt(s: System, p: string, o: string) {
    forall id | id in s.relays && id != o :: p !in s.relays[id].view.entries
  }

  /** A record of `p` made under lifetime `ttl`, no later than `clock`. */
  predicate Dated(reg: Registration, ttl: Time, clock: Time) {
    reg.version <= clock && reg.version + ttl <= reg.expiresAt <= clock + ttl
  }

  /** The origin's record is the newest there is, and older versions expire before its lifetime from registration. */
  predicate Newest(e: Registration, ttl: Time, m: Registration) {
    m.version <= e.version && (m.version < e.version ==> m.expiresAt <= e.version + ttl)
  }

  ghost predicate OriginInv(s: System, ttl: Time, p: string, o: string) {
    && o in s.relays && HeldOnlyAt(s, p, o)
    && var r := s.relays[o];
    && (p in r.view.entries ==> Dated(r.view.entries[p], ttl, r.clock))
    && (forall m | m in s.net && m.peerID == p :: Dated(m, ttl, r.clock))
    && (forall m | m in s.net && m.peerID == p :: p in r.view.entries ==> Newest(r.view.entries[p], ttl, m))
    && (forall m, n | m in s.net && n in s.net && m.peerID == p == n.peerID ::
          m.version < n.version ==> m.expiresAt <= n.expiresAt)
  }

  lemma {:induction false} OriginInvHolds(w: World, steps: seq<Step>, p: string, o: string)
    requires w.Valid() && o in w.cfgs && SingleHome(steps, p, o)
    ensures OriginInv(After(w, steps), w.cfgs[o].ttl, p, o)
  {
    if steps != [] {
      var front, step := steps[..|steps| - 1], steps[|steps| - 1];
      OriginInvHolds(w, front, p, o);
      StoredCameFromNet(w, front);
      RelaysStay(w, front);
      if step.at in w.cfgs {
        OriginInvStep(w.cfgs[step.at], After(w, front), step.at, step.act, w.cfgs[o].ttl, p, o);
      }
    }
  }

  /** What one local operation can do to the record of `p`: make it anew, extend it, or leave its times alone. */
  lemma LocalOpOnPeer(cfg: Config, v: View, op: LocalOp, now: Reading, p: string)
    requires p in Apply(cfg, v, op, now).entries
    ensures var e := Apply(cfg, v, op, now).entries[p];
            || (op.Register? && op.peer == p && e.version == now && e.expiresAt == now + cfg.ttl)
            || (p in v.entries && e.version == v.entries[p].version
                && (e.expiresAt == v.entries[p].expiresAt || e.expiresAt == now + cfg.ttl))
  {
  }

  lemma OriginInvLocal(cfg: Config, s: System, op: LocalOp, p: string, o: string)
    requires OriginInv(s, cfg.ttl, p, o)
    ensures OriginInv(Act(cfg, s, o, Local(op)), cfg.ttl, p, o)
  {
    var r := s.relays[o];
    var entries := Apply(cfg, r.view, op, r.clock).entries;
    if p in entries {
      LocalOpOnPeer(cfg, r.view, op, r.clock, p);
      assert Dated(entries[p], cfg.ttl, r.clock);
      assert forall m | m in s.net && m.peerID == p :: Newest(entries[p], cfg.ttl, m);
    }
  }

  lemma OriginInvSend(cfg: Config, s: System, p: string, o: string)
    requires OriginInv(s, cfg.ttl, p, o) && LocalsKeyed(s)
    ensures OriginInv(Act(cfg, s, o, Send(p)), cfg.ttl, p, o)
  {
    var r := s.relays[o];
    if p in r.view.entries {
      var sent := Export(o, r.view.entries[p]);
      assert forall m | m in s.net && m.peerID == p ::
          Dated(m, cfg.ttl, r.clock) && Newest(r.view.entries[p], cfg.ttl, m);
      assert Dated(sent, cfg.ttl, r.clock);
    }
  }

  lemma OriginInvElsewhere(cfg: Config, s: System, id: string, op: LocalOp, ttl: Time, p: string, o: string)
    requires OriginInv(s, ttl, p, o) && id in s.relays && id != o && !(op.Register? && op.peer == p)
    ensures OriginInv(Act(cfg, s, id, Local(op)), ttl, p, o)
  {
  }

  lemma OriginInvOtherSend(cfg: Config, s: System, id: string, peer: string, ttl: Time, p: string, o: string)
    requires OriginInv(s, ttl, p, o) && LocalsKeyed(s) && id in s.relays && peer != p
    ensures OriginInv(Act(cfg, s, id, Send(peer)), ttl, p, o)
  {
    if peer in s.relays[id].view.entries {
      assert Export(id, s.relays[id].view.entries[peer]).peerID == peer;
    }
  }

  lemma OriginInvStep(cfg: Config, s: System, id: string, act: Action, ttl: Time, p: string, o: string)
    requires OriginInv(s, ttl, p, o) && LocalsKeyed(s) && id in s.relays
    requires id == o ==> cfg.ttl == ttl
    requires act.Local? && act.op.Register? && act.op.peer == p ==> id == o
    ensures OriginInv(Act(cfg, s, id, act), ttl, p, o)
  {
    match act
    case Local(op) =>
      if id == o { OriginInvLocal(cfg, s, op, p, o); } else { OriginInvElsewhere(cfg, s, id, op, ttl, p, o); }
    case Send(peer) =>
      if peer == p {
        if id == o { OriginInvSend(cfg, s, p, o); }
      } else {
        OriginInvOtherSend(cfg, s, id, peer, ttl, p, o);
      }
    case Tick(_) =>
    case Receive(_) =>
  }

  // ---- How runs continue ----

  lemma OneMoreStep(w: World, steps: seq<Step>, step: Step)
    requires step.at in After(w, steps).relays && step.at in w.cfgs
    ensures After(w, steps + [step]) == Act(w.cfgs[step.at], After(w, steps), step.at, step.act)
  {
    assert (steps + [step])[..|steps|] == steps;
  }

  lemma {:induction false} NetGrows(w: World, steps: seq<Step>, more: seq<Step>)
    ensures After(w, steps).net <= After(w, steps + more).net
  {
    if more == [] {
      assert steps + more == steps;
    } else {
      NetGrows(w, steps, more[..|more| - 1]);
      assert (steps + more)[..|steps + more| - 1] == steps + more[..|more| - 1];
    }
  }

  lemma {:induction false} ClockGrows(w: World, steps: seq<Step>, more: seq<Step>, r: string)
    requires w.Valid() && r in w.cfgs
    ensures r in After(w, steps).relays && r in After(w, steps + more).relays
    ensures After(w, steps).relays[r].clock <= After(w, steps + more).relays[r].clock
  {
    RelaysStay(w, steps);
    RelaysStay(w, steps + more);
    if more == [] {
      assert steps + more == steps;
    } else {
      ClockGrows(w, steps, more[..|more| - 1], r);
      assert (steps + more)[..|steps + more| - 1] == steps + more[..|more| - 1];
    }
  }

  ghost predicate NoSends(steps: seq<Step>) {
    forall i | 0 <= i < |steps| :: !steps[i].act.Send?
  }

  /** Nothing but clocks, receipts and evictions. */
  ghost predicate Passive(steps: seq<Step>) {
    forall i | 0 <= i < |steps| ::
      steps[i].act.Tick? || steps[i].act.Receive? || (steps[i].act.Local? && steps[i].act.op.EvictExpired?)
  }

  lemma {:induction false} QuietNet(w: World, steps: seq<Step>, more: seq<Step>)
    requires NoSends(more)
    ensures After(w, steps + more).net == After(w, steps).net
  {
    if more == [] {
      assert steps + more == steps;
    } else {
      QuietNet(w, steps, more[..|more| - 1]);
      assert (steps + more)[..|steps + more| - 1] == steps + more[..|more| - 1];
    }
  }

  lemma {:induction false} NeverOverCapacity(w: World, steps: seq<Step>, r: string)
    requires w.Valid() && r in w.cfgs
    ensures r in After(w, steps).relays
    ensures var fed := After(w, steps).relays[r].view.federated; |fed| == 0 || |fed| <= w.cfgs[r].maxFederated
  {
    RelaysStay(w, steps);
    if steps != [] {
      var front, step := steps[..|steps| - 1], steps[|steps| - 1];
      NeverOverCapacity(w, front, r);
      var before := After(w, front).relays[r].view.federated;
      if step.at == r {
        match step.act
        case Receive(msg) => StoredKeysStep(before, msg, w.cfgs[r].maxFederated);
        case Local(op) =>
          if op.EvictExpired? {
            SubsetOfSize(Alive(before, After(w, front).relays[r].clock).Keys, before.Keys);
          }
        case _ =>
      }
    }
  }
}
