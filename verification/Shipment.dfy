/** The two ends of the protocol, put together, are a run of the network model. */
module Shipment {
  import opened Common
  import opened Records
  import opened RegistryModel
  import opened Federation
  import opened Network
  import Merge
  import Pull
  import Resurrection
  import Survival

  function Exports(id: string, regs: seq<Registration>): seq<Registration> {
    seq(|regs|, i requires 0 <= i < |regs| => Export(id, regs[i]))
  }

  /** What a relay with an ID sends is what the other merges: by pull, under whatever address it was reached ... */
  lemma {:induction false} PullRoundTrip(id: string, regs: seq<Registration>, addr: string)
    requires id != ""
    ensures PulledRecords(Wired(id, regs), addr) == Exports(id, regs)
  {
    if regs != [] {
      var front := regs[..|regs| - 1];
      PullRoundTrip(id, front, addr);
      assert Wired(id, regs)[..|regs| - 1] == Wired(id, front);
      assert Exports(id, regs) == Exports(id, front) + [Export(id, regs[|regs| - 1])];
    }
  }

  /** ... and by push, whoever sends it. */
  lemma {:induction false} PushRoundTrip(id: string, regs: seq<Registration>, sender: string)
    requires id != "" && forall i | 0 <= i < |regs| :: regs[i].peerID != ""
    ensures PushedRecords(Wired(id, regs), sender) == Exports(id, regs)
  {
    if regs != [] {
      var front := regs[..|regs| - 1];
      PushRoundTrip(id, front, sender);
      assert Wired(id, regs)[..|regs| - 1] == Wired(id, front);
      assert Exports(id, regs) == Exports(id, front) + [Export(id, regs[|regs| - 1])];
    }
  }

  /** The records are current local registrations of relay `id`. */
  ghost predicate HeldAt(s: System, id: string, regs: seq<Registration>) {
    id in s.relays && forall i | 0 <= i < |regs| ::
      regs[i].peerID in s.relays[id].view.entries && s.relays[id].view.entries[regs[i].peerID] == regs[i]
  }

  /** `s` with messages added to the network and federated records merged at one relay. */
  function Merged(s: System, id: string, msgs: seq<Registration>, cap: int): System
    requires id in s.relays
  {
    var r := s.relays[id];
    s.(relays := s.relays[id := r.(view := r.view.(federated := Merge.MergeAll(r.view.federated, msgs, cap)))])
  }

  ghost predicate NoLocalSteps(steps: seq<Step>) {
    forall i | 0 <= i < |steps| :: !steps[i].act.Local?
  }

  lemma SendOne(w: World, steps: seq<Step>, id: string, reg: Registration)
    requires id in w.cfgs && HeldAt(After(w, steps), id, [reg])
    ensures var s, t := After(w, steps), After(w, steps + [Step(id, Send(reg.peerID))]);
            t.relays == s.relays && t.net == s.net + {Export(id, reg)}
  {
    assert [reg][0] == reg;
    OneMoreStep(w, steps, Step(id, Send(reg.peerID)));
  }

  lemma {:induction false} SendsAreSteps(w: World, steps: seq<Step>, id: string, regs: seq<Registration>)
    returns (more: seq<Step>)
    requires id in w.cfgs && HeldAt(After(w, steps), id, regs)
    ensures NoLocalSteps(more) && After(w, steps + more).relays == After(w, steps).relays
    ensures forall m | m in Exports(id, regs) :: m in After(w, steps + more).net
  {
    if regs == [] {
      more := [];
      assert steps + [] == steps;
    } else {
      var front, last := regs[..|regs| - 1], regs[|regs| - 1];
      var most := SendsAreSteps(w, steps, id, front);
      SendOne(w, steps + most, id, last);
      more := most + [Step(id, Send(last.peerID))];
      assert steps + most + [Step(id, Send(last.peerID))] == steps + more;
      assert Exports(id, regs) == Exports(id, front) + [Export(id, last)];
    }
  }

  lemma ReceiveOne(cfg: Config, s: System, id: string, msgs: seq<Registration>)
    requires id in s.relays && msgs != [] && msgs[|msgs| - 1] in s.net
    ensures Act(cfg, Merged(s, id, msgs[..|msgs| - 1], cfg.maxFederated), id, Receive(msgs[|msgs| - 1]))
            == Merged(s, id, msgs, cfg.maxFederated)
  {
  }

  lemma {:induction false} ReceiptsAreSteps(w: World, steps: seq<Step>, id: string, msgs: seq<Registration>)
    returns (more: seq<Step>)
    requires id in w.cfgs && id in After(w, steps).relays
    requires forall m | m in msgs :: m in After(w, steps).net
    ensures NoLocalSteps(more) && After(w, steps + more) == Merged(After(w, steps), id, msgs, w.cfgs[id].maxFederated)
  {
    if msgs == [] {
      more := [];
      assert steps + [] == steps;
    } else {
      var front, last := msgs[..|msgs| - 1], msgs[|msgs| - 1];
      var most := ReceiptsAreSteps(w, steps, id, front);
      OneMoreStep(w, steps + most, Step(id, Receive(last)));
      more := most + [Step(id, Receive(last))];
      assert steps + most + [Step(id, Receive(last))] == steps + more;
      ReceiveOne(w.cfgs[id], After(w, steps), id, msgs);
    }
  }

  /** Some receipts at relay `id` merge `msgs` there, in this order, and change nothing else. */
  ghost predicate MergedByRun(w: World, steps: seq<Step>, id: string, msgs: seq<Registration>) {
    && id in w.cfgs && id in After(w, steps).relays
    && exists more :: && NoLocalSteps(more)
                      && After(w, steps + more) == Merged(After(w, steps), id, msgs, w.cfgs[id].maxFederated)
  }

  /** Sending `msgs` after `steps` lets relay `id` merge them at any later point, whatever happens in between. */
  ghost predicate ShippedByRun(w: World, steps: seq<Step>, id: string, msgs: seq<Registration>) {
    exists sends ::
      && NoLocalSteps(sends) && After(w, steps + sends).relays == After(w, steps).relays
      && forall between :: MergedByRun(w, steps + sends + between, id, msgs)
  }

  /** Shipping records that a relay holds, to be merged elsewhere at any later time, is a run of the network model. */
  lemma ShipmentIsRun(w: World, steps: seq<Step>, server: string, client: string, regs: seq<Registration>)
    requires w.Valid() && server in w.cfgs && client in w.cfgs && HeldAt(After(w, steps), server, regs)
    ensures ShippedByRun(w, steps, client, Exports(server, regs))
  {
    var msgs := Exports(server, regs);
    var sends := SendsAreSteps(w, steps, server, regs);
    forall between ensures MergedByRun(w, steps + sends + between, client, msgs) {
      NetGrows(w, steps + sends, between);
      RelaysStay(w, steps + sends + between);
      var _ := ReceiptsAreSteps(w, steps + sends + between, client, msgs);
    }
  }

  /** A pull that `Server.SyncRegistrations` answers now and `Federation.SyncPeer` merges at any later time, its records
      by then changed or gone at the server, is such a run: the theorems about the network hold of relays that exchange
      records through this code. */
  lemma PullIsRun(w: World, steps: seq<Step>, server: string, client: string, addr: string,
                  since: Time, at: Time, limit: int, ws: seq<WireRecord>)
    requires w.Valid() && server in w.cfgs && client in w.cfgs
    requires server in After(w, steps).relays
             && Answers(ws, server, After(w, steps).relays[server].view.entries, since, at, limit)
    ensures ShippedByRun(w, steps, client, PulledRecords(ws, addr))
  {
    var regs := AnsweredRecords(ws, server, After(w, steps).relays[server].view.entries, since, at, limit);
    PullRoundTrip(server, regs, addr);
    ShipmentIsRun(w, steps, server, client, regs);
  }

  lemma AnsweredRecords(ws: seq<WireRecord>, id: string, entries: Store, since: Time, at: Time, limit: int)
    returns (regs: seq<Registration>)
    requires Answers(ws, id, entries, since, at, limit)
    ensures ws == Wired(id, regs) && Enumerates(regs, entries, PeersIn(regs)) && PeersIn(regs) == PeersOf(ws)
    ensures Pull.IsCut(PeersOf(ws), UpdatedSince(entries, since, at), Pull.SyncLimit(limit))
  {
    regs :| && ws == Wired(id, regs) && Enumerates(regs, entries, PeersIn(regs))
            && Pull.IsCut(PeersIn(regs), UpdatedSince(entries, since, at), Pull.SyncLimit(limit));
    assert forall i | 0 <= i < |ws| :: ws[i].peerId == regs[i].peerID;
    assert PeersOf(ws) == PeersIn(regs);
  }

  function PeersOf(ws: seq<WireRecord>): set<string> {
    set i | 0 <= i < |ws| :: ws[i].peerId
  }

  /** So is a push of records that name their peers, read from the registry now and merged at any later time. */
  lemma PushIsRun(w: World, steps: seq<Step>, sender: string, receiver: string, regs: seq<Registration>)
    requires w.Valid() && sender in w.cfgs && receiver in w.cfgs && HeldAt(After(w, steps), sender, regs)
    requires forall i | 0 <= i < |regs| :: regs[i].peerID != ""
    ensures ShippedByRun(w, steps, receiver, PushedRecords(Wired(sender, regs), sender))
  {
    PushRoundTrip(sender, regs, sender);
    ShipmentIsRun(w, steps, sender, receiver, regs);
  }

  // ---- The handler and the cursor, as steps of the pull model ----

  /** While the handler runs: time passes and the registry changes. */
  ghost predicate Meanwhile(steps: seq<Pull.Step>) {
    forall i | 0 <= i < |steps| :: steps[i].Tick? || steps[i].Local?
  }

  lemma {:induction false} PhaseStays(cfg: Config, limit: nat, clock: Reading, steps: seq<Pull.Step>,
                                      more: seq<Pull.Step>)
    requires Meanwhile(more)
    ensures var s, t := Pull.After(cfg, limit, clock, steps), Pull.After(cfg, limit, clock, steps + more);
            t.phase == s.phase && t.cursor == s.cursor && t.answers == s.answers
  {
    if more == [] {
      assert steps + more == steps;
    } else {
      PhaseStays(cfg, limit, clock, steps, more[..|more| - 1]);
      Pull.OneMoreStep(cfg, limit, clock, steps + more[..|more| - 1], more[|more| - 1]);
      assert steps + more[..|more| - 1] + [more[|more| - 1]] == steps + more;
    }
  }

  lemma SentRecords(ws: seq<WireRecord>, relayID: string, entries: Store, since: Time, at: Time, limit: int)
    requires Answers(ws, relayID, entries, since, at, limit)
    ensures forall p | p in PeersOf(ws) :: p in entries && ToWire(relayID, entries[p]) in ws
  {
    AnswersAreCurrent(ws, relayID, entries, since, at, limit);
    forall p | p in PeersOf(ws) ensures p in entries && ToWire(relayID, entries[p]) in ws {
      var i :| 0 <= i < |ws| && ws[i].peerId == p;
    }
  }

  /** One request to `Server.SyncRegistrations` and its answer, in the pull model: when the answer `ws` was read at the
      client's cursor, and the registry went through `during` before the handler took its timestamp, the model has the
      steps; they leave the cursor at that timestamp, as `Federation.SyncPeer` does, and the new answer delivers
      exactly the registrations whose records were sent. */
  lemma RequestIsPull(cfg: Config, limit: int, clock: Reading, steps: seq<Pull.Step>, during: seq<Pull.Step>,
                      relayID: string, cursor: Option<Time>, ws: seq<WireRecord>)
    requires var s := Pull.After(cfg, Pull.SyncLimit(limit), clock, steps);
             && s.phase.Idle? && SinceOf(cursor) == s.cursor
             && Answers(ws, relayID, s.entries, SinceOf(cursor), s.clock, limit)
    requires Meanwhile(during)
    ensures var s := Pull.After(cfg, Pull.SyncLimit(limit), clock, steps);
            var taken := steps + [Pull.Snapshot(PeersOf(ws))] + during;
            var stampAt := Pull.After(cfg, Pull.SyncLimit(limit), clock, taken).clock;
            var t := Pull.After(cfg, Pull.SyncLimit(limit), clock, taken + [Pull.Stamp, Pull.Arrive]);
            && t.phase.Idle? && t.cursor == stampAt
            && t.answers == s.answers
                            + [Pull.Answer(s.cursor, s.clock, s.entries, s.gens, s.next, PeersOf(ws), stampAt)]
    ensures var s := Pull.After(cfg, Pull.SyncLimit(limit), clock, steps);
            forall p | p in PeersOf(ws) :: p in s.entries && ToWire(relayID, s.entries[p]) in ws
  {
    var lim := Pull.SyncLimit(limit);
    var s := Pull.After(cfg, lim, clock, steps);
    var snapshot := Pull.Snapshot(PeersOf(ws));
    var _ := AnsweredRecords(ws, relayID, s.entries, s.cursor, s.clock, limit);
    SentRecords(ws, relayID, s.entries, s.cursor, s.clock, limit);
    Pull.OneMoreStep(cfg, lim, clock, steps, snapshot);
    PhaseStays(cfg, lim, clock, steps + [snapshot], during);
    var taken := steps + [snapshot] + during;
    Pull.OneMoreStep(cfg, lim, clock, taken, Pull.Stamp);
    Pull.OneMoreStep(cfg, lim, clock, taken + [Pull.Stamp], Pull.Arrive);
    assert taken + [Pull.Stamp] + [Pull.Arrive] == taken + [Pull.Stamp, Pull.Arrive];
  }

  /** That the answer was read at the client's cursor, which `RequestIsPull` assumes, holds from the first request on:
      while the answers that have arrived from a relay are those whose timestamps the calls came away with, the next
      call to it asks from the cursor of the pull model. */
  lemma RequestsReadCursor(cfg: Config, limit: nat, clock: Reading, steps: seq<Pull.Step>,
                           calls: seq<SyncCall>, syncs: seq<map<string, Time>>, i: nat)
    requires IsSyncRun(calls, syncs) && i < |calls|
    requires var answers := Pull.After(cfg, limit, clock, steps).answers;
             var stamps := Stamps(calls[..i], calls[i].addr);
             |answers| == |stamps| && forall k | 0 <= k < |stamps| :: answers[k].stamp == stamps[k]
    ensures SinceOf(calls[i].asked) == Pull.After(cfg, limit, clock, steps).cursor
  {
    RequestsFollowStamps(calls, syncs, i);
    Pull.InvHolds(cfg, limit, clock, steps);
  }

  // ---- What becomes of a delivered registration ----

  lemma DeliveredIsStored(server: string, addr: string, entries: Store, since: Time, at: Time, limit: int,
                          ws: seq<WireRecord>, fed: Store, cap: int, p: string)
    requires server != "" && Answers(ws, server, entries, since, at, limit) && p in PeersOf(ws)
    requires p in fed || |fed.Keys + PeersOf(ws)| <= cap
    ensures var stored := Merge.MergeAll(fed, PulledRecords(ws, addr), cap);
            p in entries && p in stored && !Merge.Beats(Export(server, entries[p]), stored[p])
  {
    var regs := AnsweredRecords(ws, server, entries, since, at, limit);
    PullRoundTrip(server, regs, addr);
    ExportsOfAll(server, regs, entries, p);
    Merge.DeliveryTakesEffect(fed, Exports(server, regs), cap, Export(server, entries[p]));
  }

  lemma ExportsOfAll(id: string, regs: seq<Registration>, entries: Store, p: string)
    requires Enumerates(regs, entries, PeersIn(regs)) && p in PeersIn(regs)
    ensures PeersIn(Exports(id, regs)) == PeersIn(regs)
    ensures p in entries && entries[p].peerID == p && Export(id, entries[p]) in Exports(id, regs)
  {
    var msgs := Exports(id, regs);
    assert PeersIn(msgs) == PeersIn(regs) by {
      assert forall i | 0 <= i < |regs| :: msgs[i].peerID == regs[i].peerID;
    }
    var i :| 0 <= i < |regs| && regs[i].peerID == p;
    assert msgs[i] == Export(id, entries[p]);
  }

  /** A registration that was delivered, and had room where it was merged, is stored there at a key no lower than its
      own; and in every run from then on the relay holds that key or a greater one, or a record of at least that key
      has expired by its clock. */
  lemma DeliveredIsKept(w: World, steps: seq<Step>, more: seq<Step>, server: string, client: string, addr: string,
                        entries: Store, since: Time, at: Time, limit: int, ws: seq<WireRecord>, fed: Store, p: string)
    requires w.Valid() && server in w.cfgs && client in w.cfgs && client in After(w, steps).relays
    requires Answers(ws, server, entries, since, at, limit) && p in PeersOf(ws)
    requires After(w, steps).relays[client].view.federated
             == Merge.MergeAll(fed, PulledRecords(ws, addr), w.cfgs[client].maxFederated)
    requires p in fed || |fed.Keys + PeersOf(ws)| <= w.cfgs[client].maxFederated
    ensures p in entries && p in After(w, steps).relays[client].view.federated
    ensures var k := After(w, steps).relays[client].view.federated[p];
            !Merge.Beats(Export(server, entries[p]), k) && Resurrection.Guarded(After(w, steps + more), client, p, k)
  {
    DeliveredIsStored(server, addr, entries, since, at, limit, ws, fed, w.cfgs[client].maxFederated, p);
    Resurrection.GuardedForever(w, steps, more, client, p, After(w, steps).relays[client].view.federated[p]);
  }

  /** Every discovery at `r` that is below its limit, and whose query `reg` matches, answers `p`. */
  ghost predicate Discoverable(s: System, r: string, p: string, reg: Registration)
    requires r in s.relays
  {
    var v := s.relays[r].view;
    forall q: Query, limit, results |
      && q.now == s.relays[r].clock && Offers(reg, q.skill, q.tags) && IsDiscovery(v, q, limit, true, results)
      && |Matching(v.entries, q) + Unshadowed(v, q, true)| <= EffectiveLimit(limit) ::
        p in PeersIn(results)
  }

  lemma ShownIsDiscoverable(s: System, r: string, p: string, reg: Registration)
    requires Resurrection.Shown(s, r, p, reg)
    ensures Discoverable(s, r, p, reg)
  {
    var v := s.relays[r].view;
    forall q: Query, limit, results |
      && q.now == s.relays[r].clock && Offers(reg, q.skill, q.tags) && IsDiscovery(v, q, limit, true, results)
      && |Matching(v.entries, q) + Unshadowed(v, q, true)| <= EffectiveLimit(limit)
      ensures p in PeersIn(results)
    {
      DiscoveryIsComplete(v, q, limit, true, results);
    }
  }

  /** What a pull delivered of a peer with one home, and had room for, is discoverable where it was merged for as long
      as the record left there has not expired, at a version no lower than the delivered one. */
  lemma DeliveredIsDiscoverable(w: World, steps: seq<Step>, more: seq<Step>, server: string, client: string,
                                addr: string, entries: Store, since: Time, at: Time, limit: int,
                                ws: seq<WireRecord>, fed: Store, p: string, o: string)
    requires w.Valid() && server in w.cfgs && client in w.cfgs && client in After(w, steps).relays
    requires o in w.cfgs && SingleHome(steps + more, p, o) && client in After(w, steps + more).relays
    requires Answers(ws, server, entries, since, at, limit) && p in PeersOf(ws)
    requires After(w, steps).relays[client].view.federated
             == Merge.MergeAll(fed, PulledRecords(ws, addr), w.cfgs[client].maxFederated)
    requires p in fed || |fed.Keys + PeersOf(ws)| <= w.cfgs[client].maxFederated
    ensures p in entries && p in After(w, steps).relays[client].view.federated
    ensures var k, s := After(w, steps).relays[client].view.federated[p], After(w, steps + more);
            !Expired(k, s.relays[client].clock) ==>
              exists reg :: && Resurrection.Shown(s, client, p, reg) && reg.version >= entries[p].version
                            && Discoverable(s, client, p, reg)
  {
    DeliveredIsStored(server, addr, entries, since, at, limit, ws, fed, w.cfgs[client].maxFederated, p);
    var k, s := After(w, steps).relays[client].view.federated[p], After(w, steps + more);
    if !Expired(k, s.relays[client].clock) {
      Survival.StaysVisible(w, steps, more, client, p, o, k);
      var reg :| Resurrection.Shown(s, client, p, reg) && reg.version >= k.version;
      ShownIsDiscoverable(s, client, p, reg);
    }
  }
}
