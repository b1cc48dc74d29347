/** Both ends of the relay-to-relay protocol: the service a relay offers and the client that pulls from others. */
module Federation {
  import opened Common
  import opened Records
  import opened RegistryModel
  import opened RegistryStore
  import Backoff
  import Merge
  import Pull

  /** A record on the wire, whose timestamps may be absent. */
  datatype WireRecord = WireRecord(
    peerId: string, originRelayId: string, skills: seq<SkillInfo>, agentName: string, agentDescription: string,
    registeredAt: Option<Time>, expiresAt: Option<Time>, version: nat)

  datatype SyncResponse = SyncResponse(registrations: seq<WireRecord>, syncTimestamp: Option<Time>)

  /** The instant a request asks from: the zero time when it names none. */
  function SinceOf(since: Option<Time>): Time {
    if since.Some? then since.value else ZERO_TIME
  }

  function ToWire(relayID: string, reg: Registration): WireRecord {
    WireRecord(reg.peerID, relayID, reg.skills, reg.agentName, reg.agentDescription,
               Some(reg.registeredAt), Some(reg.expiresAt), reg.version)
  }

  function Received(w: WireRecord, sender: string): Registration {
    Registration(
      w.peerId, w.skills, w.agentName, w.agentDescription,
      if w.registeredAt.Some? then w.registeredAt.value else ZERO_TIME,
      if w.expiresAt.Some? then w.expiresAt.value else ZERO_TIME,
      if w.originRelayId == "" then sender else w.originRelayId,
      w.version)
  }

  /** The records a pull merges: those with both timestamps. */
  function PulledRecords(ws: seq<WireRecord>, addr: string): seq<Registration> {
    if ws == [] then []
    else
      var w := ws[|ws| - 1];
      PulledRecords(ws[..|ws| - 1], addr)
      + if w.registeredAt.None? || w.expiresAt.None? then [] else [Received(w, addr)]
  }

  /** The records a push offers to the merge: those that name a peer. */
  function PushedRecords(ws: seq<WireRecord>, relayId: string): seq<Registration> {
    if ws == [] then []
    else
      var w := ws[|ws| - 1];
      PushedRecords(ws[..|ws| - 1], relayId) + if w.peerId == "" then [] else [Received(w, relayId)]
  }

  /** How many records of a push are not refused: a stale record counts as accepted. */
  function AcceptedCount(fed: Store, ws: seq<WireRecord>, relayId: string, cap: int): nat {
    if ws == [] then 0
    else
      var before := Merge.MergeAll(fed, PushedRecords(ws[..|ws| - 1], relayId), cap);
      var w := ws[|ws| - 1];
      AcceptedCount(fed, ws[..|ws| - 1], relayId, cap)
      + if w.peerId != "" && (w.peerId in before || |before| < cap) then 1 else 0
  }

  lemma MergeOneMore(fed: Store, msgs: seq<Registration>, m: Registration, cap: int)
    ensures Merge.MergeAll(fed, msgs + [m], cap) == Merge.MergeOne(Merge.MergeAll(fed, msgs, cap), m, cap)
  {
    assert (msgs + [m])[..|msgs|] == msgs;
  }

  /** How one more record continues a push: it is accepted when it names a peer that is stored, be the record stale or
      not, or for which there is room. */
  lemma PushOneMore(fed: Store, ws: seq<WireRecord>, i: nat, relayId: string, cap: int)
    requires i < |ws|
    ensures AcceptedCount(fed, [], relayId, cap) == 0
    ensures var before := Merge.MergeAll(fed, PushedRecords(ws[..i], relayId), cap);
            && Merge.MergeAll(fed, PushedRecords(ws[..i + 1], relayId), cap)
               == (if ws[i].peerId == "" then before else Merge.MergeOne(before, Received(ws[i], relayId), cap))
            && AcceptedCount(fed, ws[..i + 1], relayId, cap)
               == AcceptedCount(fed, ws[..i], relayId, cap)
                  + if ws[i].peerId != "" && (ws[i].peerId in before || |before| < cap) then 1 else 0
  {
    assert ws[..i + 1][..i] == ws[..i];
    assert PushedRecords(ws[..i], relayId) + [] == PushedRecords(ws[..i], relayId);
    MergeOneMore(fed, PushedRecords(ws[..i], relayId), Received(ws[i], relayId), cap);
  }

  /** How one more record continues a pull. */
  lemma PullOneMore(fed: Store, ws: seq<WireRecord>, i: nat, addr: string, cap: int)
    requires i < |ws|
    ensures var before := Merge.MergeAll(fed, PulledRecords(ws[..i], addr), cap);
            Merge.MergeAll(fed, PulledRecords(ws[..i + 1], addr), cap)
            == if ws[i].registeredAt.None? || ws[i].expiresAt.None? then before
               else Merge.MergeOne(before, Received(ws[i], addr), cap)
  {
    assert ws[..i + 1][..i] == ws[..i];
    assert PulledRecords(ws[..i], addr) + [] == PulledRecords(ws[..i], addr);
    MergeOneMore(fed, PulledRecords(ws[..i], addr), Received(ws[i], addr), cap);
  }

  class Server {
    const registry: Registry
    const relayID: string

    constructor (registry: Registry, relayID: string)
      ensures this.registry == registry && this.relayID == relayID
    {
      this.registry, this.relayID := registry, relayID;
    }

    /** Local registrations since the requested instant, as many as the limit allows. The snapshot is read at
        `snapshotAt`, the timestamp afterwards at `stampAt`. None when the requester does not name itself. */
    method SyncRegistrations(relayId: string, since: Option<Time>, limit: int, snapshotAt: Time, stampAt: Time)
      returns (response: Option<SyncResponse>)
      requires registry.Valid()
      ensures relayId == "" <==> response.None?
      ensures relayId != "" ==>
                && response.value.syncTimestamp == Some(stampAt)
                && Answers(response.value.registrations, relayID, registry.entries,
                           if since.Some? then since.value else ZERO_TIME, snapshotAt, limit)
    {
      if relayId == "" {
        return None;
      }
      var sinceTime := if since.Some? then since.value else ZERO_TIME;
      var lim := if limit <= 0 then Pull.DEFAULT_SYNC_LIMIT
                 else if limit > Pull.MAX_SYNC_LIMIT then Pull.MAX_SYNC_LIMIT else limit;
      var locals := registry.LocalRegistrations(sinceTime, snapshotAt);
      var fedRegs := [];
      for i := 0 to |locals|
        invariant fedRegs == Wired(relayID, locals[..Min(i, lim)])
      {
        if |fedRegs| >= lim {
          break;
        }
        assert locals[..i + 1] == locals[..i] + [locals[i]];
        fedRegs := fedRegs + [ToWire(relayID, locals[i])];
      }
      CutAnswers(locals, relayID, registry.entries, sinceTime, snapshotAt, limit);
      return Some(SyncResponse(fedRegs, Some(stampAt)));
    }

    /** Merges a pushed batch; returns how many records were accepted and how many refused. */
    method PushRegistrations(relayId: string, regs: seq<WireRecord>) returns (counts: Option<(nat, nat)>)
      requires registry.Valid()
      modifies registry
      ensures registry.Valid() && registry.entries == old(registry.entries)
      ensures relayId == "" ==> counts == None && registry.federated == old(registry.federated)
      ensures relayId != "" ==>
                && registry.federated == Merge.MergeAll(old(registry.federated), PushedRecords(regs, relayId),
                                                        registry.cfg.maxFederated)
                && counts.Some? && counts.value.0 + counts.value.1 == |regs|
                && counts.value.0 == AcceptedCount(old(registry.federated), regs, relayId, registry.cfg.maxFederated)
    {
      if relayId == "" {
        return None;
      }
      ghost var before, cap := registry.federated, registry.cfg.maxFederated;
      var accepted: nat, rejected: nat := 0, 0;
      for i := 0 to |regs|
        invariant registry.Valid() && registry.entries == old(registry.entries)
        invariant registry.federated == Merge.MergeAll(before, PushedRecords(regs[..i], relayId), cap)
        invariant accepted + rejected == i && accepted == AcceptedCount(before, regs[..i], relayId, cap)
      {
        PushOneMore(before, regs, i, relayId, cap);
        var w := regs[i];
        if w.peerId == "" {
          rejected := rejected + 1;
          continue;
        }
        var reg := Received(w, relayId);
        var ok := registry.RegisterFederated(w.peerId, reg.origin, w.skills, w.agentName, w.agentDescription,
                                             reg.registeredAt, reg.expiresAt, w.version);
        if ok { accepted := accepted + 1; } else { rejected := rejected + 1; }
      }
      assert regs[..|regs|] == regs;
      return Some((accepted, rejected));
    }
  }

  function Wired(relayID: string, regs: seq<Registration>): (ws: seq<WireRecord>)
    ensures |ws| == |regs| && forall i | 0 <= i < |regs| :: ws[i] == ToWire(relayID, regs[i])
  {
    seq(|regs|, i requires 0 <= i < |regs| => ToWire(relayID, regs[i]))
  }

  /** The records answer a pull: copies of current local records, one per peer, for a legal cut of what was asked. */
  ghost predicate Answers(ws: seq<WireRecord>, relayID: string, entries: Store, since: Time, at: Time, limit: int) {
    exists regs ::
      && ws == Wired(relayID, regs) && Enumerates(regs, entries, PeersIn(regs))
      && Pull.IsCut(PeersIn(regs), UpdatedSince(entries, since, at), Pull.SyncLimit(limit))
  }

  lemma CutAnswers(locals: seq<Registration>, relayID: string, entries: Store, since: Time, at: Time, limit: int)
    requires Enumerates(locals, entries, UpdatedSince(entries, since, at))
    ensures Answers(Wired(relayID, locals[..Min(|locals|, Pull.SyncLimit(limit))]), relayID, entries, since, at, limit)
  {
    var found := UpdatedSince(entries, since, at);
    var regs := locals[..Min(|locals|, Pull.SyncLimit(limit))];
    assert forall i | 0 <= i < |regs| :: regs[i] == locals[i];
    DrawnSize(locals, entries, found);
    DrawnSize(regs, entries, found);
    assert forall i | 0 <= i < |regs| :: regs[i].peerID in PeersIn(regs);
    assert Enumerates(regs, entries, PeersIn(regs));
  }

  /** What an answer holds, in terms of the registry: under this relay's ID, current local records that were registered
      at or after the instant asked for, each peer once. */
  lemma AnswersAreCurrent(ws: seq<WireRecord>, relayID: string, entries: Store, since: Time, at: Time, limit: int)
    requires Answers(ws, relayID, entries, since, at, limit)
    ensures forall i | 0 <= i < |ws| ::
              && ws[i].peerId in entries
              && var e := entries[ws[i].peerId];
                 && ws[i] == WireRecord(e.peerID, relayID, e.skills, e.agentName, e.agentDescription,
                                        Some(e.registeredAt), Some(e.expiresAt), e.version)
                 && since <= e.registeredAt && at <= e.expiresAt
    ensures forall i, j | 0 <= i < j < |ws| :: ws[i].peerId != ws[j].peerId
  {
    var found := UpdatedSince(entries, since, at);
    var regs: seq<Registration> :| ws == Wired(relayID, regs) && Enumerates(regs, entries, PeersIn(regs))
                                   && Pull.IsCut(PeersIn(regs), found, Pull.SyncLimit(limit));
    forall i | 0 <= i < |regs| ensures regs[i].peerID in found {
      assert regs[i].peerID in PeersIn(regs);
    }
  }

  /** All such records, unless the limit is reached, which is never exceeded. */
  lemma AnswersAreComplete(ws: seq<WireRecord>, relayID: string, entries: Store, since: Time, at: Time, limit: int,
                           p: string)
    requires Answers(ws, relayID, entries, since, at, limit)
    ensures |ws| <= if limit <= 0 then 500 else if limit > 5000 then 5000 else limit
    ensures p in entries && since <= entries[p].registeredAt && at <= entries[p].expiresAt
            && |ws| < (if limit <= 0 then 500 else if limit > 5000 then 5000 else limit) ==>
              exists i | 0 <= i < |ws| :: ws[i].peerId == p
  {
    var found := UpdatedSince(entries, since, at);
    var regs: seq<Registration> :| ws == Wired(relayID, regs) && Enumerates(regs, entries, PeersIn(regs))
                                   && Pull.IsCut(PeersIn(regs), found, Pull.SyncLimit(limit));
    DrawnSize(regs, entries, PeersIn(regs));
    if p in found && |ws| < Pull.SyncLimit(limit) {
      SubsetOfSize(PeersIn(regs), found);
      var i :| 0 <= i < |regs| && regs[i].peerID == p;
      assert ws[i].peerId == p;
    }
  }

  /** What a pull merges: of each record with both timestamps a copy, its origin inferred where it names none. */
  lemma {:induction false} PulledAre(ws: seq<WireRecord>, addr: string, m: Registration)
    ensures m in PulledRecords(ws, addr)
            <==> exists i | 0 <= i < |ws| ::
                   && ws[i].registeredAt.Some? && ws[i].expiresAt.Some?
                   && m == Registration(ws[i].peerId, ws[i].skills, ws[i].agentName, ws[i].agentDescription,
                                        ws[i].registeredAt.value, ws[i].expiresAt.value,
                                        if ws[i].originRelayId == "" then addr else ws[i].originRelayId, ws[i].version)
  {
    if ws != [] {
      var n := |ws| - 1;
      PulledAre(ws[..n], addr, m);
      assert forall i | 0 <= i < n :: ws[..n][i] == ws[i];
      assert PulledRecords(ws, addr)
          == PulledRecords(ws[..n], addr)
             + if ws[n].registeredAt.None? || ws[n].expiresAt.None? then [] else [Received(ws[n], addr)];
    }
  }

  /** What a push offers to the merge: a copy of each record that names a peer, an absent timestamp read as the zero
      time and the sender as the origin of a record that names none. */
  lemma {:induction false} PushedAre(ws: seq<WireRecord>, relayId: string, m: Registration)
    ensures m in PushedRecords(ws, relayId)
            <==> exists i | 0 <= i < |ws| ::
                   && ws[i].peerId != ""
                   && m == Registration(ws[i].peerId, ws[i].skills, ws[i].agentName, ws[i].agentDescription,
                                        if ws[i].registeredAt.Some? then ws[i].registeredAt.value else ZERO_TIME,
                                        if ws[i].expiresAt.Some? then ws[i].expiresAt.value else ZERO_TIME,
                                        if ws[i].originRelayId == "" then relayId else ws[i].originRelayId,
                                        ws[i].version)
  {
    if ws != [] {
      var n := |ws| - 1;
      PushedAre(ws[..n], relayId, m);
      assert forall i | 0 <= i < n :: ws[..n][i] == ws[i];
      assert PushedRecords(ws, relayId)
          == PushedRecords(ws[..n], relayId) + if ws[n].peerId == "" then [] else [Received(ws[n], relayId)];
    }
  }

  // ---- What successive pulls ask for ----

  /** One call of `SyncPeer`: the instant it asked from, if it named one, and the timestamp of the answer it merged;
      none when it was skipped, failed or got no timestamp. */
  datatype SyncCall = SyncCall(addr: string, asked: Option<Time>, stamp: Option<Time>)

  /** `syncs` are the values that `lastSync` takes from a new federation on, one before and one after each call. */
  ghost predicate IsSyncRun(calls: seq<SyncCall>, syncs: seq<map<string, Time>>) {
    && |syncs| == |calls| + 1 && syncs[0] == map[]
    && forall k | 0 <= k < |calls| :: SyncStep(calls[k], syncs[k], syncs[k + 1])
  }

  /** How one call reads and moves the cursors, as `SyncPeer` ensures it. */
  ghost predicate SyncStep(call: SyncCall, before: map<string, Time>, after: map<string, Time>) {
    && call.asked == (if call.addr in before && before[call.addr] != ZERO_TIME then Some(before[call.addr]) else None)
    && after == if call.stamp.Some? then before[call.addr := call.stamp.value] else before
  }

  /** The timestamps that calls to one relay have come away with. */
  function Stamps(calls: seq<SyncCall>, addr: string): seq<Time> {
    if calls == [] then []
    else
      var last := calls[|calls| - 1];
      Stamps(calls[..|calls| - 1], addr) + if last.addr == addr && last.stamp.Some? then [last.stamp.value] else []
  }

  lemma {:induction false} SyncsHoldLastStamp(calls: seq<SyncCall>, syncs: seq<map<string, Time>>, i: nat, addr: string)
    requires IsSyncRun(calls, syncs) && i <= |calls|
    ensures var stamps := Stamps(calls[..i], addr);
            if stamps == [] then addr !in syncs[i] else addr in syncs[i] && syncs[i][addr] == stamps[|stamps| - 1]
  {
    if i > 0 {
      SyncsHoldLastStamp(calls, syncs, i - 1, addr);
      assert SyncStep(calls[i - 1], syncs[i - 1], syncs[i]);
      assert calls[..i][..i - 1] == calls[..i - 1];
    }
  }

  /** Over every sequence of calls on a new federation, a request asks from the timestamp of the last answer merged from
      the same relay, and before there is one it names no instant. */
  lemma RequestsFollowStamps(calls: seq<SyncCall>, syncs: seq<map<string, Time>>, i: nat)
    requires IsSyncRun(calls, syncs) && i < |calls|
    ensures var stamps := Stamps(calls[..i], calls[i].addr);
            if stamps == [] then calls[i].asked == None
            else (if calls[i].asked.Some? then calls[i].asked.value else ZERO_TIME) == stamps[|stamps| - 1]
  {
    SyncsHoldLastStamp(calls, syncs, i, calls[i].addr);
    assert SyncStep(calls[i], syncs[i], syncs[i + 1]);
  }

  class Federation {
    const relayID: string
    const registry: Registry
    /** What `math.Pow` beyond 2^62 converts to on this platform. */
    const overflow: int
    var lastSync: map<string, Time>
    var peerStates: map<string, Backoff.PeerState>

    constructor (relayID: string, registry: Registry, overflow: int)
      ensures this.relayID == relayID && this.registry == registry && this.overflow == overflow
      ensures lastSync == map[] && peerStates == map[]
    {
      this.relayID, this.registry, this.overflow := relayID, registry, overflow;
      lastSync, peerStates := map[], map[];
    }

    function StateOf(addr: string): Backoff.PeerState
      reads this
    {
      if addr in peerStates then peerStates[addr] else Backoff.NO_FAILURES
    }

    /** The `since` of the next request to a peer relay; none before the first success. */
    function Cursor(addr: string): Option<Time>
      reads this
    {
      if addr in lastSync && lastSync[addr] != ZERO_TIME then Some(lastSync[addr]) else None
    }

    method RecordPeerFailure(addr: string, now: Time)
      modifies this`peerStates
      ensures peerStates == old(peerStates)[addr := Backoff.Failed(old(StateOf(addr)), now, overflow)]
      ensures var failures := (if addr in old(peerStates) then old(peerStates)[addr].failures else 0) + 1;
              peerStates[addr] == Backoff.PeerState(failures, now + Backoff.Delay(failures, overflow))
    {
      var state := StateOf(addr);
      var failures := state.failures + 1;
      var delay := Backoff.Wrap64(Backoff.BASE_DELAY * Backoff.ToDuration(failures - 1, overflow));
      if delay > Backoff.MAX_DELAY {
        delay := Backoff.MAX_DELAY;
      }
      peerStates := peerStates[addr := Backoff.PeerState(failures, now + delay)];
    }

    method RecordPeerSuccess(addr: string)
      modifies this`peerStates
      ensures peerStates == if addr in old(peerStates) then old(peerStates)[addr := Backoff.PeerState(0, ZERO_TIME)]
                            else old(peerStates)
      ensures StateOf(addr) == Backoff.NO_FAILURES
      ensures forall a | a != addr :: StateOf(a) == old(StateOf(a))
    {
      if addr in peerStates {
        peerStates := peerStates[addr := Backoff.NO_FAILURES];
      }
    }

    /** One pull from one peer relay. `call` is what the remote end makes of a request: None for an error.
        A skipped or failed pull touches neither cursor nor registry; a successful one merges every timestamped
        record and moves the cursor, whatever the merge made of them. */
    method SyncPeer(addr: string, call: Option<Time> -> Option<SyncResponse>, start: Time, end: Time)
      requires registry.Valid()
      modifies this, registry
      ensures registry.Valid() && registry.entries == old(registry.entries)
      ensures var asked := if addr in old(lastSync) && old(lastSync)[addr] != ZERO_TIME
                           then Some(old(lastSync)[addr]) else None;
              var reply := call(asked);
              var skipped := start < if addr in old(peerStates) then old(peerStates)[addr].until else ZERO_TIME;
              && StateOf(addr) == Backoff.Step(old(StateOf(addr)), Backoff.Tick(start, end, reply.Some?), overflow)
              && (forall a | a != addr :: StateOf(a) == old(StateOf(a)) && Cursor(a) == old(Cursor(a)))
              && (skipped || reply.None? ==> lastSync == old(lastSync) && registry.federated == old(registry.federated))
              && (!skipped && reply.Some? ==>
                    && registry.federated == Merge.MergeAll(old(registry.federated),
                         PulledRecords(reply.value.registrations, addr), registry.cfg.maxFederated)
                    && lastSync == (if reply.value.syncTimestamp.Some?
                                    then old(lastSync)[addr := reply.value.syncTimestamp.value] else old(lastSync))
                    && (reply.value.syncTimestamp.Some? ==> SinceOf(Cursor(addr)) == reply.value.syncTimestamp.value))
    {
      if start < StateOf(addr).until {
        return;
      }
      var reply := call(Cursor(addr));
      if reply.None? {
        RecordPeerFailure(addr, end);
        return;
      }
      RecordPeerSuccess(addr);
      MergePulled(addr, reply.value.registrations);
      if reply.value.syncTimestamp.Some? {
        lastSync := lastSync[addr := reply.value.syncTimestamp.value];
      }
    }

    method MergePulled(addr: string, regs: seq<WireRecord>)
      requires registry.Valid()
      modifies registry
      ensures registry.Valid() && registry.entries == old(registry.entries)
      ensures registry.federated ==
              Merge.MergeAll(old(registry.federated), PulledRecords(regs, addr), registry.cfg.maxFederated)
    {
      ghost var before, cap := registry.federated, registry.cfg.maxFederated;
      for i := 0 to |regs|
        invariant registry.Valid() && registry.entries == old(registry.entries)
        invariant registry.federated == Merge.MergeAll(before, PulledRecords(regs[..i], addr), cap)
      {
        PullOneMore(before, regs, i, addr, cap);
        var w := regs[i];
        if w.registeredAt.None? || w.expiresAt.None? {
          continue;
        }
        var origin := if w.originRelayId == "" then addr else w.originRelayId;
        var _ := registry.RegisterFederated(w.peerId, origin, w.skills, w.agentName, w.agentDescription,
                                            w.registeredAt.value, w.expiresAt.value, w.version);
      }
      assert regs[..|regs|] == regs;
    }

    /** Sends the same records, under this relay's own ID, to every peer relay, in any order; `send` is the error a
        call returns, if any. Every call is made whatever becomes of the others, and the error that is returned, if
        any call failed, is one of theirs. */
    method PushLocal(regs: seq<Registration>, clients: set<string>, send: (string, seq<WireRecord>) -> Option<string>)
      returns (outbox: map<string, seq<WireRecord>>, firstErr: Option<string>)
      ensures outbox.Keys == if regs == [] then {} else clients
      ensures forall addr | addr in outbox :: outbox[addr] == Wired(relayID, regs)
      ensures forall addr | addr in outbox ::
                |outbox[addr]| == |regs| && forall i | 0 <= i < |regs| ::
                  outbox[addr][i] == WireRecord(regs[i].peerID, relayID, regs[i].skills, regs[i].agentName,
                                                regs[i].agentDescription, Some(regs[i].registeredAt),
                                                Some(regs[i].expiresAt), regs[i].version)
      ensures firstErr == None <==> forall addr | addr in outbox :: send(addr, outbox[addr]) == None
      ensures firstErr != None ==> exists addr | addr in outbox :: send(addr, outbox[addr]) == firstErr
    {
      outbox, firstErr := map[], None;
      if |clients| == 0 || |regs| == 0 {
        return;
      }
      var fedRegs := [];
      for i := 0 to |regs|
        invariant fedRegs == Wired(relayID, regs[..i])
      {
        fedRegs := fedRegs + [ToWire(relayID, regs[i])];
      }
      assert regs[..|regs|] == regs;
      var todo := clients;
      while todo != {}
        invariant todo <= clients && outbox.Keys == clients - todo
        invariant forall addr | addr in outbox :: outbox[addr] == fedRegs
        invariant firstErr == None <==> forall addr | addr in outbox :: send(addr, fedRegs) == None
        invariant firstErr != None ==> exists addr | addr in outbox :: send(addr, fedRegs) == firstErr
        decreases |todo|
      {
        var addr :| addr in todo;
        todo := todo - {addr};
        outbox := outbox[addr := fedRegs];
        var err := send(addr, fedRegs);
        if err != None && firstErr == None {
          firstErr := err;
        }
      }
    }
  }
}
