/** The registry service: the only way local registrations enter a relay. */
module Gate {
  import opened Common
  import opened Records
  import opened RegistryModel
  import opened RegistryStore
  import opened SkillIndex

  datatype Reply = Accepted(expiresAt: Time) | InvalidArgument(message: string) | ResourceExhausted

  /** A registration the service lets through. */
  predicate Admissible(peer: string, skills: seq<SkillInfo>) {
    peer != "" && skills != [] && !Lists(skills, "")
  }

  /** Calls on the service, and the maintenance that runs beside it. */
  datatype Request =
    | RegisterSkills(peer: string, skills: seq<SkillInfo>, name: string, desc: string)
    | UnregisterSkills(peer: string, ids: seq<string>)
    | Heartbeat(peer: string)
    | Disconnect(peer: string)
    | Cleanup

  function Serve(cfg: Config, v: View, req: Request, now: Time): View {
    match req
    case RegisterSkills(peer, skills, name, desc) =>
      if Admissible(peer, skills) then Apply(cfg, v, LocalOp.Register(peer, skills, name, desc), now) else v
    case UnregisterSkills(peer, ids) =>
      if peer != "" then Apply(cfg, v, LocalOp.Unregister(peer, ids), now) else v
    case Heartbeat(peer) => if peer != "" then Apply(cfg, v, LocalOp.Heartbeat(peer), now) else v
    case Disconnect(peer) => Apply(cfg, v, LocalOp.RemovePeer(peer), now)
    case Cleanup => Apply(cfg, v, LocalOp.EvictExpired, now)
  }

  function ServeAll(cfg: Config, reqs: seq<(Request, Time)>): View {
    if reqs == [] then View(map[], map[])
    else Serve(cfg, ServeAll(cfg, reqs[..|reqs| - 1]), reqs[|reqs| - 1].0, reqs[|reqs| - 1].1)
  }

  ghost predicate AllAdmissible(entries: Store) {
    forall p | p in entries :: Admissible(p, entries[p].skills)
  }

  lemma UnlistKeepsAdmissible(entries: Store, peer: string, ids: seq<string>)
    requires AllAdmissible(entries)
    ensures AllAdmissible(Unlist(entries, peer, ids))
  {
    if peer in entries {
      WithoutLists(entries[peer].skills, ids, "");
    }
  }

  lemma {:induction false} RunsKeepAdmissible(cfg: Config, reqs: seq<(Request, Time)>)
    ensures AllAdmissible(ServeAll(cfg, reqs).entries)
  {
    if reqs != [] {
      var front, req := reqs[..|reqs| - 1], reqs[|reqs| - 1].0;
      RunsKeepAdmissible(cfg, front);
      if req.UnregisterSkills? {
        UnlistKeepsAdmissible(ServeAll(cfg, front).entries, req.peer, req.ids);
      }
    }
  }

  /** After any run of the service every stored agent, and nothing else, is found through the index,
      and no skill is indexed under the empty ID. */
  lemma EveryAgentIsFindable(cfg: Config, reqs: seq<(Request, Time)>, index: Index)
    requires Coherent(index, ServeAll(cfg, reqs).entries)
    ensures (set s, p | s in index && p in index[s] :: p) == ServeAll(cfg, reqs).entries.Keys
    ensures "" !in index
  {
    RunsKeepAdmissible(cfg, reqs);
    FindableIffSkilled(index, ServeAll(cfg, reqs).entries);
    if "" in index {
      var p :| p in index[""];
      assert Has(index, "", p);
    }
  }

  class GRPCServer {
    const registry: Registry

    constructor (registry: Registry)
      ensures this.registry == registry
    {
      this.registry := registry;
    }

    method RegisterSkills(peer: string, skills: seq<SkillInfo>, name: string, desc: string, now: Time)
      returns (reply: Reply)
      requires registry.Valid()
      modifies registry
      ensures registry.Valid()
      ensures registry.Contents() == Serve(registry.cfg, old(registry.Contents()),
                                           Request.RegisterSkills(peer, skills, name, desc), now)
      ensures reply.InvalidArgument? <==>
                peer == "" || skills == [] || exists i | 0 <= i < |skills| :: skills[i].skillID == ""
      ensures reply.ResourceExhausted? <==>
                && !reply.InvalidArgument?
                && peer !in old(registry.entries) && |old(registry.entries)| >= registry.cfg.maxRegistrations
      ensures reply.Accepted? ==> reply.expiresAt == now + registry.cfg.ttl
      ensures registry.entries == (if !reply.Accepted? then old(registry.entries)
                                   else old(registry.entries)[peer :=
                                          Registration(peer, skills, name, desc, now, now + registry.cfg.ttl, "",
                                                       now % 0x1_0000_0000_0000_0000)])
      ensures registry.federated == old(registry.federated)
    {
      if peer == "" {
        return InvalidArgument("peer_id is required");
      }
      if |skills| == 0 {
        return InvalidArgument("at least one skill is required");
      }
      var checked := [];
      for i := 0 to |skills|
        invariant checked == skills[..i]
        invariant forall j | 0 <= j < i :: skills[j].skillID != ""
      {
        if skills[i].skillID == "" {
          return InvalidArgument("skill_id is required for all skills");
        }
        checked := checked + [skills[i]];
      }
      assert checked == skills;
      var expiresAt := registry.Register(peer, checked, name, desc, now);
      if expiresAt.None? {
        return ResourceExhausted;
      }
      return Accepted(expiresAt.value);
    }

    method UnregisterSkills(peer: string, ids: seq<string>) returns (ok: bool)
      requires registry.Valid()
      modifies registry
      ensures registry.Valid() && (ok <==> peer != "")
      ensures registry.Contents() == Serve(registry.cfg, old(registry.Contents()),
                                           Request.UnregisterSkills(peer, ids), 0)
      ensures registry.Contents() == if peer == "" then old(registry.Contents())
                                     else Apply(registry.cfg, old(registry.Contents()),
                                                LocalOp.Unregister(peer, ids), 0)
    {
      if peer == "" {
        return false;
      }
      registry.Unregister(peer, ids);
      return true;
    }

    /** None for a request without a peer and for an unknown one. */
    method Heartbeat(peer: string, now: Time) returns (expiresAt: Option<Time>)
      requires registry.Valid()
      modifies registry
      ensures registry.Valid()
      ensures registry.Contents() == Serve(registry.cfg, old(registry.Contents()), Request.Heartbeat(peer), now)
      ensures registry.entries == (if peer != "" && peer in old(registry.entries)
                                   then old(registry.entries)[peer :=
                                          old(registry.entries)[peer].(expiresAt := now + registry.cfg.ttl)]
                                   else old(registry.entries))
      ensures registry.federated == old(registry.federated)
      ensures peer == "" ==> expiresAt == None
      ensures peer != "" && now + registry.cfg.ttl != ZERO_TIME ==>
                expiresAt == if peer in old(registry.entries) then Some(now + registry.cfg.ttl) else None
    {
      if peer == "" {
        return None;
      }
      var expires := registry.Heartbeat(peer, now);
      return if expires == ZERO_TIME then None else Some(expires);
    }
  }
}
