/** The skill registry: two stores of records with hand-maintained indexes and counters. */
module RegistryStore {
  import opened Common
  import opened Records
  import opened SkillIndex
  import opened RegistryModel
  import Merge

  const DEFAULT_TTL: Time := 30_000_000_000
  const DEFAULT_MAX_REGISTRATIONS := 4096
  const DEFAULT_MAX_FEDERATED := 8192

  function OrDefault(value: int, default: int): int {
    if value == 0 then default else value
  }

  /** A capacity that was configured negative admits nothing. */
  function Bound(limit: int): nat {
    if limit < 0 then 0 else limit
  }

  /** What the methods must keep in agreement by hand, for one of the two stores. */
  ghost predicate Agree(m: Store, index: Index, count: int, limit: int) {
    Keyed(m) && Coherent(index, m) && count == |m| <= Bound(limit)
  }

  class Registry {
    const cfg: Config
    var entries: Store
    var federated: Store
    var skillIndex: Index
    var fedSkillIndex: Index
    var localCount: int
    var federatedCount: int

    ghost predicate Valid()
      reads this
    {
      && Agree(entries, skillIndex, localCount, cfg.maxRegistrations)
      && Agree(federated, fedSkillIndex, federatedCount, cfg.maxFederated)
    }

    function Contents(): View
      reads this
    {
      View(entries, federated)
    }

    constructor (ttl: Time, maxRegistrations: int, maxFederated: int)
      ensures Valid() && entries == map[] && federated == map[]
      ensures cfg.ttl == if ttl == 0 then 30_000_000_000 else ttl
      ensures cfg.maxRegistrations == if maxRegistrations == 0 then 4096 else maxRegistrations
      ensures cfg.maxFederated == if maxFederated == 0 then 8192 else maxFederated
    {
      cfg := Config(OrDefault(ttl, DEFAULT_TTL), OrDefault(maxRegistrations, DEFAULT_MAX_REGISTRATIONS),
                    OrDefault(maxFederated, DEFAULT_MAX_FEDERATED));
      entries, federated := map[], map[];
      skillIndex, fedSkillIndex := map[], map[];
      localCount, federatedCount := 0, 0;
    }

    /** Returns the expiration time, or None when the registry is full. */
    method Register(peer: string, skills: seq<SkillInfo>, name: string, desc: string, now: Time)
      returns (expiresAt: Option<Time>)
      requires Valid()
      modifies this
      ensures Valid()
      ensures expiresAt == if peer in old(entries) || old(|entries|) < cfg.maxRegistrations
                           then Some(now + cfg.ttl) else None
      ensures entries == (if expiresAt == None then old(entries)
                          else old(entries)[peer := Registration(peer, skills, name, desc, now, now + cfg.ttl, "",
                                                                 now % 0x1_0000_0000_0000_0000)])
      ensures federated == old(federated)
      ensures Contents() == Apply(cfg, old(Contents()), LocalOp.Register(peer, skills, name, desc), now)
    {
      var known := peer in entries;
      if !known && |entries| >= cfg.maxRegistrations {
        return None;
      }
      var expires := now + cfg.ttl;
      ghost var before := skillIndex;
      if known {
        skillIndex := RemoveFromSkillIndex(skillIndex, peer, entries[peer].skills);
      }
      ghost var cleared := skillIndex;
      skillIndex := AddToSkillIndex(skillIndex, peer, skills);
      var reg := Registration(peer, skills, name, desc, now, expires, "", VersionAt(now));
      PutAgrees(before, cleared, skillIndex, entries, localCount, cfg.maxRegistrations, reg);
      entries := entries[peer := reg];
      if !known {
        localCount := localCount + 1;
      }
      return Some(expires);
    }

    /** Drops the named skills of a peer, or the whole registration when none are named or none are left. */
    method Unregister(peer: string, ids: seq<string>)
      requires Valid()
      modifies this
      ensures Valid()
      ensures Contents() == Apply(cfg, old(Contents()), LocalOp.Unregister(peer, ids), 0)
    {
      if ids == [] {
        RemovePeer(peer);
        return;
      }
      if peer !in entries {
        return;
      }
      var reg := entries[peer];
      ghost var before := skillIndex;
      skillIndex := RemoveNamed(skillIndex, peer, reg.skills, ids);
      var filtered := KeepOthers(reg.skills, ids);
      UnlistedAgrees(before, skillIndex, entries, localCount, cfg.maxRegistrations, peer, ids);
      if |filtered| == 0 {
        entries := entries - {peer};
        localCount := localCount - 1;
      } else {
        entries := entries[peer := reg.(skills := filtered)];
      }
    }

    /** Returns the new expiration time, or the zero time for an unknown peer. Expiry is not checked. */
    method Heartbeat(peer: string, now: Time) returns (expiresAt: Time)
      requires Valid()
      modifies this
      ensures Valid()
      ensures expiresAt == if peer in old(entries) then now + cfg.ttl else ZERO_TIME
      ensures entries == (if peer in old(entries)
                          then old(entries)[peer := old(entries)[peer].(expiresAt := expiresAt)] else old(entries))
      ensures federated == old(federated)
      ensures Contents() == Apply(cfg, old(Contents()), LocalOp.Heartbeat(peer), now)
    {
      if peer !in entries {
        return ZERO_TIME;
      }
      RenewedAgrees(skillIndex, entries, localCount, cfg.maxRegistrations, peer, now + cfg.ttl);
      entries := entries[peer := entries[peer].(expiresAt := now + cfg.ttl)];
      return entries[peer].expiresAt;
    }

    method RemovePeer(peer: string)
      requires Valid()
      modifies this
      ensures Valid()
      ensures entries == old(entries) - {peer} && federated == old(federated)
      ensures Contents() == Apply(cfg, old(Contents()), LocalOp.RemovePeer(peer), 0)
    {
      if peer in entries {
        ghost var before := skillIndex;
        skillIndex := RemoveFromSkillIndex(skillIndex, peer, entries[peer].skills);
        DropAgrees(before, skillIndex, entries, localCount, cfg.maxRegistrations, peer);
        entries := entries - {peer};
        localCount := localCount - 1;
      }
    }

    method EvictExpired(now: Time)
      requires Valid()
      modifies this
      ensures Valid()
      ensures Contents() == Apply(cfg, old(Contents()), LocalOp.EvictExpired, now)
    {
      entries, skillIndex, localCount := EvictFrom(entries, skillIndex, localCount, cfg.maxRegistrations, now);
      federated, fedSkillIndex, federatedCount :=
        EvictFrom(federated, fedSkillIndex, federatedCount, cfg.maxFederated, now);
    }

    /** Last-writer-wins: a greater version, or an equal one from a lower origin ID. False when full. */
    method RegisterFederated(peer: string, origin: string, skills: seq<SkillInfo>, name: string, desc: string,
                             registeredAt: Time, expiresAt: Time, version: nat)
      returns (ok: bool)
      requires Valid()
      modifies this
      ensures Valid()
      ensures ok <==> peer in old(federated) || old(|federated|) < cfg.maxFederated
      ensures entries == old(entries)
      ensures var reg := Registration(peer, skills, name, desc, registeredAt, expiresAt, origin, version);
              && federated == Merge.MergeOne(old(federated), reg, cfg.maxFederated)
              && federated == (if (if peer in old(federated)
                                   then var e := old(federated)[peer];
                                        version > e.version || (version == e.version && Less(origin, e.origin))
                                   else old(|federated|) < cfg.maxFederated)
                               then old(federated)[peer := reg] else old(federated))
    {
      if peer in federated {
        var existing := federated[peer];
        LessTotal(existing.origin, origin);
        if existing.version > version {
          return true;
        }
        if existing.version == version && (existing.origin == origin || Less(existing.origin, origin)) {
          return true;
        }
      } else if |federated| >= cfg.maxFederated {
        return false;
      }
      ghost var before, count := fedSkillIndex, federatedCount;
      if peer in federated {
        fedSkillIndex := RemoveFromSkillIndex(fedSkillIndex, peer, federated[peer].skills);
      } else {
        federatedCount := federatedCount + 1;
      }
      ghost var cleared := fedSkillIndex;
      fedSkillIndex := AddToSkillIndex(fedSkillIndex, peer, skills);
      var reg := Registration(peer, skills, name, desc, registeredAt, expiresAt, origin, version);
      PutAgrees(before, cleared, fedSkillIndex, federated, count, cfg.maxFederated, reg);
      federated := federated[peer := reg];
      return true;
    }

    /** Discovery through the indexes, in whatever order their sets are iterated. */
    method DiscoverBySkill(skill: string, tags: Tags, limit: int, includeFederated: bool, now: Time)
      returns (results: seq<Registration>)
      requires Valid()
      ensures IsDiscovery(View(entries, federated), Query(skill, tags, now), limit, includeFederated, results)
    {
      var lim := if limit <= 0 then DEFAULT_DISCOVER_LIMIT
                 else if limit > MAX_DISCOVER_LIMIT then MAX_DISCOVER_LIMIT else limit;
      var q := Query(skill, tags, now);
      var found := Scan(entries, skillIndex, q, {}, lim);
      assert Matching(entries, q) - {} == Matching(entries, q);
      if |found| >= lim {
        HalvesMakeDiscovery(Contents(), q, limit, includeFederated, found, []);
        assert found + [] == found;
        return found;
      }
      var more := [];
      if includeFederated {
        DrawnSize(found, entries, Matching(entries, q));
        more := Scan(federated, fedSkillIndex, q, PeersIn(found), lim - |found|);
      }
      HalvesMakeDiscovery(Contents(), q, limit, includeFederated, found, more);
      return found + more;
    }

    method GetRegistration(peer: string, now: Time) returns (reg: Option<Registration>)
      ensures reg == (if peer in entries && now < entries[peer].expiresAt then Some(entries[peer])
                      else if peer in federated && now < federated[peer].expiresAt then Some(federated[peer])
                      else None)
      ensures reg == Lookup(Contents(), peer, now)
    {
      if peer in entries && Fresh(entries[peer], now) {
        return Some(entries[peer]);
      }
      if peer in federated && Fresh(federated[peer], now) {
        return Some(federated[peer]);
      }
      return None;
    }

    method AllRegistrations(now: Time) returns (results: seq<Registration>)
      requires Valid()
      ensures Enumerates(results, entries, FreshKeys(entries, now))
      ensures forall r :: r in results <==> r.peerID in entries && entries[r.peerID] == r && now < r.expiresAt
      ensures forall i, j | 0 <= i < j < |results| :: results[i].peerID != results[j].peerID
    {
      results := Collect(entries, reg => Fresh(reg, now));
      assert Kept(entries, reg => Fresh(reg, now)) == FreshKeys(entries, now);
      EnumeratedRecords(results, entries, FreshKeys(entries, now));
    }

    method FederatedRegistrations(now: Time) returns (results: seq<Registration>)
      requires Valid()
      ensures Enumerates(results, federated, FreshKeys(federated, now))
      ensures forall r :: r in results <==> r.peerID in federated && federated[r.peerID] == r && now < r.expiresAt
      ensures forall i, j | 0 <= i < j < |results| :: results[i].peerID != results[j].peerID
    {
      results := Collect(federated, reg => Fresh(reg, now));
      assert Kept(federated, reg => Fresh(reg, now)) == FreshKeys(federated, now);
      EnumeratedRecords(results, federated, FreshKeys(federated, now));
    }

    /** The local records a peer relay has not seen since `since`, that very instant included. */
    method LocalRegistrations(since: Time, now: Time) returns (results: seq<Registration>)
      requires Valid()
      ensures Enumerates(results, entries, UpdatedSince(entries, since, now))
      ensures forall r :: r in results <==>
                r.peerID in entries && entries[r.peerID] == r && since <= r.registeredAt && now <= r.expiresAt
      ensures forall i, j | 0 <= i < j < |results| :: results[i].peerID != results[j].peerID
    {
      var wanted := (reg: Registration) =>
        !Expired(reg, now) && (reg.registeredAt > since || reg.registeredAt == since);
      results := Collect(entries, wanted);
      assert Kept(entries, wanted) == UpdatedSince(entries, since, now);
      EnumeratedRecords(results, entries, UpdatedSince(entries, since, now));
    }
  }

  lemma ClearedOfPeer(before: Index, cleared: Index, m: Store, peer: string)
    requires Coherent(before, m)
    requires if peer !in m then cleared == before
             else forall s, p :: Has(cleared, s, p) <==> Has(before, s, p) && !(p == peer && Lists(m[peer].skills, s))
    ensures forall s, p :: Has(cleared, s, p) <==> p in m && p != peer && Lists(m[p].skills, s)
  {
  }

  lemma AddedIsCoherent(cleared: Index, after: Index, m: Store, peer: string, reg: Registration)
    requires NoEmptySets(after)
    requires forall s, p :: Has(cleared, s, p) <==> p in m && p != peer && Lists(m[p].skills, s)
    requires forall s, p :: Has(after, s, p) <==> Has(cleared, s, p) || (p == peer && Lists(reg.skills, s))
    ensures Coherent(after, m[peer := reg]) && |m[peer := reg]| == |m| + if peer in m then 0 else 1
  {
    assert m[peer := reg].Keys == m.Keys + {peer};
  }

  /** Taking a peer's old record out of the index, if it has one, and putting the new one in. */
  lemma PutAgrees(before: Index, cleared: Index, after: Index, m: Store, count: int, limit: int, reg: Registration)
    requires Agree(m, before, count, limit) && NoEmptySets(after) && (reg.peerID in m || |m| < limit)
    requires if reg.peerID !in m then cleared == before
             else forall s, p :: Has(cleared, s, p) <==>
                    Has(before, s, p) && !(p == reg.peerID && Lists(m[reg.peerID].skills, s))
    requires forall s, p :: Has(after, s, p) <==> Has(cleared, s, p) || (p == reg.peerID && Lists(reg.skills, s))
    ensures Agree(m[reg.peerID := reg], after, count + if reg.peerID in m then 0 else 1, limit)
  {
    ClearedOfPeer(before, cleared, m, reg.peerID);
    AddedIsCoherent(cleared, after, m, reg.peerID, reg);
  }

  lemma DropAgrees(before: Index, after: Index, m: Store, count: int, limit: int, peer: string)
    requires Agree(m, before, count, limit) && NoEmptySets(after) && peer in m
    requires forall s, p :: Has(after, s, p) <==> Has(before, s, p) && !(p == peer && Lists(m[peer].skills, s))
    ensures Agree(m - {peer}, after, count - 1, limit)
  {
    var n := m - {peer};
    forall s, p ensures Has(after, s, p) <==> p in n && Lists(n[p].skills, s) {
      assert Has(before, s, p) <==> p in m && Lists(m[p].skills, s);
    }
    assert n.Keys == m.Keys - {peer};
  }

  lemma RenewedAgrees(index: Index, m: Store, count: int, limit: int, peer: string, expiresAt: Time)
    requires Agree(m, index, count, limit) && peer in m
    ensures Agree(m[peer := m[peer].(expiresAt := expiresAt)], index, count, limit)
  {
    assert m[peer := m[peer].(expiresAt := expiresAt)].Keys == m.Keys;
  }

  /** What a valid registry keeps in agreement: records are stored under their peers, an index names exactly the peers
      whose records list the skill and keeps no empty set, and the counters count. */
  lemma IndexesFollowStores(r: Registry, s: string, p: string)
    requires r.Valid()
    ensures (s in r.skillIndex && p in r.skillIndex[s])
            <==> p in r.entries && exists i | 0 <= i < |r.entries[p].skills| :: r.entries[p].skills[i].skillID == s
    ensures (s in r.fedSkillIndex && p in r.fedSkillIndex[s])
            <==> p in r.federated
                 && exists i | 0 <= i < |r.federated[p].skills| :: r.federated[p].skills[i].skillID == s
    ensures s in r.skillIndex ==> r.skillIndex[s] != {}
    ensures s in r.fedSkillIndex ==> r.fedSkillIndex[s] != {}
    ensures (p in r.entries ==> r.entries[p].peerID == p) && (p in r.federated ==> r.federated[p].peerID == p)
    ensures r.localCount == |r.entries| && r.federatedCount == |r.federated|
  {
    assert Has(r.skillIndex, s, p) <==> p in r.entries && Lists(r.entries[p].skills, s);
    assert Has(r.fedSkillIndex, s, p) <==> p in r.federated && Lists(r.federated[p].skills, s);
  }

  /** One half of a discovery: the peers the index names for the skill, except those in `skip`,
      tried in any order until `room` of them match. */
  method Scan(m: Store, index: Index, q: Query, skip: set<string>, room: nat) returns (found: seq<Registration>)
    requires Keyed(m) && Coherent(index, m) && room > 0
    ensures DrawnFrom(found, m, Matching(m, q) - skip)
    ensures |found| == Min(room, |Matching(m, q) - skip|)
  {
    IndexCoversMatches(index, m, q);
    ghost var wanted := Matching(m, q) - skip;
    ghost var taken: set<string> := {};
    var todo := if q.skill in index then index[q.skill] else {};
    found := [];
    while todo != {}
      invariant |found| < room && Scanned(found, m, taken, wanted, todo)
      decreases |todo|
    {
      var p :| p in todo;
      ScanStep(found, m, taken, wanted, todo, p);
      todo := todo - {p};
      if p in skip { continue; }
      if Expired(m[p], q.now) { continue; }
      var offers := HasSkill(m[p], q.skill, q.tags);
      if offers {
        found := found + [m[p]];
        taken := taken + {p};
        if |found| >= room {
          FullScan(found, m, taken, wanted, room);
          return;
        }
      }
    }
    NothingLeft(found, m, taken, wanted);
  }

  /** What has been found is wanted, and what is wanted has been found or is still to be tried. */
  ghost predicate Scanned(found: seq<Registration>, m: Store, taken: set<string>, wanted: set<string>,
                          todo: set<string>)
  {
    Enumerates(found, m, taken) && todo <= m.Keys && taken <= wanted <= taken + todo && taken !! todo
  }

  lemma ScanStep(found: seq<Registration>, m: Store, taken: set<string>, wanted: set<string>, todo: set<string>,
                 p: string)
    requires Keyed(m) && Scanned(found, m, taken, wanted, todo) && p in todo
    ensures p in m
    ensures if p in wanted then Scanned(found + [m[p]], m, taken + {p}, wanted, todo - {p})
            else Scanned(found, m, taken, wanted, todo - {p})
  {
    if p in wanted { AppendDrawn(found, m, taken, p); }
  }

  lemma NothingLeft(found: seq<Registration>, m: Store, taken: set<string>, wanted: set<string>)
    requires Scanned(found, m, taken, wanted, {})
    ensures DrawnFrom(found, m, wanted) && |found| == |wanted|
  {
    assert taken == wanted;
    DrawnSize(found, m, wanted);
  }

  lemma FullScan(found: seq<Registration>, m: Store, taken: set<string>, wanted: set<string>, room: nat)
    requires Enumerates(found, m, taken) && taken <= wanted && |found| == room
    ensures DrawnFrom(found, m, wanted) && |found| == Min(room, |wanted|)
  {
    DrawnSize(found, m, taken);
    SubsetOfSize(taken, wanted);
  }

  lemma HalvesMakeDiscovery(v: View, q: Query, limit: int, includeFederated: bool,
                            found: seq<Registration>, more: seq<Registration>)
    requires DrawnFrom(found, v.entries, Matching(v.entries, q))
    requires |found| == Min(EffectiveLimit(limit), |Matching(v.entries, q)|)
    requires DrawnFrom(more, v.federated, Unshadowed(v, q, includeFederated))
    requires |more| == Min(EffectiveLimit(limit) - |found|, |Unshadowed(v, q, includeFederated)|)
    ensures IsDiscovery(v, q, limit, includeFederated, found + more)
  {
    assert (found + more)[..|found|] == found && (found + more)[|found|..] == more;
  }

  /** Takes a peer out of the sets of those of its skills that are being unregistered. */
  method RemoveNamed(index: Index, peer: string, skills: seq<SkillInfo>, ids: seq<string>) returns (r: Index)
    requires NoEmptySets(index)
    ensures NoEmptySets(r)
    ensures forall s, p :: Has(r, s, p) <==> Has(index, s, p) && !(p == peer && s in ids && Lists(skills, s))
  {
    r := index;
    for i := 0 to |skills|
      invariant NoEmptySets(r)
      invariant forall s, p :: Has(r, s, p) <==> Has(index, s, p) && !(p == peer && s in ids && Lists(skills[..i], s))
    {
      ListsPrefix(skills, i);
      if skills[i].skillID in ids {
        r := DropPeer(r, skills[i].skillID, peer);
      }
    }
    assert skills[..|skills|] == skills;
  }

  lemma UnlistedIsCoherent(before: Index, after: Index, m: Store, peer: string, ids: seq<string>)
    requires Coherent(before, m) && NoEmptySets(after) && peer in m && ids != []
    requires forall s, p :: Has(after, s, p) <==>
               Has(before, s, p) && !(p == peer && s in ids && Lists(m[peer].skills, s))
    ensures Coherent(after, Unlist(m, peer, ids))
  {
    var left, unlisted := Without(m[peer].skills, ids), Unlist(m, peer, ids);
    forall s, p ensures Has(after, s, p) <==> p in unlisted && Lists(unlisted[p].skills, s) {
      WithoutLists(m[peer].skills, ids, s);
      assert Has(before, s, p) <==> p in m && Lists(m[p].skills, s);
      if p == peer && left != [] { assert unlisted[p].skills == left; }
    }
  }

  lemma UnlistedAgrees(before: Index, after: Index, m: Store, count: int, limit: int, peer: string, ids: seq<string>)
    requires Agree(m, before, count, limit) && NoEmptySets(after) && peer in m && ids != []
    requires forall s, p :: Has(after, s, p) <==>
               Has(before, s, p) && !(p == peer && s in ids && Lists(m[peer].skills, s))
    ensures Agree(Unlist(m, peer, ids), after, count - if Without(m[peer].skills, ids) == [] then 1 else 0, limit)
  {
    UnlistedIsCoherent(before, after, m, peer, ids);
    assert Unlist(m, peer, ids).Keys == if Without(m[peer].skills, ids) == [] then m.Keys - {peer} else m.Keys;
  }

  method KeepOthers(skills: seq<SkillInfo>, ids: seq<string>) returns (filtered: seq<SkillInfo>)
    ensures filtered == Without(skills, ids)
  {
    filtered := [];
    for i := 0 to |skills|
      invariant filtered == Without(skills[..i], ids)
    {
      assert skills[..i + 1][..i] == skills[..i];
      if skills[i].skillID !in ids {
        filtered := filtered + [skills[i]];
      }
    }
    assert skills[..|skills|] == skills;
  }

  /** Whether a record lists the skill with matching tags; duplicates of a skill are tried in turn. */
  method HasSkill(reg: Registration, skill: string, tags: Tags) returns (found: bool)
    ensures found <==> Offers(reg, skill, tags)
    ensures found <==> exists j | 0 <= j < |reg.skills| ::
              && reg.skills[j].skillID == skill
              && forall k | k in tags :: (if k in reg.skills[j].tags then reg.skills[j].tags[k] else "") == tags[k]
  {
    OffersMeans(reg, skill, tags);
    for i := 0 to |reg.skills|
      invariant forall j | 0 <= j < i :: !(reg.skills[j].skillID == skill && MatchTags(reg.skills[j].tags, tags))
    {
      if reg.skills[i].skillID != skill { continue; }
      var matches := TagsMatch(reg.skills[i].tags, tags);
      if matches { return true; }
    }
    return false;
  }

  method TagsMatch(skillTags: Tags, filter: Tags) returns (matches: bool)
    ensures matches <==> MatchTags(skillTags, filter)
    ensures matches <==> forall k | k in filter :: (if k in skillTags then skillTags[k] else "") == filter[k]
  {
    var todo := filter.Keys;
    while todo != {}
      invariant todo <= filter.Keys
      invariant forall k | k in filter.Keys - todo :: TagOf(skillTags, k) == filter[k]
      decreases |todo|
    {
      var k :| k in todo;
      if TagOf(skillTags, k) != filter[k] { return false; }
      todo := todo - {k};
    }
    return true;
  }

  /** Deletes expired records from a store, its index and its counter while iterating over it. */
  method EvictFrom(m: Store, index: Index, count: int, ghost limit: int, now: Time)
    returns (left: Store, idx: Index, n: int)
    requires Agree(m, index, count, limit)
    ensures left == Alive(m, now) && Agree(left, idx, n, limit)
  {
    left, idx, n := m, index, count;
    var todo := m.Keys;
    while todo != {}
      invariant todo <= left.Keys <= m.Keys
      invariant forall p | p in left :: left[p] == m[p]
      invariant forall p | p in m && p !in todo :: p in left <==> !Expired(m[p], now)
      invariant Agree(left, idx, n, limit)
      decreases |todo|
    {
      var p :| p in todo;
      todo := todo - {p};
      if Expired(left[p], now) {
        ghost var before := idx;
        idx := RemoveFromSkillIndex(idx, p, left[p].skills);
        DropAgrees(before, idx, left, n, limit, p);
        left := left - {p};
        n := n - 1;
      }
    }
  }

  ghost function Kept(m: Store, wanted: Registration -> bool): set<string> {
    set p | p in m && wanted(m[p])
  }

  /** The loop shared by the listing methods: the wanted records of a map, in iteration order. */
  method Collect(m: Store, wanted: Registration -> bool) returns (results: seq<Registration>)
    requires Keyed(m)
    ensures Enumerates(results, m, Kept(m, wanted))
  {
    results := [];
    var todo := m.Keys;
    ghost var taken: set<string> := {};
    while todo != {}
      invariant todo <= m.Keys
      invariant forall p :: p in taken <==> p in m && p !in todo && wanted(m[p])
      invariant Enumerates(results, m, taken)
      decreases todo
    {
      var p :| p in todo;
      todo := todo - {p};
      if wanted(m[p]) {
        AppendDrawn(results, m, taken, p);
        results := results + [m[p]];
        taken := taken + {p};
      }
    }
    assert taken == Kept(m, wanted);
  }

  lemma EnumeratedRecords(results: seq<Registration>, m: Store, keys: set<string>)
    requires Enumerates(results, m, keys)
    ensures forall r :: r in results <==> r.peerID in keys && r.peerID in m && m[r.peerID] == r
    ensures forall i, j | 0 <= i < j < |results| :: results[i].peerID != results[j].peerID
  {
    forall r ensures r in results <==> r.peerID in keys && r.peerID in m && m[r.peerID] == r {
      if r.peerID in keys && r.peerID in m && m[r.peerID] == r {
        var i :| 0 <= i < |results| && results[i].peerID == r.peerID;
        assert results[i] == r;
      }
    }
  }

  lemma AppendDrawn(rs: seq<Registration>, m: Store, keys: set<string>, p: string)
    requires Enumerates(rs, m, keys) && p in m && m[p].peerID == p && p !in keys
    ensures Enumerates(rs + [m[p]], m, keys + {p})
  {
    var all := rs + [m[p]];
    assert forall i | 0 <= i < |rs| :: all[i] == rs[i];
    assert all[|rs|].peerID == p;
    forall i | 0 <= i < |rs| ensures rs[i].peerID != p {
      assert rs[i].peerID in PeersIn(rs);
    }
    assert PeersIn(all) == PeersIn(rs) + {p} by {
      forall x | x in PeersIn(rs) ensures x in PeersIn(all) {
        var i :| 0 <= i < |rs| && rs[i].peerID == x;
        assert all[i].peerID == x;
      }
    }
  }

  /** Looking only at the peers a coherent index names for the skill loses no match. */
  lemma IndexCoversMatches(index: Index, m: Store, q: Query)
    requires Coherent(index, m)
    ensures Matching(m, q) <= (if q.skill in index then index[q.skill] else {}) <= m.Keys
  {
    forall p | p in Matching(m, q) ensures Has(index, q.skill, p) {
      var i :| 0 <= i < |m[p].skills| && m[p].skills[i].skillID == q.skill && MatchTags(m[p].skills[i].tags, q.tags);
      assert Lists(m[p].skills, q.skill);
    }
    if q.skill in index {
      forall p | p in index[q.skill] ensures p in m {
        assert Has(index, q.skill, p);
      }
    }
  }
}
