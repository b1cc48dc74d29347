/** What the registry does, on values: the specification its methods are proved against. */
module RegistryModel {
  import opened Common
  import opened Records

  /** Limits and lifetime of a registry, after `New` has filled in defaults. */
  datatype Config = Config(ttl: Time, maxRegistrations: int, maxFederated: int)

  type Store = map<string, Registration>

  /** The stored records; the indexes and counters are functions of these. */
  datatype View = View(entries: Store, federated: Store)

  ghost predicate Keyed(m: Store) {
    forall p | p in m :: m[p].peerID == p
  }

  // ---- Writers of local records ----

  datatype LocalOp =
    | Register(peer: string, skills: seq<SkillInfo>, name: string, desc: string)
    | Unregister(peer: string, ids: seq<string>)
    | Heartbeat(peer: string)
    | RemovePeer(peer: string)
    | EvictExpired

  predicate HasRoom(cfg: Config, entries: Store, peer: string) {
    peer in entries || |entries| < cfg.maxRegistrations
  }

  function NewLocal(cfg: Config, now: Time, peer: string, skills: seq<SkillInfo>, name: string, desc: string)
    : Registration
  {
    Registration(peer, skills, name, desc, now, now + cfg.ttl, "", VersionAt(now))
  }

  function Unlist(entries: Store, peer: string, ids: seq<string>): Store {
    if peer !in entries then entries
    else
      var left := Without(entries[peer].skills, ids);
      if ids == [] || left == [] then entries - {peer} else entries[peer := entries[peer].(skills := left)]
  }

  function Alive(m: Store, now: Time): Store {
    map p | p in m && !Expired(m[p], now) :: m[p]
  }

  function Evict(v: View, now: Time): View {
    View(Alive(v.entries, now), Alive(v.federated, now))
  }

  function Apply(cfg: Config, v: View, op: LocalOp, now: Time): View {
    match op
    case Register(peer, skills, name, desc) =>
      if HasRoom(cfg, v.entries, peer)
      then v.(entries := v.entries[peer := NewLocal(cfg, now, peer, skills, name, desc)])
      else v
    case Unregister(peer, ids) => v.(entries := Unlist(v.entries, peer, ids))
    case Heartbeat(peer) =>
      if peer in v.entries
      then v.(entries := v.entries[peer := v.entries[peer].(expiresAt := now + cfg.ttl)])
      else v
    case RemovePeer(peer) => v.(entries := v.entries - {peer})
    case EvictExpired => Evict(v, now)
  }

  /** An unregistration forgets the peer, or leaves it its other skills, untouched and in order, and changes nothing
      else: no other peer, no other field. `kept` are the places of the skills that stay. */
  lemma UnregisterKeeps(cfg: Config, v: View, peer: string, ids: seq<string>, now: Time) returns (kept: seq<nat>)
    ensures var u := Apply(cfg, v, LocalOp.Unregister(peer, ids), now);
            && u.federated == v.federated && u.entries - {peer} == v.entries - {peer}
            && (peer in u.entries <==> peer in v.entries && ids != [] && kept != [])
            && (peer in u.entries ==>
                  && u.entries[peer] == v.entries[peer].(skills := u.entries[peer].skills)
                  && |u.entries[peer].skills| == |kept|)
    ensures var u := Apply(cfg, v, LocalOp.Unregister(peer, ids), now);
            peer in u.entries ==> forall j | 0 <= j < |kept| ::
              kept[j] < |v.entries[peer].skills| && u.entries[peer].skills[j] == v.entries[peer].skills[kept[j]]
    ensures forall i, j | 0 <= i < j < |kept| :: kept[i] < kept[j]
    ensures peer in v.entries ==> forall k | 0 <= k < |v.entries[peer].skills| ::
              k in kept <==> v.entries[peer].skills[k].skillID !in ids
  {
    if peer in v.entries {
      kept := WithoutKeeps(v.entries[peer].skills, ids);
    } else {
      kept := [];
    }
  }

  /** An eviction forgets exactly the records past their expiry, in both stores, and alters none. */
  lemma EvictionForgetsExpired(cfg: Config, v: View, now: Time, p: string)
    ensures var u := Apply(cfg, v, EvictExpired, now);
            && (p in u.entries <==> p in v.entries && now <= v.entries[p].expiresAt)
            && (p in u.entries ==> u.entries[p] == v.entries[p])
            && (p in u.federated <==> p in v.federated && now <= v.federated[p].expiresAt)
            && (p in u.federated ==> u.federated[p] == v.federated[p])
  {
  }

  // ---- Readers ----

  /** `results` holds records of `m` stored under keys in `keys`, no key twice. */
  ghost predicate DrawnFrom(results: seq<Registration>, m: Store, keys: set<string>) {
    && (forall i | 0 <= i < |results| ::
          results[i].peerID in keys && results[i].peerID in m && results[i] == m[results[i].peerID])
    && (forall i, j | 0 <= i < j < |results| :: results[i].peerID != results[j].peerID)
  }

  function PeersIn(results: seq<Registration>): set<string> {
    set i | 0 <= i < |results| :: results[i].peerID
  }

  /** `results` holds exactly the records stored under `keys`, in some order. */
  ghost predicate Enumerates(results: seq<Registration>, m: Store, keys: set<string>) {
    DrawnFrom(results, m, keys) && PeersIn(results) == keys
  }

  function Matching(m: Store, q: Query): set<string> {
    set p | p in m && q.Matches(m[p])
  }

  function UpdatedSince(m: Store, since: Time, now: Time): set<string> {
    set p | p in m && !Expired(m[p], now) && m[p].registeredAt >= since
  }

  function FreshKeys(m: Store, now: Time): set<string> {
    set p | p in m && Fresh(m[p], now)
  }

  function Lookup(v: View, peer: string, now: Time): Option<Registration> {
    if peer in v.entries && Fresh(v.entries[peer], now) then Some(v.entries[peer])
    else if peer in v.federated && Fresh(v.federated[peer], now) then Some(v.federated[peer])
    else None
  }

  const DEFAULT_DISCOVER_LIMIT := 100
  const MAX_DISCOVER_LIMIT := 1000

  function EffectiveLimit(limit: int): nat {
    if limit <= 0 then DEFAULT_DISCOVER_LIMIT else Min(limit, MAX_DISCOVER_LIMIT)
  }

  /** Federated matches that no live matching local record shadows. */
  function Unshadowed(v: View, q: Query, includeFederated: bool): set<string> {
    if includeFederated then Matching(v.federated, q) - Matching(v.entries, q) else {}
  }

  /** Everything a discovery may return, whatever the iteration order: local matches first,
      then unshadowed federated ones, cut at the limit. */
  ghost predicate IsDiscovery(v: View, q: Query, limit: int, includeFederated: bool, results: seq<Registration>) {
    var lim := EffectiveLimit(limit);
    var locals := Matching(v.entries, q);
    var feds := Unshadowed(v, q, includeFederated);
    var k := Min(lim, |locals|);
    && |results| == Min(lim, |locals| + |feds|)
    && DrawnFrom(results[..k], v.entries, locals)
    && DrawnFrom(results[k..], v.federated, feds)
  }

  lemma {:induction false} DrawnSize(results: seq<Registration>, m: Store, keys: set<string>)
    requires DrawnFrom(results, m, keys)
    ensures PeersIn(results) <= keys
    ensures |results| == |PeersIn(results)| <= |keys|
    ensures |results| == |keys| ==> Enumerates(results, m, keys)
  {
    var ids := seq(|results|, i requires 0 <= i < |results| => results[i].peerID);
    SetOfDistinct(ids);
    assert PeersIn(results) == set x | x in ids by {
      assert forall i | 0 <= i < |results| :: ids[i] == results[i].peerID;
    }
    SubsetOfSize(PeersIn(results), keys);
  }

  /** Every result is live and offers the skill with the tags, and no peer appears twice. */
  lemma DiscoveryIsSound(v: View, q: Query, limit: int, includeFederated: bool, results: seq<Registration>)
    requires IsDiscovery(v, q, limit, includeFederated, results)
    ensures forall i | 0 <= i < |results| :: q.Matches(results[i])
    ensures forall i, j | 0 <= i < j < |results| :: results[i].peerID != results[j].peerID
  {
    var locals, feds := Matching(v.entries, q), Unshadowed(v, q, includeFederated);
    TwoParts(results, Min(EffectiveLimit(limit), |locals|), v.entries, locals, v.federated, feds);
  }

  /** A peer with a live matching local record is never answered from its federated one, and a
      federated record is answered only when every local match is answered too. */
  lemma DiscoveryPrefersLocal(v: View, q: Query, limit: int, includeFederated: bool, results: seq<Registration>, i: nat)
    requires IsDiscovery(v, q, limit, includeFederated, results) && i < |results|
    ensures var p := results[i].peerID;
            if p in Matching(v.entries, q) then results[i] == v.entries[p]
            else && includeFederated && p in v.federated && results[i] == v.federated[p]
                 && Matching(v.entries, q) <= PeersIn(results)
  {
    var locals, feds := Matching(v.entries, q), Unshadowed(v, q, includeFederated);
    var k := Min(EffectiveLimit(limit), |locals|);
    TwoParts(results, k, v.entries, locals, v.federated, feds);
    if k <= i {
      DrawnSize(results[..k], v.entries, locals);
      SplitPeers(results, k);
    }
  }

  /** Below the limit nothing is withheld; at the limit there were at least that many matches. */
  lemma DiscoveryIsComplete(v: View, q: Query, limit: int, includeFederated: bool, results: seq<Registration>)
    requires IsDiscovery(v, q, limit, includeFederated, results)
    ensures var all := Matching(v.entries, q) + Unshadowed(v, q, includeFederated);
            && PeersIn(results) <= all
            && |results| == |PeersIn(results)| == Min(EffectiveLimit(limit), |all|)
            && (|all| <= EffectiveLimit(limit) ==> PeersIn(results) == all)
  {
    var locals, feds := Matching(v.entries, q), Unshadowed(v, q, includeFederated);
    var k := Min(EffectiveLimit(limit), |locals|);
    assert |locals + feds| == |locals| + |feds|;
    PartSizes(results, k, v.entries, locals, v.federated, feds);
    SubsetOfSize(PeersIn(results), locals + feds);
  }

  lemma PartSizes(results: seq<Registration>, k: nat, a: Store, keysA: set<string>, b: Store, keysB: set<string>)
    requires k <= |results| && keysA !! keysB
    requires DrawnFrom(results[..k], a, keysA) && DrawnFrom(results[k..], b, keysB)
    ensures PeersIn(results) <= keysA + keysB && |PeersIn(results)| == |results|
  {
    DrawnSize(results[..k], a, keysA);
    DrawnSize(results[k..], b, keysB);
    SplitPeers(results, k);
    assert PeersIn(results[..k]) !! PeersIn(results[k..]);
    assert |PeersIn(results[..k]) + PeersIn(results[k..])| == |PeersIn(results[..k])| + |PeersIn(results[k..])|;
  }

  /** A list drawn from two stores, one after the other, with disjoint keys. */
  lemma TwoParts(results: seq<Registration>, k: nat, a: Store, keysA: set<string>, b: Store, keysB: set<string>)
    requires k <= |results| && keysA !! keysB
    requires DrawnFrom(results[..k], a, keysA) && DrawnFrom(results[k..], b, keysB)
    ensures forall i | 0 <= i < k :: results[i].peerID in keysA && results[i].peerID in a
                                     && results[i] == a[results[i].peerID]
    ensures forall i | k <= i < |results| :: results[i].peerID in keysB && results[i].peerID in b
                                             && results[i] == b[results[i].peerID]
    ensures forall i, j | 0 <= i < j < |results| :: results[i].peerID != results[j].peerID
  {
    var front, back := results[..k], results[k..];
    assert forall i | 0 <= i < k :: results[i] == front[i];
    assert forall i | k <= i < |results| :: results[i] == back[i - k];
  }

  lemma SplitPeers(results: seq<Registration>, k: nat)
    requires k <= |results|
    ensures PeersIn(results) == PeersIn(results[..k]) + PeersIn(results[k..])
  {
    var front, back := results[..k], results[k..];
    forall p | p in PeersIn(results) ensures p in PeersIn(front) + PeersIn(back) {
      var i :| 0 <= i < |results| && results[i].peerID == p;
      if i < k { assert front[i].peerID == p; } else { assert back[i - k].peerID == p; }
    }
    forall p | p in PeersIn(front) + PeersIn(back) ensures p in PeersIn(results) {
      if p in PeersIn(front) {
        var i :| 0 <= i < |front| && front[i].peerID == p;
        assert results[i].peerID == p;
      } else {
        var i :| 0 <= i < |back| && back[i].peerID == p;
        assert results[k + i].peerID == p;
      }
    }
  }

  /** What is answered, in terms of the stored records: live ones that offer the skill with every tag asked for, from
      the stores asked, at most one for each peer and no more than the limit. */
  lemma AnswersAreRight(v: View, skill: string, tags: Tags, now: Time, limit: int, includeFederated: bool,
                        results: seq<Registration>)
    requires IsDiscovery(v, Query(skill, tags, now), limit, includeFederated, results)
    ensures forall r | r in results ::
              exists j | 0 <= j < |r.skills| ::
                && r.skills[j].skillID == skill
                && forall k | k in tags :: (if k in r.skills[j].tags then r.skills[j].tags[k] else "") == tags[k]
    ensures forall r | r in results ::
              && now <= r.expiresAt
              && ((r.peerID in v.entries && v.entries[r.peerID] == r)
                  || (includeFederated && r.peerID in v.federated && v.federated[r.peerID] == r))
    ensures forall i, j | 0 <= i < j < |results| :: results[i].peerID != results[j].peerID
    ensures |results| <= if limit <= 0 then 100 else if limit > 1000 then 1000 else limit
  {
    var q := Query(skill, tags, now);
    DiscoveryIsSound(v, q, limit, includeFederated, results);
    forall r | r in results
      ensures q.Matches(r)
      ensures (r.peerID in v.entries && v.entries[r.peerID] == r)
              || (includeFederated && r.peerID in v.federated && v.federated[r.peerID] == r)
    {
      var i :| 0 <= i < |results| && results[i] == r;
      DiscoveryPrefersLocal(v, q, limit, includeFederated, results, i);
    }
    forall r | r in results { OffersMeans(r, skill, tags); }
  }

  lemma MatchIsAnswered(v: View, q: Query, limit: int, includeFederated: bool, results: seq<Registration>, p: string)
    requires IsDiscovery(v, q, limit, includeFederated, results) && p in Matching(v.entries, q)
    ensures |results| < EffectiveLimit(limit) ==> v.entries[p] in results
    ensures forall r | r in results && r.peerID == p :: r == v.entries[p]
  {
    forall i | 0 <= i < |results| && results[i].peerID == p ensures results[i] == v.entries[p] {
      DiscoveryPrefersLocal(v, q, limit, includeFederated, results, i);
    }
    DiscoveryIsComplete(v, q, limit, includeFederated, results);
  }

  lemma AnsweredRecord(v: View, q: Query, limit: int, includeFederated: bool, results: seq<Registration>, p: string)
    requires IsDiscovery(v, q, limit, includeFederated, results) && p in PeersIn(results)
    ensures (p in v.entries && v.entries[p] in results) || (p in v.federated && v.federated[p] in results)
  {
    var i :| 0 <= i < |results| && results[i].peerID == p;
    DiscoveryPrefersLocal(v, q, limit, includeFederated, results, i);
    assert results[i] in results;
  }

  lemma FederatedMatchIsAnswered(v: View, q: Query, limit: int, results: seq<Registration>, p: string)
    requires IsDiscovery(v, q, limit, true, results) && p in Matching(v.federated, q)
    ensures |results| < EffectiveLimit(limit) ==>
              v.federated[p] in results || (p in v.entries && v.entries[p] in results)
  {
    if p in Matching(v.entries, q) {
      MatchIsAnswered(v, q, limit, true, results, p);
    } else if |results| < EffectiveLimit(limit) {
      DiscoveryIsComplete(v, q, limit, true, results);
      assert p in Unshadowed(v, q, true);
      AnsweredRecord(v, q, limit, true, results, p);
    }
  }

  /** A live local record that offers the skill with every tag asked for is answered below the limit, and nothing else
      is ever answered for its peer. */
  lemma LocalIsAnswered(v: View, skill: string, tags: Tags, now: Time, limit: int, includeFederated: bool,
                        results: seq<Registration>, p: string, j: nat)
    requires IsDiscovery(v, Query(skill, tags, now), limit, includeFederated, results)
    requires p in v.entries && now <= v.entries[p].expiresAt
    requires j < |v.entries[p].skills| && v.entries[p].skills[j].skillID == skill
    requires var offered := v.entries[p].skills[j].tags;
             forall k | k in tags :: (if k in offered then offered[k] else "") == tags[k]
    ensures |results| < (if limit <= 0 then 100 else if limit > 1000 then 1000 else limit) ==> v.entries[p] in results
    ensures forall r | r in results && r.peerID == p :: r == v.entries[p]
  {
    OffersMeans(v.entries[p], skill, tags);
    MatchIsAnswered(v, Query(skill, tags, now), limit, includeFederated, results, p);
  }

  /** A live federated one is answered below the limit too, unless a local record is answered in its place. */
  lemma FederatedIsAnswered(v: View, skill: string, tags: Tags, now: Time, limit: int, results: seq<Registration>,
                            p: string, j: nat)
    requires IsDiscovery(v, Query(skill, tags, now), limit, true, results)
    requires p in v.federated && now <= v.federated[p].expiresAt
    requires j < |v.federated[p].skills| && v.federated[p].skills[j].skillID == skill
    requires var offered := v.federated[p].skills[j].tags;
             forall k | k in tags :: (if k in offered then offered[k] else "") == tags[k]
    ensures |results| < (if limit <= 0 then 100 else if limit > 1000 then 1000 else limit) ==>
              v.federated[p] in results || (p in v.entries && v.entries[p] in results)
  {
    OffersMeans(v.federated[p], skill, tags);
    FederatedMatchIsAnswered(v, Query(skill, tags, now), limit, results, p);
  }

  /** A registration is discoverable at once, by each of its skills and any tags it has, until it expires. */
  lemma RegisteredIsDiscoverable(before: Store, v: View, peer: string, skills: seq<SkillInfo>, name: string,
                                 desc: string, now: Time, ttl: Time, i: nat, tags: Tags, t: Time, limit: int,
                                 includeFederated: bool, results: seq<Registration>)
    requires v.entries == before[peer := Registration(peer, skills, name, desc, now, now + ttl, "",
                                                      now % 0x1_0000_0000_0000_0000)]
    requires i < |skills| && forall k | k in tags :: (if k in skills[i].tags then skills[i].tags[k] else "") == tags[k]
    requires t <= now + ttl
    requires IsDiscovery(v, Query(skills[i].skillID, tags, t), limit, includeFederated, results)
    requires |results| < if limit <= 0 then 100 else if limit > 1000 then 1000 else limit
    ensures Registration(peer, skills, name, desc, now, now + ttl, "", now % 0x1_0000_0000_0000_0000) in results
  {
    LocalIsAnswered(v, skills[i].skillID, tags, t, limit, includeFederated, results, peer, i);
  }

  /** A heartbeat keeps a registration discoverable for another lifetime, whether or not it had expired. */
  lemma RenewedIsDiscoverable(before: Store, v: View, peer: string, now: Time, ttl: Time, i: nat, tags: Tags, t: Time,
                              limit: int, includeFederated: bool, results: seq<Registration>)
    requires peer in before && v.entries == before[peer := before[peer].(expiresAt := now + ttl)]
    requires i < |before[peer].skills|
    requires var offered := before[peer].skills[i].tags;
             forall k | k in tags :: (if k in offered then offered[k] else "") == tags[k]
    requires t <= now + ttl
    requires IsDiscovery(v, Query(before[peer].skills[i].skillID, tags, t), limit, includeFederated, results)
    requires |results| < if limit <= 0 then 100 else if limit > 1000 then 1000 else limit
    ensures before[peer].(expiresAt := now + ttl) in results
  {
    LocalIsAnswered(v, before[peer].skills[i].skillID, tags, t, limit, includeFederated, results, peer, i);
  }

  // ---- Eviction cannot be seen by a later reader ----

  lemma EvictionIsInvisible(v: View, now: Time, t: Time, since: Time, peer: string)
    requires now <= t
    ensures Lookup(Evict(v, now), peer, t) == Lookup(v, peer, t)
    ensures forall rs :: Enumerates(rs, v.entries, FreshKeys(v.entries, t))
                    <==> Enumerates(rs, Evict(v, now).entries, FreshKeys(Evict(v, now).entries, t))
    ensures forall rs :: Enumerates(rs, v.federated, FreshKeys(v.federated, t))
                    <==> Enumerates(rs, Evict(v, now).federated, FreshKeys(Evict(v, now).federated, t))
    ensures forall rs :: Enumerates(rs, v.entries, UpdatedSince(v.entries, since, t))
                    <==> Enumerates(rs, Evict(v, now).entries, UpdatedSince(Evict(v, now).entries, since, t))
  {
    var e := Evict(v, now);
    assert FreshKeys(v.entries, t) == FreshKeys(e.entries, t);
    assert FreshKeys(v.federated, t) == FreshKeys(e.federated, t);
    assert UpdatedSince(v.entries, since, t) == UpdatedSince(e.entries, since, t);
  }

  ghost predicate SameUnder(m: Store, n: Store, keys: set<string>) {
    forall p | p in keys :: p in m && p in n && m[p] == n[p]
  }

  lemma MatchingAlive(m: Store, now: Time, q: Query)
    requires now <= q.now
    ensures Matching(Alive(m, now), q) == Matching(m, q) && SameUnder(m, Alive(m, now), Matching(m, q))
  {
  }

  lemma DrawnFromSame(results: seq<Registration>, m: Store, n: Store, keys: set<string>)
    requires SameUnder(m, n, keys) && DrawnFrom(results, m, keys)
    ensures DrawnFrom(results, n, keys)
  {
  }

  lemma SameMatchesSameDiscoveries(v: View, e: View, q: Query, limit: int, includeFederated: bool,
                                   results: seq<Registration>)
    requires Matching(v.entries, q) == Matching(e.entries, q) && Matching(v.federated, q) == Matching(e.federated, q)
    requires SameUnder(v.entries, e.entries, Matching(v.entries, q))
    requires SameUnder(v.federated, e.federated, Matching(v.federated, q))
    requires IsDiscovery(v, q, limit, includeFederated, results)
    ensures IsDiscovery(e, q, limit, includeFederated, results)
  {
    var locals := Matching(v.entries, q);
    var k := Min(EffectiveLimit(limit), |locals|);
    DrawnFromSame(results[..k], v.entries, e.entries, locals);
    DrawnFromSame(results[k..], v.federated, e.federated, Unshadowed(v, q, includeFederated));
  }

  /** The very same result lists are possible with and without the eviction. */
  lemma EvictionIsInvisibleToDiscovery(v: View, now: Time, q: Query, limit: int, includeFederated: bool,
                                       results: seq<Registration>)
    requires now <= q.now
    ensures IsDiscovery(v, q, limit, includeFederated, results)
            <==> IsDiscovery(Evict(v, now), q, limit, includeFederated, results)
  {
    var e := Evict(v, now);
    MatchingAlive(v.entries, now, q);
    MatchingAlive(v.federated, now, q);
    if IsDiscovery(v, q, limit, includeFederated, results) {
      SameMatchesSameDiscoveries(v, e, q, limit, includeFederated, results);
    }
    if IsDiscovery(e, q, limit, includeFederated, results) {
      SameMatchesSameDiscoveries(e, v, q, limit, includeFederated, results);
    }
  }

  /** Two evictions are one at the later time, so eviction is idempotent. */
  lemma EvictTwice(v: View, now: Time, later: Time)
    requires now <= later
    ensures Evict(Evict(v, now), later) == Evict(v, later) == Evict(Evict(v, later), now)
  {
  }

  /** A heartbeat that finds an expired record brings it back. */
  predicate Revives(v: View, op: LocalOp, now: Time) {
    op.Heartbeat? && op.peer in v.entries && Expired(v.entries[op.peer], now)
  }

  /** A registration is refused for want of room that an eviction would have made, or the reverse. */
  predicate RoomDepends(cfg: Config, v: View, op: LocalOp, now: Time) {
    op.Register? && HasRoom(cfg, v.entries, op.peer) != HasRoom(cfg, Alive(v.entries, now), op.peer)
  }

  lemma UnlistAlive(entries: Store, peer: string, ids: seq<string>, now: Time)
    ensures Alive(Unlist(entries, peer, ids), now) == Unlist(Alive(entries, now), peer, ids)
  {
    if peer in entries {
      var e := entries[peer];
      assert Expired(e.(skills := Without(e.skills, ids)), now) <==> Expired(e, now);
    }
  }

  /** A record put under an already expired lifetime is as good as none. */
  lemma AlivePut(m: Store, peer: string, reg: Registration, now: Time)
    ensures Alive(m[peer := reg], now)
            == if Expired(reg, now) then Alive(m, now) - {peer} else Alive(m, now)[peer := reg]
    ensures Alive(Alive(m, now), now) == Alive(m, now)
  {
  }

  lemma RegisterCommutes(cfg: Config, v: View, op: LocalOp, now: Time)
    requires op.Register?
    ensures Alive(Apply(cfg, v, op, now).entries, now) == Alive(Apply(cfg, Evict(v, now), op, now).entries, now)
            <==> cfg.ttl < 0 || !RoomDepends(cfg, v, op, now)
  {
    var reg := NewLocal(cfg, now, op.peer, op.skills, op.name, op.desc);
    AlivePut(v.entries, op.peer, reg, now);
    AlivePut(Alive(v.entries, now), op.peer, reg, now);
    if op.peer !in Alive(v.entries, now) {
      assert Alive(v.entries, now) - {op.peer} == Alive(v.entries, now);
    }
    if cfg.ttl >= 0 && RoomDepends(cfg, v, op, now) {
      assert op.peer !in Alive(v.entries, now);
      assert op.peer in Alive(v.entries, now)[op.peer := reg];
    }
  }

  lemma HeartbeatCommutes(cfg: Config, v: View, op: LocalOp, now: Time)
    requires op.Heartbeat?
    ensures Alive(Apply(cfg, v, op, now).entries, now) == Alive(Apply(cfg, Evict(v, now), op, now).entries, now)
            <==> cfg.ttl < 0 || !Revives(v, op, now)
  {
    if op.peer in v.entries {
      var reg := v.entries[op.peer].(expiresAt := now + cfg.ttl);
      AlivePut(v.entries, op.peer, reg, now);
      AlivePut(Alive(v.entries, now), op.peer, reg, now);
      if op.peer !in Alive(v.entries, now) {
        assert Alive(v.entries, now) - {op.peer} == Alive(v.entries, now);
      }
    }
  }

  /** A local operation leaves the same live records whether or not an eviction ran just before it, exactly
      unless it revives an expired record or its admission depends on the room that expired records take; and where
      lifetimes are negative, always: nothing is ever live. */
  lemma EvictionCommutes(cfg: Config, v: View, op: LocalOp, now: Time)
    ensures Evict(Apply(cfg, v, op, now), now) == Evict(Apply(cfg, Evict(v, now), op, now), now)
            <==> cfg.ttl < 0 || (!Revives(v, op, now) && !RoomDepends(cfg, v, op, now))
  {
    match op
    case Register(_, _, _, _) => RegisterCommutes(cfg, v, op, now);
    case Heartbeat(_) => HeartbeatCommutes(cfg, v, op, now);
    case Unregister(peer, ids) =>
      UnlistAlive(v.entries, peer, ids, now);
      UnlistAlive(Alive(v.entries, now), peer, ids, now);
    case RemovePeer(peer) =>
      assert Alive(v.entries - {peer}, now) == Alive(v.entries, now) - {peer};
    case EvictExpired =>
  }
}
