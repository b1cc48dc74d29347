/** The REST directory: paginated listing of agents and aggregated skill counts. */
module Directory {
  import opened Common
  import opened Records
  import opened RegistryModel
  import opened RegistryStore
  import opened SkillIndex

  const DEFAULT_PAGE := 100
  const MAX_PAGE := 1000

  /** A query parameter that is absent or not a number is None. */
  function PageLimit(param: Option<int>): nat {
    if param.Some? && 0 < param.value <= MAX_PAGE then param.value else DEFAULT_PAGE
  }

  function PageOffset(param: Option<int>): nat {
    if param.Some? && param.value >= 0 then param.value else 0
  }

  function Page<T>(all: seq<T>, offset: nat, limit: nat): seq<T> {
    if offset >= |all| then [] else all[offset..Min(offset + limit, |all|)]
  }

  function ByPeer(): (Registration, Registration) -> bool {
    (a: Registration, b: Registration) => Less(a.peerID, b.peerID)
  }

  lemma LessIsStrictWeakOrder()
    ensures StrictWeakOrder(Less)
    ensures StrictWeakOrder(ByPeer())
  {
    forall x, y ensures Less(x, y) ==> !Less(y, x) { LessTotal(x, y); }
    forall x, y, z ensures !Less(x, y) && !Less(y, z) ==> !Less(x, z) {
      LessTotal(x, y);
      LessTotal(y, z);
      LessTotal(x, z);
      if Less(z, y) && Less(y, x) { LessTransitive(z, y, x); }
    }
    assert forall a, b :: ByPeer()(a, b) <==> Less(a.peerID, b.peerID);
  }

  /** The records a request collects before sorting: an answer to the skill query; or, without a skill, all
      fresh local and federated records, a peer present in both stores being listed twice. */
  ghost predicate Collected(v: View, skill: string, now: Time, later: Time, regs: seq<Registration>) {
    if skill != "" then IsDiscovery(v, Query(skill, map[], now), MAX_DISCOVER_LIMIT, true, regs)
    else exists locals, feds ::
           && Enumerates(locals, v.entries, FreshKeys(v.entries, now))
           && Enumerates(feds, v.federated, FreshKeys(v.federated, later))
           && regs == locals + feds
  }

  /** The sorted list a page is cut from. */
  ghost predicate SortedAnswer(v: View, skill: string, now: Time, later: Time, all: seq<Registration>) {
    && SortedBy(ByPeer(), all)
    && exists regs :: Collected(v, skill, now, later, regs) && multiset(regs) == multiset(all)
  }

  method CollectAgents(reg: Registry, skill: string, now: Time, later: Time) returns (regs: seq<Registration>)
    requires reg.Valid()
    ensures Collected(reg.Contents(), skill, now, later, regs)
    ensures skill == "" ==> forall r :: r in regs <==>
              || (r.peerID in reg.entries && reg.entries[r.peerID] == r && now < r.expiresAt)
              || (r.peerID in reg.federated && reg.federated[r.peerID] == r && later < r.expiresAt)
  {
    if skill != "" {
      regs := reg.DiscoverBySkill(skill, map[], MAX_DISCOVER_LIMIT, true, now);
    } else {
      var locals := reg.AllRegistrations(now);
      var fedRegs := reg.FederatedRegistrations(later);
      regs := locals + fedRegs;
    }
  }

  method SortByPeer(regs: seq<Registration>) returns (all: seq<Registration>)
    ensures SortedBy(ByPeer(), all) && multiset(all) == multiset(regs)
    ensures forall i, j | 0 <= i < j < |all| :: !Less(all[j].peerID, all[i].peerID)
    ensures forall r :: r in all <==> r in regs
  {
    LessIsStrictWeakOrder();
    all := SortSlice(regs, ByPeer());
    PermutedRecords(regs, all);
    assert forall i, j | 0 <= i < j < |all| :: !ByPeer()(all[j], all[i]);
  }

  lemma PermutedRecords(regs: seq<Registration>, all: seq<Registration>)
    requires multiset(regs) == multiset(all)
    ensures forall r :: r in all <==> r in regs
  {
    forall r ensures r in all <==> r in regs {
      assert r in all <==> r in multiset(all);
      assert r in regs <==> r in multiset(regs);
    }
  }

  method CutPage(all: seq<Registration>, limitParam: Option<int>, offsetParam: Option<int>)
    returns (page: seq<Registration>)
    ensures page == Page(all, PageOffset(offsetParam), PageLimit(limitParam))
    ensures var limit := if limitParam.Some? && 0 < limitParam.value <= 1000 then limitParam.value else 100;
            var offset := if offsetParam.Some? && offsetParam.value >= 0 then offsetParam.value else 0;
            var end := if offset + limit > |all| then |all| else offset + limit;
            page == if offset >= |all| then [] else all[offset..end]
  {
    var limit := DEFAULT_PAGE;
    if limitParam.Some? && limitParam.value > 0 && limitParam.value <= MAX_PAGE {
      limit := limitParam.value;
    }
    var offset := 0;
    if offsetParam.Some? && offsetParam.value >= 0 {
      offset := offsetParam.value;
    }
    if offset >= |all| {
      return [];
    }
    var end := offset + limit;
    if end > |all| {
      end := |all|;
    }
    return all[offset..end];
  }

  method ListAgents(reg: Registry, skill: string, limitParam: Option<int>, offsetParam: Option<int>, now: Time,
                    later: Time)
    returns (total: nat, page: seq<Registration>)
    requires reg.Valid()
    ensures exists all: seq<Registration> ::
              && SortedAnswer(View(reg.entries, reg.federated), skill, now, later, all)
              && (forall i, j | 0 <= i < j < |all| :: !Less(all[j].peerID, all[i].peerID))
              && (skill == "" ==> forall r: Registration :: r in all <==>
                    || (r.peerID in reg.entries && reg.entries[r.peerID] == r && now < r.expiresAt)
                    || (r.peerID in reg.federated && reg.federated[r.peerID] == r && later < r.expiresAt))
              && total == |all|
              && var limit := if limitParam.Some? && 0 < limitParam.value <= 1000 then limitParam.value else 100;
                 var offset := if offsetParam.Some? && offsetParam.value >= 0 then offsetParam.value else 0;
                 var end := if offset + limit > |all| then |all| else offset + limit;
                 page == if offset >= |all| then [] else all[offset..end]
  {
    var regs := CollectAgents(reg, skill, now, later);
    var all := SortByPeer(regs);
    total := |all|;
    page := CutPage(all, limitParam, offsetParam);
    assert SortedAnswer(reg.Contents(), skill, now, later, all);
  }

  // ---- Pages tile the listing ----

  /** The peers with a live matching record in either store. */
  function AllMatches(v: View, q: Query): set<string> {
    Matching(v.entries, q) + Matching(v.federated, q)
  }

  /** The record a skill query answers for a peer: its live matching local one, else its federated one. */
  function AnswerFor(v: View, q: Query, p: string): Registration
    requires p in AllMatches(v, q)
  {
    if p in Matching(v.entries, q) then v.entries[p] else v.federated[p]
  }

  /** Every matching peer once, in strictly ascending order. */
  ghost predicate IsListing(v: View, q: Query, all: seq<Registration>) {
    && PeersIn(all) == AllMatches(v, q)
    && (forall i | 0 <= i < |all| :: all[i].peerID in PeersIn(all) && all[i] == AnswerFor(v, q, all[i].peerID))
    && (forall i, j | 0 <= i < j < |all| :: Less(all[i].peerID, all[j].peerID))
  }

  lemma PermutationKeeps(a: seq<Registration>, b: seq<Registration>)
    requires multiset(a) == multiset(b)
    requires forall i, j | 0 <= i < j < |a| :: a[i].peerID != a[j].peerID
    ensures PeersIn(a) == PeersIn(b) && |a| == |b|
    ensures forall i | 0 <= i < |b| :: b[i] in a
    ensures forall i, j | 0 <= i < j < |b| :: b[i].peerID != b[j].peerID
  {
    assert forall r :: r in a <==> r in multiset(a);
    assert forall r :: r in b <==> r in multiset(b);
    forall i | 0 <= i < |a| ensures a[i].peerID in PeersIn(b) {
      assert a[i] in b;
    }
    forall i | 0 <= i < |b| ensures b[i].peerID in PeersIn(a) && b[i] in a {
      assert b[i] in b;
    }
    assert |multiset(a)| == |a| && |multiset(b)| == |b|;
    forall i, j | 0 <= i < j < |b| ensures b[i].peerID != b[j].peerID {
      DistinctOfSizes(a, b, i, j);
    }
  }

  lemma Repeated<T>(s: seq<T>, i: nat, j: nat)
    requires i < j < |s| && s[i] == s[j]
    ensures multiset(s)[s[j]] >= 2
  {
    assert s == s[..j] + [s[j]] + s[j + 1..];
    assert s[..j][i] == s[i];
  }

  lemma {:induction false} DistinctPeersOnce(a: seq<Registration>, r: Registration)
    requires forall i, j | 0 <= i < j < |a| :: a[i].peerID != a[j].peerID
    ensures multiset(a)[r] <= 1
  {
    if a != [] {
      DistinctPeersOnce(a[1..], r);
      assert a == [a[0]] + a[1..];
    }
  }

  lemma DistinctOfSizes(a: seq<Registration>, b: seq<Registration>, i: nat, j: nat)
    requires multiset(a) == multiset(b) && i < j < |b|
    requires forall i, j | 0 <= i < j < |a| :: a[i].peerID != a[j].peerID
    ensures b[i].peerID != b[j].peerID
  {
    DistinctPeersOnce(a, b[j]);
    if b[i] == b[j] {
      Repeated(b, i, j);
    } else {
      assert b[i] in multiset(a) && b[j] in multiset(a);
      var k :| 0 <= k < |a| && a[k] == b[i];
      var l :| 0 <= l < |a| && a[l] == b[j];
      assert a[k].peerID != a[l].peerID;
    }
  }

  lemma AnswersOwnRecord(v: View, q: Query, found: seq<Registration>, r: Registration)
    requires IsDiscovery(v, q, MAX_DISCOVER_LIMIT, true, found) && r in found
    requires PeersIn(found) <= AllMatches(v, q)
    ensures r.peerID in PeersIn(found) && r == AnswerFor(v, q, r.peerID)
  {
    var k :| 0 <= k < |found| && found[k] == r;
    assert found[k].peerID in PeersIn(found);
    DiscoveryPrefersLocal(v, q, MAX_DISCOVER_LIMIT, true, found, k);
  }

  /** A skill query's answer, whatever the discovery order, holds every match. */
  lemma AnswerHoldsMatches(v: View, q: Query, found: seq<Registration>)
    requires IsDiscovery(v, q, MAX_DISCOVER_LIMIT, true, found)
    requires |AllMatches(v, q)| <= MAX_DISCOVER_LIMIT
    ensures PeersIn(found) == AllMatches(v, q)
  {
    UnshadowedCovers(v, q);
    DiscoveryIsComplete(v, q, MAX_DISCOVER_LIMIT, true, found);
  }

  lemma UnshadowedCovers(v: View, q: Query)
    ensures Matching(v.entries, q) + Unshadowed(v, q, true) == AllMatches(v, q)
  {
  }

  /** With no more matches than the hard limit, the sorted answer is the listing. */
  lemma SortedAnswerIsListing(v: View, skill: string, now: Time, all: seq<Registration>)
    requires skill != "" && SortedAnswer(v, skill, now, now, all)
    requires var q := Query(skill, map[], now);
             |AllMatches(v, q)| <= MAX_DISCOVER_LIMIT
    ensures IsListing(v, Query(skill, map[], now), all)
  {
    var q := Query(skill, map[], now);
    var found :| Collected(v, skill, now, now, found) && multiset(found) == multiset(all);
    AnswerHoldsMatches(v, q, found);
    DiscoveryIsSound(v, q, MAX_DISCOVER_LIMIT, true, found);
    PermutationKeeps(found, all);
    forall i | 0 <= i < |all| ensures all[i].peerID in PeersIn(all) && all[i] == AnswerFor(v, q, all[i].peerID) {
      AnswersOwnRecord(v, q, found, all[i]);
    }
    forall i, j | 0 <= i < j < |all| ensures Less(all[i].peerID, all[j].peerID) {
      assert !ByPeer()(all[j], all[i]);
      LessTotal(all[i].peerID, all[j].peerID);
    }
  }

  /** The hard limit of discovery is the exact limit of the listing: past it, matches go missing from every page. */
  lemma ListingIffWithinLimit(v: View, skill: string, now: Time, all: seq<Registration>)
    requires skill != "" && SortedAnswer(v, skill, now, now, all)
    ensures IsListing(v, Query(skill, map[], now), all)
            <==> |AllMatches(v, Query(skill, map[], now))| <= MAX_DISCOVER_LIMIT
  {
    var q := Query(skill, map[], now);
    if |AllMatches(v, q)| <= MAX_DISCOVER_LIMIT {
      SortedAnswerIsListing(v, skill, now, all);
    } else {
      var found :| Collected(v, skill, now, now, found) && multiset(found) == multiset(all);
      UnshadowedCovers(v, q);
      DiscoveryIsComplete(v, q, MAX_DISCOVER_LIMIT, true, found);
      assert |multiset(found)| == |found| && |multiset(all)| == |all|;
      NoMorePeersThanRecords(all);
    }
  }

  lemma {:induction false} NoMorePeersThanRecords(all: seq<Registration>)
    ensures |PeersIn(all)| <= |all|
  {
    if all != [] {
      var n := |all| - 1;
      NoMorePeersThanRecords(all[..n]);
      SplitPeers(all, n);
      assert all[n..] == [all[n]] && PeersIn([all[n]]) <= {all[n].peerID};
      SubsetOfSize(PeersIn(all), PeersIn(all[..n]) + {all[n].peerID});
    }
  }

  /** A strictly ascending list is determined by its elements. */
  lemma {:induction false} AscendingIsUnique(a: seq<string>, b: seq<string>)
    requires forall i, j | 0 <= i < j < |a| :: Less(a[i], a[j])
    requires forall i, j | 0 <= i < j < |b| :: Less(b[i], b[j])
    requires forall x :: x in a <==> x in b
    ensures a == b
  {
    SameLength(a, b);
    if a != [] {
      assert a[0] in b && b[0] in a;
      var i :| 0 <= i < |b| && b[i] == a[0];
      var j :| 0 <= j < |a| && a[j] == b[0];
      LessTotal(a[0], b[0]);
      assert a[0] == b[0];
      forall x ensures x in a[1..] <==> x in b[1..] {
        LessTotal(a[0], a[0]);
        assert x in a <==> x == a[0] || x in a[1..];
        assert x in b <==> x == b[0] || x in b[1..];
        assert a[0] !in a[1..] && b[0] !in b[1..];
      }
      AscendingIsUnique(a[1..], b[1..]);
      assert a == [a[0]] + a[1..] && b == [b[0]] + b[1..];
    }
  }

  lemma SameLength(a: seq<string>, b: seq<string>)
    requires forall i, j | 0 <= i < j < |a| :: Less(a[i], a[j])
    requires forall i, j | 0 <= i < j < |b| :: Less(b[i], b[j])
    requires forall x :: x in a <==> x in b
    ensures |a| == |b|
  {
    forall i, j | 0 <= i < j < |a| ensures a[i] != a[j] { LessTotal(a[i], a[j]); }
    forall i, j | 0 <= i < j < |b| ensures b[i] != b[j] { LessTotal(b[i], b[j]); }
    SetOfDistinct(a);
    SetOfDistinct(b);
    assert (set x | x in a) == (set x | x in b);
  }

  function PeerIDs(all: seq<Registration>): (ids: seq<string>)
    ensures |ids| == |all| && forall i | 0 <= i < |all| :: ids[i] == all[i].peerID
  {
    seq(|all|, i requires 0 <= i < |all| => all[i].peerID)
  }

  /** No record expires between the two queries, which ask for the same skill. */
  ghost predicate NothingExpires(v: View, q: Query, r: Query) {
    && q.skill == r.skill && q.tags == r.tags
    && (forall p | p in v.entries :: Expired(v.entries[p], q.now) <==> Expired(v.entries[p], r.now))
    && (forall p | p in v.federated :: Expired(v.federated[p], q.now) <==> Expired(v.federated[p], r.now))
  }

  lemma SameMatches(v: View, q: Query, r: Query)
    requires NothingExpires(v, q, r)
    ensures AllMatches(v, q) == AllMatches(v, r)
    ensures forall p | p in AllMatches(v, q) :: AnswerFor(v, q, p) == AnswerFor(v, r, p)
  {
    assert Matching(v.entries, q) == Matching(v.entries, r) && Matching(v.federated, q) == Matching(v.federated, r);
  }

  lemma ListingIsUnique(v: View, q: Query, r: Query, a: seq<Registration>, b: seq<Registration>)
    requires NothingExpires(v, q, r) && IsListing(v, q, a) && IsListing(v, r, b)
    ensures a == b
  {
    SameMatches(v, q, r);
    var x, y := PeerIDs(a), PeerIDs(b);
    forall p ensures p in x <==> p in PeersIn(a) {}
    forall p ensures p in y <==> p in PeersIn(b) {}
    AscendingIsUnique(x, y);
    forall i | 0 <= i < |a| ensures a[i] == b[i] {
      assert x[i] == y[i];
    }
  }

  lemma PageExtends<T>(all: seq<T>, m: nat, limit: nat)
    ensures all[..Min(m, |all|)] + Page(all, m, limit) == all[..Min(m + limit, |all|)]
  {
  }

  /** The requests of one walk through the pages: each at its own time, each with its own discovery order. */
  datatype Request = Request(now: Time, offset: nat, all: seq<Registration>, page: seq<Registration>)

  /** Offsets 0, L, 2L, ... up to the end of the listing. */
  predicate Strides(limit: nat, rs: seq<Request>) {
    && rs != [] && rs[0].offset == 0 && rs[|rs| - 1].offset + limit >= |rs[0].all|
    && forall k | 0 < k < |rs| :: rs[k].offset == rs[k - 1].offset + limit
  }

  ghost predicate Served(v: View, skill: string, limit: nat, r: Request) {
    SortedAnswer(v, skill, r.now, r.now, r.all) && r.page == Page(r.all, r.offset, limit)
  }

  function Pages(rs: seq<Request>): seq<Registration> {
    if rs == [] then [] else Pages(rs[..|rs| - 1]) + rs[|rs| - 1].page
  }

  lemma {:induction false} PagesOfOneList(all: seq<Registration>, rs: seq<Request>, limit: nat, n: nat)
    requires 0 < n <= |rs| && rs[0].offset == 0
    requires forall k | 0 < k < |rs| :: rs[k].offset == rs[k - 1].offset + limit
    requires forall r | r in rs :: r.page == Page(all, r.offset, limit)
    ensures Pages(rs[..n]) == all[..Min(rs[n - 1].offset + limit, |all|)]
  {
    PageExtends(all, rs[n - 1].offset, limit);
    assert rs[..n][..n - 1] == rs[..n - 1] && rs[n - 1] in rs;
    if n > 1 { PagesOfOneList(all, rs, limit, n - 1); }
  }

  lemma StridesTile(all: seq<Registration>, rs: seq<Request>, limit: nat)
    requires Strides(limit, rs) && all == rs[0].all
    requires forall r | r in rs :: r.page == Page(all, r.offset, limit)
    ensures Pages(rs) == all
  {
    PagesOfOneList(all, rs, limit, |rs|);
    assert rs[..|rs|] == rs && all[..|all|] == all;
  }

  lemma SameListing(v: View, skill: string, t: Time, u: Time, a: seq<Registration>, b: seq<Registration>)
    requires skill != "" && SortedAnswer(v, skill, t, t, a) && SortedAnswer(v, skill, u, u, b)
    requires NothingExpires(v, Query(skill, map[], t), Query(skill, map[], u))
    requires var q := Query(skill, map[], t);
             |AllMatches(v, q)| <= MAX_DISCOVER_LIMIT
    ensures a == b
  {
    var q, r := Query(skill, map[], t), Query(skill, map[], u);
    SameMatches(v, q, r);
    SortedAnswerIsListing(v, skill, t, a);
    SortedAnswerIsListing(v, skill, u, b);
    ListingIsUnique(v, q, r, a, b);
  }

  lemma ServedAlike(v: View, skill: string, limit: nat, first: Request, r: Request)
    requires skill != "" && Served(v, skill, limit, first) && Served(v, skill, limit, r)
    requires NothingExpires(v, Query(skill, map[], first.now), Query(skill, map[], r.now))
    requires var q := Query(skill, map[], first.now);
             |AllMatches(v, q)| <= MAX_DISCOVER_LIMIT
    ensures r.all == first.all && r.page == Page(first.all, r.offset, limit)
  {
    SameListing(v, skill, first.now, r.now, first.all, r.all);
  }

  /** An unchanging registry, asked for one skill while nothing in it expires. */
  ghost predicate Walk(v: View, skill: string, limit: nat, rs: seq<Request>) {
    && skill != "" && rs != []
    && forall r | r in rs :: Served(v, skill, limit, r)
                             && NothingExpires(v, Query(skill, map[], rs[0].now), Query(skill, map[], r.now))
  }

  lemma WalkSeesOneListing(v: View, skill: string, limit: nat, rs: seq<Request>)
    requires Walk(v, skill, limit, rs)
    requires |AllMatches(v, Query(skill, map[], rs[0].now))| <= MAX_DISCOVER_LIMIT
    ensures IsListing(v, Query(skill, map[], rs[0].now), rs[0].all)
    ensures forall r | r in rs :: r.all == rs[0].all && r.page == Page(rs[0].all, r.offset, limit)
  {
    assert rs[0] in rs && Served(v, skill, limit, rs[0]);
    SortedAnswerIsListing(v, skill, rs[0].now, rs[0].all);
    forall r | r in rs ensures r.all == rs[0].all && r.page == Page(rs[0].all, r.offset, limit) {
      ServedAlike(v, skill, limit, rs[0], r);
    }
  }

  /** Requests for offsets 0, L, 2L, ... together return the listing: every matching peer exactly once,
      ascending; and each request reports that listing's length as its total. */
  lemma PagesTileTheListing(v: View, skill: string, limit: nat, rs: seq<Request>)
    requires Walk(v, skill, limit, rs) && Strides(limit, rs)
    requires |AllMatches(v, Query(skill, map[], rs[0].now))| <= MAX_DISCOVER_LIMIT
    ensures IsListing(v, Query(skill, map[], rs[0].now), Pages(rs))
    ensures forall r | r in rs :: |r.all| == |Pages(rs)|
  {
    WalkSeesOneListing(v, skill, limit, rs);
    StridesTile(rs[0].all, rs, limit);
  }

  // ---- Skill counts ----

  datatype SkillSummary = SkillSummary(id: string, agentCount: nat)

  function Occurrences(skills: seq<SkillInfo>, id: string): nat {
    if skills == [] then 0
    else Occurrences(skills[..|skills| - 1], id) + if skills[|skills| - 1].skillID == id then 1 else 0
  }

  function Mentions(regs: seq<Registration>, id: string): nat {
    if regs == [] then 0 else Mentions(regs[..|regs| - 1], id) + Occurrences(regs[|regs| - 1].skills, id)
  }

  function CountOf(counts: map<string, nat>, id: string): nat {
    if id in counts then counts[id] else 0
  }

  function ById(): (SkillSummary, SkillSummary) -> bool {
    (a: SkillSummary, b: SkillSummary) => Less(a.id, b.id)
  }

  /** The summary lists each mentioned skill once, in strictly ascending order, with how often it is mentioned. */
  ghost predicate IsSummary(skills: seq<SkillSummary>, regs: seq<Registration>) {
    && (forall i, j | 0 <= i < j < |skills| :: Less(skills[i].id, skills[j].id))
    && (forall s | s in skills :: s.agentCount == Mentions(regs, s.id) > 0)
    && (forall id | Mentions(regs, id) > 0 :: SkillSummary(id, Mentions(regs, id)) in skills)
  }

  /** A skill is mentioned once for each place in each record at which it is listed, and the summary counts those. */
  lemma SummaryCounts(skills: seq<SkillSummary>, regs: seq<Registration>, id: string)
    requires IsSummary(skills, regs)
    ensures var n := |set i, j | && 0 <= i < |regs| && 0 <= j < |regs[i].skills|
                                 && regs[i].skills[j].skillID == id :: (i, j)|;
            if n == 0 then forall s | s in skills :: s.id != id
            else SkillSummary(id, n) in skills && forall s | s in skills && s.id == id :: s.agentCount == n
  {
    MentionsCountPlaces(regs, id);
    assert Places(regs, id) == set i, j | && 0 <= i < |regs| && 0 <= j < |regs[i].skills|
                                          && regs[i].skills[j].skillID == id :: (i, j);
  }

  /** The places of record `i` at which the skill is listed. */
  function PlacesIn(skills: seq<SkillInfo>, id: string, i: int): set<(int, int)> {
    set j | 0 <= j < |skills| && skills[j].skillID == id :: (i, j)
  }

  function Places(regs: seq<Registration>, id: string): set<(int, int)> {
    set i, j | 0 <= i < |regs| && 0 <= j < |regs[i].skills| && regs[i].skills[j].skillID == id :: (i, j)
  }

  lemma {:induction false} OccurrencesCountPlaces(skills: seq<SkillInfo>, id: string, i: int)
    ensures Occurrences(skills, id) == |PlacesIn(skills, id, i)|
  {
    if skills == [] {
      assert PlacesIn(skills, id, i) == {};
    } else {
      var n := |skills| - 1;
      OccurrencesCountPlaces(skills[..n], id, i);
      var front := PlacesIn(skills[..n], id, i);
      assert PlacesIn(skills, id, i) == front + if skills[n].skillID == id then {(i, n)} else {};
      assert (i, n) !in front;
    }
  }

  lemma PlacesOneMore(regs: seq<Registration>, id: string, n: nat)
    requires |regs| == n + 1
    ensures Places(regs, id) == Places(regs[..n], id) + PlacesIn(regs[n].skills, id, n)
    ensures Places(regs[..n], id) !! PlacesIn(regs[n].skills, id, n)
  {
    var front, last := Places(regs[..n], id), PlacesIn(regs[n].skills, id, n);
    forall i, j ensures (i, j) in Places(regs, id) <==> (i, j) in front || (i, j) in last {}
  }

  lemma {:induction false} MentionsCountPlaces(regs: seq<Registration>, id: string)
    ensures Mentions(regs, id) == |Places(regs, id)|
  {
    if regs == [] {
      assert Places(regs, id) == {};
    } else {
      var n := |regs| - 1;
      MentionsCountPlaces(regs[..n], id);
      OccurrencesCountPlaces(regs[n].skills, id, n);
      PlacesOneMore(regs, id, n);
    }
  }

  method ListSkills(reg: Registry, now: Time, later: Time) returns (skills: seq<SkillSummary>)
    requires reg.Valid()
    ensures exists regs: seq<Registration> ::
              && Collected(View(reg.entries, reg.federated), "", now, later, regs)
              && (forall r: Registration :: r in regs <==>
                    || (r.peerID in reg.entries && reg.entries[r.peerID] == r && now < r.expiresAt)
                    || (r.peerID in reg.federated && reg.federated[r.peerID] == r && later < r.expiresAt))
              && IsSummary(skills, regs)
    ensures forall i, j | 0 <= i < j < |skills| :: Less(skills[i].id, skills[j].id)
  {
    var regs := CollectAgents(reg, "", now, later);
    var counts := CountSkills(regs);
    var unsorted := Summaries(counts);
    skills := SortById(unsorted);
    SummariesSorted(counts, unsorted, skills);
    assert forall id :: CountOf(counts, id) == Mentions(regs, id);
    assert IsSummary(skills, regs);
  }

  method SortById(unsorted: seq<SkillSummary>) returns (skills: seq<SkillSummary>)
    ensures SortedBy(ById(), skills) && multiset(skills) == multiset(unsorted)
  {
    LessIsStrictWeakOrder();
    assert forall a, b :: ById()(a, b) <==> Less(a.id, b.id);
    assert StrictWeakOrder(ById());
    skills := SortSlice(unsorted, ById());
  }

  method CountSkills(regs: seq<Registration>) returns (counts: map<string, nat>)
    ensures forall id :: CountOf(counts, id) == Mentions(regs, id)
    ensures forall id | id in counts :: counts[id] > 0
  {
    counts := map[];
    for i := 0 to |regs|
      invariant forall id :: CountOf(counts, id) == Mentions(regs[..i], id)
      invariant forall id | id in counts :: counts[id] > 0
    {
      assert regs[..i + 1][..i] == regs[..i];
      counts := AddMentions(counts, regs[i].skills);
    }
    assert regs[..|regs|] == regs;
  }

  method AddMentions(before: map<string, nat>, skills: seq<SkillInfo>) returns (counts: map<string, nat>)
    requires forall id | id in before :: before[id] > 0
    ensures forall id :: CountOf(counts, id) == CountOf(before, id) + Occurrences(skills, id)
    ensures forall id | id in counts :: counts[id] > 0
  {
    counts := before;
    for i := 0 to |skills|
      invariant forall id :: CountOf(counts, id) == CountOf(before, id) + Occurrences(skills[..i], id)
      invariant forall id | id in counts :: counts[id] > 0
    {
      assert skills[..i + 1][..i] == skills[..i];
      counts := counts[skills[i].skillID := CountOf(counts, skills[i].skillID) + 1];
    }
    assert skills[..|skills|] == skills;
  }

  /** The entries of the count map, in iteration order. */
  method Summaries(counts: map<string, nat>) returns (skills: seq<SkillSummary>)
    ensures forall s :: s in skills <==> s.id in counts && s.agentCount == counts[s.id]
    ensures forall i, j | 0 <= i < j < |skills| :: skills[i].id != skills[j].id
  {
    skills := [];
    var todo := counts.Keys;
    while todo != {}
      invariant todo <= counts.Keys
      invariant forall s :: s in skills <==> s.id in counts && s.id !in todo && s.agentCount == counts[s.id]
      invariant forall i, j | 0 <= i < j < |skills| :: skills[i].id != skills[j].id
      decreases |todo|
    {
      var id :| id in todo;
      todo := todo - {id};
      assert forall i | 0 <= i < |skills| :: skills[i] in skills;
      skills := skills + [SkillSummary(id, counts[id])];
    }
  }

  lemma SummariesSorted(counts: map<string, nat>, unsorted: seq<SkillSummary>, skills: seq<SkillSummary>)
    requires forall s :: s in unsorted <==> s.id in counts && s.agentCount == counts[s.id]
    requires forall i, j | 0 <= i < j < |unsorted| :: unsorted[i].id != unsorted[j].id
    requires multiset(unsorted) == multiset(skills) && SortedBy(ById(), skills)
    ensures forall s :: s in skills <==> s.id in counts && s.agentCount == counts[s.id]
    ensures forall i, j | 0 <= i < j < |skills| :: Less(skills[i].id, skills[j].id)
  {
    forall s ensures s in skills <==> s in unsorted {
      assert s in skills <==> s in multiset(skills);
      assert s in unsorted <==> s in multiset(unsorted);
    }
    forall i, j | 0 <= i < j < |skills| ensures Less(skills[i].id, skills[j].id) {
      assert !ById()(skills[j], skills[i]);
      LessTotal(skills[i].id, skills[j].id);
      if skills[i].id == skills[j].id {
        assert skills[i] in unsorted && skills[j] in unsorted;
        Repeated(skills, i, j);
        OnceEach(unsorted, skills[j]);
      }
    }
  }

  lemma {:induction false} OnceEach(a: seq<SkillSummary>, s: SkillSummary)
    requires forall i, j | 0 <= i < j < |a| :: a[i].id != a[j].id
    ensures multiset(a)[s] <= 1
  {
    if a != [] {
      OnceEach(a[1..], s);
      assert a == [a[0]] + a[1..];
    }
  }

  // ---- Skill counts against the indexes ----

  function Listers(m: Store, keys: set<string>, id: string): set<string> {
    set p | p in keys && p in m && Lists(m[p].skills, id)
  }

  predicate Repeats(skills: seq<SkillInfo>, id: string) {
    Occurrences(skills, id) > 1
  }

  lemma {:induction false} OccursIffListed(skills: seq<SkillInfo>, id: string)
    ensures Occurrences(skills, id) > 0 <==> Lists(skills, id)
  {
    if skills != [] {
      var n := |skills| - 1;
      OccursIffListed(skills[..n], id);
      ListsPrefix(skills, n);
      assert skills[..n + 1] == skills;
    }
  }

  /** What an enumeration without its last record enumerates. */
  lemma EnumeratesFront(regs: seq<Registration>, m: Store, keys: set<string>)
    requires regs != [] && Enumerates(regs, m, keys)
    ensures var front, p := regs[..|regs| - 1], regs[|regs| - 1].peerID;
            && p in m && regs[|regs| - 1] == m[p] && p !in PeersIn(front)
            && keys == PeersIn(front) + {p} && Enumerates(front, m, PeersIn(front))
  {
    var n := |regs| - 1;
    var front := regs[..n];
    SplitPeers(regs, n);
    assert regs[n..] == [regs[n]] && [regs[n]][0].peerID in PeersIn([regs[n]]);
    assert forall i | 0 <= i < n :: front[i] == regs[i] && front[i].peerID in PeersIn(front);
  }

  /** Mentions count the peers that list a skill, exactly unless one of them lists it twice. */
  lemma {:induction false} MentionsCountPeers(regs: seq<Registration>, m: Store, keys: set<string>, id: string)
    requires Enumerates(regs, m, keys)
    ensures |Listers(m, keys, id)| <= Mentions(regs, id)
    ensures |Listers(m, keys, id)| == Mentions(regs, id) <==> forall p | p in keys :: !Repeats(m[p].skills, id)
    ensures Mentions(regs, id) > 0 <==> Listers(m, keys, id) != {}
  {
    if regs == [] {
      assert Listers(m, keys, id) == {};
    } else {
      var front, p := regs[..|regs| - 1], regs[|regs| - 1].peerID;
      EnumeratesFront(regs, m, keys);
      MentionsCountPeers(front, m, PeersIn(front), id);
      OneMoreLister(m, PeersIn(front), p, id);
    }
  }

  lemma OneMoreLister(m: Store, keys: set<string>, p: string, id: string)
    requires p in m && p !in keys
    ensures Listers(m, keys + {p}, id) == Listers(m, keys, id) + if Occurrences(m[p].skills, id) > 0 then {p} else {}
    ensures |Listers(m, keys + {p}, id)| == |Listers(m, keys, id)| + if Occurrences(m[p].skills, id) > 0 then 1 else 0
  {
    OccursIffListed(m[p].skills, id);
    assert Listers(m, keys + {p}, id) == Listers(m, keys, id) + if Lists(m[p].skills, id) then {p} else {};
  }

  /** While nothing stored is past or at its expiry, a skill is summarised exactly when one of the indexes has it,
      and its agent count is the size of the two index sets exactly when no record repeats the skill. */
  lemma CountsAgreeWithIndexes(v: View, index: Index, fedIndex: Index, now: Time, later: Time,
                               skills: seq<SkillSummary>, regs: seq<Registration>, id: string)
    requires Coherent(index, v.entries) && Coherent(fedIndex, v.federated)
    requires Collected(v, "", now, later, regs) && IsSummary(skills, regs)
    requires FreshKeys(v.entries, now) == v.entries.Keys && FreshKeys(v.federated, later) == v.federated.Keys
    ensures (exists s :: s in skills && s.id == id) <==> id in index || id in fedIndex
    ensures forall s | s in skills && s.id == id ::
              s.agentCount == (if id in index then |index[id]| else 0) + (if id in fedIndex then |fedIndex[id]| else 0)
              <==> && (forall p | p in v.entries :: !Repeats(v.entries[p].skills, id))
                   && (forall p | p in v.federated :: !Repeats(v.federated[p].skills, id))
  {
    var locals, feds :| Enumerates(locals, v.entries, FreshKeys(v.entries, now))
                        && Enumerates(feds, v.federated, FreshKeys(v.federated, later)) && regs == locals + feds;
    MentionsConcat(locals, feds, id);
    MentionsCountPeers(locals, v.entries, v.entries.Keys, id);
    MentionsCountPeers(feds, v.federated, v.federated.Keys, id);
    IndexHoldsListers(index, v.entries, id);
    IndexHoldsListers(fedIndex, v.federated, id);
  }

  lemma IndexHoldsListers(index: Index, m: Store, id: string)
    requires Coherent(index, m)
    ensures Listers(m, m.Keys, id) == if id in index then index[id] else {}
    ensures id in index <==> Listers(m, m.Keys, id) != {}
  {
    forall p ensures p in Listers(m, m.Keys, id) <==> Has(index, id, p) {}
    if id in index { var p :| p in index[id]; assert Has(index, id, p); }
  }

  lemma {:induction false} MentionsConcat(a: seq<Registration>, b: seq<Registration>, id: string)
    ensures Mentions(a + b, id) == Mentions(a, id) + Mentions(b, id)
  {
    if b == [] {
      assert a + b == a;
    } else {
      MentionsConcat(a, b[..|b| - 1], id);
      assert (a + b)[..|a + b| - 1] == a + b[..|b| - 1];
    }
  }
}
