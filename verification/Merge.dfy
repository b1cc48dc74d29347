/** The last-writer-wins merge of federated records: versions up, origin IDs down. */
module Merge {
  import opened Common
  import opened Records
  import opened RegistryModel
  import opened SkillIndex

  /** `a` replaces a stored `b`. */
  predicate Beats(a: Registration, b: Registration) {
    a.version > b.version || (a.version == b.version && Less(a.origin, b.origin))
  }

  predicate SameKey(a: Registration, b: Registration) {
    a.version == b.version && a.origin == b.origin
  }

  predicate Accepts(fed: Store, msg: Registration, cap: int) {
    if msg.peerID in fed then Beats(msg, fed[msg.peerID]) else |fed| < cap
  }

  function MergeOne(fed: Store, msg: Registration, cap: int): Store {
    if Accepts(fed, msg, cap) then fed[msg.peerID := msg] else fed
  }

  function MergeAll(fed: Store, msgs: seq<Registration>, cap: int): Store {
    if msgs == [] then fed else MergeOne(MergeAll(fed, msgs[..|msgs| - 1], cap), msgs[|msgs| - 1], cap)
  }

  lemma BeatsIsStrictTotalOrder(a: Registration, b: Registration, c: Registration)
    ensures !(Beats(a, b) && Beats(b, a))
    ensures Beats(a, b) || Beats(b, a) || SameKey(a, b)
    ensures Beats(a, b) && Beats(b, c) ==> Beats(a, c)
    ensures Beats(a, b) && !Beats(c, b) ==> Beats(a, c)
    ensures Beats(a, b) <==> a.version > b.version || (a.version == b.version && Less(a.origin, b.origin))
  {
    LessTotal(a.origin, b.origin);
    LessTotal(c.origin, b.origin);
    if Less(a.origin, b.origin) && Less(b.origin, c.origin) {
      LessTransitive(a.origin, b.origin, c.origin);
    }
  }

  // ---- Convergence ----

  ghost predicate SameElements(a: seq<Registration>, b: seq<Registration>) {
    forall m :: m in a <==> m in b
  }

  /** Records that could be stored for `p`: what was there, and what was delivered. */
  ghost predicate Candidate(init: Store, msgs: seq<Registration>, p: string, r: Registration) {
    (p in init && r == init[p]) || (r in msgs && r.peerID == p)
  }

  ghost predicate Best(init: Store, msgs: seq<Registration>, p: string, r: Registration) {
    Candidate(init, msgs, p, r) && forall c | Candidate(init, msgs, p, c) :: !Beats(c, r)
  }

  lemma PeersInLast(msgs: seq<Registration>)
    requires msgs != []
    ensures PeersIn(msgs) == PeersIn(msgs[..|msgs| - 1]) + {msgs[|msgs| - 1].peerID}
  {
    var n := |msgs| - 1;
    SplitPeers(msgs, n);
    assert PeersIn(msgs[n..]) == {msgs[n].peerID} by {
      assert msgs[n..] == [msgs[n]];
      assert [msgs[n]][0].peerID in PeersIn([msgs[n]]);
    }
  }

  lemma StoredKeysStep(fed: Store, msg: Registration, cap: int)
    ensures var r := MergeOne(fed, msg, cap);
            if msg.peerID in fed || |fed| < cap
            then r.Keys == fed.Keys + {msg.peerID} && |r| == |fed| + (if msg.peerID in fed then 0 else 1)
            else r == fed
  {
    var r := MergeOne(fed, msg, cap);
    if msg.peerID in fed {
      assert r.Keys == fed.Keys == fed.Keys + {msg.peerID};
      assert |r.Keys| == |fed.Keys|;
    }
  }

  /** What `StoredKeys` says of a store and its deliveries. */
  ghost predicate KeysGrow(init: Store, peers: set<string>, stored: Store, cap: int) {
    && init.Keys <= stored.Keys <= init.Keys + peers
    && (|stored| <= |init| || |stored| <= cap)
    && (|stored| < cap ==> stored.Keys == init.Keys + peers)
  }

  lemma KeysGrowStep(init: Store, peers: set<string>, stored: Store, msg: Registration, cap: int)
    requires KeysGrow(init, peers, stored, cap)
    ensures KeysGrow(init, peers + {msg.peerID}, MergeOne(stored, msg, cap), cap)
  {
    StoredKeysStep(stored, msg, cap);
  }

  /** Deliveries only ever add peers, never past the capacity, and while there is room
      every peer named is stored. */
  lemma {:induction false} StoredKeys(init: Store, msgs: seq<Registration>, cap: int)
    ensures init.Keys <= MergeAll(init, msgs, cap).Keys <= init.Keys + PeersIn(msgs)
    ensures |MergeAll(init, msgs, cap)| <= |init| || |MergeAll(init, msgs, cap)| <= cap
    ensures |MergeAll(init, msgs, cap)| < cap ==> MergeAll(init, msgs, cap).Keys == init.Keys + PeersIn(msgs)
  {
    if msgs != [] {
      var front, last := msgs[..|msgs| - 1], msgs[|msgs| - 1];
      StoredKeys(init, front, cap);
      PeersInLast(msgs);
      KeysGrowStep(init, PeersIn(front), MergeAll(init, front, cap), last, cap);
    }
  }

  lemma BestAfterOne(init: Store, front: seq<Registration>, last: Registration, p: string, r: Registration)
    requires Best(init, front, p, r)
    ensures Best(init, front + [last], p, if last.peerID == p && Beats(last, r) then last else r)
  {
    var now := if last.peerID == p && Beats(last, r) then last else r;
    forall c | Candidate(init, front + [last], p, c) ensures !Beats(c, now) {
      assert Candidate(init, front, p, c) || c == last;
      BeatsIsStrictTotalOrder(last, r, c);
      BeatsIsStrictTotalOrder(c, last, r);
      BeatsIsStrictTotalOrder(last, last, last);
    }
    assert Candidate(init, front + [last], p, now);
  }

  lemma BestWhenFirst(init: Store, front: seq<Registration>, last: Registration)
    requires last.peerID !in init && last.peerID !in PeersIn(front)
    ensures Best(init, front + [last], last.peerID, last)
  {
    BeatsIsStrictTotalOrder(last, last, last);
    forall c | Candidate(init, front + [last], last.peerID, c) ensures c == last {
      if c in front { NamedPeer(front, c); }
    }
  }

  /** A stored record is the best of everything delivered for its peer. */
  lemma {:induction false} StoredIsBest(init: Store, msgs: seq<Registration>, cap: int, p: string)
    requires p in MergeAll(init, msgs, cap)
    ensures Best(init, msgs, p, MergeAll(init, msgs, cap)[p])
  {
    if msgs == [] {
      BeatsIsStrictTotalOrder(init[p], init[p], init[p]);
    } else {
      var front, last := msgs[..|msgs| - 1], msgs[|msgs| - 1];
      var before := MergeAll(init, front, cap);
      assert msgs == front + [last];
      if p in before {
        StoredIsBest(init, front, cap, p);
        BestAfterOne(init, front, last, p, before[p]);
      } else {
        StoredKeys(init, front, cap);
        BestWhenFirst(init, front, last);
      }
    }
  }

  /** So it has the greatest version delivered or first held for its peer, and among those an origin than which no
      other comes earlier. */
  lemma StoredIsGreatest(init: Store, msgs: seq<Registration>, cap: int, p: string)
    requires p in MergeAll(init, msgs, cap)
    ensures var s := MergeAll(init, msgs, cap)[p];
            && ((p in init && s == init[p]) || (s in msgs && s.peerID == p))
            && (p in init ==> init[p].version < s.version
                              || (init[p].version == s.version && !Less(init[p].origin, s.origin)))
            && (forall m | m in msgs && m.peerID == p ::
                  m.version < s.version || (m.version == s.version && !Less(m.origin, s.origin)))
  {
    StoredIsBest(init, msgs, cap, p);
    var s := MergeAll(init, msgs, cap)[p];
    assert p in init ==> Candidate(init, msgs, p, init[p]);
    forall m | m in msgs && m.peerID == p
      ensures m.version < s.version || (m.version == s.version && !Less(m.origin, s.origin))
    {
      assert Candidate(init, msgs, p, m);
    }
  }

  /** The same of any sequence of stores in which each follows from the one before by a call to register one federated
      record: a record replaces an older one, or one of the same version from a later origin, and a new peer is
      admitted while there is room. */
  lemma CallsKeepGreatest(stores: seq<Store>, msgs: seq<Registration>, cap: int, p: string)
    requires |stores| == |msgs| + 1
    requires forall i | 0 <= i < |msgs| ::
               var m := msgs[i];
               stores[i + 1] == if (if m.peerID in stores[i]
                                    then var e := stores[i][m.peerID];
                                         m.version > e.version || (m.version == e.version && Less(m.origin, e.origin))
                                    else |stores[i]| < cap)
                                then stores[i][m.peerID := m] else stores[i]
    requires p in stores[|msgs|]
    ensures var s := stores[|msgs|][p];
            && ((p in stores[0] && s == stores[0][p]) || (s in msgs && s.peerID == p))
            && (p in stores[0] ==> stores[0][p].version < s.version
                                   || (stores[0][p].version == s.version && !Less(stores[0][p].origin, s.origin)))
            && (forall m | m in msgs && m.peerID == p ::
                  m.version < s.version || (m.version == s.version && !Less(m.origin, s.origin)))
  {
    CallsAreMerges(stores, msgs, cap);
    StoredIsGreatest(stores[0], msgs, cap, p);
  }

  lemma {:induction false} CallsAreMerges(stores: seq<Store>, msgs: seq<Registration>, cap: int)
    requires |stores| == |msgs| + 1
    requires forall i | 0 <= i < |msgs| ::
               var m := msgs[i];
               stores[i + 1] == if (if m.peerID in stores[i]
                                    then var e := stores[i][m.peerID];
                                         m.version > e.version || (m.version == e.version && Less(m.origin, e.origin))
                                    else |stores[i]| < cap)
                                then stores[i][m.peerID := m] else stores[i]
    ensures stores[|msgs|] == MergeAll(stores[0], msgs, cap)
  {
    if msgs != [] {
      var n := |msgs| - 1;
      CallsAreMerges(stores[..n + 1], msgs[..n], cap);
      assert stores[n + 1] == MergeOne(stores[n], msgs[n], cap);
    }
  }

  lemma NamedPeer(msgs: seq<Registration>, c: Registration)
    requires c in msgs
    ensures c.peerID in PeersIn(msgs)
  {
    var i :| 0 <= i < |msgs| && msgs[i] == c;
    assert msgs[i].peerID == c.peerID;
  }

  /** What a delivery achieves: a record at least as new as it is stored, unless its peer is new and the store full. */
  lemma DeliveryTakesEffect(init: Store, msgs: seq<Registration>, cap: int, m: Registration)
    requires m in msgs
    ensures var stored := MergeAll(init, msgs, cap);
            if m.peerID in stored then !Beats(m, stored[m.peerID]) else m.peerID !in init && cap <= |stored|
    ensures |init.Keys + PeersIn(msgs)| <= cap ==> m.peerID in MergeAll(init, msgs, cap)
  {
    var stored := MergeAll(init, msgs, cap);
    NamedPeer(msgs, m);
    StoredKeys(init, msgs, cap);
    if m.peerID in stored {
      StoredIsBest(init, msgs, cap, m.peerID);
      assert Candidate(init, msgs, m.peerID, m);
    } else if |init.Keys + PeersIn(msgs)| <= cap {
      SubsetOfSize(stored.Keys, init.Keys + PeersIn(msgs));
    }
  }

  /** Every named peer fits, or no new peer does. */
  predicate Decided(init: Store, msgs: seq<Registration>, cap: int) {
    cap <= |init| || |init.Keys + PeersIn(msgs)| <= cap
  }

  ghost predicate SameKeys(a: Store, b: Store) {
    a.Keys == b.Keys && forall p | p in a :: SameKey(a[p], b[p])
  }

  /** No two records with one (version, origin) differ in what they say about a peer. */
  ghost predicate KeyDeterminesPayload(init: Store, msgs: seq<Registration>) {
    forall p, c, d | Candidate(init, msgs, p, c) && Candidate(init, msgs, p, d) && SameKey(c, d) :: c == d
  }

  lemma SameElementsSamePeers(a: seq<Registration>, b: seq<Registration>)
    requires SameElements(a, b)
    ensures PeersIn(a) == PeersIn(b)
  {
    forall i | 0 <= i < |a| ensures a[i].peerID in PeersIn(b) { NamedPeer(b, a[i]); }
    forall i | 0 <= i < |b| ensures b[i].peerID in PeersIn(a) { NamedPeer(a, b[i]); }
  }

  lemma DecidedKeys(init: Store, msgs: seq<Registration>, cap: int)
    requires Decided(init, msgs, cap)
    ensures MergeAll(init, msgs, cap).Keys == if cap <= |init| then init.Keys else init.Keys + PeersIn(msgs)
  {
    var stored := MergeAll(init, msgs, cap);
    StoredKeys(init, msgs, cap);
    SubsetOfSize(init.Keys, stored.Keys);
    SubsetOfSize(stored.Keys, init.Keys + PeersIn(msgs));
  }

  lemma WinnersAgree(init: Store, a: seq<Registration>, b: seq<Registration>, cap: int, p: string)
    requires SameElements(a, b) && p in MergeAll(init, a, cap) && p in MergeAll(init, b, cap)
    ensures var x, y := MergeAll(init, a, cap)[p], MergeAll(init, b, cap)[p];
            SameKey(x, y) && Candidate(init, a, p, x) && Candidate(init, a, p, y)
  {
    StoredIsBest(init, a, cap, p);
    StoredIsBest(init, b, cap, p);
    var x, y := MergeAll(init, a, cap)[p], MergeAll(init, b, cap)[p];
    assert Candidate(init, a, p, y) && Candidate(init, b, p, x);
    BeatsIsStrictTotalOrder(x, y, x);
  }

  lemma SameDomain(init: Store, a: seq<Registration>, b: seq<Registration>, cap: int)
    requires SameElements(a, b) && Decided(init, a, cap)
    ensures MergeAll(init, a, cap).Keys == MergeAll(init, b, cap).Keys
  {
    SameElementsSamePeers(a, b);
    DecidedKeys(init, a, cap);
    DecidedKeys(init, b, cap);
  }

  /** Two stores given the same deliveries, in any order and with any repetition, agree on the
      (version, origin) of every peer they both hold ... */
  lemma AgreeOnShared(init: Store, a: seq<Registration>, b: seq<Registration>, cap: int)
    requires SameElements(a, b)
    ensures forall p | p in MergeAll(init, a, cap) && p in MergeAll(init, b, cap) ::
              SameKey(MergeAll(init, a, cap)[p], MergeAll(init, b, cap)[p])
  {
    forall p | p in MergeAll(init, a, cap) && p in MergeAll(init, b, cap)
      ensures SameKey(MergeAll(init, a, cap)[p], MergeAll(init, b, cap)[p])
    {
      WinnersAgree(init, a, b, cap, p);
    }
  }

  /** ... and unless capacity is contended they hold the same peers; if further the key determines the
      payload, they are equal. */
  lemma Convergence(init: Store, a: seq<Registration>, b: seq<Registration>, cap: int)
    requires SameElements(a, b) && Decided(init, a, cap)
    ensures SameKeys(MergeAll(init, a, cap), MergeAll(init, b, cap))
    ensures KeyDeterminesPayload(init, a) ==> MergeAll(init, a, cap) == MergeAll(init, b, cap)
  {
    SameDomain(init, a, b, cap);
    AgreeOnShared(init, a, b, cap);
    if KeyDeterminesPayload(init, a) {
      forall p | p in MergeAll(init, a, cap) ensures MergeAll(init, a, cap)[p] == MergeAll(init, b, cap)[p] {
        WinnersAgree(init, a, b, cap, p);
      }
    }
  }

  /** Converged stores have the same index and the same counter, so whole registries agree. */
  lemma ConvergedIndexes(init: Store, a: seq<Registration>, b: seq<Registration>, cap: int, ia: Index, ib: Index)
    requires SameElements(a, b) && Decided(init, a, cap) && KeyDeterminesPayload(init, a)
    requires Coherent(ia, MergeAll(init, a, cap)) && Coherent(ib, MergeAll(init, b, cap))
    ensures ia == ib && |MergeAll(init, a, cap)| == |MergeAll(init, b, cap)|
  {
    Convergence(init, a, b, cap);
    CoherentIndexIsUnique(ia, ib, MergeAll(init, a, cap));
  }

  // ---- Contended capacity is the one thing that makes the order matter ----

  lemma {:induction false} MergeAllConcat(init: Store, s: seq<Registration>, t: seq<Registration>, cap: int)
    ensures MergeAll(init, s + t, cap) == MergeAll(MergeAll(init, s, cap), t, cap)
  {
    if t == [] {
      assert s + t == s;
    } else {
      MergeAllConcat(init, s, t[..|t| - 1], cap);
      assert (s + t)[..|s + t| - 1] == s + t[..|t| - 1];
    }
  }

  /** The deliveries for `p` (`same`), or those for everyone else. */
  function Select(msgs: seq<Registration>, p: string, same: bool): (r: seq<Registration>)
    ensures forall m :: m in r <==> m in msgs && (m.peerID == p <==> same)
  {
    if msgs == [] then []
    else
      var rest := Select(msgs[1..], p, same);
      assert forall m :: m in msgs <==> m == msgs[0] || m in msgs[1..];
      if (msgs[0].peerID == p) == same then [msgs[0]] + rest else rest
  }

  lemma {:induction false} FullStoreRejects(fed: Store, msgs: seq<Registration>, cap: int, p: string)
    requires cap <= |fed| && p !in fed
    requires forall m | m in msgs :: m.peerID == p
    ensures MergeAll(fed, msgs, cap) == fed
  {
    if msgs != [] {
      FullStoreRejects(fed, msgs[..|msgs| - 1], cap, p);
    }
  }

  /** First come, first served. */
  lemma FirstIsStored(init: Store, m: Registration, rest: seq<Registration>, cap: int)
    requires |init| < cap
    ensures m.peerID in MergeAll(init, [m] + rest, cap)
  {
    MergeAllConcat(init, [m], rest, cap);
    assert [m][..0] == [];
    assert MergeAll(init, [m], cap) == MergeOne(init, m, cap);
    StoredKeysStep(init, m, cap);
    StoredKeys(MergeOne(init, m, cap), rest, cap);
  }

  lemma SelectedPeers(msgs: seq<Registration>, p: string)
    ensures PeersIn(Select(msgs, p, false)) == PeersIn(msgs) - {p}
  {
    var others := Select(msgs, p, false);
    forall q | q in PeersIn(others) ensures q in PeersIn(msgs) - {p} {
      var j :| 0 <= j < |others| && others[j].peerID == q;
      NamedPeer(msgs, others[j]);
    }
    forall q | q in PeersIn(msgs) - {p} ensures q in PeersIn(others) {
      var j :| 0 <= j < |msgs| && msgs[j].peerID == q;
      NamedPeer(others, msgs[j]);
    }
  }

  /** Last come, turned away, once the other peers fill the store. */
  lemma LastIsRejected(init: Store, msgs: seq<Registration>, cap: int, p: string)
    requires |init| < cap < |init.Keys + PeersIn(msgs)| && p in PeersIn(msgs) && p !in init
    ensures p !in MergeAll(init, Select(msgs, p, false) + Select(msgs, p, true), cap)
  {
    var others, own := Select(msgs, p, false), Select(msgs, p, true);
    var full := MergeAll(init, others, cap);
    StoredKeys(init, others, cap);
    SelectedPeers(msgs, p);
    assert init.Keys + PeersIn(msgs) == (init.Keys + PeersIn(others)) + {p};
    FullStoreRejects(full, own, cap, p);
    MergeAllConcat(init, others, own, cap);
  }

  lemma OrderMatters(init: Store, msgs: seq<Registration>, cap: int)
    returns (a: seq<Registration>, b: seq<Registration>)
    requires !Decided(init, msgs, cap)
    ensures SameElements(a, msgs) && SameElements(b, msgs)
    ensures MergeAll(init, a, cap).Keys != MergeAll(init, b, cap).Keys
  {
    assert PeersIn(msgs) <= init.Keys ==> init.Keys + PeersIn(msgs) == init.Keys;
    var p :| p in PeersIn(msgs) && p !in init.Keys;
    var i :| 0 <= i < |msgs| && msgs[i].peerID == p;
    a := [msgs[i]] + msgs;
    b := Select(msgs, p, false) + Select(msgs, p, true);
    FirstIsStored(init, msgs[i], msgs, cap);
    LastIsRejected(init, msgs, cap, p);
  }

  /** Exactly when every arrangement of the same deliveries leads to the same peers and keys. */
  lemma ConvergesExactlyWhenDecided(init: Store, msgs: seq<Registration>, cap: int)
    ensures (forall a, b | SameElements(a, msgs) && SameElements(b, msgs) ::
               SameKeys(MergeAll(init, a, cap), MergeAll(init, b, cap)))
            <==> Decided(init, msgs, cap)
  {
    if Decided(init, msgs, cap) {
      forall a, b | SameElements(a, msgs) && SameElements(b, msgs)
        ensures SameKeys(MergeAll(init, a, cap), MergeAll(init, b, cap))
      {
        SameElementsSamePeers(a, msgs);
        Convergence(init, a, b, cap);
      }
    } else {
      var a, b := OrderMatters(init, msgs, cap);
      assert !SameKeys(MergeAll(init, a, cap), MergeAll(init, b, cap));
    }
  }
}
