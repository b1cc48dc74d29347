/** What the federated store remembers of the deliveries and evictions it has seen. */
module History {
  import Common
  import opened Records
  import opened RegistryModel
  import opened Merge

  datatype Event = Deliver(msg: Registration) | EvictAt(now: Time)

  function Step(fed: Store, e: Event, cap: int): Store {
    match e
    case Deliver(msg) => MergeOne(fed, msg, cap)
    case EvictAt(now) => Alive(fed, now)
  }

  function After(events: seq<Event>, cap: int): Store {
    if events == [] then map[] else Step(After(events[..|events| - 1], cap), events[|events| - 1], cap)
  }

  /** The deliveries for `p` since it was last inserted, the inserting one first. */
  ghost function Since(events: seq<Event>, cap: int, p: string): seq<Registration> {
    if p !in After(events, cap) then []
    else
      var earlier := events[..|events| - 1];
      match events[|events| - 1]
      case EvictAt(_) => Since(earlier, cap, p)
      case Deliver(msg) => Since(earlier, cap, p) + if msg.peerID == p then [msg] else []
  }

  /** `s[i]` is the greatest of `s`, and the earliest with its key. */
  ghost predicate Champion(s: seq<Registration>, i: nat) {
    && i < |s|
    && (forall j | 0 <= j < i :: Beats(s[i], s[j]))
    && (forall j | i < j < |s| :: !Beats(s[j], s[i]))
  }

  lemma ChampionExtends(s: seq<Registration>, i: nat, m: Registration)
    requires Champion(s, i)
    ensures Beats(m, s[i]) ==> Champion(s + [m], |s|)
    ensures !Beats(m, s[i]) ==> Champion(s + [m], i)
  {
    forall j | 0 <= j < |s| && Beats(m, s[i]) ensures Beats(m, s[j]) {
      BeatsIsStrictTotalOrder(m, s[i], s[j]);
    }
  }

  /** A stored record is the greatest delivery since its peer was last inserted, with the payload of
      the earliest delivery that carried that key. */
  lemma {:induction false} StoredIsChampion(events: seq<Event>, cap: int, p: string)
    requires p in After(events, cap)
    ensures exists i: nat :: Champion(Since(events, cap, p), i) && After(events, cap)[p] == Since(events, cap, p)[i]
  {
    var earlier, e := events[..|events| - 1], events[|events| - 1];
    var before, s := After(earlier, cap), Since(earlier, cap, p);
    if p in before {
      StoredIsChampion(earlier, cap, p);
      var i: nat :| Champion(s, i) && before[p] == s[i];
      if e.Deliver? && e.msg.peerID == p {
        ChampionExtends(s, i, e.msg);
        assert Since(events, cap, p) == s + [e.msg];
        var k: nat := if Beats(e.msg, s[i]) then |s| else i;
        assert Champion(s + [e.msg], k) && After(events, cap)[p] == (s + [e.msg])[k];
      } else {
        assert Since(events, cap, p) == s + [] == s;
      }
    } else {
      assert Since(events, cap, p) == [e.msg];
      assert Champion([e.msg], 0);
    }
  }

  /** Between insertion and eviction the stored key never goes down. */
  lemma {:induction false} KeyNeverDecreases(events: seq<Event>, more: seq<Event>, cap: int, p: string)
    requires forall n | 0 <= n <= |more| :: p in After(events + more[..n], cap)
    ensures p in After(events, cap) && p in After(events + more, cap)
    ensures !Beats(After(events, cap)[p], After(events + more, cap)[p])
  {
    assert events + more[..0] == events && events + more[..|more|] == events + more;
    var first := After(events, cap)[p];
    if more == [] {
      BeatsIsStrictTotalOrder(first, first, first);
    } else {
      var front, e := more[..|more| - 1], more[|more| - 1];
      assert forall n | 0 <= n <= |front| :: front[..n] == more[..n];
      KeyNeverDecreases(events, front, cap, p);
      assert (events + more)[..|events + more| - 1] == events + front;
      var before, now := After(events + front, cap)[p], After(events + more, cap)[p];
      BeatsIsStrictTotalOrder(first, before, now);
      BeatsIsStrictTotalOrder(first, now, before);
      BeatsIsStrictTotalOrder(now, before, first);
    }
  }

  lemma {:induction false} NeverOverCapacity(events: seq<Event>, cap: int)
    ensures |After(events, cap)| == 0 || |After(events, cap)| <= cap
  {
    if events != [] {
      var earlier, e := events[..|events| - 1], events[|events| - 1];
      NeverOverCapacity(earlier, cap);
      var before := After(earlier, cap);
      match e
      case Deliver(msg) => StoredKeysStep(before, msg, cap);
      case EvictAt(now) =>
        assert Alive(before, now).Keys <= before.Keys;
        Common.SubsetOfSize(Alive(before, now).Keys, before.Keys);
    }
  }
}
