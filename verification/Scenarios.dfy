/** Concrete runs of three relays in which the outdated is answered. */
module Scenarios {
  import opened Records
  import opened RegistryModel
  import opened Network
  import opened Survival

  const OFFER := [SkillInfo("s", "", map[])]
  const JOIN := Local(LocalOp.Register("p", OFFER, "", ""))

  function Record(version: nat, expiresAt: Time, origin: string): Registration {
    Registration("p", OFFER, "", "", version, expiresAt, origin, version)
  }

  const NEWER := Record(10, 20, "a")
  const OLDER := Record(5, 1005, "b")

  /** Relays `a` and `b` accept agents, the second with the longer lifetime and the slower clock; `c` pulls from
      both. */
  function Scene(a: Store, b: Store, c: Store, clock: Reading, net: set<Registration>): System {
    System(map["a" := Relay(View(a, map[]), 10), "b" := Relay(View(b, map[]), 5), "c" := Relay(View(map[], c), clock)],
           net)
  }

  function Trio(): World {
    World(map["a" := Config(10, 9, 9), "b" := Config(1000, 9, 9), "c" := Config(10, 9, 9)],
          Scene(map[], map[], map[], 0, {}))
  }

  lemma JoinAndSendAtA(b: Store, c: Store, clock: Reading, net: set<Registration>)
    ensures Act(Config(10, 9, 9), Scene(map[], b, c, clock, net), "a", JOIN)
            == Scene(map["p" := Record(10, 20, "")], b, c, clock, net)
    ensures Act(Config(10, 9, 9), Scene(map["p" := Record(10, 20, "")], b, c, clock, net), "a", Send("p"))
            == Scene(map["p" := Record(10, 20, "")], b, c, clock, net + {NEWER})
  {
  }

  lemma JoinAndSendAtB(a: Store, c: Store, clock: Reading, net: set<Registration>)
    ensures Act(Config(1000, 9, 9), Scene(a, map[], c, clock, net), "b", JOIN)
            == Scene(a, map["p" := Record(5, 1005, "")], c, clock, net)
    ensures Act(Config(1000, 9, 9), Scene(a, map["p" := Record(5, 1005, "")], c, clock, net), "b", Send("p"))
            == Scene(a, map["p" := Record(5, 1005, "")], c, clock, net + {OLDER})
  {
  }

  lemma StoreAtC(a: Store, b: Store, clock: Reading, net: set<Registration>, msg: Registration)
    requires msg in net && msg.peerID == "p"
    ensures Act(Config(10, 9, 9), Scene(a, b, map[], clock, net), "c", Receive(msg))
            == Scene(a, b, map["p" := msg], clock, net)
  {
  }

  lemma ForgetAtC(a: Store, b: Store, net: set<Registration>)
    ensures Act(Config(10, 9, 9), Scene(a, b, map["p" := NEWER], 0, net), "c", Tick(21))
            == Scene(a, b, map["p" := NEWER], 21, net)
    ensures Act(Config(10, 9, 9), Scene(a, b, map["p" := NEWER], 21, net), "c", Local(EvictExpired))
            == Scene(a, b, map[], 21, net)
  {
    assert Alive(map["p" := NEWER], 21) == map[];
  }

  /** Every discovery of skill `s` at relay `r` now answers exactly this record. */
  ghost predicate Discovered(s: System, r: string, reg: Registration) {
    r in s.relays && forall limit, results: seq<Registration> ::
      IsDiscovery(s.relays[r].view, Query("s", map[], s.relays[r].clock), limit, true, results) <==> results == [reg]
  }

  lemma OnlyRecordDiscovered(reg: Registration, now: Reading, limit: int, results: seq<Registration>)
    requires reg.peerID == "p" && reg.skills == OFFER && !Expired(reg, now)
    ensures IsDiscovery(View(map[], map["p" := reg]), Query("s", map[], now), limit, true, results)
            <==> results == [reg]
  {
    var v, q := View(map[], map["p" := reg]), Query("s", map[], now);
    assert Offers(reg, "s", map[]) by { assert reg.skills[0].skillID == "s"; }
    assert Matching(v.entries, q) == {} && Matching(v.federated, q) == {"p"};
    assert Unshadowed(v, q, true) == {"p"};
    assert results[..0] == [] && results[0..] == results;
  }

  /** A run in which every discovery at `c` first answers version 10 of an agent and later version 5. */
  lemma TwoHomesResurrect()
    ensures Trio().Valid()
    ensures exists steps, more :: && Discovered(After(Trio(), steps), "c", NEWER)
                                  && Discovered(After(Trio(), steps + more), "c", OLDER)
  {
    var w := Trio();
    var joined := BothSend();
    var a, b := map["p" := Record(10, 20, "")], map["p" := Record(5, 1005, "")];
    var steps := joined + [Step("c", Receive(NEWER))];
    OneMoreStep(w, joined, Step("c", Receive(NEWER)));
    StoreAtC(a, b, 0, {NEWER, OLDER}, NEWER);
    var more := OlderReturns(w, steps);
    assert Discovered(After(w, steps), "c", NEWER) by {
      forall limit, results { OnlyRecordDiscovered(NEWER, 0, limit, results); }
    }
    assert Discovered(After(w, steps + more), "c", OLDER) by {
      forall limit, results { OnlyRecordDiscovered(OLDER, 21, limit, results); }
    }
  }

  lemma BothSend() returns (steps: seq<Step>)
    ensures After(Trio(), steps)
            == Scene(map["p" := Record(10, 20, "")], map["p" := Record(5, 1005, "")], map[], 0, {NEWER, OLDER})
  {
    var w := Trio();
    JoinAndSendAtA(map[], map[], 0, {});
    JoinAndSendAtB(map["p" := Record(10, 20, "")], map[], 0, {} + {NEWER});
    steps := [];
    OneMoreStep(w, steps, Step("a", JOIN));
    steps := steps + [Step("a", JOIN)];
    OneMoreStep(w, steps, Step("a", Send("p")));
    steps := steps + [Step("a", Send("p"))];
    OneMoreStep(w, steps, Step("b", JOIN));
    steps := steps + [Step("b", JOIN)];
    OneMoreStep(w, steps, Step("b", Send("p")));
    steps := steps + [Step("b", Send("p"))];
    assert {} + {NEWER} + {OLDER} == {NEWER, OLDER};
  }

  lemma OlderReturns(w: World, steps: seq<Step>) returns (more: seq<Step>)
    requires w == Trio()
    requires After(w, steps) == Scene(map["p" := Record(10, 20, "")], map["p" := Record(5, 1005, "")],
                                      map["p" := NEWER], 0, {NEWER, OLDER})
    ensures After(w, steps + more) == Scene(map["p" := Record(10, 20, "")], map["p" := Record(5, 1005, "")],
                                            map["p" := OLDER], 21, {NEWER, OLDER})
  {
    var a, b, net := map["p" := Record(10, 20, "")], map["p" := Record(5, 1005, "")], {NEWER, OLDER};
    ForgetAtC(a, b, net);
    StoreAtC(a, b, 21, net, OLDER);
    var s1, s2, s3 := Step("c", Tick(21)), Step("c", Local(EvictExpired)), Step("c", Receive(OLDER));
    OneMoreStep(w, steps, s1);
    OneMoreStep(w, steps + [s1], s2);
    OneMoreStep(w, steps + [s1] + [s2], s3);
    more := [s1, s2, s3];
    assert steps + [s1] + [s2] + [s3] == steps + more;
  }

  // ---- An agent that has been removed ----

  /** A run in which an agent registers at one relay only and is removed there, while every discovery at `c` goes on
      answering it up to the last instant of its lease. */
  lemma RemovedAgentIsAnswered()
    ensures Trio().Valid()
    ensures exists steps :: var s := After(Trio(), steps);
              && RegistersOnlyAt(steps, "p", {"a"}) && HeldNowhere(s, "p") && Discovered(s, "c", NEWER)
              && "a" in s.relays && s.relays["c"].clock == LeaseEnd(Trio(), s, "a")
  {
    var w := Trio();
    var steps := SendThenRemove();
    assert Discovered(After(w, steps), "c", NEWER) by {
      forall limit, results { OnlyRecordDiscovered(NEWER, 20, limit, results); }
    }
  }

  lemma SendThenRemove() returns (steps: seq<Step>)
    ensures After(Trio(), steps) == Scene(map[], map[], map["p" := NEWER], 20, {} + {NEWER})
    ensures RegistersOnlyAt(steps, "p", {"a"})
  {
    var w := Trio();
    JoinAndSendAtA(map[], map[], 0, {});
    StoreAtC(map["p" := Record(10, 20, "")], map[], 0, {} + {NEWER}, NEWER);
    RemoveAtA({} + {NEWER});
    steps := [];
    OneMoreStep(w, steps, Step("a", JOIN));
    steps := steps + [Step("a", JOIN)];
    OneMoreStep(w, steps, Step("a", Send("p")));
    steps := steps + [Step("a", Send("p"))];
    OneMoreStep(w, steps, Step("c", Receive(NEWER)));
    steps := steps + [Step("c", Receive(NEWER))];
    OneMoreStep(w, steps, Step("a", Local(LocalOp.RemovePeer("p"))));
    steps := steps + [Step("a", Local(LocalOp.RemovePeer("p")))];
    OneMoreStep(w, steps, Step("c", Tick(20)));
    steps := steps + [Step("c", Tick(20))];
  }

  lemma RemoveAtA(net: set<Registration>)
    ensures Act(Config(10, 9, 9), Scene(map["p" := Record(10, 20, "")], map[], map["p" := NEWER], 0, net), "a",
                Local(LocalOp.RemovePeer("p")))
            == Scene(map[], map[], map["p" := NEWER], 0, net)
    ensures Act(Config(10, 9, 9), Scene(map[], map[], map["p" := NEWER], 0, net), "c", Tick(20))
            == Scene(map[], map[], map["p" := NEWER], 20, net)
  {
  }
}
