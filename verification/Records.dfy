/** The records a relay stores, and the questions its queries ask of one record. */
module Records {

  /** Instants and durations in nanoseconds. */
  type Time = int

  /** A reading of a relay's clock that `UnixNano` can represent. */
  type Reading = t: Time | 0 <= t < 0x8000_0000_0000_0000

  /** Go's zero `time.Time`, 1 January of year 1, relative to the Unix epoch. */
  const ZERO_TIME: Time := -62_135_596_800_000_000_000

  type Tags = map<string, string>

  datatype SkillInfo = SkillInfo(skillID: string, description: string, tags: Tags)

  datatype Registration = Registration(
    peerID: string,
    skills: seq<SkillInfo>,
    agentName: string,
    agentDescription: string,
    registeredAt: Time,
    expiresAt: Time,
    origin: string,
    version: nat)

  /** `uint64(now.UnixNano())`, with the wrap-around of the conversion. */
  function VersionAt(now: Time): nat {
    now % 0x1_0000_0000_0000_0000
  }

  /** `now.After(ExpiresAt)`. At the instant of expiry a record is neither expired nor fresh. */
  predicate Expired(reg: Registration, now: Time) {
    now > reg.expiresAt
  }

  /** `now.Before(ExpiresAt)` */
  predicate Fresh(reg: Registration, now: Time) {
    now < reg.expiresAt
  }

  predicate Lists(skills: seq<SkillInfo>, id: string) {
    exists i | 0 <= i < |skills| :: skills[i].skillID == id
  }

  /** Reading a Go map: an absent key yields the empty string. */
  function TagOf(tags: Tags, key: string): string {
    if key in tags then tags[key] else ""
  }

  predicate MatchTags(skillTags: Tags, filter: Tags) {
    forall k | k in filter :: TagOf(skillTags, k) == filter[k]
  }

  predicate Offers(reg: Registration, id: string, filter: Tags) {
    exists i | 0 <= i < |reg.skills| :: reg.skills[i].skillID == id && MatchTags(reg.skills[i].tags, filter)
  }

  /** The skills that a partial unregistration leaves, in their order. */
  function Without(skills: seq<SkillInfo>, ids: seq<string>): seq<SkillInfo> {
    if skills == [] then []
    else
      var rest := Without(skills[..|skills| - 1], ids);
      if skills[|skills| - 1].skillID in ids then rest else rest + [skills[|skills| - 1]]
  }

  lemma {:induction false} WithoutLists(skills: seq<SkillInfo>, ids: seq<string>, id: string)
    ensures Lists(Without(skills, ids), id) <==> Lists(skills, id) && id !in ids
  {
    if skills != [] {
      var front, last := skills[..|skills| - 1], skills[|skills| - 1];
      WithoutLists(front, ids, id);
      assert Lists(skills, id) <==> Lists(front, id) || last.skillID == id by {
        assert forall i | 0 <= i < |front| :: skills[i] == front[i];
      }
      var rest := Without(front, ids);
      assert Lists(rest + [last], id) <==> Lists(rest, id) || last.skillID == id by {
        var all := rest + [last];
        assert all[|rest|] == last && forall i | 0 <= i < |rest| :: all[i] == rest[i];
      }
    }
  }

  /** `kept` are the places in `skills` of `left`, in order: those of the skills that are not named. */
  ghost predicate Keeps(skills: seq<SkillInfo>, ids: seq<string>, left: seq<SkillInfo>, kept: seq<nat>) {
    && |kept| == |left|
    && (forall j | 0 <= j < |kept| :: kept[j] < |skills| && left[j] == skills[kept[j]])
    && (forall i, j | 0 <= i < j < |kept| :: kept[i] < kept[j])
    && (forall k | 0 <= k < |skills| :: k in kept <==> skills[k].skillID !in ids)
  }

  lemma KeepsOneMore(skills: seq<SkillInfo>, last: SkillInfo, ids: seq<string>, left: seq<SkillInfo>, kept: seq<nat>)
    requires Keeps(skills, ids, left, kept)
    ensures last.skillID in ids ==> Keeps(skills + [last], ids, left, kept)
    ensures last.skillID !in ids ==> Keeps(skills + [last], ids, left + [last], kept + [|skills|])
  {
    var longer := kept + [|skills|];
    assert forall k :: k in longer <==> k in kept || k == |skills|;
    assert |skills| !in kept;
  }

  lemma {:induction false} WithoutIsKept(skills: seq<SkillInfo>, ids: seq<string>) returns (kept: seq<nat>)
    ensures Keeps(skills, ids, Without(skills, ids), kept)
  {
    if skills == [] {
      kept := [];
    } else {
      var front, last := skills[..|skills| - 1], skills[|skills| - 1];
      kept := WithoutIsKept(front, ids);
      KeepsOneMore(front, last, ids, Without(front, ids), kept);
      assert skills == front + [last];
      if last.skillID !in ids { kept := kept + [|front|]; }
    }
  }

  /** A partial unregistration leaves the skills that are not named, untouched and in their order. */
  lemma WithoutKeeps(skills: seq<SkillInfo>, ids: seq<string>) returns (kept: seq<nat>)
    ensures |kept| == |Without(skills, ids)|
    ensures forall j | 0 <= j < |kept| :: kept[j] < |skills| && Without(skills, ids)[j] == skills[kept[j]]
    ensures forall i, j | 0 <= i < j < |kept| :: kept[i] < kept[j]
    ensures forall k | 0 <= k < |skills| :: k in kept <==> skills[k].skillID !in ids
  {
    kept := WithoutIsKept(skills, ids);
  }

  /** Some listed skill has the ID, and every tag asked for, an absent tag reading as the empty string. */
  lemma OffersMeans(reg: Registration, id: string, filter: Tags)
    ensures Offers(reg, id, filter)
            <==> exists j | 0 <= j < |reg.skills| ::
                   && reg.skills[j].skillID == id
                   && forall k | k in filter ::
                        (if k in reg.skills[j].tags then reg.skills[j].tags[k] else "") == filter[k]
  {
    forall j | 0 <= j < |reg.skills|
      ensures MatchTags(reg.skills[j].tags, filter)
              <==> forall k | k in filter ::
                     (if k in reg.skills[j].tags then reg.skills[j].tags[k] else "") == filter[k]
    {
      assert forall k | k in filter ::
          TagOf(reg.skills[j].tags, k) == if k in reg.skills[j].tags then reg.skills[j].tags[k] else "";
    }
  }

  /** What one query asks: a skill, tag filters and the time it runs at. */
  datatype Query = Query(skill: string, tags: Tags, now: Time) {
    predicate Matches(reg: Registration) {
      !Expired(reg, now) && Offers(reg, skill, tags)
    }
  }
}
