/** Incremental pull: one client relay reading another's local registrations through a cursor.
    The server takes its snapshot and its timestamp in separate steps, and its registry may
    change in between. */
module Pull {
  import opened Common
  import opened Records
  import opened RegistryModel
  import Gate

  /** One answered request. `gens` names, for each record of the snapshot, the registration call that
      made it; `before` is the number of registration calls accepted before the snapshot. */
  datatype Answer = Answer(
    since: Time, at: Time, taken: Store, gens: map<string, nat>, before: nat,
    chosen: set<string>, stamp: Time)

  datatype Phase = Idle | Snapped(part: Answer) | Stamped(whole: Answer)

  datatype State = State(
    clock: Reading, entries: Store, gens: map<string, nat>, next: nat,
    cursor: Time, phase: Phase, answers: seq<Answer>)

  datatype Step =
    | Tick(to: Reading)
    | Local(op: LocalOp)
    | Snapshot(chosen: set<string>)
    | Stamp
    | Arrive
    | Lose

  const DEFAULT_SYNC_LIMIT := 500
  const MAX_SYNC_LIMIT := 5000

  function SyncLimit(limit: int): nat {
    if limit <= 0 then DEFAULT_SYNC_LIMIT else Min(limit, MAX_SYNC_LIMIT)
  }

  /** What a limit may leave of the records found, given that iteration order is arbitrary. */
  predicate IsCut(chosen: set<string>, found: set<string>, limit: nat) {
    chosen <= found && |chosen| == Min(limit, |found|)
  }

  function Start(clock: Reading): State {
    State(clock, map[], map[], 0, ZERO_TIME, Idle, [])
  }

  function Next(cfg: Config, limit: nat, s: State, step: Step): State {
    match step
    case Tick(to) => if s.clock <= to then s.(clock := to) else s
    case Local(op) =>
      var entries := Apply(cfg, View(s.entries, map[]), op, s.clock).entries;
      if op.Register? && HasRoom(cfg, s.entries, op.peer)
      then s.(entries := entries, gens := s.gens[op.peer := s.next], next := s.next + 1)
      else s.(entries := entries)
    case Snapshot(chosen) =>
      if s.phase.Idle? && IsCut(chosen, UpdatedSince(s.entries, s.cursor, s.clock), limit)
      then s.(phase := Snapped(Answer(s.cursor, s.clock, s.entries, s.gens, s.next, chosen, s.clock)))
      else s
    case Stamp => if s.phase.Snapped? then s.(phase := Stamped(s.phase.part.(stamp := s.clock))) else s
    case Arrive =>
      if s.phase.Stamped?
      then s.(phase := Idle, cursor := s.phase.whole.stamp, answers := s.answers + [s.phase.whole])
      else s
    case Lose => s.(phase := Idle)
  }

  function After(cfg: Config, limit: nat, clock: Reading, steps: seq<Step>): State {
    if steps == [] then Start(clock)
    else Next(cfg, limit, After(cfg, limit, clock, steps[..|steps| - 1]), steps[|steps| - 1])
  }

  // ---- What can happen to a registration at a pull ----

  predicate Delivered(a: Answer, p: string, gen: nat) {
    p in a.chosen && p in a.gens && a.gens[p] == gen
  }

  /** This answer moved the cursor past instant `t`. */
  predicate Crosses(a: Answer, t: Time) {
    a.since <= t < a.stamp
  }

  /** The registration had expired when the snapshot was taken. */
  predicate WasExpired(a: Answer, p: string, gen: nat) {
    p in a.taken && p in a.gens && a.gens[p] == gen && Expired(a.taken[p], a.at)
  }

  /** The limit cut the registration off. */
  predicate WasCut(a: Answer, p: string, gen: nat, limit: nat) {
    && p in a.taken && p in a.gens && a.gens[p] == gen
    && p in UpdatedSince(a.taken, a.since, a.at) && p !in a.chosen && |a.chosen| == limit
  }

  /** The registration was made after the snapshot and no later than the timestamp. */
  predicate WasRaced(a: Answer, gen: nat, t: Time) {
    gen >= a.before && a.at <= t <= a.stamp
  }

  predicate WasLost(a: Answer, p: string, gen: nat, t: Time, limit: nat) {
    WasExpired(a, p, gen) || WasCut(a, p, gen, limit) || WasRaced(a, gen, t)
  }

  // ---- Invariants ----

  ghost predicate WellFormed(a: Answer, limit: nat) {
    && a.since <= a.stamp && a.at <= a.stamp
    && a.taken.Keys <= a.gens.Keys
    && (forall p | p in a.gens :: a.gens[p] < a.before)
    && (forall p | p in a.taken :: a.taken[p].registeredAt <= a.at)
    && IsCut(a.chosen, UpdatedSince(a.taken, a.since, a.at), limit)
  }

  /** Each answer starts where the previous one stopped. */
  ghost predicate Chained(answers: seq<Answer>, cursor: Time) {
    && cursor == (if answers == [] then ZERO_TIME else answers[|answers| - 1].stamp)
    && (answers != [] ==> answers[0].since == ZERO_TIME)
    && (forall k | 0 < k < |answers| :: answers[k].since == answers[k - 1].stamp)
    && (forall k | 0 <= k < |answers| :: answers[k].since <= answers[k].stamp)
  }

  /** How a record now stored for `p` relates to a snapshot: it was there, or it was made later. */
  ghost predicate Remembers(a: Answer, p: string, gen: nat, t: Time) {
    if gen < a.before then p in a.taken && p in a.gens && a.gens[p] == gen && a.taken[p].registeredAt == t
    else a.at <= t
  }

  ghost predicate AnswerOk(s: State, a: Answer, limit: nat) {
    && WellFormed(a, limit) && a.stamp <= s.clock && a.before <= s.next
    && forall p | p in s.entries && p in s.gens :: Remembers(a, p, s.gens[p], s.entries[p].registeredAt)
  }

  ghost predicate InFlight(s: State, a: Answer) {
    (s.phase.Snapped? && a == s.phase.part) || (s.phase.Stamped? && a == s.phase.whole)
  }

  ghost predicate Inv(s: State, limit: nat) {
    && s.entries.Keys <= s.gens.Keys
    && s.cursor <= s.clock
    && (forall p | p in s.gens :: s.gens[p] < s.next)
    && (forall p | p in s.entries :: 0 <= s.entries[p].registeredAt <= s.clock)
    && Chained(s.answers, s.cursor)
    && (forall a | a in s.answers || InFlight(s, a) :: AnswerOk(s, a, limit))
    && (forall a | InFlight(s, a) :: a.since == s.cursor)
  }

  lemma {:induction false} InvHolds(cfg: Config, limit: nat, clock: Reading, steps: seq<Step>)
    ensures Inv(After(cfg, limit, clock, steps), limit)
  {
    if steps != [] {
      InvHolds(cfg, limit, clock, steps[..|steps| - 1]);
      InvStep(cfg, limit, After(cfg, limit, clock, steps[..|steps| - 1]), steps[|steps| - 1]);
    }
  }

  /** Only a new registration sets the registration time. */
  lemma LocalOpKeepsDate(cfg: Config, s: State, op: LocalOp, p: string)
    requires p in Apply(cfg, View(s.entries, map[]), op, s.clock).entries
    ensures var e := Apply(cfg, View(s.entries, map[]), op, s.clock).entries[p];
            if op.Register? && op.peer == p && HasRoom(cfg, s.entries, p) then e.registeredAt == s.clock
            else p in s.entries && e.registeredAt == s.entries[p].registeredAt
  {
  }

  lemma AnswerOkLocal(cfg: Config, limit: nat, s: State, op: LocalOp, a: Answer)
    requires AnswerOk(s, a, limit) && s.entries.Keys <= s.gens.Keys
    ensures AnswerOk(Next(cfg, limit, s, Local(op)), a, limit)
  {
    var t := Next(cfg, limit, s, Local(op));
    forall p | p in t.entries && p in t.gens ensures Remembers(a, p, t.gens[p], t.entries[p].registeredAt) {
      LocalOpKeepsDate(cfg, s, op, p);
    }
  }

  lemma InvLocal(cfg: Config, limit: nat, s: State, op: LocalOp)
    requires Inv(s, limit)
    ensures Inv(Next(cfg, limit, s, Local(op)), limit)
  {
    var t := Next(cfg, limit, s, Local(op));
    forall p | p in t.entries ensures p in t.gens && 0 <= t.entries[p].registeredAt <= t.clock {
      LocalOpKeepsDate(cfg, s, op, p);
    }
    forall a | a in t.answers || InFlight(t, a) ensures AnswerOk(t, a, limit) && (InFlight(t, a) ==> InFlight(s, a)) {
      assert InFlight(t, a) ==> InFlight(s, a);
      AnswerOkLocal(cfg, limit, s, op, a);
    }
  }

  /** Steps that leave records and the order of registrations alone keep every answer in order. */
  lemma AnswersStayOk(s: State, t: State, limit: nat)
    requires Inv(s, limit) && t.entries == s.entries && t.gens == s.gens && t.next == s.next && s.clock <= t.clock
    ensures forall a | a in s.answers || InFlight(s, a) :: AnswerOk(t, a, limit)
  {
    forall a | a in s.answers || InFlight(s, a) ensures AnswerOk(t, a, limit) {
      assert AnswerOk(s, a, limit);
    }
  }

  lemma NewAnswerOk(s: State, chosen: set<string>, limit: nat)
    requires Inv(s, limit) && IsCut(chosen, UpdatedSince(s.entries, s.cursor, s.clock), limit)
    ensures AnswerOk(s, Answer(s.cursor, s.clock, s.entries, s.gens, s.next, chosen, s.clock), limit)
  {
  }

  lemma InvInFlight(s: State, phase: Phase, a: Answer, limit: nat)
    requires Inv(s, limit) && AnswerOk(s, a, limit) && a.since == s.cursor
    requires phase == Snapped(a) || phase == Stamped(a)
    ensures Inv(s.(phase := phase), limit)
  {
    AnswersStayOk(s, s.(phase := phase), limit);
  }

  lemma InvSnapshot(cfg: Config, limit: nat, s: State, chosen: set<string>)
    requires Inv(s, limit)
    ensures Inv(Next(cfg, limit, s, Snapshot(chosen)), limit)
  {
    if s.phase.Idle? && IsCut(chosen, UpdatedSince(s.entries, s.cursor, s.clock), limit) {
      NewAnswerOk(s, chosen, limit);
      var a := Answer(s.cursor, s.clock, s.entries, s.gens, s.next, chosen, s.clock);
      InvInFlight(s, Snapped(a), a, limit);
    }
  }

  lemma RestampedOk(s: State, a: Answer, limit: nat)
    requires AnswerOk(s, a, limit) && a.since <= s.clock
    ensures AnswerOk(s, a.(stamp := s.clock), limit)
  {
  }

  lemma InvStamp(cfg: Config, limit: nat, s: State)
    requires Inv(s, limit)
    ensures Inv(Next(cfg, limit, s, Stamp), limit)
  {
    if s.phase.Snapped? {
      var a := s.phase.part;
      assert InFlight(s, a) && AnswerOk(s, a, limit);
      RestampedOk(s, a, limit);
      InvInFlight(s, Stamped(a.(stamp := s.clock)), a.(stamp := s.clock), limit);
    }
  }

  lemma InvArrive(cfg: Config, limit: nat, s: State)
    requires Inv(s, limit)
    ensures Inv(Next(cfg, limit, s, Arrive), limit)
  {
    var t := Next(cfg, limit, s, Arrive);
    AnswersStayOk(s, t, limit);
    if s.phase.Stamped? {
      var a := s.phase.whole;
      assert InFlight(s, a) && AnswerOk(s, a, limit);
      ChainedAppend(s.answers, s.cursor, a);
      assert forall b | b in t.answers :: b in s.answers || b == a;
      assert forall b :: !InFlight(t, b);
    }
  }

  lemma ChainedAppend(answers: seq<Answer>, cursor: Time, a: Answer)
    requires Chained(answers, cursor) && a.since == cursor && a.since <= a.stamp
    ensures Chained(answers + [a], a.stamp)
  {
  }

  lemma InvStep(cfg: Config, limit: nat, s: State, step: Step)
    requires Inv(s, limit)
    ensures Inv(Next(cfg, limit, s, step), limit)
  {
    match step
    case Tick(to) =>
      AnswersStayOk(s, Next(cfg, limit, s, step), limit);
      assert forall a | InFlight(Next(cfg, limit, s, step), a) :: InFlight(s, a);
    case Local(op) => InvLocal(cfg, limit, s, op);
    case Snapshot(chosen) => InvSnapshot(cfg, limit, s, chosen);
    case Stamp => InvStamp(cfg, limit, s);
    case Arrive => InvArrive(cfg, limit, s);
    case Lose => AnswersStayOk(s, Next(cfg, limit, s, step), limit);
  }

  // ---- Main results ----

  lemma {:induction false} ChainOrder(answers: seq<Answer>, cursor: Time, i: nat, j: nat)
    requires Chained(answers, cursor) && i < j < |answers|
    ensures answers[i].stamp <= answers[j].since
    decreases j
  {
    if i < j - 1 { ChainOrder(answers, cursor, i, j - 1); }
  }

  /** The cursor passes each instant at exactly one answer. */
  lemma {:induction false} CursorCrosses(answers: seq<Answer>, cursor: Time, t: Time)
    requires Chained(answers, cursor) && ZERO_TIME <= t
    ensures t < cursor <==> exists k :: 0 <= k < |answers| && Crosses(answers[k], t)
    ensures forall i, j | 0 <= i < j < |answers| :: !(Crosses(answers[i], t) && Crosses(answers[j], t))
  {
    forall i, j | 0 <= i < j < |answers| ensures !(Crosses(answers[i], t) && Crosses(answers[j], t)) {
      ChainOrder(answers, cursor, i, j);
    }
    if answers != [] {
      var n := |answers| - 1;
      var front := answers[..n];
      CursorCrosses(front, answers[n].since, t);
      assert forall k | 0 <= k < n :: front[k] == answers[k];
      if t < cursor && t < answers[n].since {
        var k :| 0 <= k < n && Crosses(front[k], t);
        assert Crosses(answers[k], t);
      } else if t < cursor {
        assert Crosses(answers[n], t);
      }
    }
  }

  /** The answer that carries the cursor past a registration delivers it, unless it had expired, was cut
      off by the limit or was made between snapshot and timestamp; no later answer ever delivers it,
      and an earlier one only if it was stamped at the very instant of registration. */
  lemma LossAtCrossing(cfg: Config, limit: nat, clock: Reading, steps: seq<Step>, p: string, k: nat)
    requires var s := After(cfg, limit, clock, steps);
             p in s.entries && k < |s.answers| && Crosses(s.answers[k], s.entries[p].registeredAt)
    ensures var s := After(cfg, limit, clock, steps);
            && p in s.gens
            && var t, gen := s.entries[p].registeredAt, s.gens[p];
            && (Delivered(s.answers[k], p, gen) <==> !WasLost(s.answers[k], p, gen, t, limit))
            && (forall j | k < j < |s.answers| :: !Delivered(s.answers[j], p, gen))
            && (forall j | 0 <= j < k && Delivered(s.answers[j], p, gen) :: s.answers[j].stamp == t)
  {
    var s := After(cfg, limit, clock, steps);
    InvHolds(cfg, limit, clock, steps);
    var t, gen, a := s.entries[p].registeredAt, s.gens[p], s.answers[k];
    assert AnswerOk(s, a, limit);
    var found := UpdatedSince(a.taken, a.since, a.at);
    if gen < a.before && p in found && p !in a.chosen {
      SubsetOfSize(a.chosen, found);
    }
    forall j | 0 <= j < |s.answers| && j != k && Delivered(s.answers[j], p, gen)
      ensures j < k && s.answers[j].stamp == t
    {
      var b := s.answers[j];
      assert b in s.answers && AnswerOk(s, b, limit);
      assert p in UpdatedSince(b.taken, b.since, b.at);
      if k < j { ChainOrder(s.answers, s.cursor, k, j); } else { ChainOrder(s.answers, s.cursor, j, k); }
    }
  }

  /** In every run, a registration older than the cursor was never delivered exactly when the one answer that passed
      it lost it, and none stamped at the very instant of registration had brought it. */
  lemma LossCharacterisation(cfg: Config, limit: nat, clock: Reading, steps: seq<Step>, p: string)
    requires var s := After(cfg, limit, clock, steps); p in s.entries && s.entries[p].registeredAt < s.cursor
    ensures var s := After(cfg, limit, clock, steps);
            && p in s.gens
            && var t, gen := s.entries[p].registeredAt, s.gens[p];
            (forall j | 0 <= j < |s.answers| :: !Delivered(s.answers[j], p, gen))
            <==> exists k | 0 <= k < |s.answers| ::
                   && Crosses(s.answers[k], t) && WasLost(s.answers[k], p, gen, t, limit)
                   && forall j | 0 <= j < k && s.answers[j].stamp == t :: !Delivered(s.answers[j], p, gen)
  {
    var s := After(cfg, limit, clock, steps);
    InvHolds(cfg, limit, clock, steps);
    var t := s.entries[p].registeredAt;
    CursorCrosses(s.answers, s.cursor, t);
    var k :| 0 <= k < |s.answers| && Crosses(s.answers[k], t);
    LossAtCrossing(cfg, limit, clock, steps, p, k);
    assert forall j | 0 <= j < |s.answers| && Crosses(s.answers[j], t) :: j == k;
  }

  /** A registration that the answer which passed it did not lose has been delivered, however far apart the
      snapshots and timestamps lie. */
  lemma NothingMissed(cfg: Config, limit: nat, clock: Reading, steps: seq<Step>, p: string)
    requires var s := After(cfg, limit, clock, steps);
             && p in s.entries && s.entries[p].registeredAt < s.cursor
             && forall a | a in s.answers && Crosses(a, s.entries[p].registeredAt) ::
                  p in s.gens ==> !WasLost(a, p, s.gens[p], s.entries[p].registeredAt, limit)
    ensures var s := After(cfg, limit, clock, steps);
            p in s.gens && exists k | 0 <= k < |s.answers| :: Delivered(s.answers[k], p, s.gens[p])
  {
    LossCharacterisation(cfg, limit, clock, steps, p);
  }

  // ---- Each of the three ways happens ----

  /** A live registration behind the cursor that no answer has brought: by `LossAtCrossing`, none ever will. */
  ghost predicate Missed(s: State, p: string) {
    && p in s.entries && p in s.gens && !Expired(s.entries[p], s.clock)
    && s.entries[p].registeredAt < s.cursor && forall a | a in s.answers :: !Delivered(a, p, s.gens[p])
  }

  lemma OneMoreStep(cfg: Config, limit: nat, clock: Reading, steps: seq<Step>, step: Step)
    ensures After(cfg, limit, clock, steps + [step]) == Next(cfg, limit, After(cfg, limit, clock, steps), step)
  {
    assert (steps + [step])[..|steps|] == steps;
  }

  /** The race loses a registration made between snapshot and timestamp. */
  lemma RaceLosesRegistration(cfg: Config, limit: nat, p: string, skills: seq<SkillInfo>)
    requires Gate.Admissible(p, skills) && cfg.maxRegistrations > 0 && cfg.ttl > 0
    ensures exists steps :: var s := After(cfg, limit, 0, steps);
              Missed(s, p) && exists a | a in s.answers :: WasRaced(a, s.gens[p], s.entries[p].registeredAt)
  {
    var steps := [];
    OneMoreStep(cfg, limit, 0, steps, Snapshot({}));
    steps := steps + [Snapshot({})];
    OneMoreStep(cfg, limit, 0, steps, Local(LocalOp.Register(p, skills, "", "")));
    steps := steps + [Local(LocalOp.Register(p, skills, "", ""))];
    steps := PassTheCursor(cfg, limit, steps, 1);
    var s := After(cfg, limit, 0, steps);
    assert WasRaced(s.answers[0], s.gens[p], s.entries[p].registeredAt);
    assert Missed(s, p);
  }

  /** From a snapshot to the arrival of its answer, stamped at `stamp`. */
  lemma PassTheCursor(cfg: Config, limit: nat, steps: seq<Step>, stamp: Reading) returns (longer: seq<Step>)
    requires var s := After(cfg, limit, 0, steps); s.phase.Snapped? && s.clock <= stamp
    ensures var s, t := After(cfg, limit, 0, steps), After(cfg, limit, 0, longer);
            && t.entries == s.entries && t.gens == s.gens && t.clock == t.cursor == stamp
            && t.answers == s.answers + [s.phase.part.(stamp := stamp)]
  {
    longer := steps;
    OneMoreStep(cfg, limit, 0, longer, Tick(stamp));
    longer := longer + [Tick(stamp)];
    OneMoreStep(cfg, limit, 0, longer, Stamp);
    longer := longer + [Stamp];
    OneMoreStep(cfg, limit, 0, longer, Arrive);
    longer := longer + [Arrive];
  }

  /** A registration that has expired when asked for is lost although a heartbeat then revives it. */
  lemma ExpiryLosesRegistration(cfg: Config, limit: nat, p: string, skills: seq<SkillInfo>)
    requires Gate.Admissible(p, skills) && cfg.maxRegistrations > 0 && 0 < cfg.ttl < 0x7FFF_FFFF_FFFF_FFFF
    ensures exists steps :: var s := After(cfg, limit, 0, steps);
              Missed(s, p) && exists a | a in s.answers :: WasExpired(a, p, s.gens[p])
  {
    var steps := [];
    OneMoreStep(cfg, limit, 0, steps, Local(LocalOp.Register(p, skills, "", "")));
    steps := steps + [Local(LocalOp.Register(p, skills, "", ""))];
    OneMoreStep(cfg, limit, 0, steps, Tick(cfg.ttl + 1));
    steps := steps + [Tick(cfg.ttl + 1)];
    var before := After(cfg, limit, 0, steps);
    assert UpdatedSince(before.entries, before.cursor, before.clock) == {};
    OneMoreStep(cfg, limit, 0, steps, Snapshot({}));
    steps := steps + [Snapshot({})];
    OneMoreStep(cfg, limit, 0, steps, Local(LocalOp.Heartbeat(p)));
    steps := steps + [Local(LocalOp.Heartbeat(p))];
    steps := PassTheCursor(cfg, limit, steps, cfg.ttl + 1);
    var s := After(cfg, limit, 0, steps);
    assert WasExpired(s.answers[0], p, s.gens[p]);
    assert Missed(s, p);
  }

  function Name(i: nat): string {
    seq(i + 1, _ => 'p')
  }

  function Names(n: nat): (r: set<string>)
    ensures forall i | 0 <= i < n :: Name(i) in r
    ensures forall p | p in r :: |p| <= n
    ensures |r| == n
  {
    if n == 0 then {} else Names(n - 1) + {Name(n - 1)}
  }

  /** `n` agents have registered at instant 0, and nothing else has happened. */
  ghost predicate Crowd(cfg: Config, s: State, n: nat) {
    && s.clock == 0 && s.cursor == ZERO_TIME && s.phase.Idle? && s.answers == []
    && s.entries.Keys == s.gens.Keys == Names(n)
    && forall p | p in s.entries :: s.entries[p].registeredAt == 0 && s.entries[p].expiresAt == cfg.ttl
  }

  lemma {:induction false} CrowdArrives(cfg: Config, limit: nat, skills: seq<SkillInfo>, n: nat)
    returns (steps: seq<Step>)
    requires n <= cfg.maxRegistrations
    ensures Crowd(cfg, After(cfg, limit, 0, steps), n)
  {
    if n == 0 {
      steps := [];
    } else {
      steps := CrowdArrives(cfg, limit, skills, n - 1);
      var join := Local(LocalOp.Register(Name(n - 1), skills, "", ""));
      assert |After(cfg, limit, 0, steps).entries| == |After(cfg, limit, 0, steps).entries.Keys|;
      OneMoreStep(cfg, limit, 0, steps, join);
      steps := steps + [join];
    }
  }

  lemma CrowdAsksForAll(cfg: Config, s: State, limit: nat)
    requires Crowd(cfg, s, limit + 1) && cfg.ttl > 0
    ensures IsCut(Names(limit), UpdatedSince(s.entries, s.cursor, s.clock), limit)
    ensures Name(limit) in UpdatedSince(s.entries, s.cursor, s.clock) && Name(limit) !in Names(limit)
    ensures Name(limit) in s.entries && Name(limit) in s.gens
  {
    assert UpdatedSince(s.entries, s.cursor, s.clock) == Names(limit + 1);
  }

  /** Whatever the limit, one agent more than it admits loses one of them: the rest are not asked for again. */
  lemma CutLosesRegistration(cfg: Config, limit: nat, skills: seq<SkillInfo>)
    requires Gate.Admissible(Name(limit), skills) && cfg.maxRegistrations > limit && cfg.ttl > 0
    ensures exists steps, p :: var s := After(cfg, limit, 0, steps);
              Missed(s, p) && exists a | a in s.answers :: WasCut(a, p, s.gens[p], limit)
  {
    var steps := CrowdArrives(cfg, limit, skills, limit + 1);
    var p := Name(limit);
    CrowdAsksForAll(cfg, After(cfg, limit, 0, steps), limit);
    OneMoreStep(cfg, limit, 0, steps, Snapshot(Names(limit)));
    steps := steps + [Snapshot(Names(limit))];
    steps := PassTheCursor(cfg, limit, steps, 1);
    var s := After(cfg, limit, 0, steps);
    assert WasCut(s.answers[0], p, s.gens[p], limit);
    assert Missed(s, p);
  }
}
