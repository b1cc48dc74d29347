/** The circuit breaker: its state machine, and what every run of it satisfies. */
module Breaker {
  import opened Records

  datatype State = Closed | Open | HalfOpen

  datatype Settings = Settings(failureThreshold: int, successThreshold: int, cooldown: Time)

  datatype Core = Core(state: State, failures: int, successes: int, openUntil: Time)

  const INITIAL := Core(Closed, 0, 0, ZERO_TIME)

  /** One call on a breaker, with the clock reading it makes, if any. */
  datatype Event = Allow(at: Time) | Query(at: Time) | Success | Failure(at: Time) | Reset

  predicate CooledDown(c: Core, now: Time) {
    c.state.Open? && now > c.openUntil
  }

  function Step(cfg: Settings, c: Core, e: Event): Core {
    match e
    case Allow(now) => if CooledDown(c, now) then c.(state := HalfOpen, successes := 0) else c
    case Query(now) => if CooledDown(c, now) then c.(state := HalfOpen, successes := 0) else c
    case Success =>
      if c.state.Closed? then c.(failures := 0)
      else if c.state.HalfOpen? then
        if c.successes + 1 >= cfg.successThreshold then c.(state := Closed, failures := 0, successes := 0)
        else c.(successes := c.successes + 1)
      else c
    case Failure(now) =>
      if c.state.Closed? then
        if c.failures + 1 >= cfg.failureThreshold
        then c.(failures := c.failures + 1, state := Open, openUntil := now + cfg.cooldown)
        else c.(failures := c.failures + 1)
      else if c.state.HalfOpen? then c.(state := Open, openUntil := now + cfg.cooldown, successes := 0)
      else c
    case Reset => INITIAL
  }

  predicate Allows(c: Core, now: Time) {
    !c.state.Open? || now > c.openUntil
  }

  class CircuitBreaker {
    const name: string
    const failureThreshold: int
    const successThreshold: int
    const cooldown: Time
    var state: State
    var failureCount: int
    var successCount: int
    var openUntil: Time

    function Cfg(): Settings {
      Settings(failureThreshold, successThreshold, cooldown)
    }

    function Now(): Core
      reads this
    {
      Core(state, failureCount, successCount, openUntil)
    }

    constructor (name: string, failureThreshold: int, successThreshold: int, cooldown: Time)
      ensures this.name == name && this.cooldown == cooldown
      ensures this.failureThreshold == failureThreshold && this.successThreshold == successThreshold
      ensures state == Closed && failureCount == 0 && successCount == 0 && openUntil == ZERO_TIME
    {
      this.name, this.cooldown := name, cooldown;
      this.failureThreshold, this.successThreshold := failureThreshold, successThreshold;
      state, failureCount, successCount, openUntil := Closed, 0, 0, ZERO_TIME;
    }

    method Allow(now: Time) returns (ok: bool)
      modifies this
      ensures ok <==> old(state) != Open || now > old(openUntil)
      ensures state == if old(state) == Open && now > old(openUntil) then HalfOpen else old(state)
      ensures successCount == if old(state) == Open && now > old(openUntil) then 0 else old(successCount)
      ensures failureCount == old(failureCount) && openUntil == old(openUntil)
      ensures ok == old(Allows(Now(), now))
      ensures Now() == Step(Cfg(), old(Now()), Event.Allow(now))
    {
      match state
      case Closed => return true;
      case Open =>
        if now > openUntil {
          state := HalfOpen;
          successCount := 0;
          return true;
        }
        return false;
      case HalfOpen => return true;
    }

    method RecordSuccess()
      modifies this
      ensures openUntil == old(openUntil)
      ensures old(state) == Open ==>
                state == Open && failureCount == old(failureCount) && successCount == old(successCount)
      ensures old(state) == Closed ==> state == Closed && failureCount == 0 && successCount == old(successCount)
      ensures old(state) == HalfOpen && old(successCount) + 1 < successThreshold ==>
                state == HalfOpen && failureCount == old(failureCount) && successCount == old(successCount) + 1
      ensures old(state) == HalfOpen && old(successCount) + 1 >= successThreshold ==>
                state == Closed && failureCount == 0 && successCount == 0
      ensures Now() == Step(Cfg(), old(Now()), Success)
    {
      match state
      case Closed => failureCount := 0;
      case HalfOpen =>
        successCount := successCount + 1;
        if successCount >= successThreshold {
          state := Closed;
          failureCount := 0;
          successCount := 0;
        }
      case Open =>
    }

    method RecordFailure(now: Time)
      modifies this
      ensures old(state) == Open ==> state == Open && failureCount == old(failureCount)
                                     && successCount == old(successCount) && openUntil == old(openUntil)
      ensures old(state) == Closed ==> failureCount == old(failureCount) + 1 && successCount == old(successCount)
      ensures old(state) == Closed && old(failureCount) + 1 < failureThreshold ==>
                state == Closed && openUntil == old(openUntil)
      ensures old(state) == Closed && old(failureCount) + 1 >= failureThreshold ==>
                state == Open && openUntil == now + cooldown
      ensures old(state) == HalfOpen ==>
                state == Open && openUntil == now + cooldown && successCount == 0 && failureCount == old(failureCount)
      ensures Now() == Step(Cfg(), old(Now()), Failure(now))
    {
      match state
      case Closed =>
        failureCount := failureCount + 1;
        if failureCount >= failureThreshold {
          state := Open;
          openUntil := now + cooldown;
        }
      case HalfOpen =>
        state := Open;
        openUntil := now + cooldown;
        successCount := 0;
      case Open =>
    }

    method GetState(now: Time) returns (s: State)
      modifies this
      ensures s == state == if old(state) == Open && now > old(openUntil) then HalfOpen else old(state)
      ensures successCount == if old(state) == Open && now > old(openUntil) then 0 else old(successCount)
      ensures failureCount == old(failureCount) && openUntil == old(openUntil)
      ensures Now() == Step(Cfg(), old(Now()), Event.Query(now))
    {
      if state == Open && now > openUntil {
        state := HalfOpen;
        successCount := 0;
      }
      return state;
    }

    method Reset()
      modifies this
      ensures state == Closed && failureCount == 0 && successCount == 0 && openUntil == ZERO_TIME
      ensures Now() == INITIAL
    {
      state := Closed;
      failureCount, successCount := 0, 0;
      openUntil := ZERO_TIME;
    }
  }

  // ---- The state as a function of the calls made ----

  function After(cfg: Settings, evs: seq<Event>): Core {
    if evs == [] then INITIAL else Step(cfg, After(cfg, evs[..|evs| - 1]), evs[|evs| - 1])
  }

  /** How many calls had been made when the breaker last became closed: by creation, reset or recovery. */
  ghost function ClosedAt(cfg: Settings, evs: seq<Event>): (k: nat)
    ensures k <= |evs|
  {
    if evs == [] then 0
    else
      var front := evs[..|evs| - 1];
      if After(cfg, evs).state.Closed? && (!After(cfg, front).state.Closed? || evs[|evs| - 1].Reset?) then |evs|
      else ClosedAt(cfg, front)
  }

  /** How many calls had been made when the breaker last became half-open. */
  ghost function ProbedAt(cfg: Settings, evs: seq<Event>): (k: nat)
    ensures k <= |evs|
  {
    if evs == [] then 0
    else
      var front := evs[..|evs| - 1];
      if After(cfg, evs).state.HalfOpen? && !After(cfg, front).state.HalfOpen? then |evs| else ProbedAt(cfg, front)
  }

  /** Failures recorded since the last success, looking back. */
  function FailureRun(evs: seq<Event>): nat {
    if evs == [] then 0
    else
      match evs[|evs| - 1]
      case Failure(_) => FailureRun(evs[..|evs| - 1]) + 1
      case Success => 0
      case _ => FailureRun(evs[..|evs| - 1])
  }

  function Successes(evs: seq<Event>): nat {
    if evs == [] then 0 else Successes(evs[..|evs| - 1]) + if evs[|evs| - 1].Success? then 1 else 0
  }

  predicate Unbroken(evs: seq<Event>) {
    forall i | 0 <= i < |evs| :: !evs[i].Failure? && !evs[i].Reset?
  }

  lemma SuffixOfFront(evs: seq<Event>, k: nat)
    requires evs != [] && k < |evs|
    ensures evs[k..] != [] && evs[k..][|evs[k..]| - 1] == evs[|evs| - 1]
    ensures evs[k..][..|evs[k..]| - 1] == evs[..|evs| - 1][k..]
  {
  }

  /** While closed, the failure count is the run of failures since the breaker closed, below the threshold. */
  lemma {:induction false} ClosedCountsFailures(cfg: Settings, evs: seq<Event>)
    requires cfg.failureThreshold >= 1
    ensures var c := After(cfg, evs);
            c.state.Closed? ==> c.failures == FailureRun(evs[ClosedAt(cfg, evs)..]) < cfg.failureThreshold
  {
    if evs != [] {
      var front := evs[..|evs| - 1];
      ClosedCountsFailures(cfg, front);
      var k := ClosedAt(cfg, evs);
      if k < |evs| {
        SuffixOfFront(evs, k);
      } else {
        assert evs[k..] == [];
      }
    }
  }

  /** Outside closed, the failure count rests at the threshold; outside half-open, no success is remembered. */
  lemma {:induction false} CountsRest(cfg: Settings, evs: seq<Event>)
    requires cfg.failureThreshold >= 1
    ensures var c := After(cfg, evs);
            && (c.state.Closed? ==> 0 <= c.failures < cfg.failureThreshold)
            && (!c.state.Closed? ==> c.failures == cfg.failureThreshold)
            && (!c.state.HalfOpen? ==> c.successes == 0)
  {
    if evs != [] { CountsRest(cfg, evs[..|evs| - 1]); }
  }

  /** While half-open, the success count is the number of successes since probing began, with no failure
      between, and below the threshold. */
  lemma {:induction false} HalfOpenCountsSuccesses(cfg: Settings, evs: seq<Event>)
    requires cfg.successThreshold >= 1
    ensures var c, probe := After(cfg, evs), evs[ProbedAt(cfg, evs)..];
            c.state.HalfOpen? ==> c.successes == Successes(probe) < cfg.successThreshold && Unbroken(probe)
  {
    if evs != [] {
      var front := evs[..|evs| - 1];
      HalfOpenCountsSuccesses(cfg, front);
      var k := ProbedAt(cfg, evs);
      if k < |evs| {
        SuffixOfFront(evs, k);
        assert evs[k..] == front[k..] + [evs[|evs| - 1]];
      } else {
        assert evs[k..] == [];
      }
    }
  }

  /** A breaker closes without a reset only by exactly `successThreshold` successes in one unbroken probe. */
  lemma RecoveryTakesThresholdSuccesses(cfg: Settings, evs: seq<Event>)
    requires cfg.successThreshold >= 1 && evs != [] && !evs[|evs| - 1].Reset?
    requires !After(cfg, evs[..|evs| - 1]).state.Closed? && After(cfg, evs).state.Closed?
    ensures var probe := evs[ProbedAt(cfg, evs[..|evs| - 1])..];
            Unbroken(probe) && Successes(probe) == cfg.successThreshold && evs[|evs| - 1].Success?
  {
    var front := evs[..|evs| - 1];
    HalfOpenCountsSuccesses(cfg, front);
    var k := ProbedAt(cfg, front);
    SuffixOfFront(evs, k);
    assert evs[k..] == front[k..] + [evs[|evs| - 1]];
  }

  // ---- Timing ----

  predicate Timed(e: Event) {
    e.Allow? || e.Query? || e.Failure?
  }

  predicate InOrder(evs: seq<Event>) {
    forall i, j | 0 <= i < j < |evs| && Timed(evs[i]) && Timed(evs[j]) :: evs[i].at <= evs[j].at
  }

  predicate ResetFree(evs: seq<Event>) {
    forall i | 0 <= i < |evs| :: !evs[i].Reset?
  }

  /** Call number `i` is the failure that trips the breaker. */
  predicate Trips(cfg: Settings, evs: seq<Event>, i: nat) {
    && i < |evs| && evs[i].Failure?
    && !After(cfg, evs[..i]).state.Open? && After(cfg, evs[..i + 1]).state.Open?
  }

  lemma {:induction false} StaysOpen(cfg: Settings, evs: seq<Event>, i: nat, j: nat)
    requires ResetFree(evs) && Trips(cfg, evs, i) && i < j <= |evs|
    requires forall k | i < k < j && Timed(evs[k]) :: evs[k].at <= evs[i].at + cfg.cooldown
    ensures After(cfg, evs[..j]).state.Open? && After(cfg, evs[..j]).openUntil == evs[i].at + cfg.cooldown
    decreases j
  {
    assert evs[..j][..j - 1] == evs[..j - 1];
    if i + 1 < j { StaysOpen(cfg, evs, i, j - 1); }
  }

  /** From a trip until the cooldown has passed, the last instant included, nothing is allowed through. */
  lemma RejectsDuringCooldown(cfg: Settings, evs: seq<Event>, i: nat, j: nat)
    requires ResetFree(evs) && InOrder(evs) && Trips(cfg, evs, i) && i < j < |evs|
    requires evs[j].Allow? && evs[j].at <= evs[i].at + cfg.cooldown
    ensures !Allows(After(cfg, evs[..j]), evs[j].at)
  {
    StaysOpen(cfg, evs, i, j);
  }

  lemma TripsAreApart(cfg: Settings, evs: seq<Event>, i: nat, j: nat)
    requires ResetFree(evs) && InOrder(evs) && Trips(cfg, evs, i) && Trips(cfg, evs, j) && i < j
    ensures evs[j].at - evs[i].at > cfg.cooldown
  {
    if evs[j].at <= evs[i].at + cfg.cooldown {
      StaysOpen(cfg, evs, i, j);
    }
  }

  ghost predicate AreTrips(cfg: Settings, evs: seq<Event>, trips: seq<nat>) {
    && (forall n {:trigger trips[n]} | 0 <= n < |trips| :: Trips(cfg, evs, trips[n]))
    && (forall n | 0 < n < |trips| :: trips[n - 1] < trips[n])
  }

  /** Any trips of a breaker, two or more, span more than a cooldown for each but the first. */
  lemma {:induction false} TripsTakeCooldowns(cfg: Settings, evs: seq<Event>, trips: seq<nat>)
    requires ResetFree(evs) && InOrder(evs)
    requires |trips| > 1 && AreTrips(cfg, evs, trips)
    ensures evs[trips[|trips| - 1]].at - evs[trips[0]].at > (|trips| - 1) * cfg.cooldown
  {
    var n := |trips| - 1;
    TripsAreApart(cfg, evs, trips[n - 1], trips[n]);
    if n > 1 {
      assert trips[..n][n - 1] == trips[n - 1];
      TripsTakeCooldowns(cfg, evs, trips[..n]);
      TimesOneMore(n, cfg.cooldown);
    }
  }

  lemma TimesOneMore(n: int, x: int)
    ensures n * x == (n - 1) * x + x
  {
  }
}
