/** Named circuit breakers, created lazily. */
module BreakerRegistries {
  import opened Records
  import opened Breaker

  datatype BreakerStatus = BreakerStatus(name: string, state: State)

  class BreakerRegistry {
    const defaults: Settings
    var breakers: map<string, CircuitBreaker>

    /** Every breaker is stored under its own name, so no two names share one. */
    ghost predicate Valid()
      reads this
    {
      forall n | n in breakers :: breakers[n].name == n
    }

    constructor (defaults: Settings)
      ensures Valid() && breakers == map[] && this.defaults == defaults
    {
      this.defaults := defaults;
      breakers := map[];
    }

    method Get(name: string) returns (cb: CircuitBreaker)
      requires Valid()
      modifies this
      ensures Valid() && breakers == old(breakers)[name := cb]
      ensures name in old(breakers) ==> cb == old(breakers)[name]
      ensures name !in old(breakers) ==>
                && fresh(cb) && cb.cooldown == defaults.cooldown
                && cb.failureThreshold == defaults.failureThreshold && cb.successThreshold == defaults.successThreshold
                && cb.state == Closed && cb.failureCount == 0 && cb.successCount == 0
    {
      if name in breakers {
        return breakers[name];
      }
      cb := new CircuitBreaker(name, defaults.failureThreshold, defaults.successThreshold, defaults.cooldown);
      breakers := breakers[name := cb];
    }

    /** Reports every breaker, moving those that have cooled down to half-open on the way.
        `clock` gives the reading that each breaker's own query makes. */
    method List(clock: string -> Time) returns (result: map<string, BreakerStatus>)
      requires Valid()
      modifies breakers.Values
      ensures breakers == old(breakers) && result.Keys == breakers.Keys
      ensures forall n | n in breakers ::
                && Reported(breakers[n], old(breakers[n].Now()), clock(n), n, result[n])
                && result[n] == BreakerStatus(n, breakers[n].state)
    {
      result := map[];
      ghost var before := map n | n in breakers :: breakers[n].Now();
      var todo := breakers.Keys;
      while todo != {}
        invariant todo <= breakers.Keys
        invariant forall n :: n in result <==> n in breakers && n !in todo
        invariant forall n | n in todo :: breakers[n].Now() == before[n]
        invariant forall n | n in result :: Reported(breakers[n], before[n], clock(n), n, result[n])
        decreases todo
      {
        var n :| n in todo;
        todo := todo - {n};
        var status := Report(n, clock(n));
        result := result[n := status];
      }
    }

    method Report(name: string, now: Time) returns (status: BreakerStatus)
      requires Valid() && name in breakers
      modifies breakers[name]
      ensures Reported(breakers[name], old(breakers[name].Now()), now, name, status)
      ensures forall m | m in breakers && m != name :: unchanged(breakers[m])
    {
      forall m | m in breakers && m != name ensures breakers[m] != breakers[name] {
        assert breakers[m].name != breakers[name].name;
      }
      var s := breakers[name].GetState(now);
      return BreakerStatus(name, s);
    }
  }

  /** The breaker took the step of a query at `now`, and the status says where that left it. */
  ghost predicate Reported(cb: CircuitBreaker, before: Core, now: Time, name: string, status: BreakerStatus)
    reads cb
  {
    cb.Now() == Step(cb.Cfg(), before, Event.Query(now)) && status == BreakerStatus(name, cb.state)
  }
}

/** Any number of concurrent `Get` calls: a read-locked check, then a write-locked check and creation. */
module BreakerCreation {

  datatype Call = Called(name: string) | Missed(name: string) | Returned(name: string, breaker: nat)

  /** Breakers are numbered in the order of creation; `created` names them. */
  datatype Shared = Shared(breakers: map<string, nat>, created: seq<string>, calls: map<nat, Call>)

  datatype Step = Begin(id: nat, name: string) | ReadCheck(id: nat) | WriteCheck(id: nat)

  const START := Shared(map[], [], map[])

  function Next(s: Shared, step: Step): Shared {
    match step
    case Begin(id, name) => if id in s.calls then s else s.(calls := s.calls[id := Called(name)])
    case ReadCheck(id) =>
      if id in s.calls && s.calls[id].Called? then
        var name := s.calls[id].name;
        s.(calls := s.calls[id := if name in s.breakers then Returned(name, s.breakers[name]) else Missed(name)])
      else s
    case WriteCheck(id) =>
      if id in s.calls && s.calls[id].Missed? then
        var name := s.calls[id].name;
        if name in s.breakers then s.(calls := s.calls[id := Returned(name, s.breakers[name])])
        else Shared(s.breakers[name := |s.created|], s.created + [name], s.calls[id := Returned(name, |s.created|)])
      else s
  }

  function After(steps: seq<Step>): Shared {
    if steps == [] then START else Next(After(steps[..|steps| - 1]), steps[|steps| - 1])
  }

  ghost predicate Inv(s: Shared) {
    && (forall id | id in s.calls && s.calls[id].Returned? ::
          s.calls[id].name in s.breakers && s.breakers[s.calls[id].name] == s.calls[id].breaker)
    && (forall n | n in s.breakers :: s.breakers[n] < |s.created| && s.created[s.breakers[n]] == n)
    && (forall i | 0 <= i < |s.created| :: s.created[i] in s.breakers && s.breakers[s.created[i]] == i)
  }

  lemma {:induction false} InvHolds(steps: seq<Step>)
    ensures Inv(After(steps))
  {
    if steps != [] { InvHolds(steps[..|steps| - 1]); }
  }

  /** Nothing that happens later replaces a breaker or changes what a call has returned. */
  lemma {:induction false} NeverReplaced(steps: seq<Step>, more: seq<Step>)
    ensures forall n | n in After(steps).breakers ::
              n in After(steps + more).breakers && After(steps + more).breakers[n] == After(steps).breakers[n]
    ensures forall id | id in After(steps).calls && After(steps).calls[id].Returned? ::
              id in After(steps + more).calls && After(steps + more).calls[id] == After(steps).calls[id]
  {
    if more == [] {
      assert steps + more == steps;
    } else {
      NeverReplaced(steps, more[..|more| - 1]);
      assert (steps + more)[..|steps + more| - 1] == steps + more[..|more| - 1];
    }
  }

  /** In every interleaving, two calls return the same breaker exactly when they asked for the same name,
      however far apart they return, and each name is created once. */
  lemma SingleBreakerPerName(steps: seq<Step>, more: seq<Step>, a: nat, b: nat)
    requires a in After(steps).calls && After(steps).calls[a].Returned?
    requires b in After(steps + more).calls && After(steps + more).calls[b].Returned?
    ensures var x, y := After(steps).calls[a], After(steps + more).calls[b];
            x.breaker == y.breaker <==> x.name == y.name
    ensures forall i, j | 0 <= i < j < |After(steps + more).created| ::
              After(steps + more).created[i] != After(steps + more).created[j]
  {
    InvHolds(steps + more);
    NeverReplaced(steps, more);
  }
}
