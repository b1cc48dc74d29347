/** The policy engine: rules tried in priority order, the first match deciding. */
module Policy {
  import opened Common

  datatype RateLimitSpec = RateLimitSpec(requestsPerSecond: int, burstSize: int)

  datatype Rule = Rule(
    id: string, priority: int, subject: string, action: string, resource: string,
    effect: string, rateLimit: Option<RateLimitSpec>, namespace: string)

  datatype Request = Request(subject: string, action: string, resource: string, namespace: string)

  const ALLOW := "allow"

  /** `filepath.Match`, a malformed pattern matching nothing. */
  type Glob = (string, string) -> bool

  predicate MatchGlob(glob: Glob, pattern: string, value: string) {
    pattern == "*" || glob(pattern, value)
  }

  predicate Matches(glob: Glob, rule: Rule, req: Request) {
    && MatchGlob(glob, rule.subject, req.subject)
    && MatchGlob(glob, rule.action, req.action)
    && MatchGlob(glob, rule.resource, req.resource)
    && (rule.namespace == "" || rule.namespace == req.namespace)
  }

  /** `r` is a matching rule that no other matching rule precedes in priority. */
  ghost predicate Decides(glob: Glob, rules: set<Rule>, req: Request, r: Rule) {
    && r in rules && Matches(glob, r, req)
    && forall o | o in rules && Matches(glob, o, req) :: r.priority <= o.priority
  }

  /** What a set of rules may decide: the effect of a matching rule of least priority number, or "allow". */
  ghost predicate IsDecision(glob: Glob, rules: set<Rule>, req: Request, decision: string) {
    || (decision == ALLOW && forall r | r in rules :: !Matches(glob, r, req))
    || exists r :: Decides(glob, rules, req, r) && r.effect == decision
  }

  function ByPriority(): (Rule, Rule) -> bool {
    (a: Rule, b: Rule) => a.priority < b.priority
  }

  function AsSet<T>(s: seq<T>): set<T> {
    set x | x in s
  }

  ghost predicate UniqueIDs(rules: seq<Rule>) {
    forall i, j | 0 <= i < j < |rules| :: rules[i].id != rules[j].id
  }

  class Engine {
    const glob: Glob
    var rules: seq<Rule>

    ghost predicate Valid()
      reads this
    {
      UniqueIDs(rules)
    }

    /** The rules by their IDs: all that decisions depend on. */
    ghost function Table(): map<string, Rule>
      reads this
    {
      TableOf(rules)
    }

    constructor (glob: Glob)
      ensures Valid() && rules == [] && Table() == map[] && this.glob == glob
    {
      this.glob := glob;
      rules := [];
    }

    method Evaluate(req: Request) returns (decision: string)
      requires Valid()
      ensures IsDecision(glob, Table().Values, req, decision)
      ensures IsDecision(glob, (set r | r in rules), req, decision)
    {
      var sorted := SortSlice(rules, ByPriority());
      SameElementsSorted(rules, sorted);
      TableHoldsRules(rules);
      assert AsSet(rules) == set r | r in rules;
      for i := 0 to |sorted|
        invariant forall j | 0 <= j < i :: !Matches(glob, sorted[j], req)
      {
        var rule := sorted[i];
        if !MatchGlob(glob, rule.subject, req.subject) { continue; }
        if !MatchGlob(glob, rule.action, req.action) { continue; }
        if !MatchGlob(glob, rule.resource, req.resource) { continue; }
        if rule.namespace != "" && rule.namespace != req.namespace { continue; }
        FirstMatchDecides(glob, sorted, req, i);
        return rule.effect;
      }
      return ALLOW;
    }

    /** False when a rule with the ID exists. */
    method AddRule(rule: Rule) returns (ok: bool)
      requires Valid()
      modifies this
      ensures Valid()
      ensures ok <==> forall r | r in old(rules) :: r.id != rule.id
      ensures rules == if ok then old(rules) + [rule] else old(rules)
      ensures ok <==> rule.id !in old(Table())
      ensures Table() == if ok then old(Table())[rule.id := rule] else old(Table())
    {
      for i := 0 to |rules|
        invariant forall j | 0 <= j < i :: rules[j].id != rule.id
      {
        if rules[i].id == rule.id {
          return false;
        }
      }
      TableAppend(rules, rule);
      rules := rules + [rule];
      return true;
    }

    /** False when no rule has the ID. */
    method RemoveRule(id: string) returns (ok: bool)
      requires Valid()
      modifies this
      ensures Valid()
      ensures if ok then exists i | 0 <= i < |old(rules)| ::
                           old(rules)[i].id == id && rules == old(rules)[..i] + old(rules)[i + 1..]
              else rules == old(rules) && forall r | r in rules :: r.id != id
      ensures ok <==> id in old(Table())
      ensures Table() == old(Table()) - {id}
    {
      for i := 0 to |rules|
        invariant forall j | 0 <= j < i :: rules[j].id != id
      {
        if rules[i].id == id {
          TableRemove(rules, i);
          rules := rules[..i] + rules[i + 1..];
          return true;
        }
      }
      return false;
    }

    /** False when no rule has the ID. */
    method UpdateRule(rule: Rule) returns (ok: bool)
      requires Valid()
      modifies this
      ensures Valid()
      ensures if ok then exists i | 0 <= i < |old(rules)| ::
                           old(rules)[i].id == rule.id && rules == old(rules)[i := rule]
              else rules == old(rules) && forall r | r in rules :: r.id != rule.id
      ensures ok <==> rule.id in old(Table())
      ensures Table() == if ok then old(Table())[rule.id := rule] else old(Table())
    {
      for i := 0 to |rules|
        invariant forall j | 0 <= j < i :: rules[j].id != rule.id
      {
        if rules[i].id == rule.id {
          TableUpdate(rules, i, rule);
          rules := rules[i := rule];
          return true;
        }
      }
      return false;
    }
  }

  ghost function IndexOf(rules: seq<Rule>, id: string): nat
    requires exists i :: 0 <= i < |rules| && rules[i].id == id
    ensures IndexOf(rules, id) < |rules| && rules[IndexOf(rules, id)].id == id
  {
    var i :| 0 <= i < |rules| && rules[i].id == id; i
  }

  ghost function TableOf(rules: seq<Rule>): map<string, Rule> {
    map id | id in (set i | 0 <= i < |rules| :: rules[i].id) :: rules[IndexOf(rules, id)]
  }

  lemma TableHoldsRules(rules: seq<Rule>)
    requires UniqueIDs(rules)
    ensures TableOf(rules).Values == AsSet(rules)
    ensures forall i | 0 <= i < |rules| :: rules[i].id in TableOf(rules) && TableOf(rules)[rules[i].id] == rules[i]
    ensures forall id | id in TableOf(rules) :: TableOf(rules)[id] in rules && TableOf(rules)[id].id == id
  {
    forall i | 0 <= i < |rules|
      ensures rules[i].id in TableOf(rules) && TableOf(rules)[rules[i].id] == rules[i]
    {
      assert rules[i].id in set j | 0 <= j < |rules| :: rules[j].id;
      var k := IndexOf(rules, rules[i].id);
      assert k == i;
    }
    forall r | r in rules ensures r in TableOf(rules).Values {
      var i :| 0 <= i < |rules| && rules[i] == r;
      assert TableOf(rules)[rules[i].id] == r;
    }
  }

  /** A table is the table of some rules when it holds each of them under its ID and nothing else. */
  lemma TableIs(rules: seq<Rule>, t: map<string, Rule>)
    requires UniqueIDs(rules)
    requires forall i | 0 <= i < |rules| :: rules[i].id in t && t[rules[i].id] == rules[i]
    requires forall id | id in t :: exists i :: 0 <= i < |rules| && rules[i].id == id
    ensures TableOf(rules) == t
  {
    TableHoldsRules(rules);
  }

  lemma TableAppend(rules: seq<Rule>, rule: Rule)
    requires UniqueIDs(rules) && forall i | 0 <= i < |rules| :: rules[i].id != rule.id
    ensures UniqueIDs(rules + [rule]) && rule.id !in TableOf(rules)
    ensures TableOf(rules + [rule]) == TableOf(rules)[rule.id := rule]
  {
    var more, t := rules + [rule], TableOf(rules)[rule.id := rule];
    TableHoldsRules(rules);
    forall id | id in t ensures exists i :: 0 <= i < |more| && more[i].id == id {
      if id == rule.id {
        assert more[|rules|].id == id;
      } else {
        var j :| 0 <= j < |rules| && rules[j] == t[id];
        assert more[j].id == id;
      }
    }
    TableIs(more, t);
  }

  lemma WithoutOne(rules: seq<Rule>, k: nat)
    requires UniqueIDs(rules) && k < |rules|
    ensures UniqueIDs(rules[..k] + rules[k + 1..])
    ensures forall r :: r in rules[..k] + rules[k + 1..] <==> r in rules && r.id != rules[k].id
  {
    var left := rules[..k] + rules[k + 1..];
    assert forall i | 0 <= i < |left| :: left[i] == rules[if i < k then i else i + 1];
    forall r ensures r in left <==> r in rules && r.id != rules[k].id {
      if r in rules && r.id != rules[k].id {
        var j :| 0 <= j < |rules| && rules[j] == r;
        assert left[if j < k then j else j - 1] == r;
      }
    }
  }

  lemma TableRemove(rules: seq<Rule>, k: nat)
    requires UniqueIDs(rules) && k < |rules|
    ensures UniqueIDs(rules[..k] + rules[k + 1..])
    ensures rules[k].id in TableOf(rules)
    ensures TableOf(rules[..k] + rules[k + 1..]) == TableOf(rules) - {rules[k].id}
  {
    var left, t := rules[..k] + rules[k + 1..], TableOf(rules) - {rules[k].id};
    TableHoldsRules(rules);
    WithoutOne(rules, k);
    forall i | 0 <= i < |left| ensures left[i].id in t && t[left[i].id] == left[i] {
      assert left[i] in rules;
    }
    forall id | id in t ensures exists i :: 0 <= i < |left| && left[i].id == id {
      assert t[id] in left;
    }
    TableIs(left, t);
  }

  lemma TableUpdate(rules: seq<Rule>, k: nat, rule: Rule)
    requires UniqueIDs(rules) && k < |rules| && rules[k].id == rule.id
    ensures UniqueIDs(rules[k := rule])
    ensures rule.id in TableOf(rules)
    ensures TableOf(rules[k := rule]) == TableOf(rules)[rule.id := rule]
  {
    var updated, t := rules[k := rule], TableOf(rules)[rule.id := rule];
    TableHoldsRules(rules);
    forall id | id in t ensures exists i :: 0 <= i < |updated| && updated[i].id == id {
      if id == rule.id {
        assert updated[k].id == id;
      } else {
        var j :| 0 <= j < |rules| && rules[j] == t[id];
        assert updated[j].id == id;
      }
    }
    TableIs(updated, t);
  }

  /** What a decision is, in terms of the rules: the effect of a rule of least priority number among those whose
      subject, action and resource patterns match, "*" matching anything, and whose namespace is empty or the
      request's; and "allow" only when there is none, or when that effect says so. */
  lemma DecisionIsRight(glob: Glob, rules: set<Rule>, req: Request, decision: string)
    requires IsDecision(glob, rules, req, decision)
    ensures (exists r ::
               && r in rules && r.effect == decision
               && (r.subject == "*" || glob(r.subject, req.subject)) && (r.action == "*" || glob(r.action, req.action))
               && (r.resource == "*" || glob(r.resource, req.resource))
               && (r.namespace == "" || r.namespace == req.namespace)
               && forall o | o in rules
                             && (o.subject == "*" || glob(o.subject, req.subject))
                             && (o.action == "*" || glob(o.action, req.action))
                             && (o.resource == "*" || glob(o.resource, req.resource))
                             && (o.namespace == "" || o.namespace == req.namespace) :: r.priority <= o.priority)
            || (decision == "allow"
                && forall o | o in rules
                              && (o.subject == "*" || glob(o.subject, req.subject))
                              && (o.action == "*" || glob(o.action, req.action))
                              && (o.resource == "*" || glob(o.resource, req.resource)) ::
                     o.namespace != "" && o.namespace != req.namespace)
  {
    forall o ensures Matches(glob, o, req) <==>
        && (o.subject == "*" || glob(o.subject, req.subject)) && (o.action == "*" || glob(o.action, req.action))
        && (o.resource == "*" || glob(o.resource, req.resource))
        && (o.namespace == "" || o.namespace == req.namespace)
    {}
    if r :| Decides(glob, rules, req, r) && r.effect == decision {
      assert r in rules;
    }
  }

  // ---- The order among equal priorities ----

  lemma SameElementsSorted(rules: seq<Rule>, sorted: seq<Rule>)
    requires multiset(rules) == multiset(sorted)
    ensures AsSet(rules) == AsSet(sorted)
  {
    forall r ensures r in rules <==> r in sorted {
      assert r in multiset(rules) <==> r in multiset(sorted);
    }
  }

  lemma FirstMatchDecides(glob: Glob, sorted: seq<Rule>, req: Request, i: nat)
    requires SortedBy(ByPriority(), sorted) && i < |sorted| && Matches(glob, sorted[i], req)
    requires forall j | 0 <= j < i :: !Matches(glob, sorted[j], req)
    ensures Decides(glob, AsSet(sorted), req, sorted[i])
  {
    forall o | o in AsSet(sorted) && Matches(glob, o, req) ensures sorted[i].priority <= o.priority {
      var j :| 0 <= j < |sorted| && sorted[j] == o;
      assert i < j ==> !ByPriority()(sorted[j], sorted[i]);
    }
  }

  /** The effect of the first match of an arrangement of the rules. */
  function FirstMatch(glob: Glob, sorted: seq<Rule>, req: Request): string {
    if sorted == [] then ALLOW
    else if Matches(glob, sorted[0], req) then sorted[0].effect
    else FirstMatch(glob, sorted[1..], req)
  }

  lemma {:induction false} FirstMatchFrom(glob: Glob, sorted: seq<Rule>, req: Request, n: nat)
    requires n <= |sorted| && forall j | 0 <= j < n :: !Matches(glob, sorted[j], req)
    ensures FirstMatch(glob, sorted, req) == FirstMatch(glob, sorted[n..], req)
  {
    if n > 0 {
      assert sorted[1..][n - 1..] == sorted[n..];
      FirstMatchFrom(glob, sorted[1..], req, n - 1);
    }
  }

  lemma AnyArrangementDecides(glob: Glob, sorted: seq<Rule>, req: Request)
    requires SortedBy(ByPriority(), sorted)
    ensures IsDecision(glob, AsSet(sorted), req, FirstMatch(glob, sorted, req))
  {
    var i := 0;
    while i < |sorted| && !Matches(glob, sorted[i], req)
      invariant 0 <= i <= |sorted| && forall j | 0 <= j < i :: !Matches(glob, sorted[j], req)
    {
      i := i + 1;
    }
    FirstMatchFrom(glob, sorted, req, i);
    if i < |sorted| { FirstMatchDecides(glob, sorted, req, i); }
  }

  /** Priority order in which `r` comes before its equals. */
  function Favouring(r: Rule): (Rule, Rule) -> bool {
    (a: Rule, b: Rule) => a.priority < b.priority || (a.priority == b.priority && a == r != b)
  }

  /** Every deciding rule comes first in some priority order. */
  lemma DecidingRuleCanBeFirst(glob: Glob, rules: seq<Rule>, req: Request, r: Rule)
    requires Decides(glob, AsSet(rules), req, r)
    ensures exists sorted :: multiset(sorted) == multiset(rules) && SortedBy(ByPriority(), sorted)
                             && FirstMatch(glob, sorted, req) == r.effect
  {
    var sorted := SortedArrangement(rules, Favouring(r));
    SameElementsSorted(rules, sorted);
    assert SortedBy(ByPriority(), sorted) by {
      forall i, j | 0 <= i < j < |sorted| ensures !ByPriority()(sorted[j], sorted[i]) {
        assert !Favouring(r)(sorted[j], sorted[i]);
      }
    }
    var i := 0;
    while i < |sorted| && !Matches(glob, sorted[i], req)
      invariant 0 <= i <= |sorted| && forall j | 0 <= j < i :: !Matches(glob, sorted[j], req)
    {
      i := i + 1;
    }
    assert r in sorted;
    var k :| 0 <= k < |sorted| && sorted[k] == r;
    FirstMatchFrom(glob, sorted, req, i);
    FirstMatchDecides(glob, sorted, req, i);
    if i < k { assert !Favouring(r)(sorted[k], sorted[i]); }
  }

  /** The decisions of a rule set are exactly the first matches over all its priority orders. */
  lemma DecisionsAreFirstMatches(glob: Glob, rules: seq<Rule>, req: Request, decision: string)
    ensures IsDecision(glob, AsSet(rules), req, decision) <==>
            exists sorted :: multiset(sorted) == multiset(rules) && SortedBy(ByPriority(), sorted)
                             && FirstMatch(glob, sorted, req) == decision
  {
    if sorted :| multiset(sorted) == multiset(rules) && SortedBy(ByPriority(), sorted)
                 && FirstMatch(glob, sorted, req) == decision {
      SameElementsSorted(rules, sorted);
      AnyArrangementDecides(glob, sorted, req);
    }
    if IsDecision(glob, AsSet(rules), req, decision) {
      if r :| Decides(glob, AsSet(rules), req, r) && r.effect == decision {
        DecidingRuleCanBeFirst(glob, rules, req, r);
      } else {
        var sorted := SortedArrangement(rules, ByPriority());
        SameElementsSorted(rules, sorted);
        assert forall j | 0 <= j < |sorted| :: sorted[j] in AsSet(rules);
        FirstMatchFrom(glob, sorted, req, |sorted|);
      }
    }
  }

  /** The decision is a function of the rule set exactly when all deciding rules have one effect. */
  lemma DeterminedIffOneEffect(glob: Glob, rules: set<Rule>, req: Request)
    ensures (forall d, e | IsDecision(glob, rules, req, d) && IsDecision(glob, rules, req, e) :: d == e)
            <==> (forall r, o | Decides(glob, rules, req, r) && Decides(glob, rules, req, o) :: r.effect == o.effect)
  {
    if forall d, e | IsDecision(glob, rules, req, d) && IsDecision(glob, rules, req, e) :: d == e {
      forall r, o | Decides(glob, rules, req, r) && Decides(glob, rules, req, o) ensures r.effect == o.effect {
        assert IsDecision(glob, rules, req, r.effect) && IsDecision(glob, rules, req, o.effect);
      }
    }
  }
}
