/** The inverted indexes: skill ID -> peers that list it (internal/registry/registry.go). */
module SkillIndex {
  import opened Records

  type Index = map<string, set<string>>

  predicate Has(index: Index, skill: string, peer: string) {
    skill in index && peer in index[skill]
  }

  predicate NoEmptySets(index: Index) {
    forall s | s in index :: index[s] != {}
  }

  /** The index says exactly what the stored records say, and keeps no empty peer set. */
  ghost predicate Coherent(index: Index, m: map<string, Registration>) {
    && NoEmptySets(index)
    && forall s, p :: Has(index, s, p) <==> p in m && Lists(m[p].skills, s)
  }

  /** There is only one coherent index for a map of records. */
  lemma CoherentIndexIsUnique(a: Index, b: Index, m: map<string, Registration>)
    requires Coherent(a, m) && Coherent(b, m)
    ensures a == b
  {
    forall s, p ensures Has(a, s, p) <==> Has(b, s, p) {}
    forall s ensures s in a <==> s in b {
      if s in a { var p :| p in a[s]; assert Has(b, s, p); }
      if s in b { var p :| p in b[s]; assert Has(a, s, p); }
    }
    forall s | s in a ensures a[s] == b[s] {
      forall p ensures p in a[s] <==> p in b[s] {
        assert Has(a, s, p) <==> Has(b, s, p);
      }
    }
  }

  method AddToSkillIndex(index: Index, peer: string, skills: seq<SkillInfo>) returns (r: Index)
    requires NoEmptySets(index)
    ensures NoEmptySets(r)
    ensures forall s, p :: Has(r, s, p) <==> Has(index, s, p) || (p == peer && Lists(skills, s))
  {
    r := index;
    for i := 0 to |skills|
      invariant NoEmptySets(r)
      invariant forall s, p :: Has(r, s, p) <==> Has(index, s, p) || (p == peer && Lists(skills[..i], s))
    {
      ListsPrefix(skills, i);
      r := AddPeer(r, skills[i].skillID, peer);
    }
    assert skills[..|skills|] == skills;
  }

  method RemoveFromSkillIndex(index: Index, peer: string, skills: seq<SkillInfo>) returns (r: Index)
    requires NoEmptySets(index)
    ensures NoEmptySets(r)
    ensures forall s, p :: Has(r, s, p) <==> Has(index, s, p) && !(p == peer && Lists(skills, s))
  {
    r := index;
    for i := 0 to |skills|
      invariant NoEmptySets(r)
      invariant forall s, p :: Has(r, s, p) <==> Has(index, s, p) && !(p == peer && Lists(skills[..i], s))
    {
      ListsPrefix(skills, i);
      r := DropPeer(r, skills[i].skillID, peer);
    }
    assert skills[..|skills|] == skills;
  }

  /** Puts one peer into one skill's set, creating the set if the skill is new. */
  function AddPeer(index: Index, id: string, peer: string): (r: Index)
    requires NoEmptySets(index)
    ensures NoEmptySets(r)
    ensures forall s, p :: Has(r, s, p) <==> Has(index, s, p) || (p == peer && s == id)
  {
    index[id := (if id in index then index[id] else {}) + {peer}]
  }

  /** Takes one peer out of one skill's set, and the set out of the index once it is empty. */
  function DropPeer(index: Index, id: string, peer: string): (r: Index)
    requires NoEmptySets(index)
    ensures NoEmptySets(r)
    ensures forall s, p :: Has(r, s, p) <==> Has(index, s, p) && !(p == peer && s == id)
  {
    if id !in index then index
    else if index[id] - {peer} == {} then
      assert forall p | p in index[id] && p != peer :: p in index[id] - {peer};
      index - {id}
    else index[id := index[id] - {peer}]
  }

  lemma ListsPrefix(skills: seq<SkillInfo>, i: nat)
    requires i < |skills|
    ensures forall s :: Lists(skills[..i + 1], s) <==> Lists(skills[..i], s) || skills[i].skillID == s
  {
    forall s ensures Lists(skills[..i + 1], s) <==> Lists(skills[..i], s) || skills[i].skillID == s {
      var short, long := skills[..i], skills[..i + 1];
      assert long[i] == skills[i] && forall j | 0 <= j < i :: long[j] == short[j];
    }
  }

  /** Every stored peer can be found through the index exactly when every record lists a skill. */
  lemma FindableIffSkilled(index: Index, m: map<string, Registration>)
    requires Coherent(index, m)
    ensures (set s, p | s in index && p in index[s] :: p) == m.Keys
            <==> forall p | p in m :: m[p].skills != []
  {
    var found := set s, p | s in index && p in index[s] :: p;
    forall p ensures p in found <==> p in m && m[p].skills != [] {
      if p in found {
        var s :| s in index && p in index[s];
        assert Has(index, s, p);
      }
      if p in m && m[p].skills != [] {
        assert Lists(m[p].skills, m[p].skills[0].skillID);
        assert Has(index, m[p].skills[0].skillID, p);
      }
    }
  }
}
