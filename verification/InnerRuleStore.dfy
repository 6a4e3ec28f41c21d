/** The rule table as the source keeps it: one object whose two maps and two vectors are
    updated in place (core/src/store.rs, InnerRuleStore). Every method is proved against the
    functions on `Store` values that the other modules reason about. */
module InnerStore {
  import opened Names
  import opened Rules
  import opened Stores

  class InnerRuleStore {
    var ephemeralExact: map<string, Rule>
    var persistentExact: map<string, Rule>
    var ephemeralWildcard: seq<Rule>
    var persistentWildcard: seq<Rule>

    /** The table this object holds. */
    function Table(): Store
      reads this
    {
      Store(Layer(ephemeralExact, ephemeralWildcard), Layer(persistentExact, persistentWildcard))
    }

    constructor ()
      ensures Table() == EMPTY_STORE && Len(Table()) == 0
    {
      ephemeralExact, persistentExact := map[], map[];
      ephemeralWildcard, persistentWildcard := [], [];
    }

    /** First match over the four tiers; by `ResolveIsFirstMatch` also over the flat rule list. */
    method ResolveName(name: string) returns (rule: Option<Rule>)
      ensures rule == Resolve(Table(), name)
      ensures rule.Some? && WellFormed(Table()) ==> rule.value.Matches(name)
    {
      FirstMatchIsFirst(ephemeralWildcard, name);
      FirstMatchIsFirst(persistentWildcard, name);
      if name in ephemeralExact {
        return Some(ephemeralExact[name]);
      }
      rule := FirstMatch(ephemeralWildcard, name);
      if rule.Some? {
        return;
      }
      if name in persistentExact {
        return Some(persistentExact[name]);
      }
      rule := FirstMatch(persistentWildcard, name);
    }

    method AddRule(rule: Rule)
      modifies this
      ensures Table() == Perform(old(Table()), Add(rule)).store
      ensures old(WellFormed(Table())) ==> WellFormed(Table())
    {
      ghost var before := Table();
      if rule.IsWildcard() {
        persistentWildcard := Retain(persistentWildcard, rule.domain);
        persistentWildcard := persistentWildcard + [rule];
      } else {
        persistentExact := persistentExact[rule.domain := rule];
      }
      if WellFormed(before) { PerformWellFormed(before, Add(rule)); }
    }

    method AddRules(rules: seq<Rule>)
      modifies this
      ensures Table() == Perform(old(Table()), AddAll(rules)).store
      ensures old(WellFormed(Table())) ==> WellFormed(Table())
    {
      assert rules[..0] == [];
      for i := 0 to |rules|
        invariant Table() == Perform(old(Table()), AddAll(rules[..i])).store
        invariant old(WellFormed(Table())) ==> WellFormed(Table())
      {
        AddRule(rules[i]);
        assert rules[..i + 1][..i] == rules[..i];
      }
      assert rules[..|rules|] == rules;
    }

    method AddEphemeralRule(rule: Rule)
      modifies this
      ensures Table() == Perform(old(Table()), AddEphemeral(rule)).store
      ensures old(WellFormed(Table())) ==> WellFormed(Table())
    {
      ghost var before := Table();
      if rule.IsWildcard() {
        ephemeralWildcard := Retain(ephemeralWildcard, rule.domain);
        ephemeralWildcard := ephemeralWildcard + [rule];
      } else {
        ephemeralExact := ephemeralExact[rule.domain := rule];
      }
      if WellFormed(before) { PerformWellFormed(before, AddEphemeral(rule)); }
    }

    method RemoveRule(domain: string) returns (removed: Option<Rule>)
      modifies this
      ensures Outcome(Table(), removed) == Perform(old(Table()), Remove(domain))
      ensures old(WellFormed(Table())) ==>
                WellFormed(Table()) && (removed.None? ==> Table() == old(Table()))
    {
      ghost var before := Table();
      removed := if domain in persistentExact then Some(persistentExact[domain]) else None;
      persistentExact := persistentExact - {domain};
      var pos := Position(persistentWildcard, domain);
      if pos.Some? {
        removed := Some(persistentWildcard[pos.value]);
        persistentWildcard := SwapRemove(persistentWildcard, pos.value);
      }
      if WellFormed(before) {
        PerformWellFormed(before, Remove(domain));
        DeleteReturns(before.per, domain);
      }
    }

    method RemoveEphemeralRule(domain: string) returns (removed: Option<Rule>)
      modifies this
      ensures Outcome(Table(), removed) == Perform(old(Table()), RemoveEphemeral(domain))
      ensures old(WellFormed(Table())) ==>
                WellFormed(Table()) && (removed.None? ==> Table() == old(Table()))
    {
      ghost var before := Table();
      removed := if domain in ephemeralExact then Some(ephemeralExact[domain]) else None;
      ephemeralExact := ephemeralExact - {domain};
      var pos := Position(ephemeralWildcard, domain);
      if pos.Some? {
        removed := Some(ephemeralWildcard[pos.value]);
        ephemeralWildcard := SwapRemove(ephemeralWildcard, pos.value);
      }
      if WellFormed(before) {
        PerformWellFormed(before, RemoveEphemeral(domain));
        DeleteReturns(before.eph, domain);
      }
    }
  }
}
