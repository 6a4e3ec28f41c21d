/** The rule table (core/src/store.rs, InnerRuleStore) as a value: two layers, each an exact
    map and a wildcard list, with the operations the daemon performs on it. */
module Stores {
  import opened Names
  import opened Rules

  datatype Layer = Layer(exact: map<string, Rule>, wild: seq<Rule>)

  datatype Store = Store(eph: Layer, per: Layer)

  const EMPTY_LAYER := Layer(map[], [])
  const EMPTY_STORE := Store(EMPTY_LAYER, EMPTY_LAYER)

  // ------------------------------------------------------------- operations

  function FirstMatch(rules: seq<Rule>, name: string): Option<Rule> {
    if rules == [] then None
    else if rules[0].Matches(name) then Some(rules[0])
    else FirstMatch(rules[1..], name)
  }

  function OrElse<T>(first: Option<T>, second: Option<T>): Option<T> {
    if first.Some? then first else second
  }

  function LookUp(l: Layer, name: string): Option<Rule> {
    if name in l.exact then Some(l.exact[name]) else FirstMatch(l.wild, name)
  }

  /** Ephemeral exact, ephemeral wildcard, persistent exact, persistent wildcard. */
  function Resolve(s: Store, name: string): Option<Rule> {
    OrElse(LookUp(s.eph, name), LookUp(s.per, name))
  }

  /** The list without the rules for `domain`, in order. */
  function Retain(rules: seq<Rule>, domain: string): seq<Rule> {
    if rules == [] then []
    else
      var rest := Retain(rules[1..], domain);
      if rules[0].domain == domain then rest else [rules[0]] + rest
  }

  function Position(rules: seq<Rule>, domain: string): (pos: Option<nat>)
    ensures pos.Some? ==> pos.value < |rules| && rules[pos.value].domain == domain
    ensures pos.Some? ==> forall i :: 0 <= i < pos.value ==> rules[i].domain != domain
    ensures pos.None? ==> forall i :: 0 <= i < |rules| ==> rules[i].domain != domain
  {
    if rules == [] then None
    else if rules[0].domain == domain then Some(0)
    else
      var rest := Position(rules[1..], domain);
      if rest.None? then None else Some(rest.value + 1)
  }

  /** Remove slot `pos`; the last element takes its place. */
  function SwapRemove(rules: seq<Rule>, pos: nat): seq<Rule>
    requires pos < |rules|
  {
    var last := |rules| - 1;
    rules[pos := rules[last]][..last]
  }

  function Insert(l: Layer, r: Rule): Layer {
    if r.IsWildcard() then l.(wild := Retain(l.wild, r.domain) + [r])
    else l.(exact := l.exact[r.domain := r])
  }

  function InsertAll(l: Layer, rules: seq<Rule>): Layer {
    if rules == [] then l
    else Insert(InsertAll(l, rules[..|rules| - 1]), rules[|rules| - 1])
  }

  datatype Deleted = Deleted(left: Layer, rule: Option<Rule>)

  function Delete(l: Layer, domain: string): Deleted {
    var exact := l.exact - {domain};
    var pos := Position(l.wild, domain);
    if pos.Some? then
      Deleted(Layer(exact, SwapRemove(l.wild, pos.value)), Some(l.wild[pos.value]))
    else
      Deleted(Layer(exact, l.wild), if domain in l.exact then Some(l.exact[domain]) else None)
  }

  datatype Op =
    | Add(rule: Rule)
    | AddAll(rules: seq<Rule>)
    | AddEphemeral(rule: Rule)
    | Remove(domain: string)
    | RemoveEphemeral(domain: string)

  datatype Outcome = Outcome(store: Store, removed: Option<Rule>)

  function Perform(s: Store, op: Op): Outcome {
    match op
    case Add(r) => Outcome(s.(per := Insert(s.per, r)), None)
    case AddAll(rules) => Outcome(s.(per := InsertAll(s.per, rules)), None)
    case AddEphemeral(r) => Outcome(s.(eph := Insert(s.eph, r)), None)
    case Remove(domain) =>
      var d := Delete(s.per, domain);
      Outcome(s.(per := d.left), d.rule)
    case RemoveEphemeral(domain) =>
      var d := Delete(s.eph, domain);
      Outcome(s.(eph := d.left), d.rule)
  }

  function Len(s: Store): nat {
    |s.eph.exact| + |s.eph.wild| + |s.per.exact| + |s.per.wild|
  }

  // ------------------------------------------------------- hash-map iteration

  predicate Distinct<T(==)>(xs: seq<T>) {
    forall i, j :: 0 <= i < j < |xs| ==> xs[i] != xs[j]
  }

  /** `order` visits every key of `m` once: one possible iteration order of a hash map. */
  ghost predicate Visits(order: seq<string>, m: map<string, Rule>) {
    Distinct(order) && forall k :: k in order <==> k in m
  }

  /** Every finite map can be walked in some order. */
  lemma {:induction false} SomeOrder(m: map<string, Rule>) returns (order: seq<string>)
    ensures Visits(order, m)
    decreases |m|
  {
    if m == map[] {
      order := [];
    } else {
      var k :| k in m;
      assert (m - {k}).Keys == m.Keys - {k};
      var rest := SomeOrder(m - {k});
      order := rest + [k];
      forall j ensures j in order <==> j in m {
        assert j in order <==> j in rest || j == k;
      }
    }
  }

  function Values(order: seq<string>, m: map<string, Rule>): (vs: seq<Rule>)
    requires forall k :: k in order ==> k in m
    ensures |vs| == |order| && forall i :: 0 <= i < |order| ==> vs[i] == m[order[i]]
  {
    seq(|order|, i requires 0 <= i < |order| => m[order[i]])
  }

  function PersistentRules(s: Store, order: seq<string>): seq<Rule>
    requires forall k :: k in order ==> k in s.per.exact
  {
    Values(order, s.per.exact) + s.per.wild
  }

  function AllRules(s: Store, ephOrder: seq<string>, perOrder: seq<string>): seq<Rule>
    requires forall k :: k in ephOrder ==> k in s.eph.exact
    requires forall k :: k in perOrder ==> k in s.per.exact
  {
    Values(ephOrder, s.eph.exact) + s.eph.wild + Values(perOrder, s.per.exact) + s.per.wild
  }

  function Domains(rules: seq<Rule>): set<string> {
    set i | 0 <= i < |rules| :: rules[i].domain
  }

  function LayerDomains(l: Layer): set<string> {
    (set k | k in l.exact :: l.exact[k].domain) + Domains(l.wild)
  }

  /** The domains that are handed to the operating system, as a set. */
  function StoreDomains(s: Store): set<string> {
    LayerDomains(s.eph) + LayerDomains(s.per)
  }

  /** The list `snapshot_all_domains` collects has the same domains whatever order the maps are walked in. */
  lemma {:induction false} SnapshotDomains(s: Store, ephOrder: seq<string>, perOrder: seq<string>)
    requires Visits(ephOrder, s.eph.exact) && Visits(perOrder, s.per.exact)
    ensures Domains(AllRules(s, ephOrder, perOrder)) == StoreDomains(s)
  {
    var a, b := Values(ephOrder, s.eph.exact), Values(perOrder, s.per.exact);
    DomainsOfValues(ephOrder, s.eph.exact);
    DomainsOfValues(perOrder, s.per.exact);
    DomainsOfConcat(a, s.eph.wild);
    DomainsOfConcat(a + s.eph.wild, b);
    DomainsOfConcat(a + s.eph.wild + b, s.per.wild);
  }

  lemma {:induction false} DomainsOfConcat(a: seq<Rule>, b: seq<Rule>)
    ensures Domains(a + b) == Domains(a) + Domains(b)
  {
    forall d | d in Domains(b) ensures d in Domains(a + b) {
      var i :| 0 <= i < |b| && b[i].domain == d;
      assert (a + b)[|a| + i] == b[i];
    }
    forall d | d in Domains(a) ensures d in Domains(a + b) {
      var i :| 0 <= i < |a| && a[i].domain == d;
      assert (a + b)[i] == a[i];
    }
  }

  lemma {:induction false} DomainsOfValues(order: seq<string>, m: map<string, Rule>)
    requires Visits(order, m)
    ensures Domains(Values(order, m)) == set k | k in m :: m[k].domain
  {}

  // --------------------------------------------------------- well-formedness

  predicate WellFormedLayer(l: Layer) {
    && (forall k :: k in l.exact ==> l.exact[k].domain == k && !IsWildcardName(k))
    && (forall i :: 0 <= i < |l.wild| ==> l.wild[i].IsWildcard())
    && DistinctDomains(l.wild)
  }

  predicate WellFormed(s: Store) {
    WellFormedLayer(s.eph) && WellFormedLayer(s.per)
  }

  predicate NoNestedLayer(l: Layer) {
    forall i, j {:trigger Nested(l.wild[i].domain, l.wild[j].domain)} ::
      0 <= i < j < |l.wild| ==> !Nested(l.wild[i].domain, l.wild[j].domain)
  }

  predicate NoNestedWildcards(s: Store) {
    NoNestedLayer(s.eph) && NoNestedLayer(s.per)
  }

  lemma {:induction false} RetainKeeps(rules: seq<Rule>, domain: string)
    ensures forall r :: r in Retain(rules, domain) <==> r in rules && r.domain != domain
  {
    if rules != [] {
      RetainKeeps(rules[1..], domain);
      assert rules == [rules[0]] + rules[1..];
    }
  }

  predicate DistinctDomains(rules: seq<Rule>) {
    forall i, j :: 0 <= i < j < |rules| ==> rules[i].domain != rules[j].domain
  }

  lemma {:induction false} RetainDistinct(rules: seq<Rule>, domain: string)
    requires DistinctDomains(rules)
    ensures DistinctDomains(Retain(rules, domain))
  {
    if rules != [] {
      RetainDistinct(rules[1..], domain);
      RetainKeeps(rules[1..], domain);
      var rest := Retain(rules[1..], domain);
      forall j | 0 <= j < |rest| ensures rest[j].domain != rules[0].domain {
        assert rest[j] in rest;
        var m :| 0 <= m < |rules[1..]| && rules[1..][m] == rest[j];
        assert rules[m + 1] == rest[j];
      }
    }
  }

  lemma {:induction false} InsertWellFormed(l: Layer, r: Rule)
    requires WellFormedLayer(l)
    ensures WellFormedLayer(Insert(l, r))
  {
    if r.IsWildcard() {
      RetainKeeps(l.wild, r.domain);
      RetainDistinct(l.wild, r.domain);
      var kept := Retain(l.wild, r.domain);
      forall i | 0 <= i < |kept| ensures kept[i] in l.wild && kept[i].domain != r.domain {
        assert kept[i] in kept;
      }
    }
  }

  lemma {:induction false} InsertAllWellFormed(l: Layer, rules: seq<Rule>)
    requires WellFormedLayer(l)
    ensures WellFormedLayer(InsertAll(l, rules))
  {
    if rules != [] {
      InsertAllWellFormed(l, rules[..|rules| - 1]);
      InsertWellFormed(InsertAll(l, rules[..|rules| - 1]), rules[|rules| - 1]);
    }
  }

  lemma {:induction false} DeleteWellFormed(l: Layer, domain: string)
    requires WellFormedLayer(l)
    ensures WellFormedLayer(Delete(l, domain).left)
  {}

  /** Deletion returns the rule of that very domain, exactly when the layer holds one. */
  lemma {:induction false} DeleteReturns(l: Layer, domain: string)
    requires WellFormedLayer(l)
    ensures Delete(l, domain).rule.Some? <==> domain in LayerDomains(l)
    ensures Delete(l, domain).rule.Some? ==> Delete(l, domain).rule.value.domain == domain
    ensures Delete(l, domain).rule.None? ==> Delete(l, domain).left == l
  {}

  lemma {:induction false} DeleteCounts(l: Layer, domain: string)
    requires WellFormedLayer(l)
    ensures |Delete(l, domain).left.exact| + |Delete(l, domain).left.wild| ==
            |l.exact| + |l.wild| - if Delete(l, domain).rule.Some? then 1 else 0
  {}

  /** The table shrinks by one rule exactly when a removal answers with a rule. */
  lemma {:induction false} RemovalCounts(s: Store, domain: string)
    requires WellFormed(s)
    ensures Len(Perform(s, Remove(domain)).store) ==
            Len(s) - if Perform(s, Remove(domain)).removed.Some? then 1 else 0
    ensures Len(Perform(s, RemoveEphemeral(domain)).store) ==
            Len(s) - if Perform(s, RemoveEphemeral(domain)).removed.Some? then 1 else 0
  {
    DeleteCounts(s.per, domain);
    DeleteCounts(s.eph, domain);
  }

  lemma {:induction false} DistinctDomainsCount(rules: seq<Rule>)
    requires DistinctDomains(rules)
    ensures |Domains(rules)| == |rules|
  {
    if rules != [] {
      var n := |rules| - 1;
      DistinctDomainsCount(rules[..n]);
      DomainsOfConcat(rules[..n], [rules[n]]);
      assert rules == rules[..n] + [rules[n]];
      assert [rules[n]][0] == rules[n];
      assert Domains([rules[n]]) == {rules[n].domain};
      assert rules[n].domain !in Domains(rules[..n]);
    }
  }

  /** A layer holds one rule per domain. */
  lemma {:induction false} LayerCountsDomains(l: Layer)
    requires WellFormedLayer(l)
    ensures |l.exact| + |l.wild| == |LayerDomains(l)|
  {
    DistinctDomainsCount(l.wild);
    var exact := set k | k in l.exact :: l.exact[k].domain;
    assert exact == l.exact.Keys by {
      forall k | k in l.exact ensures k in exact { assert l.exact[k].domain == k; }
    }
    assert exact !! Domains(l.wild);
  }

  /** The rule count of a status answer is the number of domains routed, layer by layer. */
  lemma {:induction false} LenCountsDomains(s: Store)
    requires WellFormed(s)
    ensures Len(s) == |LayerDomains(s.eph)| + |LayerDomains(s.per)|
  {
    LayerCountsDomains(s.eph);
    LayerCountsDomains(s.per);
  }

  lemma {:induction false} PerformWellFormed(s: Store, op: Op)
    requires WellFormed(s)
    ensures WellFormed(Perform(s, op).store)
  {
    match op
    case Add(r) => InsertWellFormed(s.per, r);
    case AddAll(rules) => InsertAllWellFormed(s.per, rules);
    case AddEphemeral(r) => InsertWellFormed(s.eph, r);
    case Remove(domain) => DeleteWellFormed(s.per, domain);
    case RemoveEphemeral(domain) => DeleteWellFormed(s.eph, domain);
  }

  // ------------------------------------------------- a layer as a set of rules

  /** The rule is one of the layer's, wherever it is kept. */
  predicate Holds(l: Layer, r: Rule) {
    r in l.wild || (r.domain in l.exact && l.exact[r.domain] == r)
  }

  /** An insertion replaces the rule of its domain, if there is one, and touches no other rule. */
  lemma {:induction false} InsertReplaces(l: Layer, r: Rule, q: Rule)
    requires WellFormedLayer(l)
    ensures Holds(Insert(l, r), q) <==> q == r || (Holds(l, q) && q.domain != r.domain)
  {
    RetainKeeps(l.wild, r.domain);
  }

  lemma {:induction false} SwapRemoveMembers(w: seq<Rule>, pos: nat, q: Rule)
    requires pos < |w| && DistinctDomains(w)
    ensures q in SwapRemove(w, pos) <==> q in w && q != w[pos]
  {
    var last, left := |w| - 1, SwapRemove(w, pos);
    assert forall i :: 0 <= i < last ==> left[i] == w[if i == pos then last else i];
    if q in w && q != w[pos] {
      var i :| 0 <= i < |w| && w[i] == q;
      assert left[if i == last then pos else i] == q;
    }
  }

  /** A deletion takes away the rule of its domain, answers with it, and touches no other rule,
      however it reorders the list. */
  lemma {:induction false} DeleteTakesOne(l: Layer, domain: string, q: Rule)
    requires WellFormedLayer(l)
    ensures Holds(Delete(l, domain).left, q) <==> Holds(l, q) && q.domain != domain
    ensures Delete(l, domain).rule == Some(q) <==> Holds(l, q) && q.domain == domain
  {
    var pos := Position(l.wild, domain);
    if pos.Some? {
      SwapRemoveMembers(l.wild, pos.value, q);
    }
  }

  // ------------------------------- tiered lookup refines first match in a list

  lemma {:induction false} FirstMatchOfConcat(a: seq<Rule>, b: seq<Rule>, name: string)
    ensures FirstMatch(a + b, name) == OrElse(FirstMatch(a, name), FirstMatch(b, name))
  {
    if a == [] {
      assert a + b == b;
    } else {
      FirstMatchOfConcat(a[1..], b, name);
      assert (a + b)[1..] == a[1..] + b;
    }
  }

  lemma {:induction false} FirstMatchIsFirst(rules: seq<Rule>, name: string)
    ensures FirstMatch(rules, name).None? <==> forall i :: 0 <= i < |rules| ==> !rules[i].Matches(name)
    ensures FirstMatch(rules, name).Some? ==>
      exists i :: 0 <= i < |rules| && rules[i].Matches(name) && FirstMatch(rules, name) == Some(rules[i])
        && forall j :: 0 <= j < i ==> !rules[j].Matches(name)
  {
    if rules != [] {
      FirstMatchIsFirst(rules[1..], name);
      if rules[0].Matches(name) {
      } else if FirstMatch(rules[1..], name).Some? {
        var i :| 0 <= i < |rules[1..]| && rules[1..][i].Matches(name)
          && FirstMatch(rules[1..], name) == Some(rules[1..][i])
          && forall j :: 0 <= j < i ==> !rules[1..][j].Matches(name);
        assert rules[i + 1] == rules[1..][i];
        forall j | 0 <= j < i + 1 ensures !rules[j].Matches(name) {
          if j > 0 { assert rules[j] == rules[1..][j - 1]; }
        }
      } else {
        forall i | 0 <= i < |rules| ensures !rules[i].Matches(name) {
          if i > 0 { assert rules[i] == rules[1..][i - 1]; }
        }
      }
    }
  }

  /** Among exact rules at most one matches, so the order they are met in does not matter. */
  lemma {:induction false} FirstMatchOfValues(order: seq<string>, m: map<string, Rule>, name: string)
    requires forall k :: k in order ==> k in m && m[k].domain == k && !IsWildcardName(k)
    ensures FirstMatch(Values(order, m), name) == if name in order then Some(m[name]) else None
  {
    if order != [] {
      FirstMatchOfValues(order[1..], m, name);
      assert Values(order, m)[1..] == Values(order[1..], m);
      assert order == [order[0]] + order[1..];
      assert order[0] in order;
    }
  }

  /** The four-tier lookup is "first rule of `all_rules()` that matches", for every iteration order. */
  lemma {:induction false} ResolveIsFirstMatch(s: Store, ephOrder: seq<string>, perOrder: seq<string>, name: string)
    requires WellFormed(s)
    requires Visits(ephOrder, s.eph.exact) && Visits(perOrder, s.per.exact)
    ensures Resolve(s, name) == FirstMatch(AllRules(s, ephOrder, perOrder), name)
  {
    var a, b := Values(ephOrder, s.eph.exact), Values(perOrder, s.per.exact);
    FirstMatchOfValues(ephOrder, s.eph.exact, name);
    FirstMatchOfValues(perOrder, s.per.exact, name);
    FirstMatchOfConcat(a, s.eph.wild, name);
    FirstMatchOfConcat(a + s.eph.wild, b, name);
    FirstMatchOfConcat(a + s.eph.wild + b, s.per.wild, name);
  }

  predicate AnyMatch(rules: seq<Rule>, name: string) {
    exists i :: 0 <= i < |rules| && rules[i].Matches(name)
  }

  lemma {:induction false} FirstMatchIffAny(rules: seq<Rule>, name: string)
    ensures FirstMatch(rules, name).Some? <==> AnyMatch(rules, name)
    ensures FirstMatch(rules, name).Some? ==> FirstMatch(rules, name).value in rules
  {
    FirstMatchIsFirst(rules, name);
  }

  // ------------------------------------------------ exact frame of mutations

  lemma {:induction false} RetainFrame(rules: seq<Rule>, domain: string, name: string)
    requires !MatchesName(domain, name)
    ensures FirstMatch(Retain(rules, domain), name) == FirstMatch(rules, name)
  {
    if rules != [] { RetainFrame(rules[1..], domain, name); }
  }

  lemma {:induction false} InsertFrame(l: Layer, r: Rule, name: string)
    requires !r.Matches(name)
    ensures LookUp(Insert(l, r), name) == LookUp(l, name)
  {
    if r.IsWildcard() {
      RetainFrame(l.wild, r.domain, name);
      FirstMatchOfConcat(Retain(l.wild, r.domain), [r], name);
    } else {
      MatchesItself(r.domain);
    }
  }

  /** What an insertion makes of a name the new rule does match: an exact rule takes the name, a
      wildcard only serves it when neither an exact rule nor another wildcard does. */
  lemma {:induction false} InsertServes(l: Layer, r: Rule, name: string)
    requires WellFormedLayer(l) && r.Matches(name)
    ensures LookUp(Insert(l, r), name) ==
            if !r.IsWildcard() then Some(r)
            else if name in l.exact then Some(l.exact[name])
            else OrElse(FirstMatch(Retain(l.wild, r.domain), name), Some(r))
  {
    if r.IsWildcard() {
      FirstMatchOfConcat(Retain(l.wild, r.domain), [r], name);
    }
  }

  /** Slot `pos` goes, and the last wildcard, which matches `name`, moves ahead of another one
      that matches it too, while none before the slot does. */
  predicate Overtakes(wild: seq<Rule>, pos: nat, name: string)
    requires pos < |wild|
  {
    var last := |wild| - 1;
    && pos < last
    && !AnyMatch(wild[..pos], name)
    && AnyMatch(wild[pos + 1..last], name)
    && wild[last].Matches(name)
  }

  /** Deleting `domain` lets one wildcard overtake another for `name`, and no exact rule settles it. */
  predicate Promotes(l: Layer, domain: string, name: string) {
    var pos := Position(l.wild, domain);
    pos.Some? && name !in l.exact && Overtakes(l.wild, pos.value, name)
  }

  lemma {:induction false} SwapRemoveLookUp(w: seq<Rule>, pos: nat, name: string)
    requires pos < |w| - 1
    ensures FirstMatch(w, name) ==
      OrElse(FirstMatch(w[..pos], name), OrElse(FirstMatch([w[pos]], name),
        OrElse(FirstMatch(w[pos + 1..|w| - 1], name), FirstMatch([w[|w| - 1]], name))))
    ensures FirstMatch(SwapRemove(w, pos), name) ==
      OrElse(FirstMatch(w[..pos], name),
        OrElse(FirstMatch([w[|w| - 1]], name), FirstMatch(w[pos + 1..|w| - 1], name)))
  {
    var a, x, b, z := w[..pos], [w[pos]], w[pos + 1..|w| - 1], [w[|w| - 1]];
    assert w == a + x + b + z;
    FirstMatchOfConcat(a + x + b, z, name);
    FirstMatchOfConcat(a + x, b, name);
    FirstMatchOfConcat(a, x, name);
    assert SwapRemove(w, pos) == a + z + b;
    FirstMatchOfConcat(a + z, b, name);
    FirstMatchOfConcat(a, z, name);
  }

  lemma {:induction false} SwapRemoveFrame(w: seq<Rule>, pos: nat, name: string)
    requires pos < |w| && !w[pos].Matches(name) && DistinctDomains(w)
    ensures FirstMatch(SwapRemove(w, pos), name) != FirstMatch(w, name) <==> Overtakes(w, pos, name)
    ensures Overtakes(w, pos, name) ==> FirstMatch(SwapRemove(w, pos), name) == Some(w[|w| - 1])
    ensures FirstMatch(SwapRemove(w, pos), name).Some? <==> FirstMatch(w, name).Some?
  {
    var last := |w| - 1;
    if pos == last {
      assert w == w[..last] + [w[last]] && SwapRemove(w, pos) == w[..last];
      FirstMatchOfConcat(w[..last], [w[last]], name);
    } else {
      SwapRemoveLookUp(w, pos, name);
      FirstMatchIffAny(w[..pos], name);
      FirstMatchIffAny(w[pos + 1..last], name);
      LastIsElsewhere(w, pos);
    }
  }

  lemma {:induction false} LastIsElsewhere(w: seq<Rule>, pos: nat)
    requires pos < |w| - 1 && DistinctDomains(w)
    ensures w[|w| - 1] !in w[pos + 1..|w| - 1]
  {}

  /** Exactly when does deleting a rule change the answer for a name the rule never matched? */
  lemma {:induction false} DeleteFrame(l: Layer, domain: string, name: string)
    requires WellFormedLayer(l) && !MatchesName(domain, name)
    ensures LookUp(Delete(l, domain).left, name) != LookUp(l, name) <==> Promotes(l, domain, name)
    ensures Promotes(l, domain, name) ==> LookUp(Delete(l, domain).left, name) == Some(l.wild[|l.wild| - 1])
    ensures LookUp(l, name).Some? <==> LookUp(Delete(l, domain).left, name).Some?
  {
    MatchesItself(domain);
    var pos := Position(l.wild, domain);
    if pos.Some? {
      SwapRemoveFrame(l.wild, pos.value, name);
    }
  }

  /** The pattern an operation is about; a bulk load has none. */
  function Subject(op: Op): string
    requires !op.AddAll?
  {
    if op.Add? || op.AddEphemeral? then op.rule.domain else op.domain
  }

  /** A removal by this operation promotes a wildcard for `name`, and no higher tier hides it. */
  predicate Reorders(s: Store, op: Op, name: string) {
    match op
    case Remove(domain) => LookUp(s.eph, name).None? && Promotes(s.per, domain, name)
    case RemoveEphemeral(domain) => Promotes(s.eph, domain, name)
    case _ => false
  }

  /** The exact frame: an operation changes the answer for a name its pattern does not match if
      and only if a removal reorders wildcards that compete for the name. */
  lemma {:induction false} MutationFrame(s: Store, op: Op, name: string)
    requires WellFormed(s) && !op.AddAll? && !MatchesName(Subject(op), name)
    ensures Resolve(Perform(s, op).store, name) != Resolve(s, name) <==> Reorders(s, op, name)
    ensures Resolve(Perform(s, op).store, name).Some? <==> Resolve(s, name).Some?
  {
    match op
    case Add(r) => InsertFrame(s.per, r, name);
    case AddEphemeral(r) => InsertFrame(s.eph, r, name);
    case Remove(domain) => DeleteFrame(s.per, domain, name);
    case RemoveEphemeral(domain) => DeleteFrame(s.eph, domain, name);
  }

  lemma {:induction false} CompetitorsAreNested(l: Layer, i: nat, j: nat, name: string)
    requires WellFormedLayer(l) && i < j < |l.wild|
    requires l.wild[i].Matches(name) && l.wild[j].Matches(name)
    ensures !NoNestedLayer(l)
  {
    SharedNameMeansNested(l.wild[i].domain, l.wild[j].domain, name);
  }

  lemma {:induction false} NoNestingNoPromotion(l: Layer, domain: string, name: string)
    requires WellFormedLayer(l) && NoNestedLayer(l)
    ensures !Promotes(l, domain, name)
  {
    if Promotes(l, domain, name) {
      OvertakingMeansNesting(l, Position(l.wild, domain).value, name);
    }
  }

  lemma {:induction false} OvertakingMeansNesting(l: Layer, pos: nat, name: string)
    requires WellFormedLayer(l) && pos < |l.wild| && Overtakes(l.wild, pos, name)
    ensures !NoNestedLayer(l)
  {
    var last := |l.wild| - 1;
    var between := l.wild[pos + 1..last];
    var mid :| 0 <= mid < |between| && between[mid].Matches(name);
    assert between[mid] == l.wild[pos + 1 + mid];
    CompetitorsAreNested(l, pos + 1 + mid, last, name);
  }

  /** Without nested wildcards in a layer every operation is local to the names it matches. */
  lemma {:induction false} NoNestingMeansLocal(s: Store, op: Op, name: string)
    requires WellFormed(s) && NoNestedWildcards(s)
    ensures !Reorders(s, op, name)
  {
    match op
    case Remove(domain) => NoNestingNoPromotion(s.per, domain, name);
    case RemoveEphemeral(domain) => NoNestingNoPromotion(s.eph, domain, name);
    case _ =>
  }

  // ------------------------------------------------------ restart round trip

  lemma {:induction false} RetainAbsent(rules: seq<Rule>, domain: string)
    requires forall i :: 0 <= i < |rules| ==> rules[i].domain != domain
    ensures Retain(rules, domain) == rules
  {
    if rules != [] { RetainAbsent(rules[1..], domain); }
  }

  lemma {:induction false} LoadExact(order: seq<string>, m: map<string, Rule>)
    requires forall k :: k in order ==> k in m && m[k].domain == k && !IsWildcardName(k)
    ensures InsertAll(EMPTY_LAYER, Values(order, m)) == Layer(map k | k in order :: m[k], [])
  {
    if order != [] {
      var front, last := order[..|order| - 1], order[|order| - 1];
      LoadExact(front, m);
      assert Values(order, m)[..|order| - 1] == Values(front, m);
      assert order == front + [last];
      assert (map k | k in front :: m[k])[last := m[last]] == map k | k in order :: m[k];
    }
  }

  lemma {:induction false} LoadWild(exact: map<string, Rule>, before: seq<Rule>, wild: seq<Rule>)
    requires WellFormedLayer(Layer(exact, wild))
    requires InsertAll(EMPTY_LAYER, before) == Layer(exact, [])
    ensures InsertAll(EMPTY_LAYER, before + wild) == Layer(exact, wild)
  {
    if wild == [] {
      assert before + wild == before;
    } else {
      var front, last := wild[..|wild| - 1], wild[|wild| - 1];
      LoadWild(exact, before, front);
      assert (before + wild)[..|before + wild| - 1] == before + front;
      RetainAbsent(front, last.domain);
      assert front + [last] == wild;
    }
  }

  /** Loading a saved snapshot into an empty store brings back the persistent layer, map and
      wildcard order alike, whatever order the hash map was walked in when saving. */
  lemma {:induction false} RestartRestoresPersistent(s: Store, order: seq<string>, name: string)
    requires WellFormed(s) && Visits(order, s.per.exact)
    ensures Perform(EMPTY_STORE, AddAll(PersistentRules(s, order))).store == Store(EMPTY_LAYER, s.per)
    ensures Resolve(Perform(EMPTY_STORE, AddAll(PersistentRules(s, order))).store, name) == LookUp(s.per, name)
  {
    LoadExact(order, s.per.exact);
    assert (map k | k in order :: s.per.exact[k]) == s.per.exact;
    LoadWild(s.per.exact, Values(order, s.per.exact), s.per.wild);
  }
}
