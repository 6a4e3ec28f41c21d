/** The caching resolver as one object (core/src/dns/resolver.rs), with the DNS server's choice
    between answering and forwarding (core/src/dns/server.rs).

    A method takes as `store` the snapshot its single load of the rule store returns. Signing a
    certificate is an arbitrary partial function of the name. */
module Resolver {
  import opened Names
  import opened Rules
  import opened Stores
  import opened Requests
  import opened RulesWatch

  datatype QueryType = A | AAAA | Other

  /** The closure `invalidate` filters both maps with: the source's second copy of the suffix test. */
  predicate Retained(suffix: string, key: string) {
    !(HasSuffix(key, suffix) && |key| > |suffix| && key[|key| - |suffix| - 1] == '.')
  }

  lemma {:induction false} RetainIsMatching(rule: Rule, key: string)
    requires HasPrefix(rule.domain, "*.")
    ensures Retained(rule.domain[2..], key) <==> !rule.Matches(key)
  {
    assert STAR_DOT == "*.";
  }

  class DomainResolver<Cert(==)> {
    const authority: Option<string -> Option<Cert>>
    var cache: map<string, Rule>
    var certs: map<string, Cert>

    constructor (authority: Option<string -> Option<Cert>>)
      ensures this.authority == authority && cache == map[] && certs == map[] && Valid()
    {
      this.authority := authority;
      cache, certs := map[], map[];
    }

    /** What `sign` gives for a name; nothing without an authority. */
    function Sign(name: string): Option<Cert> {
      if authority.Some? then authority.value(name) else None
    }

    /** Every cached certificate is the one the authority signs for that very name. */
    ghost predicate Valid()
      reads this
    {
      forall k :: k in certs ==> Sign(k) == Some(certs[k])
    }

    function Answer(store: Store, name: string): Option<Rule>
      reads this
    {
      if name in cache then Some(cache[name]) else Resolve(store, name)
    }

    method ResolveDomain(store: Store, name: string) returns (rule: Option<Rule>)
      modifies this
      ensures rule == old(Answer(store, name))
      ensures cache == if rule.Some? then old(cache)[name := rule.value] else old(cache)
      ensures certs == old(certs)
      ensures old(Valid()) ==> Valid()
      ensures forall n :: Answer(store, n) == old(Answer(store, n))
    {
      if name in cache {
        rule := Some(cache[name]);
        assert cache == cache[name := cache[name]];
        return;
      }
      rule := Resolve(store, name);
      if rule.Some? {
        cache := cache[name := rule.value];
      }
    }

    method SignDomain(name: string) returns (cert: Option<Cert>)
      requires Valid()
      modifies this
      ensures Valid() && cert == Sign(name) && cache == old(cache)
      ensures certs == if cert.Some? then old(certs)[name := cert.value] else old(certs)
    {
      if authority.None? {
        return None;
      }
      cert := authority.value(name);
      if cert.Some? {
        certs := certs[name := cert.value];
      }
    }

    /** Both caches lose exactly the names the rule matches. */
    method InvalidateBy(rule: Rule)
      modifies this
      ensures forall k :: k in cache <==> k in old(cache) && !rule.Matches(k)
      ensures forall k :: k in certs <==> k in old(certs) && !rule.Matches(k)
      ensures cache == Surviving(old(cache), rule) && certs == Surviving(old(certs), rule)
      ensures old(Valid()) ==> Valid()
    {
      if HasPrefix(rule.domain, "*.") {
        var suffix := rule.domain[2..];
        forall k { RetainIsMatching(rule, k); }
        cache := map k | k in cache && Retained(suffix, k) :: cache[k];
        certs := map k | k in certs && Retained(suffix, k) :: certs[k];
      } else {
        cache := cache - {rule.domain};
        certs := certs - {rule.domain};
      }
    }

    /** A certificate is handed out exactly for a named client of a domain whose rule asks for
        HTTPS and that the authority signs for, and it is the certificate of that domain. */
    method ResolveCert(store: Store, serverName: Option<string>) returns (cert: Option<Cert>)
      requires Valid()
      modifies this
      ensures Valid()
      ensures cert.Some? <==>
              && serverName.Some? && authority.Some? && Sign(serverName.value).Some?
              && old(Answer(store, serverName.value)).Some? && old(Answer(store, serverName.value)).value.https
      ensures cert.Some? ==> cert == Sign(serverName.value)
      ensures forall n :: Answer(store, n) == old(Answer(store, n))
    {
      if serverName.None? || authority.None? {
        return None;
      }
      var name := serverName.value;
      var rule := ResolveDomain(store, name);
      if rule.None? || !rule.value.https {
        return None;
      }
      if name in certs {
        return Some(certs[name]);
      }
      cert := SignDomain(name);
    }

    /** Address queries for a routed name are answered locally, every other query is forwarded. */
    method AnswersLocally(store: Store, query: string, qtype: QueryType) returns (local: bool)
      modifies this
      ensures local <==> qtype != Other && old(Answer(store, Normalise(query))).Some?
      ensures qtype == Other ==> cache == old(cache)
      ensures forall n :: Answer(store, n) == old(Answer(store, n))
    {
      var name := Normalise(query);
      local := false;
      if qtype == A || qtype == AAAA {
        var rule := ResolveDomain(store, name);
        local := rule.Some?;
      }
    }
  }
}
