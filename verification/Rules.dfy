/** Routing rules and the byte-level suffix test (core/src/rule.rs). */
module Rules {
  import opened Names

  datatype SocketAddr = SocketAddr(ip: nat, port: nat)

  const STAR_DOT := "*."

  predicate IsWildcardName(pattern: string) {
    HasPrefix(pattern, STAR_DOT)
  }

  /** What remains of a wildcard pattern after its leading `*.`. */
  function SuffixOf(pattern: string): string
    requires IsWildcardName(pattern)
  {
    pattern[2..]
  }

  /** The suffix test as written in the source; it occurs there twice, in the rule and in the cache. */
  predicate EndsUnder(suffix: string, name: string) {
    && HasSuffix(name, suffix)
    && |name| > |suffix|
    && name[|name| - |suffix| - 1] == '.'
  }

  predicate MatchesName(pattern: string, name: string) {
    if IsWildcardName(pattern) then EndsUnder(SuffixOf(pattern), name) else pattern == name
  }

  datatype Rule = Rule(domain: string, target: SocketAddr, https: bool) {
    predicate IsWildcard() { IsWildcardName(domain) }
    predicate Matches(name: string) { MatchesName(domain, name) }
  }

  // --------------------------------------------- the label-level reference

  /** `name` lies strictly below `suffix` in the tree of labels. */
  predicate LabelsUnder(suffix: seq<string>, name: seq<string>) {
    |name| > |suffix| && name[|name| - |suffix|..] == suffix
  }

  predicate LabelSuffix(suffix: seq<string>, name: seq<string>) {
    |name| >= |suffix| && name[|name| - |suffix|..] == suffix
  }

  lemma {:induction false} EndsUnderDecomposes(suffix: string, name: string)
    requires EndsUnder(suffix, name)
    ensures name == name[..|name| - |suffix| - 1] + "." + suffix
  {}

  /** The byte test is exactly "some labels, then the labels of the suffix". */
  lemma {:induction false} BytesRefineLabels(suffix: string, name: string)
    ensures EndsUnder(suffix, name) <==> LabelsUnder(Split(suffix), Split(name))
  {
    if EndsUnder(suffix, name) {
      var front := name[..|name| - |suffix| - 1];
      EndsUnderDecomposes(suffix, name);
      SplitOfConcat(front, suffix);
      assert (Split(front) + Split(suffix))[|Split(front)|..] == Split(suffix);
    }
    if LabelsUnder(Split(suffix), Split(name)) {
      var front := Split(name)[..|Split(name)| - |Split(suffix)|];
      assert Split(name) == front + Split(suffix);
      JoinOfConcat(front, Split(suffix));
      JoinOfSplit(name);
      JoinOfSplit(suffix);
      assert name == Join(front) + "." + suffix;
      assert name[|name| - |suffix|..] == suffix;
    }
  }

  /** Matching of a whole pattern, exact or wildcard, in terms of labels only. */
  lemma {:induction false} MatchingIsByLabels(pattern: string, name: string)
    ensures MatchesName(pattern, name) <==>
            if IsWildcardName(pattern) then LabelsUnder(Split(SuffixOf(pattern)), Split(name))
            else Split(pattern) == Split(name)
  {
    if IsWildcardName(pattern) {
      BytesRefineLabels(SuffixOf(pattern), name);
    } else {
      JoinOfSplit(pattern);
      JoinOfSplit(name);
    }
  }

  /** Every pattern matches its own text, wildcards included. */
  lemma {:induction false} MatchesItself(pattern: string)
    ensures MatchesName(pattern, pattern)
  {}

  /** Two wildcards, one of whose suffixes lies at or under the other's. */
  predicate Nested(p: string, q: string) {
    && IsWildcardName(p) && IsWildcardName(q)
    && (|| LabelSuffix(Split(SuffixOf(p)), Split(SuffixOf(q)))
        || LabelSuffix(Split(SuffixOf(q)), Split(SuffixOf(p))))
  }

  lemma {:induction false} SuffixesOfOneName(a: seq<string>, b: seq<string>, name: seq<string>)
    requires LabelsUnder(a, name) && LabelsUnder(b, name)
    ensures LabelSuffix(a, b) || LabelSuffix(b, a)
  {}

  lemma {:induction false} SharedNameMeansNested(p: string, q: string, name: string)
    requires IsWildcardName(p) && IsWildcardName(q)
    requires MatchesName(p, name) && MatchesName(q, name)
    ensures Nested(p, q)
  {
    BytesRefineLabels(SuffixOf(p), name);
    BytesRefineLabels(SuffixOf(q), name);
    SuffixesOfOneName(Split(SuffixOf(p)), Split(SuffixOf(q)), Split(name));
  }

  lemma {:induction false} UnderOneMoreLabel(a: seq<string>, b: seq<string>, part: string)
    requires LabelSuffix(a, b)
    ensures LabelsUnder(a, [part] + b)
  {}

  /** One label in front of the deeper suffix is a name both wildcards match. */
  lemma {:induction false} NestedShareAName(p: string, q: string)
    requires IsWildcardName(p) && IsWildcardName(q)
    requires LabelSuffix(Split(SuffixOf(p)), Split(SuffixOf(q)))
    ensures MatchesName(p, "x" + "." + SuffixOf(q)) && MatchesName(q, "x" + "." + SuffixOf(q))
  {
    var name := "x" + "." + SuffixOf(q);
    SplitOfConcat("x", SuffixOf(q));
    SplitOfLabel("x");
    UnderOneMoreLabel(Split(SuffixOf(p)), Split(SuffixOf(q)), "x");
    UnderOneMoreLabel(Split(SuffixOf(q)), Split(SuffixOf(q)), "x");
    BytesRefineLabels(SuffixOf(p), name);
    BytesRefineLabels(SuffixOf(q), name);
  }

  /** Two wildcards compete for some name exactly when one suffix lies under the other. */
  lemma {:induction false} WildcardsCompeteIffNested(p: string, q: string)
    requires IsWildcardName(p) && IsWildcardName(q)
    ensures (exists name :: MatchesName(p, name) && MatchesName(q, name)) <==> Nested(p, q)
  {
    if name :| MatchesName(p, name) && MatchesName(q, name) {
      SharedNameMeansNested(p, q, name);
    }
    if LabelSuffix(Split(SuffixOf(p)), Split(SuffixOf(q))) {
      NestedShareAName(p, q);
    } else if LabelSuffix(Split(SuffixOf(q)), Split(SuffixOf(p))) {
      NestedShareAName(q, p);
    }
  }
}
