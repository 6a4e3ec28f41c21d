/** Accepted domain names: the regular expression (core/src/config.rs), the length
    bound (core/src/lib.rs), and a label grammar that the two are proved equal to. */
module Domains {
  import opened Names
  import opened Rules
  import opened Regexes

  const MAX_LEN := 253
  const LOCALHOST := "localhost"

  const LETTER := [Range('a', 'z')]
  const ALNUM := [Range('a', 'z'), Range('0', '9')]
  const ALNUM_HYPHEN := [Range('a', 'z'), Range('0', '9'), Range('-', '-')]

  const LABEL_REGEX := Cat(Class(ALNUM), Opt(Cat(Repeat(Class(ALNUM_HYPHEN), 0, 61), Class(ALNUM))))
  const TLD_REGEX := Repeat(Class(LETTER), 2, 63)
  const DOTTED_REGEX := Cat(LABEL_REGEX, Literal("."))
  const BODY_REGEX := Cat(Plus(DOTTED_REGEX), TLD_REGEX)
  const DOMAIN_REGEX := Alt(Literal(LOCALHOST), Cat(Opt(Literal(STAR_DOT)), BODY_REGEX))

  // ------------------------------------------------------ the label grammar

  predicate IsLetter(c: char) { 'a' <= LowerChar(c) <= 'z' }
  predicate IsAlnum(c: char) { IsLetter(c) || '0' <= c <= '9' }
  predicate IsAlnumHyphen(c: char) { IsAlnum(c) || c == '-' }

  predicate IsLabel(s: string) {
    && 1 <= |s| <= 63
    && IsAlnum(s[0]) && IsAlnum(s[|s| - 1])
    && forall i :: 0 <= i < |s| ==> IsAlnumHyphen(s[i])
  }

  predicate IsTld(s: string) {
    2 <= |s| <= 63 && forall i :: 0 <= i < |s| ==> IsLetter(s[i])
  }

  predicate AreHostLabels(labels: seq<string>) {
    && |labels| >= 2
    && IsTld(labels[|labels| - 1])
    && forall i :: 0 <= i < |labels| - 1 ==> IsLabel(labels[i])
  }

  predicate IsHostName(name: string) {
    AreHostLabels(Split(name))
  }

  predicate InGrammar(name: string) {
    || Lower(name) == LOCALHOST
    || IsHostName(if IsWildcardName(name) then SuffixOf(name) else name)
  }

  predicate Validate(name: string) {
    |name| < MAX_LEN && InGrammar(name)
  }

  // ------------------------------------------ regular expression <=> grammar

  lemma {:induction false} ClassesAreTheirTests(c: char)
    ensures InClass(LETTER, c) <==> IsLetter(c)
    ensures InClass(ALNUM, c) <==> IsAlnum(c)
    ensures InClass(ALNUM_HYPHEN, c) <==> IsAlnumHyphen(c)
  {
    assert LETTER[0] == Range('a', 'z');
    assert ALNUM[0] == Range('a', 'z') && ALNUM[1] == Range('0', '9');
    assert ALNUM_HYPHEN[0] == Range('a', 'z') && ALNUM_HYPHEN[1] == Range('0', '9')
        && ALNUM_HYPHEN[2] == Range('-', '-');
  }

  predicate IsAlnumText(s: string) { |s| == 1 && IsAlnum(s[0]) }

  predicate IsMiddle(s: string) {
    |s| <= 61 && forall i :: 0 <= i < |s| ==> IsAlnumHyphen(s[i])
  }

  predicate IsLabelTail(s: string) {
    && 1 <= |s| <= 62 && IsAlnum(s[|s| - 1])
    && forall i :: 0 <= i < |s| ==> IsAlnumHyphen(s[i])
  }

  predicate IsDotted(s: string) {
    |s| >= 1 && s[|s| - 1] == '.' && IsLabel(s[..|s| - 1])
  }

  ghost const ALNUMS := iset s: string | IsAlnumText(s)
  ghost const MIDDLES := iset s: string | IsMiddle(s)
  ghost const TAILS := iset s: string | IsLabelTail(s)
  ghost const LABELS := iset s: string | IsLabel(s)
  ghost const DOTTEDS := iset s: string | IsDotted(s)
  ghost const TLDS := iset s: string | IsTld(s)
  ghost const HOSTS := iset s: string | IsHostName(s)

  lemma {:induction false} AlnumClass(s: string)
    ensures s in ClassLang(ALNUM) <==> s in ALNUMS
  {
    if |s| == 1 { ClassesAreTheirTests(s[0]); }
  }

  lemma {:induction false} MiddleRepeat(s: string)
    ensures s in RepeatLang(ClassLang(ALNUM_HYPHEN), 0, Some(61)) <==> s in MIDDLES
  {
    RepeatedClass(ALNUM_HYPHEN, 0, 61, s);
    forall i | 0 <= i < |s| ensures InClass(ALNUM_HYPHEN, s[i]) <==> IsAlnumHyphen(s[i]) {
      ClassesAreTheirTests(s[i]);
    }
  }

  lemma {:induction false} TldRepeat(s: string)
    ensures s in RepeatLang(ClassLang(LETTER), 2, Some(63)) <==> s in TLDS
  {
    RepeatedClass(LETTER, 2, 63, s);
    forall i | 0 <= i < |s| ensures InClass(LETTER, s[i]) <==> IsLetter(s[i]) {
      ClassesAreTheirTests(s[i]);
    }
  }

  lemma {:induction false} TailCat(s: string)
    ensures s in CatLang(MIDDLES, ALNUMS) <==> s in TAILS
  {
    if cut :| 0 <= cut <= |s| && s[..cut] in MIDDLES && s[cut..] in ALNUMS {
      assert |s[cut..]| == 1 && s[cut..][0] == s[cut];
      forall i | 0 <= i < |s| ensures IsAlnumHyphen(s[i]) {
        if i < cut { assert s[..cut][i] == s[i]; }
      }
    }
    if IsLabelTail(s) {
      var cut := |s| - 1;
      assert s[..cut] in MIDDLES && s[cut..] in ALNUMS;
    }
  }

  lemma {:induction false} LabelCat(s: string)
    ensures s in CatLang(ALNUMS, iset{""} + TAILS) <==> s in LABELS
  {
    if cut :| 0 <= cut <= |s| && s[..cut] in ALNUMS && s[cut..] in iset{""} + TAILS {
      assert cut == 1 && s[..cut][0] == s[0];
      forall i | 0 <= i < |s| ensures IsAlnumHyphen(s[i]) {
        if i > 0 { assert s[cut..][i - 1] == s[i]; }
      }
      if |s| > 1 { assert s[cut..][|s| - 2] == s[|s| - 1]; }
    }
    if IsLabel(s) {
      assert s[..1] in ALNUMS;
      var t := s[1..];
      assert forall i :: 0 <= i < |t| ==> t[i] == s[i + 1];
      assert t in iset{""} + TAILS;
    }
  }

  lemma {:induction false} DottedCat(s: string)
    ensures s in CatLang(LABELS, LiteralLang(".")) <==> s in DOTTEDS
  {}

  /** The labels of dotted pieces. */
  function Undot(pieces: seq<string>): (labels: seq<string>)
    requires forall i :: 0 <= i < |pieces| ==> |pieces[i]| >= 1
    ensures |labels| == |pieces|
    ensures forall i :: 0 <= i < |pieces| ==> labels[i] == pieces[i][..|pieces[i]| - 1]
  {
    seq(|pieces|, i requires 0 <= i < |pieces| => pieces[i][..|pieces[i]| - 1])
  }

  lemma {:induction false} DottedPiecesJoin(pieces: seq<string>, last: string)
    requires forall i :: 0 <= i < |pieces| ==> |pieces[i]| >= 1 && pieces[i][|pieces[i]| - 1] == '.'
    ensures Flatten(pieces) + last == Join(Undot(pieces) + [last])
  {
    if pieces == [] {
      assert Undot(pieces) + [last] == [last];
    } else {
      var labels := Undot(pieces) + [last];
      DottedPiecesJoin(pieces[1..], last);
      assert labels[1..] == Undot(pieces[1..]) + [last];
      assert labels[0] + "." == pieces[0];
      assert Flatten(pieces) + last == pieces[0] + (Flatten(pieces[1..]) + last);
    }
  }

  lemma {:induction false} HostLabelsHaveNoDot(labels: seq<string>)
    requires AreHostLabels(labels)
    ensures forall i :: 0 <= i < |labels| ==> NoDot(labels[i])
  {}

  lemma {:induction false} DottedPiecesAreHost(pieces: seq<string>, last: string)
    requires |pieces| >= 1 && IsTld(last)
    requires forall i :: 0 <= i < |pieces| ==> IsDotted(pieces[i])
    ensures IsHostName(Flatten(pieces) + last)
  {
    var labels := Undot(pieces) + [last];
    assert forall i :: 0 <= i < |pieces| ==> labels[i] == pieces[i][..|pieces[i]| - 1];
    assert AreHostLabels(labels);
    DottedPiecesJoin(pieces, last);
    HostLabelsHaveNoDot(labels);
    SplitOfJoin(labels);
  }

  lemma {:induction false} HostHasDottedPieces(s: string) returns (pieces: seq<string>, last: string)
    requires IsHostName(s)
    ensures |pieces| >= 1 && IsTld(last) && s == Flatten(pieces) + last
    ensures forall i :: 0 <= i < |pieces| ==> IsDotted(pieces[i])
  {
    var labels := Split(s);
    var n := |labels| - 1;
    last := labels[n];
    pieces := seq(n, i requires 0 <= i < n => labels[i] + ".");
    forall i | 0 <= i < n ensures |pieces[i]| >= 1 && IsDotted(pieces[i]) {
      assert pieces[i][..|pieces[i]| - 1] == labels[i];
    }
    DottedPiecesJoin(pieces, last);
    assert Undot(pieces) + [last] == labels;
    JoinOfSplit(s);
  }

  lemma {:induction false} BodyCat(s: string)
    ensures s in CatLang(RepeatLang(DOTTEDS, 1, None), TLDS) <==> s in HOSTS
  {
    if cut :| 0 <= cut <= |s| && s[..cut] in RepeatLang(DOTTEDS, 1, None) && s[cut..] in TLDS {
      var pieces: seq<string> :| PiecesOf(DOTTEDS, 1, None, pieces, s[..cut]);
      DottedPiecesAreHost(pieces, s[cut..]);
      assert s == s[..cut] + s[cut..];
    }
    if s in HOSTS {
      var pieces, last := HostHasDottedPieces(s);
      var cut := |s| - |last|;
      assert s[cut..] == last && s[..cut] == Flatten(pieces);
      assert PiecesOf(DOTTEDS, 1, None, pieces, s[..cut]);
    }
  }

  lemma {:induction false} StarIsNoLabel(s: string)
    requires IsWildcardName(s)
    ensures !IsHostName(s)
  {
    assert s[0] == STAR_DOT[0] && s[1] == STAR_DOT[1];
    assert Split(s[1..])[0] == "";
    assert Split(s)[0] == "*";
    assert !IsAlnum('*');
  }

  lemma {:induction false} LiteralStarDot(s: string)
    ensures SameIgnoringCase(STAR_DOT, s) <==> s == STAR_DOT
  {}

  lemma {:induction false} StarredBody(s: string)
    ensures s in CatLang(iset{""} + LiteralLang(STAR_DOT), HOSTS) <==>
            IsHostName(if IsWildcardName(s) then SuffixOf(s) else s)
  {
    if cut :| 0 <= cut <= |s| && s[..cut] in iset{""} + LiteralLang(STAR_DOT) && s[cut..] in HOSTS {
      LiteralStarDot(s[..cut]);
      if cut == 0 {
        assert s[cut..] == s;
        if IsWildcardName(s) { StarIsNoLabel(s); }
      }
    }
    if IsWildcardName(s) {
      LiteralStarDot(s[..2]);
    } else {
      assert s[0..] == s && s[..0] == "";
    }
  }

  /** Each named part of the expression denotes the language of its grammar rule. */
  lemma {:induction false} PartsOfTheRegex()
    ensures Lang(LABEL_REGEX) == LABELS
    ensures Lang(TLD_REGEX) == TLDS
    ensures Lang(BODY_REGEX) == HOSTS
  {
    forall s: string { AlnumClass(s); }
    forall s: string { MiddleRepeat(s); }
    forall s: string { TldRepeat(s); }
    forall s: string { TailCat(s); }
    forall s: string { LabelCat(s); }
    forall s: string { DottedCat(s); }
    forall s: string { BodyCat(s); }
    assert Lang(Class(ALNUM)) == ALNUMS;
    assert Lang(Repeat(Class(ALNUM_HYPHEN), 0, 61)) == MIDDLES;
    assert CatLang(MIDDLES, ALNUMS) == TAILS;
    assert CatLang(ALNUMS, iset{""} + TAILS) == LABELS;
    assert CatLang(LABELS, LiteralLang(".")) == DOTTEDS;
    assert CatLang(RepeatLang(DOTTEDS, 1, None), TLDS) == HOSTS;
  }

  lemma {:induction false} LocalhostLiteral(s: string)
    ensures SameIgnoringCase(LOCALHOST, s) <==> Lower(s) == LOCALHOST
  {}

  /** The regular expression accepts exactly the label grammar. */
  lemma {:induction false} RegexIsGrammar(s: string)
    ensures s in Lang(DOMAIN_REGEX) <==> InGrammar(s)
  {
    PartsOfTheRegex();
    StarredBody(s);
    LocalhostLiteral(s);
    assert Lang(DOMAIN_REGEX) == LiteralLang(LOCALHOST) + CatLang(iset{""} + LiteralLang(STAR_DOT), HOSTS);
  }

  /** What `validate_domain` computes, for every ASCII name. */
  lemma {:induction false} ValidateIsRegexAndBound(s: string)
    ensures Validate(s) <==> |s| < 253 && s in Lang(DOMAIN_REGEX)
  {
    RegexIsGrammar(s);
  }

  // --------------------------------------------- consequences of acceptance

  lemma {:induction false} HostLabelsIgnoreCase(labels: seq<string>)
    ensures AreHostLabels(LowerAll(labels)) <==> AreHostLabels(labels)
  {}

  lemma {:induction false} HostIgnoresCase(s: string)
    ensures IsHostName(Lower(s)) <==> IsHostName(s)
  {
    SplitOfLower(s);
    HostLabelsIgnoreCase(Split(s));
  }

  /** Lowercasing a name never changes whether it is accepted, nor whether it is a wildcard. */
  lemma {:induction false} ValidateIgnoresCase(s: string)
    ensures Validate(Lower(s)) <==> Validate(s)
    ensures IsWildcardName(Lower(s)) <==> IsWildcardName(s)
  {
    LowerIsCanonical(s, s);
    var low := Lower(s);
    if |s| >= 2 {
      assert low[0] == LowerChar(s[0]) && low[1] == LowerChar(s[1]);
      assert low[..2] == STAR_DOT <==> s[..2] == STAR_DOT by {
        if low[..2] == STAR_DOT { assert low[..2][0] == '*' && low[..2][1] == '.'; assert s[..2] == STAR_DOT; }
        if s[..2] == STAR_DOT { assert s[..2][0] == '*' && s[..2][1] == '.'; assert low[..2] == STAR_DOT; }
      }
    }
    if IsWildcardName(s) {
      assert SuffixOf(low) == Lower(SuffixOf(s));
      HostIgnoresCase(SuffixOf(s));
    } else {
      HostIgnoresCase(s);
    }
  }

  lemma {:induction false} HostCharacters(labels: seq<string>)
    requires |labels| >= 1
    requires forall i :: 0 <= i < |labels| ==> IsLabel(labels[i]) || IsTld(labels[i])
    ensures forall i :: 0 <= i < |Join(labels)| ==> IsAlnumHyphen(Join(labels)[i]) || Join(labels)[i] == '.'
  {
    if |labels| > 1 { HostCharacters(labels[1..]); }
  }

  lemma {:induction false} LocalhostIsLetters(s: string)
    requires Lower(s) == LOCALHOST
    ensures forall i :: 0 <= i < |s| ==> IsLetter(s[i])
  {}

  lemma {:induction false} HostHasNoStar(s: string)
    requires IsHostName(s)
    ensures forall i :: 0 <= i < |s| ==> s[i] != '*'
  {
    var labels := Split(s);
    forall i | 0 <= i < |labels| ensures IsLabel(labels[i]) || IsTld(labels[i]) {}
    JoinOfSplit(s);
    HostCharacters(labels);
  }

  /** `*` can only be the first character of an accepted name, and a dot follows it. */
  lemma {:induction false} StarOnlyLeads(s: string, i: nat)
    requires Validate(s) && i < |s| && s[i] == '*'
    ensures i == 0 && IsWildcardName(s)
  {
    if Lower(s) == LOCALHOST {
      LocalhostIsLetters(s);
    } else if IsWildcardName(s) {
      HostHasNoStar(SuffixOf(s));
      assert s == STAR_DOT + SuffixOf(s);
    } else {
      HostHasNoStar(s);
    }
  }

  /** Octets of a name on the wire: a length byte per label and the closing root byte
      (section 3.1 of RFC 1035). */
  function WireLength(labels: seq<string>): nat {
    if labels == [] then 1 else 1 + |labels[0]| + WireLength(labels[1..])
  }

  lemma {:induction false} WireLengthIsTextPlusTwo(labels: seq<string>)
    requires |labels| >= 1
    ensures WireLength(labels) == |Join(labels)| + 2
  {
    if |labels| > 1 { WireLengthIsTextPlusTwo(labels[1..]); }
  }

  lemma {:induction false} HostLabels(s: string)
    requires IsHostName(s)
    ensures forall i :: 0 <= i < |Split(s)| ==> 1 <= |Split(s)[i]| <= 63
  {}

  lemma {:induction false} SplitOfWildcard(s: string)
    requires IsWildcardName(s)
    ensures Split(s) == ["*"] + Split(SuffixOf(s))
  {
    assert s == "*" + "." + SuffixOf(s);
    SplitOfConcat("*", SuffixOf(s));
    SplitOfLabel("*");
  }

  lemma {:induction false} AcceptedLabels(s: string)
    requires Validate(s)
    ensures forall i :: 0 <= i < |Split(s)| ==> 1 <= |Split(s)[i]| <= 63
  {
    if Lower(s) == LOCALHOST {
      LocalhostIsLetters(s);
      SplitOfLabel(s);
    } else if IsWildcardName(s) {
      HostLabels(SuffixOf(s));
      SplitOfWildcard(s);
    } else {
      HostLabels(s);
    }
  }

  /** An accepted name fits section 2.3.4 of RFC 1035: labels of at most 63 octets, at most
      254 octets in all. That section allows 255, so the length bound of the code is one
      stricter: it refuses exactly the grammatical names of 253 characters that still fit. */
  lemma {:induction false} AcceptedNamesFitTheWire(s: string)
    ensures Validate(s) ==> WireLength(Split(s)) <= 254
    ensures Validate(s) ==> forall i :: 0 <= i < |Split(s)| ==> 1 <= |Split(s)[i]| <= 63
    ensures InGrammar(s) ==> (WireLength(Split(s)) <= 255 && !Validate(s) <==> |s| == 253)
  {
    JoinOfSplit(s);
    WireLengthIsTextPlusTwo(Split(s));
    if Validate(s) { AcceptedLabels(s); }
  }

  function Letters(n: nat): string { seq(n, _ => 'a') }

  /** Such a name: labels of 63, 63, 63 and 61 letters. */
  lemma {:induction false} ARefusedNameFits() returns (s: string)
    ensures InGrammar(s) && |s| == 253 && WireLength(Split(s)) == 255 && !Validate(s)
  {
    var labels := [Letters(63), Letters(63), Letters(63), Letters(61)];
    s := Join(labels);
    assert AreHostLabels(labels);
    HostLabelsHaveNoDot(labels);
    SplitOfJoin(labels);
    assert WireLength(labels[3..]) == 63 && WireLength(labels[2..]) == 127 && WireLength(labels[1..]) == 191;
    WireLengthIsTextPlusTwo(labels);
    HostHasNoStar(s);
  }
}
