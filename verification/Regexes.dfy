/** The fragment of regular expressions that the domain grammar is written in,
    with full-match, case-insensitive meaning on ASCII text. */
module Regexes {
  import opened Names

  datatype Range = Range(lo: char, hi: char)

  datatype Regex =
    | Literal(text: string)
    | Class(ranges: seq<Range>)
    | Cat(left: Regex, right: Regex)
    | Alt(left: Regex, right: Regex)
    | Opt(inner: Regex)
    | Plus(inner: Regex)
    | Repeat(inner: Regex, lo: nat, hi: nat)

  predicate InClass(ranges: seq<Range>, c: char) {
    exists i :: 0 <= i < |ranges| &&
      (ranges[i].lo <= LowerChar(c) <= ranges[i].hi || ranges[i].lo <= UpperChar(c) <= ranges[i].hi)
  }

  function Flatten(pieces: seq<string>): string {
    if pieces == [] then "" else pieces[0] + Flatten(pieces[1..])
  }

  // Languages are sets of texts; one combinator per construct.

  ghost function LiteralLang(text: string): iset<string> { iset s: string | SameIgnoringCase(text, s) }

  ghost function ClassLang(ranges: seq<Range>): iset<string> { iset s: string | |s| == 1 && InClass(ranges, s[0]) }

  ghost function CatLang(a: iset<string>, b: iset<string>): iset<string> {
    iset s: string | exists cut :: 0 <= cut <= |s| && s[..cut] in a && s[cut..] in b
  }

  /** Texts made of between `lo` and `hi` pieces of `a`; no upper bound when `hi` is None. */
  ghost function RepeatLang(a: iset<string>, lo: nat, hi: Option<nat>): iset<string> {
    iset s: string | IsRepetition(a, lo, hi, s)
  }

  ghost predicate IsRepetition(a: iset<string>, lo: nat, hi: Option<nat>, s: string) {
    exists pieces: seq<string> :: PiecesOf(a, lo, hi, pieces, s)
  }

  ghost predicate PiecesOf(a: iset<string>, lo: nat, hi: Option<nat>, pieces: seq<string>, s: string) {
    && lo <= |pieces| && (hi.Some? ==> |pieces| <= hi.value)
    && Flatten(pieces) == s
    && forall i :: 0 <= i < |pieces| ==> pieces[i] in a
  }

  ghost function Lang(r: Regex): iset<string> {
    match r
    case Literal(text) => LiteralLang(text)
    case Class(ranges) => ClassLang(ranges)
    case Cat(a, b) => CatLang(Lang(a), Lang(b))
    case Alt(a, b) => Lang(a) + Lang(b)
    case Opt(a) => iset{""} + Lang(a)
    case Plus(a) => RepeatLang(Lang(a), 1, None)
    case Repeat(a, lo, hi) => RepeatLang(Lang(a), lo, Some(hi))
  }

  function Singletons(s: string): (pieces: seq<string>)
    ensures |pieces| == |s| && forall i :: 0 <= i < |s| ==> pieces[i] == [s[i]]
  {
    seq(|s|, i requires 0 <= i < |s| => [s[i]])
  }

  lemma {:induction false} FlattenSingletons(s: string)
    ensures Flatten(Singletons(s)) == s
  {
    if s != "" {
      FlattenSingletons(s[1..]);
      assert Singletons(s)[1..] == Singletons(s[1..]);
      assert s == [s[0]] + s[1..];
    }
  }

  lemma {:induction false} FlattenOfUnits(pieces: seq<string>)
    requires forall i :: 0 <= i < |pieces| ==> |pieces[i]| == 1
    ensures |Flatten(pieces)| == |pieces|
    ensures forall i :: 0 <= i < |pieces| ==> Flatten(pieces)[i] == pieces[i][0]
  {
    if pieces != [] {
      FlattenOfUnits(pieces[1..]);
    }
  }

  /** A bounded repetition of a character class is a length bound and a per-character test. */
  lemma {:induction false} RepeatedClass(ranges: seq<Range>, lo: nat, hi: nat, s: string)
    ensures s in RepeatLang(ClassLang(ranges), lo, Some(hi)) <==>
            lo <= |s| <= hi && forall i :: 0 <= i < |s| ==> InClass(ranges, s[i])
  {
    var a := ClassLang(ranges);
    if pieces: seq<string> :| PiecesOf(a, lo, Some(hi), pieces, s) {
      FlattenOfUnits(pieces);
    }
    if lo <= |s| <= hi && forall i :: 0 <= i < |s| ==> InClass(ranges, s[i]) {
      FlattenSingletons(s);
      assert PiecesOf(a, lo, Some(hi), Singletons(s), s);
    }
  }
}
