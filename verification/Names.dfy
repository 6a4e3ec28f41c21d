/** Domain names as text and as label sequences.

    A `char` stands for one byte of a name; the model is about ASCII names. */
module Names {

  datatype Option<+T> = None | Some(value: T)

  // ---------------------------------------------------------------- labels

  /** The labels of a name: the pieces between its dots. */
  function Split(name: string): (labels: seq<string>)
    ensures |labels| >= 1
  {
    if name == "" then [""]
    else
      var rest := Split(name[1..]);
      if name[0] == '.' then [""] + rest else Prepend(name[0], rest)
  }

  /** The labels with one more character in front of the first. */
  function Prepend(c: char, labels: seq<string>): (more: seq<string>)
    requires |labels| >= 1
    ensures |more| == |labels|
  {
    [[c] + labels[0]] + labels[1..]
  }

  function Join(labels: seq<string>): string
    requires |labels| >= 1
  {
    if |labels| == 1 then labels[0] else labels[0] + "." + Join(labels[1..])
  }

  predicate NoDot(part: string) {
    forall i :: 0 <= i < |part| ==> part[i] != '.'
  }

  predicate HasSuffix(name: string, suffix: string) {
    |suffix| <= |name| && name[|name| - |suffix|..] == suffix
  }

  predicate HasPrefix(name: string, prefix: string) {
    |prefix| <= |name| && name[..|prefix|] == prefix
  }

  lemma {:induction false} JoinOfPrepend(c: char, labels: seq<string>)
    requires |labels| >= 1
    ensures Join(Prepend(c, labels)) == [c] + Join(labels)
  {}

  lemma {:induction false} PrependOfConcat(c: char, left: seq<string>, right: seq<string>)
    requires |left| >= 1
    ensures Prepend(c, left + right) == Prepend(c, left) + right
  {}

  lemma {:induction false} JoinOfSplit(name: string)
    ensures Join(Split(name)) == name
  {
    if name != "" {
      JoinOfSplit(name[1..]);
      var rest := Split(name[1..]);
      if name[0] == '.' {
        assert Split(name)[1..] == rest;
      } else {
        JoinOfPrepend(name[0], rest);
      }
    }
  }

  lemma {:induction false} SplitOfLabel(part: string)
    requires NoDot(part)
    ensures Split(part) == [part]
  {
    if part != "" {
      assert NoDot(part[1..]);
      SplitOfLabel(part[1..]);
      assert [part[0]] + part[1..] == part;
    }
  }

  lemma {:induction false} SplitOfConcat(left: string, right: string)
    ensures Split(left + "." + right) == Split(left) + Split(right)
  {
    var whole := left + "." + right;
    if left == "" {
      assert whole[1..] == right;
    } else {
      var rest, tail := Split(left[1..]), Split(right);
      assert Split(whole[1..]) == rest + tail by {
        assert whole[1..] == left[1..] + "." + right;
        SplitOfConcat(left[1..], right);
      }
      if left[0] == '.' {
        assert [""] + (rest + tail) == ([""] + rest) + tail;
      } else {
        PrependOfConcat(left[0], rest, tail);
      }
    }
  }

  lemma {:induction false} SplitOfJoin(labels: seq<string>)
    requires |labels| >= 1
    requires forall i :: 0 <= i < |labels| ==> NoDot(labels[i])
    ensures Split(Join(labels)) == labels
  {
    SplitOfLabel(labels[0]);
    if |labels| > 1 {
      SplitOfJoin(labels[1..]);
      SplitOfConcat(labels[0], Join(labels[1..]));
      assert [labels[0]] + labels[1..] == labels;
    }
  }

  lemma {:induction false} JoinOfConcat(left: seq<string>, right: seq<string>)
    requires |left| >= 1 && |right| >= 1
    ensures Join(left + right) == Join(left) + "." + Join(right)
  {
    if |left| == 1 {
      assert (left + right)[1..] == right;
    } else {
      JoinOfConcat(left[1..], right);
      assert (left + right)[1..] == left[1..] + right;
    }
  }

  // ------------------------------------------------------------ ASCII case

  function LowerChar(c: char): char {
    if 'A' <= c <= 'Z' then c - 'A' + 'a' else c
  }

  function UpperChar(c: char): char {
    if 'a' <= c <= 'z' then c - 'a' + 'A' else c
  }

  function Lower(name: string): (low: string)
    ensures |low| == |name|
    ensures forall i :: 0 <= i < |name| ==> low[i] == LowerChar(name[i])
  {
    seq(|name|, i requires 0 <= i < |name| => LowerChar(name[i]))
  }

  predicate IsLower(name: string) {
    forall i :: 0 <= i < |name| ==> LowerChar(name[i]) == name[i]
  }

  /** Section 2.3.3 of RFC 1035 compares names without regard to case. */
  predicate SameIgnoringCase(a: string, b: string) {
    |a| == |b| && forall i :: 0 <= i < |a| ==> LowerChar(a[i]) == LowerChar(b[i])
  }

  lemma {:induction false} LowerIsCanonical(a: string, b: string)
    ensures IsLower(Lower(a))
    ensures Lower(Lower(a)) == Lower(a)
    ensures IsLower(a) ==> Lower(a) == a
    ensures Lower(a) == Lower(b) <==> SameIgnoringCase(a, b)
  {}

  function LowerAll(labels: seq<string>): (low: seq<string>)
    ensures |low| == |labels|
    ensures forall i :: 0 <= i < |labels| ==> low[i] == Lower(labels[i])
  {
    seq(|labels|, i requires 0 <= i < |labels| => Lower(labels[i]))
  }

  lemma {:induction false} LowerOfPrepend(c: char, labels: seq<string>)
    requires |labels| >= 1
    ensures LowerAll(Prepend(c, labels)) == Prepend(LowerChar(c), LowerAll(labels))
  {
    assert Lower([c] + labels[0]) == [LowerChar(c)] + Lower(labels[0]);
  }

  /** Lowercasing acts label by label: it neither makes nor removes a dot. */
  lemma {:induction false} SplitOfLower(name: string)
    ensures Split(Lower(name)) == LowerAll(Split(name))
  {
    if name == "" {
      assert Lower("") == "";
    } else {
      SplitOfLower(name[1..]);
      assert Lower(name)[1..] == Lower(name[1..]);
      var rest := Split(name[1..]);
      if name[0] == '.' {
        assert LowerAll([""] + rest) == [""] + LowerAll(rest);
      } else {
        LowerOfPrepend(name[0], rest);
      }
    }
  }
}
