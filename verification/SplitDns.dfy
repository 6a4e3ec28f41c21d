/** What the platforms are told to route: the macOS resolver directory (core/src/dns/sys/macos.rs)
    and the systemd-resolved entries (core/src/dns/sys/systemd.rs).

    The resolver directory may be absent: an apply creates it, and nothing ever removes it. */
module SplitDns {
  import opened Names
  import opened Rules
  import D = Domains
  import opened Stores
  import opened Requests

  // ------------------------------------------------------------- macOS: the directory

  /** File names with their contents. */
  type Files = map<string, string>

  /** The resolver directory; None when it does not exist. */
  type Directory = Option<Files>

  function FilesIn(dir: Directory): Files {
    if dir.Some? then dir.value else map[]
  }

  const MARKER := "Managed by SideDNS"

  /** The content of a resolver file, byte by byte: a dash of three bytes in the middle. */
  const HEAD := "# " + MARKER + " "
  const DASH := "\U{E2}\U{80}\U{94}"
  const NOTE := " do not edit manually\n"
  const SERVER := "nameserver 127.0.53.53"
  const TAIL := NOTE + SERVER + "\n"
  const CONTENT := HEAD + DASH + TAIL

  predicate Contains(text: string, part: string) {
    exists i :: 0 <= i <= |text| && HasPrefix(text[i..], part)
  }

  /** A file counts as managed when it can be read as text and carries the marker. */
  predicate Managed(content: string) { Utf8(content) && Contains(content, MARKER) }

  predicate Trails(c: char) { 0x80 <= c as int <= 0xBF }

  /** The number of bytes of the well-formed UTF-8 sequence at the front; 0 if there is none. */
  function Leading(text: string): (n: nat)
    requires text != ""
    ensures n <= |text|
  {
    var a := text[0] as int;
    if a < 0x80 then 1
    else if 0xC2 <= a <= 0xDF && |text| >= 2 && Trails(text[1]) then 2
    else if 0xE0 <= a <= 0xEF && |text| >= 3 && Trails(text[1]) && Trails(text[2])
            && (a == 0xE0 ==> text[1] as int >= 0xA0) && (a == 0xED ==> text[1] as int <= 0x9F) then 3
    else if 0xF0 <= a <= 0xF4 && |text| >= 4 && Trails(text[1]) && Trails(text[2]) && Trails(text[3])
            && (a == 0xF0 ==> text[1] as int >= 0x90) && (a == 0xF4 ==> text[1] as int <= 0x8F) then 4
    else 0
  }

  predicate Utf8(text: string)
    decreases |text|
  {
    text == "" || (Leading(text) > 0 && Utf8(text[Leading(text)..]))
  }

  predicate Ascii(text: string) {
    forall i :: 0 <= i < |text| ==> text[i] as int < 0x80
  }

  lemma {:induction false} AsciiThen(text: string, rest: string)
    requires Ascii(text)
    ensures Utf8(text + rest) <==> Utf8(rest)
  {
    if text == "" {
      assert text + rest == rest;
    } else {
      AsciiThen(text[1..], rest);
      assert (text + rest)[1..] == text[1..] + rest;
    }
  }

  lemma {:induction false} DashThenAscii(text: string)
    requires Ascii(text)
    ensures Utf8(DASH + text)
  {
    AsciiThen(text, "");
    assert text + "" == text && (DASH + text)[3..] == text;
  }

  /** A text with one dash in it, cut after `n` bytes, is text unless the dash is cut. */
  lemma {:induction false} CutAroundDash(head: string, tail: string, n: nat)
    requires Ascii(head) && Ascii(tail) && n <= |head| + 3 + |tail|
    ensures Utf8((head + DASH + tail)[..n]) <==> n <= |head| || n >= |head| + 3
  {
    var cut := (head + DASH + tail)[..n];
    if n <= |head| {
      AsciiThen(head[..n], "");
      assert cut == head[..n] + "";
    } else {
      var rest := (DASH + tail)[..n - |head|];
      AsciiThen(head, rest);
      assert cut == head + rest;
      if n >= |head| + 3 {
        DashThenAscii(tail[..n - |head| - 3]);
        assert rest == DASH + tail[..n - |head| - 3];
      } else {
        assert rest[0] == '\U{E2}' && Leading(rest) == 0;
      }
    }
  }

  /** A text with the marker in it, cut after `n` bytes, has the marker once it is complete. */
  lemma {:induction false} CutAroundMarker(before: string, after: string, n: nat)
    requires n <= |before| + |MARKER| + |after| && MARKER[0] !in before
    ensures Contains((before + MARKER + after)[..n], MARKER) <==> n >= |before| + |MARKER|
  {
    var whole := before + MARKER + after;
    var cut := whole[..n];
    if n >= |before| + |MARKER| {
      assert cut[|before|..][..|MARKER|] == MARKER;
    } else {
      forall i | 0 <= i <= |cut| ensures !HasPrefix(cut[i..], MARKER) {
        if i + |MARKER| <= n { assert cut[i..][..|MARKER|][0] == before[i]; }
      }
    }
  }

  lemma {:induction false} PartsAreAscii()
    ensures |HEAD| == 21 && Ascii(HEAD) && Ascii(TAIL)
  {
    assert Ascii(NOTE) && Ascii(SERVER) && Ascii("\n");
  }

  /** A resolver file cut short is still recognised as managed exactly if the marker is complete and
      the cut does not fall inside the dash. */
  lemma {:induction false} CutIsManagedIff(n: nat)
    requires n <= |CONTENT|
    ensures Managed(CONTENT[..n]) <==> n >= 20 && n != 22 && n != 23
  {
    PartsAreAscii();
    CutAroundDash(HEAD, TAIL, n);
    CutAroundMarker("# ", " " + DASH + TAIL, n);
    assert CONTENT == "# " + MARKER + (" " + DASH + TAIL);
  }

  lemma {:induction false} ContentIsManaged()
    ensures Managed(CONTENT)
  {
    CutIsManagedIff(|CONTENT|);
    assert CONTENT[..|CONTENT|] == CONTENT;
  }

  /** One line of the text, whether or not a newline ends it, is `line`. */
  predicate HasLine(text: string, line: string) {
    exists i :: 0 <= i <= |text| && IsLineAt(text, line, i)
  }

  predicate IsLineAt(text: string, line: string, i: nat)
    requires i <= |text|
  {
    && (i == 0 || text[i - 1] == '\n')
    && HasPrefix(text[i..], line)
    && (i + |line| == |text| || text[i + |line|] == '\n')
  }

  /** A file routes its name to the daemon when it is one of the daemon's and names its server. */
  predicate Routes(content: string) { Managed(content) && HasLine(content, SERVER) }

  lemma {:induction false} LineAt(before: string, line: string, rest: string)
    requires |before| >= 1 && before[|before| - 1] == '\n' && (rest == "" || rest == "\n")
    ensures HasLine(before + line + rest, line)
  {
    var text := before + line + rest;
    assert text[|before| - 1] == '\n' && text[|before|..] == line + rest;
    assert text[|before|..][..|line|] == line;
    assert rest == "\n" ==> text[|before| + |line|] == rest[0];
    assert IsLineAt(text, line, |before|);
  }

  lemma {:induction false} NoLineYet(before: string, line: string, part: string)
    requires |before| >= 1 && |line| >= 1 && before[0] != line[0] && '\n' !in before[..|before| - 1]
    requires |part| < |line|
    ensures !HasLine(before + part, line)
  {
    var text := before + part;
    forall i | 0 <= i <= |text| ensures !IsLineAt(text, line, i) {
      if i == 0 {
        assert text[0..][0] == before[0];
        assert |line| <= |text| ==> text[0..][..|line|][0] == text[0..][0];
      } else if i < |before| {
        assert text[i - 1] == before[i - 1];
        assert before[i - 1] == before[..|before| - 1][i - 1];
      }
    }
  }

  lemma {:induction false} NoLineAtAll(before: string, line: string, n: nat)
    requires n <= |before| && |line| >= 1 && |before| >= 1 && before[0] != line[0] && '\n' !in before[..|before| - 1]
    ensures !HasLine(before[..n], line)
  {
    var text := before[..n];
    forall i | 0 <= i <= |text| ensures !IsLineAt(text, line, i) {
      if i == 0 {
        assert |line| <= n ==> text[0..][..|line|][0] == before[0];
      } else if i < |before| {
        assert text[i - 1] == before[i - 1];
        assert before[i - 1] == before[..|before| - 1][i - 1];
      }
    }
  }

  lemma {:induction false} CutAroundLine(before: string, line: string, n: nat)
    requires n <= |before| + |line| + 1 && |before| >= 1 && |line| >= 1
    requires before[|before| - 1] == '\n' && '\n' !in before[..|before| - 1] && before[0] != line[0]
    ensures HasLine((before + line + "\n")[..n], line) <==> n >= |before| + |line|
  {
    var cut := (before + line + "\n")[..n];
    if n <= |before| {
      NoLineAtAll(before, line, n);
      assert cut == before[..n];
    } else if n < |before| + |line| {
      NoLineYet(before, line, line[..n - |before|]);
      assert cut == before + line[..n - |before|];
    } else {
      var rest := "\n"[..n - |before| - |line|];
      LineAt(before, line, rest);
      assert cut == before + line + rest;
    }
  }

  /** A resolver file cut short routes exactly if at most its last newline is missing. */
  lemma {:induction false} CutRoutesIff(n: nat)
    requires n <= |CONTENT|
    ensures Routes(CONTENT[..n]) <==> n >= |CONTENT| - 1
  {
    var before := HEAD + DASH + NOTE;
    assert CONTENT == before + SERVER + "\n";
    HeadIsOneLine();
    CutAroundLine(before, SERVER, n);
    CutIsManagedIff(n);
    assert |before| > 23;
  }

  lemma {:induction false} HeadIsOneLine()
    ensures var before := HEAD + DASH + NOTE;
            |before| > 23 && before[|before| - 1] == '\n' && '\n' !in before[..|before| - 1] && before[0] != SERVER[0]
    ensures '\n' !in SERVER
  {
    var before := HEAD + DASH + NOTE;
    assert before[..|before| - 1] == HEAD + DASH + NOTE[..|NOTE| - 1];
    assert '\n' !in HEAD && '\n' !in DASH && '\n' !in NOTE[..|NOTE| - 1];
  }

  lemma {:induction false} ContentRoutes()
    ensures Routes(CONTENT)
  {
    CutRoutesIff(|CONTENT|);
    assert CONTENT[..|CONTENT|] == CONTENT;
  }

  /** The source's `replace("*.", "")`: every occurrence goes, left to right. */
  function DropStarDots(name: string): string
    decreases |name|
  {
    if name == "" then ""
    else if HasPrefix(name, STAR_DOT) then DropStarDots(name[2..])
    else [name[0]] + DropStarDots(name[1..])
  }

  function FileNames(domains: seq<string>): set<string> {
    set i | 0 <= i < |domains| :: DropStarDots(domains[i])
  }

  function Unmanaged(files: Files): Files {
    map f | f in files && !Managed(files[f]) :: files[f]
  }

  function ManagedNames(files: Files): set<string> {
    set f | f in files && Managed(files[f])
  }

  /** The names that the files in the directory route to the daemon. */
  function Routed(files: Files): set<string> {
    set f | f in files && Routes(files[f])
  }

  function WithContent(files: Files, names: set<string>): Files {
    files + map f | f in names :: CONTENT
  }

  /** The directory after every marked file is deleted; an absent one stays absent. */
  function Cleared(dir: Directory): Directory {
    if dir.Some? then Some(Unmanaged(dir.value)) else None
  }

  function Applied(dir: Directory, domains: seq<string>): Directory {
    Some(WithContent(Unmanaged(FilesIn(dir)), FileNames(domains)))
  }

  class ResolverDirectory {
    var dir: Directory

    constructor (dir: Directory)
      ensures this.dir == dir
    {
      this.dir := dir;
    }

    /** Walk the directory in any order and delete what carries the marker; an absent directory
        cannot be listed, and that counts as nothing to delete. */
    method RemoveAllFiles()
      modifies this
      ensures dir == Cleared(old(dir))
    {
      if dir.None? {
        return;
      }
      var files := dir.value;
      ghost var before := files;
      var entries := files.Keys;
      while entries != {}
        invariant entries <= files.Keys <= before.Keys
        invariant forall f :: f in files ==> files[f] == before[f]
        invariant forall f :: f in before && (f in entries || !Managed(before[f])) ==> f in files
        invariant forall f :: f in files && f !in entries ==> !Managed(files[f])
        decreases entries
      {
        var f :| f in entries;
        entries := entries - {f};
        if Managed(files[f]) {
          files := files - {f};
        }
      }
      assert files == Unmanaged(before);
      dir := Some(files);
    }

    method CreateDirectory()
      modifies this
      ensures dir == Some(FilesIn(old(dir)))
    {
      if dir.None? {
        dir := Some(map[]);
      }
    }

    /** Write one resolver file for each of the first `n` domains. */
    method WriteFiles(domains: seq<string>, n: nat)
      requires dir.Some? && n <= |domains|
      modifies this
      ensures dir == Some(WithContent(old(dir).value, FileNames(domains[..n])))
    {
      ghost var kept := dir.value;
      assert FileNames(domains[..0]) == {} && WithContent(kept, {}) == kept;
      for i := 0 to n
        invariant dir == Some(WithContent(kept, FileNames(domains[..i])))
      {
        WithContentGrows(kept, FileNames(domains[..i]), DropStarDots(domains[i]));
        dir := Some(dir.value[DropStarDots(domains[i]) := CONTENT]);
        FileNamesGrow(domains, i);
      }
    }

    method Apply(domains: seq<string>)
      modifies this
      ensures dir == Applied(old(dir), domains)
      ensures ManagedNames(dir.value) == FileNames(domains)
      ensures forall f :: f in FilesIn(old(dir)) && !Managed(FilesIn(old(dir))[f]) && f !in FileNames(domains) ==>
                f in dir.value && dir.value[f] == FilesIn(old(dir))[f]
    {
      CreateDirectory();
      RemoveAllFiles();
      WriteFiles(domains, |domains|);
      assert domains[..|domains|] == domains;
      AppliedIsManaged(old(dir), domains);
    }

    method Revert()
      modifies this
      ensures dir == Cleared(old(dir)) && ManagedNames(FilesIn(dir)) == {}
    {
      RemoveAllFiles();
    }
  }

  lemma {:induction false} WithContentGrows(files: Files, names: set<string>, f: string)
    ensures WithContent(files, names)[f := CONTENT] == WithContent(files, names + {f})
  {}

  lemma {:induction false} FileNamesGrow(domains: seq<string>, i: nat)
    requires i < |domains|
    ensures FileNames(domains[..i + 1]) == FileNames(domains[..i]) + {DropStarDots(domains[i])}
  {}

  /** Exactly the stripped names of the domains are managed, whatever was there before. */
  lemma {:induction false} AppliedIsManaged(dir: Directory, domains: seq<string>)
    ensures ManagedNames(Applied(dir, domains).value) == FileNames(domains)
  {
    ContentIsManaged();
  }

  lemma {:induction false} UnmanagedRoutesNothing(files: Files)
    ensures Routed(Unmanaged(files)) == {}
  {}

  lemma {:induction false} WrittenIsRouted(users: Files, names: set<string>)
    requires Routed(users) == {}
    ensures Routed(WithContent(users, names)) == names
  {
    ContentRoutes();
    forall f | f in users && f !in names ensures !Routes(users[f]) {
      assert f !in Routed(users);
    }
  }

  /** And exactly those names are routed. */
  lemma {:induction false} AppliedIsRouted(dir: Directory, domains: seq<string>)
    ensures Routed(Applied(dir, domains).value) == FileNames(domains)
  {
    UnmanagedRoutesNothing(FilesIn(dir));
    WrittenIsRouted(Unmanaged(FilesIn(dir)), FileNames(domains));
  }

  // -------------------------------------------- what apply and revert do to each other

  /** Applying twice is applying once; reverting twice is reverting once. */
  lemma {:induction false} ApplyAndRevertAreIdempotent(dir: Directory, domains: seq<string>)
    ensures Applied(Applied(dir, domains), domains) == Applied(dir, domains)
    ensures Cleared(Cleared(dir)) == Cleared(dir)
  {
    var users, names := Unmanaged(FilesIn(dir)), FileNames(domains);
    UserFilesAfterApply(FilesIn(dir), domains);
    assert WithContent(Unmanaged(WithContent(users, names)), names) == WithContent(users, names);
    assert Unmanaged(users) == users;
  }

  /** What a second apply finds of the user's files once a first has run. */
  lemma {:induction false} UserFilesAfterApply(files: Files, earlier: seq<string>)
    ensures Unmanaged(WithContent(Unmanaged(files), FileNames(earlier))) ==
            map f | f in files && !Managed(files[f]) && f !in FileNames(earlier) :: files[f]
  {
    ContentIsManaged();
  }

  /** The earlier apply overwrote no file of the user that the later one leaves alone. */
  predicate Spares(files: Files, earlier: set<string>, later: set<string>) {
    forall f :: f in files && !Managed(files[f]) && f in earlier ==> f in later
  }

  lemma {:induction false} SameAfterLater(users: Files, fewer: Files, earlier: set<string>, later: set<string>)
    requires fewer == map f | f in users && f !in earlier :: users[f]
    ensures WithContent(fewer, later) == WithContent(users, later) <==>
            forall f :: f in users && f in earlier ==> f in later
  {}

  /** Applying forgets what was applied before it, if and only if the earlier apply overwrote no
      file of the user that the later one leaves alone. */
  lemma {:induction false} ApplyForgetsHistory(dir: Directory, earlier: seq<string>, later: seq<string>)
    ensures Applied(Applied(dir, earlier), later) == Applied(dir, later) <==>
            Spares(FilesIn(dir), FileNames(earlier), FileNames(later))
  {
    var files := FilesIn(dir);
    UserFilesAfterApply(files, earlier);
    var users, fewer := Unmanaged(files), Unmanaged(Applied(dir, earlier).value);
    assert fewer == map f | f in users && f !in FileNames(earlier) :: users[f];
    SameAfterLater(users, fewer, FileNames(earlier), FileNames(later));
    assert forall f :: f in users <==> f in files && !Managed(files[f]);
  }

  /** The user's own files, less those with the given names. */
  function Untouched(files: Files, names: set<string>): Files {
    map f | f in files && !Managed(files[f]) && f !in names :: files[f]
  }

  /** Nothing of the directory was lost and nothing added: it existed, held no managed file, and
      none of its files bore one of the names. */
  predicate Restorable(dir: Directory, names: set<string>) {
    dir.Some? && ManagedNames(dir.value) == {} && dir.value.Keys !! names
  }

  lemma {:induction false} UntouchedIsAllIff(dir: Directory, names: set<string>)
    ensures Some(Untouched(FilesIn(dir), names)) == dir <==> Restorable(dir, names)
  {
    var files := FilesIn(dir);
    var kept := Untouched(files, names);
    if Some(kept) == dir {
      forall f | f in files ensures f !in names && !Managed(files[f]) {
        assert f in kept;
      }
    }
    if Restorable(dir, names) {
      forall f | f in files ensures f in kept {
        assert f !in ManagedNames(files);
      }
      assert kept == files;
    }
  }

  /** "Everything reverts": stopping after an apply restores the directory exactly if and only if it
      existed, no managed file was there before, and no file of the user bore the name of a routed
      domain. */
  lemma {:induction false} RevertRestoresIff(dir: Directory, domains: seq<string>)
    ensures Cleared(Applied(dir, domains)) == dir <==> Restorable(dir, FileNames(domains))
  {
    UserFilesAfterApply(FilesIn(dir), domains);
    UntouchedIsAllIff(dir, FileNames(domains));
  }

  /** The README promises a machine exactly as it was; a user's own file for a routed domain is lost. */
  lemma {:induction false} RevertCanLoseAFile(name: string, content: string)
    requires !Managed(content) && DropStarDots(name) == name
    ensures name !in FilesIn(Cleared(Applied(Some(map[name := content]), [name])))
  {
    UserFilesAfterApply(map[name := content], [name]);
    assert [name][0] == name;
    assert name in FileNames([name]);
  }

  /** And where the directory did not exist, it does afterwards, whatever was routed. */
  lemma {:induction false} RevertLeavesADirectory(domains: seq<string>)
    ensures Cleared(Applied(None, domains)) == Some(map[])
  {
    UserFilesAfterApply(map[], domains);
  }

  // ------------------------------------------------------------------- stripped names

  /** The name without a leading `*.`. */
  function Bare(domain: string): string {
    if IsWildcardName(domain) then SuffixOf(domain) else domain
  }

  lemma {:induction false} StarFirst(name: string)
    requires IsWildcardName(name)
    ensures name[0] == '*'
  {}

  lemma {:induction false} NothingToDrop(name: string)
    requires forall i :: 0 <= i < |name| ==> name[i] != '*'
    ensures DropStarDots(name) == name
  {
    if name != "" {
      if HasPrefix(name, STAR_DOT) { StarFirst(name); }
      NothingToDrop(name[1..]);
    }
  }

  /** For an accepted domain, dropping every `*.` is stripping the leading one. */
  lemma {:induction false} DropStripsAccepted(domain: string)
    requires D.Validate(domain)
    ensures DropStarDots(domain) == Bare(domain)
  {
    var bare := Bare(domain);
    forall i | 0 <= i < |bare| ensures bare[i] != '*' {
      var j := if IsWildcardName(domain) then i + 2 else i;
      assert bare[i] == domain[j];
      if domain[j] == '*' { D.StarOnlyLeads(domain, j); }
    }
    NothingToDrop(bare);
  }

  // ------------------------------------------------------------------------ coverage

  function SystemdEntry(domain: string): string {
    if IsWildcardName(domain) then "~" + SuffixOf(domain) else "~" + domain + "."
  }

  /** The systemd entries in the order of the list. */
  function SystemdEntries(domains: seq<string>): (entries: seq<string>)
    ensures |entries| == |domains| && forall i :: 0 <= i < |domains| ==> entries[i] == SystemdEntry(domains[i])
  {
    seq(|domains|, i requires 0 <= i < |domains| => SystemdEntry(domains[i]))
  }

  /** A resolver file, and a routing domain, speaks for its name and everything below it. */
  predicate SpeaksFor(entry: string, name: string) {
    name == entry || EndsUnder(entry, name)
  }

  /** The name a systemd routing domain stands for: without the tilde and the root dot. */
  function RoutingName(entry: string): string
    requires |entry| >= 1
  {
    TrimDots(entry[1..])
  }

  lemma {:induction false} RoutingNameIsBare(domain: string)
    requires D.Validate(domain)
    ensures RoutingName(SystemdEntry(domain)) == Bare(domain)
  {
    AcceptedEndsInLetter(domain);
    var bare := Bare(domain);
    if IsWildcardName(domain) {
      D.StarIsNoLabel(domain);
      HostEndsInLetter(bare);
      assert SystemdEntry(domain)[1..] == bare;
    } else {
      assert SystemdEntry(domain)[1..] == bare + ".";
      TrimsAllDots(bare, 1);
      assert Dots(1) == Dots(0) + ".";
      assert bare + Dots(1) == bare + ".";
    }
  }

  /** Some resolver file written for the domains speaks for the name. */
  predicate MacCovers(domains: set<string>, name: string) {
    exists d :: d in domains && SpeaksFor(DropStarDots(d), name)
  }

  /** Some routing domain emitted for the domains speaks for the name. */
  predicate SystemdCovers(domains: set<string>, name: string) {
    exists d :: d in domains && SpeaksFor(RoutingName(SystemdEntry(d)), name)
  }

  lemma {:induction false} LookUpIffMatched(l: Layer, name: string)
    requires WellFormedLayer(l)
    ensures LookUp(l, name).Some? <==> exists d :: d in LayerDomains(l) && MatchesName(d, name)
  {
    FirstMatchIsFirst(l.wild, name);
    if name in l.exact {
      MatchesItself(name);
      assert l.exact[name].domain in LayerDomains(l);
    } else if FirstMatch(l.wild, name).Some? {
      var i :| 0 <= i < |l.wild| && l.wild[i].Matches(name);
      assert l.wild[i].domain in Domains(l.wild);
    }
    if d :| d in LayerDomains(l) && MatchesName(d, name) {
      if d in Domains(l.wild) {
        var i :| 0 <= i < |l.wild| && l.wild[i].domain == d;
      } else {
        var k :| k in l.exact && l.exact[k].domain == d;
        assert k == d == name;
      }
    }
  }

  lemma {:induction false} ResolvesIffMatched(s: Store, name: string)
    requires WellFormed(s)
    ensures Resolve(s, name).Some? <==> exists d :: d in StoreDomains(s) && MatchesName(d, name)
  {
    LookUpIffMatched(s.eph, name);
    LookUpIffMatched(s.per, name);
  }

  lemma {:induction false} SoundDomain(s: Store, d: string)
    requires Sound(s) && d in StoreDomains(s)
    ensures D.Validate(d)
  {}

  /** The bare name of a routed domain, or a name below an exact one: covered, though no rule matches. */
  predicate CoveredBeside(s: Store, name: string) {
    exists d :: d in StoreDomains(s) &&
      if IsWildcardName(d) then name == SuffixOf(d) else EndsUnder(d, name)
  }

  lemma {:induction false} SpeaksForBare(d: string, name: string)
    ensures SpeaksFor(Bare(d), name) <==>
            MatchesName(d, name) || (if IsWildcardName(d) then name == SuffixOf(d) else EndsUnder(d, name))
  {}

  /** Both platforms route every name the store resolves, and beyond those exactly the bare names of
      wildcards and the names below exact rules. */
  lemma {:induction false} PlatformsCover(s: Store, name: string)
    requires Sound(s)
    ensures Resolve(s, name).Some? ==> MacCovers(StoreDomains(s), name) && SystemdCovers(StoreDomains(s), name)
    ensures MacCovers(StoreDomains(s), name) <==> SystemdCovers(StoreDomains(s), name)
    ensures MacCovers(StoreDomains(s), name) <==> Resolve(s, name).Some? || CoveredBeside(s, name)
  {
    ResolvesIffMatched(s, name);
    forall d | d in StoreDomains(s)
      ensures DropStarDots(d) == Bare(d) && RoutingName(SystemdEntry(d)) == Bare(d)
    {
      SoundDomain(s, d);
      DropStripsAccepted(d);
      RoutingNameIsBare(d);
    }
    forall d | d in StoreDomains(s)
      ensures SpeaksFor(DropStarDots(d), name) <==>
              MatchesName(d, name) || (if IsWildcardName(d) then name == SuffixOf(d) else EndsUnder(d, name))
    {
      SpeaksForBare(d, name);
    }
  }
}
