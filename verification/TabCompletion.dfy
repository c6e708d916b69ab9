/** Tab completion of command names and paths. */
module TabCompletion {
  import opened Text

  // ----- the longest common prefix

  predicate PrefixOfAll(p: string, ss: seq<string>) {
    forall i :: 0 <= i < |ss| ==> p <= ss[i]
  }

  /** `p` is a common prefix and every common prefix is a prefix of it. */
  ghost predicate IsGreatestPrefix(p: string, ss: seq<string>) {
    PrefixOfAll(p, ss) && forall q :: PrefixOfAll(q, ss) ==> q <= p
  }

  method LongestCommonPrefix(ss: seq<string>) returns (p: string)
    ensures ss == [] ==> p == ""
    ensures ss != [] ==> IsGreatestPrefix(p, ss)
  {
    if |ss| == 0 {
      return "";
    }
    p := ss[0];
    var i := 1;
    while i < |ss|
      invariant 1 <= i <= |ss|
      invariant p <= ss[0]
      invariant forall k :: 0 <= k < i ==> p <= ss[k]
      invariant forall q :: PrefixOfAll(q, ss) ==> q <= p
    {
      ghost var before := p;
      while !(p <= ss[i])
        invariant p <= before && p <= ss[0]
        invariant forall q :: PrefixOfAll(q, ss) ==> q <= p
        decreases |p|
      {
        ghost var longer := p;
        forall q | PrefixOfAll(q, ss)
          ensures q <= p[..|p| - 1]
        {
          assert q <= ss[i] && q <= p;
          assert |q| == |p| ==> q == p;
          assert q == p[..|q|];
        }
        p := p[..|p| - 1];
        if p == "" {
          return "";
        }
      }
      forall k | 0 <= k < i
        ensures p <= ss[k]
      {
        PrefixTransitive(p, before, ss[k]);
      }
      i := i + 1;
    }
  }

  lemma GreatestPrefixUnique(p: string, q: string, ss: seq<string>)
    requires IsGreatestPrefix(p, ss) && IsGreatestPrefix(q, ss)
    ensures p == q
  {
    assert p <= q && q <= p;
  }

  /** The greatest common prefix as a function of the list. */
  function Common(ss: seq<string>): string
    requires ss != []
  {
    if |ss| == 1 then ss[0]
    else
      var p := Common(ss[..|ss| - 1]);
      p[..CommonPrefix(p, ss[|ss| - 1])]
  }

  lemma {:induction false} CommonIsGreatest(ss: seq<string>)
    requires ss != []
    ensures IsGreatestPrefix(Common(ss), ss)
    decreases |ss|
  {
    if |ss| > 1 {
      var front, last := ss[..|ss| - 1], ss[|ss| - 1];
      CommonIsGreatest(front);
      var p, c := Common(front), Common(ss);
      assert c <= p && c <= last;
      assert ss == front + [last];
      forall i | 0 <= i < |front|
        ensures c <= ss[i]
      {
        PrefixTransitive(c, p, front[i]);
      }
      forall q | PrefixOfAll(q, ss)
        ensures q <= c
      {
        assert PrefixOfAll(q, front) && q <= last;
        PrefixBound(q, p, last);
      }
    }
  }

  /** There is exactly one greatest common prefix. */
  lemma GreatestIffCommon(p: string, ss: seq<string>)
    requires ss != []
    ensures IsGreatestPrefix(p, ss) <==> p == Common(ss)
  {
    CommonIsGreatest(ss);
    if IsGreatestPrefix(p, ss) {
      GreatestPrefixUnique(p, Common(ss), ss);
    }
  }

  // ----- candidates

  function Matching(prefix: string, candidates: seq<string>): seq<string> {
    if candidates == [] then []
    else
      var c := candidates[|candidates| - 1];
      Matching(prefix, candidates[..|candidates| - 1]) + if prefix <= c then [c] else []
  }

  lemma {:induction false} MatchingMembers(prefix: string, candidates: seq<string>)
    ensures forall c :: c in Matching(prefix, candidates) <==> c in candidates && prefix <= c
  {
    if candidates != [] {
      MatchingMembers(prefix, candidates[..|candidates| - 1]);
      assert candidates == candidates[..|candidates| - 1] + [candidates[|candidates| - 1]];
    }
  }

  lemma {:induction false} MatchingSame(p: string, q: string, candidates: seq<string>)
    requires forall i :: 0 <= i < |candidates| ==> (p <= candidates[i] <==> q <= candidates[i])
    ensures Matching(p, candidates) == Matching(q, candidates)
  {
    if candidates != [] {
      MatchingSame(p, q, candidates[..|candidates| - 1]);
    }
  }

  /** Completing to the greatest common prefix of the matches keeps exactly the same matches. */
  lemma CompletionKeepsMatches(prefix: string, candidates: seq<string>, lcp: string)
    requires Matching(prefix, candidates) != []
    requires IsGreatestPrefix(lcp, Matching(prefix, candidates))
    ensures prefix <= lcp && Matching(lcp, candidates) == Matching(prefix, candidates)
  {
    var ms := Matching(prefix, candidates);
    MatchingMembers(prefix, candidates);
    assert forall i :: 0 <= i < |ms| ==> ms[i] in ms;
    assert PrefixOfAll(prefix, ms);
    forall i | 0 <= i < |candidates|
      ensures prefix <= candidates[i] <==> lcp <= candidates[i]
    {
      if prefix <= candidates[i] {
        assert candidates[i] in ms;
        var j :| 0 <= j < |ms| && ms[j] == candidates[i];
      }
      if lcp <= candidates[i] {
        PrefixTransitive(prefix, lcp, candidates[i]);
      }
    }
    MatchingSame(prefix, lcp, candidates);
  }

  // ----- command names

  datatype Completion = NoChange | Completed(line: string, pos: nat)

  method FindMatches(prefix: string, candidates: seq<string>) returns (matches: seq<string>)
    ensures matches == Matching(prefix, candidates)
  {
    matches := [];
    for i := 0 to |candidates|
      invariant matches == Matching(prefix, candidates[..i])
    {
      assert candidates[..i + 1][..i] == candidates[..i];
      if prefix <= candidates[i] {
        matches := matches + [candidates[i]];
      }
    }
    assert candidates[..|candidates|] == candidates;
  }

  method CompleteFirstWord(line: string, pos: nat, candidates: seq<string>) returns (r: Completion)
    requires pos <= |line|
    ensures r == NoChange || CompletesWord(line, pos, candidates, r)
    ensures r == NoChange <==>
            pos == 0 || ' ' in line[..pos] || Matching(line[..pos], candidates) == [] ||
            (|Matching(line[..pos], candidates)| > 1 &&
             IsGreatestPrefix(line[..pos], Matching(line[..pos], candidates)))
  {
    if pos == 0 || ' ' in line[..pos] {
      return NoChange;
    }
    var prefix, rest := line[..pos], line[pos..];
    var matches := FindMatches(prefix, candidates);
    hide Matching, IsGreatestPrefix;
    var completed := CompleteWord(prefix, candidates, matches);
    if completed == None {
      return NoChange;
    }
    Spliced("", completed.value, rest);
    assert "" + completed.value == completed.value;
    return Completed(completed.value + rest, |completed.value|);
  }

  /** What the word becomes: a single match with a space after it, or what several have in common when
      that is more than was typed. */
  method CompleteWord(prefix: string, ghost candidates: seq<string>, matches: seq<string>)
    returns (completed: Option<string>)
    requires matches == Matching(prefix, candidates)
    ensures completed.None? <==> matches == [] || (|matches| > 1 && IsGreatestPrefix(prefix, matches))
    ensures completed.Some? ==>
              prefix < completed.value &&
              (|matches| == 1 ==> completed.value == matches[0] + " ") &&
              (|matches| != 1 ==> IsGreatestPrefix(completed.value, matches))
  {
    if |matches| == 0 {
      return None;
    }
    hide Matching;
    var lcp := LongestCommonPrefix(matches);
    CompletionKeepsMatches(prefix, candidates, lcp);
    if |matches| == 1 {
      assert matches == [matches[0]];
      GreatestOfOne(lcp, matches[0]);
      return Some(lcp + " ");
    }
    if |lcp| <= |prefix| {
      assert lcp == prefix;
      return None;
    }
    if IsGreatestPrefix(prefix, matches) {
      GreatestPrefixUnique(prefix, lcp, matches);
    }
    return Some(lcp);
  }

  /** A completion keeps what was typed and what follows the cursor.  One match is completed whole and
      followed by a space; several are completed to what they have in common, which is more than was
      typed. */
  ghost predicate CompletesWord(line: string, pos: nat, candidates: seq<string>, r: Completion)
    requires pos <= |line|
  {
    var ms := Matching(line[..pos], candidates);
    && r.Completed? && pos < r.pos <= |r.line|
    && line[..pos] <= r.line[..r.pos] && r.line[r.pos..] == line[pos..]
    && (|ms| == 1 ==> r.line[..r.pos] == ms[0] + " ")
    && (|ms| != 1 ==> IsGreatestPrefix(r.line[..r.pos], ms))
  }

  lemma GreatestOfOne(p: string, s: string)
    requires IsGreatestPrefix(p, [s])
    ensures p == s
  {
    assert PrefixOfAll(s, [s]);
    assert [s][0] == s;
  }

  /** After an ambiguous completion the same candidates match, and completing again changes nothing. */
  lemma AmbiguousCompletionIsFixpoint(line: string, pos: nat, candidates: seq<string>, r: Completion)
    requires pos <= |line| && CompletesWord(line, pos, candidates, r)
    requires |Matching(line[..pos], candidates)| > 1
    ensures Matching(r.line[..r.pos], candidates) == Matching(line[..pos], candidates)
    ensures IsGreatestPrefix(r.line[..r.pos], Matching(r.line[..r.pos], candidates))
  {
    CompletionKeepsMatches(line[..pos], candidates, r.line[..r.pos]);
  }

  // ----- paths

  datatype DirEntry = DirEntry(name: string, isDir: bool) {
    /** Directories are offered with a slash. */
    function Shown(): string {
      if isDir then name + "/" else name
    }
  }

  /** Names without slashes, each once. */
  predicate IsListing(entries: seq<DirEntry>) {
    && (forall i :: 0 <= i < |entries| ==> entries[i].name != "" && '/' !in entries[i].name)
    && (forall i, j :: 0 <= i < j < |entries| ==> entries[i].name != entries[j].name)
  }

  /** Dotfiles are hidden unless a dot was typed. */
  predicate Offered(base: string, e: DirEntry) {
    !(!("." <= base) && "." <= e.name) && base <= e.name
  }

  function Offers(base: string, entries: seq<DirEntry>): seq<string> {
    if entries == [] then []
    else
      var e := entries[|entries| - 1];
      Offers(base, entries[..|entries| - 1]) + if Offered(base, e) then [e.Shown()] else []
  }

  function LastIndexOf(s: string, c: char): (r: int)
    ensures r == -1 || (0 <= r < |s| && s[r] == c)
    ensures forall j :: 0 <= j < |s| && j > r ==> s[j] != c
  {
    if s == "" then -1 else if s[|s| - 1] == c then |s| - 1 else LastIndexOf(s[..|s| - 1], c)
  }

  /** Where the token under the cursor starts. */
  function TokenStart(line: string, pos: nat): nat
    requires pos <= |line|
  {
    LastIndexOf(line[..pos], ' ') + 1
  }

  /** The directory part of a token, with its slash. */
  function DirPart(token: string): string {
    token[..LastIndexOf(token, '/') + 1]
  }

  function BasePart(token: string): string {
    token[LastIndexOf(token, '/') + 1..]
  }

  /** The directory to read: `~/` is the home, an absolute part stands for itself, a relative one is
      taken from the working directory.  None when that is unknown. */
  function DirOf(dir: string, cwd: string, home: string): Option<(string, string)> {
    if dir == "" then (if cwd == "" then None else Some((cwd, "")))
    else if "~/" <= dir then (if home == "" then None else Some((home, dir[2..])))
    else if "/" <= dir then Some((dir, ""))
    else if cwd == "" then None else Some((cwd, dir))
  }

  /** What `list` says of a directory given as a base and a path joined to it. */
  type Listing = (string, string) -> Option<seq<DirEntry>>

  method ListOffers(base: string, entries: seq<DirEntry>) returns (matches: seq<string>)
    ensures matches == Offers(base, entries)
  {
    matches := [];
    for i := 0 to |entries|
      invariant matches == Offers(base, entries[..i])
    {
      var e := entries[i];
      assert entries[..i + 1][..i] == entries[..i];
      if !("." <= base) && "." <= e.name {
        continue;
      }
      if !(base <= e.name) {
        continue;
      }
      var name := e.name;
      if e.isDir {
        name := name + "/";
      }
      matches := matches + [name];
    }
    assert entries[..|entries|] == entries;
  }

  /** What replaces the typed part: a single match whole, several as far as they agree. */
  ghost predicate Replaces(base: string, matches: seq<string>, completed: string) {
    && matches != []
    && (|matches| == 1 ==> completed == matches[0] + if EndsInSlash(matches[0]) then "" else " ")
    && (|matches| > 1 ==> IsGreatestPrefix(completed, matches) && |completed| > |base|)
  }

  /** Nothing is offered, or what is offered has no more in common than what was typed. */
  ghost predicate Stuck(base: string, matches: seq<string>) {
    matches == [] || (|matches| > 1 && IsGreatestPrefix(base, matches))
  }

  method CompletePart(base: string, matches: seq<string>) returns (completed: Option<string>)
    requires PrefixOfAll(base, matches)
    ensures completed.None? <==> Stuck(base, matches)
    ensures completed.Some? ==> Replaces(base, matches, completed.value)
  {
    if |matches| == 0 {
      return None;
    }
    if |matches| == 1 {
      return Some(matches[0] + if EndsInSlash(matches[0]) then "" else " ");
    }
    var lcp := LongestCommonPrefix(matches);
    if |lcp| <= |base| {
      assert lcp == base;
      return None;
    }
    if IsGreatestPrefix(base, matches) {
      GreatestPrefixUnique(base, lcp, matches);
    }
    return Some(lcp);
  }

  method CompletePath(line: string, pos: nat, cwd: string, home: string, list: Listing) returns (r: Completion)
    requires pos <= |line|
    ensures r == NoChange <==> Stuck(BasePart(Token(line, pos)), PathOffers(line, pos, cwd, home, list))
    ensures r != NoChange ==> CompletesPath(line, pos, cwd, home, list, r)
  {
    var tokenStart := TokenStart(line, pos);
    var token, rest := line[tokenStart..pos], line[pos..];
    var displayDir, base := DirPart(token), BasePart(token);
    hide TokenStart, DirPart, BasePart, DirOf, Offers;
    var fsDir := DirOf(displayDir, cwd, home);
    if fsDir == None {
      return NoChange;
    }
    var entries := list(fsDir.value.0, fsDir.value.1);
    if entries == None {
      return NoChange;
    }
    var matches := ListOffers(base, entries.value);
    OffersStartWithBase(base, entries.value);
    assert matches == PathOffers(line, pos, cwd, home, list);
    hide PathOffers, PrefixOfAll, Replaces;
    var completed := CompletePart(base, matches);
    if completed == None {
      return NoChange;
    }
    var newLine := line[..tokenStart] + displayDir + completed.value;
    Spliced(Kept(line, pos), completed.value, rest);
    return Completed(newLine + rest, |newLine|);
  }

  lemma Spliced(kept: string, part: string, rest: string)
    ensures var s, p := kept + part + rest, |kept + part|;
            s[..|kept|] == kept && s[|kept|..p] == part && s[p..] == rest
  {
  }

  predicate EndsInSlash(s: string) {
    s != "" && s[|s| - 1] == '/'
  }

  /** The token under the cursor and what may complete its last part. */
  function Token(line: string, pos: nat): string
    requires pos <= |line|
  {
    line[TokenStart(line, pos)..pos]
  }

  function PathOffers(line: string, pos: nat, cwd: string, home: string, list: Listing): seq<string>
    requires pos <= |line|
  {
    match DirOf(DirPart(Token(line, pos)), cwd, home)
    case None => []
    case Some(dir) =>
      match list(dir.0, dir.1)
      case None => []
      case Some(entries) => Offers(BasePart(Token(line, pos)), entries)
  }

  /** The line up to the part being completed. */
  function Kept(line: string, pos: nat): string
    requires pos <= |line|
  {
    line[..TokenStart(line, pos)] + DirPart(Token(line, pos))
  }

  /** What is offered: the entries that start with what was typed, dotfiles only when a dot was typed,
      directories with a slash. */
  lemma {:induction false} OffersIff(base: string, entries: seq<DirEntry>, s: string)
    ensures s in Offers(base, entries) <==>
            exists e :: e in entries && base <= e.name &&
                        (e.name != "" && e.name[0] == '.' ==> base != "" && base[0] == '.') &&
                        s == if e.isDir then e.name + "/" else e.name
  {
    if entries != [] {
      var front, last := entries[..|entries| - 1], entries[|entries| - 1];
      OffersIff(base, front, s);
      assert entries == front + [last];
      StartsWithDot(base);
      StartsWithDot(last.name);
    }
  }

  lemma LastIs(s: string, c: char, i: nat)
    requires i < |s| && s[i] == c && forall j :: i < j < |s| ==> s[j] != c
    ensures LastIndexOf(s, c) == i
  {
    hide LastIndexOf;
  }

  lemma TokenAt(before: string, token: string, rest: string)
    requires before == "" || before[|before| - 1] == ' '
    requires ' ' !in token
    ensures TokenStart(before + token + rest, |before + token|) == |before|
    ensures Token(before + token + rest, |before + token|) == token
  {
    hide LastIndexOf;
    var s := before + token;
    assert (s + rest)[..|s|] == s;
    LastBefore(before, token, ' ');
    assert s[|before|..] == token;
  }

  lemma LastBefore(before: string, token: string, c: char)
    requires c !in token && (before == "" || before[|before| - 1] == c)
    ensures LastIndexOf(before + token, c) == |before| - 1
  {
    hide LastIndexOf;
    var s := before + token;
    assert forall j :: |before| <= j < |s| ==> s[j] == token[j - |before|];
    if before != "" {
      LastIs(s, c, |before| - 1);
    }
  }

  /** A directory as it may be typed before the last part: nothing, or something that ends in a slash. */
  predicate IsDirText(dir: string) {
    dir == "" || dir[|dir| - 1] == '/'
  }

  lemma PartsOf(dir: string, base: string)
    requires IsDirText(dir) && '/' !in base
    ensures DirPart(dir + base) == dir && BasePart(dir + base) == base
  {
    hide LastIndexOf;
    var s := dir + base;
    LastBefore(dir, base, '/');
    assert s[..|dir|] == dir && s[|dir|..] == base;
  }

  /** Names from a listing, when there is one. */
  function Listed(base: string, listing: Option<seq<DirEntry>>): seq<string> {
    if listing.None? then [] else Offers(base, listing.value)
  }

  /** Which directory is read for the token under the cursor: the home for `~/`, the root for `/`, and
      otherwise the working directory; a home or working directory that is not known offers nothing. */
  lemma TokensAreLookedUp(before: string, sub: string, base: string, rest: string,
                          cwd: string, home: string, list: Listing)
    requires before == "" || before[|before| - 1] == ' '
    requires ' ' !in sub && ' ' !in base && '/' !in base && IsDirText(sub)
    ensures var token := "~/" + sub + base;
            PathOffers(before + token + rest, |before + token|, cwd, home, list) ==
              if home == "" then [] else Listed(base, list(home, sub))
    ensures var token := "/" + sub + base;
            PathOffers(before + token + rest, |before + token|, cwd, home, list) == Listed(base, list("/" + sub, ""))
    ensures sub == "" || (sub[0] != '~' && sub[0] != '/') ==>
              var token := sub + base;
              PathOffers(before + token + rest, |before + token|, cwd, home, list) ==
                if cwd == "" then [] else Listed(base, list(cwd, sub))
  {
    hide TokenStart, Token, DirPart, BasePart, Offers;
    LookedUp(before, "~/" + sub, base, rest, cwd, home, list);
    assert ("~/" + sub)[2..] == sub;
    assert ("/" + sub)[0] == '/';
    LookedUp(before, "/" + sub, base, rest, cwd, home, list);
    LookedUp(before, sub, base, rest, cwd, home, list);
  }

  lemma LookedUp(before: string, dir: string, base: string, rest: string, cwd: string, home: string, list: Listing)
    requires before == "" || before[|before| - 1] == ' '
    requires ' ' !in dir && ' ' !in base && '/' !in base && IsDirText(dir)
    ensures var token := dir + base;
            PathOffers(before + token + rest, |before + token|, cwd, home, list) ==
              match DirOf(dir, cwd, home)
              case None => []
              case Some(at) => Listed(base, list(at.0, at.1))
  {
    TokenAt(before, dir + base, rest);
    PartsOf(dir, base);
    hide TokenStart, Token, DirPart, BasePart, Offers, DirOf;
  }

  /** A path completion keeps the line up to the part being completed and everything after the cursor,
      and replaces that part.  One match is completed whole, with a space after a file; several are
      completed to what they have in common. */
  ghost predicate CompletesPath(line: string, pos: nat, cwd: string, home: string, list: Listing, r: Completion)
    requires pos <= |line|
  {
    var kept := Kept(line, pos);
    && r.Completed? && |kept| <= r.pos <= |r.line|
    && r.line[..|kept|] == kept && r.line[r.pos..] == line[pos..]
    && Replaces(BasePart(Token(line, pos)), PathOffers(line, pos, cwd, home, list), r.line[|kept|..r.pos])
  }

  lemma {:induction false} OffersStartWithBase(base: string, entries: seq<DirEntry>)
    ensures PrefixOfAll(base, Offers(base, entries))
  {
    if entries != [] {
      OffersStartWithBase(base, entries[..|entries| - 1]);
      var e := entries[|entries| - 1];
      if Offered(base, e) {
        PrefixTransitive(base, e.name, e.Shown());
      }
    }
  }

  // ----- repeating a path completion

  /** Two offers come from two entries. */
  lemma {:induction false} OffersComeFromEntries(base: string, entries: seq<DirEntry>, i: nat, j: nat)
    returns (a: nat, b: nat)
    requires i < j < |Offers(base, entries)|
    ensures a < b < |entries| && Offered(base, entries[a]) && Offered(base, entries[b])
    ensures Offers(base, entries)[i] == entries[a].Shown() && Offers(base, entries)[j] == entries[b].Shown()
  {
    var front := entries[..|entries| - 1];
    var before := Offers(base, front);
    if j < |before| {
      a, b := OffersComeFromEntries(base, front, i, j);
    } else {
      a := OfferComesFromEntry(base, front, i);
      b := |entries| - 1;
    }
  }

  lemma {:induction false} OfferComesFromEntry(base: string, entries: seq<DirEntry>, i: nat) returns (a: nat)
    requires i < |Offers(base, entries)|
    ensures a < |entries| && Offered(base, entries[a]) && Offers(base, entries)[i] == entries[a].Shown()
  {
    var front := entries[..|entries| - 1];
    if i < |Offers(base, front)| {
      a := OfferComesFromEntry(base, front, i);
    } else {
      a := |entries| - 1;
    }
  }

  lemma {:induction false} OfferedIsIn(base: string, entries: seq<DirEntry>, a: nat)
    requires a < |entries| && Offered(base, entries[a])
    ensures entries[a].Shown() in Offers(base, entries)
  {
    if a < |entries| - 1 {
      OfferedIsIn(base, entries[..|entries| - 1], a);
    }
  }

  /** A prefix of a shown name is a prefix of the name or the name with its slash. */
  lemma PrefixOfShown(p: string, e: DirEntry)
    requires p <= e.Shown()
    ensures p <= e.name || p == e.name + "/"
  {
    if |p| <= |e.name| {
      assert p == e.Shown()[..|p|] == e.name[..|p|];
    }
  }

  lemma SlashInjective()
    ensures forall x: string, y: string {:trigger x + "/", y + "/"} :: x + "/" == y + "/" ==> x == y
  {
    forall x: string, y: string | x + "/" == y + "/"
      ensures x == y
    {
      assert |x + "/"| == |y + "/"|;
      assert x == (x + "/")[..|x|] == (y + "/")[..|y|];
    }
  }

  /** What several offers have in common holds no slash. */
  lemma CommonPartHasNoSlash(base: string, entries: seq<DirEntry>, lcp: string)
    requires IsListing(entries) && |Offers(base, entries)| > 1 && PrefixOfAll(lcp, Offers(base, entries))
    ensures '/' !in lcp
  {
    var a, b := OffersComeFromEntries(base, entries, 0, 1);
    PrefixOfShown(lcp, entries[a]);
    PrefixOfShown(lcp, entries[b]);
    PrefixChars(lcp, entries[a].name);
    PrefixChars(lcp, entries[b].name);
    SlashInjective();
    EndsWithSlash(entries[a].name);
    EndsWithSlash(entries[b].name);
  }

  lemma EndsWithSlash(name: string)
    ensures '/' in name + "/"
  {
    assert (name + "/")[|name|] == '/';
  }

  lemma StartsWithDot(s: string)
    ensures "." <= s <==> s != "" && s[0] == '.'
  {
  }

  /** A dot starts the common part exactly when it was typed. */
  lemma DotAlike(base: string, entries: seq<DirEntry>, lcp: string)
    requires IsListing(entries) && Offers(base, entries) != []
    requires PrefixOfAll(lcp, Offers(base, entries)) && base <= lcp && lcp != ""
    ensures "." <= base <==> "." <= lcp
  {
    var a := OfferComesFromEntry(base, entries, 0);
    assert lcp[0] == entries[a].Shown()[0] == entries[a].name[0];
    assert base != "" ==> base[0] == lcp[0];
    StartsWithDot(base);
    StartsWithDot(lcp);
    StartsWithDot(entries[a].name);
  }

  /** The entries offered for the common part are those offered for what was typed. */
  lemma OfferedAlike(base: string, entries: seq<DirEntry>, lcp: string, k: nat)
    requires IsListing(entries) && k < |entries| && Offers(base, entries) != []
    requires PrefixOfAll(lcp, Offers(base, entries)) && base <= lcp && lcp != "" && '/' !in lcp
    ensures Offered(base, entries[k]) <==> Offered(lcp, entries[k])
  {
    var e := entries[k];
    DotAlike(base, entries, lcp);
    if Offered(base, e) {
      OfferedIsIn(base, entries, k);
      var i :| 0 <= i < |Offers(base, entries)| && Offers(base, entries)[i] == e.Shown();
      PrefixOfShown(lcp, e);
      EndsWithSlash(e.name);
    }
    if Offered(lcp, e) {
      PrefixTransitive(base, lcp, e.name);
    }
  }

  lemma {:induction false} OffersAlike(base: string, lcp: string, entries: seq<DirEntry>)
    requires forall k :: 0 <= k < |entries| ==> (Offered(base, entries[k]) <==> Offered(lcp, entries[k]))
    ensures Offers(base, entries) == Offers(lcp, entries)
  {
    if entries != [] {
      OffersAlike(base, lcp, entries[..|entries| - 1]);
    }
  }

  lemma CompletedPartKeepsOffers(base: string, entries: seq<DirEntry>, lcp: string)
    requires IsListing(entries) && |Offers(base, entries)| > 1
    requires PrefixOfAll(lcp, Offers(base, entries)) && base <= lcp && |lcp| > |base|
    ensures '/' !in lcp && Offers(lcp, entries) == Offers(base, entries)
  {
    CommonPartHasNoSlash(base, entries, lcp);
    forall k | 0 <= k < |entries|
      ensures Offered(base, entries[k]) <==> Offered(lcp, entries[k])
    {
      OfferedAlike(base, entries, lcp, k);
    }
    OffersAlike(base, lcp, entries);
  }

  lemma LastIndexIs(s: string, c: char, i: int)
    requires -1 <= i < |s| && (i >= 0 ==> s[i] == c) && forall j :: i < j < |s| ==> s[j] != c
    ensures LastIndexOf(s, c) == i
  {
  }

  /** The cursor stays in the same token exactly when the completed part holds no space. */
  lemma SameTokenIffNoSpace(line: string, pos: nat, line': string, pos': nat, part: string)
    requires pos <= |line| && pos' <= |line'| && line'[..pos'] == Kept(line, pos) + part
    ensures TokenStart(line', pos') == TokenStart(line, pos) <==> ' ' !in part
  {
    hide LastIndexOf;
    var ts, kept := TokenStart(line, pos), Kept(line, pos);
    var s := kept + part;
    var token := Token(line, pos);
    assert forall j :: 0 <= j < |token| ==> token[j] == line[..pos][ts + j];
    assert forall j :: ts <= j < |kept| ==> kept[j] == token[j - ts] != ' ';
    if ' ' in part {
      var k :| 0 <= k < |part| && part[k] == ' ';
      assert s[|kept| + k] == ' ';
    } else {
      assert ts > 0 ==> s[ts - 1] == line[..pos][ts - 1] == ' ';
      assert forall j :: |kept| <= j < |s| ==> s[j] == part[j - |kept|];
      LastIndexIs(s, ' ', ts - 1);
    }
  }

  lemma PartsOfToken(dir: string, token: string, part: string)
    requires dir == DirPart(token) && '/' !in part
    ensures DirPart(dir + part) == dir && BasePart(dir + part) == part
  {
    var i := LastIndexOf(token, '/');
    var s := dir + part;
    assert i >= 0 ==> s[i] == token[i] == '/';
    assert forall j :: i < j < |s| ==> s[j] == part[j - |dir|];
    LastIndexIs(s, '/', i);
  }

  /** In the same token, the completed part takes the place of the base. */
  lemma TokenAfter(line: string, pos: nat, line': string, pos': nat, part: string)
    requires pos <= |line| && pos' <= |line'| && line'[..pos'] == Kept(line, pos) + part
    requires TokenStart(line', pos') == TokenStart(line, pos) && '/' !in part
    ensures DirPart(Token(line', pos')) == DirPart(Token(line, pos)) && BasePart(Token(line', pos')) == part
  {
    hide LastIndexOf;
    var ts, dir := TokenStart(line, pos), DirPart(Token(line, pos));
    PartsOfToken(dir, Token(line, pos), part);
    hide DirPart, BasePart;
    assert Token(line', pos') == line'[..pos'][ts..];
    assert line[..ts] + dir + part == line[..ts] + (dir + part);
  }

  /** What follows the last space. */
  function Tail(part: string): string {
    part[LastIndexOf(part, ' ') + 1..]
  }

  /** With a space in the completed part, what follows the space is a token of its own. */
  lemma NewTokenAfter(line: string, pos: nat, line': string, pos': nat, part: string)
    requires pos <= |line| && pos' <= |line'| && line'[..pos'] == Kept(line, pos) + part
    requires ' ' in part && '/' !in part
    ensures DirPart(Token(line', pos')) == "" && BasePart(Token(line', pos')) == Tail(part)
  {
    hide LastIndexOf;
    var kept, k := Kept(line, pos), LastIndexOf(part, ' ');
    var s := kept + part;
    assert k >= 0 && s[|kept| + k] == ' ';
    assert forall j :: |kept| + k < j < |s| ==> s[j] == part[j - |kept|];
    LastIndexIs(s, ' ', |kept| + k);
    assert Token(line', pos') == s[|kept| + k + 1..] == Tail(part);
    assert forall j :: 0 <= j < |Tail(part)| ==> Tail(part)[j] == part[k + 1 + j];
    LastIndexIs(Tail(part), '/', -1);
  }

  /** What the working directory offers for a name without a directory part. */
  function CwdOffers(base: string, cwd: string, list: Listing): seq<string> {
    if cwd == "" then []
    else
      match list(cwd, "")
      case None => []
      case Some(entries) => Offers(base, entries)
  }

  /** All names agree up to some space. */
  predicate ShareASpace(names: seq<string>)
    requires names != []
  {
    exists k :: 0 <= k < |names[0]| && names[0][k] == ' ' && PrefixOfAll(names[0][..k + 1], names)
  }

  lemma SpaceInCommon(names: seq<string>)
    requires names != []
    ensures ' ' in Common(names) <==> ShareASpace(names)
  {
    CommonIsGreatest(names);
    hide Common;
    var p, first := Common(names), names[0];
    assert p <= first;
    if ' ' in p {
      var k :| 0 <= k < |p| && p[k] == ' ';
      assert first[k] == first[..|p|][k] == p[k];
      forall i | 0 <= i < |names|
        ensures first[..k + 1] <= names[i]
      {
        assert first[..k + 1] == p[..k + 1] == names[i][..|p|][..k + 1] == names[i][..k + 1];
      }
    }
    if k :| 0 <= k < |first| && first[k] == ' ' && PrefixOfAll(first[..k + 1], names) {
      assert first[..k + 1] <= p;
      assert p[k] == p[..k + 1][k] == first[..k + 1][k] == ' ';
    }
  }

  /** Nothing more to complete, as a caller can test it. */
  predicate NothingMore(base: string, matches: seq<string>) {
    matches == [] || (|matches| > 1 && Common(matches) == base)
  }

  lemma StuckIffNothingMore(base: string, matches: seq<string>)
    ensures Stuck(base, matches) <==> NothingMore(base, matches)
  {
    if matches != [] {
      GreatestIffCommon(base, matches);
    }
  }

  /** Whether an ambiguous completion of these offers settles: what they have in common holds no space,
      or what follows its last space cannot be completed in the working directory. */
  predicate SettlesAtOnce(offers: seq<string>, cwd: string, list: Listing)
    requires offers != []
  {
    !ShareASpace(offers) || NothingMore(Tail(Common(offers)), CwdOffers(Tail(Common(offers)), cwd, list))
  }

  /** The part an ambiguous completion puts in: what the offers have in common, and it offers the same. */
  lemma AmbiguousPart(line: string, pos: nat, cwd: string, home: string, list: Listing, r: Completion)
    requires pos <= |line| && CompletesPath(line, pos, cwd, home, list, r)
    requires |PathOffers(line, pos, cwd, home, list)| > 1
    requires var dir := DirOf(DirPart(Token(line, pos)), cwd, home); IsListing(list(dir.value.0, dir.value.1).value)
    ensures var offers := PathOffers(line, pos, cwd, home, list);
            var part := Common(offers);
            var dir := DirOf(DirPart(Token(line, pos)), cwd, home).value;
            r.line[..r.pos] == Kept(line, pos) + part && '/' !in part &&
            Offers(part, list(dir.0, dir.1).value) == offers
  {
    var kept, base := Kept(line, pos), BasePart(Token(line, pos));
    var part := r.line[|kept|..r.pos];
    var offers := PathOffers(line, pos, cwd, home, list);
    var dir := DirOf(DirPart(Token(line, pos)), cwd, home).value;
    var entries := list(dir.0, dir.1).value;
    assert r.line[..r.pos] == kept + part;
    hide Kept, Token, DirPart, BasePart, TokenStart, DirOf, Offers, IsListing, LastIndexOf;
    OffersStartWithBase(base, entries);
    assert base <= part && PrefixOfAll(part, offers);
    hide PrefixOfAll;
    GreatestIffCommon(part, offers);
    hide IsGreatestPrefix, Common;
    CompletedPartKeepsOffers(base, entries, part);
  }

  lemma OffersInCwd(line: string, pos: nat, cwd: string, home: string, list: Listing)
    requires pos <= |line| && DirPart(Token(line, pos)) == ""
    ensures PathOffers(line, pos, cwd, home, list) == CwdOffers(BasePart(Token(line, pos)), cwd, list)
  {
    hide Token, DirPart, BasePart, Offers;
  }

  /** What is offered once `part` is in place. */
  lemma OffersAgain(line: string, pos: nat, cwd: string, home: string, list: Listing,
                    line': string, pos': nat, part: string)
    requires pos <= |line| && pos' <= |line'| && line'[..pos'] == Kept(line, pos) + part && '/' !in part
    requires var dir := DirOf(DirPart(Token(line, pos)), cwd, home); dir.Some? && list(dir.value.0, dir.value.1).Some?
    ensures TokenStart(line', pos') == TokenStart(line, pos) <==> ' ' !in part
    ensures var dir := DirOf(DirPart(Token(line, pos)), cwd, home).value;
            BasePart(Token(line', pos')) == (if ' ' in part then Tail(part) else part) &&
            PathOffers(line', pos', cwd, home, list) ==
              if ' ' in part then CwdOffers(Tail(part), cwd, list) else Offers(part, list(dir.0, dir.1).value)
  {
    hide LastIndexOf, TokenStart, DirPart, BasePart, Offers, Kept, Token, Tail, DirOf;
    SameTokenIffNoSpace(line, pos, line', pos', part);
    if ' ' in part {
      NewTokenAfter(line, pos, line', pos', part);
      OffersInCwd(line', pos', cwd, home, list);
    } else {
      TokenAfter(line, pos, line', pos', part);
    }
  }

  /** After an ambiguous path completion.  Everything is decided by what was offered before it: the
      cursor stays in its token exactly when the offers share no space; the same names are offered again
      exactly then, or when the working directory happens to offer them for what follows the space; and
      completing again changes nothing exactly when the offers settle. */
  lemma AmbiguousPathIsFixpoint(line: string, pos: nat, cwd: string, home: string, list: Listing, r: Completion)
    requires pos <= |line| && CompletesPath(line, pos, cwd, home, list, r)
    requires |PathOffers(line, pos, cwd, home, list)| > 1
    requires var dir := DirOf(DirPart(Token(line, pos)), cwd, home); IsListing(list(dir.value.0, dir.value.1).value)
    ensures var offers, again := PathOffers(line, pos, cwd, home, list), PathOffers(r.line, r.pos, cwd, home, list);
            (TokenStart(r.line, r.pos) == TokenStart(line, pos) <==> !ShareASpace(offers)) &&
            (again == offers <==>
               !ShareASpace(offers) || CwdOffers(Tail(Common(offers)), cwd, list) == offers) &&
            (Stuck(BasePart(Token(r.line, r.pos)), again) <==> SettlesAtOnce(offers, cwd, list))
  {
    var offers := PathOffers(line, pos, cwd, home, list);
    AmbiguousPart(line, pos, cwd, home, list, r);
    SpaceInCommon(offers);
    StuckIffNothingMore(BasePart(Token(r.line, r.pos)), PathOffers(r.line, r.pos, cwd, home, list));
    hide CompletesPath, Offers, IsListing, Kept, Token, TokenStart, DirPart, BasePart, Common, Tail, ShareASpace, Stuck,
         CwdOffers, DirOf;
    OffersAgain(line, pos, cwd, home, list, r.line, r.pos, Common(offers));
  }

  const TWO_NAMES: seq<DirEntry> := [DirEntry("a a1", false), DirEntry("a a2", false)]

  lemma TwoNamesOffered()
    ensures Offers("a", TWO_NAMES) == ["a a1", "a a2"]
    ensures IsGreatestPrefix("a a", ["a a1", "a a2"])
  {
    var e, f := TWO_NAMES[0], TWO_NAMES[1];
    StartsWithDot("a");
    StartsWithDot(e.name);
    StartsWithDot(f.name);
    assert TWO_NAMES[..1] == [e];
    assert [e][..0] == [];
    forall q | PrefixOfAll(q, ["a a1", "a a2"])
      ensures q <= "a a"
    {
      assert q <= ["a a1", "a a2"][0] && q <= ["a a1", "a a2"][1];
      PrefixBound(q, "a a1", "a a2");
      CommonPrefixIs("a a1", "a a2", 3);
    }
  }

  /** With `a a1` and `a a2` in the working directory, completing any line at a token `a` inserts ` a`, and
      the cursor is at a token `a` again: every further completion lengthens the line. */
  lemma RepeatedCompletionGrows(line: string, pos: nat)
    requires pos <= |line| && Token(line, pos) == "a"
    ensures var list: Listing := (_, _) => Some(TWO_NAMES);
            var r := Completed(line[..pos] + " a" + line[pos..], pos + 2);
            PathOffers(line, pos, "/d", "", list) == ["a a1", "a a2"] &&
            CompletesPath(line, pos, "/d", "", list, r) &&
            Token(r.line, r.pos) == "a" &&
            PathOffers(r.line, r.pos, "/d", "", list) == ["a a1", "a a2"] &&
            !Stuck(BasePart(Token(r.line, r.pos)), PathOffers(r.line, r.pos, "/d", "", list))
  {
    TwoNamesOffered();
    hide LastIndexOf, Offers, IsGreatestPrefix;
    var offers, kept := ["a a1", "a a2"], line[..pos - 1];
    LastIndexIs("a", '/', -1);
    assert line[..pos] == kept + "a" && TokenStart(line, pos) == pos - 1;
    assert Kept(line, pos) == kept;
    var r := Completed(line[..pos] + " a" + line[pos..], pos + 2);
    assert r.line == kept + "a a" + line[pos..];
    Spliced(kept, "a a", line[pos..]);
    var s := r.line[..r.pos];
    assert s == kept + "a a";
    LastIndexIs(s, ' ', pos);
    assert Token(r.line, r.pos) == s[pos + 1..] == "a";
    if IsGreatestPrefix("a", offers) {
      GreatestPrefixUnique("a", "a a", offers);
    }
  }
}
