/** The admin rule filter: segments of a command line, token-prefix matching, and the precedence
    deny > allow > minimum interval > none. */
module Rules {
  import opened Text

  datatype Rules = Rules(denyCommands: seq<string>, allowCommands: seq<string>, minSecondsBetween: int,
                         denyCountries: seq<string>, allowCountries: seq<string>)

  datatype Outcome = RuleNone | RuleAllow | RuleChallengeSoft | RuleChallengeHard

  // ----- splitting a line into segments

  predicate IsOperator(c: char) {
    c == '&' || c == '|' || c == ';'
  }

  /** The characters that separate commands are `;`, `&` and `|`, and no others. */
  predicate AllOperators(s: string) {
    forall i :: 0 <= i < |s| ==> s[i] in ";&|"
  }

  /** A segment, unless it is blank. */
  function Trimmed(piece: string): seq<string> {
    if TrimSpace(piece) == "" then [] else [TrimSpace(piece)]
  }

  /** The plain split: the pieces between single operator characters.  It yields an empty piece
      between the two characters of `&&` and `||`. */
  datatype Pieces = Pieces(done: seq<string>, cur: string) {
    function Feed(c: char): Pieces {
      if IsOperator(c) then Pieces(done + Trimmed(cur), "") else Pieces(done, cur + [c])
    }
  }

  function Split(line: string): Pieces {
    if line == "" then Pieces([], "") else Split(line[..|line| - 1]).Feed(line[|line| - 1])
  }

  /** The segments of a line: the trimmed, non-blank pieces. */
  function Segments(line: string): seq<string> {
    Split(line).done + Trimmed(Split(line).cur)
  }

  lemma SplitNext(line: string, i: nat)
    requires i < |line|
    ensures Split(line[..i + 1]) == Split(line[..i]).Feed(line[i])
  {
    assert line[..i + 1][..i] == line[..i];
  }

  lemma NothingTrimmed()
    ensures Trimmed("") == []
  {
    assert TrimSpace("") == "";
  }

  /** The scanner with look-ahead: a doubled `&` or `|` counts as one operator. */
  method SplitSegments(line: string) returns (segs: seq<string>)
    ensures segs == Segments(line)
  {
    segs := [];
    var cur := "";
    var i := 0;
    NothingTrimmed();
    hide Trimmed;
    while i < |line|
      invariant i <= |line|
      invariant Split(line[..i]) == Pieces(segs, cur)
    {
      hide Split;
      var c := line[i];
      SplitNext(line, i);
      if c == '&' || c == '|' {
        segs, cur := segs + Trimmed(cur), "";
        if i + 1 < |line| && line[i + 1] == c {
          i := i + 1;
          SplitNext(line, i);
          assert segs + [] == segs;
        }
      } else if c == ';' {
        segs, cur := segs + Trimmed(cur), "";
      } else {
        cur := cur + [c];
      }
      i := i + 1;
    }
    assert line[..i] == line;
    segs := segs + Trimmed(cur);
  }

  // ----- matching

  method TokenPrefixMatch(entries: seq<string>, line: string) returns (found: bool)
    ensures found == MatchesAny(entries, Fields(line))
    ensures found <==> exists k :: 0 <= k < |entries| && Fields(entries[k]) != [] &&
                                   |Fields(entries[k])| <= |Fields(line)| &&
                                   Fields(line)[..|Fields(entries[k])|] == Fields(entries[k])
  {
    var lineTok := Fields(line);
    for j := 0 to |entries|
      invariant forall k :: 0 <= k < j ==> !MatchesEntry(entries[k], lineTok)
    {
      var et := Fields(entries[j]);
      if |et| == 0 || |et| > |lineTok| {
        continue;
      }
      var matched := true;
      var i := 0;
      while i < |et|
        invariant i <= |et| && matched && et[..i] == lineTok[..i]
      {
        if lineTok[i] != et[i] {
          matched := false;
          break;
        }
        i := i + 1;
      }
      if matched {
        assert et[..|et|] == et;
        return true;
      }
      assert et[i] != lineTok[i];
    }
    return false;
  }

  /** An entry matches when its words, at least one, start the command's words. */
  predicate MatchesEntry(entry: string, tokens: seq<string>) {
    Fields(entry) != [] && Fields(entry) <= tokens
  }

  predicate MatchesAny(entries: seq<string>, tokens: seq<string>) {
    exists k :: 0 <= k < |entries| && MatchesEntry(entries[k], tokens)
  }

  /** A construct that can hide another command. */
  predicate HasShellExpansion(seg: string) {
    Contains(seg, "$(") || Contains(seg, "`") || Contains(seg, "${") ||
    (Fields(seg) != [] && Fields(seg)[0] == "eval")
  }

  // ----- the verdict

  predicate Denied(r: Rules, seg: string) {
    MatchesAny(r.denyCommands, Fields(seg))
  }

  predicate Allowed(r: Rules, seg: string) {
    MatchesAny(r.allowCommands, Fields(seg)) && !HasShellExpansion(seg)
  }

  predicate AnyDenied(r: Rules, segs: seq<string>) {
    exists i :: 0 <= i < |segs| && Denied(r, segs[i])
  }

  predicate AllAllowed(r: Rules, segs: seq<string>) {
    forall i :: 0 <= i < |segs| ==> Allowed(r, segs[i])
  }

  function Verdict(r: Rules, segs: seq<string>, country: string, secs: int): Outcome {
    if AnyDenied(r, segs) || country in r.denyCountries then RuleChallengeHard
    else if country in r.allowCountries then RuleAllow
    else if segs != [] && AllAllowed(r, segs) then RuleAllow
    else if r.minSecondsBetween > 0 && secs < r.minSecondsBetween then RuleChallengeSoft
    else RuleNone
  }

  function CheckOf(r: Rules, line: string, country: string, secs: int): Outcome {
    Verdict(r, Segments(line), country, secs)
  }

  method Check(r: Rules, line: string, country: string, secs: int) returns (o: Outcome)
    ensures o == CheckOf(r, line, country, secs)
  {
    var segs := SplitSegments(line);
    for i := 0 to |segs|
      invariant forall k :: 0 <= k < i ==> !Denied(r, segs[k])
    {
      var denied := TokenPrefixMatch(r.denyCommands, segs[i]);
      if denied {
        return RuleChallengeHard;
      }
    }
    if country in r.denyCountries {
      return RuleChallengeHard;
    }
    if country in r.allowCountries {
      return RuleAllow;
    }
    if |r.allowCommands| > 0 && |segs| > 0 {
      var allAllowed := true;
      var i := 0;
      while i < |segs|
        invariant i <= |segs| && allAllowed
        invariant forall k :: 0 <= k < i ==> Allowed(r, segs[k])
      {
        var allowed := TokenPrefixMatch(r.allowCommands, segs[i]);
        if !allowed || HasShellExpansion(segs[i]) {
          allAllowed := false;
          break;
        }
        i := i + 1;
      }
      if allAllowed {
        return RuleAllow;
      }
      assert !Allowed(r, segs[i]);
    } else if |segs| > 0 {
      assert !Allowed(r, segs[0]);
    }
    if r.minSecondsBetween > 0 && secs < r.minSecondsBetween {
      return RuleChallengeSoft;
    }
    return RuleNone;
  }

  // ----- chains

  lemma SplitAtOperator(a: string, op: char)
    requires IsOperator(op)
    ensures Split(a + [op]) == Pieces(Segments(a), "")
  {
    assert (a + [op])[..|a|] == a;
  }

  /** Scanning resumes at an operator as if the line began there. */
  lemma {:induction false} SplitAfterOperator(a: string, op: char, b: string)
    requires IsOperator(op)
    ensures Split(a + [op] + b) == Pieces(Segments(a) + Split(b).done, Split(b).cur)
    decreases |b|
  {
    hide Segments, Trimmed, IsOperator;
    var s := a + [op] + b;
    if b == "" {
      SplitAtOperator(a, op);
      assert s == a + [op] && Segments(a) + [] == Segments(a);
    } else {
      var b' := b[..|b| - 1];
      assert s[..|s| - 1] == a + [op] + b';
      SplitAfterOperator(a, op, b');
      assert Segments(a) + (Split(b').done + Trimmed(Split(b').cur))
          == Segments(a) + Split(b').done + Trimmed(Split(b').cur);
    }
  }

  /** Joining two lines with one operator character joins their segments. */
  lemma SegmentsOfJoin(a: string, op: char, b: string)
    requires IsOperator(op)
    ensures Segments(a + [op] + b) == Segments(a) + Segments(b)
  {
    hide Split, Trimmed, IsOperator;
    SplitAfterOperator(a, op, b);
    Appended(Segments(a), Split(b).done, Trimmed(Split(b).cur));
  }

  lemma Appended(a: seq<string>, b: seq<string>, c: seq<string>)
    ensures a + b + c == a + (b + c)
  {
  }

  lemma SegmentsOfNothing()
    ensures Segments("") == []
  {
    NothingTrimmed();
  }

  /** Neither `;` nor `&` nor `|` is in the text. */
  predicate Plain(s: string) {
    ';' !in s && '&' !in s && '|' !in s
  }

  lemma TrimmedIsPlain(piece: string)
    requires Plain(piece)
    ensures forall seg :: seg in Trimmed(piece) ==> Plain(seg)
  {
    TrimmedIsPart(piece);
  }

  lemma {:induction false} SplitIsPlain(line: string)
    ensures Plain(Split(line).cur) && forall seg :: seg in Split(line).done ==> Plain(seg)
  {
    if line != "" {
      SplitIsPlain(line[..|line| - 1]);
      TrimmedIsPlain(Split(line[..|line| - 1]).cur);
      hide Trimmed;
    }
  }

  lemma {:induction false} PlainIsNotSplit(line: string)
    requires Plain(line)
    ensures Split(line) == Pieces([], line)
  {
    if line != "" {
      var front, c := line[..|line| - 1], line[|line| - 1];
      assert line == front + [c];
      assert !IsOperator(c) && Plain(front);
      PlainIsNotSplit(front);
      hide Plain, IsOperator, Trimmed;
    }
  }

  /** Every separator separates and nothing else does: no segment holds `;`, `&` or `|`, and a line
      without them is one segment, itself without the white space around it, or none when it is blank. */
  lemma SegmentsArePlain(line: string)
    ensures forall seg :: seg in Segments(line) ==> ';' !in seg && '&' !in seg && '|' !in seg
    ensures ';' !in line && '&' !in line && '|' !in line ==>
              Segments(line) == if TrimSpace(line) == "" then [] else [TrimSpace(line)]
  {
    SplitIsPlain(line);
    TrimmedIsPlain(Split(line).cur);
    if Plain(line) {
      PlainIsNotSplit(line);
    }
    hide Split, TrimSpace;
  }

  /** Chain law: with operator characters between them, one or several, the segments of two lines are put
      one after the other. */
  lemma {:induction false} SegmentsOfChain(a: string, op: string, b: string)
    requires op != "" && AllOperators(op)
    ensures Segments(a + op + b) == Segments(a) + Segments(b)
    decreases |op|
  {
    hide Segments;
    var op' := op[1..];
    assert op[0] in op && forall i :: 0 <= i < |op'| ==> op'[i] == op[i + 1];
    SegmentsOfJoin(a, op[0], op' + b);
    assert a + [op[0]] + (op' + b) == a + op + b;
    if op' == "" {
      assert op' + b == b;
    } else {
      SegmentsOfChain("", op', b);
      assert "" + op' + b == op' + b;
      SegmentsOfNothing();
    }
  }

  /** Allow is below the outcomes that let the rest of the pipeline look, which are below hard. */
  function Join(x: Outcome, y: Outcome): Outcome {
    if x == RuleChallengeHard || y == RuleChallengeHard then RuleChallengeHard
    else if x == RuleAllow then y
    else x
  }

  lemma DeniedInEither(r: Rules, s: seq<string>, t: seq<string>)
    ensures AnyDenied(r, s + t) <==> AnyDenied(r, s) || AnyDenied(r, t)
  {
    hide Denied;
    var u := s + t;
    if AnyDenied(r, s) {
      var i :| 0 <= i < |s| && Denied(r, s[i]);
      assert u[i] == s[i];
    }
    if AnyDenied(r, t) {
      var i :| 0 <= i < |t| && Denied(r, t[i]);
      assert u[|s| + i] == t[i];
    }
  }

  lemma AllowedInBoth(r: Rules, s: seq<string>, t: seq<string>)
    ensures AllAllowed(r, s + t) <==> AllAllowed(r, s) && AllAllowed(r, t)
  {
    hide Allowed;
    var u := s + t;
    assert forall i :: 0 <= i < |s| ==> u[i] == s[i];
    assert forall i :: 0 <= i < |t| ==> u[|s| + i] == t[i];
  }

  lemma VerdictOfBoth(r: Rules, s: seq<string>, t: seq<string>, country: string, secs: int)
    requires s != [] && t != []
    ensures Verdict(r, s + t, country, secs) == Join(Verdict(r, s, country, secs), Verdict(r, t, country, secs))
  {
    DeniedInEither(r, s, t);
    AllowedInBoth(r, s, t);
    hide AnyDenied, AllAllowed;
  }

  /** The verdict on a chain is the join of the verdicts on its parts: a denied part denies the whole,
      and the whole is allowed only if every part is.  A part without commands adds nothing. */
  lemma ChainOfAny(r: Rules, a: string, op: string, b: string, country: string, secs: int)
    requires op != "" && AllOperators(op)
    ensures CheckOf(r, a + op + b, country, secs) ==
              if Segments(a) == [] then CheckOf(r, b, country, secs)
              else if Segments(b) == [] then CheckOf(r, a, country, secs)
              else Join(CheckOf(r, a, country, secs), CheckOf(r, b, country, secs))
  {
    hide Segments, Verdict;
    SegmentsOfChain(a, op, b);
    if Segments(a) == [] {
      assert [] + Segments(b) == Segments(b);
    } else if Segments(b) == [] {
      assert Segments(a) + [] == Segments(a);
    } else {
      VerdictOfBoth(r, Segments(a), Segments(b), country, secs);
    }
  }

  /** Chain law, operator by operator. */
  lemma ChainLaw(r: Rules, a: string, op: string, b: string, country: string, secs: int)
    requires op in {";", "&", "&&", "|", "||"}
    ensures Segments(a + op + b) == Segments(a) + Segments(b)
    ensures CheckOf(r, a + op + b, country, secs) ==
              if Segments(a) == [] then CheckOf(r, b, country, secs)
              else if Segments(b) == [] then CheckOf(r, a, country, secs)
              else Join(CheckOf(r, a, country, secs), CheckOf(r, b, country, secs))
  {
    hide Segments, CheckOf, Join;
    SegmentsOfChain(a, op, b);
    ChainOfAny(r, a, op, b, country, secs);
  }

  // ----- changing the rules

  predicate Includes(more: seq<string>, less: seq<string>) {
    forall i :: 0 <= i < |less| ==> less[i] in more
  }

  lemma MatchesMore(less: seq<string>, more: seq<string>, tokens: seq<string>)
    requires Includes(more, less)
    ensures MatchesAny(less, tokens) ==> MatchesAny(more, tokens)
  {
    hide MatchesEntry;
    if MatchesAny(less, tokens) {
      var k :| 0 <= k < |less| && MatchesEntry(less[k], tokens);
      var j :| 0 <= j < |more| && more[j] == less[k];
    }
  }

  /** Denying more leaves a verdict as it is or makes it hard, whatever else allows the line. */
  lemma DenyingMoreOnlyHardens(r: Rules, r': Rules, line: string, country: string, secs: int)
    requires r' == r.(denyCommands := r'.denyCommands, denyCountries := r'.denyCountries)
    requires Includes(r'.denyCommands, r.denyCommands) && Includes(r'.denyCountries, r.denyCountries)
    ensures CheckOf(r', line, country, secs) == CheckOf(r, line, country, secs) ||
            CheckOf(r', line, country, secs) == RuleChallengeHard
  {
    var segs := Segments(line);
    hide Segments, Fields, HasShellExpansion, MatchesAny;
    forall i | 0 <= i < |segs|
      ensures Denied(r, segs[i]) ==> Denied(r', segs[i])
      ensures Allowed(r, segs[i]) <==> Allowed(r', segs[i])
    {
      MatchesMore(r.denyCommands, r'.denyCommands, Fields(segs[i]));
    }
    hide Denied, Allowed;
  }

  /** Allowing more leaves a verdict as it is or lets a line pass that was not hard. */
  lemma AllowingMoreNeverUndoesDeny(r: Rules, r': Rules, line: string, country: string, secs: int)
    requires r' == r.(allowCommands := r'.allowCommands, allowCountries := r'.allowCountries)
    requires Includes(r'.allowCommands, r.allowCommands) && Includes(r'.allowCountries, r.allowCountries)
    ensures CheckOf(r', line, country, secs) == CheckOf(r, line, country, secs) ||
            (CheckOf(r', line, country, secs) == RuleAllow && CheckOf(r, line, country, secs) != RuleChallengeHard)
  {
    var segs := Segments(line);
    hide Segments, Fields, HasShellExpansion, MatchesAny;
    forall i | 0 <= i < |segs|
      ensures Denied(r, segs[i]) <==> Denied(r', segs[i])
      ensures Allowed(r, segs[i]) ==> Allowed(r', segs[i])
    {
      MatchesMore(r.allowCommands, r'.allowCommands, Fields(segs[i]));
    }
    hide Denied, Allowed;
  }

  /** A line passes on account of its commands only if each of them starts with the words of an allowed
      entry and none can hide another command. */
  lemma AllowedLinesHideNothing(r: Rules, line: string, country: string, secs: int)
    requires CheckOf(r, line, country, secs) == RuleAllow && country !in r.allowCountries
    ensures Tokens(line) != []
    ensures forall i :: 0 <= i < |Tokens(line)| ==>
              var words := Tokens(line)[i];
              words != [] && MatchesAny(r.allowCommands, words) && !MatchesAny(r.denyCommands, words) &&
              ShowsAll(words)
  {
    CheckByTokens(r, line, country, secs);
    hide CheckOf, Tokens, MatchesAny, HidesCommand;
    var commands := Tokens(line);
    forall i | 0 <= i < |commands|
      ensures commands[i] != [] && ShowsAll(commands[i])
    {
      MatchedHasWords(r.allowCommands, commands[i]);
      NothingHidden(commands[i]);
    }
  }

  /** Not `eval`, and no word with a construct that can hide another command. */
  predicate ShowsAll(words: seq<string>)
    requires words != []
  {
    words[0] != "eval" &&
    forall j :: 0 <= j < |words| ==>
      !Contains(words[j], "$(") && !Contains(words[j], "`") && !Contains(words[j], "${")
  }

  lemma MatchedHasWords(entries: seq<string>, words: seq<string>)
    requires MatchesAny(entries, words)
    ensures words != []
  {
    hide Fields;
  }

  lemma NothingHidden(words: seq<string>)
    requires words != [] && !HidesCommand(words)
    ensures ShowsAll(words)
  {
    hide Contains;
  }

  /** The precedence, outcome by outcome: hard exactly when some command or the country is denied; else
      allowed exactly when the country is or every command is and none hides another; else soft exactly
      when commands must be spaced and this one comes too soon. */
  lemma OutcomeIff(r: Rules, line: string, country: string, secs: int)
    ensures var o, commands := CheckOf(r, line, country, secs), Tokens(line);
            var hard := country in r.denyCountries ||
                        exists i :: 0 <= i < |commands| && MatchesAny(r.denyCommands, commands[i]);
            var allowed := country in r.allowCountries ||
                           (commands != [] &&
                            forall i :: 0 <= i < |commands| ==>
                              MatchesAny(r.allowCommands, commands[i]) && !HidesCommand(commands[i]));
            (o == RuleChallengeHard <==> hard) &&
            (o == RuleAllow <==> !hard && allowed) &&
            (o == RuleChallengeSoft <==> !hard && !allowed && r.minSecondsBetween > 0 && secs < r.minSecondsBetween) &&
            (o == RuleNone <==>
               !hard && !allowed && (r.minSecondsBetween <= 0 || secs >= r.minSecondsBetween))
  {
    CheckByTokens(r, line, country, secs);
    hide CheckOf, Tokens, MatchesAny, HidesCommand;
  }

  // ----- white space

  /** The words of each command of a line, scanned without cutting the line into strings first. */
  datatype Commands = Commands(done: seq<seq<string>>, words: Words) {
    function Finish(): seq<seq<string>> {
      if words.Finish() == [] then done else done + [words.Finish()]
    }

    function Feed(c: char): Commands {
      if IsOperator(c) then Commands(Finish(), Words([], "")) else Commands(done, words.Feed(c))
    }
  }

  function Lex(line: string): Commands {
    if line == "" then Commands([], Words([], "")) else Lex(line[..|line| - 1]).Feed(line[|line| - 1])
  }

  /** The commands of a line as word lists. */
  function Tokens(line: string): seq<seq<string>> {
    Lex(line).Finish()
  }

  function WordsOf(segs: seq<string>): seq<seq<string>> {
    seq(|segs|, i requires 0 <= i < |segs| => Fields(segs[i]))
  }

  lemma WordsOfTrimmed(done: seq<string>, piece: string)
    ensures WordsOf(done + Trimmed(piece))
         == if Fields(piece) == [] then WordsOf(done) else WordsOf(done) + [Fields(piece)]
  {
    FieldsOfTrimmed(piece);
    FieldsEmpty(piece);
    TrimmedEmpty(piece);
    hide Fields, TrimSpace;
    if TrimSpace(piece) == "" {
      assert done + Trimmed(piece) == done;
    } else {
      assert WordsOf(done + Trimmed(piece)) == WordsOf(done) + [Fields(piece)];
    }
  }

  lemma {:induction false} LexSplits(line: string)
    ensures Lex(line) == Commands(WordsOf(Split(line).done), ScanWords(Split(line).cur))
  {
    if line == "" {
      assert WordsOf([]) == [];
    } else {
      var p, c := Split(line[..|line| - 1]), line[|line| - 1];
      LexSplits(line[..|line| - 1]);
      WordsOfTrimmed(p.done, p.cur);
      hide Trimmed, WordsOf;
      if !IsOperator(c) {
        assert (p.cur + [c])[..|p.cur|] == p.cur;
      }
    }
  }

  /** The word lists are the fields of the segments. */
  lemma TokensAreFieldsOfSegments(line: string)
    ensures Tokens(line) == WordsOf(Segments(line))
  {
    LexSplits(line);
    WordsOfTrimmed(Split(line).done, Split(line).cur);
  }

  predicate ContainsAny(tokens: seq<string>, pat: string) {
    exists i :: 0 <= i < |tokens| && Contains(tokens[i], pat)
  }

  predicate HidesCommand(tokens: seq<string>) {
    ContainsAny(tokens, "$(") || ContainsAny(tokens, "`") || ContainsAny(tokens, "${") ||
    (tokens != [] && tokens[0] == "eval")
  }

  function TokenVerdict(r: Rules, commands: seq<seq<string>>, country: string, secs: int): Outcome {
    if (exists i :: 0 <= i < |commands| && MatchesAny(r.denyCommands, commands[i])) || country in r.denyCountries
    then RuleChallengeHard
    else if country in r.allowCountries then RuleAllow
    else if commands != [] &&
            forall i :: 0 <= i < |commands| ==> MatchesAny(r.allowCommands, commands[i]) && !HidesCommand(commands[i])
    then RuleAllow
    else if r.minSecondsBetween > 0 && secs < r.minSecondsBetween then RuleChallengeSoft
    else RuleNone
  }

  lemma {:induction false} ExpansionInWords(s: string, pat: string)
    requires pat != "" && forall i :: 0 <= i < |pat| ==> !IsSpace(pat[i])
    ensures var w := ScanWords(s);
            Contains(s, pat) <==> ContainsAny(w.done, pat) || Contains(w.cur, pat)
  {
    hide Contains, ContainsAny, EndsWith;
    NothingContains(pat);
    if s != "" {
      var s', c := s[..|s| - 1], s[|s| - 1];
      var w := ScanWords(s');
      ExpansionInWords(s', pat);
      assert s == s' + [c];
      ContainsSnoc(s', c, pat);
      if IsSpace(c) {
        NoSpaceAtEnd(s, pat);
        ContainsAnySnoc(w.done, w.cur, pat);
        if w.cur == "" {
          EmptyContains(pat);
        }
        EmptyContains(pat);
      } else {
        ContainsSnoc(w.cur, c, pat);
        WordIsTail(s);
        EndsInWord(s, ScanWords(s).cur, pat);
      }
    } else {
      EmptyContains(pat);
    }
  }

  lemma NothingContains(pat: string)
    ensures !ContainsAny([], pat)
  {
  }

  lemma EmptyContains(pat: string)
    requires pat != ""
    ensures !Contains("", pat)
  {
  }

  lemma ContainsAnySnoc(tokens: seq<string>, t: string, pat: string)
    ensures ContainsAny(tokens + [t], pat) <==> ContainsAny(tokens, pat) || Contains(t, pat)
  {
    hide Contains;
    var u := tokens + [t];
    assert u[|tokens|] == t;
    assert forall i :: 0 <= i < |tokens| ==> u[i] == tokens[i];
  }

  predicate EndsWith(s: string, pat: string) {
    |pat| <= |s| && s[|s| - |pat|..] == pat
  }

  lemma ContainsSnoc(s: string, c: char, pat: string)
    ensures Contains(s + [c], pat) <==> Contains(s, pat) || EndsWith(s + [c], pat)
  {
    var t := s + [c];
    forall i | 0 <= i <= |s| && OccursAt(s, pat, i)
      ensures OccursAt(t, pat, i)
    {
      assert t[i..i + |pat|] == s[i..i + |pat|];
    }
    forall i | 0 <= i <= |t| && OccursAt(t, pat, i) && i + |pat| <= |s|
      ensures OccursAt(s, pat, i)
    {
      assert t[i..i + |pat|] == s[i..i + |pat|];
    }
    if EndsWith(t, pat) {
      assert OccursAt(t, pat, |t| - |pat|);
    }
  }

  lemma NoSpaceAtEnd(s: string, pat: string)
    requires pat != "" && forall i :: 0 <= i < |pat| ==> !IsSpace(pat[i])
    requires s != "" && IsSpace(s[|s| - 1])
    ensures !EndsWith(s, pat)
  {
    if |pat| <= |s| {
      assert s[|s| - |pat|..][|pat| - 1] == s[|s| - 1];
      assert !IsSpace(pat[|pat| - 1]);
    }
  }

  /** The word being read is the longest space-free suffix of what has been read. */
  lemma {:induction false} WordIsTail(s: string)
    ensures var cur := ScanWords(s).cur;
            |cur| <= |s| && s[|s| - |cur|..] == cur && (|cur| < |s| ==> IsSpace(s[|s| - |cur| - 1]))
  {
    if s != "" {
      hide IsSpace;
      var front, c := s[..|s| - 1], s[|s| - 1];
      WordIsTail(front);
      if !IsSpace(c) {
        var cur := ScanWords(front).cur;
        assert s[|front| - |cur|..] == front[|front| - |cur|..] + [c];
      }
    }
  }

  lemma EndsInWord(s: string, cur: string, pat: string)
    requires pat != "" && forall i :: 0 <= i < |pat| ==> !IsSpace(pat[i])
    requires |cur| <= |s| && s[|s| - |cur|..] == cur && (|cur| < |s| ==> IsSpace(s[|s| - |cur| - 1]))
    ensures EndsWith(s, pat) <==> EndsWith(cur, pat)
  {
    if |pat| <= |cur| {
      assert cur[|cur| - |pat|..] == s[|s| - |pat|..];
    } else if |pat| <= |s| {
      var k := |pat| - |cur| - 1;
      assert s[|s| - |pat|..][k] == s[|s| - |cur| - 1];
      assert !IsSpace(pat[k]);
    }
  }

  lemma ContainsIffWordDoes(s: string, pat: string)
    requires pat != "" && forall i :: 0 <= i < |pat| ==> !IsSpace(pat[i])
    ensures Contains(s, pat) <==> ContainsAny(Fields(s), pat)
  {
    ExpansionInWords(s, pat);
    var w := ScanWords(s);
    ContainsAnySnoc(w.done, w.cur, pat);
    EmptyContains(pat);
  }

  lemma ExpansionByTokens(seg: string)
    ensures HasShellExpansion(seg) <==> HidesCommand(Fields(seg))
  {
    ContainsIffWordDoes(seg, "$(");
    ContainsIffWordDoes(seg, "`");
    ContainsIffWordDoes(seg, "${");
  }

  /** The verdict depends on a line only through the words of its commands. */
  lemma CheckByTokens(r: Rules, line: string, country: string, secs: int)
    ensures CheckOf(r, line, country, secs) == TokenVerdict(r, Tokens(line), country, secs)
  {
    TokensAreFieldsOfSegments(line);
    var segs := Segments(line);
    forall i | 0 <= i < |segs|
      ensures HasShellExpansion(segs[i]) <==> HidesCommand(Fields(segs[i]))
    {
      ExpansionByTokens(segs[i]);
    }
    hide Segments, Tokens, HasShellExpansion, HidesCommand, Fields, MatchesAny;
    assert forall i :: 0 <= i < |segs| ==> WordsOf(segs)[i] == Fields(segs[i]);
    assert AnyDenied(r, segs) <==> exists i :: 0 <= i < |WordsOf(segs)| && MatchesAny(r.denyCommands, WordsOf(segs)[i]);
  }

  /** After any non-empty run of white space the scanner is between words. */
  lemma {:induction false} LexOfSpace(p: string, w: string)
    requires w != "" && AllSpace(w)
    ensures Lex(p + w) == Commands(Lex(p).done, Words(Lex(p).words.Finish(), ""))
    decreases |w|
  {
    var w', c := w[..|w| - 1], w[|w| - 1];
    assert (p + w)[..|p + w| - 1] == p + w';
    assert IsSpace(c) && !IsOperator(c);
    if w' == "" {
      assert p + w' == p;
    } else {
      LexOfSpace(p, w');
    }
  }

  lemma {:induction false} LexContinues(x: string, y: string, q: string)
    requires Lex(x) == Lex(y)
    ensures Lex(x + q) == Lex(y + q)
    decreases |q|
  {
    if q == "" {
      assert x + q == x && y + q == y;
    } else {
      var q' := q[..|q| - 1];
      assert (x + q)[..|x + q| - 1] == x + q' && (y + q)[..|y + q| - 1] == y + q';
      LexContinues(x, y, q');
    }
  }

  /** Replacing a run of white space by any other non-empty run of white space never changes the
      verdict. */
  lemma WhitespaceInsensitive(r: Rules, p: string, w1: string, w2: string, q: string, country: string, secs: int)
    requires w1 != "" && w2 != "" && AllSpace(w1) && AllSpace(w2)
    ensures CheckOf(r, p + w1 + q, country, secs) == CheckOf(r, p + w2 + q, country, secs)
  {
    LexOfSpace(p, w1);
    LexOfSpace(p, w2);
    LexContinues(p + w1, p + w2, q);
    CheckByTokens(r, p + w1 + q, country, secs);
    CheckByTokens(r, p + w2 + q, country, secs);
  }
}
