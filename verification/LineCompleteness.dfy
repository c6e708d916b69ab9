/** Is a line a complete shell command?  A four-variable automaton decides; the same answer is given
    here by a grammar of quoted pieces and a condition on parentheses. */
module LineCompleteness {
  datatype Reason = SingleQuote | DoubleQuote | TrailingBackslash | Parenthesis

  datatype Verdict = Complete | Incomplete(reason: Reason)

  // ----- the automaton

  datatype State = State(inSingle: bool, inDouble: bool, escaped: bool, depth: nat) {
    function Feed(c: char): State {
      if escaped then this.(escaped := false)
      else if c == '\\' && !inSingle then this.(escaped := true)
      else if inSingle then this.(inSingle := c != '\'')
      else if inDouble then this.(inDouble := c != '"')
      else if c == '\'' then this.(inSingle := true)
      else if c == '"' then this.(inDouble := true)
      else if c == '(' then this.(depth := depth + 1)
      else if c == ')' && depth > 0 then this.(depth := depth - 1)
      else this
    }

    function Verdict(): Verdict {
      if inSingle then Incomplete(SingleQuote)
      else if inDouble then Incomplete(DoubleQuote)
      else if escaped then Incomplete(TrailingBackslash)
      else if depth > 0 then Incomplete(Parenthesis)
      else Complete
    }
  }

  const START := State(false, false, false, 0)

  function Scan(line: string): State {
    if line == "" then START else Scan(line[..|line| - 1]).Feed(line[|line| - 1])
  }

  function VerdictOn(line: string): Verdict {
    Scan(line).Verdict()
  }

  method LineComplete(line: string) returns (v: Verdict)
    ensures v == VerdictOn(line)
  {
    var inSingle, inDouble, escaped := false, false, false;
    var parenDepth: nat := 0;
    for i := 0 to |line|
      invariant Scan(line[..i]) == State(inSingle, inDouble, escaped, parenDepth)
    {
      var r := line[i];
      assert line[..i + 1][..i] == line[..i];
      if escaped {
        escaped := false;
      } else if r == '\\' && !inSingle {
        escaped := true;
      } else if inSingle {
        if r == '\'' {
          inSingle := false;
        }
      } else if inDouble {
        if r == '"' {
          inDouble := false;
        }
      } else if r == '\'' {
        inSingle := true;
      } else if r == '"' {
        inDouble := true;
      } else if r == '(' {
        parenDepth := parenDepth + 1;
      } else if r == ')' {
        if parenDepth > 0 {
          parenDepth := parenDepth - 1;
        }
      }
    }
    assert line[..|line|] == line;
    if inSingle {
      return Incomplete(SingleQuote);
    }
    if inDouble {
      return Incomplete(DoubleQuote);
    }
    if escaped {
      return Incomplete(TrailingBackslash);
    }
    if parenDepth > 0 {
      return Incomplete(Parenthesis);
    }
    return Complete;
  }

  // ----- the grammar

  /** A character inside double quotes: itself, or escaped. */
  datatype Item = Raw(c: char) | Esc(c: char) {
    predicate Legal() {
      Raw? ==> c != '\\' && c != '"'
    }

    function Text(): string {
      if Raw? then [c] else ['\\', c]
    }
  }

  /** Quoting as in section 2.2 of POSIX.1 XCU, "Shell Command Language". */
  datatype Piece = Plain(c: char) | Escaped(c: char) | Single(body: string) | Double(items: seq<Item>) {
    predicate Legal() {
      match this
      case Plain(c) => c != '\\' && c != '\'' && c != '"'
      case Escaped(_) => true
      case Single(body) => '\'' !in body
      case Double(items) => LegalItems(items)
    }

    function Text(): string {
      match this
      case Plain(c) => [c]
      case Escaped(c) => ['\\', c]
      case Single(body) => "'" + body + "'"
      case Double(items) => "\"" + ItemsText(items) + "\""
    }

    /** Only a plain parenthesis opens or closes. */
    function Weight(): int {
      if this == Plain('(') then 1 else if this == Plain(')') then -1 else 0
    }
  }

  /** How a line may stop inside a piece. */
  datatype Open =
    | Closed
    | Backslash
    | InSingle(body: string)
    | InDouble(items: seq<Item>)
    | InDoubleEsc(items: seq<Item>)
  {
    predicate Legal() {
      match this
      case InSingle(body) => '\'' !in body
      case InDouble(items) => LegalItems(items)
      case InDoubleEsc(items) => LegalItems(items)
      case _ => true
    }

    function Text(): string {
      match this
      case Closed => ""
      case Backslash => "\\"
      case InSingle(body) => "'" + body
      case InDouble(items) => "\"" + ItemsText(items)
      case InDoubleEsc(items) => "\"" + ItemsText(items) + "\\"
    }
  }

  predicate LegalItems(items: seq<Item>) {
    forall i :: 0 <= i < |items| ==> items[i].Legal()
  }

  function ItemsText(items: seq<Item>): string {
    if items == [] then "" else ItemsText(items[..|items| - 1]) + items[|items| - 1].Text()
  }

  predicate LegalPieces(ps: seq<Piece>) {
    forall i :: 0 <= i < |ps| ==> ps[i].Legal()
  }

  function PiecesText(ps: seq<Piece>): string {
    if ps == [] then "" else PiecesText(ps[..|ps| - 1]) + ps[|ps| - 1].Text()
  }

  /** Active opens minus active closes. */
  function Excess(ps: seq<Piece>): int {
    if ps == [] then 0 else Excess(ps[..|ps| - 1]) + ps[|ps| - 1].Weight()
  }

  /** `d` is the largest excess over all suffixes, the empty one included. */
  predicate IsMaxSuffixExcess(ps: seq<Piece>, d: int) {
    (forall k :: 0 <= k <= |ps| ==> Excess(ps[k..]) <= d) && (exists k :: 0 <= k <= |ps| && Excess(ps[k..]) == d)
  }

  /** Every active `(` is closed later on: no suffix opens more than it closes. */
  predicate Balanced(ps: seq<Piece>) {
    forall k :: 0 <= k <= |ps| ==> Excess(ps[k..]) <= 0
  }

  // ----- running the automaton over pieces

  function Run(s: State, text: string): State {
    if text == "" then s else Run(s, text[..|text| - 1]).Feed(text[|text| - 1])
  }

  lemma {:induction false} RunAppend(s: State, a: string, b: string)
    ensures Run(s, a + b) == Run(Run(s, a), b)
    decreases |b|
  {
    if b == "" {
      assert a + b == a;
    } else {
      assert (a + b)[..|a + b| - 1] == a + b[..|b| - 1];
      RunAppend(s, a, b[..|b| - 1]);
    }
  }

  lemma {:induction false} ScanIsRun(line: string)
    ensures Scan(line) == Run(START, line)
  {
    if line != "" {
      ScanIsRun(line[..|line| - 1]);
    }
  }

  lemma RunOne(s: State, c: char)
    ensures Run(s, [c]) == s.Feed(c)
  {
    assert [c][..0] == "";
    assert Run(s, "") == s;
  }

  lemma RunTwo(s: State, c: char, d: char)
    ensures Run(s, [c, d]) == s.Feed(c).Feed(d)
  {
    assert [c, d][..1] == [c];
    RunOne(s, c);
  }

  lemma {:induction false} RunSingle(s: State, body: string)
    requires s.inSingle && !s.escaped && '\'' !in body
    ensures Run(s, body) == s
    decreases |body|
  {
    if body != "" {
      RunSingle(s, body[..|body| - 1]);
    }
  }

  lemma {:induction false} RunItems(s: State, items: seq<Item>)
    requires s.inDouble && !s.inSingle && !s.escaped && LegalItems(items)
    ensures Run(s, ItemsText(items)) == s
    decreases |items|
  {
    if items != [] {
      var front, last := items[..|items| - 1], items[|items| - 1];
      RunItems(s, front);
      RunAppend(s, ItemsText(front), last.Text());
      match last
      case Raw(c) => RunOne(s, c);
      case Esc(c) => RunTwo(s, '\\', c);
    }
  }

  predicate AtTop(s: State) {
    !s.inSingle && !s.inDouble && !s.escaped
  }

  /** A piece moves only the counter, clamped at zero. */
  lemma RunPiece(s: State, p: Piece)
    requires AtTop(s) && p.Legal()
    ensures Run(s, p.Text()) == s.(depth := if s.depth + p.Weight() < 0 then 0 else s.depth + p.Weight())
  {
    match p
    case Plain(c) => RunOne(s, c);
    case Escaped(c) => RunTwo(s, '\\', c);
    case Single(body) =>
      RunOpen(s, InSingle(body));
      RunAppend(s, "'" + body, "'");
      RunOne(s.(inSingle := true), '\'');
    case Double(items) =>
      RunOpen(s, InDouble(items));
      RunAppend(s, "\"" + ItemsText(items), "\"");
      RunOne(s.(inDouble := true), '"');
  }

  lemma RunOpen(s: State, o: Open)
    requires AtTop(s) && o.Legal()
    ensures Run(s, o.Text()) == match o
                                case Closed => s
                                case Backslash => s.(escaped := true)
                                case InSingle(_) => s.(inSingle := true)
                                case InDouble(_) => s.(inDouble := true)
                                case InDoubleEsc(_) => s.(inDouble := true, escaped := true)
    decreases o.InDoubleEsc?
  {
    match o
    case Closed =>
    case Backslash => RunOne(s, '\\');
    case InSingle(body) =>
      RunAppend(s, "'", body);
      RunOne(s, '\'');
      RunSingle(s.(inSingle := true), body);
    case InDouble(items) =>
      RunAppend(s, "\"", ItemsText(items));
      RunOne(s, '"');
      RunItems(s.(inDouble := true), items);
    case InDoubleEsc(items) =>
      RunOpen(s, InDouble(items));
      RunAppend(s, "\"" + ItemsText(items), "\\");
      RunOne(s.(inDouble := true), '\\');
  }

  /** The clamped counter is the largest suffix excess. */
  lemma MaxSuffixStep(ps: seq<Piece>, p: Piece, d: nat)
    requires IsMaxSuffixExcess(ps, d)
    ensures IsMaxSuffixExcess(ps + [p], if d + p.Weight() < 0 then 0 else d + p.Weight())
  {
    var qs := ps + [p];
    var d' := if d + p.Weight() < 0 then 0 else d + p.Weight();
    forall k | 0 <= k <= |ps|
      ensures Excess(qs[k..]) == Excess(ps[k..]) + p.Weight()
    {
      assert qs[k..] == ps[k..] + [p];
      assert (ps[k..] + [p])[..|ps[k..]|] == ps[k..];
    }
    assert Excess(qs[|qs|..]) == 0;
    var k :| 0 <= k <= |ps| && Excess(ps[k..]) == d;
    assert Excess(qs[k..]) == d + p.Weight();
    forall j | 0 <= j <= |qs|
      ensures Excess(qs[j..]) <= d'
    {
      if j <= |ps| {
        assert Excess(qs[j..]) == Excess(ps[j..]) + p.Weight();
      }
    }
  }

  lemma RunMore(ps: seq<Piece>, p: Piece)
    requires AtTop(Scan(PiecesText(ps))) && p.Legal()
    ensures var s := Scan(PiecesText(ps));
            AtTop(Scan(PiecesText(ps + [p]))) &&
            Scan(PiecesText(ps + [p])).depth == if s.depth + p.Weight() < 0 then 0 else s.depth + p.Weight()
  {
    assert (ps + [p])[..|ps|] == ps;
    hide Run, Scan;
    ScanIsRun(PiecesText(ps));
    ScanIsRun(PiecesText(ps + [p]));
    RunAppend(START, PiecesText(ps), p.Text());
    RunPiece(Scan(PiecesText(ps)), p);
  }

  /** After whole pieces no quote is open, and the counter is the largest excess of active opens over
      active closes in any suffix. */
  lemma {:induction false} DepthIsMaxSuffixExcess(ps: seq<Piece>)
    requires LegalPieces(ps)
    ensures AtTop(Scan(PiecesText(ps))) && IsMaxSuffixExcess(ps, Scan(PiecesText(ps)).depth)
    decreases |ps|
  {
    if ps == [] {
      assert Excess(ps[0..]) == 0;
    } else {
      hide IsMaxSuffixExcess, Run, Scan, AtTop;
      var front, last := ps[..|ps| - 1], ps[|ps| - 1];
      assert front + [last] == ps;
      DepthIsMaxSuffixExcess(front);
      RunMore(front, last);
      MaxSuffixStep(front, last, Scan(PiecesText(front)).depth);
    }
  }

  // ----- the verdict

  /** What the verdict on a line should be, given how it reads. */
  function Meaning(o: Open, excess: nat): Verdict {
    match o
    case InSingle(_) => Incomplete(SingleQuote)
    case InDouble(_) => Incomplete(DoubleQuote)
    case InDoubleEsc(_) => Incomplete(DoubleQuote)
    case Backslash => Incomplete(TrailingBackslash)
    case Closed => if excess > 0 then Incomplete(Parenthesis) else Complete
  }

  /** However a line reads as pieces and an open end, its verdict is the meaning of that reading. */
  lemma VerdictIsMeaning(ps: seq<Piece>, o: Open, excess: nat)
    requires LegalPieces(ps) && o.Legal() && IsMaxSuffixExcess(ps, excess)
    ensures VerdictOn(PiecesText(ps) + o.Text()) == Meaning(o, excess)
  {
    DepthIsMaxSuffixExcess(ps);
    var s := Scan(PiecesText(ps));
    ScanIsRun(PiecesText(ps));
    ScanIsRun(PiecesText(ps) + o.Text());
    RunAppend(START, PiecesText(ps), o.Text());
    RunOpen(s, o);
    var k :| 0 <= k <= |ps| && Excess(ps[k..]) == excess;
    var j :| 0 <= j <= |ps| && Excess(ps[j..]) == s.depth;
  }

  lemma PiecesSnoc(ps: seq<Piece>, p: Piece)
    requires LegalPieces(ps) && p.Legal()
    ensures LegalPieces(ps + [p]) && PiecesText(ps + [p]) == PiecesText(ps) + p.Text()
  {
    assert (ps + [p])[..|ps|] == ps;
  }

  lemma ItemsSnoc(items: seq<Item>, i: Item)
    requires LegalItems(items) && i.Legal()
    ensures LegalItems(items + [i]) && ItemsText(items + [i]) == ItemsText(items) + i.Text()
  {
    assert (items + [i])[..|items|] == items;
  }

  /** Reading on by one character. */
  function Extend(ps: seq<Piece>, o: Open, c: char): (seq<Piece>, Open) {
    match o
    case Closed =>
      if c == '\\' then (ps, Backslash)
      else if c == '\'' then (ps, InSingle(""))
      else if c == '"' then (ps, InDouble([]))
      else (ps + [Plain(c)], Closed)
    case Backslash => (ps + [Escaped(c)], Closed)
    case InSingle(body) => if c == '\'' then (ps + [Single(body)], Closed) else (ps, InSingle(body + [c]))
    case InDouble(items) =>
      if c == '\\' then (ps, InDoubleEsc(items))
      else if c == '"' then (ps + [Double(items)], Closed)
      else (ps, InDouble(items + [Raw(c)]))
    case InDoubleEsc(items) => (ps, InDouble(items + [Esc(c)]))
  }

  /** `line` is these pieces followed by this open end. */
  predicate Reads(ps: seq<Piece>, o: Open, line: string) {
    LegalPieces(ps) && o.Legal() && PiecesText(ps) + o.Text() == line
  }

  lemma ExtendClosed(ps: seq<Piece>, line: string, c: char)
    requires Reads(ps, Closed, line)
    ensures var (ps', o') := Extend(ps, Closed, c); Reads(ps', o', line + [c])
  {
    assert LegalItems([]) && ItemsText([]) == "";
    hide PiecesText, LegalPieces, ItemsText, LegalItems;
    var t := PiecesText(ps);
    assert line == t;
    if c == '\\' {
      assert t + "\\" == t + [c];
    } else if c == '\'' {
      assert t + ("'" + "") == t + [c];
    } else if c == '"' {
      assert t + ("\"" + "") == t + [c];
    } else {
      PiecesSnoc(ps, Plain(c));
      assert t + [c] + "" == t + [c];
    }
  }

  lemma ExtendBackslash(ps: seq<Piece>, line: string, c: char)
    requires Reads(ps, Backslash, line)
    ensures var (ps', o') := Extend(ps, Backslash, c); Reads(ps', o', line + [c])
  {
    hide PiecesText, LegalPieces;
    PiecesSnoc(ps, Escaped(c));
    assert PiecesText(ps) + ['\\', c] + "" == PiecesText(ps) + "\\" + [c];
  }

  lemma ExtendSingle(ps: seq<Piece>, body: string, line: string, c: char)
    requires Reads(ps, InSingle(body), line)
    ensures var (ps', o') := Extend(ps, InSingle(body), c); Reads(ps', o', line + [c])
  {
    hide PiecesText, LegalPieces;
    var t := PiecesText(ps);
    if c == '\'' {
      PiecesSnoc(ps, Single(body));
      assert t + ("'" + body + "'") + "" == t + ("'" + body) + [c];
    } else {
      assert t + ("'" + (body + [c])) == t + ("'" + body) + [c];
    }
  }

  lemma ExtendDouble(ps: seq<Piece>, items: seq<Item>, line: string, c: char)
    requires Reads(ps, InDouble(items), line)
    ensures var (ps', o') := Extend(ps, InDouble(items), c); Reads(ps', o', line + [c])
  {
    hide PiecesText, LegalPieces, ItemsText, LegalItems;
    var t, u := PiecesText(ps), "\"" + ItemsText(items);
    if c == '\\' {
      assert t + (u + "\\") == t + u + [c];
    } else if c == '"' {
      PiecesSnoc(ps, Double(items));
      assert t + (u + "\"") + "" == t + u + [c];
    } else {
      ItemsSnoc(items, Raw(c));
      assert t + ("\"" + (ItemsText(items) + [c])) == t + u + [c];
    }
  }

  lemma ExtendDoubleEsc(ps: seq<Piece>, items: seq<Item>, line: string, c: char)
    requires Reads(ps, InDoubleEsc(items), line)
    ensures var (ps', o') := Extend(ps, InDoubleEsc(items), c); Reads(ps', o', line + [c])
  {
    hide PiecesText, LegalPieces, ItemsText, LegalItems;
    ItemsSnoc(items, Esc(c));
    var t, u := PiecesText(ps), ItemsText(items);
    assert t + ("\"" + (u + ['\\', c])) == t + ("\"" + u + "\\") + [c];
  }

  lemma ExtendReads(ps: seq<Piece>, o: Open, line: string, c: char)
    requires Reads(ps, o, line)
    ensures var (ps', o') := Extend(ps, o, c); Reads(ps', o', line + [c])
  {
    hide Reads, Extend;
    match o
    case InSingle(body) => ExtendSingle(ps, body, line, c);
    case InDouble(items) => ExtendDouble(ps, items, line, c);
    case InDoubleEsc(items) => ExtendDoubleEsc(ps, items, line, c);
    case Closed => ExtendClosed(ps, line, c);
    case Backslash => ExtendBackslash(ps, line, c);
  }

  /** Every line has a reading. */
  lemma {:induction false} EveryLineReads(line: string) returns (ps: seq<Piece>, o: Open)
    ensures Reads(ps, o, line)
    decreases |line|
  {
    if line == "" {
      ps, o := [], Closed;
    } else {
      hide Extend, Reads;
      var ps0, o0 := EveryLineReads(line[..|line| - 1]);
      ExtendReads(ps0, o0, line[..|line| - 1], line[|line| - 1]);
      assert line[..|line| - 1] + [line[|line| - 1]] == line;
      var r := Extend(ps0, o0, line[|line| - 1]);
      ps, o := r.0, r.1;
    }
  }

  lemma CompleteReads(line: string) returns (ps: seq<Piece>)
    requires VerdictOn(line) == Complete
    ensures LegalPieces(ps) && PiecesText(ps) == line && Balanced(ps)
  {
    hide PiecesText, LegalPieces;
    var o;
    ps, o := EveryLineReads(line);
    DepthIsMaxSuffixExcess(ps);
    VerdictIsMeaning(ps, o, Scan(PiecesText(ps)).depth);
    hide VerdictOn, Scan;
    assert PiecesText(ps) + "" == PiecesText(ps);
  }

  lemma ReadsComplete(ps: seq<Piece>)
    requires LegalPieces(ps) && Balanced(ps)
    ensures VerdictOn(PiecesText(ps)) == Complete
  {
    assert Excess(ps[|ps|..]) == 0;
    VerdictIsMeaning(ps, Closed, 0);
    assert PiecesText(ps) + Closed.Text() == PiecesText(ps);
  }

  /** A line is complete exactly when it reads as plain, escaped, single-quoted and double-quoted
      pieces in which every active `(` is closed later on. */
  lemma CompleteIffWellFormed(line: string)
    ensures VerdictOn(line) == Complete <==>
            exists ps: seq<Piece> :: LegalPieces(ps) && PiecesText(ps) == line && Balanced(ps)
  {
    hide VerdictOn, LegalPieces, PiecesText, Balanced;
    if VerdictOn(line) == Complete {
      var ps := CompleteReads(line);
    }
    if ps: seq<Piece> :| LegalPieces(ps) && PiecesText(ps) == line && Balanced(ps) {
      ReadsComplete(ps);
    }
  }

  /** After a complete line the automaton is back at its start: what follows is judged on its own. */
  lemma CompleteLineIsNeutral(a: string, b: string)
    requires VerdictOn(a) == Complete
    ensures VerdictOn(a + b) == VerdictOn(b)
  {
    ScanIsRun(a);
    ScanIsRun(b);
    ScanIsRun(a + b);
    RunAppend(START, a, b);
  }
}
