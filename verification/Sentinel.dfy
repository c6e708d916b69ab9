/** The sentinel protocol of the persistent shell, as functions of the whole byte stream.

    After each command the shell prints a marker, the exit code and a terminator.  `Scan` finds
    them in the bytes a call has before it; `Live` and `Final` say which of these bytes the user
    gets to see.  Nothing here reads byte by byte: PtyShell does, and is proved against this. */
module Sentinel {
  import opened Text
  import opened Decimal

  /** The record separator, 0x1e, that brackets a marker. */
  const RS := '\U{1E}'

  function Marker(nonce: string, id: nat): string {
    [RS] + nonce + Itoa(id) + [RS]
  }

  /** What is written to the shell: the line, then a printf whose octal escapes become the marker. */
  function Inject(nonce: string, id: nat, line: string): string {
    line + "; printf '\\036" + nonce + Itoa(id) + "\\036%d\\036\\n' $?\n"
  }

  /** A nonce is hex text: it holds neither a separator nor a line break. */
  predicate Clean(s: string) {
    RS !in s && '\n' !in s
  }

  // ----- what the shell prints

  predicate IsOctal(c: char) {
    '0' <= c <= '7'
  }

  /** How many octal digits the text starts with, counting at most `max`. */
  function OctalDigits(s: string, max: nat): (n: nat)
    ensures n <= |s| && n <= max
    ensures forall i :: 0 <= i < n ==> IsOctal(s[i])
    ensures n < max && n < |s| ==> !IsOctal(s[n])
  {
    if max == 0 || s == "" || !IsOctal(s[0]) then 0 else 1 + OctalDigits(s[1..], max - 1)
  }

  function OctalValue(digits: string): nat
    requires forall i :: 0 <= i < |digits| ==> IsOctal(digits[i])
  {
    if digits == "" then 0
    else
      assert IsOctal(digits[|digits| - 1]);
      8 * OctalValue(digits[..|digits| - 1]) + (digits[|digits| - 1] as int - '0' as int)
  }

  /** The printf utility of POSIX.1 XCU with one numeric argument: a backslash and up to three octal digits
      are one byte, `\n` is a line break, `%d` the argument, and the rest stands for itself.  Other
      escapes and conversions do not occur. */
  function Printf(format: string, arg: string): string
    decreases |format|
  {
    if format == "" then ""
    else if format[0] == '\\' && OctalDigits(format[1..], 3) > 0 then
      var n := OctalDigits(format[1..], 3);
      [(OctalValue(format[1..][..n]) % 256) as char] + Printf(format[1 + n..], arg)
    else if "\\n" <= format then "\n" + Printf(format[2..], arg)
    else if "%d" <= format then arg + Printf(format[2..], arg)
    else [format[0]] + Printf(format[1..], arg)
  }

  /** Text that means itself in a format between single quotes. */
  predicate PrintsAsIs(s: string) {
    '\\' !in s && '%' !in s && '\'' !in s
  }

  lemma {:induction false} PrintfOfText(s: string, format: string, arg: string)
    requires PrintsAsIs(s)
    ensures Printf(s + format, arg) == s + Printf(format, arg)
    decreases |s|
  {
    if s == "" {
      assert s + format == format;
    } else {
      assert (s + format)[1..] == s[1..] + format;
      assert s[0] in s && PrintsAsIs(s[1..]);
      PrintfOfText(s[1..], format, arg);
      assert [s[0]] + (s[1..] + Printf(format, arg)) == s + Printf(format, arg);
    }
  }

  /** Three octal digits are taken, whatever follows them: a digit of the nonce is safe there. */
  lemma PrintfOfSeparator(format: string, arg: string)
    ensures Printf("\\036" + format, arg) == [RS] + Printf(format, arg)
  {
    var s := "\\036" + format;
    assert s[1..][0] == '0' && s[1..][1] == '3' && s[1..][2] == '6';
    var n := OctalDigits(s[1..], 3);
    assert n == 3;
    assert s[1..][..3] == "036" && "036"[..2] == "03" && "03"[..1] == "0" && "0"[..0] == "";
    assert OctalValue("036") == 30;
    assert s[4..] == format;
  }

  /** What follows the command's number in the format. */
  const FORMAT_END := "\\036%d\\036\\n"

  lemma PrintfOfEnd(arg: string)
    ensures Printf(FORMAT_END, arg) == [RS] + arg + [RS] + "\n"
  {
    hide Printf;
    var last := "\\n";
    assert FORMAT_END == "\\036" + ("%d" + ("\\036" + last));
    PrintfOfSeparator("%d" + ("\\036" + last), arg);
    PrintfOfArgument("\\036" + last, arg);
    PrintfOfSeparator(last, arg);
    PrintfOfBreak(arg);
    Nested([RS], arg, [RS], "\n");
  }

  lemma Nested(a: string, b: string, c: string, d: string)
    ensures a + (b + (c + d)) == a + b + c + d
  {
  }

  lemma PrintfOfArgument(format: string, arg: string)
    ensures Printf("%d" + format, arg) == arg + Printf(format, arg)
  {
    assert ("%d" + format)[2..] == format;
  }

  lemma PrintfOfBreak(arg: string)
    ensures Printf("\\n", arg) == "\n"
  {
    assert "\\n"[1..] == "n" && OctalDigits("n", 3) == 0;
    assert "\\n"[2..] == "";
  }

  lemma FormatPrints(name: string, arg: string)
    requires PrintsAsIs(name)
    ensures Printf("\\036" + name + FORMAT_END, arg) == [RS] + name + [RS] + arg + [RS] + "\n"
  {
    hide Printf, PrintsAsIs;
    assert "\\036" + name + FORMAT_END == "\\036" + (name + FORMAT_END);
    PrintfOfSeparator(name + FORMAT_END, arg);
    PrintfOfText(name, FORMAT_END, arg);
    PrintfOfEnd(arg);
    Nested([RS], name, [RS], arg);
    Nested([RS] + name + [RS], arg, [RS], "\n");
    assert [RS] + (name + ([RS] + arg + [RS] + "\n")) == [RS] + name + [RS] + arg + [RS] + "\n";
  }

  /** The quoted format of a printf whose argument is the exit code of the command line before it. */
  function FormatIn(sent: string, line: string): string {
    var from, upTo := |line| + |"; printf '"|, |sent| - |"' $?\n"|;
    if from <= upTo && sent[..from] == line + "; printf '" && sent[upTo..] == "' $?\n" then sent[from..upTo] else ""
  }

  /** What the shell prints after the output of a command that ended with `code`. */
  function Printed(sent: string, line: string, code: int): string {
    Printf(FormatIn(sent, line), Itoa(code))
  }

  lemma FormatInjected(nonce: string, id: nat, line: string)
    ensures var format := "\\036" + (nonce + Itoa(id)) + FORMAT_END;
            Inject(nonce, id, line) == line + "; printf '" + format + "' $?\n" &&
            FormatIn(Inject(nonce, id, line), line) == format
  {
    var sent := Inject(nonce, id, line);
    var format := "\\036" + (nonce + Itoa(id)) + FORMAT_END;
    assert "\\036%d\\036\\n' $?\n" == FORMAT_END + "' $?\n";
    assert "; printf '\\036" == "; printf '" + "\\036";
    assert sent == (line + "; printf '") + format + "' $?\n";
  }

  lemma NameIsPlain(nonce: string, id: nat)
    requires PrintsAsIs(nonce)
    ensures PrintsAsIs(nonce + Itoa(id))
    ensures '\'' !in "\\036" + (nonce + Itoa(id)) + FORMAT_END
  {
    assert forall c :: c in Itoa(id) ==> c != '\\' && c != '%' && c != '\'';
  }

  /** The injected text makes the shell print the marker the reader waits for, then the exit code, a
      separator and a line break: it is the line and a printf whose format holds no quote and expands to
      just that, for every nonce, number and exit code. */
  lemma InjectPrintsMarker(nonce: string, id: nat, line: string, code: int)
    requires PrintsAsIs(nonce)
    ensures var format := FormatIn(Inject(nonce, id, line), line);
            Inject(nonce, id, line) == line + "; printf '" + format + "' $?\n" && '\'' !in format
    ensures Printed(Inject(nonce, id, line), line, code) == Marker(nonce, id) + Itoa(code) + [RS] + "\n"
  {
    hide Printf, Inject, FormatIn, PrintsAsIs, Itoa;
    FormatInjected(nonce, id, line);
    NameIsPlain(nonce, id);
    FormatPrints(nonce + Itoa(id), Itoa(code));
    assert [RS] + (nonce + Itoa(id)) + [RS] + Itoa(code) == Marker(nonce, id) + Itoa(code);
  }

  // ----- holding back the start of a marker

  predicate EndsWithPrefix(s: string, marker: string, n: int) {
    0 <= n <= |s| && n < |marker| && s[|s| - n..] <= marker
  }

  function HoldFrom(s: string, marker: string, n: nat): (h: nat)
    requires n <= |s| && n < |marker|
    ensures h <= n && EndsWithPrefix(s, marker, h)
    ensures forall k :: h < k <= n ==> !EndsWithPrefix(s, marker, k)
  {
    if n == 0 || EndsWithPrefix(s, marker, n) then n else HoldFrom(s, marker, n - 1)
  }

  /** Length of the longest suffix of `s` that is a proper prefix of the marker. */
  function Hold(s: string, marker: string): (h: nat)
    requires marker != ""
    ensures EndsWithPrefix(s, marker, h)
    ensures forall k :: EndsWithPrefix(s, marker, k) ==> k <= h
  {
    HoldFrom(s, marker, if |marker| - 1 > |s| then |s| else |marker| - 1)
  }

  /** The part of `s` that cannot be the beginning of a marker. */
  function Safe(s: string, marker: string): (n: nat)
    requires marker != ""
    ensures n <= |s|
  {
    |s| - Hold(s, marker)
  }

  /** One more byte never takes back what was safe. */
  lemma SafeGrows(s: string, b: char, marker: string)
    requires marker != ""
    ensures Safe(s, marker) <= Safe(s + [b], marker)
  {
    var n := Hold(s + [b], marker);
    if n > 0 {
      var t := s + [b];
      assert t[|t| - n..][..n - 1] == s[|s| - (n - 1)..];
      assert EndsWithPrefix(s, marker, n - 1);
    }
  }

  /** The hold-back is minimal: whatever is held can still turn into a marker, so a shorter hold
      would show the user a marker byte; and nothing safe ever becomes part of one. */
  lemma HoldIsMinimal(s: string, marker: string)
    requires marker != "" && !Contains(s, marker)
    ensures Hold(s, marker) > 0 ==>
              OccursAt(s + marker[Hold(s, marker)..], marker, Safe(s, marker))
    ensures forall more: string, i {:trigger OccursAt(s + more, marker, i)} ::
              OccursAt(s + more, marker, i) ==> Safe(s, marker) <= i
  {
    var h := Hold(s, marker);
    var t := s + marker[h..];
    if h > 0 {
      assert t[Safe(s, marker)..Safe(s, marker) + |marker|] == s[|s| - h..] + marker[h..] == marker by {
        assert s[|s| - h..] == marker[..h];
      }
    }
    forall more: string, i | OccursAt(s + more, marker, i)
      ensures Safe(s, marker) <= i
    {
      var u := s + more;
      if i + |marker| <= |s| {
        assert u[i..i + |marker|] == s[i..i + |marker|];
        assert OccursAt(s, marker, i);
      } else if i < |s| {
        assert u[i..i + |marker|][..|s| - i] == u[i..|s|] == s[i..];
        assert EndsWithPrefix(s, marker, |s| - i);
      }
    }
  }

  // ----- recognising the echo

  /** Whether the echoed command line has been told apart from output, and how much it covers. */
  datatype Echo = Pending | Settled(cut: nat)

  /** How much to drop, judged on the bytes seen when the stream first differs from the injected
      text: the first line with its break if that line starts with the command. */
  function EchoCut(line: string, seen: string): (cut: nat)
    ensures cut <= |seen|
  {
    var i := IndexOf(seen, '\n');
    if i >= 0 && line <= seen[..i] then i + 1 else 0
  }

  /** While the stream repeats the injected text it may be an echo; at the first difference the
      echoed line is dropped if it can be spotted. */
  function EchoOf(inject: string, line: string, s: string): (e: Echo)
    ensures e.Pending? <==> s <= inject
    ensures e.Settled? ==> e.cut <= |s|
  {
    if s <= inject then Pending
    else
      var d := CommonPrefix(s, inject);
      Settled(EchoCut(line, if d < |s| then s[..d + 1] else s))
  }

  lemma Diverges(inject: string, s: string)
    requires !(s <= inject)
    ensures CommonPrefix(s, inject) < |s|
  {
  }

  /** The verdict on the echo is given at the byte that tells, and is never revised. */
  lemma EchoIsFinal(inject: string, line: string, s: string, more: string)
    requires EchoOf(inject, line, s).Settled?
    ensures EchoOf(inject, line, s + more) == EchoOf(inject, line, s)
  {
    hide EchoCut;
    Diverges(inject, s);
    PrefixShrinks(s, more, inject);
    var t := s + more;
    var d := CommonPrefix(s, inject);
    assert t[..d] == s[..d];
    CommonPrefixIs(t, inject, d);
    assert t[..d + 1] == s[..d + 1];
  }

  /** The verdict at the very byte where the stream leaves the injected text. */
  lemma EchoSettles(inject: string, line: string, s: string, b: char)
    requires s <= inject && !(s + [b] <= inject)
    ensures EchoOf(inject, line, s + [b]) == Settled(EchoCut(line, s + [b]))
  {
    hide EchoCut;
    var t := s + [b];
    assert t[..|s|] == s == inject[..|s|];
    if |s| < |inject| {
      assert t[|s|] != inject[|s|] by {
        assert inject[..|s| + 1] == s + [inject[|s|]];
      }
    }
    CommonPrefixIs(t, inject, |s|);
    assert t[..|s| + 1] == t;
  }

  /** The shape of an injected text: it starts with the line and breaks the line only at its end. */
  predicate IsInjection(inject: string, line: string) {
    line <= inject && |line| < |inject| && inject[|inject| - 1] == '\n' &&
    forall i :: 0 <= i < |inject| - 1 ==> inject[i] != '\n'
  }

  lemma InjectShape(nonce: string, id: nat, line: string)
    requires '\n' !in line && '\n' !in nonce
    ensures IsInjection(Inject(nonce, id, line), line)
  {
    assert forall c :: c in Itoa(id) ==> c != '\n';
  }

  /** The bytes seen up to the first difference: those of the injected text, then one more. */
  lemma SeenBytes(inject: string, s: string)
    requires !(s <= inject)
    ensures var d := CommonPrefix(s, inject);
            d < |s| && d <= |inject| && s[..d + 1][d] == s[d] &&
            forall i :: 0 <= i < d ==> s[..d + 1][i] == inject[i]
  {
    Diverges(inject, s);
    hide CommonPrefix;
    var d := CommonPrefix(s, inject);
    forall i | 0 <= i < d
      ensures s[..d + 1][i] == inject[i]
    {
      assert s[..d + 1][i] == s[..d][i] == inject[..d][i];
    }
  }

  lemma OneBreak(inject: string, line: string)
    requires IsInjection(inject, line)
    ensures inject != "" && inject[|inject| - 1] == '\n'
    ensures forall i :: 0 <= i < |inject| - 1 ==> inject[i] != '\n'
  {
  }

  lemma FirstBreak(inject: string, line: string, s: string)
    requires IsInjection(inject, line) && !(s <= inject)
    ensures var d := CommonPrefix(s, inject);
            d < |s| &&
            IndexOf(s[..d + 1], '\n') == if d == |inject| then |inject| - 1 else if s[d] == '\n' then d else -1
  {
    hide CommonPrefix, IndexOf, IsInjection;
    SeenBytes(inject, s);
    OneBreak(inject, line);
    BreakIn(inject, s[..CommonPrefix(s, inject) + 1]);
  }

  /** Where the line breaks in the first bytes of an injected text followed by one byte more. */
  lemma BreakIn(inject: string, seen: string)
    requires 0 < |seen| <= |inject| + 1 && inject != "" && inject[|inject| - 1] == '\n'
    requires forall i :: 0 <= i < |inject| - 1 ==> inject[i] != '\n'
    requires forall i :: 0 <= i < |seen| - 1 ==> seen[i] == inject[i]
    ensures var d := |seen| - 1;
            IndexOf(seen, '\n') == if d == |inject| then |inject| - 1 else if seen[d] == '\n' then d else -1
  {
    hide IndexOf;
    var d := |seen| - 1;
    if d == |inject| {
      FirstIs(seen, '\n', |inject| - 1);
    } else if seen[d] == '\n' {
      FirstIs(seen, '\n', d);
    } else {
      NowhereIs(seen, '\n');
    }
  }

  lemma NowhereIs(s: string, c: char)
    requires forall j :: 0 <= j < |s| ==> s[j] != c
    ensures IndexOf(s, c) == -1
  {
    hide IndexOf;
  }

  lemma FirstIs(s: string, c: char, i: nat)
    requires i < |s| && s[i] == c && forall j :: 0 <= j < i ==> s[j] != c
    ensures IndexOf(s, c) == i
  {
    hide IndexOf;
  }

  /** Closed form of the verdict.  With `d` the length of the common prefix with the injected
      text: a full echo is dropped whole; a stream that breaks the line at `d`, at or after the
      end of the command, loses those `d + 1` bytes; anything else loses nothing. */
  lemma EchoClosedForm(inject: string, line: string, s: string)
    requires IsInjection(inject, line)
    ensures var d := CommonPrefix(s, inject);
            EchoOf(inject, line, s) ==
              if s <= inject then Pending
              else if d == |inject| then Settled(|inject|)
              else if s[d] == '\n' && d >= |line| then Settled(d + 1)
              else Settled(0)
  {
    if !(s <= inject) {
      FirstBreak(inject, line, s);
      hide CommonPrefix, IndexOf;
      var d := CommonPrefix(s, inject);
      var i := IndexOf(s[..d + 1], '\n');
      if i >= 0 {
        assert s[..d + 1][..i] == inject[..i] by {
          assert s[..d + 1][..i] == s[..d][..i];
        }
        PrefixUpTo(inject, line, i);
      }
    }
  }

  lemma PrefixUpTo(s: string, p: string, n: nat)
    requires p <= s && n <= |s|
    ensures p <= s[..n] <==> |p| <= n
  {
    if |p| <= n {
      assert s[..n][..|p|] == s[..|p|] == p;
    }
  }

  lemma NeitherHolds(c: char, a: string, b: string)
    requires c !in a && c !in b
    ensures c !in a + b
  {
  }

  lemma NoSeparatorInjected(nonce: string, id: nat, line: string)
    requires RS !in line && RS !in nonce
    ensures RS !in Inject(nonce, id, line)
  {
    var start, end := "; printf '\\036", "\\036%d\\036\\n' $?\n";
    assert RS !in Itoa(id);
    NeitherHolds(RS, line, start);
    NeitherHolds(RS, line + start, nonce);
    NeitherHolds(RS, line + start + nonce, Itoa(id));
    NeitherHolds(RS, line + start + nonce + Itoa(id), end);
  }

  // ----- what the user sees

  function StripEcho(output: string, line: string): string {
    var i := IndexOf(output, '\n');
    if i >= 0 && line <= output[..i] then output[i + 1..] else output
  }

  /** What has been shown once `s` has arrived and no marker has been seen. */
  function Live(inject: string, line: string, marker: string, s: string): string
    requires marker != ""
  {
    match EchoOf(inject, line, s)
    case Pending => ""
    case Settled(cut) => if cut < Safe(s, marker) then s[cut..Safe(s, marker)] else ""
  }

  /** Index up to which the bytes of `s` have been shown or dropped as echo. */
  function Flushed(inject: string, line: string, marker: string, s: string): nat
    requires marker != ""
  {
    match EchoOf(inject, line, s)
    case Pending => 0
    case Settled(cut) => if cut < Safe(s, marker) then Safe(s, marker) else cut
  }

  /** What a successful call has shown in all: the bytes before the marker without the echo. */
  function Final(inject: string, line: string, marker: string, pre: string): string
    requires marker != ""
  {
    match EchoOf(inject, line, pre + marker[..|marker| - 1])
    case Pending => StripEcho(pre, line)
    case Settled(cut) => if cut < |pre| then pre[cut..] else ""
  }

  lemma LiveStep(inject: string, line: string, marker: string, s: string, b: char)
    requires marker != ""
    ensures Live(inject, line, marker, s) <= Live(inject, line, marker, s + [b])
  {
    hide EchoOf;
    var t := s + [b];
    SafeGrows(s, b, marker);
    match EchoOf(inject, line, s)
    case Pending =>
    case Settled(cut) =>
      EchoIsFinal(inject, line, s, [b]);
      if cut < Safe(s, marker) {
        assert s[cut..Safe(s, marker)] == t[cut..Safe(s, marker)];
      }
  }

  /** Showing is monotone: later output extends earlier output. */
  lemma {:induction false} LiveGrows(inject: string, line: string, marker: string, s: string, more: string)
    requires marker != ""
    ensures Live(inject, line, marker, s) <= Live(inject, line, marker, s + more)
    decreases |more|
  {
    if more == "" {
      assert s + more == s;
    } else {
      var t := s + [more[0]];
      assert t + more[1..] == s + more;
      LiveStep(inject, line, marker, s, more[0]);
      LiveGrows(inject, line, marker, t, more[1..]);
      PrefixTransitive(Live(inject, line, marker, s), Live(inject, line, marker, t),
                       Live(inject, line, marker, s + more));
    }
  }

  lemma HoldAllButLast(pre: string, marker: string)
    requires marker != ""
    ensures Safe(pre + marker[..|marker| - 1], marker) == |pre|
  {
    var s := pre + marker[..|marker| - 1];
    assert s[|s| - (|marker| - 1)..] == marker[..|marker| - 1];
    assert EndsWithPrefix(s, marker, |marker| - 1);
  }

  /** When the marker completes, everything before it is already on the screen unless the echo is
      still undecided: the last flush has nothing to write. */
  lemma NothingLeftToFlush(inject: string, line: string, marker: string, pre: string)
    requires marker != ""
    ensures var s := pre + marker[..|marker| - 1];
            EchoOf(inject, line, s).Settled? ==>
              Live(inject, line, marker, s) == Final(inject, line, marker, pre)
    ensures var s := pre + marker[..|marker| - 1];
            EchoOf(inject, line, s).Pending? ==> Live(inject, line, marker, s) == ""
  {
    hide EchoOf;
    HoldAllButLast(pre, marker);
    var s := pre + marker[..|marker| - 1];
    match EchoOf(inject, line, s)
    case Pending =>
    case Settled(cut) =>
      if cut < |pre| {
        assert s[cut..|pre|] == pre[cut..];
      }
  }

  lemma LiveBeforeFinal(inject: string, line: string, marker: string, pre: string)
    requires marker != ""
    ensures Live(inject, line, marker, pre + marker[..|marker| - 1]) <= Final(inject, line, marker, pre)
  {
    NothingLeftToFlush(inject, line, marker, pre);
  }

  /** The echo is always decided by the time the marker completes: the injected text spells the
      separator as an escape and so can never agree with the marker's first byte. */
  lemma EchoDecidedByMarker(nonce: string, id: nat, line: string, pre: string)
    requires RS !in line && RS !in nonce
    ensures var m := Marker(nonce, id);
            EchoOf(Inject(nonce, id, line), line, pre + m[..|m| - 1]).Settled?
  {
    var m := Marker(nonce, id);
    var s := pre + m[..|m| - 1];
    var inject := Inject(nonce, id, line);
    NoSeparatorInjected(nonce, id, line);
    assert s[|pre|] == RS;
    PrefixChars(s, inject);
  }

  /** The marker's first byte ends the agreement with the injected text. */
  lemma PrefixEndsAtMarker(inject: string, m: string, pre: string)
    requires RS !in inject && |m| >= 2 && m[0] == RS
    ensures var s := pre + m[..|m| - 1];
            !(s <= inject) && s[|pre|] == RS && CommonPrefix(s, inject) == CommonPrefix(pre, inject)
  {
    var s, d := pre + m[..|m| - 1], CommonPrefix(pre, inject);
    assert s[|pre|] == RS;
    assert s[..d] == pre[..d];
    PrefixChars(s, inject);
    CommonPrefixIs(s, inject, d);
  }

  /** The bytes before a marker without the echo.  With `d` the common prefix of output and injected
      text: a full echo is dropped; a line break at `d`, at or after the end of the command, drops `d + 1`
      bytes; anything else is kept from its first byte. */
  function WithoutEcho(inject: string, line: string, pre: string): string {
    var d := CommonPrefix(pre, inject);
    if d == |inject| then pre[|inject|..]
    else if d < |pre| && pre[d] == '\n' && d >= |line| then pre[d + 1..]
    else pre
  }

  lemma FinalByPrefix(inject: string, line: string, m: string, pre: string)
    requires IsInjection(inject, line) && RS !in inject && |m| >= 2 && m[0] == RS
    ensures Final(inject, line, m, pre) == WithoutEcho(inject, line, pre)
  {
    hide EchoOf, StripEcho, CommonPrefix, IsInjection;
    var s, d := pre + m[..|m| - 1], CommonPrefix(pre, inject);
    PrefixEndsAtMarker(inject, m, pre);
    EchoClosedForm(inject, line, s);
    assert d < |pre| ==> s[d] == pre[d];
    assert d == |pre| ==> s[d] == RS;
    assert pre[0..] == pre;
  }

  /** Closed form of what a successful call shows, in terms of the output alone. */
  lemma FinalClosedForm(nonce: string, id: nat, line: string, pre: string)
    requires Clean(line) && Clean(nonce)
    ensures Final(Inject(nonce, id, line), line, Marker(nonce, id), pre)
         == WithoutEcho(Inject(nonce, id, line), line, pre)
  {
    hide Inject, Marker, Final, IsInjection, WithoutEcho;
    InjectShape(nonce, id, line);
    NoSeparatorInjected(nonce, id, line);
    MarkerShape(nonce, id);
    FinalByPrefix(Inject(nonce, id, line), line, Marker(nonce, id), pre);
  }

  /** A line break is never withheld, nor is anything before it. */
  lemma BreakIsSafe(s: string, m: string, c: nat)
    requires m != "" && '\n' !in m && c < |s| && s[c] == '\n'
    ensures c < Safe(s, m)
  {
    var k := Safe(s, m);
    PrefixChars(s[k..], m);
    assert forall i :: k <= i < |s| ==> s[i] == s[k..][i - k];
  }

  lemma WithheldIsHold(inject: string, line: string, m: string, s: string)
    requires m != "" && '\n' !in m && EchoOf(inject, line, s).Settled?
    ensures var cut := EchoOf(inject, line, s).cut;
            cut <= Safe(s, m) &&
            Flushed(inject, line, m, s) == Safe(s, m) &&
            Live(inject, line, m, s) == s[cut..Safe(s, m)]
  {
    var cut := EchoOf(inject, line, s).cut;
    if cut > 0 {
      Diverges(inject, s);
      assert s[cut - 1] == s[..CommonPrefix(s, inject) + 1][cut - 1] == '\n';
      BreakIsSafe(s, m, cut - 1);
    }
    hide EchoOf, Hold;
  }

  lemma MarkerHoldsNoBreak(nonce: string, id: nat)
    requires Clean(nonce)
    ensures '\n' !in Marker(nonce, id)
  {
    assert forall c :: c in Itoa(id) ==> c != '\n';
  }

  /** Once the echo is settled nothing is withheld but what may begin the marker: the echo never
      covers withheld bytes, everything safe has been shown or dropped, and the rest is the hold. */
  lemma OnlyTheHoldIsWithheld(nonce: string, id: nat, line: string, s: string)
    requires Clean(nonce) && EchoOf(Inject(nonce, id, line), line, s).Settled?
    ensures var inject, m := Inject(nonce, id, line), Marker(nonce, id);
            var cut := EchoOf(inject, line, s).cut;
            cut <= Safe(s, m) &&
            Flushed(inject, line, m, s) == Safe(s, m) &&
            Live(inject, line, m, s) == s[cut..Safe(s, m)]
  {
    hide Inject, EchoOf, Hold, Flushed, Live;
    MarkerHoldsNoBreak(nonce, id);
    WithheldIsHold(Inject(nonce, id, line), line, Marker(nonce, id), s);
  }

  /** An echo that repeats the injected text byte for byte is dropped, and nothing else is. */
  lemma ExactEchoIsDropped(inject: string, line: string, m: string, output: string)
    requires IsInjection(inject, line) && |m| >= 2
    ensures Final(inject, line, m, inject + output) == output
  {
    var s := inject + output + m[..|m| - 1];
    assert s[..|inject|] == inject;
    CommonPrefixIs(s, inject, |inject|);
    EchoClosedForm(inject, line, s);
  }

  /** An echo whose line break arrives as CR LF is not recognised: it is shown with the output. */
  lemma CrLfEchoIsShown(inject: string, line: string, m: string, output: string)
    requires IsInjection(inject, line) && m != ""
    ensures var pre := inject[..|inject| - 1] + "\r\n" + output;
            Final(inject, line, m, pre) == pre
  {
    var pre := inject[..|inject| - 1] + "\r\n" + output;
    var s := pre + m[..|m| - 1];
    assert s[..|inject| - 1] == inject[..|inject| - 1];
    assert s[|inject| - 1] == '\r';
    CommonPrefixIs(s, inject, |inject| - 1);
    EchoClosedForm(inject, line, s);
  }

  /** Output that does not begin like the injected text is shown from its first byte. */
  lemma PlainOutputIsShown(inject: string, line: string, m: string, output: string)
    requires IsInjection(inject, line) && m != "" && line != ""
    requires output != "" && output[0] != inject[0]
    ensures Final(inject, line, m, output) == output
  {
    var s := output + m[..|m| - 1];
    CommonPrefixIs(s, inject, 0);
    EchoClosedForm(inject, line, s);
  }

  // ----- finding a frame

  datatype Scan =
    | NoMarker                                    // the bytes run out before the marker
    | NoExit(at: nat)                             // ... or before the exit code's terminator
    | BadExit(at: nat, end: nat)                  // the text between is not an exit code
    | Complete(at: nat, code: int, end: nat)      // marker at `at`, code, terminator before `end`

  /** Reads one frame off the front of the stream. */
  function ScanFrame(marker: string, input: string): Scan {
    var at := Index(input, marker);
    if at < 0 then NoMarker
    else
      var after := input[at + |marker|..];
      var k := IndexOf(after, RS);
      if k < 0 then NoExit(at)
      else
        match Atoi(TrimSpace(after[..k]))
        case None => BadExit(at, at + |marker| + k + 1)
        case Some(code) => Complete(at, code, at + |marker| + k + 1)
  }

  /** How many bytes are taken after the frame to get past its line break. */
  function EolTaken(s: string): (n: nat)
    ensures n <= |s|
  {
    if s == "" then 0
    else if s[0] != '\r' then 1
    else if |s| == 1 then 1 else 2
  }

  /** The bytes of one answer: output, marker, code, terminator, line break. */
  function Frame(m: string, output: string, code: int, crlf: bool): string {
    output + m + (Itoa(code) + [RS] + Eol(crlf))
  }

  function Eol(crlf: bool): string {
    if crlf then "\r\n" else "\n"
  }

  /** The shape every marker has: separators at both ends and none inside. */
  predicate IsMarker(m: string) {
    |m| >= 2 && m[0] == m[|m| - 1] == RS && forall i :: 0 < i < |m| - 1 ==> m[i] != RS
  }

  lemma MarkerShape(nonce: string, id: nat)
    requires RS !in nonce
    ensures IsMarker(Marker(nonce, id))
  {
    var m := Marker(nonce, id);
    assert m[1..|m| - 1] == nonce + Itoa(id);
    assert forall i :: 0 < i < |m| - 1 ==> m[i] == (nonce + Itoa(id))[i - 1];
  }

  /** A marker overlaps itself only by its outer separators. */
  lemma MarkerBorder(m: string, k: nat)
    requires IsMarker(m) && 0 < k < |m| && m[|m| - k..] == m[..k]
    ensures k == 1
  {
    assert m[|m| - k] == m[|m| - k..][0] == m[..k][0] == RS;
  }

  lemma EarlyMarker(m: string, output: string, tail: string, i: nat)
    requires IsMarker(m) && i < |output|
    requires OccursAt(output + m + tail, m, i)
    ensures Contains(output + [RS], m)
  {
    var s := output + m + tail;
    var k := i + |m| - |output|;
    if k > 0 {
      assert m[|m| - k..] == s[i..i + |m|][|m| - k..] == s[|output|..|output| + k] == m[..k];
      MarkerBorder(m, k);
    }
    assert (output + [RS])[i..i + |m|] == s[i..i + |m|];
    assert OccursAt(output + [RS], m, i);
  }

  /** The marker is first found where it was printed, unless output followed by one separator
      already contains it; and that exception is real. */
  lemma MarkerFoundInPlace(m: string, output: string, tail: string)
    requires IsMarker(m)
    ensures Index(output + m + tail, m) == |output| <==> !Contains(output + [RS], m)
  {
    var s := output + m + tail;
    assert OccursAt(s, m, |output|);
    if Contains(output + [RS], m) {
      var i :| 0 <= i <= |output + [RS]| && OccursAt(output + [RS], m, i);
      assert s[i..i + |m|] == (output + [RS])[i..i + |m|];
      assert OccursAt(s, m, i);
    } else {
      var i := Index(s, m);
      if i < |output| {
        EarlyMarker(m, output, tail, i);
      }
    }
  }

  lemma ExitCodeRead(code: int, tail: string)
    requires MIN_INT64 <= code <= MAX_INT64
    ensures var after := Itoa(code) + [RS] + tail;
            var k := IndexOf(after, RS);
            k == |Itoa(code)| && Atoi(TrimSpace(after[..k])) == Some(code)
  {
    var after := Itoa(code) + [RS] + tail;
    assert after[|Itoa(code)|] == RS;
    assert forall i :: 0 <= i < |Itoa(code)| ==> after[i] == Itoa(code)[i];
    assert after[..|Itoa(code)|] == Itoa(code);
    CodeIsTrimmed(code);
    AtoiItoa(code);
  }

  /** A frame is read back exactly, whatever follows it, if and only if its output followed by one
      separator does not contain its own marker. */
  lemma FrameRoundTrip(m: string, output: string, code: int, crlf: bool, tail: string)
    requires IsMarker(m) && MIN_INT64 <= code <= MAX_INT64
    ensures !Contains(output + [RS], m) <==>
            ScanFrame(m, Frame(m, output, code, crlf) + tail)
              == Complete(|output|, code, |Frame(m, output, code, crlf)| - |Eol(crlf)|)
  {
    hide Contains, Atoi, TrimSpace, IndexOf, Index, Itoa;
    var rest := Itoa(code) + [RS] + (Eol(crlf) + tail);
    var s := Frame(m, output, code, crlf) + tail;
    assert s == output + m + rest;
    MarkerFoundInPlace(m, output, rest);
    assert s[|output| + |m|..] == rest;
    ExitCodeRead(code, Eol(crlf) + tail);
  }

  /** The drain after a frame takes exactly the frame's line break. */
  lemma FrameDrained(m: string, output: string, code: int, crlf: bool, tail: string)
    ensures var frame := Frame(m, output, code, crlf);
            var end := |frame| - |Eol(crlf)|;
            end + EolTaken((frame + tail)[end..]) == |frame|
  {
    var frame := Frame(m, output, code, crlf);
    assert (frame + tail)[|frame| - |Eol(crlf)|..] == Eol(crlf) + tail;
  }

  lemma CodeIsTrimmed(code: int)
    ensures TrimSpace(Itoa(code)) == Itoa(code)
  {
    var s := Itoa(code);
    assert !IsSpace(s[0]) && !IsSpace(s[|s| - 1]);
    TrimmedAlready(s);
  }

  /** What is drained after the terminator is a line break, or as much of one as there is, if and only if
      the first byte is LF or is CR with LF or nothing after it. */
  lemma DrainTakesABreakIff(s: string)
    ensures s[..EolTaken(s)] <= "\r\n" || s[..EolTaken(s)] == "\n" <==>
            s == "" || s[0] == '\n' || (s[0] == '\r' && (|s| == 1 || s[1] == '\n'))
  {
    var t := s[..EolTaken(s)];
    if s != "" {
      assert t[0] == s[0];
      if |t| == 2 {
        assert t == [s[0], s[1]];
      } else {
        assert t == [s[0]];
      }
    }
  }

  /** So a byte that is neither CR nor LF after the terminator is consumed and lost, although the
      comment in the source says it is not swallowed; and so is one that follows a CR. */
  lemma UnexpectedByteIsLost(b: char, rest: string)
    requires b != '\r' && b != '\n'
    ensures EolTaken([b] + rest) == 1
    ensures EolTaken(['\r', b] + rest) == 2
  {
  }

  /** Markers of different commands differ. */
  lemma MarkersDiffer(nonce: string, i: nat, j: nat)
    requires Marker(nonce, i) == Marker(nonce, j)
    ensures i == j
  {
    var m := Marker(nonce, i);
    assert m[1 + |nonce|..|m| - 1] == Itoa(i);
    assert m[1 + |nonce|..|m| - 1] == Itoa(j);
    ItoaInjective(i, j);
  }
}
