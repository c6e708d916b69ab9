/** The persistent shell: RunCommand and Cwd read the pseudo-terminal one byte at a time, show
    output as it arrives, and recover the exit code.  Both are proved against the whole-stream
    functions of Sentinel.

    `input` holds the bytes that will be read before the next read error.  `room` is how many more
    bytes the user's terminal accepts before a write to it fails. */
module PtyShell {
  import opened Text
  import opened Decimal
  import opened Sentinel

  datatype ShellError =
    | InjectFailed
    | TimedOut
    | ReadFailed
    | ExitReadFailed
    | ExitParseFailed
    | OutputFailed

  // ----- what one call does, as a function of the bytes before it

  /** Outcome of a call, the bytes it takes off the stream, and the text it shows. */
  datatype Reply = Reply(result: Result<int, ShellError>, taken: nat, shown: string)

  function RunReply(m: string, inject: string, line: string, input: string): (r: Reply)
    requires m != ""
    ensures r.taken <= |input|
  {
    match ScanFrame(m, input)
    case NoMarker => Reply(Err(ReadFailed), |input|, Live(inject, line, m, input))
    case NoExit(at) => Reply(Err(ExitReadFailed), |input|, Live(inject, line, m, input[..at] + m[..|m| - 1]))
    case BadExit(at, end) => Reply(Err(ExitParseFailed), end, Live(inject, line, m, input[..at] + m[..|m| - 1]))
    case Complete(at, code, end) =>
      Reply(Ok(code), end + EolTaken(input[end..]), Final(inject, line, m, input[..at]))
  }

  /** The exit code in the bytes after the marker, and how many bytes it takes to know it. */
  datatype Exit = Exit(code: Result<int, ShellError>, taken: nat)

  function ExitOf(after: string): (e: Exit)
    ensures e.taken <= |after|
    ensures e.code.Ok? || e.code == Err(ExitReadFailed) || e.code == Err(ExitParseFailed)
  {
    var k := IndexOf(after, RS);
    if k < 0 then Exit(Err(ExitReadFailed), |after|)
    else
      match Atoi(TrimSpace(after[..k]))
      case None => Exit(Err(ExitParseFailed), k + 1)
      case Some(code) => Exit(Ok(code), k + 1)
  }

  lemma ReplyByExit(m: string, inject: string, line: string, input: string)
    requires m != "" && Contains(input, m)
    ensures var at := Index(input, m);
            0 <= at && at + |m| <= |input| &&
            var Exit(code, k) := ExitOf(input[at + |m|..]);
            var end := at + |m| + k;
            RunReply(m, inject, line, input) ==
              if code.Ok? then Reply(code, end + EolTaken(input[end..]), Final(inject, line, m, input[..at]))
              else Reply(code, end, Live(inject, line, m, input[..at] + m[..|m| - 1]))
    ensures var at := Index(input, m);
            var Exit(code, k) := ExitOf(input[at + |m|..]);
            code.Ok? ==> ScanFrame(m, input) == Complete(at, code.value, at + |m| + k)
  {
    hide Live, Final, Atoi, TrimSpace, IndexOf;
  }

  datatype Captured = Captured(result: Result<(string, int), ShellError>, taken: nat)

  function CaptureReply(m: string, input: string): (r: Captured)
    ensures r.taken <= |input|
  {
    match ScanFrame(m, input)
    case NoMarker => Captured(Err(ReadFailed), |input|)
    case NoExit(at) => Captured(Err(ExitReadFailed), |input|)
    case BadExit(at, end) => Captured(Err(ExitParseFailed), end)
    case Complete(at, code, end) =>
      Captured(Ok((input[..at], code)), end + EolTaken(input[end..]))
  }

  lemma CaptureByExit(m: string, input: string)
    requires m != "" && Contains(input, m)
    ensures var at := Index(input, m);
            0 <= at && at + |m| <= |input| &&
            var Exit(code, k) := ExitOf(input[at + |m|..]);
            var end := at + |m| + k;
            CaptureReply(m, input) ==
              if code.Ok? then Captured(Ok((input[..at], code.value)), end + EolTaken(input[end..]))
              else Captured(Err(code.error), end)
  {
    hide Atoi, TrimSpace, IndexOf;
  }

  lemma BeforeMarkerCompletes(m: string, input: string)
    requires m != "" && Contains(input, m)
    ensures var at := Index(input, m);
            0 <= at && at + |m| <= |input| && input[..at + |m| - 1] == input[..at] + m[..|m| - 1]
  {
    var at := Index(input, m);
    assert input[at..at + |m|] == m;
  }

  /** What the bytes up to the one that completes the marker have shown. */
  lemma ReplyAtMarker(m: string, inject: string, line: string, input: string)
    requires m != "" && !ScanFrame(m, input).NoMarker?
    ensures Live(inject, line, m, input[..Index(input, m)] + m[..|m| - 1])
         <= RunReply(m, inject, line, input).shown
  {
    LiveBeforeFinal(inject, line, m, input[..Index(input, m)]);
  }

  /** Everything a call shows before it fails is a prefix of what it would show in all. */
  lemma LiveIsPrefixOfReply(m: string, inject: string, line: string, input: string, n: nat)
    requires m != "" && n <= |input| && !Contains(input[..n], m)
    ensures Live(inject, line, m, input[..n]) <= RunReply(m, inject, line, input).shown
  {
    if Contains(input, m) {
      BeforeMarkerCompletes(m, input);
      ReplyAtMarker(m, inject, line, input);
      StopsBeforeMarker(input, m, n);
      var s := input[..Index(input, m) + |m| - 1];
      assert s[..n] == input[..n] && input[..n] + s[n..] == s;
      LiveGrows(inject, line, m, input[..n], s[n..]);
      PrefixTransitive(Live(inject, line, m, input[..n]), Live(inject, line, m, s),
                       RunReply(m, inject, line, input).shown);
    } else {
      assert input[..n] + input[n..] == input;
      LiveGrows(inject, line, m, input[..n], input[n..]);
    }
  }

  lemma StopsBeforeMarker(input: string, m: string, n: nat)
    requires n <= |input| && !Contains(input[..n], m) && Contains(input, m) && m != ""
    ensures n <= Index(input, m) + |m| - 1
  {
    var at := Index(input, m);
    if at + |m| <= n {
      assert input[..n][at..at + |m|] == input[at..at + |m|];
    }
    assert at + |m| <= n ==> OccursAt(input[..n], m, at);
  }

  /** The part of the live output that the last byte of `s` has released. */
  function NewlyShown(inject: string, line: string, m: string, s: string): string
    requires m != "" && s != ""
  {
    var before, now := Live(inject, line, m, s[..|s| - 1]), Live(inject, line, m, s);
    if before <= now then now[|before|..] else ""
  }

  lemma ReleaseOne(inject: string, line: string, m: string, s: string)
    requires m != "" && s != ""
    ensures Live(inject, line, m, s) == Live(inject, line, m, s[..|s| - 1]) + NewlyShown(inject, line, m, s)
  {
    hide Live;
    LiveStep(inject, line, m, s[..|s| - 1], s[|s| - 1]);
    assert s[..|s| - 1] + [s[|s| - 1]] == s;
    PrefixSplits(Live(inject, line, m, s[..|s| - 1]), Live(inject, line, m, s));
  }

  /** Bytes `from..upto` of `s`, or nothing when there are none. */
  function Chunk(s: string, from: nat, upTo: nat): string {
    if from < upTo <= |s| then s[from..upTo] else ""
  }

  lemma Slices(s: string, n: nat, a: nat, b: nat, c: nat)
    requires a <= b <= c <= |s| && b <= n <= |s|
    ensures s[..n][a..b] <= s[a..c] && s[a..c][b - a..] == s[b..c]
  {
    assert s[..n][a..b] == s[a..b] == s[a..c][..b - a];
  }

  lemma ChunkAfterEcho(inject: string, line: string, m: string, s: string)
    requires m != "" && s != "" && EchoOf(inject, line, s[..|s| - 1]).Settled?
    ensures var from, upTo := Flushed(inject, line, m, s[..|s| - 1]), Safe(s, m);
            EchoOf(inject, line, s).Settled? &&
            NewlyShown(inject, line, m, s) == Chunk(s, from, upTo) &&
            Flushed(inject, line, m, s) == if from < upTo then upTo else from
  {
    hide EchoOf, EchoCut, Safe;
    var before, b := s[..|s| - 1], s[|s| - 1];
    assert s == before + [b];
    EchoIsFinal(inject, line, before, [b]);
    SafeGrows(before, b, m);
    var cut := EchoOf(inject, line, before).cut;
    var was, now := Live(inject, line, m, before), Live(inject, line, m, s);
    if cut < Safe(before, m) {
      Slices(s, |s| - 1, cut, Safe(before, m), Safe(s, m));
    } else {
      assert was == "" && now[|was|..] == now;
    }
  }

  lemma ChunkSettlingEcho(inject: string, line: string, m: string, s: string)
    requires m != "" && s != "" && EchoOf(inject, line, s[..|s| - 1]).Pending?
    ensures EchoOf(inject, line, s).Pending? ==>
              NewlyShown(inject, line, m, s) == "" &&
              Flushed(inject, line, m, s) == Flushed(inject, line, m, s[..|s| - 1])
    ensures EchoOf(inject, line, s).Settled? ==>
              var from, upTo := EchoCut(line, s), Safe(s, m);
              NewlyShown(inject, line, m, s) == Chunk(s, from, upTo) &&
              Flushed(inject, line, m, s) == if from < upTo then upTo else from
  {
    hide EchoOf, EchoCut, Safe;
    var before, b := s[..|s| - 1], s[|s| - 1];
    assert s == before + [b];
    if !(s <= inject) {
      EchoSettles(inject, line, before, b);
    }
  }

  /** The user's terminal before and after `text` is written to it: all of it when there is room,
      otherwise the part that fits. */
  predicate Writes(written: string, room: Option<nat>, text: string, ok: bool,
                   written': string, room': Option<nat>) {
    && ok == (room == None || |text| <= room.value)
    && (ok ==> written' == written + text)
    && (ok ==> room' == if room == None then None else Some(room.value - |text|))
    && (!ok ==> written' == written + text[..room.value] && room' == Some(0))
  }

  lemma WritesFit(w: string, r: Option<nat>, text: string, w': string, r': Option<nat>)
    requires Writes(w, r, text, true, w', r')
    ensures r == None || |text| <= r.value
  {
  }

  lemma TooMuchForRoom(w: string, r: Option<nat>, text: string, w': string, r': Option<nat>)
    requires Writes(w, r, text, false, w', r')
    ensures r.Some? && r.value < |text|
  {
  }

  lemma WritesCompose(w0: string, r0: Option<nat>, a: string, w1: string, r1: Option<nat>,
                      b: string, ok: bool, w2: string, r2: Option<nat>)
    requires Writes(w0, r0, a, true, w1, r1) && Writes(w1, r1, b, ok, w2, r2)
    ensures Writes(w0, r0, a + b, ok, w2, r2)
  {
    if !ok {
      assert (a + b)[..r0.value] == a + b[..r1.value];
    }
  }

  lemma WritesFailEarly(w: string, r: Option<nat>, part: string, whole: string, w': string, r': Option<nat>)
    requires Writes(w, r, part, false, w', r') && part <= whole
    ensures Writes(w, r, whole, false, w', r')
  {
    assert part == whole[..|part|];
    assert part[..r.value] == whole[..r.value];
  }

  /** The write to the user's terminal that fails is the first that does not fit, after `n` bytes: the one
      for byte `n` while there is no marker, or the last one, after the exit code's terminator. */
  predicate FailsAt(m: string, inject: string, line: string, input: string, room: Option<nat>, n: nat)
    requires m != ""
  {
    && room.Some? && 0 < n <= |input|
    && if Contains(input[..n], m) then
         match ScanFrame(m, input)
         case Complete(at, _, end) =>
           n == end &&
           |Live(inject, line, m, input[..at] + m[..|m| - 1])| <= room.value < |Final(inject, line, m, input[..at])|
         case _ => false
       else |Live(inject, line, m, input[..n - 1])| <= room.value < |Live(inject, line, m, input[..n])|
  }

  /** The deadline has passed before byte `n`, and not before any earlier one. */
  predicate FirstExpired(expired: nat -> bool, n: nat) {
    expired(n) && forall k :: 0 <= k < n ==> !expired(k)
  }

  /** The loop comes to look at the deadline before byte `n`: there is no marker yet, and the terminal has
      taken everything shown so far. */
  predicate Reaches(m: string, inject: string, line: string, input: string, room: Option<nat>, n: nat)
    requires m != ""
  {
    && n <= |input| && !Contains(input[..n], m)
    && (room == None || |Live(inject, line, m, input[..n])| <= room.value)
  }

  /** The loop never finds the deadline passed. */
  ghost predicate InTime(m: string, inject: string, line: string, expired: nat -> bool, input: string,
                         room: Option<nat>)
    requires m != ""
  {
    forall n: nat :: FirstExpired(expired, n) ==> !Reaches(m, inject, line, input, room, n)
  }

  /** What RunCommand may answer; it is determined.  If the loop comes to find the deadline passed, the
      call times out there, with the live output of the bytes read so far on the screen.  Otherwise it
      does not time out: it gives exactly the reply read off the stream, or, when the terminal fails, as
      much of the reply's output as it would take, with the stream left where the write failed. */
  ghost predicate Answers(r: Result<int, ShellError>, m: string, inject: string, line: string,
                          expired: nat -> bool, input: string, input': string,
                          written: string, room: Option<nat>, written': string, room': Option<nat>)
    requires m != ""
  {
    var reply := RunReply(m, inject, line, input);
    if r == Err(TimedOut) then
      exists n: nat ::
        FirstExpired(expired, n) && Reaches(m, inject, line, input, room, n) && input' == input[n..] &&
        Writes(written, room, Live(inject, line, m, input[..n]), true, written', room')
    else
      InTime(m, inject, line, expired, input, room) &&
      if r == Err(OutputFailed) then
        (exists n: nat :: FailsAt(m, inject, line, input, room, n) && input' == input[n..]) &&
        Writes(written, room, reply.shown, false, written', room')
      else
        r == reply.result && input' == input[reply.taken..] &&
        Writes(written, room, reply.shown, true, written', room')
  }

  lemma AnswerTimedOut(m: string, inject: string, line: string, expired: nat -> bool, input: string, n: nat,
                       w: string, r: Option<nat>, w': string, r': Option<nat>)
    requires m != "" && n <= |input| && FirstExpired(expired, n) && !Contains(input[..n], m)
    requires Writes(w, r, Live(inject, line, m, input[..n]), true, w', r')
    ensures Answers(Err(TimedOut), m, inject, line, expired, input, input[n..], w, r, w', r')
  {
    hide Live, FirstExpired, Contains;
    assert Reaches(m, inject, line, input, r, n);
  }

  lemma AnswerReadFailed(m: string, inject: string, line: string, expired: nat -> bool, input: string,
                         w: string, r: Option<nat>, w': string, r': Option<nat>)
    requires m != "" && !Contains(input, m) && InTime(m, inject, line, expired, input, r)
    requires Writes(w, r, Live(inject, line, m, input), true, w', r')
    ensures Answers(Err(ReadFailed), m, inject, line, expired, input, "", w, r, w', r')
  {
    hide Live, InTime;
  }

  lemma AnswerOutputFailed(m: string, inject: string, line: string, expired: nat -> bool, input: string, n: nat,
                           w: string, r: Option<nat>, w': string, r': Option<nat>)
    requires m != "" && FailsAt(m, inject, line, input, r, n) && InTime(m, inject, line, expired, input, r)
    requires Writes(w, r, RunReply(m, inject, line, input).shown, false, w', r')
    ensures Answers(Err(OutputFailed), m, inject, line, expired, input, input[n..], w, r, w', r')
  {
    hide FailsAt, Writes, RunReply, InTime;
  }

  lemma AnswerLiveFailed(m: string, inject: string, line: string, expired: nat -> bool, input: string, n: nat,
                         w: string, r: Option<nat>, w': string, r': Option<nat>)
    requires m != "" && 0 < n <= |input| && !Contains(input[..n], m) && InTime(m, inject, line, expired, input, r)
    requires r == None || |Live(inject, line, m, input[..n - 1])| <= r.value
    requires Writes(w, r, Live(inject, line, m, input[..n]), false, w', r')
    ensures Answers(Err(OutputFailed), m, inject, line, expired, input, input[n..], w, r, w', r')
  {
    hide Live, Contains, RunReply, ScanFrame, InTime;
    LiveIsPrefixOfReply(m, inject, line, input, n);
    WritesFailEarly(w, r, Live(inject, line, m, input[..n]), RunReply(m, inject, line, input).shown, w', r');
    hide Answers;
    AnswerOutputFailed(m, inject, line, expired, input, n, w, r, w', r');
  }

  /** The last write, once the exit code is known. */
  lemma AnswerLastFailed(m: string, inject: string, line: string, expired: nat -> bool, input: string,
                         w: string, r: Option<nat>, w': string, r': Option<nat>)
    requires m != "" && ScanFrame(m, input).Complete? && InTime(m, inject, line, expired, input, r)
    requires var at := ScanFrame(m, input).at;
             (r == None || |Live(inject, line, m, input[..at] + m[..|m| - 1])| <= r.value) &&
             Writes(w, r, Final(inject, line, m, input[..at]), false, w', r')
    ensures Answers(Err(OutputFailed), m, inject, line, expired, input, input[ScanFrame(m, input).end..], w, r, w', r')
  {
    hide Live, Final, InTime;
    var Complete(at, code, end) := ScanFrame(m, input);
    assert OccursAt(input[..end], m, at) by {
      assert input[..end][at..at + |m|] == input[at..at + |m|];
    }
    hide Answers, ScanFrame;
    AnswerOutputFailed(m, inject, line, expired, input, end, w, r, w', r');
  }

  lemma ContainsGrows(input: string, m: string, i: nat, j: nat)
    requires i <= j <= |input| && Contains(input[..i], m)
    ensures Contains(input[..j], m)
  {
    var at :| 0 <= at <= i && OccursAt(input[..i], m, at);
    assert input[..j][at..at + |m|] == input[..i][at..at + |m|];
    assert OccursAt(input[..j], m, at);
  }

  lemma LiveUpTo(m: string, inject: string, line: string, input: string, i: nat, j: nat)
    requires m != "" && i <= j <= |input|
    ensures Live(inject, line, m, input[..i]) <= Live(inject, line, m, input[..j])
  {
    hide Live;
    assert input[..i] + input[i..j] == input[..j];
    LiveGrows(inject, line, m, input[..i], input[i..j]);
  }

  /** Where the loop ends at `n` and was in time until then, it is in time. */
  lemma EndsInTime(m: string, inject: string, line: string, expired: nat -> bool, input: string,
                   room: Option<nat>, n: nat)
    requires m != "" && (forall k :: 0 <= k < n ==> !expired(k)) && !Reaches(m, inject, line, input, room, n)
    ensures InTime(m, inject, line, expired, input, room)
  {
    hide Live, Contains;
    forall j: nat | FirstExpired(expired, j)
      ensures !Reaches(m, inject, line, input, room, j)
    {
      if j <= |input| && n <= j {
        LiveUpTo(m, inject, line, input, n, j);
        if Contains(input[..n], m) {
          ContainsGrows(input, m, n, j);
        }
      }
    }
  }

  lemma LiveUpToMarker(m: string, inject: string, line: string, input: string, i: nat)
    requires m != "" && i <= |input| && !Contains(input[..i], m) && Contains(input, m)
    ensures var at := Index(input, m);
            0 <= at <= |input| &&
            Live(inject, line, m, input[..i]) <= Live(inject, line, m, input[..at] + m[..|m| - 1])
  {
    hide Live, Contains;
    BeforeMarkerCompletes(m, input);
    StopsBeforeMarker(input, m, i);
    LiveUpTo(m, inject, line, input, i, Index(input, m) + |m| - 1);
  }

  /** A write that fails at `j` has not failed before. */
  lemma FailsNoEarlier(m: string, inject: string, line: string, input: string, room: Option<nat>, i: nat, j: nat)
    requires m != "" && FailsAt(m, inject, line, input, room, j) && i < j
    ensures !FailsAt(m, inject, line, input, room, i)
  {
    hide Live, Final, Contains, Index, IndexOf, Atoi, TrimSpace;
    if Contains(input[..i], m) {
      ContainsGrows(input, m, i, j);
    } else if Contains(input[..j], m) {
      ContainsGrows(input, m, j, |input|);
      assert input[..|input|] == input;
      LiveUpToMarker(m, inject, line, input, i);
    } else {
      LiveUpTo(m, inject, line, input, i, j - 1);
    }
  }

  /** There is only one place where the terminal can fail. */
  lemma FailsAtOnePlace(m: string, inject: string, line: string, input: string, room: Option<nat>, i: nat, j: nat)
    requires m != ""
    ensures FailsAt(m, inject, line, input, room, i) && FailsAt(m, inject, line, input, room, j) ==> i == j
  {
    hide FailsAt;
    if FailsAt(m, inject, line, input, room, j) && i < j {
      FailsNoEarlier(m, inject, line, input, room, i, j);
    } else if FailsAt(m, inject, line, input, room, i) && j < i {
      FailsNoEarlier(m, inject, line, input, room, j, i);
    }
  }

  lemma FirstExpiredOnce(expired: nat -> bool, i: nat, j: nat)
    ensures FirstExpired(expired, i) && FirstExpired(expired, j) ==> i == j
  {
  }

  lemma FailuresAgree(m: string, inject: string, line: string, input: string, room: Option<nat>, a: string, b: string)
    requires m != ""
    requires exists n: nat :: FailsAt(m, inject, line, input, room, n) && a == input[n..]
    requires exists n: nat :: FailsAt(m, inject, line, input, room, n) && b == input[n..]
    ensures a == b
  {
    var i: nat :| FailsAt(m, inject, line, input, room, i) && a == input[i..];
    var j: nat :| FailsAt(m, inject, line, input, room, j) && b == input[j..];
    hide FailsAt;
    FailsAtOnePlace(m, inject, line, input, room, i, j);
  }

  lemma TimeoutsAgree(m: string, inject: string, line: string, expired: nat -> bool, input: string,
                      w: string, room: Option<nat>,
                      i1: string, w1: string, room1: Option<nat>, i2: string, w2: string, room2: Option<nat>)
    requires m != ""
    ensures Answers(Err(TimedOut), m, inject, line, expired, input, i1, w, room, w1, room1) &&
            Answers(Err(TimedOut), m, inject, line, expired, input, i2, w, room, w2, room2) ==>
              i1 == i2 && w1 == w2 && room1 == room2
  {
    hide Live, Contains, FirstExpired, RunReply;
    if Answers(Err(TimedOut), m, inject, line, expired, input, i1, w, room, w1, room1) &&
       Answers(Err(TimedOut), m, inject, line, expired, input, i2, w, room, w2, room2) {
      var a: nat :| FirstExpired(expired, a) && Reaches(m, inject, line, input, room, a) && i1 == input[a..] &&
                    Writes(w, room, Live(inject, line, m, input[..a]), true, w1, room1);
      var b: nat :| FirstExpired(expired, b) && Reaches(m, inject, line, input, room, b) && i2 == input[b..] &&
                    Writes(w, room, Live(inject, line, m, input[..b]), true, w2, room2);
      hide Answers, Reaches;
      FirstExpiredOnce(expired, a, b);
    }
  }

  lemma TimesOutIff(r: Result<int, ShellError>, m: string, inject: string, line: string, expired: nat -> bool,
                    input: string, input': string, w: string, room: Option<nat>, w': string, room': Option<nat>)
    requires m != ""
    ensures Answers(r, m, inject, line, expired, input, input', w, room, w', room') ==>
              (r == Err(TimedOut) <==> !InTime(m, inject, line, expired, input, room))
  {
    hide Live, Contains, FirstExpired, RunReply;
  }

  /** The bytes that arrive, the deadline and the terminal's room fix everything: the answer, what is left
      of the stream, and what the user sees. */
  lemma AnswerIsDetermined(m: string, inject: string, line: string, expired: nat -> bool, input: string,
                           w: string, room: Option<nat>,
                           r1: Result<int, ShellError>, i1: string, w1: string, room1: Option<nat>,
                           r2: Result<int, ShellError>, i2: string, w2: string, room2: Option<nat>)
    requires m != ""
    ensures Answers(r1, m, inject, line, expired, input, i1, w, room, w1, room1) &&
            Answers(r2, m, inject, line, expired, input, i2, w, room, w2, room2) ==>
              r1 == r2 && i1 == i2 && w1 == w2 && room1 == room2
  {
    hide Live, Reaches, FirstExpired, FailsAt, ScanFrame, Final, InTime;
    TimesOutIff(r1, m, inject, line, expired, input, i1, w, room, w1, room1);
    TimesOutIff(r2, m, inject, line, expired, input, i2, w, room, w2, room2);
    if r1 == Err(TimedOut) && r2 == Err(TimedOut) {
      TimeoutsAgree(m, inject, line, expired, input, w, room, i1, w1, room1, i2, w2, room2);
      hide Answers;
    } else if r1 == Err(OutputFailed) && r2 == Err(OutputFailed) &&
              Answers(r1, m, inject, line, expired, input, i1, w, room, w1, room1) &&
              Answers(r2, m, inject, line, expired, input, i2, w, room, w2, room2) {
      FailuresAgree(m, inject, line, input, room, i1, i2);
    }
  }

  /** The state of the loop before the marker: `acc` has been read off `all` in time, it holds no marker,
      and exactly its live output is on the screen. */
  ghost predicate Streaming(m: string, inject: string, line: string, expired: nat -> bool,
                            all: string, acc: string, input: string, echoHandled: bool, flushed: nat,
                            w0: string, r0: Option<nat>, w: string, r: Option<nat>)
    requires m != ""
  {
    && (forall k :: 0 <= k < |acc| ==> !expired(k))
    && |acc| <= |all| && acc == all[..|acc|] && input == all[|acc|..]
    && !Contains(acc, m)
    && echoHandled == EchoOf(inject, line, acc).Settled?
    && flushed == Flushed(inject, line, m, acc)
    && Writes(w0, r0, Live(inject, line, m, acc), true, w, r)
  }

  lemma StreamingStarts(m: string, inject: string, line: string, expired: nat -> bool, input: string,
                        w: string, r: Option<nat>)
    requires m != ""
    ensures Streaming(m, inject, line, expired, input, "", input, false, 0, w, r, w, r)
  {
  }

  lemma OccursUpTo(input: string, m: string, k: nat, j: nat)
    requires k <= |input|
    ensures OccursAt(input[..k], m, j) <==> OccursAt(input, m, j) && j + |m| <= k
  {
    if j + |m| <= k {
      assert input[..k][j..j + |m|] == input[j..j + |m|];
    }
  }

  /** The byte that completes the marker: the first occurrence ends there, in the bytes read so far
      and in the whole stream alike. */
  lemma MarkerCompletes(m: string, input: string, k: nat)
    requires m != "" && 0 < k <= |input|
    requires !Contains(input[..k - 1], m) && Contains(input[..k], m)
    ensures var at := k - |m|;
            at >= 0 && Index(input[..k], m) == at && Index(input, m) == at &&
            input[..k - 1] == input[..at] + m[..|m| - 1]
  {
    var at := Index(input[..k], m);
    OccursUpTo(input, m, k, at);
    OccursUpTo(input, m, k - 1, at);
    assert Index(input[..k - 1], m) == -1 && at + |m| == k;
    forall j | 0 <= j < at
      ensures !OccursAt(input, m, j)
    {
      OccursUpTo(input, m, k, j);
    }
    hide Contains, Index;
    assert input[at..k] == m && input[..k - 1] == input[..at] + input[at..k][..|m| - 1];
  }

  /** A captured call comes to look at the deadline before byte `n`: there is no marker yet. */
  predicate Waits(m: string, input: string, n: nat) {
    n <= |input| && !Contains(input[..n], m)
  }

  ghost predicate CapturedInTime(m: string, expired: nat -> bool, input: string) {
    forall n: nat :: FirstExpired(expired, n) ==> !Waits(m, input, n)
  }

  /** What a captured call may answer; it is determined as well, and has no terminal that could fail. */
  ghost predicate CaptureAnswers(r: Result<(string, int), ShellError>, m: string, expired: nat -> bool,
                                 input: string, input': string) {
    var reply := CaptureReply(m, input);
    if r == Err(TimedOut) then
      exists n: nat :: FirstExpired(expired, n) && Waits(m, input, n) && input' == input[n..]
    else
      CapturedInTime(m, expired, input) && r == reply.result && input' == input[reply.taken..]
  }

  lemma CaptureEndsInTime(m: string, expired: nat -> bool, input: string, n: nat)
    requires (forall k :: 0 <= k < n ==> !expired(k)) && !Waits(m, input, n)
    ensures CapturedInTime(m, expired, input)
  {
    hide Contains;
    forall j: nat | FirstExpired(expired, j)
      ensures !Waits(m, input, j)
    {
      if j <= |input| && n <= j {
        ContainsGrows(input, m, n, j);
      }
    }
  }

  /** The state of a captured call before its marker. */
  ghost predicate Reading(m: string, expired: nat -> bool, all: string, acc: string, input: string) {
    && (forall k :: 0 <= k < |acc| ==> !expired(k))
    && |acc| <= |all| && acc == all[..|acc|] && input == all[|acc|..] && !Contains(acc, m)
  }

  lemma ReadingStarts(m: string, expired: nat -> bool, input: string)
    requires m != ""
    ensures Reading(m, expired, input, "", input)
  {
  }

  lemma CaptureTimedOut(m: string, expired: nat -> bool, input: string, n: nat)
    requires FirstExpired(expired, n) && Waits(m, input, n)
    ensures CaptureAnswers(Err(TimedOut), m, expired, input, input[n..])
  {
  }

  lemma CaptureReadFailed(m: string, expired: nat -> bool, input: string)
    requires !Contains(input, m) && CapturedInTime(m, expired, input)
    ensures CaptureAnswers(Err(ReadFailed), m, expired, input, "")
  {
  }

  /** The answer of `pwd` as a directory. */
  function Directory(out: Result<(string, int), ShellError>): Result<string, ShellError> {
    match out
    case Err(e) => Err(e)
    case Ok(answer) => Ok(TrimSpace(StripEcho(answer.0, "pwd")))
  }

  /** A clean command that succeeds has shown the bytes before its marker without the echo. */
  lemma ShownWithoutEcho(nonce: string, id: nat, line: string, r: Result<int, ShellError>, expired: nat -> bool,
                         input: string, input': string, w: string, room: Option<nat>, w': string, room': Option<nat>)
    requires Clean(nonce) && Clean(line) && r.Ok?
    requires Answers(r, Marker(nonce, id), Inject(nonce, id, line), line, expired, input, input', w, room, w', room')
    ensures var at := Index(input, Marker(nonce, id));
            0 <= at <= |input| && w' == w + WithoutEcho(Inject(nonce, id, line), line, input[..at])
  {
    hide Marker, Inject, Live, Final, WithoutEcho, Contains, EolTaken, Atoi, TrimSpace, IndexOf;
    var at := Index(input, Marker(nonce, id));
    if at >= 0 {
      FinalClosedForm(nonce, id, line, input[..at]);
    }
  }

  class Shell {
    const nonce: string
    var nextID: nat
    var input: string
    var sent: string
    var broken: bool
    var written: string
    var room: Option<nat>

    ghost predicate Valid()
    {
      Clean(nonce)
    }

    constructor (nonce: string)
      requires Clean(nonce)
      ensures Valid() && this.nonce == nonce && nextID == 0 && input == "" && sent == "" && written == ""
      ensures !broken && room == None
    {
      this.nonce := nonce;
      nextID, input, sent, broken, written, room := 0, "", "", false, "", None;
    }

    method ReadByte() returns (b: Option<char>)
      modifies this`input
      ensures old(input) == "" ==> b == None && input == ""
      ensures old(input) != "" ==> b == Some(old(input)[0]) && input == old(input)[1..]
    {
      if input == "" {
        return None;
      }
      b := Some(input[0]);
      input := input[1..];
    }

    /** Injects text into the shell; false when the pseudo-terminal is gone. */
    method WriteShell(text: string) returns (ok: bool)
      modifies this`sent
      ensures ok == !broken
      ensures sent == if ok then old(sent) + text else old(sent)
    {
      ok := !broken;
      if ok {
        sent := sent + text;
      }
    }

    /** Writes to the user's terminal, which may take only part of the text and then fail. */
    method WriteUser(text: string) returns (ok: bool)
      modifies this`written, this`room
      ensures Writes(old(written), old(room), text, ok, written, room)
    {
      if room == None {
        written := written + text;
        return true;
      }
      ok := |text| <= room.value;
      if ok {
        written := written + text;
        room := Some(room.value - |text|);
      } else {
        written := written + text[..room.value];
        room := Some(0);
      }
    }

    /** How many trailing bytes of `s` to withhold because they could start the marker. */
    method MarkerPrefixHold(s: string, marker: string) returns (n: nat)
      requires marker != ""
      ensures n == Hold(s, marker)
    {
      var max := |marker| - 1;
      if max > |s| {
        max := |s|;
      }
      n := max;
      while n > 0
        invariant n <= max
        invariant forall k :: n < k <= max ==> !EndsWithPrefix(s, marker, k)
      {
        if s[|s| - n..] <= marker {
          assert EndsWithPrefix(s, marker, n);
          return n;
        }
        n := n - 1;
      }
      assert EndsWithPrefix(s, marker, 0);
    }

    /** Consumes the line break after the terminator, best effort. */
    method DrainMarkerEOL()
      modifies this`input
      ensures input == old(input)[EolTaken(old(input))..]
    {
      var i := 0;
      while i < 2
        invariant i <= 2 && i <= |old(input)| && input == old(input)[i..]
        invariant forall k :: 0 <= k < i ==> old(input)[k] == '\r'
      {
        var b := ReadByte();
        if b == None || b.value == '\n' || b.value != '\r' {
          return;
        }
        i := i + 1;
      }
    }

    /** Reads up to and including the next separator and decodes the text before it. */
    method ReadExitCode() returns (r: Result<int, ShellError>)
      modifies this`input
      ensures r == ExitOf(old(input)).code && input == old(input)[ExitOf(old(input)).taken..]
    {
      var rest := "";
      while IndexOf(rest, RS) < 0
        invariant |rest| <= |old(input)| && rest == old(input)[..|rest|] && input == old(input)[|rest|..]
        invariant forall i :: 0 <= i < |rest| - 1 ==> rest[i] != RS
        decreases |input|
      {
        var b := ReadByte();
        if b == None {
          assert rest == old(input);
          return Err(ExitReadFailed);
        }
        rest := rest + [b.value];
      }
      assert forall i :: 0 <= i < |rest| ==> rest[i] == old(input)[i];
      assert rest[..|rest| - 1] == old(input)[..|rest| - 1];
      match Atoi(TrimSpace(rest[..IndexOf(rest, RS)]))
      case None => r := Err(ExitParseFailed);
      case Some(code) => r := Ok(code);
    }

    /** One byte has been added to `full` and the marker is not complete: settle the echo if this
        byte tells, and show what has become safe. */
    method ShowLive(full: string, line: string, inject: string, marker: string,
                    echoHandled: bool, flushed: nat)
      returns (ok: bool, handled: bool, upTo: nat)
      requires marker != "" && full != ""
      requires echoHandled == EchoOf(inject, line, full[..|full| - 1]).Settled?
      requires flushed == Flushed(inject, line, marker, full[..|full| - 1])
      modifies this`written, this`room
      ensures handled == EchoOf(inject, line, full).Settled?
      ensures ok ==> upTo == Flushed(inject, line, marker, full)
      ensures Writes(old(written), old(room), NewlyShown(inject, line, marker, full), ok, written, room)
    {
      hide Live, NewlyShown, EchoOf, Flushed, Hold, IndexOf;
      handled, upTo := echoHandled, flushed;
      if !handled {
        ChunkSettlingEcho(inject, line, marker, full);
        if full <= inject {
          return true, false, upTo;
        }
        var i := IndexOf(full, '\n');
        upTo := if i >= 0 && line <= full[..i] then i + 1 else 0;
        handled := true;
        assert upTo == EchoCut(line, full);
        hide EchoCut;
      } else {
        hide EchoCut;
        ChunkAfterEcho(inject, line, marker, full);
      }
      ok := true;
      var hold := MarkerPrefixHold(full, marker);
      var safe := |full| - hold;
      if safe > upTo {
        ok := WriteUser(full[upTo..safe]);
        upTo := safe;
      }
    }

    /** The marker is complete and the code is known: write what has not been shown yet. */
    method ShowRest(output: string, line: string, ghost inject: string, ghost marker: string,
                    echoHandled: bool, flushed: nat)
      returns (ok: bool)
      requires marker != ""
      requires var s := output + marker[..|marker| - 1];
               echoHandled == EchoOf(inject, line, s).Settled? && flushed == Flushed(inject, line, marker, s)
      modifies this`written, this`room
      ensures var live := Live(inject, line, marker, output + marker[..|marker| - 1]);
              var final := Final(inject, line, marker, output);
              live <= final && Writes(old(written), old(room), final[|live|..], ok, written, room)
    {
      NothingLeftToFlush(inject, line, marker, output);
      HoldAllButLast(output, marker);
      var out, from := output, flushed;
      if !echoHandled {
        out, from := StripEcho(output, line), 0;
      }
      ok := true;
      if from < |out| {
        ok := WriteUser(out[from..]);
      }
    }

    /** Everything after the marker: exit code, last output, line break. */
    method FinishCommand(ghost all: string, ghost w0: string, ghost r0: Option<nat>,
                         output: string, line: string, ghost inject: string, ghost marker: string,
                         echoHandled: bool, flushed: nat, ghost expired: nat -> bool)
      returns (r: Result<int, ShellError>)
      requires marker != "" && InTime(marker, inject, line, expired, all, r0)
      requires Index(all, marker) == |output| && |output| + |marker| <= |all| && output == all[..|output|]
      requires input == all[|output| + |marker|..]
      requires var s := output + marker[..|marker| - 1];
               echoHandled == EchoOf(inject, line, s).Settled? &&
               flushed == Flushed(inject, line, marker, s) &&
               Writes(w0, r0, Live(inject, line, marker, s), true, written, room)
      modifies this`input, this`written, this`room
      ensures Answers(r, marker, inject, line, expired, all, input, w0, r0, written, room)
    {
      hide Live, EchoOf, Flushed, Final, ExitOf, EolTaken, RunReply, Index, ScanFrame, InTime;
      ghost var at := |output|;
      ghost var live := Live(inject, line, marker, output + marker[..|marker| - 1]);
      ReplyByExit(marker, inject, line, all);
      ghost var end := at + |marker| + ExitOf(input).taken;
      r := ReadExitCode();
      assert input == all[end..];
      if r.Err? {
        return;
      }
      ghost var w, rm, final := written, room, Final(inject, line, marker, output);
      var ok := ShowRest(output, line, inject, marker, echoHandled, flushed);
      WritesCompose(w0, r0, live, w, rm, final[|live|..], ok, written, room);
      PrefixSplits(live, final);
      if !ok {
        assert input == all[end..];
        AnswerLastFailed(marker, inject, line, expired, all, w0, r0, written, room);
        return Err(OutputFailed);
      }
      DrainMarkerEOL();
    }

    /** One turn of the loop: check the deadline, read a byte, then show what is safe or, when the
        marker is complete, finish. */
    method Turn(acc: string, line: string, inject: string, marker: string,
                echoHandled: bool, flushed: nat, expired: nat -> bool,
                ghost all: string, ghost w0: string, ghost r0: Option<nat>)
      returns (done: bool, r: Result<int, ShellError>, acc': string, handled: bool, upTo: nat)
      requires marker != ""
      requires Streaming(marker, inject, line, expired, all, acc, input, echoHandled, flushed, w0, r0, written, room)
      modifies this`input, this`written, this`room
      ensures done ==> Answers(r, marker, inject, line, expired, all, input, w0, r0, written, room)
      ensures !done ==>
                Streaming(marker, inject, line, expired, all, acc', input, handled, upTo, w0, r0, written, room) &&
                |input| < |old(input)|
    {
      hide Live, EchoOf, Flushed, Final, Contains, Answers, RunReply, NewlyShown, Writes, Index, InTime;
      done, r, acc', handled, upTo := true, Err(TimedOut), acc, echoHandled, flushed;
      if expired(|acc|) {
        AnswerTimedOut(marker, inject, line, expired, all, |acc|, w0, r0, written, room);
        return;
      }
      var b := ReadByte();
      if b == None {
        assert acc == all;
        EndsInTime(marker, inject, line, expired, all, r0, |acc| + 1);
        AnswerReadFailed(marker, inject, line, expired, all, w0, r0, written, room);
        r := Err(ReadFailed);
        return;
      }
      acc' := acc + [b.value];
      assert acc'[..|acc'| - 1] == acc == all[..|acc'| - 1] && acc' == all[..|acc'|];
      var idx := Index(acc', marker);
      if idx >= 0 {
        MarkerCompletes(marker, all, |acc'|);
        EndsInTime(marker, inject, line, expired, all, r0, |acc'|);
        r := FinishCommand(all, w0, r0, acc'[..idx], line, inject, marker, echoHandled, flushed, expired);
        return;
      }
      ghost var w, rm := written, room;
      WritesFit(w0, r0, Live(inject, line, marker, acc), w, rm);
      var ok;
      ok, handled, upTo := ShowLive(acc', line, inject, marker, echoHandled, flushed);
      ReleaseOne(inject, line, marker, acc');
      WritesCompose(w0, r0, Live(inject, line, marker, acc), w, rm,
                    NewlyShown(inject, line, marker, acc'), ok, written, room);
      done := !ok;
      if done {
        TooMuchForRoom(w0, r0, Live(inject, line, marker, acc'), written, room);
        EndsInTime(marker, inject, line, expired, all, r0, |acc'|);
        AnswerLiveFailed(marker, inject, line, expired, all, |acc'|, w0, r0, written, room);
        r := Err(OutputFailed);
      }
    }

    /** Runs one command and recovers its exit code.  `expired(n)` says whether the wall clock has
        passed the deadline when the loop is about to read byte `n`. */
    method RunCommand(line: string, expired: nat -> bool) returns (r: Result<int, ShellError>)
      requires Valid()
      modifies this
      ensures nextID == old(nextID) + 1 && broken == old(broken)
      ensures broken ==> r == Err(InjectFailed) && input == old(input) && sent == old(sent) &&
                         written == old(written) && room == old(room)
      ensures !broken ==>
                sent == old(sent) + Inject(nonce, nextID, line) &&
                Answers(r, Marker(nonce, nextID), Inject(nonce, nextID, line), line, expired,
                        old(input), input, old(written), old(room), written, room)
      ensures !broken && r.Ok? && Clean(line) ==>
                var at := Index(old(input), Marker(nonce, nextID));
                0 <= at <= |old(input)| &&
                written == old(written) + WithoutEcho(Inject(nonce, nextID, line), line, old(input)[..at])
    {
      nextID := nextID + 1;
      var marker := Marker(nonce, nextID);
      var inject := Inject(nonce, nextID, line);
      var ok := WriteShell(inject);
      if !ok {
        return Err(InjectFailed);
      }
      hide Marker, Inject, Answers, Streaming;
      ghost var all, w0, r0 := input, written, room;
      var acc, echoHandled, flushed, done := "", false, 0, false;
      r := Err(ReadFailed);
      StreamingStarts(marker, inject, line, expired, input, written, room);
      while !done
        invariant nextID == old(nextID) + 1 && broken == old(broken) && sent == old(sent) + inject
        invariant !done ==>
                    Streaming(marker, inject, line, expired, all, acc, input, echoHandled, flushed, w0, r0,
                              written, room)
        invariant done ==> Answers(r, marker, inject, line, expired, all, input, w0, r0, written, room)
        decreases !done, |input|
      {
        done, r, acc, echoHandled, flushed :=
          Turn(acc, line, inject, marker, echoHandled, flushed, expired, all, w0, r0);
      }
      if r.Ok? && Clean(line) {
        ShownWithoutEcho(nonce, nextID, line, r, expired, all, input, w0, r0, written, room);
      }
    }

    /** What follows the marker of a captured call. */
    method FinishCaptured(output: string, ghost all: string, ghost marker: string, ghost expired: nat -> bool)
      returns (r: Result<(string, int), ShellError>)
      requires marker != "" && CapturedInTime(marker, expired, all)
      requires Index(all, marker) == |output| && |output| + |marker| <= |all| && output == all[..|output|]
      requires input == all[|output| + |marker|..]
      modifies this`input
      ensures CaptureAnswers(r, marker, expired, all, input)
    {
      hide Contains, Index, CaptureReply, ExitOf, EolTaken, CapturedInTime;
      CaptureByExit(marker, all);
      ghost var end := |output| + |marker| + ExitOf(input).taken;
      var code := ReadExitCode();
      assert input == all[end..];
      if code.Err? {
        return Err(code.error);
      }
      DrainMarkerEOL();
      return Ok((output, code.value));
    }

    /** One turn of the loop of a captured call. */
    method CaptureTurn(acc: string, marker: string, expired: nat -> bool, ghost all: string)
      returns (done: bool, r: Result<(string, int), ShellError>, acc': string)
      requires marker != "" && Reading(marker, expired, all, acc, input)
      modifies this`input
      ensures done ==> CaptureAnswers(r, marker, expired, all, input)
      ensures !done ==> Reading(marker, expired, all, acc', input) && |input| < |old(input)|
    {
      hide Contains, Index, CaptureAnswers, CapturedInTime;
      done, r, acc' := true, Err(TimedOut), acc;
      if expired(|acc|) {
        CaptureTimedOut(marker, expired, all, |acc|);
        return;
      }
      var b := ReadByte();
      if b == None {
        assert acc == all;
        CaptureEndsInTime(marker, expired, all, |acc| + 1);
        CaptureReadFailed(marker, expired, all);
        r := Err(ReadFailed);
        return;
      }
      acc' := acc + [b.value];
      assert acc'[..|acc'| - 1] == acc == all[..|acc'| - 1] && acc' == all[..|acc'|];
      var idx := Index(acc', marker);
      done := idx >= 0;
      if done {
        MarkerCompletes(marker, all, |acc'|);
        CaptureEndsInTime(marker, expired, all, |acc'|);
        r := FinishCaptured(acc'[..idx], all, marker, expired);
      }
    }

    /** Like RunCommand, but the output is returned instead of shown; the user's terminal is not
        touched. */
    method RunCaptured(line: string, expired: nat -> bool) returns (r: Result<(string, int), ShellError>)
      modifies this`nextID, this`input, this`sent
      ensures nextID == old(nextID) + 1
      ensures broken ==> r == Err(InjectFailed) && input == old(input) && sent == old(sent)
      ensures !broken ==>
                sent == old(sent) + Inject(nonce, nextID, line) &&
                CaptureAnswers(r, Marker(nonce, nextID), expired, old(input), input)
    {
      nextID := nextID + 1;
      var marker := Marker(nonce, nextID);
      var inject := Inject(nonce, nextID, line);
      var ok := WriteShell(inject);
      if !ok {
        return Err(InjectFailed);
      }
      ReadingStarts(marker, expired, input);
      hide Marker, Inject, Reading, CaptureAnswers;
      var acc, done := "", false;
      r := Err(ReadFailed);
      while !done
        invariant nextID == old(nextID) + 1 && sent == old(sent) + inject
        invariant !done ==> Reading(marker, expired, old(input), acc, input)
        invariant done ==> CaptureAnswers(r, marker, expired, old(input), input)
        decreases !done, |input|
      {
        done, r, acc := CaptureTurn(acc, marker, expired, old(input));
      }
    }

    /** The shell's working directory: a silent `pwd`, without its echo and outer white space. */
    method Cwd(expired: nat -> bool) returns (r: Result<string, ShellError>)
      modifies this`nextID, this`input, this`sent
      ensures nextID == old(nextID) + 1
      ensures broken ==> r == Err(InjectFailed) && input == old(input) && sent == old(sent)
      ensures !broken ==>
                sent == old(sent) + Inject(nonce, nextID, "pwd") &&
                exists out: Result<(string, int), ShellError> ::
                  CaptureAnswers(out, Marker(nonce, nextID), expired, old(input), input) && r == Directory(out)
    {
      var out := RunCaptured("pwd", expired);
      match out
      case Err(e) => r := Err(e);
      case Ok(answer) => r := Ok(TrimSpace(StripEcho(answer.0, "pwd")));
      hide CaptureAnswers, Marker, Inject;
      assert r == Directory(out);
    }
  }

  // ----- the working directory

  lemma EchoedPwd(nonce: string, id: nat, dir: string)
    requires Clean(nonce)
    ensures StripEcho(Inject(nonce, id, "pwd") + dir, "pwd") == dir
  {
    InjectShape(nonce, id, "pwd");
    hide Inject;
    var inject := Inject(nonce, id, "pwd");
    var s, i := inject + dir, |inject| - 1;
    assert s[i] == '\n' && forall j :: 0 <= j < i ==> s[j] == inject[j];
    FirstIs(s, '\n', i);
    assert "pwd" <= s[..i] by {
      assert s[..i][..3] == inject[..3] == "pwd";
    }
    assert s[i + 1..] == dir;
  }

  lemma PlainPwd(out: string)
    requires "/" <= out
    ensures StripEcho(out, "pwd") == out
  {
    assert out[0] == '/';
    hide IndexOf;
    var i := IndexOf(out, '\n');
    assert i >= 0 && out[..i] != "" ==> out[..i][0] == '/';
  }

  /** Cwd tells the directory that `pwd` printed, whether the shell echoed the command or not, and
      whichever line break it used. */
  lemma DirectoryIsTold(nonce: string, id: nat, dir: string, code: int, echoed: bool, crlf: bool)
    requires Clean(nonce) && "/" <= dir && !IsSpace(dir[|dir| - 1])
    ensures var echo := if echoed then Inject(nonce, id, "pwd") else "";
            Directory(Ok((echo + (dir + Eol(crlf)), code))) == Ok(dir)
  {
    hide Inject, StripEcho, TrimSpace;
    var out := dir + Eol(crlf);
    TrimTail(dir, Eol(crlf));
    if echoed {
      EchoedPwd(nonce, id, out);
    } else {
      assert "" + out == out && "/" <= out;
      PlainPwd(out);
    }
  }

  // ----- a whole session of calls on one stream

  datatype Call = Run(line: string) | Query(line: string)

  datatype Answer = Ran(code: Result<int, ShellError>, shown: string) | Told(answer: Result<(string, int), ShellError>)

  /** One call: what it answers and what it leaves of the stream. */
  function Serve(nonce: string, id: nat, call: Call, input: string): (r: (Answer, string)) {
    var m := Marker(nonce, id);
    match call
    case Run(line) =>
      var reply := RunReply(m, Inject(nonce, id, line), line, input);
      (Ran(reply.result, reply.shown), input[reply.taken..])
    case Query(line) =>
      var reply := CaptureReply(m, input);
      (Told(reply.result), input[reply.taken..])
  }

  /** Calls one after another; each takes the next identifier. */
  function Session(nonce: string, id: nat, calls: seq<Call>, input: string): (seq<Answer>, string)
    decreases |calls|
  {
    if calls == [] then ([], input)
    else
      var (answer, rest) := Serve(nonce, id + 1, calls[0], input);
      var (answers, left) := Session(nonce, id + 1, calls[1..], rest);
      ([answer] + answers, left)
  }

  /** Text as it leaves a pseudo-terminal that turns each LF into CR LF. */
  function Translated(s: string): string {
    if s == "" then ""
    else (if s[0] == '\n' then "\r\n" else [s[0]]) + Translated(s[1..])
  }

  /** A call and what really happens: the bytes its command puts out, as they arrive, and its exit code;
      after them the shell prints what the text it was sent makes it print. */
  datatype Exchange = Exchange(call: Call, output: string, code: int, crlf: bool) {
    function Bytes(nonce: string, id: nat): string {
      var printed := Printed(Inject(nonce, id, call.line), call.line, code);
      output + if crlf then Translated(printed) else printed
    }

    /** The output followed by one separator must not contain the call's own marker. */
    predicate Faithful(nonce: string, id: nat) {
      MIN_INT64 <= code <= MAX_INT64 && !Contains(output + [RS], Marker(nonce, id))
    }

    function Expected(nonce: string, id: nat): Answer {
      match call
      case Run(line) => Ran(Ok(code), Final(Inject(nonce, id, line), line, Marker(nonce, id), output))
      case Query(line) => Told(Ok((output, code)))
    }
  }

  function CallsOf(xs: seq<Exchange>): seq<Call> {
    seq(|xs|, i requires 0 <= i < |xs| => xs[i].call)
  }

  function BytesOf(nonce: string, id: nat, xs: seq<Exchange>): string
    decreases |xs|
  {
    if xs == [] then "" else xs[0].Bytes(nonce, id + 1) + BytesOf(nonce, id + 1, xs[1..])
  }

  function ExpectedOf(nonce: string, id: nat, xs: seq<Exchange>): seq<Answer> {
    seq(|xs|, i requires 0 <= i < |xs| => xs[i].Expected(nonce, id + 1 + i))
  }

  lemma {:induction false} TranslatedLine(s: string)
    requires '\n' !in s
    ensures Translated(s + "\n") == s + "\r\n"
  {
    if s == "" {
      assert "\n"[1..] == "";
    } else {
      assert s[0] in s && '\n' !in s[1..];
      assert (s + "\n")[1..] == s[1..] + "\n";
      TranslatedLine(s[1..]);
      assert [s[0]] + (s[1..] + "\r\n") == s + "\r\n";
    }
  }

  /** What the shell prints is a frame with the marker the reader waits for. */
  lemma BytesAreFrame(nonce: string, id: nat, x: Exchange)
    requires Clean(nonce) && PrintsAsIs(nonce)
    ensures x.Bytes(nonce, id) == Frame(Marker(nonce, id), x.output, x.code, x.crlf)
  {
    hide Printed, Inject, Translated;
    var m, code := Marker(nonce, id), Itoa(x.code);
    InjectPrintsMarker(nonce, id, x.call.line, x.code);
    MarkerHoldsNoBreak(nonce, id);
    assert forall c :: c in code ==> c != '\n';
    hide Marker, Itoa;
    var s := m + code + [RS];
    TranslatedLine(s);
    Grouped(x.output, m, code, Eol(x.crlf));
  }

  lemma Grouped(output: string, m: string, code: string, eol: string)
    ensures output + (m + code + [RS] + eol) == output + m + (code + [RS] + eol)
  {
  }

  lemma ReplyToFrame(m: string, inject: string, line: string, output: string, code: int, crlf: bool, tail: string)
    requires IsMarker(m) && MIN_INT64 <= code <= MAX_INT64 && !Contains(output + [RS], m)
    ensures var frame := Frame(m, output, code, crlf);
            RunReply(m, inject, line, frame + tail) == Reply(Ok(code), |frame|, Final(inject, line, m, output)) &&
            CaptureReply(m, frame + tail) == Captured(Ok((output, code)), |frame|)
  {
    hide Contains, Final, Live, ScanFrame, EolTaken, IsMarker;
    FrameRoundTrip(m, output, code, crlf, tail);
    FrameDrained(m, output, code, crlf, tail);
    assert (Frame(m, output, code, crlf) + tail)[..|output|] == output;
  }

  /** One call takes exactly its own frame off the stream. */
  lemma ExchangeRoundTrip(nonce: string, id: nat, x: Exchange, tail: string)
    requires Clean(nonce) && PrintsAsIs(nonce) && x.Faithful(nonce, id)
    ensures Serve(nonce, id, x.call, x.Bytes(nonce, id) + tail) == (x.Expected(nonce, id), tail)
  {
    MarkerShape(nonce, id);
    BytesAreFrame(nonce, id, x);
    hide Marker, Inject, Printed, Translated, PrintsAsIs, Contains, Final, Live, Frame, RunReply, CaptureReply;
    hide IsMarker;
    ReplyToFrame(Marker(nonce, id), Inject(nonce, id, x.call.line), x.call.line, x.output, x.code, x.crlf, tail);
    var frame := x.Bytes(nonce, id);
    assert (frame + tail)[|frame|..] == tail;
  }

  /** Over any session every call, by what its injected text makes the shell print, gets its own output and
      exit code, and the stream is left exactly at what follows the last frame. */
  lemma {:induction false} SessionRoundTrip(nonce: string, id: nat, xs: seq<Exchange>, tail: string)
    requires Clean(nonce) && PrintsAsIs(nonce)
    requires forall i {:trigger xs[i]} :: 0 <= i < |xs| ==> xs[i].Faithful(nonce, id + 1 + i)
    ensures Session(nonce, id, CallsOf(xs), BytesOf(nonce, id, xs) + tail) == (ExpectedOf(nonce, id, xs), tail)
    decreases |xs|
  {
    hide Serve, Marker, Clean, PrintsAsIs, Inject, Printed, Translated, Final, Contains;
    if xs == [] {
      assert BytesOf(nonce, id, xs) + tail == tail;
      assert CallsOf(xs) == [];
      assert ExpectedOf(nonce, id, xs) == [];
    } else {
      var x := xs[0];
      var later := BytesOf(nonce, id + 1, xs[1..]) + tail;
      assert BytesOf(nonce, id, xs) + tail == x.Bytes(nonce, id + 1) + later;
      ExchangeRoundTrip(nonce, id + 1, x, later);
      forall i | 0 <= i < |xs[1..]|
        ensures xs[1..][i].Faithful(nonce, id + 2 + i)
      {
        assert xs[1..][i] == xs[i + 1];
      }
      SessionRoundTrip(nonce, id + 1, xs[1..], tail);
      assert CallsOf(xs)[1..] == CallsOf(xs[1..]);
      assert ExpectedOf(nonce, id, xs) == [x.Expected(nonce, id + 1)] + ExpectedOf(nonce, id + 1, xs[1..]);
    }
  }
}
