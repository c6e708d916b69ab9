/** Strings as the Go and Python code sees them: a string is a sequence of characters, and the
    library routines the program leans on are stated here once.  */
module Text {

  datatype Option<+T> = None | Some(value: T)

  datatype Result<+T, +E> = Ok(value: T) | Err(error: E)

  /** The white space of Go's `unicode.IsSpace`. */
  predicate IsSpace(c: char) {
    '\t' <= c <= '\r' || c == ' ' || c == '\U{85}' || c == '\U{A0}' || c == '\U{1680}'
    || '\U{2000}' <= c <= '\U{200A}' || c == '\U{2028}' || c == '\U{2029}'
    || c == '\U{202F}' || c == '\U{205F}' || c == '\U{3000}'
  }

  predicate AllSpace(s: string) {
    forall i :: 0 <= i < |s| ==> IsSpace(s[i])
  }

  // ----- substrings

  predicate OccursAt(s: string, pat: string, i: int) {
    0 <= i && i + |pat| <= |s| && s[i..i + |pat|] == pat
  }

  predicate Contains(s: string, pat: string) {
    exists i :: 0 <= i <= |s| && OccursAt(s, pat, i)
  }

  /** Position of the first occurrence of `pat` at or after `from`, or -1. */
  function IndexFrom(s: string, pat: string, from: nat): (r: int)
    requires from <= |s|
    ensures r == -1 || (from <= r && OccursAt(s, pat, r))
    ensures forall j :: from <= j && (r == -1 || j < r) ==> !OccursAt(s, pat, j)
    decreases |s| - from
  {
    if OccursAt(s, pat, from) then from
    else if from == |s| then -1
    else IndexFrom(s, pat, from + 1)
  }

  /** Go's `strings.Index`. */
  function Index(s: string, pat: string): (r: int)
    ensures r == -1 || OccursAt(s, pat, r)
    ensures forall j :: 0 <= j && (r == -1 || j < r) ==> !OccursAt(s, pat, j)
    ensures r == -1 <==> !Contains(s, pat)
  {
    IndexFrom(s, pat, 0)
  }

  /** The first position of a single character, or -1. */
  function IndexOf(s: string, c: char): (r: int)
    ensures r == -1 || (0 <= r < |s| && s[r] == c)
    ensures forall j :: 0 <= j < |s| && (r == -1 || j < r) ==> s[j] != c
  {
    if s == "" then -1
    else if s[0] == c then 0
    else
      var k := IndexOf(s[1..], c);
      assert forall j :: 1 <= j < |s| ==> s[j] == s[1..][j - 1];
      if k == -1 then -1 else k + 1
  }

  /** Length of the longest common prefix. */
  function CommonPrefix(s: string, t: string): (d: nat)
    ensures d <= |s| && d <= |t| && s[..d] == t[..d]
    ensures d < |s| && d < |t| ==> s[d] != t[d]
  {
    if s == "" || t == "" || s[0] != t[0] then 0
    else
      var d := CommonPrefix(s[1..], t[1..]);
      assert s[..d + 1] == [s[0]] + s[1..][..d];
      assert t[..d + 1] == [t[0]] + t[1..][..d];
      d + 1
  }

  lemma CommonPrefixIs(s: string, t: string, d: nat)
    requires d <= |s| && d <= |t| && s[..d] == t[..d]
    requires d < |s| && d < |t| ==> s[d] != t[d]
    ensures CommonPrefix(s, t) == d
  {
    if d > 0 {
      assert s[0] == s[..d][0] == t[..d][0] == t[0];
      assert s[1..][..d - 1] == s[..d][1..] == t[..d][1..] == t[1..][..d - 1];
      CommonPrefixIs(s[1..], t[1..], d - 1);
    }
  }

  /** A common prefix is a prefix of the longest one. */
  lemma PrefixBound(q: string, s: string, t: string)
    requires q <= s && q <= t
    ensures q <= s[..CommonPrefix(s, t)]
  {
    assert q != "" ==> q[0] == s[0] == t[0];
    if q != "" {
      assert q[1..] <= s[1..] && q[1..] <= t[1..];
      PrefixBound(q[1..], s[1..], t[1..]);
      assert s[1..][..CommonPrefix(s[1..], t[1..])] == s[..CommonPrefix(s, t)][1..];
    }
  }

  lemma PrefixChars(s: string, t: string)
    ensures s <= t ==> forall c :: c in s ==> c in t
  {
    if s <= t {
      assert s == t[..|s|];
    }
  }

  lemma PrefixTransitive(s: string, t: string, u: string)
    requires s <= t && t <= u
    ensures s <= u
  {
    assert s == t[..|s|] == u[..|t|][..|s|] == u[..|s|];
  }

  lemma PrefixSplits(s: string, t: string)
    requires s <= t
    ensures s + t[|s|..] == t
  {
  }

  lemma PrefixShrinks(s: string, more: string, t: string)
    ensures s + more <= t ==> s <= t
  {
    if s + more <= t {
      assert s == (s + more)[..|s|] == t[..|s|];
    }
  }

  // ----- trimming

  function TrimLeftSpace(s: string): string {
    if s != "" && IsSpace(s[0]) then TrimLeftSpace(s[1..]) else s
  }

  function TrimRightSpace(s: string): string {
    if s != "" && IsSpace(s[|s| - 1]) then TrimRightSpace(s[..|s| - 1]) else s
  }

  /** Go's `strings.TrimSpace`. */
  function TrimSpace(s: string): string {
    TrimRightSpace(TrimLeftSpace(s))
  }

  /** Go's `strings.TrimRight(s, "\r\n")`. */
  function TrimRightEol(s: string): (t: string)
    ensures t <= s
    ensures t != "" ==> t[|t| - 1] != '\r' && t[|t| - 1] != '\n'
    ensures forall i :: |t| <= i < |s| ==> s[i] == '\r' || s[i] == '\n'
  {
    if s != "" && (s[|s| - 1] == '\r' || s[|s| - 1] == '\n') then TrimRightEol(s[..|s| - 1]) else s
  }

  lemma {:induction false} TrimLeftIs(s: string)
    ensures |TrimLeftSpace(s)| <= |s|
    ensures var i := |s| - |TrimLeftSpace(s)|; AllSpace(s[..i]) && TrimLeftSpace(s) == s[i..]
    ensures TrimLeftSpace(s) != "" ==> !IsSpace(TrimLeftSpace(s)[0])
  {
    if s != "" && IsSpace(s[0]) {
      TrimLeftIs(s[1..]);
      var i := |s| - |TrimLeftSpace(s)|;
      assert s[..i] == [s[0]] + s[1..][..i - 1];
      assert s[i..] == s[1..][i - 1..];
    }
  }

  lemma {:induction false} TrimRightIs(s: string)
    ensures TrimRightSpace(s) <= s && AllSpace(s[|TrimRightSpace(s)|..])
    ensures TrimRightSpace(s) != "" ==> !IsSpace(TrimRightSpace(s)[|TrimRightSpace(s)| - 1])
  {
    if s != "" && IsSpace(s[|s| - 1]) {
      var front, t := s[..|s| - 1], TrimRightSpace(s);
      TrimRightIs(front);
      assert t == front[..|t|] == s[..|t|];
      assert s[|t|..] == front[|t|..] + [s[|s| - 1]];
    }
  }

  /** Trimming removes white space at both ends and nothing else, and leaves none there. */
  lemma TrimSpaceIs(s: string) returns (i: nat, j: nat)
    ensures i <= j <= |s| && TrimSpace(s) == s[i..j] && AllSpace(s[..i]) && AllSpace(s[j..])
    ensures i < j ==> !IsSpace(s[i]) && !IsSpace(s[j - 1])
  {
    var t := TrimLeftSpace(s);
    TrimLeftIs(s);
    TrimRightIs(t);
    i, j := |s| - |t|, |s| - |t| + |TrimSpace(s)|;
    assert s[j..] == t[|TrimSpace(s)|..];
    if i < j {
      assert TrimSpace(s)[0] == t[0] == s[i];
      assert TrimSpace(s)[|TrimSpace(s)| - 1] == s[j - 1];
    }
  }

  /** Trimming keeps a part of the string. */
  lemma TrimmedIsPart(s: string)
    ensures forall c :: c in TrimSpace(s) ==> c in s
  {
    var i, j := TrimSpaceIs(s);
    assert forall k :: 0 <= k < j - i ==> s[i..j][k] == s[i + k];
  }

  lemma {:induction false} TrimRightTail(s: string, tail: string)
    requires s != "" && !IsSpace(s[|s| - 1]) && AllSpace(tail)
    ensures TrimRightSpace(s + tail) == s
    decreases |tail|
  {
    if tail == "" {
      assert s + tail == s;
    } else {
      assert (s + tail)[..|s + tail| - 1] == s + tail[..|tail| - 1];
      TrimRightTail(s, tail[..|tail| - 1]);
    }
  }

  lemma TrimTail(s: string, tail: string)
    requires s != "" && !IsSpace(s[0]) && !IsSpace(s[|s| - 1]) && AllSpace(tail)
    ensures TrimSpace(s + tail) == s
  {
    TrimRightTail(s, tail);
    assert (s + tail)[0] == s[0];
  }

  lemma TrimmedAlready(s: string)
    requires s != "" && !IsSpace(s[0]) && !IsSpace(s[|s| - 1])
    ensures TrimSpace(s) == s
  {
  }

  // ----- fields

  /** The scanner behind `strings.Fields`: the finished words and the word being read. */
  datatype Words = Words(done: seq<string>, cur: string) {
    function Finish(): seq<string> {
      if cur == "" then done else done + [cur]
    }

    function Feed(c: char): Words {
      if IsSpace(c) then Words(Finish(), "") else Words(done, cur + [c])
    }
  }

  function ScanWords(s: string): Words {
    if s == "" then Words([], "") else ScanWords(s[..|s| - 1]).Feed(s[|s| - 1])
  }

  /** Go's `strings.Fields`: the maximal runs of non-space characters. */
  function Fields(s: string): seq<string> {
    ScanWords(s).Finish()
  }

  lemma {:induction false} ScanSkipsLeadingSpace(c: char, s: string)
    requires IsSpace(c)
    ensures ScanWords([c] + s) == ScanWords(s)
    decreases |s|
  {
    var t := [c] + s;
    if s == "" {
      assert t[..0] == "";
    } else {
      assert t[..|t| - 1] == [c] + s[..|s| - 1];
      ScanSkipsLeadingSpace(c, s[..|s| - 1]);
    }
  }

  lemma {:induction false} ScanSkipsSpaces(sp: string, s: string)
    requires AllSpace(sp)
    ensures ScanWords(sp + s) == ScanWords(s)
    decreases |sp|
  {
    if sp == "" {
      assert sp + s == s;
    } else {
      assert sp + s == [sp[0]] + (sp[1..] + s);
      ScanSkipsLeadingSpace(sp[0], sp[1..] + s);
      ScanSkipsSpaces(sp[1..], s);
    }
  }

  /** Text without white space. */
  predicate IsWord(w: string) {
    w != "" && forall i :: 0 <= i < |w| ==> !IsSpace(w[i])
  }

  lemma {:induction false} ScanOneWord(w: string)
    requires IsWord(w)
    ensures ScanWords(w) == Words([], w)
  {
    var front := w[..|w| - 1];
    if front != "" {
      ScanOneWord(front);
    }
    assert front + [w[|w| - 1]] == w;
  }

  lemma {:induction false} ScanAfterWord(w: string, rest: string)
    requires IsWord(w) && rest != "" && IsSpace(rest[0])
    ensures ScanWords(w + rest) == Words([w] + ScanWords(rest).done, ScanWords(rest).cur)
    decreases |rest|
  {
    var front, c := rest[..|rest| - 1], rest[|rest| - 1];
    assert (w + rest)[..|w + rest| - 1] == w + front;
    if front == "" {
      ScanOneWord(w);
      assert w + front == w;
    } else {
      ScanAfterWord(w, front);
      var s := ScanWords(front);
      assert [w] + (s.done + [s.cur]) == [w] + s.done + [s.cur];
    }
  }

  /** Fields, word by word: leading white space is skipped, and a word that ends the text or is followed by
      white space is the first field. */
  lemma FieldsOfWord(sp: string, w: string, rest: string)
    requires AllSpace(sp) && IsWord(w) && (rest == "" || IsSpace(rest[0]))
    ensures Fields(sp + w + rest) == [w] + Fields(rest)
  {
    assert sp + w + rest == sp + (w + rest);
    ScanSkipsSpaces(sp, w + rest);
    if rest == "" {
      assert w + rest == w;
      ScanOneWord(w);
    } else {
      ScanAfterWord(w, rest);
      var s := ScanWords(rest);
      assert [w] + (s.done + [s.cur]) == [w] + s.done + [s.cur];
    }
  }

  lemma {:induction false} FieldsOfTrimmedLeft(s: string)
    ensures Fields(TrimLeftSpace(s)) == Fields(s)
    decreases |s|
  {
    if s != "" && IsSpace(s[0]) {
      ScanSkipsLeadingSpace(s[0], s[1..]);
      assert [s[0]] + s[1..] == s;
      FieldsOfTrimmedLeft(s[1..]);
    }
  }

  lemma {:induction false} FieldsOfTrimmedRight(s: string)
    ensures Fields(TrimRightSpace(s)) == Fields(s)
    decreases |s|
  {
    if s != "" && IsSpace(s[|s| - 1]) {
      FieldsOfTrimmedRight(s[..|s| - 1]);
    }
  }

  /** Trimming changes no word. */
  lemma FieldsOfTrimmed(s: string)
    ensures Fields(TrimSpace(s)) == Fields(s)
  {
    FieldsOfTrimmedLeft(s);
    FieldsOfTrimmedRight(TrimLeftSpace(s));
  }

  lemma {:induction false} ScanEmpty(s: string)
    ensures ScanWords(s).Finish() == [] <==> AllSpace(s)
    decreases |s|
  {
    if s != "" {
      ScanEmpty(s[..|s| - 1]);
      assert AllSpace(s) <==> AllSpace(s[..|s| - 1]) && IsSpace(s[|s| - 1]);
    }
  }

  /** A string has no words exactly when it is all white space. */
  lemma FieldsEmpty(s: string)
    ensures Fields(s) == [] <==> AllSpace(s)
  {
    ScanEmpty(s);
  }

  lemma {:induction false} TrimLeftEmpty(s: string)
    ensures TrimLeftSpace(s) == "" <==> AllSpace(s)
    ensures TrimLeftSpace(s) != "" ==> !IsSpace(TrimLeftSpace(s)[0])
    decreases |s|
  {
    if s != "" && IsSpace(s[0]) {
      TrimLeftEmpty(s[1..]);
      assert AllSpace(s) <==> AllSpace(s[1..]) by {
        assert s == [s[0]] + s[1..];
      }
    }
  }

  lemma {:induction false} TrimRightKeepsFirst(s: string)
    requires s != "" && !IsSpace(s[0])
    ensures TrimRightSpace(s) != ""
    decreases |s|
  {
    if IsSpace(s[|s| - 1]) {
      TrimRightKeepsFirst(s[..|s| - 1]);
    }
  }

  /** Trimming leaves nothing exactly when the string is all white space. */
  lemma TrimmedEmpty(s: string)
    ensures TrimSpace(s) == "" <==> AllSpace(s)
  {
    TrimLeftEmpty(s);
    if TrimLeftSpace(s) != "" {
      TrimRightKeepsFirst(TrimLeftSpace(s));
    }
  }
}
