/** Frequency encoders: the dictionaries training builds, the feature vector both training and the
    session compute from them, and the novelty gate. */
module Encoders {
  import opened Text

  /** Encoded value of a command without a path argument. */
  const NO_PATH_INDEX := 9999999

  datatype Severity = SevNone | SevSoft | SevHard {
    function Rank(): nat {
      match this case SevNone => 0 case SevSoft => 1 case SevHard => 2
    }
  }

  datatype Dicts = Dicts(country: map<string, int>, command: map<string, int>, path: map<string, int>) {
    function GeoID(code: string): int { Lookup(country, code) }

    function CmdIndex(cmd: string): int { Lookup(command, cmd) }

    function PathIndex(p: Option<string>): int {
      if p.None? then NO_PATH_INDEX else Lookup(path, p.value)
    }
  }

  datatype TrainRow = TrainRow(rawCmd: string, country: string, timeCos: real, timeSin: real, secsSinceLast: int)

  datatype Feature = Feature(timeCos: real, timeSin: real, geoID: int, cmdIndex: int, pathIndex: int,
                             secsSinceLast: int)

  function Lookup(m: map<string, int>, k: string): int {
    if k in m then m[k] else 0
  }

  // ----- reading a line

  function SplitCommand(line: string): (string, seq<string>) {
    if Fields(line) == [] then ("", []) else (Fields(line)[0], Fields(line))
  }

  /** The command is the first word of the line, and its arguments are all words, the command first. */
  lemma CommandIsFirstWord(sp: string, w: string, rest: string)
    requires AllSpace(sp) && IsWord(w) && (rest == "" || IsSpace(rest[0]))
    ensures SplitCommand(sp + w + rest) == (w, [w] + Fields(rest))
    ensures SplitCommand(sp) == ("", [])
  {
    FieldsOfWord(sp, w, rest);
    FieldsEmpty(sp);
    hide Fields;
  }

  predicate IsPathLike(a: string) {
    a != "" && ("/" <= a || "~" <= a || "./" <= a || "../" <= a || '/' in a)
  }

  /** A word is path-like exactly when it holds a slash or starts with a tilde. */
  lemma PathLikeIff(a: string)
    ensures IsPathLike(a) <==> '/' in a || (a != "" && a[0] == '~')
  {
    assert "/" <= a ==> a[0] == '/';
    assert "./" <= a ==> a[1] == '/';
    assert "../" <= a ==> a[2] == '/';
    assert "~" <= a <==> a != "" && a[0] == '~';
  }

  /** The first path-like word; the command word itself is among the words searched. */
  function DetectPath(args: seq<string>): (p: Option<string>)
    ensures p.Some? ==> exists i :: 0 <= i < |args| && args[i] == p.value && IsPathLike(args[i]) &&
                                    forall j :: 0 <= j < i ==> !IsPathLike(args[j])
    ensures p.None? ==> forall i :: 0 <= i < |args| ==> !IsPathLike(args[i])
  {
    if args == [] then None
    else if IsPathLike(args[0]) then Some(args[0])
    else
      var p := DetectPath(args[1..]);
      assert forall i :: 1 <= i < |args| ==> args[i] == args[1..][i - 1];
      assert p.Some? ==> exists i :: 1 <= i < |args| && args[i] == p.value && IsPathLike(args[i]) &&
                                     forall j :: 0 <= j < i ==> !IsPathLike(args[j]) by {
        if p.Some? {
          var i :| 0 <= i < |args[1..]| && args[1..][i] == p.value && IsPathLike(args[1..][i]) &&
                   forall j :: 0 <= j < i ==> !IsPathLike(args[1..][j]);
          assert args[i + 1] == p.value;
          assert forall j :: 1 <= j < i + 1 ==> args[j] == args[1..][j - 1];
        }
      }
      p
  }

  // ----- what a row contributes: at most one item to each dictionary

  function CommandItem(r: TrainRow): seq<string> {
    if SplitCommand(r.rawCmd).0 != "" then [SplitCommand(r.rawCmd).0] else []
  }

  function CountryItem(r: TrainRow): seq<string> {
    if r.country != "" then [r.country] else []
  }

  function PathItem(r: TrainRow): seq<string> {
    match DetectPath(SplitCommand(r.rawCmd).1)
    case None => []
    case Some(p) => [p]
  }

  function Collect(item: TrainRow -> seq<string>, rows: seq<TrainRow>): seq<string> {
    if rows == [] then [] else Collect(item, rows[..|rows| - 1]) + item(rows[|rows| - 1])
  }

  /** Occurrence counts. */
  function Frequencies(items: multiset<string>): map<string, int> {
    map k | k in items :: items[k]
  }

  function FrequenciesOf(item: TrainRow -> seq<string>, rows: seq<TrainRow>): map<string, int> {
    Frequencies(multiset(Collect(item, rows)))
  }

  function DictsOf(rows: seq<TrainRow>): Dicts {
    Dicts(FrequenciesOf(CountryItem, rows), FrequenciesOf(CommandItem, rows), FrequenciesOf(PathItem, rows))
  }

  /** Counting one more item is what `d[k]++` does. */
  lemma FrequenciesStep(item: TrainRow -> seq<string>, rows: seq<TrainRow>, r: TrainRow)
    requires |item(r)| <= 1
    ensures var d := FrequenciesOf(item, rows);
            FrequenciesOf(item, rows + [r]) ==
              if item(r) == [] then d else d[item(r)[0] := Lookup(d, item(r)[0]) + 1]
  {
    assert (rows + [r])[..|rows|] == rows;
    var items := Collect(item, rows);
    if item(r) == [] {
      assert items + item(r) == items;
    } else {
      assert item(r) == [item(r)[0]];
      assert multiset(items + [item(r)[0]]) == multiset(items) + multiset{item(r)[0]};
    }
  }

  function Bump(m: map<string, int>, k: string): map<string, int> {
    m[k := Lookup(m, k) + 1]
  }

  lemma DictsStep(rows: seq<TrainRow>, r: TrainRow)
    ensures var d := DictsOf(rows);
            var (cmd, args) := SplitCommand(r.rawCmd);
            DictsOf(rows + [r]) ==
              Dicts(if r.country != "" then Bump(d.country, r.country) else d.country,
                    if cmd != "" then Bump(d.command, cmd) else d.command,
                    match DetectPath(args) case None => d.path case Some(p) => Bump(d.path, p))
  {
    hide FrequenciesOf, SplitCommand, DetectPath, Lookup;
    FrequenciesStep(CountryItem, rows, r);
    FrequenciesStep(CommandItem, rows, r);
    FrequenciesStep(PathItem, rows, r);
  }

  /** Rebuilds the encoders from a training set. */
  method BuildDicts(rows: seq<TrainRow>) returns (d: Dicts)
    ensures d == DictsOf(rows)
  {
    hide DictsOf, SplitCommand, DetectPath, Lookup;
    d := Dicts(map[], map[], map[]);
    EmptyDicts();
    for i := 0 to |rows|
      invariant d == DictsOf(rows[..i])
    {
      var r := rows[i];
      assert rows[..i + 1] == rows[..i] + [r];
      DictsStep(rows[..i], r);
      var (cmd, args) := SplitCommand(r.rawCmd);
      if cmd != "" {
        d := d.(command := Bump(d.command, cmd));
      }
      if r.country != "" {
        d := d.(country := Bump(d.country, r.country));
      }
      match DetectPath(args)
      case None =>
      case Some(p) => d := d.(path := Bump(d.path, p));
    }
    assert rows[..|rows|] == rows;
  }

  lemma EmptyDicts()
    ensures DictsOf([]) == Dicts(map[], map[], map[])
  {
  }

  // ----- laws of the dictionaries

  lemma {:induction false} CollectAppend(item: TrainRow -> seq<string>, a: seq<TrainRow>, b: seq<TrainRow>)
    ensures Collect(item, a + b) == Collect(item, a) + Collect(item, b)
    decreases |b|
  {
    if b == [] {
      assert a + b == a;
    } else {
      assert (a + b)[..|a + b| - 1] == a + b[..|b| - 1];
      CollectAppend(item, a, b[..|b| - 1]);
    }
  }

  lemma CollectOne(item: TrainRow -> seq<string>, r: TrainRow)
    ensures Collect(item, [r]) == item(r)
  {
    assert [r][..0] == [];
    assert [] + item(r) == item(r);
  }

  lemma DropOne(a: seq<TrainRow>, r: TrainRow, b1: seq<TrainRow>, b2: seq<TrainRow>)
    requires multiset(a + [r]) == multiset(b1 + [r] + b2)
    ensures multiset(a) == multiset(b1 + b2)
  {
    assert multiset(a) + multiset{r} == multiset(b1 + b2) + multiset{r};
    assert multiset(a) == (multiset(a) + multiset{r}) - multiset{r};
  }

  lemma CollectMiddle(item: TrainRow -> seq<string>, b1: seq<TrainRow>, r: TrainRow, b2: seq<TrainRow>)
    ensures multiset(Collect(item, b1 + [r] + b2)) == multiset(Collect(item, b1 + b2)) + multiset(item(r))
  {
    CollectAppend(item, b1, b2);
    CollectAppend(item, b1, [r]);
    CollectAppend(item, b1 + [r], b2);
    CollectOne(item, r);
  }

  /** What is collected depends only on which rows there are. */
  lemma {:induction false} CollectPermuted(item: TrainRow -> seq<string>, a: seq<TrainRow>, b: seq<TrainRow>)
    requires multiset(a) == multiset(b)
    ensures multiset(Collect(item, a)) == multiset(Collect(item, b))
    decreases |a|
  {
    if a == [] {
      assert |multiset(b)| == |b|;
    } else {
      var a', r := a[..|a| - 1], a[|a| - 1];
      assert a == a' + [r];
      assert r in multiset(b);
      var i :| 0 <= i < |b| && b[i] == r;
      var b1, b2 := b[..i], b[i + 1..];
      assert b == b1 + [r] + b2;
      DropOne(a', r, b1, b2);
      CollectPermuted(item, a', b1 + b2);
      CollectMiddle(item, b1, r, b2);
    }
  }

  /** Training on the same rows in another order gives the same dictionaries. */
  lemma DictsIgnoreOrder(a: seq<TrainRow>, b: seq<TrainRow>)
    requires multiset(a) == multiset(b)
    ensures DictsOf(a) == DictsOf(b)
  {
    CollectPermuted(CommandItem, a, b);
    CollectPermuted(CountryItem, a, b);
    CollectPermuted(PathItem, a, b);
  }

  lemma LookupAdds(item: TrainRow -> seq<string>, a: seq<TrainRow>, b: seq<TrainRow>, k: string)
    ensures Lookup(FrequenciesOf(item, a + b), k)
         == Lookup(FrequenciesOf(item, a), k) + Lookup(FrequenciesOf(item, b), k)
  {
    CollectAppend(item, a, b);
  }

  /** Counts add up over concatenation, in every dictionary. */
  lemma DictsAreAdditive(a: seq<TrainRow>, b: seq<TrainRow>, k: string)
    ensures DictsOf(a + b).CmdIndex(k) == DictsOf(a).CmdIndex(k) + DictsOf(b).CmdIndex(k)
    ensures DictsOf(a + b).GeoID(k) == DictsOf(a).GeoID(k) + DictsOf(b).GeoID(k)
    ensures DictsOf(a + b).PathIndex(Some(k)) == DictsOf(a).PathIndex(Some(k)) + DictsOf(b).PathIndex(Some(k))
  {
    LookupAdds(CommandItem, a, b, k);
    LookupAdds(CountryItem, a, b, k);
    LookupAdds(PathItem, a, b, k);
  }

  ghost function Pick(keys: set<string>): string
    requires keys != {}
  {
    var k :| k in keys; k
  }

  /** Sum of the values at the given keys. */
  ghost function Sum(keys: set<string>, m: map<string, int>): int {
    if keys == {} then 0 else Lookup(m, Pick(keys)) + Sum(keys - {Pick(keys)}, m)
  }

  lemma {:induction false} SumAgrees(keys: set<string>, m: map<string, int>, n: map<string, int>)
    requires forall k :: k in keys ==> Lookup(m, k) == Lookup(n, k)
    ensures Sum(keys, m) == Sum(keys, n)
  {
    if keys != {} {
      SumAgrees(keys - {Pick(keys)}, m, n);
    }
  }

  lemma {:induction false} SumOfFrequencies(items: multiset<string>)
    ensures Sum(Frequencies(items).Keys, Frequencies(items)) == |items|
    decreases |items|
  {
    var keys := Frequencies(items).Keys;
    if keys == {} {
      assert items == multiset{} by {
        assert forall k :: k in items ==> k in keys;
      }
    } else {
      var k := Pick(keys);
      var rest := items[k := 0];
      SumOfFrequencies(rest);
      assert Frequencies(rest).Keys == keys - {k};
      SumAgrees(keys - {k}, Frequencies(items), Frequencies(rest));
      assert items == rest + multiset{}[k := items[k]];
    }
  }

  /** Number of rows that contribute an item. */
  function Contributing(item: TrainRow -> seq<string>, rows: seq<TrainRow>): nat {
    if rows == [] then 0
    else Contributing(item, rows[..|rows| - 1]) + if item(rows[|rows| - 1]) == [] then 0 else 1
  }

  lemma {:induction false} CollectCounts(item: TrainRow -> seq<string>, rows: seq<TrainRow>)
    requires forall r :: |item(r)| <= 1
    ensures |Collect(item, rows)| == Contributing(item, rows)
  {
    if rows != [] {
      CollectCounts(item, rows[..|rows| - 1]);
    }
  }

  lemma FrequenciesSumUp(item: TrainRow -> seq<string>, rows: seq<TrainRow>)
    requires forall r :: |item(r)| <= 1
    ensures var d := FrequenciesOf(item, rows); Sum(d.Keys, d) == Contributing(item, rows)
  {
    SumOfFrequencies(multiset(Collect(item, rows)));
    CollectCounts(item, rows);
  }

  /** Conservation: the counts in each dictionary sum to the number of rows that have a command, a
      country, a path. */
  lemma CountsAreConserved(rows: seq<TrainRow>)
    ensures var d := DictsOf(rows);
            Sum(d.command.Keys, d.command) == Contributing(CommandItem, rows) &&
            Sum(d.country.Keys, d.country) == Contributing(CountryItem, rows) &&
            Sum(d.path.Keys, d.path) == Contributing(PathItem, rows)
  {
    hide FrequenciesOf, Sum, Contributing, SplitCommand, DetectPath;
    FrequenciesSumUp(CommandItem, rows);
    FrequenciesSumUp(CountryItem, rows);
    FrequenciesSumUp(PathItem, rows);
  }

  // ----- the feature vector

  /** The runtime feature of one command; the time of day arrives as its cosine and sine. */
  function BuildFeature(d: Dicts, timeCos: real, timeSin: real, country: string, cmd: string,
                        args: seq<string>, secs: int): Feature {
    Feature(timeCos, timeSin, d.GeoID(country), d.CmdIndex(cmd), d.PathIndex(DetectPath(args)), secs)
  }

  /** The training matrix row of one stored command. */
  function MatrixRow(r: TrainRow, d: Dicts): seq<real> {
    var (cmd, args) := SplitCommand(r.rawCmd);
    [r.timeCos, r.timeSin, d.GeoID(r.country) as real, d.CmdIndex(cmd) as real,
     d.PathIndex(DetectPath(args)) as real, r.secsSinceLast as real]
  }

  /** In how many rows `p` holds. */
  function HowMany(rows: seq<TrainRow>, p: TrainRow -> bool): nat {
    if rows == [] then 0
    else HowMany(rows[..|rows| - 1], p) + if p(rows[|rows| - 1]) then 1 else 0
  }

  lemma {:induction false} CollectedTimes(item: TrainRow -> seq<string>, rows: seq<TrainRow>, k: string,
                                          p: TrainRow -> bool)
    requires forall r :: (p(r) ==> item(r) == [k]) && (!p(r) ==> k !in item(r))
    ensures multiset(Collect(item, rows))[k] == HowMany(rows, p)
  {
    if rows != [] {
      CollectedTimes(item, rows[..|rows| - 1], k, p);
      assert k !in item(rows[|rows| - 1]) ==> multiset(item(rows[|rows| - 1]))[k] == 0;
    }
  }

  lemma LookedUpTimes(item: TrainRow -> seq<string>, rows: seq<TrainRow>, k: string, p: TrainRow -> bool)
    requires forall r :: (p(r) ==> item(r) == [k]) && (!p(r) ==> k !in item(r))
    ensures Lookup(FrequenciesOf(item, rows), k) == HowMany(rows, p)
  {
    CollectedTimes(item, rows, k, p);
  }

  /** What a matrix row holds, under the dictionaries of some rows: cosine and sine of the time, in how many
      of these rows the country, the command and the path occur - a fixed large number for no path - and
      the seconds since the last command. */
  lemma MatrixRowCounts(rows: seq<TrainRow>, r: TrainRow)
    ensures var (cmd, args) := SplitCommand(r.rawCmd);
            var path := DetectPath(args);
            MatrixRow(r, DictsOf(rows)) ==
              [r.timeCos, r.timeSin,
               HowMany(rows, (x: TrainRow) => x.country != "" && x.country == r.country) as real,
               HowMany(rows, (x: TrainRow) => cmd != "" && SplitCommand(x.rawCmd).0 == cmd) as real,
               if path == None then 9999999.0
               else HowMany(rows, (x: TrainRow) => DetectPath(SplitCommand(x.rawCmd).1) == path) as real,
               r.secsSinceLast as real]
  {
    hide SplitCommand, DetectPath, FrequenciesOf, Lookup;
    var (cmd, args) := SplitCommand(r.rawCmd);
    var path := DetectPath(args);
    LookedUpTimes(CountryItem, rows, r.country, (x: TrainRow) => x.country != "" && x.country == r.country);
    LookedUpTimes(CommandItem, rows, cmd, (x: TrainRow) => cmd != "" && SplitCommand(x.rawCmd).0 == cmd);
    if path.Some? {
      LookedUpTimes(PathItem, rows, path.value, (x: TrainRow) => DetectPath(SplitCommand(x.rawCmd).1) == path);
    }
  }

  method BuildMatrix(rows: seq<TrainRow>, d: Dicts) returns (m: seq<seq<real>>)
    ensures |m| == |rows|
    ensures forall i :: 0 <= i < |rows| ==> m[i] == MatrixRow(rows[i], d)
  {
    m := [];
    for i := 0 to |rows|
      invariant |m| == i
      invariant forall k :: 0 <= k < i ==> m[k] == MatrixRow(rows[k], d)
    {
      m := m + [MatrixRow(rows[i], d)];
    }
  }

  /** The request body the session sends: each feature under its name. */
  function FeatureFields(f: Feature): map<string, real> {
    map["time_cos" := f.timeCos, "time_sin" := f.timeSin, "geo_id" := f.geoID as real,
        "cmd_index" := f.cmdIndex as real, "path_index" := f.pathIndex as real,
        "secs_since_last" := f.secsSinceLast as real]
  }

  const FEATURE_ORDER: seq<string> :=
    ["time_cos", "time_sin", "geo_id", "cmd_index", "path_index", "secs_since_last"]

  /** The vector the daemon builds from a request; a missing field is an error. */
  function DaemonVector(fields: map<string, real>): Option<seq<real>> {
    if forall k :: k in FEATURE_ORDER ==> k in fields
    then Some(seq(|FEATURE_ORDER|, i requires 0 <= i < |FEATURE_ORDER| && FEATURE_ORDER[i] in fields =>
                                     fields[FEATURE_ORDER[i]]))
    else None
  }

  /** Training and serving agree: the daemon scores exactly the vector that training would have used
      for the same line, country, time and spacing. */
  lemma TrainServeAgreement(r: TrainRow, d: Dicts)
    ensures var (cmd, args) := SplitCommand(r.rawCmd);
            var f := BuildFeature(d, r.timeCos, r.timeSin, r.country, cmd, args, r.secsSinceLast);
            DaemonVector(FeatureFields(f)) == Some(MatrixRow(r, d))
  {
    var (cmd, args) := SplitCommand(r.rawCmd);
    var f := BuildFeature(d, r.timeCos, r.timeSin, r.country, cmd, args, r.secsSinceLast);
    var fields := FeatureFields(f);
    assert "time_cos"[5] != "time_sin"[5];
    assert forall k :: k in FEATURE_ORDER ==> k in fields;
    assert fields["time_cos"] == f.timeCos && fields["time_sin"] == f.timeSin;
    assert DaemonVector(fields).value == MatrixRow(r, d);
  }

  // ----- novelty

  /** Which of command, country and path have never been seen by a trained vocabulary. */
  function NovelItems(d: Dicts, cmd: string, country: string, path: Option<string>): seq<string> {
    (if cmd != "" && d.command != map[] && d.CmdIndex(cmd) == 0 then ["command"] else []) +
    (if country != "" && d.country != map[] && d.GeoID(country) == 0 then ["country"] else []) +
    (if path.Some? && d.path != map[] && d.PathIndex(path) == 0 then ["path"] else [])
  }

  function Joined(items: seq<string>): string {
    if items == [] then "" else if |items| == 1 then items[0] else items[0] + "+" + Joined(items[1..])
  }

  /** The severity of the novelty gate and the reason it gives. */
  function NoveltySeverity(level: Severity, d: Dicts, cmd: string, country: string, path: Option<string>)
    : (Severity, string)
  {
    if level == SevNone || NovelItems(d, cmd, country, path) == [] then (SevNone, "")
    else (level, "never-seen " + Joined(NovelItems(d, cmd, country, path)))
  }

  /** The gate speaks with the configured severity, exactly when it is on and something is novel, and names
      what is. */
  lemma GateSpeaks(level: Severity, d: Dicts, cmd: string, country: string, path: Option<string>)
    ensures var items := NovelItems(d, cmd, country, path);
            var (sev, reason) := NoveltySeverity(level, d, cmd, country, path);
            sev == (if items == [] then SevNone else level) &&
            (reason == "" <==> level == SevNone || items == []) &&
            (level != SevNone ==>
               (|items| == 1 ==> reason == "never-seen " + items[0]) &&
               (|items| == 2 ==> reason == "never-seen " + (items[0] + "+" + items[1])) &&
               (|items| == 3 ==> reason == "never-seen " + (items[0] + "+" + (items[1] + "+" + items[2]))))
  {
    var items := NovelItems(d, cmd, country, path);
    hide NovelItems;
    hide Joined;
    if |items| == 1 {
      JoinedMore(items);
    } else if |items| == 2 {
      JoinedMore(items);
      JoinedMore(items[1..]);
    } else if |items| == 3 {
      JoinedMore(items);
      JoinedMore(items[1..]);
      JoinedMore(items[2..]);
      assert items[1..][1..] == items[2..];
    }
  }

  lemma JoinedMore(items: seq<string>)
    requires items != []
    ensures Joined(items) == if |items| == 1 then items[0] else items[0] + "+" + Joined(items[1..])
  {
  }

  /** A training set has an item when some row contributes it. */
  predicate Seen(item: TrainRow -> seq<string>, rows: seq<TrainRow>, k: string) {
    exists i :: 0 <= i < |rows| && k in item(rows[i])
  }

  lemma {:induction false} CollectedIffSeen(item: TrainRow -> seq<string>, rows: seq<TrainRow>, k: string)
    ensures k in Collect(item, rows) <==> Seen(item, rows, k)
  {
    if rows != [] {
      var front := rows[..|rows| - 1];
      CollectedIffSeen(item, front, k);
      assert forall i :: 0 <= i < |front| ==> front[i] == rows[i];
    }
  }

  lemma CountedIffSeen(item: TrainRow -> seq<string>, rows: seq<TrainRow>, k: string)
    ensures Lookup(FrequenciesOf(item, rows), k) == 0 <==> !Seen(item, rows, k)
    ensures FrequenciesOf(item, rows) == map[] <==> forall w :: !Seen(item, rows, w)
  {
    CollectedIffSeen(item, rows, k);
    forall w
      ensures w in FrequenciesOf(item, rows) <==> Seen(item, rows, w)
    {
      CollectedIffSeen(item, rows, w);
    }
    var d := FrequenciesOf(item, rows);
    if forall w :: !Seen(item, rows, w) {
      assert forall w :: w !in d;
      assert d == map[];
    }
    if d == map[] {
      assert forall w :: w !in d;
    }
  }

  lemma SeenCommand(rows: seq<TrainRow>, cmd: string)
    ensures Seen(CommandItem, rows, cmd) <==>
            cmd != "" && exists i :: 0 <= i < |rows| && SplitCommand(rows[i].rawCmd).0 == cmd
  {
    hide SplitCommand;
    assert forall i :: 0 <= i < |rows| ==>
             (cmd in CommandItem(rows[i]) <==> cmd != "" && SplitCommand(rows[i].rawCmd).0 == cmd);
  }

  lemma SeenCountry(rows: seq<TrainRow>, country: string)
    ensures Seen(CountryItem, rows, country) <==>
            country != "" && exists i :: 0 <= i < |rows| && rows[i].country == country
  {
    assert forall i :: 0 <= i < |rows| ==>
             (country in CountryItem(rows[i]) <==> country != "" && rows[i].country == country);
  }

  lemma SeenPath(rows: seq<TrainRow>, path: string)
    ensures Seen(PathItem, rows, path) <==>
            exists i :: 0 <= i < |rows| && DetectPath(SplitCommand(rows[i].rawCmd).1) == Some(path)
  {
    hide SplitCommand, DetectPath;
    assert forall i :: 0 <= i < |rows| ==>
             (path in PathItem(rows[i]) <==> DetectPath(SplitCommand(rows[i].rawCmd).1) == Some(path));
  }

  /** The gate in terms of the vocabularies. */
  lemma NoveltyBySeen(rows: seq<TrainRow>, cmd: string, country: string, path: Option<string>)
    ensures var items := NovelItems(DictsOf(rows), cmd, country, path);
            ("command" in items <==>
               cmd != "" && (exists w :: Seen(CommandItem, rows, w)) && !Seen(CommandItem, rows, cmd)) &&
            ("country" in items <==>
               country != "" && (exists w :: Seen(CountryItem, rows, w)) && !Seen(CountryItem, rows, country)) &&
            ("path" in items <==>
               path.Some? && (exists w :: Seen(PathItem, rows, w)) && !Seen(PathItem, rows, path.value))
  {
    CountedIffSeen(CommandItem, rows, cmd);
    CountedIffSeen(CountryItem, rows, country);
    CountedIffSeen(PathItem, rows, if path.Some? then path.value else "");
    hide Seen, FrequenciesOf, Lookup;
    var d := DictsOf(rows);
    NovelMembers(cmd != "" && d.command != map[] && d.CmdIndex(cmd) == 0,
                 country != "" && d.country != map[] && d.GeoID(country) == 0,
                 path.Some? && d.path != map[] && d.PathIndex(path) == 0);
  }

  /** Exactness of the gate: with dictionaries built from rows, a command, country or path is flagged
      exactly when some row has one and none has this one. */
  lemma NoveltyIsExact(rows: seq<TrainRow>, cmd: string, country: string, path: Option<string>)
    ensures var items := NovelItems(DictsOf(rows), cmd, country, path);
            ("command" in items <==>
               cmd != "" && (exists i :: 0 <= i < |rows| && SplitCommand(rows[i].rawCmd).0 != "") &&
               !exists i :: 0 <= i < |rows| && SplitCommand(rows[i].rawCmd).0 == cmd) &&
            ("country" in items <==>
               country != "" && (exists i :: 0 <= i < |rows| && rows[i].country != "") &&
               !exists i :: 0 <= i < |rows| && rows[i].country == country) &&
            ("path" in items <==>
               path.Some? && (exists i :: 0 <= i < |rows| && DetectPath(SplitCommand(rows[i].rawCmd).1).Some?) &&
               !exists i :: 0 <= i < |rows| && DetectPath(SplitCommand(rows[i].rawCmd).1) == path)
  {
    NoveltyBySeen(rows, cmd, country, path);
    SeenCommand(rows, cmd);
    SeenCountry(rows, country);
    SeenPath(rows, if path.Some? then path.value else "");
    SomeSeen(rows);
    hide NovelItems, DictsOf, SplitCommand, DetectPath, Seen;
  }

  lemma SomeSeen(rows: seq<TrainRow>)
    ensures (exists w :: Seen(CommandItem, rows, w)) <==>
            exists i :: 0 <= i < |rows| && SplitCommand(rows[i].rawCmd).0 != ""
    ensures (exists w :: Seen(CountryItem, rows, w)) <==> exists i :: 0 <= i < |rows| && rows[i].country != ""
    ensures (exists w :: Seen(PathItem, rows, w)) <==>
            exists i :: 0 <= i < |rows| && DetectPath(SplitCommand(rows[i].rawCmd).1).Some?
  {
    hide SplitCommand, DetectPath, Seen;
    if w :| Seen(CommandItem, rows, w) {
      SeenCommand(rows, w);
    }
    if w :| Seen(CountryItem, rows, w) {
      SeenCountry(rows, w);
    }
    if w :| Seen(PathItem, rows, w) {
      SeenPath(rows, w);
    }
    if i :| 0 <= i < |rows| && SplitCommand(rows[i].rawCmd).0 != "" {
      SeenCommand(rows, SplitCommand(rows[i].rawCmd).0);
    }
    if i :| 0 <= i < |rows| && rows[i].country != "" {
      SeenCountry(rows, rows[i].country);
    }
    if i :| 0 <= i < |rows| && DetectPath(SplitCommand(rows[i].rawCmd).1).Some? {
      SeenPath(rows, DetectPath(SplitCommand(rows[i].rawCmd).1).value);
    }
  }

  lemma NovelMembers(c: bool, g: bool, p: bool)
    ensures var items := (if c then ["command"] else []) + (if g then ["country"] else []) +
                         (if p then ["path"] else []);
            ("command" in items <==> c) && ("country" in items <==> g) && ("path" in items <==> p)
  {
    assert "command"[2] != "country"[2];
    var x: seq<string>, y: seq<string>, z: seq<string> :=
      if c then ["command"] else [], if g then ["country"] else [], if p then ["path"] else [];
    forall w
      ensures w in x + y + z <==> w in x || w in y || w in z
    {
    }
  }

  /** No training row is ever novel to the model trained on it. */
  lemma TrainingRowsAreNeverNovel(rows: seq<TrainRow>, i: nat, level: Severity)
    requires i < |rows|
    ensures var (cmd, args) := SplitCommand(rows[i].rawCmd);
            NoveltySeverity(level, DictsOf(rows), cmd, rows[i].country, DetectPath(args)).0 == SevNone
  {
    hide FrequenciesOf, Lookup, SplitCommand, DetectPath;
    var (cmd, args) := SplitCommand(rows[i].rawCmd);
    var path := DetectPath(args);
    CountedIffSeen(CommandItem, rows, cmd);
    CountedIffSeen(CountryItem, rows, rows[i].country);
    CountedIffSeen(PathItem, rows, if path.Some? then path.value else "");
    assert cmd != "" ==> cmd in CommandItem(rows[i]);
    assert rows[i].country != "" ==> rows[i].country in CountryItem(rows[i]);
    assert path.Some? ==> path.value in PathItem(rows[i]);
    assert forall item: TrainRow -> seq<string>, k :: k in item(rows[i]) ==> Seen(item, rows, k);
  }
}
