/** The per-user session store: two tables, retention of the newest sessions, and loading for
    training.  Transactions are atomic; identifiers only grow and are never used again. */
module Store {
  import opened Sessions

  datatype SessionRow = SessionRow(id: nat, startTS: int, endTS: int, commandCount: nat)

  datatype CommandRow = CommandRow(id: nat, fk: nat, rec: CommandRecord)

  datatype Tables = Tables(sessions: seq<SessionRow>, commands: seq<CommandRow>, nextSession: nat, nextCommand: nat)

  const EMPTY := Tables([], [], 1, 1)

  // ----- ORDER BY start_ts ASC, id ASC

  predicate Before(a: SessionRow, b: SessionRow) {
    a.startTS < b.startTS || (a.startTS == b.startTS && a.id < b.id)
  }

  function Insert(x: SessionRow, s: seq<SessionRow>): seq<SessionRow> {
    if s == [] then [x] else if Before(x, s[0]) then [x] + s else [s[0]] + Insert(x, s[1..])
  }

  function Sorted(rows: seq<SessionRow>): (s: seq<SessionRow>)
    ensures |s| == |rows|
  {
    if rows == [] then [] else
      var s := Insert(rows[|rows| - 1], Sorted(rows[..|rows| - 1]));
      InsertLength(rows[|rows| - 1], Sorted(rows[..|rows| - 1]));
      s
  }

  lemma {:induction false} InsertLength(x: SessionRow, s: seq<SessionRow>)
    ensures |Insert(x, s)| == |s| + 1
  {
    if s != [] {
      InsertLength(x, s[1..]);
    }
  }

  function Ids(rows: seq<SessionRow>): set<nat> {
    set i | 0 <= i < |rows| :: rows[i].id
  }

  /** The last `k` of a sequence, or all of it. */
  function LastK<T>(s: seq<T>, k: nat): seq<T> {
    if k <= |s| then s[|s| - k..] else s
  }

  // ----- the statements

  function CommandRows(first: nat, fk: nat, cs: seq<CommandRecord>): seq<CommandRow> {
    seq(|cs|, i requires 0 <= i < |cs| => CommandRow(first + i, fk, cs[i]))
  }

  /** One row for the session and one for each command, in order. */
  function Saved(t: Tables, r: Recorded): Tables {
    Tables(t.sessions + [SessionRow(t.nextSession, r.startTS, r.endTS, |r.commands|)],
           t.commands + CommandRows(t.nextCommand, t.nextSession, r.commands),
           t.nextSession + 1, t.nextCommand + |r.commands|)
  }

  function SessionsExcept(rows: seq<SessionRow>, ids: set<nat>): seq<SessionRow> {
    if rows == [] then []
    else
      var x := rows[|rows| - 1];
      SessionsExcept(rows[..|rows| - 1], ids) + if x.id in ids then [] else [x]
  }

  function CommandsExcept(rows: seq<CommandRow>, fks: set<nat>): seq<CommandRow> {
    if rows == [] then []
    else
      var x := rows[|rows| - 1];
      CommandsExcept(rows[..|rows| - 1], fks) + if x.fk in fks then [] else [x]
  }

  /** The identifiers of the `n` oldest sessions. */
  function Oldest(t: Tables, n: nat): set<nat>
    requires n <= |t.sessions|
  {
    Ids(Sorted(t.sessions)[..n])
  }

  /** How many sessions a prune deletes. */
  function Surplus(t: Tables, keep: int): nat {
    if keep <= 0 || |t.sessions| <= keep then 0 else |t.sessions| - keep
  }

  /** Deletes the surplus sessions and their commands; each DELETE selects them anew. */
  function Pruned(t: Tables, keep: int): Tables {
    if Surplus(t, keep) == 0 then t
    else
      var t1 := t.(commands := CommandsExcept(t.commands, Oldest(t, Surplus(t, keep))));
      t1.(sessions := SessionsExcept(t1.sessions, Oldest(t1, Surplus(t, keep))))
  }

  /** The commands of one session, in table order. */
  function CommandsOf(rows: seq<CommandRow>, fk: nat): seq<CommandRecord> {
    if rows == [] then []
    else
      var x := rows[|rows| - 1];
      CommandsOf(rows[..|rows| - 1], fk) + if x.fk == fk then [x.rec] else []
  }

  /** The rows of one session, in table order. */
  function OwnRows(rows: seq<CommandRow>, fk: nat): seq<CommandRow> {
    if rows == [] then []
    else
      var x := rows[|rows| - 1];
      OwnRows(rows[..|rows| - 1], fk) + if x.fk == fk then [x] else []
  }

  predicate Ascending(rows: seq<CommandRow>) {
    forall i, j :: 0 <= i < j < |rows| ==> rows[i].id < rows[j].id
  }

  /** `cs` are the records of exactly the rows of the session, by ascending identifier. */
  ghost predicate ListsById(rows: seq<CommandRow>, fk: nat, cs: seq<CommandRecord>) {
    var own := OwnRows(rows, fk);
    && Ascending(own)
    && (forall c :: c in own <==> c in rows && c.fk == fk)
    && |cs| == |own| && forall i :: 0 <= i < |cs| ==> cs[i] == own[i].rec
  }

  lemma {:induction false} OwnRowsMembers(rows: seq<CommandRow>, fk: nat)
    ensures forall c :: c in OwnRows(rows, fk) <==> c in rows && c.fk == fk
  {
    if rows != [] {
      OwnRowsMembers(rows[..|rows| - 1], fk);
      assert rows == rows[..|rows| - 1] + [rows[|rows| - 1]];
    }
  }

  lemma {:induction false} OwnRowsAscend(rows: seq<CommandRow>, fk: nat)
    requires Ascending(rows)
    ensures Ascending(OwnRows(rows, fk))
  {
    if rows != [] {
      var front, x := rows[..|rows| - 1], rows[|rows| - 1];
      OwnRowsAscend(front, fk);
      OwnRowsMembers(front, fk);
      AscendingSnoc(rows, OwnRows(front, fk));
    }
  }

  lemma AscendingSnoc(rows: seq<CommandRow>, kept: seq<CommandRow>)
    requires rows != [] && Ascending(rows) && Ascending(kept) && forall c :: c in kept ==> c in rows[..|rows| - 1]
    ensures Ascending(kept + [rows[|rows| - 1]])
  {
    var front, x := rows[..|rows| - 1], rows[|rows| - 1];
    forall i | 0 <= i < |kept|
      ensures kept[i].id < x.id
    {
      assert kept[i] in kept;
      var j :| 0 <= j < |front| && front[j] == kept[i];
      assert rows[j] == kept[i];
    }
  }

  lemma {:induction false} OwnRowsRecords(rows: seq<CommandRow>, fk: nat)
    ensures var own, cs := OwnRows(rows, fk), CommandsOf(rows, fk);
            |cs| == |own| && forall i :: 0 <= i < |cs| ==> cs[i] == own[i].rec
  {
    if rows != [] {
      OwnRowsRecords(rows[..|rows| - 1], fk);
    }
  }

  /** On a table whose identifiers ascend, table order is ORDER BY id. */
  lemma CommandsById(rows: seq<CommandRow>, fk: nat)
    requires Ascending(rows)
    ensures ListsById(rows, fk, CommandsOf(rows, fk))
  {
    hide OwnRows, CommandsOf, Ascending;
    OwnRowsAscend(rows, fk);
    OwnRowsMembers(rows, fk);
    OwnRowsRecords(rows, fk);
  }

  function LoadRow(t: Tables, r: SessionRow): Recorded {
    Recorded(r.startTS, r.endTS, CommandsOf(t.commands, r.id))
  }

  /** Every session with its commands, oldest first. */
  function Loaded(t: Tables): seq<Recorded> {
    seq(|t.sessions|, i requires 0 <= i < |t.sessions| => LoadRow(t, Sorted(t.sessions)[i]))
  }

  class SessionStore {
    var tables: Tables

    constructor ()
      ensures tables == EMPTY
    {
      tables := EMPTY;
    }

    method SaveSession(r: Recorded)
      modifies this
      ensures tables == Saved(old(tables), r)
    {
      var sid, first := tables.nextSession, tables.nextCommand;
      tables := tables.(sessions := tables.sessions + [SessionRow(sid, r.startTS, r.endTS, |r.commands|)],
                        nextSession := sid + 1);
      ghost var before := tables;
      for i := 0 to |r.commands|
        invariant tables == before.(commands := before.commands + CommandRows(first, sid, r.commands[..i]),
                                    nextCommand := first + i)
      {
        assert CommandRows(first, sid, r.commands[..i + 1])
            == CommandRows(first, sid, r.commands[..i]) + [CommandRow(first + i, sid, r.commands[i])];
        tables := tables.(commands := tables.commands + [CommandRow(tables.nextCommand, sid, r.commands[i])],
                          nextCommand := tables.nextCommand + 1);
      }
      assert r.commands[..|r.commands|] == r.commands;
    }

    method PruneOldest(keep: int) returns (n: nat)
      modifies this
      ensures tables == Pruned(old(tables), keep) && n == Surplus(old(tables), keep)
    {
      if keep <= 0 {
        return 0;
      }
      var toDelete := |tables.sessions| - keep;
      if toDelete <= 0 {
        return 0;
      }
      tables := tables.(commands := CommandsExcept(tables.commands, Oldest(tables, toDelete)));
      tables := tables.(sessions := SessionsExcept(tables.sessions, Oldest(tables, toDelete)));
      return toDelete;
    }

    method LoadSessions() returns (out: seq<Recorded>)
      ensures out == Loaded(tables)
      ensures Ascending(tables.commands) ==>
                forall i :: 0 <= i < |out| ==>
                  ListsById(tables.commands, Sorted(tables.sessions)[i].id, out[i].commands)
    {
      var list := Sorted(tables.sessions);
      out := [];
      for i := 0 to |list|
        invariant |out| == i
        invariant forall k :: 0 <= k < i ==> out[k] == LoadRow(tables, list[k])
      {
        var commands := [];
        for j := 0 to |tables.commands|
          invariant commands == CommandsOf(tables.commands[..j], list[i].id)
        {
          assert tables.commands[..j + 1][..j] == tables.commands[..j];
          if tables.commands[j].fk == list[i].id {
            commands := commands + [tables.commands[j].rec];
          }
        }
        assert tables.commands[..|tables.commands|] == tables.commands;
        out := out + [Recorded(list[i].startTS, list[i].endTS, commands)];
      }
      if Ascending(tables.commands) {
        forall i | 0 <= i < |out|
          ensures ListsById(tables.commands, list[i].id, out[i].commands)
        {
          CommandsById(tables.commands, list[i].id);
        }
      }
    }

    method PruneAndLoad(keep: int) returns (out: seq<Recorded>, n: nat)
      modifies this
      ensures tables == Pruned(old(tables), keep) && n == Surplus(old(tables), keep)
      ensures out == Loaded(tables)
    {
      n := PruneOldest(keep);
      out := LoadSessions();
    }
  }

  // ----- sorting

  /** Start times ascend; rows with the same start time are in the order of their identifiers. */
  predicate IsSorted(s: seq<SessionRow>) {
    forall i, j :: 0 <= i < j < |s| ==>
      s[i].startTS < s[j].startTS || (s[i].startTS == s[j].startTS && s[i].id < s[j].id)
  }

  predicate Distinct(rows: seq<SessionRow>) {
    forall i, j :: 0 <= i < j < |rows| ==> rows[i].id != rows[j].id
  }

  lemma {:induction false} InsertMembers(x: SessionRow, s: seq<SessionRow>)
    ensures forall y :: y in Insert(x, s) <==> y == x || y in s
  {
    if s != [] && !Before(x, s[0]) {
      InsertMembers(x, s[1..]);
      assert s == [s[0]] + s[1..];
    }
  }

  lemma SortedCons(y: SessionRow, r: seq<SessionRow>)
    requires IsSorted(r)
    requires forall i :: 0 <= i < |r| ==> y.startTS < r[i].startTS || (y.startTS == r[i].startTS && y.id < r[i].id)
    ensures IsSorted([y] + r)
  {
  }

  /** Whatever is inserted and does not come before the first row comes after it. */
  lemma InsertedLater(x: SessionRow, s: seq<SessionRow>, z: SessionRow)
    requires s != [] && IsSorted(s) && !Before(x, s[0]) && s[0].id != x.id
    requires z == x || z in s[1..]
    ensures s[0].startTS < z.startTS || (s[0].startTS == z.startTS && s[0].id < z.id)
  {
    if z in s[1..] {
      var i :| 0 <= i < |s[1..]| && s[1..][i] == z;
      assert s[i + 1] == z;
    }
  }

  lemma {:induction false} InsertSorted(x: SessionRow, s: seq<SessionRow>)
    requires IsSorted(s) && forall y :: y in s ==> y.id != x.id
    ensures IsSorted(Insert(x, s))
  {
    if s != [] {
      if Before(x, s[0]) {
        SortedCons(x, s);
      } else {
        var r := Insert(x, s[1..]);
        InsertSorted(x, s[1..]);
        InsertMembers(x, s[1..]);
        assert s[0] in s;
        forall i | 0 <= i < |r|
          ensures s[0].startTS < r[i].startTS || (s[0].startTS == r[i].startTS && s[0].id < r[i].id)
        {
          assert r[i] in r;
          InsertedLater(x, s, r[i]);
        }
        hide IsSorted;
        SortedCons(s[0], r);
      }
    }
  }

  /** ORDER BY yields the same rows in ascending order. */
  lemma {:induction false} SortedIsSorted(rows: seq<SessionRow>)
    requires Distinct(rows)
    ensures IsSorted(Sorted(rows))
    ensures forall y :: y in Sorted(rows) <==> y in rows
  {
    if rows != [] {
      var front, x := rows[..|rows| - 1], rows[|rows| - 1];
      SortedIsSorted(front);
      InsertMembers(x, Sorted(front));
      assert rows == front + [x];
      assert forall y :: y in front ==> y.id != x.id;
      InsertSorted(x, Sorted(front));
    }
  }

  // ----- deleting and sorting commute

  lemma {:induction false} ExceptAppend(a: seq<SessionRow>, b: seq<SessionRow>, ids: set<nat>)
    ensures SessionsExcept(a + b, ids) == SessionsExcept(a, ids) + SessionsExcept(b, ids)
    decreases |b|
  {
    if b == [] {
      assert a + b == a;
    } else {
      assert (a + b)[..|a + b| - 1] == a + b[..|b| - 1];
      ExceptAppend(a, b[..|b| - 1], ids);
    }
  }

  lemma ExceptOne(x: SessionRow, ids: set<nat>)
    ensures SessionsExcept([x], ids) == if x.id in ids then [] else [x]
  {
    assert [x][..0] == [];
  }

  lemma ExceptCons(s: seq<SessionRow>, ids: set<nat>)
    requires s != []
    ensures SessionsExcept(s, ids) == (if s[0].id in ids then [] else [s[0]]) + SessionsExcept(s[1..], ids)
  {
    ExceptAppend([s[0]], s[1..], ids);
    ExceptOne(s[0], ids);
    assert s == [s[0]] + s[1..];
  }

  lemma {:induction false} ExceptMembers(rows: seq<SessionRow>, ids: set<nat>)
    ensures forall y :: y in SessionsExcept(rows, ids) <==> y in rows && y.id !in ids
  {
    if rows != [] {
      ExceptMembers(rows[..|rows| - 1], ids);
      assert rows == rows[..|rows| - 1] + [rows[|rows| - 1]];
    }
  }

  lemma {:induction false} ExceptInsert(x: SessionRow, s: seq<SessionRow>, ids: set<nat>)
    requires IsSorted(s)
    ensures SessionsExcept(Insert(x, s), ids) ==
            if x.id in ids then SessionsExcept(s, ids) else Insert(x, SessionsExcept(s, ids))
  {
    if s == [] {
      ExceptOne(x, ids);
    } else if Before(x, s[0]) {
      ExceptCons([x] + s, ids);
      assert ([x] + s)[1..] == s;
      InsertFirst(x, SessionsExcept(s, ids), s, ids);
    } else {
      ExceptInsert(x, s[1..], ids);
      ExceptCons(s, ids);
      ExceptCons([s[0]] + Insert(x, s[1..]), ids);
      assert ([s[0]] + Insert(x, s[1..]))[1..] == Insert(x, s[1..]);
      if s[0].id !in ids {
        assert ([s[0]] + SessionsExcept(s[1..], ids))[1..] == SessionsExcept(s[1..], ids);
      } else {
        assert [] + SessionsExcept(s[1..], ids) == SessionsExcept(s[1..], ids);
        assert [] + SessionsExcept(Insert(x, s[1..]), ids) == SessionsExcept(Insert(x, s[1..]), ids);
      }
    }
  }

  lemma InsertFirst(x: SessionRow, r: seq<SessionRow>, s: seq<SessionRow>, ids: set<nat>)
    requires s != [] && IsSorted(s) && Before(x, s[0]) && r == SessionsExcept(s, ids)
    ensures Insert(x, r) == [x] + r
    ensures [] + r == r
  {
    ExceptMembers(s, ids);
    if r != [] {
      assert r[0] in r;
      var i :| 0 <= i < |s| && s[i] == r[0];
      assert i > 0 ==> Before(s[0], s[i]);
    }
  }

  lemma {:induction false} ExceptSorted(rows: seq<SessionRow>, ids: set<nat>)
    requires Distinct(rows)
    ensures Sorted(SessionsExcept(rows, ids)) == SessionsExcept(Sorted(rows), ids)
  {
    if rows != [] {
      var front, x := rows[..|rows| - 1], rows[|rows| - 1];
      ExceptSorted(front, ids);
      SortedIsSorted(front);
      ExceptInsert(x, Sorted(front), ids);
      if x.id in ids {
        assert SessionsExcept(front, ids) + [] == SessionsExcept(front, ids);
      } else {
        assert (SessionsExcept(front, ids) + [x])[..|SessionsExcept(front, ids)|] == SessionsExcept(front, ids);
      }
    }
  }

  lemma {:induction false} ExceptAll(s: seq<SessionRow>, ids: set<nat>)
    requires forall i :: 0 <= i < |s| ==> s[i].id in ids
    ensures SessionsExcept(s, ids) == []
  {
    if s != [] {
      ExceptAll(s[..|s| - 1], ids);
    }
  }

  lemma {:induction false} ExceptNone(s: seq<SessionRow>, ids: set<nat>)
    requires forall i :: 0 <= i < |s| ==> s[i].id !in ids
    ensures SessionsExcept(s, ids) == s
  {
    if s != [] {
      ExceptNone(s[..|s| - 1], ids);
      assert s == s[..|s| - 1] + [s[|s| - 1]];
    }
  }

  lemma PrefixIds(s: seq<SessionRow>, n: nat)
    requires n <= |s| && Distinct(s)
    ensures forall i :: 0 <= i < |s[..n]| ==> s[..n][i].id in Ids(s[..n])
    ensures forall i :: 0 <= i < |s[n..]| ==> s[n..][i].id !in Ids(s[..n])
  {
    var a, b := s[..n], s[n..];
    forall i, j | 0 <= i < |a| && 0 <= j < |b|
      ensures a[i].id != b[j].id
    {
      assert a[i] == s[i] && b[j] == s[n + j];
    }
  }

  lemma ExceptParts(a: seq<SessionRow>, b: seq<SessionRow>, ids: set<nat>)
    requires forall i :: 0 <= i < |a| ==> a[i].id in ids
    requires forall i :: 0 <= i < |b| ==> b[i].id !in ids
    ensures SessionsExcept(a + b, ids) == b
  {
    hide SessionsExcept;
    ExceptAll(a, ids);
    ExceptNone(b, ids);
    ExceptAppend(a, b, ids);
    assert [] + b == b;
  }

  /** Deleting the first `n` rows of the order leaves the rest of the order. */
  lemma ExceptPrefix(s: seq<SessionRow>, n: nat)
    requires n <= |s| && Distinct(s)
    ensures SessionsExcept(s, Ids(s[..n])) == s[n..]
  {
    hide Ids, Distinct, SessionsExcept;
    PrefixIds(s, n);
    ExceptParts(s[..n], s[n..], Ids(s[..n]));
    assert s[..n] + s[n..] == s;
  }

  lemma SortedDistinct(rows: seq<SessionRow>)
    requires Distinct(rows)
    ensures Distinct(Sorted(rows))
  {
    SortedIsSorted(rows);
    var s := Sorted(rows);
    forall i, j | 0 <= i < j < |s|
      ensures s[i].id != s[j].id
    {
      assert s[i] in s && s[j] in s;
      var a :| 0 <= a < |rows| && rows[a] == s[i];
      var b :| 0 <= b < |rows| && rows[b] == s[j];
      assert Before(s[i], s[j]);
    }
  }

  /** A prune keeps exactly the newest `keep` sessions. */
  lemma PruneKeepsNewest(t: Tables, keep: int)
    requires Distinct(t.sessions) && keep > 0
    ensures Sorted(Pruned(t, keep).sessions) == LastK(Sorted(t.sessions), keep)
  {
    var n := Surplus(t, keep);
    if n > 0 {
      var s := Sorted(t.sessions);
      SortedDistinct(t.sessions);
      ExceptPrefix(s, n);
      ExceptSorted(t.sessions, Ids(s[..n]));
    }
  }

  // ----- retention over histories

  datatype Op = Save(r: Recorded) | Prune(keep: int)

  function Apply(t: Tables, op: Op): Tables {
    match op
    case Save(r) => Saved(t, r)
    case Prune(keep) => Pruned(t, keep)
  }

  function Run(ops: seq<Op>): Tables {
    if ops == [] then EMPTY else Apply(Run(ops[..|ops| - 1]), ops[|ops| - 1])
  }

  /** Every session ever saved, in the order of saving. */
  function EverSaved(ops: seq<Op>): seq<Recorded> {
    if ops == [] then []
    else
      match ops[|ops| - 1]
      case Save(r) => EverSaved(ops[..|ops| - 1]) + [r]
      case Prune(_) => EverSaved(ops[..|ops| - 1])
  }

  /** The tables had nothing ever been deleted. */
  function Unpruned(saved: seq<Recorded>): Tables {
    if saved == [] then EMPTY else Saved(Unpruned(saved[..|saved| - 1]), saved[|saved| - 1])
  }

  /** No prune that deleted something kept fewer than `k`. */
  predicate KeptEnough(ops: seq<Op>, k: nat) {
    forall i :: 0 <= i < |ops| && ops[i].Prune? && Surplus(Run(ops[..i]), ops[i].keep) > 0 ==> ops[i].keep >= k
  }

  /** Sessions are identified by distinct numbers and commands by ascending ones, all below the next one,
      every command belongs to a session that is there, and every session counts its commands. */
  predicate Sound(t: Tables) {
    && Distinct(t.sessions)
    && Ascending(t.commands) && (forall c :: c in t.commands ==> c.id < t.nextCommand)
    && (forall r :: r in t.sessions ==> r.id < t.nextSession && r.commandCount == |CommandsOf(t.commands, r.id)|)
    && (forall c :: c in t.commands ==> c.fk in Ids(t.sessions))
  }

  lemma {:induction false} CommandsOfAppend(a: seq<CommandRow>, b: seq<CommandRow>, fk: nat)
    ensures CommandsOf(a + b, fk) == CommandsOf(a, fk) + CommandsOf(b, fk)
    decreases |b|
  {
    if b == [] {
      assert a + b == a;
    } else {
      assert (a + b)[..|a + b| - 1] == a + b[..|b| - 1];
      CommandsOfAppend(a, b[..|b| - 1], fk);
    }
  }

  lemma {:induction false} CommandsOfNone(rows: seq<CommandRow>, fk: nat)
    requires forall c :: c in rows ==> c.fk != fk
    ensures CommandsOf(rows, fk) == []
  {
    if rows != [] {
      CommandsOfNone(rows[..|rows| - 1], fk);
    }
  }

  lemma {:induction false} CommandsOfNew(first: nat, fk: nat, cs: seq<CommandRecord>)
    ensures CommandsOf(CommandRows(first, fk, cs), fk) == cs
  {
    if cs != [] {
      var front := cs[..|cs| - 1];
      CommandsOfNew(first, fk, front);
      var rows := CommandRows(first, fk, cs);
      assert rows[..|rows| - 1] == CommandRows(first, fk, front);
      assert front + [cs[|cs| - 1]] == cs;
    }
  }

  lemma {:induction false} CommandsOfKept(rows: seq<CommandRow>, fks: set<nat>, fk: nat)
    requires fk !in fks
    ensures CommandsOf(CommandsExcept(rows, fks), fk) == CommandsOf(rows, fk)
  {
    if rows != [] {
      var front, x := rows[..|rows| - 1], rows[|rows| - 1];
      CommandsOfKept(front, fks, fk);
      if x.fk in fks {
        assert CommandsExcept(front, fks) + [] == CommandsExcept(front, fks);
      } else {
        assert (CommandsExcept(front, fks) + [x])[..|CommandsExcept(front, fks)|] == CommandsExcept(front, fks);
      }
    }
  }

  lemma {:induction false} CommandsKept(rows: seq<CommandRow>, fks: set<nat>)
    ensures forall c :: c in CommandsExcept(rows, fks) <==> c in rows && c.fk !in fks
  {
    if rows != [] {
      CommandsKept(rows[..|rows| - 1], fks);
      assert rows == rows[..|rows| - 1] + [rows[|rows| - 1]];
    }
  }

  lemma InIds(rows: seq<SessionRow>)
    ensures forall id :: id in Ids(rows) <==> exists r :: r in rows && r.id == id
  {
    forall r | r in rows
      ensures r.id in Ids(rows)
    {
      var i :| 0 <= i < |rows| && rows[i] == r;
    }
  }

  /** A save gives the new session its own commands and leaves the others theirs. */
  lemma SaveCommands(t: Tables, r: Recorded, fk: nat)
    requires Sound(t) && fk <= t.nextSession
    ensures CommandsOf(Saved(t, r).commands, fk) ==
              if fk == t.nextSession then r.commands else CommandsOf(t.commands, fk)
  {
    var rows := CommandRows(t.nextCommand, t.nextSession, r.commands);
    CommandsOfAppend(t.commands, rows, fk);
    if fk == t.nextSession {
      InIds(t.sessions);
      CommandsOfNone(t.commands, fk);
      CommandsOfNew(t.nextCommand, fk, r.commands);
      assert [] + r.commands == r.commands;
    } else {
      CommandsOfNone(rows, fk);
      assert CommandsOf(t.commands, fk) + [] == CommandsOf(t.commands, fk);
    }
  }

  lemma SaveKeepsAscending(t: Tables, r: Recorded)
    requires Ascending(t.commands) && forall c :: c in t.commands ==> c.id < t.nextCommand
    ensures Ascending(Saved(t, r).commands) && forall c :: c in Saved(t, r).commands ==> c.id < Saved(t, r).nextCommand
  {
    assert forall i :: 0 <= i < |t.commands| ==> t.commands[i] in t.commands;
    var rows := CommandRows(t.nextCommand, t.nextSession, r.commands);
    assert forall i :: 0 <= i < |rows| ==> rows[i].id == t.nextCommand + i;
    assert forall c :: c in Saved(t, r).commands ==> c in t.commands || c in rows;
  }

  lemma SaveKeepsSound(t: Tables, r: Recorded)
    requires Sound(t)
    ensures Sound(Saved(t, r))
  {
    SaveKeepsAscending(t, r);
    hide Ascending;
    var t' := Saved(t, r);
    InIds(t.sessions);
    InIds(t'.sessions);
    forall x | x in t'.sessions
      ensures x.id < t'.nextSession && x.commandCount == |CommandsOf(t'.commands, x.id)|
    {
      SaveCommands(t, r, x.id);
    }
    forall i | 0 <= i < |t.sessions|
      ensures t.sessions[i].id < t.nextSession
    {
      assert t.sessions[i] in t.sessions;
    }
    assert forall c :: c in t'.commands ==> c in t.commands || c.fk == t.nextSession;
    assert t'.sessions[|t.sessions|] in t'.sessions;
    assert forall x :: x in t.sessions ==> x in t'.sessions;
  }

  lemma PruneRows(t: Tables, keep: int)
    requires Distinct(t.sessions) && Surplus(t, keep) > 0
    ensures var fks := Oldest(t, Surplus(t, keep));
            Pruned(t, keep).sessions == SessionsExcept(t.sessions, fks) &&
            Pruned(t, keep).commands == CommandsExcept(t.commands, fks)
  {
  }

  lemma {:induction false} ExceptDistinct(rows: seq<SessionRow>, ids: set<nat>)
    requires Distinct(rows)
    ensures Distinct(SessionsExcept(rows, ids))
  {
    if rows != [] {
      var front := rows[..|rows| - 1];
      ExceptDistinct(front, ids);
      ExceptMembers(front, ids);
      var kept := SessionsExcept(front, ids);
      forall i | 0 <= i < |kept|
        ensures kept[i].id != rows[|rows| - 1].id
      {
        assert kept[i] in kept;
      }
    }
  }

  lemma {:induction false} ExceptAscending(rows: seq<CommandRow>, fks: set<nat>)
    requires Ascending(rows)
    ensures Ascending(CommandsExcept(rows, fks))
  {
    if rows != [] {
      var front := rows[..|rows| - 1];
      ExceptAscending(front, fks);
      CommandsKept(front, fks);
      AscendingSnoc(rows, CommandsExcept(front, fks));
    }
  }

  lemma PruneKeepsOwners(t: Tables, fks: set<nat>)
    requires forall c :: c in t.commands ==> c.fk in Ids(t.sessions)
    ensures forall c :: c in CommandsExcept(t.commands, fks) ==> c.fk in Ids(SessionsExcept(t.sessions, fks))
  {
    ExceptMembers(t.sessions, fks);
    CommandsKept(t.commands, fks);
    InIds(t.sessions);
    InIds(SessionsExcept(t.sessions, fks));
    hide SessionsExcept, CommandsExcept, Ids;
  }

  lemma PruneKeepsSound(t: Tables, keep: int)
    requires Sound(t)
    ensures Sound(Pruned(t, keep))
  {
    if Surplus(t, keep) > 0 {
      var t' := Pruned(t, keep);
      var fks := Oldest(t, Surplus(t, keep));
      PruneRows(t, keep);
      assert t'.nextSession == t.nextSession && t'.nextCommand == t.nextCommand;
      hide Pruned, Oldest, SessionsExcept, CommandsExcept, Distinct, Ids, Ascending, CommandsOf;
      ExceptMembers(t.sessions, fks);
      ExceptDistinct(t.sessions, fks);
      CommandsKept(t.commands, fks);
      ExceptAscending(t.commands, fks);
      PruneKeepsOwners(t, fks);
      forall x | x in t'.sessions
        ensures x.id < t'.nextSession && x.commandCount == |CommandsOf(t'.commands, x.id)|
      {
        CommandsOfKept(t.commands, fks, x.id);
      }
    }
  }

  // ----- the newest k

  lemma AfterTheEarlier(x: SessionRow, a: SessionRow, b: SessionRow)
    requires Before(a, b) && !Before(x, b)
    ensures !Before(x, a)
  {
  }

  lemma SortedTail(s: seq<SessionRow>)
    requires s != [] && IsSorted(s)
    ensures IsSorted(s[1..])
  {
  }

  lemma {:induction false} InsertAfter(x: SessionRow, a: seq<SessionRow>, b: seq<SessionRow>)
    requires IsSorted(a + b) && b != [] && !Before(x, b[0])
    ensures Insert(x, a + b) == a + Insert(x, b)
    decreases |a|
  {
    assert a != [] ==> Before((a + b)[0], (a + b)[|a|]);
    hide Before, IsSorted;
    if a == [] {
      assert a + b == b;
      assert [] + Insert(x, b) == Insert(x, b);
    } else {
      var s := a + b;
      assert s[0] == a[0] && s[|a|] == b[0];
      AfterTheEarlier(x, a[0], b[0]);
      assert s[1..] == a[1..] + b;
      SortedTail(s);
      InsertAfter(x, a[1..], b);
      assert [a[0]] + (a[1..] + Insert(x, b)) == a + Insert(x, b);
    }
  }

  lemma {:induction false} InsertBefore(x: SessionRow, a: seq<SessionRow>, b: seq<SessionRow>)
    requires b != [] ==> Before(x, b[0])
    ensures Insert(x, a + b) == Insert(x, a) + b
    decreases |a|
  {
    if a == [] {
      assert a + b == b;
    } else if Before(x, a[0]) {
      assert [x] + (a + b) == [x] + a + b;
    } else {
      assert (a + b)[1..] == a[1..] + b;
      InsertBefore(x, a[1..], b);
    }
  }

  /** The newest `k` after an insertion depend only on the newest `k` before it. */
  lemma InsertLastK(x: SessionRow, s: seq<SessionRow>, k: nat)
    requires IsSorted(s) && forall y :: y in s ==> y.id != x.id
    ensures LastK(Insert(x, s), k) == LastK(Insert(x, LastK(s, k)), k)
  {
    hide Insert, IsSorted, Before;
    if k < |s| {
      var a, b := s[..|s| - k], s[|s| - k..];
      assert a + b == s;
      assert LastK(s, k) == b;
      InsertLength(x, b);
      if b != [] && !Before(x, b[0]) {
        InsertAfter(x, a, b);
        LastKOfAppend(a, Insert(x, b), k);
      } else {
        InsertBefore(x, a, b);
        InsertAtFront(x, b);
        LastKOfAppend(Insert(x, a), b, k);
        LastKOfAppend([x], b, k);
      }
    } else {
      assert LastK(s, k) == s;
    }
  }

  lemma InsertAtFront(x: SessionRow, b: seq<SessionRow>)
    requires b != [] ==> Before(x, b[0])
    ensures Insert(x, b) == [x] + b
  {
  }

  lemma LastKOfAppend<T>(p: seq<T>, q: seq<T>, k: nat)
    requires k <= |q|
    ensures LastK(p + q, k) == LastK(q, k)
  {
    assert (p + q)[|p + q| - k..] == q[|q| - k..];
  }

  /** The pruned tables agree with the unpruned ones on the newest `k` sessions and on the commands of
      every session still there. */
  ghost predicate Agree(t: Tables, f: Tables, k: nat) {
    && Sound(t) && Sound(f) && t.nextSession == f.nextSession
    && LastK(Sorted(t.sessions), k) == LastK(Sorted(f.sessions), k)
    && forall r :: r in t.sessions ==> CommandsOf(t.commands, r.id) == CommandsOf(f.commands, r.id)
  }

  lemma SaveKeepsNewest(t: Tables, f: Tables, r: Recorded, k: nat)
    requires Agree(t, f, k)
    ensures LastK(Sorted(Saved(t, r).sessions), k) == LastK(Sorted(Saved(f, r).sessions), k)
  {
    var x := SessionRow(t.nextSession, r.startTS, r.endTS, |r.commands|);
    SortedIsSorted(t.sessions);
    SortedIsSorted(f.sessions);
    assert (t.sessions + [x])[..|t.sessions|] == t.sessions;
    assert (f.sessions + [x])[..|f.sessions|] == f.sessions;
    InsertLastK(x, Sorted(t.sessions), k);
    InsertLastK(x, Sorted(f.sessions), k);
  }

  lemma SaveAgrees(t: Tables, f: Tables, r: Recorded, k: nat)
    requires Agree(t, f, k)
    ensures Agree(Saved(t, r), Saved(f, r), k)
  {
    SaveKeepsSound(t, r);
    SaveKeepsSound(f, r);
    SaveKeepsNewest(t, f, r, k);
    var t' := Saved(t, r);
    forall x | x in t'.sessions
      ensures CommandsOf(t'.commands, x.id) == CommandsOf(Saved(f, r).commands, x.id)
    {
      SaveCommands(t, r, x.id);
      SaveCommands(f, r, x.id);
    }
  }

  lemma PruneKeepsCommands(t: Tables, keep: int, x: SessionRow)
    requires Distinct(t.sessions) && x in Pruned(t, keep).sessions
    ensures x in t.sessions && CommandsOf(Pruned(t, keep).commands, x.id) == CommandsOf(t.commands, x.id)
  {
    if Surplus(t, keep) > 0 {
      var fks := Oldest(t, Surplus(t, keep));
      PruneRows(t, keep);
      ExceptMembers(t.sessions, fks);
      CommandsOfKept(t.commands, fks, x.id);
    }
  }

  lemma LastKOfLastK<T>(s: seq<T>, n: nat, k: nat)
    requires k <= n
    ensures LastK(LastK(s, n), k) == LastK(s, k)
  {
    if n <= |s| {
      assert s[|s| - n..][n - k..] == s[|s| - k..];
    }
  }

  lemma PruneKeepsLastK(t: Tables, keep: int, k: nat)
    requires Distinct(t.sessions) && (Surplus(t, keep) > 0 ==> keep >= k)
    ensures LastK(Sorted(Pruned(t, keep).sessions), k) == LastK(Sorted(t.sessions), k)
  {
    hide Sorted, Distinct, LastK;
    if Surplus(t, keep) > 0 {
      PruneKeepsNewest(t, keep);
      hide Pruned;
      LastKOfLastK(Sorted(t.sessions), keep, k);
    }
  }

  lemma PruneAgrees(t: Tables, f: Tables, keep: int, k: nat)
    requires Agree(t, f, k) && (Surplus(t, keep) > 0 ==> keep >= k)
    ensures Agree(Pruned(t, keep), f, k)
  {
    var t' := Pruned(t, keep);
    PruneKeepsSound(t, keep);
    PruneKeepsLastK(t, keep, k);
    assert t'.nextSession == t.nextSession;
    hide Pruned, Sorted, Distinct, LastK, CommandsOf;
    forall x | x in t'.sessions
      ensures CommandsOf(t'.commands, x.id) == CommandsOf(f.commands, x.id)
    {
      PruneKeepsCommands(t, keep, x);
    }
    hide Sound, Sorted;
  }

  lemma {:induction false} RunAgrees(ops: seq<Op>, k: nat)
    requires KeptEnough(ops, k)
    ensures Agree(Run(ops), Unpruned(EverSaved(ops)), k)
  {
    if ops != [] {
      var before, op := ops[..|ops| - 1], ops[|ops| - 1];
      assert forall i :: 0 <= i < |before| ==> before[i] == ops[i] && before[..i] == ops[..i];
      RunAgrees(before, k);
      match op
      case Save(r) =>
        var saved := EverSaved(before);
        assert (saved + [r])[..|saved|] == saved;
        SaveAgrees(Run(before), Unpruned(saved), r, k);
      case Prune(keep) =>
        PruneAgrees(Run(before), Unpruned(EverSaved(before)), keep, k);
    }
  }

  /** Rows of the sessions ever saved; the identifier is the position of the save, from one. */
  function AllRows(saved: seq<Recorded>): seq<SessionRow> {
    seq(|saved|, i requires 0 <= i < |saved| =>
      SessionRow(i + 1, saved[i].startTS, saved[i].endTS, |saved[i].commands|))
  }

  /** Session `i + 1` holds the commands of the `i`-th save. */
  predicate HoldsAll(f: Tables, saved: seq<Recorded>) {
    forall i {:trigger saved[i]} :: 0 <= i < |saved| ==> CommandsOf(f.commands, i + 1) == saved[i].commands
  }

  lemma OneMoreHeld(f: Tables, saved: seq<Recorded>, r: Recorded)
    requires Sound(f) && f.nextSession == |saved| + 1 && HoldsAll(f, saved)
    ensures HoldsAll(Saved(f, r), saved + [r])
  {
    hide Sound, CommandsOf;
    forall i | 0 <= i < |saved + [r]|
      ensures CommandsOf(Saved(f, r).commands, i + 1) == (saved + [r])[i].commands
    {
      SaveCommands(f, r, i + 1);
    }
  }

  lemma AllRowsSnoc(saved: seq<Recorded>, r: Recorded)
    ensures AllRows(saved + [r]) == AllRows(saved) + [SessionRow(|saved| + 1, r.startTS, r.endTS, |r.commands|)]
  {
  }

  lemma {:induction false} UnprunedRows(saved: seq<Recorded>)
    ensures var f := Unpruned(saved);
            Sound(f) && f.sessions == AllRows(saved) && f.nextSession == |saved| + 1 && HoldsAll(f, saved)
  {
    if saved != [] {
      hide Sound, HoldsAll, AllRows;
      var front, r := saved[..|saved| - 1], saved[|saved| - 1];
      assert front + [r] == saved;
      UnprunedRows(front);
      SaveKeepsSound(Unpruned(front), r);
      OneMoreHeld(Unpruned(front), front, r);
      AllRowsSnoc(front, r);
    }
  }

  /** The `k` newest sessions ever saved, by start time and then by order of saving, oldest first. */
  function Newest(saved: seq<Recorded>, k: nat): seq<SessionRow> {
    LastK(Sorted(AllRows(saved)), k)
  }

  lemma RowIsSaved(saved: seq<Recorded>, i: nat)
    requires i < |Sorted(AllRows(saved))|
    ensures var x := Sorted(AllRows(saved))[i];
            0 < x.id <= |saved| && x.startTS == saved[x.id - 1].startTS && x.endTS == saved[x.id - 1].endTS
  {
    var rows, x := AllRows(saved), Sorted(AllRows(saved))[i];
    SortedIsSorted(rows);
    assert x in Sorted(rows);
    hide Sorted, IsSorted;
    var j :| 0 <= j < |rows| && rows[j] == x;
  }

  lemma NewestAreSaved(saved: seq<Recorded>, k: nat)
    ensures forall i :: 0 <= i < |Newest(saved, k)| ==>
              0 < Newest(saved, k)[i].id <= |saved| &&
              var r := saved[Newest(saved, k)[i].id - 1];
              Newest(saved, k)[i].startTS == r.startTS && Newest(saved, k)[i].endTS == r.endTS
  {
    var s, newest := Sorted(AllRows(saved)), Newest(saved, k);
    hide Sorted, AllRows;
    forall i | 0 <= i < |newest|
      ensures 0 < newest[i].id <= |saved| &&
              newest[i].startTS == saved[newest[i].id - 1].startTS && newest[i].endTS == saved[newest[i].id - 1].endTS
    {
      RowIsSaved(saved, |s| - |newest| + i);
    }
  }

  /** `out` is, row by row, the sessions that were saved under these identifiers. */
  predicate AreTheSaved(out: seq<Recorded>, rows: seq<SessionRow>, saved: seq<Recorded>) {
    |out| == |rows| &&
    forall i :: 0 <= i < |rows| ==> 0 < rows[i].id <= |saved| && out[i] == saved[rows[i].id - 1]
  }

  lemma RowAsSaved(t: Tables, f: Tables, saved: seq<Recorded>, k: nat, row: SessionRow)
    requires Agree(t, f, k) && HoldsAll(f, saved) && row in t.sessions && 0 < row.id <= |saved|
    requires row.startTS == saved[row.id - 1].startTS && row.endTS == saved[row.id - 1].endTS
    ensures LoadRow(t, row) == saved[row.id - 1]
  {
    hide CommandsOf, Sound, Sorted;
    assert CommandsOf(f.commands, row.id) == saved[row.id - 1].commands;
  }

  lemma LoadedAt(t: Tables)
    ensures |Loaded(t)| == |Sorted(t.sessions)|
    ensures forall i :: 0 <= i < |Loaded(t)| ==> Loaded(t)[i] == LoadRow(t, Sorted(t.sessions)[i])
  {
  }

  lemma RowsAreThere(t: Tables)
    requires Sound(t)
    ensures forall i :: 0 <= i < |Sorted(t.sessions)| ==> Sorted(t.sessions)[i] in t.sessions
  {
    SortedIsSorted(t.sessions);
    hide Sorted, IsSorted;
    assert forall i :: 0 <= i < |Sorted(t.sessions)| ==> Sorted(t.sessions)[i] in Sorted(t.sessions);
  }

  lemma AgreeingIsSound(t: Tables, f: Tables, k: nat)
    requires Agree(t, f, k)
    ensures Sound(t)
  {
    hide Sound, Sorted, CommandsOf;
  }

  lemma LoadedAsSaved(t: Tables, f: Tables, saved: seq<Recorded>, k: nat)
    requires Agree(t, f, k) && HoldsAll(f, saved) && Sorted(t.sessions) == Newest(saved, k)
    ensures AreTheSaved(Loaded(t), Newest(saved, k), saved)
  {
    hide Newest, Sorted, Agree, HoldsAll, LoadRow, Loaded, Sound;
    AgreeingIsSound(t, f, k);
    RowsAreThere(t);
    NewestAreSaved(saved, k);
    LoadedAt(t);
    var rows := Newest(saved, k);
    forall i | 0 <= i < |rows|
      ensures 0 < rows[i].id <= |saved| && Loaded(t)[i] == saved[rows[i].id - 1]
    {
      RowAsSaved(t, f, saved, k, rows[i]);
    }
  }

  lemma RetainedTables(ops: seq<Op>, k: nat)
    requires k > 0 && KeptEnough(ops, k)
    ensures var t, f := Pruned(Run(ops), k), Unpruned(EverSaved(ops));
            Agree(t, f, k) && HoldsAll(f, EverSaved(ops)) && Sorted(t.sessions) == Newest(EverSaved(ops), k)
  {
    var t0, saved := Run(ops), EverSaved(ops);
    RunAgrees(ops, k);
    UnprunedRows(saved);
    hide Run, EverSaved, Unpruned, Pruned, HoldsAll, Sorted, AllRows, CommandsOf;
    PruneAgrees(t0, Unpruned(saved), k, k);
    PruneKeepsNewest(t0, k);
  }

  /** Retention: whatever saves and prunes came before, as long as no earlier prune kept fewer than `k`,
      pruning to `k` and loading yields exactly the `k` newest sessions ever saved, oldest first, with
      times and commands as they were saved; no command is left without its session. */
  lemma PruneAndLoadYieldsNewest(ops: seq<Op>, k: nat)
    requires k > 0 && KeptEnough(ops, k)
    ensures var t := Pruned(Run(ops), k);
            Sound(t) && AreTheSaved(Loaded(t), Newest(EverSaved(ops), k), EverSaved(ops))
  {
    RetainedTables(ops, k);
    hide Run, EverSaved, Unpruned, Pruned, HoldsAll, Newest, CommandsOf, Ids, AreTheSaved;
    LoadedAsSaved(Pruned(Run(ops), k), Unpruned(EverSaved(ops)), EverSaved(ops), k);
  }

  /** A prune to zero or fewer, or to as many as there are, deletes nothing; any other leaves just as many. */
  lemma PruneLeaves(t: Tables, keep: int)
    requires Sound(t)
    ensures keep <= 0 || |t.sessions| <= keep ==> Pruned(t, keep) == t
    ensures 0 < keep < |t.sessions| ==> |Pruned(t, keep).sessions| == keep
  {
    if 0 < keep < |t.sessions| {
      PruneKeepsNewest(t, keep);
      assert |Sorted(Pruned(t, keep).sessions)| == |Pruned(t, keep).sessions|;
    }
    hide Sound, Sorted, Oldest, SessionsExcept, CommandsExcept;
  }

  // ----- what is loaded, in terms of what was saved

  /** Every session in the tables reads as the save that its identifier counts. */
  predicate ReadAsSaved(t: Tables, saved: seq<Recorded>) {
    && t.nextSession == |saved| + 1
    && forall row :: row in t.sessions ==> Matches(t, row, saved)
  }

  predicate Matches(t: Tables, row: SessionRow, saved: seq<Recorded>) {
    0 < row.id <= |saved| && LoadRow(t, row) == saved[row.id - 1]
  }

  lemma SaveReadsAsSaved(t: Tables, r: Recorded, saved: seq<Recorded>)
    requires Sound(t) && ReadAsSaved(t, saved)
    ensures ReadAsSaved(Saved(t, r), saved + [r])
  {
    var t' := Saved(t, r);
    forall row | row in t'.sessions
      ensures Matches(t', row, saved + [r])
    {
      var i :| 0 <= i < |t'.sessions| && t'.sessions[i] == row;
      if i < |t.sessions| {
        assert row in t.sessions && Matches(t, row, saved);
      }
      hide Sound, Saved, CommandsOf;
      SaveCommands(t, r, row.id);
    }
  }

  lemma PruneReadsAsSaved(t: Tables, keep: int, saved: seq<Recorded>)
    requires Sound(t) && ReadAsSaved(t, saved)
    ensures ReadAsSaved(Pruned(t, keep), saved)
  {
    var t' := Pruned(t, keep);
    forall row | row in t'.sessions
      ensures Matches(t', row, saved)
    {
      PruneKeepsCommands(t, keep, row);
      hide Sound, Pruned, CommandsOf;
      assert Matches(t, row, saved);
    }
  }

  lemma EmptyIsSound()
    ensures Sound(EMPTY) && ReadAsSaved(EMPTY, [])
  {
  }

  lemma {:induction false} RunReadsAsSaved(ops: seq<Op>)
    ensures Sound(Run(ops)) && ReadAsSaved(Run(ops), EverSaved(ops))
  {
    hide Sound, ReadAsSaved, Saved, Pruned;
    if ops == [] {
      EmptyIsSound();
    } else {
      var before, op := ops[..|ops| - 1], ops[|ops| - 1];
      RunReadsAsSaved(before);
      match op
      case Save(r) =>
        SaveKeepsSound(Run(before), r);
        SaveReadsAsSaved(Run(before), r, EverSaved(before));
      case Prune(keep) =>
        PruneKeepsSound(Run(before), keep);
        PruneReadsAsSaved(Run(before), keep, EverSaved(before));
    }
  }

  /** `out` is the saves at these positions: start times ascend, and equal ones are in the order of
      saving. */
  predicate InOrder(out: seq<Recorded>, saved: seq<Recorded>, at: seq<nat>) {
    && |at| == |out|
    && (forall i :: 0 <= i < |at| ==> at[i] < |saved| && out[i] == saved[at[i]])
    && (forall i, j :: 0 <= i < j < |at| ==>
          out[i].startTS < out[j].startTS || (out[i].startTS == out[j].startTS && at[i] < at[j]))
  }

  /** The positions of these rows among all saves. */
  function Positions(rows: seq<SessionRow>): seq<nat>
    requires forall i :: 0 <= i < |rows| ==> rows[i].id > 0
  {
    seq(|rows|, i requires 0 <= i < |rows| => rows[i].id - 1)
  }

  lemma SortedRowsInOrder(t: Tables, saved: seq<Recorded>)
    requires Sound(t) && ReadAsSaved(t, saved)
    ensures forall i :: 0 <= i < |Sorted(t.sessions)| ==> Sorted(t.sessions)[i].id > 0
    ensures InOrder(Loaded(t), saved, Positions(Sorted(t.sessions)))
  {
    var rows := Sorted(t.sessions);
    SortedIsSorted(t.sessions);
    RowsAreThere(t);
    LoadedAt(t);
    hide Sound, Sorted, Loaded, CommandsOf;
    forall i | 0 <= i < |rows|
      ensures 0 < rows[i].id <= |saved| && Loaded(t)[i] == saved[rows[i].id - 1]
      ensures Loaded(t)[i].startTS == rows[i].startTS
    {
      assert rows[i] in t.sessions && Matches(t, rows[i], saved);
    }
    hide Matches, ReadAsSaved, LoadRow;
  }

  /** Whatever saves and prunes came before, what is loaded was saved as it reads - no session is invented,
      mixed with another, or left with part of its commands - and comes oldest first. */
  lemma LoadedWereSaved(ops: seq<Op>)
    ensures exists at :: InOrder(Loaded(Run(ops)), EverSaved(ops), at)
    ensures forall r :: r in Loaded(Run(ops)) ==> r in EverSaved(ops)
  {
    RunReadsAsSaved(ops);
    hide Run, EverSaved, Loaded, Sorted, Sound, ReadAsSaved;
    SortedRowsInOrder(Run(ops), EverSaved(ops));
    var at := Positions(Sorted(Run(ops).sessions));
    hide Positions;
    assert InOrder(Loaded(Run(ops)), EverSaved(ops), at);
  }

  /** Every save that is not among these positions started no later than any that is, and was saved
      before it if both started at the same time. */
  predicate OthersAreOlder(saved: seq<Recorded>, at: seq<nat>)
    requires forall i :: 0 <= i < |at| ==> at[i] < |saved|
  {
    forall q: nat, i :: q < |saved| && q !in at && 0 <= i < |at| ==>
      saved[q].startTS < saved[at[i]].startTS || (saved[q].startTS == saved[at[i]].startTS && q < at[i])
  }

  /** A save outside the newest lies before them in the order of all. */
  lemma OneIsOlder(saved: seq<Recorded>, k: nat, q: nat, i: nat)
    requires q < |saved| && i < |Newest(saved, k)|
    requires forall j :: 0 <= j < |Newest(saved, k)| ==> Newest(saved, k)[j].id != q + 1
    ensures var y := Newest(saved, k)[i];
            saved[q].startTS < y.startTS || (saved[q].startTS == y.startTS && q + 1 < y.id)
  {
    var rows, s, newest := AllRows(saved), Sorted(AllRows(saved)), Newest(saved, k);
    SortedIsSorted(rows);
    var x := rows[q];
    assert x in rows && x.id == q + 1 && x.startTS == saved[q].startTS;
    hide Sorted, AllRows;
    var a :| 0 <= a < |s| && s[a] == x;
    NewestIsTail(saved, k, a, i);
    hide Newest;
    assert a < |s| - |newest|;
  }

  lemma NewestAreLatest(saved: seq<Recorded>, k: nat)
    ensures forall i :: 0 <= i < |Newest(saved, k)| ==> 0 < Newest(saved, k)[i].id <= |saved|
    ensures OthersAreOlder(saved, Positions(Newest(saved, k)))
  {
    NewestAreSaved(saved, k);
    var newest := Newest(saved, k);
    var at := Positions(newest);
    hide Newest;
    forall q: nat, i | q < |saved| && q !in at && 0 <= i < |at|
      ensures saved[q].startTS < saved[at[i]].startTS || (saved[q].startTS == saved[at[i]].startTS && q < at[i])
    {
      assert forall j :: 0 <= j < |at| ==> at[j] == newest[j].id - 1;
      OneIsOlder(saved, k, q, i);
    }
  }

  lemma NewestIsTail(saved: seq<Recorded>, k: nat, a: nat, i: nat)
    requires a < |Sorted(AllRows(saved))| && i < |Newest(saved, k)|
    ensures var s, newest := Sorted(AllRows(saved)), Newest(saved, k);
            |newest| <= |s| && newest[i] == s[|s| - |newest| + i] &&
            (a >= |s| - |newest| ==> s[a] == newest[a - (|s| - |newest|)])
  {
    hide Sorted, AllRows;
  }

  /** Retention in terms of the saves alone: as long as no earlier prune kept fewer than `k`, pruning to `k`
      and loading yields `k` of the sessions ever saved, or all if there are fewer, oldest first, and
      every session that is not loaded is older than every one that is. */
  lemma NewestAreLoaded(ops: seq<Op>, k: nat)
    requires k > 0 && KeptEnough(ops, k)
    ensures var out, saved := Loaded(Pruned(Run(ops), k)), EverSaved(ops);
            |out| == (if k <= |saved| then k else |saved|) &&
            exists at :: InOrder(out, saved, at) && OthersAreOlder(saved, at)
  {
    var t, saved := Pruned(Run(ops), k), EverSaved(ops);
    assert (ops + [Prune(k)])[..|ops|] == ops;
    RunReadsAsSaved(ops + [Prune(k)]);
    RetainedTables(ops, k);
    hide Run, EverSaved, Pruned, Loaded, Sorted, Sound, ReadAsSaved, Agree, HoldsAll;
    LoadedAt(t);
    SortedRowsInOrder(t, saved);
    NewestAreLatest(saved, k);
    NewestCount(saved, k);
    hide Positions, InOrder, OthersAreOlder, Newest;
    assert InOrder(Loaded(t), saved, Positions(Newest(saved, k)));
  }

  lemma NewestCount(saved: seq<Recorded>, k: nat)
    ensures |Newest(saved, k)| == if k <= |saved| then k else |saved|
  {
  }

  lemma OldestComeFirst(s: seq<SessionRow>, n: nat, x: SessionRow, y: SessionRow)
    requires n <= |s| && IsSorted(s) && Distinct(s)
    requires x in s && y in s && x.id in Ids(s[..n]) && y.id !in Ids(s[..n])
    ensures x.startTS < y.startTS || (x.startTS == y.startTS && x.id < y.id)
  {
    var i :| 0 <= i < |s[..n]| && s[..n][i].id == x.id;
    var a :| 0 <= a < |s| && s[a] == x;
    var b :| 0 <= b < |s| && s[b] == y;
    assert s[i].id == x.id && a == i;
    assert forall k :: 0 <= k < n ==> s[k] == s[..n][k] && s[..n][k].id in Ids(s[..n]);
  }

  /** Although each DELETE selects anew, both take the same sessions: a session stays exactly when its
      commands do, and whatever goes lies before whatever stays. */
  lemma DeletesTakeTheSameOldest(t: Tables, keep: int)
    requires Sound(t) && Surplus(t, keep) > 0
    ensures var gone := Oldest(t, Surplus(t, keep));
            (forall x :: x in Pruned(t, keep).sessions <==> x in t.sessions && x.id !in gone) &&
            (forall c :: c in Pruned(t, keep).commands <==> c in t.commands && c.fk !in gone) &&
            (forall x, y :: x in t.sessions && y in t.sessions && x.id in gone && y.id !in gone ==>
               x.startTS < y.startTS || (x.startTS == y.startTS && x.id < y.id))
  {
    var n := Surplus(t, keep);
    var gone := Oldest(t, n);
    PruneRows(t, keep);
    ExceptMembers(t.sessions, gone);
    CommandsKept(t.commands, gone);
    SortedIsSorted(t.sessions);
    SortedDistinct(t.sessions);
    hide Pruned, Sorted, Sound, Distinct, IsSorted, Before;
    forall x, y | x in t.sessions && y in t.sessions && x.id in gone && y.id !in gone
      ensures x.startTS < y.startTS || (x.startTS == y.startTS && x.id < y.id)
    {
      OldestComeFirst(Sorted(t.sessions), n, x, y);
    }
  }
}
