/** Connections, transactions and prepared statements of db.c, over a database that may fail at any step. */
module DbMachine {
  import opened Wrappers
  import opened Octets

  datatype Vendor = MariaDb | Postgres | Sqlite

  // The state of one database: its connection, the transaction flag, and whether there ever was a connection.
  datatype Conn = Conn(dbc: Option<nat>, inTransaction: bool, hasConnected: bool, vendor: Vendor, exitOnError: bool)

  datatype Kind = Begin | Commit | Rollback | User

  /** A statement that reached a database: on which connection, with which transaction flag, and its outcome. */
  datatype Event = Event(db: nat, conn: nat, kind: Kind, flag: bool, ok: bool)

  // The on-error clause of a statement
  datatype OnError = Default | Continue | Exit

  datatype Outcome = Done | Failed | Stopped   // executed; handed to the application; reported, which ends the request

  /** The connection on which the last transaction of a database began. */
  function BeganOn(log: seq<Event>, db: nat): Option<nat> {
    if log == [] then None
    else
      var e := log[|log| - 1];
      if e.db == db && e.kind == Begin && e.ok then Some(e.conn) else BeganOn(log[..|log| - 1], db)
  }

  /** Every user statement executed inside a transaction ran on the connection where it began. */
  ghost predicate InItsTransaction(log: seq<Event>) {
    log == []
    || (InItsTransaction(log[..|log| - 1])
        && (log[|log| - 1].kind == User && log[|log| - 1].flag ==>
              BeganOn(log[..|log| - 1], log[|log| - 1].db) == Some(log[|log| - 1].conn)))
  }

  lemma {:induction false} Appended(log: seq<Event>, e: Event)
    requires InItsTransaction(log)
    requires e.kind == User && e.flag ==> BeganOn(log, e.db) == Some(e.conn)
    ensures InItsTransaction(log + [e])
    ensures forall db :: BeganOn(log + [e], db) ==
              if e.db == db && e.kind == Begin && e.ok then Some(e.conn) else BeganOn(log, db)
  {
    assert (log + [e])[..|log + [e]| - 1] == log;
  }

  /** In such a log, the statement at any place ran on the connection of the transaction it belongs to. */
  lemma {:induction false} EachInItsTransaction(log: seq<Event>, i: nat)
    requires InItsTransaction(log) && i < |log| && log[i].kind == User && log[i].flag
    ensures BeganOn(log[..i], log[i].db) == Some(log[i].conn)
    decreases |log|
  {
    var init := log[..|log| - 1];
    if i < |init| {
      EachInItsTransaction(init, i);
      assert init[..i] == log[..i] && init[i] == log[i];
    }
  }

  // ---- Statements the user may not send ----

  type Text = seq<char>

  function Lower(c: char): char {
    if 'A' <= c <= 'Z' then ((c as int) + 32) as char else c
  }

  function SkipLead(s: Text): Text {
    if s != [] && (IsSpace(s[0] as int) || s[0] == '"') then SkipLead(s[1..]) else s
  }

  predicate SameFolded(a: Text, b: Text) {
    |a| == |b| && forall i :: 0 <= i < |a| ==> Lower(a[i]) == Lower(b[i])
  }

  /** vely_firstword */
  predicate FirstWord(w: Text, s: Text) {
    var t := SkipLead(s);
    |t| >= |w| && SameFolded(t[..|w|], w) && (|t| == |w| || t[|w|] == '"' || IsSpace(t[|w|] as int))
  }

  predicate Controls(s: Text) {
    FirstWord("BEGIN", s) || FirstWord("START", s) || FirstWord("COMMIT", s) || FirstWord("ROLLBACK", s)
  }

  // A capital letter or the small one
  predicate SameLetter(c: char, w: char) { c == w || c as int == w as int + 32 }

  predicate Gap(c: char) { c == '"' || c as int in [9, 10, 11, 12, 13, 32] }

  /** Behind white space and quotes the text has this word, in any case, and then its end, white space or a quote. */
  predicate WordAt(w: Text, s: Text, k: nat) {
    && k + |w| <= |s|
    && (forall i :: 0 <= i < k ==> Gap(s[i]))
    && (forall i :: 0 <= i < |w| ==> SameLetter(s[k + i], w[i]))
    && (k + |w| == |s| || Gap(s[k + |w|]))
  }

  predicate Capitals(w: Text) { w != [] && forall i :: 0 <= i < |w| ==> 'A' <= w[i] <= 'Z' }

  lemma {:induction false} LeadSkipped(s: Text, k: nat)
    requires k <= |s| && (forall i :: 0 <= i < k ==> Gap(s[i])) && (k == |s| || !Gap(s[k]))
    ensures SkipLead(s) == s[k..]
  {
    if k > 0 {
      assert forall i :: 0 <= i < k - 1 ==> s[1..][i] == s[i + 1];
      LeadSkipped(s[1..], k - 1);
      assert s[1..][k - 1..] == s[k..];
    }
  }

  lemma {:induction false} LeadLength(s: Text) returns (k: nat)
    ensures k <= |s| && (forall i :: 0 <= i < k ==> Gap(s[i])) && (k == |s| || !Gap(s[k]))
  {
    k := 0;
    while k < |s| && Gap(s[k])
      invariant k <= |s| && forall i :: 0 <= i < k ==> Gap(s[i])
    {
      k := k + 1;
    }
  }

  /** The first word of a text is this one exactly if it has it at some place behind white space and quotes. */
  lemma {:induction false} FirstWordIs(w: Text, s: Text)
    requires Capitals(w)
    ensures FirstWord(w, s) <==> exists k: nat :: WordAt(w, s, k)
  {
    var k := LeadLength(s);
    LeadSkipped(s, k);
    var t := s[k..];
    assert forall i :: 0 <= i < |t| ==> t[i] == s[k + i];
    if |t| >= |w| { Folded(t[..|w|], w); }
    if FirstWord(w, s) {
      assert forall i :: 0 <= i < |w| ==> SameLetter(t[..|w|][i], w[i]);
      assert WordAt(w, s, k);
    }
    if j: nat :| WordAt(w, s, j) {
      assert SameLetter(s[j + 0], w[0]);
      assert j == k;
    }
  }

  lemma {:induction false} Folded(a: Text, w: Text)
    requires |a| == |w| && Capitals(w)
    ensures SameFolded(a, w) <==> forall i :: 0 <= i < |w| ==> SameLetter(a[i], w[i])
  {
    forall i | 0 <= i < |w| ensures Lower(a[i]) == Lower(w[i]) <==> SameLetter(a[i], w[i]) {
    }
  }

  /** The refused statements: those whose first word is BEGIN, START, COMMIT or ROLLBACK. */
  lemma {:induction false} ControlsIs(s: Text)
    ensures Controls(s) <==> exists w, k: nat :: w in ["BEGIN", "START", "COMMIT", "ROLLBACK"] && WordAt(w, s, k)
  {
    FirstWordIs("BEGIN", s);
    FirstWordIs("START", s);
    FirstWordIs("COMMIT", s);
    FirstWordIs("ROLLBACK", s);
  }

  // ---- The machine ----

  datatype Prep = Prep(id: nat, vendor: Vendor)

  function Ids(preps: seq<Prep>): set<nat> {
    if preps == [] then {} else Ids(preps[..|preps| - 1]) + {preps[|preps| - 1].id}
  }

  lemma {:induction false} IdAt(preps: seq<Prep>, p: nat)
    requires p in Ids(preps)
    ensures exists i :: 0 <= i < |preps| && preps[i].id == p
    decreases |preps|
  {
    if p != preps[|preps| - 1].id {
      IdAt(preps[..|preps| - 1], p);
      var i :| 0 <= i < |preps[..|preps| - 1]| && preps[..|preps| - 1][i].id == p;
      assert preps[i].id == p;
    }
  }

  lemma {:induction false} IdsGrow(preps: seq<Prep>, x: Prep)
    ensures Ids(preps + [x]) == Ids(preps) + {x.id}
  {
    assert (preps + [x])[..|preps|] == preps;
  }

  // The other databases are as they were.
  ghost predicate OthersSame(before: seq<Conn>, after: seq<Conn>, db: nat) {
    |after| == |before| && forall d :: 0 <= d < |after| && d != db ==> after[d] == before[d]
  }

  ghost predicate NoneStarted(before: seq<Conn>, after: seq<Conn>, db: nat) {
    db < |before| && db < |after| && (after[db].inTransaction ==> before[db].inTransaction)
  }

  // The first n databases are in no transaction, and the others are as they were.
  ghost predicate Settled(before: seq<Conn>, after: seq<Conn>, n: nat) {
    && |after| == |before|
    && (forall d :: 0 <= d < n && d < |after| ==> !after[d].inTransaction)
    && (forall d :: n <= d < |after| ==> after[d] == before[d])
  }

  lemma {:induction false} SettledMore(before: seq<Conn>, now: seq<Conn>, after: seq<Conn>, n: nat)
    requires Settled(before, now, n) && OthersSame(now, after, n) && n < |after| && !after[n].inTransaction
    ensures Settled(before, after, n + 1)
  {
  }

  // What a database is configured as stays.
  ghost predicate SameConfig(before: seq<Conn>, after: seq<Conn>) {
    && |after| == |before|
    && forall d :: 0 <= d < |after| ==>
         after[d].vendor == before[d].vendor && after[d].exitOnError == before[d].exitOnError
  }

  /** An error goes back to the application, by the on-error clause of the statement and otherwise that of the
      database; else it is reported, which ends the request. */
  predicate HandsBack(exits: bool, erract: OnError) {
    match erract
    case Exit => false
    case Continue => true
    case Default => !exits
  }

  /** A failed statement is handed back or reported by its on-error clause, except that a connection that is
      lost and cannot be made anew is always reported, with the statement not sent again. */
  ghost predicate Answered(r: Outcome, before: Conn, after: Conn, once: bool, erract: OnError) {
    && (r == Failed ==> HandsBack(before.exitOnError, erract))
    && (r == Stopped && HandsBack(before.exitOnError, erract) ==> after.dbc != before.dbc && once)
  }

  // A call whose statement reached the database once.
  ghost predicate SentOnce(before: seq<Event>, after: seq<Event>, db: nat, kind: Kind, conn: Option<nat>, flag: bool) {
    && |after| == |before| + 1 && after[..|before|] == before
    && after[|before|].db == db && after[|before|].kind == kind && after[|before|].flag == flag
    && conn == Some(after[|before|].conn)
  }

  // The first execution has failed, or has not even been tried.
  ghost predicate FailedOnce(before: seq<Event>, after: seq<Event>, db: nat, kind: Kind, conn: Option<nat>) {
    after == before || (SentOnce(before, after, db, kind, conn, false) && !after[|before|].ok)
  }

  // The statement sent, unless even that has not been tried
  lemma {:induction false} SentFirst(a: seq<Event>, b: seq<Event>, db: nat, kind: Kind, k: Option<nat>, flag: bool,
                                     err: bool)
    requires (b == a && err) || (SentOnce(a, b, db, kind, k, flag) && b[|a|].ok == !err)
    ensures Sent(a, b, db, kind) && |b| <= |a| + 1 && (!err ==> b != a)
    ensures Reported(if err then Failed else Done, a, b, kind, k)
    ensures err && !flag ==> FailedOnce(a, b, db, kind, k)
  {
  }

  lemma {:induction false} FailedIsSent(a: seq<Event>, b: seq<Event>, db: nat, kind: Kind, k: Option<nat>)
    requires FailedOnce(a, b, db, kind, k)
    ensures Sent(a, b, db, kind) && Unanswered(a, b)
  {
  }

  // The statement sent again, unless even that has not been tried
  lemma {:induction false} SentAgain(a: seq<Event>, b: seq<Event>, c: seq<Event>, db: nat, kind: Kind,
                                     k: Option<nat>, l: Option<nat>, err: bool)
    requires FailedOnce(a, b, db, kind, k) && k != l
    requires (c == b && err) || (SentOnce(b, c, db, kind, l, false) && c[|b|].ok == !err)
    ensures Sent(a, c, db, kind) && b <= c
    ensures Reported(if err then Failed else Done, a, c, kind, l)
  {
    if c != b {
      assert c[..|a|] == c[..|b|][..|a|];
      if b != a { assert c[|a|] == c[..|b|][|a|]; }
    }
  }

  class Databases {
    var conns: seq<Conn>
    var preps: seq<Prep>                  // the list of prepared statements
    var handle: map<nat, Option<nat>>     // the connection each was prepared on; None is a NULL handle
    ghost var owner: map<nat, nat>        // the database a prepared statement is for
    ghost var log: seq<Event>
    var next: nat                         // connections have numbers below this one

    // The list of prepared statements: each once at least, with the vendor of its database.
    ghost predicate Listed()
      reads this`conns, this`preps, this`handle, this`owner
    {
      && handle.Keys == owner.Keys
      && (forall p :: p in owner ==> owner[p] < |conns| && p in Ids(preps))
      && (forall i :: 0 <= i < |preps| ==> preps[i].id in owner && preps[i].vendor == conns[owner[preps[i].id]].vendor)
    }

    /** A handle that is not NULL belongs to the connection its database has, if it has one. */
    ghost predicate HandlesCurrent()
      reads this`conns, this`handle, this`owner
      requires handle.Keys == owner.Keys && forall p :: p in owner ==> owner[p] < |conns|
    {
      forall p :: p in handle && handle[p].Some? && conns[owner[p]].dbc.Some? ==> handle[p] == conns[owner[p]].dbc
    }

    /** While the transaction flag of a database is set it has the connection where its transaction began. */
    ghost predicate TransactionsHold()
      reads this`conns, this`log
    {
      forall d :: 0 <= d < |conns| && conns[d].inTransaction ==> conns[d].dbc.Some? && BeganOn(log, d) == conns[d].dbc
    }

    ghost predicate Valid()
      reads this
    {
      && InItsTransaction(log) && TransactionsHold()
      && (forall d :: 0 <= d < |conns| && conns[d].dbc.Some? ==> conns[d].dbc.value < next)
      && Listed() && HandlesCurrent()
    }

    constructor (vendors: seq<Vendor>, exits: bool)
      ensures Valid() && log == [] && |conns| == |vendors|
    {
      conns := seq(|vendors|, i requires 0 <= i < |vendors| => Conn(None, false, false, vendors[i], exits));
      preps, handle, owner, log, next := [], map[], map[], [], 0;
    }

    // vely_db_prep(NULL): the handles of all statements of the vendor are given up.
    method ResetPreps(vendor: Vendor)
      requires Listed()
      modifies this`handle
      ensures handle.Keys == old(handle).Keys
      ensures forall p :: p in handle ==>
                handle[p] == if conns[owner[p]].vendor == vendor then None else old(handle)[p]
    {
      ghost var was := handle;
      for i := 0 to |preps|
        invariant handle.Keys == was.Keys
        invariant forall p :: p in handle ==> handle[p] == was[p] || handle[p].None?
        invariant forall p :: p in handle && conns[owner[p]].vendor != vendor ==> handle[p] == was[p]
        invariant forall j :: 0 <= j < i && preps[j].vendor == vendor ==> handle[preps[j].id].None?
      {
        if preps[i].vendor == vendor {
          handle := handle[preps[i].id := None];
        }
      }
      forall p | p in handle
        ensures handle[p] == if conns[owner[p]].vendor == vendor then None else old(handle)[p]
      {
        IdAt(preps, p);
      }
    }

    // vely_db_prep of a statement that is used for the first time
    method Register(p: nat, db: nat)
      requires Valid() && db < |conns| && p !in handle
      modifies this`preps, this`handle, this`owner
      ensures Valid() && handle == old(handle)[p := None] && owner == old(owner)[p := db]
    {
      var x := Prep(p, conns[db].vendor);
      IdsGrow(preps, x);
      preps, handle, owner := preps + [x], handle[p := None], owner[p := db];
      assert HandlesCurrent();
    }

    // vely_end_connection
    method EndConnection(db: nat)
      requires Valid() && db < |conns|
      modifies this`conns
      ensures Valid() && |conns| == |old(conns)| && conns[db].dbc.None?
      ensures SameConfig(old(conns), conns)
      ensures OthersSame(old(conns), conns, db)
      ensures conns[db] == if old(conns)[db].dbc.Some? then old(conns)[db].(dbc := None, inTransaction := false)
              else old(conns)[db]
      ensures NoneStarted(old(conns), conns, db)
    {
      if conns[db].dbc.Some? {
        conns := conns[db := conns[db].(dbc := None, inTransaction := false)];
      }
    }

    /** vely_get_db_connection: the cached connection, or a new one; a database in a transaction is never
        connected again. False means that an error has been reported. The connection that could not be made
        stays all the same, unless it was closed again, and is used by the next request. */
    method GetConnection(db: nat) returns (ok: bool)
      requires Valid() && db < |conns|
      modifies this`conns, this`handle, this`next
      ensures Valid() && |conns| == |old(conns)| && next >= old(next)
      ensures ok ==> conns[db].dbc.Some?
      ensures old(conns)[db].dbc.Some? ==> ok && conns == old(conns) && handle == old(handle) && next == old(next)
      ensures old(conns)[db].dbc.None? ==> !conns[db].inTransaction
      ensures old(conns)[db].dbc.None? && conns[db].dbc.Some? ==> conns[db].dbc.value >= old(next)
      ensures SameConfig(old(conns), conns)
      ensures OthersSame(old(conns), conns, db)
      ensures NoneStarted(old(conns), conns, db)
    {
      if conns[db].dbc.Some? { return true; }
      if conns[db].hasConnected && conns[db].inTransaction { return false; }
      ResetPreps(conns[db].vendor);
      var connected: bool := *;
      if !connected {
        var closed: bool := *;
        if !closed {
          conns := conns[db := conns[db].(dbc := Some(next))];
          next := next + 1;
        }
        return false;
      }
      conns := conns[db := conns[db].(dbc := Some(next), hasConnected := true, inTransaction := false)];
      next := next + 1;
      return true;
    }

    // vely_retry_db
    method RetryDb(db: nat) returns (ok: bool)
      requires Valid() && db < |conns| && conns[db].dbc.Some?
      modifies this`conns, this`handle, this`next
      ensures Valid() && |conns| == |old(conns)| && next >= old(next)
      ensures conns[db].dbc != old(conns)[db].dbc
      ensures ok ==> conns[db].dbc.Some? && !conns[db].inTransaction
      ensures SameConfig(old(conns), conns)
      ensures OthersSame(old(conns), conns, db)
      ensures NoneStarted(old(conns), conns, db)
    {
      EndConnection(db);
      ok := GetConnection(db);
    }

    // The statement is sent.
    method Send(db: nat, kind: Kind) returns (err: bool)
      requires Valid() && db < |conns| && conns[db].dbc.Some?
      modifies this`log
      ensures InItsTransaction(log) && TransactionsHold()
      ensures kind == Begin && !err ==> BeganOn(log, db) == conns[db].dbc
      ensures SentOnce(old(log), log, db, kind, conns[db].dbc, conns[db].inTransaction)
      ensures log[|old(log)|].ok == !err
    {
      err := *;
      ghost var e := Event(db, conns[db].dbc.value, kind, conns[db].inTransaction, !err);
      Appended(log, e);
      log := log + [e];
    }

    /** One execution by the database's library; a statement without a handle is prepared first. */
    method Exec(db: nat, kind: Kind, prep: Option<nat>) returns (err: bool)
      requires Valid() && db < |conns| && conns[db].dbc.Some?
      requires prep.Some? ==> prep.value in handle && owner[prep.value] == db
      modifies this`handle, this`log
      ensures Valid() && handle.Keys == old(handle).Keys
      ensures kind == Begin && !err ==> BeganOn(log, db) == conns[db].dbc
      ensures prep.None? || old(handle)[prep.value].Some? ==> log != old(log)
      ensures !err && prep.Some? ==> handle[prep.value] == conns[db].dbc
      ensures (log == old(log) && err)
              || (SentOnce(old(log), log, db, kind, conns[db].dbc, conns[db].inTransaction)
                 && log[|old(log)|].ok == !err)
    {
      if prep.Some? && handle[prep.value].None? {
        var prepared: bool := *;
        if !prepared { return true; }
        handle := handle[prep.value := conns[db].dbc];
      }
      err := Send(db, kind);
    }

    /** vely_handle_error: with retry, a lost connection is made anew; otherwise the error is handed to the
        application or reported. */
    method HandleError(db: nat, retry: bool, erract: OnError) returns (again: bool, stop: bool)
      requires Valid() && db < |conns| && conns[db].dbc.Some?
      requires retry ==> !conns[db].inTransaction
      modifies this`conns, this`handle, this`next
      ensures Valid() && |conns| == |old(conns)|
      ensures again ==> retry && !stop && conns[db].dbc.Some? && !conns[db].inTransaction
                        && conns[db].dbc != old(conns)[db].dbc && conns[db].vendor != Sqlite
      ensures !again && !stop ==> conns == old(conns)
      ensures !retry ==> !again && conns == old(conns)
      ensures !again && conns == old(conns) ==> (stop <==> !HandsBack(conns[db].exitOnError, erract))
      ensures again || conns != old(conns) ==> conns[db].dbc != old(conns)[db].dbc
      ensures SameConfig(old(conns), conns)
      ensures OthersSame(old(conns), conns, db)
      ensures NoneStarted(old(conns), conns, db)
    {
      again, stop := false, false;
      var connLost: bool := *;
      if conns[db].vendor == Sqlite { connLost := false; }
      if connLost && retry {
        var ok := RetryDb(db);
        if ok { return true, false; }
        return false, true;
      }
      if conns[db].exitOnError {
        stop := erract != Continue;
      } else {
        stop := erract == Exit;
      }
    }

    // The second execution, on the new connection; any failure of it is final.
    method ExecAgain(ghost before: seq<Event>, ghost was: Option<nat>, db: nat, kind: Kind, prep: Option<nat>,
            erract: OnError)
      returns (r: Outcome)
      requires Valid() && db < |conns| && conns[db].dbc.Some? && !conns[db].inTransaction
      requires FailedOnce(before, log, db, kind, was) && was != conns[db].dbc
      requires prep.Some? ==> prep.value in handle && owner[prep.value] == db
      modifies this`conns, this`handle, this`next, this`log
      ensures Valid() && conns == old(conns) && Sent(before, log, db, kind) && old(log) <= log
      ensures Reported(r, before, log, kind, conns[db].dbc) && (r == Done ==> log != before)
      ensures r != Done ==> (r == Failed <==> HandsBack(conns[db].exitOnError, erract))
      ensures r == Done && kind == Begin ==> BeganOn(log, db) == conns[db].dbc
    {
      ghost var failed := log;
      var execres := Exec(db, kind, prep);
      SentAgain(before, failed, log, db, kind, was, conns[db].dbc, execres);
      if execres {
        var _, stop := HandleError(db, false, erract);
        return if stop then Stopped else Failed;
      }
      return Done;
    }

    // After a failure outside of a transaction (db.c:397-462): once more, on a new connection, if the old one is lost
    method TryAgain(ghost before: seq<Event>, db: nat, kind: Kind, prep: Option<nat>, erract: OnError)
      returns (r: Outcome)
      requires Valid() && db < |conns| && conns[db].dbc.Some? && !conns[db].inTransaction
      requires FailedOnce(before, log, db, kind, conns[db].dbc)
      requires prep.Some? ==> prep.value in handle && owner[prep.value] == db
      modifies this`conns, this`handle, this`next, this`log
      ensures Valid() && OthersSame(old(conns), conns, db)
      ensures Sent(before, log, db, kind) && old(log) <= log
      ensures Reported(r, before, log, kind, conns[db].dbc) && (r == Done ==> log != before)
      ensures Answered(r, old(conns)[db], conns[db], log == old(log), erract)
      ensures r == Done && kind == Begin ==> BeganOn(log, db) == conns[db].dbc
      ensures NoneStarted(old(conns), conns, db)
    {
      ghost var was := conns[db].dbc;
      var again, stop := HandleError(db, true, erract);
      if again {
        r := ExecAgain(before, was, db, kind, prep, erract);
      } else {
        FailedIsSent(before, log, db, kind, was);
        r := if stop then Stopped else Failed;
      }
    }

    // The statement on the connection there is, or on a new one (db.c:363-474)
    method Run(db: nat, kind: Kind, prep: Option<nat>, erract: OnError) returns (r: Outcome)
      requires Valid() && db < |conns| && conns[db].dbc.Some?
      requires prep.Some? ==> prep.value in handle && owner[prep.value] == db
      modifies this`conns, this`handle, this`next, this`log
      ensures Valid() && OthersSame(old(conns), conns, db)
      ensures Sent(old(log), log, db, kind)
      ensures Reported(r, old(log), log, kind, conns[db].dbc) && (r == Done ==> log != old(log))
      ensures r == Done && kind == Begin ==> BeganOn(log, db) == conns[db].dbc
      ensures Answered(r, old(conns)[db], conns[db], |log| <= |old(log)| + 1, erract)
      ensures old(conns)[db].inTransaction ==> conns == old(conns)
      ensures NoneStarted(old(conns), conns, db)
      ensures prep.None? || old(handle)[prep.value].Some? ==> log != old(log)
    {
      ghost var before := log;
      var execres := Exec(db, kind, prep);
      SentFirst(before, log, db, kind, conns[db].dbc, conns[db].inTransaction, execres);
      if !execres { return Done; }
      if conns[db].inTransaction {
        var _, stop := HandleError(db, false, erract);
        return if stop then Stopped else Failed;
      }
      r := TryAgain(before, db, kind, prep, erract);
    }

    /** vely_execute_SQL. The statement reaches a database twice at most, the second time only when it
        failed the first time, outside of a transaction and on another connection. */
    method ExecuteSql(db: nat, s: Text, userCheck: bool, kind: Kind, prep: Option<nat>, erract: OnError)
      returns (r: Outcome)
      requires Valid() && db < |conns| && (kind == User <==> userCheck)
      requires prep.Some? ==> prep.value in handle && owner[prep.value] == db
      modifies this`conns, this`handle, this`next, this`log
      ensures Valid() && OthersSame(old(conns), conns, db)
      ensures userCheck && (s == [] || Controls(s)) ==> r == Stopped && log == old(log)
      ensures Sent(old(log), log, db, kind)
      ensures Reported(r, old(log), log, kind, conns[db].dbc) && (r == Done ==> log != old(log))
      ensures r == Done && kind == Begin ==> BeganOn(log, db) == conns[db].dbc
      ensures old(conns)[db].inTransaction && r != Stopped ==> conns == old(conns)
      ensures prep.None? && r != Stopped ==> log != old(log)
      ensures s != [] && !(userCheck && Controls(s)) && old(conns)[db].dbc.Some? ==>
                && Answered(r, old(conns)[db], conns[db], |log| <= |old(log)| + 1, erract)
                && (prep.None? || old(handle)[prep.value].Some? ==> log != old(log))
      ensures r == Failed ==> HandsBack(old(conns)[db].exitOnError, erract)
      ensures NoneStarted(old(conns), conns, db)
    {
      if s == [] { return Stopped; }
      if userCheck && Controls(s) { return Stopped; }
      var ok := GetConnection(db);
      if !ok { return Stopped; }
      r := Run(db, kind, prep, erract);
    }

    // The transaction flag of a database
    method SetFlag(db: nat, flag: bool)
      requires Valid() && db < |conns| && (flag ==> conns[db].dbc.Some? && BeganOn(log, db) == conns[db].dbc)
      modifies this`conns
      ensures Valid() && conns == old(conns)[db := old(conns)[db].(inTransaction := flag)]
    {
      conns := conns[db := conns[db].(inTransaction := flag)];
    }

    /** vely_begin_transaction: success sets the flag, and the transaction began on the present connection. */
    method BeginTransaction(db: nat, s: Text, erract: OnError) returns (r: Outcome)
      requires Valid() && db < |conns| && s != []
      modifies this`conns, this`handle, this`next, this`log
      ensures Valid() && OthersSame(old(conns), conns, db) && Sent(old(log), log, db, Begin)
      ensures r == Done ==> conns[db].inTransaction && conns[db].dbc == BeganOn(log, db)
      ensures r == Failed ==> !conns[db].inTransaction
      ensures r != Done ==> Unanswered(old(log), log)
    {
      r := ExecuteSql(db, s, false, Begin, None, erract);
      if r == Stopped { return; }
      SetFlag(db, r == Done);
    }

    /** vely_commit and vely_rollback: the flag is cleared first, so the statement itself may be sent on a new
        connection. */
    method EndTransaction(db: nat, s: Text, kind: Kind, erract: OnError) returns (r: Outcome)
      requires Valid() && db < |conns| && s != [] && (kind == Commit || kind == Rollback)
      modifies this`conns, this`handle, this`next, this`log
      ensures Valid() && OthersSame(old(conns), conns, db) && Sent(old(log), log, db, kind)
      ensures !conns[db].inTransaction && (r != Stopped ==> log != old(log))
      ensures r != Done ==> Unanswered(old(log), log)
    {
      SetFlag(db, false);
      r := ExecuteSql(db, s, false, kind, None, erract);
    }

    /** A user's statement, prepared or not, as the generated code runs it (v1.c:1646). */
    method UserStatement(db: nat, s: Text, prep: Option<nat>, erract: OnError) returns (r: Outcome)
      requires Valid() && db < |conns| && (prep.Some? && prep.value in handle ==> owner[prep.value] == db)
      modifies this
      ensures Valid() && OthersSame(old(conns), conns, db) && Sent(old(log), log, db, User)
      ensures s == [] || Controls(s) ==> r == Stopped && log == old(log)
      ensures s != [] && !Controls(s) && old(conns)[db].dbc.Some? ==>
                && Answered(r, old(conns)[db], conns[db], |log| <= |old(log)| + 1, erract)
                && (prep.None? || (prep.value in old(handle) && old(handle)[prep.value].Some?) ==> log != old(log))
      ensures owner == if prep.Some? then old(owner)[prep.value := db] else old(owner)
      ensures r != Done ==> Unanswered(old(log), log)
    {
      if prep.Some? && prep.value !in handle { Register(prep.value, db); }
      r := ExecuteSql(db, s, true, User, prep, erract);
    }

    /** One call of a request. */
    method Step(c: Call, ghost home: map<nat, nat>) returns (r: Outcome)
      requires Valid() && Proper(c, |conns|, home) && AtHome(owner, home)
      modifies this
      ensures Valid() && |conns| == |old(conns)| && AtHome(owner, home)
      ensures Sent(old(log), log, c.db, c.kind) && (r != Done ==> Unanswered(old(log), log))
    {
      match c.kind
      case Begin => r := BeginTransaction(c.db, c.s, c.erract);
      case User => r := UserStatement(c.db, c.s, c.prep, c.erract);
      case _ => r := EndTransaction(c.db, c.s, c.kind, c.erract);
    }

    // ---- Requests ----

    // The transaction of one database is rolled back, behind those of the databases below it.
    method RollBack(ghost open: seq<Conn>, ghost start: seq<Event>, ghost stages: seq<Stage>, db: nat)
      returns (r: Outcome, ghost more: seq<Stage>)
      requires Valid() && db < |conns| && conns[db].inTransaction
      requires Checked(open, start, conns, log, stages, db) && RolledBack(open, start, log, db)
      modifies this`conns, this`handle, this`next, this`log
      ensures Valid() && Checked(open, start, conns, log, more, db + 1)
      ensures r != Stopped ==> RolledBack(open, start, log, db + 1)
    {
      ghost var now, was := conns, log;
      r := EndTransaction(db, "rollback ", Rollback, Default);
      more := stages + [Stage(db, Rollback, log)];
      CheckedMore(open, start, now, conns, was, log, stages, db);
      if r != Stopped { RollbackSent(open, start, was, log, db); }
    }

    /** vely_check_transaction: every transaction that is open is rolled back, up to a rollback that reports an
        error. */
    method CheckTransaction() returns (r: Outcome, found: bool, ghost n: nat, ghost stages: seq<Stage>)
      requires Valid()
      modifies this`conns, this`handle, this`next, this`log
      ensures Valid() && |conns| == |old(conns)| && (r == Done || r == Stopped)
      ensures n <= |conns| && (r == Done ==> n == |conns|)
      ensures Chain(old(log), stages, log) && Rollbacks(Open(old(conns), n), stages)
      ensures forall d :: 0 <= d < |conns| ==> !conns[d].inTransaction || (n <= d && old(conns)[d].inTransaction)
      ensures r == Done ==> RolledBack(old(conns), old(log), log, |conns|)
      ensures r == Done && !found ==> log == old(log) && conns == old(conns) && stages == []
    {
      found, n, stages := false, 0, [];
      for i := 0 to |conns|
        invariant Valid() && |conns| == |old(conns)| && n == i
        invariant Checked(old(conns), old(log), conns, log, stages, i) && RolledBack(old(conns), old(log), log, i)
        invariant !found ==> log == old(log) && conns == old(conns) && stages == []
      {
        n := i + 1;
        if conns[i].inTransaction {
          found := true;
          var outcome;
          outcome, stages := RollBack(old(conns), old(log), stages, i);
          if outcome == Stopped { return Stopped, found, n, stages; }
        } else {
          NothingOpen(old(conns), old(log), conns, log, stages, i);
        }
      }
      r := Done;
    }

    /** What reporting an error does to the databases (velyrt.c:619-691): open transactions are rolled back, and
        an error in that ends the process. Otherwise the next request comes. */
    method ReportError() returns (alive: bool, ghost n: nat, ghost stages: seq<Stage>)
      requires Valid()
      modifies this`conns, this`handle, this`next, this`log
      ensures Valid() && |conns| == |old(conns)| && n <= |conns| && (alive ==> n == |conns|)
      ensures Chain(old(log), stages, log) && Rollbacks(Open(old(conns), n), stages)
      ensures alive ==> forall d :: 0 <= d < |conns| ==> !conns[d].inTransaction
      ensures alive ==> RolledBack(old(conns), old(log), log, |conns|)
    {
      var r, found;
      r, found, n, stages := CheckTransaction();
      alive := r == Done;
    }

    /** The end of a request that has reported no error (v1.c:6962): a transaction still open is one. */
    method EndRequest() returns (alive: bool, ghost stages: seq<Stage>)
      requires Valid()
      modifies this`conns, this`handle, this`next, this`log
      ensures Valid() && |conns| == |old(conns)| && Chain(old(log), stages, log) && OnlyRollbacks(old(conns), stages)
      ensures alive ==> forall d :: 0 <= d < |conns| ==> !conns[d].inTransaction
    {
      var r, found;
      ghost var n;
      r, found, n, stages := CheckTransaction();
      OpenOnly(old(conns), n, stages);
      alive := true;
      if r == Stopped || found {
        ghost var mid, open := log, conns;
        ghost var m, more;
        alive, m, more := ReportError();
        OpenOnly(open, m, more);
        Joined(old(log), stages, mid, more, log);
        stages := stages + more;
      }
    }

    // The calls of a request, up to the first that reports an error
    method Calls(calls: seq<Call>, ghost home: map<nat, nat>) returns (r: Outcome, ghost stages: seq<Stage>)
      requires Valid() && AtHome(owner, home)
      requires forall i :: 0 <= i < |calls| ==> Proper(calls[i], |conns|, home)
      modifies this
      ensures Valid() && AtHome(owner, home) && |conns| == |old(conns)|
      ensures Chain(old(log), stages, log) && Made(calls, stages)
      ensures r == Stopped ==> stages != [] && Unanswered(Before(old(log), stages, |stages| - 1), log)
      ensures r != Stopped ==> |stages| == |calls|
    {
      var k := 0;
      r, stages := Done, [];
      while k < |calls| && r != Stopped
        invariant k <= |calls| && |stages| == k
        invariant Valid() && AtHome(owner, home) && |conns| == |old(conns)|
        invariant Chain(old(log), stages, log) && Made(calls, stages)
        invariant r == Stopped ==> k > 0 && Unanswered(Before(old(log), stages, k - 1), log)
        decreases |calls| - k
      {
        ghost var was := log;
        r := Step(calls[k], home);
        Longer(old(log), stages, was, Stage(calls[k].db, calls[k].kind, log));
        stages := stages + [Stage(calls[k].db, calls[k].kind, log)];
        k := k + 1;
      }
    }

    /** One request: its calls up to the first that reports an error, and the rollbacks of what they leave open. */
    method Serve(q: Request, ghost home: map<nat, nat>) returns (alive: bool, ghost run: Service)
      requires Valid() && AtHome(owner, home)
      requires forall i :: 0 <= i < |q.calls| ==> Proper(q.calls[i], |conns|, home)
      modifies this
      ensures Valid() && AtHome(owner, home) && |conns| == |old(conns)|
      ensures Chain(old(log), run.stages, log) && Answers(q, old(log), run)
      ensures alive ==> forall d :: 0 <= d < |conns| ==> !conns[d].inTransaction
    {
      var r;
      ghost var calls, n, rollbacks;
      r, calls := Calls(q.calls, home);
      ghost var mid, open := log, conns;
      if r == Stopped || q.reports {
        alive, n, rollbacks := ReportError();
        OpenOnly(open, n, rollbacks);
      } else {
        alive, rollbacks := EndRequest();
      }
      Joined(old(log), calls, mid, rollbacks, log);
      run := Service(|calls|, calls + rollbacks);
      RunAnswers(q, old(log), mid, calls, open, rollbacks);
    }

    /** The life of a process, whatever fails: requests are served with the same connections, flags and
        handles until the process ends, which it does only if a rollback fails while an error is reported.
        Each user statement sent while the transaction flag is set goes to the connection on which its
        transaction began. The log is made up of the stages of the requests' calls, in their order, each of
        which sends the statement of its call twice at most, and of the rollbacks behind them. The handles stay
        those of the current connections, and no transaction is left open from one request to the next. */
    method Session(qs: seq<Request>, ghost home: map<nat, nat>) returns (alive: bool, ghost runs: seq<Service>)
      requires Valid() && AtHome(owner, home)
      requires forall i, k :: 0 <= i < |qs| && 0 <= k < |qs[i].calls| ==> Proper(qs[i].calls[k], |conns|, home)
      modifies this
      ensures Valid() && AtHome(owner, home) && |conns| == |old(conns)|
      ensures |runs| <= |qs| && (alive ==> |runs| == |qs|) && Served(qs, old(log), runs, log)
      ensures alive && qs != [] ==> forall d :: 0 <= d < |conns| ==> !conns[d].inTransaction
      ensures forall i :: 0 <= i < |log| && log[i].kind == User && log[i].flag ==>
                BeganOn(log[..i], log[i].db) == Some(log[i].conn)
    {
      runs, alive := [], true;
      var n := 0;
      while n < |qs| && alive
        invariant n <= |qs| && |runs| == n && Valid() && AtHome(owner, home) && |conns| == |old(conns)|
        invariant Served(qs, old(log), runs, log)
        invariant alive && n > 0 ==> forall d :: 0 <= d < |conns| ==> !conns[d].inTransaction
        decreases |qs| - n
      {
        ghost var was, run := log, *;
        alive, run := Serve(qs[n], home);
        ServedMore(qs, old(log), runs, was, run, log);
        runs := runs + [run];
        n := n + 1;
      }
      forall i | 0 <= i < |log| && log[i].kind == User && log[i].flag
        ensures BeganOn(log[..i], log[i].db) == Some(log[i].conn)
      {
        EachInItsTransaction(log, i);
      }
    }
  }

  // ---- The stages of the log ----

  /** What a call of some database and kind has made of the log. */
  datatype Stage = Stage(db: nat, kind: Kind, log: seq<Event>)

  /** What is made of a request: the number of calls made, and their stages with those of the rollbacks behind. */
  datatype Service = Service(made: nat, stages: seq<Stage>)

  // The log before a stage
  function Before(start: seq<Event>, stages: seq<Stage>, k: int): seq<Event>
    requires 0 <= k <= |stages|
  {
    if k == 0 then start else stages[k - 1].log
  }

  ghost predicate Follows(start: seq<Event>, stages: seq<Stage>, k: int)
    requires 0 <= k < |stages|
  {
    Sent(Before(start, stages, k), stages[k].log, stages[k].db, stages[k].kind)
  }

  /** Each stage follows from the one before by its call. */
  ghost predicate Chain(start: seq<Event>, stages: seq<Stage>, log: seq<Event>) {
    && Before(start, stages, |stages|) == log
    && forall k :: 0 <= k < |stages| ==> Follows(start, stages, k)
  }

  lemma {:induction false} Longer(start: seq<Event>, stages: seq<Stage>, was: seq<Event>, s: Stage)
    requires Chain(start, stages, was) && Sent(was, s.log, s.db, s.kind)
    ensures Chain(start, stages + [s], s.log)
    ensures forall k :: 0 <= k <= |stages| ==> Before(start, stages + [s], k) == Before(start, stages, k)
  {
    forall k | 0 <= k < |stages| + 1 ensures Follows(start, stages + [s], k) {
      if k < |stages| { assert Follows(start, stages, k); }
    }
  }

  lemma {:induction false} Joined(start: seq<Event>, a: seq<Stage>, mid: seq<Event>, b: seq<Stage>, log: seq<Event>)
    requires Chain(start, a, mid) && Chain(mid, b, log)
    ensures Chain(start, a + b, log)
    ensures forall k :: 0 <= k <= |a| ==> Before(start, a + b, k) == Before(start, a, k)
  {
    forall k | 0 <= k < |a + b| ensures Follows(start, a + b, k) {
      if k < |a| {
        assert Follows(start, a, k);
      } else {
        assert Follows(mid, b, k - |a|);
      }
    }
  }

  /** The stages are those of the first calls, in their order. */
  ghost predicate Made(calls: seq<Call>, stages: seq<Stage>) {
    && |stages| <= |calls|
    && forall k :: 0 <= k < |stages| ==> stages[k].db == calls[k].db && stages[k].kind == calls[k].kind
  }

  /** The databases below n that are in a transaction. */
  function Open(conns: seq<Conn>, n: nat): (dbs: seq<nat>)
    requires n <= |conns|
    ensures forall k :: 0 <= k < |dbs| ==> dbs[k] < n && conns[dbs[k]].inTransaction
  {
    if n == 0 then [] else Open(conns, n - 1) + if conns[n - 1].inTransaction then [n - 1] else []
  }

  /** One rollback for each of the databases, in their order. */
  ghost predicate Rollbacks(dbs: seq<nat>, stages: seq<Stage>) {
    |stages| == |dbs| && forall k :: 0 <= k < |dbs| ==> stages[k].db == dbs[k] && stages[k].kind == Rollback
  }

  // The first n databases are done with: those in a transaction have been rolled back, as the stages tell.
  ghost predicate Checked(open: seq<Conn>, start: seq<Event>, now: seq<Conn>, log: seq<Event>, stages: seq<Stage>,
                          n: nat)
  {
    n <= |open| && Settled(open, now, n) && Chain(start, stages, log) && Rollbacks(Open(open, n), stages)
  }

  lemma {:induction false} NothingOpen(open: seq<Conn>, start: seq<Event>, now: seq<Conn>, log: seq<Event>,
                                       stages: seq<Stage>, n: nat)
    requires n < |now| && !now[n].inTransaction
    requires Checked(open, start, now, log, stages, n) && RolledBack(open, start, log, n)
    ensures Checked(open, start, now, log, stages, n + 1) && RolledBack(open, start, log, n + 1)
  {
  }

  lemma {:induction false} CheckedMore(open: seq<Conn>, start: seq<Event>, now: seq<Conn>, after: seq<Conn>,
                                       was: seq<Event>, log: seq<Event>, stages: seq<Stage>, n: nat)
    requires n < |now| && now[n].inTransaction && Checked(open, start, now, was, stages, n)
    requires OthersSame(now, after, n) && !after[n].inTransaction && Sent(was, log, n, Rollback)
    ensures Checked(open, start, after, log, stages + [Stage(n, Rollback, log)], n + 1)
  {
    SettledMore(open, now, after, n);
    Longer(start, stages, was, Stage(n, Rollback, log));
  }

  // Rollbacks of databases that are in a transaction
  ghost predicate OnlyRollbacks(conns: seq<Conn>, stages: seq<Stage>) {
    forall k :: 0 <= k < |stages| ==>
      stages[k].kind == Rollback && stages[k].db < |conns| && conns[stages[k].db].inTransaction
  }

  lemma {:induction false} OpenOnly(conns: seq<Conn>, n: nat, stages: seq<Stage>)
    requires n <= |conns| && Rollbacks(Open(conns, n), stages)
    ensures OnlyRollbacks(conns, stages)
  {
  }

  /** What a request has made of the log: its first calls, all of them unless the last one made has failed, and
      then rollbacks. */
  ghost predicate Answers(q: Request, start: seq<Event>, run: Service) {
    && run.made <= |run.stages| && Made(q.calls, run.stages[..run.made])
    && (forall k :: run.made <= k < |run.stages| ==> run.stages[k].kind == Rollback)
    && (run.made < |q.calls| ==>
          run.made > 0 && Unanswered(Before(start, run.stages, run.made - 1), run.stages[run.made - 1].log))
  }

  lemma {:induction false} RunAnswers(q: Request, start: seq<Event>, mid: seq<Event>, calls: seq<Stage>,
                                      conns: seq<Conn>, rollbacks: seq<Stage>)
    requires Made(q.calls, calls) && Chain(start, calls, mid) && OnlyRollbacks(conns, rollbacks)
    requires |calls| < |q.calls| ==> calls != [] && Unanswered(Before(start, calls, |calls| - 1), mid)
    ensures Answers(q, start, Service(|calls|, calls + rollbacks))
  {
    assert (calls + rollbacks)[..|calls|] == calls;
  }

  function StagesOf(runs: seq<Service>): seq<Stage> {
    if runs == [] then [] else StagesOf(runs[..|runs| - 1]) + runs[|runs| - 1].stages
  }

  /** The log is made up of what the requests have made of it, one after the other. */
  ghost predicate Served(qs: seq<Request>, start: seq<Event>, runs: seq<Service>, log: seq<Event>) {
    && |runs| <= |qs| && Chain(start, StagesOf(runs), log)
    && forall i :: 0 <= i < |runs| ==>
         Answers(qs[i], Before(start, StagesOf(runs[..i]), |StagesOf(runs[..i])|), runs[i])
  }

  lemma {:induction false} ServedMore(qs: seq<Request>, start: seq<Event>, runs: seq<Service>, was: seq<Event>,
                                      run: Service, log: seq<Event>)
    requires Served(qs, start, runs, was) && |runs| < |qs|
    requires Chain(was, run.stages, log) && Answers(qs[|runs|], was, run)
    ensures Served(qs, start, runs + [run], log)
  {
    var more := runs + [run];
    assert more[..|runs|] == runs;
    Joined(start, StagesOf(runs), was, run.stages, log);
    forall i | 0 <= i < |more|
      ensures Answers(qs[i], Before(start, StagesOf(more[..i]), |StagesOf(more[..i])|), more[i])
    {
      if i < |runs| { assert more[..i] == runs[..i]; }
    }
  }

  /** A rollback has been sent for each of the first n databases that was in a transaction. */
  ghost predicate RolledBack(conns: seq<Conn>, before: seq<Event>, after: seq<Event>, n: nat) {
    && before <= after
    && forall d :: 0 <= d < n && d < |conns| && conns[d].inTransaction ==> RollbackIn(before, after, d)
  }

  ghost predicate RollbackIn(before: seq<Event>, after: seq<Event>, d: nat) {
    exists i :: |before| <= i < |after| && after[i].db == d && after[i].kind == Rollback
  }

  lemma {:induction false} RollbackSent(conns: seq<Conn>, before: seq<Event>, was: seq<Event>, log: seq<Event>, n: nat)
    requires RolledBack(conns, before, was, n) && Sent(was, log, n, Rollback) && log != was
    ensures RolledBack(conns, before, log, n + 1)
  {
    forall d | 0 <= d < n && d < |conns| && conns[d].inTransaction ensures RollbackIn(before, log, d) {
      assert RollbackIn(before, was, d);
      var i :| |before| <= i < |was| && was[i].db == d && was[i].kind == Rollback;
      assert log[..|was|][i] == log[i];
    }
    assert log[|was|].db == n && log[|was|].kind == Rollback;
    assert log[..|before|] == log[..|was|][..|before|] == before;
  }

  /** What a process does for one request: calls, and at the end perhaps an error reported by the program itself. */
  datatype Request = Request(calls: seq<Call>, reports: bool)

  // A call as the generated code makes it; the statements of begin, commit and rollback are never empty.
  datatype Call = Call(db: nat, kind: Kind, s: Text, prep: Option<nat>, erract: OnError)

  // Each place of a prepared statement in a program is for one database.
  ghost predicate Proper(c: Call, n: nat, home: map<nat, nat>) {
    && c.db < n && (c.kind != User ==> c.s != [])
    && (c.prep.Some? ==> c.prep.value in home && home[c.prep.value] == c.db)
  }

  ghost predicate AtHome(owner: map<nat, nat>, home: map<nat, nat>) {
    forall p :: p in owner ==> p in home && home[p] == owner[p]
  }

  // What the outcome says about the last execution.
  ghost predicate Reported(r: Outcome, before: seq<Event>, after: seq<Event>, kind: Kind, conn: Option<nat>) {
    if r == Done then after != [] && after[|after| - 1].ok && conn == Some(after[|after| - 1].conn)
    else Unanswered(before, after)
  }

  // Nothing has been executed, or the last execution has failed.
  ghost predicate Unanswered(before: seq<Event>, after: seq<Event>) {
    after == before || (after != [] && !after[|after| - 1].ok)
  }

  /** What one call adds to the log: at most two executions of its statement, the second one only after a
      failed one, outside of a transaction, on another connection. */
  ghost predicate Sent(before: seq<Event>, after: seq<Event>, db: nat, kind: Kind) {
    && |before| <= |after| <= |before| + 2 && after[..|before|] == before
    && (forall i :: |before| <= i < |after| ==> after[i].db == db && after[i].kind == kind)
    && (|after| == |before| + 2 ==>
          && !after[|before|].ok && !after[|before|].flag && !after[|before| + 1].flag
          && after[|before|].conn != after[|before| + 1].conn)
  }
}
