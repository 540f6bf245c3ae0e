/** Ingestion: sessionizer updates applied one by one to the session table, which mirrors the open
    sessions after every call, restart and crash. */
module Ingest {
  import opened Basics
  import opened Sessionizer

  type Rows = map<string, Session>

  // ---------------------------------------------------------------- the table

  function Apply(rows: Rows, u: Update): Rows {
    match u
    case Opened(ws) => rows[ws.id := ws]
    case Touched(id, last, commands) =>
      if id in rows then rows[id := rows[id].(lastActivity := last, commands := commands)] else rows
    case Closed(id, ended) =>
      if id in rows then rows[id := rows[id].(ended := Some(ended))] else rows
  }

  function ApplyAll(rows: Rows, updates: seq<Update>): Rows
    decreases |updates|
  {
    if updates == [] then rows else ApplyAll(Apply(rows, updates[0]), updates[1..])
  }

  ghost predicate IsOpen(rows: Rows, id: string) {
    id in rows && rows[id].ended == None
  }

  /** At most one open row per project; a closed row ended at its last activity. */
  ghost predicate TableOk(rows: Rows) {
    && (forall id :: id in rows ==> rows[id].id == id)
    && (forall id :: id in rows && rows[id].ended.Some? ==> rows[id].ended.value == rows[id].lastActivity)
    && (forall i, j :: IsOpen(rows, i) && IsOpen(rows, j) && rows[i].project == rows[j].project ==> i == j)
  }

  /** The open rows are exactly the in-memory open sessions. */
  ghost predicate Mirror(open: OpenMap, rows: Rows) {
    && TableOk(rows)
    && (forall p :: p in open ==>
          IsOpen(rows, open[p].id) && rows[open[p].id].project == p
          && rows[open[p].id].lastActivity == open[p].lastActivity && rows[open[p].id].commands == open[p].commands)
    && (forall id :: IsOpen(rows, id) ==> rows[id].project in open && open[rows[id].project].id == id)
  }

  /** `list` holds each open row once, in some order. */
  ghost predicate ListsOpen(rows: Rows, list: seq<Session>) {
    && (forall i :: 0 <= i < |list| ==> IsOpen(rows, list[i].id) && rows[list[i].id] == list[i])
    && (forall id :: IsOpen(rows, id) ==> rows[id] in list)
    && (forall i, j :: 0 <= i < j < |list| ==> list[i] != list[j])
  }

  lemma ApplyTwo(rows: Rows, u: Update, v: Update)
    ensures ApplyAll(rows, [u, v]) == Apply(Apply(rows, u), v)
  {
    assert [u, v][1..] == [v];
    assert ApplyAll(Apply(rows, u), [v]) == Apply(Apply(rows, u), v);
  }

  // ---------------------------------------------------------------- one call

  lemma CloseOne(open: OpenMap, rows: Rows, p: string)
    requires Mirror(open, rows) && p in open
    ensures Mirror(map q | q in open && q != p :: open[q],
                   Apply(rows, Closed(open[p].id, open[p].lastActivity)))
  {
    assert IsOpen(rows, open[p].id);
    var rows' := Apply(rows, Closed(open[p].id, open[p].lastActivity));
    assert forall id :: IsOpen(rows', id) <==> IsOpen(rows, id) && id != open[p].id;
  }

  lemma OpenOne(open: OpenMap, rows: Rows, ws: Session)
    requires Mirror(open, rows) && ws.id !in rows && ws.project !in open && ws.ended == None
    ensures Mirror(open[ws.project := Open(ws.id, ws.lastActivity, ws.commands)], Apply(rows, Opened(ws)))
  {
    var rows' := Apply(rows, Opened(ws));
    assert forall id :: IsOpen(rows', id) <==> IsOpen(rows, id) || id == ws.id;
  }

  lemma TouchOne(open: OpenMap, rows: Rows, p: string, ts: int, commands: nat)
    requires Mirror(open, rows) && p in open
    ensures Mirror(open[p := Open(open[p].id, ts, commands)], Apply(rows, Touched(open[p].id, ts, commands)))
  {
    assert IsOpen(rows, open[p].id);
    var rows' := Apply(rows, Touched(open[p].id, ts, commands));
    assert forall id :: IsOpen(rows', id) <==> IsOpen(rows, id);
  }

  lemma ReopenOne(open: OpenMap, rows: Rows, p: string, ws: Session)
    requires Mirror(open, rows) && p in open && ws.id !in rows && ws.project == p && ws.ended == None
    ensures Mirror(open[p := Open(ws.id, ws.lastActivity, ws.commands)],
                   ApplyAll(rows, [Closed(open[p].id, open[p].lastActivity), Opened(ws)]))
  {
    var rest := map q | q in open && q != p :: open[q];
    CloseOne(open, rows, p);
    assert IsOpen(rows, open[p].id);
    OpenOne(rest, Apply(rows, Closed(open[p].id, open[p].lastActivity)), ws);
    ApplyTwo(rows, Closed(open[p].id, open[p].lastActivity), Opened(ws));
    assert open[p := Open(ws.id, ws.lastActivity, ws.commands)] == rest[p := Open(ws.id, ws.lastActivity, ws.commands)];
  }

  lemma ApplyOne(rows: Rows, u: Update)
    ensures ApplyAll(rows, [u]) == Apply(rows, u)
  {
    assert [u][1..] == [];
  }

  lemma ActivityKeepsMirror(open: OpenMap, rows: Rows, gap: int, p: string, ts: int, cmd: bool, id: string)
    requires Mirror(open, rows) && id !in rows
    ensures var (open', updates) := OnActivity(open, gap, p, ts, cmd, id);
            Mirror(open', ApplyAll(rows, updates))
  {
    hide Mirror, Apply, ApplyAll;
    var ws := Fresh(id, p, ts, cmd);
    if p in open && ts - open[p].lastActivity <= gap {
      TouchOne(open, rows, p, ts, open[p].commands + Count(cmd));
      ApplyOne(rows, Touched(open[p].id, ts, open[p].commands + Count(cmd)));
    } else if p in open {
      ReopenOne(open, rows, p, ws);
      assert [Closed(open[p].id, open[p].lastActivity)] + [Opened(ws)]
          == [Closed(open[p].id, open[p].lastActivity), Opened(ws)];
    } else {
      OpenOne(open, rows, ws);
      ApplyOne(rows, Opened(ws));
      assert [] + [Opened(ws)] == [Opened(ws)];
    }
  }

  /** Closing the stale rows, as one step on the table. */
  function CloseStale(rows: Rows, gap: int, now: int): Rows {
    map id | id in rows ::
      if rows[id].ended == None && now - rows[id].lastActivity > gap
      then rows[id].(ended := Some(rows[id].lastActivity)) else rows[id]
  }

  /** What is left after closing the first project of a stale order. */
  lemma CloseFirst(open: OpenMap, rows: Rows, gap: int, now: int, order: seq<string>)
    requires Mirror(open, rows) && StaleOrder(open, gap, now, order) && order != []
    ensures order[0] in open
    ensures var p := order[0];
            var open' := map q | q in open && q != p :: open[q];
            var rows' := Apply(rows, Closed(open[p].id, open[p].lastActivity));
            && Mirror(open', rows') && StaleOrder(open', gap, now, order[1..])
            && Closings(open, order)[0] == Closed(open[p].id, open[p].lastActivity)
            && Closings(open, order)[1..] == Closings(open', order[1..])
            && CloseStale(rows', gap, now) == CloseStale(rows, gap, now)
  {
    var p := order[0];
    assert p in order && Stale(open, gap, now, p);
    CloseOne(open, rows, p);
    var open' := map q | q in open && q != p :: open[q];
    forall q ensures q in order[1..] <==> Stale(open', gap, now, q) {
      if q in order[1..] { assert q in order; }
      if Stale(open', gap, now, q) { assert Stale(open, gap, now, q) && q in order; }
    }
    assert IsOpen(rows, open[p].id);
  }

  /** Whatever order the hash map yields, applying a tick's closings has the same effect. */
  lemma {:induction false} TickIsCloseStale(open: OpenMap, rows: Rows, gap: int, now: int, order: seq<string>)
    requires Mirror(open, rows) && StaleOrder(open, gap, now, order)
    ensures ApplyAll(rows, Closings(open, order)) == CloseStale(rows, gap, now)
    decreases |order|
  {
    if order == [] {
      forall id | id in rows ensures CloseStale(rows, gap, now)[id] == rows[id] {
        assert !Stale(open, gap, now, rows[id].project);
      }
    } else {
      var p := order[0];
      CloseFirst(open, rows, gap, now, order);
      TickIsCloseStale(map q | q in open && q != p :: open[q],
                       Apply(rows, Closed(open[p].id, open[p].lastActivity)), gap, now, order[1..]);
    }
  }

  lemma {:induction false} TickPrefixOk(open: OpenMap, rows: Rows, gap: int, now: int, order: seq<string>, k: nat)
    requires Mirror(open, rows) && StaleOrder(open, gap, now, order) && k <= |order|
    ensures TableOk(ApplyAll(rows, Closings(open, order)[..k]))
    decreases k
  {
    if k == 0 {
    } else {
      var p := order[0];
      CloseFirst(open, rows, gap, now, order);
      TickPrefixOk(map q | q in open && q != p :: open[q],
                   Apply(rows, Closed(open[p].id, open[p].lastActivity)), gap, now, order[1..], k - 1);
      assert Closings(open, order)[..k][1..] == Closings(open, order)[1..][..k - 1];
    }
  }

  lemma TickKeepsMirror(open: OpenMap, rows: Rows, gap: int, now: int)
    requires Mirror(open, rows)
    ensures Mirror(OnTick(open, gap, now), CloseStale(rows, gap, now))
  {
    var rows' := CloseStale(rows, gap, now);
    assert forall id :: IsOpen(rows', id) <==> IsOpen(rows, id) && !(now - rows[id].lastActivity > gap);
  }

  lemma {:induction false} AdoptedAt(list: seq<Session>)
    requires forall i, j :: 0 <= i < j < |list| ==> list[i].project != list[j].project
    ensures forall p :: p in Adopted(map[], list) ==> exists i :: 0 <= i < |list| && list[i].project == p
    ensures forall i :: 0 <= i < |list| ==>
              && list[i].project in Adopted(map[], list)
              && Adopted(map[], list)[list[i].project] == Open(list[i].id, list[i].lastActivity, list[i].commands)
  {
    if list == [] {
    } else {
      var init := list[..|list| - 1];
      AdoptedAt(init);
      forall p | p in Adopted(map[], init) ensures exists i :: 0 <= i < |list| && list[i].project == p {
        var i :| 0 <= i < |init| && init[i].project == p;
        assert list[i].project == p;
      }
      forall i | 0 <= i < |init| ensures list[i] == init[i] {}
    }
  }

  /** For any list: the last session listed for a project is the one adopted. */
  lemma {:induction false} LastIsAdopted(open: OpenMap, list: seq<Session>, k: nat)
    requires k < |list| && forall l :: k < l < |list| ==> list[l].project != list[k].project
    ensures var p := list[k].project;
            && p in Adopted(open, list)
            && Adopted(open, list)[p] == Open(list[k].id, list[k].lastActivity, list[k].commands)
  {
    if k == |list| - 1 {
    } else {
      LastIsAdopted(open, list[..|list| - 1], k);
    }
  }

  /** A project that is not listed keeps what it had. */
  lemma {:induction false} OthersAreKept(open: OpenMap, list: seq<Session>, p: string)
    requires forall k :: 0 <= k < |list| ==> list[k].project != p
    ensures p in Adopted(open, list) <==> p in open
    ensures p in open ==> Adopted(open, list)[p] == open[p]
  {
    if list == [] {
    } else {
      OthersAreKept(open, list[..|list| - 1], p);
    }
  }

  /** Any table that is ok is mirrored by some memory: what a restart adopts. */
  lemma AdoptMirrors(rows: Rows, list: seq<Session>)
    requires TableOk(rows) && ListsOpen(rows, list)
    ensures Mirror(Adopted(map[], list), rows)
  {
    forall i, j | 0 <= i < j < |list| ensures list[i].project != list[j].project {
      assert list[i] != list[j] && IsOpen(rows, list[i].id) && IsOpen(rows, list[j].id);
    }
    AdoptedAt(list);
    var a := Adopted(map[], list);
    forall p | p in a
      ensures IsOpen(rows, a[p].id) && rows[a[p].id].project == p
              && rows[a[p].id].lastActivity == a[p].lastActivity && rows[a[p].id].commands == a[p].commands
    {
      var i :| 0 <= i < |list| && list[i].project == p;
      assert IsOpen(rows, list[i].id);
    }
    forall id | IsOpen(rows, id) ensures rows[id].project in a && a[rows[id].project].id == id {
      assert rows[id] in list;
    }
  }

  lemma MirrorIsUnique(a: OpenMap, b: OpenMap, rows: Rows)
    requires Mirror(a, rows) && Mirror(b, rows)
    ensures a == b
  {
    forall p | p in a ensures p in b && a[p] == b[p] { assert IsOpen(rows, a[p].id); }
    forall p | p in b ensures p in a { assert IsOpen(rows, b[p].id); }
  }

  /** Re-adopting the open rows, listed in any order, rebuilds exactly the in-memory map. */
  lemma RestartRebuilds(open: OpenMap, rows: Rows, list: seq<Session>)
    requires Mirror(open, rows) && ListsOpen(rows, list)
    ensures Adopted(map[], list) == open
  {
    AdoptMirrors(rows, list);
    MirrorIsUnique(Adopted(map[], list), open, rows);
  }

  /** A crash after any prefix of an activity's updates (between Close and Open, say) leaves a table
      a restart can adopt. */
  lemma CrashDuringActivity(
    open: OpenMap, rows: Rows, gap: int, p: string, ts: int, cmd: bool, id: string, k: nat, list: seq<Session>)
    requires Mirror(open, rows) && id !in rows
    requires k <= |OnActivity(open, gap, p, ts, cmd, id).1|
    requires ListsOpen(ApplyAll(rows, OnActivity(open, gap, p, ts, cmd, id).1[..k]), list)
    ensures Mirror(Adopted(map[], list), ApplyAll(rows, OnActivity(open, gap, p, ts, cmd, id).1[..k]))
  {
    var updates := OnActivity(open, gap, p, ts, cmd, id).1;
    var rows' := ApplyAll(rows, updates[..k]);
    assert TableOk(rows') by {
      if k == |updates| {
        assert updates[..k] == updates;
        ActivityKeepsMirror(open, rows, gap, p, ts, cmd, id);
      } else if k == 1 {
        assert updates[..1] == [updates[0]];
        assert ApplyAll(rows, [updates[0]]) == Apply(rows, updates[0]);
        CloseOne(open, rows, p);
      }
    }
    AdoptMirrors(rows', list);
  }

  /** The same for a crash part-way through a tick. */
  lemma CrashDuringTick(open: OpenMap, rows: Rows, gap: int, now: int, order: seq<string>, k: nat, list: seq<Session>)
    requires Mirror(open, rows) && StaleOrder(open, gap, now, order) && k <= |order|
    requires ListsOpen(ApplyAll(rows, Closings(open, order)[..k]), list)
    ensures Mirror(Adopted(map[], list), ApplyAll(rows, Closings(open, order)[..k]))
  {
    TickPrefixOk(open, rows, gap, now, order, k);
    AdoptMirrors(ApplyAll(rows, Closings(open, order)[..k]), list);
  }

  lemma {:induction false} ApplyLast(rows: Rows, updates: seq<Update>, k: nat)
    requires k < |updates|
    ensures ApplyAll(rows, updates[..k + 1]) == Apply(ApplyAll(rows, updates[..k]), updates[k])
    decreases k
  {
    hide Apply;
    assert updates[..k + 1][1..] == updates[1..][..k];
    if k == 0 {
      assert updates[..1][1..] == [] && updates[..0] == [];
    } else {
      assert updates[..k][1..] == updates[1..][..k - 1];
      ApplyLast(Apply(rows, updates[0]), updates[1..], k - 1);
    }
  }

  /** A fresh id is still free when its session is to be opened, so the table refuses nothing. */
  lemma FreshIdIsFree(
    open: OpenMap, rows: Rows, gap: int, p: string, ts: int, cmd: bool, id: string, k: nat)
    requires Mirror(open, rows) && id !in rows
    ensures var updates := OnActivity(open, gap, p, ts, cmd, id).1;
            k < |updates| && updates[k].Opened? ==> updates[k].session.id !in ApplyAll(rows, updates[..k])
  {
    var updates := OnActivity(open, gap, p, ts, cmd, id).1;
    if k < |updates| && updates[k].Opened? {
      if k == 0 {
        assert updates[..0] == [];
      } else {
        assert updates[..1] == [updates[0]];
        ApplyOne(rows, updates[0]);
      }
    }
  }

  // ---------------------------------------------------------------- objects

  class SessionTable {
    var rows: Rows

    constructor ()
      ensures rows == map[]
    {
      rows := map[];
    }

    /** An INSERT: refused when the id is taken. */
    method SessionOpen(ws: Session) returns (ok: bool)
      modifies this
      ensures ok <==> ws.id !in old(rows)
      ensures rows == if ok then Apply(old(rows), Opened(ws)) else old(rows)
    {
      ok := ws.id !in rows;
      if ok { rows := rows[ws.id := ws]; }
    }

    method SessionTouch(id: string, lastActivity: int, commands: nat)
      modifies this
      ensures rows == Apply(old(rows), Touched(id, lastActivity, commands))
    {
      if id in rows { rows := rows[id := rows[id].(lastActivity := lastActivity, commands := commands)]; }
    }

    method SessionClose(id: string, ended: int)
      modifies this
      ensures rows == Apply(old(rows), Closed(id, ended))
    {
      if id in rows { rows := rows[id := rows[id].(ended := Some(ended))]; }
    }

    method OpenSessions() returns (list: seq<Session>)
      requires TableOk(rows)
      ensures ListsOpen(rows, list)
    {
      list := [];
      var todo := set id | id in rows && rows[id].ended == None;
      while todo != {}
        invariant forall id :: id in todo ==> IsOpen(rows, id) && rows[id] !in list
        invariant forall i :: 0 <= i < |list| ==> IsOpen(rows, list[i].id) && rows[list[i].id] == list[i]
        invariant forall id :: IsOpen(rows, id) ==> id in todo || rows[id] in list
        invariant forall i, j :: 0 <= i < j < |list| ==> list[i] != list[j]
        decreases todo
      {
        var id :| id in todo;
        todo := todo - {id};
        list := list + [rows[id]];
      }
    }
  }

  /** Event kinds that count as project activity. */
  predicate IsActivity(kind: string) {
    kind == "shell_cmd" || kind == "git_head" || kind == "proc_started"
  }

  class Ingest {
    const sessionizer: Sessionizer
    const table: SessionTable

    /** A daemon start over an existing table re-adopts its open sessions. */
    constructor (gapMs: int, table: SessionTable)
      requires TableOk(table.rows)
      ensures this.table == table && fresh(sessionizer) && sessionizer.gapMs == gapMs && Valid()
    {
      this.sessionizer := new Sessionizer(gapMs);
      this.table := table;
      new;
      var list := table.OpenSessions();
      sessionizer.Preload(list);
      AdoptMirrors(table.rows, list);
    }

    ghost predicate Valid()
      reads this, sessionizer, table
    {
      Mirror(sessionizer.open, table.rows)
    }

    /** Stops at the first update the table refuses. */
    method ApplyUpdates(updates: seq<Update>) returns (done: nat)
      modifies table
      ensures done <= |updates| && table.rows == ApplyAll(old(table.rows), updates[..done])
      ensures done < |updates| ==> updates[done].Opened? && updates[done].session.id in table.rows
    {
      done := 0;
      while done < |updates|
        invariant done <= |updates| && table.rows == ApplyAll(old(table.rows), updates[..done])
      {
        ApplyLast(old(table.rows), updates, done);
        match updates[done] {
          case Opened(ws) =>
            var ok := table.SessionOpen(ws);
            if !ok { return; }
          case Touched(id, last, commands) => table.SessionTouch(id, last, commands);
          case Closed(id, ended) => table.SessionClose(id, ended);
        }
        done := done + 1;
      }
    }

    /** An event attributed to `project`; `id` is the fresh id a new session would get. */
    method IngestEvent(kind: string, project: Option<string>, ts: int, id: string) returns (ok: bool)
      requires Valid() && id !in table.rows
      modifies sessionizer, table
      ensures ok && Valid()
      ensures if project.Some? && (kind == "shell_cmd" || kind == "git_head" || kind == "proc_started") then
                var (open, updates) :=
                  OnActivity(old(sessionizer.open), sessionizer.gapMs, project.value, ts, kind == "shell_cmd", id);
                sessionizer.open == open && table.rows == ApplyAll(old(table.rows), updates)
              else
                sessionizer.open == old(sessionizer.open) && table.rows == old(table.rows)
    {
      ok := true;
      if project.Some? && IsActivity(kind) {
        ActivityKeepsMirror(
          sessionizer.open, table.rows, sessionizer.gapMs, project.value, ts, kind == "shell_cmd", id);
        ghost var open, rows := sessionizer.open, table.rows;
        var updates := sessionizer.Activity(project.value, ts, kind == "shell_cmd", id);
        var done := ApplyUpdates(updates);
        FreshIdIsFree(open, rows, sessionizer.gapMs, project.value, ts, kind == "shell_cmd", id, done);
        ok := done == |updates|;
        assert updates[..|updates|] == updates;
      }
    }

    method TickAt(now: int)
      requires Valid()
      modifies sessionizer, table
      ensures Valid()
      ensures sessionizer.open == OnTick(old(sessionizer.open), sessionizer.gapMs, now)
      ensures table.rows == CloseStale(old(table.rows), sessionizer.gapMs, now)
    {
      ghost var open, rows := sessionizer.open, table.rows;
      var updates, order := sessionizer.Tick(now);
      var done := ApplyUpdates(updates);
      assert updates[..|updates|] == updates;
      TickIsCloseStale(open, rows, sessionizer.gapMs, now, order);
      TickKeepsMirror(open, rows, sessionizer.gapMs, now);
    }
  }
}
