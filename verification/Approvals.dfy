/** Approvals: atomic store commands, and every interleaving of RPC deciders, voice decisions,
    expiry sweeps and merges over them. */
module Approvals {
  import opened Basics

  datatype Status = Pending | Approved | Denied | Expired

  datatype Approval = Approval(
    id: string, kind: string, risk: int, expiresAt: int,
    status: Status, decidedAt: Option<int>, decidedVia: Option<string>, execution: Option<string>)

  type Rows = map<string, Approval>

  // ---------------------------------------------------------------- store commands

  datatype Outcome = Ok(row: Approval) | NotFound | InvalidState

  function Decide(rows: Rows, id: string, status: Status, at: int, via: string): (Rows, Outcome) {
    if id !in rows then (rows, NotFound)
    else if rows[id].status != Pending then (rows, InvalidState)
    else
      var row := rows[id].(status := status, decidedAt := Some(at), decidedVia := Some(via));
      (rows[id := row], Ok(row))
  }

  function Lapses(row: Approval, now: int): bool { row.status == Pending && row.expiresAt <= now }

  function Expire(rows: Rows, now: int): Rows {
    map id | id in rows :: if Lapses(rows[id], now) then rows[id].(status := Expired) else rows[id]
  }

  function SetExecution(rows: Rows, id: string, execution: string): Rows {
    if id in rows then rows[id := rows[id].(execution := Some(execution))] else rows
  }

  class ApprovalStore {
    var rows: Rows

    constructor ()
      ensures rows == map[]
    {
      rows := map[];
    }

    method GetApproval(id: string) returns (row: Option<Approval>)
      ensures row == if id in rows then Some(rows[id]) else None
    {
      row := if id in rows then Some(rows[id]) else None;
    }

    method DecideApproval(id: string, status: Status, at: int, via: string) returns (outcome: Outcome)
      modifies this
      ensures (rows, outcome) == Decide(old(rows), id, status, at, via)
      ensures id !in old(rows) ==> outcome == NotFound && rows == old(rows)
      ensures id in old(rows) && old(rows)[id].status != Pending ==> outcome == InvalidState && rows == old(rows)
      ensures id in old(rows) && old(rows)[id].status == Pending ==>
                && outcome.Ok? && rows == old(rows)[id := outcome.row]
                && outcome.row == old(rows)[id].(status := status, decidedAt := Some(at), decidedVia := Some(via))
    {
      var current := GetApproval(id);
      if current.None? { return NotFound; }
      if current.value.status != Pending { return InvalidState; }
      rows := rows[id := current.value.(status := status, decidedAt := Some(at), decidedVia := Some(via))];
      return Ok(rows[id]);
    }

    method ExpireApprovals(now: int) returns (n: nat)
      modifies this
      ensures rows == Expire(old(rows), now)
      ensures n == |set id | id in old(rows) && Lapses(old(rows)[id], now)|
    {
      var due := set id | id in rows && Lapses(rows[id], now);
      n := |due|;
      rows := map id | id in rows :: if id in due then rows[id].(status := Expired) else rows[id];
    }

    method SetApprovalExecution(id: string, execution: string)
      modifies this
      ensures rows == SetExecution(old(rows), id, execution)
    {
      if id in rows { rows := rows[id := rows[id].(execution := Some(execution))]; }
    }
  }

  // ---------------------------------------------------------------- callers

  datatype Request = Request(id: string, verdict: string, slug: Option<string>)

  /** The last six characters of the id, or all of it when it is shorter. */
  function ExpectedSlug(id: string): string {
    if |id| <= 6 then id else id[|id| - 6..]
  }

  /** Only risk 3 asks for the slug; risks outside 0..3 are treated as risk 2. */
  predicate PassesGate(row: Approval, slug: Option<string>) {
    row.risk == 3 ==> slug == Some(ExpectedSlug(row.id))
  }

  /** What a task waits to do next. Every arrow between these is a separate atomic step. */
  datatype Pc =
    | Idle
    | Gated(req: Request)
    | Stamped(req: Request, at: int)
    | Holding(row: Approval)
    | Checked(row: Approval, checkedAt: int)
    | Recording(row: Approval)
    | Heard(id: string, approve: bool, at: int)
    | Sweeping(now: int)

  datatype Channel = Rpc(slug: Option<string>) | Voice

  datatype Entry =
    | Left(id: string, status: Status, task: nat, channel: Channel)
    | Merged(id: string, task: nat, checkedAt: int)

  datatype State = State(rows: Rows, clock: int, tasks: map<nat, Pc>, log: seq<Entry>)

  datatype Action =
    | Insert(id: string, kind: string, risk: int, expiresAt: int)
    | Advance(ms: nat)
    | RpcRead(task: nat, req: Request)
    | RpcStamp(task: nat)
    | RpcDecide(task: nat)
    | MergeCheck(task: nat)
    | Merge(task: nat, succeeds: bool)
    | Record(task: nat, execution: string)
    | VoiceRead(task: nat, visible: string, approve: bool, slugMatches: bool, utteranceAt: int)
    | VoiceDecide(task: nat)
    | SweepRead(task: nat)
    | SweepExpire(task: nat)

  const START := State(map[], 0, map[], [])

  function PcOf(s: State, task: nat): Pc { if task in s.tasks then s.tasks[task] else Idle }

  function Goto(s: State, task: nat, pc: Pc): State { s.(tasks := s.tasks[task := pc]) }

  function Via(channel: Channel): string { if channel.Voice? then "voice" else "cli" }

  function Leave(s: State, id: string, status: Status, task: nat, at: int, channel: Channel): (State, Outcome) {
    var (rows, outcome) := Decide(s.rows, id, status, at, Via(channel));
    (s.(rows := rows, log := s.log + if outcome.Ok? then [Left(id, status, task, channel)] else []), outcome)
  }

  /** One atomic step. An action whose task is elsewhere does nothing, so every sequence of actions
      is an interleaving and every interleaving is a sequence of actions. */
  function Do(s: State, a: Action): State {
    match a
    case Insert(id, kind, risk, expiresAt) =>
      if id in s.rows then s
      else s.(rows := s.rows[id := Approval(id, kind, risk, expiresAt, Pending, None, None, None)])
    case Advance(ms) => s.(clock := s.clock + ms)
    case RpcRead(t, req) =>
      if PcOf(s, t) != Idle || (req.verdict != "approve" && req.verdict != "deny") || req.id !in s.rows
         || !PassesGate(s.rows[req.id], req.slug)
      then s
      else Goto(s, t, Gated(req))
    case RpcStamp(t) =>
      if !PcOf(s, t).Gated? then s else Goto(s, t, Stamped(PcOf(s, t).req, s.clock))
    case RpcDecide(t) =>
      if !PcOf(s, t).Stamped? then s
      else
        var Stamped(req, at) := PcOf(s, t);
        var (s', outcome) :=
          Leave(s, req.id, if req.verdict == "approve" then Approved else Denied, t, at, Rpc(req.slug));
        if outcome.Ok? && req.verdict == "approve" && outcome.row.kind == "merge_back"
        then Goto(s', t, Holding(outcome.row))
        else Goto(s', t, Idle)
    case MergeCheck(t) =>
      if !PcOf(s, t).Holding? then s
      else
        var Holding(row) := PcOf(s, t);
        if row.status != Approved || row.expiresAt <= s.clock then Goto(s, t, Idle)
        else Goto(s, t, Checked(row, s.clock))
    case Merge(t, succeeds) =>
      if !PcOf(s, t).Checked? then s
      else
        var Checked(row, checkedAt) := PcOf(s, t);
        if succeeds then Goto(s.(log := s.log + [Merged(row.id, t, checkedAt)]), t, Recording(row))
        else Goto(s, t, Idle)
    case Record(t, execution) =>
      if !PcOf(s, t).Recording? then s
      else Goto(s.(rows := SetExecution(s.rows, PcOf(s, t).row.id, execution)), t, Idle)
    case VoiceRead(t, visible, approve, slugMatches, utteranceAt) =>
      if PcOf(s, t) != Idle || visible !in s.rows || s.rows[visible].status != Pending
         || s.rows[visible].risk >= 3 || !slugMatches
      then s
      else Goto(s, t, Heard(visible, approve, utteranceAt))
    case VoiceDecide(t) =>
      if !PcOf(s, t).Heard? then s
      else
        var Heard(id, approve, at) := PcOf(s, t);
        Goto(Leave(s, id, if approve then Approved else Denied, t, at, Voice).0, t, Idle)
    case SweepRead(t) => if PcOf(s, t) != Idle then s else Goto(s, t, Sweeping(s.clock))
    case SweepExpire(t) =>
      if !PcOf(s, t).Sweeping? then s
      else Goto(s.(rows := Expire(s.rows, PcOf(s, t).now)), t, Idle)
  }

  function Run(actions: seq<Action>): State {
    if actions == [] then START else Do(Run(actions[..|actions| - 1]), actions[|actions| - 1])
  }

  // ---------------------------------------------------------------- invariant

  /** Tasks that still carry the right to merge approval `id`. */
  ghost predicate MayMerge(pc: Pc, id: string) {
    (pc.Holding? || pc.Checked?) && pc.row.id == id
  }

  ghost predicate EntryOk(rows: Rows, e: Entry) {
    && e.id in rows
    && (e.Left? ==> e.status != Pending && rows[e.id].status == e.status)
    && (e.Left? && rows[e.id].risk == 3 ==> e.channel == Rpc(Some(ExpectedSlug(e.id))))
    && (e.Left? && e.channel.Voice? ==> rows[e.id].risk < 3)
    && (e.Merged? ==>
          rows[e.id].status == Approved && rows[e.id].kind == "merge_back" && e.checkedAt < rows[e.id].expiresAt)
  }

  /** An earlier entry of the log by which task `t` itself approved `id` over RPC. */
  ghost predicate ApprovedBefore(log: seq<Entry>, k: nat, id: string, t: nat) {
    exists j :: 0 <= j < k && j < |log| && ApprovedAt(log[j], id, t)
  }

  ghost predicate ApprovedAt(e: Entry, id: string, t: nat) {
    e.Left? && e.id == id && e.status == Approved && e.task == t && e.channel.Rpc?
  }

  ghost predicate LogOk(rows: Rows, log: seq<Entry>) {
    && (forall k :: 0 <= k < |log| ==> EntryOk(rows, log[k]))
    && (forall j, k :: 0 <= j < k < |log| && log[j].Left? && log[k].Left? ==> log[j].id != log[k].id)
    && (forall j, k :: 0 <= j < k < |log| && log[j].Merged? && log[k].Merged? ==> log[j].id != log[k].id)
    && (forall k :: 0 <= k < |log| && log[k].Merged? ==> ApprovedBefore(log, k, log[k].id, log[k].task))
  }

  ghost predicate PcOk(s: State, t: nat) {
    var pc := PcOf(s, t);
    match pc
    case Gated(req) => req.id in s.rows && PassesGate(s.rows[req.id], req.slug)
    case Stamped(req, _) => req.id in s.rows && PassesGate(s.rows[req.id], req.slug)
    case Heard(id, _, _) => id in s.rows && s.rows[id].risk < 3
    case Holding(row) => HoldsRight(s, t, row)
    case Checked(row, at) => HoldsRight(s, t, row) && at < row.expiresAt
    case _ => true
  }

  ghost predicate HoldsRight(s: State, t: nat, row: Approval) {
    && row.id in s.rows && s.rows[row.id].expiresAt == row.expiresAt && s.rows[row.id].kind == "merge_back"
    && ApprovedBefore(s.log, |s.log|, row.id, t)
    && (forall k :: 0 <= k < |s.log| && s.log[k].Merged? ==> s.log[k].id != row.id)
  }

  ghost predicate Inv(s: State) {
    && (forall id :: id in s.rows ==> s.rows[id].id == id)
    && LogOk(s.rows, s.log)
    && (forall t :: PcOk(s, t))
  }

  /** What no step changes about a row, and what it never changes once the row is decided. */
  ghost predicate Kept(rows: Rows, rows': Rows) {
    forall id :: id in rows ==>
      && id in rows' && rows'[id].id == rows[id].id && rows'[id].kind == rows[id].kind
      && rows'[id].risk == rows[id].risk && rows'[id].expiresAt == rows[id].expiresAt
      && (rows[id].status != Pending ==>
            && rows'[id].status == rows[id].status && rows'[id].decidedAt == rows[id].decidedAt
            && rows'[id].decidedVia == rows[id].decidedVia)
  }

  lemma SameKeeps(rows: Rows)
    ensures Kept(rows, rows)
  {
  }

  lemma InsertKeeps(rows: Rows, row: Approval)
    requires row.id !in rows
    ensures Kept(rows, rows[row.id := row])
  {
  }

  lemma DecideKeeps(rows: Rows, id: string, status: Status, at: int, via: string)
    ensures Kept(rows, Decide(rows, id, status, at, via).0)
  {
  }

  lemma ExpireKeeps(rows: Rows, now: int)
    ensures Kept(rows, Expire(rows, now))
  {
  }

  lemma ExecutionKeeps(rows: Rows, id: string, execution: string)
    ensures Kept(rows, SetExecution(rows, id, execution))
  {
  }

  lemma StepKeeps(s: State, a: Action)
    ensures Kept(s.rows, Do(s, a).rows)
  {
    hide Kept, Decide, Expire, SetExecution;
    SameKeeps(s.rows);
    match a {
      case Insert(id, kind, risk, expiresAt) =>
        if id !in s.rows { InsertKeeps(s.rows, Approval(id, kind, risk, expiresAt, Pending, None, None, None)); }
      case RpcDecide(t) =>
        if PcOf(s, t).Stamped? {
          var Stamped(req, at) := PcOf(s, t);
          DecideKeeps(s.rows, req.id, if req.verdict == "approve" then Approved else Denied, at, "cli");
        }
      case VoiceDecide(t) =>
        if PcOf(s, t).Heard? {
          var Heard(id, approve, at) := PcOf(s, t);
          DecideKeeps(s.rows, id, if approve then Approved else Denied, at, "voice");
        }
      case Record(t, execution) =>
        if PcOf(s, t).Recording? { ExecutionKeeps(s.rows, PcOf(s, t).row.id, execution); }
      case SweepExpire(t) =>
        if PcOf(s, t).Sweeping? { ExpireKeeps(s.rows, PcOf(s, t).now); }
      case _ =>
    }
  }

  lemma LogSurvives(rows: Rows, rows': Rows, log: seq<Entry>)
    requires LogOk(rows, log) && Kept(rows, rows')
    ensures LogOk(rows', log)
  {
    forall k | 0 <= k < |log| ensures EntryOk(rows', log[k]) { assert EntryOk(rows, log[k]); }
  }

  lemma ApprovedSurvives(log: seq<Entry>, e: Entry, k: nat, id: string, t: nat)
    requires ApprovedBefore(log, k, id, t) && k <= |log|
    ensures ApprovedBefore(log + [e], k, id, t) && ApprovedBefore(log + [e], |log| + 1, id, t)
  {
    var j :| 0 <= j < k && j < |log| && ApprovedAt(log[j], id, t);
    assert ApprovedAt((log + [e])[j], id, t);
  }

  lemma PcSurvives(s: State, s': State, t: nat)
    requires PcOk(s, t) && Kept(s.rows, s'.rows) && s'.log == s.log && PcOf(s', t) == PcOf(s, t)
    ensures PcOk(s', t)
  {
  }

  /** A new entry that leaves the others' rights alone. */
  lemma PcSurvivesEntry(s: State, s': State, e: Entry, t: nat)
    requires PcOk(s, t) && Kept(s.rows, s'.rows) && s'.log == s.log + [e] && PcOf(s', t) == PcOf(s, t)
    requires e.Merged? ==> !MayMerge(PcOf(s, t), e.id)
    ensures PcOk(s', t)
  {
    var pc := PcOf(s, t);
    if pc.Holding? || pc.Checked? { ApprovedSurvives(s.log, e, |s.log|, pc.row.id, t); }
  }

  lemma HolderIsUnique(s: State, t: nat, u: nat, id: string)
    requires Inv(s) && MayMerge(PcOf(s, t), id) && MayMerge(PcOf(s, u), id)
    ensures t == u
  {
    assert PcOk(s, t) && PcOk(s, u);
    var j :| 0 <= j < |s.log| && ApprovedAt(s.log[j], id, t);
    var k :| 0 <= k < |s.log| && ApprovedAt(s.log[k], id, u);
    assert !(j < k) && !(k < j);
  }

  lemma LogGrows(rows: Rows, log: seq<Entry>, e: Entry)
    requires LogOk(rows, log) && EntryOk(rows, e)
    requires e.Left? ==> forall k :: 0 <= k < |log| && log[k].Left? ==> log[k].id != e.id
    requires e.Merged? ==> ApprovedBefore(log, |log|, e.id, e.task)
    requires e.Merged? ==> forall k :: 0 <= k < |log| && log[k].Merged? ==> log[k].id != e.id
    ensures LogOk(rows, log + [e])
  {
    var log' := log + [e];
    forall k | 0 <= k < |log'| && log'[k].Merged? ensures ApprovedBefore(log', k, log'[k].id, log'[k].task) {
      ApprovedSurvives(log, e, k, log'[k].id, log'[k].task);
    }
  }

  /** A decision by RPC or voice. */
  lemma LeaveKeepsInv(s: State, id: string, status: Status, t: nat, at: int, channel: Channel)
    requires Inv(s) && status != Pending
    requires id in s.rows
    requires s.rows[id].risk == 3 ==> channel == Rpc(Some(ExpectedSlug(id)))
    requires channel.Voice? ==> s.rows[id].risk < 3
    ensures var (s', outcome) := Leave(s, id, status, t, at, channel);
            && (forall i :: i in s'.rows ==> s'.rows[i].id == i)
            && LogOk(s'.rows, s'.log) && s'.tasks == s.tasks && Kept(s.rows, s'.rows)
            && (outcome.Ok? ==> s'.log == s.log + [Left(id, status, t, channel)] && outcome.row == s'.rows[id])
            && (!outcome.Ok? ==> s' == s)
    ensures Leave(s, id, status, t, at, channel).1.Ok? ==>
              forall k :: 0 <= k < |s.log| ==> s.log[k].id != id
  {
    var (s', outcome) := Leave(s, id, status, t, at, channel);
    if outcome.Ok? {
      forall k | 0 <= k < |s.log| ensures s.log[k].id != id { assert EntryOk(s.rows, s.log[k]); }
      LogSurvives(s.rows, s'.rows, s.log);
      LogGrows(s'.rows, s.log, Left(id, status, t, channel));
    } else {
      assert s.log + [] == s.log;
    }
  }

  lemma RpcDecideKeepsInv(s: State, t: nat)
    requires Inv(s) && PcOf(s, t).Stamped?
    ensures Inv(Do(s, RpcDecide(t)))
  {
    assert PcOk(s, t);
    var Stamped(req, at) := PcOf(s, t);
    var status := if req.verdict == "approve" then Approved else Denied;
    assert s.rows[req.id].id == req.id;
    LeaveKeepsInv(s, req.id, status, t, at, Rpc(req.slug));
    var (mid, outcome) := Leave(s, req.id, status, t, at, Rpc(req.slug));
    var s' := Do(s, RpcDecide(t));
    forall u ensures PcOk(s', u) {
      assert PcOk(s, u);
      if outcome.Ok? {
        var e := Left(req.id, status, t, Rpc(req.slug));
        if u != t {
          PcSurvivesEntry(s, s', e, u);
        } else if PcOf(s', t).Holding? {
          assert ApprovedAt(s'.log[|s.log|], req.id, t);
        }
      } else if u != t {
        PcSurvives(s, s', u);
      }
    }
  }

  lemma VoiceDecideKeepsInv(s: State, t: nat)
    requires Inv(s) && PcOf(s, t).Heard?
    ensures Inv(Do(s, VoiceDecide(t)))
  {
    assert PcOk(s, t);
    var Heard(id, approve, at) := PcOf(s, t);
    var status := if approve then Approved else Denied;
    LeaveKeepsInv(s, id, status, t, at, Voice);
    var s' := Do(s, VoiceDecide(t));
    forall u ensures PcOk(s', u) {
      assert PcOk(s, u);
      if u != t {
        if Leave(s, id, status, t, at, Voice).1.Ok? {
          PcSurvivesEntry(s, s', Left(id, status, t, Voice), u);
        } else {
          PcSurvives(s, s', u);
        }
      }
    }
  }

  lemma MergeKeepsInv(s: State, t: nat, succeeds: bool)
    requires Inv(s) && PcOf(s, t).Checked?
    ensures Inv(Do(s, Merge(t, succeeds)))
  {
    assert PcOk(s, t);
    var Checked(row, checkedAt) := PcOf(s, t);
    var s', e := Do(s, Merge(t, succeeds)), Merged(row.id, t, checkedAt);
    var j :| 0 <= j < |s.log| && ApprovedAt(s.log[j], row.id, t);
    assert EntryOk(s.rows, s.log[j]);
    LogGrows(s.rows, s.log, e);
    forall u ensures PcOk(s', u) {
      assert PcOk(s, u);
      if MayMerge(PcOf(s, u), row.id) { HolderIsUnique(s, t, u, row.id); }
      if u != t {
        if succeeds {
          PcSurvivesEntry(s, s', e, u);
        } else {
          PcSurvives(s, s', u);
        }
      }
    }
  }

  /** Steps that write no log entry. */
  lemma QuietKeepsInv(s: State, a: Action)
    requires Inv(s) && Do(s, a).log == s.log
    requires !a.RpcDecide? && !a.VoiceDecide? && !a.Merge?
    ensures Inv(Do(s, a))
  {
    var s' := Do(s, a);
    StepKeeps(s, a);
    LogSurvives(s.rows, s'.rows, s.log);
    forall u ensures PcOk(s', u) {
      assert PcOk(s, u);
      if PcOf(s', u) == PcOf(s, u) { PcSurvives(s, s', u); }
    }
  }

  lemma StepKeepsInv(s: State, a: Action)
    requires Inv(s)
    ensures Inv(Do(s, a))
  {
    match a {
      case RpcDecide(t) => if PcOf(s, t).Stamped? { RpcDecideKeepsInv(s, t); }
      case VoiceDecide(t) => if PcOf(s, t).Heard? { VoiceDecideKeepsInv(s, t); }
      case Merge(t, succeeds) => if PcOf(s, t).Checked? { MergeKeepsInv(s, t, succeeds); }
      case _ => QuietKeepsInv(s, a);
    }
  }

  lemma {:induction false} AlwaysInv(actions: seq<Action>)
    ensures Inv(Run(actions))
  {
    if actions == [] {
    } else {
      AlwaysInv(actions[..|actions| - 1]);
      StepKeepsInv(Run(actions[..|actions| - 1]), actions[|actions| - 1]);
    }
  }

  // ---------------------------------------------------------------- main results

  /** Once decided or expired, an approval's verdict never changes, whatever interleaving follows. */
  lemma {:induction false} VerdictIsFinal(actions: seq<Action>, n: nat, id: string)
    requires n <= |actions| && id in Run(actions[..n]).rows
    requires Run(actions[..n]).rows[id].status != Pending
    ensures id in Run(actions).rows
    ensures Run(actions).rows[id].status == Run(actions[..n]).rows[id].status
    ensures Run(actions).rows[id].decidedAt == Run(actions[..n]).rows[id].decidedAt
    ensures Run(actions).rows[id].decidedVia == Run(actions[..n]).rows[id].decidedVia
    decreases |actions|
  {
    if n == |actions| {
      assert actions[..n] == actions;
    } else {
      var init := actions[..|actions| - 1];
      assert init[..n] == actions[..n];
      VerdictIsFinal(init, n, id);
      StepKeeps(Run(init), actions[|actions| - 1]);
    }
  }

  /** Only merge_back approvals are merged, each at most once, and only by the very call that approved
      it over RPC, having checked before the deadline. */
  lemma MergedAtMostOnce(actions: seq<Action>, k: nat)
    requires k < |Run(actions).log| && Run(actions).log[k].Merged?
    ensures var s := Run(actions); var e := s.log[k];
            && e.id in s.rows && s.rows[e.id].status == Approved && s.rows[e.id].kind == "merge_back"
            && e.checkedAt < s.rows[e.id].expiresAt
            && ApprovedBefore(s.log, k, e.id, e.task)
            && (forall j :: 0 <= j < |s.log| && j != k && s.log[j].Merged? ==> s.log[j].id != e.id)
  {
    AlwaysInv(actions);
    assert EntryOk(Run(actions).rows, Run(actions).log[k]);
  }

  lemma DecidedAtMostOnce(actions: seq<Action>, j: nat, k: nat)
    requires j < k < |Run(actions).log| && Run(actions).log[j].Left? && Run(actions).log[k].Left?
    ensures Run(actions).log[j].id != Run(actions).log[k].id
  {
    AlwaysInv(actions);
  }

  /** At any moment at most one task carries the right to merge an approval. */
  lemma OneHolder(actions: seq<Action>, t: nat, u: nat, id: string)
    requires MayMerge(PcOf(Run(actions), t), id) && MayMerge(PcOf(Run(actions), u), id)
    ensures t == u
  {
    AlwaysInv(actions);
    HolderIsUnique(Run(actions), t, u, id);
  }

  /** Nothing denied, expired or still pending is ever merged. */
  lemma OnlyApprovedIsMerged(actions: seq<Action>, id: string)
    requires id in Run(actions).rows && Run(actions).rows[id].status != Approved
    ensures forall k :: 0 <= k < |Run(actions).log| && Run(actions).log[k].Merged? ==> Run(actions).log[k].id != id
  {
    AlwaysInv(actions);
    forall k | 0 <= k < |Run(actions).log| && Run(actions).log[k].Merged?
      ensures Run(actions).log[k].id != id
    {
      assert EntryOk(Run(actions).rows, Run(actions).log[k]);
    }
  }

  /** A risk-3 approval is decided only over RPC by a caller who typed its slug, never by voice. */
  lemma RiskThreeNeedsSlug(actions: seq<Action>, k: nat)
    requires k < |Run(actions).log| && Run(actions).log[k].Left?
    ensures var s := Run(actions); var e := s.log[k];
            && e.id in s.rows
            && (s.rows[e.id].risk == 3 ==> e.channel == Rpc(Some(if |e.id| <= 6 then e.id else e.id[|e.id| - 6..])))
            && (e.channel.Voice? ==> s.rows[e.id].risk < 3)
  {
    AlwaysInv(actions);
    assert EntryOk(Run(actions).rows, Run(actions).log[k]);
  }

  /** No merge of `id` happened, and none is past its deadline check. */
  ghost predicate NotStarted(s: State, id: string) {
    && (forall k :: 0 <= k < |s.log| && s.log[k].Merged? ==> s.log[k].id != id)
    && (forall t :: PcOf(s, t).Checked? ==> PcOf(s, t).row.id != id)
  }

  lemma LateStep(s: State, a: Action, id: string)
    requires Inv(s) && id in s.rows && s.rows[id].expiresAt <= s.clock && NotStarted(s, id)
    ensures NotStarted(Do(s, a), id) && Do(s, a).clock >= s.clock
  {
    var s' := Do(s, a);
    forall t | PcOf(s', t).Checked? ensures PcOf(s', t).row.id != id {
      assert PcOk(s, t);
      if PcOf(s', t) != PcOf(s, t) { assert PcOf(s, t).Holding? && PcOf(s, t).row.expiresAt > s.clock; }
    }
  }

  /** A merge whose deadline check has not passed by the deadline never happens, even if the
      approval itself is granted late (deciding does not look at the deadline). */
  lemma {:induction false} DeadlineStopsMerges(actions: seq<Action>, n: nat, id: string)
    requires n <= |actions|
    requires var s := Run(actions[..n]);
             id in s.rows && s.rows[id].expiresAt <= s.clock && NotStarted(s, id)
    ensures var s, s' := Run(actions[..n]), Run(actions);
            && id in s'.rows && s'.rows[id].expiresAt == s.rows[id].expiresAt <= s'.clock
            && NotStarted(s', id)
    decreases |actions|
  {
    if n == |actions| {
      assert actions[..n] == actions;
    } else {
      var init := actions[..|actions| - 1];
      assert init[..n] == actions[..n];
      DeadlineStopsMerges(init, n, id);
      AlwaysInv(init);
      StepKeeps(Run(init), actions[|actions| - 1]);
      LateStep(Run(init), actions[|actions| - 1], id);
    }
  }

  // ---------------------------------------------------------------- what each row records

  /** The log entry by which `row` was decided, through the channel the row names. */
  ghost predicate LeftFor(log: seq<Entry>, row: Approval) {
    exists k :: 0 <= k < |log| && LeftAs(log[k], row)
  }

  ghost predicate LeftAs(e: Entry, row: Approval) {
    e.Left? && e.id == row.id && e.status == row.status && row.decidedVia == Some(Via(e.channel))
  }

  ghost predicate MergedFor(log: seq<Entry>, id: string) {
    exists k :: 0 <= k < |log| && log[k].Merged? && log[k].id == id
  }

  ghost predicate RowTraced(row: Approval, clock: int, log: seq<Entry>) {
    && (row.status == Approved || row.status == Denied ==> row.decidedAt.Some? && LeftFor(log, row))
    && (row.status == Pending || row.status == Expired ==> row.decidedAt == None && row.decidedVia == None)
    && (row.status == Expired ==> row.expiresAt <= clock)
    && (row.execution.Some? ==> MergedFor(log, row.id))
  }

  ghost predicate PcTraced(pc: Pc, clock: int, log: seq<Entry>) {
    && (pc.Sweeping? ==> pc.now <= clock)
    && (pc.Recording? ==> MergedFor(log, pc.row.id))
  }

  ghost predicate Traced(s: State) {
    && (forall id :: id in s.rows ==> s.rows[id].id == id && RowTraced(s.rows[id], s.clock, s.log))
    && (forall t :: PcTraced(PcOf(s, t), s.clock, s.log))
  }

  lemma TraceSurvives(row: Approval, pc: Pc, clock: int, log: seq<Entry>, clock': int, e: Entry)
    requires clock <= clock'
    ensures RowTraced(row, clock, log) ==> RowTraced(row, clock', log) && RowTraced(row, clock', log + [e])
    ensures PcTraced(pc, clock, log) ==> PcTraced(pc, clock', log) && PcTraced(pc, clock', log + [e])
  {
    if LeftFor(log, row) {
      var k :| 0 <= k < |log| && LeftAs(log[k], row);
      assert LeftAs((log + [e])[k], row);
    }
    forall id | MergedFor(log, id) ensures MergedFor(log + [e], id) {
      var k :| 0 <= k < |log| && log[k].Merged? && log[k].id == id;
      assert (log + [e])[k].Merged? && (log + [e])[k].id == id;
    }
  }

  lemma LeaveTraced(s: State, id: string, status: Status, t: nat, at: int, channel: Channel)
    requires Traced(s) && (status == Approved || status == Denied)
    ensures Traced(Leave(s, id, status, t, at, channel).0)
  {
    var (s', outcome) := Leave(s, id, status, t, at, channel);
    if outcome.Ok? {
      var e := Left(id, status, t, channel);
      assert LeftAs(s'.log[|s.log|], s'.rows[id]);
      forall i | i in s'.rows ensures s'.rows[i].id == i && RowTraced(s'.rows[i], s'.clock, s'.log) {
        TraceSurvives(s.rows[i], Idle, s.clock, s.log, s.clock, e);
        if i == id && s.rows[id].execution.Some? { assert MergedFor(s.log, id); }
      }
      forall u ensures PcTraced(PcOf(s', u), s'.clock, s'.log) {
        assert PcTraced(PcOf(s, u), s.clock, s.log);
        TraceSurvives(s.rows[id], PcOf(s, u), s.clock, s.log, s.clock, e);
      }
    } else {
      assert s.log + [] == s.log;
    }
  }

  lemma MergeTraced(s: State, t: nat)
    requires Traced(s) && PcOf(s, t).Checked?
    ensures Traced(Do(s, Merge(t, true)))
  {
    var s' := Do(s, Merge(t, true));
    var e := s'.log[|s.log|];
    assert e.Merged? && MergedFor(s'.log, e.id);
    forall i | i in s'.rows ensures RowTraced(s'.rows[i], s'.clock, s'.log) {
      TraceSurvives(s.rows[i], Idle, s.clock, s.log, s.clock, e);
    }
    forall u ensures PcTraced(PcOf(s', u), s'.clock, s'.log) {
      assert PcTraced(PcOf(s, u), s.clock, s.log);
      TraceSurvives(PcOf(s, t).row, PcOf(s, u), s.clock, s.log, s.clock, e);
    }
  }

  lemma QuietTraced(s: State, a: Action)
    requires Traced(s) && Do(s, a).log == s.log && !a.RpcDecide? && !a.VoiceDecide?
    ensures Traced(Do(s, a))
  {
    var s' := Do(s, a);
    forall i | i in s'.rows ensures s'.rows[i].id == i && RowTraced(s'.rows[i], s'.clock, s'.log) {
      if a.SweepExpire? { assert PcTraced(PcOf(s, a.task), s.clock, s.log); }
      if a.Record? { assert PcTraced(PcOf(s, a.task), s.clock, s.log); }
    }
    forall u ensures PcTraced(PcOf(s', u), s'.clock, s'.log) { assert PcTraced(PcOf(s, u), s.clock, s.log); }
  }

  lemma StepTraced(s: State, a: Action)
    requires Traced(s)
    ensures Traced(Do(s, a))
  {
    match a {
      case RpcDecide(t) =>
        if PcOf(s, t).Stamped? {
          var Stamped(req, at) := PcOf(s, t);
          var status := if req.verdict == "approve" then Approved else Denied;
          LeaveTraced(s, req.id, status, t, at, Rpc(req.slug));
          GotoTraced(Leave(s, req.id, status, t, at, Rpc(req.slug)).0, t, PcOf(Do(s, a), t));
        }
      case VoiceDecide(t) =>
        if PcOf(s, t).Heard? {
          var Heard(id, approve, at) := PcOf(s, t);
          var status := if approve then Approved else Denied;
          LeaveTraced(s, id, status, t, at, Voice);
          GotoTraced(Leave(s, id, status, t, at, Voice).0, t, Idle);
        }
      case Merge(t, succeeds) =>
        if PcOf(s, t).Checked? && succeeds { MergeTraced(s, t); } else { QuietTraced(s, a); }
      case _ => QuietTraced(s, a);
    }
  }

  lemma GotoTraced(s: State, t: nat, pc: Pc)
    requires Traced(s) && !pc.Sweeping? && !pc.Recording?
    ensures Traced(Goto(s, t, pc))
  {
    forall u ensures PcTraced(PcOf(Goto(s, t, pc), u), s.clock, s.log) { assert PcTraced(PcOf(s, u), s.clock, s.log); }
  }

  lemma {:induction false} AlwaysTraced(actions: seq<Action>)
    ensures Traced(Run(actions))
  {
    if actions == [] {
    } else {
      AlwaysTraced(actions[..|actions| - 1]);
      StepTraced(Run(actions[..|actions| - 1]), actions[|actions| - 1]);
    }
  }

  /** The table tells the truth: a verdict was given by exactly one caller over the channel the row
      names; an expired row is past its deadline and was never decided; an execution was merged. */
  lemma RowsAreHonest(actions: seq<Action>, id: string)
    requires id in Run(actions).rows
    ensures var s := Run(actions); var row := s.rows[id];
            && (row.status == Approved || row.status == Denied <==> LeftFor(s.log, row))
            && (row.decidedAt.Some? <==> LeftFor(s.log, row))
            && (row.status == Expired ==> row.expiresAt <= s.clock)
            && (row.execution.Some? ==> row.status == Approved && MergedFor(s.log, id))
  {
    AlwaysTraced(actions);
    AlwaysInv(actions);
    var s := Run(actions);
    var row := s.rows[id];
    assert RowTraced(row, s.clock, s.log);
    if LeftFor(s.log, row) {
      var k :| 0 <= k < |s.log| && LeftAs(s.log[k], row);
      assert EntryOk(s.rows, s.log[k]);
    }
    if row.execution.Some? {
      var k :| 0 <= k < |s.log| && s.log[k].Merged? && s.log[k].id == id;
      assert EntryOk(s.rows, s.log[k]);
    }
  }

  // ---------------------------------------------------------------- what decides a status

  ghost predicate IsLeft(log: seq<Entry>, id: string) {
    exists k :: 0 <= k < |log| && log[k].Left? && log[k].id == id
  }

  /** Does this step sweep `id`, having read a time at or past its deadline? */
  ghost predicate Sweeps(s: State, a: Action, id: string) {
    a.SweepExpire? && PcOf(s, a.task).Sweeping? && id in s.rows && s.rows[id].expiresAt <= PcOf(s, a.task).now
  }

  /** Some sweep of the run did. */
  ghost predicate Swept(actions: seq<Action>, id: string) {
    actions != [] &&
    (Swept(actions[..|actions| - 1], id) || Sweeps(Run(actions[..|actions| - 1]), actions[|actions| - 1], id))
  }

  /** Whether a row is still pending, was decided, or lapsed. */
  ghost predicate StatusFits(row: Approval, left: bool, swept: bool) {
    && (row.status == Pending <==> !left && !swept)
    && (row.status == Approved || row.status == Denied <==> left)
    && (row.status == Expired <==> !left && swept)
  }

  lemma LeftGrows(log: seq<Entry>, e: Entry, id: string)
    ensures IsLeft(log + [e], id) <==> IsLeft(log, id) || (e.Left? && e.id == id)
  {
    if IsLeft(log, id) {
      var k :| 0 <= k < |log| && log[k].Left? && log[k].id == id;
      assert (log + [e])[k].Left? && (log + [e])[k].id == id;
    }
    if e.Left? && e.id == id { assert (log + [e])[|log|] == e; }
  }

  lemma LeaveFits(s: State, decided: string, status: Status, t: nat, at: int, channel: Channel, id: string, swept: bool)
    requires Inv(s) && status != Pending && status != Expired
    requires id in s.rows && StatusFits(s.rows[id], IsLeft(s.log, id), swept)
    ensures var s' := Leave(s, decided, status, t, at, channel).0;
            id in s'.rows && StatusFits(s'.rows[id], IsLeft(s'.log, id), swept)
  {
    var outcome := Leave(s, decided, status, t, at, channel).1;
    if outcome.Ok? {
      LeftGrows(s.log, Left(decided, status, t, channel), id);
    } else {
      assert s.log + [] == s.log;
    }
  }

  lemma StepFits(s: State, a: Action, id: string, swept: bool)
    requires Inv(s) && id in s.rows && StatusFits(s.rows[id], IsLeft(s.log, id), swept)
    ensures id in Do(s, a).rows
    ensures StatusFits(Do(s, a).rows[id], IsLeft(Do(s, a).log, id), swept || Sweeps(s, a, id))
  {
    hide Inv, IsLeft;
    match a {
      case RpcDecide(t) =>
        if PcOf(s, t).Stamped? {
          var Stamped(req, at) := PcOf(s, t);
          LeaveFits(s, req.id, if req.verdict == "approve" then Approved else Denied, t, at, Rpc(req.slug), id, swept);
        }
      case VoiceDecide(t) =>
        if PcOf(s, t).Heard? {
          var Heard(heard, approve, at) := PcOf(s, t);
          LeaveFits(s, heard, if approve then Approved else Denied, t, at, Voice, id, swept);
        }
      case Merge(t, succeeds) =>
        if PcOf(s, t).Checked? { LeftGrows(s.log, Merged(PcOf(s, t).row.id, t, PcOf(s, t).checkedAt), id); }
      case _ =>
    }
  }

  /** A row that is not there was neither decided nor swept. */
  lemma {:induction false} AbsentIsUntouched(actions: seq<Action>, id: string)
    requires id !in Run(actions).rows
    ensures !IsLeft(Run(actions).log, id) && !Swept(actions, id)
  {
    AlwaysInv(actions);
    var s := Run(actions);
    forall k | 0 <= k < |s.log| ensures s.log[k].id != id { assert EntryOk(s.rows, s.log[k]); }
    if actions == [] {
    } else {
      var init := actions[..|actions| - 1];
      StepKeeps(Run(init), actions[|actions| - 1]);
      AbsentIsUntouched(init, id);
    }
  }

  lemma ArrivalFits(s: State, a: Action, id: string)
    requires id !in s.rows && id in Do(s, a).rows
    ensures !Sweeps(s, a, id) && Do(s, a).log == s.log && StatusFits(Do(s, a).rows[id], false, false)
  {
  }

  /** Main result: in every interleaving a row is pending if and only if nobody decided it and no
      sweep saw its deadline passed; it is expired if and only if a sweep was first. The deadline itself
      decides nothing. */
  lemma {:induction false} StatusIff(actions: seq<Action>, id: string)
    requires id in Run(actions).rows
    ensures StatusFits(Run(actions).rows[id], IsLeft(Run(actions).log, id), Swept(actions, id))
  {
    if actions == [] {
    } else {
      hide Do, Inv, IsLeft, Sweeps, StatusFits;
      var init, a := actions[..|actions| - 1], actions[|actions| - 1];
      var s := Run(init);
      AlwaysInv(init);
      if id in s.rows {
        StatusIff(init, id);
        StepFits(s, a, id, Swept(init, id));
      } else {
        AbsentIsUntouched(init, id);
        ArrivalFits(s, a, id);
      }
    }
  }

  /** The log entry a task is about to make, when it is about to decide. */
  function Sending(pc: Pc, t: nat): Entry
    requires pc.Stamped? || pc.Heard?
  {
    if pc.Heard? then Left(pc.id, if pc.approve then Approved else Denied, t, Voice)
    else Left(pc.req.id, if pc.req.verdict == "approve" then Approved else Denied, t, Rpc(pc.req.slug))
  }

  lemma SendingDoes(s: State, t: nat)
    requires PcOf(s, t).Stamped? || PcOf(s, t).Heard?
    ensures var e := Sending(PcOf(s, t), t);
            var s' := Do(s, if PcOf(s, t).Heard? then VoiceDecide(t) else RpcDecide(t));
            if e.id in s.rows && s.rows[e.id].status == Pending then s'.log == s.log + [e]
            else s'.log == s.log && s'.rows == s.rows
  {
  }

  /** So a decision about to be sent lands if and only if no other came first and no sweep did,
      however late it is; otherwise it changes nothing. */
  lemma DecisionLandsIff(actions: seq<Action>, t: nat)
    requires PcOf(Run(actions), t).Stamped? || PcOf(Run(actions), t).Heard?
    ensures var s := Run(actions);
            var e := Sending(PcOf(s, t), t);
            var s' := Do(s, if PcOf(s, t).Heard? then VoiceDecide(t) else RpcDecide(t));
            if !IsLeft(s.log, e.id) && !Swept(actions, e.id) then s'.log == s.log + [e]
            else s'.log == s.log && s'.rows == s.rows
  {
    var s := Run(actions);
    AlwaysInv(actions);
    assert PcOk(s, t);
    StatusIff(actions, Sending(PcOf(s, t), t).id);
    SendingDoes(s, t);
  }

  /** Such a run: approved at time 20 with a deadline of 10, the sweep not having come round yet. */
  lemma LateGrant()
    ensures var s := Run(LateActions());
            && "a" in s.rows && s.rows["a"].expiresAt == 10 && s.clock == 20
            && s.rows["a"].status == Approved && s.rows["a"].decidedAt == Some(20)
  {
    var all := LateActions();
    assert all[..5][..4] == all[..4] && all[..4][..3] == all[..3] && all[..3][..2] == all[..2];
    assert all[..2][..1] == all[..1] && all[..1][..0] == [] && all[..5] == all;
    var row := Approval("a", "merge_back", 2, 10, Pending, None, None, None);
    assert Run(all[..1]) == State(map["a" := row], 0, map[], []);
    assert Run(all[..2]) == State(map["a" := row], 20, map[], []);
    var req := Request("a", "approve", None);
    assert Run(all[..3]) == State(map["a" := row], 20, map[0 := Gated(req)], []);
    assert Run(all[..4]) == State(map["a" := row], 20, map[0 := Stamped(req, 20)], []);
  }

  function LateActions(): seq<Action> {
    [Insert("a", "merge_back", 2, 10), Advance(20),
     RpcRead(0, Request("a", "approve", None)), RpcStamp(0), RpcDecide(0)]
  }

  // ---------------------------------------------------------------- calls nobody interrupts

  /** What an RPC decider must bring: a verdict, and for risk 3 the last six characters of the id. */
  predicate MayDecide(row: Approval, req: Request) {
    && (req.verdict == "approve" || req.verdict == "deny")
    && (row.risk == 3 ==> req.slug == Some(if |req.id| <= 6 then req.id else req.id[|req.id| - 6..]))
  }

  /** The states of one RPC call, from its first read to the record of a merge. */
  function Deciding(s: State, t: nat, req: Request): State { Do(Do(Do(s, RpcRead(t, req)), RpcStamp(t)), RpcDecide(t)) }

  function Merging(s: State, t: nat, succeeds: bool, execution: string): State {
    Do(Do(Do(s, MergeCheck(t)), Merge(t, succeeds)), Record(t, execution))
  }

  lemma DecidingRefused(s: State, t: nat, req: Request)
    requires PcOf(s, t) == Idle && Inv(s)
    requires req.id !in s.rows || !MayDecide(s.rows[req.id], req) || s.rows[req.id].status != Pending
    ensures Deciding(s, t, req).rows == s.rows && Deciding(s, t, req).log == s.log
    ensures Deciding(s, t, req).clock == s.clock && PcOf(Deciding(s, t, req), t) == Idle
  {
    assert s.log + [] == s.log;
  }

  lemma DecidingLands(s: State, t: nat, req: Request)
    requires PcOf(s, t) == Idle && Inv(s)
    requires req.id in s.rows && MayDecide(s.rows[req.id], req) && s.rows[req.id].status == Pending
    ensures var s' := Deciding(s, t, req);
            var status := if req.verdict == "approve" then Approved else Denied;
            var row := s.rows[req.id].(status := status, decidedAt := Some(s.clock), decidedVia := Some("cli"));
            && s'.rows == s.rows[req.id := row] && s'.clock == s.clock
            && s'.log == s.log + [Left(req.id, status, t, Rpc(req.slug))]
            && PcOf(s', t) == if status == Approved && row.kind == "merge_back" then Holding(row) else Idle
  {
    assert s.rows[req.id].id == req.id;
    assert PcOf(Do(Do(s, RpcRead(t, req)), RpcStamp(t)), t) == Stamped(req, s.clock);
  }

  lemma MergingHeld(s: State, t: nat, succeeds: bool, execution: string)
    requires PcOf(s, t).Holding? && PcOf(s, t).row.status == Approved && PcOf(s, t).row.id in s.rows
    ensures var s' := Merging(s, t, succeeds, execution);
            var row := PcOf(s, t).row;
            && s'.clock == s.clock && PcOf(s', t) == Idle
            && if succeeds && s.clock < row.expiresAt then
                 && s'.log == s.log + [Merged(row.id, t, s.clock)]
                 && s'.rows == s.rows[row.id := s.rows[row.id].(execution := Some(execution))]
               else s'.log == s.log && s'.rows == s.rows
  {
    var a := Do(s, MergeCheck(t));
    var b := Do(a, Merge(t, succeeds));
  }

  lemma MergingIdle(s: State, t: nat, succeeds: bool, execution: string)
    requires PcOf(s, t) == Idle
    ensures Merging(s, t, succeeds, execution) == s
  {
  }

  /** The whole effect of an RPC call nobody interrupts, after any interleaving: it is refused without a
      trace, or decides the row at the present time, and merges if and only if it approved a merge_back
      before its deadline and the merge went through. */
  lemma RpcCall(actions: seq<Action>, t: nat, req: Request, succeeds: bool, execution: string)
    requires PcOf(Run(actions), t) == Idle
    ensures var s := Run(actions);
            var s' := Merging(Deciding(s, t, req), t, succeeds, execution);
            if req.id in s.rows && MayDecide(s.rows[req.id], req) && s.rows[req.id].status == Pending then
              var row, approves := s.rows[req.id], req.verdict == "approve";
              var status := if approves then Approved else Denied;
              var merges := approves && row.kind == "merge_back" && s.clock < row.expiresAt && succeeds;
              && s'.rows == s.rows[req.id := row.(
                   status := status, decidedAt := Some(s.clock), decidedVia := Some("cli"),
                   execution := if merges then Some(execution) else row.execution)]
              && s'.log == s.log + [Left(req.id, status, t, Rpc(req.slug))]
                             + if merges then [Merged(req.id, t, s.clock)] else []
            else s'.rows == s.rows && s'.log == s.log
  {
    hide Do, Deciding, Merging, MayDecide, Inv;
    var s := Run(actions);
    AlwaysInv(actions);
    var mid := Deciding(s, t, req);
    if req.id in s.rows && MayDecide(s.rows[req.id], req) && s.rows[req.id].status == Pending {
      assert s.rows[req.id].id == req.id by { RowIds(s); }
      DecidingLands(s, t, req);
      assert mid.log + [] == mid.log;
      if PcOf(mid, t) == Idle {
        MergingIdle(mid, t, succeeds, execution);
      } else {
        MergingHeld(mid, t, succeeds, execution);
      }
    } else {
      DecidingRefused(s, t, req);
      MergingIdle(mid, t, succeeds, execution);
    }
  }

  lemma RowIds(s: State)
    requires Inv(s)
    ensures forall id :: id in s.rows ==> s.rows[id].id == id
  {
  }

  /** The merge after an interrupted start: for a task about to approve a pending merge_back, the three
      steps merge it if and only if the deadline is still ahead. */
  lemma ApprovalMergesIff(actions: seq<Action>, t: nat)
    requires var s := Run(actions); var pc := PcOf(s, t);
             && pc.Stamped? && pc.req.verdict == "approve" && pc.req.id in s.rows
             && s.rows[pc.req.id].status == Pending && s.rows[pc.req.id].kind == "merge_back"
    ensures var s := Run(actions);
            var id := PcOf(s, t).req.id;
            var s' := Do(Do(Do(s, RpcDecide(t)), MergeCheck(t)), Merge(t, true));
            s'.log == s.log + [Left(id, Approved, t, Rpc(PcOf(s, t).req.slug))]
                        + if s.clock < s.rows[id].expiresAt then [Merged(id, t, s.clock)] else []
  {
    hide Run;
    var s := Run(actions);
    AlwaysInv(actions);
    var Stamped(req, at) := PcOf(s, t);
    assert s.rows[req.id].id == req.id;
    var a := Do(s, RpcDecide(t));
    assert PcOf(a, t) == Holding(s.rows[req.id].(status := Approved, decidedAt := Some(at), decidedVia := Some("cli")));
    assert a.log + [] == a.log;
  }

  /** The whole effect of a voice decision: only a pending row below risk 3 whose slug was spoken. */
  lemma VoiceCall(s: State, t: nat, visible: string, approve: bool, slugMatches: bool, utteranceAt: int)
    requires PcOf(s, t) == Idle
    ensures var s' := Do(Do(s, VoiceRead(t, visible, approve, slugMatches, utteranceAt)), VoiceDecide(t));
            if visible in s.rows && s.rows[visible].status == Pending && s.rows[visible].risk < 3 && slugMatches then
              var status := if approve then Approved else Denied;
              && s'.rows == s.rows[visible := s.rows[visible].(
                   status := status, decidedAt := Some(utteranceAt), decidedVia := Some("voice"))]
              && s'.log == s.log + [Left(visible, status, t, Voice)]
            else s'.rows == s.rows && s'.log == s.log
  {
    if visible !in s.rows || s.rows[visible].status != Pending || s.rows[visible].risk >= 3 || !slugMatches {
      assert Do(s, VoiceRead(t, visible, approve, slugMatches, utteranceAt)) == s;
    }
  }

  /** The whole effect of a sweep: exactly the pending rows due at the present time expire. */
  lemma SweepCall(s: State, t: nat, id: string)
    requires PcOf(s, t) == Idle
    ensures var s' := Do(Do(s, SweepRead(t)), SweepExpire(t));
            && s'.log == s.log && s'.rows.Keys == s.rows.Keys
            && (id in s.rows ==>
                  s'.rows[id] == if s.rows[id].status == Pending && s.rows[id].expiresAt <= s.clock
                                 then s.rows[id].(status := Expired) else s.rows[id])
  {
    assert PcOf(Do(s, SweepRead(t)), t) == Sweeping(s.clock);
  }
}
