/** Whole runs of activities, timer ticks and daemon restarts against a batch reading of the same
    activities: a project's sessions are its timestamps cut wherever the silence exceeds the gap. */
module SessionRuns {
  import opened Basics
  import opened Sessionizer
  import opened Ingest

  datatype Event =
    | Activity(project: string, ts: int, isCommand: bool, id: string)
    | Tick(now: int)
    | Restart(listed: seq<Session>)

  datatype State = State(open: OpenMap, rows: Rows)

  datatype Act = Act(ts: int, isCommand: bool, id: string)

  datatype Segment = Segment(id: string, started: int, last: int, commands: nat)

  // ---------------------------------------------------------------- the daemon

  /** What the ingest object does: `Ingest.Ingest.IngestEvent`, `TickAt`, and a restart's preload. */
  ghost function Step(s: State, gap: int, e: Event): State {
    match e
    case Activity(p, ts, cmd, id) =>
      var (open, updates) := OnActivity(s.open, gap, p, ts, cmd, id);
      State(open, ApplyAll(s.rows, updates))
    case Tick(now) => State(OnTick(s.open, gap, now), CloseStale(s.rows, gap, now))
    case Restart(listed) => State(Adopted(map[], listed), s.rows)
  }

  /** Memory and table after the first `n` events. */
  ghost function Run(gap: int, events: seq<Event>, n: nat): State
    requires n <= |events|
  {
    if n == 0 then State(map[], map[]) else Step(Run(gap, events, n - 1), gap, events[n - 1])
  }

  /** Each restart is given the open rows of the table at that moment, in any order. */
  ghost predicate Possible(gap: int, events: seq<Event>) {
    forall i :: 0 <= i < |events| && events[i].Restart? ==> ListsOpen(Run(gap, events, i).rows, events[i].listed)
  }

  // ---------------------------------------------------------------- the batch reading

  /** The activities of one project among the first `n` events. */
  ghost function Acts(events: seq<Event>, n: nat, project: string): seq<Act>
    requires n <= |events|
  {
    if n == 0 then []
    else Acts(events, n - 1, project) + NewAct(events[n - 1], project)
  }

  ghost function NewAct(e: Event, project: string): seq<Act> {
    if e.Activity? && e.project == project then [Act(e.ts, e.isCommand, e.id)] else []
  }

  /** Does a session start at index `i`? */
  ghost predicate Break(a: seq<Act>, gap: int, i: nat)
    requires i < |a|
  {
    i == 0 || a[i].ts - a[i - 1].ts > gap
  }

  ghost function Breaks(a: seq<Act>, gap: int): seq<nat> {
    if a == [] then []
    else Breaks(a[..|a| - 1], gap) + if Break(a, gap, |a| - 1) then [|a| - 1] else []
  }

  ghost function Commands(a: seq<Act>): nat {
    if a == [] then 0 else Commands(a[..|a| - 1]) + Count(a[|a| - 1].isCommand)
  }

  /** The activities a[i..j] seen as one session. */
  ghost function Summary(a: seq<Act>, i: nat, j: nat): Segment
    requires i < j <= |a|
  {
    Segment(a[i].id, a[i].ts, a[j - 1].ts, Commands(a[i..j]))
  }

  lemma {:induction false} BreaksExact(a: seq<Act>, gap: int)
    ensures forall i :: 0 <= i < |a| ==> (i in Breaks(a, gap) <==> Break(a, gap, i))
    ensures forall k :: 0 <= k < |Breaks(a, gap)| ==> Breaks(a, gap)[k] < |a|
    ensures forall k, l :: 0 <= k < l < |Breaks(a, gap)| ==> Breaks(a, gap)[k] < Breaks(a, gap)[l]
    ensures a != [] ==> Breaks(a, gap) != [] && Breaks(a, gap)[0] == 0
  {
    if a == [] {
    } else {
      var init := a[..|a| - 1];
      BreaksExact(init, gap);
      forall i | 0 <= i < |a| ensures i in Breaks(a, gap) <==> Break(a, gap, i) {
        if i < |init| { assert Break(init, gap, i) <==> Break(a, gap, i); }
      }
    }
  }

  ghost function EndOf(a: seq<Act>, gap: int, k: nat): nat
    requires k < |Breaks(a, gap)|
  {
    if k + 1 < |Breaks(a, gap)| then Breaks(a, gap)[k + 1] else |a|
  }

  lemma EndsAfter(a: seq<Act>, gap: int, k: nat)
    requires k < |Breaks(a, gap)|
    ensures Breaks(a, gap)[k] < EndOf(a, gap, k) <= |a|
  {
    BreaksExact(a, gap);
  }

  ghost function Nth(a: seq<Act>, gap: int, k: nat): Segment
    requires k < |Breaks(a, gap)|
  {
    EndsAfter(a, gap, k);
    Summary(a, Breaks(a, gap)[k], EndOf(a, gap, k))
  }

  /** One segment for each break, running up to the next one. */
  ghost function Batch(a: seq<Act>, gap: int): (b: seq<Segment>)
    ensures |b| == |Breaks(a, gap)|
  {
    seq(|Breaks(a, gap)|, k requires 0 <= k < |Breaks(a, gap)| => Nth(a, gap, k))
  }

  lemma BreaksSnoc(a: seq<Act>, gap: int, x: Act)
    ensures Breaks(a + [x], gap)
         == Breaks(a, gap) + if a == [] || x.ts - a[|a| - 1].ts > gap then [|a|] else []
  {
    assert (a + [x])[..|a|] == a;
  }

  lemma CommandsSnoc(a: seq<Act>, x: Act)
    ensures Commands(a + [x]) == Commands(a) + Count(x.isCommand)
  {
    assert (a + [x])[..|a|] == a;
  }

  /** A segment that ends before the last activity does not see what comes after. */
  lemma {:induction false} NthKept(a: seq<Act>, gap: int, x: Act, k: nat)
    requires k < |Breaks(a, gap)|
    requires k + 1 < |Breaks(a, gap)| || a == [] || x.ts - a[|a| - 1].ts > gap
    ensures k < |Breaks(a + [x], gap)| && Nth(a + [x], gap, k) == Nth(a, gap, k)
  {
    BreaksSnoc(a, gap, x);
    EndsAfter(a, gap, k);
    var i, j := Breaks(a, gap)[k], EndOf(a, gap, k);
    assert EndOf(a + [x], gap, k) == j && Breaks(a + [x], gap)[k] == i;
    assert (a + [x])[i..j] == a[i..j];
  }

  lemma SummarySnoc(a: seq<Act>, x: Act, i: nat)
    requires i < |a|
    ensures Summary(a + [x], i, |a| + 1)
         == Summary(a, i, |a|).(last := x.ts, commands := Summary(a, i, |a|).commands + Count(x.isCommand))
  {
    assert (a + [x])[i..|a| + 1] == a[i..|a|] + [x];
    CommandsSnoc(a[i..|a|], x);
  }

  lemma {:induction false} NthExtended(a: seq<Act>, gap: int, x: Act)
    requires a != [] && x.ts - a[|a| - 1].ts <= gap
    ensures var k := |Breaks(a, gap)| - 1;
            && 0 <= k && Breaks(a + [x], gap) == Breaks(a, gap)
            && Nth(a + [x], gap, k)
               == Nth(a, gap, k).(last := x.ts, commands := Nth(a, gap, k).commands + Count(x.isCommand))
  {
    hide Breaks, Summary;
    BreaksExact(a, gap);
    BreaksSnoc(a, gap, x);
    assert Breaks(a, gap) + [] == Breaks(a, gap);
    var k := |Breaks(a, gap)| - 1;
    EndsAfter(a, gap, k);
    SummarySnoc(a, x, Breaks(a, gap)[k]);
  }

  lemma {:induction false} NthNew(a: seq<Act>, gap: int, x: Act)
    requires a == [] || x.ts - a[|a| - 1].ts > gap
    ensures |Breaks(a + [x], gap)| == |Breaks(a, gap)| + 1
    ensures Nth(a + [x], gap, |Breaks(a, gap)|) == Segment(x.id, x.ts, x.ts, Count(x.isCommand))
  {
    BreaksSnoc(a, gap, x);
    assert (a + [x])[|a|..|a| + 1] == [x];
    CommandsSnoc([], x);
    assert [] + [x] == [x];
  }

  /** One more activity either extends the last segment or starts a new one. */
  lemma {:induction false} BatchSnoc(a: seq<Act>, gap: int, x: Act)
    ensures var b, b' := Batch(a, gap), Batch(a + [x], gap);
            if a == [] || x.ts - a[|a| - 1].ts > gap then
              b' == b + [Segment(x.id, x.ts, x.ts, Count(x.isCommand))]
            else
              && b != []
              && b' == b[..|b| - 1] + [b[|b| - 1].(last := x.ts, commands := b[|b| - 1].commands + Count(x.isCommand))]
  {
    hide Nth, Breaks, Commands;
    var n := |Breaks(a, gap)|;
    forall k | 0 <= k < n && (k + 1 < n || a == [] || x.ts - a[|a| - 1].ts > gap)
      ensures k < |Breaks(a + [x], gap)| && Nth(a + [x], gap, k) == Nth(a, gap, k)
    {
      NthKept(a, gap, x, k);
    }
    if a == [] || x.ts - a[|a| - 1].ts > gap { NthNew(a, gap, x); } else { NthExtended(a, gap, x); }
  }

  lemma {:induction false} LastSegment(a: seq<Act>, gap: int)
    requires a != []
    ensures Batch(a, gap) != [] && Batch(a, gap)[|Batch(a, gap)| - 1].last == a[|a| - 1].ts
  {
    BreaksExact(a, gap);
    EndsAfter(a, gap, |Breaks(a, gap)| - 1);
    assert Batch(a, gap)[|Breaks(a, gap)| - 1] == Nth(a, gap, |Breaks(a, gap)| - 1);
  }

  // ---------------------------------------------------------------- the run refines the batch

  /** Time only moves forward and every activity carries its own fresh id. */
  ghost predicate Orderly(events: seq<Event>) {
    && (forall i, j :: 0 <= i < j < |events| && !events[i].Restart? && !events[j].Restart? ==>
          TimeOf(events[i]) <= TimeOf(events[j]))
    && (forall i, j :: 0 <= i < j < |events| && events[i].Activity? && events[j].Activity? ==>
          events[i].id != events[j].id)
  }

  ghost function TimeOf(e: Event): int
    requires !e.Restart?
  {
    if e.Tick? then e.now else e.ts
  }

  /** Has a tick since the project's last activity seen it silent for longer than the gap? */
  ghost predicate Lapsed(events: seq<Event>, n: nat, gap: int, p: string)
    requires n <= |events|
  {
    n > 0 &&
    match events[n - 1]
    case Activity(q, _, _, _) => q != p && Lapsed(events, n - 1, gap, p)
    case Tick(now) => Lapsed(events, n - 1, gap, p) || Silent(Acts(events, n - 1, p), gap, now)
    case Restart(_) => Lapsed(events, n - 1, gap, p)
  }

  ghost predicate Silent(a: seq<Act>, gap: int, now: int) {
    a != [] && now - a[|a| - 1].ts > gap
  }

  /** The row a batch segment must have; only a project's last session can still be open. */
  ghost function RowOf(b: seq<Segment>, p: string, lapsed: bool, k: nat): Session
    requires k < |b|
  {
    var ended := if k + 1 == |b| && !lapsed then None else Some(b[k].last);
    Session(b[k].id, p, b[k].started, b[k].last, ended, b[k].commands)
  }

  /** Project `p` in memory and table is exactly the segments `b`. */
  ghost predicate Holds(s: State, p: string, b: seq<Segment>, lapsed: bool) {
    && (forall k :: 0 <= k < |b| ==> b[k].id in s.rows && s.rows[b[k].id] == RowOf(b, p, lapsed, k))
    && (p in s.open <==> b != [] && !lapsed)
    && (p in s.open ==> s.open[p] == Open(b[|b| - 1].id, b[|b| - 1].last, b[|b| - 1].commands))
  }

  /** The segments of project `p` after the first `n` events. */
  ghost function Segments(events: seq<Event>, n: nat, gap: int, p: string): seq<Segment>
    requires n <= |events|
  {
    Batch(Acts(events, n, p), gap)
  }

  ghost predicate IsSegment(b: seq<Segment>, id: string) {
    exists k :: 0 <= k < |b| && b[k].id == id
  }

  /** The table is the batch reading: every segment has its row and every row is a segment. */
  ghost predicate IsBatch(s: State, events: seq<Event>, n: nat, gap: int)
    requires n <= |events|
  {
    && (forall p :: Holds(s, p, Segments(events, n, gap, p), Lapsed(events, n, gap, p)))
    && (forall id :: id in s.rows ==> IsSegment(Segments(events, n, gap, s.rows[id].project), id))
  }

  lemma {:induction false} LapsedMeansSilent(events: seq<Event>, n: nat, gap: int, p: string, now: int)
    requires n <= |events| && Lapsed(events, n, gap, p)
    requires forall i :: 0 <= i < n && !events[i].Restart? ==> TimeOf(events[i]) <= now
    ensures Silent(Acts(events, n, p), gap, now)
  {
    assert Acts(events, n - 1, p) + [] == Acts(events, n - 1, p);
    if Lapsed(events, n - 1, gap, p) { LapsedMeansSilent(events, n - 1, gap, p, now); }
  }

  ghost predicate IsActivityId(events: seq<Event>, n: nat, id: string)
    requires n <= |events|
  {
    exists i :: 0 <= i < n && events[i].Activity? && events[i].id == id
  }

  lemma IdIsFresh(events: seq<Event>, n: nat)
    requires Orderly(events) && 0 < n <= |events| && events[n - 1].Activity?
    ensures !IsActivityId(events, n - 1, events[n - 1].id)
  {
  }

  /** The rows after an activity, case by case. */
  lemma ActivityRows(open: OpenMap, rows: Rows, gap: int, p: string, ts: int, cmd: bool, id: string)
    requires Mirror(open, rows) && id !in rows
    ensures var rows' := ApplyAll(rows, OnActivity(open, gap, p, ts, cmd, id).1);
            if p in open && ts - open[p].lastActivity <= gap then
              rows' == rows[open[p].id :=
                rows[open[p].id].(lastActivity := ts, commands := open[p].commands + Count(cmd))]
            else if p in open then
              rows' == rows[open[p].id := rows[open[p].id].(ended := Some(open[p].lastActivity))]
                           [id := Fresh(id, p, ts, cmd)]
            else rows' == rows[id := Fresh(id, p, ts, cmd)]
    ensures p in open ==> IsOpen(rows, open[p].id)
  {
    if p in open {
      assert IsOpen(rows, open[p].id);
      var closing, opening := Closed(open[p].id, open[p].lastActivity), Opened(Fresh(id, p, ts, cmd));
      ApplyOne(rows, Touched(open[p].id, ts, open[p].commands + Count(cmd)));
      ApplyTwo(rows, closing, opening);
      assert [closing] + [opening] == [closing, opening];
    } else {
      ApplyOne(rows, Opened(Fresh(id, p, ts, cmd)));
      assert [] + [Opened(Fresh(id, p, ts, cmd))] == [Opened(Fresh(id, p, ts, cmd))];
    }
  }

  lemma {:induction false} StepIds(s: State, gap: int, e: Event)
    requires Mirror(s.open, s.rows) && (e.Activity? ==> e.id !in s.rows)
    ensures forall id :: id in Step(s, gap, e).rows ==> id in s.rows || (e.Activity? && id == e.id)
  {
    hide ApplyAll, OnActivity, OnTick, Adopted, Mirror;
    match e {
      case Activity(p, ts, cmd, id) =>
        ActivityRows(s.open, s.rows, gap, p, ts, cmd, id);
        assert Step(s, gap, e).rows == ApplyAll(s.rows, OnActivity(s.open, gap, p, ts, cmd, id).1);
        assert Step(s, gap, e).rows.Keys <= s.rows.Keys + {id};
      case Tick(now) => assert Step(s, gap, e).rows.Keys == s.rows.Keys;
      case Restart(_) => assert Step(s, gap, e).rows == s.rows;
    }
  }

  lemma {:induction false} StepMirrors(s: State, gap: int, e: Event)
    requires Mirror(s.open, s.rows) && (e.Activity? ==> e.id !in s.rows)
    requires e.Restart? ==> ListsOpen(s.rows, e.listed)
    ensures Mirror(Step(s, gap, e).open, Step(s, gap, e).rows)
    ensures e.Restart? ==> Step(s, gap, e) == s
  {
    match e {
      case Activity(p, ts, cmd, id) => ActivityKeepsMirror(s.open, s.rows, gap, p, ts, cmd, id);
      case Tick(now) => TickKeepsMirror(s.open, s.rows, gap, now);
      case Restart(listed) => RestartRebuilds(s.open, s.rows, listed);
    }
  }

  lemma IdStays(events: seq<Event>, n: nat, id: string)
    requires 0 < n <= |events|
    requires IsActivityId(events, n - 1, id) || (events[n - 1].Activity? && events[n - 1].id == id)
    ensures IsActivityId(events, n, id)
  {
    if IsActivityId(events, n - 1, id) {
      var i :| 0 <= i < n - 1 && events[i].Activity? && events[i].id == id;
    }
  }

  ghost predicate OnlyActivityIds(rows: Rows, events: seq<Event>, n: nat)
    requires n <= |events|
  {
    forall id :: id in rows ==> IsActivityId(events, n, id)
  }

  lemma {:induction false} IdsNext(gap: int, events: seq<Event>, n: nat, s: State)
    requires Orderly(events) && 0 < n <= |events| && Mirror(s.open, s.rows) && OnlyActivityIds(s.rows, events, n - 1)
    ensures events[n - 1].Activity? ==> events[n - 1].id !in s.rows
    ensures OnlyActivityIds(Step(s, gap, events[n - 1]).rows, events, n)
  {
    var e := events[n - 1];
    if e.Activity? { IdIsFresh(events, n); }
    hide Orderly, Mirror, IsActivityId, Step;
    StepIds(s, gap, e);
    forall id | id in Step(s, gap, e).rows ensures IsActivityId(events, n, id) { IdStays(events, n, id); }
  }

  /** After every event the memory and the table agree, and only activity ids name rows. */
  lemma {:induction false} AlwaysMirrors(gap: int, events: seq<Event>, n: nat)
    requires Orderly(events) && Possible(gap, events) && n <= |events|
    ensures Mirror(Run(gap, events, n).open, Run(gap, events, n).rows)
    ensures OnlyActivityIds(Run(gap, events, n).rows, events, n)
  {
    if n == 0 {
    } else {
      hide Step, ListsOpen, Mirror, OnlyActivityIds, Orderly;
      AlwaysMirrors(gap, events, n - 1);
      IdsNext(gap, events, n, Run(gap, events, n - 1));
      StepMirrors(Run(gap, events, n - 1), gap, events[n - 1]);
    }
  }

  // ---------------------------------------------------------------- one event at a time

  /** An activity of another project leaves this project's rows alone. */
  lemma {:induction false} OtherProject(s: State, gap: int, e: Event, p: string, b: seq<Segment>, lapsed: bool)
    requires e.Activity? && e.project != p && e.id !in s.rows && Mirror(s.open, s.rows)
    requires Holds(s, p, b, lapsed)
    ensures Holds(Step(s, gap, e), p, b, lapsed)
  {
    ActivityRows(s.open, s.rows, gap, e.project, e.ts, e.isCommand, e.id);
  }

  lemma {:induction false} Extends(s: State, gap: int, e: Event, b: seq<Segment>, lapsed: bool)
    requires e.Activity? && e.id !in s.rows && Mirror(s.open, s.rows)
    requires Holds(s, e.project, b, lapsed)
    requires e.project in s.open && e.ts - s.open[e.project].lastActivity <= gap
    ensures b != []
    ensures var last := b[|b| - 1].(last := e.ts, commands := b[|b| - 1].commands + Count(e.isCommand));
            Holds(Step(s, gap, e), e.project, b[..|b| - 1] + [last], false)
  {
    var s', p := Step(s, gap, e), e.project;
    var last := b[|b| - 1].(last := e.ts, commands := b[|b| - 1].commands + Count(e.isCommand));
    var b' := b[..|b| - 1] + [last];
    ActivityRows(s.open, s.rows, gap, p, e.ts, e.isCommand, e.id);
    forall k | 0 <= k < |b'| ensures b'[k].id in s'.rows && s'.rows[b'[k].id] == RowOf(b', p, false, k) {
      assert s.rows[b[k].id] == RowOf(b, p, lapsed, k);
    }
  }

  lemma {:induction false} StartsNew(s: State, gap: int, e: Event, b: seq<Segment>, lapsed: bool)
    requires e.Activity? && e.id !in s.rows && Mirror(s.open, s.rows)
    requires Holds(s, e.project, b, lapsed)
    requires !(e.project in s.open && e.ts - s.open[e.project].lastActivity <= gap)
    ensures Holds(Step(s, gap, e), e.project, b + [Segment(e.id, e.ts, e.ts, Count(e.isCommand))], false)
  {
    var s', p := Step(s, gap, e), e.project;
    var b' := b + [Segment(e.id, e.ts, e.ts, Count(e.isCommand))];
    ActivityRows(s.open, s.rows, gap, p, e.ts, e.isCommand, e.id);
    forall k | 0 <= k < |b'| ensures b'[k].id in s'.rows && s'.rows[b'[k].id] == RowOf(b', p, false, k) {
      if k < |b| { assert s.rows[b[k].id] == RowOf(b, p, lapsed, k); }
    }
  }

  /** The online rule and the batch rule make the same choice. */
  lemma {:induction false} OwnProject(s: State, gap: int, e: Event, a: seq<Act>, lapsed: bool)
    requires e.Activity? && e.id !in s.rows && Mirror(s.open, s.rows)
    requires Holds(s, e.project, Batch(a, gap), lapsed)
    requires lapsed ==> Silent(a, gap, e.ts)
    ensures Holds(Step(s, gap, e), e.project, Batch(a + [Act(e.ts, e.isCommand, e.id)], gap), false)
  {
    hide Step, Mirror;
    var b, x := Batch(a, gap), Act(e.ts, e.isCommand, e.id);
    BatchSnoc(a, gap, x);
    if a != [] { LastSegment(a, gap); }
    if a == [] { assert b == []; }
    if e.project in s.open && e.ts - s.open[e.project].lastActivity <= gap {
      Extends(s, gap, e, b, lapsed);
    } else {
      StartsNew(s, gap, e, b, lapsed);
    }
  }

  /** A tick closes exactly the sessions that have been silent for longer than the gap. */
  lemma {:induction false} TickProject(s: State, gap: int, now: int, p: string, a: seq<Act>, lapsed: bool)
    requires Mirror(s.open, s.rows) && Holds(s, p, Batch(a, gap), lapsed)
    ensures Holds(Step(s, gap, Tick(now)), p, Batch(a, gap), lapsed || Silent(a, gap, now))
  {
    var b, s' := Batch(a, gap), Step(s, gap, Tick(now));
    if a != [] { LastSegment(a, gap); } else { assert b == []; }
    forall k | 0 <= k < |b|
      ensures b[k].id in s'.rows && s'.rows[b[k].id] == RowOf(b, p, lapsed || Silent(a, gap, now), k)
    {
      assert s.rows[b[k].id] == RowOf(b, p, lapsed, k);
    }
  }

  lemma {:induction false} ProjectStep(gap: int, events: seq<Event>, n: nat, s: State, p: string)
    requires 0 < n <= |events| && Mirror(s.open, s.rows)
    requires Holds(s, p, Segments(events, n - 1, gap, p), Lapsed(events, n - 1, gap, p))
    requires events[n - 1].Restart? ==> Step(s, gap, events[n - 1]) == s
    requires events[n - 1].Activity? ==> events[n - 1].id !in s.rows
    requires events[n - 1].Activity? && Lapsed(events, n - 1, gap, p) ==>
               Silent(Acts(events, n - 1, p), gap, events[n - 1].ts)
    ensures Holds(Step(s, gap, events[n - 1]), p, Segments(events, n, gap, p), Lapsed(events, n, gap, p))
  {
    hide Holds, Step, Batch, Mirror, Silent;
    var e, a := events[n - 1], Acts(events, n - 1, p);
    if e.Activity? && e.project == p {
      OwnProject(s, gap, e, a, Lapsed(events, n - 1, gap, p));
    } else {
      assert a + [] == a;
      match e {
        case Activity(_, _, _, _) => OtherProject(s, gap, e, p, Batch(a, gap), Lapsed(events, n - 1, gap, p));
        case Tick(now) => TickProject(s, gap, now, p, a, Lapsed(events, n - 1, gap, p));
        case Restart(_) =>
      }
    }
  }

  /** No segment loses its place. */
  lemma {:induction false} SegmentsStay(events: seq<Event>, n: nat, gap: int, p: string, id: string)
    requires 0 < n <= |events| && IsSegment(Segments(events, n - 1, gap, p), id)
    ensures IsSegment(Segments(events, n, gap, p), id)
  {
    hide Batch;
    var a, e := Acts(events, n - 1, p), events[n - 1];
    var b := Batch(a, gap);
    var k :| 0 <= k < |b| && b[k].id == id;
    if e.Activity? && e.project == p {
      BatchSnoc(a, gap, Act(e.ts, e.isCommand, e.id));
      assert k < |b| - 1 ==> b[..|b| - 1][k] == b[k];
    } else {
      assert a + [] == a;
    }
    assert Segments(events, n, gap, p)[k].id == id;
  }

  lemma {:induction false} StepRows(s: State, gap: int, e: Event, id: string)
    requires Mirror(s.open, s.rows) && (e.Activity? ==> e.id !in s.rows) && id in Step(s, gap, e).rows
    ensures if id in s.rows then Step(s, gap, e).rows[id].project == s.rows[id].project
            else e.Activity? && id == e.id && Step(s, gap, e).rows[id].project == e.project
                 && e.project in Step(s, gap, e).open && Step(s, gap, e).open[e.project].id == id
  {
    if e.Activity? { ActivityRows(s.open, s.rows, gap, e.project, e.ts, e.isCommand, e.id); }
  }

  lemma {:induction false} RowsAreSegments(gap: int, events: seq<Event>, n: nat, s: State, id: string)
    requires 0 < n <= |events| && Mirror(s.open, s.rows)
    requires events[n - 1].Activity? ==> events[n - 1].id !in s.rows
    requires id in s.rows ==> IsSegment(Segments(events, n - 1, gap, s.rows[id].project), id)
    requires id in Step(s, gap, events[n - 1]).rows
    requires var p := Step(s, gap, events[n - 1]).rows[id].project;
             Holds(Step(s, gap, events[n - 1]), p, Segments(events, n, gap, p), Lapsed(events, n, gap, p))
    ensures IsSegment(Segments(events, n, gap, Step(s, gap, events[n - 1]).rows[id].project), id)
  {
    hide Step, Segments, Lapsed, Mirror;
    var s' := Step(s, gap, events[n - 1]);
    StepRows(s, gap, events[n - 1], id);
    var p := s'.rows[id].project;
    if id in s.rows {
      SegmentsStay(events, n, gap, p, id);
    } else {
      var b := Segments(events, n, gap, p);
      assert Holds(s', p, b, Lapsed(events, n, gap, p));
      assert b[|b| - 1].id == id;
    }
  }

  /** The run may take event `n`: what the state owes to the events before it. */
  ghost predicate Ready(gap: int, events: seq<Event>, n: nat, s: State)
    requires 0 < n <= |events|
  {
    var e := events[n - 1];
    && Mirror(s.open, s.rows)
    && (e.Activity? ==> e.id !in s.rows)
    && (e.Restart? ==> ListsOpen(s.rows, e.listed))
    && (!e.Restart? ==> forall i :: 0 <= i < n && !events[i].Restart? ==> TimeOf(events[i]) <= TimeOf(e))
  }

  lemma {:induction false} AlwaysReady(gap: int, events: seq<Event>, n: nat)
    requires Orderly(events) && Possible(gap, events) && 0 < n <= |events|
    ensures Ready(gap, events, n, Run(gap, events, n - 1))
  {
    hide Mirror, ListsOpen, Run;
    var s, e := Run(gap, events, n - 1), events[n - 1];
    AlwaysMirrors(gap, events, n - 1);
    if e.Activity? { IdIsFresh(events, n); }
  }

  lemma {:induction false} HoldsNext(gap: int, events: seq<Event>, n: nat, s: State, p: string)
    requires 0 < n <= |events| && Ready(gap, events, n, s)
    requires Holds(s, p, Segments(events, n - 1, gap, p), Lapsed(events, n - 1, gap, p))
    ensures Holds(Step(s, gap, events[n - 1]), p, Segments(events, n, gap, p), Lapsed(events, n, gap, p))
  {
    hide Step, Holds, Segments, Acts, Lapsed, Mirror, ListsOpen, Silent;
    var e := events[n - 1];
    if e.Restart? { StepMirrors(s, gap, e); }
    if e.Activity? && Lapsed(events, n - 1, gap, p) { LapsedMeansSilent(events, n - 1, gap, p, e.ts); }
    ProjectStep(gap, events, n, s, p);
  }

  lemma {:induction false} BatchAtStart(gap: int, events: seq<Event>)
    ensures IsBatch(State(map[], map[]), events, 0, gap)
  {
    forall p ensures Holds(State(map[], map[]), p, Segments(events, 0, gap, p), Lapsed(events, 0, gap, p)) {}
  }

  lemma {:induction false} BatchNext(gap: int, events: seq<Event>, n: nat, s: State)
    requires 0 < n <= |events| && Ready(gap, events, n, s) && IsBatch(s, events, n - 1, gap)
    ensures IsBatch(Step(s, gap, events[n - 1]), events, n, gap)
  {
    hide Step, Holds, Segments, Lapsed, IsSegment, Mirror, ListsOpen;
    var s' := Step(s, gap, events[n - 1]);
    forall p ensures Holds(s', p, Segments(events, n, gap, p), Lapsed(events, n, gap, p)) {
      HoldsNext(gap, events, n, s, p);
    }
    forall id | id in s'.rows ensures IsSegment(Segments(events, n, gap, s'.rows[id].project), id) {
      RowsAreSegments(gap, events, n, s, id);
    }
  }

  /** Main result: after every orderly run the session table is exactly the batch reading. */
  lemma {:induction false} SessionsAreMaximalRuns(gap: int, events: seq<Event>, n: nat)
    requires Orderly(events) && Possible(gap, events) && n <= |events|
    ensures IsBatch(Run(gap, events, n), events, n, gap)
  {
    hide Ready, IsBatch, Step, Orderly, Possible;
    if n == 0 {
      BatchAtStart(gap, events);
    } else {
      SessionsAreMaximalRuns(gap, events, n - 1);
      AlwaysReady(gap, events, n);
      BatchNext(gap, events, n, Run(gap, events, n - 1));
    }
  }

  // ---------------------------------------------------------------- consequences

  /** The activities among the first `n` events. */
  ghost function OnlyActivities(events: seq<Event>, n: nat): seq<Event>
    requires n <= |events|
  {
    if n == 0 then []
    else OnlyActivities(events, n - 1) + if events[n - 1].Activity? then [events[n - 1]] else []
  }

  lemma {:induction false} ActsPrefix(events: seq<Event>, more: seq<Event>, n: nat, p: string)
    requires n <= |events|
    ensures Acts(events + more, n, p) == Acts(events, n, p)
  {
    if n == 0 {
    } else {
      ActsPrefix(events, more, n - 1, p);
      assert (events + more)[n - 1] == events[n - 1];
    }
  }

  lemma {:induction false} ActsSnoc(events: seq<Event>, e: Event, p: string)
    ensures Acts(events + [e], |events| + 1, p) == Acts(events, |events|, p) + NewAct(e, p)
  {
    ActsPrefix(events, [e], |events|, p);
  }

  lemma ActsSkip(events: seq<Event>, n: nat, p: string)
    requires 0 < n <= |events| && !events[n - 1].Activity?
    ensures Acts(events, n, p) == Acts(events, n - 1, p)
  {
    assert Acts(events, n - 1, p) + [] == Acts(events, n - 1, p);
  }

  lemma {:induction false} OnlyActivitiesActs(events: seq<Event>, n: nat, p: string)
    requires n <= |events|
    ensures var quiet := OnlyActivities(events, n);
            Acts(quiet, |quiet|, p) == Acts(events, n, p)
  {
    if n == 0 {
    } else {
      OnlyActivitiesActs(events, n - 1, p);
      var kept, e := OnlyActivities(events, n - 1), events[n - 1];
      if e.Activity? {
        ActsSnoc(kept, e, p);
      } else {
        ActsSkip(events, n, p);
        hide Acts;
        assert kept + [] == kept;
      }
    }
  }

  lemma OnlyActivitiesSegments(events: seq<Event>, gap: int, p: string)
    ensures var quiet := OnlyActivities(events, |events|);
            Segments(quiet, |quiet|, gap, p) == Segments(events, |events|, gap, p)
  {
    OnlyActivitiesActs(events, |events|, p);
  }

  lemma {:induction false} NeverLapses(events: seq<Event>, n: nat, gap: int, p: string)
    requires n <= |events| && forall i :: 0 <= i < |events| ==> events[i].Activity?
    ensures !Lapsed(events, n, gap, p)
  {
    if n == 0 {
    } else {
      NeverLapses(events, n - 1, gap, p);
    }
  }

  lemma {:induction false} OnlyActivitiesOrderly(events: seq<Event>, n: nat)
    requires Orderly(events) && n <= |events|
    ensures Orderly(OnlyActivities(events, n))
    ensures forall x :: x in OnlyActivities(events, n) ==> x.Activity? && Among(events, n, x)
  {
    if n == 0 {
    } else {
      OnlyActivitiesOrderly(events, n - 1);
      var kept, e := OnlyActivities(events, n - 1), events[n - 1];
      forall x | x in kept
        ensures Among(events, n, x) && (e.Activity? ==> x.ts <= e.ts && x.id != e.id)
      {
        var j :| 0 <= j < n - 1 && events[j] == x;
        assert Among(events, n, events[j]);
        if e.Activity? { assert TimeOf(events[j]) <= TimeOf(events[n - 1]); }
      }
      assert Among(events, n, events[n - 1]);
    }
  }

  ghost predicate Among(events: seq<Event>, n: nat, x: Event)
    requires n <= |events|
  {
    exists j :: 0 <= j < n && events[j] == x
  }

  /** Ticks and restarts are not observable: without them the table holds the same sessions, and
      `ended` differs only on a project's last session, once it has lapsed. */
  lemma TicksAreUnobservable(gap: int, events: seq<Event>)
    requires Orderly(events) && Possible(gap, events)
    ensures var quiet := OnlyActivities(events, |events|);
            var s, t := Run(gap, events, |events|), Run(gap, quiet, |quiet|);
            && s.rows.Keys == t.rows.Keys
            && forall id :: id in s.rows ==>
                 var r, q := s.rows[id], t.rows[id];
                 r == if Lapsed(events, |events|, gap, r.project) && q.ended == None
                      then q.(ended := Some(q.lastActivity)) else q
  {
    hide Run, Orderly, Possible, IsBatch, OnlyActivities, Lapsed, Segments, Holds, IsSegment;
    var quiet := OnlyActivities(events, |events|);
    var s, t := Run(gap, events, |events|), Run(gap, quiet, |quiet|);
    QuietIsOrderly(gap, events);
    SessionsAreMaximalRuns(gap, events, |events|);
    SessionsAreMaximalRuns(gap, quiet, |quiet|);
    forall id | id in s.rows || id in t.rows
      ensures id in s.rows && id in t.rows
      ensures var r, q := s.rows[id], t.rows[id];
              r == if Lapsed(events, |events|, gap, r.project) && q.ended == None
                   then q.(ended := Some(q.lastActivity)) else q
    {
      var p := if id in s.rows then s.rows[id].project else t.rows[id].project;
      BatchAt(s, events, |events|, gap, p, id);
      BatchAt(t, quiet, |quiet|, gap, p, id);
      OnlyActivitiesSegments(events, gap, p);
      NeverLapses(quiet, |quiet|, gap, p);
      SameRow(s, t, p, Segments(events, |events|, gap, p), Lapsed(events, |events|, gap, p), id);
    }
  }

  lemma QuietIsOrderly(gap: int, events: seq<Event>)
    requires Orderly(events)
    ensures var quiet := OnlyActivities(events, |events|);
            Orderly(quiet) && Possible(gap, quiet) && forall i :: 0 <= i < |quiet| ==> quiet[i].Activity?
  {
    hide Run;
    var quiet := OnlyActivities(events, |events|);
    OnlyActivitiesOrderly(events, |events|);
    assert forall i :: 0 <= i < |quiet| ==> quiet[i] in quiet;
  }

  /** What the batch reading says of one project and one id. */
  lemma BatchAt(s: State, events: seq<Event>, n: nat, gap: int, p: string, id: string)
    requires n <= |events| && IsBatch(s, events, n, gap)
    ensures Holds(s, p, Segments(events, n, gap, p), Lapsed(events, n, gap, p))
    ensures id in s.rows && s.rows[id].project == p ==> IsSegment(Segments(events, n, gap, p), id)
  {
    hide Holds, Segments, Lapsed, IsSegment;
  }

  lemma {:induction false} SameRow(s: State, t: State, p: string, b: seq<Segment>, lapsed: bool, id: string)
    requires Holds(s, p, b, lapsed) && Holds(t, p, b, false) && IsSegment(b, id)
    ensures id in s.rows && id in t.rows
    ensures var r, q := s.rows[id], t.rows[id];
            r.project == p && r == if lapsed && q.ended == None then q.(ended := Some(q.lastActivity)) else q
  {
    var k :| 0 <= k < |b| && b[k].id == id;
    assert s.rows[id] == RowOf(b, p, lapsed, k) && t.rows[id] == RowOf(b, p, false, k);
  }

  ghost function Total(b: seq<Segment>): nat {
    if b == [] then 0 else Total(b[..|b| - 1]) + b[|b| - 1].commands
  }

  lemma TotalSnoc(b: seq<Segment>, x: Segment)
    ensures Total(b + [x]) == Total(b) + x.commands
  {
    assert (b + [x])[..|b|] == b;
  }

  lemma TotalLast(b: seq<Segment>)
    requires b != []
    ensures Total(b) == Total(b[..|b| - 1]) + b[|b| - 1].commands
  {
  }

  lemma {:induction false} OneMoreCommand(a: seq<Act>, gap: int, x: Act)
    ensures Total(Batch(a + [x], gap)) == Total(Batch(a, gap)) + Count(x.isCommand)
  {
    hide Batch, Breaks, Nth, Total;
    BatchSnoc(a, gap, x);
    var b, b' := Batch(a, gap), Batch(a + [x], gap);
    if a == [] || x.ts - a[|a| - 1].ts > gap {
      TotalSnoc(b, b'[|b|]);
    } else {
      TotalLast(b);
      TotalSnoc(b[..|b| - 1], b'[|b| - 1]);
    }
  }

  lemma {:induction false} TotalIsCommands(a: seq<Act>, gap: int)
    ensures Total(Batch(a, gap)) == Commands(a)
  {
    if a == [] {
    } else {
      hide Batch, Breaks, Total;
      var init, x := a[..|a| - 1], a[|a| - 1];
      TotalIsCommands(init, gap);
      OneMoreCommand(init, gap, x);
      assert a == init + [x];
    }
  }

  /** The cuts of a segment: its start follows a silence longer than the gap, its inside never does,
      and it ends at the next such silence or with the last activity. */
  lemma {:induction false} SegmentIsMaximal(a: seq<Act>, gap: int, k: nat)
    requires k < |Batch(a, gap)|
    ensures var i, j := Breaks(a, gap)[k], EndOf(a, gap, k);
            && i < j <= |a| && Batch(a, gap)[k] == Summary(a, i, j)
            && Break(a, gap, i)
            && (forall m :: i < m < j ==> a[m].ts - a[m - 1].ts <= gap)
            && (j < |a| ==> a[j].ts - a[j - 1].ts > gap)
  {
    BreaksExact(a, gap);
    EndsAfter(a, gap, k);
    var r := Breaks(a, gap);
    var i, j := r[k], EndOf(a, gap, k);
    assert i in r;
    forall l | 0 <= l < |r| ensures r[l] <= i || r[l] >= j {}
    forall m | i < m < j ensures a[m].ts - a[m - 1].ts <= gap {
      assert m !in r;
      assert !Break(a, gap, m);
    }
    if j < |a| { assert j in r; }
  }

  // ---------------------------------------------------------------- rows in terms of the activities

  /** The indices in i..j of command activities. */
  ghost function CommandsIn(a: seq<Act>, i: nat, j: nat): set<int>
    requires i <= j <= |a|
  {
    set k | i <= k < j && a[k].isCommand
  }

  lemma OneMoreIndex(a: seq<Act>, i: nat, j: nat)
    requires i < j <= |a|
    ensures |CommandsIn(a, i, j)| == |CommandsIn(a, i, j - 1)| + if a[j - 1].isCommand then 1 else 0
  {
    assert CommandsIn(a, i, j) == CommandsIn(a, i, j - 1) + if a[j - 1].isCommand then {j - 1} else {};
  }

  lemma {:induction false} CountIndices(a: seq<Act>, i: nat, j: nat)
    requires i <= j <= |a|
    ensures Commands(a[i..j]) == |CommandsIn(a, i, j)|
  {
    if i == j {
      assert a[i..j] == [] && CommandsIn(a, i, j) == {};
    } else {
      hide CommandsIn, Commands;
      CountIndices(a, i, j - 1);
      OneMoreIndex(a, i, j);
      CommandsSnoc(a[i..j - 1], a[j - 1]);
      assert a[i..j] == a[i..j - 1] + [a[j - 1]];
    }
  }

  lemma CountRange(a: seq<Act>, i: nat, j: nat)
    requires i <= j <= |a|
    ensures Commands(a[i..j]) == |set k | i <= k < j && a[k].isCommand|
  {
    hide Commands;
    CountIndices(a, i, j);
  }

  /** `Commands` is the number of command activities. */
  lemma CommandsAreCounted(a: seq<Act>)
    ensures Commands(a) == |set k | 0 <= k < |a| && a[k].isCommand|
  {
    CountRange(a, 0, |a|);
    assert a[0..|a|] == a;
  }

  /** No command is lost or counted twice by the cutting. */
  lemma CommandsConserved(a: seq<Act>, gap: int)
    ensures Total(Batch(a, gap)) == |set k | 0 <= k < |a| && a[k].isCommand|
  {
    hide Batch, Commands, Total;
    TotalIsCommands(a, gap);
    CommandsAreCounted(a);
  }

  /** The activities i..j follow each other within the gap and nothing can be added at either end. */
  ghost predicate IsMaximalRun(a: seq<Act>, gap: int, i: int, j: int) {
    && 0 <= i < j <= |a|
    && (i > 0 ==> a[i].ts - a[i - 1].ts > gap)
    && (forall m :: i < m < j ==> a[m].ts - a[m - 1].ts <= gap)
    && (j < |a| ==> a[j].ts - a[j - 1].ts > gap)
  }

  /** What a session row must say of its run; only a run still going on has no end. */
  ghost predicate RowShows(row: Session, p: string, a: seq<Act>, i: int, j: int, lapsed: bool)
    requires 0 <= i < j <= |a|
  {
    && row.id == a[i].id && row.project == p
    && row.started == a[i].ts && row.lastActivity == a[j - 1].ts
    && row.commands == |set k | i <= k < j && a[k].isCommand|
    && row.ended == if j == |a| && !lapsed then None else Some(a[j - 1].ts)
  }

  /** The k-th segment is a maximal run and its row says so. */
  lemma SegmentRow(s: State, p: string, a: seq<Act>, gap: int, lapsed: bool, k: nat)
    requires k < |Breaks(a, gap)| && Holds(s, p, Batch(a, gap), lapsed)
    ensures var i, j := Breaks(a, gap)[k], EndOf(a, gap, k);
            && IsMaximalRun(a, gap, i, j)
            && a[i].id == Batch(a, gap)[k].id && a[i].id in s.rows && RowShows(s.rows[a[i].id], p, a, i, j, lapsed)
  {
    SegmentIsMaximal(a, gap, k);
    var i, j := Breaks(a, gap)[k], EndOf(a, gap, k);
    CountRange(a, i, j);
    assert j == |a| <==> k + 1 == |Breaks(a, gap)| by { EndIsLast(a, gap, k); }
    hide Breaks, EndOf, Commands;
    assert s.rows[Batch(a, gap)[k].id] == RowOf(Batch(a, gap), p, lapsed, k);
  }

  lemma EndIsLast(a: seq<Act>, gap: int, k: nat)
    requires k < |Breaks(a, gap)|
    ensures EndOf(a, gap, k) == |a| <==> k + 1 == |Breaks(a, gap)|
  {
    BreaksExact(a, gap);
  }

  lemma RunEnds(a: seq<Act>, gap: int, i: int, j: int, m: int)
    requires IsMaximalRun(a, gap, i, j) && IsMaximalRun(a, gap, i, m)
    ensures j == m
  {
  }

  /** Every maximal run of a project's activities has its row, after every orderly run. */
  lemma RunsHaveRows(gap: int, events: seq<Event>, n: nat, p: string, i: int, j: int)
    requires Orderly(events) && Possible(gap, events) && n <= |events|
    requires IsMaximalRun(Acts(events, n, p), gap, i, j)
    ensures var a, rows := Acts(events, n, p), Run(gap, events, n).rows;
            a[i].id in rows && RowShows(rows[a[i].id], p, a, i, j, Lapsed(events, n, gap, p))
  {
    hide Run, Orderly, Possible, RowShows, Lapsed, IsBatch;
    var a := Acts(events, n, p);
    SessionsAreMaximalRuns(gap, events, n);
    BatchAt(Run(gap, events, n), events, n, gap, p, "");
    BreaksExact(a, gap);
    assert Break(a, gap, i);
    var k :| 0 <= k < |Breaks(a, gap)| && Breaks(a, gap)[k] == i;
    hide Holds, Breaks, Acts;
    SegmentRow(Run(gap, events, n), p, a, gap, Lapsed(events, n, gap, p), k);
    RunEnds(a, gap, i, j, EndOf(a, gap, k));
  }

  /** And every row is the row of such a run. */
  lemma RowsAreRuns(gap: int, events: seq<Event>, n: nat, id: string) returns (i: int, j: int)
    requires Orderly(events) && Possible(gap, events) && n <= |events| && id in Run(gap, events, n).rows
    ensures var row := Run(gap, events, n).rows[id];
            var a := Acts(events, n, row.project);
            && IsMaximalRun(a, gap, i, j) && a[i].id == id
            && RowShows(row, row.project, a, i, j, Lapsed(events, n, gap, row.project))
  {
    hide Run, Orderly, Possible, RowShows, Lapsed, IsBatch, Acts;
    var s := Run(gap, events, n);
    var p := s.rows[id].project;
    var a := Acts(events, n, p);
    SessionsAreMaximalRuns(gap, events, n);
    BatchAt(s, events, n, gap, p, id);
    var k: nat :| 0 <= k < |Batch(a, gap)| && Batch(a, gap)[k].id == id;
    hide Holds, Breaks;
    SegmentRow(s, p, a, gap, Lapsed(events, n, gap, p), k);
    i, j := Breaks(a, gap)[k], EndOf(a, gap, k);
  }

  // ---------------------------------------------------------------- runs with crashes

  /** An event carried out, or one cut short by a crash after its first `done` updates, the daemon then
      coming back with the open rows of the table as it found it. */
  datatype Life =
    | Went(event: Event)
    | CrashedActivity(project: string, ts: int, isCommand: bool, id: string, done: nat, listed: seq<Session>)
    | CrashedTick(now: int, order: seq<string>, done: nat, listed: seq<Session>)

  ghost predicate Adopts(s: State, listed: seq<Session>) {
    ListsOpen(s.rows, listed) && s.open == Adopted(map[], listed)
  }

  ghost predicate Lives(s: State, gap: int, l: Life, s': State) {
    match l
    case Went(e) =>
      (e.Activity? ==> e.id !in s.rows) && (e.Restart? ==> ListsOpen(s.rows, e.listed)) && s' == Step(s, gap, e)
    case CrashedActivity(p, ts, cmd, id, done, listed) =>
      var updates := OnActivity(s.open, gap, p, ts, cmd, id).1;
      && id !in s.rows && done <= |updates|
      && s'.rows == ApplyAll(s.rows, updates[..done]) && Adopts(s', listed)
    case CrashedTick(now, order, done, listed) =>
      && StaleOrder(s.open, gap, now, order) && done <= |order|
      && s'.rows == ApplyAll(s.rows, Closings(s.open, order)[..done]) && Adopts(s', listed)
  }

  /** A run from any well-formed table a daemon may find when it first starts. */
  ghost predicate History(gap: int, states: seq<State>, lives: seq<Life>) {
    && |states| == |lives| + 1
    && TableOk(states[0].rows) && (exists listed :: Adopts(states[0], listed))
    && forall i, j :: 0 <= i < |lives| && j == i + 1 ==> Lives(states[i], gap, lives[i], states[j])
  }

  lemma LifeMirrors(s: State, gap: int, l: Life, s': State)
    requires Mirror(s.open, s.rows) && Lives(s, gap, l, s')
    ensures Mirror(s'.open, s'.rows)
  {
    hide Mirror, ListsOpen, Step, ApplyAll, StaleOrder;
    match l {
      case Went(e) => StepMirrors(s, gap, e);
      case CrashedActivity(p, ts, cmd, id, done, listed) =>
        CrashDuringActivity(s.open, s.rows, gap, p, ts, cmd, id, done, listed);
      case CrashedTick(now, order, done, listed) =>
        CrashDuringTick(s.open, s.rows, gap, now, order, done, listed);
    }
  }

  /** From any well-formed table, through any crashes, memory and table agree after every event. */
  lemma {:induction false} CrashesKeepMirror(gap: int, states: seq<State>, lives: seq<Life>, n: nat)
    requires History(gap, states, lives) && n <= |lives|
    ensures Mirror(states[n].open, states[n].rows)
  {
    if n == 0 {
      var listed :| Adopts(states[0], listed);
      AdoptMirrors(states[0].rows, listed);
    } else {
      hide Mirror, Lives, TableOk;
      CrashesKeepMirror(gap, states, lives, n - 1);
      LifeMirrors(states[n - 1], gap, lives[n - 1], states[n]);
    }
  }

  /** What is written about a session that has ended. */
  ghost predicate EndedKept(rows: Rows, rows': Rows) {
    forall id :: id in rows && rows[id].ended.Some? ==> id in rows' && rows'[id] == rows[id]
  }

  /** Updates that open fresh ids and touch or close open rows only. */
  lemma {:induction false} UpdatesKeepEnded(rows: Rows, updates: seq<Update>)
    requires forall i :: 0 <= i < |updates| ==> Spares(rows, updates[i])
    ensures EndedKept(rows, ApplyAll(rows, updates))
    decreases |updates|
  {
    if updates == [] {
    } else {
      var k := |updates| - 1;
      UpdatesKeepEnded(rows, updates[..k]);
      ApplyLast(rows, updates, k);
      assert updates[..k + 1] == updates;
    }
  }

  /** The update leaves every ended row of `rows` alone. */
  ghost predicate Spares(rows: Rows, u: Update) {
    var id := if u.Opened? then u.session.id else u.id;
    id in rows ==> rows[id].ended == None
  }

  lemma ActivitySpares(s: State, gap: int, p: string, ts: int, cmd: bool, id: string)
    requires Mirror(s.open, s.rows) && id !in s.rows
    ensures var updates := OnActivity(s.open, gap, p, ts, cmd, id).1;
            forall i :: 0 <= i < |updates| ==> Spares(s.rows, updates[i])
  {
    if p in s.open { assert IsOpen(s.rows, s.open[p].id); }
  }

  lemma ClosingsSpare(s: State, gap: int, now: int, order: seq<string>)
    requires Mirror(s.open, s.rows) && StaleOrder(s.open, gap, now, order)
    ensures var updates := Closings(s.open, order);
            forall i :: 0 <= i < |updates| ==> Spares(s.rows, updates[i])
  {
    var updates := Closings(s.open, order);
    forall i | 0 <= i < |updates| ensures Spares(s.rows, updates[i]) {
      assert order[i] in order;
      assert IsOpen(s.rows, s.open[order[i]].id);
    }
  }

  lemma LifeKeepsEnded(s: State, gap: int, l: Life, s': State)
    requires Mirror(s.open, s.rows) && Lives(s, gap, l, s')
    ensures EndedKept(s.rows, s'.rows)
  {
    hide Mirror, ListsOpen, ApplyAll, Spares;
    match l {
      case Went(e) =>
        if e.Activity? {
          ActivitySpares(s, gap, e.project, e.ts, e.isCommand, e.id);
          UpdatesKeepEnded(s.rows, OnActivity(s.open, gap, e.project, e.ts, e.isCommand, e.id).1);
        }
      case CrashedActivity(p, ts, cmd, id, done, listed) =>
        ActivitySpares(s, gap, p, ts, cmd, id);
        UpdatesKeepEnded(s.rows, OnActivity(s.open, gap, p, ts, cmd, id).1[..done]);
      case CrashedTick(now, order, done, listed) =>
        ClosingsSpare(s, gap, now, order);
        UpdatesKeepEnded(s.rows, Closings(s.open, order)[..done]);
    }
  }

  /** An ended session is history: no later event, restart or crash rewrites its row. */
  lemma {:induction false} EndedSessionsStay(gap: int, states: seq<State>, lives: seq<Life>, m: nat, n: nat)
    requires History(gap, states, lives) && m <= n <= |lives|
    ensures EndedKept(states[m].rows, states[n].rows)
  {
    if n == m {
    } else {
      hide Lives, Mirror;
      EndedSessionsStay(gap, states, lives, m, n - 1);
      CrashesKeepMirror(gap, states, lives, n - 1);
      LifeKeepsEnded(states[n - 1], gap, lives[n - 1], states[n]);
    }
  }
}
