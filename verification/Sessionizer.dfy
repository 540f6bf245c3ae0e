/** Online grouping of project activity into work sessions separated by silence. */
module Sessionizer {
  import opened Basics

  datatype Open = Open(id: string, lastActivity: int, commands: nat)

  datatype Session = Session(
    id: string, project: string, started: int, lastActivity: int, ended: Option<int>, commands: nat)

  datatype Update =
    | Opened(session: Session)
    | Touched(id: string, lastActivity: int, commands: nat)
    | Closed(id: string, ended: int)

  type OpenMap = map<string, Open>

  function Count(isCommand: bool): nat { if isCommand then 1 else 0 }

  function Fresh(id: string, project: string, ts: int, isCommand: bool): Session {
    Session(id, project, ts, ts, None, Count(isCommand))
  }

  /** One activity: extend the open session, or close it and open a new one named `id`. */
  function OnActivity(open: OpenMap, gap: int, project: string, ts: int, isCommand: bool, id: string)
    : (OpenMap, seq<Update>)
  {
    if project in open && ts - open[project].lastActivity <= gap then
      var o := Open(open[project].id, ts, open[project].commands + Count(isCommand));
      (open[project := o], [Touched(o.id, ts, o.commands)])
    else
      var closing := if project in open then [Closed(open[project].id, open[project].lastActivity)] else [];
      (open[project := Open(id, ts, Count(isCommand))], closing + [Opened(Fresh(id, project, ts, isCommand))])
  }

  predicate Stale(open: OpenMap, gap: int, now: int, project: string) {
    project in open && now - open[project].lastActivity > gap
  }

  function OnTick(open: OpenMap, gap: int, now: int): OpenMap {
    map p | p in open && !Stale(open, gap, now, p) :: open[p]
  }

  /** `order` lists every stale project once; any such order is a possible hash-map iteration. */
  ghost predicate StaleOrder(open: OpenMap, gap: int, now: int, order: seq<string>) {
    && (forall p :: p in order <==> Stale(open, gap, now, p))
    && (forall i, j :: 0 <= i < j < |order| ==> order[i] != order[j])
  }

  function Closings(open: OpenMap, order: seq<string>): seq<Update>
    requires forall p :: p in order ==> p in open
  {
    seq(|order|, i requires 0 <= i < |order| => Closed(open[order[i]].id, open[order[i]].lastActivity))
  }

  /** Sessions re-adopted after a restart; a later entry of a project overwrites an earlier one. */
  function Adopted(open: OpenMap, sessions: seq<Session>): OpenMap {
    if sessions == [] then open
    else
      var ws := sessions[|sessions| - 1];
      Adopted(open, sessions[..|sessions| - 1])[ws.project := Open(ws.id, ws.lastActivity, ws.commands)]
  }

  class Sessionizer {
    const gapMs: int
    var open: OpenMap

    constructor (gapMs: int)
      ensures this.gapMs == gapMs && open == map[]
    {
      this.gapMs, this.open := gapMs, map[];
    }

    method Preload(sessions: seq<Session>)
      modifies this
      ensures open == Adopted(old(open), sessions)
    {
      for k := 0 to |sessions|
        invariant open == Adopted(old(open), sessions[..k])
      {
        var ws := sessions[k];
        assert sessions[..k + 1][..k] == sessions[..k];
        open := open[ws.project := Open(ws.id, ws.lastActivity, ws.commands)];
      }
      assert sessions[..|sessions|] == sessions;
    }

    method Activity(project: string, ts: int, isCommand: bool, id: string) returns (updates: seq<Update>)
      modifies this
      ensures (open, updates) == OnActivity(old(open), gapMs, project, ts, isCommand, id)
    {
      if project in open && ts - open[project].lastActivity <= gapMs {
        var o := open[project];
        o := o.(lastActivity := ts);
        if isCommand { o := o.(commands := o.commands + 1); }
        open := open[project := o];
        updates := [Touched(o.id, o.lastActivity, o.commands)];
      } else {
        updates := [];
        if project in open {
          updates := [Closed(open[project].id, open[project].lastActivity)];
        }
        var ws := Fresh(id, project, ts, isCommand);
        open := open[project := Open(ws.id, ts, ws.commands)];
        updates := updates + [Opened(ws)];
      }
    }

    method Tick(now: int) returns (updates: seq<Update>, ghost order: seq<string>)
      modifies this
      ensures open == OnTick(old(open), gapMs, now)
      ensures StaleOrder(old(open), gapMs, now, order)
      ensures updates == Closings(old(open), order)
    {
      ghost var before := open;
      var stale := set p | p in open && now - open[p].lastActivity > gapMs;
      updates, order := [], [];
      while stale != {}
        invariant forall p :: p in stale ==>
                    Stale(before, gapMs, now, p) && p in open && open[p] == before[p] && p !in order
        invariant forall p :: p in order ==> Stale(before, gapMs, now, p) && p !in open
        invariant forall p :: Stale(before, gapMs, now, p) ==> p in stale || p in order
        invariant forall p :: p in before && p !in order ==> p in open && open[p] == before[p]
        invariant forall p :: p in open ==> p in before
        invariant forall i, j :: 0 <= i < j < |order| ==> order[i] != order[j]
        invariant updates == Closings(before, order)
        decreases stale
      {
        var p :| p in stale;
        stale := stale - {p};
        updates := updates + [Closed(open[p].id, open[p].lastActivity)];
        open := map q | q in open && q != p :: open[q];
        order := order + [p];
      }
    }
  }
}
