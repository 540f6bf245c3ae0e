/** The critic's slow tick from the parsed verdict on: evidence filtering, confidence, governor
    admission, the 24-hour evidence dedupe, and the stored pushbacks. */
module Critic {
  import opened Order
  import G = Governor

  const DAY_MS := 86_400_000
  const MIN_CONFIDENCE := 0.6

  // ---------------------------------------------------------------- dedupe key

  function Join(parts: seq<string>, sep: char): string {
    if parts == [] then ""
    else if |parts| == 1 then parts[0]
    else parts[0] + [sep] + Join(parts[1..], sep)
  }

  function DedupeKey(ids: seq<string>): string { Join(Sort(ids, Less), '|') }

  /** Ids the key can tell apart. Observation ids are ULIDs. */
  predicate SeparatorFree(ids: seq<string>) {
    forall i :: 0 <= i < |ids| ==> '|' !in ids[i]
  }

  function FirstSeparator(s: string): nat {
    if s == "" || s[0] == '|' then 0 else 1 + FirstSeparator(s[1..])
  }

  lemma {:induction false} FirstSeparatorAt(x: string, u: string)
    requires '|' !in x && (u == "" || u[0] == '|')
    ensures FirstSeparator(x + u) == |x|
  {
    if x == "" {
      assert x + u == u;
    } else {
      assert (x + u)[1..] == x[1..] + u;
      FirstSeparatorAt(x[1..], u);
    }
  }

  lemma SeparatorSplits(x: string, y: string, u: string, v: string)
    requires '|' !in x && '|' !in y
    requires (u == "" || u[0] == '|') && (v == "" || v[0] == '|')
    requires x + u == y + v
    ensures x == y && u == v
  {
    FirstSeparatorAt(x, u);
    FirstSeparatorAt(y, v);
    assert x == (x + u)[..|x|] && u == (x + u)[|x|..];
    assert y == (y + v)[..|y|] && v == (y + v)[|y|..];
  }

  function Tail(parts: seq<string>): string
    requires parts != []
  {
    if |parts| == 1 then "" else ['|'] + Join(parts[1..], '|')
  }

  lemma JoinSplits(parts: seq<string>)
    requires parts != []
    ensures Join(parts, '|') == parts[0] + Tail(parts)
  {
    if |parts| > 1 {
      assert parts[0] + ['|'] + Join(parts[1..], '|') == parts[0] + (['|'] + Join(parts[1..], '|'));
    } else {
      assert parts[0] + "" == parts[0];
    }
  }

  lemma HeadsAgree(a: seq<string>, b: seq<string>)
    requires a != [] && b != [] && SeparatorFree(a) && SeparatorFree(b) && Join(a, '|') == Join(b, '|')
    ensures a[0] == b[0] && Tail(a) == Tail(b)
  {
    JoinSplits(a);
    JoinSplits(b);
    SeparatorSplits(a[0], b[0], Tail(a), Tail(b));
  }

  lemma {:induction false} JoinInjective(a: seq<string>, b: seq<string>)
    requires a != [] && b != [] && SeparatorFree(a) && SeparatorFree(b) && Join(a, '|') == Join(b, '|')
    ensures a == b
  {
    HeadsAgree(a, b);
    if |a| > 1 && |b| > 1 {
      var u, v := Join(a[1..], '|'), Join(b[1..], '|');
      assert u == (['|'] + u)[1..] && v == (['|'] + v)[1..];
      JoinInjective(a[1..], b[1..]);
    }
    assert a == [a[0]] + a[1..] && b == [b[0]] + b[1..];
  }

  lemma JoinEmpty(ids: seq<string>)
    requires SeparatorFree(ids)
    ensures Join(ids, '|') == "" <==> ids == [] || ids == [""]
  {
    if |ids| > 1 { JoinSplits(ids); }
  }

  lemma SortKeepsSeparatorFree(ids: seq<string>)
    requires SeparatorFree(ids)
    ensures SeparatorFree(Sort(ids, Less))
  {
    var s := Sort(ids, Less);
    forall i | 0 <= i < |s| ensures '|' !in s[i] {
      SortIn(ids, Less);
      assert s[i] in ids;
    }
  }

  lemma SortShort(ids: seq<string>)
    ensures Sort(ids, Less) == [] <==> ids == []
    ensures Sort(ids, Less) == [""] <==> ids == [""]
  {
    if |ids| == 1 { assert Sort(ids, Less) == ids; }
  }

  /** Equal multisets have equal keys, whatever characters the ids contain. */
  lemma SameEvidenceSameKey(a: seq<string>, b: seq<string>)
    requires multiset(a) == multiset(b)
    ensures DedupeKey(a) == DedupeKey(b)
  {
    LessIsTotal();
    SortSorts(a, Less);
    SortSorts(b, Less);
    SortedIsUnique(Sort(a, Less), Sort(b, Less), Less);
  }

  /** The one pair of separator-free lists the key confuses: no evidence, and one empty id. */
  predicate NothingAndBlank(a: seq<string>, b: seq<string>) {
    (a == [] && b == [""]) || (a == [""] && b == [])
  }

  /** Without separators the key names the multiset, up to that pair; so it does for all evidence
      that is not empty. */
  lemma KeyIsMultiset(a: seq<string>, b: seq<string>)
    requires SeparatorFree(a) && SeparatorFree(b)
    ensures DedupeKey(a) == DedupeKey(b) <==> multiset(a) == multiset(b) || NothingAndBlank(a, b)
  {
    if multiset(a) == multiset(b) {
      SameEvidenceSameKey(a, b);
    } else {
      var s, t := Sort(a, Less), Sort(b, Less);
      SortShort(a);
      SortShort(b);
      SortKeepsSeparatorFree(a);
      SortKeepsSeparatorFree(b);
      JoinEmpty(s);
      JoinEmpty(t);
      if DedupeKey(a) == DedupeKey(b) && a != [] && b != [] { JoinInjective(s, t); }
    }
  }

  /** With separators the key is ambiguous for evidence that is not empty, too. */
  lemma KeyCollision()
    ensures DedupeKey(["a|b"]) == DedupeKey(["a", "b"]) && multiset(["a|b"]) != multiset(["a", "b"])
    ensures DedupeKey([""]) == DedupeKey([])
  {
    var one, two := ["a|b"], ["a", "b"];
    assert Sort(two[1..], Less) == ["b"];
    assert Sort(two, Less) == two;
    assert Join(two, '|') == "a" + ['|'] + Join(two[1..], '|');
    assert Sort(one, Less) == one;
    assert "a|b" in multiset(one) && "a|b" !in multiset(two);
  }

  // ---------------------------------------------------------------- one tick

  datatype Row = Row(ts: int, evidence: seq<string>, confidence: real, shown: bool)

  datatype Verdict = NoPushback | Pushback(evidence: seq<string>, confidence: real)

  /** One tick: `now` is read when it starts, `stored` when its row is inserted. */
  datatype Tick = Tick(now: int, stored: int, digest: set<string>, verdict: Verdict)

  /** A critic speaks in one mode for as long as it lives. */
  datatype State = State(mode: string, gov: G.State, rows: seq<Row>)

  function Valid(evidence: seq<string>, digest: set<string>): (r: seq<string>)
    ensures forall x :: x in r <==> x in evidence && x in digest
  {
    if evidence == [] then []
    else
      var rest := Valid(evidence[..|evidence| - 1], digest);
      if evidence[|evidence| - 1] in digest then rest + [evidence[|evidence| - 1]] else rest
  }

  predicate Recent(row: Row, ids: seq<string>, since: int) {
    row.ts >= since && DedupeKey(row.evidence) == DedupeKey(ids)
  }

  predicate IsDupe(rows: seq<Row>, ids: seq<string>, since: int) {
    exists i :: 0 <= i < |rows| && Recent(rows[i], ids, since)
  }

  /** Does this tick reach the governor at all? */
  predicate Asks(t: Tick) {
    t.verdict.Pushback? && Valid(t.verdict.evidence, t.digest) != [] && t.verdict.confidence >= MIN_CONFIDENCE
  }

  predicate Shows(s: State, t: Tick)
    requires G.StateOk(s.gov)
  {
    && Asks(t)
    && G.Admit(s.gov, s.mode, t.now).1
    && !IsDupe(s.rows, Valid(t.verdict.evidence, t.digest), t.now - DAY_MS)
  }

  function Step(s: State, t: Tick): (s': State)
    requires G.StateOk(s.gov)
    ensures G.StateOk(s'.gov) && s'.mode == s.mode
  {
    if t.verdict.NoPushback? then s
    else
      var ids := Valid(t.verdict.evidence, t.digest);
      if ids == [] then s
      else if t.verdict.confidence < MIN_CONFIDENCE then
        s.(rows := s.rows + [Row(t.stored, ids, t.verdict.confidence, false)])
      else
        var (gov, ok) := G.Admit(s.gov, s.mode, t.now);
        if !ok then s.(gov := gov, rows := s.rows + [Row(t.stored, ids, t.verdict.confidence, false)])
        else if IsDupe(s.rows, ids, t.now - DAY_MS) then s.(gov := gov)
        else s.(gov := gov, rows := s.rows + [Row(t.stored, ids, t.verdict.confidence, true)])
  }

  class Critic {
    const mode: string
    const governor: G.Governor
    var rows: seq<Row>

    /** A daemon start: the mentor, with a new governor over the rows already stored. */
    constructor (rows: seq<Row>)
      ensures governor.Valid() && fresh(governor)
      ensures fresh(governor.mentor) && fresh(governor.chaos) && fresh(governor.quiet)
      ensures Value() == State("mentor", G.INITIAL, rows)
    {
      this.mode, this.rows := "mentor", rows;
      this.governor := new G.Governor();
    }

    ghost function Value(): State
      reads this, governor, governor.mentor, governor.chaos, governor.quiet
    {
      State(mode, governor.Value(), rows)
    }

    method KeepValid(evidence: seq<string>, digest: set<string>) returns (valid: seq<string>)
      ensures valid == Valid(evidence, digest)
    {
      valid := [];
      for i := 0 to |evidence|
        invariant valid == Valid(evidence[..i], digest)
      {
        assert evidence[..i + 1][..i] == evidence[..i];
        if evidence[i] in digest { valid := valid + [evidence[i]]; }
      }
      assert evidence[..|evidence|] == evidence;
    }

    method FindDupe(ids: seq<string>, since: int) returns (found: bool)
      ensures found == IsDupe(rows, ids, since)
    {
      var key := DedupeKey(ids);
      for i := 0 to |rows|
        invariant forall j :: 0 <= j < i ==> !Recent(rows[j], ids, since)
      {
        if rows[i].ts >= since && DedupeKey(rows[i].evidence) == key {
          assert Recent(rows[i], ids, since);
          return true;
        }
      }
      return false;
    }

    method SlowTick(t: Tick) returns (shown: bool)
      requires governor.Valid()
      modifies this, governor, governor.mentor, governor.chaos, governor.quiet
      ensures governor.Valid()
      ensures Value() == Step(old(Value()), t)
      ensures shown == Shows(old(Value()), t)
    {
      if t.verdict.NoPushback? { return false; }
      var ids := KeepValid(t.verdict.evidence, t.digest);
      if ids == [] { return false; }
      if t.verdict.confidence < MIN_CONFIDENCE {
        rows := rows + [Row(t.stored, ids, t.verdict.confidence, false)];
        return false;
      }
      var admitted := governor.AdmitCall(mode, t.now);
      if !admitted {
        rows := rows + [Row(t.stored, ids, t.verdict.confidence, false)];
        return false;
      }
      var dupe := FindDupe(ids, t.now - DAY_MS);
      if dupe { return false; }
      rows := rows + [Row(t.stored, ids, t.verdict.confidence, true)];
      return true;
    }
  }

  // ---------------------------------------------------------------- runs

  /** A sequential run: each tick starts no earlier than the previous one stored its row. */
  ghost predicate Timed(ticks: seq<Tick>, start: int) {
    && (forall i :: 0 <= i < |ticks| ==> start <= ticks[i].now <= ticks[i].stored)
    && (forall i, j :: 0 <= i < j < |ticks| ==> ticks[i].stored <= ticks[j].now)
  }

  /** The state after the first `n` ticks. */
  ghost function Run(s: State, ticks: seq<Tick>, n: nat): (s': State)
    requires G.StateOk(s.gov) && n <= |ticks|
    ensures G.StateOk(s'.gov) && s'.mode == s.mode
  {
    if n == 0 then s else Step(Run(s, ticks, n - 1), ticks[n - 1])
  }

  ghost predicate Repeats(earlier: Row, later: Row) {
    later.shown && multiset(earlier.evidence) == multiset(later.evidence) && later.ts - earlier.ts <= DAY_MS
  }

  /** No shown row follows a stored row with the same evidence by 24 hours or less. */
  ghost predicate NoRepeat(rows: seq<Row>, now: int) {
    && (forall i :: 0 <= i < |rows| ==> rows[i].ts <= now)
    && (forall i, j :: 0 <= i < j < |rows| ==> !Repeats(rows[i], rows[j]))
  }

  lemma StepNoRepeat(s: State, t: Tick, before: int)
    requires G.StateOk(s.gov) && NoRepeat(s.rows, before) && before <= t.now <= t.stored
    ensures NoRepeat(Step(s, t).rows, t.stored)
  {
    hide G.Admit, DedupeKey;
    var rows' := Step(s, t).rows;
    if Shows(s, t) {
      var ids := Valid(t.verdict.evidence, t.digest);
      forall i | 0 <= i < |s.rows| ensures !Repeats(s.rows[i], rows'[|s.rows|]) {
        assert !Recent(s.rows[i], ids, t.now - DAY_MS);
        if multiset(s.rows[i].evidence) == multiset(ids) { SameEvidenceSameKey(s.rows[i].evidence, ids); }
      }
    }
  }

  /** Over every run, from any store that already has the property (so across restarts too). */
  lemma {:induction false} NoRepeatWithin24h(s: State, ticks: seq<Tick>, n: nat, start: int)
    requires G.StateOk(s.gov) && NoRepeat(s.rows, start) && Timed(ticks, start) && n <= |ticks|
    ensures NoRepeat(Run(s, ticks, n).rows, if n == 0 then start else ticks[n - 1].stored)
  {
    hide Step, NoRepeat, G.StateOk;
    if n == 0 {
    } else {
      NoRepeatWithin24h(s, ticks, n - 1, start);
      StepNoRepeat(Run(s, ticks, n - 1), ticks[n - 1], if n == 1 then start else ticks[n - 2].stored);
    }
  }

  /** Without separators in ids a tick that is admitted is shown exactly when no row of the last 24 hours
      has its evidence (or, against one blank id, no evidence, which no tick ever stores). */
  lemma ShownIff(s: State, t: Tick)
    requires G.StateOk(s.gov) && Asks(t) && G.Admit(s.gov, s.mode, t.now).1
    requires SeparatorFree(Valid(t.verdict.evidence, t.digest))
    requires forall i :: 0 <= i < |s.rows| ==> SeparatorFree(s.rows[i].evidence)
    ensures var ids := Valid(t.verdict.evidence, t.digest);
            Shows(s, t) <==>
              forall i :: 0 <= i < |s.rows| && s.rows[i].ts >= t.now - DAY_MS ==>
                multiset(s.rows[i].evidence) != multiset(ids) && !NothingAndBlank(s.rows[i].evidence, ids)
  {
    hide DedupeKey;
    var ids := Valid(t.verdict.evidence, t.digest);
    forall i | 0 <= i < |s.rows|
      ensures Recent(s.rows[i], ids, t.now - DAY_MS) <==>
              && s.rows[i].ts >= t.now - DAY_MS
              && (multiset(s.rows[i].evidence) == multiset(ids) || NothingAndBlank(s.rows[i].evidence, ids))
    {
      KeyIsMultiset(s.rows[i].evidence, ids);
    }
  }

  ghost predicate Grounded(row: Row, t: Tick) {
    && row.shown && row.ts == t.stored && row.confidence >= MIN_CONFIDENCE
    && row.evidence != [] && (forall x :: x in row.evidence ==> x in t.digest)
  }

  /** Governor calls made by the first `n` ticks. */
  ghost function Calls(mode: string, ticks: seq<Tick>, n: nat): seq<G.Call>
    requires n <= |ticks|
  {
    if n == 0 then []
    else Calls(mode, ticks, n - 1) + if Asks(ticks[n - 1]) then [G.Call(mode, ticks[n - 1].now)] else []
  }

  /** The ticks among the first `n` that showed a pushback. */
  ghost function Showing(s: State, ticks: seq<Tick>, n: nat): seq<Tick>
    requires G.StateOk(s.gov) && n <= |ticks|
  {
    if n == 0 then []
    else Showing(s, ticks, n - 1) + if Shows(Run(s, ticks, n - 1), ticks[n - 1]) then [ticks[n - 1]] else []
  }

  function ShownRows(rows: seq<Row>): seq<Row> {
    if rows == [] then []
    else ShownRows(rows[..|rows| - 1]) + if rows[|rows| - 1].shown then [rows[|rows| - 1]] else []
  }

  /** A tick adds at most one shown row, exactly when it shows, and that row is grounded. */
  lemma StepShows(s: State, t: Tick)
    requires G.StateOk(s.gov)
    ensures if Shows(s, t) then
              exists r :: Grounded(r, t) && ShownRows(Step(s, t).rows) == ShownRows(s.rows) + [r]
            else ShownRows(Step(s, t).rows) == ShownRows(s.rows)
  {
    if Step(s, t).rows != s.rows {
      var r := Step(s, t).rows[|s.rows|];
      assert Step(s, t).rows == s.rows + [r];
      assert (s.rows + [r])[..|s.rows|] == s.rows;
      if Shows(s, t) { assert Grounded(r, t); } else { assert ShownRows(s.rows) + [] == ShownRows(s.rows); }
    }
  }

  /** From any store, restarts included, a run keeps the shown rows it found and adds, one for one, a
      row grounded in each tick that showed. */
  lemma {:induction false} ShownRowsAreGrounded(s: State, ticks: seq<Tick>, n: nat)
    requires G.StateOk(s.gov) && n <= |ticks|
    ensures var found, now, showing := ShownRows(s.rows), ShownRows(Run(s, ticks, n).rows), Showing(s, ticks, n);
            && found <= now && |now| == |found| + |showing|
            && forall i :: 0 <= i < |showing| ==> Grounded(now[|found| + i], showing[i])
  {
    hide Step, Shows, Grounded, ShownRows, G.StateOk;
    if n == 0 {
    } else {
      ShownRowsAreGrounded(s, ticks, n - 1);
      StepShows(Run(s, ticks, n - 1), ticks[n - 1]);
    }
  }

  lemma {:induction false} CallsTimed(mode: string, ticks: seq<Tick>, n: nat, start: int)
    requires Timed(ticks, start) && n <= |ticks|
    ensures var calls := Calls(mode, ticks, n);
            && G.NonDecreasing(calls) && G.OneMode(calls, mode)
            && (n > 0 ==> forall i :: 0 <= i < |calls| ==> calls[i].now <= ticks[n - 1].now)
  {
    hide Asks;
    if n == 0 {
    } else {
      CallsTimed(mode, ticks, n - 1, start);
    }
  }

  ghost function StartsIn(ticks: seq<Tick>, lo: int, hi: int): nat {
    if ticks == [] then 0
    else StartsIn(ticks[..|ticks| - 1], lo, hi) + if lo < ticks[|ticks| - 1].now <= hi then 1 else 0
  }

  lemma StartsSnoc(ticks: seq<Tick>, t: Tick, lo: int, hi: int)
    ensures StartsIn(ticks + [t], lo, hi) == StartsIn(ticks, lo, hi) + if lo < t.now <= hi then 1 else 0
  {
    assert (ticks + [t])[..|ticks|] == ticks;
  }

  lemma StepAdmits(s: State, t: Tick)
    requires G.StateOk(s.gov)
    ensures Step(s, t).gov == if Asks(t) then G.Admit(s.gov, s.mode, t.now).0 else s.gov
    ensures Shows(s, t) ==> Asks(t) && G.Admit(s.gov, s.mode, t.now).1
  {
    hide G.Admit, IsDupe;
  }

  /** Each shown pushback spends its own admission. */
  lemma {:induction false} ShowingIsAdmitted(s: State, ticks: seq<Tick>, n: nat, lo: int, hi: int)
    requires s.gov == G.INITIAL && G.StateOk(s.gov) && n <= |ticks|
    ensures var calls := Calls(s.mode, ticks, n);
            && Run(s, ticks, n).gov == G.After(calls, |calls|)
            && StartsIn(Showing(s, ticks, n), lo, hi) <= G.CountAdmitted(calls, |calls|, lo, hi)
  {
    hide Step, Shows, Asks, G.Admit, StartsIn, G.StateOk;
    if n == 0 {
      NothingStarts(lo, hi);
    } else {
      var calls, t, shown := Calls(s.mode, ticks, n - 1), ticks[n - 1], Showing(s, ticks, n - 1);
      ShowingIsAdmitted(s, ticks, n - 1, lo, hi);
      StepAdmits(Run(s, ticks, n - 1), t);
      StartsSnoc(shown, t, lo, hi);
      G.CountSnoc(calls, G.Call(s.mode, t.now), lo, hi);
      G.DecisionsSnoc(calls, G.Call(s.mode, t.now));
      assert shown + [] == shown && calls + [] == calls;
    }
  }

  lemma NothingStarts(lo: int, hi: int)
    ensures StartsIn([], lo, hi) == 0
  {
  }

  /** The rate at which one process shows pushbacks: in any closed interval at most what its bucket
      holds when full plus what it accrues. */
  lemma ShownRate(s: State, ticks: seq<Tick>, start: int, lo: int, hi: int)
    requires s.gov == G.INITIAL && G.StateOk(s.gov) && Timed(ticks, start) && lo <= hi
    ensures var name := G.BucketOf(s.mode);
            StartsIn(Showing(s, ticks, |ticks|), lo - 1, hi) as real
            <= G.Capacity(name) + G.Accrued(hi - lo, G.RefillMs(name))
  {
    hide G.Admitted, G.Accrued, G.CountBy;
    var calls := Calls(s.mode, ticks, |ticks|);
    CallsTimed(s.mode, ticks, |ticks|, start);
    ShowingIsAdmitted(s, ticks, |ticks|, lo - 1, hi);
    G.OneModeCounts(calls, |calls|, s.mode, lo - 1, hi);
    G.BucketRate(calls, |calls|, G.BucketOf(s.mode), lo, hi);
  }

  /** In an hour that is 3 for the mentor, 7 for chaos and 1 for quiet, all under the global cap. */
  lemma ShownPerHour(s: State, ticks: seq<Tick>, start: int, t: int)
    requires s.gov == G.INITIAL && G.StateOk(s.gov) && Timed(ticks, start)
    ensures StartsIn(Showing(s, ticks, |ticks|), t - G.HOUR_MS, t) <= G.HourCap(G.BucketOf(s.mode)) < G.GLOBAL_CAP
  {
    var calls := Calls(s.mode, ticks, |ticks|);
    CallsTimed(s.mode, ticks, |ticks|, start);
    ShowingIsAdmitted(s, ticks, |ticks|, t - G.HOUR_MS, t);
    G.OneModePerHour(calls, |calls|, s.mode, t);
  }

  // ---------------------------------------------------------------- by the time a row is stored

  ghost function StoredIn(ticks: seq<Tick>, lo: int, hi: int): nat {
    if ticks == [] then 0
    else StoredIn(ticks[..|ticks| - 1], lo, hi) + if lo < ticks[|ticks| - 1].stored <= hi then 1 else 0
  }

  lemma {:induction false} NoneStored(ticks: seq<Tick>, lo: int, hi: int)
    requires forall i :: 0 <= i < |ticks| ==> ticks[i].stored <= lo
    ensures StoredIn(ticks, lo, hi) == 0
  {
    if ticks == [] {
    } else {
      NoneStored(ticks[..|ticks| - 1], lo, hi);
    }
  }

  /** Of the ticks stored in an interval only the first can have started before it. */
  lemma {:induction false} StoredAfterStarts(ticks: seq<Tick>, start: int, lo: int, hi: int)
    requires Timed(ticks, start)
    ensures StoredIn(ticks, lo, hi) <= StartsIn(ticks, lo, hi) + 1
  {
    if ticks == [] {
    } else {
      var init, t := ticks[..|ticks| - 1], ticks[|ticks| - 1];
      StoredAfterStarts(init, start, lo, hi);
      if t.now <= lo {
        forall i | 0 <= i < |init| ensures init[i].stored <= lo { assert ticks[i].stored <= t.now; }
        NoneStored(init, lo, hi);
      }
    }
  }

  lemma {:induction false} ShowingTimed(s: State, ticks: seq<Tick>, n: nat, start: int)
    requires G.StateOk(s.gov) && Timed(ticks, start) && n <= |ticks|
    ensures Timed(Showing(s, ticks, n), start)
    ensures n > 0 ==> forall i :: 0 <= i < |Showing(s, ticks, n)| ==>
                        Showing(s, ticks, n)[i].stored <= ticks[n - 1].stored
  {
    hide Shows, G.StateOk;
    if n == 0 {
    } else {
      ShowingTimed(s, ticks, n - 1, start);
    }
  }

  /** By the time on the stored rows it is one more, for the tick already under way. */
  lemma StoredPerHour(s: State, ticks: seq<Tick>, start: int, t: int)
    requires s.gov == G.INITIAL && G.StateOk(s.gov) && Timed(ticks, start)
    ensures StoredIn(Showing(s, ticks, |ticks|), t - G.HOUR_MS, t) <= G.HourCap(G.BucketOf(s.mode)) + 1
  {
    ShownPerHour(s, ticks, start, t);
    ShowingTimed(s, ticks, |ticks|, start);
    StoredAfterStarts(Showing(s, ticks, |ticks|), start, t - G.HOUR_MS, t);
  }

  // ---------------------------------------------------------------- what the table records

  /** `kept` is the evidence whose ids are in the digest, in order, none left out. */
  ghost predicate IsKept(kept: seq<string>, evidence: seq<string>, digest: set<string>) {
    exists at: seq<nat> :: KeptAt(kept, evidence, digest, at)
  }

  ghost predicate KeptAt(kept: seq<string>, evidence: seq<string>, digest: set<string>, at: seq<nat>) {
    && |at| == |kept|
    && (forall i, j :: 0 <= i < j < |at| ==> at[i] < at[j])
    && (forall i :: 0 <= i < |at| ==> at[i] < |evidence| && evidence[at[i]] == kept[i] && kept[i] in digest)
    && (forall j: nat :: j < |evidence| && evidence[j] in digest ==> j in at)
  }

  lemma KeptTakes(kept: seq<string>, init: seq<string>, x: string, digest: set<string>, at: seq<nat>)
    requires KeptAt(kept, init, digest, at) && x in digest
    ensures IsKept(kept + [x], init + [x], digest)
  {
    var n := |init|;
    var evidence, all: seq<nat> := init + [x], at + [n];
    forall j: nat | j < |evidence| && evidence[j] in digest ensures j in all {
      if j < n { assert init[j] in digest && j in at; } else { assert all[|at|] == j; }
    }
    assert KeptAt(kept + [x], evidence, digest, all);
  }

  lemma KeptSkips(kept: seq<string>, init: seq<string>, x: string, digest: set<string>, at: seq<nat>)
    requires KeptAt(kept, init, digest, at) && x !in digest
    ensures IsKept(kept, init + [x], digest)
  {
    var evidence := init + [x];
    forall j: nat | j < |evidence| && evidence[j] in digest ensures j in at {
      if j < |init| { assert init[j] in digest; }
    }
    assert KeptAt(kept, evidence, digest, at);
  }

  lemma {:induction false} ValidIsKept(evidence: seq<string>, digest: set<string>)
    ensures IsKept(Valid(evidence, digest), evidence, digest)
  {
    if evidence == [] {
      assert KeptAt([], [], digest, []);
    } else {
      hide KeptAt;
      var init, x := evidence[..|evidence| - 1], evidence[|evidence| - 1];
      ValidIsKept(init, digest);
      var kept := Valid(init, digest);
      var at: seq<nat> :| KeptAt(kept, init, digest, at);
      assert evidence == init + [x];
      if x in digest {
        KeptTakes(kept, init, x, digest, at);
      } else {
        KeptSkips(kept, init, x, digest, at);
      }
    }
  }

  lemma KeptEndsTaken(kept: seq<string>, init: seq<string>, x: string, digest: set<string>, at: seq<nat>)
    requires KeptAt(kept, init + [x], digest, at) && x in digest
    ensures kept != [] && kept[|kept| - 1] == x && IsKept(kept[..|kept| - 1], init, digest)
  {
    var evidence, n := init + [x], |init|;
    assert evidence[n] in digest && n in at;
    var k :| 0 <= k < |at| && at[k] == n;
    var m := |at| - 1;
    assert at[m] < |evidence|;
    var rest: seq<nat> := at[..k];
    forall j: nat | j < n && init[j] in digest ensures j in rest {
      assert evidence[j] in digest && j in at;
      var l :| 0 <= l < |at| && at[l] == j;
      assert l < k && rest[l] == j;
    }
    forall i | 0 <= i < |rest| ensures rest[i] < n { assert at[i] < at[k]; }
    assert KeptAt(kept[..k], init, digest, rest);
  }

  lemma KeptEndsSkipped(kept: seq<string>, init: seq<string>, x: string, digest: set<string>, at: seq<nat>)
    requires KeptAt(kept, init + [x], digest, at) && x !in digest
    ensures IsKept(kept, init, digest)
  {
    var evidence := init + [x];
    forall i | 0 <= i < |at| ensures at[i] < |init| { assert evidence[at[i]] in digest; }
    forall j: nat | j < |init| && init[j] in digest ensures j in at { assert evidence[j] in digest; }
    assert KeptAt(kept, init, digest, at);
  }

  lemma KeptWithin(kept: seq<string>, evidence: seq<string>, digest: set<string>, at: seq<nat>)
    requires KeptAt(kept, evidence, digest, at)
    ensures |kept| > 0 ==> |evidence| > 0
  {
    if |kept| > 0 { assert at[0] < |evidence|; }
  }

  lemma KeptNothing(kept: seq<string>, digest: set<string>)
    requires IsKept(kept, [], digest)
    ensures kept == []
  {
    var at: seq<nat> :| KeptAt(kept, [], digest, at);
    KeptWithin(kept, [], digest, at);
  }

  lemma KeptEnds(kept: seq<string>, init: seq<string>, x: string, digest: set<string>)
    requires IsKept(kept, init + [x], digest)
    ensures if x in digest then kept != [] && kept[|kept| - 1] == x && IsKept(kept[..|kept| - 1], init, digest)
            else IsKept(kept, init, digest)
  {
    hide KeptAt;
    var at: seq<nat> :| KeptAt(kept, init + [x], digest, at);
    if x in digest {
      KeptEndsTaken(kept, init, x, digest, at);
    } else {
      KeptEndsSkipped(kept, init, x, digest, at);
    }
  }

  lemma ValidSnoc(init: seq<string>, x: string, digest: set<string>)
    ensures Valid(init + [x], digest) == Valid(init, digest) + if x in digest then [x] else []
  {
    assert (init + [x])[..|init|] == init;
    assert Valid(init, digest) + [] == Valid(init, digest);
  }

  lemma {:induction false} KeptIsValid(kept: seq<string>, evidence: seq<string>, digest: set<string>)
    requires IsKept(kept, evidence, digest)
    ensures kept == Valid(evidence, digest)
  {
    hide IsKept;
    if evidence == [] {
      KeptNothing(kept, digest);
    } else {
      hide Valid;
      var init, x := evidence[..|evidence| - 1], evidence[|evidence| - 1];
      assert evidence == init + [x];
      KeptEnds(kept, init, x, digest);
      ValidSnoc(init, x, digest);
      if x in digest {
        KeptIsValid(kept[..|kept| - 1], init, digest);
        assert kept == kept[..|kept| - 1] + [x];
      } else {
        KeptIsValid(kept, init, digest);
      }
    }
  }

  /** The verdict pushes back on evidence the digest contains. */
  ghost predicate Grounds(t: Tick) {
    t.verdict.Pushback? && exists x :: x in t.verdict.evidence && x in t.digest
  }

  /** Some row stored in the 24 hours before the tick, shown or not, has this evidence. */
  ghost predicate SeenToday(rows: seq<Row>, kept: seq<string>, now: int) {
    exists i :: 0 <= i < |rows| && rows[i].ts >= now - 86_400_000 && DedupeKey(rows[i].evidence) == DedupeKey(kept)
  }

  ghost predicate Admitted(s: State, t: Tick)
    requires G.StateOk(s.gov)
  {
    G.Admit(s.gov, s.mode, t.now).1
  }

  /** The tick leaves a row: under 0.6, denied by the governor, or shown. */
  ghost predicate Leaves(s: State, t: Tick, kept: seq<string>)
    requires G.StateOk(s.gov)
  {
    && Grounds(t) && IsKept(kept, t.verdict.evidence, t.digest)
    && (t.verdict.confidence < 0.6 || !Admitted(s, t) || !SeenToday(s.rows, kept, t.now))
  }

  ghost predicate LeavesRow(s: State, t: Tick)
    requires G.StateOk(s.gov)
  {
    exists kept :: Leaves(s, t, kept)
  }

  /** That row: queued in the first two cases, shown in the last. */
  ghost predicate IsRowOf(row: Row, s: State, t: Tick)
    requires G.StateOk(s.gov)
  {
    && Leaves(s, t, row.evidence)
    && row.ts == t.stored && t.verdict.Pushback? && row.confidence == t.verdict.confidence
    && (row.shown <==> t.verdict.confidence >= 0.6 && Admitted(s, t))
  }

  /** What a tick may do to the table and the governor. */
  ghost predicate Records(s: State, t: Tick, s': State)
    requires G.StateOk(s.gov)
  {
    && s'.gov == (if Grounds(t) && t.verdict.confidence >= 0.6 then G.Admit(s.gov, s.mode, t.now).0 else s.gov)
    && if LeavesRow(s, t) then
         |s'.rows| == |s.rows| + 1 && s'.rows[..|s.rows|] == s.rows && IsRowOf(s'.rows[|s.rows|], s, t)
       else s'.rows == s.rows
  }

  lemma KeptOf(s: State, t: Tick, kept: seq<string>)
    requires G.StateOk(s.gov) && Leaves(s, t, kept)
    ensures kept == Valid(t.verdict.evidence, t.digest)
  {
    KeptIsValid(kept, t.verdict.evidence, t.digest);
  }

  lemma GroundsIff(t: Tick)
    requires t.verdict.Pushback?
    ensures Grounds(t) <==> Valid(t.verdict.evidence, t.digest) != []
  {
    var ids := Valid(t.verdict.evidence, t.digest);
    if ids != [] { assert ids[0] in t.verdict.evidence; }
    if Grounds(t) {
      var x :| x in t.verdict.evidence && x in t.digest;
      assert x in ids;
    }
  }

  lemma SeenIff(rows: seq<Row>, kept: seq<string>, now: int)
    ensures SeenToday(rows, kept, now) <==> IsDupe(rows, kept, now - DAY_MS)
  {
    hide DedupeKey;
    if SeenToday(rows, kept, now) {
      var i :| 0 <= i < |rows| && rows[i].ts >= now - 86_400_000 && DedupeKey(rows[i].evidence) == DedupeKey(kept);
      assert Recent(rows[i], kept, now - DAY_MS);
    }
  }

  /** The tick case by case, over the evidence that is in the digest. */
  lemma StepCases(s: State, t: Tick, ids: seq<string>)
    requires G.StateOk(s.gov) && t.verdict.Pushback? && ids == Valid(t.verdict.evidence, t.digest)
    ensures var s', c := Step(s, t), t.verdict.confidence;
            if ids == [] then s' == s
            else if c < 0.6 then s' == s.(rows := s.rows + [Row(t.stored, ids, c, false)])
            else
              && s'.gov == G.Admit(s.gov, s.mode, t.now).0
              && s'.rows == if !Admitted(s, t) then s.rows + [Row(t.stored, ids, c, false)]
                            else if SeenToday(s.rows, ids, t.now) then s.rows
                            else s.rows + [Row(t.stored, ids, c, true)]
  {
    SeenIff(s.rows, ids, t.now);
    hide G.Admit, SeenToday, IsDupe, Valid;
  }

  lemma LeavesIff(s: State, t: Tick)
    requires G.StateOk(s.gov) && t.verdict.Pushback?
    ensures var ids := Valid(t.verdict.evidence, t.digest);
            && (LeavesRow(s, t) <==> Leaves(s, t, ids))
            && (Leaves(s, t, ids) <==>
                  && ids != []
                  && (t.verdict.confidence < 0.6 || !Admitted(s, t) || !SeenToday(s.rows, ids, t.now)))
  {
    hide IsKept, Grounds, SeenToday, Admitted, Valid;
    var ids := Valid(t.verdict.evidence, t.digest);
    GroundsIff(t);
    ValidIsKept(t.verdict.evidence, t.digest);
    if LeavesRow(s, t) {
      var kept :| Leaves(s, t, kept);
      KeptOf(s, t, kept);
    }
  }

  lemma StepRecords(s: State, t: Tick)
    requires G.StateOk(s.gov)
    ensures Records(s, t, Step(s, t))
  {
    if t.verdict.Pushback? {
      var ids := Valid(t.verdict.evidence, t.digest);
      StepCases(s, t, ids);
      LeavesIff(s, t);
      GroundsIff(t);
      hide Step, LeavesRow, Leaves, Grounds, SeenToday, Admitted, Valid;
      assert G.Admit(s.gov, s.mode, t.now).1 == Admitted(s, t) by { AdmittedIs(s, t); }
    }
  }

  lemma AdmittedIs(s: State, t: Tick)
    requires G.StateOk(s.gov)
    ensures Admitted(s, t) == G.Admit(s.gov, s.mode, t.now).1
  {
    hide G.Admit;
  }

  /** Which of the first `n` ticks of a run left a row. */
  ghost function Leaving(s: State, ticks: seq<Tick>, n: nat): (at: seq<nat>)
    requires G.StateOk(s.gov) && n <= |ticks|
    ensures forall k :: 0 <= k < |at| ==> at[k] < n
  {
    if n == 0 then []
    else Leaving(s, ticks, n - 1)
         + if LeavesRow(Run(s, ticks, n - 1), ticks[n - 1]) then [n - 1] else []
  }

  /** Main result: after any run the table is what it was and then, one for one and in order, a row for
      each tick that left one, holding that tick's evidence, confidence and time, queued or shown. */
  lemma {:induction false} TableIsHistory(s: State, ticks: seq<Tick>, n: nat)
    requires G.StateOk(s.gov) && n <= |ticks|
    ensures var rows, at := Run(s, ticks, n).rows, Leaving(s, ticks, n);
            && s.rows <= rows && |rows| == |s.rows| + |at|
            && forall k :: 0 <= k < |at| ==> IsRowOf(rows[|s.rows| + k], Run(s, ticks, at[k]), ticks[at[k]])
  {
    hide Step, IsRowOf, Leaves, G.StateOk;
    if n == 0 {
    } else {
      TableIsHistory(s, ticks, n - 1);
      StepRecords(Run(s, ticks, n - 1), ticks[n - 1]);
    }
  }

  lemma {:induction false} RowsGrow(s: State, ticks: seq<Tick>, m: nat, n: nat)
    requires G.StateOk(s.gov) && m <= n <= |ticks|
    ensures Run(s, ticks, m).rows <= Run(s, ticks, n).rows
  {
    hide Step, IsRowOf, Leaves, G.StateOk;
    if n == m {
    } else {
      RowsGrow(s, ticks, m, n - 1);
      StepRecords(Run(s, ticks, n - 1), ticks[n - 1]);
    }
  }

  /** A queued row silences its evidence too: a tick under 0.6 keeps any tick with the same evidence from
      showing for 24 hours after the row was stored. */
  lemma {:induction false} QueuedBlocks(
    s: State, ticks: seq<Tick>, i: nat, j: nat, early: seq<string>, late: seq<string>)
    requires G.StateOk(s.gov) && i < j < |ticks|
    requires Grounds(ticks[i]) && ticks[i].verdict.confidence < 0.6
    requires IsKept(early, ticks[i].verdict.evidence, ticks[i].digest)
    requires ticks[j].verdict.Pushback? && IsKept(late, ticks[j].verdict.evidence, ticks[j].digest)
    requires multiset(early) == multiset(late) && ticks[j].now - ticks[i].stored <= 86_400_000
    ensures ShownRows(Run(s, ticks, j + 1).rows) == ShownRows(Run(s, ticks, j).rows)
  {
    var before, after := Run(s, ticks, j), Run(s, ticks, j + 1);
    QueuedIsSeen(s, ticks, i, j, early, late);
    StepRecords(before, ticks[j]);
    hide Step, IsKept, SeenToday, Run, Admitted, Grounds;
    if LeavesRow(before, ticks[j]) {
      var row := after.rows[|before.rows|];
      KeptIsValid(late, ticks[j].verdict.evidence, ticks[j].digest);
      KeptOf(before, ticks[j], row.evidence);
      assert after.rows == before.rows + [row] && !row.shown;
      ShownSnoc(before.rows, row);
    }
  }

  lemma ShownSnoc(rows: seq<Row>, row: Row)
    ensures ShownRows(rows + [row]) == ShownRows(rows) + if row.shown then [row] else []
  {
    assert (rows + [row])[..|rows|] == rows;
  }

  lemma {:induction false} QueuedIsSeen(
    s: State, ticks: seq<Tick>, i: nat, j: nat, early: seq<string>, late: seq<string>)
    requires G.StateOk(s.gov) && i < j < |ticks|
    requires Grounds(ticks[i]) && ticks[i].verdict.confidence < 0.6
    requires IsKept(early, ticks[i].verdict.evidence, ticks[i].digest)
    requires multiset(early) == multiset(late) && ticks[j].now - ticks[i].stored <= 86_400_000
    ensures SeenToday(Run(s, ticks, j).rows, late, ticks[j].now)
  {
    hide Step, IsKept, Grounds, DedupeKey, Admitted;
    var at := Run(s, ticks, i);
    StepRecords(at, ticks[i]);
    assert Leaves(at, ticks[i], early);
    var k := |at.rows|;
    var row := Run(s, ticks, i + 1).rows[k];
    KeptIsValid(early, ticks[i].verdict.evidence, ticks[i].digest);
    KeptOf(at, ticks[i], row.evidence);
    RowsGrow(s, ticks, i + 1, j);
    SameEvidenceSameKey(early, late);
    assert Run(s, ticks, j).rows[k] == row;
  }
}
