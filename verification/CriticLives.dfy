/** Pushbacks across daemon restarts: each process starts with a full governor over the rows stored
    so far, so the hourly cap is a cap per process, and the 24-hour dedupe is not. */
module CriticLives {
  import opened Basics
  import opened Order
  import opened Critic
  import G = Governor

  /** The slow ticks of one process after another. */
  type Processes = seq<seq<Tick>>

  ghost function Restarted(s: State): (s': State)
    ensures G.StateOk(s'.gov)
  {
    s.(gov := G.INITIAL)
  }

  /** The state after the first `n` processes, over a store that held `rows`. */
  ghost function Lived(mode: string, rows: seq<Row>, life: Processes, n: nat): State
    requires n <= |life|
  {
    if n == 0 then State(mode, G.INITIAL, rows)
    else Run(Restarted(Lived(mode, rows, life, n - 1)), life[n - 1], |life[n - 1]|)
  }

  /** The ticks of the first `n` processes in order. */
  ghost function Ticks(life: Processes, n: nat): seq<Tick>
    requires n <= |life|
  {
    if n == 0 then [] else Ticks(life, n - 1) + life[n - 1]
  }

  /** Those of them that showed a pushback. */
  ghost function Shown(mode: string, rows: seq<Row>, life: Processes, n: nat): seq<Tick>
    requires n <= |life|
  {
    if n == 0 then []
    else
      var ticks := life[n - 1];
      Shown(mode, rows, life, n - 1) + Showing(Restarted(Lived(mode, rows, life, n - 1)), ticks, |ticks|)
  }

  /** How many of the first `n` processes started a tick in (lo, hi]. */
  ghost function Active(life: Processes, n: nat, lo: int, hi: int): nat
    requires n <= |life|
  {
    if n == 0 then 0
    else Active(life, n - 1, lo, hi) + if StartsIn(life[n - 1], lo, hi) > 0 then 1 else 0
  }

  lemma {:induction false} LivedMode(mode: string, rows: seq<Row>, life: Processes, n: nat)
    requires n <= |life|
    ensures Lived(mode, rows, life, n).mode == mode
  {
    if n == 0 {
    } else {
      LivedMode(mode, rows, life, n - 1);
    }
  }

  // ---------------------------------------------------------------- time

  lemma TimedSplits(a: seq<Tick>, b: seq<Tick>, start: int)
    requires Timed(a + b, start)
    ensures Timed(a, start) && Timed(b, start)
    ensures forall i, j :: 0 <= i < |a| && 0 <= j < |b| ==> a[i].stored <= b[j].now
  {
    var c := a + b;
    forall i | 0 <= i < |a| ensures c[i] == a[i] {}
    forall j | 0 <= j < |b| ensures c[|a| + j] == b[j] {}
    forall i, j | 0 <= i < |a| && 0 <= j < |b| ensures a[i].stored <= b[j].now {
      assert c[i].stored <= c[|a| + j].now;
    }
    forall i, j | 0 <= i < j < |b| ensures b[i].stored <= b[j].now {
      assert c[|a| + i].stored <= c[|a| + j].now;
    }
  }

  /** When the last of the ticks stored its row. */
  ghost function Last(ticks: seq<Tick>, start: int): int {
    if ticks == [] then start else ticks[|ticks| - 1].stored
  }

  lemma LaterTimed(a: seq<Tick>, b: seq<Tick>, start: int)
    requires Timed(a + b, start)
    ensures Timed(a, start) && Timed(b, Last(a, start)) && start <= Last(a, start)
    ensures Last(a + b, start) == Last(b, Last(a, start))
  {
    TimedSplits(a, b, start);
  }

  // ---------------------------------------------------------------- what restarts do not break

  /** The 24-hour dedupe reads the stored rows, so it holds across any number of restarts. */
  lemma {:induction false} NoRepeatAcrossRestarts(mode: string, rows: seq<Row>, life: Processes, n: nat, start: int)
    requires n <= |life| && NoRepeat(rows, start) && Timed(Ticks(life, n), start)
    ensures NoRepeat(Lived(mode, rows, life, n).rows, Last(Ticks(life, n), start))
  {
    hide NoRepeat, Run, Timed;
    if n == 0 {
    } else {
      var before, ticks := Ticks(life, n - 1), life[n - 1];
      LaterTimed(before, ticks, start);
      NoRepeatAcrossRestarts(mode, rows, life, n - 1, start);
      NoRepeatWithin24h(Restarted(Lived(mode, rows, life, n - 1)), ticks, |ticks|, Last(before, start));
    }
  }

  /** Nor do restarts lose or add a shown row. */
  lemma {:induction false} RowsAcrossRestarts(mode: string, rows: seq<Row>, life: Processes, n: nat)
    requires n <= |life|
    ensures var found, now, shown :=
              ShownRows(rows), ShownRows(Lived(mode, rows, life, n).rows), Shown(mode, rows, life, n);
            && found <= now && |now| == |found| + |shown|
            && forall i :: 0 <= i < |shown| ==> Grounded(now[|found| + i], shown[i])
  {
    hide Run, Showing, ShownRows, Grounded;
    if n == 0 {
    } else {
      RowsAcrossRestarts(mode, rows, life, n - 1);
      var s, ticks := Restarted(Lived(mode, rows, life, n - 1)), life[n - 1];
      ShownRowsAreGrounded(s, ticks, |ticks|);
      var found, mid, now := ShownRows(rows), ShownRows(s.rows), ShownRows(Lived(mode, rows, life, n).rows);
      var before, shown := Shown(mode, rows, life, n - 1), Shown(mode, rows, life, n);
      forall i | 0 <= i < |shown| ensures Grounded(now[|found| + i], shown[i]) {
        if i < |before| {
          assert mid[|found| + i] == now[|found| + i];
        } else {
          assert shown[i] == Showing(s, ticks, |ticks|)[i - |before|];
        }
      }
    }
  }

  // ---------------------------------------------------------------- the cap is per process

  lemma {:induction false} StartsAdd(a: seq<Tick>, b: seq<Tick>, lo: int, hi: int)
    ensures StartsIn(a + b, lo, hi) == StartsIn(a, lo, hi) + StartsIn(b, lo, hi)
  {
    if b == [] {
      assert a + b == a;
    } else {
      var init, t := b[..|b| - 1], b[|b| - 1];
      StartsAdd(a, init, lo, hi);
      StartsSnoc(a + init, t, lo, hi);
      assert a + b == a + init + [t];
    }
  }

  /** The ticks that showed are some of the ticks. */
  lemma {:induction false} ShowingStarts(s: State, ticks: seq<Tick>, n: nat, lo: int, hi: int)
    requires G.StateOk(s.gov) && n <= |ticks|
    ensures StartsIn(Showing(s, ticks, n), lo, hi) <= StartsIn(ticks[..n], lo, hi)
  {
    hide Shows, G.StateOk, StartsIn, Run;
    if n == 0 {
      assert ticks[..0] == [];
    } else {
      ShowingStarts(s, ticks, n - 1, lo, hi);
      var t, shown := ticks[n - 1], Showing(s, ticks, n - 1);
      StartsSnoc(ticks[..n - 1], t, lo, hi);
      StartsSnoc(shown, t, lo, hi);
      assert ticks[..n] == ticks[..n - 1] + [t] && shown + [] == shown;
    }
  }

  lemma ProcessPerHour(s: State, ticks: seq<Tick>, start: int, t: int)
    requires s.gov == G.INITIAL && G.StateOk(s.gov) && Timed(ticks, start)
    ensures StartsIn(Showing(s, ticks, |ticks|), t - G.HOUR_MS, t)
         <= if StartsIn(ticks, t - G.HOUR_MS, t) > 0 then G.HourCap(G.BucketOf(s.mode)) else 0
  {
    ShownPerHour(s, ticks, start, t);
    ShowingStarts(s, ticks, |ticks|, t - G.HOUR_MS, t);
    assert ticks[..|ticks|] == ticks;
  }

  /** Main result: in any hour the pushbacks shown are at most the mode's cap for each process that
      ticked in it, so at most the cap times one more than the number of restarts. */
  lemma {:induction false} ShownAcrossRestarts(
    mode: string, rows: seq<Row>, life: Processes, n: nat, start: int, t: int)
    requires n <= |life| && Timed(Ticks(life, n), start)
    ensures StartsIn(Shown(mode, rows, life, n), t - G.HOUR_MS, t)
         <= Active(life, n, t - G.HOUR_MS, t) * G.HourCap(G.BucketOf(mode))
    ensures Active(life, n, t - G.HOUR_MS, t) <= n
  {
    hide Run, Showing, StartsIn, Timed;
    if n == 0 {
      NothingStarts(t - G.HOUR_MS, t);
    } else {
      var s, ticks := Restarted(Lived(mode, rows, life, n - 1)), life[n - 1];
      LivedMode(mode, rows, life, n - 1);
      TimedSplits(Ticks(life, n - 1), ticks, start);
      ShownAcrossRestarts(mode, rows, life, n - 1, start, t);
      ProcessPerHour(s, ticks, start, t);
      StartsAdd(Shown(mode, rows, life, n - 1), Showing(s, ticks, |ticks|), t - G.HOUR_MS, t);
    }
  }

  lemma {:induction false} ShownTimed(mode: string, rows: seq<Row>, life: Processes, n: nat, start: int)
    requires n <= |life| && Timed(Ticks(life, n), start)
    ensures Timed(Shown(mode, rows, life, n), start)
    ensures forall i :: 0 <= i < |Shown(mode, rows, life, n)| ==>
              Shown(mode, rows, life, n)[i].stored <= Last(Ticks(life, n), start)
  {
    hide Run, Showing;
    if n == 0 {
    } else {
      var s, ticks := Restarted(Lived(mode, rows, life, n - 1)), life[n - 1];
      var before := Ticks(life, n - 1);
      LaterTimed(before, ticks, start);
      ShownTimed(mode, rows, life, n - 1, start);
      ShowingTimed(s, ticks, |ticks|, Last(before, start));
      ShowingEnds(s, ticks, Last(before, start));
      TimedJoins(Shown(mode, rows, life, n - 1), Showing(s, ticks, |ticks|), start, Last(before, start));
    }
  }

  lemma ShowingEnds(s: State, ticks: seq<Tick>, start: int)
    requires G.StateOk(s.gov) && Timed(ticks, start)
    ensures forall i :: 0 <= i < |Showing(s, ticks, |ticks|)| ==>
              Showing(s, ticks, |ticks|)[i].stored <= Last(ticks, start)
  {
    ShowingTimed(s, ticks, |ticks|, start);
  }

  lemma TimedJoins(a: seq<Tick>, b: seq<Tick>, start: int, between: int)
    requires Timed(a, start) && Timed(b, between) && start <= between
    requires forall i :: 0 <= i < |a| ==> a[i].stored <= between
    ensures Timed(a + b, start)
  {
  }

  /** By the time on the stored rows it is one more in all, not one more for each process. */
  lemma StoredAcrossRestarts(mode: string, rows: seq<Row>, life: Processes, start: int, t: int)
    requires Timed(Ticks(life, |life|), start)
    ensures StoredIn(Shown(mode, rows, life, |life|), t - G.HOUR_MS, t)
         <= Active(life, |life|, t - G.HOUR_MS, t) * G.HourCap(G.BucketOf(mode)) + 1
  {
    ShownAcrossRestarts(mode, rows, life, |life|, start, t);
    ShownTimed(mode, rows, life, |life|, start);
    StoredAfterStarts(Shown(mode, rows, life, |life|), start, t - G.HOUR_MS, t);
  }

  // ---------------------------------------------------------------- the bounds are met

  /** Pushback number `i`, over evidence of its own. */
  function Evidence(i: nat): string { seq(i + 1, _ => 'x') }

  function Fresh(i: nat, now: int, stored: int): Tick {
    Tick(now, stored, {Evidence(i)}, Pushback([Evidence(i)], 1.0))
  }

  ghost predicate IsFresh(rows: seq<Row>) {
    forall i :: 0 <= i < |rows| ==> rows[i].evidence == [Evidence(i)]
  }

  function FreshRow(i: nat, stored: int): Row { Row(stored, [Evidence(i)], 1.0, true) }

  lemma OneIdKey(id: string)
    ensures DedupeKey([id]) == id
  {
    assert Sort([id], Less) == [id];
  }

  /** New evidence is shown whenever the governor agrees. */
  lemma FreshShows(s: State, now: int, stored: int)
    requires G.StateOk(s.gov) && IsFresh(s.rows) && G.Admit(s.gov, s.mode, now).1
    ensures var t := Fresh(|s.rows|, now, stored);
            && Shows(s, t)
            && Step(s, t) == State(s.mode, G.Admit(s.gov, s.mode, now).0, s.rows + [FreshRow(|s.rows|, stored)])
            && IsFresh(Step(s, t).rows)
  {
    hide DedupeKey, G.Admit;
    var k := |s.rows|;
    var t := Fresh(k, now, stored);
    assert Valid([Evidence(k)][..0], t.digest) == [] && Valid([Evidence(k)], t.digest) == [Evidence(k)];
    forall i | 0 <= i < k ensures !Recent(s.rows[i], [Evidence(k)], now - DAY_MS) {
      OneIdKey(Evidence(i));
      OneIdKey(Evidence(k));
      assert |Evidence(i)| != |Evidence(k)|;
    }
  }

  /** A process for each tick, one millisecond apart. */
  function Restarting(k: nat): Processes { seq(k, i requires 0 <= i < k => [Fresh(i, i, i)]) }

  function RowsTo(k: nat): seq<Row> { seq(k, i requires 0 <= i < k => FreshRow(i, i)) }

  function TicksTo(k: nat): seq<Tick> { seq(k, i requires 0 <= i < k => Fresh(i, i, i)) }

  lemma FullAdmits(mode: string, now: int)
    ensures G.Admit(G.INITIAL, mode, now).1
  {
  }

  lemma OneTick(s: State, t: Tick)
    requires G.StateOk(s.gov) && Shows(s, t)
    ensures Run(s, [t], 1) == Step(s, t) && Showing(s, [t], 1) == [t]
  {
    hide Step, Shows;
    assert Run(s, [t], 0) == s && Showing(s, [t], 0) == [];
    assert [] + [t] == [t];
  }

  /** One process more, over the rows of those before it. */
  lemma OneRestart(s: State, n: nat)
    requires s.gov == G.INITIAL && G.StateOk(s.gov) && s.rows == RowsTo(n)
    ensures Run(s, [Fresh(n, n, n)], 1).rows == RowsTo(n + 1)
    ensures Showing(s, [Fresh(n, n, n)], 1) == [Fresh(n, n, n)]
  {
    hide Step, Shows, G.Admit, Run, Showing, Evidence;
    assert IsFresh(s.rows);
    FullAdmits(s.mode, n);
    FreshShows(s, n, n);
    OneTick(s, Fresh(n, n, n));
    assert RowsTo(n + 1) == RowsTo(n) + [FreshRow(n, n)];
  }

  lemma LifeStep(mode: string, rows: seq<Row>, life: Processes, n: nat)
    requires 0 < n <= |life|
    ensures var s, ticks := Restarted(Lived(mode, rows, life, n - 1)), life[n - 1];
            && Lived(mode, rows, life, n) == Run(s, ticks, |ticks|)
            && Shown(mode, rows, life, n) == Shown(mode, rows, life, n - 1) + Showing(s, ticks, |ticks|)
            && Ticks(life, n) == Ticks(life, n - 1) + ticks
  {
  }

  lemma LifeStart(mode: string, rows: seq<Row>, life: Processes)
    ensures Lived(mode, rows, life, 0).rows == rows && Shown(mode, rows, life, 0) == Ticks(life, 0) == []
  {
  }

  lemma {:induction false} EachRestartShows(mode: string, k: nat, n: nat)
    requires n <= k
    ensures Lived(mode, [], Restarting(k), n).rows == RowsTo(n)
    ensures Shown(mode, [], Restarting(k), n) == TicksTo(n) == Ticks(Restarting(k), n)
  {
    hide Lived, Shown, Ticks, Run, Showing, Fresh, FreshRow;
    if n == 0 {
      LifeStart(mode, [], Restarting(k));
    } else {
      var t := Fresh(n - 1, n - 1, n - 1);
      EachRestartShows(mode, k, n - 1);
      LifeStep(mode, [], Restarting(k), n);
      assert Restarting(k)[n - 1] == [t] && TicksTo(n) == TicksTo(n - 1) + [t];
      OneRestart(Restarted(Lived(mode, [], Restarting(k), n - 1)), n - 1);
    }
  }

  lemma TicksTimed(k: nat)
    ensures Timed(TicksTo(k), 0)
  {
  }

  lemma {:induction false} CountTo(k: nat, hi: int)
    requires k - 1 <= hi
    ensures StartsIn(TicksTo(k), -1, hi) == StoredIn(TicksTo(k), -1, hi) == k
  {
    if k == 0 {
    } else {
      CountTo(k - 1, hi);
      assert TicksTo(k)[..k - 1] == TicksTo(k - 1);
    }
  }

  /** So no number bounds an hour's rows across restarts: for every `k`, `k` processes can show and store
      `k` pushbacks within `k` milliseconds, in any mode. */
  lemma NoCapAcrossRestarts(mode: string, k: nat)
    requires k <= G.HOUR_MS
    ensures var life, t := Restarting(k), G.HOUR_MS - 1;
            && Timed(Ticks(life, |life|), 0)
            && Lived(mode, [], life, |life|).rows == RowsTo(k)
            && StartsIn(Shown(mode, [], life, |life|), t - G.HOUR_MS, t) == k
            && StoredIn(Shown(mode, [], life, |life|), t - G.HOUR_MS, t) == k
  {
    hide Lived, Shown, Ticks, RowsTo, TicksTo, Timed, StartsIn, StoredIn;
    EachRestartShows(mode, k, k);
    TicksTimed(k);
    CountTo(k, G.HOUR_MS - 1);
  }

  /** Within one process the mentor's caps are met: four ticks that store in one hour, the last three
      starting in it. */
  function MentorTicks(): seq<Tick> {
    [Fresh(0, 0, 10), Fresh(1, 10, 10), Fresh(2, 1_800_010, 1_800_010), Fresh(3, 3_600_000, 3_600_000)]
  }

  /** The mentor's tokens after a call at `now`, with `window` the admissions so far. */
  function MentorState(tokens: real, now: int, window: seq<int>): G.State {
    G.INITIAL.(mentor := G.Bucket(tokens, Some(now), 2.0, 1_800_000.0), window := window)
  }

  lemma {:induction false} RetainAll(window: seq<int>, cutoff: int)
    requires forall i :: 0 <= i < |window| ==> window[i] > cutoff
    ensures G.Retain(window, cutoff) == window
  {
    if window == [] {
    } else {
      RetainAll(window[..|window| - 1], cutoff);
    }
  }

  lemma {:induction false} RetainShorter(window: seq<int>, cutoff: int)
    ensures |G.Retain(window, cutoff)| <= |window|
  {
    if window == [] {
    } else {
      RetainShorter(window[..|window| - 1], cutoff);
    }
  }

  /** A call that finds the hour's window with room and all of it recent. */
  lemma MentorAdmit(tokens: real, last: int, window: seq<int>, now: int)
    requires 0.0 <= tokens <= 2.0 && last <= now && |window| < G.GLOBAL_CAP
    requires forall i :: 0 <= i < |window| ==> window[i] > now - G.HOUR_MS
    requires 1.0 <= tokens + G.Accrued(now - last, 1_800_000.0) <= 2.0
    ensures G.StateOk(MentorState(tokens, last, window))
    ensures G.Admit(MentorState(tokens, last, window), "mentor", now)
         == (MentorState(tokens + G.Accrued(now - last, 1_800_000.0) - 1.0, now, window + [now]), true)
  {
    RetainAll(window, now - G.HOUR_MS);
  }

  const LEFT: real := 10.0 / 1_800_000.0

  lemma FirstMentorAdmit()
    ensures G.Admit(G.INITIAL, "mentor", 0) == (MentorState(1.0, 0, [0]), true)
  {
    RetainAll(G.INITIAL.window, -G.HOUR_MS);
    assert G.INITIAL.window == [] && [] + [0] == [0];
    assert G.Admit(G.INITIAL, "mentor", 0).0.window == G.INITIAL.window + [0];
  }

  lemma MentorTokens()
    ensures 0.0 < LEFT <= 1.0
    ensures 1.0 + G.Accrued(10, 1_800_000.0) - 1.0 == LEFT
    ensures G.Accrued(1_800_000, 1_800_000.0) == 1.0
  {
  }

  lemma MentorAdmits()
    ensures G.Admit(G.INITIAL, "mentor", 0) == (MentorState(1.0, 0, [0]), true)
    ensures G.Admit(MentorState(1.0, 0, [0]), "mentor", 10) == (MentorState(LEFT, 10, [0, 10]), true)
    ensures G.Admit(MentorState(LEFT, 10, [0, 10]), "mentor", 1_800_010)
         == (MentorState(LEFT, 1_800_010, [0, 10, 1_800_010]), true)
    ensures G.Admit(MentorState(LEFT, 1_800_010, [0, 10, 1_800_010]), "mentor", 3_600_000).1
  {
    FirstMentorAdmit();
    LastMentorAdmit();
    MentorTokens();
    hide G.Admit, G.Accrued, MentorState, LEFT;
    MentorAdmit(1.0, 0, [0], 10);
    MentorAdmit(LEFT, 10, [0, 10], 1_800_010);
    assert [0] + [10] == [0, 10] && [0, 10] + [1_800_010] == [0, 10, 1_800_010];
  }

  /** The fourth call comes exactly when the second token has accrued again. */
  lemma LastMentorAdmit()
    ensures G.Admit(MentorState(LEFT, 1_800_010, [0, 10, 1_800_010]), "mentor", 3_600_000).1
  {
    RetainShorter([0, 10, 1_800_010], 0);
    assert LEFT + G.Accrued(1_799_990, 1_800_000.0) == 1.0;
  }

  lemma TickShows(s: State, ticks: seq<Tick>, n: nat)
    requires G.StateOk(s.gov) && n < |ticks| && Shows(Run(s, ticks, n), ticks[n])
    ensures Run(s, ticks, n + 1) == Step(Run(s, ticks, n), ticks[n])
    ensures Showing(s, ticks, n + 1) == Showing(s, ticks, n) + [ticks[n]]
  {
    hide Step, Shows;
  }

  lemma MentorShows()
    ensures var s := State("mentor", G.INITIAL, []);
            Showing(s, MentorTicks(), 4) == MentorTicks()
  {
    hide G.Admit, Step, Shows, Run, Showing;
    var s, ticks := State("mentor", G.INITIAL, []), MentorTicks();
    MentorAdmits();
    StartsEmpty(s, ticks);
    FreshShows(s, 0, 10);
    TickShows(s, ticks, 0);
    FreshShows(Run(s, ticks, 1), 10, 10);
    TickShows(s, ticks, 1);
    FreshShows(Run(s, ticks, 2), 1_800_010, 1_800_010);
    TickShows(s, ticks, 2);
    FreshShows(Run(s, ticks, 3), 3_600_000, 3_600_000);
    TickShows(s, ticks, 3);
    assert [] + [ticks[0]] + [ticks[1]] + [ticks[2]] + [ticks[3]] == ticks;
  }

  lemma StartsEmpty(s: State, ticks: seq<Tick>)
    requires G.StateOk(s.gov)
    ensures Run(s, ticks, 0) == s && Showing(s, ticks, 0) == []
  {
  }

  lemma {:induction false} CountFour(a: Tick, b: Tick, c: Tick, d: Tick, lo: int, hi: int)
    requires a.now <= lo < a.stored && lo < b.now && lo < c.now && lo < d.now
    requires a.now <= hi && b.now <= hi && c.now <= hi && d.now <= hi
    requires lo < a.stored <= hi && lo < b.stored <= hi && lo < c.stored <= hi && lo < d.stored <= hi
    ensures StartsIn([a, b, c, d], lo, hi) == 3 && StoredIn([a, b, c, d], lo, hi) == 4
  {
    hide StartsIn, StoredIn;
    NothingCounts(lo, hi);
    CountSnoc([], a, lo, hi);
    CountSnoc([a], b, lo, hi);
    CountSnoc([a, b], c, lo, hi);
    CountSnoc([a, b, c], d, lo, hi);
    assert [] + [a] == [a] && [a] + [b] == [a, b] && [a, b] + [c] == [a, b, c] && [a, b, c] + [d] == [a, b, c, d];
  }

  lemma NothingCounts(lo: int, hi: int)
    ensures StartsIn([], lo, hi) == StoredIn([], lo, hi) == 0
  {
  }

  lemma CountSnoc(ticks: seq<Tick>, t: Tick, lo: int, hi: int)
    ensures StartsIn(ticks + [t], lo, hi) == StartsIn(ticks, lo, hi) + if lo < t.now <= hi then 1 else 0
    ensures StoredIn(ticks + [t], lo, hi) == StoredIn(ticks, lo, hi) + if lo < t.stored <= hi then 1 else 0
  {
    assert (ticks + [t])[..|ticks|] == ticks;
  }

  /** The mentor's bounds are attained: 3 started and 4 stored in one hour. */
  lemma MentorMeetsItsCaps()
    ensures var s, t := State("mentor", G.INITIAL, []), G.HOUR_MS + 9;
            && Timed(MentorTicks(), 0)
            && StartsIn(Showing(s, MentorTicks(), 4), t - G.HOUR_MS, t) == 3 == G.HourCap(G.BucketOf("mentor"))
            && StoredIn(Showing(s, MentorTicks(), 4), t - G.HOUR_MS, t) == 4
  {
    hide Showing, StartsIn, StoredIn;
    MentorShows();
    var t := MentorTicks();
    CountFour(t[0], t[1], t[2], t[3], 9, G.HOUR_MS + 9);
  }
}
