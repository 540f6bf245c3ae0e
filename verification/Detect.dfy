/** The sliding-window detectors over recent observations: repeated failures of one command, and
    bursts of failures of any command. */
module Detect {
  import opened Basics
  import opened Order
  import opened Commands

  const LOOP_SIZE := 3
  const LOOP_SPAN := 600_000
  const BURST_SIZE := 10
  const BURST_SPAN := 300_000

  datatype Observation = Observation(id: string, ts: int, kind: string, content: string, exit: Option<int>)

  datatype Signal =
    | StuckLoop(cmd: string, count: nat, obsIds: seq<string>)
    | ErrorBurst(obsIds: seq<string>)

  /** An observation without an exit code counts as a success. */
  function ExitCode(o: Observation): int { if o.exit.Some? then o.exit.value else 0 }

  predicate Failed(o: Observation) { o.kind == "shell_cmd" && ExitCode(o) != 0 }

  // ---------------------------------------------------------------- what the detectors look for

  /** Some `m` distinct observations satisfying `p` whose times lie within `span`. */
  ghost predicate Cluster(obs: seq<Observation>, p: Observation -> bool, m: nat, span: int) {
    exists s: set<nat> :: IsCluster(obs, p, m, span, s)
  }

  ghost predicate IsCluster(obs: seq<Observation>, p: Observation -> bool, m: nat, span: int, s: set<nat>) {
    && |s| == m
    && (forall i :: i in s ==> i < |obs| && p(obs[i]))
    && (forall i, j :: i in s && j in s ==> obs[i].ts - obs[j].ts <= span)
  }

  /** `ids` names the members of such a cluster in time order: neighbours, none left out between them, and
      no cluster was complete any earlier. That leaves one choice. */
  ghost predicate Names(obs: seq<Observation>, p: Observation -> bool, m: nat, span: int, ids: seq<string>) {
    exists at: seq<nat> :: NamesAt(obs, p, m, span, ids, at)
  }

  ghost predicate NamesAt(
    obs: seq<Observation>, p: Observation -> bool, m: nat, span: int, ids: seq<string>, at: seq<nat>)
  {
    && |at| == |ids| == m
    && Distinct(at)
    && (forall i :: 0 <= i < |at| ==> at[i] < |obs| && obs[at[i]].id == ids[i])
    && IsCluster(obs, p, m, span, Elements(at))
    && InOrder(obs, at)
    && (forall x: nat :: x < |obs| && p(obs[x]) && Between(obs, at, x) ==> x in at)
    && (forall s :: IsCluster(obs, p, m, span, s) ==> EndsLater(obs, at, s))
  }

  /** Observation `a` comes no later than `b`: by time, and at equal times as they were given. */
  ghost predicate UpTo(obs: seq<Observation>, a: nat, b: nat) {
    TsAt(obs, a) < TsAt(obs, b) || (TsAt(obs, a) == TsAt(obs, b) && a <= b)
  }

  ghost predicate Between(obs: seq<Observation>, at: seq<nat>, x: nat) {
    at != [] && UpTo(obs, at[0], x) && UpTo(obs, x, at[|at| - 1])
  }

  /** `s` goes on at least until the last of `at`. */
  ghost predicate EndsLater(obs: seq<Observation>, at: seq<nat>, s: set<nat>) {
    exists x :: x in s && forall i :: 0 <= i < |at| ==> UpTo(obs, at[i], x)
  }

  ghost function FailedAs(cmd: string): Observation -> bool {
    (o: Observation) => Failed(o) && NormalizeCmd(o.content) == cmd
  }

  /** A failure is a shell command with an exit code, and that code is not zero. */
  lemma FailedIs(o: Observation, cmd: string)
    ensures Failed(o) <==> o.kind == "shell_cmd" && o.exit.Some? && o.exit.value != 0
    ensures FailedAs(cmd)(o) <==> Failed(o) && NormalizeCmd(o.content) == cmd
  {
  }

  // ---------------------------------------------------------------- sorted windows

  /** Entries are positions in `obs`; the pair (ts, id) of an entry is read through its position. */
  function TsAt(obs: seq<Observation>, i: nat): int { if i < |obs| then obs[i].ts else 0 }

  function Earlier(obs: seq<Observation>): (nat, nat) -> bool {
    (i: nat, j: nat) => TsAt(obs, i) < TsAt(obs, j)
  }

  /** `entries` lists every position satisfying `p` once. */
  ghost predicate Lists(obs: seq<Observation>, p: Observation -> bool, entries: seq<nat>) {
    && (forall i: nat :: i in entries <==> i < |obs| && p(obs[i]))
    && Distinct(entries)
  }

  ghost predicate InOrder(obs: seq<Observation>, entries: seq<nat>) {
    forall i, j :: 0 <= i < j < |entries| ==> UpTo(obs, entries[i], entries[j])
  }

  ghost predicate Ascending(entries: seq<nat>) {
    forall i, j :: 0 <= i < j < |entries| ==> entries[i] < entries[j]
  }

  /** The sort is stable. */
  lemma {:induction false} InsertInOrder(obs: seq<Observation>, x: nat, entries: seq<nat>)
    requires InOrder(obs, entries) && forall i :: 0 <= i < |entries| ==> x < entries[i]
    ensures InOrder(obs, Insert(x, entries, Earlier(obs)))
  {
    if entries == [] || !Earlier(obs)(entries[0], x) {
      var r := [x] + entries;
      forall j | 0 <= j < |entries| ensures UpTo(obs, x, entries[j]) {
        assert j == 0 || UpTo(obs, entries[0], entries[j]);
      }
    } else {
      InsertInOrder(obs, x, entries[1..]);
      var rest := Insert(x, entries[1..], Earlier(obs));
      forall j | 0 <= j < |rest| ensures UpTo(obs, entries[0], rest[j]) {
        assert rest[j] in multiset(rest);
        assert rest[j] == x || rest[j] in entries[1..];
      }
    }
  }

  lemma {:induction false} SortInOrder(obs: seq<Observation>, entries: seq<nat>)
    requires Ascending(entries)
    ensures InOrder(obs, Sort(entries, Earlier(obs)))
  {
    if entries == [] {
    } else {
      SortInOrder(obs, entries[1..]);
      SortIn(entries[1..], Earlier(obs));
      var rest := Sort(entries[1..], Earlier(obs));
      forall i | 0 <= i < |rest| ensures entries[0] < rest[i] { assert rest[i] in entries[1..]; }
      InsertInOrder(obs, entries[0], rest);
    }
  }

  lemma SortLists(obs: seq<Observation>, p: Observation -> bool, entries: seq<nat>)
    requires Lists(obs, p, entries) && Ascending(entries)
    ensures Lists(obs, p, Sort(entries, Earlier(obs))) && InOrder(obs, Sort(entries, Earlier(obs)))
  {
    SortIn(entries, Earlier(obs));
    SortKeepsDistinct(entries, Earlier(obs));
    SortInOrder(obs, entries);
  }

  function Elements(s: seq<nat>): set<nat> { set i | 0 <= i < |s| :: s[i] }

  lemma {:induction false} ElementsBound(s: seq<nat>)
    ensures |Elements(s)| <= |s|
    ensures Distinct(s) ==> |Elements(s)| == |s|
  {
    if s == [] {
    } else {
      var init, x := s[..|s| - 1], s[|s| - 1];
      ElementsBound(init);
      assert Elements(s) == Elements(init) + {x};
      if Distinct(s) { assert x !in Elements(init); }
    }
  }

  /** A window of `m` neighbours in time order that fits the span. */
  ghost predicate Window(obs: seq<Observation>, entries: seq<nat>, m: nat, span: int, i: nat) {
    0 < m && i + m <= |entries| && TsAt(obs, entries[i + m - 1]) - TsAt(obs, entries[i]) <= span
  }

  function IdsOf(obs: seq<Observation>, at: seq<nat>): seq<string>
    requires forall i :: 0 <= i < |at| ==> at[i] < |obs|
  {
    seq(|at|, i requires 0 <= i < |at| => obs[at[i]].id)
  }

  lemma WindowSpan(obs: seq<Observation>, entries: seq<nat>, m: nat, span: int, i: nat, x: nat, y: nat)
    requires InOrder(obs, entries) && Window(obs, entries, m, span, i) && x < m && y < m
    ensures TsAt(obs, entries[i + x]) - TsAt(obs, entries[i + y]) <= span
  {
    assert x == m - 1 || UpTo(obs, entries[i + x], entries[i + m - 1]);
    assert y == 0 || UpTo(obs, entries[i], entries[i + y]);
  }

  lemma WindowElements(obs: seq<Observation>, p: Observation -> bool, entries: seq<nat>, m: nat, span: int, i: nat)
    requires Lists(obs, p, entries) && InOrder(obs, entries) && Window(obs, entries, m, span, i)
    ensures IsCluster(obs, p, m, span, Elements(entries[i..i + m]))
  {
    var at := entries[i..i + m];
    ElementsBound(at);
    var s := Elements(at);
    forall a | a in s ensures a < |obs| && p(obs[a]) { assert a in entries; }
    forall a, b | a in s && b in s ensures obs[a].ts - obs[b].ts <= span {
      var x: nat :| x < m && at[x] == a;
      var y: nat :| y < m && at[y] == b;
      WindowSpan(obs, entries, m, span, i, x, y);
    }
  }

  /** The first and last entry that belong to `s`. */
  lemma Extremes(entries: seq<nat>, s: set<nat>) returns (lo: nat, hi: nat)
    requires s != {} && forall x :: x in s ==> x in entries
    ensures lo <= hi < |entries| && entries[lo] in s && entries[hi] in s
    ensures forall k :: 0 <= k < |entries| && entries[k] in s ==> lo <= k <= hi
  {
    var x :| x in s;
    var at :| 0 <= at < |entries| && entries[at] == x;
    lo, hi := 0, |entries| - 1;
    while entries[lo] !in s
      invariant lo <= at && forall k :: 0 <= k < lo ==> entries[k] !in s
      decreases |entries| - lo
    {
      lo := lo + 1;
    }
    while entries[hi] !in s
      invariant at <= hi < |entries| && forall k :: hi < k < |entries| ==> entries[k] !in s
      decreases hi
    {
      hi := hi - 1;
    }
  }

  /** All of `s` lies between its extremes, so they are at least `|s|` places apart. */
  lemma Spread(entries: seq<nat>, s: set<nat>, lo: nat, hi: nat)
    requires lo <= hi < |entries| && forall x :: x in s ==> x in entries
    requires forall k :: 0 <= k < |entries| && entries[k] in s ==> lo <= k <= hi
    ensures |s| <= hi - lo + 1
  {
    var part := entries[lo..hi + 1];
    forall x | x in s ensures x in Elements(part) {
      var k :| 0 <= k < |entries| && entries[k] == x;
      assert part[k - lo] == x;
    }
    ElementsBound(part);
    SubsetSize(s, Elements(part));
  }

  /** The window of neighbours that starts with a cluster's first member fits, and is over no later. */
  lemma ClusterWindow(
    obs: seq<Observation>, p: Observation -> bool, entries: seq<nat>, m: nat, span: int, s: set<nat>)
    returns (lo: nat, hi: nat)
    requires Lists(obs, p, entries) && InOrder(obs, entries) && 0 < m && IsCluster(obs, p, m, span, s)
    ensures Window(obs, entries, m, span, lo) && hi < |entries| && entries[hi] in s
    ensures UpTo(obs, entries[lo + m - 1], entries[hi])
  {
    hide Elements;
    lo, hi := Extremes(entries, s);
    Spread(entries, s, lo, hi);
    assert obs[entries[hi]].ts - obs[entries[lo]].ts <= span;
    assert lo + m - 1 == hi || UpTo(obs, entries[lo + m - 1], entries[hi]);
  }

  /** If any cluster exists, some window of neighbours fits: nothing is missed by sliding. */
  lemma ClusterHasWindow(obs: seq<Observation>, p: Observation -> bool, entries: seq<nat>, m: nat, span: int)
    requires Lists(obs, p, entries) && InOrder(obs, entries) && 0 < m && Cluster(obs, p, m, span)
    ensures exists i :: Window(obs, entries, m, span, i)
  {
    var s :| IsCluster(obs, p, m, span, s);
    var lo, hi := ClusterWindow(obs, p, entries, m, span, s);
  }

  lemma FirstEndsFirst(
    obs: seq<Observation>, p: Observation -> bool, entries: seq<nat>, m: nat, span: int, i: nat, s: set<nat>)
    requires Lists(obs, p, entries) && InOrder(obs, entries) && Window(obs, entries, m, span, i)
    requires forall k :: 0 <= k < i ==> !Window(obs, entries, m, span, k)
    requires IsCluster(obs, p, m, span, s)
    ensures EndsLater(obs, entries[i..i + m], s)
  {
    var at := entries[i..i + m];
    var lo, hi := ClusterWindow(obs, p, entries, m, span, s);
    hide IsCluster, Lists;
    assert i <= lo;
    assert i == lo || UpTo(obs, entries[i + m - 1], entries[lo + m - 1]);
    forall k | 0 <= k < |at| ensures UpTo(obs, at[k], entries[hi]) {
      assert at[k] == entries[i + k];
      assert k == m - 1 || UpTo(obs, entries[i + k], entries[i + m - 1]);
    }
  }

  /** The first fitting window is a cluster, named by its ids, and none is complete before it. */
  lemma WindowIsCluster(obs: seq<Observation>, p: Observation -> bool, entries: seq<nat>, m: nat, span: int, i: nat)
    requires Lists(obs, p, entries) && InOrder(obs, entries) && Window(obs, entries, m, span, i)
    requires forall k :: 0 <= k < i ==> !Window(obs, entries, m, span, k)
    ensures forall k :: i <= k < i + m ==> entries[k] < |obs|
    ensures Cluster(obs, p, m, span) && Names(obs, p, m, span, IdsOf(obs, entries[i..i + m]))
  {
    hide Elements, IsCluster, EndsLater;
    var at := entries[i..i + m];
    forall k | i <= k < i + m ensures entries[k] < |obs| { assert entries[k] in entries; }
    WindowElements(obs, p, entries, m, span, i);
    forall s | IsCluster(obs, p, m, span, s) ensures EndsLater(obs, at, s) {
      FirstEndsFirst(obs, p, entries, m, span, i, s);
    }
    forall x: nat | x < |obs| && p(obs[x]) && Between(obs, at, x) ensures x in at {
      NoneBetween(obs, p, entries, m, i, x);
    }
    forall a, b | 0 <= a < b < |at| ensures UpTo(obs, at[a], at[b]) {
      assert at[a] == entries[i + a] && at[b] == entries[i + b];
    }
    assert NamesAt(obs, p, m, span, IdsOf(obs, at), at);
  }

  lemma NoneBetween(obs: seq<Observation>, p: Observation -> bool, entries: seq<nat>, m: nat, i: nat, x: nat)
    requires Lists(obs, p, entries) && InOrder(obs, entries) && 0 < m && i + m <= |entries|
    requires x < |obs| && p(obs[x]) && UpTo(obs, entries[i], x) && UpTo(obs, x, entries[i + m - 1])
    ensures x in entries[i..i + m]
  {
    var k :| 0 <= k < |entries| && entries[k] == x;
    PlacesAgree(obs, entries, i, k);
    PlacesAgree(obs, entries, k, i + m - 1);
    assert entries[i..i + m][k - i] == x;
  }

  /** What comes no later stands no later. */
  lemma PlacesAgree(obs: seq<Observation>, entries: seq<nat>, a: nat, b: nat)
    requires InOrder(obs, entries) && Distinct(entries) && a < |entries| && b < |entries|
    requires UpTo(obs, entries[a], entries[b])
    ensures a <= b
  {
  }

  /** The scan both detectors make over their sorted entries. */
  method FirstWindow(obs: seq<Observation>, entries: seq<nat>, m: nat, span: int) returns (found: Option<nat>)
    requires 0 < m && forall k :: 0 <= k < |entries| ==> entries[k] < |obs|
    ensures found.Some? ==>
              Window(obs, entries, m, span, found.value)
              && forall k :: 0 <= k < found.value ==> !Window(obs, entries, m, span, k)
    ensures found == None ==> forall i :: !Window(obs, entries, m, span, i)
  {
    if |entries| >= m {
      for i := 0 to |entries| - m + 1
        invariant forall k :: 0 <= k < i ==> !Window(obs, entries, m, span, k)
      {
        if obs[entries[i + m - 1]].ts - obs[entries[i]].ts <= span { return Some(i); }
      }
    }
    return None;
  }

  // ---------------------------------------------------------------- the detectors

  /** The positions below `n` that failed as `cmd`, in order. */
  ghost function Positions(obs: seq<Observation>, cmd: string, n: nat): seq<nat>
    requires n <= |obs|
  {
    if n == 0 then []
    else Positions(obs, cmd, n - 1) + if FailedAs(cmd)(obs[n - 1]) then [n - 1] else []
  }

  lemma {:induction false} PositionsList(obs: seq<Observation>, cmd: string, n: nat)
    requires n <= |obs|
    ensures forall i: nat :: i in Positions(obs, cmd, n) <==> i < n && FailedAs(cmd)(obs[i])
    ensures Distinct(Positions(obs, cmd, n)) && Ascending(Positions(obs, cmd, n))
  {
    hide FailedAs;
    if n == 0 {
    } else {
      PositionsList(obs, cmd, n - 1);
      var init, s := Positions(obs, cmd, n - 1), Positions(obs, cmd, n);
      assert s == init + if FailedAs(cmd)(obs[n - 1]) then [n - 1] else [];
      forall i | 0 <= i < |init| ensures init[i] < n - 1 { assert init[i] in init; }
      forall i: nat ensures i in s <==> i < n && FailedAs(cmd)(obs[i]) {
        assert i in s <==> i in init || (i == n - 1 && FailedAs(cmd)(obs[n - 1]));
      }
    }
  }

  lemma PositionsStep(obs: seq<Observation>, n: nat, cmd: string)
    requires n < |obs|
    ensures Positions(obs, cmd, n + 1)
         == Positions(obs, cmd, n) + if Failed(obs[n]) && NormalizeCmd(obs[n].content) == cmd then [n] else []
  {
    hide NormalizeCmd;
  }

  ghost predicate Grouped(byCmd: map<string, seq<nat>>, obs: seq<Observation>, n: nat)
    requires n <= |obs|
  {
    && (forall cmd :: cmd in byCmd <==> Positions(obs, cmd, n) != [])
    && (forall cmd :: cmd in byCmd ==> byCmd[cmd] == Positions(obs, cmd, n))
  }

  function AddFailure(byCmd: map<string, seq<nat>>, cmd: string, n: nat): map<string, seq<nat>> {
    byCmd[cmd := (if cmd in byCmd then byCmd[cmd] else []) + [n]]
  }

  lemma GroupStep(byCmd: map<string, seq<nat>>, obs: seq<Observation>, n: nat)
    requires n < |obs| && Grouped(byCmd, obs, n)
    ensures Grouped(if Failed(obs[n]) then AddFailure(byCmd, NormalizeCmd(obs[n].content), n) else byCmd, obs, n + 1)
  {
    hide Positions, NormalizeCmd;
    forall cmd ensures Positions(obs, cmd, n + 1)
      == Positions(obs, cmd, n) + if Failed(obs[n]) && NormalizeCmd(obs[n].content) == cmd then [n] else []
    {
      PositionsStep(obs, n, cmd);
    }
  }

  method GroupFailures(obs: seq<Observation>) returns (byCmd: map<string, seq<nat>>)
    ensures Grouped(byCmd, obs, |obs|)
  {
    byCmd := map[];
    assert Grouped(byCmd, obs, 0);
    hide Grouped, NormalizeCmd, AddFailure;
    for n := 0 to |obs|
      invariant Grouped(byCmd, obs, n)
    {
      GroupStep(byCmd, obs, n);
      if Failed(obs[n]) {
        byCmd := AddFailure(byCmd, NormalizeCmd(obs[n].content), n);
      }
    }
  }

  /** One group of the loop detector. */
  method ScanGroup(obs: seq<Observation>, cmd: string, group: seq<nat>) returns (signal: Option<Signal>)
    requires Lists(obs, FailedAs(cmd), group) && Ascending(group)
    ensures signal.Some? <==> Cluster(obs, FailedAs(cmd), LOOP_SIZE, LOOP_SPAN)
    ensures signal.Some? ==>
              && signal.value.StuckLoop? && signal.value.cmd == cmd && signal.value.count == |group|
              && Names(obs, FailedAs(cmd), LOOP_SIZE, LOOP_SPAN, signal.value.obsIds)
  {
    hide FailedAs, Cluster, Names, Sort, NormalizeCmd;
    var entries := Sort(group, Earlier(obs));
    SortLists(obs, FailedAs(cmd), group);
    forall k | 0 <= k < |entries| ensures entries[k] < |obs| { assert entries[k] in entries; }
    var found := FirstWindow(obs, entries, LOOP_SIZE, LOOP_SPAN);
    if found.Some? {
      WindowIsCluster(obs, FailedAs(cmd), entries, LOOP_SIZE, LOOP_SPAN, found.value);
      return Some(StuckLoop(cmd, |entries|, IdsOf(obs, entries[found.value..found.value + LOOP_SIZE])));
    }
    if Cluster(obs, FailedAs(cmd), LOOP_SIZE, LOOP_SPAN) {
      ClusterHasWindow(obs, FailedAs(cmd), entries, LOOP_SIZE, LOOP_SPAN);
    }
    return None;
  }

  /** A signal exactly when some command has three failures within ten minutes, naming three such
      failures, whatever order the groups are visited in. */
  method StuckLoopSignal(obs: seq<Observation>) returns (signal: Option<Signal>)
    ensures signal.Some? <==> exists cmd :: Cluster(obs, FailedAs(cmd), 3, 600_000)
    ensures signal.Some? ==>
              && signal.value.StuckLoop?
              && Names(obs, FailedAs(signal.value.cmd), 3, 600_000, signal.value.obsIds)
              && exists all :: Lists(obs, FailedAs(signal.value.cmd), all) && signal.value.count == |all|
  {
    var byCmd := GroupFailures(obs);
    var todo := byCmd.Keys;
    while todo != {}
      invariant todo <= byCmd.Keys
      invariant forall cmd :: cmd in byCmd && cmd !in todo ==> !Cluster(obs, FailedAs(cmd), LOOP_SIZE, LOOP_SPAN)
      decreases todo
    {
      var cmd :| cmd in todo;
      todo := todo - {cmd};
      PositionsList(obs, cmd, |obs|);
      signal := ScanGroup(obs, cmd, byCmd[cmd]);
      if signal.Some? { return; }
    }
    forall cmd | Cluster(obs, FailedAs(cmd), LOOP_SIZE, LOOP_SPAN) ensures cmd in byCmd {
      ClusterHasFailure(obs, cmd);
      PositionsList(obs, cmd, |obs|);
    }
    return None;
  }

  lemma ClusterHasFailure(obs: seq<Observation>, cmd: string)
    requires Cluster(obs, FailedAs(cmd), LOOP_SIZE, LOOP_SPAN)
    ensures exists i :: 0 <= i < |obs| && FailedAs(cmd)(obs[i])
  {
    var s :| IsCluster(obs, FailedAs(cmd), LOOP_SIZE, LOOP_SPAN, s);
    var i :| i in s;
    assert FailedAs(cmd)(obs[i]);
  }

  /** A signal exactly when some ten failures lie within five minutes, naming ten such failures. */
  method ErrorBurstSignal(obs: seq<Observation>) returns (signal: Option<Signal>)
    ensures signal.Some? <==> Cluster(obs, Failed, 10, 300_000)
    ensures signal.Some? ==> signal.value.ErrorBurst? && Names(obs, Failed, 10, 300_000, signal.value.obsIds)
  {
    hide Cluster, Names, Sort;
    var fails: seq<nat> := [];
    for n := 0 to |obs|
      invariant forall i: nat :: i in fails <==> i < n && Failed(obs[i])
      invariant Distinct(fails) && Ascending(fails)
    {
      forall i | 0 <= i < |fails| ensures fails[i] < n { assert fails[i] in fails; }
      if Failed(obs[n]) { fails := fails + [n]; }
    }
    var entries := Sort(fails, Earlier(obs));
    SortLists(obs, Failed, fails);
    forall k | 0 <= k < |entries| ensures entries[k] < |obs| { assert entries[k] in entries; }
    var found := FirstWindow(obs, entries, BURST_SIZE, BURST_SPAN);
    if found.Some? {
      WindowIsCluster(obs, Failed, entries, BURST_SIZE, BURST_SPAN, found.value);
      return Some(ErrorBurst(IdsOf(obs, entries[found.value..found.value + BURST_SIZE])));
    }
    if Cluster(obs, Failed, BURST_SIZE, BURST_SPAN) {
      ClusterHasWindow(obs, Failed, entries, BURST_SIZE, BURST_SPAN);
    }
    return None;
  }
}
