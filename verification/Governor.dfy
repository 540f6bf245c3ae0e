/** The pushback governor: three token buckets behind a sliding one-hour cap.
    Tokens are `real`; the clock is the caller's and never runs backwards. */
module Governor {
  import opened Basics

  const HOUR_MS := 3_600_000
  const GLOBAL_CAP := 8

  datatype Bucket = Bucket(tokens: real, last: Option<int>, capacity: real, refillMs: real)

  datatype Name = Mentor | Chaos | Quiet

  datatype State = State(mentor: Bucket, chaos: Bucket, quiet: Bucket, window: seq<int>)

  datatype Call = Call(mode: string, now: int)

  // ---------------------------------------------------------------- values

  ghost predicate BucketOk(b: Bucket) {
    && 0.0 <= b.tokens <= b.capacity
    && 1.0 <= b.capacity
    && 0.0 < b.refillMs
    && (b.last == None ==> b.tokens == b.capacity)
  }

  ghost predicate Seen(b: Bucket, now: int) {
    b.last.Some? ==> b.last.value <= now
  }

  function Accrued(elapsed: int, refillMs: real): (r: real)
    requires 0.0 < refillMs
    ensures 0 < elapsed ==> 0.0 < r
    ensures 0 == elapsed ==> 0.0 == r
  {
    elapsed as real / refillMs
  }

  function Min(a: real, b: real): real { if a <= b then a else b }

  function Refill(b: Bucket, now: int): Bucket
    requires 0.0 < b.refillMs
  {
    match b.last
    case None => b.(last := Some(now))
    case Some(last) =>
      var elapsed := if now - last > 0 then now - last else 0;
      b.(tokens := Min(b.tokens + Accrued(elapsed, b.refillMs), b.capacity), last := Some(now))
  }

  function Consume(b: Bucket): (Bucket, bool) {
    if b.tokens >= 1.0 then (b.(tokens := b.tokens - 1.0), true) else (b, false)
  }

  /** Modes the source does not know are charged to the mentor bucket. */
  function BucketOf(mode: string): Name {
    if mode == "chaos" then Chaos else if mode == "quiet" then Quiet else Mentor
  }

  function Get(s: State, n: Name): Bucket {
    match n case Mentor => s.mentor case Chaos => s.chaos case Quiet => s.quiet
  }

  function Put(s: State, n: Name, b: Bucket): State {
    match n case Mentor => s.(mentor := b) case Chaos => s.(chaos := b) case Quiet => s.(quiet := b)
  }

  function Retain(xs: seq<int>, cutoff: int): seq<int> {
    if xs == [] then []
    else
      var rest := Retain(xs[..|xs| - 1], cutoff);
      if xs[|xs| - 1] > cutoff then rest + [xs[|xs| - 1]] else rest
  }

  ghost predicate StateOk(s: State) {
    BucketOk(s.mentor) && BucketOk(s.chaos) && BucketOk(s.quiet)
  }

  ghost predicate AllSeen(s: State, now: int) {
    Seen(s.mentor, now) && Seen(s.chaos, now) && Seen(s.quiet, now)
  }

  const INITIAL: State := State(
    Bucket(2.0, None, 2.0, 1_800_000.0),
    Bucket(2.0, None, 2.0, 600_000.0),
    Bucket(1.0, None, 1.0, 7_200_000.0),
    [])

  function Admit(s: State, mode: string, now: int): (r: (State, bool))
    requires StateOk(s)
    ensures StateOk(r.0)
  {
    var pruned := s.(window := Retain(s.window, now - HOUR_MS));
    if |pruned.window| >= GLOBAL_CAP then (pruned, false)
    else
      var n := BucketOf(mode);
      var (b, ok) := Consume(Refill(Get(s, n), now));
      var after := Put(pruned, n, b);
      (if ok then after.(window := pruned.window + [now]) else after, ok)
  }

  // ---------------------------------------------------------------- runs

  ghost predicate NonDecreasing(calls: seq<Call>) {
    forall i, j :: 0 <= i < j < |calls| ==> calls[i].now <= calls[j].now
  }

  /** The state after the first `n` calls of a run. */
  ghost function After(calls: seq<Call>, n: nat): (s: State)
    requires n <= |calls|
    ensures StateOk(s)
  {
    if n == 0 then INITIAL else Admit(After(calls, n - 1), calls[n - 1].mode, calls[n - 1].now).0
  }

  ghost predicate Admitted(calls: seq<Call>, i: nat)
    requires i < |calls|
  {
    Admit(After(calls, i), calls[i].mode, calls[i].now).1
  }

  ghost function Decisions(calls: seq<Call>): seq<bool> {
    seq(|calls|, i requires 0 <= i < |calls| => Admitted(calls, i))
  }

  /** The first `n` elements of `xs` whose flag is set, in order. */
  ghost function Select<T>(xs: seq<T>, keep: seq<bool>, n: nat): (r: seq<T>)
    requires n <= |xs| && n <= |keep|
    ensures |r| <= n
  {
    if n == 0 then []
    else Select(xs, keep, n - 1) + if keep[n - 1] then [xs[n - 1]] else []
  }

  /** What happens in a run does not depend on the calls after it. */
  lemma {:induction false} AfterPrefix(calls: seq<Call>, more: seq<Call>, n: nat)
    requires n <= |calls|
    ensures After(calls + more, n) == After(calls, n)
  {
    if n == 0 {
    } else {
      AfterPrefix(calls, more, n - 1);
      assert (calls + more)[n - 1] == calls[n - 1];
    }
  }

  // ------------------------------------------------- refilling is path-independent

  lemma AccruedAdds(a: int, b: int, r: real)
    requires 0.0 < r
    ensures Accrued(a + b, r) == Accrued(a, r) + Accrued(b, r)
  {
    assert (a + b) as real == a as real + b as real;
  }

  lemma RefillComposes(b: Bucket, t: int, u: int)
    requires BucketOk(b) && Seen(b, t) && t <= u
    ensures Refill(Refill(b, t), u) == Refill(b, u)
  {
    if b.last.Some? {
      AccruedAdds(t - b.last.value, u - t, b.refillMs);
    }
  }

  /** Two buckets that no call at `now` or later can tell apart. */
  ghost predicate SameFrom(a: Bucket, b: Bucket, now: int) {
    && BucketOk(a) && BucketOk(b) && Seen(a, now) && Seen(b, now)
    && (a.last == None <==> b.last == None)
    && Refill(a, now) == Refill(b, now)
  }

  lemma SameLater(a: Bucket, b: Bucket, t: int, u: int)
    requires SameFrom(a, b, t) && t <= u
    ensures SameFrom(a, b, u)
  {
    RefillComposes(a, t, u);
    RefillComposes(b, t, u);
  }

  ghost predicate Indistinguishable(s: State, t: State, now: int) {
    && SameFrom(s.mentor, t.mentor, now) && SameFrom(s.chaos, t.chaos, now) && SameFrom(s.quiet, t.quiet, now)
    && Retain(s.window, now - HOUR_MS) == Retain(t.window, now - HOUR_MS)
  }

  lemma {:induction false} RetainTwice(xs: seq<int>, c: int, d: int)
    requires c <= d
    ensures Retain(Retain(xs, c), d) == Retain(xs, d)
  {
    if xs == [] {
    } else {
      RetainTwice(xs[..|xs| - 1], c, d);
      var rest := Retain(xs[..|xs| - 1], c);
      var x := xs[|xs| - 1];
      assert (rest + [x])[..|rest|] == rest;
    }
  }

  lemma IndistinguishableLater(s: State, t: State, now: int, later: int)
    requires Indistinguishable(s, t, now) && now <= later
    ensures Indistinguishable(s, t, later)
  {
    SameLater(s.mentor, t.mentor, now, later);
    SameLater(s.chaos, t.chaos, now, later);
    SameLater(s.quiet, t.quiet, now, later);
    RetainTwice(s.window, now - HOUR_MS, later - HOUR_MS);
    RetainTwice(t.window, now - HOUR_MS, later - HOUR_MS);
  }

  lemma SameBucketAfter(a: Bucket, b: Bucket, now: int)
    requires SameFrom(a, b, now)
    ensures Consume(Refill(a, now)) == Consume(Refill(b, now))
    ensures SameFrom(Consume(Refill(a, now)).0, Consume(Refill(b, now)).0, now)
  {
  }

  lemma RetainedAlike(v: seq<int>, w: seq<int>, now: int)
    requires Retain(v, now - HOUR_MS) == Retain(w, now - HOUR_MS)
    ensures var r, q := Retain(v, now - HOUR_MS), Retain(w, now - HOUR_MS);
            && Retain(r, now - HOUR_MS) == Retain(q, now - HOUR_MS)
            && Retain(r + [now], now - HOUR_MS) == Retain(q + [now], now - HOUR_MS)
  {
  }

  /** One call decides alike in both states and keeps them alike. */
  lemma AdmitAgrees(s: State, t: State, mode: string, now: int)
    requires StateOk(s) && StateOk(t) && Indistinguishable(s, t, now)
    ensures Admit(s, mode, now).1 == Admit(t, mode, now).1
    ensures Indistinguishable(Admit(s, mode, now).0, Admit(t, mode, now).0, now)
  {
    RetainedAlike(s.window, t.window, now);
    SameBucketAfter(Get(s, BucketOf(mode)), Get(t, BucketOf(mode)), now);
  }

  /** A denied call changes nothing that a later call can see. */
  lemma DeniedIsInvisible(s: State, mode: string, now: int)
    requires StateOk(s) && AllSeen(s, now) && !Admit(s, mode, now).1
    ensures Indistinguishable(s, Admit(s, mode, now).0, now)
  {
    var s' := Admit(s, mode, now).0;
    RetainTwice(s.window, now - HOUR_MS, now - HOUR_MS);
    RefillComposes(Get(s, BucketOf(mode)), now, now);
  }

  lemma AlikeReflexive(s: State, now: int)
    requires StateOk(s) && AllSeen(s, now)
    ensures Indistinguishable(s, s, now)
  {
  }

  lemma AdmitSeen(s: State, mode: string, t: int, now: int)
    requires StateOk(s) && AllSeen(s, now) && t <= now
    ensures AllSeen(Admit(s, mode, t).0, now)
  {
  }

  lemma {:induction false} AfterSeen(calls: seq<Call>, n: nat, now: int)
    requires NonDecreasing(calls) && n <= |calls| && (n > 0 ==> calls[n - 1].now <= now)
    ensures AllSeen(After(calls, n), now)
  {
    if n == 0 {
    } else {
      AfterSeen(calls, n - 1, now);
      AdmitSeen(After(calls, n - 1), calls[n - 1].mode, calls[n - 1].now, now);
    }
  }

  /** `keep` drops denied calls only. */
  ghost predicate OnlyDenied(calls: seq<Call>, keep: seq<bool>) {
    |keep| == |calls| && forall i :: 0 <= i < |calls| && !keep[i] ==> !Decisions(calls)[i]
  }

  /** Dropping any set of denied calls from a run leaves every other decision unchanged. */
  lemma {:induction false} DeniedCallsLeaveNoTrace(calls: seq<Call>, keep: seq<bool>)
    requires NonDecreasing(calls) && OnlyDenied(calls, keep)
    ensures Decisions(Select(calls, keep, |calls|)) == Select(Decisions(calls), keep, |calls|)
  {
    if |calls| > 0 {
      NoTraceUpTo(calls, keep, |calls|, calls[|calls| - 1].now);
    }
  }

  lemma {:induction false} NoTraceUpTo(calls: seq<Call>, keep: seq<bool>, n: nat, now: int)
    requires NonDecreasing(calls) && OnlyDenied(calls, keep) && n <= |calls|
    requires n > 0 ==> calls[n - 1].now <= now
    ensures Decisions(Select(calls, keep, n)) == Select(Decisions(calls), keep, n)
    ensures var sub := Select(calls, keep, n);
            Indistinguishable(After(calls, n), After(sub, |sub|), now)
  {
    hide Admit, Indistinguishable, StateOk, AllSeen;
    if n == 0 {
      AlikeReflexive(INITIAL, now);
    } else {
      var c := calls[n - 1];
      NoTraceUpTo(calls, keep, n - 1, c.now);
      var sub := Select(calls, keep, n - 1);
      var s, t := After(calls, n - 1), After(sub, |sub|);
      if keep[n - 1] {
        AdmitAgrees(s, t, c.mode, c.now);
        DecisionsSnoc(sub, c);
        IndistinguishableLater(After(calls, n), After(sub + [c], |sub| + 1), c.now, now);
      } else {
        assert !Decisions(calls)[n - 1];
        AfterSeen(calls, n - 1, c.now);
        DeniedIsInvisible(s, c.mode, c.now);
        Transitive(After(calls, n), s, t, c.now);
        IndistinguishableLater(After(calls, n), t, c.now, now);
        assert sub + [] == sub && Select(Decisions(calls), keep, n - 1) + [] == Select(Decisions(calls), keep, n - 1);
      }
    }
  }

  /** One more call at the end of a run. */
  lemma {:induction false} DecisionsSnoc(calls: seq<Call>, c: Call)
    ensures After(calls + [c], |calls|) == After(calls, |calls|)
    ensures After(calls + [c], |calls| + 1) == Admit(After(calls, |calls|), c.mode, c.now).0
    ensures Decisions(calls + [c]) == Decisions(calls) + [Admit(After(calls, |calls|), c.mode, c.now).1]
  {
    hide Admit;
    AfterPrefix(calls, [c], |calls|);
    forall i | 0 <= i < |calls| ensures Decisions(calls + [c])[i] == Decisions(calls)[i] {
      AfterPrefix(calls, [c], i);
      assert (calls + [c])[i] == calls[i];
    }
  }

  lemma Transitive(a: State, b: State, c: State, now: int)
    requires Indistinguishable(b, a, now) && Indistinguishable(b, c, now)
    ensures Indistinguishable(a, c, now)
  {
  }

  // ---------------------------------------------------------------- rate bounds

  /** How many of the first `n` calls are admitted at a time in the half-open interval (lo, hi]. */
  ghost function CountAdmitted(calls: seq<Call>, n: nat, lo: int, hi: int): (k: nat)
    requires n <= |calls|
  {
    if n == 0 then 0
    else CountAdmitted(calls, n - 1, lo, hi)
         + if Admitted(calls, n - 1) && lo < calls[n - 1].now <= hi then 1 else 0
  }

  /** The same for the calls charged to one bucket. */
  ghost function CountBy(calls: seq<Call>, n: nat, name: Name, lo: int, hi: int): (k: nat)
    requires n <= |calls|
  {
    if n == 0 then 0
    else CountBy(calls, n - 1, name, lo, hi)
         + if Admitted(calls, n - 1) && BucketOf(calls[n - 1].mode) == name && lo < calls[n - 1].now <= hi then 1 else 0
  }

  lemma {:induction false} CountPrefix(calls: seq<Call>, more: seq<Call>, n: nat, lo: int, hi: int)
    requires n <= |calls|
    ensures CountAdmitted(calls + more, n, lo, hi) == CountAdmitted(calls, n, lo, hi)
  {
    hide Admit;
    if n == 0 {
    } else {
      CountPrefix(calls, more, n - 1, lo, hi);
      AfterPrefix(calls, more, n - 1);
      assert (calls + more)[n - 1] == calls[n - 1];
    }
  }

  lemma CountSnoc(calls: seq<Call>, c: Call, lo: int, hi: int)
    ensures CountAdmitted(calls + [c], |calls| + 1, lo, hi)
         == CountAdmitted(calls, |calls|, lo, hi)
            + if Admit(After(calls, |calls|), c.mode, c.now).1 && lo < c.now <= hi then 1 else 0
  {
    hide Admit;
    CountPrefix(calls, [c], |calls|, lo, hi);
    AfterPrefix(calls, [c], |calls|);
  }

  lemma {:induction false} RetainAppend(w: seq<int>, x: int, c: int, d: int)
    requires c <= d
    ensures |Retain(Retain(w, c) + [x], d)| == |Retain(w, d)| + if x > d then 1 else 0
  {
    var r := Retain(w, c);
    RetainTwice(w, c, d);
    assert (r + [x])[..|r|] == r;
  }

  /** What a call does to the part of the window after `lo`. */
  lemma WindowStep(s: State, mode: string, now: int, lo: int)
    requires StateOk(s) && now - HOUR_MS <= lo
    ensures var (s', ok) := Admit(s, mode, now);
            && |Retain(s'.window, lo)| == |Retain(s.window, lo)| + (if ok && now > lo then 1 else 0)
            && (ok ==> |Retain(s.window, now - HOUR_MS)| < GLOBAL_CAP)
  {
    RetainAppend(s.window, now, now - HOUR_MS, lo);
    RetainTwice(s.window, now - HOUR_MS, lo);
  }

  /** Pruning is harmless: of the last hour the window still has every admission. */
  lemma {:induction false} WindowIsHistory(calls: seq<Call>, n: nat, lo: int, hi: int)
    requires NonDecreasing(calls) && n <= |calls|
    requires n > 0 ==> calls[n - 1].now - HOUR_MS <= lo && calls[n - 1].now <= hi
    ensures |Retain(After(calls, n).window, lo)| == CountAdmitted(calls, n, lo, hi)
  {
    hide Admit;
    if n == 0 {
    } else {
      WindowIsHistory(calls, n - 1, lo, hi);
      WindowStep(After(calls, n - 1), calls[n - 1].mode, calls[n - 1].now, lo);
    }
  }

  lemma {:induction false} RetainShrinks(w: seq<int>, c: int, d: int)
    requires c <= d
    ensures |Retain(w, d)| <= |Retain(w, c)|
  {
    if w == [] {
    } else {
      RetainShrinks(w[..|w| - 1], c, d);
    }
  }

  /** At most 8 admissions in any one-hour interval (t - 1h, t]. */
  lemma {:induction false} AtMostEightPerHour(calls: seq<Call>, n: nat, t: int)
    requires NonDecreasing(calls) && n <= |calls|
    ensures CountAdmitted(calls, n, t - 3_600_000, t) <= 8
  {
    hide Admit, Retain;
    if n == 0 {
    } else {
      AtMostEightPerHour(calls, n - 1, t);
      var s, c := After(calls, n - 1), calls[n - 1];
      if c.now <= t && Admitted(calls, n - 1) {
        WindowIsHistory(calls, n - 1, t - HOUR_MS, t);
        WindowStep(s, c.mode, c.now, t - HOUR_MS);
        RetainShrinks(s.window, c.now - HOUR_MS, t - HOUR_MS);
      }
    }
  }

  function Capacity(n: Name): real { Get(INITIAL, n).capacity }

  function RefillMs(n: Name): (r: real)
    ensures 0.0 < r
  { Get(INITIAL, n).refillMs }

  lemma AdmitKeepsConstants(s: State, mode: string, now: int, name: Name)
    requires StateOk(s)
    ensures var s' := Admit(s, mode, now).0;
            && Get(s', name).capacity == Get(s, name).capacity
            && Get(s', name).refillMs == Get(s, name).refillMs
  {
  }

  lemma {:induction false} ConstantsKept(calls: seq<Call>, n: nat, name: Name)
    requires n <= |calls|
    ensures Get(After(calls, n), name).capacity == Capacity(name)
    ensures Get(After(calls, n), name).refillMs == RefillMs(name)
  {
    hide Admit;
    if n == 0 {
    } else {
      ConstantsKept(calls, n - 1, name);
      AdmitKeepsConstants(After(calls, n - 1), calls[n - 1].mode, calls[n - 1].now, name);
    }
  }

  /** A call takes one token from the bucket it is admitted by and none from the others. */
  lemma AdmitSpends(s: State, mode: string, now: int, name: Name)
    requires StateOk(s) && AllSeen(s, now)
    ensures var (s', ok) := Admit(s, mode, now);
            Refill(Get(s', name), now).tokens
            == Refill(Get(s, name), now).tokens - if ok && BucketOf(mode) == name then 1.0 else 0.0
  {
    RefillComposes(Get(s, name), now, now);
  }

  lemma RefillAccrues(b: Bucket, now: int)
    requires BucketOk(b) && Seen(b, now) && b.last.Some?
    ensures Refill(b, now).tokens <= b.tokens + Accrued(now - b.last.value, b.refillMs)
  {
  }

  /** Tokens of a bucket at time `now`, after the first `n` calls. */
  ghost function Left(calls: seq<Call>, n: nat, name: Name, now: int): real
    requires n <= |calls|
  {
    Refill(Get(After(calls, n), name), now).tokens
  }

  lemma {:induction false} LeftBounds(calls: seq<Call>, n: nat, name: Name, now: int)
    requires NonDecreasing(calls) && n <= |calls| && (n > 0 ==> calls[n - 1].now <= now)
    ensures 0.0 <= Left(calls, n, name, now) <= Capacity(name)
  {
    ConstantsKept(calls, n, name);
    AfterSeen(calls, n, now);
  }

  lemma {:induction false} LeftAfter(calls: seq<Call>, n: nat, name: Name, now: int)
    requires NonDecreasing(calls) && 0 < n <= |calls| && calls[n - 1].now <= now
    ensures var c := calls[n - 1];
            Left(calls, n, name, now) <= Left(calls, n - 1, name, c.now) + Accrued(now - c.now, RefillMs(name))
               - if Admitted(calls, n - 1) && BucketOf(c.mode) == name then 1.0 else 0.0
  {
    hide Admit, Accrued;
    var s, s', c := After(calls, n - 1), After(calls, n), calls[n - 1];
    ConstantsKept(calls, n, name);
    AfterSeen(calls, n - 1, c.now);
    AdmitSpends(s, c.mode, c.now, name);
    AfterSeen(calls, n, c.now);
    RefillComposes(Get(s', name), c.now, now);
    RefillAccrues(Refill(Get(s', name), c.now), now);
  }

  lemma {:induction false} EarlierDoNotCount(calls: seq<Call>, n: nat, name: Name, lo: int, hi: int)
    requires NonDecreasing(calls) && n <= |calls| && (n > 0 ==> calls[n - 1].now <= lo)
    ensures CountBy(calls, n, name, lo, hi) == 0
  {
    hide Admitted;
    if n == 0 {
    } else {
      EarlierDoNotCount(calls, n - 1, name, lo, hi);
    }
  }

  lemma {:induction false} SameCount(calls: seq<Call>, n: nat, name: Name, lo: int, t: int, u: int)
    requires NonDecreasing(calls) && n <= |calls| && t <= u && (n > 0 ==> calls[n - 1].now <= t)
    ensures CountBy(calls, n, name, lo, t) == CountBy(calls, n, name, lo, u)
  {
    hide Admitted;
    if n == 0 {
    } else {
      SameCount(calls, n - 1, name, lo, t, u);
    }
  }

  /** Admissions since `s` plus tokens left never exceed the capacity plus what `s..now` accrued. */
  lemma {:induction false} TokenAccount(calls: seq<Call>, n: nat, name: Name, s: int, now: int)
    requires NonDecreasing(calls) && n <= |calls| && s <= now && (n > 0 ==> calls[n - 1].now <= now)
    ensures CountBy(calls, n, name, s - 1, now) as real + Left(calls, n, name, now)
         <= Capacity(name) + Accrued(now - s, RefillMs(name))
  {
    hide Admit, Left, Accrued, Admitted;
    if n == 0 || calls[n - 1].now < s {
      EarlierDoNotCount(calls, n, name, s - 1, now);
      LeftBounds(calls, n, name, now);
    } else {
      var c := calls[n - 1];
      TokenAccount(calls, n - 1, name, s, c.now);
      SameCount(calls, n - 1, name, s - 1, c.now, now);
      LeftAfter(calls, n, name, now);
      AccruedAdds(c.now - s, now - c.now, RefillMs(name));
    }
  }

  /** Any closed interval [s, t] holds at most capacity + (t - s) / refill admissions of one bucket. */
  lemma {:induction false} BucketRate(calls: seq<Call>, n: nat, name: Name, s: int, t: int)
    requires NonDecreasing(calls) && n <= |calls| && s <= t
    ensures CountBy(calls, n, name, s - 1, t) as real <= Capacity(name) + Accrued(t - s, RefillMs(name))
  {
    hide Admitted, Left, Accrued;
    if n == 0 || calls[n - 1].now <= t {
      TokenAccount(calls, n, name, s, t);
      LeftBounds(calls, n, name, t);
    } else {
      BucketRate(calls, n - 1, name, s, t);
    }
  }

  // ---------------------------------------------------------------- one mode

  ghost predicate OneMode(calls: seq<Call>, mode: string) {
    forall i :: 0 <= i < |calls| ==> calls[i].mode == mode
  }

  lemma {:induction false} OneModeCounts(calls: seq<Call>, n: nat, mode: string, lo: int, hi: int)
    requires OneMode(calls, mode) && n <= |calls|
    ensures CountAdmitted(calls, n, lo, hi) == CountBy(calls, n, BucketOf(mode), lo, hi)
  {
    hide Admitted;
    if n == 0 {
    } else {
      OneModeCounts(calls, n - 1, mode, lo, hi);
    }
  }

  /** How many admissions one bucket allows in an hour. */
  function HourCap(name: Name): nat {
    match name case Mentor => 3 case Chaos => 7 case Quiet => 1
  }

  lemma HourCapFits(name: Name)
    ensures Capacity(name) + Accrued(HOUR_MS - 1, RefillMs(name)) < HourCap(name) as real + 1.0
  {
  }

  /** Calls of one mode never reach the global cap: their own bucket stops them first. */
  lemma OneModePerHour(calls: seq<Call>, n: nat, mode: string, t: int)
    requires NonDecreasing(calls) && OneMode(calls, mode) && n <= |calls|
    ensures CountAdmitted(calls, n, t - HOUR_MS, t) <= HourCap(BucketOf(mode)) < GLOBAL_CAP
  {
    hide Accrued, Admitted;
    OneModeCounts(calls, n, mode, t - HOUR_MS, t);
    BucketRate(calls, n, BucketOf(mode), t - HOUR_MS + 1, t);
    HourCapFits(BucketOf(mode));
  }

  // ---------------------------------------------------------------- what is guaranteed

  /** A call is admitted exactly when the last hour has room and its own bucket holds a token. */
  lemma AdmittedIff(calls: seq<Call>, n: nat)
    requires NonDecreasing(calls) && n < |calls|
    ensures var c := calls[n];
            Admitted(calls, n) <==>
              CountAdmitted(calls, n, c.now - 3_600_000, c.now) < 8
              && Left(calls, n, BucketOf(c.mode), c.now) >= 1.0
  {
    WindowIsHistory(calls, n, calls[n].now - HOUR_MS, calls[n].now);
  }

  /** A call that does not spend from a bucket leaves it as it would have been. */
  lemma AdmitSpares(s: State, mode: string, t: int, now: int, name: Name)
    requires StateOk(s) && AllSeen(s, t) && t <= now
    requires !(Admit(s, mode, t).1 && BucketOf(mode) == name)
    ensures Refill(Get(Admit(s, mode, t).0, name), now) == Refill(Get(s, name), now)
  {
    var s' := Admit(s, mode, t).0;
    AdmitSeen(s, mode, t, t);
    RefillComposes(Get(s, name), t, t);
    RefillComposes(Get(s, name), t, now);
    RefillComposes(Get(s', name), t, now);
  }

  /** What a bucket holds again some time after it was spent from. */
  lemma AdmitRefills(s: State, mode: string, t: int, t0: int, now: int)
    requires StateOk(s) && AllSeen(s, t) && t <= t0 <= now && Admit(s, mode, t).1
    ensures var b := Get(Admit(s, mode, t).0, BucketOf(mode));
            Refill(b, now).tokens >= Min(b.capacity, Accrued(now - t0, b.refillMs))
  {
    var b := Get(Admit(s, mode, t).0, BucketOf(mode));
    assert b.last == Some(t) && 0.0 <= b.tokens;
    AccruedAdds(now - t0, t0 - t, b.refillMs);
  }

  /** A bucket nothing was taken from since `t0` has accrued at least what `t0..now` is worth. */
  lemma {:induction false} TokensSince(calls: seq<Call>, n: nat, name: Name, t0: int, now: int)
    requires NonDecreasing(calls) && n <= |calls| && t0 <= now && (n > 0 ==> calls[n - 1].now <= now)
    requires CountBy(calls, n, name, t0, now) == 0
    ensures Left(calls, n, name, now) >= Min(Capacity(name), Accrued(now - t0, RefillMs(name)))
  {
    hide Admit, Accrued, Refill, StateOk;
    if n == 0 {
      assert Left(calls, 0, name, now) == Capacity(name) by { FullAtStart(name, now); }
    } else {
      var s, c := After(calls, n - 1), calls[n - 1];
      AfterSeen(calls, n - 1, c.now);
      if Admitted(calls, n - 1) && BucketOf(c.mode) == name {
        ConstantsKept(calls, n, name);
        AdmitRefills(s, c.mode, c.now, t0, now);
      } else {
        TokensSince(calls, n - 1, name, t0, now);
        AdmitSpares(s, c.mode, c.now, now, name);
      }
    }
  }

  lemma FullAtStart(name: Name, now: int)
    ensures Refill(Get(INITIAL, name), now).tokens == Capacity(name)
  {
  }

  /** Nobody starves: a call whose bucket has rested for its refill time is admitted unless eight
      others were admitted in the last hour. */
  lemma AdmittedWhenRested(calls: seq<Call>, n: nat, t0: int)
    requires NonDecreasing(calls) && n < |calls|
    requires var c := calls[n];
             && CountAdmitted(calls, n, c.now - HOUR_MS, c.now) < GLOBAL_CAP
             && t0 as real <= c.now as real - RefillMs(BucketOf(c.mode))
             && CountBy(calls, n, BucketOf(c.mode), t0, c.now) == 0
    ensures Admitted(calls, n)
  {
    hide Admit;
    var c := calls[n];
    TokensSince(calls, n, BucketOf(c.mode), t0, c.now);
    LongEnough(c.now - t0, RefillMs(BucketOf(c.mode)));
    AdmittedIff(calls, n);
  }

  lemma LongEnough(elapsed: int, refillMs: real)
    requires 0.0 < refillMs <= elapsed as real
    ensures Accrued(elapsed, refillMs) >= 1.0
  {
    var r := elapsed as real / refillMs;
    assert r * refillMs == elapsed as real;
    if r < 1.0 { assert r * refillMs < 1.0 * refillMs; }
  }

  // ---------------------------------------------------------------- in numbers

  /** How many of the first `n` calls in one of the three modes are admitted in (lo, hi]. A mode the
      source does not know counts as mentor. */
  ghost function CountMode(calls: seq<Call>, n: nat, mode: string, lo: int, hi: int): nat
    requires n <= |calls|
  {
    if n == 0 then 0
    else
      var m := calls[n - 1].mode;
      CountMode(calls, n - 1, mode, lo, hi)
      + if Admitted(calls, n - 1) && lo < calls[n - 1].now <= hi
           && (if mode == "mentor" then m != "chaos" && m != "quiet" else m == mode) then 1 else 0
  }

  lemma {:induction false} CountModeIs(calls: seq<Call>, n: nat, mode: string, lo: int, hi: int)
    requires n <= |calls| && (mode == "mentor" || mode == "chaos" || mode == "quiet")
    ensures CountMode(calls, n, mode, lo, hi) == CountBy(calls, n, BucketOf(mode), lo, hi)
  {
    hide Admitted;
    if n == 0 {
    } else {
      CountModeIs(calls, n - 1, mode, lo, hi);
    }
  }

  /** Capacity and milliseconds per token of each mode. */
  lemma Rates()
    ensures Capacity(BucketOf("mentor")) == 2.0 && RefillMs(BucketOf("mentor")) == 1_800_000.0
    ensures Capacity(BucketOf("chaos")) == 2.0 && RefillMs(BucketOf("chaos")) == 600_000.0
    ensures Capacity(BucketOf("quiet")) == 1.0 && RefillMs(BucketOf("quiet")) == 7_200_000.0
  {
  }

  /** At most: 2 and one for each 30 minutes, 2 and one for each 10, 1 and one for each 2 hours. */
  lemma ModeRates(calls: seq<Call>, n: nat, s: int, t: int)
    requires NonDecreasing(calls) && n <= |calls| && s <= t
    ensures CountMode(calls, n, "mentor", s - 1, t) as real <= 2.0 + (t - s) as real / 1_800_000.0
    ensures CountMode(calls, n, "chaos", s - 1, t) as real <= 2.0 + (t - s) as real / 600_000.0
    ensures CountMode(calls, n, "quiet", s - 1, t) as real <= 1.0 + (t - s) as real / 7_200_000.0
  {
    hide Admitted, CountMode, CountBy, Capacity, RefillMs, BucketOf;
    Rates();
    CountModeIs(calls, n, "mentor", s - 1, t);
    CountModeIs(calls, n, "chaos", s - 1, t);
    CountModeIs(calls, n, "quiet", s - 1, t);
    BucketRate(calls, n, BucketOf("mentor"), s, t);
    BucketRate(calls, n, BucketOf("chaos"), s, t);
    BucketRate(calls, n, BucketOf("quiet"), s, t);
  }

  /** And at least: of a call of `mode` that finds no admission of its mode since `t0`, how long ago `t0`
      must be for it to be admitted while the hour has room. */
  lemma ModeRested(calls: seq<Call>, n: nat, mode: string, t0: int)
    requires NonDecreasing(calls) && n < |calls| && (mode == "mentor" || mode == "chaos" || mode == "quiet")
    requires calls[n].mode == mode && CountAdmitted(calls, n, calls[n].now - 3_600_000, calls[n].now) < 8
    requires CountMode(calls, n, mode, t0, calls[n].now) == 0
    requires calls[n].now - t0 >= if mode == "mentor" then 1_800_000 else if mode == "chaos" then 600_000 else 7_200_000
    ensures Admitted(calls, n)
  {
    hide Admit, CountMode, CountBy, CountAdmitted;
    CountModeIs(calls, n, mode, t0, calls[n].now);
    AdmittedWhenRested(calls, n, t0);
  }

  /** A mode never used before holds its whole capacity: of calls at one moment 2, 2 and 1 are admitted. */
  lemma ModeBursts(calls: seq<Call>, n: nat, mode: string)
    requires NonDecreasing(calls) && n < |calls| && (mode == "mentor" || mode == "chaos" || mode == "quiet")
    requires forall i :: 0 <= i <= n ==> calls[i].mode == mode && calls[i].now == calls[n].now
    ensures Admitted(calls, n) <==> n < if mode == "quiet" then 1 else 2
  {
    hide Admitted, Left, BucketOf, CountAdmitted;
    BurstLeft(calls, n, mode, calls[n].now);
    AdmittedIff(calls, n);
  }

  /** Tokens left and calls admitted after `n` calls at one moment. */
  ghost predicate Burst(left: real, count: int, n: nat, cap: nat) {
    left == (if n < cap then cap - n else 0) as real && count <= if n < cap then n else cap
  }

  lemma BurstStep(left: real, count: int, n: nat, cap: nat, ok: bool)
    requires Burst(left, count, n, cap) && cap <= 2 && (ok <==> count < 8 && left >= 1.0)
    ensures Burst(left - if ok then 1.0 else 0.0, count + if ok then 1 else 0, n + 1, cap)
  {
  }

  lemma LeftSpent(calls: seq<Call>, n: nat, name: Name)
    requires NonDecreasing(calls) && 0 < n <= |calls| && BucketOf(calls[n - 1].mode) == name
    ensures var now := calls[n - 1].now;
            Left(calls, n, name, now) == Left(calls, n - 1, name, now) - if Admitted(calls, n - 1) then 1.0 else 0.0
  {
    var now := calls[n - 1].now;
    AfterSeen(calls, n - 1, now);
    AdmitSpends(After(calls, n - 1), calls[n - 1].mode, now, name);
    hide Admit, Refill, StateOk;
  }

  lemma CountLast(calls: seq<Call>, n: nat, lo: int, hi: int)
    requires 0 < n <= |calls|
    ensures CountAdmitted(calls, n, lo, hi)
         == CountAdmitted(calls, n - 1, lo, hi) + if Admitted(calls, n - 1) && lo < calls[n - 1].now <= hi then 1 else 0
  {
  }

  lemma BurstStart(calls: seq<Call>, mode: string, now: int)
    requires mode == "mentor" || mode == "chaos" || mode == "quiet"
    ensures Burst(Left(calls, 0, BucketOf(mode), now), CountAdmitted(calls, 0, now - 3_600_000, now), 0,
                  if mode == "quiet" then 1 else 2)
  {
    FullAtStart(BucketOf(mode), now);
    Rates();
  }

  lemma {:induction false} BurstLeft(calls: seq<Call>, n: nat, mode: string, now: int)
    requires NonDecreasing(calls) && n <= |calls| && (mode == "mentor" || mode == "chaos" || mode == "quiet")
    requires forall i :: 0 <= i < n ==> calls[i].mode == mode && calls[i].now == now
    ensures Burst(Left(calls, n, BucketOf(mode), now), CountAdmitted(calls, n, now - 3_600_000, now), n,
                  if mode == "quiet" then 1 else 2)
  {
    hide Burst, Admitted, Left, BucketOf, CountAdmitted;
    if n == 0 {
      BurstStart(calls, mode, now);
    } else {
      BurstLeft(calls, n - 1, mode, now);
      AdmittedIff(calls, n - 1);
      LeftSpent(calls, n, BucketOf(mode));
      CountLast(calls, n, now - 3_600_000, now);
      BurstStep(Left(calls, n - 1, BucketOf(mode), now), CountAdmitted(calls, n - 1, now - 3_600_000, now), n - 1,
                if mode == "quiet" then 1 else 2, Admitted(calls, n - 1));
    }
  }

  // ---------------------------------------------------------------- objects

  class BucketState {
    var tokens: real
    var lastRefillMs: Option<int>
    const capacity: real
    const refillMs: real

    constructor (capacity: real, refillMs: real)
      ensures Value() == Bucket(capacity, None, capacity, refillMs)
    {
      this.tokens, this.lastRefillMs := capacity, None;
      this.capacity, this.refillMs := capacity, refillMs;
    }

    ghost function Value(): Bucket
      reads this
    {
      Bucket(tokens, lastRefillMs, capacity, refillMs)
    }

    method RefillAt(now: int)
      requires 0.0 < refillMs
      modifies this
      ensures Value() == Refill(old(Value()), now)
    {
      match lastRefillMs {
        case None =>
          lastRefillMs := Some(now);
        case Some(last) =>
          var elapsed := if now - last > 0 then now - last else 0;
          var accrued := elapsed as real / refillMs;
          tokens := if tokens + accrued <= capacity then tokens + accrued else capacity;
          lastRefillMs := Some(now);
      }
    }

    method TryConsume() returns (ok: bool)
      modifies this
      ensures (Value(), ok) == Consume(old(Value()))
    {
      if tokens >= 1.0 {
        tokens := tokens - 1.0;
        ok := true;
      } else {
        ok := false;
      }
    }
  }

  class Governor {
    const mentor: BucketState
    const chaos: BucketState
    const quiet: BucketState
    var globalWindow: seq<int>

    constructor ()
      ensures Valid() && Value() == INITIAL && fresh(mentor) && fresh(chaos) && fresh(quiet)
    {
      mentor := new BucketState(2.0, 1_800_000.0);
      chaos := new BucketState(2.0, 600_000.0);
      quiet := new BucketState(1.0, 7_200_000.0);
      globalWindow := [];
    }

    ghost function Value(): State
      reads this, mentor, chaos, quiet
    {
      State(mentor.Value(), chaos.Value(), quiet.Value(), globalWindow)
    }

    ghost predicate Valid()
      reads this, mentor, chaos, quiet
    {
      mentor != chaos && chaos != quiet && mentor != quiet && StateOk(Value())
    }

    method AdmitCall(mode: string, now: int) returns (ok: bool)
      requires Valid()
      modifies this, mentor, chaos, quiet
      ensures Valid()
      ensures (Value(), ok) == Admit(old(Value()), mode, now)
    {
      ghost var before := Value();
      globalWindow := Retain(globalWindow, now - HOUR_MS);
      if |globalWindow| >= GLOBAL_CAP {
        return false;
      }
      var bucket := if mode == "chaos" then chaos else if mode == "quiet" then quiet else mentor;
      bucket.RefillAt(now);
      ok := bucket.TryConsume();
      if ok {
        globalWindow := globalWindow + [now];
      }
      assert (Value(), ok) == Admit(before, mode, now);
    }
  }
}
