/** The nightly confidence decay of memories, one job and whole runs of jobs. */
module Decay {

  const DAY_MS := 86_400_000
  const DECAY_MS := 30 * DAY_MS
  const ARCHIVE_THRESHOLD := 0.2
  const FACTOR := 0.95

  datatype Memory = Memory(confidence: real, updated: int, archived: bool)

  predicate Due(m: Memory, now: int) { !m.archived && m.updated < now - DECAY_MS }

  /** What one job that started at `now` does to a memory, its write being stamped `stamp`. An
      archived memory keeps the confidence it had. */
  function Nightly(m: Memory, now: int, stamp: int): Memory {
    if !Due(m, now) then m
    else if m.confidence * FACTOR < ARCHIVE_THRESHOLD then m.(archived := true, updated := stamp)
    else m.(confidence := m.confidence * FACTOR, updated := stamp)
  }

  // ---------------------------------------------------------------- the job over the table

  class MemoryStore {
    var memories: map<string, Memory>
    var clock: int

    constructor (memories: map<string, Memory>, clock: int)
      ensures this.memories == memories && this.clock == clock
    {
      this.memories, this.clock := memories, clock;
    }

    /** Time passes between any two commands. */
    method Now() returns (now: int)
      modifies this`clock
      ensures now == clock >= old(clock)
    {
      var passed: nat :| true;
      clock := clock + passed;
      return clock;
    }

    method UpdateConfidence(id: string, confidence: real)
      modifies this
      ensures clock >= old(clock)
      ensures memories == if id in old(memories)
                          then old(memories)[id := old(memories)[id].(confidence := confidence, updated := clock)]
                          else old(memories)
    {
      var now := Now();
      if id in memories { memories := memories[id := memories[id].(confidence := confidence, updated := now)]; }
    }

    method Archive(id: string)
      modifies this
      ensures clock >= old(clock)
      ensures memories == if id in old(memories)
                          then old(memories)[id := old(memories)[id].(archived := true, updated := clock)]
                          else old(memories)
    {
      var now := Now();
      if id in memories { memories := memories[id := memories[id].(archived := true, updated := now)]; }
    }

    /** The decay step of one job: every memory takes its nightly step, stamped within the job. */
    method DecayAll(now: int)
      requires now <= clock
      modifies this
      ensures clock >= old(clock) && memories.Keys == old(memories).Keys
      ensures forall id :: id in memories ==>
                exists stamp :: now <= stamp <= clock && memories[id] == Nightly(old(memories)[id], now, stamp)
    {
      var all := memories;
      var todo := set id | id in all && !all[id].archived;
      ghost var start := clock;
      forall id | id in all && id !in todo
        ensures exists stamp :: now <= stamp <= clock && memories[id] == Nightly(all[id], now, stamp)
      {
        assert memories[id] == Nightly(all[id], now, now);
      }
      while todo != {}
        invariant todo <= all.Keys && memories.Keys == all.Keys && clock >= start
        invariant forall id :: id in todo ==> memories[id] == all[id] && !all[id].archived
        invariant forall id :: id in all && id !in todo ==>
                    exists stamp :: now <= stamp <= clock && memories[id] == Nightly(all[id], now, stamp)
        decreases todo
      {
        var id :| id in todo;
        todo := todo - {id};
        ghost var before, reached := memories, clock;
        var mem := all[id];
        if mem.updated < now - DECAY_MS {
          var confidence := mem.confidence * FACTOR;
          if confidence < ARCHIVE_THRESHOLD {
            Archive(id);
          } else {
            UpdateConfidence(id, confidence);
          }
        }
        assert memories[id] == Nightly(all[id], now, clock);
        forall other | other in all && other !in todo
          ensures exists stamp :: now <= stamp <= clock && memories[other] == Nightly(all[other], now, stamp)
        {
          if other != id {
            var stamp :| now <= stamp <= reached && before[other] == Nightly(all[other], now, stamp);
            assert memories[other] == before[other];
          }
        }
      }
    }
  }

  // ---------------------------------------------------------------- runs of jobs

  datatype Job = Job(now: int, stamp: int)

  /** Jobs in time order: each writes after it starts and before the next one starts. */
  ghost predicate Timed(jobs: seq<Job>) {
    && (forall i :: 0 <= i < |jobs| ==> jobs[i].now <= jobs[i].stamp)
    && (forall i, j :: 0 <= i < j < |jobs| ==> jobs[i].stamp <= jobs[j].now)
  }

  ghost function After(m: Memory, jobs: seq<Job>): Memory {
    if jobs == [] then m
    else Nightly(After(m, jobs[..|jobs| - 1]), jobs[|jobs| - 1].now, jobs[|jobs| - 1].stamp)
  }

  /** Did job `i` decay or archive the memory? */
  ghost predicate Effective(m: Memory, jobs: seq<Job>, i: nat)
    requires i < |jobs|
  {
    Due(After(m, jobs[..i]), jobs[i].now)
  }

  ghost function Steps(m: Memory, jobs: seq<Job>): nat {
    if jobs == [] then 0
    else Steps(m, jobs[..|jobs| - 1]) + if Due(After(m, jobs[..|jobs| - 1]), jobs[|jobs| - 1].now) then 1 else 0
  }

  function Pow(b: real, n: nat): real { if n == 0 then 1.0 else b * Pow(b, n - 1) }

  lemma {:induction false} PowAdds(b: real, m: nat, n: nat)
    ensures Pow(b, m + n) == Pow(b, m) * Pow(b, n)
  {
    if m == 0 {
    } else {
      PowAdds(b, m - 1, n);
    }
  }

  lemma {:induction false} PowFalls(m: nat, n: nat)
    requires m <= n
    ensures 0.0 < Pow(FACTOR, n) <= Pow(FACTOR, m) <= 1.0
    decreases n
  {
    if m < n {
      PowFalls(m, n - 1);
    } else if n > 0 {
      PowFalls(n - 1, n - 1);
    }
  }

  /** `c` after `k` decays. */
  function Decayed(c: real, k: nat): real { if k == 0 then c else Decayed(c, k - 1) * FACTOR }

  lemma {:induction false} DecayedIsPower(c: real, k: nat)
    ensures Decayed(c, k) == c * Pow(0.95, k)
  {
    if k == 0 {
    } else {
      DecayedIsPower(c, k - 1);
      var p := Pow(FACTOR, k - 1);
      assert (c * p) * FACTOR == c * (FACTOR * p);
    }
  }

  lemma {:induction false} DecayedBelowOne(c: real, k: nat)
    requires c <= 1.0
    ensures Decayed(c, k) <= Decayed(1.0, k)
  {
    if k == 0 {
    } else {
      DecayedBelowOne(c, k - 1);
    }
  }

  /** After `k` steps the confidence is `k` decays of the first one, and the memory is archived
      exactly when that falls under the threshold; the archiving step itself leaves the stored
      confidence alone. */
  lemma {:induction false} ConfidenceAfter(m: Memory, jobs: seq<Job>)
    requires !m.archived
    ensures var k, r := Steps(m, jobs), After(m, jobs);
            && (r.archived <==> k > 0 && Decayed(m.confidence, k) < 0.2)
            && r.confidence == Decayed(m.confidence, if r.archived then k - 1 else k)
  {
    if jobs == [] {
    } else {
      ConfidenceAfter(m, jobs[..|jobs| - 1]);
    }
  }

  /** A job takes a step on a memory exactly when it is not archived and was last written more than 30
      days before the job; the step writes it. */
  lemma EffectiveIff(m: Memory, jobs: seq<Job>, i: nat)
    requires i < |jobs|
    ensures var at, later := After(m, jobs[..i]), After(m, jobs[..i + 1]);
            && (Effective(m, jobs, i) <==> !at.archived && jobs[i].now - at.updated > 30 * 24 * 60 * 60 * 1000)
            && (if Effective(m, jobs, i) then later.updated == jobs[i].stamp else later == at)
  {
    assert jobs[..i + 1][..i] == jobs[..i];
  }

  /** An archived memory is never touched again. */
  lemma {:induction false} ArchivedStays(m: Memory, jobs: seq<Job>, n: nat)
    requires n <= |jobs| && After(m, jobs[..n]).archived
    ensures After(m, jobs) == After(m, jobs[..n])
    ensures forall i :: n <= i < |jobs| ==> !Effective(m, jobs, i)
    decreases |jobs|
  {
    if n == |jobs| {
      assert jobs[..n] == jobs;
    } else {
      var init := jobs[..|jobs| - 1];
      assert init[..n] == jobs[..n];
      ArchivedStays(m, init, n);
      forall i | n <= i < |jobs| ensures !Effective(m, jobs, i) {
        if i < |init| {
          assert init[..i] == jobs[..i];
          assert !Effective(m, init, i);
        }
      }
    }
  }

  /** After an effective step the memory was last written at that job or later. */
  lemma {:induction false} WrittenSince(m: Memory, jobs: seq<Job>, i: nat)
    requires Timed(jobs) && i < |jobs| && Effective(m, jobs, i)
    ensures After(m, jobs).updated >= jobs[i].stamp
    decreases |jobs|
  {
    var init := jobs[..|jobs| - 1];
    if i < |jobs| - 1 {
      assert init[..i] == jobs[..i];
      WrittenSince(m, init, i);
      assert jobs[i].stamp <= jobs[|jobs| - 1].now;
    }
  }

  /** Two steps on the same memory are more than 30 days apart. */
  lemma StepsAreFarApart(m: Memory, jobs: seq<Job>, i: nat, j: nat)
    requires Timed(jobs) && i < j < |jobs| && Effective(m, jobs, i) && Effective(m, jobs, j)
    ensures jobs[j].now - jobs[i].stamp > 2_592_000_000
  {
    assert jobs[..j][..i] == jobs[..i];
    WrittenSince(m, jobs[..j], i);
  }

  lemma ThirtyTwoSteps()
    ensures Pow(FACTOR, 32) < ARCHIVE_THRESHOLD <= Pow(FACTOR, 31)
  {
    var p := Pow(FACTOR, 1);
    assert p == FACTOR;
    PowAdds(FACTOR, 1, 1);
    PowAdds(FACTOR, 2, 2);
    PowAdds(FACTOR, 4, 4);
    PowAdds(FACTOR, 8, 8);
    PowAdds(FACTOR, 16, 16);
    assert Pow(FACTOR, 2) == 0.9025;
    assert 0.8145 <= Pow(FACTOR, 4) <= 0.8146;
    assert 0.6634 <= Pow(FACTOR, 8) <= 0.6636;
    assert 0.4401 <= Pow(FACTOR, 16) <= 0.4404;
    assert Pow(FACTOR, 32) == Pow(FACTOR, 16) * Pow(FACTOR, 16);
    assert Pow(FACTOR, 32) == FACTOR * Pow(FACTOR, 31);
  }

  /** A memory of confidence at most 1 is archived no later than its 32nd step. */
  lemma {:induction false} ArchivedByStep32(m: Memory, jobs: seq<Job>)
    requires !m.archived && m.confidence <= 1.0
    ensures Steps(m, jobs) <= 32
    ensures Steps(m, jobs) == 32 ==> After(m, jobs).archived
  {
    hide Pow, Decayed;
    if jobs == [] {
    } else {
      ArchivedByStep32(m, jobs[..|jobs| - 1]);
      ConfidenceAfter(m, jobs[..|jobs| - 1]);
      ConfidenceAfter(m, jobs);
      ThirtyTwoSteps();
      DecayedBelowOne(m.confidence, 32);
      DecayedIsPower(1.0, 32);
    }
  }

  /** The bound is tight: full confidence survives 31 steps. */
  lemma FullConfidenceLasts31(m: Memory, jobs: seq<Job>)
    requires m.confidence == 1.0 && !m.archived && After(m, jobs).archived
    ensures Steps(m, jobs) == 32
  {
    hide After, Steps, Pow, Decayed;
    ConfidenceAfter(m, jobs);
    ArchivedByStep32(m, jobs);
    ThirtyTwoSteps();
    if Steps(m, jobs) <= 31 {
      PowFalls(Steps(m, jobs), 31);
      DecayedIsPower(1.0, Steps(m, jobs));
    }
  }
}
