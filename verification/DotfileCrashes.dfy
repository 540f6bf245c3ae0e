/** Crashes in the middle of an apply or a revert: the file is written first, then the blobs, then the
    audit row, then the mark on a reverted edit, and a crash can fall between any two of these. */
module DotfileCrashes {
  import opened Basics
  import opened Dotfile

  /** A call carried out; one cut short before its row, with the file and any of its blobs written;
      or a revert cut short between its row and the mark. */
  datatype Episode =
    | Went(op: Op)
    | Torn(path: string, bytes: Bytes)
    | Unmarked(target: string, id: string)

  /** What a crash cannot break. The marks are not part of it. */
  ghost predicate Sound(sha: Bytes -> string, s: State) {
    BlobsOk(sha, s.blobs) && EditsOk(s)
  }

  ghost predicate Follows(sha: Bytes -> string, s: State, l: Episode, s': State) {
    match l
    case Went(op) => Next(sha, s, op, s')
    case Torn(path, bytes) =>
      && s'.files == s.files[path := bytes] && s'.edits == s.edits
      && (forall b :: b in s.blobs ==> b in s'.blobs && s'.blobs[b] == s.blobs[b])
      && BlobsOk(sha, s'.blobs)
    case Unmarked(target, id) =>
      && !Known(s.edits, id) && Known(s.edits, target) && |s'.edits| == |s.edits| + 1
      && (var t := IndexOf(s.edits, target);
          var e := s'.edits[|s.edits|];
          && s.edits[t].revertedBy == None
          && e.id == id && e.reverts == Some(target)
          && Wrote(sha, s.files, s.blobs, s.edits[t].path, Before(s.blobs, s.edits[t]), e, s'.files, s'.blobs)
          && s'.edits == s.edits + [e])
  }

  ghost predicate Recorded(sha: Bytes -> string, states: seq<State>, episodes: seq<Episode>) {
    && |states| == |episodes| + 1
    && states[0].edits == [] && BlobsOk(sha, states[0].blobs)
    && forall i, j :: 0 <= i < |episodes| && j == i + 1 ==> Follows(sha, states[i], episodes[i], states[j])
  }

  lemma EditsAppend(s: State, s': State, e: Edit)
    requires EditsOk(s) && !Known(s.edits, e.id) && |s'.edits| == |s.edits| + 1 && s'.edits[|s.edits|] == e
    requires e.before in s'.blobs && e.after in s'.blobs
    requires forall b :: b in s.blobs ==> b in s'.blobs
    requires forall i :: 0 <= i < |s.edits| ==>
               && s'.edits[i].id == s.edits[i].id
               && s'.edits[i].before == s.edits[i].before && s'.edits[i].after == s.edits[i].after
    ensures EditsOk(s')
  {
    UnknownId(s.edits, e.id);
  }

  lemma EpisodeKeepsSound(sha: Bytes -> string, s: State, l: Episode, s': State)
    requires Sound(sha, s) && Follows(sha, s, l, s')
    ensures Sound(sha, s')
  {
    hide IndexOf, MarksOk;
    if |s'.edits| == |s.edits| + 1 { EditsAppend(s, s', s'.edits[|s.edits|]); }
  }

  lemma {:induction false} AlwaysSound(sha: Bytes -> string, states: seq<State>, episodes: seq<Episode>, n: nat)
    requires Recorded(sha, states, episodes) && n <= |episodes|
    ensures Sound(sha, states[n])
  {
    if n == 0 {
    } else {
      hide Follows, Sound;
      AlwaysSound(sha, states, episodes, n - 1);
      EpisodeKeepsSound(sha, states[n - 1], episodes[n - 1], states[n]);
    }
  }

  // ---------------------------------------------------------------- gaps in the chain

  /** Places where the audit rows of a path do not continue: a row whose before bytes are not the
      previous row's after bytes, and a file that does not hold the newest row's. */
  ghost function Gaps(h: seq<(Bytes, Bytes)>, origin: Bytes, current: Bytes): nat {
    if h == [] then Gap(origin, current)
    else Gaps(h[..|h| - 1], origin, h[|h| - 1].0) + Gap(h[|h| - 1].1, current)
  }

  function Gap(a: Bytes, b: Bytes): nat { if a == b then 0 else 1 }

  /** Writes to `path` that a crash left without a row. */
  ghost function TornAt(episodes: seq<Episode>, n: nat, path: string): nat
    requires n <= |episodes|
  {
    if n == 0 then 0
    else TornAt(episodes, n - 1, path) + if episodes[n - 1].Torn? && episodes[n - 1].path == path then 1 else 0
  }

  lemma {:induction false} ChainHasNoGaps(h: seq<(Bytes, Bytes)>, origin: Bytes, current: Bytes)
    ensures Gaps(h, origin, current) == 0 <==> IsChain(h, origin, current)
  {
    if h == [] {
    } else {
      var init, x := h[..|h| - 1], h[|h| - 1];
      ChainHasNoGaps(init, origin, x.0);
      if IsChain(h, origin, current) { assert forall i :: 0 <= i < |init| ==> init[i] == h[i]; }
      if Gaps(h, origin, current) == 0 {
        ChainGrows(init, origin, x.0, x.1);
        assert init + [x] == h;
      }
    }
  }

  lemma GapsSnoc(h: seq<(Bytes, Bytes)>, origin: Bytes, current: Bytes, next: Bytes)
    ensures Gaps(h + [(current, next)], origin, next) == Gaps(h, origin, current)
  {
    assert (h + [(current, next)])[..|h|] == h;
  }

  lemma GapsMove(h: seq<(Bytes, Bytes)>, origin: Bytes, current: Bytes, next: Bytes)
    ensures Gaps(h, origin, next) <= Gaps(h, origin, current) + 1
  {
  }

  ghost function PathGaps(s: State, path: string, origin: Bytes): nat {
    Gaps(Trace(s.blobs, s.edits, path), origin, ReadFile(s.files, path))
  }

  /** One more row, over what the file held. */
  lemma RowAddsNoGap(s: State, s': State, path: string, origin: Bytes)
    requires EditsOk(s) && |s'.edits| == |s.edits| + 1
    requires forall b :: b in s.blobs ==> b in s'.blobs && s'.blobs[b] == s.blobs[b]
    requires forall i :: 0 <= i < |s.edits| ==>
               && s'.edits[i].path == s.edits[i].path
               && s'.edits[i].before == s.edits[i].before && s'.edits[i].after == s.edits[i].after
    requires var e := s'.edits[|s.edits|];
             Before(s'.blobs, e) == ReadFile(s.files, e.path) && s'.files == s.files[e.path := After(s'.blobs, e)]
    ensures PathGaps(s', path, origin) == PathGaps(s, path, origin)
  {
    hide Gaps, Before, After;
    var e, h := s'.edits[|s.edits|], Trace(s.blobs, s.edits, path);
    TraceStable(s.blobs, s.edits, s'.blobs, s'.edits[..|s.edits|], path);
    if e.path == path {
      GapsSnoc(h, origin, ReadFile(s.files, path), After(s'.blobs, e));
    } else {
      assert h + [] == h;
    }
  }

  lemma TornAddsOneGap(sha: Bytes -> string, s: State, l: Episode, s': State, path: string, origin: Bytes)
    requires Sound(sha, s) && Follows(sha, s, l, s') && l.Torn?
    ensures PathGaps(s', path, origin) <= PathGaps(s, path, origin) + if l.path == path then 1 else 0
  {
    hide Gaps;
    var h := Trace(s.blobs, s.edits, path);
    TraceStable(s.blobs, s.edits, s'.blobs, s'.edits, path);
    GapsMove(h, origin, ReadFile(s.files, path), ReadFile(s'.files, path));
  }

  lemma EpisodeGaps(sha: Bytes -> string, s: State, l: Episode, s': State, path: string, origin: Bytes)
    requires Sound(sha, s) && Follows(sha, s, l, s')
    ensures PathGaps(s', path, origin) <= PathGaps(s, path, origin) + if l.Torn? && l.path == path then 1 else 0
  {
    hide PathGaps, IndexOf, MarksOk;
    match l {
      case Went(op) => if !op.Reject? { RowAddsNoGap(s, s', path, origin); }
      case Torn(_, _) => TornAddsOneGap(sha, s, l, s', path, origin);
      case Unmarked(_, _) => RowAddsNoGap(s, s', path, origin);
    }
  }

  /** Main result: every gap in a path's audit chain is owed to a crash that wrote the path and left no
      row; no other crash and no number of later edits adds one. */
  lemma {:induction false} GapsAreCrashes(
    sha: Bytes -> string, states: seq<State>, episodes: seq<Episode>, n: nat, path: string)
    requires Recorded(sha, states, episodes) && n <= |episodes|
    ensures PathGaps(states[n], path, ReadFile(states[0].files, path)) <= TornAt(episodes, n, path)
  {
    if n == 0 {
    } else {
      hide Follows, Sound, PathGaps;
      GapsAreCrashes(sha, states, episodes, n - 1, path);
      AlwaysSound(sha, states, episodes, n - 1);
      EpisodeGaps(sha, states[n - 1], episodes[n - 1], states[n], path, ReadFile(states[0].files, path));
    }
  }

  /** A path that no crash tore is still chained, whatever happened to others. */
  lemma UntornIsChained(sha: Bytes -> string, states: seq<State>, episodes: seq<Episode>, n: nat, path: string)
    requires Recorded(sha, states, episodes) && n <= |episodes| && TornAt(episodes, n, path) == 0
    ensures Chained(states[n], path, ReadFile(states[0].files, path))
  {
    GapsAreCrashes(sha, states, episodes, n, path);
    ChainHasNoGaps(Trace(states[n].blobs, states[n].edits, path),
                   ReadFile(states[0].files, path), ReadFile(states[n].files, path));
  }

  /** A crash that tears a write breaks a chained path if and only if it changed what the file holds. */
  lemma TornBreaksIff(sha: Bytes -> string, s: State, path: string, bytes: Bytes, s': State, origin: Bytes)
    requires Sound(sha, s) && Chained(s, path, origin) && Follows(sha, s, Torn(path, bytes), s')
    ensures Chained(s', path, origin) <==> bytes == ReadFile(s.files, path)
  {
    TraceStable(s.blobs, s.edits, s'.blobs, s'.edits, path);
  }

  // ---------------------------------------------------------------- edits reverted twice

  /** The rows that revert `target`. */
  ghost function Reverting(edits: seq<Edit>, target: string): nat {
    if edits == [] then 0
    else Reverting(edits[..|edits| - 1], target) + if edits[|edits| - 1].reverts == Some(target) then 1 else 0
  }

  ghost function UnmarkedAt(episodes: seq<Episode>, n: nat, target: string): nat
    requires n <= |episodes|
  {
    if n == 0 then 0
    else UnmarkedAt(episodes, n - 1, target)
         + if episodes[n - 1].Unmarked? && episodes[n - 1].target == target then 1 else 0
  }

  ghost predicate IsMarked(edits: seq<Edit>, target: string) {
    exists i :: 0 <= i < |edits| && edits[i].id == target && edits[i].revertedBy.Some?
  }

  lemma {:induction false} RevertingStable(edits: seq<Edit>, edits': seq<Edit>, target: string)
    requires |edits| == |edits'| && forall i :: 0 <= i < |edits| ==> edits'[i].reverts == edits[i].reverts
    ensures Reverting(edits', target) == Reverting(edits, target)
  {
    if edits == [] {
    } else {
      RevertingStable(edits[..|edits| - 1], edits'[..|edits| - 1], target);
    }
  }

  /** What a step does to the number of reverts of `target` and to its mark. */
  lemma EpisodeReverts(sha: Bytes -> string, s: State, l: Episode, s': State, target: string)
    requires Sound(sha, s) && Follows(sha, s, l, s')
    ensures var undoes := l.Went? && l.op.Revert? && l.op.target == target;
            && Reverting(s'.edits, target) == Reverting(s.edits, target)
                 + (if undoes || (l.Unmarked? && l.target == target) then 1 else 0)
            && (IsMarked(s'.edits, target) <==> IsMarked(s.edits, target) || undoes)
            && (undoes ==> !IsMarked(s.edits, target))
  {
    if |s'.edits| == |s.edits| + 1 {
      RevertingStable(s.edits, s'.edits[..|s.edits|], target);
      MarkedStep(sha, s, l, s', target);
    }
  }

  lemma MarkedStep(sha: Bytes -> string, s: State, l: Episode, s': State, target: string)
    requires Sound(sha, s) && Follows(sha, s, l, s') && |s'.edits| == |s.edits| + 1
    ensures var undoes := l.Went? && l.op.Revert? && l.op.target == target;
            && (IsMarked(s'.edits, target) <==> IsMarked(s.edits, target) || undoes)
            && (undoes ==> !IsMarked(s.edits, target))
  {
    hide BlobsOk, MarksOk, Before, After;
    var edits, edits' := s.edits, s'.edits;
    if IsMarked(edits, target) {
      var i :| 0 <= i < |edits| && edits[i].id == target && edits[i].revertedBy.Some?;
      assert edits'[i].id == target && edits'[i].revertedBy.Some?;
    }
    if l.Went? && l.op.Revert? && l.op.target == target {
      var t := IndexOf(edits, target);
      assert edits'[t].id == target && edits'[t].revertedBy.Some?;
    }
    if IsMarked(edits', target) {
      var i :| 0 <= i < |edits'| && edits'[i].id == target && edits'[i].revertedBy.Some?;
      assert i < |edits|;
    }
  }

  /** An edit is reverted exactly once for each revert of it that a crash left unmarked, and once more
      if it carries its mark; without such crashes, at most once. */
  lemma {:induction false} RevertsAreCounted(
    sha: Bytes -> string, states: seq<State>, episodes: seq<Episode>, n: nat, target: string)
    requires Recorded(sha, states, episodes) && n <= |episodes|
    ensures Reverting(states[n].edits, target)
         == UnmarkedAt(episodes, n, target) + if IsMarked(states[n].edits, target) then 1 else 0
  {
    if n == 0 {
    } else {
      hide Follows, Sound, Reverting, IsMarked;
      RevertsAreCounted(sha, states, episodes, n - 1, target);
      AlwaysSound(sha, states, episodes, n - 1);
      EpisodeReverts(sha, states[n - 1], episodes[n - 1], states[n], target);
    }
  }
}
