/** Dotfile edits: apply and revert over content-addressed blobs, and the audit chain they leave. */
module Dotfile {
  import opened Basics
  import V = Validation

  type Files = map<string, Bytes>

  datatype Blob = Blob(digest: string, bytes: Bytes)

  type Blobs = map<string, Blob>

  /** One audit row. `reverts` is the edit a revert row undoes, `revertedBy` the row that undid this one. */
  datatype Edit = Edit(
    id: string, path: string, before: string, after: string, reverts: Option<string>, revertedBy: Option<string>)

  datatype State = State(files: Files, blobs: Blobs, edits: seq<Edit>)

  /** A file that cannot be read counts as empty. */
  function ReadFile(files: Files, path: string): Bytes { if path in files then files[path] else [] }

  // ---------------------------------------------------------------- well-formed states

  ghost predicate Injective(sha: Bytes -> string) { forall a, b :: sha(a) == sha(b) ==> a == b }

  ghost predicate BlobsOk(sha: Bytes -> string, blobs: Blobs) {
    forall id :: id in blobs ==> blobs[id].digest == sha(blobs[id].bytes)
  }

  ghost predicate Stored(blobs: Blobs, bytes: Bytes) {
    exists id :: id in blobs && blobs[id].bytes == bytes
  }

  ghost predicate EditsOk(s: State) {
    && (forall i :: 0 <= i < |s.edits| ==> s.edits[i].before in s.blobs && s.edits[i].after in s.blobs)
    && (forall i, j :: 0 <= i < j < |s.edits| ==> s.edits[i].id != s.edits[j].id)
  }

  /** Marks and revert rows point at each other, so an edit has at most one revert. */
  ghost predicate MarksOk(edits: seq<Edit>) {
    && (forall i :: 0 <= i < |edits| && edits[i].reverts.Some? ==> HasMark(edits, edits[i].reverts.value, edits[i].id))
    && (forall i :: 0 <= i < |edits| && edits[i].revertedBy.Some? ==>
          HasRevert(edits, edits[i].revertedBy.value, edits[i].id))
  }

  ghost predicate HasMark(edits: seq<Edit>, target: string, marker: string) {
    exists k :: 0 <= k < |edits| && edits[k].id == target && edits[k].revertedBy == Some(marker)
  }

  ghost predicate HasRevert(edits: seq<Edit>, marker: string, target: string) {
    exists k :: 0 <= k < |edits| && edits[k].id == marker && edits[k].reverts == Some(target)
  }

  ghost predicate Ok(sha: Bytes -> string, s: State) {
    BlobsOk(sha, s.blobs) && EditsOk(s) && MarksOk(s.edits)
  }

  function Before(blobs: Blobs, e: Edit): Bytes { if e.before in blobs then blobs[e.before].bytes else [] }

  function After(blobs: Blobs, e: Edit): Bytes { if e.after in blobs then blobs[e.after].bytes else [] }

  /** The (before, after) bytes of one path's rows, oldest first. */
  ghost function Trace(blobs: Blobs, edits: seq<Edit>, path: string): seq<(Bytes, Bytes)> {
    if edits == [] then []
    else
      var e := edits[|edits| - 1];
      Trace(blobs, edits[..|edits| - 1], path) + if e.path == path then [(Before(blobs, e), After(blobs, e))] else []
  }

  /** Starting from `origin`, each row's before bytes are the previous row's after bytes, and
      `current` is the newest row's after bytes. */
  ghost predicate IsChain(h: seq<(Bytes, Bytes)>, origin: Bytes, current: Bytes) {
    && (h != [] ==> h[0].0 == origin)
    && (forall i, j :: 0 <= i < j < |h| && j == i + 1 ==> h[j].0 == h[i].1)
    && current == (if h == [] then origin else h[|h| - 1].1)
  }

  /** The path's audit rows lead from `origin` to what the file now holds. */
  ghost predicate Chained(s: State, path: string, origin: Bytes) {
    IsChain(Trace(s.blobs, s.edits, path), origin, ReadFile(s.files, path))
  }

  // ---------------------------------------------------------------- steps

  datatype Op =
    | Apply(path: string, contents: Bytes, id: string)
    | Reject
    | Revert(target: string, id: string)

  function IndexOf(edits: seq<Edit>, id: string): (i: nat)
    ensures i <= |edits| && (i < |edits| ==> edits[i].id == id)
    ensures forall k :: 0 <= k < i ==> edits[k].id != id
  {
    if edits == [] || edits[0].id == id then 0 else 1 + IndexOf(edits[1..], id)
  }

  predicate Known(edits: seq<Edit>, id: string) { IndexOf(edits, id) < |edits| }

  /** Writing `bytes` over `path` under a fresh edit id, with an audit row of what was there. */
  ghost predicate Wrote(
    sha: Bytes -> string, files: Files, blobs: Blobs, path: string, bytes: Bytes, e: Edit, files': Files, blobs': Blobs)
  {
    && files' == files[path := bytes]
    && (forall b :: b in blobs ==> b in blobs' && blobs'[b] == blobs[b])
    && BlobsOk(sha, blobs')
    && e.path == path && e.before in blobs' && e.after in blobs'
    && Before(blobs', e) == ReadFile(files, path) && After(blobs', e) == bytes
    && e.revertedBy == None
  }

  ghost predicate Next(sha: Bytes -> string, s: State, op: Op, s': State) {
    match op
    case Reject => s' == s
    case Apply(path, contents, id) =>
      && !Known(s.edits, id) && |s'.edits| == |s.edits| + 1
      && (var e := s'.edits[|s.edits|];
          && e.id == id && e.reverts == None && Wrote(sha, s.files, s.blobs, path, contents, e, s'.files, s'.blobs)
          && s'.edits == s.edits + [e])
    case Revert(target, id) =>
      && !Known(s.edits, id) && Known(s.edits, target) && |s'.edits| == |s.edits| + 1
      && (var t := IndexOf(s.edits, target);
          var e := s'.edits[|s.edits|];
          && s.edits[t].revertedBy == None
          && e.id == id && e.reverts == Some(target)
          && Wrote(sha, s.files, s.blobs, s.edits[t].path, Before(s.blobs, s.edits[t]), e, s'.files, s'.blobs)
          && s'.edits == s.edits[t := s.edits[t].(revertedBy := Some(id))] + [e])
  }

  class Editor {
    const sha: Bytes -> string
    var files: Files
    var blobs: Blobs
    var edits: seq<Edit>

    constructor (sha: Bytes -> string, files: Files)
      ensures this.sha == sha && Value() == State(files, map[], []) && Ok(sha, Value())
    {
      this.sha, this.files, this.blobs, this.edits := sha, files, map[], [];
    }

    ghost function Value(): State
      reads this
    {
      State(files, blobs, edits)
    }

    /** A blob with the same digest is reused; otherwise one is stored under the fresh `id`. */
    method InsertBlob(bytes: Bytes, id: string) returns (blob: string)
      requires BlobsOk(sha, blobs) && Injective(sha) && id !in blobs
      modifies this`blobs
      ensures BlobsOk(sha, blobs)
      ensures forall b :: b in old(blobs) ==> b in blobs && blobs[b] == old(blobs)[b]
      ensures blob in blobs && blobs[blob].bytes == bytes
      ensures forall b :: b in blobs && b !in old(blobs) ==> b == id
      ensures if Stored(old(blobs), bytes) then blobs == old(blobs)
              else blob == id && blobs == old(blobs)[id := Blob(sha(bytes), bytes)]
    {
      var digest := sha(bytes);
      var same := set b | b in blobs && blobs[b].digest == digest;
      if same != {} {
        blob :| blob in same;
        assert Stored(blobs, bytes);
      } else {
        forall b | b in blobs ensures blobs[b].bytes != bytes { assert b !in same; }
        blobs := blobs[id := Blob(digest, bytes)];
        blob := id;
      }
    }

    /** What apply and revert share: write the file, then store both contents and the audit row. */
    method WriteAndRecord(path: string, bytes: Bytes, reverts: Option<string>, id: string, blobIds: (string, string))
      returns (row: Edit)
      requires BlobsOk(sha, blobs) && Injective(sha)
      requires blobIds.0 !in blobs && blobIds.1 !in blobs && blobIds.0 != blobIds.1
      modifies this
      ensures row.id == id && row.reverts == reverts && edits == old(edits) + [row]
      ensures Wrote(sha, old(files), old(blobs), path, bytes, row, files, blobs)
    {
      hide Stored;
      var before := ReadFile(files, path);
      files := files[path := bytes];
      var b := InsertBlob(before, blobIds.0);
      var a := InsertBlob(bytes, blobIds.1);
      row := Edit(id, path, b, a, reverts, None);
      edits := edits + [row];
    }

    /** A refused edit is refused before any write. `world` is what validation sees at the time. */
    method ApplyEdit(
      path: string, kind: string, contents: Bytes, world: V.World, id: string, blobIds: (string, string))
      returns (verdict: V.Verdict)
      requires Ok(sha, Value()) && Injective(sha) && !Known(edits, id)
      requires blobIds.0 !in blobs && blobIds.1 !in blobs && blobIds.0 != blobIds.1
      modifies this
      ensures verdict == V.Check(world, kind, contents)
      ensures Next(sha, old(Value()), if verdict.Accepted? then Apply(path, contents, id) else Reject, Value())
    {
      hide IndexOf, MarksOk, Wrote, BlobsOk, V.Check;
      verdict := V.Check(world, kind, contents);
      if !verdict.Accepted? { return; }
      var row := WriteAndRecord(path, contents, None, id, blobIds);
    }

    /** Fails on an unknown edit, one already reverted, or a missing blob; otherwise restores. */
    method RevertEdit(target: string, id: string, blobIds: (string, string)) returns (ok: bool)
      requires Ok(sha, Value()) && Injective(sha) && !Known(edits, id)
      requires blobIds.0 !in blobs && blobIds.1 !in blobs && blobIds.0 != blobIds.1
      modifies this
      ensures ok <==> Known(old(edits), target) && old(edits)[IndexOf(old(edits), target)].revertedBy == None
      ensures Next(sha, old(Value()), if ok then Revert(target, id) else Reject, Value())
    {
      hide IndexOf, MarksOk, Wrote, BlobsOk;
      var t := IndexOf(edits, target);
      if t == |edits| || edits[t].revertedBy.Some? { return false; }
      var original := edits[t];
      if original.before !in blobs || original.after !in blobs { return false; }
      var restored := blobs[original.before].bytes;
      var row := WriteAndRecord(original.path, restored, Some(target), id, blobIds);
      edits := edits[t := original.(revertedBy := Some(id))];
      assert edits == old(edits)[t := original.(revertedBy := Some(id))] + [row];
      return true;
    }
  }

  // ---------------------------------------------------------------- what every step keeps

  lemma UnknownId(edits: seq<Edit>, id: string)
    requires !Known(edits, id)
    ensures forall k :: 0 <= k < |edits| ==> edits[k].id != id
  {
  }

  lemma MarksAppend(edits: seq<Edit>, e: Edit)
    requires MarksOk(edits) && e.revertedBy == None && e.reverts == None
    ensures MarksOk(edits + [e])
  {
    var edits' := edits + [e];
    forall i | 0 <= i < |edits'| && edits'[i].reverts.Some?
      ensures HasMark(edits', edits'[i].reverts.value, edits'[i].id)
    {
      var k :| 0 <= k < |edits| && edits[k].id == edits[i].reverts.value && edits[k].revertedBy == Some(edits[i].id);
      assert edits'[k] == edits[k];
    }
    forall i | 0 <= i < |edits'| && edits'[i].revertedBy.Some?
      ensures HasRevert(edits', edits'[i].revertedBy.value, edits'[i].id)
    {
      var k :| 0 <= k < |edits| && edits[k].id == edits[i].revertedBy.value && edits[k].reverts == Some(edits[i].id);
      assert edits'[k] == edits[k];
    }
  }

  lemma MarksRevert(edits: seq<Edit>, t: nat, e: Edit)
    requires MarksOk(edits) && t < |edits| && edits[t].revertedBy == None
    requires e.revertedBy == None && e.reverts == Some(edits[t].id)
    ensures MarksOk(edits[t := edits[t].(revertedBy := Some(e.id))] + [e])
  {
    var edits' := edits[t := edits[t].(revertedBy := Some(e.id))] + [e];
    assert edits'[t].id == edits[t].id && edits'[t].revertedBy == Some(e.id) && edits'[|edits|] == e;
    forall i | 0 <= i < |edits'| && edits'[i].reverts.Some?
      ensures HasMark(edits', edits'[i].reverts.value, edits'[i].id)
    {
      if i < |edits| {
        assert HasMark(edits, edits[i].reverts.value, edits[i].id);
        var k :| 0 <= k < |edits| && edits[k].id == edits[i].reverts.value && edits[k].revertedBy == Some(edits[i].id);
        assert k != t && edits'[k] == edits[k];
      }
    }
    forall i | 0 <= i < |edits'| && edits'[i].revertedBy.Some?
      ensures HasRevert(edits', edits'[i].revertedBy.value, edits'[i].id)
    {
      if i != t {
        assert HasRevert(edits, edits[i].revertedBy.value, edits[i].id);
        var k :| 0 <= k < |edits| && edits[k].id == edits[i].revertedBy.value && edits[k].reverts == Some(edits[i].id);
        assert edits'[k].id == edits[k].id && edits'[k].reverts == edits[k].reverts;
      }
    }
  }

  lemma NextKeepsOk(sha: Bytes -> string, s: State, op: Op, s': State)
    requires Ok(sha, s) && Next(sha, s, op, s')
    ensures Ok(sha, s')
  {
    hide MarksOk, IndexOf;
    match op {
      case Reject =>
      case Apply(_, _, id) =>
        UnknownId(s.edits, id);
        MarksAppend(s.edits, s'.edits[|s.edits|]);
      case Revert(target, id) =>
        UnknownId(s.edits, id);
        MarksRevert(s.edits, IndexOf(s.edits, target), s'.edits[|s.edits|]);
    }
  }

  /** Traces look only at paths and bytes, neither of which any later step changes. */
  lemma {:induction false} TraceStable(blobs: Blobs, edits: seq<Edit>, blobs': Blobs, edits': seq<Edit>, path: string)
    requires |edits| == |edits'|
    requires forall b :: b in blobs ==> b in blobs' && blobs'[b] == blobs[b]
    requires forall i :: 0 <= i < |edits| ==>
               && edits[i].before in blobs && edits[i].after in blobs
               && edits'[i].path == edits[i].path
               && edits'[i].before == edits[i].before && edits'[i].after == edits[i].after
    ensures Trace(blobs', edits', path) == Trace(blobs, edits, path)
  {
    if edits == [] {
    } else {
      var n := |edits| - 1;
      TraceStable(blobs, edits[..n], blobs', edits'[..n], path);
    }
  }

  lemma TraceGrows(sha: Bytes -> string, s: State, op: Op, s': State, path: string)
    requires EditsOk(s) && Next(sha, s, op, s') && !op.Reject?
    ensures var e := s'.edits[|s.edits|];
            Trace(s'.blobs, s'.edits, path)
            == Trace(s.blobs, s.edits, path)
               + if e.path == path then [(Before(s'.blobs, e), After(s'.blobs, e))] else []
  {
    hide MarksOk, IndexOf;
    TraceStable(s.blobs, s.edits, s'.blobs, s'.edits[..|s.edits|], path);
  }

  /** Apply and revert alike write their new row's after bytes over what its before bytes record. */
  lemma NextWrites(sha: Bytes -> string, s: State, op: Op, s': State)
    requires Next(sha, s, op, s') && !op.Reject?
    ensures |s'.edits| == |s.edits| + 1
    ensures var e := s'.edits[|s.edits|];
            && Before(s'.blobs, e) == ReadFile(s.files, e.path) && s'.files == s.files[e.path := After(s'.blobs, e)]
  {
    match op {
      case Apply(path, contents, id) =>
      case Revert(target, id) =>
    }
  }

  lemma NextKeepsChain(sha: Bytes -> string, s: State, op: Op, s': State, path: string, origin: Bytes)
    requires EditsOk(s) && Next(sha, s, op, s') && Chained(s, path, origin)
    ensures Chained(s', path, origin)
  {
    if !op.Reject? {
      TraceGrows(sha, s, op, s', path);
      NextWrites(sha, s, op, s');
      hide Next, EditsOk, Trace, Before, After, IsChain;
      var e, h := s'.edits[|s.edits|], Trace(s.blobs, s.edits, path);
      if e.path == path {
        ChainGrows(h, origin, Before(s'.blobs, e), After(s'.blobs, e));
      } else {
        assert h + [] == h;
      }
    }
  }

  lemma ChainGrows(h: seq<(Bytes, Bytes)>, origin: Bytes, current: Bytes, next: Bytes)
    requires IsChain(h, origin, current)
    ensures IsChain(h + [(current, next)], origin, next)
  {
  }

  // ---------------------------------------------------------------- runs

  /** A sequential run over files nobody else writes, starting with no audit rows. */
  ghost predicate Behaviour(sha: Bytes -> string, states: seq<State>, ops: seq<Op>) {
    && |states| == |ops| + 1
    && states[0].edits == [] && BlobsOk(sha, states[0].blobs)
    && forall i :: 0 <= i < |ops| ==> Next(sha, states[i], ops[i], states[i + 1])
  }

  /** Every path's audit rows chain from its first bytes to its current ones, at every point of the run. */
  lemma {:induction false} AuditRowsChain(
    sha: Bytes -> string, states: seq<State>, ops: seq<Op>, n: nat, path: string)
    requires Behaviour(sha, states, ops) && n <= |ops|
    ensures Ok(sha, states[n])
    ensures Chained(states[n], path, ReadFile(states[0].files, path))
  {
    if n == 0 {
    } else {
      hide Ok, Chained, Next;
      AuditRowsChain(sha, states, ops, n - 1, path);
      NextKeepsOk(sha, states[n - 1], ops[n - 1], states[n - 1 + 1]);
      OkEdits(sha, states[n - 1]);
      NextKeepsChain(sha, states[n - 1], ops[n - 1], states[n - 1 + 1], path, ReadFile(states[0].files, path));
    }
  }

  /** No edit is reverted twice: two rows never name the same edit as the one they revert. */
  lemma RevertedOnce(sha: Bytes -> string, states: seq<State>, ops: seq<Op>, n: nat, i: nat, j: nat)
    requires Behaviour(sha, states, ops) && n <= |ops|
    requires i < |states[n].edits| && j < |states[n].edits|
    requires states[n].edits[i].reverts.Some?
    requires states[n].edits[i].reverts == states[n].edits[j].reverts
    ensures i == j
  {
    AuditRowsChain(sha, states, ops, n, "");
    hide Behaviour, Trace;
    SameMark(states[n], i, j);
  }

  lemma SameMark(s: State, i: nat, j: nat)
    requires EditsOk(s) && MarksOk(s.edits) && i < |s.edits| && j < |s.edits|
    requires s.edits[i].reverts.Some? && s.edits[i].reverts == s.edits[j].reverts
    ensures i == j
  {
    var target := s.edits[i].reverts.value;
    assert HasMark(s.edits, target, s.edits[i].id) && HasMark(s.edits, target, s.edits[j].id);
    var k :| 0 <= k < |s.edits| && s.edits[k].id == target && s.edits[k].revertedBy == Some(s.edits[i].id);
    var l :| 0 <= l < |s.edits| && s.edits[l].id == target && s.edits[l].revertedBy == Some(s.edits[j].id);
    assert k == l;
  }

  // ---------------------------------------------------------------- undoing an edit, however much later

  /** What no later step changes about row `r`: all but the mark. */
  ghost predicate RowKept(s: State, s': State, r: nat) {
    && r < |s.edits| && r < |s'.edits|
    && s'.edits[r].id == s.edits[r].id && s'.edits[r].path == s.edits[r].path
    && s.edits[r].before in s.blobs && Before(s'.blobs, s'.edits[r]) == Before(s.blobs, s.edits[r])
  }

  lemma NextKeepsRow(sha: Bytes -> string, s: State, op: Op, s': State, r: nat)
    requires Ok(sha, s) && Next(sha, s, op, s') && r < |s.edits|
    ensures RowKept(s, s', r) && r < |s'.edits|
  {
    hide MarksOk, IndexOf;
  }

  lemma RowSame(sha: Bytes -> string, s: State, r: nat)
    requires Ok(sha, s) && r < |s.edits|
    ensures RowKept(s, s, r)
  {
  }

  lemma RowThen(s: State, t: State, u: State, r: nat)
    requires RowKept(s, t, r) && RowKept(t, u, r)
    ensures RowKept(s, u, r)
  {
  }

  lemma {:induction false} RowStays(
    sha: Bytes -> string, states: seq<State>, ops: seq<Op>, j: nat, n: nat, r: nat)
    requires Behaviour(sha, states, ops) && j <= n <= |ops| && r < |states[j].edits|
    ensures RowKept(states[j], states[n], r) && r < |states[n].edits|
  {
    hide Next, Ok, Chained, RowKept;
    if n == j {
      AuditRowsChain(sha, states, ops, j, "");
      RowSame(sha, states[j], r);
    } else {
      RowStays(sha, states, ops, j, n - 1, r);
      AuditRowsChain(sha, states, ops, n - 1, "");
      NextKeepsRow(sha, states[n - 1], ops[n - 1], states[n - 1 + 1], r);
      RowThen(states[j], states[n - 1], states[n], r);
    }
  }

  lemma IndexIsRow(s: State, r: nat)
    requires EditsOk(s) && r < |s.edits|
    ensures IndexOf(s.edits, s.edits[r].id) == r
  {
    var k := IndexOf(s.edits, s.edits[r].id);
    assert k <= r;
  }

  /** The edit made by op `i`. */
  ghost function Made(states: seq<State>, i: nat): Edit
    requires i + 1 < |states| && |states[i].edits| < |states[i + 1].edits|
  {
    states[i + 1].edits[|states[i].edits|]
  }

  lemma NextMakes(sha: Bytes -> string, s: State, op: Op, s': State)
    requires Next(sha, s, op, s') && !op.Reject?
    ensures |s'.edits| == |s.edits| + 1
    ensures var e := s'.edits[|s.edits|];
            e.id == op.id && (op.Apply? ==> e.path == op.path) && Before(s'.blobs, e) == ReadFile(s.files, e.path)
  {
    NextWrites(sha, s, op, s');
  }

  lemma NextRestores(sha: Bytes -> string, s: State, target: string, id: string, s': State, r: nat)
    requires Next(sha, s, Revert(target, id), s') && IndexOf(s.edits, target) == r < |s.edits|
    ensures s'.files == s.files[s.edits[r].path := Before(s.blobs, s.edits[r])]
  {
  }

  /** What an accepted edit does, and a refused one does not. */
  lemma ApplyWrites(sha: Bytes -> string, states: seq<State>, ops: seq<Op>, i: nat)
    requires Behaviour(sha, states, ops) && i < |ops|
    ensures ops[i].Reject? ==> states[i + 1] == states[i]
    ensures ops[i].Apply? ==>
              && states[i + 1].files == states[i].files[ops[i].path := ops[i].contents]
              && |states[i + 1].edits| == |states[i].edits| + 1
              && states[i + 1].edits[..|states[i].edits|] == states[i].edits
              && Made(states, i).id == ops[i].id && Made(states, i).path == ops[i].path
              && Made(states, i).reverts == None == Made(states, i).revertedBy
              && Before(states[i + 1].blobs, Made(states, i))
                 == (if ops[i].path in states[i].files then states[i].files[ops[i].path] else [])
              && After(states[i + 1].blobs, Made(states, i)) == ops[i].contents
  {
    var j := i + 1;
    assert Next(sha, states[i], ops[i], states[j]);
    hide Behaviour, Known, BlobsOk;
  }

  /** Main result: whenever the edit made by op `i`, an apply or itself a revert, is reverted by op `n`,
      its file gets back exactly the bytes it held when op `i` began, whatever was done in between, and
      no other file changes. */
  lemma RevertRestores(sha: Bytes -> string, states: seq<State>, ops: seq<Op>, i: nat, n: nat)
    requires Behaviour(sha, states, ops) && i < n < |ops|
    requires !ops[i].Reject? && ops[n].Revert? && ops[n].target == ops[i].id
    ensures |states[i].edits| < |states[i + 1].edits|
    ensures var path := Made(states, i).path;
            && (ops[i].Apply? ==> path == ops[i].path)
            && states[n + 1].files
               == states[n].files[path := if path in states[i].files then states[i].files[path] else []]
  {
    hide Next, Ok, Chained, MarksOk;
    var r := |states[i].edits|;
    NextMakes(sha, states[i], ops[i], states[i + 1]);
    RowStays(sha, states, ops, i + 1, n, r);
    AuditRowsChain(sha, states, ops, n, "");
    assert EditsOk(states[n]) by { OkEdits(sha, states[n]); }
    IndexIsRow(states[n], r);
    NextRestores(sha, states[n], ops[n].target, ops[n].id, states[n + 1], r);
  }

  lemma OkEdits(sha: Bytes -> string, s: State)
    requires Ok(sha, s)
    ensures EditsOk(s)
  {
  }

  ghost predicate SameFile(files: Files, files': Files, path: string) {
    (path in files <==> path in files') && (path in files ==> files[path] == files'[path])
  }

  /** The bytes always come back; the file itself does if and only if it existed, since a revert
      never removes one. When the revert follows at once, that holds for the whole file system. */
  lemma ApplyThenRevert(sha: Bytes -> string, states: seq<State>, ops: seq<Op>, i: nat, n: nat)
    requires Behaviour(sha, states, ops) && i < n < |ops|
    requires ops[i].Apply? && ops[n].Revert? && ops[n].target == ops[i].id
    ensures ReadFile(states[n + 1].files, ops[i].path) == ReadFile(states[i].files, ops[i].path)
    ensures SameFile(states[i].files, states[n + 1].files, ops[i].path) <==> ops[i].path in states[i].files
    ensures n == i + 1 ==>
              && (forall q :: ReadFile(states[n + 1].files, q) == ReadFile(states[i].files, q))
              && (states[n + 1].files == states[i].files <==> ops[i].path in states[i].files)
  {
    RevertRestores(sha, states, ops, i, n);
    if n == i + 1 {
      NextWrites(sha, states[i], ops[i], states[i + 1]);
      hide Next, Ok;
      var path := ops[i].path;
      if path in states[i].files {
        assert states[n + 1].files == states[i].files;
      } else {
        assert path in states[n + 1].files;
      }
    }
  }
}
