/** The nightly observation prune: batched, sparing what memories and pins cite, keeping the
    full-text index and the embeddings in step with the table. */
module Retention {
  import opened Basics

  const DAY_MS := 86_400_000
  const PRUNE_AGE_MS := 180 * DAY_MS
  const PRUNE_MAX_ROWS := 5000

  datatype Observation = Observation(rowid: int, ts: int, content: string)

  datatype Json = Text(s: string) | Array(items: seq<Json>) | OtherJson

  type Rows = map<string, Observation>

  // ---------------------------------------------------------------- citations

  /** The strings of an array value; anything else cites nothing. */
  ghost function Cites(j: Json): set<string> {
    if j.Array? then set i | 0 <= i < |j.items| && j.items[i].Text? :: j.items[i].s else {}
  }

  ghost function CitedBy(sources: seq<Json>): set<string> {
    set i, s | 0 <= i < |sources| && s in Cites(sources[i]) :: s
  }

  /** Some source is an array with the string `s` among its items. */
  ghost predicate Names(sources: seq<Json>, s: string) {
    exists i, k ::
      0 <= i < |sources| && sources[i].Array? && 0 <= k < |sources[i].items| && sources[i].items[k] == Text(s)
  }

  lemma NamesIff(sources: seq<Json>, s: string)
    ensures s in CitedBy(sources) <==> Names(sources, s)
  {
    if s in CitedBy(sources) {
      var i :| 0 <= i < |sources| && s in Cites(sources[i]);
      var k :| 0 <= k < |sources[i].items| && sources[i].items[k].Text? && sources[i].items[k].s == s;
      assert sources[i].items[k] == Text(s);
    }
    if Names(sources, s) {
      var i, k :|
        0 <= i < |sources| && sources[i].Array? && 0 <= k < |sources[i].items| && sources[i].items[k] == Text(s);
      assert s in Cites(sources[i]);
    }
  }

  /** The strings of one citing field are appended. */
  method AppendCited(ids: seq<string>, source: Json) returns (all: seq<string>)
    ensures forall s :: s in all <==> s in ids || s in Cites(source)
  {
    all := ids;
    if source.Array? {
      for i := 0 to |source.items|
        invariant forall s :: s in all <==>
                    s in ids || exists k :: 0 <= k < i && source.items[k].Text? && source.items[k].s == s
      {
        if source.items[i].Text? { all := all + [source.items[i].s]; }
      }
    }
  }

  /** `memories` are the source_event_ids of all memories, archived ones too; `pins` the
      meta.observation_ids of the pins that have one. */
  method ProtectedIds(memories: seq<Json>, pins: seq<Json>) returns (ids: seq<string>)
    ensures forall s :: s in ids <==> s in CitedBy(memories) + CitedBy(pins)
    ensures forall s :: s in ids <==> Names(memories, s) || Names(pins, s)
  {
    ids := [];
    for i := 0 to |memories|
      invariant forall s :: s in ids <==> exists k :: 0 <= k < i && s in Cites(memories[k])
    {
      ids := AppendCited(ids, memories[i]);
    }
    ghost var cited := ids;
    for i := 0 to |pins|
      invariant forall s :: s in ids <==> s in cited || exists k :: 0 <= k < i && s in Cites(pins[k])
    {
      ids := AppendCited(ids, pins[i]);
    }
    forall s ensures s in CitedBy(memories) <==> Names(memories, s) { NamesIff(memories, s); }
    forall s ensures s in CitedBy(pins) <==> Names(pins, s) { NamesIff(pins, s); }
  }

  // ---------------------------------------------------------------- the table and its shadows

  predicate IsEligible(o: Observation, id: string, cutoff: int, spared: seq<string>) {
    o.ts < cutoff && id !in spared
  }

  function Eligible(rows: Rows, cutoff: int, spared: seq<string>): set<string> {
    set id | id in rows && IsEligible(rows[id], id, cutoff, spared)
  }

  /** The index holds exactly the content of the table's rows, under their row numbers. */
  ghost predicate Mirrors(rows: Rows, fts: map<int, string>) {
    && (forall id :: id in rows ==> rows[id].rowid in fts && fts[rows[id].rowid] == rows[id].content)
    && (forall r :: r in fts ==> exists id :: id in rows && rows[id].rowid == r)
    && (forall i, j :: i in rows && j in rows && rows[i].rowid == rows[j].rowid ==> i == j)
  }

  class ObservationStore {
    var rows: Rows
    var fts: map<int, string>
    var vec: map<string, seq<real>>

    constructor ()
      ensures rows == map[] && vec == map[] && Mirrors(rows, fts)
    {
      rows, fts, vec := map[], map[], map[];
    }

    /** The insert trigger indexes the new row. */
    method Insert(id: string, o: Observation)
      requires Mirrors(rows, fts) && id !in rows && o.rowid !in fts
      modifies this`rows, this`fts
      ensures rows == old(rows)[id := o] && Mirrors(rows, fts)
    {
      rows := rows[id := o];
      fts := fts[o.rowid := o.content];
      forall r | r in fts ensures exists i :: i in rows && rows[i].rowid == r {
        if r == o.rowid {
          assert rows[id].rowid == r;
        } else {
          var i :| i in old(rows) && old(rows)[i].rowid == r;
          assert rows[i].rowid == r;
        }
      }
    }

    /** The delete trigger takes the row out of the index. */
    method DeleteRow(id: string)
      requires Mirrors(rows, fts) && id in rows
      modifies this`rows, this`fts
      ensures rows == old(rows) - {id} && Mirrors(rows, fts)
    {
      var gone := rows[id].rowid;
      rows := rows - {id};
      fts := fts - {gone};
      forall r | r in fts ensures exists i :: i in rows && rows[i].rowid == r {
        var i :| i in old(rows) && old(rows)[i].rowid == r;
        assert i != id && rows[i].rowid == r;
      }
    }

    /** SELECT ... LIMIT without an order: any `limit` of the eligible ids, or all if fewer. */
    method SelectEligible(cutoff: int, spared: seq<string>, limit: nat) returns (ids: set<string>)
      ensures ids <= Eligible(rows, cutoff, spared)
      ensures |ids| == if |Eligible(rows, cutoff, spared)| < limit then |Eligible(rows, cutoff, spared)| else limit
    {
      var left := Eligible(rows, cutoff, spared);
      ids := {};
      ghost var all := left;
      while left != {} && |ids| < limit
        invariant ids !! left && ids + left == all && |ids| <= limit && |all| == |ids| + |left|
        decreases left
      {
        var id :| id in left;
        left, ids := left - {id}, ids + {id};
      }
    }

    method DeleteRows(ids: set<string>)
      requires Mirrors(rows, fts) && ids <= rows.Keys
      modifies this`rows, this`fts
      ensures Mirrors(rows, fts) && rows == old(rows) - ids
    {
      var todo := ids;
      ghost var done: set<string> := {};
      while todo != {}
        invariant Mirrors(rows, fts) && todo <= rows.Keys
        invariant done + todo == ids && done !! todo && rows == old(rows) - done
        decreases todo
      {
        var id :| id in todo;
        DeleteRow(id);
        MinusTwice(old(rows), done, {id});
        todo, done := todo - {id}, done + {id};
      }
    }

    method DeleteOlderThan(cutoff: int, spared: seq<string>, limit: nat) returns (n: nat, ghost gone: set<string>)
      requires Mirrors(rows, fts)
      modifies this
      ensures Mirrors(rows, fts)
      ensures gone <= Eligible(old(rows), cutoff, spared) && n == |gone| <= limit
      ensures n < limit ==> gone == Eligible(old(rows), cutoff, spared)
      ensures rows == old(rows) - gone && vec == old(vec) - gone
    {
      var ids := SelectEligible(cutoff, spared, limit);
      gone, n := ids, |ids|;
      if n < limit { SubsetSize(ids, Eligible(rows, cutoff, spared)); }
      vec := vec - ids;
      DeleteRows(ids);
    }

    /** The nightly loop. For every choice the unordered LIMIT makes it ends with exactly the
        eligible rows gone, from the table, the index and the embeddings alike. */
    method Prune(cutoff: int, spared: seq<string>, limit: nat) returns (deleted: nat)
      requires Mirrors(rows, fts) && 0 < limit
      modifies this
      ensures Mirrors(rows, fts)
      ensures rows == old(rows) - Eligible(old(rows), cutoff, spared)
      ensures vec == old(vec) - Eligible(old(rows), cutoff, spared)
      ensures deleted == |Eligible(old(rows), cutoff, spared)| && |old(rows)| == |rows| + deleted
    {
      deleted := 0;
      ghost var all, total: set<string> := Eligible(rows, cutoff, spared), {};
      MinusNothing(rows);
      MinusNothing(vec);
      while true
        invariant Mirrors(rows, fts) && total <= all && deleted == |total| <= |all|
        invariant rows == old(rows) - total && vec == old(vec) - total
        decreases |all| - |total|
      {
        var n, gone := DeleteOlderThan(cutoff, spared, limit);
        EligibleLeft(old(rows), total, cutoff, spared);
        MinusTwice(old(rows), total, gone);
        MinusTwice(old(vec), total, gone);
        DisjointSize(total, gone);
        SubsetSize(total + gone, all);
        total := total + gone;
        deleted := deleted + n;
        if n < limit { break; }
      }
      RemovedSize(old(rows), total);
    }

    /** The whole step at time `now`: what stays is what is young or cited. */
    method PruneNightly(now: int, memories: seq<Json>, pins: seq<Json>) returns (deleted: nat)
      requires Mirrors(rows, fts)
      modifies this
      ensures Mirrors(rows, fts)
      ensures forall id :: id in rows <==>
                id in old(rows)
                && (old(rows)[id].ts >= now - 15_552_000_000 || Names(memories, id) || Names(pins, id))
      ensures forall id :: id in rows ==> rows[id] == old(rows)[id]
      ensures forall id :: id in vec <==> id in old(vec) && (id in old(rows) ==> id in rows)
      ensures forall id :: id in vec ==> vec[id] == old(vec)[id]
      ensures |old(rows)| == |rows| + deleted
    {
      var spared := ProtectedIds(memories, pins);
      deleted := Prune(now - PRUNE_AGE_MS, spared, PRUNE_MAX_ROWS);
    }
  }

  lemma DisjointSize(a: set<string>, b: set<string>)
    requires a !! b
    ensures |a + b| == |a| + |b|
  {
  }

  lemma MinusNothing<V>(m: map<string, V>)
    ensures m - {} == m
  {
  }

  lemma MinusTwice<V>(m: map<string, V>, a: set<string>, b: set<string>)
    ensures (m - a) - b == m - (a + b)
  {
  }

  lemma EligibleLeft(rows: Rows, gone: set<string>, cutoff: int, spared: seq<string>)
    ensures Eligible(rows - gone, cutoff, spared) == Eligible(rows, cutoff, spared) - gone
  {
  }

  lemma RemovedSize(rows: Rows, gone: set<string>)
    requires gone <= rows.Keys
    ensures |rows| == |rows - gone| + |gone|
  {
    assert rows.Keys == (rows - gone).Keys + gone;
    assert |rows| == |rows.Keys| && |rows - gone| == |(rows - gone).Keys|;
  }
}
