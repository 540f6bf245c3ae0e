/** Reciprocal rank fusion of two ranked lists, with exact scores. */
module Fusion {
  import opened Order

  /** A score: a real number, or the infinity a division by zero yields. */
  datatype Sum = Infinite | Finite(value: real)

  type Scored = (string, Sum)

  const NOTHING := Finite(0.0)

  function Plus(a: Sum, b: Sum): Sum {
    if a.Infinite? || b.Infinite? then Infinite else Finite(a.value + b.value)
  }

  predicate Greater(a: Sum, b: Sum) {
    b.Finite? && (a.Finite? ==> a.value > b.value)
  }

  /** What the place `rank`, counted from 1, is worth. */
  function Weight(k: real, rank: nat): Sum {
    if k + rank as real == 0.0 then Infinite else Finite(1.0 / (k + rank as real))
  }

  /** Contribution of one list: 1 / (k + rank) for every place the id holds in it. */
  ghost function ListScore(list: seq<string>, id: string, k: real): Sum {
    if list == [] then NOTHING
    else Plus(ListScore(list[..|list| - 1], id, k), if list[|list| - 1] == id then Weight(k, |list|) else NOTHING)
  }

  ghost function Score(fts: seq<string>, vec: seq<string>, id: string, k: real): Sum {
    Plus(ListScore(fts, id, k), ListScore(vec, id, k))
  }

  /** Higher score first; equal scores by id. */
  function Ahead(a: Scored, b: Scored): bool {
    Greater(a.1, b.1) || (a.1 == b.1 && Less(a.0, b.0))
  }

  lemma AheadIsTotal()
    ensures StrictTotal(Ahead)
  {
    LessIsTotal();
    forall a, b, c | !Ahead(a, b) && !Ahead(b, c) ensures !Ahead(a, c) {
      assert a.1 == b.1 == c.1 ==> !Less(a.0, b.0) && !Less(b.0, c.0);
    }
    forall a, b ensures a == b || Ahead(a, b) || Ahead(b, a) {
      assert a == (a.0, a.1) && b == (b.0, b.1);
    }
  }

  /** Every id of either list once, with its score, in order. */
  ghost predicate IsFusion(fts: seq<string>, vec: seq<string>, k: real, r: seq<Scored>) {
    && (forall x: Scored :: x in r <==> (x.0 in fts || x.0 in vec) && x.1 == Score(fts, vec, x.0, k))
    && Distinct(r)
    && Sorted(r, Ahead)
  }

  /** There is exactly one fusion, so no hash-map iteration order can show. */
  lemma FusionIsUnique(fts: seq<string>, vec: seq<string>, k: real, r: seq<Scored>, q: seq<Scored>)
    requires IsFusion(fts, vec, k, r) && IsFusion(fts, vec, k, q)
    ensures r == q
  {
    DistinctMultiset(r);
    DistinctMultiset(q);
    forall x: Scored ensures multiset(r)[x] == multiset(q)[x] { assert x in r <==> x in q; }
    assert multiset(r) == multiset(q);
    AheadIsTotal();
    SortedIsUnique(r, q, Ahead);
  }

  /** The two lists are interchangeable. */
  lemma FusionIsSymmetric(fts: seq<string>, vec: seq<string>, k: real, r: seq<Scored>, q: seq<Scored>)
    requires IsFusion(fts, vec, k, r) && IsFusion(vec, fts, k, q)
    ensures r == q
  {
    forall x: Scored ensures x in q <==> (x.0 in fts || x.0 in vec) && x.1 == Score(fts, vec, x.0, k) {
      assert Score(fts, vec, x.0, k) == Score(vec, fts, x.0, k);
    }
    assert IsFusion(fts, vec, k, q);
    FusionIsUnique(fts, vec, k, r, q);
  }

  // ---------------------------------------------------------------- dominance

  lemma {:induction false} ScoreAbsent(list: seq<string>, id: string, k: real)
    requires id !in list
    ensures ListScore(list, id, k) == NOTHING
  {
    hide Weight;
    if list == [] {
    } else {
      ScoreAbsent(list[..|list| - 1], id, k);
    }
  }

  lemma {:induction false} ScoreAt(list: seq<string>, at: nat, k: real)
    requires Distinct(list) && at < |list|
    ensures ListScore(list, list[at], k) == Weight(k, at + 1)
  {
    hide Weight;
    var init := list[..|list| - 1];
    if at == |list| - 1 {
      ScoreAbsent(init, list[at], k);
    } else {
      ScoreAt(init, at, k);
    }
  }

  lemma InverseDecreases(a: real, b: real)
    requires 0.0 < a < b
    ensures 0.0 < 1.0 / b < 1.0 / a
  {
    assert 1.0 / a - 1.0 / b == (b - a) / (a * b);
  }

  lemma InverseSign(a: real)
    requires a != 0.0
    ensures 1.0 / a > 0.0 <==> a > 0.0
  {
    assert 1.0 / a * a == 1.0;
  }

  lemma WeightDecreases(k: real, i: nat, j: nat)
    requires k >= -1.0 && 1 <= i < j
    ensures Greater(Weight(k, i), Weight(k, j)) && Greater(Weight(k, j), NOTHING)
  {
    if k + i as real == 0.0 {
      InverseSign(k + j as real);
    } else {
      InverseDecreases(k + i as real, k + j as real);
    }
  }

  /** Wherever `b` is listed, `a` is listed before it; a missing id counts as last. */
  ghost predicate NotBehind(list: seq<string>, a: string, b: string) {
    forall j :: 0 <= j < |list| && list[j] == b ==> exists i :: 0 <= i < j && list[i] == a
  }

  lemma ListDominates(list: seq<string>, a: string, b: string, k: real)
    requires k >= -1.0 && Distinct(list) && a != b && NotBehind(list, a, b)
    ensures ListScore(list, b, k).Finite?
    ensures if a in list then Greater(ListScore(list, a, k), ListScore(list, b, k))
            else ListScore(list, a, k) == ListScore(list, b, k)
  {
    hide Weight, ListScore;
    if b in list {
      var j :| 0 <= j < |list| && list[j] == b;
      var i :| 0 <= i < j && list[i] == a;
      ScoreAt(list, i, k);
      ScoreAt(list, j, k);
      WeightDecreases(k, i + 1, j + 1);
    } else {
      ScoreAbsent(list, b, k);
      if a in list {
        var i :| 0 <= i < |list| && list[i] == a;
        ScoreAt(list, i, k);
        WeightDecreases(k, i + 1, i + 2);
      } else {
        ScoreAbsent(list, a, k);
      }
    }
  }

  /** `a` is ahead of `b` in one of the duplicate-free lists and not behind it in the other. */
  ghost predicate Dominates(fts: seq<string>, vec: seq<string>, a: string, b: string) {
    && Distinct(fts) && Distinct(vec) && a != b
    && NotBehind(fts, a, b) && NotBehind(vec, a, b) && (a in fts || a in vec)
  }

  /** No place of `b` in the result comes before a place of `a`. */
  ghost predicate ComesFirst(r: seq<Scored>, a: string, b: string) {
    forall i, j :: 0 <= i < |r| && 0 <= j < |r| && r[i].0 == a && r[j].0 == b ==> i < j
  }

  /** An id ahead of another in one list and not behind it in the other comes strictly first. */
  lemma DominanceIsRespected(fts: seq<string>, vec: seq<string>, k: real, r: seq<Scored>, a: string, b: string)
    requires k >= -1.0 && IsFusion(fts, vec, k, r) && Dominates(fts, vec, a, b)
    ensures ComesFirst(r, a, b)
  {
    hide ListScore, Weight, NotBehind;
    ListDominates(fts, a, b, k);
    ListDominates(vec, a, b, k);
    assert Greater(Score(fts, vec, a, k), Score(fts, vec, b, k));
    hide Score, Greater;
    forall i, j | 0 <= i < |r| && 0 <= j < |r| && r[i].0 == a && r[j].0 == b ensures i < j {
      assert r[i] in r && r[j] in r;
      assert Ahead(r[i], r[j]);
    }
  }

  ghost predicate RespectsDominance(k: real) {
    forall fts, vec, r, a, b :: IsFusion(fts, vec, k, r) && Dominates(fts, vec, a, b) ==> ComesFirst(r, a, b)
  }

  /** The last rank whose denominator is negative. */
  function Turn(k: real): (m: nat)
    requires k < -1.0
    ensures m >= 1 && k + m as real < 0.0 <= k + (m + 1) as real
  {
    var f := (-k).Floor;
    if f as real == -k then f - 1 else f
  }

  function Run(n: nat): string { seq(n, _ => 'x') }

  /** `n` different ids. */
  function Ids(n: nat): (ids: seq<string>)
    ensures |ids| == n && Distinct(ids)
  {
    var ids := seq(n, i requires 0 <= i < n => Run(i));
    assert forall i, j :: 0 <= i < j < n ==> |ids[i]| != |ids[j]|;
    ids
  }

  lemma FusionExists(list: seq<string>, k: real) returns (r: seq<Scored>)
    requires Distinct(list)
    ensures IsFusion(list, [], k, r)
  {
    hide Score;
    ghost var scores := map id | id in list :: Score(list, [], id, k);
    var pairs := seq(|list|, i requires 0 <= i < |list| => (list[i], scores[list[i]]));
    forall x: Scored ensures x in pairs <==> x.0 in scores && scores[x.0] == x.1 {
      if x.0 in scores && scores[x.0] == x.1 {
        var i :| 0 <= i < |list| && list[i] == x.0;
        assert pairs[i] == x;
      }
    }
    SortedPairs(scores, list, [], k, pairs);
    r := Sort(pairs, Ahead);
  }

  lemma TurnGrows(k: real)
    requires k < -1.0
    ensures Greater(Weight(k, Turn(k) + 1), Weight(k, Turn(k)))
  {
    var m := Turn(k);
    InverseSign(k + m as real);
    if k + (m + 1) as real != 0.0 { InverseSign(k + (m + 1) as real); }
  }

  lemma OvertakenScores(list: seq<string>, m: nat, k: real)
    requires 1 <= m < |list| && Distinct(list) && Greater(Weight(k, m + 1), Weight(k, m))
    ensures Greater(Score(list, [], list[m], k), Score(list, [], list[m - 1], k))
  {
    hide Weight;
    ScoreAt(list, m - 1, k);
    ScoreAt(list, m, k);
    ScoreAbsent([], list[m - 1], k);
    ScoreAbsent([], list[m], k);
    hide ListScore;
  }

  lemma NextDominates(list: seq<string>, m: nat)
    requires 1 <= m < |list| && Distinct(list)
    ensures Dominates(list, [], list[m - 1], list[m])
  {
    forall j | 0 <= j < |list| && list[j] == list[m] ensures exists i :: 0 <= i < j && list[i] == list[m - 1] {
      assert j == m && list[m - 1] == list[m - 1];
    }
  }

  lemma GreaterComesFirst(fts: seq<string>, vec: seq<string>, k: real, r: seq<Scored>, a: string, b: string)
    requires IsFusion(fts, vec, k, r) && (a in fts || a in vec) && (b in fts || b in vec)
    requires Greater(Score(fts, vec, b, k), Score(fts, vec, a, k))
    ensures !ComesFirst(r, a, b)
  {
    hide Score;
    var x, y := (a, Score(fts, vec, a, k)), (b, Score(fts, vec, b, k));
    assert x in r && y in r;
    var i :| 0 <= i < |r| && r[i] == x;
    var j :| 0 <= j < |r| && r[j] == y;
    assert Ahead(r[j], r[i]);
  }

  /** Below -1 some rank is worth less than the next, and the id there is overtaken. */
  lemma Overtaken(k: real)
    requires k < -1.0
    ensures !RespectsDominance(k)
  {
    var m := Turn(k);
    var list := Ids(m + 1);
    TurnGrows(k);
    hide Turn, Ids, Weight, Score, IsFusion, Dominates, ComesFirst, Greater;
    OvertakenScores(list, m, k);
    NextDominates(list, m);
    var r := FusionExists(list, k);
    GreaterComesFirst(list, [], k, r, list[m - 1], list[m]);
  }

  /** Fusion respects dominance for all lists if and only if `k` is at least -1; the daemon uses 60. */
  lemma DominanceIff(k: real)
    ensures RespectsDominance(k) <==> k >= -1.0
  {
    if k >= -1.0 {
      forall fts, vec, r, a, b | IsFusion(fts, vec, k, r) && Dominates(fts, vec, a, b) ensures ComesFirst(r, a, b) {
        DominanceIsRespected(fts, vec, k, r, a, b);
      }
    } else {
      Overtaken(k);
    }
  }

  // ---------------------------------------------------------------- scores as sums of real numbers

  /** The sum of 1 / (k + rank) over the places of `id`, leaving out a rank whose denominator is zero. */
  ghost function Places(list: seq<string>, id: string, k: real): real {
    if list == [] then 0.0
    else
      var n := |list|;
      Places(list[..n - 1], id, k)
      + if list[n - 1] == id && k + n as real != 0.0 then 1.0 / (k + n as real) else 0.0
  }

  /** The id stands at a rank whose denominator is zero. */
  ghost predicate AtZero(list: seq<string>, id: string, k: real) {
    exists i :: 0 <= i < |list| && list[i] == id && k + (i + 1) as real == 0.0
  }

  lemma {:induction false} ListScoreIs(list: seq<string>, id: string, k: real)
    ensures ListScore(list, id, k) == if AtZero(list, id, k) then Infinite else Finite(Places(list, id, k))
  {
    if list == [] {
    } else {
      var init, n := list[..|list| - 1], |list|;
      ListScoreIs(init, id, k);
      if AtZero(init, id, k) {
        var i :| 0 <= i < |init| && init[i] == id && k + (i + 1) as real == 0.0;
        assert list[i] == id;
      }
      if AtZero(list, id, k) {
        var i :| 0 <= i < n && list[i] == id && k + (i + 1) as real == 0.0;
        if i < n - 1 { assert init[i] == id; }
      }
    }
  }

  /** For every `k` and any repeats: a real sum over all places in both lists, or infinity. */
  lemma ScoreIsSum(fts: seq<string>, vec: seq<string>, id: string, k: real)
    ensures Score(fts, vec, id, k) ==
              if AtZero(fts, id, k) || AtZero(vec, id, k) then Infinite
              else Finite(Places(fts, id, k) + Places(vec, id, k))
  {
    hide Places, AtZero, ListScore;
    ListScoreIs(fts, id, k);
    ListScoreIs(vec, id, k);
  }

  /** What an id is worth that a duplicate-free list holds at place `i`, counted from 0. */
  lemma {:induction false} PlaceOnce(list: seq<string>, i: nat, k: real)
    requires Distinct(list) && i < |list| && k >= 0.0
    ensures ListScore(list, list[i], k) == Finite(1.0 / (k + (i + 1) as real))
  {
    ScoreAt(list, i, k);
  }

  /** In duplicate-free lists: both terms, or the one. */
  lemma ScoreOnce(fts: seq<string>, vec: seq<string>, k: real, r: seq<Scored>, x: Scored)
    requires k >= 0.0 && Distinct(fts) && Distinct(vec) && IsFusion(fts, vec, k, r) && x in r
    ensures forall i, j :: 0 <= i < |fts| && 0 <= j < |vec| && fts[i] == x.0 == vec[j] ==>
              x.1 == Finite(1.0 / (k + (i + 1) as real) + 1.0 / (k + (j + 1) as real))
    ensures forall i :: 0 <= i < |fts| && fts[i] == x.0 && x.0 !in vec ==> x.1 == Finite(1.0 / (k + (i + 1) as real))
    ensures forall j :: 0 <= j < |vec| && vec[j] == x.0 && x.0 !in fts ==> x.1 == Finite(1.0 / (k + (j + 1) as real))
  {
    hide ListScore, Distinct, Sorted;
    forall i | 0 <= i < |fts| && fts[i] == x.0
      ensures ListScore(fts, x.0, k) == Finite(1.0 / (k + (i + 1) as real))
    {
      PlaceOnce(fts, i, k);
    }
    forall j | 0 <= j < |vec| && vec[j] == x.0
      ensures ListScore(vec, x.0, k) == Finite(1.0 / (k + (j + 1) as real))
    {
      PlaceOnce(vec, j, k);
    }
    if x.0 !in fts { ScoreAbsent(fts, x.0, k); }
    if x.0 !in vec { ScoreAbsent(vec, x.0, k); }
  }

  /** Agreement counts: second in both lists beats first in one, with the daemon's `k`. */
  lemma SecondTwiceBeatsFirstOnce(fts: seq<string>, vec: seq<string>, r: seq<Scored>, a: string, b: string)
    requires Distinct(fts) && Distinct(vec) && IsFusion(fts, vec, 60.0, r)
    requires |fts| >= 2 && |vec| >= 2 && fts[1] == a == vec[1]
    requires (fts[0] == b && b !in vec) || (vec[0] == b && b !in fts)
    ensures ComesFirst(r, a, b)
  {
    forall i, j | 0 <= i < |r| && 0 <= j < |r| && r[i].0 == a && r[j].0 == b ensures i < j {
      assert r[i] in r && r[j] in r;
      ScoreOnce(fts, vec, 60.0, r, r[i]);
      ScoreOnce(fts, vec, 60.0, r, r[j]);
      assert r[i].1 == Finite(1.0 / 62.0 + 1.0 / 62.0) && r[j].1 == Finite(1.0 / 61.0);
      hide IsFusion;
      assert Ahead(r[i], r[j]);
      SortedPlaces(fts, vec, 60.0, r, i, j);
    }
  }

  lemma SortedPlaces(fts: seq<string>, vec: seq<string>, k: real, r: seq<Scored>, i: nat, j: nat)
    requires IsFusion(fts, vec, k, r) && i < |r| && j < |r| && r[i].0 != r[j].0 && Ahead(r[i], r[j])
    ensures i < j
  {
    SortedSays(r, i, j);
  }

  lemma SortedSays(r: seq<Scored>, i: nat, j: nat)
    requires Sorted(r, Ahead) && i < |r| && j < |r|
    ensures j < i ==> !Ahead(r[i], r[j])
  {
  }

  // ---------------------------------------------------------------- the source's loops

  ghost predicate Accumulated(scores: map<string, Sum>, fts: seq<string>, vec: seq<string>, k: real) {
    && (forall id :: id in scores <==> id in fts || id in vec)
    && (forall id :: id in scores ==> scores[id] == Score(fts, vec, id, k))
  }

  function AddTo(scores: map<string, Sum>, id: string, amount: Sum): map<string, Sum> {
    scores[id := Plus(if id in scores then scores[id] else NOTHING, amount)]
  }

  lemma ScoreOfStranger(fts: seq<string>, vec: seq<string>, id: string, k: real)
    requires id !in fts && id !in vec
    ensures Score(fts, vec, id, k) == NOTHING
  {
    ScoreAbsent(fts, id, k);
    ScoreAbsent(vec, id, k);
  }

  lemma PlusRegroups(a: Sum, b: Sum, c: Sum)
    ensures Plus(Plus(a, b), c) == Plus(a, Plus(b, c)) == Plus(Plus(a, c), b)
    ensures Plus(NOTHING, a) == a == Plus(a, NOTHING)
  {
  }

  /** One more place at the end of a list. */
  lemma ListScoreSnoc(list: seq<string>, id: string, other: string, k: real)
    ensures ListScore(list + [id], other, k)
         == if other == id then Plus(ListScore(list, id, k), Weight(k, |list| + 1)) else ListScore(list, other, k)
  {
    hide Weight;
    assert (list + [id])[..|list|] == list;
    PlusRegroups(ListScore(list, other, k), NOTHING, NOTHING);
  }

  lemma AddFts(scores: map<string, Sum>, fts: seq<string>, id: string, k: real)
    requires Accumulated(scores, fts, [], k)
    ensures Accumulated(AddTo(scores, id, Weight(k, |fts| + 1)), fts + [id], [], k)
  {
    hide Weight, ListScore, Plus;
    if id !in scores { ScoreOfStranger(fts, [], id, k); }
    forall other ensures Score(fts + [id], [], other, k)
      == if other == id then Plus(Score(fts, [], id, k), Weight(k, |fts| + 1)) else Score(fts, [], other, k)
    {
      ListScoreSnoc(fts, id, other, k);
      PlusRegroups(ListScore(fts, id, k), Weight(k, |fts| + 1), ListScore([], id, k));
    }
  }

  lemma AddVec(scores: map<string, Sum>, fts: seq<string>, vec: seq<string>, id: string, k: real)
    requires Accumulated(scores, fts, vec, k)
    ensures Accumulated(AddTo(scores, id, Weight(k, |vec| + 1)), fts, vec + [id], k)
  {
    hide Weight, ListScore, Plus;
    if id !in scores { ScoreOfStranger(fts, vec, id, k); }
    forall other ensures Score(fts, vec + [id], other, k)
      == if other == id then Plus(Score(fts, vec, id, k), Weight(k, |vec| + 1)) else Score(fts, vec, other, k)
    {
      ListScoreSnoc(vec, id, other, k);
      PlusRegroups(ListScore(fts, id, k), ListScore(vec, id, k), Weight(k, |vec| + 1));
    }
  }

  lemma SortedPairs(scores: map<string, Sum>, fts: seq<string>, vec: seq<string>, k: real, pairs: seq<Scored>)
    requires Accumulated(scores, fts, vec, k) && Distinct(pairs)
    requires forall x: Scored :: x in pairs <==> x.0 in scores && scores[x.0] == x.1
    ensures IsFusion(fts, vec, k, Sort(pairs, Ahead))
  {
    hide Score, Ahead, Sort;
    SortIn(pairs, Ahead);
    AheadIsTotal();
    SortSorts(pairs, Ahead);
    SortKeepsDistinct(pairs, Ahead);
  }

  method RrfFuse(fts: seq<string>, vec: seq<string>, k: real) returns (result: seq<Scored>)
    ensures IsFusion(fts, vec, k, result)
  {
    var scores: map<string, Sum> := map[];
    hide AddTo, Weight, Score, ListScore;
    for pos := 0 to |fts|
      invariant Accumulated(scores, fts[..pos], [], k)
    {
      AddFts(scores, fts[..pos], fts[pos], k);
      assert fts[..pos] + [fts[pos]] == fts[..pos + 1];
      scores := AddTo(scores, fts[pos], Weight(k, pos + 1));
    }
    hide Accumulated, IsFusion, AddTo, Weight;
    assert fts[..|fts|] == fts && vec[..0] == [];
    for pos := 0 to |vec|
      invariant Accumulated(scores, fts, vec[..pos], k)
    {
      AddVec(scores, fts, vec[..pos], vec[pos], k);
      assert vec[..pos] + [vec[pos]] == vec[..pos + 1];
      scores := AddTo(scores, vec[pos], Weight(k, pos + 1));
    }
    assert vec[..|vec|] == vec;
    var pairs := Drain(scores);
    SortedPairs(scores, fts, vec, k, pairs);
    result := Sort(pairs, Ahead);
  }

  /** The pairs of a map in some order. */
  method Drain(scores: map<string, Sum>) returns (pairs: seq<Scored>)
    ensures forall x: Scored :: x in pairs <==> x.0 in scores && scores[x.0] == x.1
    ensures Distinct(pairs)
  {
    pairs := [];
    var todo := scores.Keys;
    while todo != {}
      invariant todo <= scores.Keys
      invariant forall x: Scored :: x in pairs <==> x.0 in scores && x.0 !in todo && scores[x.0] == x.1
      invariant Distinct(pairs)
      decreases todo
    {
      var id :| id in todo;
      todo := todo - {id};
      pairs := pairs + [(id, scores[id])];
    }
  }
}
