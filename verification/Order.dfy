/** Stable sorting under a strict weak order, and the string order the daemon sorts ids by. */
module Order {

  ghost predicate StrictWeak<T(!new)>(less: (T, T) -> bool) {
    && (forall a :: !less(a, a))
    && (forall a, b, c :: less(a, b) && less(b, c) ==> less(a, c))
    && (forall a, b, c :: !less(a, b) && !less(b, c) ==> !less(a, c))
  }

  ghost predicate StrictTotal<T(!new)>(less: (T, T) -> bool) {
    StrictWeak(less) && forall a, b :: a == b || less(a, b) || less(b, a)
  }

  ghost predicate Sorted<T>(s: seq<T>, less: (T, T) -> bool) {
    forall i, j :: 0 <= i < j < |s| ==> !less(s[j], s[i])
  }

  /** Puts `x` in front of the first element that is not less than it. */
  function Insert<T>(x: T, s: seq<T>, less: (T, T) -> bool): (r: seq<T>)
    ensures multiset(r) == multiset(s) + multiset{x} && |r| == |s| + 1
  {
    if s == [] || !less(s[0], x) then [x] + s
    else
      assert s == [s[0]] + s[1..];
      [s[0]] + Insert(x, s[1..], less)
  }

  function Sort<T>(s: seq<T>, less: (T, T) -> bool): (r: seq<T>)
    ensures multiset(r) == multiset(s) && |r| == |s|
  {
    if s == [] then []
    else
      assert s == [s[0]] + s[1..];
      Insert(s[0], Sort(s[1..], less), less)
  }

  lemma SortIn<T>(s: seq<T>, less: (T, T) -> bool)
    ensures forall x :: x in Sort(s, less) <==> x in s
  {
    forall x ensures x in Sort(s, less) <==> x in s {
      assert x in Sort(s, less) <==> x in multiset(Sort(s, less));
      assert x in s <==> x in multiset(s);
    }
  }

  lemma {:induction false} InsertSorts<T(!new)>(x: T, s: seq<T>, less: (T, T) -> bool)
    requires StrictWeak(less) && Sorted(s, less)
    ensures Sorted(Insert(x, s, less), less)
  {
    if s != [] && less(s[0], x) {
      InsertSorts(x, s[1..], less);
      var r := Insert(x, s[1..], less);
      forall j | 0 <= j < |r| ensures !less(r[j], s[0]) {
        assert r[j] in multiset(r);
        assert r[j] == x || r[j] in s[1..];
      }
    }
  }

  lemma {:induction false} SortSorts<T(!new)>(s: seq<T>, less: (T, T) -> bool)
    requires StrictWeak(less)
    ensures Sorted(Sort(s, less), less)
  {
    if s == [] {
    } else {
      SortSorts(s[1..], less);
      InsertSorts(s[0], Sort(s[1..], less), less);
    }
  }

  lemma SortedHeads<T(!new)>(a: seq<T>, b: seq<T>, less: (T, T) -> bool)
    requires StrictTotal(less) && Sorted(a, less) && Sorted(b, less)
    requires multiset(a) == multiset(b) && a != [] && b != []
    ensures a[0] == b[0]
  {
    assert a[0] in multiset(b) && b[0] in multiset(a);
    var i :| 0 <= i < |a| && a[i] == b[0];
    var j :| 0 <= j < |b| && b[j] == a[0];
    assert i == 0 || !less(a[i], a[0]);
    assert j == 0 || !less(b[j], b[0]);
  }

  lemma TailMultiset<T>(a: seq<T>)
    requires a != []
    ensures multiset(a[1..]) == multiset(a) - multiset{a[0]}
  {
    assert a == [a[0]] + a[1..];
  }

  /** Under a total order a multiset has exactly one sorted arrangement. */
  lemma {:induction false} SortedIsUnique<T(!new)>(a: seq<T>, b: seq<T>, less: (T, T) -> bool)
    requires StrictTotal(less) && Sorted(a, less) && Sorted(b, less)
    requires multiset(a) == multiset(b)
    ensures a == b
  {
    hide StrictTotal;
    assert |a| == |multiset(a)| && |b| == |multiset(b)|;
    if a == [] {
    } else {
      SortedHeads(a, b, less);
      TailMultiset(a);
      TailMultiset(b);
      SortedIsUnique(a[1..], b[1..], less);
      assert a == [a[0]] + a[1..] && b == [b[0]] + b[1..];
    }
  }

  ghost predicate Distinct<T>(s: seq<T>) { forall i, j :: 0 <= i < j < |s| ==> s[i] != s[j] }

  lemma {:induction false} DistinctMultiset<T>(s: seq<T>)
    requires Distinct(s)
    ensures forall x :: multiset(s)[x] == if x in s then 1 else 0
  {
    if s == [] {
    } else {
      var init, x := s[..|s| - 1], s[|s| - 1];
      DistinctMultiset(init);
      assert s == init + [x];
      assert multiset(s) == multiset(init) + multiset{x};
      assert x !in init;
    }
  }

  lemma {:induction false} MultisetDistinct<T>(s: seq<T>)
    requires forall x :: multiset(s)[x] <= 1
    ensures Distinct(s)
  {
    if s == [] {
    } else {
      var init, x := s[..|s| - 1], s[|s| - 1];
      assert s == init + [x];
      assert multiset(s) == multiset(init) + multiset{x};
      forall y ensures multiset(init)[y] <= 1 { assert multiset(init)[y] <= multiset(s)[y]; }
      MultisetDistinct(init);
      assert multiset(s)[x] <= 1;
      assert x !in multiset(init) && x !in init;
    }
  }

  lemma SortKeepsDistinct<T>(s: seq<T>, less: (T, T) -> bool)
    requires Distinct(s)
    ensures Distinct(Sort(s, less))
  {
    DistinctMultiset(s);
    MultisetDistinct(Sort(s, less));
  }

  // ---------------------------------------------------------------- strings

  function Less(a: string, b: string): bool {
    if b == "" then false
    else if a == "" then true
    else a[0] < b[0] || (a[0] == b[0] && Less(a[1..], b[1..]))
  }

  /** Lexicographic: a proper prefix, or smaller at the first difference. */
  lemma LessIff(a: string, b: string)
    ensures Less(a, b) <==> exists n :: LessAt(a, b, n)
  {
    if Less(a, b) {
      if a == "" {
        assert LessAt(a, b, 0);
      } else if a[0] < b[0] {
        assert LessAt(a, b, 0);
      } else {
        LessIff(a[1..], b[1..]);
        var n: nat :| LessAt(a[1..], b[1..], n);
        assert a[..n + 1] == [a[0]] + a[1..][..n] && b[..n + 1] == [b[0]] + b[1..][..n];
        assert LessAt(a, b, n + 1);
      }
    }
    if exists n :: LessAt(a, b, n) {
      var n: nat :| LessAt(a, b, n);
      if n > 0 {
        assert a[0] == a[..n][0] == b[..n][0] == b[0];
        assert a[1..][..n - 1] == a[..n][1..] && b[1..][..n - 1] == b[..n][1..];
        LessIff(a[1..], b[1..]);
        assert LessAt(a[1..], b[1..], n - 1);
      }
    }
  }

  ghost predicate LessAt(a: string, b: string, n: nat) {
    n <= |a| && n < |b| && a[..n] == b[..n] && (n == |a| || a[n] < b[n])
  }

  lemma LessTotal(a: string, b: string)
    ensures a == b || Less(a, b) || Less(b, a)
    ensures !(Less(a, b) && Less(b, a))
    ensures a == b ==> !Less(a, b)
  {
    if a != "" && b != "" && a[0] == b[0] {
      LessTotal(a[1..], b[1..]);
      assert a == [a[0]] + a[1..] && b == [b[0]] + b[1..];
    }
  }

  lemma LessTransitive(a: string, b: string, c: string)
    requires Less(a, b) && Less(b, c)
    ensures Less(a, c)
  {
    if a != "" && a[0] == b[0] == c[0] { LessTransitive(a[1..], b[1..], c[1..]); }
  }

  /** Lexicographic order on strings is a strict total order. */
  lemma LessIsTotal()
    ensures StrictTotal(Less)
  {
    forall a, b { LessTotal(a, b); }
    forall a, b, c | Less(a, b) && Less(b, c) ensures Less(a, c) { LessTransitive(a, b, c); }
    forall a, b, c | !Less(a, b) && !Less(b, c) ensures !Less(a, c) {
      LessTotal(a, b);
      LessTotal(b, c);
      LessTotal(a, c);
      if Less(a, c) {
        if a == b || b == c {
        } else {
          LessTransitive(c, b, a);
        }
      }
    }
  }
}
