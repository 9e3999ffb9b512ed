/** Collection operations the source takes from the Kotlin and Python
    standard libraries: `firstOrNull { }`, `filter { }`, and the stable
    sorts behind `sortedBy` / `sortByDescending`. */
module Lists {
  import opened Wrappers

  /* ---------- search and filter ---------- */

  /** Kotlin `indexOfFirst { p }`, as an option. */
  function FirstIndex<T>(s: seq<T>, p: T -> bool): (r: Option<nat>)
    ensures r.Some? ==> r.value < |s| && p(s[r.value])
    ensures r.Some? ==> forall j :: 0 <= j < r.value ==> !p(s[j])
    ensures r.None? ==> forall j :: 0 <= j < |s| ==> !p(s[j])
  {
    if |s| == 0 then None
    else if p(s[0]) then Some(0)
    else match FirstIndex(s[1..], p)
      case None => None
      case Some(k) => Some(k + 1)
  }

  /** Kotlin `firstOrNull { p }`. */
  function FirstMatch<T>(s: seq<T>, p: T -> bool): (r: Option<T>)
    ensures r.Some? <==> exists j :: 0 <= j < |s| && p(s[j])
    ensures r.Some? ==> p(r.value) && r.value in s
  {
    match FirstIndex(s, p)
    case None => None
    case Some(k) => Some(s[k])
  }

  /** Kotlin `filter { p }` / a Python list comprehension with a guard. */
  function Filter<T(!new)>(s: seq<T>, p: T -> bool): (r: seq<T>)
    ensures |r| <= |s|
    ensures forall x :: x in r <==> x in s && p(x)
    ensures multiset(r) <= multiset(s)
  {
    if |s| == 0 then []
    else
      assert s == [s[0]] + s[1..];
      if p(s[0]) then [s[0]] + Filter(s[1..], p)
      else Filter(s[1..], p)
  }

  lemma {:induction false} FilterAppend<T(!new)>(a: seq<T>, b: seq<T>, p: T -> bool)
    ensures Filter(a + b, p) == Filter(a, p) + Filter(b, p)
    decreases |a|
  {
    if |a| > 0 {
      assert (a + b)[0] == a[0];
      assert (a + b)[1..] == a[1..] + b;
      FilterAppend(a[1..], b, p);
    } else {
      assert a + b == b;
    }
  }

  /* ---------- stable sorting ---------- */

  /** `le` is a total preorder: the "not greater" relation of a key. */
  ghost predicate TotalPreorder<T(!new)>(le: (T, T) -> bool) {
    (forall a, b :: le(a, b) || le(b, a)) &&
    (forall a, b, c :: le(a, b) && le(b, c) ==> le(a, c))
  }

  predicate Sorted<T>(s: seq<T>, le: (T, T) -> bool) {
    forall i, j :: 0 <= i < j < |s| ==> le(s[i], s[j])
  }

  /** Inserts `x` after every leading element that is not greater than it,
      so among equal keys `x` lands last. */
  function Insert<T>(x: T, s: seq<T>, le: (T, T) -> bool): (r: seq<T>)
    ensures |r| == |s| + 1
    ensures multiset(r) == multiset(s) + multiset{x}
  {
    if |s| == 0 then [x]
    else if !le(s[0], x) then [x] + s
    else
      assert s == [s[0]] + s[1..];
      [s[0]] + Insert(x, s[1..], le)
  }

  /** A stable sort: Kotlin `sortedBy`, with `le(a, b)` meaning that the key
      of `a` is not greater than the key of `b`. */
  function SortBy<T>(s: seq<T>, le: (T, T) -> bool): (r: seq<T>)
    ensures multiset(r) == multiset(s)
    ensures |r| == |s|
  {
    if |s| == 0 then []
    else
      assert s == s[..|s| - 1] + [s[|s| - 1]];
      Insert(s[|s| - 1], SortBy(s[..|s| - 1], le), le)
  }

  /** The lexicographic combination of a primary and a secondary order. */
  function Lex<T>(le1: (T, T) -> bool, le2: (T, T) -> bool): (T, T) -> bool {
    (a, b) => (le1(a, b) && !le1(b, a)) || (le1(a, b) && le1(b, a) && le2(a, b))
  }

  lemma {:induction false} InsertSorted<T(!new)>(x: T, s: seq<T>, le: (T, T) -> bool)
    requires TotalPreorder(le)
    requires Sorted(s, le)
    ensures Sorted(Insert(x, s, le), le)
    decreases |s|
  {
    if |s| > 0 && le(s[0], x) {
      InsertSorted(x, s[1..], le);
      var r := Insert(x, s, le);
      forall j | 0 < j < |r| ensures le(s[0], r[j]) {
        assert r[j] in multiset(Insert(x, s[1..], le));
        assert r[j] in multiset(s[1..]) + multiset{x};
        if r[j] != x {
          assert r[j] in s[1..];
        }
      }
    }
  }

  /** `SortBy` sorts. */
  lemma {:induction false} SortBySorted<T(!new)>(s: seq<T>, le: (T, T) -> bool)
    requires TotalPreorder(le)
    ensures Sorted(SortBy(s, le), le)
    decreases |s|
  {
    if |s| > 0 {
      SortBySorted(s[..|s| - 1], le);
      InsertSorted(s[|s| - 1], SortBy(s[..|s| - 1], le), le);
    }
  }

  /** Inserting `x` into a list sorted by `Lex(le1, le2)` keeps it sorted
      when `x` is not smaller under `le2` than anything already there:
      the heart of stability. */
  lemma {:induction false} InsertLex<T(!new)>(x: T, s: seq<T>, le1: (T, T) -> bool, le2: (T, T) -> bool)
    requires TotalPreorder(le1)
    requires Sorted(s, Lex(le1, le2))
    requires forall y :: y in s ==> le2(y, x)
    ensures Sorted(Insert(x, s, le1), Lex(le1, le2))
    decreases |s|
  {
    var lex := Lex(le1, le2);
    if |s| == 0 {
    } else if !le1(s[0], x) {
      var r := Insert(x, s, le1);
      forall j | 0 < j < |r| ensures lex(x, r[j]) {
        assert r[j] == s[j - 1];
        if j - 1 > 0 {
          assert lex(s[0], s[j - 1]);
        }
      }
    } else {
      InsertLex(x, s[1..], le1, le2);
      var r := Insert(x, s, le1);
      forall j | 0 < j < |r| ensures lex(s[0], r[j]) {
        assert r[j] in multiset(Insert(x, s[1..], le1));
        assert r[j] in multiset(s[1..]) + multiset{x};
        if r[j] != x {
          assert r[j] in s[1..];
          var k :| 0 <= k < |s[1..]| && s[1..][k] == r[j];
          assert lex(s[0], s[k + 1]);
        } else {
          assert le2(s[0], x);
        }
      }
    }
  }

  /** Stability: sorting by `le1` a list already sorted by `le2` yields a
      list sorted by `le1` first and `le2` among equal `le1` keys. */
  lemma {:induction false} SortByStable<T(!new)>(s: seq<T>, le1: (T, T) -> bool, le2: (T, T) -> bool)
    requires TotalPreorder(le1)
    requires Sorted(s, le2)
    ensures Sorted(SortBy(s, le1), Lex(le1, le2))
    decreases |s|
  {
    if |s| > 0 {
      var init := s[..|s| - 1];
      var x := s[|s| - 1];
      assert Sorted(init, le2);
      SortByStable(init, le1, le2);
      forall y | y in SortBy(init, le1) ensures le2(y, x) {
        assert y in multiset(SortBy(init, le1));
        assert y in init;
        var k :| 0 <= k < |init| && init[k] == y;
        assert s[k] == y;
      }
      InsertLex(x, SortBy(init, le1), le1, le2);
    }
  }
}
