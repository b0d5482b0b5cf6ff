/** The query shapes the routers of the backend share: filter the table, sort it with
    `order_by`, take the `offset(skip).limit(limit)` window; or look a row up by id
    with `filter(...).first()` and raise a 404 when there is none. */
module Listing {
  import opened Wrappers

  /** `HTTPException(status_code, detail)`. */
  datatype HttpError = HttpError(statusCode: int, detail: string)

  /** `le(a, b)`: `a` may come before `b`. A sort key is total and transitive. */
  ghost predicate TotalPreorder<T(!new)>(le: (T, T) -> bool) {
    (forall a, b :: le(a, b) || le(b, a)) &&
    (forall a, b, c :: le(a, b) && le(b, c) ==> le(a, c))
  }

  ghost predicate SortedBy<T>(s: seq<T>, le: (T, T) -> bool) {
    forall i, j :: 0 <= i < j < |s| ==> le(s[i], s[j])
  }

  /** Inserts `x` in front of the first element it may precede. */
  function Insert<T>(x: T, s: seq<T>, le: (T, T) -> bool): (r: seq<T>)
    ensures multiset(r) == multiset(s) + multiset{x}
    ensures |r| == |s| + 1
  {
    if s == [] then [x]
    else if le(x, s[0]) then [x] + s
    else
      var rest := Insert(x, s[1..], le);
      assert s == [s[0]] + s[1..];
      [s[0]] + rest
  }

  lemma {:induction false} InsertSorted<T(!new)>(x: T, s: seq<T>, le: (T, T) -> bool)
    requires TotalPreorder(le) && SortedBy(s, le)
    ensures SortedBy(Insert(x, s, le), le)
  {
    if s != [] && !le(x, s[0]) {
      InsertSorted(x, s[1..], le);
      InsertAfterHead(x, s, le);
    }
  }

  /** Once `x` goes after the head, the head may precede everything after it. */
  lemma InsertAfterHead<T>(x: T, s: seq<T>, le: (T, T) -> bool)
    requires SortedBy(s, le) && s != [] && !le(x, s[0]) && le(s[0], x)
    requires SortedBy(Insert(x, s[1..], le), le)
    ensures SortedBy(Insert(x, s, le), le)
  {
    var r, rest := Insert(x, s, le), Insert(x, s[1..], le);
    assert r == [s[0]] + rest;
    forall e | e in rest ensures le(s[0], e) {
      InsertedFrom(x, s[1..], le, e);
      if e != x {
        var k :| 0 <= k < |s[1..]| && s[1..][k] == e;
        assert e == s[k + 1];
      }
    }
    forall i, j | 0 <= i < j < |r| ensures le(r[i], r[j]) {
      assert r[j] == rest[j - 1];
      if i > 0 {
        assert r[i] == rest[i - 1];
      }
    }
  }

  /** Every element of an insertion is the inserted one or one of the old ones. */
  lemma InsertedFrom<T>(x: T, s: seq<T>, le: (T, T) -> bool, e: T)
    requires e in Insert(x, s, le)
    ensures e == x || e in s
  {
    assert e in multiset(Insert(x, s, le));
  }

  /** The stable insertion sort: elements equal under `le` keep their table order. */
  function SortBy<T>(s: seq<T>, le: (T, T) -> bool): (r: seq<T>)
    ensures multiset(r) == multiset(s)
    ensures |r| == |s|
  {
    if s == [] then []
    else
      assert s == [s[0]] + s[1..];
      Insert(s[0], SortBy(s[1..], le), le)
  }

  /** The result of `order_by` is sorted and holds exactly the rows it was given. */
  lemma {:induction false} SortBySorted<T(!new)>(s: seq<T>, le: (T, T) -> bool)
    requires TotalPreorder(le)
    ensures SortedBy(SortBy(s, le), le)
    ensures multiset(SortBy(s, le)) == multiset(s)
  {
    if s != [] {
      SortBySorted(s[1..], le);
      InsertSorted(s[0], SortBy(s[1..], le), le);
    }
  }

  /** Inserting with two orders that agree on `x` against every element gives the same
      sequence. */
  lemma {:induction false} InsertAgree<T>(x: T, s: seq<T>, le1: (T, T) -> bool, le2: (T, T) -> bool)
    requires forall i :: 0 <= i < |s| ==> le1(x, s[i]) == le2(x, s[i])
    ensures Insert(x, s, le1) == Insert(x, s, le2)
  {
    if s != [] && !le1(x, s[0]) {
      InsertAgree(x, s[1..], le1, le2);
    }
  }

  /** The sort depends on the order only through its verdicts on the table's own rows:
      two orders that agree there sort the table the same way. */
  lemma {:induction false} SortByAgree<T>(s: seq<T>, le1: (T, T) -> bool, le2: (T, T) -> bool)
    requires forall i, j :: 0 <= i < |s| && 0 <= j < |s| ==> le1(s[i], s[j]) == le2(s[i], s[j])
    ensures SortBy(s, le1) == SortBy(s, le2)
  {
    if s != [] {
      SortByAgree(s[1..], le1, le2);
      var t := SortBy(s[1..], le1);
      forall k | 0 <= k < |t| ensures le1(s[0], t[k]) == le2(s[0], t[k]) {
        assert t[k] in multiset(s[1..]);
        var j :| 0 <= j < |s[1..]| && s[1..][j] == t[k];
        assert s[j + 1] == t[k];
      }
      InsertAgree(s[0], t, le1, le2);
    }
  }

  /** `filter(...)`: the rows satisfying `p`, in table order. */
  function Filter<T(!new)>(s: seq<T>, p: T -> bool): (r: seq<T>)
    ensures |r| <= |s|
    ensures forall x :: x in r <==> x in s && p(x)
    ensures forall i :: 0 <= i < |r| ==> p(r[i])
  {
    if s == [] then []
    else
      assert s == [s[0]] + s[1..];
      (if p(s[0]) then [s[0]] else []) + Filter(s[1..], p)
  }

  /** Filtering keeps table order: the rows of `a + b` that pass are those of `a`
      followed by those of `b`. */
  lemma {:induction false} FilterAppend<T(!new)>(a: seq<T>, b: seq<T>, p: T -> bool)
    ensures Filter(a + b, p) == Filter(a, p) + Filter(b, p)
  {
    if a == [] {
      assert a + b == b;
    } else {
      assert a + b == [a[0]] + (a[1..] + b);
      FilterAppend(a[1..], b, p);
    }
  }

  /** Filtering keeps every passing row as often as the table holds it, and no other. */
  lemma {:induction false} FilterMultiset<T(!new)>(s: seq<T>, p: T -> bool)
    ensures forall x :: multiset(Filter(s, p))[x] == if p(x) then multiset(s)[x] else 0
  {
    if s != [] {
      assert s == [s[0]] + s[1..];
      FilterMultiset(s[1..], p);
    }
  }

  /** `offset(skip).limit(limit)`: at most `limit` rows, starting with row `skip`. */
  function Window<T>(s: seq<T>, skip: nat, limit: nat): (r: seq<T>)
    ensures |r| <= limit
    ensures |r| == if skip >= |s| then 0 else if |s| - skip < limit then |s| - skip else limit
    ensures forall i :: 0 <= i < |r| ==> r[i] == s[skip + i]
  {
    if skip >= |s| then []
    else if skip + limit <= |s| then s[skip..skip + limit]
    else s[skip..]
  }

  /** Consecutive windows tile the sorted list: page `k` followed by page `k + 1`
      is the window of twice the size, so paging never skips or repeats a row. */
  lemma WindowsTile<T>(s: seq<T>, skip: nat, limit: nat)
    ensures Window(s, skip, limit) + Window(s, skip + limit, limit) == Window(s, skip, 2 * limit)
  {
    var a, b, c := Window(s, skip, limit), Window(s, skip + limit, limit), Window(s, skip, 2 * limit);
    assert |a + b| == |c|;
    forall i | 0 <= i < |c| ensures (a + b)[i] == c[i] {
      if i >= |a| {
        assert (a + b)[i] == b[i - |a|];
      }
    }
  }

  /** A window that starts at the top and is at least as long as the list is the list. */
  lemma WindowAll<T>(s: seq<T>, limit: nat)
    requires |s| <= limit
    ensures Window(s, 0, limit) == s
  {
  }

  /** The first window of a sorted sequence holds its least elements: whatever it leaves
      out comes after everything it keeps. */
  lemma WindowFirstPage<T>(s: seq<T>, limit: nat, le: (T, T) -> bool)
    requires SortedBy(s, le)
    ensures forall x, y :: x in s && x !in Window(s, 0, limit) && y in Window(s, 0, limit) ==> le(y, x)
  {
    var r := Window(s, 0, limit);
    forall x, y | x in s && x !in r && y in r ensures le(y, x) {
      var k :| 0 <= k < |s| && s[k] == x;
      var j :| 0 <= j < |r| && r[j] == y;
      forall i | 0 <= i < |r| ensures s[i] != x {
        assert r[i] == s[i];
      }
      assert s[j] == y;
    }
  }

  // ---------------------------------------------------------------------------
  // Sort keys that may be NULL

  /** Ascending order on a nullable column. Where NULL goes is the database's choice:
      PostgreSQL sorts it as larger than every value, SQLite as smaller. */
  predicate AscLe(a: Option<int>, b: Option<int>, nullsLargest: bool) {
    match (a, b)
    case (None, None) => true
    case (None, Some(_)) => !nullsLargest
    case (Some(_), None) => nullsLargest
    case (Some(x), Some(y)) => x <= y
  }

  /** Descending order on a nullable column (`.desc()`). */
  predicate DescLe(a: Option<int>, b: Option<int>, nullsLargest: bool) {
    AscLe(b, a, nullsLargest)
  }

  /** Two keys tie in the ascending order exactly when they are equal, NULLs included. */
  lemma AscLeAntisymmetric(a: Option<int>, b: Option<int>, nullsLargest: bool)
    ensures AscLe(a, b, nullsLargest) && AscLe(b, a, nullsLargest) <==> a == b
  {
  }

  // ---------------------------------------------------------------------------
  // Windows of sorted lists, lookups

  /** Every row of a window is a row of the list, and a window of a sorted list is sorted. */
  lemma WindowOfSorted<T>(s: seq<T>, skip: nat, limit: nat, le: (T, T) -> bool)
    requires SortedBy(s, le)
    ensures SortedBy(Window(s, skip, limit), le)
    ensures forall x :: x in Window(s, skip, limit) ==> x in s
  {
    var r := Window(s, skip, limit);
    forall i, j | 0 <= i < j < |r| ensures le(r[i], r[j]) {
      assert r[i] == s[skip + i] && r[j] == s[skip + j];
    }
    forall x | x in r ensures x in s {
      var i :| 0 <= i < |r| && r[i] == x;
      assert s[skip + i] == x;
    }
  }

  /** `filter(p).first()`: some row satisfying `p`, or None. Without an `order_by` SQL
      promises no particular one; the model takes the first in table order, and
      `FirstUnique` shows the choice does not matter when only one row satisfies `p`. */
  function First<T(!new)>(s: seq<T>, p: T -> bool): (r: Option<T>)
    ensures r.None? <==> forall x :: x in s ==> !p(x)
    ensures r.Some? ==> r.value in s && p(r.value)
  {
    if s == [] then None else if p(s[0]) then Some(s[0]) else First(s[1..], p)
  }

  /** When only one row satisfies `p`, `first()` finds that row. */
  lemma {:induction false} FirstUnique<T(!new)>(s: seq<T>, p: T -> bool, x: T)
    requires x in s && p(x)
    requires forall y :: y in s && p(y) ==> y == x
    ensures First(s, p) == Some(x)
  {
    if s[0] != x {
      assert !p(s[0]);
      assert x in s[1..];
      FirstUnique(s[1..], p, x);
    }
  }
}
