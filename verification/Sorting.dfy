/**
 Comparison sorting of copies, as Array.prototype.sort does it (stable), and keyset seeking in the result.
 */
module Sorting {
  function CompareInts(a: int, b: int): int {
    if a < b then -1 else if a > b then 1 else 0
  }

  /** cmp orders the elements of rows strictly: distinct positions never compare equal. */
  ghost predicate Orders<T(!new)>(cmp: (T, T) -> int, rows: seq<T>) {
    && (forall a, b {:trigger cmp(a, b)} :: a in rows && b in rows ==>
         (cmp(a, b) < 0 <==> cmp(b, a) > 0) && (cmp(a, b) == 0 <==> a == b))
    && (forall a, b, c {:trigger cmp(a, b), cmp(b, c)} ::
         a in rows && b in rows && c in rows && cmp(a, b) < 0 && cmp(b, c) < 0 ==> cmp(a, c) < 0)
  }

  ghost predicate NoDuplicates<T>(rows: seq<T>) {
    forall i, j :: 0 <= i < j < |rows| ==> rows[i] != rows[j]
  }

  ghost predicate Increasing<T(!new)>(cmp: (T, T) -> int, rows: seq<T>) {
    forall i, j :: 0 <= i < j < |rows| ==> cmp(rows[i], rows[j]) < 0
  }

  function Insert<T>(cmp: (T, T) -> int, x: T, sorted: seq<T>): seq<T> {
    if sorted == [] || cmp(x, sorted[0]) <= 0 then [x] + sorted
    else [sorted[0]] + Insert(cmp, x, sorted[1..])
  }

  function Sort<T>(cmp: (T, T) -> int, rows: seq<T>): seq<T> {
    if rows == [] then [] else Insert(cmp, rows[0], Sort(cmp, rows[1..]))
  }

  function Filter<T>(p: T -> bool, rows: seq<T>): seq<T> {
    if rows == [] then []
    else (if p(rows[0]) then [rows[0]] else []) + Filter(p, rows[1..])
  }

  lemma {:induction false} InsertFacts<T(!new)>(cmp: (T, T) -> int, x: T, sorted: seq<T>)
    ensures |Insert(cmp, x, sorted)| == |sorted| + 1
    ensures multiset(Insert(cmp, x, sorted)) == multiset(sorted) + multiset{x}
    ensures forall r :: r in Insert(cmp, x, sorted) <==> r == x || r in sorted
  {
    if sorted != [] && cmp(x, sorted[0]) > 0 {
      InsertFacts(cmp, x, sorted[1..]);
    }
    assert sorted != [] ==> sorted == [sorted[0]] + sorted[1..];
  }

  lemma PrependIncreasing<T(!new)>(cmp: (T, T) -> int, x: T, rows: seq<T>)
    requires Increasing(cmp, rows) && forall r :: r in rows ==> cmp(x, r) < 0
    ensures Increasing(cmp, [x] + rows)
  {
    forall j | 0 <= j < |rows| ensures cmp(x, rows[j]) < 0 {
      assert rows[j] in rows;
    }
  }

  lemma TailIncreasing<T(!new)>(cmp: (T, T) -> int, rows: seq<T>)
    requires Increasing(cmp, rows) && rows != []
    ensures Increasing(cmp, rows[1..])
    ensures forall r :: r in rows[1..] ==> cmp(rows[0], r) < 0
  {
    forall r | r in rows[1..] ensures cmp(rows[0], r) < 0 {
      var i :| 0 <= i < |rows[1..]| && rows[1..][i] == r;
      assert rows[i + 1] == r;
    }
  }

  lemma {:induction false} InsertIncreasing<T(!new)>(cmp: (T, T) -> int, x: T, sorted: seq<T>)
    requires Orders(cmp, [x] + sorted) && Increasing(cmp, sorted) && x !in sorted
    ensures Increasing(cmp, Insert(cmp, x, sorted))
  {
    if sorted == [] {
    } else {
      var first, rest := sorted[0], sorted[1..];
      TailIncreasing(cmp, sorted);
      assert first in [x] + sorted && x in [x] + sorted;
      assert sorted == [first] + rest;
      if cmp(x, first) > 0 {
        assert forall r :: r in [x] + rest ==> r in [x] + sorted;
        InsertIncreasing(cmp, x, rest);
        InsertFacts(cmp, x, rest);
        PrependIncreasing(cmp, first, Insert(cmp, x, rest));
      } else {
        forall r | r in sorted ensures cmp(x, r) < 0 {
          assert r in [x] + sorted;
          assert r == first || (cmp(x, first) < 0 && cmp(first, r) < 0);
        }
        PrependIncreasing(cmp, x, sorted);
      }
    }
  }

  lemma TailDistinct<T>(rows: seq<T>)
    requires NoDuplicates(rows) && rows != []
    ensures NoDuplicates(rows[1..]) && rows[0] !in rows[1..]
  {
    assert forall i :: 0 <= i < |rows| - 1 ==> rows[1..][i] == rows[i + 1];
  }

  /** Sorting keeps the elements. */
  lemma {:induction false} SortFacts<T(!new)>(cmp: (T, T) -> int, rows: seq<T>)
    ensures |Sort(cmp, rows)| == |rows|
    ensures multiset(Sort(cmp, rows)) == multiset(rows)
    ensures forall r :: r in Sort(cmp, rows) <==> r in rows
  {
    if rows != [] {
      SortFacts(cmp, rows[1..]);
      InsertFacts(cmp, rows[0], Sort(cmp, rows[1..]));
      assert rows == [rows[0]] + rows[1..];
    }
  }

  /** When no two rows compare equal, sorting puts them in strictly increasing order. */
  lemma {:induction false} SortIncreasing<T(!new)>(cmp: (T, T) -> int, rows: seq<T>)
    requires Orders(cmp, rows) && NoDuplicates(rows)
    ensures Increasing(cmp, Sort(cmp, rows))
  {
    if rows != [] {
      var x, rest := rows[0], rows[1..];
      TailDistinct(rows);
      assert forall r :: r in rest ==> r in rows;
      SortIncreasing(cmp, rest);
      SortFacts(cmp, rest);
      assert forall r :: r in [x] + Sort(cmp, rest) ==> r in rows;
      InsertIncreasing(cmp, x, Sort(cmp, rest));
    }
  }

  lemma {:induction false} FilterFacts<T(!new)>(p: T -> bool, rows: seq<T>)
    ensures forall r :: r in Filter(p, rows) <==> r in rows && p(r)
    ensures |Filter(p, rows)| <= |rows|
  {
    if rows != [] {
      FilterFacts(p, rows[1..]);
      assert rows == [rows[0]] + rows[1..];
    }
  }

  lemma {:induction false} FilterIncreasing<T(!new)>(cmp: (T, T) -> int, p: T -> bool, rows: seq<T>)
    requires Increasing(cmp, rows)
    ensures Increasing(cmp, Filter(p, rows))
  {
    if rows != [] {
      TailIncreasing(cmp, rows);
      FilterIncreasing(cmp, p, rows[1..]);
      FilterFacts(p, rows[1..]);
      if p(rows[0]) {
        PrependIncreasing(cmp, rows[0], Filter(p, rows[1..]));
      }
    }
  }

  lemma {:induction false} FilterAgrees<T(!new)>(p: T -> bool, q: T -> bool, rows: seq<T>)
    requires forall r :: r in rows ==> p(r) == q(r)
    ensures Filter(p, rows) == Filter(q, rows)
  {
    if rows != [] {
      assert forall r :: r in rows[1..] ==> r in rows;
      FilterAgrees(p, q, rows[1..]);
    }
  }

  /** Two comparisons with the same signs sort alike. */
  lemma {:induction false} SortAgrees<T(!new)>(cmp: (T, T) -> int, cmp': (T, T) -> int, rows: seq<T>)
    requires forall a, b :: a in rows && b in rows ==> (cmp(a, b) <= 0 <==> cmp'(a, b) <= 0)
    ensures Sort(cmp, rows) == Sort(cmp', rows)
  {
    if rows != [] {
      assert forall r :: r in rows[1..] ==> r in rows;
      SortAgrees(cmp, cmp', rows[1..]);
      SortFacts(cmp, rows[1..]);
      InsertAgrees(cmp, cmp', rows[0], Sort(cmp, rows[1..]));
    }
  }

  lemma {:induction false} InsertAgrees<T(!new)>(cmp: (T, T) -> int, cmp': (T, T) -> int, x: T, sorted: seq<T>)
    requires forall b :: b in sorted ==> (cmp(x, b) <= 0 <==> cmp'(x, b) <= 0)
    ensures Insert(cmp, x, sorted) == Insert(cmp', x, sorted)
  {
    if sorted != [] {
      assert sorted[0] in sorted;
      InsertAgrees(cmp, cmp', x, sorted[1..]);
    }
  }

  /** Seeking past the element at i of a sorted list leaves exactly what follows it. */
  lemma {:induction false} SeekPast<T(!new)>(cmp: (T, T) -> int, rows: seq<T>, i: nat, past: T -> bool)
    requires Increasing(cmp, rows) && Orders(cmp, rows) && i < |rows|
    requires forall r :: r in rows ==> (past(r) <==> cmp(r, rows[i]) > 0)
    ensures Filter(past, rows) == rows[i + 1..]
  {
    forall j | 0 <= j < |rows| ensures past(rows[j]) <==> j > i {
      assert rows[j] in rows && rows[i] in rows;
      assert j > i ==> cmp(rows[i], rows[j]) < 0;
      assert cmp(rows[i], rows[j]) < 0 <==> cmp(rows[j], rows[i]) > 0;
    }
    FilterSuffix(past, rows, i + 1);
  }

  lemma {:induction false} FilterSuffix<T(!new)>(p: T -> bool, rows: seq<T>, n: nat)
    requires n <= |rows|
    requires forall j :: 0 <= j < n ==> !p(rows[j])
    requires forall j :: n <= j < |rows| ==> p(rows[j])
    ensures Filter(p, rows) == rows[n..]
  {
    if rows != [] {
      assert forall j :: 0 <= j < |rows[1..]| ==> rows[1..][j] == rows[j + 1];
      FilterSuffix(p, rows[1..], if n == 0 then 0 else n - 1);
    }
  }

  lemma {:induction false} FilterDistinct<T(!new)>(p: T -> bool, rows: seq<T>)
    requires NoDuplicates(rows)
    ensures NoDuplicates(Filter(p, rows))
  {
    if rows != [] {
      TailDistinct(rows);
      FilterDistinct(p, rows[1..]);
      FilterFacts(p, rows[1..]);
    }
  }

  lemma SameHead<T(!new)>(cmp: (T, T) -> int, a: seq<T>, b: seq<T>)
    requires Increasing(cmp, a) && Increasing(cmp, b) && Orders(cmp, a) && a != []
    requires forall x :: x in a <==> x in b
    ensures b != [] && a[0] == b[0] && cmp(a[0], a[0]) == 0
  {
    assert a[0] in a && a[0] in b;
    assert b[0] in b && b[0] in a;
    var i :| 0 <= i < |a| && a[i] == b[0];
    var j :| 0 <= j < |b| && b[j] == a[0];
    assert cmp(a[0], b[0]) < 0 <==> cmp(b[0], a[0]) > 0;
  }

  lemma HeadAndTail<T(!new)>(a: seq<T>)
    requires a != []
    ensures forall x :: x in a <==> x == a[0] || x in a[1..]
  {
    assert a == [a[0]] + a[1..];
  }

  lemma SameTail<T(!new)>(cmp: (T, T) -> int, a: seq<T>, b: seq<T>, x: T)
    requires Increasing(cmp, a) && a != [] && b != [] && a[0] == b[0] && cmp(a[0], a[0]) == 0
    requires (x in a <==> x in b) && x in a[1..]
    ensures x in b[1..]
  {
    TailIncreasing(cmp, a);
    HeadAndTail(a);
    HeadAndTail(b);
  }

  lemma SameTails<T(!new)>(cmp: (T, T) -> int, a: seq<T>, b: seq<T>)
    requires Increasing(cmp, a) && Increasing(cmp, b)
    requires a != [] && b != [] && a[0] == b[0] && cmp(a[0], a[0]) == 0
    requires forall x :: x in a <==> x in b
    ensures forall x :: x in a[1..] <==> x in b[1..]
  {
    forall x ensures x in a[1..] <==> x in b[1..] {
      if x in a[1..] {
        SameTail(cmp, a, b, x);
      } else if x in b[1..] {
        SameTail(cmp, b, a, x);
      }
    }
  }

  lemma TailOrders<T(!new)>(cmp: (T, T) -> int, a: seq<T>)
    requires Orders(cmp, a) && a != []
    ensures Orders(cmp, a[1..])
  {
    assert forall x :: x in a[1..] ==> x in a;
  }

  lemma NoMembers<T(!new)>(a: seq<T>)
    ensures (forall x :: x !in a) ==> a == []
  {
    if a != [] {
      assert a[0] in a;
    }
  }

  lemma ConsEqual<T>(a: seq<T>, b: seq<T>)
    requires a != [] && b != [] && a[0] == b[0] && a[1..] == b[1..]
    ensures a == b
  {
    assert a == [a[0]] + a[1..] && b == [b[0]] + b[1..];
  }

  /** Two strictly ordered lists with the same members are the same list. */
  lemma {:induction false} OneOrderedList<T(!new)>(cmp: (T, T) -> int, a: seq<T>, b: seq<T>)
    requires Increasing(cmp, a) && Increasing(cmp, b) && Orders(cmp, a)
    requires forall x :: x in a <==> x in b
    ensures a == b
  {
    if a == [] {
      NoMembers(b);
    } else {
      SameHead(cmp, a, b);
      SameTails(cmp, a, b);
      TailIncreasing(cmp, a);
      TailIncreasing(cmp, b);
      TailOrders(cmp, a);
      OneOrderedList(cmp, a[1..], b[1..]);
      ConsEqual(a, b);
    }
  }

  lemma {:induction false} FilterNone<T(!new)>(p: T -> bool, rows: seq<T>)
    requires forall r :: r in rows ==> !p(r)
    ensures Filter(p, rows) == []
  {
    if rows != [] {
      assert rows[0] in rows && forall r :: r in rows[1..] ==> r in rows;
      FilterNone(p, rows[1..]);
    }
  }

  function RemoveAt<T>(list: seq<T>, i: nat): seq<T>
    requires i < |list|
  {
    list[..i] + list[i + 1..]
  }

  lemma RemoveAtCounts<T>(list: seq<T>, i: nat)
    requires i < |list|
    ensures multiset(list) == multiset(RemoveAt(list, i)) + multiset{list[i]}
  {
    assert list == list[..i] + [list[i]] + list[i + 1..];
  }

  function IndexOf<T(==)>(list: seq<T>, x: T): (i: nat)
    requires x in list
    ensures i < |list| && list[i] == x
  {
    if list[0] == x then 0 else 1 + IndexOf(list[1..], x)
  }

  lemma RemoveKeepsOthers<T>(list: seq<T>, i: nat, y: T)
    requires i < |list| && y in list && y != list[i]
    ensures y in RemoveAt(list, i)
  {
    RemoveAtCounts(list, i);
    assert y in multiset(list);
    assert y in multiset(RemoveAt(list, i));
  }

  lemma AppendIncreasing<T(!new)>(cmp: (T, T) -> int, a: seq<T>, b: seq<T>)
    requires Increasing(cmp, a) && Increasing(cmp, b)
    requires forall x, y :: x in a && y in b ==> cmp(x, y) < 0
    ensures Increasing(cmp, a + b)
  {
    var c := a + b;
    forall i, j | 0 <= i < j < |c| ensures cmp(c[i], c[j]) < 0 {
      assert i < |a| ==> c[i] == a[i] && a[i] in a;
      assert j >= |a| ==> c[j] == b[j - |a|] && b[j - |a|] in b;
    }
  }
}
