/** Operations on the row sequences a query produces: WHERE (Filter),
    ORDER BY (Sort under a total preorder) and LIMIT/OFFSET (Page). */
module Rows {

  ghost predicate Total<T(!new)>(le: (T, T) -> bool) {
    forall a, b :: le(a, b) || le(b, a)
  }

  ghost predicate Transitive<T(!new)>(le: (T, T) -> bool) {
    forall a, b, c :: le(a, b) && le(b, c) ==> le(a, c)
  }

  /** `le` may be used as an ORDER BY key: a total preorder. */
  ghost predicate Preorder<T(!new)>(le: (T, T) -> bool) {
    Total(le) && Transitive(le)
  }

  ghost predicate Sorted<T>(s: seq<T>, le: (T, T) -> bool) {
    forall i, j :: 0 <= i < j < |s| ==> le(s[i], s[j])
  }

  ghost predicate Distinct<T>(s: seq<T>) {
    forall i, j :: 0 <= i < j < |s| ==> s[i] != s[j]
  }

  /** `r` is one of the answers an engine may give to ORDER BY `le` over `rows`:
      the same rows, sorted; the order among ties is not fixed. */
  ghost predicate IsOrdering<T>(r: seq<T>, rows: seq<T>, le: (T, T) -> bool) {
    multiset(r) == multiset(rows) && Sorted(r, le)
  }

  /** No two different rows tie under `le`: the order of an ORDER BY over
      them is fully determined. */
  ghost predicate NoTies<T(!new)>(rows: seq<T>, le: (T, T) -> bool) {
    forall a, b :: a in rows && b in rows && a != b ==> !(le(a, b) && le(b, a))
  }

  /** Without ties, every engine gives the same answer to an ORDER BY. */
  lemma {:induction false} OrderingUnique<T(!new)>(o1: seq<T>, o2: seq<T>, rows: seq<T>, le: (T, T) -> bool)
    requires IsOrdering(o1, rows, le) && IsOrdering(o2, rows, le) && NoTies(rows, le)
    ensures o1 == o2
  {
    assert |o1| == |multiset(rows)| == |o2|;
    if o1 != [] {
      OrderingHeads(o1, o2, rows, le);
      OrderingTails(o1, o2, rows, le);
      OrderingUnique(o1[1..], o2[1..], o1[1..], le);
      assert o1 == [o1[0]] + o1[1..] && o2 == [o2[0]] + o2[1..];
    }
  }

  /** Two orderings without ties start with the same row. */
  lemma OrderingHeads<T(!new)>(o1: seq<T>, o2: seq<T>, rows: seq<T>, le: (T, T) -> bool)
    requires IsOrdering(o1, rows, le) && IsOrdering(o2, rows, le) && NoTies(rows, le)
    requires o1 != [] && o2 != []
    ensures o1[0] == o2[0]
  {
    var x, y := o1[0], o2[0];
    assert x in multiset(o2) && y in multiset(o1);
    var j :| 0 <= j < |o2| && o2[j] == x;
    var i :| 0 <= i < |o1| && o1[i] == y;
    assert x == y || le(y, x);
    assert x == y || le(x, y);
    assert x in multiset(rows) && y in multiset(rows);
  }

  /** Past a shared first row, two orderings are orderings of the same rest,
      which keeps no ties. */
  lemma OrderingTails<T(!new)>(o1: seq<T>, o2: seq<T>, rows: seq<T>, le: (T, T) -> bool)
    requires IsOrdering(o1, rows, le) && IsOrdering(o2, rows, le) && NoTies(rows, le)
    requires o1 != [] && o2 != [] && o1[0] == o2[0]
    ensures IsOrdering(o1[1..], o1[1..], le) && IsOrdering(o2[1..], o1[1..], le) && NoTies(o1[1..], le)
  {
    var x := o1[0];
    assert o1 == [x] + o1[1..] && o2 == [x] + o2[1..];
    assert multiset(o1) == multiset{x} + multiset(o1[1..]);
    assert multiset(o2) == multiset{x} + multiset(o2[1..]);
    assert multiset(o1[1..]) == multiset(o1) - multiset{x} == multiset(o2) - multiset{x} == multiset(o2[1..]);
    SortedTail(o1, le);
    SortedTail(o2, le);
    forall a | a in o1[1..] ensures a in rows {
      assert a in multiset(o1);
    }
  }

  lemma SortedTail<T>(s: seq<T>, le: (T, T) -> bool)
    requires s != [] && Sorted(s, le)
    ensures Sorted(s[1..], le)
  {
    forall i, j | 0 <= i < j < |s| - 1 ensures le(s[1..][i], s[1..][j]) {
      assert s[1..][i] == s[i + 1] && s[1..][j] == s[j + 1];
    }
  }

  /** WHERE p: the rows satisfying `p`, in their original order. */
  function Filter<T(!new)>(s: seq<T>, p: T -> bool): (r: seq<T>)
    ensures forall x :: x in r <==> x in s && p(x)
    ensures |r| <= |s|
    ensures Distinct(s) ==> Distinct(r)
  {
    if s == [] then []
    else if p(s[0]) then [s[0]] + Filter(s[1..], p)
    else Filter(s[1..], p)
  }

  /** A condition every row satisfies filters nothing out. */
  lemma {:induction false} FilterAll<T(!new)>(s: seq<T>, p: T -> bool)
    requires forall x :: x in s ==> p(x)
    ensures Filter(s, p) == s
  {
    if s != [] {
      FilterAll(s[1..], p);
    }
  }

  /** A condition exactly one row fails filters out exactly that row. */
  lemma {:induction false} FilterDropsOne<T(!new)>(s: seq<T>, p: T -> bool, k: nat)
    requires k < |s| && !p(s[k])
    requires forall i :: 0 <= i < |s| && i != k ==> p(s[i])
    ensures |Filter(s, p)| == |s| - 1
  {
    if k == 0 {
      forall x | x in s[1..] ensures p(x) {
        var j :| 0 <= j < |s[1..]| && s[1..][j] == x;
        assert s[j + 1] == x;
      }
      FilterAll(s[1..], p);
    } else {
      forall i | 0 <= i < |s[1..]| && i != k - 1 ensures p(s[1..][i]) {
        assert s[1..][i] == s[i + 1];
      }
      FilterDropsOne(s[1..], p, k - 1);
    }
  }

  function Insert<T>(x: T, s: seq<T>, le: (T, T) -> bool): (r: seq<T>)
    ensures multiset(r) == multiset(s) + multiset{x}
    ensures |r| == |s| + 1
  {
    if s == [] then [x]
    else if le(x, s[0]) then [x] + s
    else
      assert s == [s[0]] + s[1..];
      [s[0]] + Insert(x, s[1..], le)
  }

  /** A stable insertion sort: the order the model picks among the orderings an
      engine may return. */
  function Sort<T>(s: seq<T>, le: (T, T) -> bool): (r: seq<T>)
    ensures multiset(r) == multiset(s)
    ensures |r| == |s|
  {
    if s == [] then []
    else
      assert s == [s[0]] + s[1..];
      Insert(s[0], Sort(s[1..], le), le)
  }

  lemma {:induction false} InsertSorted<T(!new)>(x: T, s: seq<T>, le: (T, T) -> bool)
    requires Preorder(le) && Sorted(s, le)
    ensures Sorted(Insert(x, s, le), le)
  {
    if s == [] {
    } else if le(x, s[0]) {
      var r := [x] + s;
      forall i, j | 0 <= i < j < |r| ensures le(r[i], r[j]) {
        if i == 0 && j > 1 {
          assert le(s[0], s[j - 1]);
        }
      }
    } else {
      var t := Insert(x, s[1..], le);
      InsertSorted(x, s[1..], le);
      assert Sorted(s[1..], le) by {
        forall i, j | 0 <= i < j < |s[1..]| ensures le(s[1..][i], s[1..][j]) {
          assert s[1..][i] == s[i + 1] && s[1..][j] == s[j + 1];
        }
      }
      forall k | 0 <= k < |t| ensures le(s[0], t[k]) {
        assert t[k] in multiset(t);
        if t[k] != x {
          assert t[k] in multiset(s[1..]);
          var m :| 0 <= m < |s[1..]| && s[1..][m] == t[k];
          assert s[m + 1] == t[k];
        }
      }
      var r := [s[0]] + t;
      forall i, j | 0 <= i < j < |r| ensures le(r[i], r[j]) {
        if i == 0 {
          assert r[j] == t[j - 1];
        } else {
          assert r[i] == t[i - 1] && r[j] == t[j - 1];
        }
      }
    }
  }

  lemma {:induction false} SortSorted<T(!new)>(s: seq<T>, le: (T, T) -> bool)
    requires Preorder(le)
    ensures Sorted(Sort(s, le), le)
  {
    if s != [] {
      SortSorted(s[1..], le);
      InsertSorted(s[0], Sort(s[1..], le), le);
    }
  }

  /** The model's ORDER BY gives one of the answers the engine may give. */
  lemma SortIsOrdering<T(!new)>(s: seq<T>, le: (T, T) -> bool)
    requires Preorder(le)
    ensures IsOrdering(Sort(s, le), s, le)
  {
    SortSorted(s, le);
  }

  lemma {:induction false} DistinctCounts<T>(s: seq<T>, x: T)
    requires Distinct(s)
    ensures multiset(s)[x] <= 1
  {
    if s != [] {
      assert s == [s[0]] + s[1..];
      assert Distinct(s[1..]) by {
        forall i, j | 0 <= i < j < |s[1..]| ensures s[1..][i] != s[1..][j] {
          assert s[1..][i] == s[i + 1] && s[1..][j] == s[j + 1];
        }
      }
      DistinctCounts(s[1..], x);
      if x == s[0] {
        forall m | 0 <= m < |s[1..]| ensures s[1..][m] != x {
          assert s[1..][m] == s[m + 1];
        }
        assert x !in s[1..];
      }
    }
  }

  /** A row not among distinct rows can be put in front of them. */
  lemma DistinctCons<T>(x: T, s: seq<T>)
    ensures Distinct(s) && x !in s ==> Distinct([x] + s)
  {
    if Distinct(s) && x !in s {
      var r := [x] + s;
      forall i, j | 0 <= i < j < |r| ensures r[i] != r[j] {
        assert r[j] == s[j - 1];
        if i > 0 { assert r[i] == s[i - 1]; }
      }
    }
  }

  /** Reordering distinct rows keeps them distinct (DISTINCT survives ORDER BY). */
  lemma PermutationDistinct<T>(r: seq<T>, s: seq<T>)
    requires multiset(r) == multiset(s) && Distinct(s)
    ensures Distinct(r)
  {
    forall i, j | 0 <= i < j < |r| ensures r[i] != r[j] {
      if r[i] == r[j] {
        assert r == r[..j] + r[j..];
        assert multiset(r) == multiset(r[..j]) + multiset(r[j..]);
        assert r[..j][i] == r[i];
        assert r[j..][0] == r[i];
        assert multiset(r[..j])[r[i]] >= 1 && multiset(r[j..])[r[i]] >= 1;
        DistinctCounts(s, r[i]);
        assert false;
      }
    }
  }

  /** The first row LIMIT/OFFSET keeps: a negative OFFSET counts as zero. */
  function PageStart(len: nat, offset: int): (k: nat)
    ensures k <= len
  {
    if offset <= 0 then 0 else if offset >= len then len else offset
  }

  /** LIMIT `limit` OFFSET `offset` as SQLite reads them: a negative LIMIT
      means no upper bound, a negative OFFSET counts as zero. */
  function Page<T>(s: seq<T>, limit: int, offset: int): (r: seq<T>)
    ensures limit >= 0 ==> |r| <= limit
    ensures offset >= 0 && limit >= 0 && offset + limit <= |s| ==> |r| == limit
    ensures limit < 0 && 0 <= offset <= |s| ==> |r| == |s| - offset
    ensures |r| == (if limit < 0 || PageStart(|s|, offset) + limit > |s| then |s| - PageStart(|s|, offset) else limit)
    ensures forall i :: 0 <= i < |r| ==> PageStart(|s|, offset) + i < |s| && r[i] == s[PageStart(|s|, offset) + i]
  {
    var start := PageStart(|s|, offset);
    var stop := if limit < 0 || start + limit > |s| then |s| else start + limit;
    s[start..stop]
  }

  /** A page keeps the order and the distinctness of what it is cut from,
      and holds only its rows. */
  lemma PageKeeps<T>(s: seq<T>, limit: int, offset: int, le: (T, T) -> bool)
    ensures Sorted(s, le) ==> Sorted(Page(s, limit, offset), le)
    ensures Distinct(s) ==> Distinct(Page(s, limit, offset))
    ensures forall x :: x in Page(s, limit, offset) ==> x in s
  {
  }

  /** Two pages over distinct rows whose windows do not overlap share no row. */
  lemma PagesDisjoint<T>(s: seq<T>, limit1: int, offset1: int, limit2: int, offset2: int)
    requires Distinct(s)
    requires 0 <= offset1 && 0 <= limit1 && offset1 + limit1 <= offset2
    ensures forall x :: x in Page(s, limit1, offset1) ==> x !in Page(s, limit2, offset2)
  {
  }
}
