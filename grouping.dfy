/**
 * The aggregate shape every report query shares:
 * `SELECT key, COUNT(*) ... GROUP BY key ORDER BY ... [LIMIT n]`.
 *
 * A query result is a sequence of `GroupCount` rows. `IsGrouping` says a result
 * holds exactly one row per distinct key with that key's number of rows, and
 * `IsTopN` says what `ORDER BY count DESC LIMIT n` promises of it. SQL leaves the
 * order among equal counts open; the functions below produce one admissible order
 * and their contracts do not depend on which.
 */
module Grouping {
  import opened Wrappers

  datatype GroupCount<G> = GroupCount(key: G, count: nat)

  /** No key occurs in two rows. */
  predicate DistinctKeys<G(==,!new)>(rows: seq<GroupCount<G>>)
  {
    forall i, j :: 0 <= i < j < |rows| ==> rows[i].key != rows[j].key
  }

  predicate HasKey<G(==,!new)>(rows: seq<GroupCount<G>>, k: G)
  {
    exists i :: 0 <= i < |rows| && rows[i].key == k
  }

  /** Every row's count is the number of values in `xs` equal to its key, and is positive. */
  ghost predicate ExactCounts<G(!new)>(xs: seq<G>, rows: seq<GroupCount<G>>)
  {
    forall i :: 0 <= i < |rows| ==> rows[i].count == multiset(xs)[rows[i].key] && rows[i].key in xs
  }

  /** `rows` is `GROUP BY` over `xs` with `COUNT(*)`: one row per distinct value, exact counts. */
  ghost predicate IsGrouping<G(!new)>(xs: seq<G>, rows: seq<GroupCount<G>>)
  {
    && DistinctKeys(rows)
    && ExactCounts(xs, rows)
    && (forall x :: x in xs ==> HasKey(rows, x))
  }

  /** `ORDER BY count DESC`. */
  predicate NonIncreasing<G>(rows: seq<GroupCount<G>>)
  {
    forall i, j :: 0 <= i < j < |rows| ==> rows[i].count >= rows[j].count
  }

  /** `ORDER BY key` over integer keys, which a grouping makes strict. */
  predicate Ascending(rows: seq<GroupCount<int>>)
  {
    forall i, j :: 0 <= i < j < |rows| ==> rows[i].key < rows[j].key
  }

  /**
   * `GROUP BY key ORDER BY count DESC LIMIT n`: distinct keys with exact counts,
   * counts non-increasing, at most `n` rows, every key present when fewer than `n`
   * rows come back, and no omitted key counted more often than the last row.
   */
  ghost predicate IsTopN<G(!new)>(xs: seq<G>, rows: seq<GroupCount<G>>, n: nat)
  {
    && DistinctKeys(rows)
    && ExactCounts(xs, rows)
    && NonIncreasing(rows)
    && |rows| <= n
    && (|rows| < n ==> forall x :: x in xs ==> HasKey(rows, x))
    && (forall x :: x in xs && !HasKey(rows, x) && |rows| > 0 ==> multiset(xs)[x] <= rows[|rows| - 1].count)
  }

  predicate NoDuplicates<G(==,!new)>(ks: seq<G>)
  {
    forall i, j :: 0 <= i < j < |ks| ==> ks[i] != ks[j]
  }

  /** The distinct values of `xs`, in order of first appearance. */
  function DistinctValues<G(==,!new)>(xs: seq<G>): (ks: seq<G>)
    ensures NoDuplicates(ks)
    ensures forall k :: k in ks <==> k in xs
  {
    if |xs| == 0 then []
    else
      var ks := DistinctValues(xs[..|xs| - 1]);
      assert xs == xs[..|xs| - 1] + [xs[|xs| - 1]];
      if xs[|xs| - 1] in ks then ks else ks + [xs[|xs| - 1]]
  }

  /** One row per key of `ks`, counting its occurrences in `xs`. */
  function Tally<G(==,!new)>(xs: seq<G>, ks: seq<G>): (rows: seq<GroupCount<G>>)
    ensures |rows| == |ks|
    ensures forall i :: 0 <= i < |ks| ==> rows[i] == GroupCount(ks[i], multiset(xs)[ks[i]])
  {
    if |ks| == 0 then [] else [GroupCount(ks[0], multiset(xs)[ks[0]])] + Tally(xs, ks[1..])
  }

  /** `SELECT key, COUNT(*) GROUP BY key`, in order of first appearance. */
  function Grouped<G(==,!new)>(xs: seq<G>): (rows: seq<GroupCount<G>>)
    ensures IsGrouping(xs, rows)
  {
    var ks := DistinctValues(xs);
    var rows := Tally(xs, ks);
    assert forall x :: x in xs ==> HasKey(rows, x) by {
      forall x | x in xs ensures HasKey(rows, x) {
        var i :| 0 <= i < |ks| && ks[i] == x;
        assert rows[i].key == x;
      }
    }
    rows
  }

  /** Inserts a row into rows ordered by count, descending, after the rows with the same count. */
  function InsertByCount<G(!new)>(r: GroupCount<G>, rows: seq<GroupCount<G>>): (s: seq<GroupCount<G>>)
    requires NonIncreasing(rows)
    ensures NonIncreasing(s)
    ensures |s| == |rows| + 1
    ensures forall x :: x in s <==> x == r || x in rows
  {
    if |rows| == 0 then [r]
    else if r.count > rows[0].count then [r] + rows
    else
      var t := InsertByCount(r, rows[1..]);
      assert forall i :: 0 <= i < |t| ==> t[i].count <= rows[0].count by {
        forall i | 0 <= i < |t| ensures t[i].count <= rows[0].count {
          assert t[i] in t;
          if t[i] != r {
            assert t[i] in rows[1..];
            var j :| 0 <= j < |rows[1..]| && rows[1..][j] == t[i];
            assert rows[j + 1] == t[i];
          }
        }
      }
      [rows[0]] + t
  }

  /** The rows of `s` are the rows of `rows` and one more, `r`, at some position. */
  ghost predicate InsertedAt<G(!new)>(r: GroupCount<G>, rows: seq<GroupCount<G>>, s: seq<GroupCount<G>>, k: int)
  {
    0 <= k <= |rows| && s == rows[..k] + [r] + rows[k..]
  }

  /** `InsertByCount` puts the new row at a position, keeping the others in order. */
  lemma {:induction false} InsertByCountAt<G(!new)>(r: GroupCount<G>, rows: seq<GroupCount<G>>)
    requires NonIncreasing(rows)
    ensures exists k :: InsertedAt(r, rows, InsertByCount(r, rows), k)
    decreases |rows|
  {
    if |rows| == 0 {
      assert rows[..0] + [r] + rows[0..] == [r];
      assert InsertByCount(r, rows) == [r];
      assert InsertedAt(r, rows, InsertByCount(r, rows), 0);
    } else if r.count > rows[0].count {
      assert rows[..0] + [r] + rows[0..] == [r] + rows;
      assert InsertByCount(r, rows) == [r] + rows;
      assert InsertedAt(r, rows, InsertByCount(r, rows), 0);
    } else {
      InsertByCountAt(r, rows[1..]);
      var k :| InsertedAt(r, rows[1..], InsertByCount(r, rows[1..]), k);
      assert rows[1..][..k] + [r] + rows[1..][k..] == InsertByCount(r, rows[1..]);
      assert rows[..k + 1] == [rows[0]] + rows[1..][..k];
      assert rows[k + 1..] == rows[1..][k..];
      assert InsertedAt(r, rows, InsertByCount(r, rows), k + 1);
    }
  }

  /** Inserting a row whose key is new keeps the keys distinct. */
  lemma InsertedDistinct<G(!new)>(r: GroupCount<G>, rows: seq<GroupCount<G>>, s: seq<GroupCount<G>>, k: int)
    requires InsertedAt(r, rows, s, k) && DistinctKeys(rows)
    requires forall i :: 0 <= i < |rows| ==> rows[i].key != r.key
    ensures DistinctKeys(s)
  {
    assert forall i :: 0 <= i < |s| ==> s[i] == (if i < k then rows[i] else if i == k then r else rows[i - 1]);
  }

  /** Orders rows by count, descending; `SortByCountPermutes` shows it is a permutation of the rows. */
  function SortByCount<G(!new)>(rows: seq<GroupCount<G>>): (s: seq<GroupCount<G>>)
    ensures NonIncreasing(s)
    ensures |s| == |rows|
    ensures forall x :: x in s <==> x in rows
  {
    if |rows| == 0 then []
    else
      var t := SortByCount(rows[1..]);
      assert forall x :: x in rows <==> x == rows[0] || x in rows[1..] by {
        assert rows == [rows[0]] + rows[1..];
      }
      InsertByCount(rows[0], t)
  }

  /** `SortByCount` keeps every row as often as it occurs, repeated rows included. */
  lemma {:induction false} SortByCountPermutes<G(!new)>(rows: seq<GroupCount<G>>)
    ensures multiset(SortByCount(rows)) == multiset(rows)
  {
    if |rows| > 0 {
      var t := SortByCount(rows[1..]);
      SortByCountPermutes(rows[1..]);
      InsertByCountAt(rows[0], t);
      var k :| InsertedAt(rows[0], t, InsertByCount(rows[0], t), k);
      InsertedMultiset(rows[0], t, InsertByCount(rows[0], t), k);
      assert rows == [rows[0]] + rows[1..];
      assert multiset(rows) == multiset{rows[0]} + multiset(rows[1..]);
    }
  }

  lemma InsertedMultiset<G(!new)>(r: GroupCount<G>, rows: seq<GroupCount<G>>, s: seq<GroupCount<G>>, k: int)
    requires InsertedAt(r, rows, s, k)
    ensures multiset(s) == multiset(rows) + multiset{r}
  {
    assert rows == rows[..k] + rows[k..];
  }

  /** Sorting rows with distinct keys keeps them distinct. */
  lemma {:induction false} SortByCountDistinct<G(!new)>(rows: seq<GroupCount<G>>)
    requires DistinctKeys(rows)
    ensures DistinctKeys(SortByCount(rows))
  {
    if |rows| > 0 {
      var t := SortByCount(rows[1..]);
      SortByCountDistinct(rows[1..]);
      forall i | 0 <= i < |t| ensures t[i].key != rows[0].key {
        assert t[i] in t;
        assert t[i] in rows[1..];
        var j :| 0 <= j < |rows[1..]| && rows[1..][j] == t[i];
        assert rows[j + 1] == t[i];
      }
      InsertByCountAt(rows[0], t);
      var k :| InsertedAt(rows[0], t, InsertByCount(rows[0], t), k);
      InsertedDistinct(rows[0], t, InsertByCount(rows[0], t), k);
    }
  }

  /** Inserts a row with a new key into rows ordered by key. */
  function InsertByKey(r: GroupCount<int>, rows: seq<GroupCount<int>>): (s: seq<GroupCount<int>>)
    requires Ascending(rows)
    requires forall i :: 0 <= i < |rows| ==> rows[i].key != r.key
    ensures Ascending(s)
    ensures |s| == |rows| + 1
    ensures forall x :: x in s <==> x == r || x in rows
  {
    if |rows| == 0 then [r]
    else if r.key < rows[0].key then [r] + rows
    else
      var t := InsertByKey(r, rows[1..]);
      var s := [rows[0]] + t;
      assert forall i :: 1 <= i < |s| ==> rows[0].key < s[i].key by {
        forall i | 1 <= i < |s| ensures rows[0].key < s[i].key {
          assert s[i] == t[i - 1];
          assert t[i - 1] in t;
          if t[i - 1] != r {
            assert t[i - 1] in rows[1..];
            var j :| 0 <= j < |rows[1..]| && rows[1..][j] == t[i - 1];
            assert rows[j + 1] == t[i - 1];
          }
        }
      }
      s
  }

  /** Orders rows with distinct integer keys by key, ascending: a permutation of the rows. */
  function SortByKey(rows: seq<GroupCount<int>>): (s: seq<GroupCount<int>>)
    requires DistinctKeys(rows)
    ensures Ascending(s)
    ensures |s| == |rows|
    ensures forall x :: x in s <==> x in rows
  {
    if |rows| == 0 then []
    else
      var t := SortByKey(rows[1..]);
      assert forall x :: x in rows <==> x == rows[0] || x in rows[1..] by {
        assert rows == [rows[0]] + rows[1..];
      }
      assert forall i :: 0 <= i < |t| ==> t[i].key != rows[0].key by {
        forall i | 0 <= i < |t| ensures t[i].key != rows[0].key {
          assert t[i] in t;
          assert t[i] in rows[1..];
          var j :| 0 <= j < |rows[1..]| && rows[1..][j] == t[i];
          assert rows[j + 1] == t[i];
        }
      }
      InsertByKey(rows[0], t)
  }

  function Min(a: nat, b: nat): nat { if a <= b then a else b }

  /** `GROUP BY key ORDER BY count DESC LIMIT n`. */
  function TopN<G(==,!new)>(xs: seq<G>, n: nat): (rows: seq<GroupCount<G>>)
  {
    var sorted := SortByCount(Grouped(xs));
    sorted[..Min(n, |sorted|)]
  }

  /** `GROUP BY key ORDER BY key` over integer keys. */
  function GroupedByKey(xs: seq<int>): (rows: seq<GroupCount<int>>)
  {
    SortByKey(Grouped(xs))
  }

  /** A permutation of a grouping is a grouping. */
  lemma {:induction false} GroupingPermuted<G(!new)>(xs: seq<G>, rows: seq<GroupCount<G>>, s: seq<GroupCount<G>>)
    requires IsGrouping(xs, rows) && DistinctKeys(s) && forall x :: x in s <==> x in rows
    ensures IsGrouping(xs, s)
  {
    forall x | x in xs ensures HasKey(s, x) {
      var i :| 0 <= i < |rows| && rows[i].key == x;
      assert rows[i] in s;
      var j :| 0 <= j < |s| && s[j] == rows[i];
    }
    forall i | 0 <= i < |s| ensures s[i].count == multiset(xs)[s[i].key] && s[i].key in xs {
      assert s[i] in rows;
      var j :| 0 <= j < |rows| && rows[j] == s[i];
    }
  }

  /** A prefix of a grouping ordered by count keeps distinct keys, exact counts and the order. */
  lemma GroupingPrefix<G(!new)>(xs: seq<G>, sorted: seq<GroupCount<G>>, m: nat)
    requires IsGrouping(xs, sorted) && NonIncreasing(sorted) && m <= |sorted|
    ensures DistinctKeys(sorted[..m]) && ExactCounts(xs, sorted[..m]) && NonIncreasing(sorted[..m])
  {
    assert forall i :: 0 <= i < m ==> sorted[..m][i] == sorted[i];
  }

  /** A key left out of a prefix of a grouping ordered by count is counted at most as often as the prefix's last row. */
  lemma GroupingOmitted<G(!new)>(xs: seq<G>, sorted: seq<GroupCount<G>>, m: nat, x: G)
    requires IsGrouping(xs, sorted) && NonIncreasing(sorted) && 0 < m <= |sorted|
    requires x in xs && !HasKey(sorted[..m], x)
    ensures multiset(xs)[x] <= sorted[m - 1].count
  {
    forall i | 0 <= i < m ensures sorted[i].key != x {
      assert sorted[..m][i] == sorted[i];
    }
    var j :| 0 <= j < |sorted| && sorted[j].key == x;
  }

  /** `TopN` meets the `ORDER BY count DESC LIMIT n` characterisation. */
  lemma {:induction false} TopNIsTopN<G(!new)>(xs: seq<G>, n: nat)
    ensures IsTopN(xs, TopN(xs, n), n)
  {
    var g := Grouped(xs);
    var sorted := SortByCount(g);
    SortByCountDistinct(g);
    GroupingPermuted(xs, g, sorted);
    var m := Min(n, |sorted|);
    var rows := sorted[..m];
    assert rows == TopN(xs, n);
    GroupingPrefix(xs, sorted, m);
    forall x | x in xs && !HasKey(rows, x) && |rows| > 0
      ensures multiset(xs)[x] <= rows[|rows| - 1].count
    {
      GroupingOmitted(xs, sorted, m, x);
    }
    if |rows| < n {
      assert rows == sorted;
    }
  }

  /** `GroupedByKey` is a grouping in ascending key order. */
  lemma GroupedByKeyIsGrouping(xs: seq<int>)
    ensures IsGrouping(xs, GroupedByKey(xs)) && Ascending(GroupedByKey(xs))
  {
    var g := Grouped(xs);
    var s := SortByKey(g);
    GroupingPermuted(xs, g, s);
  }

  /** The counts of a result, added up. */
  function SumCounts<G>(rows: seq<GroupCount<G>>): nat
  {
    if |rows| == 0 then 0 else rows[0].count + SumCounts(rows[1..])
  }

  lemma {:induction false} SumInsertByCount<G(!new)>(r: GroupCount<G>, rows: seq<GroupCount<G>>)
    requires NonIncreasing(rows)
    ensures SumCounts(InsertByCount(r, rows)) == r.count + SumCounts(rows)
    decreases |rows|
  {
    if |rows| > 0 && r.count <= rows[0].count {
      SumInsertByCount(r, rows[1..]);
      assert ([rows[0]] + InsertByCount(r, rows[1..]))[1..] == InsertByCount(r, rows[1..]);
    }
  }

  lemma {:induction false} SumSortByCount<G(!new)>(rows: seq<GroupCount<G>>)
    ensures SumCounts(SortByCount(rows)) == SumCounts(rows)
  {
    if |rows| > 0 {
      SumSortByCount(rows[1..]);
      SumInsertByCount(rows[0], SortByCount(rows[1..]));
    }
  }

  lemma {:induction false} SumInsertByKey(r: GroupCount<int>, rows: seq<GroupCount<int>>)
    requires Ascending(rows)
    requires forall i :: 0 <= i < |rows| ==> rows[i].key != r.key
    ensures SumCounts(InsertByKey(r, rows)) == r.count + SumCounts(rows)
    decreases |rows|
  {
    if |rows| > 0 && r.key >= rows[0].key {
      SumInsertByKey(r, rows[1..]);
      assert ([rows[0]] + InsertByKey(r, rows[1..]))[1..] == InsertByKey(r, rows[1..]);
    }
  }

  lemma {:induction false} SumSortByKey(rows: seq<GroupCount<int>>)
    requires DistinctKeys(rows)
    ensures SumCounts(SortByKey(rows)) == SumCounts(rows)
  {
    if |rows| > 0 {
      var t := SortByKey(rows[1..]);
      SumSortByKey(rows[1..]);
      forall i | 0 <= i < |t| ensures t[i].key != rows[0].key {
        assert t[i] in t;
        assert t[i] in rows[1..];
        var j :| 0 <= j < |rows[1..]| && rows[1..][j] == t[i];
        assert rows[j + 1] == t[i];
      }
      SumInsertByKey(rows[0], t);
    }
  }

  /** Adding one more value `x` adds one to the tally of its key, which occurs once in `ks`. */
  lemma {:induction false} SumTallyStep<G(!new)>(xs: seq<G>, x: G, ks: seq<G>)
    requires NoDuplicates(ks)
    ensures SumCounts(Tally(xs + [x], ks)) == SumCounts(Tally(xs, ks)) + (if x in ks then 1 else 0)
    decreases |ks|
  {
    if |ks| > 0 {
      assert multiset(xs + [x]) == multiset(xs) + multiset{x};
      SumTallyStep(xs, x, ks[1..]);
      assert x in ks <==> x == ks[0] || x in ks[1..];
      if x == ks[0] {
        forall j | 0 <= j < |ks[1..]| ensures ks[1..][j] != x {
          assert ks[1..][j] == ks[j + 1];
        }
      }
    }
  }

  /** Tallying every value of `xs` over keys that cover it once each counts every value once. */
  lemma {:induction false} SumTally<G(!new)>(xs: seq<G>, ks: seq<G>)
    requires NoDuplicates(ks) && forall x :: x in xs ==> x in ks
    ensures SumCounts(Tally(xs, ks)) == |xs|
    decreases |xs|
  {
    if |xs| == 0 {
      ZeroTally(ks);
    } else {
      var init := xs[..|xs| - 1];
      assert xs == init + [xs[|xs| - 1]];
      assert forall x :: x in init ==> x in xs;
      SumTally(init, ks);
      SumTallyStep(init, xs[|xs| - 1], ks);
    }
  }

  lemma {:induction false} ZeroTally<G(!new)>(ks: seq<G>)
    ensures SumCounts(Tally([], ks)) == 0
  {
    if |ks| > 0 { ZeroTally(ks[1..]); }
  }

  /** The counts of a grouping add up to the number of rows grouped. */
  lemma GroupedSum<G(!new)>(xs: seq<G>)
    ensures SumCounts(Grouped(xs)) == |xs|
  {
    SumTally(xs, DistinctValues(xs));
  }

  /** The counts of `GROUP BY ... ORDER BY count DESC` add up to the number of rows grouped. */
  lemma SortedGroupedSum<G(!new)>(xs: seq<G>)
    ensures SumCounts(SortByCount(Grouped(xs))) == |xs|
  {
    GroupedSum(xs);
    SumSortByCount(Grouped(xs));
  }

  /** The counts of `GROUP BY key ORDER BY key` add up to the number of rows grouped. */
  lemma GroupedByKeySum(xs: seq<int>)
    ensures SumCounts(GroupedByKey(xs)) == |xs|
  {
    GroupedSum(xs);
    SumSortByKey(Grouped(xs));
  }

  /** Two sequences that match `x` and `y` at the same positions hold them equally often. */
  lemma {:induction false} CountsCorrespond<A, B>(xs: seq<A>, ys: seq<B>, x: A, y: B)
    requires |xs| == |ys|
    requires forall i :: 0 <= i < |xs| ==> (xs[i] == x <==> ys[i] == y)
    ensures multiset(xs)[x] == multiset(ys)[y]
    decreases |xs|
  {
    if |xs| > 0 {
      var n := |xs| - 1;
      CountsCorrespond(xs[..n], ys[..n], x, y);
      assert xs == xs[..n] + [xs[n]];
      assert ys == ys[..n] + [ys[n]];
    }
  }

  /** MySQL's `ORDER BY` on a nullable integer column: `NULL` sorts before every value. */
  predicate NullFirstBefore(a: Option<int>, b: Option<int>)
  {
    match (a, b)
    case (None, Some(_)) => true
    case (Some(x), Some(y)) => x < y
    case _ => false
  }

  /** `ORDER BY key` over nullable integer keys, which a grouping makes strict. */
  predicate AscendingNullFirst(rows: seq<GroupCount<Option<int>>>)
  {
    forall i, j :: 0 <= i < j < |rows| ==> NullFirstBefore(rows[i].key, rows[j].key)
  }

  /** The values that are not `NULL`, in order. */
  function Present<T>(xs: seq<Option<T>>): seq<T>
  {
    if |xs| == 0 then [] else (if xs[0].Some? then [xs[0].value] else []) + Present(xs[1..])
  }

  /** The number of `NULL`s. */
  function NullCount<T>(xs: seq<Option<T>>): nat
  {
    if |xs| == 0 then 0 else (if xs[0].None? then 1 else 0) + NullCount(xs[1..])
  }

  /** Dropping the `NULL`s keeps every value as often as it occurs; the `NULL`s are `NullCount` many. */
  lemma {:induction false} PresentCounts<T>(xs: seq<Option<T>>, v: T)
    ensures multiset(Present(xs))[v] == multiset(xs)[Some(v)]
    ensures NullCount(xs) == multiset(xs)[None]
    ensures |Present(xs)| + NullCount(xs) == |xs|
    decreases |xs|
  {
    if |xs| > 0 {
      PresentCounts(xs[1..], v);
      assert xs == [xs[0]] + xs[1..];
    }
  }

  /** A result's keys wrapped as present values, counts unchanged. */
  function Lift(rows: seq<GroupCount<int>>): (lifted: seq<GroupCount<Option<int>>>)
    ensures |lifted| == |rows|
    ensures forall i :: 0 <= i < |rows| ==> lifted[i] == GroupCount(Some(rows[i].key), rows[i].count)
  {
    if |rows| == 0 then [] else [GroupCount(Some(rows[0].key), rows[0].count)] + Lift(rows[1..])
  }

  lemma {:induction false} SumLift(rows: seq<GroupCount<int>>)
    ensures SumCounts(Lift(rows)) == SumCounts(rows)
  {
    if |rows| > 0 {
      SumLift(rows[1..]);
      assert Lift(rows)[1..] == Lift(rows[1..]);
    }
  }

  /** A `NULL` group of `n` rows, when there is one, ahead of the groups of present values. */
  function WithNulls(n: nat, g: seq<GroupCount<int>>): (rows: seq<GroupCount<Option<int>>>)
    ensures |rows| == |g| + (if n == 0 then 0 else 1)
    ensures n > 0 ==> rows[0] == GroupCount(None, n)
    ensures forall i :: 0 <= i < |g| ==> rows[i + (if n == 0 then 0 else 1)] == GroupCount(Some(g[i].key), g[i].count)
  {
    if n == 0 then Lift(g) else [GroupCount(None, n)] + Lift(g)
  }

  /** `GROUP BY key ORDER BY key` over nullable integer keys: all `NULL`s form one group, placed first. */
  function GroupedByNullableKey(xs: seq<Option<int>>): (rows: seq<GroupCount<Option<int>>>)
  {
    WithNulls(NullCount(xs), GroupedByKey(Present(xs)))
  }

  /** `GroupedByNullableKey` is a grouping, `NULL` first and the values ascending. */
  lemma GroupedByNullableKeyIsGrouping(xs: seq<Option<int>>)
    ensures IsGrouping(xs, GroupedByNullableKey(xs))
    ensures AscendingNullFirst(GroupedByNullableKey(xs))
  {
    var g := GroupedByKey(Present(xs));
    GroupedByKeyIsGrouping(Present(xs));
    NullableOrder(NullCount(xs), g);
    NullableCovers(xs, g);
    NullableCounts(xs, g);
  }

  lemma NullableOrder(n: nat, g: seq<GroupCount<int>>)
    requires Ascending(g)
    ensures AscendingNullFirst(WithNulls(n, g))
    ensures DistinctKeys(WithNulls(n, g))
  {
    var l := Lift(g);
    LiftAscending(g);
    if n > 0 {
      NullBeforeAll(n, l);
      assert WithNulls(n, g) == [GroupCount(None, n)] + l;
    }
    OrderedDistinct(WithNulls(n, g));
  }

  lemma LiftAscending(g: seq<GroupCount<int>>)
    requires Ascending(g)
    ensures AscendingNullFirst(Lift(g))
    ensures forall i :: 0 <= i < |Lift(g)| ==> Lift(g)[i].key.Some?
  {
  }

  lemma NullBeforeAll(n: nat, l: seq<GroupCount<Option<int>>>)
    requires AscendingNullFirst(l)
    requires forall i :: 0 <= i < |l| ==> l[i].key.Some?
    ensures AscendingNullFirst([GroupCount(None, n)] + l)
  {
    var rows := [GroupCount(None, n)] + l;
    forall i, j | 0 <= i < j < |rows| ensures NullFirstBefore(rows[i].key, rows[j].key) {
      assert rows[j] == l[j - 1];
      if i > 0 {
        assert rows[i] == l[i - 1];
      }
    }
  }

  lemma OrderedDistinct(rows: seq<GroupCount<Option<int>>>)
    requires AscendingNullFirst(rows)
    ensures DistinctKeys(rows)
  {
    forall i, j | 0 <= i < j < |rows| ensures rows[i].key != rows[j].key {
      assert NullFirstBefore(rows[i].key, rows[j].key);
    }
  }

  lemma NullableCovers(xs: seq<Option<int>>, g: seq<GroupCount<int>>)
    requires IsGrouping(Present(xs), g)
    ensures forall x :: x in xs ==> HasKey(WithNulls(NullCount(xs), g), x)
  {
    forall x | x in xs ensures HasKey(WithNulls(NullCount(xs), g), x) {
      if x.None? {
        PresentCounts(xs, 0);
        assert WithNulls(NullCount(xs), g)[0].key == x;
      } else {
        CoversValue(xs, g, x.value);
      }
    }
  }

  lemma CoversValue(xs: seq<Option<int>>, g: seq<GroupCount<int>>, v: int)
    requires IsGrouping(Present(xs), g)
    requires Some(v) in xs
    ensures HasKey(WithNulls(NullCount(xs), g), Some(v))
  {
    PresentCounts(xs, v);
    assert multiset(xs)[Some(v)] > 0;
    assert multiset(Present(xs))[v] > 0;
    assert v in Present(xs);
    var i :| 0 <= i < |g| && g[i].key == v;
    var n := NullCount(xs);
    var k := i + (if n == 0 then 0 else 1);
    var rows := WithNulls(n, g);
    assert rows[k] == GroupCount(Some(g[i].key), g[i].count);
    assert 0 <= k < |rows| && rows[k].key == Some(v);
  }

  lemma NullableCounts(xs: seq<Option<int>>, g: seq<GroupCount<int>>)
    requires IsGrouping(Present(xs), g)
    ensures ExactCounts(xs, WithNulls(NullCount(xs), g))
  {
    var n := NullCount(xs);
    var rows := WithNulls(n, g);
    var off := if n == 0 then 0 else 1;
    forall i | 0 <= i < |rows| ensures rows[i].count == multiset(xs)[rows[i].key] && rows[i].key in xs {
      if i < off {
        PresentCounts(xs, 0);
      } else {
        CountsValue(xs, g, i - off);
      }
    }
  }

  lemma CountsValue(xs: seq<Option<int>>, g: seq<GroupCount<int>>, i: int)
    requires IsGrouping(Present(xs), g) && 0 <= i < |g|
    ensures g[i].count == multiset(xs)[Some(g[i].key)] && Some(g[i].key) in xs
  {
    PresentCounts(xs, g[i].key);
  }

  /** In a grouping ordered with `NULL` first, the `NULL` group, when there is one, is the first row. */
  lemma NullGroupFirst(xs: seq<Option<int>>, rows: seq<GroupCount<Option<int>>>)
    requires IsGrouping(xs, rows) && AscendingNullFirst(rows)
    requires None in xs
    ensures |rows| > 0 && rows[0] == GroupCount(None, multiset(xs)[None])
  {
    var i :| 0 <= i < |rows| && rows[i].key == None;
    assert !NullFirstBefore(rows[0].key, rows[i].key);
  }

  /** The counts of `GroupedByNullableKey` add up to the number of values grouped, `NULL`s included. */
  lemma GroupedByNullableKeySum(xs: seq<Option<int>>)
    ensures SumCounts(GroupedByNullableKey(xs)) == |xs|
  {
    var p := Present(xs);
    PresentCounts(xs, 0);
    GroupedByKeySum(p);
    SumLift(GroupedByKey(p));
    var values := Lift(GroupedByKey(p));
    if NullCount(xs) > 0 {
      assert ([GroupCount(None, NullCount(xs))] + values)[1..] == values;
    }
  }
}
