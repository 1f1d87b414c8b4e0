/**
 * `groupby(key).agg(sum of ms_played, count)` and the rankings that follow it
 * (`nlargest(n, col)`, `sort_values(col, ascending=False).head(n)`).
 *
 * A grouping key is given as `keyOf: Row -> Option<K>`; `None` is a row whose
 * key column is null, which pandas' `groupby` drops. `counted` says which rows
 * the `count` column counts (the non-null values of the counted column).
 */
module Grouping {
  import opened Wrappers
  import opened Seqs
  import opened Ingestion

  /** One output row of the aggregation. */
  datatype Group<K> = Group(key: K, totalMs: int, count: nat)

  predicate DistinctKeys<K(==)>(gs: seq<Group<K>>) {
    forall i, j :: 0 <= i < j < |gs| ==> gs[i].key != gs[j].key
  }

  // ---------------------------------------------------------------------------
  // Per-key reference definitions, straight over the rows
  // ---------------------------------------------------------------------------

  /** Some row falls in group `k`. */
  predicate HasKey<K(==)>(rows: seq<Row>, keyOf: Row -> Option<K>, k: K)
    decreases |rows|
  {
    rows != [] && (HasKey(rows[..|rows| - 1], keyOf, k) || keyOf(rows[|rows| - 1]) == Some(k))
  }

  lemma {:induction false} HasKeyIff<K>(rows: seq<Row>, keyOf: Row -> Option<K>, k: K)
    ensures HasKey(rows, keyOf, k) <==> exists i :: 0 <= i < |rows| && keyOf(rows[i]) == Some(k)
    decreases |rows|
  {
    if rows != [] {
      var init := rows[..|rows| - 1];
      HasKeyIff(init, keyOf, k);
      if HasKey(init, keyOf, k) {
        var i :| 0 <= i < |init| && keyOf(init[i]) == Some(k);
        assert rows[i] == init[i];
      }
      if exists i :: 0 <= i < |rows| && keyOf(rows[i]) == Some(k) {
        var i :| 0 <= i < |rows| && keyOf(rows[i]) == Some(k);
        if i < |init| {
          assert init[i] == rows[i];
        }
      }
    }
  }

  /** The sum of `ms_played` over the rows of group `k`. */
  function KeyTotal<K(==)>(rows: seq<Row>, keyOf: Row -> Option<K>, k: K): int
    decreases |rows|
  {
    if rows == [] then 0
    else
      var x := rows[|rows| - 1];
      KeyTotal(rows[..|rows| - 1], keyOf, k) + (if keyOf(x) == Some(k) then x.msPlayed else 0)
  }

  /** The number of counted rows in group `k`. */
  function KeyCount<K(==)>(rows: seq<Row>, keyOf: Row -> Option<K>, counted: Row -> bool, k: K): nat
    decreases |rows|
  {
    if rows == [] then 0
    else
      var x := rows[|rows| - 1];
      KeyCount(rows[..|rows| - 1], keyOf, counted, k) + (if keyOf(x) == Some(k) && counted(x) then 1 else 0)
  }

  /** The sum of `ms_played` over the rows that fall in some group. */
  function KeyedTotal<K>(rows: seq<Row>, keyOf: Row -> Option<K>): int
    decreases |rows|
  {
    if rows == [] then 0
    else
      var x := rows[|rows| - 1];
      KeyedTotal(rows[..|rows| - 1], keyOf) + (if keyOf(x).Some? then x.msPlayed else 0)
  }

  /** The number of counted rows that fall in some group. */
  function KeyedCount<K>(rows: seq<Row>, keyOf: Row -> Option<K>, counted: Row -> bool): nat
    decreases |rows|
  {
    if rows == [] then 0
    else
      var x := rows[|rows| - 1];
      KeyedCount(rows[..|rows| - 1], keyOf, counted) + (if keyOf(x).Some? && counted(x) then 1 else 0)
  }

  /** The sum of `ms_played` over all rows. */
  function TotalMs(rows: seq<Row>): int
    decreases |rows|
  {
    if rows == [] then 0 else TotalMs(rows[..|rows| - 1]) + rows[|rows| - 1].msPlayed
  }

  /** The distinct non-null keys of the rows (`nunique` counts them). */
  function KeySet<K>(rows: seq<Row>, keyOf: Row -> Option<K>): set<K>
    decreases |rows|
  {
    if rows == [] then {}
    else
      var x := rows[|rows| - 1];
      KeySet(rows[..|rows| - 1], keyOf) + (if keyOf(x).Some? then {keyOf(x).value} else {})
  }

  lemma {:induction false} KeySetIsHasKey<K>(rows: seq<Row>, keyOf: Row -> Option<K>, k: K)
    ensures k in KeySet(rows, keyOf) <==> HasKey(rows, keyOf, k)
    decreases |rows|
  {
    if rows != [] {
      KeySetIsHasKey(rows[..|rows| - 1], keyOf, k);
    }
  }

  /** There are no more distinct keys than rows. */
  lemma {:induction false} KeySetBound<K>(rows: seq<Row>, keyOf: Row -> Option<K>)
    ensures |KeySet(rows, keyOf)| <= |rows|
    decreases |rows|
  {
    if rows != [] {
      KeySetBound(rows[..|rows| - 1], keyOf);
    }
  }

  function SumTotals<K>(gs: seq<Group<K>>): int {
    if gs == [] then 0 else gs[0].totalMs + SumTotals(gs[1..])
  }

  function SumCounts<K>(gs: seq<Group<K>>): nat {
    if gs == [] then 0 else gs[0].count + SumCounts(gs[1..])
  }

  // ---------------------------------------------------------------------------
  // The aggregation
  // ---------------------------------------------------------------------------

  /** The group with key `k`, if there is one. */
  function Find<K(==)>(gs: seq<Group<K>>, k: K): (r: Option<Group<K>>)
    ensures r.Some? ==> r.value in gs && r.value.key == k
    ensures r.None? <==> forall i :: 0 <= i < |gs| ==> gs[i].key != k
  {
    if gs == [] then None
    else if gs[0].key == k then Some(gs[0])
    else Find(gs[1..], k)
  }

  /** Adds one row (`ms` played, `c` counted) to group `k`, opening the group if needed. */
  function AddTo<K(==)>(gs: seq<Group<K>>, k: K, ms: int, c: nat): (r: seq<Group<K>>)
    ensures forall i :: 0 <= i < |r| ==> r[i].key == k || r[i] in gs
    ensures SumTotals(r) == SumTotals(gs) + ms
    ensures SumCounts(r) == SumCounts(gs) + c
    ensures DistinctKeys(gs) ==> DistinctKeys(r)
  {
    if gs == [] then [Group(k, ms, c)]
    else if gs[0].key == k then [Group(k, gs[0].totalMs + ms, gs[0].count + c)] + gs[1..]
    else
      var rest := AddTo(gs[1..], k, ms, c);
      AddToBehindHead(gs, k, rest);
      [gs[0]] + rest
  }

  lemma AddToBehindHead<K>(gs: seq<Group<K>>, k: K, rest: seq<Group<K>>)
    requires gs != [] && gs[0].key != k
    requires forall i :: 0 <= i < |rest| ==> rest[i].key == k || rest[i] in gs[1..]
    requires DistinctKeys(gs[1..]) ==> DistinctKeys(rest)
    ensures DistinctKeys(gs) ==> DistinctKeys([gs[0]] + rest)
  {
    if DistinctKeys(gs) {
      TailDistinct(gs);
      forall i | 0 <= i < |rest|
        ensures rest[i].key != gs[0].key
      {
        if rest[i].key != k {
          var j :| 0 <= j < |gs[1..]| && gs[1..][j] == rest[i];
        }
      }
      ConsDistinct(gs[0], rest);
    }
  }

  /**
   * The groups of `rows`: one per key present, with the key's total duration
   * and count; grand totals are those of the keyed rows.
   */
  function GroupBy<K(==)>(rows: seq<Row>, keyOf: Row -> Option<K>, counted: Row -> bool): (gs: seq<Group<K>>)
    ensures DistinctKeys(gs)
    ensures SumTotals(gs) == KeyedTotal(rows, keyOf)
    ensures SumCounts(gs) == KeyedCount(rows, keyOf, counted)
    decreases |rows|
  {
    if rows == [] then []
    else
      var x := rows[|rows| - 1];
      var gs := GroupBy(rows[..|rows| - 1], keyOf, counted);
      match keyOf(x)
      case None => gs
      case Some(k) => AddTo(gs, k, x.msPlayed, if counted(x) then 1 else 0)
  }

  /** Adding to group `k` leaves the lookup of every other key as it was. */
  lemma {:induction false} FindAddToOther<K>(gs: seq<Group<K>>, k: K, ms: int, c: nat, k2: K)
    requires k2 != k
    ensures Find(AddTo(gs, k, ms, c), k2) == Find(gs, k2)
    decreases |gs|
  {
    if gs == [] {
      var r := [Group(k, ms, c)];
      assert AddTo(gs, k, ms, c) == r && r[1..] == [];
    } else {
      var r := AddTo(gs, k, ms, c);
      assert r[1..] == if gs[0].key == k then gs[1..] else AddTo(gs[1..], k, ms, c);
      assert r[0].key == gs[0].key;
      if gs[0].key == k2 {
        assert r[0] == gs[0];
      } else if gs[0].key != k {
        FindAddToOther(gs[1..], k, ms, c, k2);
      }
    }
  }

  /** Group `k` after one more row (`ms` played, `c` counted), from its previous state. */
  function Grown<K>(before: Option<Group<K>>, k: K, ms: int, c: nat): Group<K> {
    match before
    case None => Group(k, ms, c)
    case Some(g) => Group(k, g.totalMs + ms, g.count + c)
  }

  /** Adding to group `k` grows its lookup by the row, or opens it with the row. */
  lemma {:induction false} FindAddToSame<K>(gs: seq<Group<K>>, k: K, ms: int, c: nat)
    ensures Find(AddTo(gs, k, ms, c), k) == Some(Grown(Find(gs, k), k, ms, c))
    decreases |gs|
  {
    var r := AddTo(gs, k, ms, c);
    if gs == [] {
      assert r == [Group(k, ms, c)];
      assert Find(r, k) == Some(r[0]);
    } else if gs[0].key == k {
      assert r == [Group(k, gs[0].totalMs + ms, gs[0].count + c)] + gs[1..];
      assert Find(gs, k) == Some(gs[0]);
      assert Find(r, k) == Some(r[0]);
    } else {
      var rest := AddTo(gs[1..], k, ms, c);
      assert r == [gs[0]] + rest;
      assert r[0].key != k && r[1..] == rest;
      assert Find(r, k) == Find(rest, k);
      assert Find(gs, k) == Find(gs[1..], k);
      FindAddToSame(gs[1..], k, ms, c);
    }
  }

  lemma {:induction false} AbsentKey<K>(rows: seq<Row>, keyOf: Row -> Option<K>, counted: Row -> bool, k: K)
    ensures !HasKey(rows, keyOf, k) ==> KeyTotal(rows, keyOf, k) == 0 && KeyCount(rows, keyOf, counted, k) == 0
    decreases |rows|
  {
    if rows != [] && !HasKey(rows, keyOf, k) {
      AbsentKey(rows[..|rows| - 1], keyOf, counted, k);
    }
  }

  /** The reference definition of group `k`. */
  function ExpectedGroup<K(==)>(rows: seq<Row>, keyOf: Row -> Option<K>, counted: Row -> bool, k: K): Option<Group<K>> {
    if HasKey(rows, keyOf, k)
    then Some(Group(k, KeyTotal(rows, keyOf, k), KeyCount(rows, keyOf, counted, k)))
    else None
  }

  /**
   * The group the aggregation produces for `k` is exactly the reference
   * definition: present iff some row has key `k`, with that key's total and count.
   */
  lemma {:induction false} GroupByFind<K>(rows: seq<Row>, keyOf: Row -> Option<K>, counted: Row -> bool, k: K)
    ensures Find(GroupBy(rows, keyOf, counted), k) == ExpectedGroup(rows, keyOf, counted, k)
    decreases |rows|
  {
    if rows != [] {
      var init := rows[..|rows| - 1];
      GroupByFind(init, keyOf, counted, k);
      if keyOf(rows[|rows| - 1]).Some? {
        var k2 := keyOf(rows[|rows| - 1]).value;
        var c: nat := if counted(rows[|rows| - 1]) then 1 else 0;
        GroupByLastKeyed(rows, keyOf, counted, k2, c);
        GroupByFindKeyed(rows, GroupBy(init, keyOf, counted), keyOf, counted, k, k2, c);
      } else {
        GroupByFindUnkeyed(rows, keyOf, counted, k);
      }
    }
  }

  /** The inductive step when the last row has no key: nothing changes. */
  lemma GroupByFindUnkeyed<K>(rows: seq<Row>, keyOf: Row -> Option<K>, counted: Row -> bool, k: K)
    requires rows != [] && keyOf(rows[|rows| - 1]).None?
    requires Find(GroupBy(rows[..|rows| - 1], keyOf, counted), k) == ExpectedGroup(rows[..|rows| - 1], keyOf, counted, k)
    ensures Find(GroupBy(rows, keyOf, counted), k) == ExpectedGroup(rows, keyOf, counted, k)
  {
    var init := rows[..|rows| - 1];
    assert GroupBy(rows, keyOf, counted) == GroupBy(init, keyOf, counted);
    ExpectedUnchanged(rows, init, keyOf, counted, k);
  }

  lemma ExpectedUnchanged<K>(rows: seq<Row>, init: seq<Row>, keyOf: Row -> Option<K>, counted: Row -> bool, k: K)
    requires rows != [] && init == rows[..|rows| - 1] && keyOf(rows[|rows| - 1]).None?
    ensures ExpectedGroup(rows, keyOf, counted, k) == ExpectedGroup(init, keyOf, counted, k)
  {
    assert KeyTotal(rows, keyOf, k) == KeyTotal(init, keyOf, k);
    assert KeyCount(rows, keyOf, counted, k) == KeyCount(init, keyOf, counted, k);
    assert HasKey(rows, keyOf, k) == HasKey(init, keyOf, k);
  }

  /** The inductive step when the last row has a key: that group grows, or opens. */
  lemma GroupByFindKeyed<K>(rows: seq<Row>, gs: seq<Group<K>>, keyOf: Row -> Option<K>, counted: Row -> bool, k: K, k2: K, c: nat)
    requires rows != [] && keyOf(rows[|rows| - 1]) == Some(k2)
    requires c == if counted(rows[|rows| - 1]) then 1 else 0
    requires Find(gs, k) == ExpectedGroup(rows[..|rows| - 1], keyOf, counted, k)
    ensures Find(AddTo(gs, k2, rows[|rows| - 1].msPlayed, c), k) == ExpectedGroup(rows, keyOf, counted, k)
  {
    var init, x := rows[..|rows| - 1], rows[|rows| - 1];
    ExpectedStep(rows, keyOf, counted, k, k2, c);
    FindStep(gs, k2, x.msPlayed, c, k, ExpectedGroup(init, keyOf, counted, k), ExpectedGroup(rows, keyOf, counted, k));
  }

  /** The reference definition after one more row with key `k2`. */
  lemma ExpectedStep<K>(rows: seq<Row>, keyOf: Row -> Option<K>, counted: Row -> bool, k: K, k2: K, c: nat)
    requires rows != [] && keyOf(rows[|rows| - 1]) == Some(k2)
    requires c == if counted(rows[|rows| - 1]) then 1 else 0
    ensures var init := rows[..|rows| - 1];
      k2 != k ==> ExpectedGroup(rows, keyOf, counted, k) == ExpectedGroup(init, keyOf, counted, k)
    ensures var init := rows[..|rows| - 1];
      k2 == k ==> (ExpectedGroup(rows, keyOf, counted, k) ==
        Some(Group(k, KeyTotal(init, keyOf, k) + rows[|rows| - 1].msPlayed, KeyCount(init, keyOf, counted, k) + c)))
    ensures var init := rows[..|rows| - 1];
      !HasKey(init, keyOf, k) ==> KeyTotal(init, keyOf, k) == 0 && KeyCount(init, keyOf, counted, k) == 0
  {
    AbsentKey(rows[..|rows| - 1], keyOf, counted, k);
  }

  /** Adding a row to group `k2` changes the lookup of `k` only when `k == k2`, by that row. */
  lemma FindStep<K>(gs: seq<Group<K>>, k2: K, ms: int, c: nat, k: K, before: Option<Group<K>>, after: Option<Group<K>>)
    requires Find(gs, k) == before
    requires k2 != k ==> after == before
    requires k2 == k ==> after == Some(Grown(before, k, ms, c))
    ensures Find(AddTo(gs, k2, ms, c), k) == after
  {
    if k2 == k {
      FindAddToSame(gs, k, ms, c);
    } else {
      FindAddToOther(gs, k2, ms, c, k);
    }
  }

  lemma GroupByLastKeyed<K>(rows: seq<Row>, keyOf: Row -> Option<K>, counted: Row -> bool, k2: K, c: nat)
    requires rows != [] && keyOf(rows[|rows| - 1]) == Some(k2)
    requires c == if counted(rows[|rows| - 1]) then 1 else 0
    ensures GroupBy(rows, keyOf, counted) == AddTo(GroupBy(rows[..|rows| - 1], keyOf, counted), k2, rows[|rows| - 1].msPlayed, c)
  {
  }



  lemma FindDistinct<K>(gs: seq<Group<K>>, i: nat)
    requires DistinctKeys(gs) && i < |gs|
    ensures Find(gs, gs[i].key) == Some(gs[i])
  {
    if i > 0 {
      assert gs[1..][i - 1] == gs[i];
      FindDistinct(gs[1..], i - 1);
    }
  }

  /**
   * Every group is exactly its key's reference totals, and every key present
   * in the rows has a group.
   */
  lemma GroupsAreExact<K>(rows: seq<Row>, keyOf: Row -> Option<K>, counted: Row -> bool)
    ensures forall g :: g in GroupBy(rows, keyOf, counted) ==>
      HasKey(rows, keyOf, g.key) && g.totalMs == KeyTotal(rows, keyOf, g.key)
      && g.count == KeyCount(rows, keyOf, counted, g.key)
    ensures forall k :: HasKey(rows, keyOf, k) ==>
      exists g :: g in GroupBy(rows, keyOf, counted) && g.key == k
  {
    var gs := GroupBy(rows, keyOf, counted);
    forall g | g in gs
      ensures HasKey(rows, keyOf, g.key) && g.totalMs == KeyTotal(rows, keyOf, g.key)
      ensures g.count == KeyCount(rows, keyOf, counted, g.key)
    {
      var i :| 0 <= i < |gs| && gs[i] == g;
      FindDistinct(gs, i);
      GroupByFind(rows, keyOf, counted, g.key);
    }
    forall k | HasKey(rows, keyOf, k)
      ensures exists g :: g in gs && g.key == k
    {
      GroupByFind(rows, keyOf, counted, k);
    }
  }

  /** When every row of a group is counted, the group's count is at least one. */
  lemma {:induction false} CountAtLeastOne<K>(rows: seq<Row>, keyOf: Row -> Option<K>, counted: Row -> bool, k: K)
    requires HasKey(rows, keyOf, k)
    requires forall i :: 0 <= i < |rows| ==> counted(rows[i])
    ensures KeyCount(rows, keyOf, counted, k) >= 1
    decreases |rows|
  {
    var init := rows[..|rows| - 1];
    if keyOf(rows[|rows| - 1]) != Some(k) {
      CountAtLeastOne(init, keyOf, counted, k);
    }
  }

  // ---------------------------------------------------------------------------
  // Ranking
  // ---------------------------------------------------------------------------

  predicate SortedDesc<T>(s: seq<T>, metric: T -> int) {
    forall i, j :: 0 <= i < j < |s| ==> metric(s[i]) >= metric(s[j])
  }

  /** Inserts `x` into a descending sequence, before the first element it is not below. */
  function Insert<T>(x: T, s: seq<T>, metric: T -> int): (r: seq<T>)
    ensures |r| == |s| + 1
    ensures forall i :: 0 <= i < |r| ==> r[i] == x || r[i] in s
    ensures multiset(r) == multiset(s) + multiset{x}
    ensures SortedDesc(s, metric) ==> SortedDesc(r, metric)
  {
    if s == [] || metric(s[0]) <= metric(x) then [x] + s
    else
      var rest := Insert(x, s[1..], metric);
      InsertBehindHead(x, s, rest, metric);
      [s[0]] + rest
  }

  lemma InsertBehindHead<T>(x: T, s: seq<T>, rest: seq<T>, metric: T -> int)
    requires s != [] && metric(x) < metric(s[0])
    requires forall i :: 0 <= i < |rest| ==> rest[i] == x || rest[i] in s[1..]
    requires multiset(rest) == multiset(s[1..]) + multiset{x}
    requires SortedDesc(s[1..], metric) ==> SortedDesc(rest, metric)
    ensures forall i :: 0 <= i < |[s[0]] + rest| ==> ([s[0]] + rest)[i] == x || ([s[0]] + rest)[i] in s
    ensures multiset([s[0]] + rest) == multiset(s) + multiset{x}
    ensures SortedDesc(s, metric) ==> SortedDesc([s[0]] + rest, metric)
  {
    assert s == [s[0]] + s[1..];
    assert multiset([s[0]] + rest) == multiset{s[0]} + multiset(rest);
    if SortedDesc(s, metric) {
      var r := [s[0]] + rest;
      forall i, j | 0 <= i < j < |r|
        ensures metric(r[i]) >= metric(r[j])
      {
        if i == 0 && r[j] != x {
          var k :| 0 <= k < |s[1..]| && s[1..][k] == r[j];
          assert s[k + 1] == r[j];
        }
      }
    }
  }

  /** `sort_values(col, ascending=False)`: a descending permutation (tie order unspecified). */
  function SortDesc<T>(s: seq<T>, metric: T -> int): (r: seq<T>)
    ensures multiset(r) == multiset(s)
    ensures SortedDesc(r, metric)
    decreases |s|
  {
    if s == [] then []
    else
      assert s == s[..|s| - 1] + [s[|s| - 1]];
      Insert(s[|s| - 1], SortDesc(s[..|s| - 1], metric), metric)
  }

  /** `nlargest(n, col)` / `sort_values(col, ascending=False).head(n)`. */
  function TopN<T>(s: seq<T>, n: int, metric: T -> int): (r: seq<T>)
    ensures SortedDesc(r, metric)
    ensures multiset(r) <= multiset(s)
    ensures 0 <= n ==> |r| == (if n < |s| then n else |s|)
  {
    var sorted := SortDesc(s, metric);
    var r := Head(sorted, n);
    PrefixSubMultiset(sorted, |r|);
    SortedPrefix(sorted, |r|, metric);
    r
  }

  lemma PrefixSubMultiset<T>(s: seq<T>, m: nat)
    requires m <= |s|
    ensures multiset(s[..m]) <= multiset(s)
  {
    assert s == s[..m] + s[m..];
  }

  lemma SortedPrefix<T>(s: seq<T>, m: nat, metric: T -> int)
    requires m <= |s| && SortedDesc(s, metric)
    ensures SortedDesc(s[..m], metric)
  {
  }

  /** Nothing left out of the top `n` ranks above anything kept. */
  lemma TopNKeepsLargest<T>(s: seq<T>, n: int, metric: T -> int)
    ensures exists rest: seq<T> ::
      && multiset(TopN(s, n, metric)) + multiset(rest) == multiset(s)
      && (forall x, y :: x in rest && y in TopN(s, n, metric) ==> metric(x) <= metric(y))
  {
    var sorted := SortDesc(s, metric);
    var r := TopN(s, n, metric);
    assert r == sorted[..|r|];
    PrefixDominates(sorted, |r|, s, metric);
  }

  /** In a descending permutation of `s`, a prefix dominates the rest. */
  lemma PrefixDominates<T>(sorted: seq<T>, m: nat, s: seq<T>, metric: T -> int)
    requires SortedDesc(sorted, metric) && multiset(sorted) == multiset(s) && m <= |sorted|
    ensures exists rest: seq<T> ::
      && multiset(sorted[..m]) + multiset(rest) == multiset(s)
      && (forall x, y :: x in rest && y in sorted[..m] ==> metric(x) <= metric(y))
  {
    var r, rest := sorted[..m], sorted[m..];
    assert sorted == r + rest;
    forall x, y | x in rest && y in r
      ensures metric(x) <= metric(y)
    {
      var i :| 0 <= i < |rest| && rest[i] == x;
      var j :| 0 <= j < m && r[j] == y;
      assert sorted[m + i] == x && sorted[j] == y;
    }
    assert multiset(r) + multiset(rest) == multiset(s);
  }

  lemma {:induction false} InsertKeepsDistinctKeys<K>(x: Group<K>, s: seq<Group<K>>, metric: Group<K> -> int)
    requires DistinctKeys(s)
    requires forall i :: 0 <= i < |s| ==> s[i].key != x.key
    ensures DistinctKeys(Insert(x, s, metric))
    decreases |s|
  {
    if s == [] || metric(s[0]) <= metric(x) {
      assert Insert(x, s, metric) == [x] + s;
      ConsDistinct(x, s);
    } else {
      var tail := s[1..];
      TailDistinct(s);
      InsertKeepsDistinctKeys(x, tail, metric);
      var rest := Insert(x, tail, metric);
      assert Insert(x, s, metric) == [s[0]] + rest;
      forall i | 0 <= i < |rest|
        ensures rest[i].key != s[0].key
      {
        if rest[i] != x {
          var k :| 0 <= k < |tail| && tail[k] == rest[i];
          assert s[k + 1] == rest[i];
        }
      }
      ConsDistinct(s[0], rest);
    }
  }

  /** Putting a group with a new key in front keeps the keys distinct. */
  lemma ConsDistinct<K>(g: Group<K>, gs: seq<Group<K>>)
    requires DistinctKeys(gs)
    requires forall i :: 0 <= i < |gs| ==> gs[i].key != g.key
    ensures DistinctKeys([g] + gs)
  {
    var r := [g] + gs;
    forall i, j | 0 <= i < j < |r|
      ensures r[i].key != r[j].key
    {
      assert r[j] == gs[j - 1];
      if i > 0 {
        assert r[i] == gs[i - 1];
      }
    }
  }

  /** The groups after the first have distinct keys, all different from the first's. */
  lemma TailDistinct<K>(gs: seq<Group<K>>)
    requires gs != [] && DistinctKeys(gs)
    ensures DistinctKeys(gs[1..])
    ensures forall i :: 0 <= i < |gs[1..]| ==> gs[1..][i].key != gs[0].key
  {
    var tail := gs[1..];
    forall i, j | 0 <= i < j < |tail|
      ensures tail[i].key != tail[j].key
    {
      assert tail[i] == gs[i + 1] && tail[j] == gs[j + 1];
    }
    forall i | 0 <= i < |tail|
      ensures tail[i].key != gs[0].key
    {
      assert tail[i] == gs[i + 1];
    }
  }

  lemma {:induction false} SortKeepsDistinctKeys<K>(s: seq<Group<K>>, metric: Group<K> -> int)
    requires DistinctKeys(s)
    ensures DistinctKeys(SortDesc(s, metric))
    decreases |s|
  {
    if s != [] {
      var init, x := s[..|s| - 1], s[|s| - 1];
      SortKeepsDistinctKeys(init, metric);
      var sorted := SortDesc(init, metric);
      forall i | 0 <= i < |sorted|
        ensures sorted[i].key != x.key
      {
        assert sorted[i] in multiset(init);
        var k :| 0 <= k < |init| && init[k] == sorted[i];
        assert s[k] == sorted[i];
      }
      InsertKeepsDistinctKeys(x, sorted, metric);
    }
  }

  /** Every group of `all` left out of `kept` ranks no higher than any kept group. */
  ghost predicate Outranks<K>(kept: seq<Group<K>>, all: seq<Group<K>>, metric: Group<K> -> int) {
    forall g, h :: g in all && g !in kept && h in kept ==> metric(g) <= metric(h)
  }

  /** A prefix of a descending sequence outranks the elements after it. */
  lemma PrefixOutranks<K>(sorted: seq<Group<K>>, m: nat, all: seq<Group<K>>, metric: Group<K> -> int)
    requires SortedDesc(sorted, metric) && m <= |sorted| && multiset(all) == multiset(sorted)
    ensures Outranks(sorted[..m], all, metric)
  {
    var kept, rest := sorted[..m], sorted[m..];
    assert sorted == kept + rest;
    forall g, h | g in all && g !in kept && h in kept
      ensures metric(g) <= metric(h)
    {
      assert g in multiset(sorted);
      assert g in rest;
      var i :| 0 <= i < |rest| && rest[i] == g;
      var j :| 0 <= j < m && kept[j] == h;
      assert sorted[m + i] == g && sorted[j] == h;
    }
  }

  /**
   * The ranked groups: at most `n` of them, in descending `metric` order, with
   * distinct keys, each exactly its key's totals and count over `rows`, and
   * no group left out ranks above a group kept; when fewer than `n` are
   * returned, every key present is among them.
   */
  lemma RankedGroups<K>(rows: seq<Row>, keyOf: Row -> Option<K>, counted: Row -> bool, n: int, metric: Group<K> -> int)
    ensures var r := TopN(GroupBy(rows, keyOf, counted), n, metric);
      && DistinctKeys(r)
      && SortedDesc(r, metric)
      && (0 <= n ==> |r| == if n < |KeySet(rows, keyOf)| then n else |KeySet(rows, keyOf)|)
      && (forall g :: g in r ==>
           HasKey(rows, keyOf, g.key) && g.totalMs == KeyTotal(rows, keyOf, g.key)
           && g.count == KeyCount(rows, keyOf, counted, g.key))
      && Outranks(r, GroupBy(rows, keyOf, counted), metric)
      && (0 <= n && |r| < n ==> forall k :: HasKey(rows, keyOf, k) ==> exists g :: g in r && g.key == k)
  {
    var gs := GroupBy(rows, keyOf, counted);
    var sorted := SortDesc(gs, metric);
    var r := TopN(gs, n, metric);
    SortedGroups(rows, keyOf, counted, metric);
    GroupCount(rows, keyOf, counted);
    assert r <= sorted;
    assert r == sorted[..|r|];
    PrefixOutranks(sorted, |r|, gs, metric);
    if 0 <= n && |r| < n {
      assert r == sorted;
    }
  }

  /** Sorting the groups keeps their grand totals. */
  lemma {:induction false} SortKeepsSums<K>(s: seq<Group<K>>, metric: Group<K> -> int)
    ensures SumCounts(SortDesc(s, metric)) == SumCounts(s)
    ensures SumTotals(SortDesc(s, metric)) == SumTotals(s)
    decreases |s|
  {
    if s != [] {
      var init, x := s[..|s| - 1], s[|s| - 1];
      assert s == init + [x];
      var sortedInit := SortDesc(init, metric);
      assert SortDesc(s, metric) == Insert(x, sortedInit, metric);
      SortKeepsSums(init, metric);
      InsertKeepsSums(x, sortedInit, metric);
      SumsAppend(init, x);
    }
  }

  lemma {:induction false} InsertKeepsSums<K>(x: Group<K>, s: seq<Group<K>>, metric: Group<K> -> int)
    ensures SumCounts(Insert(x, s, metric)) == SumCounts(s) + x.count
    ensures SumTotals(Insert(x, s, metric)) == SumTotals(s) + x.totalMs
    decreases |s|
  {
    if !(s == [] || metric(s[0]) <= metric(x)) {
      InsertKeepsSums(x, s[1..], metric);
      assert ([s[0]] + Insert(x, s[1..], metric))[1..] == Insert(x, s[1..], metric);
    } else {
      assert ([x] + s)[1..] == s;
    }
  }

  lemma {:induction false} SumsAppend<K>(s: seq<Group<K>>, x: Group<K>)
    ensures SumCounts(s + [x]) == SumCounts(s) + x.count
    ensures SumTotals(s + [x]) == SumTotals(s) + x.totalMs
    decreases |s|
  {
    if s != [] {
      SumsAppend(s[1..], x);
      assert (s + [x])[1..] == s[1..] + [x];
    }
  }

  /** One group per distinct key. */
  lemma {:induction false} GroupCount<K>(rows: seq<Row>, keyOf: Row -> Option<K>, counted: Row -> bool)
    ensures |GroupBy(rows, keyOf, counted)| == |KeySet(rows, keyOf)|
    decreases |rows|
  {
    if rows != [] {
      var init, x := rows[..|rows| - 1], rows[|rows| - 1];
      GroupCount(init, keyOf, counted);
      if keyOf(x).Some? {
        var k := keyOf(x).value;
        var c: nat := if counted(x) then 1 else 0;
        GroupByLastKeyed(rows, keyOf, counted, k, c);
        GroupByFind(init, keyOf, counted, k);
        KeySetIsHasKey(init, keyOf, k);
        assert KeySet(rows, keyOf) == KeySet(init, keyOf) + {k};
        GroupCountStep(GroupBy(init, keyOf, counted), KeySet(init, keyOf), k, x.msPlayed, c);
      } else {
        assert GroupBy(rows, keyOf, counted) == GroupBy(init, keyOf, counted);
      }
    }
  }

  /** One more keyed row adds a group exactly when its key is new. */
  lemma GroupCountStep<K>(gs: seq<Group<K>>, keys: set<K>, k: K, ms: int, c: nat)
    requires |gs| == |keys|
    requires Find(gs, k).None? <==> k !in keys
    ensures |AddTo(gs, k, ms, c)| == |keys + {k}|
  {
    AddToLength(gs, k, ms, c);
    if k in keys {
      assert keys + {k} == keys;
    }
  }

  lemma {:induction false} AddToLength<K>(gs: seq<Group<K>>, k: K, ms: int, c: nat)
    ensures |AddTo(gs, k, ms, c)| == |gs| + (if Find(gs, k).None? then 1 else 0)
    decreases |gs|
  {
    if gs != [] && gs[0].key != k {
      AddToLength(gs[1..], k, ms, c);
    }
  }

  /**
   * Dropping rows that have no key before grouping changes nothing, as with
   * a `notna()` mask placed in front of a `groupby` on the same column.
   */
  lemma {:induction false} GroupByIgnoresUnkeyed<K>(rows: seq<Row>, p: Row -> bool, keyOf: Row -> Option<K>, counted: Row -> bool)
    requires forall r :: keyOf(r).Some? ==> p(r)
    ensures GroupBy(Filter(rows, p), keyOf, counted) == GroupBy(rows, keyOf, counted)
    decreases |rows|, 1
  {
    if rows != [] {
      var init, x := rows[..|rows| - 1], rows[|rows| - 1];
      assert rows == init + [x];
      IgnoresUnkeyedSnoc(init, x, p, keyOf, counted);
    }
  }

  lemma {:induction false} IgnoresUnkeyedSnoc<K>(init: seq<Row>, x: Row, p: Row -> bool, keyOf: Row -> Option<K>, counted: Row -> bool)
    requires forall r :: keyOf(r).Some? ==> p(r)
    ensures GroupBy(Filter(init + [x], p), keyOf, counted) == GroupBy(init + [x], keyOf, counted)
    decreases |init| + 1, 0
  {
    GroupByIgnoresUnkeyed(init, p, keyOf, counted);
    FilterSnoc(init, x, p);
    UnkeyedStep(init, Filter(init, p), x, p, keyOf, counted);
  }

  lemma UnkeyedStep<K>(init: seq<Row>, f: seq<Row>, x: Row, p: Row -> bool, keyOf: Row -> Option<K>, counted: Row -> bool)
    requires forall r :: keyOf(r).Some? ==> p(r)
    requires GroupBy(f, keyOf, counted) == GroupBy(init, keyOf, counted)
    ensures GroupBy(f + (if p(x) then [x] else []), keyOf, counted) == GroupBy(init + [x], keyOf, counted)
  {
    GroupBySnoc(init, x, keyOf, counted);
    if p(x) {
      GroupBySnoc(f, x, keyOf, counted);
    } else {
      assert f + [] == f;
    }
  }

  /** Grouping one more row. */
  lemma GroupBySnoc<K>(rows: seq<Row>, x: Row, keyOf: Row -> Option<K>, counted: Row -> bool)
    ensures GroupBy(rows + [x], keyOf, counted) ==
      match keyOf(x)
      case None => GroupBy(rows, keyOf, counted)
      case Some(k) => AddTo(GroupBy(rows, keyOf, counted), k, x.msPlayed, if counted(x) then 1 else 0)
  {
    assert (rows + [x])[..|rows|] == rows;
  }

  /**
   * The groups sorted by `metric` (`sort_values(col, ascending=False)`):
   * distinct keys, every present key once, each with its exact totals.
   */
  lemma SortedGroups<K>(rows: seq<Row>, keyOf: Row -> Option<K>, counted: Row -> bool, metric: Group<K> -> int)
    ensures var r := SortDesc(GroupBy(rows, keyOf, counted), metric);
      && DistinctKeys(r)
      && |r| == |KeySet(rows, keyOf)|
      && SumCounts(r) == KeyedCount(rows, keyOf, counted)
      && SumTotals(r) == KeyedTotal(rows, keyOf)
      && (forall g :: g in r ==>
           HasKey(rows, keyOf, g.key) && g.totalMs == KeyTotal(rows, keyOf, g.key)
           && g.count == KeyCount(rows, keyOf, counted, g.key))
      && (forall k :: HasKey(rows, keyOf, k) ==> exists g :: g in r && g.key == k)
  {
    var gs := GroupBy(rows, keyOf, counted);
    var r := SortDesc(gs, metric);
    GroupsAreExact(rows, keyOf, counted);
    SortKeepsDistinctKeys(gs, metric);
    SortKeepsSums(gs, metric);
    GroupCount(rows, keyOf, counted);
    assert |r| == |gs| by {
      assert |multiset(r)| == |multiset(gs)|;
    }
    forall g | g in r
      ensures g in gs
    {
      assert g in multiset(r);
    }
    forall k | HasKey(rows, keyOf, k)
      ensures exists g :: g in r && g.key == k
    {
      var g :| g in gs && g.key == k;
      assert g in multiset(gs);
    }
  }

  /**
   * `r` holds one group per key present in `rows`, and nothing else: distinct
   * keys, each group's totals and count exact, counts adding up to the keyed
   * rows.
   */
  ghost predicate ExactGroups<K(!new)>(rows: seq<Row>, keyOf: Row -> Option<K>, counted: Row -> bool, r: seq<Group<K>>) {
    && DistinctKeys(r)
    && SumCounts(r) == KeyedCount(rows, keyOf, counted)
    && (forall k :: HasKey(rows, keyOf, k) ==> exists g :: g in r && g.key == k)
    && forall g :: g in r ==>
         HasKey(rows, keyOf, g.key) && g.totalMs == KeyTotal(rows, keyOf, g.key)
         && g.count == KeyCount(rows, keyOf, counted, g.key)
  }

  lemma SortedGroupsExact<K(!new)>(rows: seq<Row>, keyOf: Row -> Option<K>, counted: Row -> bool, metric: Group<K> -> int)
    ensures ExactGroups(rows, keyOf, counted, SortDesc(GroupBy(rows, keyOf, counted), metric))
  {
    SortedGroups(rows, keyOf, counted, metric);
  }

  /** Counted rows with a key are at most all rows. */
  lemma {:induction false} KeyedCountBound<K>(rows: seq<Row>, keyOf: Row -> Option<K>, counted: Row -> bool)
    ensures KeyedCount(rows, keyOf, counted) <= |rows|
    decreases |rows|
  {
    if rows != [] {
      KeyedCountBound(rows[..|rows| - 1], keyOf, counted);
    }
  }

  /** Dropping rows that have no key does not change the set of keys. */
  lemma {:induction false} KeySetIgnoresUnkeyed<K>(rows: seq<Row>, p: Row -> bool, keyOf: Row -> Option<K>)
    requires forall r :: keyOf(r).Some? ==> p(r)
    ensures KeySet(Filter(rows, p), keyOf) == KeySet(rows, keyOf)
    decreases |rows|
  {
    if rows != [] {
      var init, x := rows[..|rows| - 1], rows[|rows| - 1];
      KeySetIgnoresUnkeyed(init, p, keyOf);
      var f := Filter(init, p);
      assert rows == init + [x];
      if p(x) {
        assert Filter(rows, p) == f + [x];
        assert (f + [x])[..|f|] == f;
      } else {
        assert Filter(rows, p) == f;
      }
    }
  }

  /** A key found among the rows a mask keeps belongs to some row the mask accepts. */
  lemma FilteredKey<K>(rows: seq<Row>, p: Row -> bool, keyOf: Row -> Option<K>, k: K) returns (i: nat)
    requires HasKey(Filter(rows, p), keyOf, k)
    ensures i < |rows| && p(rows[i]) && keyOf(rows[i]) == Some(k)
  {
    var f := Filter(rows, p);
    HasKeyIff(f, keyOf, k);
    var j :| 0 <= j < |f| && keyOf(f[j]) == Some(k);
    assert f[j] in f;
    i :| 0 <= i < |rows| && rows[i] == f[j];
  }

  /** A row with a key makes the key set non-empty. */
  lemma SomeKey<K>(rows: seq<Row>, keyOf: Row -> Option<K>, i: nat)
    requires i < |rows| && keyOf(rows[i]).Some?
    ensures |KeySet(rows, keyOf)| >= 1
  {
    HasKeyIff(rows, keyOf, keyOf(rows[i]).value);
    KeySetIsHasKey(rows, keyOf, keyOf(rows[i]).value);
  }

  /** When every row has a key and is counted, the groups account for every row and all of its time. */
  lemma {:induction false} KeyedAll<K>(rows: seq<Row>, keyOf: Row -> Option<K>, counted: Row -> bool)
    requires forall i :: 0 <= i < |rows| ==> keyOf(rows[i]).Some? && counted(rows[i])
    ensures KeyedCount(rows, keyOf, counted) == |rows|
    ensures KeyedTotal(rows, keyOf) == TotalMs(rows)
    decreases |rows|
  {
    if rows != [] {
      var init := rows[..|rows| - 1];
      assert forall i :: 0 <= i < |init| ==> init[i] == rows[i];
      KeyedAll(init, keyOf, counted);
    }
  }
}
