/** `df["Department"].value_counts()` and the two tables the handler derives
    from it: departments with more than N employees, and the top N departments.
    A table row has exactly the two columns `Department` and `Employee Count`. */
module Departments {
  import opened Records

  datatype DepartmentCount = DepartmentCount(department: string, count: nat)

  /** The departments occurring in the table. */
  function DepartmentSet(t: seq<Employee>): set<string> {
    set e | e in t :: e.department
  }

  function InDepartment(d: string): Employee -> bool {
    (e: Employee) => e.department == d
  }

  /** The number of rows of department `d`. */
  function Count(t: seq<Employee>, d: string): nat {
    |Filter(t, InDepartment(d))|
  }

  /** A department has rows exactly when it occurs in the table. */
  lemma CountPositive(t: seq<Employee>, d: string)
    ensures Count(t, d) > 0 <==> d in DepartmentSet(t)
  {
    var rows := Filter(t, InDepartment(d));
    if d in DepartmentSet(t) {
      var e :| e in t && e.department == d;
      var k :| 0 <= k < |t| && t[k] == e;
      assert t[k] in rows;
    }
    if rows != [] {
      assert rows[0] in t && rows[0].department == d;
    }
  }

  predicate Distinct(s: seq<string>) {
    forall i, j :: 0 <= i < j < |s| ==> s[i] != s[j]
  }

  /** Each department once, in order of first appearance. */
  function DepartmentList(t: seq<Employee>): seq<string> {
    if t == [] then []
    else
      var prev := DepartmentList(t[..|t| - 1]);
      var d := t[|t| - 1].department;
      if d in prev then prev else prev + [d]
  }

  lemma DepartmentSetSnoc(t: seq<Employee>)
    requires t != []
    ensures DepartmentSet(t) == DepartmentSet(t[..|t| - 1]) + {t[|t| - 1].department}
  {
    var init := t[..|t| - 1];
    forall x | x in DepartmentSet(t) ensures x in DepartmentSet(init) + {t[|t| - 1].department} {
      var e :| e in t && e.department == x;
      var k :| 0 <= k < |t| && t[k] == e;
      if k < |t| - 1 { assert init[k] == e; }
    }
    forall x | x in DepartmentSet(init) ensures x in DepartmentSet(t) {
      var e :| e in init && e.department == x;
      assert e in t;
    }
  }

  /** The department list names every department of the table exactly once. */
  lemma {:induction false} DepartmentsSpec(t: seq<Employee>)
    ensures forall d :: d in DepartmentList(t) <==> d in DepartmentSet(t)
    ensures Distinct(DepartmentList(t))
    ensures |DepartmentList(t)| == |DepartmentSet(t)|
  {
    if t != [] {
      var init := t[..|t| - 1];
      DepartmentsSpec(init);
      DepartmentSetSnoc(t);
      var d := t[|t| - 1].department;
      if d !in DepartmentList(init) {
        assert d !in DepartmentSet(init);
        assert |DepartmentSet(t)| == |DepartmentSet(init)| + 1;
      }
    }
  }

  function Keys(table: seq<DepartmentCount>): seq<string> {
    seq(|table|, k requires 0 <= k < |table| => table[k].department)
  }

  /** No department is listed twice. */
  predicate DistinctKeys(table: seq<DepartmentCount>) {
    Distinct(Keys(table))
  }

  /** Distinct departments, row by row. */
  lemma DistinctKeysPairwise(table: seq<DepartmentCount>)
    ensures DistinctKeys(table) <==>
      forall i, j :: 0 <= i < j < |table| ==> table[i].department != table[j].department
  {
    assert forall k :: 0 <= k < |table| ==> Keys(table)[k] == table[k].department;
  }

  /** Counts never increase down the table. */
  predicate NonIncreasing(table: seq<DepartmentCount>) {
    forall i, j :: 0 <= i < j < |table| ==> table[i].count >= table[j].count
  }

  /** Every row of the table gives the true count of its department in `t`. */
  ghost predicate CountsOf(table: seq<DepartmentCount>, t: seq<Employee>) {
    forall k :: 0 <= k < |table| ==> table[k].count == Count(t, table[k].department)
  }

  /** Places `x` before the first entry whose count is not above its own. */
  function Insert(x: DepartmentCount, s: seq<DepartmentCount>): seq<DepartmentCount> {
    if s == [] || x.count >= s[0].count then [x] + s
    else [s[0]] + Insert(x, s[1..])
  }

  /** Sorts by count, largest first; entries with equal counts keep their order. */
  function SortByCount(s: seq<DepartmentCount>): seq<DepartmentCount> {
    if s == [] then [] else Insert(s[0], SortByCount(s[1..]))
  }

  lemma {:induction false} InsertMultiset(x: DepartmentCount, s: seq<DepartmentCount>)
    ensures multiset(Insert(x, s)) == multiset(s) + multiset{x}
  {
    if !(s == [] || x.count >= s[0].count) {
      InsertMultiset(x, s[1..]);
      assert s == [s[0]] + s[1..];
    }
  }

  lemma {:induction false} InsertNonIncreasing(x: DepartmentCount, s: seq<DepartmentCount>)
    requires NonIncreasing(s)
    ensures NonIncreasing(Insert(x, s))
  {
    if s == [] || x.count >= s[0].count {
      var r := Insert(x, s);
      assert forall k :: 1 <= k < |r| ==> r[k] == s[k - 1];
    } else {
      var tail := s[1..];
      InsertNonIncreasing(x, tail);
      InsertBelow(x, s);
      ConsNonIncreasing(s[0], Insert(x, tail));
    }
  }

  /** Inserting below the head keeps every entry at most the head's count. */
  lemma InsertBelow(x: DepartmentCount, s: seq<DepartmentCount>)
    requires NonIncreasing(s)
    requires s != [] && x.count < s[0].count
    ensures forall y | y in Insert(x, s[1..]) :: y.count <= s[0].count
  {
    var tail := s[1..];
    InsertMultiset(x, tail);
    forall y | y in Insert(x, tail) ensures y.count <= s[0].count {
      assert y in multiset(tail) + multiset{x};
      if y != x {
        var k :| 0 <= k < |tail| && tail[k] == y;
        assert s[k + 1] == y;
      }
    }
  }

  /** A head no smaller than every entry of a non-increasing table extends it. */
  lemma ConsNonIncreasing(h: DepartmentCount, rest: seq<DepartmentCount>)
    requires NonIncreasing(rest)
    requires forall y | y in rest :: y.count <= h.count
    ensures NonIncreasing([h] + rest)
  {
    var r := [h] + rest;
    forall i, j | 0 <= i < j < |r| ensures r[i].count >= r[j].count {
      assert r[j] == rest[j - 1];
      if i == 0 {
        assert rest[j - 1] in rest;
      } else {
        assert r[i] == rest[i - 1];
      }
    }
  }

  /** Sorting reorders the entries and leaves the counts non-increasing. */
  lemma {:induction false} SortByCountSpec(s: seq<DepartmentCount>)
    ensures multiset(SortByCount(s)) == multiset(s)
    ensures NonIncreasing(SortByCount(s))
  {
    if s != [] {
      SortByCountSpec(s[1..]);
      InsertMultiset(s[0], SortByCount(s[1..]));
      InsertNonIncreasing(s[0], SortByCount(s[1..]));
      assert s == [s[0]] + s[1..];
    }
  }

  /** A reordering of a table whose departments are distinct has distinct
      departments. */
  lemma PermutationDistinctKeys(a: seq<DepartmentCount>, b: seq<DepartmentCount>)
    requires multiset(a) == multiset(b) && DistinctKeys(a)
    ensures DistinctKeys(b)
  {
    DistinctKeysPairwise(a);
    DistinctKeysPairwise(b);
    forall i, j | 0 <= i < j < |b| ensures b[i].department != b[j].department {
      assert b[i] in multiset(a) && b[j] in multiset(a);
      var i' :| 0 <= i' < |a| && a[i'] == b[i];
      var j' :| 0 <= j' < |a| && a[j'] == b[j];
      if i' == j' {
        assert multiset(b)[b[i]] >= 2 by {
          var m := multiset(b[..i]) + multiset{b[i]} + multiset(b[i + 1..j]) + multiset{b[j]} + multiset(b[j + 1..]);
          assert b == b[..i] + [b[i]] + b[i + 1..j] + [b[j]] + b[j + 1..];
          assert multiset(b) == m;
        }
        MultiplicityOne(a, i');
        assert false;
      }
    }
  }

  lemma MultiplicityOne(a: seq<DepartmentCount>, i: nat)
    requires DistinctKeys(a) && i < |a|
    ensures multiset(a)[a[i]] == 1
  {
    DistinctKeysPairwise(a);
    assert a == a[..i] + [a[i]] + a[i + 1..];
    assert a[i] !in a[..i];
    assert a[i] !in a[i + 1..];
  }
}

module DepartmentTables {
  import opened Records
  import opened Departments

  /** Each department of `ds` with its number of rows. */
  function Tally(t: seq<Employee>, ds: seq<string>): (r: seq<DepartmentCount>)
    ensures |r| == |ds|
    ensures forall k :: 0 <= k < |ds| ==> r[k] == DepartmentCount(ds[k], Count(t, ds[k]))
  {
    if ds == [] then [] else [DepartmentCount(ds[0], Count(t, ds[0]))] + Tally(t, ds[1..])
  }

  /** `df["Department"].value_counts()`: each department of the table once with
      its number of rows, largest count first. Ties are listed in order of first
      appearance here; pandas does not promise an order for them, and nothing
      proved below depends on it. */
  function ValueCounts(t: seq<Employee>): seq<DepartmentCount> {
    SortByCount(Tally(t, DepartmentList(t)))
  }

  /** Reordering keeps the length and the set of departments named. */
  lemma PermutationKeys(a: seq<DepartmentCount>, b: seq<DepartmentCount>)
    requires multiset(a) == multiset(b)
    ensures |a| == |b|
    ensures forall k :: 0 <= k < |b| ==> b[k] in a
    ensures forall d :: d in Keys(a) <==> d in Keys(b)
  {
    assert |a| == |multiset(a)| == |multiset(b)| == |b|;
    forall k | 0 <= k < |b| ensures b[k] in a {
      assert b[k] in multiset(a);
    }
    forall k | 0 <= k < |a| ensures a[k] in b {
      assert a[k] in multiset(b);
    }
    forall d ensures d in Keys(a) ==> d in Keys(b) {
      if d in Keys(a) {
        var i :| 0 <= i < |a| && Keys(a)[i] == d;
        var j :| 0 <= j < |b| && b[j] == a[i];
        assert Keys(b)[j] == d;
      }
    }
    forall d ensures d in Keys(b) ==> d in Keys(a) {
      if d in Keys(b) {
        var j :| 0 <= j < |b| && Keys(b)[j] == d;
        var i :| 0 <= i < |a| && a[i] == b[j];
        assert Keys(a)[i] == d;
      }
    }
  }

  lemma TallySpec(t: seq<Employee>)
    ensures var tally := Tally(t, DepartmentList(t));
      && (forall d :: d in Keys(tally) <==> d in DepartmentSet(t))
      && DistinctKeys(tally)
      && CountsOf(tally, t)
      && (forall k :: 0 <= k < |tally| ==> tally[k].count > 0)
  {
    var ds := DepartmentList(t);
    DepartmentsSpec(t);
    var tally := Tally(t, ds);
    assert Keys(tally) == ds;
    forall k | 0 <= k < |tally| ensures tally[k].count > 0 {
      CountPositive(t, ds[k]);
    }
  }

  /** The count table lists every department of the table exactly once, with
      its true (positive) count, largest count first. */
  lemma ValueCountsSpec(t: seq<Employee>)
    ensures var vc := ValueCounts(t);
      && |vc| == |DepartmentSet(t)|
      && (forall d :: d in Keys(vc) <==> d in DepartmentSet(t))
      && CountsOf(vc, t)
      && (forall k :: 0 <= k < |vc| ==> vc[k].count > 0)
      && DistinctKeys(vc)
      && NonIncreasing(vc)
  {
    var tally := Tally(t, DepartmentList(t));
    DepartmentsSpec(t);
    TallySpec(t);
    var vc := SortByCount(tally);
    SortByCountSpec(tally);
    PermutationDistinctKeys(tally, vc);
    PermutationKeys(tally, vc);
    forall k | 0 <= k < |vc| ensures vc[k].count == Count(t, vc[k].department) && vc[k].count > 0 {
      var j :| 0 <= j < |tally| && tally[j] == vc[k];
    }
  }

  /** `counts[counts > threshold]` */
  function MoreThan(t: seq<Employee>, threshold: nat): seq<DepartmentCount> {
    Filter(ValueCounts(t), (c: DepartmentCount) => c.count > threshold)
  }

  /** A department is listed iff its count is strictly above the threshold; each
      once, with its true count, largest first. */
  lemma MoreThanSpec(t: seq<Employee>, threshold: nat)
    ensures var r := MoreThan(t, threshold);
      && (forall d :: d in Keys(r) <==> d in DepartmentSet(t) && Count(t, d) > threshold)
      && CountsOf(r, t)
      && DistinctKeys(r)
      && NonIncreasing(r)
  {
    ValueCountsSpec(t);
    AboveInCountTable(ValueCounts(t), threshold, DepartmentSet(t), t);
  }

  lemma AboveInCountTable(vc: seq<DepartmentCount>, threshold: nat, depts: set<string>, t: seq<Employee>)
    requires forall d :: d in Keys(vc) <==> d in depts
    requires CountsOf(vc, t) && DistinctKeys(vc) && NonIncreasing(vc)
    ensures var r := Filter(vc, (c: DepartmentCount) => c.count > threshold);
      && (forall d :: d in Keys(r) <==> d in depts && Count(t, d) > threshold)
      && CountsOf(r, t)
      && DistinctKeys(r)
      && NonIncreasing(r)
  {
    var p := (c: DepartmentCount) => c.count > threshold;
    DistinctKeysPairwise(vc);
    DistinctKeysPairwise(Filter(vc, p));
    FilterPairwise(vc, p, (a: DepartmentCount, b: DepartmentCount) => a.department != b.department);
    FilterPairwise(vc, p, (a: DepartmentCount, b: DepartmentCount) => a.count >= b.count);
    AboveKeys(vc, p, threshold, depts, t);
  }

  lemma AboveKeys(vc: seq<DepartmentCount>, p: DepartmentCount -> bool, threshold: nat, depts: set<string>, t: seq<Employee>)
    requires forall c :: p(c) == (c.count > threshold)
    requires forall d :: d in Keys(vc) <==> d in depts
    requires CountsOf(vc, t)
    ensures var r := Filter(vc, p);
      && (forall d :: d in Keys(r) <==> d in depts && Count(t, d) > threshold)
      && CountsOf(r, t)
  {
    var r := Filter(vc, p);
    forall k | 0 <= k < |r| ensures r[k].count == Count(t, r[k].department) {
      assert r[k] in vc;
    }
    forall d | d in Keys(r) ensures d in depts && Count(t, d) > threshold {
      AboveKeyListed(vc, p, threshold, depts, t, d);
    }
    forall d | d in depts && Count(t, d) > threshold ensures d in Keys(r) {
      AboveKeyFound(vc, p, threshold, depts, t, d);
    }
  }

  lemma AboveKeyListed(vc: seq<DepartmentCount>, p: DepartmentCount -> bool, threshold: nat, depts: set<string>, t: seq<Employee>, d: string)
    requires forall c :: p(c) == (c.count > threshold)
    requires forall d :: d in Keys(vc) <==> d in depts
    requires CountsOf(vc, t)
    requires d in Keys(Filter(vc, p))
    ensures d in depts && Count(t, d) > threshold
  {
    var r := Filter(vc, p);
    var k :| 0 <= k < |r| && Keys(r)[k] == d;
    assert r[k] in vc;
    var j :| 0 <= j < |vc| && vc[j] == r[k];
    assert Keys(vc)[j] == d;
  }

  lemma AboveKeyFound(vc: seq<DepartmentCount>, p: DepartmentCount -> bool, threshold: nat, depts: set<string>, t: seq<Employee>, d: string)
    requires forall c :: p(c) == (c.count > threshold)
    requires forall d :: d in Keys(vc) <==> d in depts
    requires CountsOf(vc, t)
    requires d in depts && Count(t, d) > threshold
    ensures d in Keys(Filter(vc, p))
  {
    var r := Filter(vc, p);
    var j :| 0 <= j < |vc| && Keys(vc)[j] == d;
    assert p(vc[j]);
    assert vc[j] in r;
    var k :| 0 <= k < |r| && r[k] == vc[j];
    assert Keys(r)[k] == d;
  }

  function Min(a: nat, b: nat): nat { if a <= b then a else b }

  /** `value_counts().head(n)` */
  function Top(t: seq<Employee>, n: nat): seq<DepartmentCount> {
    var vc := ValueCounts(t);
    vc[..Min(n, |vc|)]
  }

  /** The top-n table has min(n, number of departments) rows, largest count
      first, each with its true count, and no department left out has a count
      above any listed one. */
  lemma TopSpec(t: seq<Employee>, n: nat)
    ensures var r := Top(t, n);
      && |r| == Min(n, |DepartmentSet(t)|)
      && CountsOf(r, t)
      && DistinctKeys(r)
      && NonIncreasing(r)
      && forall d, k :: d in DepartmentSet(t) && d !in Keys(r) && 0 <= k < |r| ==> Count(t, d) <= r[k].count
  {
    var vc := ValueCounts(t);
    ValueCountsSpec(t);
    PrefixOfCountTable(vc, n, DepartmentSet(t), t);
  }

  lemma PrefixOfCountTable(vc: seq<DepartmentCount>, n: nat, depts: set<string>, t: seq<Employee>)
    requires forall d :: d in Keys(vc) <==> d in depts
    requires CountsOf(vc, t) && DistinctKeys(vc) && NonIncreasing(vc)
    ensures var r := vc[..Min(n, |vc|)];
      && CountsOf(r, t)
      && DistinctKeys(r)
      && NonIncreasing(r)
      && forall d, k :: d in depts && d !in Keys(r) && 0 <= k < |r| ==> Count(t, d) <= r[k].count
  {
    var r := vc[..Min(n, |vc|)];
    assert forall i :: 0 <= i < |r| ==> r[i] == vc[i] && Keys(r)[i] == Keys(vc)[i];
    forall d, k | d in depts && d !in Keys(r) && 0 <= k < |r|
      ensures Count(t, d) <= r[k].count
    {
      var j :| 0 <= j < |vc| && Keys(vc)[j] == d;
      assert j >= |r|;
    }
  }
}
