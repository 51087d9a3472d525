/**
 * The table operations the dashboard pages chain together, stated over
 * sequences of rows: boolean-mask selection, column selection, `nunique`,
 * `value_counts`, `groupby(...).count()` and `.sum()`, `sort_values` with
 * `head`, `min`/`max`, and `pd.cut` with its default right-closed intervals.
 *
 * Counting facts are tied to one reference definition: the number of row
 * positions i with a property, |set i | 0 <= i < |rows| && P(rows[i])|.
 */
module Frame {

  datatype Option<T> = None | Some(value: T)

  // ---------------------------------------------------------------------
  // Column selection and boolean masks
  // ---------------------------------------------------------------------

  /** `df[col]`: one field of every row, in table order. */
  function Map<R, T>(rows: seq<R>, f: R -> T): (col: seq<T>)
    ensures |col| == |rows|
    ensures forall i :: 0 <= i < |rows| ==> col[i] == f(rows[i])
  {
    if rows == [] then [] else Map(rows[..|rows| - 1], f) + [f(rows[|rows| - 1])]
  }

  /** `df[mask]`: the rows satisfying p, in table order, each as often as in the table. */
  function Filter<R(!new)>(rows: seq<R>, p: R -> bool): (sel: seq<R>)
    ensures |sel| <= |rows|
  {
    if rows == [] then []
    else
      var init, last := rows[..|rows| - 1], rows[|rows| - 1];
      Filter(init, p) + (if p(last) then [last] else [])
  }

  /** The mask keeps exactly the rows that satisfy it. */
  lemma {:induction false} FilterMembers<R(!new)>(rows: seq<R>, p: R -> bool)
    ensures forall r :: r in Filter(rows, p) <==> r in rows && p(r)
  {
    if rows != [] {
      var init := rows[..|rows| - 1];
      assert rows == init + [rows[|rows| - 1]];
      FilterMembers(init, p);
    }
  }

  /** `len(df[mask])` counts exactly the row positions whose row satisfies the mask. */
  lemma {:induction false} FilterRows<R(!new)>(rows: seq<R>, p: R -> bool) returns (idx: set<int>)
    ensures forall i :: i in idx <==> 0 <= i < |rows| && p(rows[i])
    ensures |Filter(rows, p)| == |idx|
  {
    if rows == [] {
      idx := {};
    } else {
      var n := |rows| - 1;
      var init := rows[..n];
      var before := FilterRows(init, p);
      assert |Filter(rows, p)| == |Filter(init, p)| + (if p(rows[n]) then 1 else 0);
      assert n !in before;
      idx := before + (if p(rows[n]) then {n} else {});
    }
  }

  /** `len(df[mask])`: the number of row positions whose row passes the mask. */
  function CountWhere<R(!new)>(rows: seq<R>, p: R -> bool): (n: nat)
    ensures n == |set i | 0 <= i < |rows| && p(rows[i])|
    ensures n <= |rows|
  {
    FilterCount(rows, p);
    |Filter(rows, p)|
  }

  lemma FilterCount<R(!new)>(rows: seq<R>, p: R -> bool)
    ensures |Filter(rows, p)| == |set i | 0 <= i < |rows| && p(rows[i])|
  {
    var idx := FilterRows(rows, p);
    assert idx == set i | 0 <= i < |rows| && p(rows[i]);
  }

  /** The mask that keeps every row. */
  predicate AllRows<R>(r: R)
  {
    true
  }

  lemma {:induction false} FilterAll<R(!new)>(rows: seq<R>)
    ensures Filter(rows, AllRows) == rows
  {
    if rows != [] {
      var init := rows[..|rows| - 1];
      FilterAll(init);
      assert rows == init + [rows[|rows| - 1]];
    }
  }

  /** The values of column f are the f-values of the rows. */
  lemma MapMembers<R, K>(rows: seq<R>, f: R -> K)
    ensures forall x :: x in Map(rows, f) <==> exists r :: r in rows && f(r) == x
  {
    var col := Map(rows, f);
    forall x | x in col ensures exists r :: r in rows && f(r) == x {
      var i :| 0 <= i < |col| && col[i] == x;
      assert rows[i] in rows;
    }
    forall r | r in rows ensures f(r) in col {
      var i :| 0 <= i < |rows| && rows[i] == r;
      assert col[i] == f(r);
    }
  }

  /** Every row's f-value is in column f. */
  lemma MapContains<R, K>(rows: seq<R>, f: R -> K)
    ensures forall r :: r in rows ==> f(r) in Map(rows, f)
  {
    var col := Map(rows, f);
    forall r | r in rows ensures f(r) in col {
      var i :| 0 <= i < |rows| && rows[i] == r;
      assert col[i] == f(r);
    }
  }

  /** The values of column f among the rows passing p. */
  lemma FilterMapMembers<R(!new), K>(rows: seq<R>, p: R -> bool, f: R -> K)
    ensures forall x :: x in Map(Filter(rows, p), f) <==> exists r :: r in rows && p(r) && f(r) == x
  {
    var sel := Filter(rows, p);
    var col := Map(sel, f);
    FilterMembers(rows, p);
    forall x | x in col ensures exists r :: r in rows && p(r) && f(r) == x {
      var i :| 0 <= i < |col| && col[i] == x;
      assert sel[i] in sel;
    }
    forall r | r in rows && p(r) ensures f(r) in col {
      var i :| 0 <= i < |sel| && sel[i] == r;
      assert col[i] == f(r);
    }
  }

  /** Number of occurrences of x in a column: `(col == x).sum()`. */
  function Occurrences<T(==)>(s: seq<T>, x: T): nat
  {
    multiset(s)[x]
  }

  /**
   * The occurrences of x are the row positions holding x; the positions are
   * returned so that callers can compare them with their own index sets.
   */
  lemma {:induction false} OccurrencesRows<T>(s: seq<T>, x: T) returns (idx: set<int>)
    ensures forall i :: i in idx <==> 0 <= i < |s| && s[i] == x
    ensures Occurrences(s, x) == |idx|
  {
    if s == [] {
      idx := {};
    } else {
      var n := |s| - 1;
      var init := s[..n];
      assert s == init + [s[n]];
      var before := OccurrencesRows(init, x);
      assert n !in before;
      idx := before + (if s[n] == x then {n} else {});
    }
  }

  /**
   * A label's count in column f of the rows selected by p, `df[mask][col]`,
   * is the number of table rows that pass the mask and carry that label.
   */
  lemma {:induction false} FilterMapOccurrences<R(!new), K>(rows: seq<R>, p: R -> bool, f: R -> K, k: K)
    returns (idx: set<int>)
    ensures forall i :: i in idx <==> 0 <= i < |rows| && p(rows[i]) && f(rows[i]) == k
    ensures Occurrences(Map(Filter(rows, p), f), k) == |idx|
  {
    if rows == [] {
      idx := {};
    } else {
      var n := |rows| - 1;
      var init := rows[..n];
      assert rows == init + [rows[n]];
      var before := FilterMapOccurrences(init, p, f, k);
      FilterMapSnoc(rows, p, f, k);
      assert n !in before;
      var extra: set<int> := if p(rows[n]) && f(rows[n]) == k then {n} else {};
      idx := before + extra;
      assert |before + extra| == |before| + |extra|;
    }
  }

  lemma FilterMapSnoc<R(!new), K>(rows: seq<R>, p: R -> bool, f: R -> K, k: K)
    requires rows != []
    ensures var n := |rows| - 1;
            Occurrences(Map(Filter(rows, p), f), k)
            == Occurrences(Map(Filter(rows[..n], p), f), k) + (if p(rows[n]) && f(rows[n]) == k then 1 else 0)
  {
    var n := |rows| - 1;
    var sel := Filter(rows[..n], p);
    var col, colInit := Map(Filter(rows, p), f), Map(sel, f);
    if p(rows[n]) {
      assert Filter(rows, p) == sel + [rows[n]];
      assert (sel + [rows[n]])[..|sel|] == sel;
      assert col == colInit + [f(rows[n])];
    } else {
      assert Filter(rows, p) == sel;
    }
  }

  /** Two masks that no row satisfies together select at most the whole table. */
  lemma {:induction false} DisjointMasks<R(!new)>(rows: seq<R>, p: R -> bool, q: R -> bool)
    requires forall r :: r in rows ==> !(p(r) && q(r))
    ensures |Filter(rows, p)| + |Filter(rows, q)| <= |rows|
  {
    if rows != [] {
      var init := rows[..|rows| - 1];
      assert forall r :: r in init ==> r in rows;
      DisjointMasks(init, p, q);
    }
  }

  // ---------------------------------------------------------------------
  // Distinct values
  // ---------------------------------------------------------------------

  predicate NoDup<T(==)>(s: seq<T>)
  {
    forall i, j :: 0 <= i < j < |s| ==> s[i] != s[j]
  }

  /** The distinct values of a column, in order of first appearance (`unique()`). */
  function Distinct<T(==,!new)>(s: seq<T>): (d: seq<T>)
    ensures NoDup(d)
    ensures forall x :: x in d <==> x in s
    ensures |d| <= |s|
  {
    if s == [] then []
    else
      var init, last := s[..|s| - 1], s[|s| - 1];
      assert s == init + [last];
      var d := Distinct(init);
      if last in d then d else d + [last]
  }

  lemma {:induction false} NoDupCard<T>(s: seq<T>)
    requires NoDup(s)
    ensures |set x | x in s| == |s|
  {
    if s != [] {
      var init := s[..|s| - 1];
      NoDupCard(init);
      assert (set x | x in s) == (set x | x in init) + {s[|s| - 1]};
    }
  }

  lemma {:induction false} SetCard<T>(s: seq<T>)
    ensures |set x | x in s| <= |s|
  {
    if s != [] {
      var init := s[..|s| - 1];
      SetCard(init);
      assert (set x | x in s) == (set x | x in init) + {s[|s| - 1]};
    }
  }

  /** `nunique()`: the number of distinct values of a column. */
  function NUnique<T(==,!new)>(s: seq<T>): (n: nat)
    ensures n == |set x | x in s|
    ensures n <= |s|
    ensures s != [] ==> n >= 1
  {
    var d := Distinct(s);
    NoDupCard(d);
    assert (set x | x in d) == set x | x in s;
    assert s != [] ==> s[0] in d;
    |d|
  }

  /** `nunique()` reaches the row count exactly when no value repeats. */
  lemma {:induction false} NUniqueAllDistinct<T(!new)>(s: seq<T>)
    ensures NUnique(s) == |s| <==> NoDup(s)
  {
    if NoDup(s) {
      NoDupCard(s);
    } else {
      var i, j :| 0 <= i < j < |s| && s[i] == s[j];
      var rest := s[..j] + s[j + 1..];
      assert (set x | x in s) == set x | x in rest by {
        forall x | x in s ensures x in rest {
          var k :| 0 <= k < |s| && s[k] == x;
          if k == j { assert rest[i] == x; }
          else if k < j { assert rest[k] == x; }
          else { assert rest[k - 1] == x; }
        }
      }
      SetCard(rest);
    }
  }

  // ---------------------------------------------------------------------
  // Group counts
  // ---------------------------------------------------------------------

  function Sum(xs: seq<int>): int
  {
    if xs == [] then 0 else xs[0] + Sum(xs[1..])
  }

  /** The count of each key in a column, aligned with the keys. */
  function Tally<T(==)>(s: seq<T>, keys: seq<T>): seq<nat>
  {
    seq(|keys|, i requires 0 <= i < |keys| => Occurrences(s, keys[i]))
  }

  /** The number of values of a column that are among the keys. */
  function CountIn<T(==)>(s: seq<T>, keys: seq<T>): nat
  {
    if s == [] then 0
    else CountIn(s[..|s| - 1], keys) + (if s[|s| - 1] in keys then 1 else 0)
  }

  lemma {:induction false} CountInCons<T>(s: seq<T>, k: T, ks: seq<T>)
    requires k !in ks
    ensures CountIn(s, [k] + ks) == Occurrences(s, k) + CountIn(s, ks)
  {
    if s != [] {
      var init := s[..|s| - 1];
      assert s == init + [s[|s| - 1]];
      CountInCons(init, k, ks);
    }
  }

  lemma {:induction false} CountInAll<T>(s: seq<T>, keys: seq<T>)
    requires forall x :: x in s ==> x in keys
    ensures CountIn(s, keys) == |s|
  {
    if s != [] {
      var init := s[..|s| - 1];
      assert forall x :: x in init ==> x in s;
      CountInAll(init, keys);
    }
  }

  lemma {:induction false} CountInRows<T>(s: seq<T>, keys: seq<T>) returns (idx: set<int>)
    ensures forall i :: i in idx <==> 0 <= i < |s| && s[i] in keys
    ensures CountIn(s, keys) == |idx|
  {
    if s == [] {
      idx := {};
    } else {
      var n := |s| - 1;
      var init := s[..n];
      var before := CountInRows(init, keys);
      assert n !in before;
      idx := before + (if s[n] in keys then {n} else {});
    }
  }

  /** Counting by distinct keys partitions the values that fall on a key. */
  lemma {:induction false} TallySum<T>(s: seq<T>, keys: seq<T>)
    requires NoDup(keys)
    ensures Sum(Tally(s, keys)) == CountIn(s, keys)
  {
    if keys == [] {
      CountInNone(s, keys);
    } else {
      var rest := keys[1..];
      assert Tally(s, keys) == [Occurrences(s, keys[0])] + Tally(s, rest);
      assert Tally(s, keys)[1..] == Tally(s, rest);
      TallySum(s, rest);
      assert keys == [keys[0]] + rest;
      CountInCons(s, keys[0], rest);
    }
  }

  lemma {:induction false} CountInNone<T>(s: seq<T>, keys: seq<T>)
    requires keys == []
    ensures CountIn(s, keys) == 0
  {
    if s != [] { CountInNone(s[..|s| - 1], keys); }
  }

  function Zip<K, V>(ks: seq<K>, vs: seq<V>): (t: seq<(K, V)>)
    requires |ks| == |vs|
  {
    seq(|ks|, i requires 0 <= i < |ks| => (ks[i], vs[i]))
  }

  function Labels<K, V>(t: seq<(K, V)>): seq<K>
  {
    seq(|t|, i requires 0 <= i < |t| => t[i].0)
  }

  function Counts<K>(t: seq<(K, nat)>): seq<int>
  {
    seq(|t|, i requires 0 <= i < |t| => t[i].1)
  }

  /**
   * A (label, count) table of column s: each label of s once, each with its
   * number of occurrences in s.
   */
  predicate IsCountTable<K(==,!new)>(t: seq<(K, nat)>, s: seq<K>)
  {
    && NoDup(Labels(t))
    && (forall x :: x in Labels(t) ==> x in s)
    && (forall x :: x in s ==> x in Labels(t))
    && (forall i :: 0 <= i < |t| ==> t[i].1 == Occurrences(s, t[i].0))
  }

  /** The counts of a count table add up to the number of rows counted. */
  lemma CountTableTotal<K(!new)>(t: seq<(K, nat)>, s: seq<K>)
    requires IsCountTable(t, s)
    ensures Sum(Counts(t)) == |s|
    ensures forall i :: 0 <= i < |t| ==> t[i].1 >= 1
  {
    var keys := Labels(t);
    assert Counts(t) == Tally(s, keys);
    TallySum(s, keys);
    CountInAll(s, keys);
    forall i | 0 <= i < |t| ensures t[i].1 >= 1 {
      assert keys[i] == t[i].0 && t[i].0 in s;
      assert t[i].0 in multiset(s);
    }
  }

  /** `groupby(col).count()` with the groups in order of first appearance. */
  function GroupCounts<K(==,!new)>(s: seq<K>): (t: seq<(K, nat)>)
    ensures IsCountTable(t, s)
  {
    var keys := Distinct(s);
    TallyTable(s, keys);
    Zip(keys, Tally(s, keys))
  }

  /** Attaching its count to each of a column's distinct values gives a count table. */
  lemma TallyTable<K(!new)>(s: seq<K>, keys: seq<K>)
    requires NoDup(keys)
    requires forall x :: x in keys <==> x in s
    ensures IsCountTable(Zip(keys, Tally(s, keys)), s)
    ensures Labels(Zip(keys, Tally(s, keys))) == keys
    ensures Counts(Zip(keys, Tally(s, keys))) == Tally(s, keys)
  {
    var t := Zip(keys, Tally(s, keys));
    assert Labels(t) == keys;
    assert Counts(t) == Tally(s, keys);
  }

  predicate NonIncreasing(xs: seq<int>)
  {
    forall i, j :: 0 <= i < j < |xs| ==> xs[i] >= xs[j]
  }

  predicate StrictlyIncreasing(xs: seq<int>)
  {
    forall i, j :: 0 <= i < j < |xs| ==> xs[i] < xs[j]
  }

  /** The count column of a (label, count) row, the key `sort_values(by=count)` sorts on. */
  function CountOf<K>(e: (K, nat)): int
  {
    e.1
  }

  /** Sorting a count table by its counts, largest first, keeps it a count table. */
  lemma SortedByCount<K(!new)>(t: seq<(K, nat)>, s: seq<K>)
    requires IsCountTable(t, s)
    ensures IsCountTable(SortDesc(t, CountOf), s)
    ensures NonIncreasing(Counts(SortDesc(t, CountOf)))
  {
    var u := SortDesc(t, CountOf);
    PermutedCountTable(t, u, s);
    forall i, j | 0 <= i < j < |u| ensures Counts(u)[i] >= Counts(u)[j] {
      assert CountOf(u[i]) >= CountOf(u[j]);
    }
  }

  /** Any reordering of a count table is a count table of the same column. */
  lemma PermutedCountTable<K(!new)>(t: seq<(K, nat)>, u: seq<(K, nat)>, s: seq<K>)
    requires IsCountTable(t, s)
    requires multiset(u) == multiset(t)
    ensures IsCountTable(u, s)
  {
    assert NoDup(t) by {
      forall i, j | 0 <= i < j < |t| ensures t[i] != t[j] {
        assert Labels(t)[i] == t[i].0 && Labels(t)[j] == t[j].0;
      }
    }
    PermutationNoDup(t, u);
    forall i | 0 <= i < |u| ensures u[i].1 == Occurrences(s, u[i].0) && u[i].0 in s {
      CountTableEntry(t, s, u[i]);
    }
    forall i, j | 0 <= i < j < |u| ensures Labels(u)[i] != Labels(u)[j] {
      assert u[i] != u[j];
    }
    forall x | x in s ensures x in Labels(u) {
      var j :| 0 <= j < |t| && Labels(t)[j] == x;
      assert t[j] in u;
      var i :| 0 <= i < |u| && u[i] == t[j];
      assert Labels(u)[i] == x;
    }
  }

  lemma CountTableEntry<K(!new)>(t: seq<(K, nat)>, s: seq<K>, e: (K, nat))
    requires IsCountTable(t, s) && e in t
    ensures e.1 == Occurrences(s, e.0) && e.0 in s
  {
    var j :| 0 <= j < |t| && t[j] == e;
    assert Labels(t)[j] == t[j].0;
  }

  /**
   * `value_counts()`: the count table of a column sorted by count, largest
   * first; the order among equal counts is not specified.
   */
  function ValueCounts<K(==,!new)>(s: seq<K>): (t: seq<(K, nat)>)
    ensures IsCountTable(t, s)
    ensures NonIncreasing(Counts(t))
  {
    SortedByCount(GroupCounts(s), s);
    SortDesc(GroupCounts(s), CountOf)
  }

  function Negate(k: int): int { -k }

  /** The distinct values of an integer column in ascending order (the group keys of `groupby`). */
  function SortedDistinct(s: seq<int>): (keys: seq<int>)
    ensures StrictlyIncreasing(keys)
    ensures NoDup(keys)
    ensures forall x :: x in keys <==> x in s
  {
    var d := Distinct(s);
    var keys := SortDesc(d, Negate);
    PermutationNoDup(d, keys);
    AscendingKeys(keys);
    keys
  }

  /** `groupby(col).count()` on an integer column: the groups in ascending key order. */
  function SortedGroupCounts(s: seq<int>): (t: seq<(int, nat)>)
    ensures IsCountTable(t, s)
    ensures StrictlyIncreasing(Labels(t))
  {
    var keys := SortedDistinct(s);
    TallyTable(s, keys);
    Zip(keys, Tally(s, keys))
  }

  /** Distinct integers sorted by non-increasing negation are strictly increasing. */
  lemma AscendingKeys(keys: seq<int>)
    requires NoDup(keys) && SortedDesc(keys, Negate)
    ensures StrictlyIncreasing(keys)
  {
    forall i, j | 0 <= i < j < |keys| ensures keys[i] < keys[j] {
      assert Negate(keys[i]) >= Negate(keys[j]);
    }
  }

  // ---------------------------------------------------------------------
  // Count tables of a masked column, stated over the rows of the table
  // ---------------------------------------------------------------------

  /**
   * t is `df[p][f].value_counts()` (in some order): distinct labels; each
   * label counted over the table rows that pass p and carry it, at least
   * once; every row passing p has its label listed; and the counts add up to
   * the number of rows passing p.
   */
  predicate IsFilteredCounts<R(!new), K(==)>(t: seq<(K, nat)>, rows: seq<R>, p: R -> bool, f: R -> K)
  {
    && NoDup(Labels(t))
    && (forall i :: 0 <= i < |t| ==>
          1 <= t[i].1 && t[i].1 == |set j | 0 <= j < |rows| && p(rows[j]) && f(rows[j]) == t[i].0|)
    && (forall j :: 0 <= j < |rows| && p(rows[j]) ==> f(rows[j]) in Labels(t))
    && Sum(Counts(t)) == CountWhere(rows, p)
  }

  /** A count table of the masked column, read back as counts over the table's rows. */
  lemma FilteredCountTable<R(!new), K(!new)>(t: seq<(K, nat)>, rows: seq<R>, p: R -> bool, f: R -> K)
    requires IsCountTable(t, Map(Filter(rows, p), f))
    ensures IsFilteredCounts(t, rows, p, f)
  {
    var sel := Filter(rows, p);
    var col := Map(sel, f);
    CountTableTotal(t, col);
    forall i | 0 <= i < |t|
      ensures t[i].1 == |set j | 0 <= j < |rows| && p(rows[j]) && f(rows[j]) == t[i].0|
    {
      var idx := FilterMapOccurrences(rows, p, f, t[i].0);
      assert idx == set j | 0 <= j < |rows| && p(rows[j]) && f(rows[j]) == t[i].0;
    }
    FilterMapMembers(rows, p, f);
    forall j | 0 <= j < |rows| && p(rows[j]) ensures f(rows[j]) in Labels(t) {
      assert rows[j] in rows;
    }
  }

  /** Every label of such a table comes from a row that passes the mask. */
  lemma FilteredLabels<R(!new), K(!new)>(t: seq<(K, nat)>, rows: seq<R>, p: R -> bool, f: R -> K)
    requires IsFilteredCounts(t, rows, p, f)
    ensures forall i :: 0 <= i < |t| ==> exists r :: r in rows && p(r) && f(r) == t[i].0
  {
    forall i | 0 <= i < |t| ensures exists r :: r in rows && p(r) && f(r) == t[i].0 {
      var rs := set j | 0 <= j < |rows| && p(rows[j]) && f(rows[j]) == t[i].0;
      assert |rs| >= 1;
      var j :| j in rs;
      assert rows[j] in rows;
    }
  }

  /** When p keeps only rows whose label passes keep, every label listed passes keep. */
  lemma FilteredKeep<R(!new), K(!new)>(t: seq<(K, nat)>, rows: seq<R>, p: R -> bool, f: R -> K, keep: K -> bool)
    requires IsFilteredCounts(t, rows, p, f)
    requires forall r :: p(r) ==> keep(f(r))
    ensures forall i :: 0 <= i < |t| ==> keep(t[i].0)
  {
    FilteredLabels(t, rows, p, f);
  }

  /**
   * Two tables over masks that no row passes together: their counts add up
   * to at most the number of rows.
   */
  lemma FilteredCountsDisjoint<R(!new), K(!new)>(t: seq<(K, nat)>, u: seq<(K, nat)>, rows: seq<R>,
                                                  p: R -> bool, q: R -> bool, f: R -> K)
    requires IsFilteredCounts(t, rows, p, f) && IsFilteredCounts(u, rows, q, f)
    requires forall r :: !(p(r) && q(r))
    ensures Sum(Counts(t)) + Sum(Counts(u)) <= |rows|
  {
    FilterCount(rows, p);
    FilterCount(rows, q);
    DisjointMasks(rows, p, q);
  }

  /** The count table of a whole column, as counts over the table's rows. */
  lemma ColumnCountTable<R(!new), K(!new)>(t: seq<(K, nat)>, rows: seq<R>, f: R -> K)
    requires IsCountTable(t, Map(rows, f))
    ensures IsFilteredCounts(t, rows, AllRows, f)
    ensures Sum(Counts(t)) == |rows|
  {
    FilterAll(rows);
    FilteredCountTable(t, rows, AllRows, f);
    CountTableTotal(t, Map(rows, f));
  }

  // ---------------------------------------------------------------------
  // Group sums
  // ---------------------------------------------------------------------

  /** Total of column w over the whole table: `df[w].sum()`. */
  function SumAll<R>(rows: seq<R>, w: R -> int): int
  {
    if rows == [] then 0 else SumAll(rows[..|rows| - 1], w) + w(rows[|rows| - 1])
  }

  /** Total of column w over the rows whose key is k. */
  function SumWhere<R, K(==)>(rows: seq<R>, key: R -> K, w: R -> int, k: K): int
  {
    if rows == [] then 0
    else SumWhere(rows[..|rows| - 1], key, w, k) + (if key(rows[|rows| - 1]) == k then w(rows[|rows| - 1]) else 0)
  }

  /** Total of column w over the rows whose key is among the keys. */
  function SumIn<R, K(==)>(rows: seq<R>, key: R -> K, w: R -> int, keys: seq<K>): int
  {
    if rows == [] then 0
    else SumIn(rows[..|rows| - 1], key, w, keys) + (if key(rows[|rows| - 1]) in keys then w(rows[|rows| - 1]) else 0)
  }

  /** `groupby(key)[w].sum()`, aligned with the given keys. */
  function Sums<R, K(==)>(rows: seq<R>, key: R -> K, w: R -> int, keys: seq<K>): seq<int>
  {
    seq(|keys|, i requires 0 <= i < |keys| => SumWhere(rows, key, w, keys[i]))
  }

  lemma {:induction false} SumInCons<R, K>(rows: seq<R>, key: R -> K, w: R -> int, k: K, ks: seq<K>)
    requires k !in ks
    ensures SumIn(rows, key, w, [k] + ks) == SumWhere(rows, key, w, k) + SumIn(rows, key, w, ks)
  {
    if rows != [] {
      SumInCons(rows[..|rows| - 1], key, w, k, ks);
    }
  }

  lemma {:induction false} SumInNone<R, K>(rows: seq<R>, key: R -> K, w: R -> int, keys: seq<K>)
    requires keys == []
    ensures SumIn(rows, key, w, keys) == 0
  {
    if rows != [] { SumInNone(rows[..|rows| - 1], key, w, keys); }
  }

  lemma {:induction false} SumInAll<R, K>(rows: seq<R>, key: R -> K, w: R -> int, keys: seq<K>)
    requires forall r :: r in rows ==> key(r) in keys
    ensures SumIn(rows, key, w, keys) == SumAll(rows, w)
  {
    if rows != [] {
      var init := rows[..|rows| - 1];
      assert forall r :: r in init ==> r in rows;
      SumInAll(init, key, w, keys);
    }
  }

  /** Summing by distinct keys that cover every row partitions the column total. */
  lemma {:induction false} SumsTotal<R, K>(rows: seq<R>, key: R -> K, w: R -> int, keys: seq<K>)
    requires NoDup(keys)
    requires forall r :: r in rows ==> key(r) in keys
    ensures Sum(Sums(rows, key, w, keys)) == SumAll(rows, w)
  {
    SumsPartition(rows, key, w, keys);
    SumInAll(rows, key, w, keys);
  }

  lemma {:induction false} SumsPartition<R, K>(rows: seq<R>, key: R -> K, w: R -> int, keys: seq<K>)
    requires NoDup(keys)
    ensures Sum(Sums(rows, key, w, keys)) == SumIn(rows, key, w, keys)
  {
    if keys == [] {
      SumInNone(rows, key, w, keys);
    } else {
      var rest := keys[1..];
      assert Sums(rows, key, w, keys)[1..] == Sums(rows, key, w, rest);
      SumsPartition(rows, key, w, rest);
      assert keys == [keys[0]] + rest;
      SumInCons(rows, key, w, keys[0], rest);
    }
  }

  // ---------------------------------------------------------------------
  // Inner merge on a key
  // ---------------------------------------------------------------------

  /** The value x, c times. */
  function Repeat<T>(x: T, c: nat): (s: seq<T>)
    ensures |s| == c
  {
    if c == 0 then [] else [x] + Repeat(x, c - 1)
  }

  lemma {:induction false} RepeatCount<T>(x: T, c: nat, k: T)
    ensures Occurrences(Repeat(x, c), k) == if k == x then c else 0
  {
    if c > 0 {
      RepeatCount(x, c - 1, k);
      assert multiset(Repeat(x, c)) == multiset{x} + multiset(Repeat(x, c - 1));
    }
  }

  /**
   * The key column of `pd.merge(dim, fact, how='inner')` joined on key
   * columns dim and fact: for each dim row in order, its key once for every
   * fact row that carries the same key.
   */
  function JoinKeys<K(==)>(dim: seq<K>, fact: seq<K>): seq<K>
  {
    if dim == [] then []
    else
      var x := dim[|dim| - 1];
      JoinKeys(dim[..|dim| - 1], fact) + Repeat(x, Occurrences(fact, x))
  }

  /** A key occurs in the inner merge once per matching (dim row, fact row) pair. */
  lemma {:induction false} JoinKeysCount<K>(dim: seq<K>, fact: seq<K>, k: K)
    ensures Occurrences(JoinKeys(dim, fact), k) == Occurrences(dim, k) * Occurrences(fact, k)
  {
    if dim != [] {
      var init, x := dim[..|dim| - 1], dim[|dim| - 1];
      JoinKeysCount(init, fact, k);
      JoinKeysSnoc(dim, fact, k);
      SnocCount(dim, k);
      SnocProduct(Occurrences(init, k), Occurrences(fact, k), x == k);
    }
  }

  /** The occurrences of k in the merge gain, with the last dim row, its matches if it carries k. */
  lemma JoinKeysSnoc<K>(dim: seq<K>, fact: seq<K>, k: K)
    requires dim != []
    ensures var init, x := dim[..|dim| - 1], dim[|dim| - 1];
            Occurrences(JoinKeys(dim, fact), k)
            == Occurrences(JoinKeys(init, fact), k) + (if x == k then Occurrences(fact, k) else 0)
  {
    var init, x := dim[..|dim| - 1], dim[|dim| - 1];
    RepeatCount(x, Occurrences(fact, x), k);
    assert multiset(JoinKeys(dim, fact)) == multiset(JoinKeys(init, fact)) + multiset(Repeat(x, Occurrences(fact, x)));
  }

  lemma SnocCount<K>(s: seq<K>, k: K)
    requires s != []
    ensures Occurrences(s, k) == Occurrences(s[..|s| - 1], k) + (if s[|s| - 1] == k then 1 else 0)
  {
    assert s == s[..|s| - 1] + [s[|s| - 1]];
  }

  lemma SnocProduct(a: nat, b: nat, hit: bool)
    ensures (a + (if hit then 1 else 0)) * b == a * b + (if hit then b else 0)
  {
    if hit {
      assert (a + 1) * b == a * b + b;
    }
  }

  lemma ProductPositive(a: nat, b: nat)
    ensures a * b > 0 <==> a > 0 && b > 0
  {
    if a > 0 && b > 0 {
      assert a * b >= b;
    }
  }

  lemma OccursIn<T>(s: seq<T>, x: T)
    ensures x in s <==> Occurrences(s, x) > 0
  {
    assert x in s <==> x in multiset(s);
  }

  lemma ConcatOccurrences<T>(s: seq<T>, t: seq<T>, x: T)
    ensures Occurrences(s + t, x) == Occurrences(s, x) + Occurrences(t, x)
  {
    assert multiset(s + t) == multiset(s) + multiset(t);
  }

  lemma SnocOccurrences<T>(s: seq<T>, y: T, x: T)
    ensures Occurrences(s + [y], x) == Occurrences(s, x) + (if y == x then 1 else 0)
  {
    ConcatOccurrences(s, [y], x);
  }

  lemma MapSnoc<R, T>(s: seq<R>, y: R, f: R -> T)
    ensures Map(s + [y], f) == Map(s, f) + [f(y)]
  {
    assert (s + [y])[..|s|] == s;
  }

  lemma LabelsSnoc<K, V>(t: seq<(K, V)>)
    requires t != []
    ensures Labels(t) == Labels(t[..|t| - 1]) + [t[|t| - 1].0]
  {
  }

  /** Dropping the last value of a sequence without duplicates leaves one without it. */
  lemma NoDupSnoc<T>(s: seq<T>)
    requires s != [] && NoDup(s)
    ensures NoDup(s[..|s| - 1])
    ensures s[|s| - 1] !in s[..|s| - 1]
  {
  }

  /** A key survives the inner merge exactly when both tables hold it. */
  lemma JoinKeysMembers<K>(dim: seq<K>, fact: seq<K>, k: K)
    ensures k in JoinKeys(dim, fact) <==> k in dim && k in fact
  {
    JoinKeysCount(dim, fact, k);
    OccursIn(JoinKeys(dim, fact), k);
    OccursIn(dim, k);
    OccursIn(fact, k);
    ProductPositive(Occurrences(dim, k), Occurrences(fact, k));
  }

  // ---------------------------------------------------------------------
  // Sorting and head
  // ---------------------------------------------------------------------

  predicate SortedDesc<R>(s: seq<R>, key: R -> int)
  {
    forall i, j :: 0 <= i < j < |s| ==> key(s[i]) >= key(s[j])
  }

  function Insert<R>(x: R, s: seq<R>, key: R -> int): (r: seq<R>)
    requires SortedDesc(s, key)
    ensures SortedDesc(r, key)
    ensures multiset(r) == multiset(s) + multiset{x}
  {
    if s == [] || key(x) >= key(s[0]) then
      SortedCons(x, s, key);
      [x] + s
    else
      var rest := Insert(x, s[1..], key);
      assert s == [s[0]] + s[1..];
      InsertedBelow(x, s, key, rest);
      SortedCons(s[0], rest, key);
      [s[0]] + rest
  }

  lemma SortedCons<R>(x: R, s: seq<R>, key: R -> int)
    requires SortedDesc(s, key)
    requires s == [] || key(x) >= key(s[0])
    ensures SortedDesc([x] + s, key)
  {
    forall j | 0 < j < |s| + 1 ensures key(([x] + s)[0]) >= key(([x] + s)[j]) {
      assert ([x] + s)[j] == s[j - 1];
      if j > 1 { assert key(s[0]) >= key(s[j - 1]); }
    }
  }

  lemma InsertedBelow<R>(x: R, s: seq<R>, key: R -> int, rest: seq<R>)
    requires s != [] && SortedDesc(s, key) && key(x) < key(s[0])
    requires multiset(rest) == multiset(s[1..]) + multiset{x}
    requires SortedDesc(rest, key)
    ensures rest == [] || key(s[0]) >= key(rest[0])
  {
    if rest != [] {
      assert rest[0] in multiset(rest);
      if rest[0] != x {
        assert rest[0] in multiset(s[1..]);
        var k :| 0 <= k < |s[1..]| && s[1..][k] == rest[0];
        assert s[k + 1] == rest[0];
      }
    }
  }

  /**
   * `sort_values(by=key, ascending=False)`: a permutation of the rows with
   * non-increasing keys. The order among equal keys is not specified (the
   * pandas default sort is not stable), and nothing here relies on it.
   */
  function SortDesc<R>(s: seq<R>, key: R -> int): (r: seq<R>)
    ensures SortedDesc(r, key)
    ensures multiset(r) == multiset(s)
    ensures |r| == |s|
  {
    if s == [] then []
    else
      assert s == [s[0]] + s[1..];
      Insert(s[0], SortDesc(s[1..], key), key)
  }

  lemma {:induction false} NoDupCounts<T>(s: seq<T>, x: T)
    requires NoDup(s)
    ensures multiset(s)[x] <= 1
  {
    if s != [] {
      var init := s[..|s| - 1];
      assert s == init + [s[|s| - 1]];
      NoDupCounts(init, x);
      assert s[|s| - 1] == x ==> x !in init;
    }
  }

  /** The position of the first x in s, or |s| when s has none (`list.index` with a default). */
  function Rank<T(==)>(s: seq<T>, x: T): (i: nat)
    ensures i <= |s|
    ensures i < |s| <==> x in s
    ensures i < |s| ==> s[i] == x
    ensures forall j :: 0 <= j < i ==> s[j] != x
  {
    if s == [] then 0
    else if s[0] == x then 0
    else 1 + Rank(s[1..], x)
  }

  /** Appending an element leaves the positions of the values already present unchanged. */
  lemma RankSnoc<T>(s: seq<T>, y: T, x: T)
    requires x in s
    ensures Rank(s + [y], x) == Rank(s, x)
  {
    var i, k := Rank(s + [y], x), Rank(s, x);
    assert (s + [y])[k] == x;
    if i < k {
      assert s[i] == x;
    }
  }

  lemma RankLast<T>(s: seq<T>, y: T)
    requires y !in s
    ensures Rank(s + [y], y) == |s|
  {
    assert (s + [y])[|s|] == y;
  }

  /** Reordering a sequence of distinct values keeps them distinct. */
  lemma {:induction false} PermutationNoDup<T>(a: seq<T>, b: seq<T>)
    requires NoDup(a)
    requires multiset(a) == multiset(b)
    ensures NoDup(b)
    ensures forall x :: x in b <==> x in a
  {
    forall x ensures x in b <==> x in a {
      assert x in b <==> x in multiset(b);
      assert x in a <==> x in multiset(a);
    }
    forall i, j | 0 <= i < j < |b| ensures b[i] != b[j] {
      if b[i] == b[j] {
        var x := b[i];
        assert b == b[..j] + b[j..];
        assert x in b[..j];
        assert x in b[j..];
        assert multiset(b)[x] == multiset(b[..j])[x] + multiset(b[j..])[x];
        NoDupCounts(a, x);
        assert false;
      }
    }
  }

  /** `head(n)`: the first n rows, or all of them when there are fewer. */
  function Head<T>(s: seq<T>, n: nat): (h: seq<T>)
    ensures |h| == if |s| < n then |s| else n
    ensures h == s[..|h|]
  {
    if |s| < n then s else s[..n]
  }

  /** `df[mask].sort_values(by=key, ascending=False).head(n)`. */
  function TopBy<R(!new)>(rows: seq<R>, p: R -> bool, key: R -> int, n: nat): seq<R>
  {
    Head(SortDesc(Filter(rows, p), key), n)
  }

  /**
   * The head of the sorted selection: n rows, or every selected row when
   * fewer pass the mask; a sub-multiset of the selected rows, so no row is
   * listed more often than the table holds it; in
   * non-increasing key order; and no passing row left out, counting each
   * copy of a repeated row separately, has a larger key than a row listed.
   */
  lemma TopRows<R(!new)>(rows: seq<R>, p: R -> bool, key: R -> int, n: nat)
    ensures var top := TopBy(rows, p, key, n);
            var m := CountWhere(rows, p);
            && |top| == (if m < n then m else n)
            && multiset(top) <= multiset(Filter(rows, p))
            && (forall r :: r in top ==> r in rows && p(r))
            && SortedDesc(top, key)
            && (forall r, o :: r in top && o in multiset(Filter(rows, p)) - multiset(top) ==> key(o) <= key(r))
  {
    var sel := Filter(rows, p);
    FilterMembers(rows, p);
    HeadOfSorted(sel, SortDesc(sel, key), key, n);
  }

  /** The sort key of an ascending sort: the key negated. */
  function NegKey<R>(key: R -> int): R -> int
  {
    r => Negate(key(r))
  }

  /** `df[mask].sort_values(by=key, ascending=True).head(n)`. */
  function BottomBy<R(!new)>(rows: seq<R>, p: R -> bool, key: R -> int, n: nat): seq<R>
  {
    TopBy(rows, p, NegKey(key), n)
  }

  /** The ascending counterpart of TopRows: the n smallest keys, smallest first. */
  lemma BottomRows<R(!new)>(rows: seq<R>, p: R -> bool, key: R -> int, n: nat)
    ensures var bottom := BottomBy(rows, p, key, n);
            var m := CountWhere(rows, p);
            && |bottom| == (if m < n then m else n)
            && multiset(bottom) <= multiset(Filter(rows, p))
            && (forall r :: r in bottom ==> r in rows && p(r))
            && (forall i, j :: 0 <= i < j < |bottom| ==> key(bottom[i]) <= key(bottom[j]))
            && (forall r, o :: r in bottom && o in multiset(Filter(rows, p)) - multiset(bottom) ==> key(r) <= key(o))
  {
    var neg := NegKey(key);
    TopRows(rows, p, neg, n);
    var bottom := BottomBy(rows, p, key, n);
    assert forall r :: neg(r) == -key(r);
  }

  /** The head of a sorted permutation of sel holds its largest keys. */
  lemma HeadOfSorted<R>(sel: seq<R>, sorted: seq<R>, key: R -> int, n: nat)
    requires SortedDesc(sorted, key) && multiset(sorted) == multiset(sel)
    ensures var top := Head(sorted, n);
            && (forall r :: r in top ==> r in sel)
            && multiset(top) <= multiset(sel)
            && SortedDesc(top, key)
            && (forall r, o :: r in top && o in multiset(sel) - multiset(top) ==> key(o) <= key(r))
  {
    var top := Head(sorted, n);
    var rest := sorted[|top|..];
    HeadRest(sorted, |top|);
    assert multiset(sel) - multiset(top) == multiset(rest);
    HeadMembers(sel, sorted, top);
    SortedSplit(sorted, key, |top|);
    forall r, o | r in top && o in multiset(sel) - multiset(top) ensures key(o) <= key(r) {
      assert o in multiset(rest);
    }
  }

  lemma HeadRest<R>(s: seq<R>, k: nat)
    requires k <= |s|
    ensures multiset(s) == multiset(s[..k]) + multiset(s[k..])
  {
    assert s == s[..k] + s[k..];
  }

  /** A prefix of a permutation of sel is a sub-multiset of sel, so all its rows are in sel. */
  lemma HeadMembers<R>(sel: seq<R>, sorted: seq<R>, top: seq<R>)
    requires multiset(sorted) == multiset(sel) && |top| <= |sorted| && top == sorted[..|top|]
    ensures multiset(top) <= multiset(sel)
    ensures forall r :: r in top ==> r in sel
  {
    HeadRest(sorted, |top|);
    forall r | r in top ensures r in sel {
      assert r in multiset(top);
      assert r in multiset(sorted);
    }
  }

  /** In a sorted sequence, nothing after position k has a larger key than anything before it. */
  lemma SortedSplit<R>(sorted: seq<R>, key: R -> int, k: nat)
    requires SortedDesc(sorted, key) && k <= |sorted|
    ensures SortedDesc(sorted[..k], key)
    ensures forall r, o :: r in sorted[..k] && o in sorted[k..] ==> key(o) <= key(r)
  {
    forall r, o | r in sorted[..k] && o in sorted[k..] ensures key(o) <= key(r) {
      var i :| 0 <= i < k && sorted[i] == r;
      var j :| 0 <= j < |sorted| - k && sorted[k..][j] == o;
      assert sorted[k + j] == o;
    }
  }

  /**
   * `nlargest(n)`, or `sort_values(by=count, ascending=False).head(n)`, of a
   * count table: its n rows with the largest counts.
   */
  function NLargest<K>(t: seq<(K, nat)>, n: nat): seq<(K, nat)>
  {
    Head(SortDesc(t, CountOf), n)
  }

  /**
   * The n largest rows of a count table of s: at most n labels, as many as
   * s has distinct values up to n, largest counts first, and every label of
   * s that was cut off occurs no more often than any label listed.
   */
  lemma TopOfCountTable<K(!new)>(t: seq<(K, nat)>, s: seq<K>, n: nat)
    requires IsCountTable(t, s)
    ensures var top := NLargest(t, n);
            && |top| <= n
            && |top| == (if NUnique(s) < n then NUnique(s) else n)
            && IsTopOf(top, s)
  {
    SortedByCount(t, s);
    HeadOfCountTable(SortDesc(t, CountOf), s, n);
  }

  lemma HeadOfCountTable<K(!new)>(t: seq<(K, nat)>, s: seq<K>, n: nat)
    requires IsCountTable(t, s) && NonIncreasing(Counts(t))
    ensures |t| == NUnique(s)
    ensures IsTopOf(Head(t, n), s)
  {
    var top := Head(t, n);
    var labels := Labels(t);
    NoDupCard(labels);
    assert (set x | x in labels) == set x | x in s;
    assert Labels(top) == labels[..|top|];
    assert Counts(top) == Counts(t)[..|top|];
    assert NoDup(Labels(top));
    assert NonIncreasing(Counts(top));
    forall i | 0 <= i < |top| ensures top[i].0 in s && top[i].1 == Occurrences(s, top[i].0) {
      assert top[i] == t[i] && labels[i] == t[i].0;
    }
    forall x, i | x in s && x !in Labels(top) && 0 <= i < |top|
      ensures Occurrences(s, x) <= top[i].1
    {
      assert x in labels;
      var j :| 0 <= j < |t| && labels[j] == x;
      assert Counts(t)[i] >= Counts(t)[j];
      assert t[j].1 == Occurrences(s, x);
    }
  }

  /** A prefix of a value-count table of s, as `nlargest` returns it. */
  predicate IsTopOf<K(==,!new)>(top: seq<(K, nat)>, s: seq<K>)
  {
    && NoDup(Labels(top))
    && (forall i :: 0 <= i < |top| ==> top[i].0 in s && top[i].1 == Occurrences(s, top[i].0))
    && NonIncreasing(Counts(top))
    && (forall x, i :: x in s && x !in Labels(top) && 0 <= i < |top| ==> Occurrences(s, x) <= top[i].1)
  }

  // ---------------------------------------------------------------------
  // Minimum and maximum
  // ---------------------------------------------------------------------

  /** `col.min()`, with None for the NaN pandas returns on an empty column. */
  function Min(s: seq<int>): (m: Option<int>)
    ensures m.None? <==> s == []
    ensures m.Some? ==> m.value in s && forall x :: x in s ==> m.value <= x
  {
    if s == [] then None
    else
      var init, last := s[..|s| - 1], s[|s| - 1];
      assert s == init + [last];
      match Min(init)
      case None => Some(last)
      case Some(v) => Some(if last < v then last else v)
  }

  /** `col.max()`, with None for the NaN pandas returns on an empty column. */
  function Max(s: seq<int>): (m: Option<int>)
    ensures m.None? <==> s == []
    ensures m.Some? ==> m.value in s && forall x :: x in s ==> x <= m.value
  {
    if s == [] then None
    else
      var init, last := s[..|s| - 1], s[|s| - 1];
      assert s == init + [last];
      match Max(init)
      case None => Some(last)
      case Some(v) => Some(if last > v then last else v)
  }

  /** `df[mask][f].max()`: None when no row passes the mask. */
  function MaxWhere<R(!new)>(rows: seq<R>, p: R -> bool, f: R -> int): (m: Option<int>)
    ensures m.None? <==> forall r :: r in rows ==> !p(r)
    ensures m.Some? ==> (exists r :: r in rows && p(r) && f(r) == m.value)
                        && forall r :: r in rows && p(r) ==> f(r) <= m.value
  {
    var col := Map(Filter(rows, p), f);
    FilterMapMembers(rows, p, f);
    assert col != [] ==> col[0] in col;
    assert forall r :: r in rows && p(r) ==> f(r) in col;
    Max(col)
  }

  /** `df[mask][f].min()`: None when no row passes the mask. */
  function MinWhere<R(!new)>(rows: seq<R>, p: R -> bool, f: R -> int): (m: Option<int>)
    ensures m.None? <==> forall r :: r in rows ==> !p(r)
    ensures m.Some? ==> (exists r :: r in rows && p(r) && f(r) == m.value)
                        && forall r :: r in rows && p(r) ==> m.value <= f(r)
  {
    var col := Map(Filter(rows, p), f);
    FilterMapMembers(rows, p, f);
    assert col != [] ==> col[0] in col;
    assert forall r :: r in rows && p(r) ==> f(r) in col;
    Min(col)
  }

  /** Over the same rows, the minimum never exceeds the maximum. */
  lemma MinBelowMax<R(!new)>(rows: seq<R>, p: R -> bool, f: R -> int)
    ensures MinWhere(rows, p, f).Some? <==> MaxWhere(rows, p, f).Some?
    ensures MinWhere(rows, p, f).Some? ==> MinWhere(rows, p, f).value <= MaxWhere(rows, p, f).value
  {
    var lo, hi := MinWhere(rows, p, f), MaxWhere(rows, p, f);
    if lo.Some? {
      var r :| r in rows && p(r) && f(r) == lo.value;
      assert f(r) <= hi.value;
    }
  }

  // ---------------------------------------------------------------------
  // pd.cut with right=True
  // ---------------------------------------------------------------------

  /** v lies in bin i, the right-closed interval (edges[i], edges[i+1]]. */
  predicate InBin(edges: seq<int>, i: int, v: int)
  {
    0 <= i && i + 1 < |edges| && edges[i] < v <= edges[i + 1]
  }

  function BinFrom(edges: seq<int>, v: int, i: nat): (b: Option<nat>)
    decreases |edges| - i
    ensures b.Some? ==> i <= b.value && InBin(edges, b.value, v)
    ensures b.None? ==> forall j :: i <= j ==> !InBin(edges, j, v)
  {
    if i + 1 >= |edges| then None
    else if edges[i] < v <= edges[i + 1] then Some(i)
    else BinFrom(edges, v, i + 1)
  }

  /** The bin pd.cut gives one value: an interval that holds it, or None (NaN). */
  function Bin(edges: seq<int>, v: int): (b: Option<nat>)
    ensures b.Some? ==> InBin(edges, b.value, v)
    ensures b.None? ==> forall j :: !InBin(edges, j, v)
  {
    BinFrom(edges, v, 0)
  }

  /** With strictly increasing edges, no value lies in two bins. */
  lemma BinUnique(edges: seq<int>, v: int, i: int, j: int)
    requires StrictlyIncreasing(edges)
    requires InBin(edges, i, v) && InBin(edges, j, v)
    ensures i == j
  {
  }

  /** A value gets a bin exactly when it is above the first edge and at most the last. */
  lemma {:induction false} BinRange(edges: seq<int>, v: int)
    requires StrictlyIncreasing(edges) && |edges| >= 2
    ensures Bin(edges, v).Some? <==> edges[0] < v <= edges[|edges| - 1]
    ensures Bin(edges, v).Some? ==> Bin(edges, v).value < |edges| - 1
  {
    if edges[0] < v <= edges[|edges| - 1] {
      var k := LastEdgeBelow(edges, v, |edges| - 1);
      assert InBin(edges, k, v);
    }
  }

  /** The last edge strictly below v, searched downwards from edge hi. */
  lemma {:induction false} LastEdgeBelow(edges: seq<int>, v: int, hi: nat) returns (k: nat)
    requires StrictlyIncreasing(edges)
    requires 1 <= hi < |edges| && edges[0] < v <= edges[hi]
    ensures k < hi && edges[k] < v <= edges[k + 1]
    decreases hi
  {
    if edges[hi - 1] < v {
      k := hi - 1;
    } else {
      k := LastEdgeBelow(edges, v, hi - 1);
    }
  }

  /** pd.cut of a whole column: each value's bin, or None. */
  function Cut(edges: seq<int>, values: seq<int>): (c: seq<Option<nat>>)
  {
    seq(|values|, i requires 0 <= i < |values| => Bin(edges, values[i]))
  }

  function BinKeys(n: nat): (keys: seq<Option<nat>>)
    ensures |keys| == n
    ensures NoDup(keys)
  {
    seq(n, i requires 0 <= i < n => Some(i))
  }

  /**
   * `value_counts().sort_index()` / `groupby(...).count()` of a categorical
   * column with n categories: one count per bin, in bin order, empty bins
   * included, values without a bin not counted.
   */
  function BinCounts(cut: seq<Option<nat>>, n: nat): (c: seq<nat>)
  {
    Tally(cut, BinKeys(n))
  }

  /** The number of values pd.cut puts in bin b is the number inside (edges[b], edges[b+1]]. */
  lemma BinCountAt(edges: seq<int>, values: seq<int>, b: nat)
    requires StrictlyIncreasing(edges) && b + 1 < |edges|
    ensures Occurrences<Option<nat>>(Cut(edges, values), Some(b))
         == |set i | 0 <= i < |values| && edges[b] < values[i] <= edges[b + 1]|
  {
    var cut := Cut(edges, values);
    var key: Option<nat> := Some(b);
    var lhs := OccurrencesRows(cut, key);
    var rhs := set i | 0 <= i < |values| && edges[b] < values[i] <= edges[b + 1];
    forall i | i in lhs ensures i in rhs {
      assert InBin(edges, b, values[i]);
    }
    forall i | i in rhs ensures i in lhs {
      var bin := Bin(edges, values[i]);
      assert InBin(edges, b, values[i]);
      BinUnique(edges, values[i], b, bin.value);
    }
    assert lhs == rhs;
    assert |lhs| == |rhs|;
  }

  /**
   * Binning a column over strictly increasing edges: bin i counts exactly
   * the values in (edges[i], edges[i+1]], and the bin counts add up to the
   * number of values in (edges[0], edges[last]].
   */
  lemma CutCounts(edges: seq<int>, values: seq<int>)
    requires StrictlyIncreasing(edges) && |edges| >= 2
    ensures var c := BinCounts(Cut(edges, values), |edges| - 1);
            && |c| == |edges| - 1
            && (forall b :: 0 <= b < |c| ==>
                  c[b] == |set i | 0 <= i < |values| && edges[b] < values[i] <= edges[b + 1]|)
            && Sum(c) == |set i | 0 <= i < |values| && edges[0] < values[i] <= edges[|edges| - 1]|
  {
    var n := |edges| - 1;
    var cut := Cut(edges, values);
    var keys := BinKeys(n);
    var c := BinCounts(cut, n);
    forall b | 0 <= b < n
      ensures c[b] == |set i | 0 <= i < |values| && edges[b] < values[i] <= edges[b + 1]|
    {
      assert keys[b] == Some(b);
      BinCountAt(edges, values, b);
    }
    TallySum(cut, keys);
    var binned := CountInRows(cut, keys);
    var inRange := set i | 0 <= i < |values| && edges[0] < values[i] <= edges[|edges| - 1];
    forall i | 0 <= i < |values|
      ensures cut[i] in keys <==> edges[0] < values[i] <= edges[|edges| - 1]
    {
      BinRange(edges, values[i]);
      if cut[i].Some? { assert keys[cut[i].value] == cut[i]; }
    }
    assert binned == inRange;
  }
}
