/**
 * The two JavaScript array operations the scan relies on, over any element
 * type: keeping the elements a test accepts (a `push` loop or `filter`), and
 * `Array.prototype.sort` with a comparator that compares one numeric key.
 * Since ES2019 that sort is stable, so it is modelled by an insertion sort
 * that puts an element ahead of every later element with an equal key.
 */
module Arrays {

  /** The elements of `s` that `keep` accepts, in their original order. */
  function Filter<T>(keep: T -> bool, s: seq<T>): (r: seq<T>)
    ensures |r| <= |s|
  {
    if |s| == 0 then []
    else if keep(s[0]) then [s[0]] + Filter(keep, s[1..])
    else Filter(keep, s[1..])
  }

  /** The filtered list holds exactly the accepted elements of `s`. */
  lemma {:induction false} FilterMembers<T(!new)>(keep: T -> bool, s: seq<T>)
    ensures forall x :: x in Filter(keep, s) <==> x in s && keep(x)
  {
    if |s| > 0 {
      FilterMembers(keep, s[1..]);
      assert forall x :: x in s <==> x == s[0] || x in s[1..];
    }
  }

  /** Every accepted element of `s` has a position in the filtered list. */
  lemma {:induction false} FilterIndex<T>(keep: T -> bool, s: seq<T>, j: nat) returns (m: nat)
    requires j < |s| && keep(s[j])
    ensures m < |Filter(keep, s)| && Filter(keep, s)[m] == s[j]
  {
    if j == 0 {
      m := 0;
    } else {
      var m' := FilterIndex(keep, s[1..], j - 1);
      m := if keep(s[0]) then m' + 1 else m';
    }
  }

  /** Filtering a list whose every element passes changes nothing. */
  lemma {:induction false} FilterAllKept<T>(keep: T -> bool, s: seq<T>)
    requires forall i :: 0 <= i < |s| ==> keep(s[i])
    ensures Filter(keep, s) == s
  {
    if |s| > 0 {
      FilterAllKept(keep, s[1..]);
      assert s == [s[0]] + s[1..];
    }
  }

  /** Filtering distributes over concatenation. */
  lemma {:induction false} FilterAppend<T>(keep: T -> bool, a: seq<T>, b: seq<T>)
    ensures Filter(keep, a + b) == Filter(keep, a) + Filter(keep, b)
  {
    if |a| == 0 {
      assert a + b == b;
    } else {
      var x, rest := a[0], a[1..];
      FilterAppend(keep, rest, b);
      assert a == [x] + rest;
      FilterAppendStep(keep, x, rest, b);
    }
  }

  /** `FilterAppend` for a list with first element `x`, given it for the rest. */
  lemma FilterAppendStep<T>(keep: T -> bool, x: T, rest: seq<T>, b: seq<T>)
    requires Filter(keep, rest + b) == Filter(keep, rest) + Filter(keep, b)
    ensures Filter(keep, [x] + rest + b) == Filter(keep, [x] + rest) + Filter(keep, b)
  {
    assert [x] + rest + b == [x] + (rest + b);
    FilterCons(keep, x, rest);
    FilterCons(keep, x, rest + b);
    var h := if keep(x) then [x] else [];
    var fr, fb := Filter(keep, rest), Filter(keep, b);
    assert h + (fr + fb) == (h + fr) + fb;
  }

  /** Filtering a list with a first element `x` keeps `x` in front exactly when it is accepted. */
  lemma FilterCons<T>(keep: T -> bool, x: T, s: seq<T>)
    ensures Filter(keep, [x] + s) == (if keep(x) then [x] else []) + Filter(keep, s)
  {
    assert ([x] + s)[0] == x && ([x] + s)[1..] == s;
  }

  /** Keys never decrease along `s`. */
  ghost predicate SortedBy<T>(key: T -> real, s: seq<T>) {
    forall i, j :: 0 <= i < j < |s| ==> key(s[i]) <= key(s[j])
  }

  /**
   * Places `x` ahead of the leading elements of `s` whose key is smaller, in
   * front of the first element whose key is not.
   */
  function Insert<T>(key: T -> real, x: T, s: seq<T>): (r: seq<T>)
    ensures |r| == |s| + 1
    ensures r[0] == x || (|s| > 0 && r[0] == s[0] && key(s[0]) < key(x))
  {
    if |s| == 0 || key(x) <= key(s[0]) then [x] + s
    else [s[0]] + Insert(key, x, s[1..])
  }

  /** Insertion adds exactly `x`. */
  lemma {:induction false} InsertPermutes<T>(key: T -> real, x: T, s: seq<T>)
    ensures multiset(Insert(key, x, s)) == multiset(s) + multiset{x}
  {
    if |s| > 0 && key(s[0]) < key(x) {
      InsertPermutes(key, x, s[1..]);
      assert s == [s[0]] + s[1..];
    }
  }

  /** Insertion into a sorted list keeps it sorted. */
  lemma {:induction false} InsertSorted<T>(key: T -> real, x: T, s: seq<T>)
    requires SortedBy(key, s)
    ensures SortedBy(key, Insert(key, x, s))
  {
    if |s| > 0 && key(s[0]) < key(x) {
      InsertSorted(key, x, s[1..]);
      var t := Insert(key, x, s[1..]);
      InsertPermutes(key, x, s[1..]);
      forall j | 0 <= j < |t| ensures key(s[0]) <= key(t[j]) {
        assert t[j] in multiset(s[1..]) + multiset{x};
        if t[j] != x {
          assert t[j] in s[1..];
        }
      }
    }
  }

  /**
   * The stable sort by ascending key: each element is inserted in front of
   * the already sorted elements that followed it, so equal keys keep their
   * input order.
   */
  function Sort<T>(key: T -> real, s: seq<T>): (r: seq<T>)
    ensures |r| == |s|
  {
    if |s| == 0 then []
    else Insert(key, s[0], Sort(key, s[1..]))
  }

  /** Sorting rearranges: the result holds each element as often as `s` does. */
  lemma {:induction false} SortPermutes<T>(key: T -> real, s: seq<T>)
    ensures multiset(Sort(key, s)) == multiset(s)
  {
    if |s| > 0 {
      SortPermutes(key, s[1..]);
      InsertPermutes(key, s[0], Sort(key, s[1..]));
      assert s == [s[0]] + s[1..];
    }
  }

  /** The result of sorting is sorted. */
  lemma {:induction false} SortSorted<T>(key: T -> real, s: seq<T>)
    ensures SortedBy(key, Sort(key, s))
  {
    if |s| > 0 {
      SortSorted(key, s[1..]);
      InsertSorted(key, s[0], Sort(key, s[1..]));
    }
  }

  /**
   * Position `i` of `s` comes before position `j` in a stable sort: its key
   * is smaller, or the keys are equal and `i` is earlier.
   */
  ghost predicate Precedes<T>(key: T -> real, s: seq<T>, i: int, j: int) {
    && 0 <= i < |s| && 0 <= j < |s|
    && (key(s[i]) < key(s[j]) || (key(s[i]) == key(s[j]) && i < j))
  }

  /**
   * `r` lists `s` through the positions `sigma`, and those positions run in
   * `Precedes` order; as `Precedes` is a strict total order on positions,
   * this determines `r` from `s` alone.
   */
  ghost predicate StableOrder<T>(key: T -> real, s: seq<T>, r: seq<T>, sigma: seq<int>) {
    && |sigma| == |s| && |r| == |s|
    && (forall m :: 0 <= m < |r| ==> 0 <= sigma[m] < |s| && r[m] == s[sigma[m]])
    && (forall m, k :: 0 <= m < k < |r| ==> Precedes(key, s, sigma[m], sigma[k]))
  }

  /** Positions in `s[1..]` shifted to positions in `s`. */
  function Shift(tau: seq<int>): (sigma: seq<int>)
    ensures |sigma| == |tau| && forall m :: 0 <= m < |tau| ==> sigma[m] == tau[m] + 1
  {
    seq(|tau|, m requires 0 <= m < |tau| => tau[m] + 1)
  }

  /** `Insert` places `x` after the leading elements of smaller key and before the first that is not smaller. */
  lemma {:induction false} InsertSplit<T>(key: T -> real, x: T, t: seq<T>) returns (p: nat)
    ensures p <= |t| && Insert(key, x, t) == t[..p] + [x] + t[p..]
    ensures forall k :: 0 <= k < p ==> key(t[k]) < key(x)
    ensures p < |t| ==> key(x) <= key(t[p])
    decreases |t|
  {
    if |t| == 0 || key(x) <= key(t[0]) {
      p := 0;
      assert t[..0] == [] && t[0..] == t;
    } else {
      var q := InsertSplit(key, x, t[1..]);
      p := q + 1;
      assert t[..p] == [t[0]] + t[1..][..q];
      assert t[p..] == t[1..][q..];
      forall k | 0 <= k < p ensures key(t[k]) < key(x) {
        if k > 0 {
          assert t[k] == t[1..][k - 1];
        }
      }
    }
  }

  /**
   * The sort is stable: its result lists `s` in `Precedes` order, by key
   * and, among equal keys, by position in `s`.
   */
  lemma {:induction false} SortStable<T>(key: T -> real, s: seq<T>) returns (sigma: seq<int>)
    ensures StableOrder(key, s, Sort(key, s), sigma)
    decreases |s|
  {
    if |s| == 0 {
      sigma := [];
    } else {
      var t := Sort(key, s[1..]);
      var tau := SortStable(key, s[1..]);
      SortSorted(key, s[1..]);
      var p := InsertSplit(key, s[0], t);
      sigma := Shift(tau)[..p] + [0] + Shift(tau)[p..];
      StableInsertStep(key, s, t, tau, p, sigma);
    }
  }

  /** The step of `SortStable`: inserting the first element keeps the stable order. */
  lemma StableInsertStep<T>(key: T -> real, s: seq<T>, t: seq<T>, tau: seq<int>, p: nat, sigma: seq<int>)
    requires |s| > 0 && StableOrder(key, s[1..], t, tau) && SortedBy(key, t)
    requires p <= |t| && (forall k :: 0 <= k < p ==> key(t[k]) < key(s[0]))
    requires p < |t| ==> key(s[0]) <= key(t[p])
    requires sigma == Shift(tau)[..p] + [0] + Shift(tau)[p..]
    ensures StableOrder(key, s, t[..p] + [s[0]] + t[p..], sigma)
  {
    var r := t[..p] + [s[0]] + t[p..];
    InsertedShape(t, tau, p, s[0], sigma);
    StableListing(key, s, t, tau, p, r, sigma);
    StablePrecedes(key, s, t, tau, p, r, sigma);
  }

  /** Where each position of the inserted list and of its positions comes from. */
  lemma InsertedShape<T>(t: seq<T>, tau: seq<int>, p: nat, x: T, sigma: seq<int>)
    requires |tau| == |t| && p <= |t|
    requires sigma == Shift(tau)[..p] + [0] + Shift(tau)[p..]
    ensures |sigma| == |t| + 1
    ensures forall m :: 0 <= m <= |t| ==>
      sigma[m] == InsertedAt(tau, p, m)
    ensures forall m :: 0 <= m <= |t| ==>
      (t[..p] + [x] + t[p..])[m] == (if m < p then t[m] else if m == p then x else t[m - 1])
  {
  }

  /** Position `m` of the insertion of position 0 at `p` into the shifted positions `tau`. */
  function InsertedAt(tau: seq<int>, p: nat, m: nat): int
    requires p <= |tau| && m <= |tau|
  {
    if m < p then tau[m] + 1 else if m == p then 0 else tau[m - 1] + 1
  }

  /** The inserted list lists `s` through `sigma`. */
  lemma StableListing<T>(key: T -> real, s: seq<T>, t: seq<T>, tau: seq<int>, p: nat, r: seq<T>, sigma: seq<int>)
    requires |s| > 0 && StableOrder(key, s[1..], t, tau) && p <= |t| && |r| == |sigma| == |s|
    requires forall m :: 0 <= m < |s| ==>
      sigma[m] == InsertedAt(tau, p, m)
    requires forall m :: 0 <= m < |s| ==>
      r[m] == (if m < p then t[m] else if m == p then s[0] else t[m - 1])
    ensures forall m :: 0 <= m < |r| ==> 0 <= sigma[m] < |s| && r[m] == s[sigma[m]]
  {
    forall m | 0 <= m < |r| ensures 0 <= sigma[m] < |s| && r[m] == s[sigma[m]] {
      assert sigma[m] == InsertedAt(tau, p, m);
      assert r[m] == (if m < p then t[m] else if m == p then s[0] else t[m - 1]);
      if m != p {
        var j := if m < p then m else m - 1;
        assert 0 <= tau[j] < |s[1..]| && t[j] == s[1..][tau[j]];
        assert s[1..][tau[j]] == s[tau[j] + 1];
      }
    }
  }

  /** The positions `sigma` of the inserted list run in `Precedes` order. */
  lemma StablePrecedes<T>(key: T -> real, s: seq<T>, t: seq<T>, tau: seq<int>, p: nat, r: seq<T>, sigma: seq<int>)
    requires |s| > 0 && StableOrder(key, s[1..], t, tau) && SortedBy(key, t)
    requires p <= |t| && (forall k :: 0 <= k < p ==> key(t[k]) < key(s[0]))
    requires p < |t| ==> key(s[0]) <= key(t[p])
    requires |r| == |sigma| == |s|
    requires forall m :: 0 <= m < |s| ==>
      sigma[m] == InsertedAt(tau, p, m)
    ensures forall m, k :: 0 <= m < k < |r| ==> Precedes(key, s, sigma[m], sigma[k])
  {
    forall m, k | 0 <= m < k < |r| ensures Precedes(key, s, sigma[m], sigma[k]) {
      assert sigma[m] == InsertedAt(tau, p, m) && sigma[k] == InsertedAt(tau, p, k);
      if m == p {
        assert key(t[p]) <= key(t[k - 1]);
        assert 0 <= tau[k - 1] < |s[1..]| && t[k - 1] == s[1..][tau[k - 1]];
        assert s[1..][tau[k - 1]] == s[sigma[k]];
      } else if k == p {
        assert 0 <= tau[m] < |s[1..]| && t[m] == s[1..][tau[m]];
        assert s[1..][tau[m]] == s[sigma[m]];
      } else {
        var a := if m < p then m else m - 1;
        var b := if k < p then k else k - 1;
        assert Precedes(key, s[1..], tau[a], tau[b]);
        assert s[1..][tau[a]] == s[sigma[m]] && s[1..][tau[b]] == s[sigma[k]];
      }
    }
  }

  /** `i` is the first position of least key in `s`. */
  ghost predicate FirstLeastAt<T>(key: T -> real, s: seq<T>, i: int) {
    && 0 <= i < |s|
    && (forall j :: 0 <= j < |s| ==> key(s[i]) <= key(s[j]))
    && (forall j :: 0 <= j < i ==> key(s[i]) < key(s[j]))
  }

  /** The sort puts first the earliest element of least key. */
  lemma {:induction false} SortHead<T>(key: T -> real, s: seq<T>) returns (i: nat)
    requires |s| > 0
    ensures FirstLeastAt(key, s, i) && Sort(key, s)[0] == s[i]
  {
    var r := Sort(key, s);
    if |s| == 1 {
      assert s == [s[0]] && r == [s[0]];
      i := 0;
    } else {
      var t := Sort(key, s[1..]);
      var k := SortHead(key, s[1..]);
      assert t[0] == s[k + 1];
      SortPermutes(key, s[1..]);
      SortSorted(key, s[1..]);
      LeastOfSorted(key, s[1..], t);
      if key(s[0]) <= key(t[0]) {
        i := 0;
      } else {
        i := k + 1;
      }
    }
  }

  /** The head of a sorted rearrangement of `s` has the least key in `s`. */
  lemma LeastOfSorted<T>(key: T -> real, s: seq<T>, t: seq<T>)
    requires |t| > 0 && multiset(t) == multiset(s) && SortedBy(key, t)
    ensures forall j :: 0 <= j < |s| ==> key(t[0]) <= key(s[j])
  {
    forall j | 0 <= j < |s| ensures key(t[0]) <= key(s[j]) {
      assert s[j] in multiset(t);
      var m :| 0 <= m < |t| && t[m] == s[j];
    }
  }

  /** Sorting a list already sorted by the key changes nothing (the sort is stable). */
  lemma {:induction false} SortOfSorted<T>(key: T -> real, s: seq<T>)
    requires SortedBy(key, s)
    ensures Sort(key, s) == s
  {
    if |s| > 0 {
      SortOfSorted(key, s[1..]);
      assert s == [s[0]] + s[1..];
    }
  }

  /** `i` is the first element accepted by `keep` whose key is least among the accepted ones. */
  ghost predicate FirstLeastKeptAt<T>(keep: T -> bool, key: T -> real, s: seq<T>, i: int) {
    && 0 <= i < |s|
    && keep(s[i])
    && (forall j :: 0 <= j < |s| && keep(s[j]) ==> key(s[i]) <= key(s[j]))
    && (forall j :: 0 <= j < i && keep(s[j]) ==> key(s[i]) < key(s[j]))
  }

  /** The first least element of the filtered list is the first least accepted element of `s`. */
  lemma {:induction false} FilterFirstLeast<T>(keep: T -> bool, key: T -> real, s: seq<T>, k: nat) returns (i: nat)
    requires FirstLeastAt(key, Filter(keep, s), k)
    ensures FirstLeastKeptAt(keep, key, s, i) && Filter(keep, s)[k] == s[i]
  {
    var f := Filter(keep, s);
    var rest := Filter(keep, s[1..]);
    if !keep(s[0]) {
      assert f == rest;
      var i' := FilterFirstLeast(keep, key, s[1..], k);
      KeptShift(keep, key, s, i');
      i := i' + 1;
    } else if k == 0 {
      assert f == [s[0]] + rest;
      forall j | 0 <= j < |s| && keep(s[j]) ensures key(s[0]) <= key(s[j]) {
        var m := FilterIndex(keep, s, j);
      }
      i := 0;
    } else {
      assert f == [s[0]] + rest;
      assert FirstLeastAt(key, rest, k - 1) by {
        assert forall j :: 0 <= j < |rest| ==> rest[j] == f[j + 1];
      }
      var i' := FilterFirstLeast(keep, key, s[1..], k - 1);
      assert key(f[k]) < key(f[0]);
      KeptShift(keep, key, s, i');
      i := i' + 1;
    }
  }

  /**
   * The first least accepted element of `s[1..]` is the first least
   * accepted element of `s` when `s[0]` is rejected or has a greater key.
   */
  lemma KeptShift<T>(keep: T -> bool, key: T -> real, s: seq<T>, i: nat)
    requires |s| > 0 && FirstLeastKeptAt(keep, key, s[1..], i)
    requires keep(s[0]) ==> key(s[i + 1]) < key(s[0])
    ensures FirstLeastKeptAt(keep, key, s, i + 1)
  {
    assert forall j :: 1 <= j < |s| ==> s[j] == s[1..][j - 1];
  }

  /** The head of filtering then sorting is the first least element among those `keep` accepts. */
  lemma FilterSortHead<T>(keep: T -> bool, key: T -> real, s: seq<T>) returns (i: nat)
    requires |Filter(keep, s)| > 0
    ensures FirstLeastKeptAt(keep, key, s, i) && Sort(key, Filter(keep, s))[0] == s[i]
  {
    var k := SortHead(key, Filter(keep, s));
    i := FilterFirstLeast(keep, key, s, k);
  }

  /** Sorting two elements swaps them exactly when the second has the smaller key. */
  lemma SortPair<T>(key: T -> real, u: T, v: T)
    ensures Sort(key, [u, v]) == if key(v) < key(u) then [v, u] else [u, v]
  {
    assert [u, v][1..] == [v];
    assert [v][1..] == [];
    assert Sort(key, [v]) == [v];
  }

  /** Inserting `a` in front of `b :: t`, where `a` belongs ahead of all of `t`. */
  lemma InsertAhead<T>(key: T -> real, a: T, b: T, t: seq<T>)
    requires |t| > 0 && key(a) <= key(t[0])
    ensures Insert(key, a, [b] + t) == (if key(b) < key(a) then [b, a] else [a, b]) + t
  {
    var bt := [b] + t;
    assert bt[0] == b && bt[1..] == t;
    if key(b) < key(a) {
      assert Insert(key, a, t) == [a] + t;
      assert Insert(key, a, bt) == [b] + ([a] + t);
      assert [b] + ([a] + t) == [b, a] + t;
    } else {
      assert Insert(key, a, bt) == [a] + bt;
      assert [a] + ([b] + t) == [a, b] + t;
    }
  }

  /** A first element whose key is least stays first. */
  lemma SortLeastFirst<T>(key: T -> real, b: T, c: T, d: T)
    requires key(b) <= key(c) && key(b) <= key(d)
    ensures Sort(key, [b, c, d]) == [b] + Sort(key, [c, d])
  {
    SortPair(key, c, d);
    assert [b, c, d][1..] == [c, d];
  }

  /**
   * When the first two elements have keys no greater than the last two, a
   * stable sort of four keeps the pairs apart: the first two come out as
   * the sorted first pair and the last two as the sorted last pair.
   */
  lemma SortSplitsPairs<T>(key: T -> real, a: T, b: T, c: T, d: T)
    requires key(a) <= key(c) && key(a) <= key(d) && key(b) <= key(c) && key(b) <= key(d)
    ensures Sort(key, [a, b, c, d]) == Sort(key, [a, b]) + Sort(key, [c, d])
  {
    SortPair(key, a, b);
    SortPair(key, c, d);
    SortLeastFirst(key, b, c, d);
    var cd := Sort(key, [c, d]);
    assert [a, b, c, d][1..] == [b, c, d];
    InsertAhead(key, a, b, cd);
  }
}
