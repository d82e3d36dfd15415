/**
 * The array helpers of src/lib/utilities.ts: cyclic indexing, counting,
 * grouping by a key, and the shoelace polygon area.
 */
module Utilities {
  import opened Wrappers
  import opened Geometry

  /** JavaScript's `%` on numbers: truncates toward zero, so the remainder takes the dividend's sign. */
  function JsRem(a: int, m: int): (r: int)
    requires m > 0
    ensures a >= 0 ==> r == a % m
    ensures a < 0 ==> -m < r <= 0
  {
    if a >= 0 then a % m else -((-a) % m)
  }

  lemma {:induction false} MulAtLeast(m: int, k: int)
    requires m > 0 && k >= 1
    ensures m * k >= m
    decreases k
  {
    if k > 1 {
      MulAtLeast(m, k - 1);
      assert m * k == m * (k - 1) + m;
    }
  }

  /** Euclidean division is unique: the remainder is pinned down by any quotient that fits. */
  lemma ModUnique(y: int, m: int, q: int, r: int)
    requires m > 0 && 0 <= r < m && y == m * q + r
    ensures y % m == r
  {
    var q', r' := y / m, y % m;
    assert y == m * q' + r';
    if q' < q {
      assert m * q - m * q' == m * (q - q');
      MulAtLeast(m, q - q');
    } else if q' > q {
      assert m * q' - m * q == m * (q' - q);
      MulAtLeast(m, q' - q);
    }
  }

  /** utilities.crawlArray: the index `index + n` wrapped into the array (NaN, here `None`, when it is empty). */
  function CrawlArray<T>(items: seq<T>, index: int, n: int): (r: Option<int>)
    ensures r.None? <==> |items| == 0
    ensures r.Some? ==> 0 <= r.value < |items| && r.value == (index + n) % |items|
  {
    if |items| == 0 then None
    else
      var len := |items|;
      var inner := JsRem(index + n, len);
      JsRemFixesEuclid(index + n, len);
      Some(JsRem(inner + len, len))
  }

  /** Adding the length once more and taking the JavaScript remainder again yields the Euclidean remainder. */
  lemma JsRemFixesEuclid(x: int, m: int)
    requires m > 0
    ensures JsRem(JsRem(x, m) + m, m) == x % m
  {
    if x >= 0 {
      var r := x % m;
      ModUnique(x, m, x / m, r);
      ModUnique(r + m, m, 1, r);
    } else {
      var q, r' := (-x) / m, (-x) % m;
      assert -x == m * q + r';
      if r' == 0 {
        ModUnique(m, m, 1, 0);
        ModUnique(x, m, -q, 0);
      } else {
        ModUnique(m - r', m, 0, m - r');
        ModUnique(x, m, -q - 1, m - r');
      }
    }
  }

  /** Crawling one step past either end wraps around to the other end. */
  lemma CrawlArrayWraps<T>(items: seq<T>)
    requires |items| > 0
    ensures CrawlArray(items, |items| - 1, 1) == Some(0)
    ensures CrawlArray(items, 0, -1) == Some(|items| - 1)
  {
    ModUnique(|items|, |items|, 1, 0);
    ModUnique(-1, |items|, -1, |items| - 1);
  }

  /** Crawling `n` steps and then `-n` steps returns to the start index. */
  lemma CrawlArrayRoundTrip<T>(items: seq<T>, index: int, n: int)
    requires 0 <= index < |items|
    ensures CrawlArray(items, CrawlArray(items, index, n).value, -n) == Some(index)
  {
    var m := |items|;
    var r := (index + n) % m;
    var q := (index + n) / m;
    assert index + n == m * q + r;
    ModUnique(r - n, m, -q, index);
  }

  /** utilities.getOccurrence: the number of elements equal to `value`. */
  function Occurrence<T(==)>(items: seq<T>, value: T): (r: nat)
    ensures r <= |items|
  {
    if |items| == 0 then 0
    else Occurrence(items[..|items| - 1], value) + (if items[|items| - 1] == value then 1 else 0)
  }

  /** The positions holding `value`. */
  ghost function Positions<T>(items: seq<T>, value: T): set<int>
  {
    set i | 0 <= i < |items| && items[i] == value
  }

  /** The occurrence count equals both the number of positions holding the value and its multiplicity. */
  lemma {:induction false} OccurrenceCountsPositions<T>(items: seq<T>, value: T)
    ensures Occurrence(items, value) == |Positions(items, value)|
    ensures Occurrence(items, value) == multiset(items)[value]
  {
    if |items| > 0 {
      var n := |items| - 1;
      var front := items[..n];
      OccurrenceCountsPositions(front, value);
      assert items == front + [items[n]];
      if items[n] == value {
        assert Positions(items, value) == Positions(front, value) + {n};
      } else {
        assert Positions(items, value) == Positions(front, value);
      }
    }
  }

  /** The elements of `items` whose key is `key`, in their order. */
  function WithKey<T, K(==)>(keyOf: T -> K, items: seq<T>, key: K): (r: seq<T>)
    ensures |r| <= |items|
    ensures forall x :: x in r ==> keyOf(x) == key && x in items
  {
    if |items| == 0 then []
    else
      var front := WithKey(keyOf, items[..|items| - 1], key);
      if keyOf(items[|items| - 1]) == key then front + [items[|items| - 1]] else front
  }

  /** A key that no element has selects nothing. */
  lemma {:induction false} WithKeyAbsent<T, K>(keyOf: T -> K, items: seq<T>, key: K)
    requires forall j :: 0 <= j < |items| ==> keyOf(items[j]) != key
    ensures WithKey(keyOf, items, key) == []
  {
    if |items| > 0 {
      var n := |items| - 1;
      assert forall j :: 0 <= j < n ==> items[..n][j] == items[j];
      WithKeyAbsent(keyOf, items[..n], key);
    }
  }

  /** A grouping lists each key at most once. */
  ghost predicate DistinctKeys<K, T>(groups: seq<(K, seq<T>)>)
  {
    forall i, j :: 0 <= i < j < |groups| ==> groups[i].0 != groups[j].0
  }

  ghost predicate HasKey<K, T>(groups: seq<(K, seq<T>)>, key: K)
  {
    exists i :: 0 <= i < |groups| && groups[i].0 == key
  }

  /** `acc[value] = (acc[value] || []).concat(obj)`: append to the key's group, or open a new group at the end. */
  function AddToGroup<K(==), T>(groups: seq<(K, seq<T>)>, key: K, x: T): (r: seq<(K, seq<T>)>)
    requires DistinctKeys(groups)
    ensures DistinctKeys(r)
    ensures |r| == if HasKey(groups, key) then |groups| else |groups| + 1
    ensures forall i :: 0 <= i < |groups| ==> r[i].0 == groups[i].0
    ensures forall i :: 0 <= i < |groups| && groups[i].0 != key ==> r[i] == groups[i]
    ensures forall i :: 0 <= i < |r| && r[i].0 == key ==>
      r[i].1 == (if i < |groups| then groups[i].1 else []) + [x]
    ensures forall i :: |groups| <= i < |r| ==> r[i] == (key, [x])
  {
    if |groups| == 0 then [(key, [x])]
    else
      var g0, tail := groups[0], groups[1..];
      assert forall i :: 0 <= i < |tail| ==> tail[i] == groups[i + 1];
      if g0.0 == key then
        [(key, g0.1 + [x])] + tail
      else
        var rest := AddToGroup(tail, key, x);
        assert HasKey(groups, key) <==> HasKey(tail, key) by {
          if HasKey(groups, key) {
            var i :| 0 <= i < |groups| && groups[i].0 == key;
            assert tail[i - 1].0 == key;
          }
          if HasKey(tail, key) {
            var i :| 0 <= i < |tail| && tail[i].0 == key;
            assert groups[i + 1].0 == key;
          }
        }
        [g0] + rest
  }

  /**
   * utilities.groupBy: an object keyed by each element's key, modelled as a list of (key, group)
   * pairs with the groups in the order their keys first occur. A JavaScript object lists
   * integer-like keys first, in numeric order, so the two orders can differ.
   */
  function GroupBy<T, K(==)>(keyOf: T -> K, items: seq<T>): (r: seq<(K, seq<T>)>)
    ensures DistinctKeys(r)
  {
    if |items| == 0 then []
    else
      var n := |items| - 1;
      AddToGroup(GroupBy(keyOf, items[..n]), keyOf(items[n]), items[n])
  }

  /** The sum of the group sizes. */
  function TotalSize<K, T>(groups: seq<(K, seq<T>)>): nat
  {
    if |groups| == 0 then 0 else |groups[0].1| + TotalSize(groups[1..])
  }

  lemma {:induction false} TotalSizeAdd<K, T>(groups: seq<(K, seq<T>)>, key: K, x: T)
    requires DistinctKeys(groups)
    ensures TotalSize(AddToGroup(groups, key, x)) == TotalSize(groups) + 1
  {
    if |groups| > 0 {
      var g0, tail := groups[0], groups[1..];
      var r := AddToGroup(groups, key, x);
      assert r[1..] == if g0.0 == key then tail else AddToGroup(tail, key, x);
      assert forall i :: 0 <= i < |tail| ==> tail[i] == groups[i + 1];
      if g0.0 != key {
        TotalSizeAdd(tail, key, x);
      }
    }
  }

  /** Every element's key names a group. */
  lemma {:induction false} GroupByCoversKeys<T, K>(keyOf: T -> K, items: seq<T>)
    ensures forall j :: 0 <= j < |items| ==> HasKey(GroupBy(keyOf, items), keyOf(items[j]))
  {
    if |items| > 0 {
      var n := |items| - 1;
      var g0 := GroupBy(keyOf, items[..n]);
      var g := GroupBy(keyOf, items);
      GroupByCoversKeys(keyOf, items[..n]);
      forall j | 0 <= j < |items|
        ensures HasKey(g, keyOf(items[j]))
      {
        if j < n {
          assert items[j] == items[..n][j];
          var i :| 0 <= i < |g0| && g0[i].0 == keyOf(items[j]);
          assert g[i].0 == keyOf(items[j]);
        } else if HasKey(g0, keyOf(items[n])) {
          var i :| 0 <= i < |g0| && g0[i].0 == keyOf(items[n]);
          assert g[i].0 == keyOf(items[j]);
        } else {
          assert g[|g0|].0 == keyOf(items[j]);
        }
      }
    }
  }

  /** Each group is the non-empty list of the elements with its key, in their original order. */
  ghost predicate GroupsByKey<T, K>(keyOf: T -> K, items: seq<T>, g: seq<(K, seq<T>)>)
  {
    forall i :: 0 <= i < |g| ==> g[i].1 == WithKey(keyOf, items, g[i].0) && |g[i].1| > 0
  }

  /** An element only ever lands in the group of its own key, in its original order, and no group is empty. */
  lemma {:induction false} GroupByGroupsByKey<T, K>(keyOf: T -> K, items: seq<T>)
    ensures GroupsByKey(keyOf, items, GroupBy(keyOf, items))
  {
    if |items| > 0 {
      var n := |items| - 1;
      var front := items[..n];
      var key := keyOf(items[n]);
      GroupByGroupsByKey(keyOf, front);
      GroupByCoversKeys(keyOf, front);
      var g0 := GroupBy(keyOf, front);
      var g := GroupBy(keyOf, items);
      assert forall k :: 0 <= k < |g0| ==> g0[k].1 == WithKey(keyOf, front, g0[k].0);
      forall i | 0 <= i < |g|
        ensures g[i].1 == WithKey(keyOf, items, g[i].0) && |g[i].1| > 0
      {
        assert g == AddToGroup(g0, key, items[n]);
        if i < |g0| {
          if g0[i].0 == key {
            assert WithKey(keyOf, items, key) == WithKey(keyOf, front, key) + [items[n]];
            assert g0[i].1 == WithKey(keyOf, front, key);
            assert g[i].1 == g0[i].1 + [items[n]];
            assert g[i].1 == WithKey(keyOf, items, g[i].0);
          } else {
            assert WithKey(keyOf, items, g0[i].0) == WithKey(keyOf, front, g0[i].0);
            assert g[i] == g0[i];
            assert g0[i].1 == WithKey(keyOf, front, g0[i].0);
            assert |g0[i].1| > 0;
          }
        } else {
          assert !HasKey(g0, key);
          assert g[i] == (key, [items[n]]);
          var w := WithKey(keyOf, front, key);
          assert forall j :: 0 <= j < |front| ==> keyOf(front[j]) != key by {
            forall j | 0 <= j < |front|
              ensures keyOf(front[j]) != key
            {
              assert HasKey(g0, keyOf(front[j]));
            }
          }
          WithKeyAbsent(keyOf, front, key);
          assert WithKey(keyOf, items, key) == w + [items[n]];
          assert w == [];
          assert w + [items[n]] == [items[n]];
          assert g[i].1 == WithKey(keyOf, items, g[i].0);
        }
      }
    }
  }

  /** The group sizes add up to the number of elements. */
  lemma {:induction false} GroupBySizes<T, K>(keyOf: T -> K, items: seq<T>)
    ensures TotalSize(GroupBy(keyOf, items)) == |items|
  {
    if |items| > 0 {
      var n := |items| - 1;
      GroupBySizes(keyOf, items[..n]);
      TotalSizeAdd(GroupBy(keyOf, items[..n]), keyOf(items[n]), items[n]);
    }
  }

  /**
   * Every element lands in exactly one group: the keys are distinct, each group holds exactly the
   * elements with its key in their original order, every element's key names a group, and the
   * group sizes add up to the number of elements.
   */
  lemma GroupByPartitions<T, K>(keyOf: T -> K, items: seq<T>)
    ensures var g := GroupBy(keyOf, items);
      && DistinctKeys(g)
      && GroupsByKey(keyOf, items, g)
      && (forall j :: 0 <= j < |items| ==> HasKey(g, keyOf(items[j])))
      && TotalSize(g) == |items|
  {
    GroupByCoversKeys(keyOf, items);
    GroupByGroupsByKey(keyOf, items);
    GroupBySizes(keyOf, items);
  }

  /** The shoelace term of point `i` and its successor, the last point wrapping to the first. */
  function ShoelaceTerm(points: seq<Point>, i: nat): real
    requires i < |points|
  {
    var j := if i == |points| - 1 then 0 else i + 1;
    points[i].x * points[j].y * 0.5 - points[j].x * points[i].y * 0.5
  }

  function Terms(points: seq<Point>): (r: seq<real>)
    ensures |r| == |points|
  {
    seq(|points|, i requires 0 <= i < |points| => ShoelaceTerm(points, i))
  }

  function Sum(s: seq<real>): real
  {
    if |s| == 0 then 0.0 else Sum(s[..|s| - 1]) + s[|s| - 1]
  }

  /** The signed area: positive for a counter-clockwise ring. */
  function SignedArea(points: seq<Point>): real
  {
    Sum(Terms(points))
  }

  function Abs(r: real): real
  {
    if r < 0.0 then -r else r
  }

  /** utilities.getPolygonArea: accumulates the shoelace terms and returns their absolute value. */
  method GetPolygonArea(points: seq<Point>) returns (area: real)
    ensures area == Abs(SignedArea(points))
    ensures area >= 0.0
  {
    var total := 0.0;
    var i := 0;
    while i < |points|
      invariant 0 <= i <= |points|
      invariant total == Sum(Terms(points)[..i])
    {
      var j := if i == |points| - 1 then 0 else i + 1;
      var addX := points[i].x;
      var addY := points[j].y;
      var subX := points[j].x;
      var subY := points[i].y;
      total := total + addX * addY * 0.5;
      total := total - subX * subY * 0.5;
      assert Terms(points)[..i + 1][..i] == Terms(points)[..i];
      i := i + 1;
    }
    assert Terms(points)[..|points|] == Terms(points);
    area := Abs(total);
  }

  lemma {:induction false} SumAppend(a: seq<real>, b: seq<real>)
    ensures Sum(a + b) == Sum(a) + Sum(b)
  {
    if |b| == 0 {
      assert a + b == a;
    } else {
      var n := |b| - 1;
      assert (a + b)[..|a + b| - 1] == a + b[..n];
      SumAppend(a, b[..n]);
    }
  }

  lemma {:induction false} SumReverseNegated(s: seq<real>, t: seq<real>)
    requires |t| == |s|
    requires forall i :: 0 <= i < |s| ==> t[i] == -s[|s| - 1 - i]
    ensures Sum(t) == -Sum(s)
  {
    if |s| > 0 {
      var n := |s| - 1;
      assert t == [t[0]] + t[1..];
      SumAppend([t[0]], t[1..]);
      assert Sum([t[0]]) == Sum([]) + t[0];
      SumReverseNegated(s[..n], t[1..]);
    }
  }

  /** Fewer than three points enclose no area. */
  lemma DegenerateArea(points: seq<Point>)
    requires |points| < 3
    ensures SignedArea(points) == 0.0
  {
    var t := Terms(points);
    if |points| == 1 {
      assert t[0] == 0.0;
      assert Sum(t) == Sum(t[..0]) + t[0];
    } else if |points| == 2 {
      assert t[0] == -t[1];
      assert t[..1][..0] == t[..0];
      assert Sum(t) == Sum(t[..1]) + t[1] == Sum(t[..0]) + t[0] + t[1];
    }
  }

  /** Walking the ring the other way round negates the signed area, so the area is unchanged. */
  lemma AreaOfReversedRing(points: seq<Point>)
    ensures SignedArea(Reverse(points)) == -SignedArea(points)
    ensures Abs(SignedArea(Reverse(points))) == Abs(SignedArea(points))
  {
    var n := |points|;
    if n > 0 {
      var rev := Reverse(points);
      var t, t' := Terms(points), Terms(rev);
      forall i | 0 <= i < n - 1
        ensures t'[i] == -t[..n - 1][n - 2 - i]
      {
        assert rev[i] == points[n - 1 - i] && rev[i + 1] == points[n - 2 - i];
      }
      assert rev[n - 1] == points[0] && rev[0] == points[n - 1];
      if n > 1 {
        assert t'[n - 1] == -t[n - 1];
      }
      SumReverseNegated(t[..n - 1], t'[..n - 1]);
      assert t'[..n - 1] + [t'[n - 1]] == t';
      assert t[..n - 1] + [t[n - 1]] == t;
      SumAppend(t'[..n - 1], [t'[n - 1]]);
      SumAppend(t[..n - 1], [t[n - 1]]);
      assert Sum([t'[n - 1]]) == Sum([]) + t'[n - 1];
      assert Sum([t[n - 1]]) == Sum([]) + t[n - 1];
    }
  }

  /** Starting the ring at the second point permutes the terms cyclically. */
  lemma TermsOfRotation(points: seq<Point>)
    requires |points| > 0
    ensures Terms(points[1..] + [points[0]]) == Terms(points)[1..] + [Terms(points)[0]]
  {
    var n := |points|;
    var rot := points[1..] + [points[0]];
    var t := Terms(points);
    forall i | 0 <= i < n
      ensures Terms(rot)[i] == (t[1..] + [t[0]])[i]
    {
      if i < n - 1 {
        assert rot[i] == points[i + 1];
        if i < n - 2 {
          assert rot[i + 1] == points[i + 2];
        }
      } else {
        assert rot[i] == points[0];
        if n > 1 {
          assert rot[0] == points[1];
        }
      }
    }
  }

  /** The area does not depend on which point of the ring comes first. */
  lemma {:induction false} AreaOfRotatedRing(points: seq<Point>, k: nat)
    requires k <= |points|
    ensures SignedArea(points[k..] + points[..k]) == SignedArea(points)
  {
    if k == 0 {
      assert points[0..] + points[..0] == points;
    } else {
      var prevRot := points[k - 1..] + points[..k - 1];
      AreaOfRotatedRing(points, k - 1);
      TermsOfRotation(prevRot);
      assert prevRot[1..] + [prevRot[0]] == points[k..] + points[..k];
      var t := Terms(prevRot);
      assert t == [t[0]] + t[1..];
      SumAppend([t[0]], t[1..]);
      SumAppend(t[1..], [t[0]]);
      assert Sum([t[0]]) == Sum([]) + t[0];
    }
  }
}
