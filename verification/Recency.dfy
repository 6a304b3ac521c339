/** Bounded most-recently-used lists: the declarative meaning of the time-stamp
    replacement used by the caches and by the TLB. Position 0 is the most recent. */
module Recency {

  function Take<T>(s: seq<T>, n: nat): seq<T> {
    if |s| <= n then s else s[..n]
  }

  /** Uses item `x`, found at position `k` (`k == |s|` when absent): it moves to the
      front, and an absent item displaces the last one of a full list. */
  function Use<T>(s: seq<T>, k: nat, x: T, cap: nat): seq<T> {
    if k < |s| then [x] + s[..k] + s[k + 1..] else Take([x] + s, cap)
  }

  /** Stack property of one step: the shorter list stays a prefix of the longer one. */
  lemma UseKeepsPrefix<T>(s: seq<T>, k: nat, x: T, a: nat, b: nat)
    requires a <= b && |s| <= b && k <= |s|
    ensures Take(Use(s, k, x, b), a) == Use(Take(s, a), if k < a then k else |Take(s, a)|, x, a)
  {
    if k < |s| {
      if k < a {
        assert Take(s, a)[..k] == s[..k];
      } else {
        assert Take([x] + Take(s, a), a) == Take([x] + s[..k] + s[k + 1..], a);
      }
    } else {
      assert Take(Take([x] + s, b), a) == Take([x] + Take(s, a), a);
    }
  }

  function IndexOf<T(==)>(s: seq<T>, x: T): (k: nat)
    ensures k <= |s|
    ensures k < |s| ==> s[k] == x
    ensures x !in s[..k]
    ensures k < |s| <==> x in s
  {
    if s == [] then 0
    else if s[0] == x then 0
    else
      var k := 1 + IndexOf(s[1..], x);
      assert s[..k] == [s[0]] + s[1..][..k - 1];
      k
  }

  function Touch<T(==)>(s: seq<T>, x: T, cap: nat): seq<T> {
    Use(s, IndexOf(s, x), x, cap)
  }

  function Elems<T>(s: seq<T>): set<T> {
    set x | x in s
  }

  predicate Distinct<T(==)>(s: seq<T>) {
    forall i, j :: 0 <= i < j < |s| ==> s[i] != s[j]
  }

  /** The list of capacity `cap` after the accesses of `trace`, starting empty. */
  function Lru<T(==)>(trace: seq<T>, cap: nat): seq<T> {
    if trace == [] then []
    else
      var n := |trace| - 1;
      Touch(Lru(trace[..n], cap), trace[n], cap)
  }

  /** Number of accesses of `trace` whose item was not in the list of capacity `cap`. */
  function Misses<T(==)>(trace: seq<T>, cap: nat): nat {
    if trace == [] then 0
    else
      var n := |trace| - 1;
      Misses(trace[..n], cap) + if trace[n] in Lru(trace[..n], cap) then 0 else 1
  }

  /** The accesses after the last access to `x`. */
  function Since<T(==)>(trace: seq<T>, x: T): seq<T> {
    if trace == [] then []
    else
      var n := |trace| - 1;
      if trace[n] == x then [] else Since(trace[..n], x) + [trace[n]]
  }

  lemma {:induction false} SinceIsSuffix<T>(trace: seq<T>, x: T)
    requires x in trace
    ensures x !in Since(trace, x) && |Since(trace, x)| < |trace|
    ensures trace == trace[..|trace| - |Since(trace, x)| - 1] + [x] + Since(trace, x)
  {
    var n := |trace| - 1;
    assert trace == trace[..n] + [trace[n]];
    if trace[n] != x {
      SinceIsSuffix(trace[..n], x);
      var m := n - |Since(trace[..n], x)| - 1;
      assert trace[..n][..m] == trace[..m];
    }
  }

  lemma TouchShape<T>(s: seq<T>, x: T, cap: nat)
    requires Distinct(s) && |s| <= cap
    ensures Distinct(Touch(s, x, cap)) && |Touch(s, x, cap)| <= cap
    ensures |s| < cap ==> Elems(Touch(s, x, cap)) == Elems(s) + {x}
    ensures |s| < cap ==> |Touch(s, x, cap)| == |s| + (if x in s then 0 else 1)
    ensures cap > 0 ==> Touch(s, x, cap) != [] && Touch(s, x, cap)[0] == x
  {
    var k := IndexOf(s, x);
    var t := Touch(s, x, cap);
    if k < |s| {
      assert s == s[..k] + [x] + s[k + 1..];
      forall y ensures y in s <==> y in t {
        if y in s {
          var i :| 0 <= i < |s| && s[i] == y;
          assert i == k || (i < k && s[i] in s[..k]) || (i > k && s[k + 1..][i - k - 1] == y);
        }
      }
    } else if |s| < cap {
      assert t == [x] + s;
    }
  }

  lemma {:induction false} LruShape<T>(trace: seq<T>, cap: nat)
    ensures Distinct(Lru(trace, cap)) && |Lru(trace, cap)| <= cap
    ensures |Lru(trace, cap)| <= |trace|
  {
    if trace != [] {
      var n := |trace| - 1;
      LruShape(trace[..n], cap);
      TouchShape(Lru(trace[..n], cap), trace[n], cap);
    }
  }

  lemma DistinctCount<T>(s: seq<T>)
    requires Distinct(s)
    ensures |Elems(s)| == |s|
  {
    if s != [] {
      var n := |s| - 1;
      DistinctCount(s[..n]);
      assert s == s[..n] + [s[n]];
      assert Elems(s) == Elems(s[..n]) + {s[n]};
    }
  }

  /** Stack inclusion over whole traces: the list of the smaller capacity is always the
      beginning of the list of the larger one. */
  lemma {:induction false} Inclusion<T>(trace: seq<T>, a: nat, b: nat)
    requires a <= b
    ensures Lru(trace, a) == Take(Lru(trace, b), a)
  {
    if trace != [] {
      var n := |trace| - 1;
      Inclusion(trace[..n], a, b);
      LruShape(trace[..n], b);
      TouchPrefix(Lru(trace[..n], b), trace[n], a, b);
    }
  }

  lemma TouchPrefix<T>(s: seq<T>, x: T, a: nat, b: nat)
    requires a <= b && |s| <= b
    ensures Touch(Take(s, a), x, a) == Take(Touch(s, x, b), a)
  {
    var k, j := IndexOf(s, x), IndexOf(Take(s, a), x);
    UseKeepsPrefix(s, k, x, a, b);
    if k < a && k < |s| {
      assert Take(s, a)[..k] == s[..k];
      FirstPlace(Take(s, a), x, k);
    } else {
      assert Take(s, a) <= s[..k];
    }
  }

  lemma FirstPlace<T>(s: seq<T>, x: T, m: nat)
    requires m < |s| && s[m] == x && x !in s[..m]
    ensures IndexOf(s, x) == m
  {
    var k := IndexOf(s, x);
    assert s[k] == x;
    assert forall i | 0 <= i < m :: s[i] == s[..m][i];
    assert forall i | 0 <= i < k :: s[i] == s[..k][i];
  }

  /** What precedes `x` in the unbounded list is exactly what was accessed since `x`. */
  lemma {:induction false} BeforeIsSince<T>(trace: seq<T>, x: T, cap: nat)
    requires x in trace && |trace| <= cap
    ensures x in Lru(trace, cap)
    ensures Elems(Lru(trace, cap)[..IndexOf(Lru(trace, cap), x)]) == Elems(Since(trace, x))
  {
    var n := |trace| - 1;
    var y := trace[n];
    var s := Lru(trace[..n], cap);
    LruShape(trace[..n], cap);
    TouchShape(s, y, cap);
    var t := Lru(trace, cap);
    assert trace == trace[..n] + [y];
    if y == x {
      assert t[0] == x;
      assert IndexOf(t, x) == 0;
    } else {
      BeforeIsSince(trace[..n], x, cap);
      TouchBefore(s, x, y, cap);
      var since := Since(trace[..n], x);
      assert Elems(since + [y]) == Elems(since) + {y};
    }
  }

  lemma TouchBefore<T>(s: seq<T>, x: T, y: T, cap: nat)
    requires Distinct(s) && |s| < cap && x in s && x != y
    ensures x in Touch(s, y, cap)
    ensures Elems(Touch(s, y, cap)[..IndexOf(Touch(s, y, cap), x)]) == Elems(s[..IndexOf(s, x)]) + {y}
  {
    var i, k := IndexOf(s, x), IndexOf(s, y);
    TouchShape(s, y, cap);
    if k < i {
      FrontFromBefore(s, i, k, cap);
      PlaceIsIndex(Use(s, k, y, cap), x, i);
    } else {
      FrontFromAfter(s, i, k, y, cap);
      PlaceIsIndex(Use(s, k, y, cap), x, i + 1);
    }
  }

  lemma FrontFromBefore<T>(s: seq<T>, i: nat, k: nat, cap: nat)
    requires k < i < |s|
    ensures Use(s, k, s[k], cap)[i] == s[i]
    ensures Elems(Use(s, k, s[k], cap)[..i]) == Elems(s[..i]) + {s[k]}
  {
    var t := Use(s, k, s[k], cap);
    assert t[..i] == [s[k]] + s[..k] + s[k + 1..i];
    assert s[..i] == s[..k] + [s[k]] + s[k + 1..i];
    SameElems(t[..i], [s[k]], s[..k], s[k + 1..i], s[..i]);
    assert s[k] in [s[k]];
  }

  lemma FrontFromAfter<T>(s: seq<T>, i: nat, k: nat, y: T, cap: nat)
    requires i < k <= |s| < cap && (k < |s| ==> s[k] == y)
    ensures |Use(s, k, y, cap)| > i + 1 && Use(s, k, y, cap)[i + 1] == s[i]
    ensures Elems(Use(s, k, y, cap)[..i + 1]) == Elems(s[..i]) + {y}
  {
    assert Use(s, k, y, cap)[..i + 1] == [y] + s[..i];
  }

  lemma SameElems<T>(t: seq<T>, a: seq<T>, b: seq<T>, c: seq<T>, u: seq<T>)
    requires t == a + b + c && u == b + a + c
    ensures Elems(t) == Elems(u) && Elems(a) <= Elems(u)
  {
    assert forall z :: z in t <==> z in a || z in b || z in c;
    assert forall z :: z in u <==> z in a || z in b || z in c;
  }

  lemma PlaceIsIndex<T>(s: seq<T>, x: T, m: nat)
    requires Distinct(s) && m < |s| && s[m] == x
    ensures IndexOf(s, x) == m
  {
    var k := IndexOf(s, x);
    assert s[k] == s[m];
  }

  /** Reuse distance: a list of capacity `cap` holds `x` exactly when `x` was accessed and
      fewer than `cap` distinct other items were accessed since. */
  lemma ReuseDistance<T>(trace: seq<T>, x: T, cap: nat)
    ensures x in Lru(trace, cap) <==> x in trace && |Elems(Since(trace, x))| < cap
  {
    var wide := if cap <= |trace| then |trace| else cap;
    Inclusion(trace, cap, wide);
    LruShape(trace, wide);
    var t := Lru(trace, wide);
    if x in trace {
      BeforeIsSince(trace, x, wide);
      DistinctCount(t[..IndexOf(t, x)]);
      InPrefix(t, x, cap);
    } else {
      LruMembers(trace, wide);
    }
  }

  lemma InPrefix<T>(s: seq<T>, x: T, cap: nat)
    requires Distinct(s) && x in s
    ensures x in Take(s, cap) <==> IndexOf(s, x) < cap
  {
    var k := IndexOf(s, x);
    if k < cap {
      assert Take(s, cap)[k] == x;
    }
    if x in Take(s, cap) {
      var j :| 0 <= j < |Take(s, cap)| && Take(s, cap)[j] == x;
      PlaceIsIndex(s, x, j);
    }
  }

  lemma {:induction false} LruMembers<T>(trace: seq<T>, cap: nat)
    ensures Elems(Lru(trace, cap)) <= Elems(trace)
    ensures |trace| <= cap ==> Elems(Lru(trace, cap)) == Elems(trace)
  {
    if trace != [] {
      var n := |trace| - 1;
      LruMembers(trace[..n], cap);
      LruShape(trace[..n], cap);
      TouchShape(Lru(trace[..n], cap), trace[n], cap);
      TouchMembers(Lru(trace[..n], cap), trace[n], cap);
      assert trace == trace[..n] + [trace[n]];
      assert Elems(trace) == Elems(trace[..n]) + {trace[n]};
    }
  }

  lemma TouchMembers<T>(s: seq<T>, x: T, cap: nat)
    ensures Elems(Touch(s, x, cap)) <= Elems(s) + {x}
  {
  }

  /** Compulsory misses: each distinct item misses at least once, and exactly once when the
      list is long enough for all of them. */
  lemma {:induction false} ColdMisses<T>(trace: seq<T>, cap: nat)
    ensures Misses(trace, cap) >= |Elems(trace)|
    ensures |Elems(trace)| <= cap ==> Misses(trace, cap) == |Elems(trace)|
  {
    if trace != [] {
      var n := |trace| - 1;
      var front, y := trace[..n], trace[n];
      ColdMisses(front, cap);
      LruMembers(front, cap);
      assert trace == front + [y];
      assert Elems(trace) == Elems(front) + {y};
      if y in front {
        assert Elems(trace) == Elems(front);
        assert Elems(Since(front, y)) < Elems(front) by { SinceIsSuffix(front, y); }
        SubsetSize(Elems(Since(front, y)), Elems(front));
        ReuseDistance(front, y, cap);
      } else {
        assert y !in Elems(Lru(front, cap));
      }
    }
  }

  lemma SubsetSize<T>(a: set<T>, b: set<T>)
    requires a < b
    ensures |a| < |b|
  {
    assert b == a + (b - a);
    assert |b| == |a| + |b - a|;
  }
}
