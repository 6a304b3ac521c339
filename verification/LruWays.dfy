/** One set of a set-associative store with time-stamp replacement, shared by the caches
    and the TLB, and its refinement to a most-recently-used list. */
module LruWays {
  import opened Recency

  datatype Way = Way(valid: bool, tag: nat, stamp: nat)

  /** `order` lists the valid ways by falling stamp; valid ways carry different tags and
      no stamp lies in the future. */
  ghost predicate Orders(ways: seq<Way>, order: seq<nat>, now: nat) {
    && (forall k | 0 <= k < |order| :: order[k] < |ways| && ways[order[k]].valid)
    && (forall i | 0 <= i < |ways| && ways[i].valid :: i in order && ways[i].stamp <= now)
    && (forall k, l {:trigger Before(k, l)} | 0 <= k && Before(k, l) && l < |order| ::
          ways[order[k]].stamp > ways[order[l]].stamp && ways[order[k]].tag != ways[order[l]].tag)
  }

  /** Position `k` comes before position `l`. */
  predicate Before(k: int, l: int) {
    k < l
  }

  function Gather<T>(items: seq<T>, order: seq<nat>): (r: seq<T>)
    requires forall k | 0 <= k < |order| :: order[k] < |items|
    ensures |r| == |order| && forall k | 0 <= k < |r| :: r[k] == items[order[k]]
  {
    seq(|order|, k requires 0 <= k < |order| => items[order[k]])
  }

  /** The tags of the valid ways, most recently used first. */
  ghost function Tags(ways: seq<Way>, order: seq<nat>): (r: seq<nat>)
    requires forall k | 0 <= k < |order| :: order[k] < |ways|
    ensures |r| == |order| && forall k | 0 <= k < |r| :: r[k] == ways[order[k]].tag
  {
    seq(|order|, k requires 0 <= k < |order| => ways[order[k]].tag)
  }

  /** Position of way `w` in the order, `|order|` when it is invalid. */
  ghost function Place(order: seq<nat>, w: nat): nat {
    IndexOf(order, w)
  }

  /** `s` without its item at position `k`, if there is one. */
  ghost function Rest<T>(s: seq<T>, k: nat): (r: seq<T>)
    ensures |r| == if k < |s| then |s| - 1 else |s|
    ensures forall l | 0 <= l < |r| :: r[l] == s[if l < k then l else l + 1]
  {
    if k < |s| then s[..k] + s[k + 1..] else s
  }

  /** The order after way `w` was stamped with the current time. */
  ghost function Promote(order: seq<nat>, w: nat): seq<nat> {
    [w] + Rest<nat>(order, Place(order, w))
  }

  /** `w` is a way the replacement may use for `tag`: the one holding the tag; else, when no
      way holds it, an invalid one; else the one with the least stamp. */
  ghost predicate Chosen(ways: seq<Way>, tag: nat, w: nat) {
    && w < |ways|
    && ((ways[w].valid && ways[w].tag == tag)
        || ((forall i | 0 <= i < |ways| && ways[i].valid :: ways[i].tag != tag)
            && (!ways[w].valid
                || forall i | 0 <= i < |ways| :: ways[i].valid && ways[w].stamp <= ways[i].stamp)))
  }

  lemma OrdersLater(ways: seq<Way>, order: seq<nat>, now: nat, later: nat)
    requires Orders(ways, order, now) && now <= later
    ensures Orders(ways, order, later)
  {
  }

  lemma OrderDistinct(ways: seq<Way>, order: seq<nat>, now: nat)
    requires Orders(ways, order, now)
    ensures Distinct(order)
  {
    forall k, l | 0 <= k < l < |order| ensures order[k] != order[l] {
      assert Before(k, l);
    }
  }

  /** A tag is held by a valid way exactly when it is in the list of tags. */
  lemma HoldsTag(ways: seq<Way>, order: seq<nat>, now: nat, tag: nat)
    requires Orders(ways, order, now)
    ensures tag in Tags(ways, order) <==> exists i :: 0 <= i < |ways| && ways[i].valid && ways[i].tag == tag
    ensures forall i | 0 <= i < |ways| && ways[i].valid && ways[i].tag == tag ::
              Place(order, i) < |order| && IndexOf(Tags(ways, order), tag) == Place(order, i)
  {
    forall i | 0 <= i < |ways| && ways[i].valid && ways[i].tag == tag
      ensures Place(order, i) < |order| && IndexOf(Tags(ways, order), tag) == Place(order, i)
    {
      var k := Place(order, i);
      assert Tags(ways, order)[k] == tag;
      forall l | 0 <= l < k ensures Tags(ways, order)[l] != tag {
        assert Before(l, k);
      }
      FirstPlace(Tags(ways, order), tag, k);
    }
    if tag in Tags(ways, order) {
      var k :| 0 <= k < |order| && Tags(ways, order)[k] == tag;
      assert ways[order[k]].valid;
    }
  }

  /** No way is invalid exactly when the order is as long as the set. */
  lemma FullExactly(ways: seq<Way>, order: seq<nat>, now: nat)
    requires Orders(ways, order, now)
    ensures |order| <= |ways|
    ensures |order| == |ways| <==> forall i | 0 <= i < |ways| :: ways[i].valid
  {
    OrderDistinct(ways, order, now);
    DistinctCount(order);
    var all := Range(|ways|);
    if w :| 0 <= w < |ways| && !ways[w].valid {
      assert Elems(order) < all by { assert w in all && w !in Elems(order); }
      SubsetSize(Elems(order), all);
    } else {
      assert Elems(order) == all;
    }
  }

  ghost function Range(n: nat): (r: set<nat>)
    ensures |r| == n && forall i :: i in r <==> 0 <= i < n
  {
    if n == 0 then {} else Range(n - 1) + {n - 1}
  }

  /** The ways other than a chosen one: still sorted, and none holds the tag. */
  lemma RestOrders(ways: seq<Way>, order: seq<nat>, now: nat, w: nat, tag: nat)
    requires Orders(ways, order, now) && Chosen(ways, tag, w)
    ensures var rest := Rest<nat>(order, Place(order, w));
      && (forall l | 0 <= l < |rest| :: rest[l] < |ways| && rest[l] != w && ways[rest[l]].valid && ways[rest[l]].tag != tag)
      && (forall k, l {:trigger Before(k, l)} | 0 <= k && Before(k, l) && l < |rest| ::
            ways[rest[k]].stamp > ways[rest[l]].stamp && ways[rest[k]].tag != ways[rest[l]].tag)
      && (forall i | i in order && i != w :: i in rest)
  {
    var p := Place(order, w);
    var rest := Rest<nat>(order, p);
    OrderDistinct(ways, order, now);
    forall l | 0 <= l < |rest|
      ensures rest[l] < |ways| && rest[l] != w && ways[rest[l]].valid && ways[rest[l]].tag != tag
    {
      RestAvoids(ways, order, now, w, tag, l);
    }
    forall k, l {:trigger Before(k, l)} | 0 <= k && Before(k, l) && l < |rest|
      ensures ways[rest[k]].stamp > ways[rest[l]].stamp && ways[rest[k]].tag != ways[rest[l]].tag
    {
      var m, n := if k < p then k else k + 1, if l < p then l else l + 1;
      assert Before(m, n);
    }
    forall i | i in order && i != w ensures i in rest {
      StaysInRest(order, w, i);
    }
  }

  /** Stamping a chosen way with the next time keeps the order exact. */
  lemma PromoteOrders(ways: seq<Way>, order: seq<nat>, now: nat, w: nat, tag: nat)
    requires Orders(ways, order, now) && Chosen(ways, tag, w)
    ensures Orders(ways[w := Way(true, tag, now + 1)], Promote(order, w), now + 1)
  {
    RestOrders(ways, order, now, w, tag);
    StampFirst(ways, order, Rest<nat>(order, Place(order, w)), now, w, tag);
  }

  lemma StampFirst(ways: seq<Way>, order: seq<nat>, rest: seq<nat>, now: nat, w: nat, tag: nat)
    requires w < |ways|
    requires forall i | 0 <= i < |ways| && ways[i].valid :: i in order && ways[i].stamp <= now
    requires forall l | 0 <= l < |rest| :: rest[l] < |ways| && rest[l] != w && ways[rest[l]].valid && ways[rest[l]].tag != tag
    requires forall k, l {:trigger Before(k, l)} | 0 <= k && Before(k, l) && l < |rest| ::
               ways[rest[k]].stamp > ways[rest[l]].stamp && ways[rest[k]].tag != ways[rest[l]].tag
    requires forall i | i in order && i != w :: i in rest
    ensures Orders(ways[w := Way(true, tag, now + 1)], [w] + rest, now + 1)
  {
    var ways', order' := ways[w := Way(true, tag, now + 1)], [w] + rest;
    forall k, l {:trigger Before(k, l)} | 0 <= k && Before(k, l) && l < |order'|
      ensures ways'[order'[k]].stamp > ways'[order'[l]].stamp && ways'[order'[k]].tag != ways'[order'[l]].tag
    {
      if k > 0 {
        assert Before(k - 1, l - 1);
      } else {
        assert ways[rest[l - 1]].stamp <= now;
      }
    }
  }

  lemma RestAvoids(ways: seq<Way>, order: seq<nat>, now: nat, w: nat, tag: nat, l: nat)
    requires Orders(ways, order, now) && Chosen(ways, tag, w) && l < |Rest<nat>(order, Place(order, w))|
    ensures var i := Rest<nat>(order, Place(order, w))[l];
      i < |ways| && i != w && ways[i].valid && ways[i].tag != tag
  {
    var k := Place(order, w);
    var m := if l < k then l else l + 1;
    assert Rest<nat>(order, k)[l] == order[m];
    if ways[w].valid {
      OrderDistinct(ways, order, now);
      assert k < |order| && order[k] == w;
      if ways[w].tag == tag {
        var lo, hi := if m < k then m else k, if m < k then k else m;
        assert Before(lo, hi);
      }
    }
  }

  lemma StaysInRest(order: seq<nat>, w: nat, i: nat)
    requires i in order && i != w
    ensures i in Rest<nat>(order, Place(order, w))
  {
    var k, m := Place(order, w), Place(order, i);
    assert order[m] == i;
    assert Rest<nat>(order, k)[if m < k then m else m - 1] == i;
  }

  /** The three replacement cases are one step of the most-recently-used list. */
  lemma PromoteGathers<T>(ways: seq<Way>, order: seq<nat>, now: nat, w: nat, tag: nat, items: seq<T>, x: T)
    requires Orders(ways, order, now) && Chosen(ways, tag, w) && |items| == |ways|
    ensures forall k | 0 <= k < |Promote(order, w)| :: Promote(order, w)[k] < |ways|
    ensures Gather(items[w := x], Promote(order, w))
            == Use(Gather(items, order), IndexOf(Tags(ways, order), tag), x, |ways|)
  {
    var p := Place(order, w);
    var g := Gather(items, order);
    var k := IndexOf(Tags(ways, order), tag);
    GatherPromoted(ways, order, now, w, tag, items, x);
    assert (k < |g| && p == k) || (k == |g| && p == |g| < |ways|) || (k == |g| == |ways| && p == |g| - 1) by {
      ChosenPlace(ways, order, now, w, tag);
    }
    UseIsRest(g, k, p, x, |ways|);
  }

  lemma UseIsRest<T>(g: seq<T>, k: nat, p: nat, x: T, cap: nat)
    requires (k < |g| && p == k) || (k == |g| && p == |g| < cap) || (k == |g| == cap && p == |g| - 1)
    ensures Use(g, k, x, cap) == [x] + Rest(g, p)
  {
  }

  lemma ChosenPlace(ways: seq<Way>, order: seq<nat>, now: nat, w: nat, tag: nat)
    requires Orders(ways, order, now) && Chosen(ways, tag, w)
    ensures var p, k, n := Place(order, w), IndexOf(Tags(ways, order), tag), |order|;
      (k < n && p == k) || (k == n && p == n < |ways|) || (k == n == |ways| && p == n - 1)
  {
    FullExactly(ways, order, now);
    HoldsTag(ways, order, now, tag);
    if !(ways[w].valid && ways[w].tag == tag) && ways[w].valid {
      LeastIsLast(ways, order, now, w);
    }
  }

  lemma GatherPromoted<T>(ways: seq<Way>, order: seq<nat>, now: nat, w: nat, tag: nat, items: seq<T>, x: T)
    requires Orders(ways, order, now) && Chosen(ways, tag, w) && |items| == |ways|
    ensures forall k | 0 <= k < |Promote(order, w)| :: Promote(order, w)[k] < |ways|
    ensures Gather(items[w := x], Promote(order, w)) == [x] + Rest(Gather(items, order), Place(order, w))
  {
    RestOrders(ways, order, now, w, tag);
    GatherRest(items, order, Place(order, w), w, x);
  }

  lemma GatherRest<T>(items: seq<T>, order: seq<nat>, k: nat, w: nat, x: T)
    requires w < |items|
    requires forall l | 0 <= l < |order| :: order[l] < |items|
    requires forall l | 0 <= l < |Rest<nat>(order, k)| :: Rest<nat>(order, k)[l] < |items| && Rest<nat>(order, k)[l] != w
    ensures forall l | 0 <= l < |[w] + Rest<nat>(order, k)| :: ([w] + Rest<nat>(order, k))[l] < |items|
    ensures Gather(items[w := x], [w] + Rest<nat>(order, k)) == [x] + Rest(Gather(items, order), k)
  {
    var rest, g := Rest<nat>(order, k), Rest(Gather(items, order), k);
    forall l | 0 <= l < |rest| ensures items[w := x][rest[l]] == g[l] {
      var m := if l < k then l else l + 1;
      assert rest[l] == order[m] && g[l] == Gather(items, order)[m] == items[order[m]];
      assert rest[l] < |items| && rest[l] != w;
    }
  }

  lemma LeastIsLast(ways: seq<Way>, order: seq<nat>, now: nat, w: nat)
    requires Orders(ways, order, now) && w < |ways|
    requires forall i | 0 <= i < |ways| :: ways[i].valid && ways[w].stamp <= ways[i].stamp
    ensures Place(order, w) == |order| - 1
  {
    var k, n := Place(order, w), |order| - 1;
    assert order[k] == w;
    assert ways[w].stamp <= ways[order[n]].stamp;
    assert Before(k, n) ==> k < n;
  }

  // ----- all sets of a store

  /** What a set-associative store holds: by set, its ways, the item of each way, and the valid
      ways, most recently used first; and the last time stamp given out. */
  datatype Store<T> = Store(ways: seq<seq<Way>>, items: seq<seq<T>>, orders: seq<seq<nat>>, now: nat)

  /** List `list` shows the items of the valid ways of set `s`, most recently used first. */
  ghost predicate SetLists<T>(st: Store<T>, assoc: nat, s: nat, list: seq<T>)
    requires s < |st.ways| == |st.items| == |st.orders|
  {
    && |st.ways[s]| == |st.items[s]| == assoc
    && Orders(st.ways[s], st.orders[s], st.now)
    && list == Gather(st.items[s], st.orders[s])
  }

  /** The first `n` lists show the first `n` sets. */
  ghost predicate ListsUpTo<T>(st: Store<T>, assoc: nat, lists: seq<seq<T>>, n: nat)
    requires n <= |lists| == |st.ways| == |st.items| == |st.orders|
  {
    n == 0 || (ListsUpTo(st, assoc, lists, n - 1) && SetLists(st, assoc, n - 1, lists[n - 1]))
  }

  ghost predicate Lists<T>(st: Store<T>, assoc: nat, lists: seq<seq<T>>) {
    |lists| == |st.ways| == |st.items| == |st.orders| && ListsUpTo(st, assoc, lists, |lists|)
  }

  lemma {:induction false} ListsAt<T>(st: Store<T>, assoc: nat, lists: seq<seq<T>>, n: nat, s: nat)
    requires s < n <= |lists| == |st.ways| == |st.items| == |st.orders| && ListsUpTo(st, assoc, lists, n)
    ensures SetLists(st, assoc, s, lists[s])
  {
    if s < n - 1 {
      ListsAt(st, assoc, lists, n - 1, s);
    }
  }

  lemma {:induction false} ListsFrom<T>(st: Store<T>, assoc: nat, lists: seq<seq<T>>, n: nat)
    requires n <= |lists| == |st.ways| == |st.items| == |st.orders|
    requires forall s | 0 <= s < n :: SetLists(st, assoc, s, lists[s])
    ensures ListsUpTo(st, assoc, lists, n)
  {
    if n > 0 {
      ListsFrom(st, assoc, lists, n - 1);
    }
  }

  /** Way `w` of set `s` gets the tag and the item, and the next time stamp. */
  ghost function Stamped<T>(st: Store<T>, s: nat, w: nat, tag: nat, x: T): Store<T>
    requires s < |st.ways| == |st.items| == |st.orders| && w < |st.ways[s]| == |st.items[s]|
  {
    Store(st.ways[s := st.ways[s][w := Way(true, tag, st.now + 1)]],
          st.items[s := st.items[s][w := x]],
          st.orders[s := Promote(st.orders[s], w)],
          st.now + 1)
  }

  /** Stamping a chosen way is one step of the list of its set and of no other list. */
  lemma StampedLists<T>(st: Store<T>, assoc: nat, lists: seq<seq<T>>, s: nat, w: nat, tag: nat, x: T)
    requires Lists(st, assoc, lists) && s < |lists|
    requires SetLists(st, assoc, s, lists[s]) && Chosen(st.ways[s], tag, w)
    ensures Lists(Stamped(st, s, w, tag, x), assoc,
                  lists[s := Use(lists[s], IndexOf(Tags(st.ways[s], st.orders[s]), tag), x, assoc)])
  {
    var ways, order := st.ways[s], st.orders[s];
    var st' := Stamped(st, s, w, tag, x);
    var lists' := lists[s := Use(lists[s], IndexOf(Tags(ways, order), tag), x, assoc)];
    forall s' | 0 <= s' < |lists| ensures SetLists(st', assoc, s', lists'[s']) {
      ListsAt(st, assoc, lists, |lists|, s');
      if s' == s {
        PromoteOrders(ways, order, st.now, w, tag);
        PromoteGathers(ways, order, st.now, w, tag, st.items[s], x);
      } else {
        OrdersLater(st.ways[s'], st.orders[s'], st.now, st'.now);
      }
    }
    ListsFrom(st', assoc, lists', |lists|);
  }

  /** A store without valid ways. */
  ghost function Emptied<T>(st: Store<T>): (r: Store<T>)
    ensures |r.ways| == |st.ways| && r.items == st.items && r.now == st.now
  {
    Store(seq(|st.ways|, s requires 0 <= s < |st.ways| => Invalidated(st.ways[s])),
          st.items, seq(|st.ways|, _ => []), st.now)
  }

  ghost function Invalidated(ways: seq<Way>): (r: seq<Way>)
    ensures |r| == |ways| && forall w | 0 <= w < |r| :: r[w] == ways[w].(valid := false)
  {
    seq(|ways|, w requires 0 <= w < |ways| => ways[w].(valid := false))
  }

  lemma EmptiedLists<T>(st: Store<T>, assoc: nat)
    requires |st.ways| == |st.items|
    requires forall s | 0 <= s < |st.ways| :: |st.ways[s]| == |st.items[s]| == assoc
    ensures Lists(Emptied(st), assoc, seq(|st.ways|, _ => []))
  {
    ListsFrom(Emptied(st), assoc, seq(|st.ways|, _ => []), |st.ways|);
  }
}
