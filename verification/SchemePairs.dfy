/** Any two of the three models on given addresses: exactly when they count alike. */
module SchemePairs {
  import opened Bits
  import opened Recency
  import opened Caches
  import opened CacheLaws
  import opened SchemeLaws

  /** The row and the tag of the word at an address. */
  function Row(s: Scheme, g: Geometry, frames: nat -> nat, u: nat): nat {
    IndexFor(s, g, frames, Aligned(u))
  }

  function Tag(s: Scheme, g: Geometry, frames: nat -> nat, u: nat): nat {
    TagFor(s, g, frames, Aligned(u))
  }

  predicate OnOneLine(s: Scheme, g: Geometry, frames: nat -> nat, u: nat, v: nat) {
    Row(s, g, frames, u) == Row(s, g, frames, v) && Tag(s, g, frames, u) == Tag(s, g, frames, v)
  }

  /** Both models put the same words of `addrs` on one line. */
  ghost predicate SameLines(a: Scheme, b: Scheme, g: Geometry, frames: nat -> nat, addrs: set<nat>) {
    forall u, v | u in addrs && v in addrs :: OnOneLine(a, g, frames, u, v) <==> OnOneLine(b, g, frames, u, v)
  }

  /** Both models put the same words of `addrs` into the row of `u`. */
  ghost predicate SameMates(a: Scheme, b: Scheme, g: Geometry, frames: nat -> nat, addrs: set<nat>, u: nat) {
    forall v | v in addrs ::
      Row(a, g, frames, v) == Row(a, g, frames, u) <==> Row(b, g, frames, v) == Row(b, g, frames, u)
  }

  /** The lines that words of `addrs` make in the row of `u`. */
  ghost function LinesBeside(s: Scheme, g: Geometry, frames: nat -> nat, addrs: set<nat>, u: nat): set<nat> {
    set v | v in addrs && Row(s, g, frames, v) == Row(s, g, frames, u) :: Tag(s, g, frames, v)
  }

  /** The row of `u` can keep all its lines. */
  ghost predicate Roomy(s: Scheme, g: Geometry, frames: nat -> nat, ways: nat, addrs: set<nat>, u: nat) {
    |LinesBeside(s, g, frames, addrs, u)| <= ways
  }

  /** On all loads and stores at `addrs` the two models count alike. */
  ghost predicate CountAlikeFor(a: Scheme, b: Scheme, g: Geometry, frames: nat -> nat, ways: nat, addrs: set<nat>) {
    forall ops: seq<MemOp> | At(ops, addrs) :: SameCounts(a, b, g, frames, ways, ops)
  }

  predicate SameCounts(a: Scheme, b: Scheme, g: Geometry, frames: nat -> nat, ways: nat, ops: seq<MemOp>) {
    var x, y := RunOps(a, g, frames, ways, ops), RunOps(b, g, frames, ways, ops);
    x.readHits == y.readHits && x.writeHits == y.writeHits
  }

  /** Whether the word at `u` hits after the operations. */
  predicate HitsAfter(s: Scheme, g: Geometry, frames: nat -> nat, ways: nat, ops: seq<MemOp>, u: nat) {
    Tag(s, g, frames, u) in RunOps(s, g, frames, ways, ops).sets[Row(s, g, frames, u)]
  }

  /** The tags that the row of `u` sees. */
  function SeenBeside(s: Scheme, g: Geometry, frames: nat -> nat, ops: seq<MemOp>, u: nat): seq<nat> {
    Seen(Refs(s, g, frames, ops), Row(s, g, frames, u))
  }

  lemma HitByDistance(s: Scheme, g: Geometry, frames: nat -> nat, ways: nat, ops: seq<MemOp>, u: nat)
    ensures var seen, tag := SeenBeside(s, g, frames, ops, u), Tag(s, g, frames, u);
      HitsAfter(s, g, frames, ways, ops, u) <==> tag in seen && |Elems(Since(seen, tag))| < ways
  {
    OpsAreRefs(s, g, frames, ways, ops);
    HitExactly(Pow2(g.logNumRows), ways, Refs(s, g, frames, ops), Row(s, g, frames, u), Tag(s, g, frames, u));
  }

  lemma SeenOneMore(s: Scheme, g: Geometry, frames: nat -> nat, ops: seq<MemOp>, op: MemOp, u: nat)
    ensures SeenBeside(s, g, frames, ops + [op], u) == SeenBeside(s, g, frames, ops, u)
              + if Row(s, g, frames, op.addr) == Row(s, g, frames, u) then [Tag(s, g, frames, op.addr)] else []
  {
    assert (ops + [op])[..|ops|] == ops;
    var refs := Refs(s, g, frames, ops + [op]);
    assert refs[..|ops|] == Refs(s, g, frames, ops);
  }

  // ----- enough

  /** A tag is seen exactly when a word of its line was accessed. */
  lemma {:induction false} SeenExactly(s: Scheme, g: Geometry, frames: nat -> nat, ops: seq<MemOp>, u: nat, tag: nat)
    ensures tag in SeenBeside(s, g, frames, ops, u) <==>
            exists op | op in ops :: Row(s, g, frames, op.addr) == Row(s, g, frames, u) && Tag(s, g, frames, op.addr) == tag
  {
    if ops != [] {
      var front, last := ops[..|ops| - 1], ops[|ops| - 1];
      assert ops == front + [last];
      SeenExactly(s, g, frames, front, u, tag);
      SeenOneMore(s, g, frames, front, last, u);
    }
  }

  /** In a row with room for all its lines an access hits when its line was accessed before. */
  lemma RoomyHit(s: Scheme, g: Geometry, frames: nat -> nat, ways: nat, addrs: set<nat>, ops: seq<MemOp>, u: nat)
    requires Roomy(s, g, frames, ways, addrs, u) && At(ops, addrs) && u in addrs
    ensures HitsAfter(s, g, frames, ways, ops, u) <==> exists op | op in ops :: OnOneLine(s, g, frames, op.addr, u)
  {
    var seen, tag, lines := SeenBeside(s, g, frames, ops, u), Tag(s, g, frames, u), LinesBeside(s, g, frames, addrs, u);
    HitByDistance(s, g, frames, ways, ops, u);
    SeenExactly(s, g, frames, ops, u, tag);
    if tag in seen {
      SinceIsSuffix(seen, tag);
      SinceIsSlice(seen, tag);
      forall t | t in Elems(Since(seen, tag)) ensures t in lines && t != tag {
        assert t in seen;
        SeenExactly(s, g, frames, ops, u, t);
      }
      assert tag in lines;
      assert Elems(Since(seen, tag)) < lines;
      SubsetSize(Elems(Since(seen, tag)), lines);
    }
  }

  lemma SameHits(a: Scheme, b: Scheme, g: Geometry, frames: nat -> nat, ways: nat, addrs: set<nat>, ops: seq<MemOp>, u: nat)
    requires SameLines(a, b, g, frames, addrs) && At(ops, addrs) && u in addrs
    requires SameMates(a, b, g, frames, addrs, u) || (Roomy(a, g, frames, ways, addrs, u) && Roomy(b, g, frames, ways, addrs, u))
    ensures HitsAfter(a, g, frames, ways, ops, u) <==> HitsAfter(b, g, frames, ways, ops, u)
  {
    if SameMates(a, b, g, frames, addrs, u) {
      MatesHit(a, b, g, frames, ways, addrs, ops, u);
    } else {
      RoomyHit(a, g, frames, ways, addrs, ops, u);
      RoomyHit(b, g, frames, ways, addrs, ops, u);
    }
  }

  lemma MatesHit(a: Scheme, b: Scheme, g: Geometry, frames: nat -> nat, ways: nat, addrs: set<nat>, ops: seq<MemOp>, u: nat)
    requires SameLines(a, b, g, frames, addrs) && At(ops, addrs) && u in addrs && SameMates(a, b, g, frames, addrs, u)
    ensures HitsAfter(a, g, frames, ways, ops, u) <==> HitsAfter(b, g, frames, ways, ops, u)
  {
    var op := MemOp(u, false);
    var more := ops + [op];
    RefsRowRenamed(a, b, g, frames, addrs, more, u);
    SeenMatches(Refs(a, g, frames, more), Refs(b, g, frames, more), Row(a, g, frames, u), Row(b, g, frames, u));
    SeenOneMore(a, g, frames, ops, op, u);
    SeenOneMore(b, g, frames, ops, op, u);
    SameHit(SeenBeside(a, g, frames, ops, u), SeenBeside(b, g, frames, ops, u), Tag(a, g, frames, u), Tag(b, g, frames, u), ways);
    LruHit(a, g, frames, ways, ops, u);
    LruHit(b, g, frames, ways, ops, u);
  }

  lemma LruHit(s: Scheme, g: Geometry, frames: nat -> nat, ways: nat, ops: seq<MemOp>, u: nat)
    ensures HitsAfter(s, g, frames, ways, ops, u) <==> Tag(s, g, frames, u) in Lru(SeenBeside(s, g, frames, ops, u), ways)
  {
    OpsAreRefs(s, g, frames, ways, ops);
    SetIsLru(Pow2(g.logNumRows), ways, Refs(s, g, frames, ops), Row(s, g, frames, u));
  }

  lemma RefsRowRenamed(a: Scheme, b: Scheme, g: Geometry, frames: nat -> nat, addrs: set<nat>, ops: seq<MemOp>, u: nat)
    requires SameLines(a, b, g, frames, addrs) && At(ops, addrs) && u in addrs && SameMates(a, b, g, frames, addrs, u)
    ensures RowRenamed(Refs(a, g, frames, ops), Refs(b, g, frames, ops), Row(a, g, frames, u), Row(b, g, frames, u))
  {
    var x, y := Refs(a, g, frames, ops), Refs(b, g, frames, ops);
    forall i | 0 <= i < |ops|
      ensures x[i].index == Row(a, g, frames, ops[i].addr) && x[i].tag == Tag(a, g, frames, ops[i].addr)
      ensures y[i].index == Row(b, g, frames, ops[i].addr) && y[i].tag == Tag(b, g, frames, ops[i].addr)
      ensures ops[i].addr in addrs
    {
      RefAt(a, g, frames, ops, i);
      RefAt(b, g, frames, ops, i);
      assert ops[i] in ops;
    }
    forall i, j | 0 <= i < |ops| && 0 <= j < |ops| && x[i].index == Row(a, g, frames, u) && x[j].index == Row(a, g, frames, u)
      ensures x[i].tag == x[j].tag <==> y[i].tag == y[j].tag
    {
      var v, w := ops[i].addr, ops[j].addr;
      assert Row(b, g, frames, v) == Row(b, g, frames, u) && Row(b, g, frames, w) == Row(b, g, frames, u);
      assert OnOneLine(a, g, frames, v, w) <==> OnOneLine(b, g, frames, v, w);
    }
  }

  /** An operation counts a hit exactly when its word hits. */
  lemma CountStep(s: Scheme, g: Geometry, frames: nat -> nat, ways: nat, ops: seq<MemOp>, op: MemOp)
    ensures var before, after := RunOps(s, g, frames, ways, ops), RunOps(s, g, frames, ways, ops + [op]);
      var hit := HitsAfter(s, g, frames, ways, ops, op.addr);
      && after.readHits == before.readHits + (if hit && !op.isWrite then 1 else 0)
      && after.writeHits == before.writeHits + (if hit && op.isWrite then 1 else 0)
  {
    OneMoreOp(s, g, frames, ways, ops, op);
  }

  ghost predicate RowsAgree(a: Scheme, b: Scheme, g: Geometry, frames: nat -> nat, ways: nat, addrs: set<nat>) {
    forall u | u in addrs ::
      || SameMates(a, b, g, frames, addrs, u)
      || (Roomy(a, g, frames, ways, addrs, u) && Roomy(b, g, frames, ways, addrs, u))
  }

  lemma {:induction false} AgreeCounts(a: Scheme, b: Scheme, g: Geometry, frames: nat -> nat, ways: nat, addrs: set<nat>, ops: seq<MemOp>)
    requires SameLines(a, b, g, frames, addrs) && RowsAgree(a, b, g, frames, ways, addrs) && At(ops, addrs)
    ensures SameCounts(a, b, g, frames, ways, ops)
  {
    if ops != [] {
      var front, last := ops[..|ops| - 1], ops[|ops| - 1];
      assert ops == front + [last];
      assert last in ops && At(front, addrs);
      AgreeCounts(a, b, g, frames, ways, addrs, front);
      SameHits(a, b, g, frames, ways, addrs, front, last.addr);
      CountStep(a, g, frames, ways, front, last);
      CountStep(b, g, frames, ways, front, last);
    }
  }

  // ----- necessary

  lemma AlikeHits(a: Scheme, b: Scheme, g: Geometry, frames: nat -> nat, ways: nat, addrs: set<nat>, ops: seq<MemOp>, u: nat)
    requires CountAlikeFor(a, b, g, frames, ways, addrs) && At(ops, addrs) && u in addrs
    ensures HitsAfter(a, g, frames, ways, ops, u) <==> HitsAfter(b, g, frames, ways, ops, u)
  {
    var op := MemOp(u, false);
    assert At(ops + [op], addrs);
    assert SameCounts(a, b, g, frames, ways, ops) && SameCounts(a, b, g, frames, ways, ops + [op]);
    CountStep(a, g, frames, ways, ops, op);
    CountStep(b, g, frames, ways, ops, op);
  }

  lemma AlikeLines(a: Scheme, b: Scheme, g: Geometry, frames: nat -> nat, ways: nat, addrs: set<nat>)
    requires CountAlikeFor(a, b, g, frames, ways, addrs) && ways >= 1
    ensures SameLines(a, b, g, frames, addrs)
  {
    forall u, v | u in addrs && v in addrs
      ensures OnOneLine(a, g, frames, u, v) <==> OnOneLine(b, g, frames, u, v)
    {
      var ops := [MemOp(u, false), MemOp(v, false)];
      assert At(ops, addrs) && SameCounts(a, b, g, frames, ways, ops);
      TwoLoads(a, g, frames, ways, ops[0], ops[1]);
      TwoLoads(b, g, frames, ways, ops[0], ops[1]);
    }
  }

  function Loads(words: seq<nat>): (ops: seq<MemOp>) {
    if words == [] then [] else Loads(words[..|words| - 1]) + [MemOp(words[|words| - 1], false)]
  }

  lemma {:induction false} LoadsAt(words: seq<nat>, addrs: set<nat>)
    requires forall w | w in words :: w in addrs
    ensures At(Loads(words), addrs)
  {
    if words != [] {
      LoadsAt(words[..|words| - 1], addrs);
    }
  }

  /** What the row of `u` sees of loads: all of them, or fewer when one lies in another row. */
  lemma {:induction false} SeenOfLoads(s: Scheme, g: Geometry, frames: nat -> nat, words: seq<nat>, u: nat)
    ensures var seen := SeenBeside(s, g, frames, Loads(words), u);
      && |seen| <= |words|
      && ((exists w | w in words :: Row(s, g, frames, w) != Row(s, g, frames, u)) ==> |seen| < |words|)
      && ((forall w | w in words :: Row(s, g, frames, w) == Row(s, g, frames, u)) ==>
            |seen| == |words| && forall k | 0 <= k < |words| :: seen[k] == Tag(s, g, frames, words[k]))
  {
    if words != [] {
      var front, last := words[..|words| - 1], words[|words| - 1];
      assert words == front + [last];
      SeenOfLoads(s, g, frames, front, u);
      SeenOneMore(s, g, frames, Loads(front), MemOp(last, false), u);
    }
  }

  lemma {:induction false} LoadedIsSeen(s: Scheme, g: Geometry, frames: nat -> nat, words: seq<nat>, u: nat)
    requires u in words
    ensures Tag(s, g, frames, u) in SeenBeside(s, g, frames, Loads(words), u)
  {
    var front, last := words[..|words| - 1], words[|words| - 1];
    assert words == front + [last];
    if last != u {
      LoadedIsSeen(s, g, frames, front, u);
    }
    SeenOneMore(s, g, frames, Loads(front), MemOp(last, false), u);
  }

  lemma {:induction false} SinceFirst(s: seq<nat>)
    requires Distinct(s) && s != []
    ensures Since(s, s[0]) == s[1..]
  {
    if |s| > 1 {
      var front := s[..|s| - 1];
      SinceFirst(front);
      assert s == front + [s[|s| - 1]];
      assert s[1..] == front[1..] + [s[|s| - 1]];
    }
  }

  lemma FewElems(s: seq<nat>)
    ensures |Elems(s)| <= |s|
  {
    if s != [] {
      ElemsOfLast(s);
      FewElems(s[..|s| - 1]);
    }
  }

  /** `ways` other lines of the row since: a miss. */
  lemma CrowdedMiss(s: Scheme, g: Geometry, frames: nat -> nat, ways: nat, words: seq<nat>)
    requires |words| == ways + 1
    requires forall w | w in words :: Row(s, g, frames, w) == Row(s, g, frames, words[0])
    requires Differ(s, g, frames, words)
    ensures !HitsAfter(s, g, frames, ways, Loads(words), words[0])
  {
    var seen := SeenBeside(s, g, frames, Loads(words), words[0]);
    SeenOfLoads(s, g, frames, words, words[0]);
    HitByDistance(s, g, frames, ways, Loads(words), words[0]);
    SinceFirst(seen);
    DistinctCount(seen[1..]);
  }

  /** As many other words since, but one of them elsewhere: a hit. */
  lemma SparedHit(s: Scheme, g: Geometry, frames: nat -> nat, ways: nat, words: seq<nat>, t: nat)
    requires |words| == ways + 1 && t in words && Row(s, g, frames, t) != Row(s, g, frames, words[0])
    ensures HitsAfter(s, g, frames, ways, Loads(words), words[0])
  {
    var u := words[0];
    var seen, tag := SeenBeside(s, g, frames, Loads(words), u), Tag(s, g, frames, u);
    SeenOfLoads(s, g, frames, words, u);
    LoadedIsSeen(s, g, frames, words, u);
    HitByDistance(s, g, frames, ways, Loads(words), u);
    SinceIsSuffix(seen, tag);
    FewElems(Since(seen, tag));
  }

  ghost function TagsIn(s: Scheme, g: Geometry, frames: nat -> nat, words: set<nat>): set<nat> {
    set w | w in words :: Tag(s, g, frames, w)
  }

  ghost function Without(s: Scheme, g: Geometry, frames: nat -> nat, words: set<nat>, tag: nat): set<nat> {
    set w | w in words && Tag(s, g, frames, w) != tag
  }

  lemma WithoutTags(s: Scheme, g: Geometry, frames: nat -> nat, words: set<nat>, tag: nat)
    requires tag in TagsIn(s, g, frames, words)
    ensures |TagsIn(s, g, frames, Without(s, g, frames, words, tag))| == |TagsIn(s, g, frames, words)| - 1
  {
    assert TagsIn(s, g, frames, Without(s, g, frames, words, tag)) == TagsIn(s, g, frames, words) - {tag};
  }

  /** The words have pairwise different tags. */
  ghost predicate Differ(s: Scheme, g: Geometry, frames: nat -> nat, words: seq<nat>) {
    forall i, j | 0 <= i < j < |words| :: Tag(s, g, frames, words[i]) != Tag(s, g, frames, words[j])
  }

  lemma DifferMore(s: Scheme, g: Geometry, frames: nat -> nat, w: nat, words: seq<nat>)
    requires Differ(s, g, frames, words)
    requires forall v | v in words :: Tag(s, g, frames, v) != Tag(s, g, frames, w)
    ensures Differ(s, g, frames, [w] + words)
  {
    var all := [w] + words;
    forall i, j | 0 <= i < j < |all| ensures Tag(s, g, frames, all[i]) != Tag(s, g, frames, all[j]) {
      assert all[j] == words[j - 1] && words[j - 1] in words;
    }
  }

  /** Words with different tags. */
  lemma {:induction false} Pick(s: Scheme, g: Geometry, frames: nat -> nat, words: set<nat>, n: nat) returns (r: seq<nat>)
    requires n <= |TagsIn(s, g, frames, words)|
    ensures |r| == n && Differ(s, g, frames, r) && forall w | w in r :: w in words
  {
    r := [];
    if n > 0 {
      var tag :| tag in TagsIn(s, g, frames, words);
      var w :| w in words && Tag(s, g, frames, w) == tag;
      WithoutTags(s, g, frames, words, tag);
      var rest := Pick(s, g, frames, Without(s, g, frames, words, tag), n - 1);
      DifferMore(s, g, frames, w, rest);
      r := [w] + rest;
    }
  }

  /** Words of the row of `u` on lines other than those of `u` and `t`, with different tags. */
  lemma PickBeside(s: Scheme, g: Geometry, frames: nat -> nat, ways: nat, addrs: set<nat>, u: nat, t: nat) returns (r: seq<nat>)
    requires !Roomy(s, g, frames, ways, addrs, u) && ways >= 1
    ensures |r| == ways - 1
    ensures forall w | w in r ::
              && w in addrs && Row(s, g, frames, w) == Row(s, g, frames, u)
              && Tag(s, g, frames, w) != Tag(s, g, frames, u) && Tag(s, g, frames, w) != Tag(s, g, frames, t)
    ensures Differ(s, g, frames, r)
  {
    var lines, gone := LinesBeside(s, g, frames, addrs, u), {Tag(s, g, frames, u), Tag(s, g, frames, t)};
    var words := set w | w in addrs && Row(s, g, frames, w) == Row(s, g, frames, u) && Tag(s, g, frames, w) !in gone;
    assert TagsIn(s, g, frames, words) == lines - gone;
    AtMostTwo(Tag(s, g, frames, u), Tag(s, g, frames, t));
    SmallPart(lines, gone);
    r := Pick(s, g, frames, words, ways - 1);
  }

  lemma SmallPart(a: set<nat>, b: set<nat>)
    ensures |a - b| >= |a| - |b|
  {
    assert a == (a - b) + a * b;
    assert b == a * b + (b - a);
  }

  lemma AtMostTwo(x: nat, y: nat)
    ensures |{x, y}| <= 2
  {
    assert {x, y} == {x} + {y};
  }

  /** When a row has more lines than ways, the other model must have the same words beside. */
  lemma CrowdedMates(a: Scheme, b: Scheme, g: Geometry, frames: nat -> nat, ways: nat, addrs: set<nat>, u: nat)
    requires CountAlikeFor(a, b, g, frames, ways, addrs) && SameLines(a, b, g, frames, addrs) && ways >= 1
    requires u in addrs && !Roomy(a, g, frames, ways, addrs, u)
    ensures SameMates(a, b, g, frames, addrs, u)
  {
    forall t | t in addrs && Row(a, g, frames, t) == Row(a, g, frames, u)
      ensures Row(b, g, frames, t) == Row(b, g, frames, u)
    {
      if Row(b, g, frames, t) != Row(b, g, frames, u) {
        var words := MissingMate(a, b, g, frames, ways, addrs, u, t);
        LoadsAt(words, addrs);
        AlikeHits(a, b, g, frames, ways, addrs, Loads(words), u);
      }
    }
    forall t | t in addrs && Row(b, g, frames, t) == Row(b, g, frames, u)
      ensures Row(a, g, frames, t) == Row(a, g, frames, u)
    {
      if Row(a, g, frames, t) != Row(a, g, frames, u) {
        var words := ExtraMate(a, b, g, frames, ways, addrs, u, t);
        LoadsAt(words, addrs);
        AlikeHits(a, b, g, frames, ways, addrs, Loads(words), u);
      }
    }
  }

  /** Loads that tell the models apart when a word beside `u` in the first is elsewhere in the
      second. */
  lemma MissingMate(a: Scheme, b: Scheme, g: Geometry, frames: nat -> nat, ways: nat, addrs: set<nat>, u: nat, t: nat)
    returns (words: seq<nat>)
    requires SameLines(a, b, g, frames, addrs) && ways >= 1
    requires u in addrs && !Roomy(a, g, frames, ways, addrs, u)
    requires t in addrs && Row(a, g, frames, t) == Row(a, g, frames, u) && Row(b, g, frames, t) != Row(b, g, frames, u)
    ensures forall w | w in words :: w in addrs
    ensures HitsAfter(a, g, frames, ways, Loads(words), u) != HitsAfter(b, g, frames, ways, Loads(words), u)
  {
    var r := PickBeside(a, g, frames, ways, addrs, u, t);
    words := [u, t] + r;
    assert OnOneLine(a, g, frames, u, t) <==> OnOneLine(b, g, frames, u, t);
    assert [u] + ([t] + r) == words;
    DifferMore(a, g, frames, t, r);
    DifferMore(a, g, frames, u, [t] + r);
    CrowdedMiss(a, g, frames, ways, words);
    SparedHit(b, g, frames, ways, words, t);
  }

  /** Words of one row in both models have different tags in both. */
  lemma DifferThere(a: Scheme, b: Scheme, g: Geometry, frames: nat -> nat, addrs: set<nat>, words: seq<nat>)
    requires SameLines(a, b, g, frames, addrs) && Differ(a, g, frames, words)
    requires forall v, w | v in words && w in words :: v in addrs && Row(b, g, frames, v) == Row(b, g, frames, w)
    ensures Differ(b, g, frames, words)
  {
    forall i, j | 0 <= i < j < |words| ensures Tag(b, g, frames, words[i]) != Tag(b, g, frames, words[j]) {
      assert words[i] in words && words[j] in words;
      assert OnOneLine(a, g, frames, words[i], words[j]) <==> OnOneLine(b, g, frames, words[i], words[j]);
    }
  }

  /** ... and when the second has a word beside `u` that is elsewhere in the first. */
  lemma ExtraMate(a: Scheme, b: Scheme, g: Geometry, frames: nat -> nat, ways: nat, addrs: set<nat>, u: nat, t: nat)
    returns (words: seq<nat>)
    requires SameLines(a, b, g, frames, addrs) && ways >= 1
    requires u in addrs && !Roomy(a, g, frames, ways, addrs, u)
    requires forall v | v in addrs && Row(a, g, frames, v) == Row(a, g, frames, u) :: Row(b, g, frames, v) == Row(b, g, frames, u)
    requires t in addrs && Row(b, g, frames, t) == Row(b, g, frames, u) && Row(a, g, frames, t) != Row(a, g, frames, u)
    ensures forall w | w in words :: w in addrs
    ensures HitsAfter(a, g, frames, ways, Loads(words), u) != HitsAfter(b, g, frames, ways, Loads(words), u)
  {
    var r := PickBeside(a, g, frames, ways, addrs, u, t);
    words := [u, t] + r;
    assert [u] + ([t] + r) == words;
    DifferThere(a, b, g, frames, addrs, r);
    forall w | w in r ensures Tag(b, g, frames, w) != Tag(b, g, frames, t) && Tag(b, g, frames, w) != Tag(b, g, frames, u) {
      assert OnOneLine(a, g, frames, w, t) <==> OnOneLine(b, g, frames, w, t);
      assert OnOneLine(a, g, frames, w, u) <==> OnOneLine(b, g, frames, w, u);
    }
    assert OnOneLine(a, g, frames, t, u) <==> OnOneLine(b, g, frames, t, u);
    DifferMore(b, g, frames, t, r);
    DifferMore(b, g, frames, u, [t] + r);
    CrowdedMiss(b, g, frames, ways, words);
    SparedHit(a, g, frames, ways, words, t);
  }

  lemma AlikeSymmetric(a: Scheme, b: Scheme, g: Geometry, frames: nat -> nat, ways: nat, addrs: set<nat>)
    requires CountAlikeFor(a, b, g, frames, ways, addrs)
    ensures CountAlikeFor(b, a, g, frames, ways, addrs)
  {
    forall ops: seq<MemOp> | At(ops, addrs) ensures SameCounts(b, a, g, frames, ways, ops) {
      assert SameCounts(a, b, g, frames, ways, ops);
    }
  }

  /** For any two models, any page map and any addresses: they count alike on all loads and stores
      there exactly when they put the same words on one line and, for every word, the same words
      into its row, unless both rows have room for all their lines. */
  lemma PairAlikeExactly(a: Scheme, b: Scheme, g: Geometry, frames: nat -> nat, ways: nat, addrs: set<nat>)
    requires ways >= 1
    ensures CountAlikeFor(a, b, g, frames, ways, addrs) <==>
            SameLines(a, b, g, frames, addrs) && RowsAgree(a, b, g, frames, ways, addrs)
  {
    if SameLines(a, b, g, frames, addrs) && RowsAgree(a, b, g, frames, ways, addrs) {
      forall ops: seq<MemOp> | At(ops, addrs) ensures SameCounts(a, b, g, frames, ways, ops) {
        AgreeCounts(a, b, g, frames, ways, addrs, ops);
      }
    }
    if CountAlikeFor(a, b, g, frames, ways, addrs) {
      AlikeLines(a, b, g, frames, ways, addrs);
      AlikeSymmetric(a, b, g, frames, ways, addrs);
      AlikeLines(b, a, g, frames, ways, addrs);
      forall u | u in addrs
        ensures SameMates(a, b, g, frames, addrs, u)
                || (Roomy(a, g, frames, ways, addrs, u) && Roomy(b, g, frames, ways, addrs, u))
      {
        if !Roomy(a, g, frames, ways, addrs, u) {
          CrowdedMates(a, b, g, frames, ways, addrs, u);
        } else if !Roomy(b, g, frames, ways, addrs, u) {
          CrowdedMates(b, a, g, frames, ways, addrs, u);
        }
      }
    }
  }
}
