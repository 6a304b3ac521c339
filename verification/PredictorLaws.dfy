/** Laws of the branch predictor over whole traces. */
module PredictorLaws {
  import opened Predictor

  datatype Branch = Branch(ip: bv64, taken: bool)

  function RunBranches(s: Sim, trace: seq<Branch>): (r: Sim)
    requires Sized(s.tables)
    ensures Sized(r.tables)
  {
    if trace == [] then s
    else
      var b := trace[|trace| - 1];
      Handle(RunBranches(s, trace[..|trace| - 1]), b.ip, b.taken)
  }

  function CountTaken(trace: seq<Branch>): nat {
    if trace == [] then 0
    else CountTaken(trace[..|trace| - 1]) + if trace[|trace| - 1].taken then 1 else 0
  }

  /** The four totals account for every branch, taken and not taken. */
  lemma {:induction false} TotalsExact(trace: seq<Branch>)
    ensures var s := RunBranches(Sim(Initial(), 0, 0, 0, 0), trace);
      && s.takenCorrect + s.notTakenIncorrect == CountTaken(trace)
      && s.takenIncorrect + s.notTakenCorrect == |trace| - CountTaken(trace)
  {
    if trace != [] {
      TotalsExact(trace[..|trace| - 1]);
    }
  }

  method HandleAll(bp: BranchPredictor, trace: seq<Branch>)
    requires bp.Fixed()
    modifies bp, bp.gshare, bp.bimodal, bp.choice
    ensures bp.Totals() == RunBranches(old(bp.Totals()), trace)
  {
    for k := 0 to |trace|
      invariant bp.Totals() == RunBranches(old(bp.Totals()), trace[..k])
    {
      OneMoreBranch(old(bp.Totals()), trace[..k], trace[k]);
      assert trace[..k + 1] == trace[..k] + [trace[k]];
      bp.HandleBranch(trace[k].ip, trace[k].taken);
    }
    assert trace[..|trace|] == trace;
  }

  /** The packed predictor from its start over a whole trace of branches. */
  method Simulate(trace: seq<Branch>) returns (bp: BranchPredictor)
    ensures bp.Fixed() && bp.Totals() == RunBranches(Sim(Initial(), 0, 0, 0, 0), trace)
  {
    bp := new BranchPredictor();
    HandleAll(bp, trace);
  }

  // ----- counters

  /** A counter is on the side of the direction. */
  predicate Agrees(c: nat, taken: bool) {
    (c >= 2) == taken
  }

  ghost predicate InRange(t: Tables) {
    && Sized(t)
    && (forall i | 0 <= i < GSHARE_ENTRIES :: t.gshare[i] <= 3)
    && (forall i | 0 <= i < BIMODAL_ENTRIES :: t.bimodal[i] <= 3)
    && (forall i | 0 <= i < CHOICE_ENTRIES :: t.choice[i] <= 3)
  }

  lemma LearnedInRange(t: Tables, taken: bool, b: nat, g: nat, c: nat)
    requires InRange(t) && b < BIMODAL_ENTRIES && g < GSHARE_ENTRIES && c < CHOICE_ENTRIES
    ensures InRange(Learned(t, taken, b, g, c))
  {
  }

  lemma UpdateInRange(t: Tables, taken: bool, pc: bv32)
    requires InRange(t)
    ensures InRange(Update(t, taken, pc))
  {
    LearnedInRange(t, taken, BimIndex(pc), GshIndex(pc, t.ghr), ChIndex(pc, t.ghr));
  }

  // ----- convergence

  /** The tables after a branch was taken, or not taken, `n` times in a row. */
  function After(t: Tables, taken: bool, pc: bv32, n: nat): (r: Tables)
    requires Sized(t)
    ensures Sized(r)
  {
    if n == 0 then t else Update(After(t, taken, pc, n - 1), taken, pc)
  }

  /** The history of thirteen equal directions. */
  function Steady(taken: bool): bv32 {
    if taken then GHR_MASK else 0
  }

  function ShiftBy(ghr: bv32, taken: bool, n: nat): bv32 {
    if n == 0 then ghr else Shift(ShiftBy(ghr, taken, n - 1), taken)
  }

  lemma {:induction false} HistoryOnly(t: Tables, taken: bool, pc: bv32, n: nat)
    ensures Sized(t) ==> After(t, taken, pc, n).ghr == ShiftBy(t.ghr, taken, n)
  {
    if n > 0 {
      HistoryOnly(t, taken, pc, n - 1);
    }
  }

  /** Thirteen shifts replace the whole history. */
  lemma ThirteenShifts(g0: bv32, taken: bool)
    ensures ShiftBy(g0, taken, 13) == Steady(taken)
  {
    var g1 := Shift(g0, taken);
    var g2 := Shift(g1, taken);
    var g3 := Shift(g2, taken);
    var g4 := Shift(g3, taken);
    var g5 := Shift(g4, taken);
    var g6 := Shift(g5, taken);
    var g7 := Shift(g6, taken);
    var g8 := Shift(g7, taken);
    var g9 := Shift(g8, taken);
    var g10 := Shift(g9, taken);
    var g11 := Shift(g10, taken);
    var g12 := Shift(g11, taken);
    assert ShiftBy(g0, taken, 1) == g1;
    assert ShiftBy(g0, taken, 2) == g2;
    assert ShiftBy(g0, taken, 3) == g3;
    assert ShiftBy(g0, taken, 4) == g4;
    assert ShiftBy(g0, taken, 5) == g5;
    assert ShiftBy(g0, taken, 6) == g6;
    assert ShiftBy(g0, taken, 7) == g7;
    assert ShiftBy(g0, taken, 8) == g8;
    assert ShiftBy(g0, taken, 9) == g9;
    assert ShiftBy(g0, taken, 10) == g10;
    assert ShiftBy(g0, taken, 11) == g11;
    assert ShiftBy(g0, taken, 12) == g12;
    Reshaped(g0, taken, g1, g2, g3, g4, g5, g6, g7, g8, g9, g10, g11, g12);
  }

  lemma Reshaped(g0: bv32, taken: bool, g1: bv32, g2: bv32, g3: bv32, g4: bv32, g5: bv32, g6: bv32, g7: bv32,
                 g8: bv32, g9: bv32, g10: bv32, g11: bv32, g12: bv32)
    requires g1 == Shift(g0, taken) && g2 == Shift(g1, taken) && g3 == Shift(g2, taken) && g4 == Shift(g3, taken)
    requires g5 == Shift(g4, taken) && g6 == Shift(g5, taken) && g7 == Shift(g6, taken) && g8 == Shift(g7, taken)
    requires g9 == Shift(g8, taken) && g10 == Shift(g9, taken) && g11 == Shift(g10, taken) && g12 == Shift(g11, taken)
    ensures Shift(g12, taken) == Steady(taken)
  {
  }

  lemma {:induction false} HistorySettles(t: Tables, taken: bool, pc: bv32, n: nat)
    requires Sized(t) && n >= 13
    ensures After(t, taken, pc, n).ghr == Steady(taken)
  {
    if n == 13 {
      HistoryOnly(t, taken, pc, 13);
      ThirteenShifts(t.ghr, taken);
    } else {
      HistorySettles(t, taken, pc, n - 1);
    }
  }

  /** How far a counter is on the side of the direction: 0 to 3. */
  function Lean(c: nat, taken: bool): int {
    if taken then c else 3 - c
  }

  /** A counter after `n` equal outcomes. */
  function Bumped(c: nat, taken: bool, n: nat): nat {
    if n == 0 then c else Bump(Bumped(c, taken, n - 1), taken)
  }

  lemma {:induction false} BumpedLeans(c: nat, taken: bool, n: nat)
    requires c <= 3
    ensures var r := Bumped(c, taken, n);
      r <= 3 && (Lean(r, taken) >= n || Lean(r, taken) == 3)
  {
    if n > 0 {
      BumpedLeans(c, taken, n - 1);
    }
  }

  lemma {:induction false} BimodalBumped(t: Tables, taken: bool, pc: bv32, n: nat)
    requires Sized(t)
    ensures After(t, taken, pc, n).bimodal[BimIndex(pc)] == Bumped(t.bimodal[BimIndex(pc)], taken, n)
  {
    if n > 0 {
      BimodalBumped(t, taken, pc, n - 1);
      BimodalStep(After(t, taken, pc, n - 1), taken, pc);
    }
  }

  lemma BimodalStep(t: Tables, taken: bool, pc: bv32)
    requires Sized(t)
    ensures Update(t, taken, pc).bimodal[BimIndex(pc)] == Bump(t.bimodal[BimIndex(pc)], taken)
  {
  }

  lemma {:induction false} GshareBumped(t: Tables, taken: bool, pc: bv32, n: nat)
    requires Sized(t) && n >= 13
    ensures var i := GshIndex(pc, Steady(taken));
      After(t, taken, pc, n).gshare[i] == Bumped(After(t, taken, pc, 13).gshare[i], taken, n - 13)
  {
    if n > 13 {
      GshareBumped(t, taken, pc, n - 1);
      HistorySettles(t, taken, pc, n - 1);
      GshareStep(After(t, taken, pc, n - 1), taken, pc);
    }
  }

  /** Once the history has settled, the same slot learns every time. */
  lemma GshareStep(t: Tables, taken: bool, pc: bv32)
    requires Sized(t) && t.ghr == Steady(taken)
    ensures var i := GshIndex(pc, Steady(taken));
      Update(t, taken, pc).gshare[i] == Bump(t.gshare[i], taken)
  {
  }

  lemma {:induction false} AfterInRange(t: Tables, taken: bool, pc: bv32, n: nat)
    requires InRange(t)
    ensures InRange(After(t, taken, pc, n))
  {
    if n > 0 {
      AfterInRange(t, taken, pc, n - 1);
      UpdateInRange(After(t, taken, pc, n - 1), taken, pc);
    }
  }

  /** Convergence: whatever the tables hold, when one branch goes one way again and again with no
      other branch between, every prediction from the sixteenth on is right. */
  lemma Converges(t: Tables, taken: bool, pc: bv32, n: nat)
    requires InRange(t) && n >= 15
    ensures Predict(After(t, taken, pc, n), pc) == taken
  {
    var b, g := BimIndex(pc), GshIndex(pc, Steady(taken));
    AfterInRange(t, taken, pc, 13);
    BimodalBumped(t, taken, pc, n);
    BumpedLeans(t.bimodal[b], taken, n);
    GshareBumped(t, taken, pc, n);
    BumpedLeans(After(t, taken, pc, 13).gshare[g], taken, n - 13);
    HistorySettles(t, taken, pc, n);
  }

  /** Every branch keeps the counters in range. */
  lemma {:induction false} RunInRange(s: Sim, trace: seq<Branch>)
    requires InRange(s.tables)
    ensures InRange(RunBranches(s, trace).tables)
  {
    if trace != [] {
      var b := trace[|trace| - 1];
      RunInRange(s, trace[..|trace| - 1]);
      UpdateInRange(RunBranches(s, trace[..|trace| - 1]).tables, b.taken, PcOf(b.ip));
    }
  }

  /** One branch, `n` times. */
  function Streak(b: Branch, n: nat): (r: seq<Branch>)
    ensures |r| == n
  {
    if n == 0 then [] else Streak(b, n - 1) + [b]
  }

  lemma StreakStep(s: Sim, prefix: seq<Branch>, b: Branch, n: nat)
    requires Sized(s.tables) && n > 0
    ensures RunBranches(s, prefix + Streak(b, n)) == Handle(RunBranches(s, prefix + Streak(b, n - 1)), b.ip, b.taken)
  {
    var front := prefix + Streak(b, n - 1);
    assert prefix + Streak(b, n) == front + [b];
    OneMoreBranch(s, front, b);
  }

  lemma OneMoreBranch(s: Sim, front: seq<Branch>, b: Branch)
    requires Sized(s.tables)
    ensures RunBranches(s, front + [b]) == Handle(RunBranches(s, front), b.ip, b.taken)
  {
    assert (front + [b])[..|front|] == front;
  }

  lemma HandleCost(s: Sim, b: Branch)
    requires Sized(s.tables)
    ensures Mispredicted(Handle(s, b.ip, b.taken))
            == Mispredicted(s) + if Predict(s.tables, PcOf(b.ip)) == b.taken then 0 else 1
  {
  }

  /** A streak at the end of a trace is what `After` iterates. */
  lemma {:induction false} StreakIsAfter(s: Sim, prefix: seq<Branch>, b: Branch, n: nat)
    requires Sized(s.tables)
    ensures RunBranches(s, prefix + Streak(b, n)).tables == After(RunBranches(s, prefix).tables, b.taken, PcOf(b.ip), n)
  {
    if n == 0 {
      assert prefix + Streak(b, 0) == prefix;
    } else {
      StreakIsAfter(s, prefix, b, n - 1);
      StreakStep(s, prefix, b, n);
    }
  }

  function Mispredicted(s: Sim): nat {
    s.takenIncorrect + s.notTakenIncorrect
  }

  lemma StreakLast(s: Sim, prefix: seq<Branch>, b: Branch, n: nat)
    requires InRange(s.tables) && n > 0
    ensures Mispredicted(RunBranches(s, prefix + Streak(b, n)))
            <= Mispredicted(RunBranches(s, prefix + Streak(b, n - 1))) + if n > 15 then 0 else 1
  {
    StreakStep(s, prefix, b, n);
    HandleCost(RunBranches(s, prefix + Streak(b, n - 1)), b);
    if n > 15 {
      StreakIsAfter(s, prefix, b, n - 1);
      RunInRange(s, prefix);
      Converges(RunBranches(s, prefix).tables, b.taken, PcOf(b.ip), n - 1);
    }
  }

  /** After any branches, a streak of one branch in one direction costs at most fifteen wrong
      predictions, however long it is. */
  lemma {:induction false} StreakCost(s: Sim, prefix: seq<Branch>, b: Branch, n: nat)
    requires InRange(s.tables)
    ensures Mispredicted(RunBranches(s, prefix + Streak(b, n)))
            <= Mispredicted(RunBranches(s, prefix)) + if n < 15 then n else 15
  {
    if n == 0 {
      assert prefix + Streak(b, 0) == prefix;
    } else {
      StreakCost(s, prefix, b, n - 1);
      StreakLast(s, prefix, b, n);
    }
  }

  // ----- fifteen is least

  /** Five branches that turn the slot of the full history against taken, and make the choice
      counter there trust the history. */
  function Lead(): seq<Branch> {
    [Branch(0x3FFC, true), Branch(0x7FC4, true), Branch(0x7FE0, true), Branch(0x7FE0, false), Branch(0x7FC4, false)]
  }

  lemma LeadSlots()
    ensures PcOf(0x3FFC) == 0xFFF && PcOf(0x7FC4) == 0x1FF1 && PcOf(0x7FE0) == 0x1FF8 && PcOf(0) == 0
    ensures BimIndex(0xFFF) == 4095 && BimIndex(0x1FF1) == 4081 && BimIndex(0x1FF8) == 4088
    ensures GshIndex(0xFFF, 0) == 4095 && GshIndex(0x1FF1, 1) == 8176 && GshIndex(0x1FF8, 3) == 8187
    ensures GshIndex(0x1FF8, 7) == 8191 && GshIndex(0x1FF1, 14) == 8191
    ensures ChIndex(0xFFF, 0) == 4095 && ChIndex(0x1FF1, 1) == 4080 && ChIndex(0x1FF8, 3) == 4091
    ensures ChIndex(0x1FF8, 7) == 4095 && ChIndex(0x1FF1, 14) == 4095
    ensures Shift(0, true) == 1 && Shift(1, true) == 3 && Shift(3, true) == 7 && Shift(7, false) == 14 && Shift(14, false) == 28
  {
  }

  ghost function LeadTables(n: nat): (t: Tables)
    requires n <= 5
    ensures Sized(t)
  {
    RunBranches(Sim(Initial(), 0, 0, 0, 0), Lead()[..n]).tables
  }

  lemma LeadStep(n: nat)
    requires n < 5
    ensures LeadTables(n + 1) == Update(LeadTables(n), Lead()[n].taken, PcOf(Lead()[n].ip))
  {
    OneMoreBranch(Sim(Initial(), 0, 0, 0, 0), Lead()[..n], Lead()[n]);
    assert Lead()[..n + 1] == Lead()[..n] + [Lead()[n]];
  }

  lemma UpdateAt(t: Tables, taken: bool, pc: bv32, b: nat, g: nat, c: nat)
    requires Sized(t) && b == BimIndex(pc) && g == GshIndex(pc, t.ghr) && c == ChIndex(pc, t.ghr)
    ensures Update(t, taken, pc) == Learned(t, taken, b, g, c).(ghr := Shift(t.ghr, taken))
  {
  }

  /** The entries that matter after the first three branches. */
  lemma LeadToThree()
    ensures var t := LeadTables(3);
      && t.ghr == 7 && t.bimodal[4088] == 2 && t.bimodal[4081] == 2
      && t.gshare[8191] == 1 && t.gshare[4095] == 2 && t.choice[4095] == 1
  {
    LeadSlots();
    LeadStep(0);
    UpdateAt(LeadTables(0), true, 0xFFF, 4095, 4095, 4095);
    LeadStep(1);
    UpdateAt(LeadTables(1), true, 0x1FF1, 4081, 8176, 4080);
    LeadStep(2);
    UpdateAt(LeadTables(2), true, 0x1FF8, 4088, 8187, 4091);
  }

  /** After the five branches branch 0 is trapped. */
  lemma LeadTraps()
    ensures Trapped(LeadTables(5), 0)
  {
    LeadToThree();
    LeadSlots();
    LeadStep(3);
    UpdateAt(LeadTables(3), false, 0x1FF8, 4088, 8191, 4095);
    LeadStep(4);
    UpdateAt(LeadTables(4), false, 0x1FF1, 4081, 8191, 4095);
  }

  /** The entries that decide on branch 0 when its history is full, after `n` times taken. */
  ghost predicate Trapped(t: Tables, n: nat)
    requires Sized(t)
  {
    t.ghr == ShiftBy(28, true, n) && t.gshare[8191] == 0 && t.gshare[4095] >= 2 && t.choice[4095] == 3
  }

  lemma EarlyHistory()
    ensures ShiftBy(28, true, 0) == 28 && ShiftBy(28, true, 1) == 57 && ShiftBy(28, true, 2) == 115
    ensures ShiftBy(28, true, 3) == 231 && ShiftBy(28, true, 4) == 463 && ShiftBy(28, true, 5) == 927
    ensures ShiftBy(28, true, 6) == 1855
  {
    assert ShiftBy(28, true, 1) == 57;
    assert ShiftBy(28, true, 2) == 115;
    assert ShiftBy(28, true, 3) == 231;
    assert ShiftBy(28, true, 4) == 463;
    assert ShiftBy(28, true, 5) == 927;
  }

  lemma LaterHistory()
    ensures ShiftBy(28, true, 7) == 3711 && ShiftBy(28, true, 8) == 7423 && ShiftBy(28, true, 9) == 6655
    ensures ShiftBy(28, true, 10) == 5119 && ShiftBy(28, true, 11) == 2047 && ShiftBy(28, true, 12) == 4095
  {
    EarlyHistory();
    assert ShiftBy(28, true, 7) == 3711;
    assert ShiftBy(28, true, 8) == 7423;
    assert ShiftBy(28, true, 9) == 6655;
    assert ShiftBy(28, true, 10) == 5119;
    assert ShiftBy(28, true, 11) == 2047;
  }

  /** A history that keeps clear of the slots in question. */
  predicate Clear(ghr: bv32) {
    GshIndex(0, ghr) != 8191 && GshIndex(0, ghr) != 4095 && ChIndex(0, ghr) != 4095
  }

  lemma FirstSlots(n: nat)
    requires n < 3
    ensures Clear(ShiftBy(28, true, n))
  {
    EarlyHistory();
    assert GshIndex(0, 28) == 28 && ChIndex(0, 28) == 28;
    assert GshIndex(0, 57) == 57 && ChIndex(0, 57) == 57;
    assert GshIndex(0, 115) == 115 && ChIndex(0, 115) == 115;
    if n == 0 {
      assert ShiftBy(28, true, n) == 28;
    } else if n == 1 {
      assert ShiftBy(28, true, n) == 57;
    } else {
      assert ShiftBy(28, true, n) == 115;
    }
  }

  lemma MiddleSlots(n: nat)
    requires 3 <= n < 8
    ensures Clear(ShiftBy(28, true, n))
  {
    EarlyHistory();
    LaterHistory();
    assert GshIndex(0, 231) == 231 && ChIndex(0, 231) == 231;
    assert GshIndex(0, 463) == 463 && ChIndex(0, 463) == 463 && GshIndex(0, 927) == 927 && ChIndex(0, 927) == 927;
    assert GshIndex(0, 1855) == 1855 && ChIndex(0, 1855) == 1855 && GshIndex(0, 3711) == 3711 && ChIndex(0, 3711) == 3711;
  }

  lemma NextSlots(n: nat)
    requires 8 <= n < 12
    ensures Clear(ShiftBy(28, true, n))
  {
    LaterHistory();
    assert GshIndex(0, 7423) == 7423 && ChIndex(0, 7423) == 3327 && GshIndex(0, 6655) == 6655 && ChIndex(0, 6655) == 2559;
    assert GshIndex(0, 5119) == 5119 && ChIndex(0, 5119) == 1023 && GshIndex(0, 2047) == 2047 && ChIndex(0, 2047) == 2047;
  }

  lemma LearnedElsewhere(t: Tables, b: nat, g: nat, c: nat)
    requires Sized(t) && b < BIMODAL_ENTRIES && g < GSHARE_ENTRIES && c < CHOICE_ENTRIES
    requires g != 8191 && g != 4095 && c != 4095
    ensures var r := Learned(t, true, b, g, c);
      r.gshare[8191] == t.gshare[8191] && r.gshare[4095] == t.gshare[4095] && r.choice[4095] == t.choice[4095]
  {
  }

  /** The twelfth history hits both slots of 4095: both components are right there. */
  lemma LearnedRight(t: Tables, b: nat)
    requires Sized(t) && b < BIMODAL_ENTRIES && t.bimodal[b] >= 2 && t.gshare[4095] >= 2
    ensures var r := Learned(t, true, b, 4095, 4095);
      r.gshare[8191] == t.gshare[8191] && r.gshare[4095] >= 2 && r.choice == t.choice
  {
  }

  lemma LastSlots()
    ensures GshIndex(0, 4095) == 4095 && ChIndex(0, 4095) == 4095
    ensures GshIndex(0, 0x1FFF) == 8191 && ChIndex(0, 0x1FFF) == 4095
  {
  }

  lemma TrapStep(t: Tables, n: nat)
    requires Sized(t) && Trapped(t, n) && n < 13
    requires n == 12 ==> t.bimodal[BimIndex(0)] >= 2
    ensures Trapped(Update(t, true, 0), n + 1)
  {
    if n == 12 {
      LaterHistory();
      LastSlots();
      LearnedRight(t, BimIndex(0));
    } else {
      if n < 3 {
        FirstSlots(n);
      } else if n < 8 {
        MiddleSlots(n);
      } else {
        NextSlots(n);
      }
      LearnedElsewhere(t, BimIndex(0), GshIndex(0, t.ghr), ChIndex(0, t.ghr));
    }
  }

  lemma {:induction false} TrapHolds(t: Tables, n: nat)
    requires InRange(t) && Trapped(t, 0) && n <= 13
    ensures Trapped(After(t, true, 0, n), n)
  {
    if n > 0 {
      TrapHolds(t, n - 1);
      BimodalBumped(t, true, 0, n - 1);
      BumpedLeans(t.bimodal[BimIndex(0)], true, n - 1);
      TrapStep(After(t, true, 0, n - 1), n - 1);
    }
  }

  lemma TrapSprings(t: Tables, b: nat)
    requires Sized(t) && t.gshare[8191] == 0 && t.choice[4095] == 3 && b < BIMODAL_ENTRIES && t.bimodal[b] >= 2
    ensures Learned(t, true, b, 8191, 4095).gshare[8191] == 1 && Learned(t, true, b, 8191, 4095).choice[4095] == 2
  {
  }

  lemma WrongAgain(t: Tables)
    requires Sized(t) && t.gshare[8191] == 0 && t.choice[4095] == 3 && t.bimodal[BimIndex(0)] >= 2
    requires t.ghr == 0x1FFF && Update(t, true, 0).ghr == 0x1FFF
    ensures Predict(Update(t, true, 0), 0) == false
  {
    LastSlots();
    TrapSprings(t, BimIndex(0));
  }

  lemma TrappedIsWrong(t: Tables)
    requires InRange(t) && Trapped(t, 0)
    ensures Predict(After(t, true, 0, 14), 0) == false
  {
    TrapHolds(t, 13);
    BimodalBumped(t, true, 0, 13);
    BumpedLeans(t.bimodal[BimIndex(0)], true, 13);
    HistorySettles(t, true, 0, 13);
    HistorySettles(t, true, 0, 14);
    assert After(t, true, 0, 14) == Update(After(t, true, 0, 13), true, 0);
    WrongAgain(After(t, true, 0, 13));
  }

  /** Sixteen is least: from the tool's start, after the five branches, branch 0 is taken again and
      again and its fifteenth prediction is still wrong. */
  lemma FifteenthCanBeWrong()
    ensures var s := RunBranches(Sim(Initial(), 0, 0, 0, 0), Lead() + Streak(Branch(0, true), 14));
      Predict(s.tables, PcOf(0)) == false
  {
    var start := Sim(Initial(), 0, 0, 0, 0);
    assert Lead()[..5] == Lead();
    LeadTraps();
    LeadSlots();
    RunInRange(start, Lead());
    TrappedIsWrong(LeadTables(5));
    StreakIsAfter(start, Lead(), Branch(0, true), 14);
  }

  // ----- the bimodal component alone

  /** The outcomes of the branches that share a bimodal slot. */
  function OutcomesAt(trace: seq<Branch>, slot: nat): seq<bool> {
    if trace == [] then []
    else
      var b := trace[|trace| - 1];
      OutcomesAt(trace[..|trace| - 1], slot) + (if BimIndex(PcOf(b.ip)) == slot then [b.taken] else [])
  }

  /** A counter fed with outcomes. */
  function Fed(c: nat, outcomes: seq<bool>): nat {
    if outcomes == [] then c
    else Bump(Fed(c, outcomes[..|outcomes| - 1]), outcomes[|outcomes| - 1])
  }

  /** Outcomes that the counter predicted wrongly. */
  function Wrong(c: nat, outcomes: seq<bool>): nat {
    if outcomes == [] then 0
    else
      var n := |outcomes| - 1;
      Wrong(c, outcomes[..n]) + if Agrees(Fed(c, outcomes[..n]), outcomes[n]) then 0 else 1
  }

  function Count(outcomes: seq<bool>, b: bool): nat {
    if outcomes == [] then 0
    else Count(outcomes[..|outcomes| - 1], b) + if outcomes[|outcomes| - 1] == b then 1 else 0
  }

  /** Wrong predictions of the bimodal component at a slot over a trace of the whole predictor. */
  function BimodalWrong(s: Sim, trace: seq<Branch>, slot: nat): nat
    requires Sized(s.tables)
  {
    if trace == [] then 0
    else
      var n := |trace| - 1;
      var b, before := trace[n], RunBranches(s, trace[..n]);
      var pc := PcOf(b.ip);
      BimodalWrong(s, trace[..n], slot)
      + if BimIndex(pc) == slot && BimPrediction(before.tables, pc) != b.taken then 1 else 0
  }

  /** A slot's counter depends on nothing but the outcomes at the slot. */
  lemma {:induction false} SlotIsFed(s: Sim, trace: seq<Branch>, slot: nat)
    requires Sized(s.tables) && slot < BIMODAL_ENTRIES
    ensures RunBranches(s, trace).tables.bimodal[slot] == Fed(s.tables.bimodal[slot], OutcomesAt(trace, slot))
    ensures BimodalWrong(s, trace, slot) == Wrong(s.tables.bimodal[slot], OutcomesAt(trace, slot))
  {
    if trace != [] {
      var front, b := trace[..|trace| - 1], trace[|trace| - 1];
      SlotIsFed(s, front, slot);
      SlotStep(RunBranches(s, front), b, slot);
      var outcomes := OutcomesAt(front, slot);
      if BimIndex(PcOf(b.ip)) == slot {
        assert OutcomesAt(trace, slot) == outcomes + [b.taken];
        assert (outcomes + [b.taken])[..|outcomes|] == outcomes;
      } else {
        assert OutcomesAt(trace, slot) == outcomes;
      }
    }
  }

  lemma SlotStep(s: Sim, b: Branch, slot: nat)
    requires Sized(s.tables) && slot < BIMODAL_ENTRIES
    ensures Handle(s, b.ip, b.taken).tables.bimodal[slot] ==
            if BimIndex(PcOf(b.ip)) == slot then Bump(s.tables.bimodal[slot], b.taken) else s.tables.bimodal[slot]
    ensures BimIndex(PcOf(b.ip)) == slot ==>
              (BimPrediction(s.tables, PcOf(b.ip)) == b.taken <==> Agrees(s.tables.bimodal[slot], b.taken))
  {
  }

  /** Each wrong prediction moves the counter two steps of credit: with credit 2 per outcome of
      the other direction, wrong predictions are paid for. */
  lemma {:induction false} WrongIsPaid(c: nat, outcomes: seq<bool>, taken: bool)
    requires c <= 3
    ensures var last := Fed(c, outcomes);
      && last <= 3
      && Wrong(c, outcomes) + Credit(c, taken) <= 2 * Count(outcomes, !taken) + Credit(last, taken)
  {
    if outcomes != [] {
      WrongIsPaid(c, outcomes[..|outcomes| - 1], taken);
    }
  }

  /** What a counter can still lose before it predicts the direction for good: at most 2. */
  function Credit(c: nat, taken: bool): nat {
    var lean := Lean(c, taken);
    if lean >= 2 then 2 else if lean == 1 then 1 else 0
  }

  /** Bimodal mistakes at a slot, on any trace from the start: at most twice the taken outcomes,
      and at most one more than twice the outcomes that were not taken. */
  lemma BimodalMistakes(trace: seq<Branch>, slot: nat)
    requires slot < BIMODAL_ENTRIES
    ensures var outcomes := OutcomesAt(trace, slot);
      var wrong := BimodalWrong(Sim(Initial(), 0, 0, 0, 0), trace, slot);
      wrong <= 1 + 2 * Count(outcomes, false) && wrong <= 2 * Count(outcomes, true)
  {
    SlotIsFed(Sim(Initial(), 0, 0, 0, 0), trace, slot);
    WrongIsPaid(1, OutcomesAt(trace, slot), true);
    WrongIsPaid(1, OutcomesAt(trace, slot), false);
  }

  /** ... and from arbitrary tables at most two more than twice either. */
  lemma BimodalMistakesAnywhere(s: Sim, trace: seq<Branch>, slot: nat, taken: bool)
    requires InRange(s.tables) && slot < BIMODAL_ENTRIES
    ensures BimodalWrong(s, trace, slot) <= 2 + 2 * Count(OutcomesAt(trace, slot), !taken)
  {
    SlotIsFed(s, trace, slot);
    WrongIsPaid(s.tables.bimodal[slot], OutcomesAt(trace, slot), taken);
  }
}
