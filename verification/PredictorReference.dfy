/** The tournament predictor in terms of the outcomes alone: which earlier outcomes each counter
    has seen, what the history holds, and what is predicted. */
module PredictorReference {
  import opened Predictor
  import opened PredictorLaws

  // ----- history

  /** Bit `k` of a number of 13 bits. */
  predicate Bit(x: bv32, k: nat)
    requires k < 13
  {
    if k == 0 then x & 1 != 0 else if k == 1 then x & 2 != 0 else if k == 2 then x & 4 != 0
    else if k == 3 then x & 8 != 0 else if k == 4 then x & 0x10 != 0 else if k == 5 then x & 0x20 != 0
    else if k == 6 then x & 0x40 != 0 else if k == 7 then x & 0x80 != 0 else if k == 8 then x & 0x100 != 0
    else if k == 9 then x & 0x200 != 0 else if k == 10 then x & 0x400 != 0 else if k == 11 then x & 0x800 != 0
    else x & 0x1000 != 0
  }

  function HistoryAfter(trace: seq<Branch>): bv32 {
    if trace == [] then 0
    else Shift(HistoryAfter(trace[..|trace| - 1]), trace[|trace| - 1].taken)
  }

  /** A shift moves each of the thirteen bits up by one and takes the outcome in below. */
  lemma ShiftMovesBits(g: bv32, taken: bool, k: nat)
    requires k < 13
    ensures Bit(Shift(g, taken), k) <==> if k == 0 then taken else Bit(g, k - 1)
    ensures Shift(g, taken) <= 0x1FFF
  {
    if k < 7 {
      if k == 0 {} else if k == 1 {} else if k == 2 {} else if k == 3 {} else if k == 4 {} else if k == 5 {} else {}
    } else {
      if k == 7 {} else if k == 8 {} else if k == 9 {} else if k == 10 {} else if k == 11 {} else {}
    }
  }

  /** Bit `k` of the history is the outcome of the branch `k` before the last; there are 13. */
  lemma {:induction false} HistoryBits(trace: seq<Branch>, k: nat)
    requires k < 13
    ensures Bit(HistoryAfter(trace), k) <==> k < |trace| && trace[|trace| - 1 - k].taken
    ensures HistoryAfter(trace) <= 0x1FFF
  {
    if trace == [] {
      NoBits(k);
    } else {
      var front := trace[..|trace| - 1];
      ShiftMovesBits(HistoryAfter(front), trace[|trace| - 1].taken, k);
      if k > 0 {
        HistoryBits(front, k - 1);
      }
    }
  }

  lemma NoBits(k: nat)
    requires k < 13
    ensures !Bit(0, k)
  {
  }

  // ----- slots

  lemma SameNumber12(x: bv12, y: bv12)
    ensures x as nat == y as nat <==> x == y
  {
    if x as nat == y as nat {
      assert (x as nat) as bv12 == x && (y as nat) as bv12 == y;
    }
  }

  lemma SameNumber13(x: bv13, y: bv13)
    ensures x as nat == y as nat <==> x == y
  {
    if x as nat == y as nat {
      assert (x as nat) as bv13 == x && (y as nat) as bv13 == y;
    }
  }

  lemma BimIndexBits(p: bv32, q: bv32)
    ensures BimIndex(p) == BimIndex(q) <==> p & 0xFFF == q & 0xFFF
  {
    SameNumber12((p & 0xFFF) as bv12, (q & 0xFFF) as bv12);
  }

  /** Two branches share a bimodal slot exactly when their word addresses agree modulo 4096. */
  lemma BimodalSlots(a: bv64, b: bv64)
    ensures BimIndex(PcOf(a)) == BimIndex(PcOf(b)) <==> a / 4 % 4096 == b / 4 % 4096
  {
    BimIndexBits(PcOf(a), PcOf(b));
    LowBitsAgree(PcOf(a), PcOf(b));
    WordBits(a);
    WordBits(b);
  }

  lemma LowBitsAgree(x: bv32, y: bv32)
    ensures x & 0xFFF == y & 0xFFF <==> (x & 0xFFF) as bv64 == (y & 0xFFF) as bv64
  {
  }

  lemma WordBits(a: bv64)
    ensures (PcOf(a) & 0xFFF) as bv64 == a / 4 % 4096
    ensures (PcOf(a) & 0x1FFF) as bv64 == a / 4 % 8192
  {
  }

  /** They share a gshare slot exactly when the low 13 bits of address and history, added without
      carry, agree. */
  lemma GshareSlots(p: bv32, g: bv32, q: bv32, h: bv32)
    ensures GshIndex(p, g) == GshIndex(q, h) <==> (p ^ g) & 0x1FFF == (q ^ h) & 0x1FFF
  {
    SameNumber13(((p ^ g) & 0x1FFF) as bv13, ((q ^ h) & 0x1FFF) as bv13);
  }

  /** ... and a choice slot when the low 12 do. */
  lemma ChoiceSlots(p: bv32, g: bv32, q: bv32, h: bv32)
    ensures ChIndex(p, g) == ChIndex(q, h) <==> (p ^ g) & 0xFFF == (q ^ h) & 0xFFF
  {
    SameNumber12(((p ^ g) & 0xFFF) as bv12, ((q ^ h) & 0xFFF) as bv12);
  }

  // ----- counters

  /** A counter moves by one and stays within 0 to 3. */
  lemma BumpClamps(c: nat, up: bool)
    requires c <= 3
    ensures Bump(c, true) == (if c == 3 then 3 else c + 1) && Bump(c, false) == (if c == 0 then 0 else c - 1)
  {
  }

  /** The outcomes that a gshare slot has seen. */
  function OutcomesAtGshare(trace: seq<Branch>, slot: nat): seq<bool> {
    if trace == [] then []
    else
      var front, b := trace[..|trace| - 1], trace[|trace| - 1];
      OutcomesAtGshare(front, slot)
      + (if GshIndex(PcOf(b.ip), HistoryAfter(front)) == slot then [b.taken] else [])
  }

  /** The side of a counter that starts at 1 and has seen these outcomes. */
  predicate Side(outcomes: seq<bool>) {
    Fed(1, outcomes) >= 2
  }

  predicate LocalSide(trace: seq<Branch>, ip: bv64) {
    Side(OutcomesAt(trace, BimIndex(PcOf(ip))))
  }

  predicate GlobalSide(trace: seq<Branch>, ip: bv64) {
    Side(OutcomesAtGshare(trace, GshIndex(PcOf(ip), HistoryAfter(trace))))
  }

  /** At a choice slot, each branch on which the components disagreed: whether the global one was
      right. */
  function Contests(trace: seq<Branch>, slot: nat): seq<bool> {
    if trace == [] then []
    else
      var front, b := trace[..|trace| - 1], trace[|trace| - 1];
      Contests(front, slot)
      + (if ChIndex(PcOf(b.ip), HistoryAfter(front)) == slot && GlobalSide(front, b.ip) != LocalSide(front, b.ip)
         then [GlobalSide(front, b.ip) == b.taken] else [])
  }

  /** The prediction: the global component's side where it has won the contests, else the local one's. */
  predicate Foretold(trace: seq<Branch>, ip: bv64) {
    if Side(Contests(trace, ChIndex(PcOf(ip), HistoryAfter(trace)))) then GlobalSide(trace, ip) else LocalSide(trace, ip)
  }

  function Begun(): (s: Sim)
    ensures Sized(s.tables)
  {
    Sim(Initial(), 0, 0, 0, 0)
  }

  lemma {:induction false} HistoryIs(trace: seq<Branch>)
    ensures RunBranches(Begun(), trace).tables.ghr == HistoryAfter(trace)
  {
    if trace != [] {
      HistoryIs(trace[..|trace| - 1]);
    }
  }

  lemma FedOneMore(c: nat, outcomes: seq<bool>, b: bool)
    ensures Fed(c, outcomes + [b]) == Bump(Fed(c, outcomes), b)
  {
    assert (outcomes + [b])[..|outcomes|] == outcomes;
  }

  lemma Nothing<T>(s: seq<T>)
    ensures s + [] == s
  {
  }

  /** Each gshare counter depends on the outcomes at its slot alone. */
  lemma {:induction false} GshareIsFed(trace: seq<Branch>, slot: nat)
    requires slot < GSHARE_ENTRIES
    ensures RunBranches(Begun(), trace).tables.gshare[slot] == Fed(1, OutcomesAtGshare(trace, slot))
  {
    if trace != [] {
      var front, b := trace[..|trace| - 1], trace[|trace| - 1];
      GshareIsFed(front, slot);
      HistoryIs(front);
      GshareStep(RunBranches(Begun(), front).tables, b.taken, PcOf(b.ip), slot);
      FedOneMore(1, OutcomesAtGshare(front, slot), b.taken);
      Nothing(OutcomesAtGshare(front, slot));
    }
  }

  lemma GshareStep(t: Tables, taken: bool, pc: bv32, slot: nat)
    requires Sized(t) && slot < GSHARE_ENTRIES
    ensures Update(t, taken, pc).gshare[slot] ==
            if GshIndex(pc, t.ghr) == slot then Bump(t.gshare[slot], taken) else t.gshare[slot]
  {
  }

  lemma SidesAre(trace: seq<Branch>, ip: bv64)
    ensures var t := RunBranches(Begun(), trace).tables;
      && BimPrediction(t, PcOf(ip)) == LocalSide(trace, ip)
      && GshPrediction(t, PcOf(ip)) == GlobalSide(trace, ip)
  {
    SlotIsFed(Begun(), trace, BimIndex(PcOf(ip)));
    HistoryIs(trace);
    GshareIsFed(trace, GshIndex(PcOf(ip), HistoryAfter(trace)));
  }

  /** Each choice counter depends on the contests at its slot alone. */
  lemma {:induction false} ChoiceIsFed(trace: seq<Branch>, slot: nat)
    requires slot < CHOICE_ENTRIES
    ensures RunBranches(Begun(), trace).tables.choice[slot] == Fed(1, Contests(trace, slot))
  {
    if trace != [] {
      var front, b := trace[..|trace| - 1], trace[|trace| - 1];
      ChoiceIsFed(front, slot);
      HistoryIs(front);
      SidesAre(front, b.ip);
      ChoiceStep(RunBranches(Begun(), front).tables, b.taken, PcOf(b.ip), slot);
      FedOneMore(1, Contests(front, slot), GlobalSide(front, b.ip) == b.taken);
      Nothing(Contests(front, slot));
    }
  }

  lemma ChoiceStep(t: Tables, taken: bool, pc: bv32, slot: nat)
    requires Sized(t) && slot < CHOICE_ENTRIES
    ensures var local, global := BimPrediction(t, pc), GshPrediction(t, pc);
      Update(t, taken, pc).choice[slot] ==
      if ChIndex(pc, t.ghr) == slot && local != global then Bump(t.choice[slot], global == taken) else t.choice[slot]
  {
  }

  /** After any branches from the start, the prediction is what the outcomes foretell. */
  lemma PredictionIsForetold(trace: seq<Branch>, ip: bv64)
    ensures Predict(RunBranches(Begun(), trace).tables, PcOf(ip)) == Foretold(trace, ip)
  {
    SidesAre(trace, ip);
    HistoryIs(trace);
    ChoiceIsFed(trace, ChIndex(PcOf(ip), HistoryAfter(trace)));
  }

  /** Branches foretold one way that went one way. */
  function Tally(trace: seq<Branch>, foretold: bool, taken: bool): nat {
    if trace == [] then 0
    else
      var front, b := trace[..|trace| - 1], trace[|trace| - 1];
      Tally(front, foretold, taken) + if Foretold(front, b.ip) == foretold && b.taken == taken then 1 else 0
  }

  /** Each of the four totals, exactly, over every trace. */
  lemma {:induction false} TotalsAreTallies(trace: seq<Branch>)
    ensures var s := RunBranches(Begun(), trace);
      && s.takenCorrect == Tally(trace, true, true) && s.takenIncorrect == Tally(trace, true, false)
      && s.notTakenCorrect == Tally(trace, false, false) && s.notTakenIncorrect == Tally(trace, false, true)
  {
    if trace != [] {
      var front, b := trace[..|trace| - 1], trace[|trace| - 1];
      TotalsAreTallies(front);
      PredictionIsForetold(front, b.ip);
    }
  }
}
