/** The tournament branch predictor: plain tables of counters, and the class that packs four
    two-bit counters into each byte. */
module Predictor {

  const BIMODAL_ENTRIES: nat := 4096
  const GSHARE_ENTRIES: nat := 8192
  const CHOICE_ENTRIES: nat := 4096
  const GHR_MASK: bv32 := 0x1FFF

  /** Counters in 0..3, and the directions of the last 13 branches. */
  datatype Tables = Tables(gshare: seq<nat>, bimodal: seq<nat>, choice: seq<nat>, ghr: bv32)

  predicate Sized(t: Tables) {
    |t.gshare| == GSHARE_ENTRIES && |t.bimodal| == BIMODAL_ENTRIES && |t.choice| == CHOICE_ENTRIES
  }

  /** Branch addresses lose their two low bits and what exceeds 32 bits. */
  function PcOf(address: bv64): bv32 {
    ((address >> 2) & 0xFFFF_FFFF) as bv32
  }

  function BimIndex(pc: bv32): (i: nat)
    ensures i < BIMODAL_ENTRIES
  {
    (pc & 0xFFF) as bv12 as nat
  }

  function GshIndex(pc: bv32, ghr: bv32): (i: nat)
    ensures i < GSHARE_ENTRIES
  {
    ((pc ^ ghr) & 0x1FFF) as bv13 as nat
  }

  function ChIndex(pc: bv32, ghr: bv32): (i: nat)
    ensures i < CHOICE_ENTRIES
  {
    ((pc ^ ghr) & 0xFFF) as bv12 as nat
  }

  function Bump(c: nat, up: bool): nat {
    if up then if c < 3 then c + 1 else c else if c > 0 then c - 1 else c
  }

  function Shift(ghr: bv32, taken: bool): bv32 {
    ((ghr << 1) | (if taken then 1 else 0)) & GHR_MASK
  }

  function BimPrediction(t: Tables, pc: bv32): bool
    requires Sized(t)
  {
    t.bimodal[BimIndex(pc)] >= 2
  }

  function GshPrediction(t: Tables, pc: bv32): bool
    requires Sized(t)
  {
    t.gshare[GshIndex(pc, t.ghr)] >= 2
  }

  /** The choice counter picks the global or the local component. */
  function Predict(t: Tables, pc: bv32): bool
    requires Sized(t)
  {
    if t.choice[ChIndex(pc, t.ghr)] >= 2 then GshPrediction(t, pc) else BimPrediction(t, pc)
  }

  /** Both components learn the outcome at their slots; the choice counter moves towards a
      component that alone was right. */
  function Learned(t: Tables, taken: bool, bim: nat, gsh: nat, ch: nat): (r: Tables)
    requires Sized(t) && bim < BIMODAL_ENTRIES && gsh < GSHARE_ENTRIES && ch < CHOICE_ENTRIES
    ensures Sized(r)
  {
    var bimRight, gshRight := (t.bimodal[bim] >= 2) == taken, (t.gshare[gsh] >= 2) == taken;
    Tables(t.gshare[gsh := Bump(t.gshare[gsh], taken)],
           t.bimodal[bim := Bump(t.bimodal[bim], taken)],
           if gshRight == bimRight then t.choice else t.choice[ch := Bump(t.choice[ch], gshRight)],
           t.ghr)
  }

  /** ... and the outcome enters the history. */
  function Update(t: Tables, taken: bool, pc: bv32): (r: Tables)
    requires Sized(t)
    ensures Sized(r)
  {
    Learned(t, taken, BimIndex(pc), GshIndex(pc, t.ghr), ChIndex(pc, t.ghr)).(ghr := Shift(t.ghr, taken))
  }

  // ----- packing

  /** Counter `k` of a byte. */
  function Unpack(b: bv8, k: nat): (c: bv8)
    requires k < 4
    ensures c <= 3
  {
    (b >> (2 * k)) & 3
  }

  function Pack(b: bv8, k: nat, v: bv8): bv8
    requires k < 4
  {
    (b & !(3 << (2 * k))) | ((v & 3) << (2 * k))
  }

  /** A packed counter reads back, and packing it disturbs none of the other three. */
  lemma PackUnpack(b: bv8, k: nat, v: bv8, j: nat)
    requires k < 4 && j < 4 && v <= 3
    ensures Unpack(Pack(b, k, v), j) == if j == k then v else Unpack(b, j)
  {
    if k < 2 {
      PackLow(b, k, v, j);
    } else {
      PackHigh(b, k, v, j);
    }
  }

  lemma PackLow(b: bv8, k: nat, v: bv8, j: nat)
    requires k < 2 && j < 4 && v <= 3
    ensures Unpack(Pack(b, k, v), j) == if j == k then v else Unpack(b, j)
  {
    if k == 0 {
      if j == 0 {} else if j == 1 {} else if j == 2 {} else {}
    } else {
      if j == 0 {} else if j == 1 {} else if j == 2 {} else {}
    }
  }

  lemma PackHigh(b: bv8, k: nat, v: bv8, j: nat)
    requires 2 <= k < 4 && j < 4 && v <= 3
    ensures Unpack(Pack(b, k, v), j) == if j == k then v else Unpack(b, j)
  {
    if k == 2 {
      if j == 0 {} else if j == 1 {} else if j == 2 {} else {}
    } else {
      if j == 0 {} else if j == 1 {} else if j == 2 {} else {}
    }
  }

  ghost function ByteCounters(b: bv8): (r: seq<nat>)
    ensures |r| == 4
  {
    [Unpack(b, 0) as nat, Unpack(b, 1) as nat, Unpack(b, 2) as nat, Unpack(b, 3) as nat]
  }

  /** The counters of a packed table. */
  ghost function Counters(bytes: seq<bv8>): (r: seq<nat>)
    ensures |r| == 4 * |bytes|
  {
    if bytes == [] then [] else Counters(bytes[..|bytes| - 1]) + ByteCounters(bytes[|bytes| - 1])
  }

  /** Counter `i` is counter `i % 4` of byte `i / 4`. */
  lemma {:induction false} CountersAt(bytes: seq<bv8>, i: nat)
    requires i < 4 * |bytes|
    ensures Counters(bytes)[i] == Unpack(bytes[i / 4], i % 4) as nat
  {
    var n := |bytes| - 1;
    if i < 4 * n {
      CountersAt(bytes[..n], i);
      assert Counters(bytes)[i] == Counters(bytes[..n])[i];
    } else {
      assert Counters(bytes)[i] == ByteCounters(bytes[n])[i - 4 * n];
    }
  }

  lemma PackCounters(bytes: seq<bv8>, idx: nat, v: bv8)
    requires idx < 4 * |bytes| && v <= 3
    ensures Counters(bytes[idx / 4 := Pack(bytes[idx / 4], idx % 4, v)]) == Counters(bytes)[idx := v as nat]
  {
    var bytes' := bytes[idx / 4 := Pack(bytes[idx / 4], idx % 4, v)];
    forall i | 0 <= i < 4 * |bytes|
      ensures Counters(bytes')[i] == Counters(bytes)[idx := v as nat][i]
    {
      CountersAt(bytes, i);
      CountersAt(bytes', i);
      if i / 4 == idx / 4 {
        PackUnpack(bytes[idx / 4], idx % 4, v, i % 4);
      }
    }
  }

  /** The byte 0x55 is four counters of 1, weakly not taken. */
  lemma {:induction false} WeaklyNotTaken(bytes: seq<bv8>)
    requires forall i | 0 <= i < |bytes| :: bytes[i] == 0x55
    ensures Counters(bytes) == seq(4 * |bytes|, _ => 1)
  {
    if bytes != [] {
      WeaklyNotTaken(bytes[..|bytes| - 1]);
      assert ByteCounters(0x55) == [1, 1, 1, 1];
    }
  }

  function Initial(): Tables {
    Tables(seq(GSHARE_ENTRIES, _ => 1), seq(BIMODAL_ENTRIES, _ => 1), seq(CHOICE_ENTRIES, _ => 1), 0)
  }

  /** The predictor with its four outcome totals. */
  datatype Sim = Sim(tables: Tables, takenCorrect: nat, takenIncorrect: nat, notTakenCorrect: nat, notTakenIncorrect: nat)

  function Handle(s: Sim, ip: bv64, direction: bool): (r: Sim)
    requires Sized(s.tables)
    ensures Sized(r.tables)
  {
    var predicted := Predict(s.tables, PcOf(ip));
    Sim(Update(s.tables, direction, PcOf(ip)),
        s.takenCorrect + (if predicted && direction then 1 else 0),
        s.takenIncorrect + (if predicted && !direction then 1 else 0),
        s.notTakenCorrect + (if !predicted && !direction then 1 else 0),
        s.notTakenIncorrect + (if !predicted && direction then 1 else 0))
  }

  class BranchPredictor {
    const gshare: array<bv8>
    const bimodal: array<bv8>
    const choice: array<bv8>
    var ghr: bv32
    var takenCorrect: nat
    var takenIncorrect: nat
    var notTakenCorrect: nat
    var notTakenIncorrect: nat

    ghost predicate Fixed() {
      && gshare.Length == GSHARE_ENTRIES / 4 && bimodal.Length == BIMODAL_ENTRIES / 4 && choice.Length == CHOICE_ENTRIES / 4
      && gshare != bimodal && gshare != choice && bimodal != choice
    }

    ghost function Plain(): (t: Tables)
      requires Fixed()
      reads this, gshare, bimodal, choice
      ensures Sized(t)
    {
      Tables(Counters(gshare[..]), Counters(bimodal[..]), Counters(choice[..]), ghr)
    }

    ghost function Totals(): (s: Sim)
      requires Fixed()
      reads this, gshare, bimodal, choice
      ensures s.tables == Plain()
    {
      Sim(Plain(), takenCorrect, takenIncorrect, notTakenCorrect, notTakenIncorrect)
    }

    constructor ()
      ensures Fixed() && Totals() == Sim(Initial(), 0, 0, 0, 0)
      ensures fresh(gshare) && fresh(bimodal) && fresh(choice)
    {
      gshare := new bv8[GSHARE_ENTRIES / 4];
      bimodal := new bv8[BIMODAL_ENTRIES / 4];
      choice := new bv8[CHOICE_ENTRIES / 4];
      ghr := 0;
      takenCorrect, takenIncorrect, notTakenCorrect, notTakenIncorrect := 0, 0, 0, 0;
      new;
      FillTable(gshare);
      FillTable(bimodal);
      FillTable(choice);
    }

    static method FillTable(arr: array<bv8>)
      modifies arr
      ensures Counters(arr[..]) == seq(4 * arr.Length, _ => 1)
    {
      for i := 0 to arr.Length
        invariant forall k | 0 <= k < i :: arr[k] == 0x55
      {
        arr[i] := 0x55;
      }
      WeaklyNotTaken(arr[..]);
    }

    static method GetCounter(arr: array<bv8>, idx: nat) returns (c: nat)
      requires idx < 4 * arr.Length
      ensures c <= 3 && c == Counters(arr[..])[idx]
    {
      CountersAt(arr[..], idx);
      c := Unpack(arr[idx / 4], idx % 4) as nat;
    }

    static method SetCounter(arr: array<bv8>, idx: nat, val: nat)
      requires idx < 4 * arr.Length && val <= 3
      modifies arr
      ensures Counters(arr[..]) == old(Counters(arr[..]))[idx := val]
    {
      PackCounters(arr[..], idx, val as bv8);
      arr[idx / 4] := Pack(arr[idx / 4], idx % 4, val as bv8);
      assert arr[..] == old(arr[..])[idx / 4 := arr[idx / 4]];
    }

    /** Moves a counter one step, stopping at 0 and 3. */
    static method BumpCounter(arr: array<bv8>, idx: nat, ctr: nat, up: bool)
      requires idx < 4 * arr.Length && ctr <= 3 && ctr == Counters(arr[..])[idx]
      modifies arr
      ensures Counters(arr[..]) == old(Counters(arr[..]))[idx := Bump(ctr, up)]
    {
      if up {
        if ctr < 3 {
          SetCounter(arr, idx, ctr + 1);
        }
      } else {
        if ctr > 0 {
          SetCounter(arr, idx, ctr - 1);
        }
      }
    }

    /** The choice counter moves only when exactly one component was right. */
    static method UpdateChoice(arr: array<bv8>, idx: nat, gshCorrect: bool, bimCorrect: bool)
      requires idx < 4 * arr.Length
      modifies arr
      ensures Counters(arr[..]) == if gshCorrect == bimCorrect then old(Counters(arr[..]))
                                   else old(Counters(arr[..]))[idx := Bump(old(Counters(arr[..]))[idx], gshCorrect)]
    {
      var ctr := GetCounter(arr, idx);
      if gshCorrect && !bimCorrect {
        BumpCounter(arr, idx, ctr, true);
      } else if bimCorrect && !gshCorrect {
        BumpCounter(arr, idx, ctr, false);
      }
    }

    method MakePrediction(address: bv64) returns (prediction: bool)
      requires Fixed()
      ensures prediction == Predict(Plain(), PcOf(address))
    {
      var pc := PcOf(address);
      prediction := Consult(BimIndex(pc), GshIndex(pc, ghr), ChIndex(pc, ghr));
    }

    /** What the three tables say at the given slots. */
    method Consult(bimIdx: nat, gshIdx: nat, chIdx: nat) returns (prediction: bool)
      requires Fixed() && bimIdx < BIMODAL_ENTRIES && gshIdx < GSHARE_ENTRIES && chIdx < CHOICE_ENTRIES
      ensures var t := Plain();
        prediction == if t.choice[chIdx] >= 2 then t.gshare[gshIdx] >= 2 else t.bimodal[bimIdx] >= 2
    {
      var bim := GetCounter(bimodal, bimIdx);
      var gsh := GetCounter(gshare, gshIdx);
      var ch := GetCounter(choice, chIdx);
      return if ch >= 2 then gsh >= 2 else bim >= 2;
    }

    method MakeUpdate(takenActually: bool, address: bv64)
      requires Fixed()
      modifies `ghr, gshare, bimodal, choice
      ensures Plain() == Update(old(Plain()), takenActually, PcOf(address))
    {
      var pc := PcOf(address);
      Learn(takenActually, BimIndex(pc), GshIndex(pc, ghr), ChIndex(pc, ghr));
      ghr := Shift(ghr, takenActually);
    }

    /** The outcome enters the three tables at the given slots. */
    method Learn(takenActually: bool, bimIdx: nat, gshIdx: nat, chIdx: nat)
      requires Fixed() && bimIdx < BIMODAL_ENTRIES && gshIdx < GSHARE_ENTRIES && chIdx < CHOICE_ENTRIES
      modifies gshare, bimodal, choice
      ensures Plain() == Learned(old(Plain()), takenActually, bimIdx, gshIdx, chIdx)
    {
      var bimCtr := GetCounter(bimodal, bimIdx);
      var gshCtr := GetCounter(gshare, gshIdx);
      var bimCorrect, gshCorrect := (bimCtr >= 2) == takenActually, (gshCtr >= 2) == takenActually;
      UpdateChoice(choice, chIdx, gshCorrect, bimCorrect);
      BumpCounter(bimodal, bimIdx, bimCtr, takenActually);
      BumpCounter(gshare, gshIdx, gshCtr, takenActually);
    }

    method HandleBranch(ip: bv64, direction: bool)
      requires Fixed()
      modifies this, gshare, bimodal, choice
      ensures Totals() == Handle(old(Totals()), ip, direction)
    {
      var prediction := MakePrediction(ip);
      MakeUpdate(direction, ip);
      if prediction {
        if direction {
          takenCorrect := takenCorrect + 1;
        } else {
          takenIncorrect := takenIncorrect + 1;
        }
      } else {
        if direction {
          notTakenIncorrect := notTakenIncorrect + 1;
        } else {
          notTakenCorrect := notTakenCorrect + 1;
        }
      }
    }
  }
}
