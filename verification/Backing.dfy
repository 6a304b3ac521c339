/** How the walker's value-level state is laid out in physical frames. */
module Backing {
  import opened Frames
  import opened PageTable
  import opened FrameLaws

  /** Frame `a` holds exactly the words `words`, all of them written. */
  ghost predicate Holds(mem: map<nat, seq<Word>>, a: nat, words: seq<nat>) {
    && a in mem && |mem[a]| == |words|
    && forall k | 0 <= k < |words| :: mem[a][k] == Written(words[k])
  }

  function RootWord(row: Row): nat {
    if row.Table? then row.addr else 0
  }

  function RootWords(rows: seq<Row>): (r: seq<nat>)
    ensures |r| == |rows| && forall i | 0 <= i < |r| :: r[i] == RootWord(rows[i])
  {
    seq(|rows|, i requires 0 <= i < |rows| => RootWord(rows[i]))
  }

  /** The root frame and the frames of the level-2 tables hold the two-level table. */
  ghost predicate Backs(mem: map<nat, seq<Word>>, root: nat, rows: seq<Row>) {
    && Holds(mem, root, RootWords(rows))
    && forall i | 0 <= i < |rows| && rows[i].Table? :: Holds(mem, rows[i].addr, rows[i].slots)
  }

  ghost function Poke(mem: map<nat, seq<Word>>, a: nat, k: nat, word: nat): map<nat, seq<Word>>
    requires a in mem && k < |mem[a]|
  {
    mem[a := mem[a][k := Written(word)]]
  }

  /** Writing one slot of a level-2 table touches that slot only. */
  lemma PokeSlot(mem: map<nat, seq<Word>>, vm: Vm, pool: set<nat>, i: nat, j: nat, word: nat)
    requires Apart(vm, pool) && Backs(mem, vm.root, vm.rows) && i < |vm.rows| && j < |vm.rows| && vm.rows[i].Table?
    ensures Backs(Poke(mem, vm.rows[i].addr, j, word), vm.root, StorePage(vm, i, j, word).rows)
  {
    var mem', vm' := Poke(mem, vm.rows[i].addr, j, word), StorePage(vm, i, j, word);
    assert RootWords(vm'.rows) == RootWords(vm.rows);
    forall k | 0 <= k < |vm'.rows| && vm'.rows[k].Table? ensures Holds(mem', vm'.rows[k].addr, vm'.rows[k].slots) {
      if k != i {
        assert Holds(mem, vm.rows[k].addr, vm.rows[k].slots);
      }
    }
  }

  /** Unlinking a level-2 table by clearing its root word. */
  lemma PokeUnlink(mem: map<nat, seq<Word>>, vm: Vm, pool: set<nat>, i: nat)
    requires Apart(vm, pool) && Backs(mem, vm.root, vm.rows) && i < |vm.rows|
    ensures Backs(Poke(mem, vm.root, i, 0), vm.root, vm.rows[i := NoTable])
  {
    var mem', vm' := Poke(mem, vm.root, i, 0), vm.(rows := vm.rows[i := NoTable]);
    forall k | 0 <= k < |vm'.rows| && vm'.rows[k].Table? ensures Holds(mem', vm'.rows[k].addr, vm'.rows[k].slots) {
      assert Holds(mem, vm.rows[k].addr, vm.rows[k].slots);
    }
  }

  /** Linking a zeroed frame as a level-2 table by writing its root word. */
  lemma PokeLink(mem: map<nat, seq<Word>>, vm: Vm, pool: set<nat>, i: nat, frame: nat)
    requires Apart(vm, pool) && Backs(mem, vm.root, vm.rows) && i < |vm.rows| && frame != vm.root
    requires Holds(mem, frame, seq(|vm.rows|, _ => 0))
    ensures Backs(Poke(mem, vm.root, i, frame), vm.root, LinkTable(vm, i, frame).rows)
  {
    var mem', vm' := Poke(mem, vm.root, i, frame), LinkTable(vm, i, frame);
    forall k | 0 <= k < |vm'.rows| && vm'.rows[k].Table? ensures Holds(mem', vm'.rows[k].addr, vm'.rows[k].slots) {
      if k != i {
          assert Holds(mem, vm.rows[k].addr, vm.rows[k].slots);
      }
    }
  }

  /** Rewriting a frame outside the table leaves the table alone. */
  lemma FillElsewhere(mem: map<nat, seq<Word>>, vm: Vm, pool: set<nat>, a: nat, words: seq<Word>)
    requires Apart(vm, pool) && Backs(mem, vm.root, vm.rows) && a !in pool
    ensures Backs(mem[a := words], vm.root, vm.rows)
  {
    forall i | 0 <= i < |vm.rows| && vm.rows[i].Table?
      ensures Holds(mem[a := words], vm.rows[i].addr, vm.rows[i].slots)
    {
      assert Holds(mem, vm.rows[i].addr, vm.rows[i].slots);
    }
  }
}
