/** The lowering of a multi-way switch to a chain of compare-and-branch blocks. */
module Switches {
  import opened Wrappers

  /** How a block ends: a jump, or a jump to `then_` when the switched value equals `expected`. */
  datatype Tail = Goto(dest: nat) | CompareBranch(expected: nat, then_: nat, else_: nat)

  datatype Case = Case(value: nat, target: nat)

  /** Where the switch goes: the target of the first case with the value, or `otherwise`. */
  function Target(cases: seq<Case>, otherwise: nat, v: nat): nat {
    if cases == [] then otherwise
    else if cases[0].value == v then cases[0].target
    else Target(cases[1..], otherwise, v)
  }

  /** How many comparisons that takes. */
  function Comparisons(cases: seq<Case>, v: nat): (n: nat)
    ensures n <= |cases|
  {
    if cases == [] then 0 else if cases[0].value == v then 1 else 1 + Comparisons(cases[1..], v)
  }

  // ----- Runs -----

  /** The block after `b` when the switched value is `v`; a block without a tail goes nowhere. */
  function After(blocks: seq<Option<Tail>>, b: nat, v: nat): Option<nat> {
    if b >= |blocks| || blocks[b].None? then None
    else
      match blocks[b].value
      case Goto(dest) => Some(dest)
      case CompareBranch(expected, then_, else_) => Some(if v == expected then then_ else else_)
  }

  /** `n` steps from `b` lead to `dest`, through blocks that are `start` or later. */
  predicate Leads(blocks: seq<Option<Tail>>, b: nat, v: nat, n: nat, dest: nat, start: nat)
    decreases n
  {
    match After(blocks, b, v)
    case None => false
    case Some(next) =>
      if n <= 1 then n == 1 && next == dest else next >= start && Leads(blocks, next, v, n - 1, dest, start)
  }

  // ----- The chain -----

  /** The block of comparison `j`, and after the last comparison the block to go to otherwise. */
  function Node(j: nat, insert: nat, start: nat, count: nat, otherwise: nat): nat {
    if j == count then otherwise else if j == 0 then insert else start + j - 1
  }

  predicate InPlace(blocks: seq<Option<Tail>>, cases: seq<Case>, insert: nat, otherwise: nat, start: nat, j: nat)
    requires j < |cases|
  {
    var b := Node(j, insert, start, |cases|, otherwise);
    b < |blocks| && blocks[b] == Some(
      CompareBranch(cases[j].value, cases[j].target, Node(j + 1, insert, start, |cases|, otherwise)))
  }

  /** The blocks of the first `done` comparisons are in place. */
  predicate Chained(blocks: seq<Option<Tail>>, cases: seq<Case>, insert: nat, otherwise: nat, start: nat, done: nat)
    requires done <= |cases|
  {
    forall j: nat | j < done :: InPlace(blocks, cases, insert, otherwise, start, j)
  }

  lemma {:induction false} ChainLeads(blocks: seq<Option<Tail>>, cases: seq<Case>, insert: nat, otherwise: nat,
      start: nat, v: nat, j: nat)
    requires j < |cases| && Chained(blocks, cases, insert, otherwise, start, |cases|)
    ensures Leads(blocks, Node(j, insert, start, |cases|, otherwise), v, Comparisons(cases[j..], v),
              Target(cases[j..], otherwise, v), start)
    decreases |cases| - j
  {
    assert InPlace(blocks, cases, insert, otherwise, start, j);
    assert cases[j..][1..] == cases[j + 1..] && cases[j..][0] == cases[j];
    if cases[j].value != v {
      if j + 1 == |cases| {
        assert cases[j + 1..] == [];
      } else {
        ChainLeads(blocks, cases, insert, otherwise, start, v, j + 1);
        assert Comparisons(cases[j + 1..], v) >= 1;
      }
    }
  }

  class Region {
    /** The tails of the blocks, by block. */
    var blocks: seq<Option<Tail>>

    /** For every value, the chain leads to the switch's target in as many steps as the switch makes
        comparisons, through new blocks only; a switch without cases is a jump. */
    method ImportSwitch(insert: nat, cases: seq<Case>, otherwise: nat)
      requires insert < |blocks|
      modifies this
      ensures old(|blocks|) <= |blocks|
      ensures forall b: nat | b < old(|blocks|) && b != insert :: blocks[b] == old(blocks[b])
      ensures forall v: nat ::
        Leads(blocks, insert, v, if cases == [] then 1 else Comparisons(cases, v), Target(cases, otherwise, v), old(|blocks|))
    {
      if cases == [] {
        blocks := blocks[insert := Some(Goto(otherwise))];
        return;
      }
      ghost var start := |blocks|;
      ghost var before := blocks;
      var compareBlock := insert;
      for idx := 0 to |cases|
        invariant compareBlock == Node(idx, insert, start, |cases|, otherwise)
        invariant |blocks| == start + (if idx < |cases| then idx else |cases| - 1)
        invariant Chained(blocks, cases, insert, otherwise, start, idx)
        invariant forall b: nat | b < start && b != insert :: blocks[b] == before[b]
      {
        ghost var was := blocks;
        var nextBlock := otherwise;
        if idx + 1 < |cases| {
          nextBlock := |blocks|;
          blocks := blocks + [None];
        }
        blocks := blocks[compareBlock := Some(CompareBranch(cases[idx].value, cases[idx].target, nextBlock))];
        compareBlock := nextBlock;
        forall j: nat | j < idx + 1 ensures InPlace(blocks, cases, insert, otherwise, start, j) {
          assert j < idx ==> InPlace(was, cases, insert, otherwise, start, j);
        }
      }
      forall v: nat
        ensures Leads(blocks, insert, v, Comparisons(cases, v), Target(cases, otherwise, v), start)
      {
        assert cases[0..] == cases;
        ChainLeads(blocks, cases, insert, otherwise, start, v, 0);
      }
    }
  }
}
