/**
  Mutators and mutations as plain values. A mutation names its operator and
  the (function, instruction) position it targets; it holds no reference into
  any module, so it can be applied to any fresh copy of the original.
 */
module Mutations {
  import opened Wasm

  /**
    The closed set of mutation operators. The source dispatches through a
    trait object; here the operator kind is a tag carrying only its data.
   */
  datatype Mutator =
    | Swap(original: Instr, replacement: Instr)
    | SetCancelling
    | IfConditionToFalse

  datatype Mutation = Mutation(mutator: Mutator, instructionIndex: nat, functionIndex: nat)

  /** The instruction positions a list of mutations targets. */
  function Targets(ms: seq<Mutation>): set<nat>
  {
    set mu | mu in ms :: mu.instructionIndex
  }

  /**
    The scan shared by every operator's `find`: walk the first `n` instructions
    in order and emit one mutation, carrying `m` and `functionIndex`, per
    instruction that `matches`. The result lists exactly the matching
    positions below `n`, in strictly ascending order.
   */
  function ScanPrefix(m: Mutator, body: Body, functionIndex: nat, matches: Instr -> bool, n: nat): (r: seq<Mutation>)
    requires n <= |body|
    ensures forall t :: 0 <= t < |r| ==>
              && r[t].mutator == m
              && r[t].functionIndex == functionIndex
              && r[t].instructionIndex < n
              && matches(body[r[t].instructionIndex])
    ensures forall s, t :: 0 <= s < t < |r| ==> r[s].instructionIndex < r[t].instructionIndex
    ensures forall j :: 0 <= j < n && matches(body[j]) ==> Mutation(m, j, functionIndex) in r
    ensures (forall j :: 0 <= j < n ==> !matches(body[j])) ==> r == []
    decreases n
  {
    if n == 0 then []
    else
      var earlier := ScanPrefix(m, body, functionIndex, matches, n - 1);
      if matches(body[n - 1]) then earlier + [Mutation(m, n - 1, functionIndex)] else earlier
  }

  /** Scan a whole body. */
  function Scan(m: Mutator, body: Body, functionIndex: nat, matches: Instr -> bool): (r: seq<Mutation>)
    ensures forall t :: 0 <= t < |r| ==>
              && r[t].mutator == m
              && r[t].functionIndex == functionIndex
              && r[t].instructionIndex < |body|
              && matches(body[r[t].instructionIndex])
    ensures forall s, t :: 0 <= s < t < |r| ==> r[s].instructionIndex < r[t].instructionIndex
    ensures forall j :: 0 <= j < |body| && matches(body[j]) ==> Mutation(m, j, functionIndex) in r
    ensures forall j :: j in Targets(r) <==> 0 <= j < |body| && matches(body[j])
    ensures (forall j :: 0 <= j < |body| ==> !matches(body[j])) ==> r == []
  {
    var r := ScanPrefix(m, body, functionIndex, matches, |body|);
    assert forall j :: j in Targets(r) ==> 0 <= j < |body| && matches(body[j]) by {
      forall j | j in Targets(r) ensures 0 <= j < |body| && matches(body[j]) {
        var mu :| mu in r && mu.instructionIndex == j;
      }
    }
    r
  }
}
