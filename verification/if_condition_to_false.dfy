/**
  The if-condition-to-false operator: a conditional branch becomes a `drop` of
  its condition, so the branch is never taken.
 */
module IfConditionToFalse {
  import opened Wasm
  import opened Mutations

  predicate IsBrIf(x: Instr)
  {
    x.BrIf?
  }

  /** Overwrite position `index` with `drop`, whatever instruction is there. */
  function Perform(body: Body, index: nat): (r: Body)
    requires index < |body|
    ensures |r| == |body|
    ensures r[index] == Drop
    ensures forall j :: 0 <= j < |body| && j != index ==> r[j] == body[j]
  {
    body[index := Drop]
  }

  /** Every `br_if` position, whatever its label, in ascending order. */
  function Find(body: Body, functionIndex: nat): (r: seq<Mutation>)
    ensures forall t :: 0 <= t < |r| ==>
              && r[t].mutator == IfConditionToFalse
              && r[t].functionIndex == functionIndex
              && r[t].instructionIndex < |body|
              && body[r[t].instructionIndex].BrIf?
    ensures forall s, t :: 0 <= s < t < |r| ==> r[s].instructionIndex < r[t].instructionIndex
    ensures forall j :: 0 <= j < |body| && body[j].BrIf? ==> Mutation(IfConditionToFalse, j, functionIndex) in r
    ensures forall j :: j in Targets(r) <==> 0 <= j < |body| && body[j].BrIf?
    ensures (forall j :: 0 <= j < |body| ==> !body[j].BrIf?) ==> r == []
  {
    Scan(IfConditionToFalse, body, functionIndex, IsBrIf)
  }
}
