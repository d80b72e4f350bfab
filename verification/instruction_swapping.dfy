/**
  The instruction-swapping operator: it proposes one mutation per occurrence
  of its original instruction and rewrites by overwriting a single position
  with its replacement instruction.
 */
module InstructionSwapping {
  import opened Wasm
  import opened Mutations

  /**
    Rewrite position `index` to the replacement. The instruction found there is
    not compared with `original`: whatever sits at `index` is overwritten.
   */
  function Perform(original: Instr, replacement: Instr, body: Body, index: nat): (r: Body)
    requires index < |body|
    ensures |r| == |body|
    ensures r[index] == replacement
    ensures forall j :: 0 <= j < |body| && j != index ==> r[j] == body[j]
  {
    body[index := replacement]
  }

  /**
    Every position holding an instruction structurally equal to `original`,
    in ascending order, each as a mutation carrying this operator and the
    given function index.
   */
  function Find(original: Instr, replacement: Instr, body: Body, functionIndex: nat): (r: seq<Mutation>)
    ensures forall t :: 0 <= t < |r| ==>
              && r[t].mutator == Swap(original, replacement)
              && r[t].functionIndex == functionIndex
              && r[t].instructionIndex < |body|
              && body[r[t].instructionIndex] == original
    ensures forall s, t :: 0 <= s < t < |r| ==> r[s].instructionIndex < r[t].instructionIndex
    ensures forall j :: 0 <= j < |body| && body[j] == original ==>
              Mutation(Swap(original, replacement), j, functionIndex) in r
    ensures forall j :: j in Targets(r) <==> 0 <= j < |body| && body[j] == original
    ensures (forall j :: 0 <= j < |body| ==> body[j] != original) ==> r == []
  {
    Scan(Swap(original, replacement), body, functionIndex, x => x == original)
  }
}
