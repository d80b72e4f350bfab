/**
  The set-cancelling operator: it suppresses a variable assignment or a memory
  store by dropping the operands the instruction would have consumed.
 */
module SetCancelling {
  import opened Wasm
  import opened Mutations

  /** `set_local` / `set_global`: consume one operand. */
  predicate IsAssignment(x: Instr)
  {
    x.SetLocal? || x.SetGlobal?
  }

  /** The four typed stores: consume an address and a value. */
  predicate IsStore(x: Instr)
  {
    x.I32Store? || x.I64Store? || x.F32Store? || x.F64Store?
  }

  predicate Matches(x: Instr)
  {
    IsAssignment(x) || IsStore(x)
  }

  /**
    An assignment is overwritten by one `drop`. A store is overwritten by a
    `drop` and a second `drop` is inserted in front of it, so the body grows by
    one and everything after the store moves one position up. Any other
    instruction is left alone.
   */
  function Perform(body: Body, index: nat): (r: Body)
    requires index < |body|
    ensures IsAssignment(body[index]) ==>
              && |r| == |body|
              && r[index] == Drop
              && forall j :: 0 <= j < |body| && j != index ==> r[j] == body[j]
    ensures IsStore(body[index]) ==>
              && |r| == |body| + 1
              && r[index] == Drop && r[index + 1] == Drop
              && (forall j :: 0 <= j < index ==> r[j] == body[j])
              && (forall j :: index < j < |body| ==> r[j + 1] == body[j])
    ensures IsStore(body[index]) ==> r == body[..index] + [Drop, Drop] + body[index + 1..]
    ensures !Matches(body[index]) ==> r == body
  {
    match body[index]
    case SetLocal(_) => body[index := Drop]
    case SetGlobal(_) => body[index := Drop]
    case I32Store(_, _) | I64Store(_, _) | F32Store(_, _) | F64Store(_, _) =>
      var overwritten := body[index := Drop];
      InsertAfterOverwrite(body, index);
      overwritten[..index] + [Drop] + overwritten[index..]
    case _ => body
  }

  /** Overwriting position `index` by `drop` and inserting a `drop` in front of it. */
  lemma InsertAfterOverwrite(body: Body, index: nat)
    requires index < |body|
    ensures var r := body[index := Drop][..index] + [Drop] + body[index := Drop][index..];
            && r == body[..index] + [Drop, Drop] + body[index + 1..]
            && |r| == |body| + 1
            && r[index] == Drop && r[index + 1] == Drop
            && (forall j :: 0 <= j < index ==> r[j] == body[j])
            && (forall j :: index < j < |body| ==> r[j + 1] == body[j])
  {
    var overwritten := body[index := Drop];
    assert overwritten[..index] == body[..index];
    assert overwritten[index..] == [Drop] + body[index + 1..];
  }

  /** Every assignment or store position, in ascending order, whatever its operands. */
  function Find(body: Body, functionIndex: nat): (r: seq<Mutation>)
    ensures forall t :: 0 <= t < |r| ==>
              && r[t].mutator == SetCancelling
              && r[t].functionIndex == functionIndex
              && r[t].instructionIndex < |body|
              && Matches(body[r[t].instructionIndex])
    ensures forall s, t :: 0 <= s < t < |r| ==> r[s].instructionIndex < r[t].instructionIndex
    ensures forall j :: 0 <= j < |body| && Matches(body[j]) ==> Mutation(SetCancelling, j, functionIndex) in r
    ensures forall j :: j in Targets(r) <==> 0 <= j < |body| && Matches(body[j])
    ensures (forall j :: 0 <= j < |body| ==> !Matches(body[j])) ==> r == []
  {
    Scan(SetCancelling, body, functionIndex, Matches)
  }
}
