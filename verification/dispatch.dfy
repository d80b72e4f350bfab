/**
  The operator interface: `find` and `perform` dispatched over the closed set
  of operators, and a mutation's `perform` on a whole module, which rewrites
  the targeted body of the code section and nothing else.
 */
module Dispatch {
  import opened Wasm
  import opened Mutations
  import InstructionSwapping
  import SetCancelling
  import IfConditionToFalse

  /** The instructions an operator's `find` proposes a mutation for. */
  predicate Triggers(m: Mutator, x: Instr)
  {
    match m
    case Swap(original, _) => x == original
    case SetCancelling => SetCancelling.Matches(x)
    case IfConditionToFalse => IfConditionToFalse.IsBrIf(x)
  }

  function Find(m: Mutator, body: Body, functionIndex: nat): (r: seq<Mutation>)
    ensures forall mu :: mu in r <==>
              && mu.mutator == m
              && mu.functionIndex == functionIndex
              && mu.instructionIndex < |body|
              && Triggers(m, body[mu.instructionIndex])
    ensures forall s, t :: 0 <= s < t < |r| ==> r[s].instructionIndex < r[t].instructionIndex
  {
    match m
    case Swap(original, replacement) => InstructionSwapping.Find(original, replacement, body, functionIndex)
    case SetCancelling => SetCancelling.Find(body, functionIndex)
    case IfConditionToFalse => IfConditionToFalse.Find(body, functionIndex)
  }

  /**
    Every operator keeps the instructions before `index`; only the
    set-cancelling rewrite of a store changes the length, and then by one.
   */
  function Perform(m: Mutator, body: Body, index: nat): (r: Body)
    requires index < |body|
    ensures |r| == (if m == SetCancelling && SetCancelling.IsStore(body[index]) then |body| + 1 else |body|)
    ensures forall j :: 0 <= j < index ==> r[j] == body[j]
  {
    match m
    case Swap(original, replacement) => InstructionSwapping.Perform(original, replacement, body, index)
    case SetCancelling => SetCancelling.Perform(body, index)
    case IfConditionToFalse => IfConditionToFalse.Perform(body, index)
  }

  /** The source indexes the code section and the body without checking; both must exist. */
  predicate Applicable(mu: Mutation, wasm: Module)
  {
    && wasm.code.Some?
    && mu.functionIndex < |wasm.code.value|
    && mu.instructionIndex < |wasm.code.value[mu.functionIndex]|
  }

  /** Replacing the module's `index`-th body by `b`. */
  function WithBody(wasm: Module, index: nat, b: Body): Module
    requires wasm.code.Some? && index < |wasm.code.value|
  {
    wasm.(code := Some(wasm.code.value[index := b]))
  }

  /**
    A mutation's `perform`: apply its operator to the targeted body. The name
    section, the number of bodies and every other body stay as they were.
   */
  function PerformMutation(mu: Mutation, wasm: Module): (r: Module)
    requires Applicable(mu, wasm)
    ensures r.names == wasm.names
    ensures r.code.Some? && |r.code.value| == |wasm.code.value|
    ensures forall k :: 0 <= k < |wasm.code.value| && k != mu.functionIndex ==>
              r.code.value[k] == wasm.code.value[k]
    ensures r.code.value[mu.functionIndex] ==
              Perform(mu.mutator, wasm.code.value[mu.functionIndex], mu.instructionIndex)
  {
    var bodies := wasm.code.value;
    var mutated := Perform(mu.mutator, bodies[mu.functionIndex], mu.instructionIndex);
    WithBody(wasm, mu.functionIndex, mutated)
  }

  /**
    Apply mutations one after another to the same body, as the operators'
    tests do; `None` where a later mutation's index has fallen outside the
    (possibly grown) body, which would panic in the source.
   */
  function PerformAll(body: Body, ms: seq<Mutation>): Option<Body>
    decreases |ms|
  {
    if ms == [] then Some(body)
    else if ms[0].instructionIndex < |body| then
      PerformAll(Perform(ms[0].mutator, body, ms[0].instructionIndex), ms[1..])
    else None
  }

  /** The module-level counterpart of `PerformAll`, through `PerformMutation`. */
  function ApplyAll(wasm: Module, ms: seq<Mutation>): Option<Module>
    decreases |ms|
  {
    if ms == [] then Some(wasm)
    else if Applicable(ms[0], wasm) then ApplyAll(PerformMutation(ms[0], wasm), ms[1..])
    else None
  }

  /** `body` with every position in `targets` overwritten by `x`. */
  function Overwrite(body: Body, targets: set<nat>, x: Instr): Body
  {
    seq(|body|, j requires 0 <= j < |body| => if j in targets then x else body[j])
  }

  lemma TargetsCons(ms: seq<Mutation>)
    requires ms != []
    ensures Targets(ms) == {ms[0].instructionIndex} + Targets(ms[1..])
  {
    assert forall mu :: mu in ms <==> mu == ms[0] || mu in ms[1..];
  }

  /**
    Sequential application of mutations that all target one function is the
    body-level application on that function's body, written back into the
    module; no other body and not the name section are touched.
   */
  lemma {:induction false} ApplyAllWithinOneFunction(wasm: Module, ms: seq<Mutation>, functionIndex: nat)
    requires wasm.code.Some? && functionIndex < |wasm.code.value|
    requires forall t :: 0 <= t < |ms| ==> ms[t].functionIndex == functionIndex
    ensures ApplyAll(wasm, ms) ==
              match PerformAll(wasm.code.value[functionIndex], ms)
              case None => None
              case Some(b) => Some(WithBody(wasm, functionIndex, b))
    decreases |ms|
  {
    var bodies := wasm.code.value;
    if ms == [] {
      assert bodies[functionIndex := bodies[functionIndex]] == bodies;
    } else if Applicable(ms[0], wasm) {
      var next := PerformMutation(ms[0], wasm);
      var b := Perform(ms[0].mutator, bodies[functionIndex], ms[0].instructionIndex);
      assert next == wasm.(code := Some(bodies[functionIndex := b]));
      ApplyAllWithinOneFunction(next, ms[1..], functionIndex);
      assert PerformAll(bodies[functionIndex], ms) == PerformAll(b, ms[1..]);
      match PerformAll(b, ms[1..])
      case None =>
      case Some(b') =>
        assert next.code.value[functionIndex := b'] == bodies[functionIndex := b'];
    }
  }

  /**
    Swaps commute: applying any swap mutations with in-range indices, in any
    order, writes the replacement at exactly the targeted positions.
   */
  lemma {:induction false} PerformAllSwaps(original: Instr, replacement: Instr, body: Body, ms: seq<Mutation>)
    requires forall t :: 0 <= t < |ms| ==>
               ms[t].mutator == Swap(original, replacement) && ms[t].instructionIndex < |body|
    ensures PerformAll(body, ms) == Some(Overwrite(body, Targets(ms), replacement))
    decreases |ms|
  {
    if ms == [] {
      assert Overwrite(body, Targets(ms), replacement) == body;
    } else {
      var i := ms[0].instructionIndex;
      var next := InstructionSwapping.Perform(original, replacement, body, i);
      PerformAllSwaps(original, replacement, next, ms[1..]);
      TargetsCons(ms);
      assert Overwrite(next, Targets(ms[1..]), replacement) == Overwrite(body, Targets(ms), replacement);
    }
  }

  /** Likewise for `br_if` suppression: the order of application does not matter. */
  lemma {:induction false} PerformAllIfConditions(body: Body, ms: seq<Mutation>)
    requires forall t :: 0 <= t < |ms| ==>
               ms[t].mutator == IfConditionToFalse && ms[t].instructionIndex < |body|
    ensures PerformAll(body, ms) == Some(Overwrite(body, Targets(ms), Drop))
    decreases |ms|
  {
    if ms == [] {
      assert Overwrite(body, Targets(ms), Drop) == body;
    } else {
      var i := ms[0].instructionIndex;
      var next := IfConditionToFalse.Perform(body, i);
      PerformAllIfConditions(next, ms[1..]);
      TargetsCons(ms);
      assert Overwrite(next, Targets(ms[1..]), Drop) == Overwrite(body, Targets(ms), Drop);
    }
  }

  /**
    Set-cancelling mutations that only ever meet assignments (or the `drop`
    an earlier one left) behave like overwrites too: every target becomes `drop`.
   */
  lemma {:induction false} PerformAllAssignmentCancels(body: Body, ms: seq<Mutation>)
    requires forall t :: 0 <= t < |ms| ==>
               && ms[t].mutator == SetCancelling
               && ms[t].instructionIndex < |body|
               && (SetCancelling.IsAssignment(body[ms[t].instructionIndex]) || body[ms[t].instructionIndex] == Drop)
    ensures PerformAll(body, ms) == Some(Overwrite(body, Targets(ms), Drop))
    decreases |ms|
  {
    if ms == [] {
      assert Overwrite(body, Targets(ms), Drop) == body;
    } else {
      var i := ms[0].instructionIndex;
      var next := SetCancelling.Perform(body, i);
      assert next == body[i := Drop];
      PerformAllAssignmentCancels(next, ms[1..]);
      TargetsCons(ms);
      assert Overwrite(next, Targets(ms[1..]), Drop) == Overwrite(body, Targets(ms), Drop);
    }
  }
}
