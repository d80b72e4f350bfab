/**
  What happens when every mutation one operator finds in a body is applied,
  one after another, to a single module, as the operators' unit tests do.
  For the length-preserving rewrites this is the intended bulk rewrite; for
  the store rewrite it is not, because the inserted `drop` shifts every later
  index found on the original body.
 */
module Sequencing {
  import opened Wasm
  import opened Mutations
  import opened Dispatch
  import InstructionSwapping
  import SetCancelling
  import IfConditionToFalse

  /** `body` with every occurrence of `original` replaced by `replacement`. */
  function Substitute(body: Body, original: Instr, replacement: Instr): Body
  {
    ReplaceWhere(body, x => x == original, replacement)
  }

  /** `body` with every instruction satisfying `p` replaced by `x`. */
  function ReplaceWhere(body: Body, p: Instr -> bool, x: Instr): Body
  {
    seq(|body|, j requires 0 <= j < |body| => if p(body[j]) then x else body[j])
  }

  function Reverse(ms: seq<Mutation>): (r: seq<Mutation>)
    ensures |r| == |ms|
    ensures forall t :: 0 <= t < |ms| ==> r[t] == ms[|ms| - 1 - t]
  {
    if ms == [] then [] else Reverse(ms[1..]) + [ms[0]]
  }

  lemma ReverseSameTargets(ms: seq<Mutation>)
    ensures Targets(Reverse(ms)) == Targets(ms)
  {
    var r := Reverse(ms);
    forall mu | mu in ms ensures mu in r {
      var t :| 0 <= t < |ms| && ms[t] == mu;
      assert r[|ms| - 1 - t] == mu;
    }
  }

  /**
    Applying every swap found in a function, in the order found, replaces each
    occurrence of the original by the replacement and touches nothing else.
   */
  lemma FindThenApplyAllSwaps(original: Instr, replacement: Instr, wasm: Module, functionIndex: nat)
    requires wasm.code.Some? && functionIndex < |wasm.code.value|
    ensures var body := wasm.code.value[functionIndex];
            ApplyAll(wasm, InstructionSwapping.Find(original, replacement, body, functionIndex)) ==
            Some(WithBody(wasm, functionIndex, Substitute(body, original, replacement)))
  {
    var body := wasm.code.value[functionIndex];
    var found := InstructionSwapping.Find(original, replacement, body, functionIndex);
    ApplyAllWithinOneFunction(wasm, found, functionIndex);
    PerformAllSwaps(original, replacement, body, found);
    SwapTargetsAreOccurrences(original, replacement, body, functionIndex);
  }

  lemma SwapTargetsAreOccurrences(original: Instr, replacement: Instr, body: Body, functionIndex: nat)
    ensures var found := InstructionSwapping.Find(original, replacement, body, functionIndex);
            Overwrite(body, Targets(found), replacement) == Substitute(body, original, replacement)
  {
    var found := InstructionSwapping.Find(original, replacement, body, functionIndex);
    var got := Overwrite(body, Targets(found), replacement);
    var expected := Substitute(body, original, replacement);
    forall j | 0 <= j < |body| ensures got[j] == expected[j] {
      assert j in Targets(found) <==> body[j] == original;
    }
  }

  /**
    Applying every `br_if` suppression found in a function, last one first as
    the operator's test does, turns every `br_if` into `drop`.
   */
  lemma FindThenApplyAllIfConditionsReversed(wasm: Module, functionIndex: nat)
    requires wasm.code.Some? && functionIndex < |wasm.code.value|
    ensures var body := wasm.code.value[functionIndex];
            ApplyAll(wasm, Reverse(IfConditionToFalse.Find(body, functionIndex))) ==
            Some(WithBody(wasm, functionIndex, ReplaceWhere(body, IfConditionToFalse.IsBrIf, Drop)))
  {
    var body := wasm.code.value[functionIndex];
    var found := IfConditionToFalse.Find(body, functionIndex);
    var reversed := Reverse(found);
    ReverseSameTargets(found);
    ApplyAllWithinOneFunction(wasm, reversed, functionIndex);
    PerformAllIfConditions(body, reversed);
    BrIfTargetsAreBranches(body, functionIndex);
  }

  /** Overwriting the positions the `br_if` operator's `find` targets replaces exactly the `br_if`s. */
  lemma BrIfTargetsAreBranches(body: Body, functionIndex: nat)
    ensures var found := IfConditionToFalse.Find(body, functionIndex);
            Overwrite(body, Targets(found), Drop) == ReplaceWhere(body, IfConditionToFalse.IsBrIf, Drop)
  {
    var found := IfConditionToFalse.Find(body, functionIndex);
    var got := Overwrite(body, Targets(found), Drop);
    var expected := ReplaceWhere(body, IfConditionToFalse.IsBrIf, Drop);
    forall j | 0 <= j < |body| ensures got[j] == expected[j] {
      assert j in Targets(found) <==> body[j].BrIf?;
    }
  }

  /**
    In a function without stores, applying every set-cancelling mutation
    found, in order, turns each `set_local`/`set_global` into `drop`.
   */
  lemma FindThenApplyAllAssignmentCancels(wasm: Module, functionIndex: nat)
    requires wasm.code.Some? && functionIndex < |wasm.code.value|
    requires forall j :: 0 <= j < |wasm.code.value[functionIndex]| ==>
               !SetCancelling.IsStore(wasm.code.value[functionIndex][j])
    ensures var body := wasm.code.value[functionIndex];
            ApplyAll(wasm, SetCancelling.Find(body, functionIndex)) ==
            Some(WithBody(wasm, functionIndex, ReplaceWhere(body, SetCancelling.IsAssignment, Drop)))
  {
    var body := wasm.code.value[functionIndex];
    var found := SetCancelling.Find(body, functionIndex);
    ApplyAllWithinOneFunction(wasm, found, functionIndex);
    CancelTargetsAreAssignments(body, functionIndex);
    PerformAllAssignmentCancels(body, found);
  }

  /** Without stores, the set-cancelling sites are exactly the assignments. */
  lemma CancelTargetsAreAssignments(body: Body, functionIndex: nat)
    requires forall j :: 0 <= j < |body| ==> !SetCancelling.IsStore(body[j])
    ensures var found := SetCancelling.Find(body, functionIndex);
            && (forall t :: 0 <= t < |found| ==> SetCancelling.IsAssignment(body[found[t].instructionIndex]))
            && Overwrite(body, Targets(found), Drop) == ReplaceWhere(body, SetCancelling.IsAssignment, Drop)
  {
    var found := SetCancelling.Find(body, functionIndex);
    var got := Overwrite(body, Targets(found), Drop);
    var expected := ReplaceWhere(body, SetCancelling.IsAssignment, Drop);
    forall j | 0 <= j < |body| ensures got[j] == expected[j] {
      assert j in Targets(found) <==> SetCancelling.Matches(body[j]);
    }
  }

  /** In particular a body made only of assignments becomes all `drop`s. */
  lemma AssignmentsOnlyBecomeDrops(wasm: Module, functionIndex: nat)
    requires wasm.code.Some? && functionIndex < |wasm.code.value|
    requires forall j :: 0 <= j < |wasm.code.value[functionIndex]| ==>
               SetCancelling.IsAssignment(wasm.code.value[functionIndex][j])
    ensures var body := wasm.code.value[functionIndex];
            ApplyAll(wasm, SetCancelling.Find(body, functionIndex)) ==
            Some(WithBody(wasm, functionIndex, seq(|body|, _ => Drop)))
  {
    FindThenApplyAllAssignmentCancels(wasm, functionIndex);
    AllAssignmentsReplaced(wasm.code.value[functionIndex]);
  }

  lemma AllAssignmentsReplaced(body: Body)
    requires forall j :: 0 <= j < |body| ==> SetCancelling.IsAssignment(body[j])
    ensures ReplaceWhere(body, SetCancelling.IsAssignment, Drop) == seq(|body|, _ => Drop)
  {
    var replaced := ReplaceWhere(body, SetCancelling.IsAssignment, Drop);
    forall j | 0 <= j < |body| ensures replaced[j] == Drop {
      assert SetCancelling.IsAssignment(body[j]);
    }
  }

  /**
    A store rewrite makes the other mutations found on the original body
    stale: with two adjacent stores, the second mutation lands on the inserted
    `drop`, so the second store survives the sequence.
   */
  lemma StoreRewriteLeavesLaterMutationsStale(body: Body, functionIndex: nat)
    requires |body| == 2 && SetCancelling.IsStore(body[0]) && SetCancelling.IsStore(body[1])
    ensures SetCancelling.Find(body, functionIndex) ==
            [Mutation(SetCancelling, 0, functionIndex), Mutation(SetCancelling, 1, functionIndex)]
    ensures PerformAll(body, SetCancelling.Find(body, functionIndex)) == Some([Drop, Drop, body[1]])
  {
    FindOnTwoStores(body, functionIndex);
    PerformOnTwoStores(body, functionIndex);
  }

  lemma FindOnTwoStores(body: Body, functionIndex: nat)
    requires |body| == 2 && SetCancelling.IsStore(body[0]) && SetCancelling.IsStore(body[1])
    ensures SetCancelling.Find(body, functionIndex) ==
            [Mutation(SetCancelling, 0, functionIndex), Mutation(SetCancelling, 1, functionIndex)]
  {
    var r := SetCancelling.Find(body, functionIndex);
    assert Mutation(SetCancelling, 0, functionIndex) in r && Mutation(SetCancelling, 1, functionIndex) in r;
    AscendingBelowTwo(r);
  }

  /** Strictly ascending positions below two that include both 0 and 1 are exactly 0, 1. */
  lemma AscendingBelowTwo(r: seq<Mutation>)
    requires forall t :: 0 <= t < |r| ==> r[t].instructionIndex < 2
    requires forall s, t :: 0 <= s < t < |r| ==> r[s].instructionIndex < r[t].instructionIndex
    requires exists t :: 0 <= t < |r| && r[t].instructionIndex == 0
    requires exists t :: 0 <= t < |r| && r[t].instructionIndex == 1
    ensures |r| == 2 && r[0].instructionIndex == 0 && r[1].instructionIndex == 1
  {
    var a :| 0 <= a < |r| && r[a].instructionIndex == 0;
    var b :| 0 <= b < |r| && r[b].instructionIndex == 1;
    AscendingAtLeastPosition(r, |r| - 1);
  }

  /** In a list with strictly ascending positions, the `t`-th position is at least `t`. */
  lemma {:induction false} AscendingAtLeastPosition(r: seq<Mutation>, t: nat)
    requires t < |r|
    requires forall s, u :: 0 <= s < u < |r| ==> r[s].instructionIndex < r[u].instructionIndex
    ensures r[t].instructionIndex >= t
  {
    if t > 0 {
      AscendingAtLeastPosition(r, t - 1);
    }
  }

  lemma PerformOnTwoStores(body: Body, functionIndex: nat)
    requires |body| == 2 && SetCancelling.IsStore(body[0]) && SetCancelling.IsStore(body[1])
    ensures PerformAll(body, [Mutation(SetCancelling, 0, functionIndex), Mutation(SetCancelling, 1, functionIndex)]) ==
            Some([Drop, Drop, body[1]])
  {
    var found := [Mutation(SetCancelling, 0, functionIndex), Mutation(SetCancelling, 1, functionIndex)];
    var once := [Drop, Drop, body[1]];
    assert SetCancelling.Perform(body, 0) == once;
    assert SetCancelling.Perform(once, 1) == once;
    assert found[1..] == [Mutation(SetCancelling, 1, functionIndex)];
    assert PerformAll(once, found[1..]) == Some(once) by {
      assert PerformAll(once, []) == Some(once);
    }
  }
}
