/**
  The fixed catalog of operators the generator runs over every candidate
  function. In this snapshot it holds only the twelve relational-boundary
  swaps: no arithmetic or rounding swap, and neither the set-cancelling nor
  the if-condition-to-false operator is listed, so those two are never run.
 */
module Catalog {
  import opened Wasm
  import opened Mutations

  const AllMutators: seq<Mutator> := [
    Swap(I32GeU, I32GtU),
    Swap(I32LeU, I32LtU),
    Swap(I32GtU, I32GeU),
    Swap(I32LtU, I32LeU),
    Swap(I32GeS, I32GtS),
    Swap(I32LeS, I32LtS),
    Swap(I32GtS, I32GeS),
    Swap(I32LtS, I32LeS),
    Swap(F32Ge, F32Gt),
    Swap(F32Gt, F32Ge),
    Swap(F64Ge, F64Gt),
    Swap(F64Gt, F64Ge)
  ]

  /** The operand family a comparison works on. */
  datatype Family = I32Unsigned | I32Signed | F32 | F64 | NotAComparison

  function FamilyOf(x: Instr): Family
  {
    match x
    case I32GeU | I32GtU | I32LeU | I32LtU => I32Unsigned
    case I32GeS | I32GtS | I32LeS | I32LtS => I32Signed
    case F32Ge | F32Gt => F32
    case F64Ge | F64Gt => F64
    case _ => NotAComparison
  }

  /** The catalog is exactly twelve entries, all swaps that really change the instruction. */
  lemma CatalogShape()
    ensures |AllMutators| == 12
    ensures forall k :: 0 <= k < |AllMutators| ==>
              AllMutators[k].Swap? && AllMutators[k].original != AllMutators[k].replacement
    ensures SetCancelling !in AllMutators && IfConditionToFalse !in AllMutators
  {
  }

  /**
    No two entries share an original instruction, so every instruction is
    matched by at most one catalog entry.
   */
  lemma CatalogOriginalsDistinct()
    ensures forall j, k :: 0 <= j < k < |AllMutators| ==> AllMutators[j].original != AllMutators[k].original
  {
  }

  /** Each swap has its inverse in the catalog. */
  lemma CatalogClosedUnderInversion()
    ensures forall k :: 0 <= k < |AllMutators| ==>
              Swap(AllMutators[k].replacement, AllMutators[k].original) in AllMutators
  {
  }

  /** Each swap trades a comparison for another one on the same operand family. */
  lemma CatalogStaysWithinFamily()
    ensures forall k :: 0 <= k < |AllMutators| ==>
              && FamilyOf(AllMutators[k].original) != NotAComparison
              && FamilyOf(AllMutators[k].original) == FamilyOf(AllMutators[k].replacement)
  {
  }
}
