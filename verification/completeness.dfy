/**
  Completeness of generation: every operator of the list, at every position
  of a candidate body it applies to, is proposed. Together with the
  soundness contracts of `Generation` this pins the generated mutations down
  exactly.
 */
module Completeness {
  import opened Wasm
  import opened Mutations
  import opened Dispatch
  import opened Catalog
  import opened Generation

  /** Completeness over one body: every listed operator that triggers at a position proposes it. */
  lemma {:induction false} FindAllComplete(mutators: seq<Mutator>, body: Body, functionIndex: nat, m: Mutator, j: nat)
    requires m in mutators && j < |body| && Triggers(m, body[j])
    ensures Mutation(m, j, functionIndex) in FindAll(mutators, body, functionIndex)
    decreases |mutators|
  {
    if mutators[0] == m {
      assert Mutation(m, j, functionIndex) in Find(m, body, functionIndex);
    } else {
      assert m in mutators[1..];
      FindAllComplete(mutators[1..], body, functionIndex, m, j);
    }
  }

  /**
    Completeness over the candidates: the `k`-th candidate's body contributes
    a mutation for every operator and every position that operator triggers on.
   */
  lemma {:induction false} GenerateComplete(catalog: seq<Mutator>, indices: seq<nat>, bodies: seq<Body>, k: nat, m: Mutator, j: nat)
    requires k < |indices| && indices[k] < |bodies|
    requires m in catalog && j < |bodies[indices[k]]| && Triggers(m, bodies[indices[k]][j])
    ensures Mutation(m, j, indices[k]) in Generate(catalog, indices, bodies)
    decreases k
  {
    if k == 0 {
      FindAllComplete(catalog, bodies[indices[0]], indices[0], m, j);
    } else {
      assert indices[1..][k - 1] == indices[k];
      GenerateComplete(catalog, indices[1..], bodies, k - 1, m, j);
    }
  }

  /**
    Generation over a given operator list proposes exactly the triples of a
    listed operator, a listed function and a position of that function's body
    the operator triggers on.
   */
  lemma FindMutationsWithExactly(catalog: seq<Mutator>, indices: seq<nat>, bodies: seq<Body>, mu: Mutation)
    requires IndicesInRange(indices, bodies)
    ensures mu in FindMutationsWith(catalog, indices, bodies) <==>
              && mu.mutator in catalog
              && mu.functionIndex in indices
              && mu.instructionIndex < |bodies[mu.functionIndex]|
              && Triggers(mu.mutator, bodies[mu.functionIndex][mu.instructionIndex])
  {
    var r := FindMutationsWith(catalog, indices, bodies);
    if mu.mutator in catalog && mu.functionIndex in indices {
      var k :| 0 <= k < |indices| && indices[k] == mu.functionIndex;
      if mu.instructionIndex < |bodies[mu.functionIndex]| && Triggers(mu.mutator, bodies[mu.functionIndex][mu.instructionIndex]) {
        GenerateComplete(catalog, indices, bodies, k, mu.mutator, mu.instructionIndex);
      }
    }
    if mu in r {
      var t :| 0 <= t < |r| && r[t] == mu;
    }
  }

  /**
    `find_mutations` proposes exactly the catalog operators at the positions
    of listed functions they trigger on: nothing else, and nothing missing.
   */
  lemma FindMutationsExactly(indices: seq<nat>, bodies: seq<Body>, mu: Mutation)
    requires IndicesInRange(indices, bodies)
    ensures mu in FindMutations(indices, bodies) <==>
              && mu.mutator in AllMutators
              && mu.functionIndex in indices
              && mu.instructionIndex < |bodies[mu.functionIndex]|
              && Triggers(mu.mutator, bodies[mu.functionIndex][mu.instructionIndex])
  {
    FindMutationsWithExactly(AllMutators, indices, bodies, mu);
  }
}
