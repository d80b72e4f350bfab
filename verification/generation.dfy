/**
  Mutation generation: for every candidate function, in candidate order, run
  every catalog operator's `find`, in catalog order, and concatenate.
 */
module Generation {
  import opened Wasm
  import opened Mutations
  import opened Dispatch
  import opened Catalog

  /** Run the operators of `mutators` over one body, in order, concatenating their finds. */
  function FindAll(mutators: seq<Mutator>, body: Body, functionIndex: nat): (r: seq<Mutation>)
    ensures forall t :: 0 <= t < |r| ==> r[t].mutator in mutators
    ensures forall t :: 0 <= t < |r| ==>
              && r[t].functionIndex == functionIndex
              && r[t].instructionIndex < |body|
              && Triggers(r[t].mutator, body[r[t].instructionIndex])
  {
    if mutators == [] then []
    else Find(mutators[0], body, functionIndex) + FindAll(mutators[1..], body, functionIndex)
  }

  /** The source indexes `bodies` with each candidate without a check: every candidate is below `|bodies|`. */
  predicate IndicesInRange(indices: seq<nat>, bodies: seq<Body>)
  {
    forall k :: 0 <= k < |indices| ==> indices[k] < |bodies|
  }

  /**
    The generation loop: candidate by candidate, every operator's finds over
    its body. A candidate without a body contributes nothing here; the
    source panics on it instead, which `FindMutationsWith` rules out.
   */
  function Generate(catalog: seq<Mutator>, indices: seq<nat>, bodies: seq<Body>): seq<Mutation>
    decreases |indices|
  {
    if indices == [] then []
    else
      var here := if indices[0] < |bodies| then FindAll(catalog, bodies[indices[0]], indices[0]) else [];
      here + Generate(catalog, indices[1..], bodies)
  }

  /**
    Every mutation of `ms` comes from `catalog`, targets a function of
    `indices` that addresses a body, and an instruction of that body its
    operator triggers on.
   */
  predicate Proposed(ms: seq<Mutation>, catalog: seq<Mutator>, indices: seq<nat>, bodies: seq<Body>)
  {
    forall t :: 0 <= t < |ms| ==>
      && ms[t].mutator in catalog
      && ms[t].functionIndex in indices
      && ms[t].functionIndex < |bodies|
      && ms[t].instructionIndex < |bodies[ms[t].functionIndex]|
      && Triggers(ms[t].mutator, bodies[ms[t].functionIndex][ms[t].instructionIndex])
  }

  lemma {:induction false} GenerateSound(catalog: seq<Mutator>, indices: seq<nat>, bodies: seq<Body>)
    ensures Proposed(Generate(catalog, indices, bodies), catalog, indices, bodies)
    decreases |indices|
  {
    if indices != [] {
      GenerateSound(catalog, indices[1..], bodies);
      ProposedWiden(Generate(catalog, indices[1..], bodies), catalog, indices, bodies);
      if indices[0] < |bodies| {
        ProposedHead(catalog, indices, bodies);
        ProposedConcat(FindAll(catalog, bodies[indices[0]], indices[0]), Generate(catalog, indices[1..], bodies),
                       catalog, indices, bodies);
      } else {
        assert Generate(catalog, indices, bodies) == Generate(catalog, indices[1..], bodies);
      }
    }
  }

  lemma ProposedHead(catalog: seq<Mutator>, indices: seq<nat>, bodies: seq<Body>)
    requires indices != [] && indices[0] < |bodies|
    ensures Proposed(FindAll(catalog, bodies[indices[0]], indices[0]), catalog, indices, bodies)
  {
  }

  lemma ProposedWiden(ms: seq<Mutation>, catalog: seq<Mutator>, indices: seq<nat>, bodies: seq<Body>)
    requires indices != [] && Proposed(ms, catalog, indices[1..], bodies)
    ensures Proposed(ms, catalog, indices, bodies)
  {
    forall t | 0 <= t < |ms| ensures ms[t].functionIndex in indices {
      assert ms[t].functionIndex in indices[1..];
    }
  }

  lemma ProposedConcat(a: seq<Mutation>, b: seq<Mutation>, catalog: seq<Mutator>, indices: seq<nat>, bodies: seq<Body>)
    requires Proposed(a, catalog, indices, bodies) && Proposed(b, catalog, indices, bodies)
    ensures Proposed(a + b, catalog, indices, bodies)
  {
    var r := a + b;
    forall t | 0 <= t < |r| ensures r[t] == (if t < |a| then a[t] else b[t - |a|]) {
    }
  }

  /**
    Generation over a given operator list: a mutation is produced for a
    listed function, an operator of the list and an instruction of that
    function's body the operator triggers on. No candidate means no mutation.
   */
  function FindMutationsWith(catalog: seq<Mutator>, indices: seq<nat>, bodies: seq<Body>): (r: seq<Mutation>)
    requires IndicesInRange(indices, bodies)
    ensures indices == [] ==> r == []
    ensures forall t :: 0 <= t < |r| ==> r[t].mutator in catalog
    ensures forall t :: 0 <= t < |r| ==>
              && r[t].functionIndex in indices
              && r[t].instructionIndex < |bodies[r[t].functionIndex]|
              && Triggers(r[t].mutator, bodies[r[t].functionIndex][r[t].instructionIndex])
  {
    GenerateSound(catalog, indices, bodies);
    Generate(catalog, indices, bodies)
  }

  /**
    `find_mutations`: generation over the fixed catalog. Every mutation is a
    catalog swap at an in-range instruction of a listed function that holds
    the swap's original instruction.
   */
  function FindMutations(indices: seq<nat>, bodies: seq<Body>): (r: seq<Mutation>)
    requires IndicesInRange(indices, bodies)
    ensures indices == [] ==> r == []
    ensures forall t :: 0 <= t < |r| ==> r[t].mutator in AllMutators
    ensures forall t :: 0 <= t < |r| ==>
              && r[t].functionIndex in indices
              && r[t].instructionIndex < |bodies[r[t].functionIndex]|
              && Triggers(r[t].mutator, bodies[r[t].functionIndex][r[t].instructionIndex])
  {
    FindMutationsWith(AllMutators, indices, bodies)
  }

  /** Catalog order: the finds of a split operator list come one after the other. */
  lemma {:induction false} FindAllAppend(xs: seq<Mutator>, ys: seq<Mutator>, body: Body, functionIndex: nat)
    ensures FindAll(xs + ys, body, functionIndex) == FindAll(xs, body, functionIndex) + FindAll(ys, body, functionIndex)
    decreases |xs|
  {
    if xs == [] {
      assert xs + ys == ys;
    } else {
      assert (xs + ys)[1..] == xs[1..] + ys;
      FindAllAppend(xs[1..], ys, body, functionIndex);
    }
  }

  /** Candidate order: the mutations of a split candidate list come one after the other. */
  lemma {:induction false} GenerateAppend(catalog: seq<Mutator>, xs: seq<nat>, ys: seq<nat>, bodies: seq<Body>)
    ensures Generate(catalog, xs + ys, bodies) == Generate(catalog, xs, bodies) + Generate(catalog, ys, bodies)
    decreases |xs|
  {
    if xs == [] {
      assert xs + ys == ys;
    } else {
      assert (xs + ys)[1..] == xs[1..] + ys;
      GenerateAppend(catalog, xs[1..], ys, bodies);
    }
  }

  lemma IndicesInRangeAppend(xs: seq<nat>, ys: seq<nat>, bodies: seq<Body>)
    requires IndicesInRange(xs, bodies) && IndicesInRange(ys, bodies)
    ensures IndicesInRange(xs + ys, bodies)
  {
    var zs := xs + ys;
    forall k | 0 <= k < |zs| ensures zs[k] < |bodies| {
      if k >= |xs| {
        assert zs[k] == ys[k - |xs|];
      }
    }
  }

  lemma FindMutationsWithAppend(catalog: seq<Mutator>, xs: seq<nat>, ys: seq<nat>, bodies: seq<Body>)
    requires IndicesInRange(xs, bodies) && IndicesInRange(ys, bodies)
    ensures IndicesInRange(xs + ys, bodies)
    ensures FindMutationsWith(catalog, xs + ys, bodies) ==
            FindMutationsWith(catalog, xs, bodies) + FindMutationsWith(catalog, ys, bodies)
  {
    IndicesInRangeAppend(xs, ys, bodies);
    GenerateAppend(catalog, xs, ys, bodies);
  }

  /**
    The generated list is candidate-major: splitting the candidate list splits
    the output at the same place, so a function listed twice has its
    mutations listed twice.
   */
  lemma FindMutationsAppend(xs: seq<nat>, ys: seq<nat>, bodies: seq<Body>)
    requires IndicesInRange(xs, bodies) && IndicesInRange(ys, bodies)
    ensures IndicesInRange(xs + ys, bodies)
    ensures FindMutations(xs + ys, bodies) == FindMutations(xs, bodies) + FindMutations(ys, bodies)
  {
    FindMutationsWithAppend(AllMutators, xs, ys, bodies);
  }

  /** One candidate contributes every operator's finds over its body, in operator order. */
  lemma SingleCandidate(catalog: seq<Mutator>, index: nat, bodies: seq<Body>)
    requires index < |bodies|
    ensures FindMutationsWith(catalog, [index], bodies) == FindAll(catalog, bodies[index], index)
  {
    assert [index][1..] == [];
    assert FindMutationsWith(catalog, [index][1..], bodies) == [];
  }

  /** A duplicated candidate index duplicates its mutations. */
  lemma RepeatedCandidate(catalog: seq<Mutator>, index: nat, bodies: seq<Body>)
    requires index < |bodies|
    ensures FindMutationsWith(catalog, [index, index], bodies) ==
            FindAll(catalog, bodies[index], index) + FindAll(catalog, bodies[index], index)
  {
    FindMutationsWithAppend(catalog, [index], [index], bodies);
    assert [index] + [index] == [index, index];
    SingleCandidate(catalog, index, bodies);
  }

  /** How many mutations the operators of `mutators` find in one body, summed operator by operator. */
  function FindCount(mutators: seq<Mutator>, body: Body, functionIndex: nat): nat
  {
    if mutators == [] then 0
    else |Find(mutators[0], body, functionIndex)| + FindCount(mutators[1..], body, functionIndex)
  }

  /** The per-candidate counts summed over the candidate list. */
  function GenerateCount(catalog: seq<Mutator>, indices: seq<nat>, bodies: seq<Body>): nat
    decreases |indices|
  {
    if indices == [] then 0
    else
      (if indices[0] < |bodies| then FindCount(catalog, bodies[indices[0]], indices[0]) else 0)
      + GenerateCount(catalog, indices[1..], bodies)
  }

  lemma {:induction false} FindAllLength(mutators: seq<Mutator>, body: Body, functionIndex: nat)
    ensures |FindAll(mutators, body, functionIndex)| == FindCount(mutators, body, functionIndex)
    decreases |mutators|
  {
    if mutators != [] {
      FindAllLength(mutators[1..], body, functionIndex);
    }
  }

  lemma {:induction false} GenerateLength(catalog: seq<Mutator>, indices: seq<nat>, bodies: seq<Body>)
    ensures |Generate(catalog, indices, bodies)| == GenerateCount(catalog, indices, bodies)
    decreases |indices|
  {
    if indices != [] {
      if indices[0] < |bodies| {
        FindAllLength(catalog, bodies[indices[0]], indices[0]);
      }
      GenerateLength(catalog, indices[1..], bodies);
    }
  }

  /**
    The number of generated mutations is the sum, over the candidates and
    the operators, of the number of mutations each operator finds.
   */
  lemma FindMutationsWithLength(catalog: seq<Mutator>, indices: seq<nat>, bodies: seq<Body>)
    requires IndicesInRange(indices, bodies)
    ensures |FindMutationsWith(catalog, indices, bodies)| == GenerateCount(catalog, indices, bodies)
  {
    GenerateLength(catalog, indices, bodies);
  }

  /** Swaps with pairwise distinct originals. */
  predicate DistinctSwaps(mutators: seq<Mutator>)
  {
    && (forall k :: 0 <= k < |mutators| ==> mutators[k].Swap?)
    && (forall j, k :: 0 <= j < k < |mutators| ==> mutators[j].original != mutators[k].original)
  }

  /** No two mutations of the list target the same instruction. */
  predicate SitesDistinct(ms: seq<Mutation>)
  {
    forall s, t :: 0 <= s < t < |ms| ==> ms[s].instructionIndex != ms[t].instructionIndex
  }

  predicate SitesDisjoint(xs: seq<Mutation>, ys: seq<Mutation>)
  {
    forall s, t :: 0 <= s < |xs| && 0 <= t < |ys| ==> xs[s].instructionIndex != ys[t].instructionIndex
  }

  /**
    With distinct originals, no two mutations found in one body target the
    same instruction: every site is proposed once.
   */
  lemma {:induction false} FindAllSitesDistinct(mutators: seq<Mutator>, body: Body, functionIndex: nat)
    requires DistinctSwaps(mutators)
    ensures SitesDistinct(FindAll(mutators, body, functionIndex))
    decreases |mutators|
  {
    if mutators != [] {
      DistinctSwapsTail(mutators);
      FindAllSitesDistinct(mutators[1..], body, functionIndex);
      FindAllSitesDistinctStep(mutators, body, functionIndex);
    }
  }

  lemma DistinctSwapsTail(mutators: seq<Mutator>)
    requires mutators != [] && DistinctSwaps(mutators)
    ensures DistinctSwaps(mutators[1..])
  {
    var rest := mutators[1..];
    assert forall j :: 0 <= j < |rest| ==> rest[j] == mutators[j + 1];
  }

  lemma FindAllSitesDistinctStep(mutators: seq<Mutator>, body: Body, functionIndex: nat)
    requires mutators != [] && DistinctSwaps(mutators)
    requires SitesDistinct(FindAll(mutators[1..], body, functionIndex))
    ensures SitesDistinct(FindAll(mutators, body, functionIndex))
  {
    var head := Find(mutators[0], body, functionIndex);
    var tail := FindAll(mutators[1..], body, functionIndex);
    HeadTailSitesDisjoint(mutators, body, functionIndex);
    ConcatSitesDistinct(head, tail);
  }

  /** The first operator's sites and the other operators' sites do not meet. */
  lemma HeadTailSitesDisjoint(mutators: seq<Mutator>, body: Body, functionIndex: nat)
    requires mutators != [] && DistinctSwaps(mutators)
    ensures SitesDisjoint(Find(mutators[0], body, functionIndex), FindAll(mutators[1..], body, functionIndex))
  {
    var head := Find(mutators[0], body, functionIndex);
    var tail := FindAll(mutators[1..], body, functionIndex);
    forall s, t | 0 <= s < |head| && 0 <= t < |tail|
      ensures head[s].instructionIndex != tail[t].instructionIndex
    {
      assert head[s] in head;
      var k :| 0 <= k < |mutators[1..]| && mutators[1..][k] == tail[t].mutator;
      assert mutators[0].original != mutators[k + 1].original;
    }
  }

  lemma ConcatSitesDistinct(head: seq<Mutation>, tail: seq<Mutation>)
    requires SitesDistinct(head) && SitesDistinct(tail) && SitesDisjoint(head, tail)
    ensures SitesDistinct(head + tail)
  {
    var r := head + tail;
    forall s, t | 0 <= s < t < |r| ensures r[s].instructionIndex != r[t].instructionIndex {
      if t < |head| {
      } else if s >= |head| {
        assert r[s] == tail[s - |head|] && r[t] == tail[t - |head|];
      } else {
        assert r[t] == tail[t - |head|];
      }
    }
  }

  /** In particular every instruction of a candidate is mutated at most once by the catalog. */
  lemma CatalogSitesDistinct(body: Body, functionIndex: nat)
    ensures SitesDistinct(FindAll(AllMutators, body, functionIndex))
  {
    CatalogShape();
    CatalogOriginalsDistinct();
    FindAllSitesDistinct(AllMutators, body, functionIndex);
  }
}
