/**
  The engine: load the module, pick the candidate functions, generate the
  mutations, and run each mutant in isolation, keeping the mutations whose
  mutant still passes the embedded tests. The codec, the demangler and the
  test runner are not modelled; they are parameters of the environment.
 */
module Engine {
  import opened Wasm
  import opened Mutations
  import opened Dispatch
  import opened Catalog
  import opened Generation
  import opened Completeness
  import Candidates

  /**
    The collaborators. `load` is deserialisation followed by name parsing
    (`None` where either fails), `serialize` is `to_bytes`, `runTests` is the
    interpreter-based runner, `demangle` renders a mangled Rust symbol.
   */
  datatype Env = Env(
    load: Bytes -> Option<Module>,
    serialize: Module -> Option<Bytes>,
    runTests: Bytes -> TestResult,
    demangle: string -> string)

  /** Every mutant is built from a fresh decode of the original bytes. */
  function Mutant(env: Env, original: Bytes, mu: Mutation): Module
    requires env.load(original).Some? && Applicable(mu, env.load(original).value)
  {
    PerformMutation(mu, env.load(original).value)
  }

  /** The source unwraps the decode, indexes the targeted body and unwraps the encode. */
  predicate Runnable(env: Env, original: Bytes, mu: Mutation)
  {
    && env.load(original).Some?
    && Applicable(mu, env.load(original).value)
    && env.serialize(Mutant(env, original, mu)).Some?
  }

  /** The test verdict on one mutant; nothing else influences it. */
  function Verdict(env: Env, original: Bytes, mu: Mutation): TestResult
    requires Runnable(env, original, mu)
  {
    env.runTests(env.serialize(Mutant(env, original, mu)).value)
  }

  predicate AllRunnable(env: Env, original: Bytes, ms: seq<Mutation>)
  {
    forall t :: 0 <= t < |ms| ==> Runnable(env, original, ms[t])
  }

  /**
    The surviving mutations: those whose mutant passes, in generation order.
    A mutation survives exactly when its own verdict is `Passed`.
   */
  function Survivors(env: Env, original: Bytes, ms: seq<Mutation>): (r: seq<Mutation>)
    requires AllRunnable(env, original, ms)
    ensures |r| <= |ms|
    ensures forall t :: 0 <= t < |r| ==> r[t] in ms && Verdict(env, original, r[t]) == Passed
    ensures forall t :: 0 <= t < |ms| && Verdict(env, original, ms[t]) == Passed ==> ms[t] in r
  {
    if ms == [] then []
    else
      var init := ms[..|ms| - 1];
      var last := ms[|ms| - 1];
      AllRunnablePrefix(env, original, ms, |ms| - 1);
      var kept := Survivors(env, original, init);
      var r := kept + (if Verdict(env, original, last) == Passed then [last] else []);
      forall t | 0 <= t < |ms| && Verdict(env, original, ms[t]) == Passed ensures ms[t] in r {
        if t < |ms| - 1 {
          assert ms[t] == init[t];
        }
      }
      r
  }

  lemma AllRunnablePrefix(env: Env, original: Bytes, ms: seq<Mutation>, k: nat)
    requires k <= |ms| && AllRunnable(env, original, ms)
    ensures AllRunnable(env, original, ms[..k])
  {
    forall t | 0 <= t < k ensures Runnable(env, original, ms[..k][t]) {
      assert ms[..k][t] == ms[t];
    }
  }

  lemma AllRunnableAppend(env: Env, original: Bytes, xs: seq<Mutation>, ys: seq<Mutation>)
    requires AllRunnable(env, original, xs) && AllRunnable(env, original, ys)
    ensures AllRunnable(env, original, xs + ys)
  {
    var zs := xs + ys;
    forall t | 0 <= t < |zs| ensures Runnable(env, original, zs[t]) {
      if t >= |xs| {
        assert zs[t] == ys[t - |xs|];
      }
    }
  }

  /**
    Survival is decided mutation by mutation: the survivors of a split list
    are the survivors of each part, in order.
   */
  lemma {:induction false} SurvivorsAppend(env: Env, original: Bytes, xs: seq<Mutation>, ys: seq<Mutation>)
    requires AllRunnable(env, original, xs) && AllRunnable(env, original, ys)
    ensures AllRunnable(env, original, xs + ys)
    ensures Survivors(env, original, xs + ys) == Survivors(env, original, xs) + Survivors(env, original, ys)
    decreases |ys|
  {
    AllRunnableAppend(env, original, xs, ys);
    var zs := xs + ys;
    if ys == [] {
      assert zs == xs;
    } else {
      var init := ys[..|ys| - 1];
      var last := ys[|ys| - 1];
      assert zs[..|zs| - 1] == xs + init;
      assert zs[|zs| - 1] == last;
      AllRunnablePrefix(env, original, ys, |ys| - 1);
      SurvivorsAppend(env, original, xs, init);
    }
  }

  /** A single mutation survives exactly when its own mutant passes. */
  lemma SurvivorsSingle(env: Env, original: Bytes, mu: Mutation)
    requires Runnable(env, original, mu)
    ensures AllRunnable(env, original, [mu])
    ensures Survivors(env, original, [mu]) == if Verdict(env, original, mu) == Passed then [mu] else []
  {
    assert [mu][..0] == [];
  }

  /** One more mutation of the list either survives, appended at the end, or does not. */
  lemma SurvivorsStep(env: Env, original: Bytes, ms: seq<Mutation>, k: nat)
    requires k < |ms| && AllRunnable(env, original, ms)
    ensures AllRunnable(env, original, ms[..k]) && AllRunnable(env, original, ms[..k + 1])
    ensures Survivors(env, original, ms[..k + 1]) ==
            Survivors(env, original, ms[..k]) + (if Verdict(env, original, ms[k]) == Passed then [ms[k]] else [])
  {
    AllRunnablePrefix(env, original, ms, k);
    assert ms[..k + 1] == ms[..k] + [ms[k]];
    SurvivorsSingle(env, original, ms[k]);
    SurvivorsAppend(env, original, ms[..k], [ms[k]]);
  }

  /**
    A mutation is among the survivors exactly when it is in the list and its
    mutant passes; when every mutant fails, nothing survives.
   */
  lemma SurvivorsExactly(env: Env, original: Bytes, ms: seq<Mutation>)
    requires AllRunnable(env, original, ms)
    ensures forall mu :: mu in Survivors(env, original, ms) <==> mu in ms && Verdict(env, original, mu) == Passed
    ensures (forall t :: 0 <= t < |ms| ==> Verdict(env, original, ms[t]) == Failed) ==> Survivors(env, original, ms) == []
  {
    var r := Survivors(env, original, ms);
    forall mu | mu in ms && Verdict(env, original, mu) == Passed ensures mu in r {
      var t :| 0 <= t < |ms| && ms[t] == mu;
    }
    if r != [] {
      var t :| 0 <= t < |ms| && ms[t] == r[0];
    }
  }

  /**
    `run_mutations`: for each mutation in order, decode the original afresh,
    apply the mutation, encode, run the tests and keep the mutation when
    they pass.
   */
  method RunMutations(env: Env, original: Bytes, ms: seq<Mutation>) returns (surviving: seq<Mutation>)
    requires AllRunnable(env, original, ms)
    ensures surviving == Survivors(env, original, ms)
    ensures |surviving| <= |ms|
    ensures forall mu :: mu in surviving <==> mu in ms && Verdict(env, original, mu) == Passed
    ensures (forall t :: 0 <= t < |ms| ==> Verdict(env, original, ms[t]) == Failed) ==> surviving == []
  {
    surviving := [];
    var k := 0;
    while k < |ms|
      invariant 0 <= k <= |ms|
      invariant AllRunnable(env, original, ms[..k])
      invariant surviving == Survivors(env, original, ms[..k])
    {
      var mu := ms[k];
      var mutated := PerformMutation(mu, env.load(original).value);
      var serialized := env.serialize(mutated).value;
      SurvivorsStep(env, original, ms, k);
      if env.runTests(serialized) == Passed {
        surviving := surviving + [mu];
      }
      k := k + 1;
    }
    assert ms[..k] == ms;
    SurvivorsExactly(env, original, ms);
  }

  /** The decoded original has the sections the source unwraps. */
  predicate Decodes(env: Env, original: Bytes)
  {
    && env.load(original).Some?
    && env.load(original).value.code.Some?
    && env.load(original).value.names.Some?
  }

  function CandidatesOf(env: Env, original: Bytes, includes: seq<string>, excludes: seq<string>): seq<nat>
    requires Decodes(env, original)
  {
    Candidates.IdentifyCandidateFunctions(env.load(original).value, includes, excludes, env.demangle)
  }

  /**
    What the source needs to run to completion: a decodable original with a
    code and a name section, candidate indices that address bodies of the
    code section, and mutants that all encode.
   */
  predicate Completes(env: Env, original: Bytes, includes: seq<string>, excludes: seq<string>)
  {
    && Decodes(env, original)
    && IndicesInRange(CandidatesOf(env, original, includes, excludes), env.load(original).value.code.value)
    && (var ms := FindMutations(CandidatesOf(env, original, includes, excludes), env.load(original).value.code.value);
        forall t :: 0 <= t < |ms| ==>
          Applicable(ms[t], env.load(original).value) ==> env.serialize(Mutant(env, original, ms[t])).Some?)
  }

  /** The mutations generated for the selected candidates of the decoded original. */
  function Generated(env: Env, original: Bytes, includes: seq<string>, excludes: seq<string>): seq<Mutation>
    requires Completes(env, original, includes, excludes)
  {
    FindMutations(CandidatesOf(env, original, includes, excludes), env.load(original).value.code.value)
  }

  /** Every generated mutation can be applied to a fresh decode, and its mutant encodes. */
  lemma GeneratedRunnable(env: Env, original: Bytes, includes: seq<string>, excludes: seq<string>)
    requires Completes(env, original, includes, excludes)
    ensures AllRunnable(env, original, Generated(env, original, includes, excludes))
  {
    var wasm := env.load(original).value;
    var ms := Generated(env, original, includes, excludes);
    forall t | 0 <= t < |ms| ensures Runnable(env, original, ms[t]) {
      assert Applicable(ms[t], wasm);
    }
  }

  /**
    What a reported mutation is: a catalog swap in a selected candidate
    function, at an instruction of its body that the swap triggers on, whose
    mutant passes the tests.
   */
  lemma SurvivorsAreCatalogSwaps(env: Env, original: Bytes, includes: seq<string>, excludes: seq<string>)
    requires Completes(env, original, includes, excludes)
    ensures AllRunnable(env, original, Generated(env, original, includes, excludes))
    ensures var surviving := Survivors(env, original, Generated(env, original, includes, excludes));
            var wasm := env.load(original).value;
            forall t :: 0 <= t < |surviving| ==>
              && surviving[t].mutator in AllMutators
              && surviving[t].functionIndex in CandidatesOf(env, original, includes, excludes)
              && surviving[t].functionIndex < |wasm.code.value|
              && surviving[t].instructionIndex < |wasm.code.value[surviving[t].functionIndex]|
              && Triggers(surviving[t].mutator, wasm.code.value[surviving[t].functionIndex][surviving[t].instructionIndex])
              && Runnable(env, original, surviving[t])
              && Verdict(env, original, surviving[t]) == Passed
  {
    GeneratedRunnable(env, original, includes, excludes);
    var generated := Generated(env, original, includes, excludes);
    var surviving := Survivors(env, original, generated);
    forall t | 0 <= t < |surviving| ensures surviving[t] in generated {
    }
  }

  /** A position of a candidate function's body that a catalog swap triggers on. */
  predicate CatalogSite(env: Env, original: Bytes, includes: seq<string>, excludes: seq<string>, mu: Mutation)
    requires Decodes(env, original)
  {
    var bodies := env.load(original).value.code.value;
    && mu.mutator in AllMutators
    && mu.functionIndex in CandidatesOf(env, original, includes, excludes)
    && mu.functionIndex < |bodies|
    && mu.instructionIndex < |bodies[mu.functionIndex]|
    && Triggers(mu.mutator, bodies[mu.functionIndex][mu.instructionIndex])
  }

  /**
    The report, position by position: a mutation is reported exactly when it
    is a catalog swap at a triggering position of a candidate function and
    its mutant passes. Every such site can be run.
   */
  lemma ReportedExactly(env: Env, original: Bytes, includes: seq<string>, excludes: seq<string>, mu: Mutation)
    requires Completes(env, original, includes, excludes)
    ensures AllRunnable(env, original, Generated(env, original, includes, excludes))
    ensures CatalogSite(env, original, includes, excludes, mu) ==> Runnable(env, original, mu)
    ensures mu in Survivors(env, original, Generated(env, original, includes, excludes)) <==>
              && CatalogSite(env, original, includes, excludes, mu)
              && Runnable(env, original, mu)
              && Verdict(env, original, mu) == Passed
  {
    GeneratedRunnable(env, original, includes, excludes);
    var wasm := env.load(original).value;
    var indices := CandidatesOf(env, original, includes, excludes);
    var generated := Generated(env, original, includes, excludes);
    FindMutationsExactly(indices, wasm.code.value, mu);
    if mu in generated {
      var t :| 0 <= t < |generated| && generated[t] == mu;
      assert Runnable(env, original, generated[t]);
    }
    SurvivorsExactly(env, original, generated);
  }

  /**
    `find_surviving_mutants`: the survivors, in generation order, of the
    mutations generated for the candidate functions; every generated mutation
    whose mutant passes is reported. Without include prefixes nothing is
    reported.
   */
  method FindSurvivingMutants(env: Env, original: Bytes, includes: seq<string>, excludes: seq<string>)
    returns (surviving: seq<Mutation>)
    requires Completes(env, original, includes, excludes)
    ensures includes == [] ==> surviving == []
    ensures AllRunnable(env, original, Generated(env, original, includes, excludes))
    ensures surviving == Survivors(env, original, Generated(env, original, includes, excludes))
    ensures forall mu ::
              (mu in Generated(env, original, includes, excludes) && Runnable(env, original, mu)
               && Verdict(env, original, mu) == Passed) ==> mu in surviving
    ensures forall mu :: mu in surviving <==>
              && CatalogSite(env, original, includes, excludes, mu)
              && Runnable(env, original, mu)
              && Verdict(env, original, mu) == Passed
  {
    var wasm := env.load(original).value;
    var indices := Candidates.IdentifyCandidateFunctions(wasm, includes, excludes, env.demangle);
    var bodies := wasm.code.value;
    var mutations := FindMutations(indices, bodies);
    GeneratedRunnable(env, original, includes, excludes);
    surviving := RunMutations(env, original, mutations);
    forall mu | true
      ensures mu in surviving <==>
                && CatalogSite(env, original, includes, excludes, mu)
                && Runnable(env, original, mu)
                && Verdict(env, original, mu) == Passed
    {
      ReportedExactly(env, original, includes, excludes, mu);
    }
  }
}
