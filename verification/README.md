# Mutation core of a WebAssembly mutation tester

This project is a Dafny model of the core of a mutation-testing tool for Rust
code compiled to WebAssembly. The tool takes the bytes of a compiled test
module and a list of include and exclude module-path prefixes. It works in
four stages:

1. It picks the candidate functions whose demangled names start with an
   include prefix and with no exclude prefix.
2. For every candidate function, in candidate order, it runs every operator
   of a fixed catalog over that function's body. Each operator proposes one
   mutation per instruction it applies to.
3. For each mutation it decodes a fresh copy of the original module, rewrites
   the targeted body, re-encodes the module and runs the embedded tests.
4. It reports the mutations whose mutant still passes. These are the
   "surviving" mutants.

The model keeps the tool's own vocabulary:

- A **mutator** is an operator. The model has three kinds:
  - the instruction swap: overwrite one instruction with another;
  - set-cancelling: turn an assignment into `drop`, or a store into two
    `drop`s;
  - if-condition-to-false: turn a `br_if` into `drop`.
- A **mutation** is a mutator together with a function index and an
  instruction index.
- The **catalog** (`ALL_MUTATORS`) holds twelve relational-boundary swaps.
  In this snapshot the catalog lists neither the set-cancelling operator nor
  the if-condition operator. The model still defines and proves both
  operators, because they are part of the mutation core and have their own
  tests.

Modules, one per file:

| file | module | models |
|---|---|---|
| `wasm.dfy` | `Wasm` | the slice of a WebAssembly module the core reads: instructions, bodies, the function-name map |
| `mutation.dfy` | `Mutations` | mutators and mutations as values, and the ordered scan shared by every `find` |
| `instruction_swapping.dfy` | `InstructionSwapping` | the swap operator |
| `set_cancelling.dfy` | `SetCancelling` | the set-cancelling operator |
| `if_condition_to_false.dfy` | `IfConditionToFalse` | the `br_if` operator |
| `dispatch.dfy` | `Dispatch` | the operator interface, and a mutation's `perform` on a whole module |
| `catalog.dfy` | `Catalog` | the fixed catalog |
| `generation.dfy` | `Generation` | `find_mutations` |
| `completeness.dfy` | `Completeness` | `find_mutations`: every applicable operator and position is generated |
| `sequencing.dfy` | `Sequencing` | applying every mutation found in a body, one after another, as the operators' tests do |
| `candidates.dfy` | `Candidates` | `identify_candidate_functions` |
| `engine.dfy` | `Engine` | `find_surviving_mutants` and `run_mutations` |

Some things outside the core are parameters of an environment record
(`Engine.Env`). They are not modelled:

- decoding the bytes and parsing the names (`load`);
- encoding (`serialize`);
- the interpreter-based test runner (`runTests`);
- the symbol demangler (`demangle`).

The source calls `unwrap` in several places. Each of these becomes a
precondition that says what has to hold for the call not to panic:

- the code section is present (`Applicable`, `Decodes`);
- the name section is present (`IdentifyCandidateFunctions`);
- each candidate index addresses a body (`IndicesInRange`);
- every mutant encodes (`Completes`).

## Model

| member | source | states |
|---|---|---|
| Mutations.Scan | src/mutation/instruction_swapping_mutator.rs:16-28 | the ordered scan behind every `find`: one mutation per matching instruction, each carrying the operator and the function index; strictly ascending instruction positions; a position is targeted if and only if its instruction matches; no match means no mutation |
| InstructionSwapping.Perform | src/mutation/instruction_swapping_mutator.rs:12-14 | the body keeps its length; the replacement is written at the index, whatever was there; every other position is unchanged |
| InstructionSwapping.Find | src/mutation/instruction_swapping_mutator.rs:16-28 | one mutation per position whose instruction equals the original, carrying this swap and the function index; ascending order; the targeted positions are exactly the occurrences of the original |
| SetCancelling.Perform | src/mutation/set_cancelling_mutator.rs:9-25 | an assignment becomes `drop` in place and the length is unchanged; a store is replaced by two `drop`s (the prefix, then `drop, drop`, then the rest after the store), so the body grows by one and the later instructions move up by one; any other instruction leaves the body unchanged |
| SetCancelling.InsertAfterOverwrite | src/mutation/set_cancelling_mutator.rs:18-21 | overwriting a store by `drop` and inserting `drop` in front of it gives the prefix, `drop, drop`, then the instructions after the store: one longer, with every later instruction moved up by one |
| SetCancelling.Find | src/mutation/set_cancelling_mutator.rs:27-43 | one mutation per `set_local`, `set_global` or typed store, whatever its operands; ascending order; the targeted positions are exactly those instructions; an empty body or a body without them yields nothing |
| IfConditionToFalse.Perform | src/mutation/if_condition_to_false_mutator.rs:9-12 | the instruction at the index becomes `drop`; the length and every other position are unchanged |
| IfConditionToFalse.Find | src/mutation/if_condition_to_false_mutator.rs:14-35 | one mutation per `br_if`, whatever its label; ascending order; the targeted positions are exactly the `br_if`s |
| Dispatch.Find | src/mutation/mutator.rs:4-8 | through the operator interface, a mutation is in the result exactly when it carries the operator and the function index and targets an in-range instruction the operator applies to; ascending order |
| Dispatch.Perform | src/mutation/mutator.rs:4-8 | every operator keeps the instructions before the index; only a set-cancelling rewrite of a store changes the length, and then by one |
| Dispatch.PerformMutation | src/mutation/mutation.rs:12-17 | a mutation rewrites only the targeted body of the code section; the name section, the number of bodies and every other body stay the same |
| Dispatch.ApplyAllWithinOneFunction | src/mutation/mutation.rs:12-17 | applying several mutations that all target one function, one after another, is the body-level sequence written back into that function; nothing else in the module changes |
| Dispatch.PerformAllSwaps | src/mutation/instruction_swapping_mutator.rs:181-208 | swaps with in-range indices, applied in any order, write the replacement at exactly the targeted positions |
| Dispatch.PerformAllIfConditions | src/mutation/if_condition_to_false_mutator.rs:190-214 | `br_if` suppressions, applied in any order, write `drop` at exactly the targeted positions |
| Dispatch.PerformAllAssignmentCancels | src/mutation/set_cancelling_mutator.rs:235-259 | set-cancelling mutations that meet only assignments, or a `drop` an earlier one left, write `drop` at exactly the targeted positions |
| Catalog.CatalogShape | src/mutation/all_mutators.rs:5-54 | the catalog has twelve entries, all swaps that change the instruction; the set-cancelling and if-condition operators are not in it |
| Catalog.CatalogOriginalsDistinct | src/mutation/all_mutators.rs:5-54 | no two catalog entries share an original instruction |
| Catalog.CatalogClosedUnderInversion | src/mutation/all_mutators.rs:5-54 | every swap's inverse is also in the catalog |
| Catalog.CatalogStaysWithinFamily | src/mutation/all_mutators.rs:5-54 | every swap replaces a comparison by a comparison on the same operand type and signedness |
| Generation.FindAll | src/mutation/mod.rs:17-19 | the operators' finds over one body: each mutation comes from one of the operators, targets the given function and an in-range instruction the operator applies to |
| Generation.GenerateSound | src/mutation/mod.rs:13-22 | every generated mutation comes from the catalog, targets a listed function that has a body, and targets an instruction of that body its operator applies to |
| Generation.FindMutationsWith | src/mutation/mod.rs:13-22 | generation over an operator list: no candidates means no mutations; every mutation is from the list, in a listed function, at an in-range instruction its operator applies to |
| Generation.FindMutations | src/mutation/mod.rs:13-22 | `find_mutations` over the fixed catalog: every mutation is a catalog swap at an in-range instruction of a listed function that holds the swap's original instruction |
| Completeness.FindAllComplete | src/mutation/mod.rs:17-19 | completeness over one body: every listed operator that applies to the instruction at a position proposes a mutation for that position and function |
| Completeness.GenerateComplete | src/mutation/mod.rs:15-20 | completeness over the candidates: every candidate's body contributes a mutation for each operator and each position that operator applies to |
| Completeness.FindMutationsWithExactly | src/mutation/mod.rs:13-22 | a mutation is generated if and only if its operator is listed, its function is a candidate, and its operator applies to the instruction at its in-range position |
| Completeness.FindMutationsExactly | src/mutation/mod.rs:13-22 | `find_mutations` proposes a mutation if and only if it is a catalog operator at an in-range position of a candidate body whose instruction the operator applies to |
| Generation.FindAllAppend | src/mutation/mod.rs:17-19 | catalog order: splitting the operator list splits the finds at the same place |
| Generation.GenerateAppend | src/mutation/mod.rs:15-20 | candidate order: splitting the candidate list splits the generated list at the same place |
| Generation.FindMutationsWithAppend | src/mutation/mod.rs:15-20 | over any operator list, splitting the candidate list splits the generated list at the same place |
| Generation.FindAllLength | src/mutation/mod.rs:17-19 | the finds over one body number the sum of each operator's find count |
| Generation.GenerateLength | src/mutation/mod.rs:15-20 | the generated list is as long as the sum, over the candidates, of their per-operator find counts |
| Generation.FindMutationsWithLength | src/mutation/mod.rs:13-22 | the number of generated mutations is the sum, over candidates and operators, of the number of mutations each operator finds |
| Generation.FindMutationsAppend | src/mutation/mod.rs:15-20 | with the fixed catalog, the generated list is candidate-major |
| Generation.SingleCandidate | src/mutation/mod.rs:15-20 | one candidate contributes every operator's finds over its body, in operator order |
| Generation.RepeatedCandidate | src/mutation/mod.rs:15-20 | a candidate listed twice has its mutations generated twice |
| Generation.FindAllSitesDistinct | src/mutation/mod.rs:17-19 | swaps with pairwise distinct originals never propose two mutations for the same instruction |
| Generation.CatalogSitesDistinct | src/mutation/all_mutators.rs:5-54 | the catalog mutates each instruction of a candidate at most once |
| Sequencing.Reverse | src/mutation/if_condition_to_false_mutator.rs:207 | the reversed list has the same length and the mirrored elements |
| Sequencing.ReverseSameTargets | src/mutation/if_condition_to_false_mutator.rs:207 | reversing a list of mutations does not change which positions it targets |
| Sequencing.FindThenApplyAllSwaps | src/mutation/instruction_swapping_mutator.rs:181-208 | applying every swap found in a function, in the order found, replaces each occurrence of the original by the replacement in that function and changes nothing else |
| Sequencing.SwapTargetsAreOccurrences | src/mutation/instruction_swapping_mutator.rs:16-28 | overwriting the positions a swap's `find` targets is the substitution of the original by the replacement |
| Sequencing.FindThenApplyAllIfConditionsReversed | src/mutation/if_condition_to_false_mutator.rs:190-214 | applying every `br_if` suppression found, last one first, turns every `br_if` of the function into `drop` and changes nothing else |
| Sequencing.BrIfTargetsAreBranches | src/mutation/if_condition_to_false_mutator.rs:14-25 | overwriting the positions the `br_if` operator targets by `drop` is replacing every `br_if` by `drop` |
| Sequencing.FindThenApplyAllAssignmentCancels | src/mutation/set_cancelling_mutator.rs:235-259 | in a function without stores, applying every set-cancelling mutation found, in order, turns each assignment into `drop` and changes nothing else |
| Sequencing.CancelTargetsAreAssignments | src/mutation/set_cancelling_mutator.rs:27-43 | without stores, the set-cancelling sites are exactly the assignments |
| Sequencing.AssignmentsOnlyBecomeDrops | src/mutation/set_cancelling_mutator.rs:235-259 | a body made only of assignments becomes all `drop`s |
| Sequencing.AllAssignmentsReplaced | src/mutation/set_cancelling_mutator.rs:9-13 | replacing every assignment of an assignment-only body by `drop` gives a body of `drop`s of the same length |
| Sequencing.StoreRewriteLeavesLaterMutationsStale | src/mutation/set_cancelling_mutator.rs:14-22 | in a two-store body, `find` targets positions 0 and 1; applying both in order gives `drop, drop` and then the second store unchanged, because the inserted `drop` shifts the later index |
| Sequencing.FindOnTwoStores | src/mutation/set_cancelling_mutator.rs:27-43 | a body of two stores yields exactly the mutations at positions 0 and 1, in that order |
| Sequencing.PerformOnTwoStores | src/mutation/set_cancelling_mutator.rs:14-22 | rewriting position 0 and then position 1 of a two-store body gives `drop, drop` and then the second store |
| Candidates.ClearIfExcluded | src/candidates/mod.rs:15-21 | the exclude loop keeps the flag exactly when it was set and no exclude prefix starts the demangled name |
| Candidates.Matching | src/candidates/mod.rs:13-14 | exactly the include prefixes that start the name, at most as many as there are includes |
| Candidates.EntryCandidates | src/candidates/mod.rs:11-25 | one name contributes only its own key: once per matching include, or nothing at all when an exclude prefix matches |
| Candidates.FromEntries | src/candidates/mod.rs:10-27 | no includes means no candidates; every output index is the key of a selected entry; every selected entry's key is output |
| Candidates.IdentifyCandidateFunctions | src/candidates/mod.rs:4-29 | no includes, or no function-name map, means no candidates; every candidate is the key of a name whose demangled form starts with an include and with no exclude; every such key is a candidate |
| Candidates.FromEntriesAppend | src/candidates/mod.rs:10-11 | name-table order: splitting the name table splits the candidates at the same place |
| Candidates.FromEntriesMultiplicity | src/candidates/mod.rs:13-23 | with ascending, distinct keys, a key occurs in the output once per include its name matches, and not at all when an exclude matches |
| Candidates.FromEntriesSorted | src/candidates/mod.rs:10-11 | with ascending keys, the output is sorted |
| Candidates.CandidateMultiplicity | src/candidates/mod.rs:4-29 | the multiplicity of each named function among the candidates of a module |
| Candidates.CandidatesSorted | src/candidates/mod.rs:4-29 | the candidates of a module are in ascending index order |
| Candidates.ExcludeWins | src/candidates/mod.rs:71-94 | a function whose name matches an exclude prefix is never a candidate, whatever the includes |
| Candidates.OverlappingIncludesDuplicate | src/candidates/mod.rs:13-22 | with includes `a` and `a::`, a function named `a::f` is listed twice |
| Engine.Survivors | src/engine/mod.rs:21-32 | the survivors are at most the input, each of them is in the input and passes, and every passing input is a survivor |
| Engine.SurvivorsAppend | src/engine/mod.rs:23-30 | survival is decided one mutation at a time: the survivors of a split list are the survivors of each part, in order |
| Engine.SurvivorsSingle | src/engine/mod.rs:24-29 | a single mutation survives exactly when its own mutant passes |
| Engine.SurvivorsStep | src/engine/mod.rs:23-30 | one more mutation of the list is appended to the survivors exactly when its own mutant passes |
| Engine.SurvivorsExactly | src/engine/mod.rs:21-32 | a mutation survives exactly when it is in the list and its mutant passes; when every mutant fails, nothing survives |
| Engine.RunMutations | src/engine/mod.rs:21-32 | `run_mutations` returns the survivors in input order; a mutation survives exactly when its mutant, built from a fresh decode, passes; if every mutant fails, nothing survives |
| Engine.GeneratedRunnable | src/engine/mod.rs:23-26 | every generated mutation can be applied to a fresh decode and its mutant encodes, so the run reaches every mutation |
| Engine.SurvivorsAreCatalogSwaps | src/engine/mod.rs:7-19 | each reported mutation is a catalog swap in a selected candidate function, at an instruction of its body that the swap triggers on, and its mutant passes |
| Engine.FindSurvivingMutants | src/engine/mod.rs:7-19 | no includes means nothing reported; the report is exactly `run_mutations` applied to the mutations generated for the selected candidates of the decoded original, in generation order; every generated mutation whose mutant passes is reported; a mutation is reported if and only if it is a catalog swap at a position of a candidate body that the swap applies to, and its mutant passes |
| Engine.ReportedExactly | src/engine/mod.rs:7-32 | a mutation is reported if and only if it is a catalog swap at a position of a candidate function's body that the swap applies to, and its mutant, built from a fresh decode and encoded, passes; every such position can be run |

## Left out

- The WebAssembly codec is not modelled. Decoding, name parsing and encoding are the `load` and `serialize` parameters of `Engine.Env`, and a failure is `None`. The source panics on such a failure; the model rules it out with the `Completes` precondition.
- The test runner (`src/runner/mod.rs`) is not modelled. It instantiates the module with no imports and invokes the exported `main` with two zero arguments. Normal completion is `Passed`, and any error from the call is `Failed`: a trap, a missing `main` export or a signature mismatch. This is the `runTests` parameter, a function of the encoded bytes. Its own panics, for example on a module that cannot be instantiated, are outside the model.
- Rust demangling is the `demangle` parameter.
- The front end (`src/main.rs`) runs the tests of an embedded example module and prints the survivors for fixed prefixes. It is only I/O, so it is left out.
- SetCancelling: its `describe` (`src/mutation/set_cancelling_mutator.rs:45-47`) returns a fixed label and is not modelled. The `Debug` rendering calls `describe` through the operator interface, which does not declare it (`src/mutation/mutator.rs:4-8`).
- `describe` and the `Debug` rendering of a mutation (`src/mutation/mutation.rs:20-24`) only produce text, so they are left out.
- The file `src/mutation/if_condition_to_true_mutator.rs` is declared in `src/mutation/mod.rs:6` but is not part of this model.
- `src/mutation/i32geu_to_gtu_mutator.rs` is not declared as a module, so it is never compiled. It is left out.
- Instructions the operators never inspect collapse into a few placeholder constructors. Of the operands, only the local and global indices, the `br_if` label and the store immediates are kept; no other operand is modelled. Floating-point comparison semantics are irrelevant to the rewrite and are not modelled.
- Engine.FindSurvivingMutants: candidate indices are name-map keys, which count imported functions too, while the code section holds only defined functions. The source indexes the bodies with the key anyway. The model requires every candidate to address a body (`IndicesInRange` inside `Completes`) rather than modelling the panic or a wrong body in a module with imports.
- Candidates.IdentifyCandidateFunctions: the result is not deduplicated. The code pushes a function's key once per matching include prefix (`src/candidates/mod.rs:13-24`), so a function can be listed more than once. The model keeps these duplicates, and `Candidates.OverlappingIncludesDuplicate` shows the duplicate. Duplicates then flow through generation (`Generation.RepeatedCandidate`).
- Generation.FindMutationsWith: the source indexes the bodies with each candidate and panics on a missing one. The precondition rules this out instead of modelling the panic.
- Dispatch.PerformMutation: the source unwraps the code section and indexes the body. The `Applicable` precondition rules out both panics.
- Dispatch.PerformAll: a sequence that reaches an index outside the body gives `None` where the source would panic.
- The source targets 32-bit and 64-bit platforms with `usize` indices. The model uses unbounded `nat`; no index in the core is computed arithmetically, so no wrap-around matters.
- The name-map key is a `u32` cast to `usize`. This widening cast is lossless, so `nat` models it.
- Parallelism and timing are left out. The source runs mutations sequentially and so does the model.
