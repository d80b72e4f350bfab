/**
  Candidate-function selection: walk the function-name map in order and, for
  each name, each include prefix its demangled form starts with, emit the
  name's function index unless the demangled form starts with an exclude
  prefix. A name matching several include prefixes is emitted several times.
 */
module Candidates {
  import opened Wasm

  predicate StartsWith(s: string, prefix: string)
  {
    |prefix| <= |s| && s[..|prefix|] == prefix
  }

  predicate StartsWithAny(s: string, prefixes: seq<string>)
  {
    exists k :: 0 <= k < |prefixes| && StartsWith(s, prefixes[k])
  }

  /** The demangled name is kept: some include prefix matches and no exclude prefix does. */
  predicate Selected(demangled: string, includes: seq<string>, excludes: seq<string>)
  {
    StartsWithAny(demangled, includes) && !StartsWithAny(demangled, excludes)
  }

  /**
    The exclude loop: starting from `included`, clear the flag for every
    exclude prefix the name starts with. The flag survives exactly when it
    was set and no exclude prefix matches, so exclusion always wins.
   */
  function ClearIfExcluded(included: bool, demangled: string, excludes: seq<string>): (r: bool)
    ensures r <==> included && !StartsWithAny(demangled, excludes)
  {
    if excludes == [] then included
    else
      var next := if StartsWith(demangled, excludes[0]) then false else included;
      var r := ClearIfExcluded(next, demangled, excludes[1..]);
      assert StartsWithAny(demangled, excludes) <==>
             StartsWith(demangled, excludes[0]) || StartsWithAny(demangled, excludes[1..]) by {
        if StartsWithAny(demangled, excludes[1..]) {
          var k :| 0 <= k < |excludes[1..]| && StartsWith(demangled, excludes[1..][k]);
          assert excludes[k + 1] == excludes[1..][k];
        }
        if StartsWithAny(demangled, excludes) && !StartsWith(demangled, excludes[0]) {
          var k :| 0 <= k < |excludes| && StartsWith(demangled, excludes[k]);
          assert excludes[1..][k - 1] == excludes[k];
        }
      }
      r
  }

  /** The include prefixes a name starts with, in include order. */
  function Matching(demangled: string, includes: seq<string>): (r: seq<string>)
    ensures forall p :: p in r <==> p in includes && StartsWith(demangled, p)
    ensures |r| <= |includes|
  {
    if includes == [] then []
    else if StartsWith(demangled, includes[0]) then [includes[0]] + Matching(demangled, includes[1..])
    else Matching(demangled, includes[1..])
  }

  /**
    The include loop for one name: the name's index once per include prefix
    the demangled name starts with, and not at all when it is excluded.
   */
  function EntryCandidates(entry: NameEntry, demangled: string, includes: seq<string>, excludes: seq<string>): (r: seq<nat>)
    ensures forall t :: 0 <= t < |r| ==> r[t] == entry.index
    ensures |r| == if StartsWithAny(demangled, excludes) then 0 else |Matching(demangled, includes)|
  {
    if includes == [] then []
    else
      var here := if StartsWith(demangled, includes[0]) && ClearIfExcluded(true, demangled, excludes)
                  then [entry.index] else [];
      here + EntryCandidates(entry, demangled, includes[1..], excludes)
  }

  /** `x` is the key of an entry whose demangled name is selected. */
  predicate Emitted(x: nat, entries: seq<NameEntry>, includes: seq<string>, excludes: seq<string>,
                    demangle: string -> string)
  {
    exists e :: e in entries && e.index == x && Selected(demangle(e.name), includes, excludes)
  }

  /** The outer loop over the name map. */
  function FromEntries(entries: seq<NameEntry>, includes: seq<string>, excludes: seq<string>,
                       demangle: string -> string): (r: seq<nat>)
    ensures includes == [] ==> r == []
    ensures forall t :: 0 <= t < |r| ==> Emitted(r[t], entries, includes, excludes, demangle)
    ensures forall e :: e in entries && Selected(demangle(e.name), includes, excludes) ==> e.index in r
  {
    if entries == [] then []
    else
      var rest := FromEntries(entries[1..], includes, excludes, demangle);
      FromEntriesStep(entries, includes, excludes, demangle, rest);
      EntryCandidates(entries[0], demangle(entries[0].name), includes, excludes) + rest
  }

  /** A name contributes something exactly when it is selected. */
  lemma EntryCandidatesNonEmpty(entry: NameEntry, demangled: string, includes: seq<string>, excludes: seq<string>)
    ensures |EntryCandidates(entry, demangled, includes, excludes)| > 0 <==> Selected(demangled, includes, excludes)
  {
    var matching := Matching(demangled, includes);
    if StartsWithAny(demangled, includes) {
      var k :| 0 <= k < |includes| && StartsWith(demangled, includes[k]);
      assert includes[k] in matching;
    }
    if |matching| > 0 {
      assert matching[0] in matching;
    }
  }

  /** The step of the outer loop: prepending one name's contribution keeps both directions. */
  lemma FromEntriesStep(entries: seq<NameEntry>, includes: seq<string>, excludes: seq<string>,
                        demangle: string -> string, rest: seq<nat>)
    requires entries != []
    requires forall t :: 0 <= t < |rest| ==> Emitted(rest[t], entries[1..], includes, excludes, demangle)
    requires forall e :: e in entries[1..] && Selected(demangle(e.name), includes, excludes) ==> e.index in rest
    ensures forall t :: 0 <= t < |EntryCandidates(entries[0], demangle(entries[0].name), includes, excludes) + rest| ==>
              Emitted((EntryCandidates(entries[0], demangle(entries[0].name), includes, excludes) + rest)[t],
                      entries, includes, excludes, demangle)
    ensures forall e :: e in entries && Selected(demangle(e.name), includes, excludes) ==>
              e.index in EntryCandidates(entries[0], demangle(entries[0].name), includes, excludes) + rest
  {
    var h := entries[0];
    var here := EntryCandidates(h, demangle(h.name), includes, excludes);
    EntryCandidatesNonEmpty(h, demangle(h.name), includes, excludes);
    StepSound(entries, includes, excludes, demangle, here, rest);
    StepComplete(entries, includes, excludes, demangle, here, rest);
  }

  lemma StepSound(entries: seq<NameEntry>, includes: seq<string>, excludes: seq<string>,
                  demangle: string -> string, here: seq<nat>, rest: seq<nat>)
    requires entries != []
    requires forall t :: 0 <= t < |here| ==> here[t] == entries[0].index
    requires |here| > 0 ==> Selected(demangle(entries[0].name), includes, excludes)
    requires forall t :: 0 <= t < |rest| ==> Emitted(rest[t], entries[1..], includes, excludes, demangle)
    ensures forall t :: 0 <= t < |here + rest| ==> Emitted((here + rest)[t], entries, includes, excludes, demangle)
  {
    var h := entries[0];
    var r := here + rest;
    forall t | 0 <= t < |r| ensures Emitted(r[t], entries, includes, excludes, demangle) {
      if t < |here| {
        assert h in entries && h.index == r[t];
      } else {
        assert r[t] == rest[t - |here|];
        EmittedTail(rest[t - |here|], entries, includes, excludes, demangle);
      }
    }
  }

  lemma StepComplete(entries: seq<NameEntry>, includes: seq<string>, excludes: seq<string>,
                     demangle: string -> string, here: seq<nat>, rest: seq<nat>)
    requires entries != []
    requires forall t :: 0 <= t < |here| ==> here[t] == entries[0].index
    requires Selected(demangle(entries[0].name), includes, excludes) ==> |here| > 0
    requires forall e :: e in entries[1..] && Selected(demangle(e.name), includes, excludes) ==> e.index in rest
    ensures forall e :: e in entries && Selected(demangle(e.name), includes, excludes) ==> e.index in here + rest
  {
    var h := entries[0];
    var r := here + rest;
    forall e | e in entries && Selected(demangle(e.name), includes, excludes) ensures e.index in r {
      if e == h {
        assert r[0] == h.index;
      } else {
        assert e in entries[1..];
      }
    }
  }

  lemma EmittedTail(x: nat, entries: seq<NameEntry>, includes: seq<string>, excludes: seq<string>,
                    demangle: string -> string)
    requires entries != [] && Emitted(x, entries[1..], includes, excludes, demangle)
    ensures Emitted(x, entries, includes, excludes, demangle)
  {
    var e :| e in entries[1..] && e.index == x && Selected(demangle(e.name), includes, excludes);
    assert e in entries;
  }

  /**
    `identify_candidate_functions`. The name section must be present (the
    source unwraps it); a missing function-name subsection yields nothing.
    Every returned index is the key of a name-map entry whose demangled name
    is selected, and every selected entry's key is returned.
   */
  function IdentifyCandidateFunctions(wasm: Module, includes: seq<string>, excludes: seq<string>,
                                      demangle: string -> string): (r: seq<nat>)
    requires wasm.names.Some?
    ensures includes == [] ==> r == []
    ensures wasm.names.value.functions.None? ==> r == []
    ensures wasm.names.value.functions.Some? ==>
              forall t :: 0 <= t < |r| ==>
                Emitted(r[t], wasm.names.value.functions.value, includes, excludes, demangle)
    ensures wasm.names.value.functions.Some? ==>
              forall e :: e in wasm.names.value.functions.value && Selected(demangle(e.name), includes, excludes) ==>
                e.index in r
  {
    match wasm.names.value.functions
    case None => []
    case Some(entries) => FromEntries(entries, includes, excludes, demangle)
  }

  /**
    Name-table order: the candidates of a split name table are those of the
    first part followed by those of the second.
   */
  lemma {:induction false} FromEntriesAppend(xs: seq<NameEntry>, ys: seq<NameEntry>, includes: seq<string>,
                                             excludes: seq<string>, demangle: string -> string)
    ensures FromEntries(xs + ys, includes, excludes, demangle) ==
            FromEntries(xs, includes, excludes, demangle) + FromEntries(ys, includes, excludes, demangle)
    decreases |xs|
  {
    if xs == [] {
      assert xs + ys == ys;
    } else {
      assert (xs + ys)[1..] == xs[1..] + ys;
      assert (xs + ys)[0] == xs[0];
      FromEntriesAppend(xs[1..], ys, includes, excludes, demangle);
    }
  }

  /** Sorted, possibly with repeats. */
  predicate Nondecreasing(xs: seq<nat>)
  {
    forall s, t :: 0 <= s < t < |xs| ==> xs[s] <= xs[t]
  }

  /** How often a name's index is emitted: once per matching include, never when excluded. */
  function Occurrences(demangled: string, includes: seq<string>, excludes: seq<string>): nat
  {
    if StartsWithAny(demangled, excludes) then 0 else |Matching(demangled, includes)|
  }

  /** Everything the later entries contribute lies above the first entry's key. */
  lemma RestAboveHead(entries: seq<NameEntry>, includes: seq<string>, excludes: seq<string>,
                      demangle: string -> string)
    requires entries != [] && StrictlyAscending(entries)
    ensures forall t :: 0 <= t < |FromEntries(entries[1..], includes, excludes, demangle)| ==>
              entries[0].index < FromEntries(entries[1..], includes, excludes, demangle)[t]
  {
    var rest := FromEntries(entries[1..], includes, excludes, demangle);
    forall t | 0 <= t < |rest| ensures entries[0].index < rest[t] {
      assert Emitted(rest[t], entries[1..], includes, excludes, demangle);
      var e' :| e' in entries[1..] && e'.index == rest[t] && Selected(demangle(e'.name), includes, excludes);
      var k :| 0 <= k < |entries[1..]| && entries[1..][k] == e';
      assert entries[k + 1] == e';
    }
  }

  /**
    With the name map's distinct, ascending keys, an entry's key occurs in the
    output exactly as often as its demangled name matches an include prefix,
    and not at all when it matches an exclude prefix.
   */
  lemma {:induction false} FromEntriesMultiplicity(entries: seq<NameEntry>, includes: seq<string>,
                                                   excludes: seq<string>, demangle: string -> string, e: NameEntry)
    requires StrictlyAscending(entries) && e in entries
    ensures multiset(FromEntries(entries, includes, excludes, demangle))[e.index] ==
            Occurrences(demangle(e.name), includes, excludes)
    decreases |entries|
  {
    var h := entries[0];
    var here := EntryCandidates(h, demangle(h.name), includes, excludes);
    var rest := FromEntries(entries[1..], includes, excludes, demangle);
    assert FromEntries(entries, includes, excludes, demangle) == here + rest;
    assert multiset(here + rest) == multiset(here) + multiset(rest);
    RestAboveHead(entries, includes, excludes, demangle);
    if e == h {
      assert e.index !in rest;
      ConstantMultiplicity(here, e.index);
    } else {
      var k :| 0 <= k < |entries| && entries[k] == e;
      assert k > 0 && entries[1..][k - 1] == e;
      assert e.index !in here;
      FromEntriesMultiplicity(entries[1..], includes, excludes, demangle, e);
    }
  }

  lemma ConstantMultiplicity(xs: seq<nat>, x: nat)
    requires forall t :: 0 <= t < |xs| ==> xs[t] == x
    ensures multiset(xs)[x] == |xs|
  {
    if xs != [] {
      assert xs == [xs[0]] + xs[1..];
      ConstantMultiplicity(xs[1..], x);
    }
  }

  /** With ascending keys the output is sorted: names are visited in key order. */
  lemma {:induction false} FromEntriesSorted(entries: seq<NameEntry>, includes: seq<string>,
                                             excludes: seq<string>, demangle: string -> string)
    requires StrictlyAscending(entries)
    ensures Nondecreasing(FromEntries(entries, includes, excludes, demangle))
    decreases |entries|
  {
    if entries != [] {
      var h := entries[0];
      var here := EntryCandidates(h, demangle(h.name), includes, excludes);
      var rest := FromEntries(entries[1..], includes, excludes, demangle);
      FromEntriesSorted(entries[1..], includes, excludes, demangle);
      RestAboveHead(entries, includes, excludes, demangle);
      ConcatSorted(here, rest, h.index);
    }
  }

  lemma ConcatSorted(here: seq<nat>, rest: seq<nat>, x: nat)
    requires forall t :: 0 <= t < |here| ==> here[t] == x
    requires forall t :: 0 <= t < |rest| ==> x < rest[t]
    requires Nondecreasing(rest)
    ensures Nondecreasing(here + rest)
  {
    var r := here + rest;
    forall s, t | 0 <= s < t < |r| ensures r[s] <= r[t] {
      if t < |here| {
      } else if s >= |here| {
        assert r[s] == rest[s - |here|] && r[t] == rest[t - |here|];
      } else {
        assert r[t] == rest[t - |here|];
      }
    }
  }

  /**
    Candidate multiplicity over a module: each named function is listed once
    per include prefix its demangled name starts with, and never when an
    exclude prefix matches; the list is in ascending function-index order.
   */
  lemma CandidateMultiplicity(wasm: Module, includes: seq<string>, excludes: seq<string>,
                              demangle: string -> string, e: NameEntry)
    requires wasm.names.Some? && wasm.names.value.functions.Some?
    requires StrictlyAscending(wasm.names.value.functions.value)
    requires e in wasm.names.value.functions.value
    ensures multiset(IdentifyCandidateFunctions(wasm, includes, excludes, demangle))[e.index] ==
            Occurrences(demangle(e.name), includes, excludes)
  {
    FromEntriesMultiplicity(wasm.names.value.functions.value, includes, excludes, demangle, e);
  }

  lemma CandidatesSorted(wasm: Module, includes: seq<string>, excludes: seq<string>, demangle: string -> string)
    requires wasm.names.Some?
    requires wasm.names.value.functions.Some? ==> StrictlyAscending(wasm.names.value.functions.value)
    ensures Nondecreasing(IdentifyCandidateFunctions(wasm, includes, excludes, demangle))
  {
    if wasm.names.value.functions.Some? {
      FromEntriesSorted(wasm.names.value.functions.value, includes, excludes, demangle);
    }
  }

  /** An exclude prefix wins over every include prefix. */
  lemma ExcludeWins(wasm: Module, includes: seq<string>, excludes: seq<string>,
                    demangle: string -> string, e: NameEntry, k: nat)
    requires wasm.names.Some? && wasm.names.value.functions.Some?
    requires StrictlyAscending(wasm.names.value.functions.value)
    requires e in wasm.names.value.functions.value
    requires k < |excludes| && StartsWith(demangle(e.name), excludes[k])
    ensures e.index !in IdentifyCandidateFunctions(wasm, includes, excludes, demangle)
  {
    CandidateMultiplicity(wasm, includes, excludes, demangle, e);
  }

  /**
    Candidates are not deduplicated: a function whose name starts with two
    include prefixes is listed twice, under its name-map key.
   */
  lemma OverlappingIncludesDuplicate(demangle: string -> string)
    requires demangle("a::f") == "a::f"
    ensures IdentifyCandidateFunctions(Module(None, Some(NameSection(Some([NameEntry(5, "a::f")])))),
                                       ["a", "a::"], [], demangle) == [5, 5]
  {
    var entries := [NameEntry(5, "a::f")];
    assert StartsWith("a::f", "a") && StartsWith("a::f", "a::");
    assert !StartsWithAny("a::f", []);
    assert ["a", "a::"][1..] == ["a::"];
    assert EntryCandidates(entries[0], "a::f", ["a::"], []) == [5];
    assert FromEntries(entries[1..], ["a", "a::"], [], demangle) == [];
  }
}
