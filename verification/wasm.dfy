/**
  The slice of a WebAssembly module that the mutation tester looks at: the
  instructions its operators match or write, the code section (one body per
  defined function) and the function-name table of the `name` custom section.
  Everything else of a module is irrelevant to the mutation core.
 */
module Wasm {

  datatype Option<+T> = None | Some(value: T)

  /** Bytes of an encoded module, as the codec reads and writes them. */
  newtype byte = x: int | 0 <= x < 256

  type Bytes = seq<byte>

  /**
    The instructions the mutation operators mention, with their immediates.
    Comparison opcodes are opaque tags: no floating-point meaning is given
    to them. `Other(k)` stands for every remaining opcode.
   */
  datatype Instr =
    | I32GeU | I32GtU | I32LeU | I32LtU
    | I32GeS | I32GtS | I32LeS | I32LtS
    | F32Ge | F32Gt | F64Ge | F64Gt
    | SetLocal(local: nat)
    | SetGlobal(global: nat)
    | I32Store(align: nat, offset: nat)
    | I64Store(align: nat, offset: nat)
    | F32Store(align: nat, offset: nat)
    | F64Store(align: nat, offset: nat)
    | BrIf(depth: nat)
    | Drop
    | GetLocal(local: nat)
    | I32Add
    | Other(opcode: nat)

  /** A function body: its instruction stream. */
  type Body = seq<Instr>

  /** One entry of the function-name map: a function index and its raw (mangled) name. */
  datatype NameEntry = NameEntry(index: nat, name: string)

  /**
    The parsed `name` section. Its function-name subsection is optional; when
    present its entries come in the name map's iteration order.
   */
  datatype NameSection = NameSection(functions: Option<seq<NameEntry>>)

  /** A decoded module: its optional code section and optional name section. */
  datatype Module = Module(code: Option<seq<Body>>, names: Option<NameSection>)

  /** The verdict of running a module's embedded tests. */
  datatype TestResult = Passed | Failed

  /** The name map is keyed by function index and iterates in ascending key order. */
  predicate StrictlyAscending(entries: seq<NameEntry>)
  {
    forall j, k :: 0 <= j < k < |entries| ==> entries[j].index < entries[k].index
  }
}
