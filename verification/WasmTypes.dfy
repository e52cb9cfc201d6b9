/** WebAssembly value types as the runtime stores them. */
module WasmTypes {

  datatype ValType = I32 | I64 | F32 | F64 | V128 | FuncRef | ExternRef

  /** wasm_value_type_cell_num: 32-bit cells of a value. */
  function Cells(t: ValType): (n: nat)
    ensures n > 0
  {
    match t
    case I32 | F32 | FuncRef | ExternRef => 1
    case I64 | F64 => 2
    case V128 => 4
  }

  /** wasm_value_type_size: bytes of a value in the global data. */
  function TypeSize(t: ValType): (n: nat)
    ensures n == 4 * Cells(t)
  {
    match t
    case I32 | F32 | FuncRef | ExternRef => 4
    case I64 | F64 => 8
    case V128 => 16
  }

  /** The index that stands for a null reference. */
  const NULL_REF := 0xFFFF_FFFF
}
