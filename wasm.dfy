/** The WebAssembly binary-format vocabulary that the decoder and the encoder
    libraries hand to the IR: value types, heap types, the operators a constant
    expression may contain, and tag types. Only their shape is modelled; their
    byte encoding belongs to those libraries. */
module Wasm {
  import opened Ints

  /** The abstract heap types of the binary format, including the two of the
      stack-switching proposal that the IR does not support. */
  datatype AbstractHeapType =
    | Func | Extern | Any | None | NoExtern | NoFunc | Eq | Struct | Array | I31 | Exn | NoExn
    | Cont | NoCont

  datatype HeapType =
    | Abstract(shared: bool, ty: AbstractHeapType)
    | Concrete(index: u32)

  datatype RefType = RefType(nullable: bool, heapType: HeapType)

  datatype ValType = I32 | I64 | F32 | F64 | V128 | Ref(refType: RefType)

  /** The four stack-switching reference types the decoder names as constants. */
  const CONT: RefType := RefType(false, Abstract(false, Cont))
  const CONTREF: RefType := RefType(true, Abstract(false, Cont))
  const NOCONT: RefType := RefType(false, Abstract(false, NoCont))
  const NULLCONTREF: RefType := RefType(true, Abstract(false, NoCont))

  /** The sixteen immediate bytes of a `v128.const`, lowest-addressed first. */
  type V128Bytes = s: seq<byte> | |s| == 16
    witness [0, 0, 0, 0, 0, 0, 0, 0, 0, 0, 0, 0, 0, 0, 0, 0]

  /** One instruction of an instruction stream (section 5.4 of the WebAssembly
      Core Specification 2.0). Floating-point immediates are their bit
      patterns. Every operator a constant expression may not hold is `Other`,
      named by its mnemonic. */
  datatype Operator =
    | End
    | I32Const(i32Value: i32)
    | I64Const(i64Value: i64)
    | F32Const(f32Bits: u32)
    | F64Const(f64Bits: u64)
    | V128Const(v128Bytes: V128Bytes)
    | GlobalGet(globalIndex: u32)
    | RefNull(hty: HeapType)
    | RefFunc(functionIndex: u32)
    | I32Add | I32Sub | I32Mul
    | I64Add | I64Sub | I64Mul
    | Other(mnemonic: string)

  /** Exception is the only tag kind of the exception-handling proposal. */
  datatype TagKind = Exception

  /** One entry of the tag section: its kind and the index of its function type. */
  datatype TagType = TagType(kind: TagKind, funcTypeIdx: u32)
}
