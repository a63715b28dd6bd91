/** Constant expressions: the initialisers of globals and of element and data
    segment offsets. Decoding reads an operator stream up to its `End`, keeps
    only the operators of the extended-constant-expressions subset, and
    shortens a single simple operator to its dedicated form; encoding writes
    one instruction per operator and lets the encoder append the `End`. */
module ConstExprs {
  import opened Ints
  import opened Ids
  import opened Wrappers
  import Ty
  import Wasm
  import Indices

  /** An immediate value. Floats are kept as their bit patterns. */
  datatype Value =
    | I32(i32Value: i32)
    | I64(i64Value: i64)
    | F32(f32Bits: u32)
    | F64(f64Bits: u64)
    | V128(v128Value: u128)

  /** The operators allowed in an extended constant expression. */
  datatype ConstOp =
    | I32Const(i32Value: i32)
    | I64Const(i64Value: i64)
    | F32Const(f32Bits: u32)
    | F64Const(f64Bits: u64)
    | V128Const(v128Value: u128)
    | GlobalGet(global: GlobalId)
    | RefNull(refType: Ty.RefType)
    | RefFunc(func: FunctionId)
    | I32Add | I32Sub | I32Mul
    | I64Add | I64Sub | I64Mul

  datatype ConstExpr =
    | Value(value: Value)
    | Global(global: GlobalId)
    | RefNull(refType: Ty.RefType)
    | RefFunc(func: FunctionId)
    | Extended(ops: seq<ConstOp>)

  datatype EvalError =
    | Truncated                   // the stream ended before its `End`
    | TrailingOperators           // operators after the first `End`
    | UnsupportedOperation(op: Wasm.Operator)
    | UnsupportedAbstractHeapType(heapType: Wasm.AbstractHeapType)
    | UnsupportedConcreteHeapType
    | Unresolved(cause: Indices.ResolutionError)

  // ---------------------------------------------------------------------------
  // v128 immediates
  // ---------------------------------------------------------------------------

  /** 256 to the power `k`. */
  function Pow256(k: nat): (p: nat)
    ensures p >= 1
  {
    if k == 0 then 1 else 256 * Pow256(k - 1)
  }

  lemma Pow256Of16()
    ensures Pow256(16) == 0x1_0000_0000_0000_0000_0000_0000_0000_0000
  {
    assert Pow256(4) == 0x1_0000_0000;
    assert Pow256(8) == 0x1_0000_0000_0000_0000;
    assert Pow256(12) == 0x1_0000_0000_0000_0000_0000_0000;
  }

  /** The bytes `s` read little-endian: byte k weighs 256 to the power k.
      The shifted bytes occupy disjoint bit ranges, so or-ing them together
      is adding them. */
  function LittleEndian(s: seq<byte>): (v: nat)
    ensures v < Pow256(|s|)
    decreases |s|
  {
    if s == [] then 0 else s[0] + 256 * LittleEndian(s[1..])
  }

  /** The `c` lowest bytes of `v`, lowest first. */
  function LowBytes(v: nat, c: nat): (s: seq<byte>)
    ensures |s| == c
    decreases c
  {
    if c == 0 then [] else [v % 256] + LowBytes(v / 256, c - 1)
  }

  /** `v128_to_u128`: the little-endian reading of the sixteen immediate bytes. */
  function V128ToU128(n: Wasm.V128Bytes): (v: u128)
    ensures U128ToBytes(v) == n
  {
    Pow256Of16();
    LowBytesOfLittleEndian(n);
    LittleEndian(n)
  }

  /** The sixteen bytes the encoder writes for a `v128.const` immediate:
      the value in little-endian order. */
  function U128ToBytes(v: u128): Wasm.V128Bytes
  {
    LowBytes(v, 16)
  }

  /** Reading bytes little-endian and splitting the value again gives the
      bytes back. */
  lemma {:induction false} LowBytesOfLittleEndian(s: seq<byte>)
    ensures LowBytes(LittleEndian(s), |s|) == s
    decreases |s|
  {
    if s != [] {
      var v := LittleEndian(s);
      assert v % 256 == s[0] && v / 256 == LittleEndian(s[1..]);
      LowBytesOfLittleEndian(s[1..]);
    }
  }

  /** Splitting a value below 256 to the power `c` into `c` bytes and reading
      them little-endian gives the value back. */
  lemma {:induction false} LittleEndianOfLowBytes(v: nat, c: nat)
    requires v < Pow256(c)
    ensures LittleEndian(LowBytes(v, c)) == v
    decreases c
  {
    if c > 0 {
      LittleEndianOfLowBytes(v / 256, c - 1);
      assert LowBytes(v, c)[1..] == LowBytes(v / 256, c - 1);
    }
  }

  /** The little-endian reading is a bijection between sixteen-byte
      immediates and 128-bit values. */
  lemma V128Bijection(n: Wasm.V128Bytes, v: u128)
    ensures U128ToBytes(V128ToU128(n)) == n
    ensures V128ToU128(U128ToBytes(v)) == v
  {
    Pow256Of16();
    LittleEndianOfLowBytes(v, 16);
  }

  // ---------------------------------------------------------------------------
  // Decoding
  // ---------------------------------------------------------------------------

  /** What one operator other than `End` decodes to: the matching `ConstOp`,
      or the error `eval` bails out with. `ref.null` keeps only the abstract
      `func` and `extern` heap types, whatever their `shared` flag. */
  function ConvertOp(op: Wasm.Operator, globals: seq<GlobalId>, funcs: seq<FunctionId>): (r: Result<ConstOp, EvalError>)
    requires !op.End?
    ensures r.Ok? <==> Accepted(op, globals, funcs)
    ensures op.Other? ==> r == Err(UnsupportedOperation(op))
  {
    match op
    case I32Const(v) => Ok(I32Const(v))
    case I64Const(v) => Ok(I64Const(v))
    case F32Const(bits) => Ok(F32Const(bits))
    case F64Const(bits) => Ok(F64Const(bits))
    case V128Const(bytes) => ConvertV128(bytes)
    case GlobalGet(index) => ConvertGlobalGet(index, globals)
    case RefNull(hty) => ConvertRefNull(hty)
    case RefFunc(index) => ConvertRefFunc(index, funcs)
    case I32Add => Ok(I32Add)
    case I32Sub => Ok(I32Sub)
    case I32Mul => Ok(I32Mul)
    case I64Add => Ok(I64Add)
    case I64Sub => Ok(I64Sub)
    case I64Mul => Ok(I64Mul)
    case Other(_) => Err(UnsupportedOperation(op))
  }

  /** `v128.const`: the immediate bytes read as a little-endian value. */
  function ConvertV128(bytes: Wasm.V128Bytes): (r: Result<ConstOp, EvalError>)
    ensures r.Ok? && r.value.V128Const? && U128ToBytes(r.value.v128Value) == bytes
  {
    Ok(V128Const(V128ToU128(bytes)))
  }

  /** `global.get`: the raw index resolves through the parse-time table. */
  function ConvertGlobalGet(index: u32, globals: seq<GlobalId>): (r: Result<ConstOp, EvalError>)
    ensures r.Ok? <==> index < |globals|
    ensures r.Ok? ==> r.value == GlobalGet(globals[index])
    ensures r.Err? ==> r.error == Unresolved(Indices.UnknownGlobal(index))
  {
    match Indices.GetGlobal(globals, index)
    case Ok(g) => Ok(GlobalGet(g))
    case Err(e) => Err(Unresolved(e))
  }

  /** `ref.func`: the raw index resolves through the parse-time table. */
  function ConvertRefFunc(index: u32, funcs: seq<FunctionId>): (r: Result<ConstOp, EvalError>)
    ensures r.Ok? <==> index < |funcs|
    ensures r.Ok? ==> r.value == ConstOp.RefFunc(funcs[index])
    ensures r.Err? ==> r.error == Unresolved(Indices.UnknownFunction(index))
  {
    match Indices.GetFunc(funcs, index)
    case Ok(f) => Ok(ConstOp.RefFunc(f))
    case Err(e) => Err(Unresolved(e))
  }

  /** `ref.null`: only the abstract `func` and `extern` heap types, whatever
      their `shared` flag, and always as a nullable reference. */
  function ConvertRefNull(hty: Wasm.HeapType): (r: Result<ConstOp, EvalError>)
    ensures r.Ok? <==> hty.Abstract? && (hty.ty.Func? || hty.ty.Extern?)
    ensures r.Ok? ==> r.value.RefNull? && RoundTrips(r.value)
    ensures r.Err? && hty.Concrete? ==> r.error == UnsupportedConcreteHeapType
  {
    match hty
    case Abstract(_, ty) =>
      if ty.Func? then Ok(ConstOp.RefNull(Ty.FUNCREF))
      else if ty.Extern? then Ok(ConstOp.RefNull(Ty.EXTERNREF))
      else Err(UnsupportedAbstractHeapType(ty))
    case Concrete(_) => Err(UnsupportedConcreteHeapType)
  }

  /** What an accepted operator converts to: identifiers come from the
      parse-time tables, and `ref.null` is the nullable `funcref` or
      `externref`. */
  lemma ConvertOpResolved(op: Wasm.Operator, globals: seq<GlobalId>, funcs: seq<FunctionId>)
    requires !op.End? && ConvertOp(op, globals, funcs).Ok?
    ensures var c := ConvertOp(op, globals, funcs).value;
      && (c.GlobalGet? ==> op.GlobalGet? && c.global == globals[op.globalIndex])
      && (c.RefFunc? ==> op.RefFunc? && c.func == funcs[op.functionIndex])
      && (c.RefNull? ==> op.RefNull? && RoundTrips(c))
  {
  }

  /** The operators `eval` accepts: the fourteen listed ones, with a
      resolvable index and, for `ref.null`, an abstract `func` or `extern`
      heap type. */
  predicate Accepted(op: Wasm.Operator, globals: seq<GlobalId>, funcs: seq<FunctionId>)
  {
    match op
    case End => false
    case GlobalGet(index) => index < |globals|
    case RefFunc(index) => index < |funcs|
    case RefNull(hty) => hty.Abstract? && (hty.ty.Func? || hty.ty.Extern?)
    case Other(_) => false
    case _ => true
  }

  /** The operators read up to the first `End`, converted in order; the first
      failing operator decides the error; a stream without `End` is
      truncated and one that goes on after it has trailing operators. */
  function DecodeOps(s: seq<Wasm.Operator>, globals: seq<GlobalId>, funcs: seq<FunctionId>): (r: Result<seq<ConstOp>, EvalError>)
    ensures r.Ok? ==> |s| >= 1 && s[|s| - 1].End? && |r.value| == |s| - 1
    decreases |s|
  {
    if s == [] then Err(Truncated)
    else if s[0].End? then (if |s| == 1 then Ok([]) else Err(TrailingOperators))
    else
      match ConvertOp(s[0], globals, funcs)
      case Err(e) => Err(e)
      case Ok(op) =>
        match DecodeOps(s[1..], globals, funcs)
        case Err(e) => Err(e)
        case Ok(rest) => Ok([op] + rest)
  }

  predicate IsArithmetic(op: ConstOp)
  {
    op.I32Add? || op.I32Sub? || op.I32Mul? || op.I64Add? || op.I64Sub? || op.I64Mul?
  }

  /** The operator a simple constant expression stands for. */
  function SingleOp(e: ConstExpr): (op: ConstOp)
    requires !e.Extended?
    ensures !IsArithmetic(op)
  {
    match e
    case Value(I32(v)) => I32Const(v)
    case Value(I64(v)) => I64Const(v)
    case Value(F32(bits)) => F32Const(bits)
    case Value(F64(bits)) => F64Const(bits)
    case Value(V128(v)) => V128Const(v)
    case Global(g) => GlobalGet(g)
    case RefNull(t) => ConstOp.RefNull(t)
    case RefFunc(f) => ConstOp.RefFunc(f)
  }

  /** The shortening `eval` applies to what it decoded. */
  function Canonicalize(ops: seq<ConstOp>): (e: ConstExpr)
    ensures e.Extended? <==> |ops| != 1 || IsArithmetic(ops[0])
    ensures e.Extended? ==> e.ops == ops
    ensures !e.Extended? ==> |ops| == 1 && SingleOp(e) == ops[0]
  {
    if |ops| == 1 then
      match ops[0]
      case I32Const(v) => Value(I32(v))
      case I64Const(v) => Value(I64(v))
      case F32Const(bits) => Value(F32(bits))
      case F64Const(bits) => Value(F64(bits))
      case V128Const(v) => Value(V128(v))
      case GlobalGet(g) => Global(g)
      case RefNull(t) => ConstExpr.RefNull(t)
      case RefFunc(f) => ConstExpr.RefFunc(f)
      case _ => Extended(ops)
    else
      Extended(ops)
  }

  /** What `eval` returns for an operator stream. */
  function Decode(s: seq<Wasm.Operator>, globals: seq<GlobalId>, funcs: seq<FunctionId>): (r: Result<ConstExpr, EvalError>)
    ensures r.Ok? <==> Decodable(s, globals, funcs)
    ensures r.Ok? ==> Canonical(r.value)
  {
    DecodeOpsCharacterization(s, globals, funcs);
    match DecodeOps(s, globals, funcs)
    case Ok(ops) => Ok(Canonicalize(ops))
    case Err(e) => Err(e)
  }

  /** A stream decodes exactly when it is supported operators followed by one
      `End`; the result holds their conversions, in stream order. */
  ghost predicate Decodable(s: seq<Wasm.Operator>, globals: seq<GlobalId>, funcs: seq<FunctionId>)
  {
    && |s| >= 1 && s[|s| - 1].End?
    && forall i :: 0 <= i < |s| - 1 ==> !s[i].End? && ConvertOp(s[i], globals, funcs).Ok?
  }

  lemma {:induction false} DecodeOpsCharacterization(s: seq<Wasm.Operator>, globals: seq<GlobalId>, funcs: seq<FunctionId>)
    ensures DecodeOps(s, globals, funcs).Ok? <==> Decodable(s, globals, funcs)
    ensures DecodeOps(s, globals, funcs).Ok? ==>
      var ops := DecodeOps(s, globals, funcs).value;
      |ops| == |s| - 1 && forall i :: 0 <= i < |ops| ==> ConvertOp(s[i], globals, funcs) == Ok(ops[i])
    decreases |s|
  {
    if s != [] && !s[0].End? {
      DecodeOpsCharacterization(s[1..], globals, funcs);
      if Decodable(s, globals, funcs) {
        forall i | 0 <= i < |s[1..]| - 1
          ensures !s[1..][i].End? && ConvertOp(s[1..][i], globals, funcs).Ok?
        {
          assert s[1..][i] == s[i + 1];
        }
      }
      if DecodeOps(s[1..], globals, funcs).Ok? && ConvertOp(s[0], globals, funcs).Ok? {
        forall i | 0 <= i < |s| - 1
          ensures !s[i].End? && ConvertOp(s[i], globals, funcs).Ok?
        {
          if i > 0 { assert s[i] == s[1..][i - 1]; }
        }
      }
    }
  }

  /** `Extended` is never returned for a single non-arithmetic operator. */
  lemma DecodeIsCanonical(s: seq<Wasm.Operator>, globals: seq<GlobalId>, funcs: seq<FunctionId>)
    requires Decode(s, globals, funcs).Ok?
    ensures var e := Decode(s, globals, funcs).value;
      e.Extended? ==> |e.ops| != 1 || IsArithmetic(e.ops[0])
  {
  }

  /** Appends `ops` in front of a decoded list, keeping errors. */
  function Prefixed(ops: seq<ConstOp>, r: Result<seq<ConstOp>, EvalError>): Result<seq<ConstOp>, EvalError>
  {
    match r
    case Ok(rest) => Ok(ops + rest)
    case Err(e) => Err(e)
  }

  /** One step of the read loop: a converted operator moves onto the list
      decoded so far, a failing one decides the result. */
  lemma DecodeStep(ops: seq<ConstOp>, s: seq<Wasm.Operator>, globals: seq<GlobalId>, funcs: seq<FunctionId>)
    requires s != [] && !s[0].End?
    ensures ConvertOp(s[0], globals, funcs).Err? ==>
      Prefixed(ops, DecodeOps(s, globals, funcs)) == Err(ConvertOp(s[0], globals, funcs).error)
    ensures ConvertOp(s[0], globals, funcs).Ok? ==>
      Prefixed(ops, DecodeOps(s, globals, funcs))
        == Prefixed(ops + [ConvertOp(s[0], globals, funcs).value], DecodeOps(s[1..], globals, funcs))
  {
    match DecodeOps(s[1..], globals, funcs)
    case Ok(rest) =>
      if ConvertOp(s[0], globals, funcs).Ok? {
        assert ops + ([ConvertOp(s[0], globals, funcs).value] + rest)
            == (ops + [ConvertOp(s[0], globals, funcs).value]) + rest;
      }
    case Err(_) =>
  }

  /** `ConstExpr::eval`: the read loop. */
  method Eval(s: seq<Wasm.Operator>, ids: Indices.IndicesToIds) returns (r: Result<ConstExpr, EvalError>)
    ensures r == Decode(s, ids.globals, ids.funcs)
  {
    var ops: seq<ConstOp> := [];
    var i := 0;
    assert s[i..] == s;
    assert Prefixed(ops, DecodeOps(s, ids.globals, ids.funcs)) == DecodeOps(s, ids.globals, ids.funcs) by {
      match DecodeOps(s, ids.globals, ids.funcs)
      case Ok(rest) => assert ops + rest == rest;
      case Err(_) =>
    }
    while true
      invariant 0 <= i <= |s|
      invariant DecodeOps(s, ids.globals, ids.funcs) == Prefixed(ops, DecodeOps(s[i..], ids.globals, ids.funcs))
      decreases |s| - i
    {
      if i == |s| {
        return Err(Truncated);
      }
      var op := s[i];
      assert s[i..][0] == op && s[i..][1..] == s[i + 1..];
      if !op.End? {
        DecodeStep(ops, s[i..], ids.globals, ids.funcs);
      }
      if op.End? {
        break;
      }
      var c: ConstOp;
      match op {
        case I32Const(v) => c := I32Const(v);
        case I64Const(v) => c := I64Const(v);
        case F32Const(bits) => c := F32Const(bits);
        case F64Const(bits) => c := F64Const(bits);
        case V128Const(bytes) => c := V128Const(V128ToU128(bytes));
        case GlobalGet(index) =>
          if index >= |ids.globals| {
            return Err(Unresolved(Indices.UnknownGlobal(index)));
          }
          c := GlobalGet(ids.globals[index]);
        case RefNull(hty) =>
          var valType: Ty.RefType;
          match hty {
            case Abstract(_, ty) =>
              if ty.Func? {
                valType := Ty.FUNCREF;
              } else if ty.Extern? {
                valType := Ty.EXTERNREF;
              } else {
                return Err(UnsupportedAbstractHeapType(ty));
              }
            case Concrete(_) =>
              return Err(UnsupportedConcreteHeapType);
          }
          c := ConstOp.RefNull(valType);
        case RefFunc(index) =>
          if index >= |ids.funcs| {
            return Err(Unresolved(Indices.UnknownFunction(index)));
          }
          c := ConstOp.RefFunc(ids.funcs[index]);
        case I32Add => c := I32Add;
        case I32Sub => c := I32Sub;
        case I32Mul => c := I32Mul;
        case I64Add => c := I64Add;
        case I64Sub => c := I64Sub;
        case I64Mul => c := I64Mul;
        case Other(_) => return Err(UnsupportedOperation(op));
      }
      assert ConvertOp(op, ids.globals, ids.funcs) == Ok(c);
      ops := ops + [c];
      i := i + 1;
    }
    // `reader.finish()`: nothing may follow the `End`.
    if i + 1 < |s| {
      return Err(TrailingOperators);
    }
    assert ops + [] == ops;
    return Ok(Canonicalize(ops));
  }

  // ---------------------------------------------------------------------------
  // Encoding
  // ---------------------------------------------------------------------------

  /** What the encoder can write without aborting: every identifier has an
      emit-time index, and `ref.null` has an abstract heap type (a concrete
      one reaches `todo!()`). */
  predicate OpEncodable(op: ConstOp, cx: Indices.IdsToIndices)
  {
    match op
    case GlobalGet(g) => g in cx.globals
    case RefFunc(f) => f in cx.funcs
    case RefNull(t) => t.heapType.Abstract?
    case _ => true
  }

  predicate Encodable(e: ConstExpr, cx: Indices.IdsToIndices)
  {
    match e
    case Extended(ops) => forall i :: 0 <= i < |ops| ==> OpEncodable(ops[i], cx)
    case _ => OpEncodable(SingleOp(e), cx)
  }

  /** The instruction one operator is written as; identifiers go through the
      emit context's index maps. */
  function EncodeOp(op: ConstOp, cx: Indices.IdsToIndices): (w: Wasm.Operator)
    requires OpEncodable(op, cx)
    ensures !w.End? && !w.Other?
    ensures op.V128Const? ==> w.V128Const? && V128ToU128(w.v128Bytes) == op.v128Value
    ensures op.RefNull? ==> w.RefNull? && w.hty.Abstract? && !w.hty.shared
  {
    match op
    case I32Const(v) => Wasm.I32Const(v)
    case I64Const(v) => Wasm.I64Const(v)
    case F32Const(bits) => Wasm.F32Const(bits)
    case F64Const(bits) => Wasm.F64Const(bits)
    case V128Const(v) => V128Bijection(U128ToBytes(v), v); Wasm.V128Const(U128ToBytes(v))
    case GlobalGet(g) => Wasm.GlobalGet(cx.globals[g])
    case RefNull(t) => Wasm.RefNull(Ty.HeapTypeToWasm(t.heapType))
    case RefFunc(f) => Wasm.RefFunc(cx.funcs[f])
    case I32Add => Wasm.I32Add
    case I32Sub => Wasm.I32Sub
    case I32Mul => Wasm.I32Mul
    case I64Add => Wasm.I64Add
    case I64Sub => Wasm.I64Sub
    case I64Mul => Wasm.I64Mul
  }

  /** The instructions an operator list is written as, one per operator:
      none of them is an `End`, so the only `End` is the one the encoder
      appends. */
  function EncodeOps(ops: seq<ConstOp>, cx: Indices.IdsToIndices): (s: seq<Wasm.Operator>)
    requires forall i :: 0 <= i < |ops| ==> OpEncodable(ops[i], cx)
    ensures |s| == |ops| && forall i :: 0 <= i < |s| ==> !s[i].End?
  {
    seq(|ops|, i requires 0 <= i < |ops| => EncodeOp(ops[i], cx))
  }

  /** The instruction stream `to_wasmencoder_type` produces, with the `End`
      the encoder appends. A simple form is one instruction; `Extended` is
      one instruction per operator, in list order. */
  function Encode(e: ConstExpr, cx: Indices.IdsToIndices): (r: seq<Wasm.Operator>)
    requires Encodable(e, cx)
    ensures !e.Extended? ==> r == [EncodeOp(SingleOp(e), cx), Wasm.End]
    ensures e.Extended? ==> |r| == |e.ops| + 1 && r[|e.ops|] == Wasm.End
    ensures e.Extended? ==> forall i :: 0 <= i < |e.ops| ==> r[i] == EncodeOp(e.ops[i], cx)
  {
    match e
    case Value(v) =>
      (match v
       case I32(x) => [Wasm.I32Const(x), Wasm.End]
       case I64(x) => [Wasm.I64Const(x), Wasm.End]
       case F32(bits) => [Wasm.F32Const(bits), Wasm.End]
       case F64(bits) => [Wasm.F64Const(bits), Wasm.End]
       case V128(x) => [Wasm.V128Const(U128ToBytes(x)), Wasm.End])
    case Global(g) => [Wasm.GlobalGet(cx.globals[g]), Wasm.End]
    case RefNull(t) => [Wasm.RefNull(Ty.HeapTypeToWasm(t.heapType)), Wasm.End]
    case RefFunc(f) => [Wasm.RefFunc(cx.funcs[f]), Wasm.End]
    case Extended(ops) => EncodeOps(ops, cx) + [Wasm.End]
  }

  /** `ConstExpr::to_wasmencoder_type`: the `Extended` branch is a loop that
      appends one instruction per operator; the `End` comes from the
      encoder's raw constructor. */
  method ToWasmEncoderType(e: ConstExpr, cx: Indices.EmitContext) returns (r: seq<Wasm.Operator>)
    requires Encodable(e, cx.indices)
    ensures r == Encode(e, cx.indices)
  {
    match e {
      case Value(v) =>
        match v {
          case I32(x) => r := [Wasm.I32Const(x), Wasm.End];
          case I64(x) => r := [Wasm.I64Const(x), Wasm.End];
          case F32(bits) => r := [Wasm.F32Const(bits), Wasm.End];
          case F64(bits) => r := [Wasm.F64Const(bits), Wasm.End];
          case V128(x) => r := [Wasm.V128Const(U128ToBytes(x)), Wasm.End];
        }
      case Global(g) => r := [Wasm.GlobalGet(cx.indices.globals[g]), Wasm.End];
      case RefNull(t) => r := [Wasm.RefNull(Ty.HeapTypeToWasm(t.heapType)), Wasm.End];
      case RefFunc(f) => r := [Wasm.RefFunc(cx.indices.funcs[f]), Wasm.End];
      case Extended(ops) => r := EncodeExtended(ops, cx.indices);
    }
  }

  /** The `Extended` branch of `to_wasmencoder_type`: one instruction per
      operator, in order, then the `End`. */
  method EncodeExtended(ops: seq<ConstOp>, cx: Indices.IdsToIndices) returns (r: seq<Wasm.Operator>)
    requires forall i :: 0 <= i < |ops| ==> OpEncodable(ops[i], cx)
    ensures r == EncodeOps(ops, cx) + [Wasm.End]
  {
    var bytes: seq<Wasm.Operator> := [];
    for i := 0 to |ops|
      invariant bytes == EncodeOps(ops[..i], cx)
    {
      var instr: Wasm.Operator;
      match ops[i] {
        case I32Const(x) => instr := Wasm.I32Const(x);
        case I64Const(x) => instr := Wasm.I64Const(x);
        case F32Const(bits) => instr := Wasm.F32Const(bits);
        case F64Const(bits) => instr := Wasm.F64Const(bits);
        case V128Const(x) => instr := Wasm.V128Const(U128ToBytes(x));
        case GlobalGet(g) => instr := Wasm.GlobalGet(cx.globals[g]);
        case RefNull(t) => instr := Wasm.RefNull(Ty.HeapTypeToWasm(t.heapType));
        case RefFunc(f) => instr := Wasm.RefFunc(cx.funcs[f]);
        case I32Add => instr := Wasm.I32Add;
        case I32Sub => instr := Wasm.I32Sub;
        case I32Mul => instr := Wasm.I32Mul;
        case I64Add => instr := Wasm.I64Add;
        case I64Sub => instr := Wasm.I64Sub;
        case I64Mul => instr := Wasm.I64Mul;
      }
      EncodeOpsSnoc(ops, i, cx);
      bytes := bytes + [instr];
    }
    assert ops[..|ops|] == ops;
    r := bytes + [Wasm.End];
  }

  /** Encoding one more operator appends its instruction. */
  lemma EncodeOpsSnoc(ops: seq<ConstOp>, i: nat, cx: Indices.IdsToIndices)
    requires i < |ops|
    requires forall k :: 0 <= k < |ops| ==> OpEncodable(ops[k], cx)
    ensures EncodeOps(ops[..i + 1], cx) == EncodeOps(ops[..i], cx) + [EncodeOp(ops[i], cx)]
  {
  }

  /** The shortened form encodes to the same stream as the list it came
      from: `Extended([I32Const(5)])` and `Value(I32(5))` are written alike. */
  lemma EncodeCanonical(ops: seq<ConstOp>, cx: Indices.IdsToIndices)
    requires forall i :: 0 <= i < |ops| ==> OpEncodable(ops[i], cx)
    ensures Encodable(Canonicalize(ops), cx)
    ensures Encode(Canonicalize(ops), cx) == Encode(Extended(ops), cx)
  {
  }

  // ---------------------------------------------------------------------------
  // Round trips
  // ---------------------------------------------------------------------------

  /** An operator that decoding gives back unchanged: `ref.null` decodes to
      the nullable `funcref` or `externref` only. */
  predicate RoundTrips(op: ConstOp)
  {
    op.RefNull? ==> op.refType == Ty.FUNCREF || op.refType == Ty.EXTERNREF
  }

  /** Decoding the instruction an operator is encoded as gives the operator
      back, when the parse-time tables invert the emit-time maps. */
  lemma ConvertEncodeOp(op: ConstOp, cx: Indices.IdsToIndices, globals: seq<GlobalId>, funcs: seq<FunctionId>)
    requires OpEncodable(op, cx) && RoundTrips(op)
    requires Indices.ParseInvertsEmit(cx.globals, globals) && Indices.ParseInvertsEmit(cx.funcs, funcs)
    ensures !EncodeOp(op, cx).End?
    ensures ConvertOp(EncodeOp(op, cx), globals, funcs) == Ok(op)
  {
    match op
    case V128Const(v) => ConvertEncodeV128(v, cx, globals, funcs);
    case GlobalGet(g) => ConvertEncodeGlobalGet(g, cx, globals, funcs);
    case RefFunc(f) => ConvertEncodeRefFunc(f, cx, globals, funcs);
    case RefNull(t) => ConvertEncodeRefNull(t, cx, globals, funcs);
    case _ =>
  }

  /** A written `v128.const` immediate converts back to its value. */
  lemma ConvertEncodeV128(v: u128, cx: Indices.IdsToIndices, globals: seq<GlobalId>, funcs: seq<FunctionId>)
    ensures ConvertOp(EncodeOp(V128Const(v), cx), globals, funcs) == Ok(V128Const(v))
  {
    V128Bijection(U128ToBytes(v), v);
  }

  /** A written `global.get` resolves back to its global. */
  lemma ConvertEncodeGlobalGet(g: GlobalId, cx: Indices.IdsToIndices, globals: seq<GlobalId>, funcs: seq<FunctionId>)
    requires g in cx.globals && Indices.ParseInvertsEmit(cx.globals, globals)
    ensures ConvertOp(EncodeOp(GlobalGet(g), cx), globals, funcs) == Ok(GlobalGet(g))
  {
    assert globals[cx.globals[g]] == g;
  }

  /** A written `ref.func` resolves back to its function. */
  lemma ConvertEncodeRefFunc(f: FunctionId, cx: Indices.IdsToIndices, globals: seq<GlobalId>, funcs: seq<FunctionId>)
    requires f in cx.funcs && Indices.ParseInvertsEmit(cx.funcs, funcs)
    ensures ConvertOp(EncodeOp(ConstOp.RefFunc(f), cx), globals, funcs) == Ok(ConstOp.RefFunc(f))
  {
    assert funcs[cx.funcs[f]] == f;
  }

  /** A written `ref.null` of `funcref` or `externref` converts back. */
  lemma ConvertEncodeRefNull(t: Ty.RefType, cx: Indices.IdsToIndices, globals: seq<GlobalId>, funcs: seq<FunctionId>)
    requires t == Ty.FUNCREF || t == Ty.EXTERNREF
    ensures ConvertOp(EncodeOp(ConstOp.RefNull(t), cx), globals, funcs) == Ok(ConstOp.RefNull(t))
  {
  }

  lemma {:induction false} DecodeEncodeOps(ops: seq<ConstOp>, cx: Indices.IdsToIndices, globals: seq<GlobalId>, funcs: seq<FunctionId>)
    requires forall i :: 0 <= i < |ops| ==> OpEncodable(ops[i], cx) && RoundTrips(ops[i])
    requires Indices.ParseInvertsEmit(cx.globals, globals) && Indices.ParseInvertsEmit(cx.funcs, funcs)
    ensures DecodeOps(EncodeOps(ops, cx) + [Wasm.End], globals, funcs) == Ok(ops)
    decreases |ops|
  {
    var s := EncodeOps(ops, cx) + [Wasm.End];
    if ops != [] {
      ConvertEncodeOp(ops[0], cx, globals, funcs);
      DecodeEncodeOps(ops[1..], cx, globals, funcs);
      assert s[1..] == EncodeOps(ops[1..], cx) + [Wasm.End];
      assert ops == [ops[0]] + ops[1..];
    }
  }

  /** A constant expression in the form `eval` produces: never `Extended`
      of one non-arithmetic operator. */
  predicate Canonical(e: ConstExpr)
  {
    e.Extended? ==> |e.ops| != 1 || IsArithmetic(e.ops[0])
  }

  predicate ExprRoundTrips(e: ConstExpr)
  {
    match e
    case Extended(ops) => forall i :: 0 <= i < |ops| ==> RoundTrips(ops[i])
    case _ => RoundTrips(SingleOp(e))
  }

  /** Emit then parse: when the parse-time tables invert the emit-time maps,
      decoding an encoded expression gives back its shortened form; so a
      canonical expression, and in particular an `Extended` list of two or
      more operators, comes back unchanged. */
  lemma EncodeDecodeRoundTrip(e: ConstExpr, cx: Indices.IdsToIndices, globals: seq<GlobalId>, funcs: seq<FunctionId>)
    requires Encodable(e, cx) && ExprRoundTrips(e)
    requires Indices.ParseInvertsEmit(cx.globals, globals) && Indices.ParseInvertsEmit(cx.funcs, funcs)
    ensures e.Extended? ==> Decode(Encode(e, cx), globals, funcs) == Ok(Canonicalize(e.ops))
    ensures Canonical(e) ==> Decode(Encode(e, cx), globals, funcs) == Ok(e)
    ensures e.Extended? && |e.ops| >= 2 ==> Decode(Encode(e, cx), globals, funcs) == Ok(e)
  {
    var ops := OpsOf(e);
    EncodeAsOps(e, cx);
    DecodeEncodeOps(ops, cx, globals, funcs);
    if Canonical(e) {
      CanonicalizeOpsOf(e);
    }
  }

  /** The operator list an expression stands for. */
  function OpsOf(e: ConstExpr): (ops: seq<ConstOp>)
    ensures e.Extended? ==> ops == e.ops
    ensures !e.Extended? ==> |ops| == 1 && ops[0] == SingleOp(e)
  {
    if e.Extended? then e.ops else [SingleOp(e)]
  }

  /** Every form is written as its operator list followed by `End`. */
  lemma EncodeAsOps(e: ConstExpr, cx: Indices.IdsToIndices)
    requires Encodable(e, cx)
    ensures forall i :: 0 <= i < |OpsOf(e)| ==> OpEncodable(OpsOf(e)[i], cx)
    ensures Encode(e, cx) == EncodeOps(OpsOf(e), cx) + [Wasm.End]
  {
    if !e.Extended? {
      assert EncodeOps(OpsOf(e), cx) == [EncodeOp(SingleOp(e), cx)];
    }
  }

  /** Shortening the operator list of a canonical expression gives it back. */
  lemma CanonicalizeOpsOf(e: ConstExpr)
    requires Canonical(e)
    ensures Canonicalize(OpsOf(e)) == e
  {
  }

  /** Re-encoding the operator an instruction decoded to gives the
      instruction back. */
  lemma ReEncodeOp(w: Wasm.Operator, op: ConstOp, cx: Indices.IdsToIndices, globals: seq<GlobalId>, funcs: seq<FunctionId>)
    requires !w.End? && ConvertOp(w, globals, funcs) == Ok(op)
    requires Indices.EmitInvertsParse(globals, cx.globals) && Indices.EmitInvertsParse(funcs, cx.funcs)
    requires w.RefNull? && w.hty.Abstract? ==> !w.hty.shared
    ensures OpEncodable(op, cx) && EncodeOp(op, cx) == w
  {
    if w.V128Const? {
      V128Bijection(w.v128Bytes, 0);
    }
  }

  /** Parse then emit: when the emit-time maps number every parsed
      identifier back at its raw index, and no `ref.null` was marked shared,
      re-encoding a decoded expression reproduces the stream. */
  lemma DecodeEncodeRoundTrip(s: seq<Wasm.Operator>, cx: Indices.IdsToIndices, globals: seq<GlobalId>, funcs: seq<FunctionId>)
    requires Decode(s, globals, funcs).Ok?
    requires Indices.EmitInvertsParse(globals, cx.globals) && Indices.EmitInvertsParse(funcs, cx.funcs)
    requires forall i :: 0 <= i < |s| && s[i].RefNull? && s[i].hty.Abstract? ==> !s[i].hty.shared
    ensures Encodable(Decode(s, globals, funcs).value, cx)
    ensures Encode(Decode(s, globals, funcs).value, cx) == s
  {
    DecodeOpsCharacterization(s, globals, funcs);
    var ops := DecodeOps(s, globals, funcs).value;
    forall i | 0 <= i < |ops|
      ensures OpEncodable(ops[i], cx) && EncodeOp(ops[i], cx) == s[i]
    {
      ReEncodeOp(s[i], ops[i], cx, globals, funcs);
    }
    EncodeCanonical(ops, cx);
    EncodeOpsAs(ops, cx, s);
  }

  /** Operators that each encode to the matching instruction of `s`, followed
      by `End`, are written as `s`. */
  lemma EncodeOpsAs(ops: seq<ConstOp>, cx: Indices.IdsToIndices, s: seq<Wasm.Operator>)
    requires |s| == |ops| + 1 && s[|ops|] == Wasm.End
    requires forall i :: 0 <= i < |ops| ==> OpEncodable(ops[i], cx) && EncodeOp(ops[i], cx) == s[i]
    ensures EncodeOps(ops, cx) + [Wasm.End] == s
  {
    var r := EncodeOps(ops, cx) + [Wasm.End];
    assert forall i :: 0 <= i < |s| ==> r[i] == s[i];
  }
}
