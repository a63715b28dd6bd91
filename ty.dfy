/** Function types and value types of the IR: the `Type` entity with its
    signature-only equality, hashing and ordering, the constructors and the
    tombstone hook, the value/reference/heap type algebra with its
    conversions to and from the binary-format vocabulary, and the text each
    type displays as. */
module Ty {
  import opened Ints
  import opened Ids
  import Wrappers
  import Wasm

  // ---------------------------------------------------------------------------
  // Value types
  // ---------------------------------------------------------------------------

  /** The abstract heap types the IR supports (the binary format's, minus the
      two stack-switching ones). */
  datatype AbstractHeapType =
    | Func | Extern | Any | None | NoExtern | NoFunc | Eq | Struct | Array | I31 | Exn | NoExn

  datatype HeapType = Abstract(ty: AbstractHeapType) | Concrete(index: u32)

  datatype RefType = RefType(nullable: bool, heapType: HeapType)

  datatype ValType = I32 | I64 | F32 | F64 | V128 | Ref(refType: RefType)

  /** The named reference types: each is a nullable abstract heap type. */
  const ANYREF: RefType := RefType(true, Abstract(Any))
  const EQREF: RefType := RefType(true, Abstract(Eq))
  const FUNCREF: RefType := RefType(true, Abstract(Func))
  const EXTERNREF: RefType := RefType(true, Abstract(Extern))
  const I31REF: RefType := RefType(true, Abstract(I31))
  const ARRAYREF: RefType := RefType(true, Abstract(Array))
  const EXNREF: RefType := RefType(true, Abstract(Exn))

  /** The two ways of refusing a stack-switching type: `ValType::parse` names
      the four stack-switching reference constants itself; any other
      continuation heap type is refused by the abstract heap type conversion. */
  datatype TypeError = StackSwitchingUnsupported | StackSwitchingHeapTypeUnsupported

  // ---------------------------------------------------------------------------
  // Function types
  // ---------------------------------------------------------------------------

  /** A function type. `isForFunctionEntry` marks the internal types of
      multi-value function entry blocks, which are never emitted. */
  datatype Type = Type(
    id: TypeId,
    params: seq<ValType>,
    results: seq<ValType>,
    isForFunctionEntry: bool,
    name: Wrappers.Option<string>)

  /** `Type::eq`: the signature and the entry flag; never `id` or `name`. */
  predicate TypeEq(a: Type, b: Type)
    ensures TypeEq(a, b) <==> a.(id := b.id, name := b.name) == b
  {
    a.params == b.params && a.results == b.results && a.isForFunctionEntry == b.isForFunctionEntry
  }

  /** `Type::new`: an ordinary function type without a name. */
  function NewType(id: TypeId, params: seq<ValType>, results: seq<ValType>): (t: Type)
    ensures t.id == id && t.params == params && t.results == results
    ensures !t.isForFunctionEntry && t.name == Wrappers.None
  {
    Type(id, params, results, false, Wrappers.None)
  }

  /** `Type::for_function_entry`: the parameterless type of a function entry block. */
  function ForFunctionEntry(id: TypeId, results: seq<ValType>): (t: Type)
    ensures t.id == id && t.params == [] && t.results == results
    ensures t.isForFunctionEntry && t.name == Wrappers.None
  {
    Type(id, [], results, true, Wrappers.None)
  }

  /** `Tombstone::on_delete`: the signature is dropped; identity, entry flag
      and name stay. */
  function OnDelete(t: Type): (r: Type)
    ensures r.params == [] && r.results == []
    ensures r.id == t.id && r.isForFunctionEntry == t.isForFunctionEntry && r.name == t.name
  {
    t.(params := [], results := [])
  }

  /** Two tombstoned types are equal exactly when their entry flags agree, and
      they always compare `Equal`; tombstoning twice is tombstoning once. */
  lemma OnDeleteTombstones(a: Type, b: Type)
    ensures TypeEq(OnDelete(a), OnDelete(b)) <==> a.isForFunctionEntry == b.isForFunctionEntry
    ensures CmpType(OnDelete(a), OnDelete(b)) == Equal
    ensures OnDelete(OnDelete(a)) == OnDelete(a)
  {
  }

  // ---------------------------------------------------------------------------
  // Hashing
  // ---------------------------------------------------------------------------

  /** What `Type::hash` feeds the hasher: each slice as its length followed
      by its elements, then the entry flag. */
  datatype HashWord = Length(n: nat) | Element(v: ValType) | Flag(b: bool)

  function HashSlice(s: seq<ValType>): (w: seq<HashWord>)
    ensures |w| == |s| + 1
  {
    [Length(|s|)] + seq(|s|, i requires 0 <= i < |s| => Element(s[i]))
  }

  function HashWords(t: Type): (w: seq<HashWord>)
    ensures |w| == |t.params| + |t.results| + 3
    ensures w[0] == Length(|t.params|) && w[|t.params| + 1] == Length(|t.results|)
    ensures w[|w| - 1] == Flag(t.isForFunctionEntry)
  {
    HashSlice(t.params) + HashSlice(t.results) + [Flag(t.isForFunctionEntry)]
  }

  /** The hasher sees exactly the fields equality looks at: equal types hash
      equal, and types that feed the same words are equal. */
  lemma HashMatchesEquality(a: Type, b: Type)
    ensures HashWords(a) == HashWords(b) <==> TypeEq(a, b)
  {
    if HashWords(a) == HashWords(b) {
      var w := HashWords(a);
      var p, q := |a.params|, |b.params|;
      assert w[0] == Length(p) && HashWords(b)[0] == Length(q);
      assert p == q;
      forall i | 0 <= i < p ensures a.params[i] == b.params[i] {
        assert w[1 + i] == Element(a.params[i]);
        assert HashWords(b)[1 + i] == Element(b.params[i]);
      }
      var r, s := |a.results|, |b.results|;
      assert w[p + 1] == Length(r) && HashWords(b)[p + 1] == Length(s);
      forall i | 0 <= i < r ensures a.results[i] == b.results[i] {
        assert w[p + 2 + i] == Element(a.results[i]);
        assert HashWords(b)[p + 2 + i] == Element(b.results[i]);
      }
      assert w[p + r + 2] == Flag(a.isForFunctionEntry);
      assert HashWords(b)[p + r + 2] == Flag(b.isForFunctionEntry);
    }
  }

  // ---------------------------------------------------------------------------
  // Ordering
  // ---------------------------------------------------------------------------

  datatype Ordering = Less | Equal | Greater {
    function Reverse(): Ordering
    {
      match this
      case Less => Greater
      case Equal => Equal
      case Greater => Less
    }

    /** `Ordering::then_with`: the tie-breaker is consulted only on `Equal`. */
    function ThenWith(next: Ordering): Ordering
    {
      if this == Equal then next else this
    }
  }

  function CmpNat(a: nat, b: nat): Ordering
  {
    if a < b then Less else if a == b then Equal else Greater
  }

  /** Declaration position, which the derived orderings compare first. */
  function AbstractRank(a: AbstractHeapType): nat
  {
    match a
    case Func => 0
    case Extern => 1
    case Any => 2
    case None => 3
    case NoExtern => 4
    case NoFunc => 5
    case Eq => 6
    case Struct => 7
    case Array => 8
    case I31 => 9
    case Exn => 10
    case NoExn => 11
  }

  function ValRank(v: ValType): nat
  {
    match v
    case I32 => 0
    case I64 => 1
    case F32 => 2
    case F64 => 3
    case V128 => 4
    case Ref(_) => 5
  }

  /** Derived ordering of `HeapType`: abstract before concrete, then the payload. */
  function CmpHeapType(a: HeapType, b: HeapType): (r: Ordering)
    ensures r == Equal <==> a == b
    ensures a.Abstract? && b.Concrete? ==> r == Less
  {
    match (a, b)
    case (Abstract(x), Abstract(y)) => CmpNat(AbstractRank(x), AbstractRank(y))
    case (Abstract(_), Concrete(_)) => Less
    case (Concrete(_), Abstract(_)) => Greater
    case (Concrete(m), Concrete(n)) => CmpNat(m, n)
  }

  /** Derived ordering of `RefType`: `nullable` (false first), then the heap type. */
  function CmpRefType(a: RefType, b: RefType): (r: Ordering)
    ensures r == Equal <==> a == b
    ensures a.nullable != b.nullable ==> (r == Less <==> !a.nullable)
  {
    CmpNat(if a.nullable then 1 else 0, if b.nullable then 1 else 0)
      .ThenWith(CmpHeapType(a.heapType, b.heapType))
  }

  /** Derived ordering of `ValType`: declaration position, then the reference type. */
  function CmpValType(a: ValType, b: ValType): (r: Ordering)
    ensures r == Equal <==> a == b
    ensures !a.Ref? && b.Ref? ==> r == Less
  {
    if a.Ref? && b.Ref? then CmpRefType(a.refType, b.refType) else CmpNat(ValRank(a), ValRank(b))
  }

  /** Lexicographic slice ordering: the first differing element decides, and
      a proper prefix comes first. */
  function CmpSlice(a: seq<ValType>, b: seq<ValType>): Ordering
    decreases |a|
  {
    if a == [] && b == [] then Equal
    else if a == [] then Less
    else if b == [] then Greater
    else CmpValType(a[0], b[0]).ThenWith(CmpSlice(a[1..], b[1..]))
  }

  /** `Type::cmp`: parameters, then results. The entry flag is not consulted. */
  function CmpType(a: Type, b: Type): (r: Ordering)
    ensures r == Equal <==> a.params == b.params && a.results == b.results
  {
    CmpSliceIsTotalOrder(a.params, b.params, b.params);
    CmpSliceIsTotalOrder(a.results, b.results, b.results);
    CmpSlice(a.params, b.params).ThenWith(CmpSlice(a.results, b.results))
  }

  lemma AbstractRankInjective(x: AbstractHeapType, y: AbstractHeapType)
    ensures AbstractRank(x) == AbstractRank(y) ==> x == y
  {
  }

  /** The derived ordering of value types is a total order. */
  lemma CmpValTypeIsTotalOrder(a: ValType, b: ValType, c: ValType)
    ensures CmpValType(a, b) == Equal <==> a == b
    ensures CmpValType(b, a) == CmpValType(a, b).Reverse()
    ensures CmpValType(a, b) == Less && CmpValType(b, c) == Less ==> CmpValType(a, c) == Less
  {
    if a.Ref? && b.Ref? && a.refType.heapType.Abstract? && b.refType.heapType.Abstract? {
      AbstractRankInjective(a.refType.heapType.ty, b.refType.heapType.ty);
    }
  }

  /** The slice ordering is a total order: `Equal` exactly on equal slices,
      antisymmetric and transitive. */
  lemma {:induction false} CmpSliceIsTotalOrder(a: seq<ValType>, b: seq<ValType>, c: seq<ValType>)
    ensures CmpSlice(a, b) == Equal <==> a == b
    ensures CmpSlice(b, a) == CmpSlice(a, b).Reverse()
    ensures CmpSlice(a, b) == Less && CmpSlice(b, c) == Less ==> CmpSlice(a, c) == Less
    decreases |a|
  {
    if a != [] && b != [] {
      CmpValTypeIsTotalOrder(a[0], b[0], if c == [] then a[0] else c[0]);
      if c != [] {
        CmpValTypeIsTotalOrder(b[0], c[0], a[0]);
        CmpValTypeIsTotalOrder(a[0], c[0], b[0]);
        CmpSliceIsTotalOrder(a[1..], b[1..], c[1..]);
      } else {
        CmpSliceIsTotalOrder(a[1..], b[1..], b[1..]);
      }
      assert a == [a[0]] + a[1..] && b == [b[0]] + b[1..];
    }
  }

  /** `cmp` is `Equal` exactly when parameters and results agree: it ignores
      `id`, `name` and the entry flag. */
  lemma CmpTypeEqualIff(a: Type, b: Type)
    ensures CmpType(a, b) == Equal <==> a.params == b.params && a.results == b.results
  {
    CmpSliceIsTotalOrder(a.params, b.params, b.params);
    CmpSliceIsTotalOrder(a.results, b.results, b.results);
  }

  /** `cmp` is antisymmetric and transitive on types. */
  lemma CmpTypeIsTotalPreorder(a: Type, b: Type, c: Type)
    ensures CmpType(b, a) == CmpType(a, b).Reverse()
    ensures CmpType(a, b) == Less && CmpType(b, c) == Less ==> CmpType(a, c) == Less
  {
    CmpSliceIsTotalOrder(a.params, b.params, c.params);
    CmpSliceIsTotalOrder(a.results, b.results, c.results);
    CmpSliceIsTotalOrder(a.params, c.params, b.params);
    CmpSliceIsTotalOrder(b.params, c.params, a.params);
  }

  /** Equal types compare `Equal`... */
  lemma TypeEqImpliesCmpEqual(a: Type, b: Type)
    ensures TypeEq(a, b) ==> CmpType(a, b) == Equal
  {
    CmpTypeEqualIff(a, b);
  }

  /** ...but not conversely: an ordinary type and an entry-block type with the
      same lists compare `Equal` while `==` says they differ. */
  lemma EntryTypeComparesEqualToOrdinary(id1: TypeId, id2: TypeId, results: seq<ValType>)
    ensures CmpType(NewType(id1, [], results), ForFunctionEntry(id2, results)) == Equal
    ensures !TypeEq(NewType(id1, [], results), ForFunctionEntry(id2, results))
  {
    CmpTypeEqualIff(NewType(id1, [], results), ForFunctionEntry(id2, results));
  }

  // ---------------------------------------------------------------------------
  // Conversions to and from the binary-format vocabulary
  // ---------------------------------------------------------------------------

  /** `Into<wasm_encoder::AbstractHeapType>`: variant by variant. */
  function AbstractHeapTypeToWasm(a: AbstractHeapType): (w: Wasm.AbstractHeapType)
    ensures !w.Cont? && !w.NoCont?
  {
    match a
    case Func => Wasm.Func
    case Extern => Wasm.Extern
    case Any => Wasm.Any
    case None => Wasm.None
    case NoExtern => Wasm.NoExtern
    case NoFunc => Wasm.NoFunc
    case Eq => Wasm.Eq
    case Struct => Wasm.Struct
    case Array => Wasm.Array
    case I31 => Wasm.I31
    case Exn => Wasm.Exn
    case NoExn => Wasm.NoExn
  }

  /** `TryFrom<wasmparser::AbstractHeapType>`: fails exactly on the
      stack-switching variants. */
  function AbstractHeapTypeFromWasm(w: Wasm.AbstractHeapType): (r: Wrappers.Result<AbstractHeapType, TypeError>)
    ensures r.Err? <==> w.Cont? || w.NoCont?
    ensures r.Err? ==> r.error == StackSwitchingHeapTypeUnsupported
  {
    match w
    case Func => Wrappers.Ok(Func)
    case Extern => Wrappers.Ok(Extern)
    case Any => Wrappers.Ok(Any)
    case None => Wrappers.Ok(None)
    case NoExtern => Wrappers.Ok(NoExtern)
    case NoFunc => Wrappers.Ok(NoFunc)
    case Eq => Wrappers.Ok(Eq)
    case Struct => Wrappers.Ok(Struct)
    case Array => Wrappers.Ok(Array)
    case I31 => Wrappers.Ok(I31)
    case Exn => Wrappers.Ok(Exn)
    case NoExn => Wrappers.Ok(NoExn)
    case Cont => Wrappers.Err(StackSwitchingHeapTypeUnsupported)
    case NoCont => Wrappers.Err(StackSwitchingHeapTypeUnsupported)
  }

  /** The two abstract heap type conversions are mutual inverses on the
      twelve supported variants. */
  lemma AbstractHeapTypeConversionsInverse(a: AbstractHeapType, w: Wasm.AbstractHeapType)
    ensures AbstractHeapTypeFromWasm(AbstractHeapTypeToWasm(a)) == Wrappers.Ok(a)
    ensures AbstractHeapTypeFromWasm(w).Ok? ==> AbstractHeapTypeToWasm(AbstractHeapTypeFromWasm(w).value) == w
  {
  }

  /** `Into<wasm_encoder::HeapType>`: abstract heap types become unshared;
      a concrete heap type reaches `todo!()`. */
  function HeapTypeToWasm(h: HeapType): (w: Wasm.HeapType)
    requires h.Abstract?
    ensures w.Abstract? && !w.shared && AbstractHeapTypeFromWasm(w.ty) == Wrappers.Ok(h.ty)
  {
    Wasm.Abstract(false, AbstractHeapTypeToWasm(h.ty))
  }

  /** `TryFrom<wasmparser::HeapType>`: the `shared` flag is dropped; a
      concrete heap type reaches `todo!()`. */
  function HeapTypeFromWasm(w: Wasm.HeapType): (r: Wrappers.Result<HeapType, TypeError>)
    requires w.Abstract?
    ensures r.Ok? <==> AbstractHeapTypeFromWasm(w.ty).Ok?
    ensures r.Ok? ==> r.value.Abstract? && HeapTypeToWasm(r.value) == Wasm.Abstract(false, w.ty)
  {
    match AbstractHeapTypeFromWasm(w.ty)
    case Ok(a) => Wrappers.Ok(Abstract(a))
    case Err(e) => Wrappers.Err(e)
  }

  /** `Into<wasm_encoder::RefType>`. */
  function RefTypeToWasm(r: RefType): (w: Wasm.RefType)
    requires r.heapType.Abstract?
    ensures w.nullable == r.nullable
    ensures w.heapType.Abstract? && !w.heapType.shared && AbstractHeapTypeFromWasm(w.heapType.ty) == Wrappers.Ok(r.heapType.ty)
  {
    Wasm.RefType(r.nullable, HeapTypeToWasm(r.heapType))
  }

  /** `TryFrom<wasmparser::RefType>`. */
  function RefTypeFromWasm(w: Wasm.RefType): (r: Wrappers.Result<RefType, TypeError>)
    requires w.heapType.Abstract?
    ensures r.Ok? <==> !w.heapType.ty.Cont? && !w.heapType.ty.NoCont?
    ensures r.Err? ==> r.error == StackSwitchingHeapTypeUnsupported
    ensures r.Ok? ==> r.value.heapType.Abstract? && RefTypeToWasm(r.value) == w.(heapType := w.heapType.(shared := false))
  {
    match HeapTypeFromWasm(w.heapType)
    case Ok(h) => Wrappers.Ok(RefType(w.nullable, h))
    case Err(e) => Wrappers.Err(e)
  }

  /** The two reference type conversions are inverse, up to the `shared`
      flag the parser side drops. */
  lemma RefTypeConversionsInverse(r: RefType, w: Wasm.RefType)
    requires r.heapType.Abstract? && w.heapType.Abstract?
    ensures RefTypeFromWasm(RefTypeToWasm(r)) == Wrappers.Ok(r)
    ensures RefTypeFromWasm(w).Ok? ==> RefTypeToWasm(RefTypeFromWasm(w).value) == w.(heapType := w.heapType.(shared := false))
  {
    AbstractHeapTypeConversionsInverse(r.heapType.ty, w.heapType.ty);
  }

  /** A value type the encoder conversion accepts: no concrete heap type. */
  predicate Encodable(v: ValType)
  {
    v.Ref? ==> v.refType.heapType.Abstract?
  }

  /** The same value type with every `shared` flag cleared. */
  function Unshared(w: Wasm.ValType): Wasm.ValType
  {
    if w.Ref? && w.refType.heapType.Abstract?
    then Wasm.Ref(w.refType.(heapType := w.refType.heapType.(shared := false)))
    else w
  }

  /** `ValType::to_wasmencoder_type`. */
  function ValTypeToWasm(v: ValType): (w: Wasm.ValType)
    requires Encodable(v)
    ensures w.Ref? <==> v.Ref?
    ensures Unshared(w) == w
  {
    match v
    case I32 => Wasm.I32
    case I64 => Wasm.I64
    case F32 => Wasm.F32
    case F64 => Wasm.F64
    case V128 => Wasm.V128
    case Ref(r) => Wasm.Ref(RefTypeToWasm(r))
  }

  /** `ValType::parse`: scalars map to themselves; every continuation
      reference type is refused; every other reference converts, losing only
      its `shared` flag. A concrete heap type reaches `todo!()`. */
  function Parse(w: Wasm.ValType): (r: Wrappers.Result<ValType, TypeError>)
    requires w.Ref? ==> w.refType.heapType.Abstract?
    ensures r.Err? <==> w.Ref? && (w.refType.heapType.ty.Cont? || w.refType.heapType.ty.NoCont?)
    ensures r.Ok? ==> Encodable(r.value) && ValTypeToWasm(r.value) == Unshared(w)
    ensures r.Err? ==> (r.error == StackSwitchingUnsupported <==> w.refType in {Wasm.CONT, Wasm.CONTREF, Wasm.NULLCONTREF, Wasm.NOCONT})
    ensures r.Err? && r.error != StackSwitchingUnsupported ==> r.error == StackSwitchingHeapTypeUnsupported
  {
    match w
    case I32 => Wrappers.Ok(I32)
    case I64 => Wrappers.Ok(I64)
    case F32 => Wrappers.Ok(F32)
    case F64 => Wrappers.Ok(F64)
    case V128 => Wrappers.Ok(V128)
    case Ref(rt) =>
      if rt == Wasm.CONT || rt == Wasm.CONTREF || rt == Wasm.NULLCONTREF || rt == Wasm.NOCONT then
        Wrappers.Err(StackSwitchingUnsupported)
      else
        match RefTypeFromWasm(rt)
        case Ok(t) => Wrappers.Ok(Ref(t))
        case Err(e) => Wrappers.Err(e)
  }

  /** The four named continuation constants fail in `parse` itself. */
  lemma ParseRefusesStackSwitchingConstants(rt: Wasm.RefType)
    requires rt in {Wasm.CONT, Wasm.CONTREF, Wasm.NULLCONTREF, Wasm.NOCONT}
    ensures Parse(Wasm.Ref(rt)) == Wrappers.Err(StackSwitchingUnsupported)
  {
  }

  /** Parsing what the encoder conversion produced gives the value type back. */
  lemma {:induction false} ParseInvertsToWasm(v: ValType)
    requires Encodable(v)
    ensures Parse(ValTypeToWasm(v)) == Wrappers.Ok(v)
  {
    match v
    case Ref(r) =>
      AbstractHeapTypeConversionsInverse(r.heapType.ty, Wasm.Func);
    case _ =>
  }

  /** `ValType::from_wasmparser_type`: one parsed value type as a one-element list. */
  function FromWasmparserType(w: Wasm.ValType): (r: Wrappers.Result<seq<ValType>, TypeError>)
    requires w.Ref? ==> w.refType.heapType.Abstract?
    ensures r.Ok? <==> Parse(w).Ok?
    ensures r.Ok? ==> |r.value| == 1 && Encodable(r.value[0]) && ValTypeToWasm(r.value[0]) == Unshared(w)
    ensures r.Err? ==> r.error == Parse(w).error
  {
    match Parse(w)
    case Ok(v) => Wrappers.Ok([v])
    case Err(e) => Wrappers.Err(e)
  }

  /** The list conversion gives back the encoded value type. */
  lemma FromWasmparserTypeInvertsToWasm(v: ValType)
    requires Encodable(v)
    ensures FromWasmparserType(ValTypeToWasm(v)) == Wrappers.Ok([v])
  {
    ParseInvertsToWasm(v);
  }

  // ---------------------------------------------------------------------------
  // Display
  // ---------------------------------------------------------------------------

  function AbstractHeapTypeName(a: AbstractHeapType): string
  {
    match a
    case Func => "func"
    case Extern => "extern"
    case Any => "any"
    case None => "none"
    case NoExtern => "noextern"
    case NoFunc => "nofunc"
    case Eq => "eq"
    case Struct => "struct"
    case Array => "array"
    case I31 => "i31"
    case Exn => "exn"
    case NoExn => "noexn"
  }

  predicate IsDigit(c: char) { '0' <= c <= '9' }

  function DigitChar(d: nat): (c: char)
    requires d < 10
    ensures IsDigit(c) && c as int == '0' as int + d
  {
    ('0' as int + d) as char
  }

  /** The decimal numeral of `n`, as `{}` formats an unsigned integer. */
  function Decimal(n: nat): (s: string)
    ensures |s| >= 1 && (n >= 10 ==> |s| >= 2)
    ensures forall i :: 0 <= i < |s| ==> IsDigit(s[i])
  {
    if n < 10 then [DigitChar(n)] else Decimal(n / 10) + [DigitChar(n % 10)]
  }

  /** Different numbers have different numerals. */
  lemma {:induction false} DecimalInjective(m: nat, n: nat)
    ensures Decimal(m) == Decimal(n) ==> m == n
  {
    if Decimal(m) == Decimal(n) && m >= 10 && n >= 10 {
      var s := Decimal(m);
      assert s[|s| - 1] == DigitChar(m % 10) == DigitChar(n % 10);
      assert s[..|s| - 1] == Decimal(m / 10) == Decimal(n / 10);
      DecimalInjective(m / 10, n / 10);
    } else if Decimal(m) == Decimal(n) && m < 10 && n < 10 {
      assert Decimal(m)[0] == DigitChar(m) && Decimal(n)[0] == DigitChar(n);
    }
  }

  /** `Display for HeapType`. */
  function HeapTypeDisplay(h: HeapType): (s: string)
    ensures |s| >= 1 && (IsDigit(s[0]) <==> h.Concrete?)
  {
    match h
    case Abstract(a) => AbstractHeapTypeName(a)
    case Concrete(i) => Decimal(i)
  }

  /** A displayed heap type is never empty and never starts with "null ". */
  lemma HeapTypeDisplayShape(h: HeapType)
    ensures |HeapTypeDisplay(h)| >= 1
    ensures !("null " <= HeapTypeDisplay(h))
  {
    var s := HeapTypeDisplay(h);
    if h.Concrete? {
      assert IsDigit(s[0]);
    } else {
      assert s[1] != 'u' || s[0] != 'n';
    }
  }

  lemma NameIsNotNumeral(a: AbstractHeapType, n: nat)
    ensures AbstractHeapTypeName(a) != Decimal(n)
  {
    assert !IsDigit(AbstractHeapTypeName(a)[0]) && IsDigit(Decimal(n)[0]);
  }

  /** Different heap types display differently. */
  lemma HeapTypeDisplayInjective(a: HeapType, b: HeapType)
    ensures HeapTypeDisplay(a) == HeapTypeDisplay(b) ==> a == b
  {
    if a.Abstract? && b.Concrete? { NameIsNotNumeral(a.ty, b.index); }
    if a.Concrete? && b.Abstract? { NameIsNotNumeral(b.ty, a.index); }
    if HeapTypeDisplay(a) == HeapTypeDisplay(b) {
      var s := HeapTypeDisplay(a);
      match (a, b)
      case (Concrete(m), Concrete(n)) => DecimalInjective(m, n);
      case (Abstract(x), Concrete(_)) =>
      case (Concrete(_), Abstract(y)) =>
      case (Abstract(x), Abstract(y)) =>
        assert |s| == |AbstractHeapTypeName(y)|;
        assert s[0] == AbstractHeapTypeName(y)[0];
        assert |s| > 2 ==> s[2] == AbstractHeapTypeName(y)[2];
        assert |s| > 3 ==> s[3] == AbstractHeapTypeName(y)[3];
    }
  }

  /** `Display for ValType`, as written: a NON-nullable reference prints
      "ref null <heap>" and a nullable one "ref <heap>". */
  function ValTypeDisplay(v: ValType): (s: string)
    ensures v.Ref? ==> "ref " <= s
    ensures !v.Ref? ==> |s| >= 3 && s[0] != 'r'
    ensures v.Ref? ==> var h := HeapTypeDisplay(v.refType.heapType); |h| < |s| && s[|s| - |h|..] == h
  {
    match v
    case I32 => "i32"
    case I64 => "i64"
    case F32 => "f32"
    case F64 => "f64"
    case V128 => "v128"
    case Ref(RefType(false, h)) => "ref null " + HeapTypeDisplay(h)
    case Ref(RefType(true, h)) => "ref " + HeapTypeDisplay(h)
  }

  /** The numeric and vector types print as their text-format keywords. */
  lemma ScalarDisplays()
    ensures ValTypeDisplay(I32) == "i32" && ValTypeDisplay(I64) == "i64"
    ensures ValTypeDisplay(F32) == "f32" && ValTypeDisplay(F64) == "f64"
    ensures ValTypeDisplay(V128) == "v128"
  {
  }

  /** The display the text format uses: "ref null" marks the nullable reference. */
  function ValTypeDisplayIntended(v: ValType): string
  {
    match v
    case Ref(RefType(true, h)) => "ref null " + HeapTypeDisplay(h)
    case Ref(RefType(false, h)) => "ref " + HeapTypeDisplay(h)
    case _ => ValTypeDisplay(v)
  }

  /** As written, "ref null" appears exactly on the non-nullable references. */
  lemma ValTypeDisplayNullInverted(r: RefType)
    ensures "ref null " <= ValTypeDisplay(Ref(r)) <==> !r.nullable
  {
    RefDisplayPrefix(r.heapType);
  }

  /** The nullable `funcref` prints as the text format's non-nullable "ref func". */
  lemma FuncrefDisplaysWithoutNull()
    ensures ValTypeDisplay(Ref(FUNCREF)) == "ref func"
    ensures ValTypeDisplayIntended(Ref(FUNCREF)) == "ref null func"
  {
  }

  /** With the intended display, "ref null" appears exactly on the nullable references. */
  lemma ValTypeDisplayIntendedMarksNullable(r: RefType)
    ensures "ref null " <= ValTypeDisplayIntended(Ref(r)) <==> r.nullable
  {
    RefDisplayPrefix(r.heapType);
  }

  lemma RefDisplayPrefix(h: HeapType)
    ensures "ref null " <= "ref null " + HeapTypeDisplay(h)
    ensures !("ref null " <= "ref " + HeapTypeDisplay(h))
  {
    var d := HeapTypeDisplay(h);
    var s := "ref " + d;
    HeapTypeDisplayShape(h);
    if |d| >= 5 {
      assert s[4..9] == d[..5] != "null ";
      assert s[..9][4..9] == s[4..9];
      assert "ref null "[4..9] == "null ";
    }
  }

  lemma PrefixCancel(p: string, x: string, y: string)
    ensures p + x == p + y ==> x == y
  {
    if p + x == p + y {
      assert x == (p + x)[|p|..];
      assert y == (p + y)[|p|..];
    }
  }

  /** The display as written tells every two value types apart. */
  lemma ValTypeDisplayInjective(a: ValType, b: ValType)
    ensures ValTypeDisplay(a) == ValTypeDisplay(b) ==> a == b
  {
    if a.Ref? && b.Ref? {
      var ha, hb := HeapTypeDisplay(a.refType.heapType), HeapTypeDisplay(b.refType.heapType);
      PrefixCancel("ref ", ha, hb);
      PrefixCancel("ref null ", ha, hb);
      RefDisplayPrefix(a.refType.heapType);
      RefDisplayPrefix(b.refType.heapType);
      HeapTypeDisplayInjective(a.refType.heapType, b.refType.heapType);
    }
  }

  /** The corrected display tells every two value types apart too. */
  lemma ValTypeDisplayIntendedInjective(a: ValType, b: ValType)
    ensures ValTypeDisplayIntended(a) == ValTypeDisplayIntended(b) ==> a == b
  {
    if a.Ref? && b.Ref? {
      var ha, hb := HeapTypeDisplay(a.refType.heapType), HeapTypeDisplay(b.refType.heapType);
      PrefixCancel("ref ", ha, hb);
      PrefixCancel("ref null ", ha, hb);
      RefDisplayPrefix(a.refType.heapType);
      RefDisplayPrefix(b.refType.heapType);
      HeapTypeDisplayInjective(a.refType.heapType, b.refType.heapType);
    } else if a.Ref? || b.Ref? {
      var r := if a.Ref? then a else b;
      HeapTypeDisplayShape(r.refType.heapType);
      assert ValTypeDisplayIntended(r)[0] == 'r';
    }
  }
}
