# A verified model of three pieces of the walrus WebAssembly IR

walrus is a Rust library that parses a WebAssembly module into an in-memory
IR, lets a program change it, and emits it again. This project models three
self-contained pieces of it in Dafny and proves what their code and tests
promise:

- **Value and function types** (`Ty`, `ty.dfy`). A function `Type` has
  equality, hashing and ordering that ignore its `id` and `name`. It has a
  tombstone hook and two constructors. The model also covers the value,
  reference, heap and abstract heap types, their conversions to and from the
  parser's and encoder's types, and their `Display` strings.
- **Constant expressions** (`ConstExprs`, `const_expr.dfy`). `eval` decodes
  an `End`-terminated operator stream into a list of `ConstOp`s. It keeps
  only the extended-constant-expressions subset and shortens one simple
  operator to its short form. `to_wasmencoder_type` writes the expression
  back, one instruction per operator. `v128_to_u128` reads a 16-byte
  immediate little-endian.
- **The tag table** (`Tags`, `tags.dfy`). `ModuleTags` owns the module's
  tags in a tombstone arena. It supports add, add-import, get, in-place
  edit, iteration and delete. It also emits the tag section and parses it.

Supporting modules:

- `Ints`: the integer widths.
- `Ids`: arena identifiers.
- `Wrappers`: `Option` and `Result`.
- `Wasm`: the binary-format vocabulary shared by the parser and the encoder.
  It holds value and heap types, the operators, and tag-section entries.
- `Arena`: the tombstone arena, stated only by the operations its callers use.
- `Indices`: the parse-time and emit-time index maps, and the emit context.

Operators are modelled at the instruction level. A constant expression is a
`seq<Wasm.Operator>` ending in `End`, and encoding produces such a stream.
The `End` that the encoder's raw constructor appends is part of the stream.
Floats are their bit patterns. A 128-bit value is an integer below 2^128,
and `v128_to_u128`'s or of sixteen bytes shifted into disjoint bit ranges is
written as their little-endian sum.

Rust's derived `Ord` ranks variants in declaration order, then compares
fields. Slices compare lexicographically, with a proper prefix first. A
slice's `Hash` writes its length and then its elements. The model writes
out all three (`CmpValType`, `CmpSlice`, `HashSlice`). The hash is modelled
as the word sequence fed to the hasher. So "equal types hash equal" is
proved as the stronger "the hasher sees the same words exactly when the
types are equal".

Two effects are modelled as preconditions:

- A `todo!()` panic on a concrete heap type.
- A panic from indexing a deleted arena slot, or an emit-time lookup of an
  identifier that has no index.

Everything else that fails returns an error value.

## Model

| member | source | states |
|---|---|---|
| Ty.NewType | src/ty.rs:80-88 | the new type has the given id, params and results, is not a function-entry type and has no name |
| Ty.ForFunctionEntry | src/ty.rs:92-101 | the entry type has the given id and results, empty params, the entry flag set and no name |
| Ty.OnDelete | src/ty.rs:70-75 | the tombstoned type has empty params and results; id, entry flag and name are untouched |
| Ty.OnDeleteTombstones | src/ty.rs:34-42 | two tombstoned types are equal exactly when their entry flags agree; they always compare Equal; tombstoning twice is tombstoning once |
| Ty.TypeEq | src/ty.rs:34-42 | two types are equal exactly when they agree on everything but id and name |
| Ty.HashWords | src/ty.rs:60-68 | the hasher sees the params' length, the params, the results' length, the results and, last, the entry flag |
| Ty.HashMatchesEquality | src/ty.rs:60-68 | the words hashed for two types are the same if and only if the types are equal (params, results and entry flag; never id or name) |
| Ty.CmpHeapType | src/ty.rs:283-287 | heap types compare Equal exactly when equal; every abstract heap type comes before every concrete one |
| Ty.CmpRefType | src/ty.rs:143-150 | reference types compare Equal exactly when equal; with different nullability the non-nullable one comes first |
| Ty.CmpValType | src/ty.rs:126-141 | value types compare Equal exactly when equal; every scalar comes before every reference |
| Ty.CmpType | src/ty.rs:52-58 | two types compare Equal exactly when their params and their results are equal |
| Ty.CmpValTypeIsTotalOrder | src/ty.rs:126-150 | the derived order on value types is Equal exactly on equal values, antisymmetric and transitive |
| Ty.CmpSliceIsTotalOrder | src/ty.rs:52-58 | lexicographic slice comparison is Equal exactly on equal slices, antisymmetric and transitive |
| Ty.CmpTypeEqualIff | src/ty.rs:52-58 | two types compare Equal exactly when their params and their results are equal |
| Ty.CmpTypeIsTotalPreorder | src/ty.rs:52-58 | the type order is antisymmetric and transitive |
| Ty.TypeEqImpliesCmpEqual | src/ty.rs:34-58 | equal types compare Equal |
| Ty.EntryTypeComparesEqualToOrdinary | src/ty.rs:38-40 | an ordinary type and an entry type with the same lists compare Equal but are not equal |
| Ty.AbstractHeapTypeToWasm | src/ty.rs:357-373 | converting to the encoder's abstract heap type never yields a stack-switching type |
| Ty.AbstractHeapTypeFromWasm | src/ty.rs:376-399 | converting from the parser's abstract heap type fails exactly on Cont and NoCont, with the stack-switching error |
| Ty.AbstractHeapTypeConversionsInverse | src/ty.rs:357-399 | the two conversions are mutual inverses on the twelve supported variants |
| Ty.HeapTypeToWasm | src/ty.rs:315-326 | an abstract heap type becomes an unshared abstract heap type that converts back to it |
| Ty.HeapTypeFromWasm | src/ty.rs:328-337 | an abstract heap type converts when its abstract type does, ignoring the shared flag, and encodes back unshared |
| Ty.RefTypeToWasm | src/ty.rs:196-204 | nullability is kept; the heap type becomes an unshared abstract one that converts back to the original |
| Ty.RefTypeFromWasm | src/ty.rs:206-215 | fails exactly on Cont and NoCont heap types, with the stack-switching error; a converted reference encodes back to the input with its shared flag cleared |
| Ty.RefTypeConversionsInverse | src/ty.rs:196-215 | the two reference conversions are inverses: exactly for walrus references, and up to the shared flag for parser references |
| Ty.ValTypeToWasm | src/ty.rs:223-239 | a reference stays a reference, scalars stay scalars, and the result carries no shared flag |
| Ty.Parse | src/ty.rs:241-256 | parsing fails exactly on references to Cont or NoCont; the error is "stack switching not supported" exactly for the four stack-switching constants, and the heap-type error for other references to Cont or NoCont; a parsed type encodes back to the input with its shared flag dropped |
| Ty.ParseRefusesStackSwitchingConstants | src/ty.rs:248-253 | the four stack-switching reference constants are refused with the "not supported" error |
| Ty.ParseInvertsToWasm | src/ty.rs:223-256 | parsing the encoding of any encodable value type gives it back |
| Ty.FromWasmparserType | src/ty.rs:218-221 | succeeds exactly when parsing does, with parsing's error otherwise; on success one value type that encodes back to the input with its shared flag cleared |
| Ty.FromWasmparserTypeInvertsToWasm | src/ty.rs:218-239 | converting the encoding of any encodable value type gives the one-element list of it |
| Ty.Decimal | src/ty.rs:310 | the numeral of an index is non-empty and made of digits |
| Ty.DecimalInjective | src/ty.rs:310 | different indices print differently |
| Ty.HeapTypeDisplay | src/ty.rs:289-312 | the display is non-empty and starts with a digit exactly for a concrete heap type |
| Ty.HeapTypeDisplayShape | src/ty.rs:289-312 | a displayed heap type is non-empty and never begins with "null " |
| Ty.HeapTypeDisplayInjective | src/ty.rs:289-312 | different heap types display differently |
| Ty.ScalarDisplays | src/ty.rs:265-269 | the scalars print "i32", "i64", "f32", "f64", "v128" |
| Ty.ValTypeDisplay | src/ty.rs:259-281 | a reference's display starts with "ref " and ends with its heap type's display; a scalar's has three or more characters and does not start with 'r' |
| Ty.ValTypeDisplayNullInverted | src/ty.rs:270-277 | as written, a reference's display starts with "ref null " exactly when it is NOT nullable |
| Ty.FuncrefDisplaysWithoutNull | src/ty.rs:166-169 | the nullable FUNCREF prints "ref func" as written, where the text format reads "ref null func" |
| Ty.ValTypeDisplayIntendedMarksNullable | src/ty.rs:270-277 | with the corrected display, "ref null " starts a reference's display exactly when it is nullable |
| Ty.ValTypeDisplayInjective | src/ty.rs:259-312 | the display as written tells every two value types apart |
| Ty.ValTypeDisplayIntendedInjective | src/ty.rs:259-312 | the corrected display tells every two value types apart too |
| ConstExprs.V128ToU128 | src/const_expr.rs:182-200 | the value read from sixteen immediate bytes is written back as exactly those bytes |
| ConstExprs.LowBytesOfLittleEndian | src/const_expr.rs:182-200 | splitting the little-endian reading of any byte list into that many bytes gives the list back |
| ConstExprs.LittleEndianOfLowBytes | src/const_expr.rs:182-200 | reading back the low bytes of a value that fits them gives the value |
| ConstExprs.V128Bijection | src/const_expr.rs:182-200 | the little-endian reading is a bijection between 16-byte immediates and 128-bit values |
| ConstExprs.ConvertOp | src/const_expr.rs:67-101 | one operator converts exactly when it is accepted: a listed constant or arithmetic operator, a resolvable index, or ref.null of abstract func or extern; any other operator gives the unsupported-operation error |
| ConstExprs.ConvertGlobalGet | src/const_expr.rs:74-76 | global.get converts exactly when its index is in the parse-time table, to that global; otherwise the unknown-global error |
| ConstExprs.ConvertRefFunc | src/const_expr.rs:92-94 | ref.func converts exactly when its index is in the parse-time table, to that function; otherwise the unknown-function error |
| ConstExprs.ConvertRefNull | src/const_expr.rs:77-91 | ref.null converts exactly for abstract func and extern, to a nullable reference that decodes back unchanged; a concrete heap type gives its own error |
| ConstExprs.ConvertOpResolved | src/const_expr.rs:74-94 | an accepted global.get or ref.func holds the table entry at its index; an accepted ref.null is nullable funcref or externref |
| ConstExprs.DecodeOps | src/const_expr.rs:65-105 | a decoded stream ends in End and gives one op per operator before it |
| ConstExprs.Decode | src/const_expr.rs:60-123 | the stream decodes exactly when it is supported operators followed by one End, and the result is always in short form where one applies |
| ConstExprs.DecodeOpsCharacterization | src/const_expr.rs:65-105 | an operator stream decodes exactly when it is supported operators followed by one End; the result has one op per operator, each the operator's conversion, in order |
| ConstExprs.Eval | src/const_expr.rs:60-123 | the read loop returns the decoding of the stream, with its first error: an unresolved index, an unsupported ref.null heap type, an unsupported operator, a missing End or trailing operators |
| ConstExprs.Canonicalize | src/const_expr.rs:107-122 | the result is Extended exactly when the list is not a single non-arithmetic op; Extended keeps the list; a short form stands for the single op |
| ConstExprs.DecodeIsCanonical | src/const_expr.rs:107-122 | eval never returns Extended of a single non-arithmetic op |
| ConstExprs.SingleOp | src/const_expr.rs:107-122 | a short form stands for a non-arithmetic op |
| ConstExprs.EncodeOp | src/const_expr.rs:145-172 | an op is written as an instruction that is neither End nor unsupported; v128.const bytes read back as its value; ref.null gets an unshared abstract heap type |
| ConstExprs.EncodeOps | src/const_expr.rs:142-176 | the list is written as one instruction per op, none of them End |
| ConstExprs.Encode | src/const_expr.rs:125-179 | a short form is written as one instruction, then End; Extended as one instruction per op, in order, then End |
| ConstExprs.ToWasmEncoderType | src/const_expr.rs:125-179 | the encoder produces exactly the stream Encode describes |
| ConstExprs.EncodeExtended | src/const_expr.rs:142-176 | the encoder loop writes exactly the instructions of the list, in order, then End |
| ConstExprs.EncodeCanonical | src/const_expr.rs:107-176 | the short form of a list encodes to the same stream as Extended of that list |
| ConstExprs.ConvertEncodeOp | src/const_expr.rs:69-100 | decoding the instruction an op encodes to gives the op back, when the parse-time tables invert the emit-time maps |
| ConstExprs.ConvertEncodeV128 | src/const_expr.rs:73 | a written v128.const converts back to its value |
| ConstExprs.ConvertEncodeGlobalGet | src/const_expr.rs:74-76 | a written global.get resolves back to its global |
| ConstExprs.ConvertEncodeRefFunc | src/const_expr.rs:92-94 | a written ref.func resolves back to its function |
| ConstExprs.DecodeEncodeOps | src/const_expr.rs:65-176 | decoding an encoded op list gives the list back |
| ConstExprs.EncodeDecodeRoundTrip | crates/tests/tests/const_expr_mutation.rs:138-209 | emit then parse: eval of an encoded expression gives its short form; a canonical expression, and any Extended of two or more ops, comes back unchanged |
| ConstExprs.EncodeAsOps | src/const_expr.rs:125-179 | every form is written as its operator list followed by End |
| ConstExprs.CanonicalizeOpsOf | src/const_expr.rs:107-122 | shortening the operator list of a canonical expression gives the expression back |
| ConstExprs.ReEncodeOp | src/const_expr.rs:69-176 | re-encoding the op an instruction decoded to gives the instruction back |
| ConstExprs.DecodeEncodeRoundTrip | src/const_expr.rs:60-179 | parse then emit: when the emit-time maps number parsed identifiers at their raw index and no ref.null is shared, re-encoding reproduces the stream |
| Arena.AllocItems | src/module/tags.rs:103-105 | allocating appends exactly the new entity to the live entries |
| Arena.DeleteItems | src/module/tags.rs:140-142 | deleting a live slot removes exactly its entity from the live entries; the count drops by one |
| Arena.SetItems | src/module/tags.rs:125-127 | editing a live slot replaces its entity at the same position among the live entries |
| Arena.LiveItemsLength | src/module/tags.rs:130-132 | there are no more live entries than slots |
| Arena.LiveItemsContains | src/module/tags.rs:120-122 | a live slot's entity is among the live entries |
| Indices.IndicesToIds.PushTag | src/module/tags.rs:159 | the next raw tag index records the identifier; the other tables are unchanged |
| Tags.ModuleTags.constructor | src/module/tags.rs:97-99 | a new table is empty and well formed |
| Tags.ModuleTags.Iter | src/module/tags.rs:130-132 | iteration yields no more tags than slots were ever allocated |
| Tags.ModuleTags.Push | src/module/tags.rs:103-105 | allocating a tag numbered with the next id appends it: iter gains exactly it, and get returns it |
| Tags.ModuleTags.Get | src/module/tags.rs:120-122 | the tag of a live identifier is one of the live tags and records that identifier |
| Tags.ModuleTags.Add | src/module/tags.rs:102-106 | the returned identifier is the next slot; the stored tag has that identifier, the given type and kind Local; iter gains exactly it; ids keep matching slots |
| Tags.ModuleTags.AddImport | src/module/tags.rs:109-117 | as Add, with kind Import of the given import |
| Tags.ModuleTags.GetMut | src/module/tags.rs:124-127 | after the edit, get returns the edited tag; every other slot is unchanged; iter shows the edit in place |
| Tags.ModuleTags.Delete | src/module/tags.rs:54-58 | the slot turns dead holding the tag unchanged; iter loses exactly that tag and shrinks by one; the rest keep their ids and contents |
| Tags.ModuleTags.Emit | src/module/tags.rs:60-86 | no section without local tags; otherwise one section with one exception entry per local tag in iter order, each pointing at its type's index, and each id pushed in that order |
| Tags.LocalTags | src/module/tags.rs:64-67 | the filter keeps no more tags than it is given, and only local ones |
| Tags.LocalTagsCharacterization | src/module/tags.rs:64-67 | the emitted tags are exactly the local ones; there are none exactly when every tag is imported |
| Tags.ResolveTypes | src/module/tags.rs:153-160 | the resolved prefix holds each entry's type from the table, in order, and stops at the first entry that does not decode or resolve |
| Tags.EntryError | src/module/tags.rs:154-157 | an entry that does not decode gives the malformed-entry error; a decoded one gives the type table's unknown-type error for its index, which lies outside the table |
| Tags.ParseTags | src/module/tags.rs:145-162 | one Local tag per resolved entry, in order, each id pushed in order; success exactly when every entry resolves, otherwise the first failing entry's error, keeping the tags added before it |
| Tags.TagSectionRoundTrip | crates/tests/tests/exception_handling_mutation.rs:135-159 | the section emitted for N local tags, read against a type table that inverts the emit-time map, resolves all N entries to the tags' own types, in order |
| Tags.EmitThenParse | src/module/tags.rs:60-162 | emitting a module's local tags and parsing them into an empty table succeeds and yields one local tag per emitted one, with the same types in order; with no local tags nothing is written and the parsed table stays empty |
| Tags.ParseEmitted | src/module/tags.rs:145-162 | parsing the section written for some local tags into an empty table succeeds and yields them renumbered from zero |

## Left out

- Byte-level encoding. The LEB128 immediates and opcodes that wasm_encoder writes, and the operator reader of wasmparser, are foreign libraries. The model works on operator streams.
- Float values. `F32`/`F64` constants are their bit patterns. There is no float arithmetic, and `from_bits`/`into` are identities on bits.
- Concrete heap types. `todo!()` in both heap-type conversions is a precondition. So `Ty.HeapTypeToWasm`, `Ty.HeapTypeFromWasm`, `Ty.RefTypeToWasm`, `Ty.RefTypeFromWasm`, `Ty.ValTypeToWasm`, `Ty.Parse`, `Ty.FromWasmparserType`, `ConstExprs.Encode` and `ConstExprs.ToWasmEncoderType` require abstract heap types.
- Ty.Parse: the shared flag of an abstract heap type is dropped when parsing. So the round trip from the parser's side holds up to that flag, stated through `Ty.Unshared`.
- ConstExprs.DecodeEncodeRoundTrip: because of that dropped flag, it assumes no `ref.null` in the stream is marked shared.
- ConstExprs.EncodeDecodeRoundTrip: `ref.null` decodes only to the nullable `funcref` or `externref`. So the round trip holds for expressions whose `ref.null`s are those two.
- Type accessors (`id`, `params`, `results`, `is_for_function_entry`) and `Tag::id`/`Tag::ty` are the datatypes' fields.
- `iter_mut` on the tag table. It hands out mutable references to every live tag at once. The model covers in-place edits one tag at a time through `GetMut`.
- `TombstoneArena`, `IndicesToIds` and the emit context's index assigner: their implementations are not part of this model. Each is reduced to the operations its callers here use.
- The type table's `add` and deduplication are not part of this model.
- The instruction IR, the function builder, full-module emission and validation are not part of this model. The tests use them only as drivers.
- `log::debug!` output is left out. It has no effect on results.
- The test build script `crates/tests/build.rs` is left out. It is directory walking and file generation.
- Tags.ParseTags: the tag kind is not checked, since `Exception` is the only one. A section entry the reader cannot decode is modelled as `None`, without the reader's error detail.

## Findings

| source | as written | input that shows it | evidently intended | confidence | as-written member | corrected member |
|---|---|---|---|---|---|---|
| src/ty.rs:270-277 | `Display for ValType` prints "ref null <heap>" for a non-nullable reference and "ref <heap>" for a nullable one | `ValType::Ref(RefType::FUNCREF)` (nullable) prints "ref func", which the text format reads as a non-nullable reference | "ref null <heap>" for nullable references, "ref <heap>" otherwise | not executed; high | Ty.ValTypeDisplayNullInverted, Ty.FuncrefDisplaysWithoutNull | Ty.ValTypeDisplayIntendedMarksNullable |

`Ty.ValTypeDisplay` is the display as written. `Ty.ValTypeDisplayIntended` is the corrected one. Both are proved injective (`Ty.ValTypeDisplayInjective`, `Ty.ValTypeDisplayIntendedInjective`).
