/** The index maps between the binary format's raw indices and arena
    identifiers. Their implementation is not part of this model; they are
    stated only by what their call sites rely on: the parse-time tables are
    looked up by raw index (failing on an index out of range) and grow by
    `push_tag`; the emit-time maps give each identifier its index (a missing
    identifier aborts), and `push_tag` gives the next tag the next index. */
module Indices {
  import opened Ints
  import opened Ids
  import opened Wrappers
  import Wasm

  /** A raw index that names no entity of its kind. */
  datatype ResolutionError = UnknownType(index: u32) | UnknownGlobal(index: u32) | UnknownFunction(index: u32)

  function GetType(types: seq<TypeId>, index: u32): Result<TypeId, ResolutionError>
  {
    if index < |types| then Ok(types[index]) else Err(UnknownType(index))
  }

  function GetGlobal(globals: seq<GlobalId>, index: u32): Result<GlobalId, ResolutionError>
  {
    if index < |globals| then Ok(globals[index]) else Err(UnknownGlobal(index))
  }

  function GetFunc(funcs: seq<FunctionId>, index: u32): Result<FunctionId, ResolutionError>
  {
    if index < |funcs| then Ok(funcs[index]) else Err(UnknownFunction(index))
  }

  /** Parse time: the identifier recorded at each raw index, per entity kind. */
  class IndicesToIds {
    var types: seq<TypeId>
    var globals: seq<GlobalId>
    var funcs: seq<FunctionId>
    var tags: seq<TagId>

    constructor (types: seq<TypeId>, globals: seq<GlobalId>, funcs: seq<FunctionId>)
      ensures this.types == types && this.globals == globals && this.funcs == funcs && this.tags == []
    {
      this.types, this.globals, this.funcs, this.tags := types, globals, funcs, [];
    }

    /** Records `id` at the next raw tag index. */
    method PushTag(id: TagId)
      modifies this
      ensures tags == old(tags) + [id]
      ensures types == old(types) && globals == old(globals) && funcs == old(funcs)
    {
      tags := tags + [id];
    }
  }

  /** Emit time: the index assigned to each identifier, per entity kind; tags
      are numbered in the order they were pushed. */
  datatype IdsToIndices = IdsToIndices(
    types: map<TypeId, u32>,
    globals: map<GlobalId, u32>,
    funcs: map<FunctionId, u32>,
    tags: seq<TagId>)
  {
    function PushTag(id: TagId): IdsToIndices
    {
      this.(tags := tags + [id])
    }

    function GetTypeIndex(id: TypeId): u32
      requires id in types
    {
      types[id]
    }
  }

  /** A section written to the module being encoded. Only the tag section is modelled. */
  datatype Section = TagSection(entries: seq<Wasm.TagType>)

  /** The emit context: the index assigner and the sections written so far. */
  class EmitContext {
    var indices: IdsToIndices
    var sections: seq<Section>

    constructor (indices: IdsToIndices)
      ensures this.indices == indices && sections == []
    {
      this.indices, sections := indices, [];
    }
  }

  /** Every identifier the emit-time map numbers sits at that number in the
      parse-time table: parsing what was emitted resolves back to it. */
  ghost predicate ParseInvertsEmit<T>(index: map<T, u32>, table: seq<T>)
  {
    forall x :: x in index ==> index[x] < |table| && table[index[x]] == x
  }

  /** Every raw index of the parse-time table is numbered the same at emit
      time: emitting what was parsed reproduces the raw index. */
  ghost predicate EmitInvertsParse<T>(table: seq<T>, index: map<T, u32>)
  {
    forall k :: 0 <= k < |table| ==> table[k] in index && index[table[k]] == k
  }
}
