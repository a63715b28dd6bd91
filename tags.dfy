/** Tags of the exception-handling proposal: the module's tag table, the
    emission of the tag section and its parsing. */
module Tags {
  import opened Ints
  import opened Ids
  import opened Wrappers
  import Arena
  import Indices
  import Wasm

  datatype TagKind = Import(importId: ImportId) | Local

  /** A tag records its own identifier, the function type of its payload and
      whether it is imported or defined locally. */
  datatype Tag = Tag(id: TagId, ty: TypeId, kind: TagKind)

  /** A table is well formed when every entity, live or dead, records the
      identifier of the slot it occupies: `add` and `add_import` build each
      tag with the identifier `next_id` is about to hand out. */
  ghost predicate IdsMatchSlots(slots: seq<Arena.Slot<Tag>>)
  {
    forall i :: 0 <= i < |slots| ==> slots[i].item.id == TagId(i)
  }

  /** All the tags of a module, in a tombstone arena. */
  class ModuleTags {
    var arena: Arena.TombstoneArena<Tag>

    ghost predicate Valid()
      reads this
    {
      IdsMatchSlots(arena.slots)
    }

    /** `ModuleTags::new`: an empty table. */
    constructor ()
      ensures arena.slots == [] && Iter() == [] && Valid()
    {
      arena := Arena.TombstoneArena([]);
    }

    predicate Contains(id: TagId)
      reads this
    {
      arena.Contains(id.index)
    }

    /** `iter`: the live tags, in the order they were added. */
    function Iter(): (ts: seq<Tag>)
      reads this
      ensures |ts| <= arena.NextId()
    {
      Arena.LiveItemsLength(arena.slots);
      arena.Items()
    }

    /** `get`: the tag with identifier `id`, which must not have been deleted
        (indexing a deleted slot panics). */
    function Get(id: TagId): (t: Tag)
      reads this
      requires Contains(id)
      ensures t in Iter()
      ensures Valid() ==> t.id == id
    {
      Arena.LiveItemsContains(arena.slots, id.index);
      arena.Get(id.index)
    }

    /** Allocates `tag`'s slot; the identifier is the slot's index. */
    method Push(tag: Tag) returns (id: TagId)
      modifies this
      requires Valid() && tag.id == TagId(arena.NextId())
      ensures Valid()
      ensures id == tag.id && arena.slots == old(arena.slots) + [Arena.Live(tag)]
      ensures Iter() == old(Iter()) + [tag]
      ensures Contains(id) && Get(id) == tag
    {
      Arena.AllocItems(arena, tag);
      var (next, index) := arena.Alloc(tag);
      arena := next;
      id := TagId(index);
    }

    /** `add`: a new local tag of function type `ty`. */
    method Add(ty: TypeId) returns (id: TagId)
      modifies this
      requires Valid()
      ensures Valid()
      ensures id == TagId(old(arena.NextId()))
      ensures arena.slots == old(arena.slots) + [Arena.Live(Tag(id, ty, Local))]
      ensures Iter() == old(Iter()) + [Tag(id, ty, Local)]
    {
      var tag := Tag(TagId(arena.NextId()), ty, Local);
      id := Push(tag);
    }

    /** `add_import`: a new tag of function type `ty` imported by `import`. */
    method AddImport(ty: TypeId, importId: ImportId) returns (id: TagId)
      modifies this
      requires Valid()
      ensures Valid()
      ensures id == TagId(old(arena.NextId()))
      ensures arena.slots == old(arena.slots) + [Arena.Live(Tag(id, ty, Import(importId)))]
      ensures Iter() == old(Iter()) + [Tag(id, ty, Import(importId))]
    {
      var tag := Tag(TagId(arena.NextId()), ty, Import(importId));
      id := Push(tag);
    }

    /** `get_mut`: the caller edits the live tag `id` in place; `edited` is
        the tag as the edit leaves it. Every other slot is unchanged, `iter`
        shows the edit at the same position, and the table stays well formed
        as long as the edit keeps the tag's identifier. */
    method GetMut(id: TagId, edited: Tag)
      modifies this
      requires Contains(id)
      ensures arena.slots == old(arena.slots)[id.index := Arena.Live(edited)]
      ensures Contains(id) && Get(id) == edited
      ensures Iter() == Arena.LiveItems(old(arena.slots)[..id.index]) + [edited] + Arena.LiveItems(old(arena.slots)[id.index + 1..])
      ensures old(Iter()) == Arena.LiveItems(old(arena.slots)[..id.index]) + [old(Get(id))] + Arena.LiveItems(old(arena.slots)[id.index + 1..])
      ensures old(Valid()) && edited.id == id ==> Valid()
    {
      Arena.SetItems(arena, id.index, edited);
      arena := arena.Set(id.index, edited);
    }

    /** `delete`: the live tag `id` leaves `iter`, and only it; its slot is
        kept, dead, holding the tag as its (empty) `on_delete` left it, so
        the identifier is never handed out again. */
    method Delete(id: TagId)
      modifies this
      requires Contains(id)
      ensures arena.slots == old(arena.slots)[id.index := Arena.Dead(old(Get(id)))]
      ensures !Contains(id)
      ensures Iter() == Arena.LiveItems(old(arena.slots)[..id.index]) + Arena.LiveItems(old(arena.slots)[id.index + 1..])
      ensures old(Iter()) == Arena.LiveItems(old(arena.slots)[..id.index]) + [old(Get(id))] + Arena.LiveItems(old(arena.slots)[id.index + 1..])
      ensures |Iter()| == |old(Iter())| - 1
      ensures old(Valid()) ==> Valid()
    {
      var tag := arena.Get(id.index);
      Arena.DeleteItems(arena, id.index, tag);
      arena := arena.Delete(id.index, tag);
    }

    /** `emit`: when the module has local tags, each is numbered in turn and
        written as an exception tag of its type's index, in `iter` order, in
        one new tag section; imported tags are skipped, and a module without
        local tags writes nothing. */
    method Emit(cx: Indices.EmitContext)
      modifies cx
      requires TypesIndexed(LocalTags(Iter()), cx.indices.types)
      ensures LocalTags(Iter()) == [] ==> cx.indices == old(cx.indices) && cx.sections == old(cx.sections)
      ensures LocalTags(Iter()) != [] ==>
        && cx.indices == old(cx.indices).(tags := old(cx.indices.tags) + TagIdsOf(LocalTags(Iter())))
        && cx.sections == old(cx.sections) + [Indices.TagSection(TagEntries(LocalTags(Iter()), old(cx.indices.types)))]
    {
      var tags := LocalTags(Iter());
      if tags == [] {
        return;
      }
      var entries: seq<Wasm.TagType> := [];
      for k := 0 to |tags|
        invariant cx.indices == old(cx.indices).(tags := old(cx.indices.tags) + TagIdsOf(tags[..k]))
        invariant cx.sections == old(cx.sections)
        invariant entries == TagEntries(tags[..k], old(cx.indices.types))
      {
        var tag := tags[k];
        EmitStep(tags, k, old(cx.indices.types));
        cx.indices := cx.indices.PushTag(tag.id);
        var tyIdx := cx.indices.GetTypeIndex(tag.ty);
        entries := entries + [Wasm.TagType(Wasm.Exception, tyIdx)];
      }
      assert tags[..|tags|] == tags;
      cx.sections := cx.sections + [Indices.TagSection(entries)];
    }
  }

  /** The local tags of `ts`, in order. */
  function LocalTags(ts: seq<Tag>): (r: seq<Tag>)
    ensures |r| <= |ts|
    ensures forall i :: 0 <= i < |r| ==> r[i].kind.Local?
    decreases |ts|
  {
    if ts == [] then []
    else (if ts[0].kind.Local? then [ts[0]] else []) + LocalTags(ts[1..])
  }

  /** Exactly the local tags survive the filter, in their order. */
  lemma {:induction false} LocalTagsCharacterization(ts: seq<Tag>)
    ensures forall t :: t in LocalTags(ts) <==> t in ts && t.kind.Local?
    ensures LocalTags(ts) == [] <==> forall t :: t in ts ==> !t.kind.Local?
    ensures |LocalTags(ts)| <= |ts|
    decreases |ts|
  {
    if ts != [] {
      LocalTagsCharacterization(ts[1..]);
      assert forall t :: t in ts <==> t == ts[0] || t in ts[1..];
    }
  }

  /** Every tag's type has an emit-time index. */
  ghost predicate TypesIndexed(ts: seq<Tag>, types: map<TypeId, u32>)
  {
    forall i :: 0 <= i < |ts| ==> ts[i].ty in types
  }

  function TagIdsOf(ts: seq<Tag>): seq<TagId>
  {
    seq(|ts|, i requires 0 <= i < |ts| => ts[i].id)
  }

  /** Emitting one more tag appends its identifier and its entry. */
  lemma EmitStep(ts: seq<Tag>, k: nat, types: map<TypeId, u32>)
    requires k < |ts| && TypesIndexed(ts, types)
    ensures TagIdsOf(ts[..k + 1]) == TagIdsOf(ts[..k]) + [ts[k].id]
    ensures TypesIndexed(ts[..k + 1], types)
    ensures TagEntries(ts[..k + 1], types) == TagEntries(ts[..k], types) + [Wasm.TagType(Wasm.Exception, types[ts[k].ty])]
  {
    assert ts[..k + 1] == ts[..k] + [ts[k]];
  }

  function TypesOf(ts: seq<Tag>): seq<TypeId>
  {
    seq(|ts|, i requires 0 <= i < |ts| => ts[i].ty)
  }

  /** The tag-section entries written for `ts`. */
  function TagEntries(ts: seq<Tag>, types: map<TypeId, u32>): seq<Wasm.TagType>
    requires TypesIndexed(ts, types)
  {
    seq(|ts|, i requires 0 <= i < |ts| => Wasm.TagType(Wasm.Exception, types[ts[i].ty]))
  }

  // ---------------------------------------------------------------------------
  // Parsing
  // ---------------------------------------------------------------------------

  /** Why parsing the tag section stopped. */
  datatype ParseTagsError = MalformedEntry | Unresolved(cause: Indices.ResolutionError)

  /** An entry as the section reader yields it: `None` when it cannot be
      decoded. */
  type SectionEntry = Option<Wasm.TagType>

  predicate Resolvable(e: SectionEntry, table: seq<TypeId>)
  {
    e.Some? && e.value.funcTypeIdx < |table|
  }

  /** The types of the longest run of leading entries that decode and whose
      type index resolves: what parsing adds before it stops. */
  function ResolveTypes(section: seq<SectionEntry>, table: seq<TypeId>): (r: seq<TypeId>)
    ensures |r| <= |section|
    ensures forall i :: 0 <= i < |r| ==> Resolvable(section[i], table) && r[i] == table[section[i].value.funcTypeIdx]
    ensures |r| < |section| ==> !Resolvable(section[|r|], table)
    decreases |section|
  {
    if section == [] || !Resolvable(section[0], table) then []
    else [table[section[0].value.funcTypeIdx]] + ResolveTypes(section[1..], table)
  }

  /** The resolved prefix is determined by where the first failure is. */
  lemma ResolveTypesUnique(section: seq<SectionEntry>, table: seq<TypeId>, tys: seq<TypeId>)
    requires |tys| <= |section|
    requires forall i :: 0 <= i < |tys| ==> Resolvable(section[i], table) && tys[i] == table[section[i].value.funcTypeIdx]
    requires |tys| < |section| ==> !Resolvable(section[|tys|], table)
    ensures ResolveTypes(section, table) == tys
  {
  }

  /** The live slots `parse_tags` allocates from slot `base` on: one local tag
      per resolved type. */
  function LocalSlots(base: nat, tys: seq<TypeId>): seq<Arena.Slot<Tag>>
  {
    seq(|tys|, i requires 0 <= i < |tys| => Arena.Live(Tag(TagId(base + i), tys[i], Local)))
  }

  function TagIdsFrom(base: nat, n: nat): seq<TagId>
  {
    seq(n, i requires 0 <= i < n => TagId(base + i))
  }

  /** The error `parse_tags` stops with at entry `e`. */
  function EntryError(e: SectionEntry, table: seq<TypeId>): (err: ParseTagsError)
    requires !Resolvable(e, table)
    ensures err == MalformedEntry <==> e.None?
    ensures e.Some? ==>
      (e.value.funcTypeIdx >= |table| && err == Unresolved(Indices.GetType(table, e.value.funcTypeIdx).error))
  {
    if e.None? then MalformedEntry else Unresolved(Indices.UnknownType(e.value.funcTypeIdx))
  }

  /** `Module::parse_tags`: each entry's type index is resolved, a local tag
      of that type is added and its identifier recorded at the next raw tag
      index. The first entry that does not decode or resolve stops the
      parse with its error, keeping the tags added before it. */
  method ParseTags(tags: ModuleTags, section: seq<SectionEntry>, ids: Indices.IndicesToIds)
    returns (r: Result<(), ParseTagsError>)
    modifies tags, ids
    requires tags.Valid()
    ensures tags.Valid()
    ensures var n := |ResolveTypes(section, old(ids.types))|;
      && (r.Ok? <==> n == |section|)
      && (r.Err? ==> n < |section| && r.error == EntryError(section[n], old(ids.types)))
      && tags.arena.slots == old(tags.arena.slots) + LocalSlots(old(tags.arena.NextId()), ResolveTypes(section, old(ids.types)))
      && ids.tags == old(ids.tags) + TagIdsFrom(old(tags.arena.NextId()), n)
    ensures ids.types == old(ids.types) && ids.globals == old(ids.globals) && ids.funcs == old(ids.funcs)
  {
    var base := tags.arena.NextId();
    var tys: seq<TypeId> := [];
    var k := 0;
    while k < |section|
      invariant 0 <= k <= |section| && |tys| == k
      invariant forall i :: 0 <= i < k ==> Resolvable(section[i], ids.types) && tys[i] == ids.types[section[i].value.funcTypeIdx]
      invariant tags.Valid()
      invariant tags.arena.slots == old(tags.arena.slots) + LocalSlots(base, tys)
      invariant ids.tags == old(ids.tags) + TagIdsFrom(base, k)
      invariant ids.types == old(ids.types) && ids.globals == old(ids.globals) && ids.funcs == old(ids.funcs)
    {
      if section[k].None? {
        ResolveTypesUnique(section, ids.types, tys);
        return Err(MalformedEntry);
      }
      var entry := section[k].value;
      // `Exception` is the only tag kind, so the kind needs no check.
      var ty := Indices.GetType(ids.types, entry.funcTypeIdx);
      if ty.Err? {
        ResolveTypesUnique(section, ids.types, tys);
        return Err(Unresolved(ty.error));
      }
      var tagId := tags.Add(ty.value);
      ids.PushTag(tagId);
      assert LocalSlots(base, tys + [ty.value]) == LocalSlots(base, tys) + [Arena.Live(Tag(tagId, ty.value, Local))];
      assert TagIdsFrom(base, k + 1) == TagIdsFrom(base, k) + [tagId];
      tys := tys + [ty.value];
      k := k + 1;
    }
    ResolveTypesUnique(section, ids.types, tys);
    return Ok(());
  }

  /** The section as the reader yields it when every entry decodes. */
  function Read(entries: seq<Wasm.TagType>): seq<SectionEntry>
  {
    seq(|entries|, i requires 0 <= i < |entries| => Some(entries[i]))
  }

  /** Emit then parse: when the parse-time type table inverts the emit-time
      type map, parsing the section written for the local tags `ts` resolves
      every entry, to the tags' own types in order, so the parse succeeds and
      adds one local tag per emitted tag. */
  lemma TagSectionRoundTrip(ts: seq<Tag>, types: map<TypeId, u32>, table: seq<TypeId>)
    requires TypesIndexed(ts, types)
    requires Indices.ParseInvertsEmit(types, table)
    ensures ResolveTypes(Read(TagEntries(ts, types)), table) == TypesOf(ts)
  {
    var section := Read(TagEntries(ts, types));
    forall i | 0 <= i < |ts|
      ensures Resolvable(section[i], table) && TypesOf(ts)[i] == table[section[i].value.funcTypeIdx]
    {
      assert section[i].value.funcTypeIdx == types[ts[i].ty];
    }
    ResolveTypesUnique(section, table, TypesOf(ts));
  }

  /** Emit then parse through the methods: a module's local tags, emitted
      and parsed back into an empty table against a type table that inverts
      the emit-time type map, come back as local tags with the same types
      in the same order, numbered from zero. */
  method EmitThenParse(tags: ModuleTags, cx: Indices.EmitContext, table: seq<TypeId>)
    returns (parsed: ModuleTags, r: Result<(), ParseTagsError>)
    modifies cx
    requires TypesIndexed(LocalTags(tags.Iter()), cx.indices.types)
    requires Indices.ParseInvertsEmit(cx.indices.types, table)
    ensures r.Ok?
    ensures parsed.Iter() == Renumbered(LocalTags(tags.Iter()))
  {
    var locals := LocalTags(tags.Iter());
    var types := cx.indices.types;
    tags.Emit(cx);
    if locals == [] {
      // No section was written, so there is nothing to parse.
      parsed := new ModuleTags();
      return parsed, Ok(());
    }
    var section := cx.sections[|cx.sections| - 1];
    assert section.entries == TagEntries(locals, types);
    parsed, r := ParseEmitted(locals, types, table);
  }

  /** Parsing into a fresh collection the section written for the local tags
      `locals` succeeds and yields them renumbered from zero. */
  method ParseEmitted(locals: seq<Tag>, types: map<TypeId, u32>, table: seq<TypeId>)
    returns (parsed: ModuleTags, r: Result<(), ParseTagsError>)
    requires TypesIndexed(locals, types)
    requires Indices.ParseInvertsEmit(types, table)
    ensures r.Ok?
    ensures parsed.Iter() == Renumbered(locals)
  {
    TagSectionRoundTrip(locals, types, table);
    parsed := new ModuleTags();
    var ids := new Indices.IndicesToIds(table, [], []);
    r := ParseTags(parsed, Read(TagEntries(locals, types)), ids);
    LiveSlots(LocalSlots(0, TypesOf(locals)));
    assert parsed.arena.slots == LocalSlots(0, TypesOf(locals));
  }

  /** Local tags of the types of `ts`, numbered from zero. */
  function Renumbered(ts: seq<Tag>): seq<Tag>
  {
    seq(|ts|, i requires 0 <= i < |ts| => Tag(TagId(i), ts[i].ty, Local))
  }

  /** Slots that are all live show all their entities. */
  lemma {:induction false} LiveSlots(slots: seq<Arena.Slot<Tag>>)
    requires forall i :: 0 <= i < |slots| ==> slots[i].Live?
    ensures Arena.LiveItems(slots) == seq(|slots|, i requires 0 <= i < |slots| => slots[i].item)
    decreases |slots|
  {
    if slots != [] {
      LiveSlots(slots[1..]);
    }
  }
}
