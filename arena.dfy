/** The tombstone arena that owns a table's entities. Its implementation is
    not part of this model; it is stated by the operations its callers use:
    `next_id` then `alloc` appends, indexing a live slot, iteration over the
    live entries in allocation order, and `delete`, which keeps the slot but
    marks it dead after running the entity's `on_delete` hook. */
module Arena {

  datatype Slot<T> = Live(item: T) | Dead(item: T)

  /** The entries of a slot sequence that are still live, in slot order. */
  function LiveItems<T>(slots: seq<Slot<T>>): seq<T>
    decreases |slots|
  {
    if slots == [] then []
    else (if slots[0].Live? then [slots[0].item] else []) + LiveItems(slots[1..])
  }

  datatype TombstoneArena<T> = TombstoneArena(slots: seq<Slot<T>>)
  {
    /** The identifier the next `Alloc` will return. */
    function NextId(): nat
    {
      |slots|
    }

    predicate Contains(i: nat)
    {
      i < |slots| && slots[i].Live?
    }

    /** Stores `x` in a fresh slot and returns it with its identifier. */
    function Alloc(x: T): (TombstoneArena<T>, nat)
    {
      (TombstoneArena(slots + [Live(x)]), |slots|)
    }

    function Get(i: nat): T
      requires Contains(i)
    {
      slots[i].item
    }

    /** Writes back an entity edited in place. */
    function Set(i: nat, x: T): TombstoneArena<T>
      requires Contains(i)
    {
      TombstoneArena(slots[i := Live(x)])
    }

    /** Marks slot `i` dead, keeping the entity as its `on_delete` hook left it. */
    function Delete(i: nat, cleared: T): TombstoneArena<T>
      requires Contains(i)
    {
      TombstoneArena(slots[i := Dead(cleared)])
    }

    /** `iter`: the live entities, in allocation order. */
    function Items(): seq<T>
    {
      LiveItems(slots)
    }
  }

  lemma {:induction false} LiveItemsConcat<T>(a: seq<Slot<T>>, b: seq<Slot<T>>)
    ensures LiveItems(a + b) == LiveItems(a) + LiveItems(b)
    decreases |a|
  {
    if a != [] {
      assert (a + b)[1..] == a[1..] + b;
      LiveItemsConcat(a[1..], b);
    } else {
      assert a + b == b;
    }
  }

  /** Splitting the live entries around slot `i`. */
  lemma {:induction false} LiveItemsAround<T>(slots: seq<Slot<T>>, i: nat)
    requires i < |slots|
    ensures LiveItems(slots) == LiveItems(slots[..i]) + LiveItems([slots[i]]) + LiveItems(slots[i + 1..])
  {
    var pre, mid, post := slots[..i], [slots[i]], slots[i + 1..];
    assert slots == (pre + mid) + post;
    LiveItemsConcat(pre + mid, post);
    LiveItemsConcat(pre, mid);
  }

  /** Replacing slot `i` changes the live entries at slot `i` only. */
  lemma {:induction false} LiveItemsUpdate<T>(slots: seq<Slot<T>>, i: nat, s: Slot<T>)
    requires i < |slots|
    ensures LiveItems(slots[i := s]) == LiveItems(slots[..i]) + LiveItems([s]) + LiveItems(slots[i + 1..])
  {
    LiveItemsAround(slots[i := s], i);
    assert slots[i := s][..i] == slots[..i];
    assert slots[i := s][i + 1..] == slots[i + 1..];
  }

  /** There are no more live entries than slots. */
  lemma {:induction false} LiveItemsLength<T>(slots: seq<Slot<T>>)
    ensures |LiveItems(slots)| <= |slots|
    decreases |slots|
  {
    if slots != [] {
      LiveItemsLength(slots[1..]);
    }
  }

  /** A live slot's entity is among the live entries. */
  lemma {:induction false} LiveItemsContains<T>(slots: seq<Slot<T>>, i: nat)
    requires i < |slots| && slots[i].Live?
    ensures slots[i].item in LiveItems(slots)
  {
    LiveItemsAround(slots, i);
  }

  /** Allocating appends exactly the new entity to the live entries. */
  lemma {:induction false} AllocItems<T>(a: TombstoneArena<T>, x: T)
    ensures a.Alloc(x).0.Items() == a.Items() + [x]
  {
    LiveItemsConcat(a.slots, [Live(x)]);
  }

  /** Deleting a live entity removes exactly it from the live entries. */
  lemma {:induction false} DeleteItems<T>(a: TombstoneArena<T>, i: nat, cleared: T)
    requires a.Contains(i)
    ensures a.Items() == LiveItems(a.slots[..i]) + [a.Get(i)] + LiveItems(a.slots[i + 1..])
    ensures a.Delete(i, cleared).Items() == LiveItems(a.slots[..i]) + LiveItems(a.slots[i + 1..])
    ensures |a.Delete(i, cleared).Items()| == |a.Items()| - 1
  {
    LiveItemsAround(a.slots, i);
    LiveItemsUpdate(a.slots, i, Dead(cleared));
  }

  /** Editing a live entity in place replaces it, at the same position, in
      the live entries. */
  lemma {:induction false} SetItems<T>(a: TombstoneArena<T>, i: nat, x: T)
    requires a.Contains(i)
    ensures a.Items() == LiveItems(a.slots[..i]) + [a.Get(i)] + LiveItems(a.slots[i + 1..])
    ensures a.Set(i, x).Items() == LiveItems(a.slots[..i]) + [x] + LiveItems(a.slots[i + 1..])
  {
    LiveItemsAround(a.slots, i);
    LiveItemsUpdate(a.slots, i, Live(x));
  }
}
