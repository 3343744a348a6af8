/**
 * The store: at most one value per concrete type, keyed by the type's
 * identity (src/lib.rs:145-482).
 *
 * `Map` owns a table from type identity to boxed value. Its invariant is
 * that every boxed value is tagged with the key it is stored under; every
 * typed operation keeps it, and so every downcast it performs is sound.
 */
module AnyMap {
  import opened Wrappers
  import opened TypeIds
  import opened Erased

  /** The safety condition of the raw table: each value sits under its own type's key. */
  ghost predicate KeysMatchTags<P>(raw: map<TypeKey, Value<P>>)
  {
    forall k :: k in raw ==> raw[k].tag == k
  }

  /**
   * A view of one type's slot, obtained from `entry`. Rust's borrow keeps the
   * table unchanged while the view lives; `Map.Current` states that.
   */
  datatype Entry = Occupied(key: TypeKey) | Vacant(key: TypeKey)

  /** A mutable reference `&mut T` into the slot of the type `key`. */
  datatype MutRef = MutRef(key: TypeKey)

  /** The table after `extend` has inserted `items` in order, each under its own tag. */
  function Extended<P>(raw: map<TypeKey, Value<P>>, items: seq<Value<P>>): (r: map<TypeKey, Value<P>>)
    ensures r.Keys == raw.Keys + set i | 0 <= i < |items| :: items[i].tag
  {
    if items == [] then raw
    else
      var last := items[|items| - 1];
      Extended(raw, items[..|items| - 1])[last.tag := last]
  }

  /** The position of the last item tagged `k`, if any. */
  function LastTagged<P>(items: seq<Value<P>>, k: TypeKey): (r: Option<nat>)
    ensures r.Some? ==> r.value < |items| && items[r.value].tag == k
    ensures r.Some? ==> forall j :: r.value < j < |items| ==> items[j].tag != k
    ensures r.None? ==> forall j :: 0 <= j < |items| ==> items[j].tag != k
  {
    if items == [] then None
    else if items[|items| - 1].tag == k then Some(|items| - 1)
    else LastTagged(items[..|items| - 1], k)
  }

  /** `extend` keeps the key/tag invariant: each item goes under its own tag. */
  lemma {:induction false} ExtendedKeepsTags<P>(raw: map<TypeKey, Value<P>>, items: seq<Value<P>>)
    requires KeysMatchTags(raw)
    ensures KeysMatchTags(Extended(raw, items))
  {
    if items != [] {
      ExtendedKeepsTags(raw, items[..|items| - 1]);
    }
  }

  /**
   * Last write wins: after `extend`, a type's slot holds the last item of
   * that type, or its earlier value when no item has that type.
   */
  lemma {:induction false} ExtendedAt<P>(raw: map<TypeKey, Value<P>>, items: seq<Value<P>>, k: TypeKey)
    ensures k in Extended(raw, items) <==> k in raw || LastTagged(items, k).Some?
    ensures LastTagged(items, k).Some? ==> Extended(raw, items)[k] == items[LastTagged(items, k).value]
    ensures LastTagged(items, k).None? && k in raw ==> Extended(raw, items)[k] == raw[k]
  {
    if items != [] {
      var init := items[..|items| - 1];
      ExtendedAt(raw, init, k);
      if items[|items| - 1].tag != k {
        assert LastTagged(items, k) == LastTagged(init, k);
        if LastTagged(init, k).Some? {
          assert items[LastTagged(init, k).value] == init[LastTagged(init, k).value];
        }
      }
    }
  }

  /**
   * `extend` as the code is written: `item.type_id()` on a `Box<A>` resolves
   * to `Any::type_id` of the box itself, so every item is stored under the one
   * key `boxKey`, the identity of the type `Box<A>`.
   */
  function ExtendedUnderBoxKey<P>(raw: map<TypeKey, Value<P>>, items: seq<Value<P>>, boxKey: TypeKey): (r: map<TypeKey, Value<P>>)
    ensures items == [] ==> r == raw
    ensures items != [] ==> r == raw[boxKey := items[|items| - 1]]
  {
    if items == [] then raw
    else ExtendedUnderBoxKey(raw, items[..|items| - 1], boxKey)[boxKey := items[|items| - 1]]
  }

  /**
   * The input that shows it: extending an empty store with two values of
   * distinct types stores neither under its own type and breaks the key/tag
   * invariant, so a later `get::<Box<A>>` would downcast the wrong type.
   */
  lemma ExtendUnderBoxKeyBreaksTags<P>(boxKey: TypeKey, t: TypeKey, u: TypeKey, x: P, y: P)
    requires t != u && boxKey != t && boxKey != u
    ensures var m := ExtendedUnderBoxKey(map[], [IntoBox(t, x), IntoBox(u, y)], boxKey);
      && t !in m && u !in m
      && m == map[boxKey := IntoBox(u, y)]
      && !KeysMatchTags(m)
  {
    var m := ExtendedUnderBoxKey(map[], [IntoBox(t, x), IntoBox(u, y)], boxKey);
    assert boxKey in m && m[boxKey].tag != boxKey;
  }

  /** Removing a present key shrinks a table by one. */
  lemma RemoveCard<P>(raw: map<TypeKey, Value<P>>, k: TypeKey)
    requires k in raw
    ensures |raw - {k}| == |raw| - 1
  {
  }

  /** A table is empty exactly when it has no key. */
  lemma EmptyIffNoKey<P>(raw: map<TypeKey, Value<P>>)
    ensures |raw| == 0 <==> forall k :: k !in raw
  {
  }

  class Map<P> {
    var raw: map<TypeKey, Value<P>>

    ghost predicate Valid()
      reads this
    {
      KeysMatchTags(raw)
    }

    /** `new` (and `Default`): an empty store. */
    constructor ()
      ensures Valid() && raw == map[]
    {
      raw := map[];
    }

    /** `with_capacity`: an empty store; the capacity is not modelled. */
    constructor WithCapacity(capacity: nat)
      ensures Valid() && raw == map[]
    {
      raw := map[];
    }

    /** `from_raw`: the caller must guarantee that every key matches its value's type. */
    constructor FromRaw(raw: map<TypeKey, Value<P>>)
      requires KeysMatchTags(raw)
      ensures Valid() && this.raw == raw
    {
      this.raw := raw;
    }

    /** `reserve`: may grow the capacity, never the contents. */
    method Reserve(additional: nat)
      modifies this
      ensures raw == old(raw)
    {
    }

    /** `shrink_to_fit`: may shrink the capacity, never loses an entry. */
    method ShrinkToFit()
      modifies this
      ensures raw == old(raw)
    {
    }

    /** The number of types that have a value stored. */
    function Len(): (n: nat)
      reads this
      ensures n == |raw.Keys|
      ensures n == 0 <==> raw == map[]
    {
      |raw|
    }

    /** True exactly when no type has a value stored. */
    function IsEmpty(): (e: bool)
      reads this
      ensures e <==> Len() == 0
      ensures e <==> forall t :: t !in raw
    {
      EmptyIffNoKey(raw);
      |raw| == 0
    }

    /** `clear`: every slot is removed. */
    method Clear()
      modifies this
      ensures Valid() && raw == map[]
      ensures Len() == 0 && IsEmpty()
      ensures forall t :: !Contains(t)
    {
      raw := map[];
    }

    /** `contains::<T>`: whether the type `t` has a value stored. */
    function Contains(t: TypeKey): (c: bool)
      reads this
      ensures c <==> t in raw.Keys
      ensures c && Valid() ==> raw[t].tag == t
    {
      t in raw
    }

    /** `get::<T>`: the value of type `t`, looked up by `t`'s key alone. */
    function Get(t: TypeKey): (r: Option<P>)
      reads this
      requires Valid()
      ensures r.Some? <==> Contains(t)
      ensures r.Some? ==> raw[t] == IntoBox(t, r.value)
    {
      if t in raw then Some(Unbox(raw[t], t)) else None
    }

    /** `get_mut::<T>`: a mutable reference to the slot of type `t`, if it is occupied. */
    function GetMut(t: TypeKey): (r: Option<MutRef>)
      reads this
      requires Valid()
      ensures r.Some? <==> Contains(t)
      ensures r.Some? ==> r.value.key == t && Deref(r.value) == Get(t).value
    {
      if t in raw then Some(MutRef(t)) else None
    }

    /** Reading through a mutable reference: the value in its slot, downcast. */
    function Deref(r: MutRef): (x: P)
      reads this
      requires Valid() && r.key in raw
      ensures raw[r.key] == IntoBox(r.key, x)
    {
      Unbox(raw[r.key], r.key)
    }

    /** Writing through a mutable reference: only its own slot changes. */
    method Assign(r: MutRef, x: P)
      requires Valid() && r.key in raw
      modifies this
      ensures Valid() && raw == old(raw)[r.key := IntoBox(r.key, x)]
      ensures Deref(r) == x && Len() == old(Len())
    {
      raw := raw[r.key := IntoBox(r.key, x)];
    }

    /**
     * `insert::<T>`: the slot of `t` now holds `x`; the previous value of that
     * type is returned; no other slot changes.
     */
    method Insert(t: TypeKey, x: P) returns (prev: Option<P>)
      requires Valid()
      modifies this
      ensures Valid() && raw == old(raw)[t := IntoBox(t, x)]
      ensures prev == old(Get(t))
      ensures Get(t) == Some(x)
      ensures forall u :: u != t ==> Get(u) == old(Get(u))
      ensures Len() == old(Len()) + (if prev.None? then 1 else 0)
    {
      prev := if t in raw then Some(Unbox(raw[t], t)) else None;
      raw := raw[t := IntoBox(t, x)];
    }

    /**
     * `remove::<T>`: the slot of `t` is emptied and its value returned; on an
     * empty slot nothing changes.
     */
    method Remove(t: TypeKey) returns (prev: Option<P>)
      requires Valid()
      modifies this
      ensures Valid() && raw == old(raw) - {t}
      ensures prev == old(Get(t))
      ensures Get(t) == None && !Contains(t)
      ensures forall u :: u != t ==> Get(u) == old(Get(u))
      ensures prev.None? ==> raw == old(raw)
      ensures Len() == old(Len()) - (if prev.Some? then 1 else 0)
    {
      if t in raw {
        prev := Some(Unbox(raw[t], t));
        RemoveCard(raw, t);
      } else {
        prev := None;
        assert raw - {t} == raw;
      }
      raw := raw - {t};
    }

    /** `entry::<T>`: one lookup decides whether the slot of `t` is occupied. */
    function EntryOf(t: TypeKey): (e: Entry)
      reads this
      ensures e.key == t
      ensures e.Occupied? <==> Contains(t)
      ensures Current(e)
    {
      if t in raw then Occupied(t) else Vacant(t)
    }

    /** The view `e` still describes its slot, as the borrow it holds guarantees. */
    ghost predicate Current(e: Entry)
      reads this
    {
      e.Occupied? <==> e.key in raw
    }

    /** `OccupiedEntry::get`: the value in the occupied slot. */
    function OccupiedGet(e: Entry): (x: P)
      reads this
      requires Valid() && e.Occupied? && Current(e)
      ensures Get(e.key) == Some(x)
    {
      Unbox(raw[e.key], e.key)
    }

    /**
     * `OccupiedEntry::get_mut` and `into_mut`: a mutable reference to the
     * occupied slot (the two differ only in how long the borrow lasts).
     */
    function OccupiedGetMut(e: Entry): (r: MutRef)
      reads this
      requires Valid() && e.Occupied? && Current(e)
      ensures r.key == e.key && r.key in raw
      ensures Deref(r) == OccupiedGet(e)
    {
      MutRef(e.key)
    }

    /** `OccupiedEntry::insert`: replace the value, return the old one; the slot stays occupied. */
    method OccupiedInsert(e: Entry, x: P) returns (prev: P)
      requires Valid() && e.Occupied? && Current(e)
      modifies this
      ensures Valid() && raw == old(raw)[e.key := IntoBox(e.key, x)]
      ensures Some(prev) == old(Get(e.key))
      ensures Current(e) && OccupiedGet(e) == x
      ensures Len() == old(Len())
    {
      prev := Unbox(raw[e.key], e.key);
      raw := raw[e.key := IntoBox(e.key, x)];
    }

    /** `OccupiedEntry::remove`: take the value out; the slot becomes empty. */
    method OccupiedRemove(e: Entry) returns (x: P)
      requires Valid() && e.Occupied? && Current(e)
      modifies this
      ensures Valid() && raw == old(raw) - {e.key}
      ensures Some(x) == old(Get(e.key))
      ensures !Contains(e.key)
      ensures Len() == old(Len()) - 1
    {
      x := Unbox(raw[e.key], e.key);
      RemoveCard(raw, e.key);
      raw := raw - {e.key};
    }

    /** `VacantEntry::insert`: fill the empty slot and return a reference to it. */
    method VacantInsert(e: Entry, x: P) returns (r: MutRef)
      requires Valid() && e.Vacant? && Current(e)
      modifies this
      ensures Valid() && raw == old(raw)[e.key := IntoBox(e.key, x)]
      ensures r.key == e.key && r.key in raw && Deref(r) == x
      ensures Len() == old(Len()) + 1
    {
      raw := raw[e.key := IntoBox(e.key, x)];
      r := MutRef(e.key);
    }

    /**
     * `or_insert`: an occupied slot is left untouched and `default` unused; an
     * empty one receives `default`. Either way the reference is to `e`'s slot.
     */
    method OrInsert(e: Entry, default: P) returns (r: MutRef)
      requires Valid() && Current(e)
      modifies this
      ensures Valid() && r.key == e.key && r.key in raw
      ensures e.Occupied? ==> raw == old(raw)
      ensures e.Vacant? ==> raw == old(raw)[e.key := IntoBox(e.key, default)] && Deref(r) == default
      ensures Len() == old(Len()) + (if e.Vacant? then 1 else 0)
    {
      match e
      case Occupied(_) =>
        r := OccupiedGetMut(e);
      case Vacant(_) =>
        r := VacantInsert(e, default);
    }

    /** `or_insert_with`: as `OrInsert`, with the value produced only when the slot is empty. */
    method OrInsertWith(e: Entry, produce: () -> P) returns (r: MutRef)
      requires Valid() && Current(e)
      modifies this
      ensures Valid() && r.key == e.key && r.key in raw
      ensures e.Occupied? ==> raw == old(raw)
      ensures e.Vacant? ==> raw == old(raw)[e.key := IntoBox(e.key, produce())] && Deref(r) == produce()
      ensures Len() == old(Len()) + (if e.Vacant? then 1 else 0)
    {
      match e
      case Occupied(_) =>
        r := OccupiedGetMut(e);
      case Vacant(_) =>
        r := VacantInsert(e, produce());
    }

    /**
     * `or_default`: as `OrInsert`, with the default value of the slot's type;
     * `defaultOf(t)` is that value for the type `t`.
     */
    method OrDefault(e: Entry, defaultOf: TypeKey -> P) returns (r: MutRef)
      requires Valid() && Current(e)
      modifies this
      ensures Valid() && r.key == e.key && r.key in raw
      ensures e.Occupied? ==> raw == old(raw)
      ensures e.Vacant? ==> raw == old(raw)[e.key := IntoBox(e.key, defaultOf(e.key))]
      ensures Len() == old(Len()) + (if e.Vacant? then 1 else 0)
    {
      match e
      case Occupied(_) =>
        r := OccupiedGetMut(e);
      case Vacant(_) =>
        r := VacantInsert(e, defaultOf(e.key));
    }

    /**
     * `and_modify`: on an occupied slot `f` is applied once to its value; an
     * empty slot stays empty and nothing changes. The same view is returned.
     */
    method AndModify(e: Entry, f: P -> P) returns (e': Entry)
      requires Valid() && Current(e)
      modifies this
      ensures Valid() && e' == e && Current(e')
      ensures e.Occupied? ==> raw == old(raw)[e.key := IntoBox(e.key, f(old(OccupiedGet(e))))]
      ensures e.Vacant? ==> raw == old(raw)
      ensures Len() == old(Len())
    {
      e' := e;
      if e.Occupied? {
        var r := OccupiedGetMut(e);
        Assign(r, f(Deref(r)));
      }
    }

    /**
     * `extend`: each item is inserted under its own type's key, in order; a
     * displaced value is dropped without being returned.
     */
    method Extend(items: seq<Value<P>>)
      requires Valid()
      modifies this
      ensures Valid() && raw == Extended(old(raw), items)
    {
      for i := 0 to |items|
        invariant raw == Extended(old(raw), items[..i])
      {
        assert items[..i + 1][..i] == items[..i];
        raw := raw[items[i].tag := items[i]];
      }
      assert items[..|items|] == items;
      ExtendedKeepsTags(old(raw), items);
    }
  }
}
