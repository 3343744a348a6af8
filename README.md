# anymap in Dafny

A model of `anymap`'s store (`src/lib.rs`). The store holds at most one value of each concrete type. Callers insert, look up, mutate and remove a value by naming its type instead of a runtime key.

Rust erases each value's type behind a `Box<A>` and later recovers it with an unchecked downcast. Here a stored value is instead a `Value(tag, payload)`: the tag is the identity (`TypeKey`) of its concrete type. The unchecked downcast becomes `Erased.Unbox`, which requires the tag to be the expected type. The store's invariant `Map.Valid()` says every value sits under its own tag's key, and that invariant discharges every such obligation.

Files:

- `wrappers.dfy`: `Option`.
- `type_ids.dfy` (module `TypeIds`):
  - 64-bit type identities;
  - the eight-byte little-endian codec;
  - the pass-through `TypeIdHasher` class and what hashing one identity computes.
- `erased.dfy` (module `Erased`): the tagged value, boxing, and the unchecked downcast.
- `anymap.dfy` (module `AnyMap`):
  - the `Map` class, with field `raw: map<TypeKey, Value<P>>` updated in place;
  - the `Entry` view (`Occupied(key) | Vacant(key)`);
  - the mutable reference `MutRef(key)` that `get_mut`, `into_mut`, `or_insert*` and `VacantEntry::insert` return;
  - the specification of `extend`, and lemmas about it.
- `scenarios.dfy` (module `Scenarios`): clients that use only the contracts above.
  - `DocExample` replays the documentation example (src/lib.rs:170-188).
  - `SixTypes`, `OccupiedViews` and `VacantAndOrInsert` replay the entry test (src/lib.rs:529-591).
  - `DefaultIsEmpty` replays the default-construction test (src/lib.rs:599-603).
  - The rest are further scenarios of the documented contracts, which the crate does not test: insert/replace/remove, `or_insert` twice, `and_modify` on a vacant slot, insertion order, and `clear`.
  - `ExtendLastWins` exercises the corrected `extend` (see "## Findings"), not the code as written.

Type parameters become explicit arguments. `get::<T>()` is `m.Get(t)`, where `t` is `T`'s identity, and `insert::<T>(x)` is `m.Insert(t, x)`. The entry methods take the entry, and they require `Current(e)`: the entry still describes its slot. The Rust borrow held by an entry guarantees this.

## Model

| member | source | states |
|---|---|---|
| `TypeIds.LeValue` | src/lib.rs:505-506 | The number that bytes denote fits in the width of those bytes. |
| `TypeIds.LeBytes` | src/lib.rs:653-658 | Encoding a number at width n yields exactly n bytes. |
| `TypeIds.LeValueOfBytes` | src/lib.rs:653-658 | Encoding a number that fits in n bytes and then decoding it gives the number back. |
| `TypeIds.LeBytesOfValue` | src/lib.rs:505-506 | Decoding bytes and re-encoding at the same width gives the bytes back, so decoding is injective. |
| `TypeIds.FromLeBytes` | src/lib.rs:505-506 | `from_ne_bytes` on eight bytes gives the word whose encoding is exactly those bytes. |
| `TypeIds.ToLeBytes` | src/lib.rs:653-658 | A word is written as eight bytes that decode back to that word. |
| `TypeIds.TypeIdHasher.constructor` | src/lib.rs:492-495 | A default hasher's state, and so its `finish`, is 0. |
| `TypeIds.TypeIdHasher.Finish` | src/lib.rs:509-510 | `finish` reports the hasher's current state: the last eight-byte write, decoded, or 0 when there was none. |
| `TypeIds.TypeIdHasher.Write` | src/lib.rs:498-507 | A write of exactly 8 bytes sets the state to those bytes decoded as a `u64`. A write of any other length leaves the state unchanged. |
| `TypeIds.HashOneWrite` | src/lib.rs:484-511 | Default hasher, one write, then `finish`: 8 bytes hash to their decoded word (which re-encodes to them); any other input hashes to 0. |
| `TypeIds.HashTypeKey` | src/lib.rs:648-665 | Hashing a type identity gives back the identity itself, so distinct types never share a hash. |
| `Erased.IntoBox` | src/lib.rs:239-242 | `into_box` produces a value tagged with its own type's identity. |
| `Erased.Unbox` | src/lib.rs:222-225 | The unchecked downcast may only be applied to a value whose tag is the expected type, and it recovers the value that was boxed. |
| `Erased.UnboxIntoBox` | src/lib.rs:239-244 | Boxing a value and downcasting it to the same type gives the value back. |
| `AnyMap.Extended` | src/lib.rs:357-363 | The table after the corrected `extend`: its types are the earlier ones plus the type of every item. |
| `AnyMap.ExtendedUnderBoxKey` | src/lib.rs:357-363 | The table after `extend` as written: unchanged for no items, otherwise updated only at `Box<A>`'s identity, which holds the last item. |
| `AnyMap.LastTagged` | src/lib.rs:360-362 | The position of the last item of a given type: it has that type and no later item does, or else no item has that type. |
| `AnyMap.ExtendedKeepsTags` | src/lib.rs:357-363 | `extend`, keying each item by its own type, preserves the key/tag invariant. |
| `AnyMap.ExtendedAt` | src/lib.rs:357-363 | After `extend`, a type is present iff it was before or some item has it. Its value is the last such item (last write wins), otherwise the earlier value. |
| `AnyMap.ExtendUnderBoxKeyBreaksTags` | src/lib.rs:357-363 | As written, extending with two values of distinct types stores neither under its own type and breaks the key/tag invariant. |
| `AnyMap.Map.constructor` | src/lib.rs:58-64 | `new` (and `Default`, src/lib.rs:123-128) creates an empty store that satisfies the invariant. |
| `AnyMap.Map.WithCapacity` | src/lib.rs:66-72 | `with_capacity` creates an empty store that satisfies the invariant. |
| `AnyMap.Map.FromRaw` | src/lib.rs:347-354 | `from_raw` is allowed only when every key matches its value's type; the store then holds exactly that table. |
| `AnyMap.Map.Reserve` | src/lib.rs:80-90 | `reserve` never changes the contents. |
| `AnyMap.Map.ShrinkToFit` | src/lib.rs:92-98 | `shrink_to_fit` never loses or changes an entry. |
| `AnyMap.Map.Len` | src/lib.rs:104-108 | `len` is the number of distinct types stored, and is 0 exactly when the table is empty. |
| `AnyMap.Map.Contains` | src/lib.rs:256-260 | `contains::<T>` holds exactly when `T`'s key is present; under the invariant, the value there is tagged `T`. |
| `AnyMap.Map.IsEmpty` | src/lib.rs:110-114 | True exactly when `len` is 0, and exactly when no type is stored. |
| `AnyMap.Map.Clear` | src/lib.rs:116-120 | After `clear`, no type is stored, `len` is 0 and `is_empty` holds. |
| `AnyMap.Map.Get` | src/lib.rs:220-225 | `get::<T>` is `Some` exactly when `T` is contained, and then returns the value stored under `T`'s key and tagged `T`. Only `T`'s slot is consulted. |
| `AnyMap.Map.GetMut` | src/lib.rs:227-233 | `get_mut::<T>` is `Some` exactly when `T` is contained. The reference is to `T`'s slot and reads the value `get` returns. |
| `AnyMap.Map.Deref` | src/lib.rs:449-453 | Reading through a mutable reference yields the value in its slot, and that value has the slot's type. |
| `AnyMap.Map.Assign` | src/lib.rs:549-556 | Writing through a mutable reference replaces only its own slot's value; the invariant and `len` are kept. |
| `AnyMap.Map.Insert` | src/lib.rs:235-244 | Returns the previous value of `T` or `None`. Afterwards `get::<T>` yields the new value and every other type's slot is unchanged. `len` grows by 1 exactly when the result is `None`. |
| `AnyMap.Map.Remove` | src/lib.rs:248-254 | Returns the current value of `T` or `None`. Afterwards `get::<T>` is `None`, `contains::<T>` is false and other slots are unchanged. On an absent type the store is unchanged. `len` drops by 1 exactly when a value was returned. |
| `AnyMap.Map.EntryOf` | src/lib.rs:262-275 | `entry::<T>` is `Occupied` iff `T` is contained, and the view is for `T`'s slot. |
| `AnyMap.Map.OccupiedGet` | src/lib.rs:443-447 | An occupied view reads the value that `get::<T>` returns. |
| `AnyMap.Map.OccupiedGetMut` | src/lib.rs:449-460 | `get_mut` and `into_mut` on an occupied view give a reference to that slot, which holds the view's value. |
| `AnyMap.Map.OccupiedInsert` | src/lib.rs:462-466 | Replaces the value and returns the old one. The slot stays occupied and `len` is unchanged. |
| `AnyMap.Map.OccupiedRemove` | src/lib.rs:468-472 | Takes the value out and returns it. The type is then absent and `len` drops by 1. |
| `AnyMap.Map.VacantInsert` | src/lib.rs:475-481 | Fills the empty slot and returns a reference to it that reads the new value. `len` grows by 1. |
| `AnyMap.Map.OrInsert` | src/lib.rs:393-401 | On `Occupied`, the store is untouched and the default is unused. On `Vacant`, the default is inserted. Either way the reference is to `T`'s slot, so `len` grows only in the vacant case. |
| `AnyMap.Map.OrInsertWith` | src/lib.rs:403-411 | As `or_insert`; the producer's value is stored only when the slot is vacant. |
| `AnyMap.Map.OrDefault` | src/lib.rs:413-421 | As `or_insert`, with the type's default value stored only when the slot is vacant. |
| `AnyMap.Map.AndModify` | src/lib.rs:423-436 | Returns the same view. On `Occupied`, the slot holds `f` applied once to the old value. On `Vacant`, nothing changes. |
| `AnyMap.Map.Extend` | src/lib.rs:357-363 | The loop inserts every item under its own tag, in order. The result is `Extended` of the old table, and the invariant is kept. |
| `Scenarios.DocExample` | src/lib.rs:170-188 | After inserting and removing `42i32`, `get::<i32>` is `None`. After inserting `Foo { str: "foo" }` and pushing `'t'` through `get_mut`, `get::<Foo>` is `Foo { str: "foot" }`. |
| `Scenarios.SixTypes` | src/lib.rs:529-535 | Inserting six distinct types into a new store returns `None` each time and leaves `len` at 6. |
| `Scenarios.OccupiedViews` | src/lib.rs:537-570 | Occupied-view replace, update and remove give `A(100)`, `B(200)`, no `C`, and `len` 5. |
| `Scenarios.VacantAndOrInsert` | src/lib.rs:573-591 | A vacant insert gives `J(1000)`. `or_insert` then bumps the existing `B` to 201 and inserts `C(300)`, bumped to 301. `len` ends at 7. |
| `Scenarios.DefaultIsEmpty` | src/lib.rs:599-603 | A default store has `len` 0 and is empty. |
| `Scenarios.InsertReplaceRemove` | src/lib.rs:235-254 | A further scenario of the documented `insert`/`remove` contracts. The first insert returns `None`, a second insert returns the replaced `42`, and `remove` returns `7`. |

## Left out

- The backing hash table, its buckets and the `std`/`hashbrown` feature selection (src/lib.rs:14-49) are not modelled. The table is Dafny's built-in `map`.
- Capacity is not modelled. This covers `capacity` and the sizing done by `with_capacity`, `reserve` and `shrink_to_fit`, including `reserve`'s panic on allocation-size overflow (src/lib.rs:74-98). Only the fact that the contents do not change is modelled.
- All stored types share one payload type `P`. The identity of each value's concrete type is carried by its tag alone, so a type's payload is not restricted to that type's own values.
- `mod any` (the `UncheckedAnyExt`, `IntoBox` and `CloneAny` traits) is not part of this model. It is replaced by `Erased.Value`, `Erased.IntoBox` and `Erased.Unbox`.
- The six `Map<dyn ...>` varieties, `Send`/`Sync` and `Debug` (src/lib.rs:145-163, 625-646) are compile-time facts with no behaviour.
- `Clone` (src/lib.rs:196-204) is not modelled: copying a value-typed table is trivially a faithful copy.
- `as_raw`, `as_raw_mut` and `into_raw` (src/lib.rs:277-329) are not modelled. `as_raw_mut` allows unchecked changes to the table. Only `from_raw`'s safety condition is kept, as `FromRaw`'s precondition.
- The byte order of `u64::from_ne_bytes` (src/lib.rs:506) is fixed to little-endian.
- A type identity is taken to be 64 bits and hashed as one eight-byte write, as the hasher's test assumes (src/lib.rs:653-658).
- Borrow lifetimes are not modelled. An entry or a mutable reference is a key. `Map.Current` states the guarantee that the borrow gives. `into_mut` is the same reference as `get_mut` (`OccupiedGetMut`).
- The validating-build assertion in `TypeIdHasher::write` (src/lib.rs:504) is not modelled. `Write` follows the optimised build, where a write of the wrong length leaves the state alone.
- AnyMap.Map.OrInsertWith: does not state that the producer runs at most once. A Dafny function has no observable calls, so the contract can only say that the producer's value is stored only in the vacant case.
- AnyMap.Map.AndModify: `f` is a pure function from the old value to the new one. Rust's `FnOnce(&mut V)` may have other effects, and those are not modelled.

## Findings

Two things in the crate say every key must match its value's type:
- the safety requirements of `as_raw_mut` and `from_raw` (src/lib.rs:304-309, 347-350);
- every other insertion path, which keys by `TypeId::of::<T>()` of the value's own type (src/lib.rs:241, 265).

`extend` as written appears not to keep that rule. `AnyMap.ExtendedUnderBoxKey` models the code as written. `AnyMap.Map.Extend`, which the rest of the model uses, implements the intended behaviour.

| source | as written | input that shows it | evidently intended | confidence | as-written member | corrected member |
|---|---|---|---|---|---|---|
| src/lib.rs:357-363 | `item.type_id()` is called on a `Box<A>` while `Any` is in scope. Method resolution picks `Any::type_id` for the box itself, so every item is keyed by the identity of `Box<A>`. | `extend` an empty store with a boxed `1i32` and a boxed `"x"`. Only `"x"` remains, under `Box<A>`'s key, and `get::<i32>()` and `get::<&str>()` both return `None`. | Key each item by the identity of the value inside the box, preserving the key/tag invariant. | medium; not executed (rests on Rust's method resolution through the `Any` supertrait of `UncheckedAnyExt`, which is not part of this model) | `AnyMap.ExtendUnderBoxKeyBreaksTags` | `AnyMap.ExtendedAt` |
