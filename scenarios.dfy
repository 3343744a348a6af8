/**
 * Clients of the store that use only the contracts of `AnyMap.Map`.
 *
 * The first group replays the crate's own documentation example and tests
 * (src/lib.rs:170-188, 529-591, 599-603), each test type given a distinct
 * key. The second group holds further scenarios of the documented
 * contracts, which the crate itself does not test.
 */
module Scenarios {
  import opened Wrappers
  import opened TypeIds
  import opened Erased
  import opened AnyMap

  const A: TypeKey := 1
  const B: TypeKey := 2
  const C: TypeKey := 3
  const D: TypeKey := 4
  const E: TypeKey := 5
  const F: TypeKey := 6
  const J: TypeKey := 7

  /** The two types of the documentation example: `i32` and the struct `Foo { str }`. */
  const I32: TypeKey := 10
  const FooKey: TypeKey := 11

  /** The payloads of the documentation example, one shape per type. */
  datatype DocPayload = Int32(i: int) | Foo(str: string)

  /** The documentation example: insert, read and remove an `i32`, then edit a `Foo` in place. */
  method DocExample() returns (m: Map<DocPayload>)
    ensures fresh(m) && m.Valid()
    ensures m.Get(I32) == None && m.Get(FooKey) == Some(Foo("foot"))
  {
    m := new Map<DocPayload>();
    assert m.Get(I32) == None;
    var p := m.Insert(I32, Int32(42));
    assert m.Get(I32) == Some(Int32(42));
    p := m.Remove(I32);
    assert m.Get(I32) == None;

    assert m.Get(FooKey) == None;
    p := m.Insert(FooKey, Foo("foo"));
    assert m.Get(FooKey) == Some(Foo("foo"));
    var r := m.GetMut(FooKey);
    m.Assign(r.value, Foo(m.Deref(r.value).str + "t"));
    assert "foo" + "t" == "foot";
  }

  /** The six types of the entry test, each inserted into an empty store for the first time. */
  method SixTypes() returns (m: Map<int>)
    ensures fresh(m) && m.Valid() && m.Len() == 6
    ensures m.Get(A) == Some(10) && m.Get(B) == Some(20) && m.Get(C) == Some(30)
    ensures m.Get(J) == None
  {
    m := new Map<int>();
    var p := m.Insert(A, 10);  assert p == None;
    p := m.Insert(B, 20);  assert p == None;
    p := m.Insert(C, 30);  assert p == None;
    p := m.Insert(D, 40);  assert p == None;
    p := m.Insert(E, 50);  assert p == None;
    p := m.Insert(F, 60);  assert p == None;
  }

  /** The entry test continued: replace, update and remove through occupied views. */
  method OccupiedViews() returns (m: Map<int>)
    ensures fresh(m) && m.Valid() && m.Len() == 5
    ensures m.Get(A) == Some(100) && m.Get(B) == Some(200) && m.Get(C) == None
    ensures m.Get(J) == None
  {
    m := SixTypes();

    var e := m.EntryOf(A);
    assert e.Occupied? && m.OccupiedGet(e) == 10;
    var prev := m.OccupiedInsert(e, 100);
    assert prev == 10 && m.Get(A) == Some(100) && m.Len() == 6;

    e := m.EntryOf(B);
    var r := m.OccupiedGetMut(e);
    m.Assign(r, m.Deref(r) * 10);
    assert m.Get(B) == Some(200) && m.Len() == 6;

    e := m.EntryOf(C);
    var x := m.OccupiedRemove(e);
    assert x == 30 && m.Get(C) == None;
  }

  /**
   * The entry test concluded: fill an absent type through its vacant view,
   * then `or_insert` on a present and on an absent type.
   */
  method VacantAndOrInsert() returns (m: Map<int>)
    ensures fresh(m) && m.Valid() && m.Len() == 7
    ensures m.Get(J) == Some(1000) && m.Get(B) == Some(201) && m.Get(C) == Some(301)
  {
    m := OccupiedViews();

    var e := m.EntryOf(J);
    assert e.Vacant?;
    var r := m.VacantInsert(e, 1000);
    assert m.Deref(r) == 1000 && m.Get(J) == Some(1000) && m.Len() == 6;

    r := m.OrInsert(m.EntryOf(B), 71);
    m.Assign(r, m.Deref(r) + 1);
    assert m.Get(B) == Some(201) && m.Len() == 6;

    r := m.OrInsert(m.EntryOf(C), 300);
    m.Assign(r, m.Deref(r) + 1);
  }

  /** The default-construction test: a default store is empty. */
  method DefaultIsEmpty() returns (m: Map<int>)
    ensures fresh(m) && m.Valid() && m.Len() == 0 && m.IsEmpty()
  {
    m := new Map<int>();
  }

  // Further scenarios of the documented contracts; the crate has no test for these.

  /** Insert, replace and remove one integer, as the documentation of `insert` and `remove` describes. */
  method InsertReplaceRemove() returns (first: Option<int>, second: Option<int>, removed: Option<int>)
    ensures first == None && second == Some(42) && removed == Some(7)
  {
    var m := new Map<int>();
    first := m.Insert(A, 42);
    assert m.Get(A) == Some(42);
    second := m.Insert(A, 7);
    assert m.Get(A) == Some(7);
    removed := m.Remove(A);
    assert m.Get(A) == None && m.Len() == 0;
  }

  /** `or_insert` twice with one default gives one slot; `and_modify` skips an absent type. */
  method EntryCombinators() {
    var m := new Map<int>();
    var r1 := m.OrInsert(m.EntryOf(B), 5);
    var r2 := m.OrInsert(m.EntryOf(B), 5);
    assert r1 == r2 && m.Len() == 1 && m.Get(B) == Some(5);

    var e := m.AndModify(m.EntryOf(C), x => x + 1);
    assert e.Vacant? && !m.Contains(C) && m.Len() == 1;
    e := m.AndModify(m.EntryOf(B), x => x + 1);
    assert m.Get(B) == Some(6);
  }

  /** Two inserts of distinct types, in either order, give the same store. */
  method InsertOrderIrrelevant(t: TypeKey, u: TypeKey, x: int, y: int)
    requires t != u
  {
    var m1 := new Map<int>();
    var m2 := new Map<int>();
    var p := m1.Insert(t, x);
    p := m1.Insert(u, y);
    p := m2.Insert(u, y);
    p := m2.Insert(t, x);
    assert m1.raw == m2.raw;
    assert m1.Get(t) == Some(x) && m1.Get(u) == Some(y);
  }

  /** Clearing empties a filled store. */
  method ClearEmpties() {
    var m := new Map<int>();
    var p := m.Insert(A, 1);
    assert !m.IsEmpty();
    m.Clear();
    assert m.IsEmpty() && m.Get(A) == None;
  }

  /**
   * The corrected `extend` (`Map.Extend`, keying each item by the type of the
   * value inside it) with two values of one type keeps the later one.
   */
  method ExtendLastWins() {
    var m := new Map<int>();
    var items := [IntoBox(A, 1), IntoBox(B, 2), IntoBox(A, 3)];
    m.Extend(items);
    ExtendedAt(map[], items, A);
    ExtendedAt(map[], items, B);
    assert LastTagged(items, A) == Some(2);
    assert m.Get(A) == Some(3) && m.Get(B) == Some(2);
  }
}
