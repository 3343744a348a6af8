/**
 * Type-erased values. The store keeps each value behind a uniform handle;
 * here the handle is a value tagged with the identity of its concrete type,
 * and the unchecked downcast becomes a projection whose precondition (the
 * tag is the expected type's) is an obligation on every caller.
 */
module Erased {
  import opened TypeIds

  /** A boxed value: its type's identity and its contents. */
  datatype Value<P> = Value(tag: TypeKey, payload: P)

  /** `into_box`: erase a value of the type named by `t`. */
  function IntoBox<P>(t: TypeKey, x: P): (v: Value<P>)
    ensures v.tag == t
  {
    Value(t, x)
  }

  /**
   * The unchecked downcast (`downcast_ref_unchecked`, `downcast_mut_unchecked`,
   * `downcast_unchecked`): sound only when the value's tag is `t`.
   */
  function Unbox<P>(v: Value<P>, t: TypeKey): (x: P)
    requires v.tag == t
    ensures IntoBox(t, x) == v
  {
    v.payload
  }

  /** Boxing and then downcasting to the same type gives back the value. */
  lemma UnboxIntoBox<P>(t: TypeKey, x: P)
    ensures Unbox(IntoBox(t, x), t) == x
  {
  }
}
