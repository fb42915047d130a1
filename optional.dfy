/**
 * The optional slot used for unit origins: either empty (`Nullopt`) or
 * holding one value.
 */
module Optionals {

  datatype Optional<T> = Nullopt | Some(value: T)
  {
    predicate HasValue() { Some? }
  }

  /**
   * Equality of two optionals: two empty slots are equal, two full slots
   * are equal when their payloads are, and an empty slot never equals a
   * full one.
   */
  predicate Equal<T(==)>(a: Optional<T>, b: Optional<T>)
    ensures Equal(a, b) <==> a == b
    ensures !a.HasValue() && !b.HasValue() ==> Equal(a, b)
    ensures a.HasValue() != b.HasValue() ==> !Equal(a, b)
  {
    if !a.HasValue() && !b.HasValue() then true
    else if a.HasValue() && b.HasValue() then a.value == b.value
    else false
  }

  /** Reading the payload: only defined on a full slot. */
  function Value<T>(a: Optional<T>): (r: T)
    requires a.HasValue()
    ensures a == Some(r)
  {
    a.value
  }

  /** The payload, or `default` when the slot is empty. */
  function ValueOr<T>(a: Optional<T>, default: T): (r: T)
    ensures a.HasValue() ==> r == a.value
    ensures !a.HasValue() ==> r == default
  {
    if a.HasValue() then a.value else default
  }
}
