/** Shared vocabulary: Java's nullable values, its unchecked exceptions, the
    three ways a getter of the parse node can end, and the iteration order of a
    hash map. */
module Common {

  /** A Java reference that may be null. */
  datatype Option<+T> = None | Some(value: T)

  /** The unchecked exceptions that the modelled code can raise. */
  datatype Exception =
    | IllegalArgumentException        // URLDecoder on a malformed escape
    | NullPointerException            // a dereference of null
    | ArrayIndexOutOfBoundsException  // indexing an empty array
    | RuntimeException                // an explicitly unsupported operation

  /** A computation that either returns a value or throws. */
  datatype Result<+T> = Ok(value: T) | Err(error: Exception)

  /** What a nullable getter does: returns a value, returns null, or throws. */
  datatype Outcome<+T> = Value(value: T) | Null | Thrown(error: Exception)

  /** `order` lists every key once: one iteration order of a hash map's keys. */
  ghost predicate IsOrdering(order: seq<string>, keys: set<string>) {
    && (forall i, j :: 0 <= i < j < |order| ==> order[i] != order[j])
    && (forall k :: k in keys <==> k in order)
  }

  /** The order in which a HashMap yields its keys: each one once, in an
      order the model leaves open. */
  method IterationOrder(keys: set<string>) returns (order: seq<string>)
    ensures IsOrdering(order, keys)
  {
    order := [];
    var pending := keys;
    while pending != {}
      invariant forall k :: k in keys <==> k in order || k in pending
      invariant forall k :: k in pending ==> k !in order
      invariant forall i, j :: 0 <= i < j < |order| ==> order[i] != order[j]
      decreases pending
    {
      var key :| key in pending;
      order := order + [key];
      pending := pending - {key};
    }
  }
}
