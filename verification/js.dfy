/** JavaScript value conventions that the build pipeline relies on. */
module Js {

  /** A lookup that may come back `undefined`: `Map.prototype.get`, `Array.prototype.find`, `?.`. */
  datatype Option<+T> = None | Some(value: T)

  /** A slot that may hold `undefined`, `null` or a value; `??` treats the first two alike. */
  datatype Nullish<+T> = Undefined | Null | Defined(value: T) {
    /** `x ?? fallback` */
    function OrElse(fallback: Nullish<T>): Nullish<T> {
      if Defined? then this else fallback
    }
  }

  /** A computation that either finishes or is aborted by a `throw`. */
  datatype Result<+T, +E> = Success(value: T) | Failure(error: E)

  /** Codes and ids are JSON integers; the only falsy one is 0. */
  predicate Falsy(n: int) {
    n == 0
  }

  /** `!x` for an optional integer such as `item.left` or `rawTree?.root`. */
  predicate Missing(x: Option<int>) {
    x.None? || Falsy(x.value)
  }
}

/** The lines the build writes with `console.warn` and `console.log`, one constructor per call site. */
module Console {

  datatype Message =
    | DelaunayNotFound(code: int)                     // a station without a delaunay record
    | DelaunayStationNotFound(next: int, code: int)   // a neighbour code that does not resolve
    | VoronoiConverted(id: int)                       // informational: a LineString boundary was closed
    | LineNotFound(code: int)                         // a line summary without a detail file
    | PolylineNotFound(code: int)                     // a line without a polyline file
    | NodeListMissing                                 // the tree has no node_list
    | TreeStationNotFound(code: int)                  // a tree node code that does not resolve (fatal)
    | LeftNotFound(code: int)                         // a left child code that does not resolve
    | RightNotFound(code: int)                        // a right child code that does not resolve
    | RootMissing                                     // the tree has no (truthy) root code
    | RootNotFound                                    // the tree root did not yield a (truthy) id
}
