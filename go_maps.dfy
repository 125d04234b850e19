/**
 Go leaves the iteration order of `range` over a map unspecified. Where the
 outcome of a loop depends on that order, the model takes the order as a
 parameter: a sequence of distinct keys that lists every key of the map.
 Entries of the sequence that are not keys of the map are skipped.
 */
module GoMaps {

  predicate NoDuplicates(order: seq<string>)
  {
    forall i, j :: 0 <= i < j < |order| ==> order[i] != order[j]
  }

  /** `order` is a possible iteration order of a map whose key set is `keys`. */
  predicate IsIterationOrder(order: seq<string>, keys: set<string>)
  {
    NoDuplicates(order) && forall k :: k in keys ==> k in order
  }
}
