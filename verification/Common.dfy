/** What several of the models share. */
module Common {

  datatype Option<+T> = None | Some(value: T)

  /** The page size of the allocator. */
  const PAGE: nat := 8192

  /** No number occurs twice. */
  ghost predicate Distinct(list: seq<nat>) {
    forall i, j :: 0 <= i < j < |list| ==> list[i] != list[j]
  }
}
