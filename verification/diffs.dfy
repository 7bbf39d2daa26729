/** The diff records the comparator reports (`DiffDetail` built by `DiffFactory`) and its result. */
module Diffs {

  /** One difference between two arrays; locators are the model's sub-paths. */
  datatype Diff<T> =
    | Missing(value: T, category: string, locator: string)
    | Unexpected(value: T, category: string, locator: string)
    | Moved(value: T, category: string, fromLocator: string, toLocator: string)
    | Different(oldValue: T, newValue: T, category: string, locator: string)

  /** `ArrayComparisonResult`: the diffs in the order they were discovered. */
  datatype ComparisonResult<T> = ComparisonResult(diffs: seq<Diff<T>>) {
    predicate Identical() {
      |diffs| == 0
    }
  }
}
