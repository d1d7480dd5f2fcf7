/** Types shared by the three indexes and the query evaluator. */
module Common {

  datatype Option<T> = None | Some(value: T)

  /** The two failure kinds an index signals while evaluating a predicate. */
  datatype Error = UnsupportedPredicate | TypeMismatch

  datatype Result<T> = Success(value: T) | Failure(error: Error)

  /** The operators of a predicate tree: four leaf comparisons and three connectives. */
  datatype Operator = EQUALS | LT | GT | RANGE | AND | OR | NOT

  /** True when every element of `s` is distinct. */
  predicate NoDuplicates(s: seq<int>)
  {
    forall i, j :: 0 <= i < j < |s| ==> s[i] != s[j]
  }

  /** True when `s` is strictly ascending. */
  predicate StrictlyAscending(s: seq<int>)
  {
    forall i, j :: 0 <= i < j < |s| ==> s[i] < s[j]
  }

  /** True when `s` is non-decreasing. */
  predicate NonDecreasing(s: seq<int>)
  {
    forall i, j :: 0 <= i < j < |s| ==> s[i] <= s[j]
  }
}
