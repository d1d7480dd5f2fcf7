/**
 * The query evaluator: a postorder walk over a predicate tree that combines
 * the row-id lists of its leaves with AND (intersection), OR (union) and
 * NOT (complement within the row ids 0..maxRowId, both ends included).
 *
 * Leaf predicates are answered by an index chosen by an external catalog;
 * here that lookup is the parameter `leafEval`, a function from a leaf
 * node to the row ids (or the failure) its index returns.
 */
module Evaluator {
  import opened Common

  /** A node of the predicate tree; `Null` stands for an absent child. */
  datatype QueryNode =
    | Null
    | Node(operator: Operator, attribute: string, value: string,
           secondValue: Option<string>, left: QueryNode, right: QueryNode)

  /** True when `a` is `b` with some elements dropped, in the same order. */
  predicate IsSubsequence(a: seq<int>, b: seq<int>)
    decreases |b|
  {
    if a == [] then true
    else if b == [] then false
    else if a[0] == b[0] then IsSubsequence(a[1..], b[1..])
    else IsSubsequence(a, b[1..])
  }

  /**
   * `left.retainAll(right)`: the elements of `left` that occur in `right`,
   * in `left`'s order and with `left`'s multiplicity.
   */
  function RetainAll(left: seq<int>, right: seq<int>): (s: seq<int>)
    ensures IsSubsequence(s, left)
    ensures forall x :: multiset(s)[x] == if x in right then multiset(left)[x] else 0
    ensures forall x :: x in s <==> x in left && x in right
  {
    if left == [] then []
    else
      var rest := RetainAll(left[1..], right);
      assert left == [left[0]] + left[1..];
      if left[0] in right then [left[0]] + rest else rest
  }

  /** Keeps the first occurrence of each element: a list built from a hash set. */
  function Dedup(s: seq<int>): (d: seq<int>)
    ensures NoDuplicates(d)
    ensures forall x :: x in d <==> x in s
  {
    if s == [] then []
    else
      var d := Dedup(s[..|s| - 1]);
      assert s == s[..|s| - 1] + [s[|s| - 1]];
      if s[|s| - 1] in d then d else d + [s[|s| - 1]]
  }

  /** OR: the duplicate-free union of both results. */
  function Union(left: seq<int>, right: seq<int>): (s: seq<int>)
    ensures NoDuplicates(s)
    ensures forall x :: x in s <==> x in left || x in right
  {
    Dedup(left + right)
  }

  /** NOT: the row ids `0..maxRowId` (inclusive) that are not in `child`. */
  function Complement(child: seq<int>, maxRowId: int): (s: seq<int>)
    decreases maxRowId + 1
    ensures StrictlyAscending(s)
    ensures forall x :: x in s <==> 0 <= x <= maxRowId && x !in child
  {
    if maxRowId < 0 then []
    else
      var lower := Complement(child, maxRowId - 1);
      assert forall i | 0 <= i < |lower| :: lower[i] < maxRowId by {
        forall i | 0 <= i < |lower|
          ensures lower[i] < maxRowId
        {
          assert lower[i] in lower;
        }
      }
      if maxRowId in child then lower else lower + [maxRowId]
  }

  /**
   * `evaluateQuery`: an absent node yields no rows; AND and OR evaluate the
   * left child, then the right child, and combine; NOT evaluates only its
   * left child; every other operator is a leaf handed to `leafEval`.
   * A failure of any leaf propagates unchanged.
   */
  function EvaluateQuery(node: QueryNode, maxRowId: int,
                         leafEval: QueryNode -> Result<seq<int>>): Result<seq<int>>
  {
    match node
    case Null => Success([])
    case Node(op, _, _, _, left, right) =>
      if op == AND || op == OR then
        match EvaluateQuery(left, maxRowId, leafEval)
        case Failure(e) => Failure(e)
        case Success(l) =>
          match EvaluateQuery(right, maxRowId, leafEval)
          case Failure(e) => Failure(e)
          case Success(r) =>
            if op == AND then Success(RetainAll(l, r)) else Success(Union(l, r))
      else if op == NOT then
        match EvaluateQuery(left, maxRowId, leafEval)
        case Failure(e) => Failure(e)
        case Success(c) => Success(Complement(c, maxRowId))
      else leafEval(node)
  }

  lemma NullIsEmpty(maxRowId: int, leafEval: QueryNode -> Result<seq<int>>)
    ensures EvaluateQuery(Null, maxRowId, leafEval) == Success([])
  {
  }

  /** AND keeps the left result's elements that the right result contains. */
  lemma AndIsIntersection(node: QueryNode, maxRowId: int,
                          leafEval: QueryNode -> Result<seq<int>>, l: seq<int>, r: seq<int>)
    requires node.Node? && node.operator == AND
    requires EvaluateQuery(node.left, maxRowId, leafEval) == Success(l)
    requires EvaluateQuery(node.right, maxRowId, leafEval) == Success(r)
    ensures EvaluateQuery(node, maxRowId, leafEval).Success?
    ensures var s := EvaluateQuery(node, maxRowId, leafEval).value;
      && IsSubsequence(s, l)
      && (forall x :: multiset(s)[x] == if x in r then multiset(l)[x] else 0)
      && (forall x :: x in s <==> x in l && x in r)
  {
  }

  /** OR is the duplicate-free union. */
  lemma OrIsUnion(node: QueryNode, maxRowId: int,
                  leafEval: QueryNode -> Result<seq<int>>, l: seq<int>, r: seq<int>)
    requires node.Node? && node.operator == OR
    requires EvaluateQuery(node.left, maxRowId, leafEval) == Success(l)
    requires EvaluateQuery(node.right, maxRowId, leafEval) == Success(r)
    ensures EvaluateQuery(node, maxRowId, leafEval).Success?
    ensures var s := EvaluateQuery(node, maxRowId, leafEval).value;
      NoDuplicates(s) && forall x :: x in s <==> x in l || x in r
  {
  }

  /** A failing child of AND or OR fails the node; the left child is evaluated first. */
  lemma ConnectiveFailure(node: QueryNode, maxRowId: int,
                          leafEval: QueryNode -> Result<seq<int>>)
    requires node.Node? && (node.operator == AND || node.operator == OR)
    ensures EvaluateQuery(node.left, maxRowId, leafEval).Failure? ==>
      EvaluateQuery(node, maxRowId, leafEval) == EvaluateQuery(node.left, maxRowId, leafEval)
    ensures EvaluateQuery(node.left, maxRowId, leafEval).Success? &&
            EvaluateQuery(node.right, maxRowId, leafEval).Failure? ==>
      EvaluateQuery(node, maxRowId, leafEval) == EvaluateQuery(node.right, maxRowId, leafEval)
  {
  }

  /**
   * NOT looks only at its left child and yields the duplicate-free
   * complement of that child's rows within 0..maxRowId.
   */
  lemma NotIsComplement(node: QueryNode, maxRowId: int,
                        leafEval: QueryNode -> Result<seq<int>>, c: seq<int>)
    requires node.Node? && node.operator == NOT
    requires EvaluateQuery(node.left, maxRowId, leafEval) == Success(c)
    ensures EvaluateQuery(node, maxRowId, leafEval).Success?
    ensures var s := EvaluateQuery(node, maxRowId, leafEval).value;
      && NoDuplicates(s)
      && (forall x :: x in s ==> 0 <= x <= maxRowId)
      && (forall x :: x in s <==> 0 <= x <= maxRowId && x !in c)
  {
  }

  /** Every operator other than AND, OR and NOT is a leaf answered by its index. */
  lemma LeafIsPredicate(node: QueryNode, maxRowId: int,
                        leafEval: QueryNode -> Result<seq<int>>)
    requires node.Node? && node.operator !in {AND, OR, NOT}
    ensures EvaluateQuery(node, maxRowId, leafEval) == leafEval(node)
  {
  }

  /** Negating twice keeps exactly the original rows that lie in 0..maxRowId. */
  lemma {:induction false} DoubleNegation(node: QueryNode, maxRowId: int,
                                          leafEval: QueryNode -> Result<seq<int>>, c: seq<int>)
    requires EvaluateQuery(node, maxRowId, leafEval) == Success(c)
    ensures var inner := Node(NOT, "", "", None, node, Null);
      var outer := Node(NOT, "", "", None, inner, Null);
      EvaluateQuery(outer, maxRowId, leafEval).Success? &&
      forall x :: x in EvaluateQuery(outer, maxRowId, leafEval).value <==> x in c && 0 <= x <= maxRowId
  {
    var inner := Node(NOT, "", "", None, node, Null);
    var once := Complement(c, maxRowId);
    assert EvaluateQuery(inner, maxRowId, leafEval) == Success(once);
  }
}
