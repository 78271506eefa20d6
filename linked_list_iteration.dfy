/**
 * Iteration over a linked list given by its first node and a successor
 * function; `null` and `undefined` from `next` both end the list, since the
 * loop tests `node != null`.
 */
module LinkedListIteration {
  import opened JsValues

  /** The node `k` steps from `initialNode`, if the list is that long. */
  ghost function Walk<T>(initialNode: T, next: T -> Option<T>, k: nat): Option<T>
  {
    if k == 0 then Some(initialNode)
    else
      var previous := Walk(initialNode, next, k - 1);
      if previous.None? then None else next(previous.value)
  }

  /** The list ends: some walk runs off its end. */
  ghost predicate IsFinite<T>(initialNode: T, next: T -> Option<T>) {
    exists n :: Walk(initialNode, next, n).None?
  }

  lemma {:induction false} WalkStaysEnded<T>(initialNode: T, next: T -> Option<T>, k: nat, n: nat)
    requires k <= n && Walk(initialNode, next, k).None?
    ensures Walk(initialNode, next, n).None?
    decreases n - k
  {
    if k < n {
      WalkStaysEnded(initialNode, next, k + 1, n);
    }
  }

  /** A node that exists lies before the end of the list. */
  lemma WalkBeforeEnd<T>(initialNode: T, next: T -> Option<T>, k: nat, n: nat)
    requires Walk(initialNode, next, n).None? && Walk(initialNode, next, k).Some?
    ensures k < n
  {
    if n <= k {
      WalkStaysEnded(initialNode, next, n, k);
    }
  }

  /**
   * `iterate`: the nodes from `initialNode` on, each the successor of the one
   * before, up to the node whose successor is absent. The successor is taken
   * before the node is handed out, as the source does.
   */
  method Iterate<T>(initialNode: T, next: T -> Option<T>) returns (nodes: seq<T>)
    requires IsFinite(initialNode, next)
    ensures |nodes| > 0 && nodes[0] == initialNode
    ensures forall k :: 0 <= k < |nodes| - 1 ==> next(nodes[k]) == Some(nodes[k + 1])
    ensures next(nodes[|nodes| - 1]).None?
    ensures forall k :: 0 <= k < |nodes| ==> Walk(initialNode, next, k) == Some(nodes[k])
  {
    ghost var n: nat :| Walk(initialNode, next, n).None?;
    nodes := [];
    var node: Option<T> := Some(initialNode);
    while node.Some?
      invariant |nodes| <= n
      invariant node == Walk(initialNode, next, |nodes|)
      invariant forall k :: 0 <= k < |nodes| ==> Walk(initialNode, next, k) == Some(nodes[k])
      invariant forall k :: 0 <= k < |nodes| - 1 ==> next(nodes[k]) == Some(nodes[k + 1])
      invariant |nodes| > 0 ==> next(nodes[|nodes| - 1]) == node
      invariant |nodes| > 0 || node == Some(initialNode)
      decreases n - |nodes|
    {
      WalkBeforeEnd(initialNode, next, |nodes|, n);
      var nextNode := next(node.value);
      nodes := nodes + [node.value];
      node := nextNode;
    }
  }

  /** `toArray`: the nodes `iterate` yields, collected. */
  method ToArray<T>(initialNode: T, next: T -> Option<T>) returns (nodes: seq<T>)
    requires IsFinite(initialNode, next)
    ensures |nodes| > 0 && nodes[0] == initialNode
    ensures forall k :: 0 <= k < |nodes| - 1 ==> next(nodes[k]) == Some(nodes[k + 1])
    ensures next(nodes[|nodes| - 1]).None?
    ensures forall k :: 0 <= k < |nodes| ==> Walk(initialNode, next, k) == Some(nodes[k])
  {
    nodes := Iterate(initialNode, next);
  }
}
