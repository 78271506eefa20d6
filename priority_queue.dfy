/**
 * `createPriorityQueue`: a max-priority channel from a publisher to a
 * consumer. The Fibonacci heap is modelled as a finite map from node ids
 * (fresh for every insertion) to nodes `(priority, value)`; `inserted` is the
 * `insertedNodes` presence set. A pending `waitForData` future is an owned
 * slot holding a deferred's id, and the ghost map `settled` records the value
 * each deferred was resolved with.
 */
module PriorityQueueModule {
  import opened JsValues
  import opened Status
  import opened Seqs

  /** A heap node: its key (the priority) and its `Entry`-wrapped value. */
  datatype Node<T> = Node(priority: real, value: T)

  /** `id` holds a highest priority of `heap`. */
  predicate IsMaximum<T>(heap: map<nat, Node<T>>, id: nat) {
    id in heap && forall j :: j in heap ==> heap[j].priority <= heap[id].priority
  }

  /** Every non-empty heap has a node of highest priority. */
  lemma {:induction false} MaximumExists<T>(heap: map<nat, Node<T>>)
    requires heap != map[]
    ensures exists id :: IsMaximum(heap, id)
    decreases |heap|
  {
    var k :| k in heap;
    var rest := heap - {k};
    assert rest.Keys == heap.Keys - {k};
    assert forall j :: j in heap ==> j == k || (j in rest && rest[j] == heap[j]);
    if rest == map[] {
      assert IsMaximum(heap, k);
    } else {
      MaximumExists(rest);
      var m :| IsMaximum(rest, m);
      if heap[k].priority <= rest[m].priority {
        assert IsMaximum(heap, m);
      } else {
        assert IsMaximum(heap, k);
      }
    }
  }

  /** The nodes `order` were taken out of `start`, each once, and `rest` is the others, untouched. */
  ghost predicate SplitInto<T>(start: map<nat, Node<T>>, rest: map<nat, Node<T>>, order: seq<nat>) {
    && Distinct(order)
    && rest.Keys !! Elements(order)
    && rest.Keys + Elements(order) == start.Keys
    && (forall id :: id in rest ==> id in start && rest[id] == start[id])
  }

  /** `values` are the values of the nodes `order`, in that order. */
  ghost predicate ValuesOf<T>(start: map<nat, Node<T>>, order: seq<nat>, values: seq<T>) {
    |values| == |order| && forall k :: 0 <= k < |order| ==> order[k] in start && values[k] == start[order[k]].value
  }

  /** Priorities along `order` never increase, and nothing in `rest` is above anything taken. */
  ghost predicate HighestFirst<T>(start: map<nat, Node<T>>, rest: map<nat, Node<T>>, order: seq<nat>)
    requires forall k :: 0 <= k < |order| ==> order[k] in start
  {
    && (forall a, b :: 0 <= a < b < |order| ==> start[order[b]].priority <= start[order[a]].priority)
    && (forall k, id :: 0 <= k < |order| && id in rest ==> rest[id].priority <= start[order[k]].priority)
  }

  /**
   * After extracting the nodes `order` (with values `values`) from `start`,
   * `rest` is what is left: no node lost or repeated, values in extraction
   * order, priorities non-increasing, and nothing left above anything taken.
   */
  ghost predicate Drained<T>(start: map<nat, Node<T>>, rest: map<nat, Node<T>>, order: seq<nat>, values: seq<T>) {
    SplitInto(start, rest, order) && ValuesOf(start, order, values) && HighestFirst(start, rest, order)
  }

  lemma DrainStart<T>(start: map<nat, Node<T>>)
    ensures Drained(start, start, [], [])
  {
  }

  lemma ElementsSnoc<T>(s: seq<T>, x: T)
    ensures Elements(s + [x]) == Elements(s) + {x}
  {
    assert (s + [x])[..|s|] == s;
  }

  lemma SplitStep<T>(start: map<nat, Node<T>>, rest: map<nat, Node<T>>, order: seq<nat>, id: nat)
    requires SplitInto(start, rest, order) && id in rest
    ensures SplitInto(start, rest - {id}, order + [id])
  {
    ElementsSnoc(order, id);
    assert id !in Elements(order);
    assert (rest - {id}).Keys == rest.Keys - {id};
  }

  lemma ValuesStep<T>(start: map<nat, Node<T>>, order: seq<nat>, values: seq<T>, id: nat)
    requires ValuesOf(start, order, values) && id in start
    ensures ValuesOf(start, order + [id], values + [start[id].value])
  {
  }

  lemma HighestFirstStep<T>(start: map<nat, Node<T>>, rest: map<nat, Node<T>>, order: seq<nat>, id: nat)
    requires forall k :: 0 <= k < |order| ==> order[k] in start
    requires (forall id :: id in rest ==> id in start && rest[id] == start[id])
    requires HighestFirst(start, rest, order) && IsMaximum(rest, id)
    ensures HighestFirst(start, rest - {id}, order + [id])
  {
  }

  /** Extracting a maximum of what is left extends the drained prefix. */
  lemma DrainStep<T>(start: map<nat, Node<T>>, rest: map<nat, Node<T>>, order: seq<nat>, values: seq<T>, id: nat)
    requires Drained(start, rest, order, values) && IsMaximum(rest, id)
    ensures Drained(start, rest - {id}, order + [id], values + [rest[id].value])
  {
    SplitStep(start, rest, order, id);
    ValuesStep(start, order, values, id);
    HighestFirstStep(start, rest, order, id);
  }

  /** Once nothing is left, every node was extracted exactly once. */
  lemma DrainDone<T>(start: map<nat, Node<T>>, order: seq<nat>, values: seq<T>)
    requires Drained(start, map[], order, values)
    ensures Elements(order) == start.Keys && |order| == |start|
  {
    DistinctCardinality(order);
    assert |start.Keys| == |start|;
  }

  /** The future `waitForData` returns: already resolved, or a pending deferred. */
  datatype Future = Resolved(value: bool) | Pending(id: nat)

  class PriorityQueue<T> {
    var heap: map<nat, Node<T>>
    var inserted: set<nat>
    var nextId: nat
    var closed: bool
    var waitSlot: Option<nat>
    var nextDeferredId: nat
    ghost var settled: map<nat, bool>

    /** The presence set names exactly the nodes in the heap, and ids are fresh. */
    ghost predicate HeapValid()
      reads this
    {
      inserted == heap.Keys && forall id :: id in heap ==> id < nextId
    }

    /** A pending wait exists only while the queue is open and empty, and is not yet resolved. */
    ghost predicate Valid()
      reads this
    {
      && HeapValid()
      && (waitSlot.Some? ==> heap == map[] && !closed && waitSlot.value < nextDeferredId && waitSlot.value !in settled)
      && (forall id :: id in settled ==> id < nextDeferredId)
    }

    constructor()
      ensures Valid()
      ensures heap == map[] && !closed && waitSlot.None? && settled == map[]
    {
      heap := map[];
      inserted := {};
      nextId := 0;
      closed := false;
      waitSlot := None;
      nextDeferredId := 0;
      settled := map[];
    }

    function HasData(): (r: bool)
      reads this
      ensures r <==> heap != map[]
    {
      heap != map[]
    }

    function Depth(): (r: nat)
      reads this
      ensures r == |heap|
    {
      |heap|
    }

    function IsClosed(): (r: bool)
      reads this
      ensures r == closed
    {
      closed
    }

    /** The heap's `insert`: a node under a fresh id, recorded as present. */
    method InsertNode(priority: real, value: T) returns (id: nat)
      requires HeapValid()
      modifies this
      ensures HeapValid()
      ensures id == old(nextId) && nextId == old(nextId) + 1 && id !in old(heap)
      ensures heap == old(heap)[id := Node(priority, value)] && inserted == old(inserted) + {id}
      ensures closed == old(closed) && waitSlot == old(waitSlot) && nextDeferredId == old(nextDeferredId)
      ensures settled == old(settled)
    {
      id := nextId;
      heap := heap[id := Node(priority, value)];
      inserted := inserted + {id};
      nextId := nextId + 1;
    }

    /** The heap's `delete` followed by `insertedNodes.delete`. */
    method DeleteNode(id: nat)
      requires HeapValid() && id in heap
      modifies this
      ensures HeapValid()
      ensures heap == old(heap) - {id}
      ensures nextId == old(nextId) && closed == old(closed) && waitSlot == old(waitSlot)
      ensures nextDeferredId == old(nextDeferredId) && settled == old(settled)
    {
      heap := heap - {id};
      inserted := inserted - {id};
    }

    /** The heap's `extractMinimum` under the reversed comparator: some node of highest priority leaves the heap. */
    method ExtractMaximum() returns (id: nat, node: Node<T>)
      requires heap != map[]
      modifies this
      ensures IsMaximum(old(heap), id) && node == old(heap)[id]
      ensures heap == old(heap) - {id} && inserted == old(inserted)
      ensures nextId == old(nextId) && closed == old(closed) && waitSlot == old(waitSlot)
      ensures nextDeferredId == old(nextDeferredId) && settled == old(settled)
    {
      MaximumExists(heap);
      id :| IsMaximum(heap, id);
      node := heap[id];
      heap := heap - {id};
    }

    /**
     * `insert`: an error once closed, changing nothing; otherwise one new
     * node and a handle on it, and a pending wait is resolved with true.
     */
    method Insert(value: T, priority: real, traceback: string) returns (r: StatusOr<EnqueuedMessage<T>, string>)
      requires Valid()
      modifies this
      ensures Valid()
      ensures closed == old(closed) && nextDeferredId == old(nextDeferredId)
      ensures old(closed) ==>
        && r == FromError("PriorityQueue is closed.", None, traceback)
        && heap == old(heap) && inserted == old(inserted) && nextId == old(nextId)
        && waitSlot == old(waitSlot) && settled == old(settled)
      ensures !old(closed) ==>
        && r.Ok? && fresh(r.value)
        && r.value.value == value && r.value.node == old(nextId) && r.value.queue == this
        && heap == old(heap)[old(nextId) := Node(priority, value)] && old(nextId) !in old(heap)
        && |heap| == |old(heap)| + 1 && inserted == old(inserted) + {old(nextId)}
        && nextId == old(nextId) + 1 && waitSlot.None?
        && settled == (if old(waitSlot).Some? then old(settled)[old(waitSlot).value := true] else old(settled))
    {
      if closed {
        return FromError("PriorityQueue is closed.", None, traceback);
      }
      var id := InsertNode(priority, value);
      if waitSlot.Some? {
        settled := settled[waitSlot.value := true];
        waitSlot := None;
      }
      var handle := new EnqueuedMessage(value, id, this);
      return FromValue(handle);
    }

    /** `close`: the flag is set for good; a pending wait is resolved with `hasData()` and cleared. */
    method Close()
      requires Valid()
      modifies this
      ensures Valid()
      ensures closed && waitSlot.None?
      ensures heap == old(heap) && inserted == old(inserted) && nextId == old(nextId)
      ensures nextDeferredId == old(nextDeferredId)
      ensures settled == (if old(waitSlot).Some? then old(settled)[old(waitSlot).value := heap != map[]] else old(settled))
    {
      closed := true;
      if waitSlot.Some? {
        settled := settled[waitSlot.value := HasData()];
        waitSlot := None;
      }
    }

    /**
     * `waitForData`: resolved at once with `hasData()` when closed or
     * non-empty; otherwise the pending future, made on the first such call
     * and handed out again on the later ones.
     */
    method WaitForData() returns (f: Future)
      requires Valid()
      modifies this
      ensures Valid()
      ensures heap == old(heap) && inserted == old(inserted) && nextId == old(nextId)
      ensures closed == old(closed) && settled == old(settled)
      ensures old(closed) || old(heap) != map[] ==>
        f == Resolved(heap != map[]) && waitSlot == old(waitSlot) && nextDeferredId == old(nextDeferredId)
      ensures !old(closed) && old(heap) == map[] && old(waitSlot).Some? ==>
        f == Pending(old(waitSlot).value) && waitSlot == old(waitSlot) && nextDeferredId == old(nextDeferredId)
      ensures !old(closed) && old(heap) == map[] && old(waitSlot).None? ==>
        && f == Pending(old(nextDeferredId))
        && waitSlot == Some(old(nextDeferredId))
        && nextDeferredId == old(nextDeferredId) + 1
    {
      if closed || heap != map[] {
        return Resolved(HasData());
      } else if waitSlot.Some? {
        return Pending(waitSlot.value);
      } else {
        waitSlot := Some(nextDeferredId);
        nextDeferredId := nextDeferredId + 1;
        return Pending(waitSlot.value);
      }
    }

    /** One turn of the `drain` loop: a node of highest priority leaves the heap and the presence set. */
    method DrainOne(ghost start: map<nat, Node<T>>, values: seq<T>, ghost order: seq<nat>)
      returns (values': seq<T>, ghost order': seq<nat>)
      requires HeapValid() && heap != map[] && Drained(start, heap, order, values)
      modifies this
      ensures HeapValid() && Drained(start, heap, order', values') && |heap| < |old(heap)|
      ensures nextId == old(nextId) && closed == old(closed) && waitSlot == old(waitSlot)
      ensures nextDeferredId == old(nextDeferredId) && settled == old(settled)
    {
      var id, node := ExtractMaximum();
      inserted := inserted - {id};
      DrainStep(start, old(heap), order, values, id);
      values', order' := values + [node.value], order + [id];
    }

    /**
     * `drain`: extracts nodes until the heap is empty, so every value comes
     * out once, from high to low priority (`order` names the nodes in the
     * order they came out; ties may come out either way), and no handle
     * stays live.
     */
    method Drain() returns (values: seq<T>, ghost order: seq<nat>)
      requires Valid()
      modifies this
      ensures Valid()
      ensures heap == map[] && inserted == {}
      ensures Drained(old(heap), map[], order, values)
      ensures Elements(order) == old(heap).Keys && |values| == |old(heap)|
      ensures nextId == old(nextId) && closed == old(closed) && waitSlot == old(waitSlot)
      ensures nextDeferredId == old(nextDeferredId) && settled == old(settled)
    {
      ghost var start := heap;
      values, order := [], [];
      DrainStart(start);
      while heap != map[]
        invariant HeapValid() && Drained(start, heap, order, values)
        invariant nextId == old(nextId) && closed == old(closed) && waitSlot == old(waitSlot)
        invariant nextDeferredId == old(nextDeferredId) && settled == old(settled)
        decreases |heap|
      {
        values, order := DrainOne(start, values, order);
      }
      DrainDone(start, order, values);
    }

    /** `pop`: null on an empty queue; otherwise one node of highest priority is taken out. */
    method Pop() returns (r: Option<T>)
      requires Valid()
      modifies this
      ensures Valid()
      ensures r.None? <==> old(heap) == map[]
      ensures r.None? ==> heap == old(heap)
      ensures r.Some? ==> exists id ::
        IsMaximum(old(heap), id) && r.value == old(heap)[id].value && heap == old(heap) - {id}
      ensures nextId == old(nextId) && closed == old(closed) && waitSlot == old(waitSlot)
      ensures nextDeferredId == old(nextDeferredId) && settled == old(settled)
    {
      if heap == map[] {
        return None;
      }
      var id, node := ExtractMaximum();
      inserted := inserted - {id};
      return Some(node.value);
    }
  }

  /**
   * `EnqueuedMessage`: the handle `insert` returns. `node` is the `let node`
   * its closures share, rebound when a lower priority re-inserts the value.
   */
  class EnqueuedMessage<T> {
    const value: T
    var node: nat
    const queue: PriorityQueue<T>

    constructor(value: T, node: nat, queue: PriorityQueue<T>)
      ensures this.value == value && this.node == node && this.queue == queue
    {
      this.value := value;
      this.node := node;
      this.queue := queue;
    }

    /** The handle's entry is still in the queue. */
    ghost predicate IsLive()
      reads this, queue
    {
      node in queue.inserted
    }

    /**
     * `updatePriority`: false for a handle whose entry is gone, changing
     * nothing. Otherwise true: an equal priority changes nothing, a higher one
     * is set in place, and a lower one deletes the node and re-inserts the
     * value under a fresh node that the handle then follows.
     */
    method UpdatePriority(newPriority: real) returns (updated: bool)
      requires queue.Valid()
      modifies this, queue
      ensures queue.Valid()
      ensures updated <==> old(node in queue.inserted)
      ensures queue.closed == old(queue.closed) && queue.waitSlot == old(queue.waitSlot)
      ensures queue.nextDeferredId == old(queue.nextDeferredId) && queue.settled == old(queue.settled)
      ensures updated ==> node in queue.heap && queue.heap[node].priority == newPriority
      ensures !updated || newPriority == old(queue.heap[node].priority) ==>
        node == old(node) && queue.heap == old(queue.heap) && queue.nextId == old(queue.nextId)
      ensures updated && newPriority > old(queue.heap[node].priority) ==>
        && node == old(node) && queue.nextId == old(queue.nextId)
        && queue.heap == old(queue.heap)[node := Node(newPriority, old(queue.heap[node].value))]
      ensures updated && newPriority < old(queue.heap[node].priority) ==>
        && node == old(queue.nextId) && queue.nextId == old(queue.nextId) + 1
        && old(node) != node && old(node) !in queue.heap
        && queue.heap == (old(queue.heap) - {old(node)})[node := Node(newPriority, value)]
    {
      if node !in queue.inserted {
        return false;
      }
      if newPriority == queue.heap[node].priority {
        return true;
      }
      if newPriority > queue.heap[node].priority {
        queue.heap := queue.heap[node := Node(newPriority, queue.heap[node].value)];
        return true;
      }
      queue.DeleteNode(node);
      node := queue.InsertNode(newPriority, value);
      return true;
    }

    /** `remove`: false for a handle whose entry is gone; otherwise exactly that entry leaves. */
    method Remove() returns (removed: bool)
      requires queue.Valid()
      modifies queue
      ensures queue.Valid()
      ensures removed <==> old(node in queue.inserted)
      ensures removed ==> queue.heap == old(queue.heap) - {node} && |queue.heap| == |old(queue.heap)| - 1
      ensures !removed ==> queue.heap == old(queue.heap)
      ensures queue.nextId == old(queue.nextId) && queue.closed == old(queue.closed)
      ensures queue.waitSlot == old(queue.waitSlot)
      ensures queue.nextDeferredId == old(queue.nextDeferredId) && queue.settled == old(queue.settled)
    {
      if node !in queue.inserted {
        return false;
      }
      queue.DeleteNode(node);
      return true;
    }
  }
}
