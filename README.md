# dynamic-fsm in Dafny

A model of the core of `dynamic-fsm`, a small Java library for labelled
finite state machines, and proofs about that model. A machine maps each
vertex value to a node. A node holds an adjacency table from edge label to
target node. A node comes in one of two variants:

- a BASIC node (`DefaultNode`) fails with not-found when a lookup names an
  edge it has no entry for;
- a LOOPED node (`LoopedNode`) answers such a lookup with itself, so an
  undefined edge acts as a self-loop.

Traversal is a left fold of that lookup over a sequence of edges, and it
yields the value of the node it ends on.

The model has these modules:

- `Errors`: the two failure conditions `NotFound` and `AlreadyExists`, and
  two result types: `Result`, a value or a failure, and `Outcome`, a pass or
  a failure. The Java exceptions become these values:
  `NoSuchElementException` is `NotFound`, and `IllegalArgumentException`
  for a duplicate is `AlreadyExists`.
- `NodeFactory`: the `Node` datatype with both variants, and `CreateNode`,
  the factory.
- `TransitionStore`: the `map<V, Node>` that both machines own.
  - It defines the store invariant: every node is stored under its own
    value, and every adjacency target is stored.
  - It defines the transition relation `Edges` that a store represents.
  - It holds the queries and traversal that both machines share, the
    cleanup a vertex removal performs, and the orphan test of the tree.
  - Its lemmas say how each store mutation changes the invariant and the
    relation.
- `Graph`: the class `FiniteStateMachineGraph`, with guarded vertex and
  transition mutations, queries, traversal, `clear`, and a vertex iterator.
  The batch insertion `addTransitions` is specified by `InsertEdges` and
  `FirstDuplicate`.
- `Tree`: the class `FSMTree`, a rooted machine. It creates the target of
  a new transition on demand. When a transition removal leaves the target
  with no outgoing edge and no edge into it from another vertex, the
  target is pruned.
- `Scenarios`: client methods that replay the repository's tests, plus two
  scenarios: a batch insertion and the pruning of the root. They use only
  the operations' contracts.

A node refers to its targets by their vertex values. In a well-formed
store, a value names exactly one node, so this stands for the Java object
references. Updating a node in place becomes replacing the value stored
under its key.

Three places where the code decides something itself:

- `removeVertex` calls `removeChild(node)` on every other vertex that has
  edges. `Node.java` declares only `removeChild(key)`. The model follows the
  call's evident meaning, given by the comment above the loop at line 108:
  it removes every entry that targets the removed node. This is `Node.RemoveChildrenTo`.
- `getVertexType` calls `getType()` on a node (FiniteStateMachineGraph.java
  line 144, FSMTree.java line 87), which `Node.java` does not declare either.
  `Node.Type` follows the two implementations in `NodeFactory.java`, lines
  66-69 and 83-86.
- The tree keeps its root as a separate reference. If a removal prunes the
  root vertex, the code still traverses from the held root node, which now
  has no edges. The field `FSMTree.rootAttached` records whether the held
  root is still the stored node. `RootStore` is the store that a traversal
  from the root sees.
- A node leaves a machine not only through `removeVertex`:
  `FSMTree.removeTransition` also removes the target's node when the target
  is an orphan (FSMTree.java lines 80-82). The model does the same.

## Model

| member | source | states |
|---|---|---|
| `NodeFactory.CreateNode` | src/main/java/io/github/averude/fsm/NodeFactory.java:9-14 | the new node carries the given value and tag, has no edges, and answers every lookup with itself (LOOPED) or not-found (BASIC) |
| `NodeFactory.Node.Type` | src/main/java/io/github/averude/fsm/NodeFactory.java:66-86 | the tag is LOOPED exactly for the `LoopedNode` variant |
| `NodeFactory.Node.HasChild` | src/main/java/io/github/averude/fsm/NodeFactory.java:45-48 | true iff the edge maps to some target |
| `NodeFactory.Node.ChildCount` | src/main/java/io/github/averude/fsm/NodeFactory.java:30-33 | zero iff no edge is defined |
| `NodeFactory.Node.Children` | src/main/java/io/github/averude/fsm/NodeFactory.java:35-38 | a node is a child iff some edge maps to it |
| `NodeFactory.Node.AddChild` | src/main/java/io/github/averude/fsm/NodeFactory.java:20-23 | the edge now maps to the child, whether it was defined before or not; every other mapping, the tag and the value are unchanged; the count grows by one only for a new edge |
| `NodeFactory.Node.RemoveChild` | src/main/java/io/github/averude/fsm/NodeFactory.java:25-28 | the edge is undefined afterwards and every other mapping stays; the count drops by one only if the edge was defined; an undefined edge changes nothing |
| `NodeFactory.Node.RemoveChildrenTo` | src/main/java/io/github/averude/fsm/FiniteStateMachineGraph.java:109-114 | exactly the mappings into the target are removed, so the target is no longer a child; a node with no edge into the target is unchanged |
| `NodeFactory.Node.GetChild` | src/main/java/io/github/averude/fsm/NodeFactory.java:57-81 | a defined edge yields its target; an undefined edge fails with not-found on a BASIC node and yields the node itself on a LOOPED node, which never fails |
| `TransitionStore.GetNode` | src/main/java/io/github/averude/fsm/FiniteStateMachineGraph.java:272-278 | succeeds iff the vertex is stored and yields the node holding that vertex; otherwise not-found |
| `TransitionStore.VertexTypeOf` | src/main/java/io/github/averude/fsm/FiniteStateMachineGraph.java:143-145 | the tag of a stored vertex; not-found iff the vertex is absent |
| `TransitionStore.CheckTransition` | src/main/java/io/github/averude/fsm/FiniteStateMachineGraph.java:212-219 | not-found iff either vertex is absent; otherwise true iff `from --e--> to` is in the transition relation |
| `TransitionStore.CheckAnyTransition` | src/main/java/io/github/averude/fsm/FiniteStateMachineGraph.java:231-238 | not-found iff either vertex is absent; otherwise true iff some edge leads from `from` to `to` |
| `TransitionStore.Walk` | src/main/java/io/github/averude/fsm/FiniteStateMachineGraph.java:310-319 | the empty walk yields its start; a walk ends on a stored vertex or fails with not-found |
| `TransitionStore.Run` | src/main/java/io/github/averude/fsm/FiniteStateMachineGraph.java:310-319 | the traversal loop yields exactly the fold `Walk` |
| `TransitionStore.Detach` | src/main/java/io/github/averude/fsm/FiniteStateMachineGraph.java:105-118 | the removed vertex's key is gone and every other key stays (`DetachPreserves` states the rest) |
| `TransitionStore.HasNoEdgesLeftTo` | src/main/java/io/github/averude/fsm/FSMTree.java:109-114 | true iff every transition into the vertex starts at the vertex itself |
| `TransitionStore.WalkAppend` | src/main/java/io/github/averude/fsm/FiniteStateMachineGraph.java:310-319 | the traversal is a fold: walking `xs + ys` is walking `xs`, then `ys` from where `xs` ended, and a failure in `xs` is the failure of the whole |
| `TransitionStore.LoopedStaysOnUndefined` | src/main/java/io/github/averude/fsm/NodeFactory.java:78-81 | a LOOPED vertex stays where it is under any sequence of edges it does not define |
| `TransitionStore.BasicFailsOnUndefined` | src/main/java/io/github/averude/fsm/NodeFactory.java:57-64 | a BASIC vertex fails the traversal with not-found on an edge it does not define, whatever follows |
| `TransitionStore.AllLoopedNeverFails` | src/main/java/io/github/averude/fsm/NodeFactory.java:78-81 | in a machine whose vertices are all LOOPED, no traversal fails |
| `TransitionStore.AddNodePreserves` | src/main/java/io/github/averude/fsm/FiniteStateMachineGraph.java:83-93 | adding a fresh vertex keeps the store well formed, adds no transition and grows the size by one |
| `TransitionStore.AddChildWellFormed` | src/main/java/io/github/averude/fsm/FiniteStateMachineGraph.java:159-169 | an edge between two stored vertices keeps the store well formed |
| `TransitionStore.AddChildPreserves` | src/main/java/io/github/averude/fsm/FiniteStateMachineGraph.java:159-169 | a new edge keeps the store well formed and adds exactly that one transition |
| `TransitionStore.RemoveChildWellFormed` | src/main/java/io/github/averude/fsm/FiniteStateMachineGraph.java:252-259 | removing an edge keeps the store well formed |
| `TransitionStore.RemoveChildPreserves` | src/main/java/io/github/averude/fsm/FiniteStateMachineGraph.java:252-259 | removing `from --e--> to` keeps the store well formed and removes exactly that transition |
| `TransitionStore.DetachPreserves` | src/main/java/io/github/averude/fsm/FiniteStateMachineGraph.java:105-118 | after a vertex removal the vertex is gone, the size drops by one, no node keeps an edge into it, the store stays well formed, and the transitions kept are exactly those that neither leave nor enter the vertex |
| `TransitionStore.PruneOrphanWellFormed` | src/main/java/io/github/averude/fsm/FSMTree.java:69-83 | removing an orphan vertex keeps the store well formed and shrinks it by one |
| `TransitionStore.PruneOrphanPreserves` | src/main/java/io/github/averude/fsm/FSMTree.java:69-83 | removing an orphan vertex also loses no transition |
| `Graph.InsertEdges` | src/main/java/io/github/averude/fsm/FiniteStateMachineGraph.java:192-198 | after the batch, every edge of the batch maps to the target and every other mapping is the node's old one; tag and value are unchanged |
| `Graph.FirstDuplicate` | src/main/java/io/github/averude/fsm/FiniteStateMachineGraph.java:192-198 | the edges before the index are neither defined at the start nor repeated earlier in the batch, and the edge at the index is one of those; the index is the batch length iff the batch has no repeat and no edge defined at the start |
| `Graph.InsertEdgesWellFormed` | src/main/java/io/github/averude/fsm/FiniteStateMachineGraph.java:185-199 | a batch into a stored target keeps the store well formed |
| `Graph.InsertEdgesStep` | src/main/java/io/github/averude/fsm/FiniteStateMachineGraph.java:192-198 | one more turn of the batch loop inserts one more edge |
| `Graph.DuplicateCheckAt` | src/main/java/io/github/averude/fsm/FiniteStateMachineGraph.java:192-195 | during the batch, the duplicate check on the current node fails exactly at the index `FirstDuplicate` names |
| `Graph.InsertEdgesAdds` | src/main/java/io/github/averude/fsm/FiniteStateMachineGraph.java:185-199 | a batch of edges not defined at `from` adds exactly the transitions `from --e--> to`, one for each edge of the batch |
| `Graph.Enumerate` | src/main/java/io/github/averude/fsm/FiniteStateMachineGraph.java:352-369 | lists every vertex of the set exactly once |
| `Graph.VertexIterator.constructor` | src/main/java/io/github/averude/fsm/FiniteStateMachineGraph.java:354 | the iterator starts over the given vertices with none handed out |
| `Graph.VertexIterator.HasNext` | src/main/java/io/github/averude/fsm/FiniteStateMachineGraph.java:357-359 | true iff some vertex has not been handed out yet |
| `Graph.VertexIterator.Next` | src/main/java/io/github/averude/fsm/FiniteStateMachineGraph.java:362-367 | hands out the next pending vertex, one not handed out before; not-found, changing nothing, once all are handed out |
| `Graph.ExhaustedIteratorYieldedAll` | src/main/java/io/github/averude/fsm/FiniteStateMachineGraph.java:352-369 | an exhausted iterator has handed out every vertex exactly once |
| `Graph.FiniteStateMachineGraph.constructor` | src/main/java/io/github/averude/fsm/FiniteStateMachineGraph.java:56-58 | an empty graph with the given default tag |
| `Graph.FiniteStateMachineGraph.WithBasicDefault` | src/main/java/io/github/averude/fsm/FiniteStateMachineGraph.java:46-48 | an empty graph whose default tag is BASIC |
| `Graph.FiniteStateMachineGraph.AddVertex` | src/main/java/io/github/averude/fsm/FiniteStateMachineGraph.java:69-71 | as `AddVertexOfType` with the default tag |
| `Graph.FiniteStateMachineGraph.AddVertexOfType` | src/main/java/io/github/averude/fsm/FiniteStateMachineGraph.java:83-93 | already-exists, changing nothing, for a present vertex; otherwise adds exactly a node of the given tag with no edges, and the size grows by one |
| `Graph.FiniteStateMachineGraph.RemoveVertex` | src/main/java/io/github/averude/fsm/FiniteStateMachineGraph.java:105-118 | not-found, changing nothing, for an absent vertex; otherwise the store becomes `Detach` of the old one: the vertex is gone, the size drops by one, and the invariant holds |
| `Graph.FiniteStateMachineGraph.HasVertex` | src/main/java/io/github/averude/fsm/FiniteStateMachineGraph.java:128-131 | true iff the vertex is stored |
| `Graph.FiniteStateMachineGraph.GetVertexType` | src/main/java/io/github/averude/fsm/FiniteStateMachineGraph.java:143-145 | the vertex's tag; not-found iff the vertex is absent |
| `Graph.FiniteStateMachineGraph.AddTransition` | src/main/java/io/github/averude/fsm/FiniteStateMachineGraph.java:159-169 | checks in the code's order, each failure changing nothing: `from` absent gives not-found, edge already defined at `from` gives already-exists, `to` absent gives not-found; otherwise `from` gains exactly that edge |
| `Graph.FiniteStateMachineGraph.AddTransitions` | src/main/java/io/github/averude/fsm/FiniteStateMachineGraph.java:185-199 | not-found, changing nothing, unless both vertices are stored; otherwise the edges before the first duplicate are inserted and kept, and the call fails with already-exists iff there is a duplicate |
| `Graph.FiniteStateMachineGraph.HasTransition` | src/main/java/io/github/averude/fsm/FiniteStateMachineGraph.java:212-219 | not-found, not false, iff either vertex is absent; otherwise true iff the edge leads from `from` to exactly `to` |
| `Graph.FiniteStateMachineGraph.HasAnyTransition` | src/main/java/io/github/averude/fsm/FiniteStateMachineGraph.java:231-238 | not-found iff either vertex is absent; otherwise true iff some edge leads from `from` to `to` |
| `Graph.FiniteStateMachineGraph.RemoveTransition` | src/main/java/io/github/averude/fsm/FiniteStateMachineGraph.java:252-259 | not-found, changing nothing, unless the exact transition exists; otherwise only that entry goes, and every vertex stays |
| `Graph.FiniteStateMachineGraph.Traverse` | src/main/java/io/github/averude/fsm/FiniteStateMachineGraph.java:294-297 | not-found for an absent start; otherwise the fold `Walk` from the start, which ends on a stored vertex |
| `Graph.FiniteStateMachineGraph.Size` | src/main/java/io/github/averude/fsm/FiniteStateMachineGraph.java:327-329 | the number of stored vertices |
| `Graph.FiniteStateMachineGraph.Clear` | src/main/java/io/github/averude/fsm/FiniteStateMachineGraph.java:336-338 | no vertex is left and the size is zero |
| `Graph.FiniteStateMachineGraph.Iterator` | src/main/java/io/github/averude/fsm/FiniteStateMachineGraph.java:352-369 | a fresh iterator over exactly the stored vertices, none handed out |
| `Tree.FSMTree.RootNode` | src/main/java/io/github/averude/fsm/FSMTree.java:18-22 | the held root node carries the root value and the default tag, and has no edges once it is detached |
| `Tree.FSMTree.RootStore` | src/main/java/io/github/averude/fsm/FSMTree.java:116-119 | a well-formed store in which the root value names the held root node |
| `Tree.FSMTree.constructor` | src/main/java/io/github/averude/fsm/FSMTree.java:18-22 | the tree holds exactly the root, a node of the given tag with no edges |
| `Tree.FSMTree.WithBasicDefault` | src/main/java/io/github/averude/fsm/FSMTree.java:14-16 | as the constructor with BASIC |
| `Tree.FSMTree.AddTransition` | src/main/java/io/github/averude/fsm/FSMTree.java:24-27 | as `AddTransitionOfType` with the default tag |
| `Tree.FSMTree.AddTransitionOfType` | src/main/java/io/github/averude/fsm/FSMTree.java:29-41 | not-found for an absent `from`, already-exists for an edge defined at `from`, each changing nothing; otherwise an absent `to` is created with the given tag, an existing one keeps its own, and `from` gains the edge |
| `Tree.FSMTree.HasTransition` | src/main/java/io/github/averude/fsm/FSMTree.java:43-51 | not-found iff either vertex is absent; otherwise true iff the edge leads from `from` to exactly `to` |
| `Tree.FSMTree.HasAnyTransition` | src/main/java/io/github/averude/fsm/FSMTree.java:53-61 | not-found iff either vertex is absent; otherwise true iff some edge leads from `from` to `to` |
| `Tree.FSMTree.HasVertex` | src/main/java/io/github/averude/fsm/FSMTree.java:63-67 | true iff the vertex is stored |
| `Tree.FSMTree.GetVertexType` | src/main/java/io/github/averude/fsm/FSMTree.java:85-88 | the vertex's tag; not-found iff the vertex is absent |
| `Tree.FSMTree.RemoveTransition` | src/main/java/io/github/averude/fsm/FSMTree.java:69-83 | not-found, changing nothing, unless the exact transition exists; otherwise the edge goes, and the target goes too iff it is then an orphan; pruning the root vertex detaches the held root |
| `Tree.FSMTree.Traverse` | src/main/java/io/github/averude/fsm/FSMTree.java:116-119 | the fold `Walk` from the held root node |
| `Tree.FSMTree.TraverseFrom` | src/main/java/io/github/averude/fsm/FSMTree.java:121-136 | not-found for an absent start; otherwise the fold `Walk` from its node, ending on a stored vertex |
| `Tree.FSMTree.Size` | src/main/java/io/github/averude/fsm/FSMTree.java:138-141 | the number of stored vertices |
| `Scenarios.PlayerGraph` | src/test/java/io/github/averude/fsm/FiniteStateMachineGraphTest.java:116-129 | the five player transitions are all defined, and Stop, Play and Pause are all BASIC |
| `Scenarios.PlayerWalk` | src/test/java/io/github/averude/fsm/FiniteStateMachineGraphTest.java:131-134 | in any well-formed store with the player's transitions, the walk `1, 2, 1, 1, 2, 1, 1, 1` from Stop ends at Play |
| `Scenarios.FlowWithoutMid` | src/test/java/io/github/averude/fsm/FiniteStateMachineGraphTest.java:229-262 | removing Mid from the flow graph leaves Start and End, keeps edges 1 and 10 from Start to End and frees edge 2 |
| `Scenarios.BatchInserted` | src/main/java/io/github/averude/fsm/FiniteStateMachineGraph.java:185-199 | the batch `1, 2, 1, 3` fails with already-exists and leaves edges 1 and 2 inserted and edge 3 not |
| `Scenarios.TreeLeaves` | src/test/java/io/github/averude/fsm/FSMTreeTest.java:158-165 | adding transitions to two new targets creates both as leaves of the root |
| `Scenarios.MidOrphaned` | src/test/java/io/github/averude/fsm/FSMTreeTest.java:158-175 | cutting the only edge into a leaf makes it an orphan |
| `Scenarios.TreePruned` | src/test/java/io/github/averude/fsm/FSMTreeTest.java:167-175 | removing that edge removes the leaf as well and keeps the other edge |
| `Scenarios.RootPruned` | src/main/java/io/github/averude/fsm/FSMTree.java:69-83 | removing the only edge of a LOOPED root, its self-loop, prunes the root vertex and detaches the held root |

## Left out

- Null checks and `NullPointerException`: Dafny values cannot be null.
- Exception messages: errors are the values `NotFound` and `AlreadyExists`.
- HashMap iteration order: the iterator lists the vertices in an order left open.
- Fail-fast iteration: the iterator works on a snapshot of the vertex set. Changing the graph while iterating is not modelled.
- `Iterator.remove`: not modelled.
- `equals` and `hashCode` of user values: a vertex is identified by Dafny equality of `V`, and an edge by equality of `E`.
- Concurrency: the library is single-threaded.
- `size()` returns a 32-bit `int`. The model counts with an unbounded `nat`, because a map of more than 2^31 nodes is out of reach.
- `getChildren()` returns a collection of nodes with repeats. The model returns the set of targets, because the code only asks whether a node is in it.
- `getValue()`: it is the datatype field `value`.
- The `Iterable<E>` argument of `addTransitions` and `traverse` becomes a finite `seq<E>`. An unbounded `Iterable` is not modelled; with one, the Java loop may never end (on a LOOPED node it never fails).
- In-place node mutation and aliasing: a node is a value stored under its key. Replacing that value is the update.
- The interfaces `FiniteStateMachine`, `MutableFiniteStateMachine` and `Node` are not part of this model. `VertexTypes` is the datatype `VertexType`.
- `FSMTree` lacks `addVertex`, `removeVertex`, `addTransitions` and `clear`, which `MutableFiniteStateMachine` declares. It also does not match that interface's `Iterable` overloads. The model covers only what `FSMTree.java` defines.
- The mutation methods state the new store. Their effect on the transition relation `Edges` is stated by the `TransitionStore` lemmas beside them, not by the methods' contracts.
- TransitionStore.Detach: its contract states only its key set; `DetachPreserves` states the edges it keeps and removes.
