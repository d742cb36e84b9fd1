/** Client programs that drive the two machines through the scenarios the
    repository's tests exercise, proved from the operations' contracts alone.
    Each scenario is cut into a few short methods, each building on the state
    the previous one promises. */
module Scenarios {
  import opened Errors
  import opened NodeFactory
  import opened TransitionStore
  import opened Graph
  import opened Tree

  datatype Player = Stop | Play | Pause
  datatype Flow = Start | Mid | End

  /** A graph with the BASIC default holding the three given vertices and no
      edge. */
  method ThreeVertices<V(==,!new)>(a: V, b: V, c: V) returns (g: FiniteStateMachineGraph<int, V>)
    requires a != b && b != c && a != c
    ensures fresh(g) && g.Valid() && g.defaultVertexType == Basic
    ensures g.nodes == map[a := CreateNode(a, Basic), b := CreateNode(b, Basic), c := CreateNode(c, Basic)]
  {
    g := new FiniteStateMachineGraph<int, V>.WithBasicDefault();
    var r := g.AddVertex(a);
    r := g.AddVertex(b);
    r := g.AddVertex(c);
  }

  /** A graph holding the vertex `a` of tag `ta` and the vertex `b` of tag
      `tb`, and no edge. */
  method TwoVertices<V(==,!new)>(a: V, ta: VertexType, b: V, tb: VertexType)
    returns (g: FiniteStateMachineGraph<int, V>)
    requires a != b
    ensures fresh(g) && g.Valid()
    ensures g.nodes == map[a := CreateNode(a, ta), b := CreateNode(b, tb)]
  {
    g := new FiniteStateMachineGraph<int, V>.WithBasicDefault();
    var r := g.AddVertexOfType(a, ta);
    r := g.AddVertexOfType(b, tb);
  }

  /** The player's edges out of Stop and Play: Stop -1-> Play,
      Play -1-> Pause, Play -2-> Stop. */
  method PlayerHalf() returns (g: FiniteStateMachineGraph<int, Player>)
    ensures fresh(g) && g.Valid() && g.nodes.Keys == {Stop, Play, Pause}
    ensures g.nodes[Stop].Lookup(1, Play) && g.nodes[Play].Lookup(1, Pause)
    ensures g.nodes[Play].Lookup(2, Stop) && g.nodes[Pause] == CreateNode(Pause, Basic)
    ensures g.nodes[Stop].Type() == Basic && g.nodes[Play].Type() == Basic
  {
    g := ThreeVertices(Stop, Play, Pause);
    var r := g.AddTransition(Stop, Play, 1);
    assert r == Pass && g.nodes[Stop].Lookup(1, Play);
    r := g.AddTransition(Play, Pause, 1);
    assert r == Pass && g.nodes[Play].Lookup(1, Pause);
    r := g.AddTransition(Play, Stop, 2);
    assert r == Pass && g.nodes[Play].Lookup(2, Stop);
  }

  /** The whole player: PlayerHalf's edges plus Pause -1-> Play and
      Pause -2-> Stop. */
  method PlayerGraph() returns (g: FiniteStateMachineGraph<int, Player>)
    ensures fresh(g) && g.Valid() && g.nodes.Keys == {Stop, Play, Pause}
    ensures g.nodes[Stop].Lookup(1, Play) && g.nodes[Play].Lookup(1, Pause)
    ensures g.nodes[Play].Lookup(2, Stop)
    ensures g.nodes[Pause].Lookup(1, Play) && g.nodes[Pause].Lookup(2, Stop)
    ensures g.nodes[Stop].Type() == Basic && g.nodes[Play].Type() == Basic
    ensures g.nodes[Pause].Type() == Basic
  {
    g := PlayerHalf();
    var r := g.AddTransition(Pause, Play, 1);
    assert r == Pass && g.nodes[Pause].Lookup(1, Play);
    r := g.AddTransition(Pause, Stop, 2);
    assert r == Pass && g.nodes[Pause].Lookup(2, Stop);
  }

  /** In any well-formed store holding the five transitions of the player:
      Stop, 1 -> Play, 2 -> Stop, 1 -> Play, 1 -> Pause, 2 -> Stop,
      1 -> Play, 1 -> Pause, 1 -> Play. */
  lemma PlayerWalk(m: Store<int, Player>)
    requires WellFormed(m) && Stop in m && Play in m && Pause in m
    requires m[Stop].Lookup(1, Play) && m[Play].Lookup(1, Pause) && m[Play].Lookup(2, Stop)
    requires m[Pause].Lookup(1, Play) && m[Pause].Lookup(2, Stop)
    ensures Walk(m, Stop, [1, 2, 1, 1, 2, 1, 1, 1]) == Success(Play)
  {
    assert Walk(m, Pause, [1]) == Success(Play);
    assert Walk(m, Play, [1, 1]) == Success(Play);
    assert Walk(m, Stop, [1, 1, 1]) == Success(Play);
    assert Walk(m, Pause, [2, 1, 1, 1]) == Success(Play);
    assert Walk(m, Play, [1, 2, 1, 1, 1]) == Success(Play);
    assert Walk(m, Stop, [1, 1, 2, 1, 1, 1]) == Success(Play);
    assert Walk(m, Play, [2, 1, 1, 2, 1, 1, 1]) == Success(Play);
  }

  /** A three-state player driven through a chain of events. */
  method PlayerChain() {
    var g := PlayerGraph();
    PlayerWalk(g.nodes);
    var reached := g.Traverse(Stop, [1, 2, 1, 1, 2, 1, 1, 1]);
    assert reached == Success(Play);
    assert g.HasTransition(Pause, Stop, 2) == Success(true);
    assert g.GetVertexType(Stop) == Success(Basic);
    assert g.GetVertexType(Play) == Success(Basic);
    assert g.GetVertexType(Pause) == Success(Basic);
  }

  /** A second identical vertex or transition is refused and the first one
      stays. */
  method DuplicateTransition() {
    var g := TwoVertices(Start, Basic, End, Basic);
    var r := g.AddVertex(Start);
    assert r == Fail(AlreadyExists);
    r := g.AddTransition(Start, End, 1);
    assert r == Pass;
    r := g.AddTransition(Start, End, 1);
    assert r == Fail(AlreadyExists);
    assert g.HasTransition(Start, End, 1) == Success(true);
    assert g.HasAnyTransition(Start, End) == Success(true);
    assert g.Size() == 2;
  }

  /** Three BASIC vertices with Start -1-> End, Start -2-> Mid and
      Start -10-> End. */
  method FlowStart() returns (g: FiniteStateMachineGraph<int, Flow>)
    ensures fresh(g) && g.Valid() && g.nodes.Keys == {Start, Mid, End}
    ensures g.nodes[Start].Lookup(1, End) && g.nodes[Start].Lookup(2, Mid)
    ensures g.nodes[Start].Lookup(10, End) && g.nodes[Start].Type() == Basic
    ensures g.nodes[Mid] == CreateNode(Mid, Basic)
  {
    g := ThreeVertices(Start, Mid, End);
    var r := g.AddTransition(Start, End, 1);
    assert r == Pass && g.nodes[Start].Lookup(1, End);
    r := g.AddTransition(Start, Mid, 2);
    assert r == Pass && g.nodes[Start].Lookup(2, Mid);
    r := g.AddTransition(Start, End, 10);
    assert r == Pass && g.nodes[Start].Lookup(10, End);
  }

  /** The flow graph: the edges of FlowStart plus Mid -2-> Mid and
      Mid -3-> End. */
  method FlowGraph() returns (g: FiniteStateMachineGraph<int, Flow>)
    ensures fresh(g) && g.Valid() && g.nodes.Keys == {Start, Mid, End}
    ensures g.nodes[Start].Lookup(1, End) && g.nodes[Start].Lookup(2, Mid)
    ensures g.nodes[Start].Lookup(10, End) && g.nodes[Start].Type() == Basic
    ensures g.nodes[Mid].Lookup(2, Mid) && g.nodes[Mid].Lookup(3, End)
  {
    g := FlowStart();
    var r := g.AddTransition(Mid, Mid, 2);
    assert r == Pass && g.nodes[Mid].Lookup(2, Mid);
    r := g.AddTransition(Mid, End, 3);
    assert r == Pass && g.nodes[Mid].Lookup(3, End);
  }

  /** A walk through the self-loop of Mid reaches End. */
  method SelfLoopWalk() {
    var g := FlowGraph();
    var reached := g.Traverse(Start, [2, 2, 2, 3]);
    ghost var m := g.nodes;
    assert Walk(m, Mid, [3]) == Success(End);
    assert Walk(m, Mid, [2, 3]) == Success(End);
    assert Walk(m, Mid, [2, 2, 3]) == Success(End);
    assert reached == Success(End);
  }

  /** The flow graph after removing Mid: every edge that touched Mid is gone
      and no other edge. */
  method FlowWithoutMid() returns (g: FiniteStateMachineGraph<int, Flow>)
    ensures fresh(g) && g.Valid() && g.nodes.Keys == {Start, End}
    ensures g.nodes[Start].Lookup(1, End) && g.nodes[Start].Lookup(10, End)
    ensures !g.nodes[Start].HasChild(2) && g.nodes[Start].Type() == Basic
  {
    g := FlowGraph();
    ghost var m := g.nodes;
    assert g.Size() == 3;
    var r := g.RemoveVertex(Mid);
    assert r == Pass && g.nodes.Keys == {Start, End};
    assert g.nodes[Start] == m[Start].RemoveChildrenTo(Mid);
    assert g.nodes[Start].Lookup(1, End) && g.nodes[Start].Lookup(10, End);
    assert !g.nodes[Start].Lookup(2, m[Start].children[2]);
  }

  /** Removing the middle vertex keeps the other edges, frees edge 2 of Start
      and lets it be redefined. */
  method CascadingRemoval() {
    var g := FlowWithoutMid();
    assert !g.HasVertex(Mid) && g.Size() == 2;
    assert Transition(Start, 1, End) in Edges(g.nodes);
    assert g.HasTransition(Start, End, 1) == Success(true);
    assert g.HasTransition(Start, Mid, 2) == Failure(NotFound);
    var r := g.AddTransition(Start, End, 2);
    assert r == Pass;
    var reached := g.Traverse(Start, [2]);
    assert reached == Success(End);
  }

  /** An undefined edge leaves a LOOPED vertex in place and aborts at a
      BASIC one. */
  method UndefinedEdges() {
    var g := TwoVertices(Start, Basic, End, Looped);
    var r := g.AddTransition(Start, End, 1);
    var reached := g.Traverse(Start, [1, 10]);
    assert reached == Success(End);
    reached := g.Traverse(Start, [10]);
    assert reached == Failure(NotFound);
  }

  /** A batch whose third edge repeats the first. */
  method BatchInserted() returns (g: FiniteStateMachineGraph<int, Flow>, r: Outcome)
    ensures fresh(g) && g.Valid() && g.nodes.Keys == {Start, End}
    ensures r == Fail(AlreadyExists)
    ensures g.nodes[Start] == InsertEdges(CreateNode(Start, Basic), [1, 2], End)
  {
    g := TwoVertices(Start, Basic, End, Basic);
    assert g.nodes[Start].children.Keys == {};
    assert FirstDuplicate({}, [1, 2, 1, 3]) == 2;
    assert [1, 2, 1, 3][..2] == [1, 2];
    r := g.AddTransitions(Start, End, [1, 2, 1, 3]);
  }

  /** A failed batch insertion keeps the edges inserted before the
      duplicate and inserts none after it. */
  method PartialBatch() {
    var g, r := BatchInserted();
    assert g.nodes[Start].Lookup(2, End) && !g.nodes[Start].HasChild(3);
    assert g.HasTransition(Start, End, 2) == Success(true);
    assert g.HasTransition(Start, End, 3) == Success(false);
  }

  /** A tree rooted at Start with the leaves End (edge 1) and Mid (edge 10),
      both created by addTransition. */
  method TreeLeaves() returns (t: FSMTree<int, Flow>)
    ensures fresh(t) && t.Valid() && t.root == Start && t.rootAttached
    ensures t.defaultVertexType == Basic
    ensures t.nodes.Keys == {Start, End, Mid} && t.nodes[Start].children == map[1 := End, 10 := Mid]
    ensures t.nodes[End].children == map[] && t.nodes[Mid].children == map[]
  {
    t := new FSMTree<int, Flow>.WithBasicDefault(Start);
    var r := t.AddTransition(Start, End, 1);
    assert r == Pass;
    assert t.nodes.Keys == {Start, End} && t.nodes[Start].children == map[1 := End];
    assert t.nodes[End] == CreateNode(End, Basic);
    r := t.AddTransition(Start, Mid, 10);
    assert r == Pass;
    assert t.nodes[Mid] == CreateNode(Mid, Basic) && t.nodes[End] == CreateNode(End, Basic);
  }

  /** In the tree of TreeLeaves, cutting edge 10 leaves Mid with no edge out
      and none in. */
  lemma MidOrphaned(m: Store<int, Flow>)
    requires m.Keys == {Start, End, Mid} && m[Start].children == map[1 := End, 10 := Mid]
    requires m[End].children == map[] && m[Mid].children == map[]
    ensures var cut := m[Start := m[Start].RemoveChild(10)];
      cut[Mid].ChildCount() == 0 && HasNoEdgesLeftTo(cut, Mid) && cut[Start].children == map[1 := End]
  {
    var cut := m[Start := m[Start].RemoveChild(10)];
    assert cut[Start].children == map[1 := End];
    assert cut.Keys == {Start, End, Mid};
    assert Mid !in cut[Start].Children() && Mid !in cut[End].Children();
  }

  /** Removing the last edge into the leaf Mid removes Mid too. */
  method TreePruned() returns (t: FSMTree<int, Flow>)
    ensures fresh(t) && t.Valid() && t.root == Start && t.rootAttached
    ensures t.nodes.Keys == {Start, End} && t.nodes[Start].children == map[1 := End]
    ensures t.nodes[Start].Type() == Basic
  {
    t := TreeLeaves();
    MidOrphaned(t.nodes);
    var r := t.RemoveTransition(Start, Mid, 10);
    assert r == Pass;
  }

  /** After the pruning the other leaf stays and the removed edge no longer
      leads anywhere. */
  method TreePruning() {
    var t := TreePruned();
    assert !t.HasVertex(Mid) && t.Size() == 2;
    assert t.nodes[Start].Lookup(1, End);
    assert t.HasTransition(Start, End, 1) == Success(true);
    assert t.HasTransition(Start, Mid, 10) == Failure(NotFound);
    var reached := t.Traverse([10]);
    assert reached == Failure(NotFound);
  }

  /** Pruning the root: a LOOPED root whose only edge is its self-loop. */
  method RootPruned() returns (t: FSMTree<int, Flow>)
    ensures fresh(t) && t.Valid() && t.root == Start && t.defaultVertexType == Looped
    ensures t.nodes == map[] && !t.rootAttached
  {
    t := new FSMTree<int, Flow>(Start, Looped);
    var r := t.AddTransition(Start, Start, 1);
    assert r == Pass && t.nodes.Keys == {Start} && t.nodes[Start].children == map[1 := Start];
    ghost var cut := t.nodes[Start := t.nodes[Start].RemoveChild(1)];
    assert cut[Start].children == map[] && cut.Keys == {Start};
    r := t.RemoveTransition(Start, Start, 1);
    assert r == Pass && t.nodes.Keys == {};
  }

  /** The root vertex has left the store, yet traversal from the root still
      starts at the node held as the root. */
  method TreeRootPruned() {
    var t := RootPruned();
    assert !t.HasVertex(Start) && t.Size() == 0;
    var reached := t.Traverse([1, 2]);
    assert Walk(t.RootStore(), Start, [2]) == Success(Start);
    assert reached == Success(Start);
    reached := t.TraverseFrom(Start, []);
    assert reached == Failure(NotFound);
  }
}
