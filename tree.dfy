/** The rooted variant of the machine: it starts from a root vertex, creates
    the target of a new transition on demand and prunes a target that a
    transition removal leaves orphaned. */
module Tree {
  import opened Errors
  import opened NodeFactory
  import opened TransitionStore

  class FSMTree<E(==,!new), V(==,!new)> {
    /** The tag of the root and of targets created without one. */
    const defaultVertexType: VertexType
    /** The vertex of the root node. */
    const root: V
    var nodes: Store<E, V>
    /** Whether the node held as the root is still the node stored under
        `root`. A removal that prunes the root vertex leaves the root node
        behind, with no edges; a vertex created later under the same value
        is a different node. */
    var rootAttached: bool

    ghost predicate Valid() reads this {
      && WellFormed(nodes)
      && (rootAttached ==> root in nodes && nodes[root].Type() == defaultVertexType)
    }

    ghost function Vertices(): set<V> reads this {
      nodes.Keys
    }

    /** The node held as the root. */
    function RootNode(): (n: Node<E, V>)
      reads this
      requires Valid()
      ensures n.value == root && n.Type() == defaultVertexType
      ensures !rootAttached ==> n.ChildCount() == 0
    {
      if rootAttached then nodes[root] else CreateNode(root, defaultVertexType)
    }

    /** The nodes a traversal from the root can reach. */
    function RootStore(): (m: Store<E, V>)
      reads this
      requires Valid()
      ensures WellFormed(m) && root in m && m[root] == RootNode()
    {
      if rootAttached then nodes else map[root := RootNode()]
    }

    /** FSMTree(root, t): the store holds exactly the root, a node of tag `t`. */
    constructor (root: V, defaultVertexType: VertexType)
      ensures Valid() && this.root == root && this.defaultVertexType == defaultVertexType
      ensures nodes == map[root := CreateNode(root, defaultVertexType)] && rootAttached
      ensures Size() == 1 && Vertices() == {root}
    {
      this.root := root;
      this.defaultVertexType := defaultVertexType;
      nodes := map[root := CreateNode(root, defaultVertexType)];
      rootAttached := true;
    }

    /** FSMTree(root): BASIC is the default tag. */
    constructor WithBasicDefault(root: V)
      ensures Valid() && this.root == root && defaultVertexType == Basic
      ensures nodes == map[root := CreateNode(root, Basic)] && rootAttached
      ensures Size() == 1 && Vertices() == {root}
    {
      this.root := root;
      defaultVertexType := Basic;
      nodes := map[root := CreateNode(root, Basic)];
      rootAttached := true;
    }

    /** addTransition(from, to, e): a missing target gets the default tag. */
    method AddTransition(from: V, to: V, e: E) returns (r: Outcome)
      requires Valid()
      modifies this
      ensures Valid() && rootAttached == old(rootAttached)
      ensures from !in old(nodes) ==> r == Fail(NotFound) && nodes == old(nodes)
      ensures from in old(nodes) && old(nodes)[from].HasChild(e) ==>
        r == Fail(AlreadyExists) && nodes == old(nodes)
      ensures from in old(nodes) && !old(nodes)[from].HasChild(e) ==>
        var withTo := if to in old(nodes) then old(nodes) else old(nodes)[to := CreateNode(to, defaultVertexType)];
        && r == Pass && nodes == withTo[from := withTo[from].AddChild(e, to)]
        && Size() == (if to in old(nodes) then old(Size()) else old(Size()) + 1)
    {
      r := AddTransitionOfType(from, to, e, defaultVertexType);
    }

    /** addTransition(from, to, e, t): not-found when `from` is absent,
        already-exists when `e` is defined at `from`, each changing nothing.
        Otherwise `to` is created with tag `t` only if it is absent (an
        existing target keeps its tag), and `from` gains `e -> to`. */
    method AddTransitionOfType(from: V, to: V, e: E, t: VertexType) returns (r: Outcome)
      requires Valid()
      modifies this
      ensures Valid() && rootAttached == old(rootAttached)
      ensures from !in old(nodes) ==> r == Fail(NotFound) && nodes == old(nodes)
      ensures from in old(nodes) && old(nodes)[from].HasChild(e) ==>
        r == Fail(AlreadyExists) && nodes == old(nodes)
      ensures from in old(nodes) && !old(nodes)[from].HasChild(e) ==>
        var withTo := if to in old(nodes) then old(nodes) else old(nodes)[to := CreateNode(to, t)];
        && r == Pass && nodes == withTo[from := withTo[from].AddChild(e, to)]
        && Size() == (if to in old(nodes) then old(Size()) else old(Size()) + 1)
    {
      if from !in nodes {
        return Fail(NotFound);
      }
      if nodes[from].HasChild(e) {
        return Fail(AlreadyExists);
      }
      if to !in nodes {
        AddNodePreserves(nodes, to, t);
        nodes := nodes[to := CreateNode(to, t)];
      }
      AddChildWellFormed(nodes, from, e, to);
      nodes := nodes[from := nodes[from].AddChild(e, to)];
      r := Pass;
    }

    /** hasTransition(from, to, e), as in the graph. */
    function HasTransition(from: V, to: V, e: E): (r: Result<bool>)
      reads this
      requires Valid()
      ensures r.Failure? <==> from !in Vertices() || to !in Vertices()
      ensures r.Failure? ==> r.error == NotFound
      ensures r.Success? ==> (r.value <==> Transition(from, e, to) in Edges(nodes))
    {
      CheckTransition(nodes, from, to, e)
    }

    /** hasAnyTransition(from, to), as in the graph. */
    function HasAnyTransition(from: V, to: V): (r: Result<bool>)
      reads this
      requires Valid()
      ensures r.Failure? <==> from !in Vertices() || to !in Vertices()
      ensures r.Failure? ==> r.error == NotFound
      ensures r.Success? ==> (r.value <==> exists e :: Transition(from, e, to) in Edges(nodes))
    {
      CheckAnyTransition(nodes, from, to)
    }

    function HasVertex(v: V): (b: bool)
      reads this
      ensures b <==> v in Vertices()
    {
      v in nodes
    }

    /** getVertexType(v): not-found when `v` is absent. */
    function GetVertexType(v: V): (r: Result<VertexType>)
      reads this
      ensures r.Success? <==> v in Vertices()
      ensures r.Failure? ==> r.error == NotFound
      ensures r.Success? ==> r.value == nodes[v].Type()
    {
      VertexTypeOf(nodes, v)
    }

    /** removeTransition(from, to, e): not-found, changing nothing, unless
        `e` leads from `from` to exactly `to`. Otherwise the edge goes, and
        then `to` goes too iff it has no outgoing edge left and no vertex but
        itself has an edge into it. */
    method RemoveTransition(from: V, to: V, e: E) returns (r: Outcome)
      requires Valid()
      modifies this
      ensures Valid()
      ensures old(HasTransition(from, to, e)) != Success(true) ==>
        r == Fail(NotFound) && nodes == old(nodes) && rootAttached == old(rootAttached)
      ensures old(HasTransition(from, to, e)) == Success(true) ==>
        var cut := old(nodes)[from := old(nodes)[from].RemoveChild(e)];
        var orphan := cut[to].ChildCount() == 0 && HasNoEdgesLeftTo(cut, to);
        && r == Pass && nodes == (if orphan then cut - {to} else cut)
        && rootAttached == (old(rootAttached) && !(orphan && to == root))
    {
      if HasTransition(from, to, e) != Success(true) {
        return Fail(NotFound);
      }
      assert Transition(from, e, to) in Edges(nodes);
      var cut := nodes[from := nodes[from].RemoveChild(e)];
      RemoveChildWellFormed(nodes, from, e);
      assert rootAttached ==> root in cut && cut[root].Type() == defaultVertexType;
      if cut[to].ChildCount() == 0 && HasNoEdgesLeftTo(cut, to) {
        PruneOrphanWellFormed(cut, to);
        nodes := cut - {to};
        if to == root {
          rootAttached := false;
        }
      } else {
        nodes := cut;
      }
      r := Pass;
    }

    /** traverse(es): the left fold of getChild over `es` from the root node. */
    method Traverse(es: seq<E>) returns (r: Result<V>)
      requires Valid()
      ensures r == Walk(RootStore(), root, es)
      ensures rootAttached ==> r.Success? ==> r.value in Vertices()
    {
      r := Run(RootStore(), root, es);
    }

    /** traverse(v, es): not-found when `v` is absent; otherwise the fold
        from the node of `v`. */
    method TraverseFrom(v: V, es: seq<E>) returns (r: Result<V>)
      requires Valid()
      ensures v !in Vertices() ==> r == Failure(NotFound)
      ensures v in Vertices() ==> r == Walk(nodes, v, es)
      ensures r.Success? ==> r.value in Vertices()
    {
      if v !in nodes {
        return Failure(NotFound);
      }
      r := Run(nodes, v, es);
    }

    function Size(): (n: nat)
      reads this
      ensures n == |Vertices()|
    {
      |nodes|
    }
  }
}
