/** The mutable labelled transition graph: a class owning the vertex-to-node
    store, with guarded mutations, queries, traversal and iteration. */
module Graph {
  import opened Errors
  import opened NodeFactory
  import opened TransitionStore

  /** No element of `s` occurs twice. */
  ghost predicate Distinct<T>(s: seq<T>) {
    forall i, j :: 0 <= i < j < |s| ==> s[i] != s[j]
  }

  /** The node `n` after the edges `es`, in order, were each made to target
      `to` (the insertions of addTransitions). */
  function InsertEdges<E(==,!new), V(==,!new)>(n: Node<E, V>, es: seq<E>, to: V): (r: Node<E, V>)
    ensures r.Type() == n.Type() && r.value == n.value
    ensures forall k, c :: r.Lookup(k, c) <==> (k in es && c == to) || (k !in es && n.Lookup(k, c))
    decreases |es|
  {
    if es == [] then n
    else
      var init := es[..|es| - 1];
      assert forall k :: k in es <==> k in init || k == es[|es| - 1];
      InsertEdges(n, init, to).AddChild(es[|es| - 1], to)
  }

  /** The number of edges of `es` that addTransitions inserts before it meets
      the first one already defined: defined at the start (`defined`), or
      earlier in `es` itself. It is |es| when there is no such edge. */
  function FirstDuplicate<E(==)>(defined: set<E>, es: seq<E>): (k: nat)
    ensures k <= |es|
    ensures forall i :: 0 <= i < k ==> es[i] !in defined && es[i] !in es[..i]
    ensures k < |es| ==> es[k] in defined || es[k] in es[..k]
    ensures k == |es| <==> Distinct(es) && forall i :: 0 <= i < |es| ==> es[i] !in defined
    decreases |es|
  {
    if es == [] || es[0] in defined then 0
    else
      var k := 1 + FirstDuplicate(defined + {es[0]}, es[1..]);
      assert forall i :: 1 <= i <= |es| ==> es[..i] == [es[0]] + es[1..][..i - 1];
      k
  }

  /** Edges into a stored vertex keep the store well formed. */
  lemma InsertEdgesWellFormed<E(!new), V(!new)>(m: Store<E, V>, from: V, es: seq<E>, to: V)
    requires WellFormed(m) && from in m && to in m
    ensures WellFormed(m[from := InsertEdges(m[from], es, to)])
  {
    var n := InsertEdges(m[from], es, to);
    forall k | k in n.children ensures n.children[k] in m {
      assert n.Lookup(k, n.children[k]);
    }
  }

  /** One more step of addTransitions inserts one more edge. */
  lemma InsertEdgesStep<E(!new), V(!new)>(n: Node<E, V>, es: seq<E>, i: nat, to: V)
    requires i < |es|
    ensures InsertEdges(n, es[..i + 1], to) == InsertEdges(n, es[..i], to).AddChild(es[i], to)
  {
    assert es[..i + 1][..i] == es[..i];
  }

  /** During addTransitions the duplicate check at edge `i` fails exactly at
      the index FirstDuplicate names. */
  lemma DuplicateCheckAt<E(!new), V(!new)>(n: Node<E, V>, es: seq<E>, i: nat, to: V)
    requires i < |es| && i <= FirstDuplicate(n.children.Keys, es)
    ensures InsertEdges(n, es[..i], to).HasChild(es[i]) <==> i == FirstDuplicate(n.children.Keys, es)
  {
    var m := InsertEdges(n, es[..i], to);
    var k := FirstDuplicate(n.children.Keys, es);
    var x := es[i];
    if i < k {
      assert x !in n.children.Keys && x !in es[..i];
    } else {
      if x in es[..i] {
        assert m.Lookup(x, to);
      } else {
        assert x in n.children.Keys;
        assert n.Lookup(x, n.children[x]);
        assert m.Lookup(x, n.children[x]);
      }
    }
  }

  /** The edges a batch inserts, when none of them is defined at `from`,
      are exactly `from --e--> to` for each `e` of the batch. */
  lemma InsertEdgesAdds<E(!new), V(!new)>(m: Store<E, V>, from: V, es: seq<E>, to: V)
    requires WellFormed(m) && from in m && to in m
    requires forall i :: 0 <= i < |es| ==> !m[from].HasChild(es[i])
    ensures Edges(m[from := InsertEdges(m[from], es, to)]) ==
      Edges(m) + set e | e in es :: Transition(from, e, to)
  {
    var m' := m[from := InsertEdges(m[from], es, to)];
    var added := set e | e in es :: Transition(from, e, to);
    forall t | t in Edges(m') ensures t in Edges(m) + added {
      if t.from == from && t.edge !in es {
        assert m[from].Lookup(t.edge, t.to);
      }
    }
    forall t | t in Edges(m) + added ensures t in Edges(m') {
      if t.from == from {
        if t in added {
          assert m'[from].Lookup(t.edge, t.to);
        } else {
          assert m[from].Lookup(t.edge, t.to);
          assert m'[from].Lookup(t.edge, t.to);
        }
      }
    }
  }

  /** Lists a set of vertices, each exactly once, in an order left open
      (the key-set iteration of a HashMap). */
  method Enumerate<V(==)>(s: set<V>) returns (vs: seq<V>)
    ensures Distinct(vs)
    ensures forall v :: v in vs <==> v in s
    ensures |vs| == |s|
  {
    var rest := s;
    vs := [];
    while rest != {}
      invariant rest <= s
      invariant forall v :: v in vs <==> v in s && v !in rest
      invariant Distinct(vs)
      invariant |vs| + |rest| == |s|
      decreases rest
    {
      var v :| v in rest;
      vs := vs + [v];
      rest := rest - {v};
    }
  }

  /** An iterator over a snapshot of the vertices. */
  class VertexIterator<V(==,!new)> {
    /** The vertices still to come. */
    var pending: seq<V>
    /** The vertices handed out so far. */
    ghost var yielded: seq<V>
    /** The vertices of the graph when the iterator was made. */
    ghost const all: set<V>

    ghost predicate Valid() reads this {
      && Distinct(yielded + pending)
      && (forall v :: v in yielded + pending <==> v in all)
      && |yielded| + |pending| == |all|
    }

    constructor (vertices: set<V>)
      ensures Valid() && all == vertices && yielded == []
    {
      var order := Enumerate(vertices);
      all := vertices;
      yielded := [];
      pending := order;
    }

    function HasNext(): (b: bool)
      reads this
      requires Valid()
      ensures b <==> |yielded| < |all|
    {
      pending != []
    }

    /** The next vertex; not-found once every vertex has been handed out. */
    method Next() returns (r: Result<V>)
      requires Valid()
      modifies this
      ensures Valid()
      ensures old(pending) == [] ==> r == Failure(NotFound) && yielded == old(yielded) && pending == []
      ensures old(pending) != [] ==>
        r == Success(old(pending)[0]) && yielded == old(yielded) + [r.value] && pending == old(pending)[1..]
      ensures r.Success? ==> r.value in all && r.value !in old(yielded)
    {
      if pending == [] {
        return Failure(NotFound);
      }
      r := Success(pending[0]);
      ghost var listed := yielded + pending;
      assert forall i :: 0 <= i < |yielded| ==> listed[i] == yielded[i] && listed[i] != listed[|yielded|];
      assert listed == (yielded + [pending[0]]) + pending[1..];
      yielded := yielded + [pending[0]];
      pending := pending[1..];
    }
  }

  /** Once an iterator is exhausted it has handed out every vertex exactly
      once, as many as there are. */
  lemma ExhaustedIteratorYieldedAll<V(!new)>(it: VertexIterator<V>)
    requires it.Valid() && !it.HasNext()
    ensures Distinct(it.yielded) && |it.yielded| == |it.all|
    ensures forall v :: v in it.yielded <==> v in it.all
  {
    assert it.yielded + it.pending == it.yielded;
  }

  class FiniteStateMachineGraph<E(==,!new), V(==,!new)> {
    /** The tag of vertices added without one. */
    const defaultVertexType: VertexType
    var nodes: Store<E, V>

    ghost predicate Valid() reads this {
      WellFormed(nodes)
    }

    /** The vertices of the graph. */
    ghost function Vertices(): set<V> reads this {
      nodes.Keys
    }

    constructor (defaultVertexType: VertexType)
      ensures Valid() && this.defaultVertexType == defaultVertexType
      ensures nodes == map[]
    {
      this.defaultVertexType := defaultVertexType;
      nodes := map[];
    }

    /** The constructor without arguments: BASIC is the default tag. */
    constructor WithBasicDefault()
      ensures Valid() && defaultVertexType == Basic
      ensures nodes == map[]
    {
      defaultVertexType := Basic;
      nodes := map[];
    }

    /** addVertex(v): a vertex of the default tag. */
    method AddVertex(v: V) returns (r: Outcome)
      requires Valid()
      modifies this
      ensures Valid()
      ensures v in old(nodes) ==> r == Fail(AlreadyExists) && nodes == old(nodes)
      ensures v !in old(nodes) ==>
        && r == Pass && nodes == old(nodes)[v := CreateNode(v, defaultVertexType)]
        && Size() == old(Size()) + 1
    {
      r := AddVertexOfType(v, defaultVertexType);
    }

    /** addVertex(v, t): fails with already-exists, changing nothing, when
        `v` is present; otherwise adds `v` with tag `t` and no edges. */
    method AddVertexOfType(v: V, t: VertexType) returns (r: Outcome)
      requires Valid()
      modifies this
      ensures Valid()
      ensures v in old(nodes) ==> r == Fail(AlreadyExists) && nodes == old(nodes)
      ensures v !in old(nodes) ==>
        && r == Pass && nodes == old(nodes)[v := CreateNode(v, t)]
        && Size() == old(Size()) + 1
    {
      if v in nodes {
        return Fail(AlreadyExists);
      }
      AddNodePreserves(nodes, v, t);
      nodes := nodes[v := CreateNode(v, t)];
      r := Pass;
    }

    /** removeVertex(v): fails with not-found before changing anything when
        `v` is absent; otherwise strips the edges into `v` from every other
        node, then removes `v`. */
    method RemoveVertex(v: V) returns (r: Outcome)
      requires Valid()
      modifies this
      ensures Valid()
      ensures v !in old(nodes) ==> r == Fail(NotFound) && nodes == old(nodes)
      ensures v in old(nodes) ==>
        && r == Pass && nodes == Detach(old(nodes), v)
        && v !in nodes && Size() == old(Size()) - 1
    {
      if v !in nodes {
        return Fail(NotFound);
      }
      ghost var before := nodes;
      var pending := nodes.Keys;
      while pending != {}
        invariant pending <= before.Keys && nodes.Keys == before.Keys
        invariant forall u :: u in nodes ==>
          nodes[u] == if u in pending || u == v then before[u] else before[u].RemoveChildrenTo(v)
        decreases pending
      {
        var u :| u in pending;
        if u != v && nodes[u].ChildCount() != 0 {
          nodes := nodes[u := nodes[u].RemoveChildrenTo(v)];
        }
        pending := pending - {u};
      }
      nodes := nodes - {v};
      assert nodes == Detach(before, v);
      DetachPreserves(before, v);
      r := Pass;
    }

    function HasVertex(v: V): (b: bool)
      reads this
      ensures b <==> v in Vertices()
    {
      v in nodes
    }

    /** getVertexType(v): the tag `v` was created with; not-found when absent. */
    function GetVertexType(v: V): (r: Result<VertexType>)
      reads this
      ensures r.Success? <==> v in Vertices()
      ensures r.Failure? ==> r.error == NotFound
      ensures r.Success? ==> r.value == nodes[v].Type()
    {
      VertexTypeOf(nodes, v)
    }

    /** addTransition(from, to, e). The checks run in this order, each
        failure leaving the graph unchanged: `from` absent (not-found), `e`
        already defined at `from` whatever its target (already-exists), `to`
        absent (not-found). Otherwise `from` gains exactly `e -> to`. */
    method AddTransition(from: V, to: V, e: E) returns (r: Outcome)
      requires Valid()
      modifies this
      ensures Valid()
      ensures from !in old(nodes) ==> r == Fail(NotFound) && nodes == old(nodes)
      ensures from in old(nodes) && old(nodes)[from].HasChild(e) ==>
        r == Fail(AlreadyExists) && nodes == old(nodes)
      ensures from in old(nodes) && !old(nodes)[from].HasChild(e) && to !in old(nodes) ==>
        r == Fail(NotFound) && nodes == old(nodes)
      ensures from in old(nodes) && !old(nodes)[from].HasChild(e) && to in old(nodes) ==>
        && r == Pass && nodes == old(nodes)[from := old(nodes)[from].AddChild(e, to)]
    {
      if from !in nodes {
        return Fail(NotFound);
      }
      var fromNode := nodes[from];
      if fromNode.HasChild(e) {
        return Fail(AlreadyExists);
      }
      if to !in nodes {
        return Fail(NotFound);
      }
      AddChildWellFormed(nodes, from, e, to);
      nodes := nodes[from := fromNode.AddChild(e, to)];
      r := Pass;
    }

    /** addTransitions(from, to, es): not-found, changing nothing, unless
        both vertices are present; then the edges are inserted in order, each
        duplicate check seeing the insertions before it, and the first
        duplicate fails with already-exists, keeping those insertions. */
    method AddTransitions(from: V, to: V, es: seq<E>) returns (r: Outcome)
      requires Valid()
      modifies this
      ensures Valid()
      ensures from !in old(nodes) || to !in old(nodes) ==> r == Fail(NotFound) && nodes == old(nodes)
      ensures from in old(nodes) && to in old(nodes) ==>
        var k := FirstDuplicate(old(nodes)[from].children.Keys, es);
        && r == (if k == |es| then Pass else Fail(AlreadyExists))
        && nodes == old(nodes)[from := InsertEdges(old(nodes)[from], es[..k], to)]
    {
      if from !in nodes || to !in nodes {
        return Fail(NotFound);
      }
      ghost var start := nodes[from];
      ghost var k := FirstDuplicate(start.children.Keys, es);
      var fromNode := nodes[from];
      var i := 0;
      r := Pass;
      assert es[..0] == [];
      while i < |es|
        invariant 0 <= i <= k
        invariant fromNode == InsertEdges(start, es[..i], to) && nodes == old(nodes)
      {
        DuplicateCheckAt(start, es, i, to);
        if fromNode.HasChild(es[i]) {
          r := Fail(AlreadyExists);
          break;
        }
        InsertEdgesStep(start, es, i, to);
        fromNode := fromNode.AddChild(es[i], to);
        i := i + 1;
      }
      InsertEdgesWellFormed(nodes, from, es[..i], to);
      nodes := nodes[from := fromNode];
    }

    /** hasTransition(from, to, e): whether `e` leads from `from` to exactly
        `to`; not-found, rather than false, when either vertex is absent. */
    function HasTransition(from: V, to: V, e: E): (r: Result<bool>)
      reads this
      requires Valid()
      ensures r.Failure? <==> from !in Vertices() || to !in Vertices()
      ensures r.Failure? ==> r.error == NotFound
      ensures r.Success? ==> (r.value <==> Transition(from, e, to) in Edges(nodes))
    {
      CheckTransition(nodes, from, to, e)
    }

    /** hasAnyTransition(from, to): whether some edge leads from `from` to
        `to`; not-found when either vertex is absent. */
    function HasAnyTransition(from: V, to: V): (r: Result<bool>)
      reads this
      requires Valid()
      ensures r.Failure? <==> from !in Vertices() || to !in Vertices()
      ensures r.Failure? ==> r.error == NotFound
      ensures r.Success? ==> (r.value <==> exists e :: Transition(from, e, to) in Edges(nodes))
    {
      CheckAnyTransition(nodes, from, to)
    }

    /** removeTransition(from, to, e): not-found, changing nothing, unless
        `e` leads from `from` to exactly `to`; otherwise only that entry goes,
        both vertices and every other edge stay. */
    method RemoveTransition(from: V, to: V, e: E) returns (r: Outcome)
      requires Valid()
      modifies this
      ensures Valid()
      ensures old(HasTransition(from, to, e)) != Success(true) ==> r == Fail(NotFound) && nodes == old(nodes)
      ensures old(HasTransition(from, to, e)) == Success(true) ==>
        && r == Pass && nodes == old(nodes)[from := old(nodes)[from].RemoveChild(e)]
        && Vertices() == old(Vertices())
    {
      if HasTransition(from, to, e) != Success(true) {
        return Fail(NotFound);
      }
      RemoveChildWellFormed(nodes, from, e);
      nodes := nodes[from := nodes[from].RemoveChild(e)];
      r := Pass;
    }

    /** traverse(from, es): not-found when `from` is absent; otherwise the
        left fold of getChild over `es` from the node of `from`. */
    method Traverse(from: V, es: seq<E>) returns (r: Result<V>)
      requires Valid()
      ensures from !in Vertices() ==> r == Failure(NotFound)
      ensures from in Vertices() ==> r == Walk(nodes, from, es)
      ensures r.Success? ==> r.value in Vertices()
    {
      if from !in nodes {
        return Failure(NotFound);
      }
      r := Run(nodes, from, es);
    }

    function Size(): (n: nat)
      reads this
      ensures n == |Vertices()|
    {
      |nodes|
    }

    /** clear(): no vertex and no transition is left. */
    method Clear()
      requires Valid()
      modifies this
      ensures Valid() && nodes == map[]
      ensures Size() == 0 && forall v :: !HasVertex(v)
    {
      nodes := map[];
    }

    /** iterator(): an iterator over the vertices present now. */
    method Iterator() returns (it: VertexIterator<V>)
      requires Valid()
      ensures fresh(it) && it.Valid() && it.all == Vertices() && it.yielded == []
    {
      it := new VertexIterator(nodes.Keys);
    }
  }
}
