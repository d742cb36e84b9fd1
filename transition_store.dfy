/** The vertex-to-node map that both state machine classes own, and the
    semantics they share: the store invariant, the transition relation it
    represents, traversal, and the cleanup of a vertex removal. */
module TransitionStore {
  import opened Errors
  import opened NodeFactory

  /** The nodes of a machine, keyed by vertex value. */
  type Store<E(==,!new), V(==,!new)> = map<V, Node<E, V>>

  /** A labelled transition `from --edge--> to`. */
  datatype Transition<E, V> = Transition(from: V, edge: E, to: V)

  /** Every node is stored under its own value, so a vertex names its node. */
  ghost predicate Keyed<E(!new), V(!new)>(m: Store<E, V>) {
    forall v :: v in m ==> m[v].value == v
  }

  /** Every adjacency target is a vertex currently in the store. */
  ghost predicate Closed<E(!new), V(!new)>(m: Store<E, V>) {
    forall v, e :: v in m && e in m[v].children ==> m[v].children[e] in m
  }

  ghost predicate WellFormed<E(!new), V(!new)>(m: Store<E, V>) {
    Keyed(m) && Closed(m)
  }

  /** The transition relation the store represents. */
  ghost function Edges<E(!new), V(!new)>(m: Store<E, V>): (ts: set<Transition<E, V>>)
    ensures forall t :: t in ts <==> t.from in m && m[t.from].Lookup(t.edge, t.to)
  {
    set v, e | v in m && e in m[v].children :: Transition(v, e, m[v].children[e])
  }

  /** The node of a vertex (getNode). */
  function GetNode<E(==,!new), V(==,!new)>(m: Store<E, V>, v: V): (r: Result<Node<E, V>>)
    ensures r.Success? <==> v in m
    ensures r.Failure? ==> r.error == NotFound
    ensures r.Success? ==> r.value == m[v]
    ensures r.Success? && Keyed(m) ==> r.value.value == v
  {
    if v in m then Success(m[v]) else Failure(NotFound)
  }

  /** The tag of a vertex (getVertexType). */
  function VertexTypeOf<E(==,!new), V(==,!new)>(m: Store<E, V>, v: V): (r: Result<VertexType>)
    ensures r.Success? <==> v in m
    ensures r.Failure? ==> r.error == NotFound
    ensures r.Success? ==> r.value == m[v].Type()
  {
    match GetNode(m, v)
    case Failure(err) => Failure(err)
    case Success(node) => Success(node.Type())
  }

  /** hasTransition: whether `from --e--> to` is a transition; not-found
      when either vertex is absent. */
  function CheckTransition<E(==,!new), V(==,!new)>(m: Store<E, V>, from: V, to: V, e: E): (r: Result<bool>)
    requires Keyed(m)
    ensures r.Failure? <==> from !in m || to !in m
    ensures r.Failure? ==> r.error == NotFound
    ensures r.Success? ==> (r.value <==> Transition(from, e, to) in Edges(m))
  {
    match (GetNode(m, from), GetNode(m, to))
    case (Failure(err), _) => Failure(err)
    case (_, Failure(err)) => Failure(err)
    case (Success(fromNode), Success(toNode)) =>
      Success(fromNode.HasChild(e) && fromNode.GetChild(e) == Success(toNode.value))
  }

  /** hasAnyTransition: whether some edge of `from` targets `to`;
      not-found when either vertex is absent. */
  function CheckAnyTransition<E(==,!new), V(==,!new)>(m: Store<E, V>, from: V, to: V): (r: Result<bool>)
    requires Keyed(m)
    ensures r.Failure? <==> from !in m || to !in m
    ensures r.Failure? ==> r.error == NotFound
    ensures r.Success? ==> (r.value <==> exists e :: Transition(from, e, to) in Edges(m))
  {
    match (GetNode(m, from), GetNode(m, to))
    case (Failure(err), _) => Failure(err)
    case (_, Failure(err)) => Failure(err)
    case (Success(fromNode), Success(toNode)) =>
      var b := toNode.value in fromNode.Children();
      assert b ==> exists e :: Transition(from, e, to) in Edges(m) by {
        if b {
          var k :| fromNode.Lookup(k, to);
          assert Transition(from, k, to) in Edges(m);
        }
      }
      Success(b)
  }

  /** Traversal: the strict left fold of GetChild over `es`, starting at the
      node of `cur`, yielding the value of the node reached or the first
      lookup failure. */
  function Walk<E(==,!new), V(==,!new)>(m: Store<E, V>, cur: V, es: seq<E>): (r: Result<V>)
    requires WellFormed(m) && cur in m
    ensures es == [] ==> r == Success(cur)
    ensures r.Success? ==> r.value in m
    ensures r.Failure? ==> r.error == NotFound
    decreases |es|
  {
    if es == [] then Success(m[cur].value)
    else
      match m[cur].GetChild(es[0])
      case Failure(err) => Failure(err)
      case Success(next) =>
        assert next in m by {
          if next != cur { var k :| m[cur].Lookup(k, next); }
        }
        Walk(m, next, es[1..])
  }

  /** The traversal loop shared by both machines. */
  method Run<E(==,!new), V(==,!new)>(m: Store<E, V>, start: V, es: seq<E>) returns (r: Result<V>)
    requires WellFormed(m) && start in m
    ensures r == Walk(m, start, es)
  {
    var current := start;
    var i := 0;
    while i < |es|
      invariant 0 <= i <= |es| && current in m
      invariant Walk(m, current, es[i..]) == Walk(m, start, es)
    {
      assert es[i..][0] == es[i] && es[i..][1..] == es[i + 1..];
      var step := m[current].GetChild(es[i]);
      if step.Failure? {
        return Failure(step.error);
      }
      current := step.value;
      i := i + 1;
    }
    return Success(m[current].value);
  }

  /** The store after removeVertex(v): the node of `v` is gone and every
      remaining node has lost its edges into `v`. */
  function Detach<E(==,!new), V(==,!new)>(m: Store<E, V>, v: V): (r: Store<E, V>)
    ensures r.Keys == m.Keys - {v}
  {
    map u | u in m && u != v :: m[u].RemoveChildrenTo(v)
  }

  /** hasNoEdgesLeftTo: no node other than `to` has an edge into `to`. */
  function HasNoEdgesLeftTo<E(==,!new), V(==,!new)>(m: Store<E, V>, to: V): (b: bool)
    ensures b <==> forall t :: t in Edges(m) && t.to == to ==> t.from == to
  {
    var b := forall u | u in m && u != to :: to !in m[u].Children();
    assert b ==> forall t :: t in Edges(m) && t.to == to ==> t.from == to by {
      if b {
        forall t | t in Edges(m) && t.to == to ensures t.from == to {
          assert m[t.from].Lookup(t.edge, t.to);
        }
      }
    }
    assert !b ==> exists t :: t in Edges(m) && t.to == to && t.from != to by {
      if !b {
        var u :| u in m && u != to && to in m[u].Children();
        var k :| m[u].Lookup(k, to);
        assert Transition(u, k, to) in Edges(m);
      }
    }
    b
  }

  // Traversal properties

  /** Traversing `xs + ys` is traversing `xs` and then `ys` from where `xs`
      ended; a failure in `xs` is the failure of the whole. */
  lemma {:induction false} WalkAppend<E(!new), V(!new)>(m: Store<E, V>, v: V, xs: seq<E>, ys: seq<E>)
    requires WellFormed(m) && v in m
    ensures Walk(m, v, xs + ys) == match Walk(m, v, xs)
                                   case Failure(err) => Failure(err)
                                   case Success(w) => Walk(m, w, ys)
    decreases |xs|
  {
    if xs == [] {
      assert xs + ys == ys;
    } else {
      assert (xs + ys)[0] == xs[0] && (xs + ys)[1..] == xs[1..] + ys;
      match m[v].GetChild(xs[0])
      case Failure(_) =>
      case Success(next) =>
        WalkAppend(m, next, xs[1..], ys);
    }
  }

  /** A LOOPED vertex stays where it is under any sequence of edges it does
      not define: every undefined edge is an implicit self-loop. */
  lemma {:induction false} LoopedStaysOnUndefined<E(!new), V(!new)>(m: Store<E, V>, v: V, es: seq<E>)
    requires WellFormed(m) && v in m && m[v].Type() == Looped
    requires forall i :: 0 <= i < |es| ==> !m[v].HasChild(es[i])
    ensures Walk(m, v, es) == Success(v)
    decreases |es|
  {
    if es != [] {
      LoopedStaysOnUndefined(m, v, es[1..]);
    }
  }

  /** A BASIC vertex aborts the traversal on an edge it does not define. */
  lemma BasicFailsOnUndefined<E(!new), V(!new)>(m: Store<E, V>, v: V, e: E, rest: seq<E>)
    requires WellFormed(m) && v in m && m[v].Type() == Basic && !m[v].HasChild(e)
    ensures Walk(m, v, [e] + rest) == Failure(NotFound)
  {
    assert ([e] + rest)[0] == e;
  }

  /** In a store whose vertices are all LOOPED, no traversal fails. */
  lemma {:induction false} AllLoopedNeverFails<E(!new), V(!new)>(m: Store<E, V>, v: V, es: seq<E>)
    requires WellFormed(m) && v in m
    requires forall u :: u in m ==> m[u].Type() == Looped
    ensures Walk(m, v, es).Success?
    decreases |es|
  {
    if es != [] {
      var next := m[v].GetChild(es[0]).value;
      assert next in m by {
        if next != v { var k :| m[v].Lookup(k, next); }
      }
      AllLoopedNeverFails(m, next, es[1..]);
    }
  }

  // How the store mutations of both machines change the invariant and the
  // transition relation.

  /** A fresh vertex with no edges keeps the store well formed and adds no
      transition. */
  lemma AddNodePreserves<E(!new), V(!new)>(m: Store<E, V>, v: V, t: VertexType)
    requires WellFormed(m) && v !in m
    ensures WellFormed(m[v := CreateNode(v, t)])
    ensures Edges(m[v := CreateNode(v, t)]) == Edges(m)
    ensures |m[v := CreateNode(v, t)]| == |m| + 1
  {
    var m' := m[v := CreateNode(v, t)];
    forall tr | tr in Edges(m') ensures tr in Edges(m) {
      assert tr.from != v;
    }
  }

  /** An edge between two stored vertices keeps the store well formed. */
  lemma AddChildWellFormed<E(!new), V(!new)>(m: Store<E, V>, from: V, e: E, to: V)
    requires WellFormed(m) && from in m && to in m
    ensures WellFormed(m[from := m[from].AddChild(e, to)])
  {
    var m' := m[from := m[from].AddChild(e, to)];
    forall u, k | u in m' && k in m'[u].children ensures m'[u].children[k] in m' {
      if u == from && k != e {
        assert m[from].Lookup(k, m'[u].children[k]);
      }
    }
  }

  /** A new edge between two stored vertices keeps the store well formed and
      adds exactly that transition. */
  lemma AddChildPreserves<E(!new), V(!new)>(m: Store<E, V>, from: V, e: E, to: V)
    requires WellFormed(m) && from in m && to in m && !m[from].HasChild(e)
    ensures WellFormed(m[from := m[from].AddChild(e, to)])
    ensures Edges(m[from := m[from].AddChild(e, to)]) == Edges(m) + {Transition(from, e, to)}
  {
    AddChildWellFormed(m, from, e, to);
    var m' := m[from := m[from].AddChild(e, to)];
    forall tr | tr in Edges(m') ensures tr in Edges(m) + {Transition(from, e, to)} {
      if tr.from == from && tr.edge != e {
        assert m[from].Lookup(tr.edge, tr.to);
      }
    }
    forall tr | tr in Edges(m) ensures tr in Edges(m') {
      if tr.from == from {
        assert tr.edge != e;
        assert m'[from].Lookup(tr.edge, tr.to);
      }
    }
  }

  /** Removing an edge keeps the store well formed. */
  lemma RemoveChildWellFormed<E(!new), V(!new)>(m: Store<E, V>, from: V, e: E)
    requires WellFormed(m) && from in m
    ensures WellFormed(m[from := m[from].RemoveChild(e)])
  {
    var m' := m[from := m[from].RemoveChild(e)];
    forall u, k | u in m' && k in m'[u].children ensures m'[u].children[k] in m' {
      if u == from {
        assert m[from].Lookup(k, m'[u].children[k]);
      }
    }
  }

  /** Removing the edge `from --e--> to` keeps the store well formed and
      removes exactly that transition. */
  lemma RemoveChildPreserves<E(!new), V(!new)>(m: Store<E, V>, from: V, e: E, to: V)
    requires WellFormed(m) && from in m && m[from].Lookup(e, to)
    ensures WellFormed(m[from := m[from].RemoveChild(e)])
    ensures Edges(m[from := m[from].RemoveChild(e)]) == Edges(m) - {Transition(from, e, to)}
  {
    RemoveChildWellFormed(m, from, e);
    var m' := m[from := m[from].RemoveChild(e)];
    forall tr | tr in Edges(m') ensures tr in Edges(m) - {Transition(from, e, to)} {
      if tr.from == from {
        assert m[from].Lookup(tr.edge, tr.to);
      }
    }
    forall tr | tr in Edges(m) - {Transition(from, e, to)} ensures tr in Edges(m') {
      if tr.from == from {
        assert m'[from].Lookup(tr.edge, tr.to);
      }
    }
  }

  /** Vertex removal: `v` is gone, the store stays well formed (no edge into
      `v` survives), the size drops by one, and the transitions left are
      exactly those that neither leave nor enter `v`. */
  lemma DetachPreserves<E(!new), V(!new)>(m: Store<E, V>, v: V)
    requires WellFormed(m) && v in m
    ensures WellFormed(Detach(m, v))
    ensures v !in Detach(m, v) && |Detach(m, v)| == |m| - 1
    ensures forall u :: u in Detach(m, v) ==> v !in Detach(m, v)[u].Children()
    ensures Edges(Detach(m, v)) == set t | t in Edges(m) && t.from != v && t.to != v
  {
    var d := Detach(m, v);
    assert d.Keys == m.Keys - {v};
    forall u, k | u in d && k in d[u].children ensures d[u].children[k] in d {
      assert d[u].Lookup(k, d[u].children[k]);
      assert m[u].Lookup(k, d[u].children[k]);
    }
    forall tr | tr in Edges(d) ensures tr in Edges(m) && tr.from != v && tr.to != v {
      assert d[tr.from].Lookup(tr.edge, tr.to);
    }
    forall tr | tr in Edges(m) && tr.from != v && tr.to != v ensures tr in Edges(d) {
      assert m[tr.from].Lookup(tr.edge, tr.to);
      assert d[tr.from].Lookup(tr.edge, tr.to);
    }
  }

  /** Removing an orphan vertex keeps the store well formed. */
  lemma PruneOrphanWellFormed<E(!new), V(!new)>(m: Store<E, V>, v: V)
    requires WellFormed(m) && v in m
    requires m[v].ChildCount() == 0 && HasNoEdgesLeftTo(m, v)
    ensures WellFormed(m - {v}) && |m - {v}| == |m| - 1
  {
    var p := m - {v};
    assert p.Keys == m.Keys - {v};
    forall u, k | u in p && k in p[u].children ensures p[u].children[k] in p {
      var target := m[u].children[k];
      assert Transition(u, k, target) in Edges(m);
    }
  }

  /** Removing an orphan vertex (no outgoing edges, no edge into it from
      another vertex) keeps the store well formed and loses no transition. */
  lemma PruneOrphanPreserves<E(!new), V(!new)>(m: Store<E, V>, v: V)
    requires WellFormed(m) && v in m
    requires m[v].ChildCount() == 0 && HasNoEdgesLeftTo(m, v)
    ensures WellFormed(m - {v}) && |m - {v}| == |m| - 1
    ensures Edges(m - {v}) == Edges(m)
  {
    PruneOrphanWellFormed(m, v);
    var p := m - {v};
    forall tr | tr in Edges(m) ensures tr in Edges(p) {
      assert m[tr.from].Lookup(tr.edge, tr.to);
    }
  }
}
