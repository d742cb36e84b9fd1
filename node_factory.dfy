/** The node record of one vertex and its two behavioural variants. */
module NodeFactory {
  import opened Errors

  /** The tag of a vertex: what a lookup of an undefined edge does. */
  datatype VertexType = Basic | Looped

  /** A vertex's node: its value and its adjacency table from edge label to
      the target node. A target node is named by its vertex value, which
      identifies it uniquely inside a store. DefaultNode is the BASIC variant,
      LoopedNode the LOOPED one. */
  datatype Node<E(==,!new), V(==,!new)> =
    | DefaultNode(value: V, children: map<E, V>)
    | LoopedNode(value: V, children: map<E, V>)
  {
    /** The fixed tag of the variant. */
    function Type(): (t: VertexType)
      ensures t == Looped <==> LoopedNode?
    {
      match this
      case DefaultNode(_, _) => Basic
      case LoopedNode(_, _) => Looped
    }

    function HasChild(key: E): (b: bool)
      ensures b <==> exists child :: Lookup(key, child)
    {
      assert key in children ==> Lookup(key, children[key]);
      key in children
    }

    /** `key` maps to `child` in the adjacency table. */
    ghost predicate Lookup(key: E, child: V) {
      key in children && children[key] == child
    }

    function ChildCount(): (n: nat)
      ensures n == 0 <==> forall key :: !HasChild(key)
    {
      assert children != map[] ==> exists key :: key in children && HasChild(key);
      |children|
    }

    /** The targets of the adjacency table. */
    function Children(): (s: set<V>)
      ensures forall child :: child in s <==> exists key :: Lookup(key, child)
    {
      assert forall child :: child in children.Values ==> exists key :: key in children && children[key] == child;
      assert forall key :: key in children ==> Lookup(key, children[key]);
      children.Values
    }

    /** Insert or overwrite the mapping for `key`. */
    function AddChild(key: E, child: V): (r: Node<E, V>)
      ensures r.Type() == Type() && r.value == value
      ensures r.Lookup(key, child)
      ensures forall k :: k != key ==> (r.HasChild(k) <==> HasChild(k))
      ensures forall k, c :: k != key ==> (r.Lookup(k, c) <==> Lookup(k, c))
      ensures r.ChildCount() == if HasChild(key) then ChildCount() else ChildCount() + 1
    {
      this.(children := children[key := child])
    }

    /** Delete the mapping for `key`; nothing happens when there is none. */
    function RemoveChild(key: E): (r: Node<E, V>)
      ensures r.Type() == Type() && r.value == value
      ensures !r.HasChild(key)
      ensures forall k, c :: k != key ==> (r.Lookup(k, c) <==> Lookup(k, c))
      ensures r.ChildCount() == if HasChild(key) then ChildCount() - 1 else ChildCount()
      ensures !HasChild(key) ==> r == this
    {
      this.(children := children - {key})
    }

    /** Delete every mapping whose target is `target`, the cleanup a vertex
        removal applies to the nodes that remain. */
    function RemoveChildrenTo(target: V): (r: Node<E, V>)
      ensures r.Type() == Type() && r.value == value
      ensures target !in r.Children()
      ensures forall k, c :: r.Lookup(k, c) <==> Lookup(k, c) && c != target
      ensures target !in Children() ==> r == this
    {
      var kept := map k | k in children && children[k] != target :: children[k];
      assert target !in Children() ==> kept == children;
      this.(children := kept)
    }

    /** Resolve one edge: the mapped target when there is one; otherwise a
        BASIC node fails with not-found and a LOOPED node yields itself. */
    function GetChild(key: E): (r: Result<V>)
      ensures HasChild(key) ==> r == Success(children[key])
      ensures Type() == Basic ==> (r.Failure? <==> !HasChild(key))
      ensures r.Failure? ==> r.error == NotFound
      ensures Type() == Looped ==> r.Success?
      ensures Type() == Looped && !HasChild(key) ==> r == Success(value)
      ensures r.Success? ==> r.value == value || r.value in Children()
    {
      match this
      case DefaultNode(_, _) =>
        if key in children then Success(children[key]) else Failure(NotFound)
      case LoopedNode(_, _) =>
        if key in children then Success(children[key]) else Success(value)
    }
  }

  /** The node factory: a node of the variant the tag selects, with no
      outgoing edges. */
  function CreateNode<E(==,!new), V(==,!new)>(value: V, t: VertexType): (n: Node<E, V>)
    ensures n.value == value && n.Type() == t
    ensures n.ChildCount() == 0 && n.Children() == {}
    ensures forall key :: n.GetChild(key) == if t == Looped then Success(value) else Failure(NotFound)
  {
    match t
    case Basic => DefaultNode(value, map[])
    case Looped => LoopedNode(value, map[])
  }
}
