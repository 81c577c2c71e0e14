/**
 * The discovery tree (Universe, then realms, then environments, then JVM
 * targets) kept as a table of node records keyed by id, in place of the
 * persisted DiscoveryNode entities.
 */
module Discovery {
  import opened Wrappers

  type Id = nat
  type Labels = map<string, string>

  /** What a node needs of a discovered target: its connect URL, as text, and its labels. */
  datatype Target = Target(connectUrl: string, labels: Labels)

  /**
   * One DiscoveryNode row. children None is the null list of a leaf;
   * target None is a null target.
   */
  datatype Node = Node(
    name: string,
    nodeType: string,
    labels: Labels,
    children: Option<seq<Id>>,
    target: Option<Target>)

  const UniverseType: string := "Universe"
  const JvmType: string := "JVM"

  /** singleResultOptional refusing two Universes; a null children list dereferenced. */
  datatype StoreError = NonUniqueUniverse | NullChildren

  /** The argument of equals(Object): null, a node of the store, or an object of another class. */
  datatype Operand = NullRef | NodeRef(id: Id) | OtherObject

  predicate ChildOf(c: Id, n: Node) {
    n.children.Some? && c in n.children.value
  }

  /**
   * Every id is below the next one to be handed out, every child is a node
   * of the table, and a rank that falls from parent to child shows that the
   * children links are acyclic.
   */
  ghost predicate WellFormed(nodes: map<Id, Node>, nextId: Id, rank: map<Id, nat>) {
    (forall id :: id in nodes ==> id < nextId && id in rank) &&
    (forall id, c :: id in nodes && ChildOf(c, nodes[id]) ==> c in nodes && rank[c] < rank[id])
  }

  /** The nodes whose nodeType is "Universe": what find(NODE_TYPE, UNIVERSE) returns. */
  function UniverseIds(nodes: map<Id, Node>): set<Id> {
    set id | id in nodes && nodes[id].nodeType == UniverseType
  }

  /** The node environment(name, nodeType) builds. */
  function Branch(name: string, nodeType: string): Node {
    Node(name, nodeType, map[], Some([]), None)
  }

  /** The node target(t) builds. */
  function Leaf(t: Target): Node {
    Node(t.connectUrl, JvmType, t.labels, None, Some(t))
  }

  /**
   * filter(n -> name.equals(n.name)).findFirst() over a children list: the
   * position of the first child with that name, whatever its nodeType.
   */
  function FirstNamed(nodes: map<Id, Node>, children: seq<Id>, name: string): (r: Option<nat>)
    requires forall i :: 0 <= i < |children| ==> children[i] in nodes
    ensures r.Some? ==> r.value < |children| && nodes[children[r.value]].name == name
    ensures forall j :: 0 <= j < |children| && (r.None? || j < r.value) ==> nodes[children[j]].name != name
  {
    if |children| == 0 then None
    else if nodes[children[0]].name == name then Some(0)
    else
      match FirstNamed(nodes, children[1..], name)
      case None => None
      case Some(i) => Some(i + 1)
  }

  /** The child FirstNamed points at. */
  function NamedChild(nodes: map<Id, Node>, children: seq<Id>, name: string): Option<Id>
    requires forall i :: 0 <= i < |children| ==> children[i] in nodes
  {
    match FirstNamed(nodes, children, name)
    case None => None
    case Some(i) => Some(children[i])
  }

  /** What equals looks at: labels, target and, recursively, the children; never id, name or nodeType. */
  datatype Shape = Shape(labels: Labels, target: Option<Target>, children: Option<seq<Shape>>)

  lemma SingletonSet(s: set<Id>, x: Id)
    requires |s| == 1 && x in s
    ensures s == {x}
  {
    assert |s - {x}| == 0;
  }

  class NodeStore {
    var nodes: map<Id, Node>
    var nextId: Id
    ghost var rank: map<Id, nat>

    ghost predicate Valid()
      reads this
    {
      WellFormed(nodes, nextId, rank)
    }

    /** The table as the database holds it, with the next id its sequence will give. */
    constructor (initial: map<Id, Node>, next: Id, ghost ranking: map<Id, nat>)
      requires WellFormed(initial, next, ranking)
      ensures Valid() && nodes == initial && nextId == next
    {
      nodes := initial;
      nextId := next;
      rank := ranking;
    }

    /** persist() of a node without children under a fresh id. */
    method Insert(node: Node) returns (id: Id)
      requires Valid()
      requires node.children.None? || node.children == Some([])
      modifies this
      ensures Valid()
      ensures id == old(nextId) && id !in old(nodes)
      ensures nodes == old(nodes)[id := node]
    {
      id := nextId;
      nodes := nodes[id := node];
      rank := rank[id := 0];
      nextId := nextId + 1;
      forall p, c | p in nodes && ChildOf(c, nodes[p])
        ensures c in nodes && rank[c] < rank[p]
      {
        assert p != id;
        assert p in old(nodes) && ChildOf(c, old(nodes)[p]);
        assert c in old(nodes) && c != id;
      }
    }

    /** environment(name, nodeType): one new branch node; every other node as it was. */
    method Environment(name: string, nodeType: string) returns (id: Id)
      requires Valid()
      modifies this
      ensures Valid()
      ensures id == old(nextId) && id !in old(nodes)
      ensures nodes == old(nodes)[id := Node(name, nodeType, map[], Some([]), None)]
    {
      id := Insert(Branch(name, nodeType));
    }

    /** target(t): one new JVM leaf named after the connect URL, with a copy of the labels. */
    method TargetNode(t: Target) returns (id: Id)
      requires Valid()
      modifies this
      ensures Valid()
      ensures id == old(nextId) && id !in old(nodes)
      ensures nodes == old(nodes)[id := Node(t.connectUrl, JvmType, t.labels, None, Some(t))]
    {
      id := Insert(Leaf(t));
    }

    /**
     * getUniverse: the one Universe node, created by environment when there
     * is none; two or more make singleResultOptional fail.
     */
    method GetUniverse() returns (r: Result<Id, StoreError>)
      requires Valid()
      modifies this
      ensures Valid()
      ensures |UniverseIds(old(nodes))| == 0 ==>
        r == Ok(old(nextId)) && nodes == old(nodes)[old(nextId) := Branch(UniverseType, UniverseType)]
      ensures |UniverseIds(old(nodes))| == 1 ==>
        r.Ok? && UniverseIds(old(nodes)) == {r.value} && nodes == old(nodes) && nextId == old(nextId)
      ensures |UniverseIds(old(nodes))| > 1 ==>
        r == Err(NonUniqueUniverse) && nodes == old(nodes) && nextId == old(nextId)
      ensures r.Ok? ==> UniverseIds(nodes) == {r.value}
    {
      var found := UniverseIds(nodes);
      if |found| == 0 {
        var id := Environment(UniverseType, UniverseType);
        assert UniverseIds(nodes) == {id};
        r := Ok(id);
      } else if |found| == 1 {
        var id :| id in found;
        SingletonSet(found, id);
        r := Ok(id);
      } else {
        r := Err(NonUniqueUniverse);
      }
    }

    /**
     * getRealm(name): the first child of the Universe, in list order, with
     * that name, after getUniverse has made sure there is a Universe.
     */
    method GetRealm(name: string) returns (r: Result<Option<Id>, StoreError>)
      requires Valid()
      modifies this
      ensures Valid()
      ensures |UniverseIds(old(nodes))| == 0 ==>
        r == Ok(None) && nodes == old(nodes)[old(nextId) := Branch(UniverseType, UniverseType)]
      ensures |UniverseIds(old(nodes))| > 1 ==> r == Err(NonUniqueUniverse) && nodes == old(nodes)
      ensures |UniverseIds(old(nodes))| == 1 ==> nodes == old(nodes)
      ensures forall u :: |UniverseIds(old(nodes))| == 1 && u in UniverseIds(old(nodes)) ==>
        var children := old(nodes)[u].children;
        (children.None? ==> r == Err(NullChildren)) &&
        (children.Some? ==> ChildrenIn(children.value) && r == Ok(NamedChild(nodes, children.value, name)))
    {
      var universe := GetUniverse();
      match universe
      case Err(e) =>
        r := Err(e);
      case Ok(id) =>
        var children := nodes[id].children;
        if children.None? {
          r := Err(NullChildren);
        } else {
          ChildrenOfNode(id);
          r := Ok(NamedChild(nodes, children.value, name));
        }
    }

    predicate ChildrenIn(xs: seq<Id>)
      reads this
    {
      forall i :: 0 <= i < |xs| ==> xs[i] in nodes
    }

    ghost predicate ChildrenBelow(xs: seq<Id>, bound: nat)
      reads this
      requires Valid()
    {
      forall i :: 0 <= i < |xs| ==> xs[i] in nodes && rank[xs[i]] < bound
    }

    lemma ChildrenOfNode(a: Id)
      requires Valid() && a in nodes && nodes[a].children.Some?
      ensures ChildrenIn(nodes[a].children.value)
      ensures ChildrenBelow(nodes[a].children.value, rank[a])
    {
      var xs := nodes[a].children.value;
      forall i | 0 <= i < |xs|
        ensures xs[i] in nodes && rank[xs[i]] < rank[a]
      {
        assert ChildOf(xs[i], nodes[a]);
      }
    }

    /**
     * equals(obj): true for the node itself, false for null and for other
     * classes, and otherwise the comparison of target, labels and children,
     * the children element by element with equals again.
     */
    function Equals(a: Id, other: Operand): (r: bool)
      reads this
      requires Valid() && a in nodes && (other.NodeRef? ==> other.id in nodes)
      ensures other == NodeRef(a) ==> r
      ensures other.NullRef? || other.OtherObject? ==> !r
      ensures other.NodeRef? ==> (r <==> ShapeOf(a) == ShapeOf(other.id))
    {
      match other
      case NullRef => false
      case OtherObject => false
      case NodeRef(b) =>
        SameNodeIsSameShape(a, b);
        SameNode(a, b)
    }

    function SameNode(a: Id, b: Id): bool
      reads this
      requires Valid() && a in nodes && b in nodes
      decreases rank[a], 1
    {
      a == b ||
      (nodes[a].target == nodes[b].target && nodes[a].labels == nodes[b].labels &&
       match (nodes[a].children, nodes[b].children)
       case (Some(xs), Some(ys)) =>
         ChildrenOfNode(a);
         ChildrenOfNode(b);
         SameList(xs, ys, rank[a])
       case (None, None) => true
       case _ => false)
    }

    /** List.equals on two children lists: same length and equal element by element. */
    function SameList(xs: seq<Id>, ys: seq<Id>, ghost bound: nat): bool
      reads this
      requires Valid() && ChildrenBelow(xs, bound) && ChildrenIn(ys)
      decreases bound, 0, |xs|
    {
      |xs| == |ys| && (|xs| == 0 || (SameNode(xs[0], ys[0]) && SameList(xs[1..], ys[1..], bound)))
    }

    ghost function ShapeOf(a: Id): Shape
      reads this
      requires Valid() && a in nodes
      decreases rank[a], 1
    {
      Shape(nodes[a].labels, nodes[a].target,
            match nodes[a].children
            case None => None
            case Some(xs) =>
              ChildrenOfNode(a);
              Some(ShapesOf(xs, rank[a])))
    }

    ghost function ShapesOf(xs: seq<Id>, bound: nat): (ss: seq<Shape>)
      reads this
      requires Valid() && ChildrenBelow(xs, bound)
      ensures |ss| == |xs|
      decreases bound, 0, |xs|
    {
      if |xs| == 0 then [] else [ShapeOf(xs[0])] + ShapesOf(xs[1..], bound)
    }

    /** The recursive comparison is exactly equality of shapes, the identity shortcut included. */
    lemma {:induction false} SameNodeIsSameShape(a: Id, b: Id)
      requires Valid() && a in nodes && b in nodes
      ensures SameNode(a, b) <==> ShapeOf(a) == ShapeOf(b)
      decreases rank[a], 1
    {
      if a != b && nodes[a].children.Some? && nodes[b].children.Some? {
        ChildrenOfNode(a);
        ChildrenOfNode(b);
        SameListIsSameShapes(nodes[a].children.value, nodes[b].children.value, rank[a], rank[b]);
      }
    }

    lemma {:induction false} SameListIsSameShapes(xs: seq<Id>, ys: seq<Id>, bound1: nat, bound2: nat)
      requires Valid() && ChildrenBelow(xs, bound1) && ChildrenBelow(ys, bound2)
      ensures SameList(xs, ys, bound1) <==> ShapesOf(xs, bound1) == ShapesOf(ys, bound2)
      decreases bound1, 0, |xs|
    {
      if |xs| > 0 && |ys| > 0 {
        SameNodeIsSameShape(xs[0], ys[0]);
        SameListIsSameShapes(xs[1..], ys[1..], bound1, bound2);
        var sx, sy := ShapesOf(xs, bound1), ShapesOf(ys, bound2);
        assert sx == [ShapeOf(xs[0])] + ShapesOf(xs[1..], bound1);
        assert sy == [ShapeOf(ys[0])] + ShapesOf(ys[1..], bound2);
        if sx == sy {
          assert sx[0] == sy[0];
          assert sx[1..] == sy[1..];
        }
      }
    }

    lemma {:induction false} ShapesOfBound(xs: seq<Id>, b1: nat, b2: nat)
      requires Valid() && ChildrenBelow(xs, b1) && ChildrenBelow(xs, b2)
      ensures ShapesOf(xs, b1) == ShapesOf(xs, b2)
      decreases |xs|
    {
      if |xs| > 0 {
        ShapesOfBound(xs[1..], b1, b2);
      }
    }

    /**
     * Two nodes with the same target, the same labels and the same children
     * are equal whatever their ids, names and node types.
     */
    lemma EqualsIgnoresNameAndType(a: Id, b: Id)
      requires Valid() && a in nodes && b in nodes
      requires nodes[a].target == nodes[b].target && nodes[a].labels == nodes[b].labels
      requires nodes[a].children == nodes[b].children
      ensures Equals(a, NodeRef(b))
    {
      if nodes[a].children.Some? {
        ChildrenOfNode(a);
        ChildrenOfNode(b);
        ShapesOfBound(nodes[a].children.value, rank[a], rank[b]);
      }
    }
  }

  /** Calling getUniverse twice gives the same node and never a second Universe. */
  method GetUniverseTwice(store: NodeStore) returns (first: Result<Id, StoreError>, second: Result<Id, StoreError>)
    requires store.Valid() && |UniverseIds(store.nodes)| <= 1
    modifies store
    ensures store.Valid()
    ensures first.Ok? && second == first && UniverseIds(store.nodes) == {first.value}
  {
    first := store.GetUniverse();
    second := store.GetUniverse();
  }
}
