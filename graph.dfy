/**
  The node list `{id, url, parentId}[]` that the node map keeps, the predicates that
  describe a well-formed list, and `buildGraph`, which projects the list into the nodes
  and links the force-directed view draws.
 */
module Graph {
  import opened Wrappers

  /** One entry of the node list; `parentId == None` marks a root. */
  datatype Node = Node(id: nat, url: string, parentId: Option<nat>)

  /** `reduce((max, n) => Math.max(max, n.id), 0)` over the first `n` entries. */
  function MaxIdUpTo(nodes: seq<Node>, n: nat): nat
    requires n <= |nodes|
  {
    if n == 0 then 0
    else
      var m := MaxIdUpTo(nodes, n - 1);
      if nodes[n - 1].id > m then nodes[n - 1].id else m
  }

  /** The largest id in the list, or 0 for the empty list. */
  function MaxId(nodes: seq<Node>): nat {
    MaxIdUpTo(nodes, |nodes|)
  }

  /** The fold bounds every id it has seen, and is one of them unless it has seen none. */
  lemma {:induction false} MaxIdUpToSpec(nodes: seq<Node>, n: nat)
    requires n <= |nodes|
    ensures forall i :: 0 <= i < n ==> nodes[i].id <= MaxIdUpTo(nodes, n)
    ensures n == 0 ==> MaxIdUpTo(nodes, n) == 0
    ensures n > 0 ==> exists i :: 0 <= i < n && nodes[i].id == MaxIdUpTo(nodes, n)
  {
    if n > 0 {
      MaxIdUpToSpec(nodes, n - 1);
    }
  }

  /** `maxId` bounds every id of the list, is 0 for the empty list and otherwise an id of the list. */
  lemma MaxIdSpec(nodes: seq<Node>)
    ensures forall i :: 0 <= i < |nodes| ==> nodes[i].id <= MaxId(nodes)
    ensures nodes == [] ==> MaxId(nodes) == 0
    ensures nodes != [] ==> exists i :: 0 <= i < |nodes| && nodes[i].id == MaxId(nodes)
  {
    MaxIdUpToSpec(nodes, |nodes|);
  }

  /** No two entries share an id. */
  predicate UniqueIds(nodes: seq<Node>) {
    forall i, j :: 0 <= i < j < |nodes| ==> nodes[i].id != nodes[j].id
  }

  /** Every id is positive. */
  predicate PositiveIds(nodes: seq<Node>) {
    forall i :: 0 <= i < |nodes| ==> nodes[i].id >= 1
  }

  /** Some entry carries `id`. */
  predicate HasId(nodes: seq<Node>, id: nat) {
    exists j :: 0 <= j < |nodes| && nodes[j].id == id
  }

  /** The ids handed out by one step: the k-th new entry gets `base + 1 + k`. */
  predicate NumberedFrom(added: seq<Node>, base: nat) {
    forall k :: 0 <= k < |added| ==> added[k].id == base + 1 + k
  }

  /** Every parent reference resolves to some entry (no dangling link). */
  predicate ParentsResolve(nodes: seq<Node>) {
    forall i :: 0 <= i < |nodes| && nodes[i].parentId.Some? ==> HasId(nodes, nodes[i].parentId.value)
  }

  /**
    Every parent reference resolves to an entry EARLIER in the list: children are only
    ever attached to nodes that already existed, so the links form a forest.
   */
  predicate Forest(nodes: seq<Node>) {
    forall i :: 0 <= i < |nodes| && nodes[i].parentId.Some? ==> HasId(nodes[..i], nodes[i].parentId.value)
  }

  /** A forest has no dangling links. */
  lemma ForestResolves(nodes: seq<Node>)
    requires Forest(nodes)
    ensures ParentsResolve(nodes)
  {
    forall i | 0 <= i < |nodes| && nodes[i].parentId.Some?
      ensures HasId(nodes, nodes[i].parentId.value)
    {
      var j :| 0 <= j < i && nodes[..i][j].id == nodes[i].parentId.value;
      assert nodes[j].id == nodes[i].parentId.value;
    }
  }

  /**
    With unique ids, a node's parent sits at a smaller index: following parent links
    strictly decreases the index, so no chain of parent links can come back to its start.
   */
  lemma ParentComesFirst(nodes: seq<Node>, i: nat, j: nat)
    requires UniqueIds(nodes) && Forest(nodes)
    requires i < |nodes| && j < |nodes| && nodes[i].parentId == Some(nodes[j].id)
    ensures j < i
  {
    var k :| 0 <= k < i && nodes[..i][k].id == nodes[i].parentId.value;
    assert nodes[k].id == nodes[j].id;
  }

  /** A node of the drawn graph: its id and its label. */
  datatype GraphNode = GraphNode(id: nat, name: string)

  /** A drawn edge from a parent to a child. */
  datatype Link = Link(source: nat, target: nat)

  /** The projection handed to the force-directed view. */
  datatype GraphView = GraphView(nodes: seq<GraphNode>, links: seq<Link>)

  /** A list cut anywhere and put back together is the list. */
  lemma SplitJoin<T>(s: seq<T>, i: nat)
    requires i <= |s|
    ensures s[..i] + s[i..] == s
  {
  }

  /** One link per entry that has a parent, in list order. */
  function Links(list: seq<Node>): (links: seq<Link>)
    ensures |links| <= |list|
    ensures forall l :: l in links ==>
      exists i :: 0 <= i < |list| && list[i].parentId == Some(l.source) && list[i].id == l.target
    ensures forall i :: 0 <= i < |list| && list[i].parentId.Some? ==>
      Link(list[i].parentId.value, list[i].id) in links
  {
    if list == [] then []
    else
      var rest := Links(list[1..]);
      assert forall i :: 1 <= i < |list| ==> list[i] == list[1..][i - 1];
      match list[0].parentId
      case None => rest
      case Some(p) => [Link(p, list[0].id)] + rest
  }

  /** The links of two lists put together are the links of each, in order. */
  lemma {:induction false} LinksAppend(a: seq<Node>, b: seq<Node>)
    ensures Links(a + b) == Links(a) + Links(b)
  {
    if a != [] {
      assert (a + b)[1..] == a[1..] + b;
      LinksAppend(a[1..], b);
    } else {
      assert a + b == b;
    }
  }

  /** A single entry gives its link exactly when it has a parent. */
  lemma LinksSingle(n: Node)
    ensures Links([n]) == if n.parentId.Some? then [Link(n.parentId.value, n.id)] else []
  {
    assert [n][1..] == [];
  }

  /**
    The links are those of the entries with a parent, one each, in list order: the links
    of a list split anywhere are those of the front followed by those of the back, and a
    single entry gives its link exactly when it has a parent.
   */
  lemma LinksInOrder(list: seq<Node>)
    ensures forall i :: 0 <= i <= |list| ==> Links(list) == Links(list[..i]) + Links(list[i..])
    ensures forall i :: 0 <= i < |list| ==>
      Links([list[i]]) == if list[i].parentId.Some? then [Link(list[i].parentId.value, list[i].id)] else []
  {
    forall i | 0 <= i <= |list|
      ensures Links(list) == Links(list[..i]) + Links(list[i..])
    {
      SplitJoin(list, i);
      LinksAppend(list[..i], list[i..]);
    }
    forall i | 0 <= i < |list|
      ensures Links([list[i]]) == if list[i].parentId.Some? then [Link(list[i].parentId.value, list[i].id)] else []
    {
      LinksSingle(list[i]);
    }
  }

  /** `buildGraph`: one drawn node per entry, in order, and the links of the list. */
  function BuildGraph(list: seq<Node>): (g: GraphView)
    ensures |g.nodes| == |list|
    ensures forall i :: 0 <= i < |list| ==> g.nodes[i] == GraphNode(list[i].id, list[i].url)
    ensures g.links == Links(list)
  {
    GraphView(seq(|list|, i requires 0 <= i < |list| => GraphNode(list[i].id, list[i].url)), Links(list))
  }

  /**
    When every parent reference resolves, both ends of every drawn link are drawn nodes,
    which is what the force-directed view needs to place the link.
   */
  lemma BuildGraphLinksResolve(list: seq<Node>)
    requires ParentsResolve(list)
    ensures var g := BuildGraph(list);
      forall l :: l in g.links ==>
        (exists a :: 0 <= a < |g.nodes| && g.nodes[a].id == l.source) &&
        (exists b :: 0 <= b < |g.nodes| && g.nodes[b].id == l.target)
  {
    var g := BuildGraph(list);
    forall l | l in g.links
      ensures exists a :: 0 <= a < |g.nodes| && g.nodes[a].id == l.source
      ensures exists b :: 0 <= b < |g.nodes| && g.nodes[b].id == l.target
    {
      var i :| 0 <= i < |list| && list[i].parentId == Some(l.source) && list[i].id == l.target;
      assert g.nodes[i].id == l.target;
      var j :| 0 <= j < |list| && list[j].id == list[i].parentId.value;
      assert g.nodes[j].id == l.source;
    }
  }
}
