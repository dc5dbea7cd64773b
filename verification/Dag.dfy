/** The causal graph over envelope hashes: a fixed-capacity table of nodes with parent
    links, a cycle guard on insertion, and ancestry by breadth-first search. */
module Dag {
  import opened Base
  import opened Collections

  type Node = bytes

  const MAX_NODES := 128
  const MAX_PARENTS := 8

  datatype DagError = Overflow | Cyclic

  // ---------- the graph as a value ----------

  datatype Graph = Graph(nodes: seq<Node>, parents: seq<seq<nat>>) {
    ghost predicate Valid() {
      && |nodes| == |parents| <= MAX_NODES
      && Distinct(nodes)
      && forall i :: 0 <= i < |parents| ==>
           |parents[i]| <= MAX_PARENTS && forall x <- parents[i] :: x < |nodes|
    }

    ghost predicate Link(d: nat, a: nat) {
      d < |parents| && a in parents[d]
    }

    ghost predicate Walk(p: seq<nat>) {
      forall k: nat {:trigger p[k]} :: k < |p| - 1 ==> Link(p[k], p[k + 1])
    }

    // A nonempty chain of parent links leads from d up to a.
    ghost predicate Reaches(d: nat, a: nat) {
      exists p: seq<nat> :: |p| >= 2 && p[0] == d && p[|p| - 1] == a && Walk(p)
    }

    ghost predicate ReachesOrIs(d: nat, a: nat) {
      d == a || Reaches(d, a)
    }

    ghost predicate Acyclic() {
      forall i: nat :: !Reaches(i, i)
    }

    // Ancestry between hashes; false when either is unknown.
    ghost predicate Ancestor(a: Node, d: Node) {
      exists i: nat, j: nat :: i < |nodes| && j < |nodes| && nodes[i] == a && nodes[j] == d && Reaches(j, i)
    }

    ghost predicate AncestorOrIs(a: Node, d: Node) {
      a == d || Ancestor(a, d)
    }

    ghost function Index(h: Node): (i: nat)
      requires h in nodes
      ensures i < |nodes| && nodes[i] == h
    {
      var i: nat :| i < |nodes| && nodes[i] == h;
      i
    }
  }

  ghost const EMPTY: Graph := Graph([], [])

  ghost function Intern(g: Graph, h: Node): (Result<nat, DagError>, Graph) {
    if h in g.nodes then (Ok(g.Index(h)), g)
    else if |g.nodes| >= MAX_NODES then (Err(Overflow), g)
    else (Ok(|g.nodes|), Graph(g.nodes + [h], g.parents + [[]]))
  }

  ghost function AddLink(g: Graph, child: nat, parent: nat): Graph
    requires child < |g.parents|
  {
    g.(parents := g.parents[child := g.parents[child] + [parent]])
  }

  // What one insertion does, failures included: endpoints already interned stay interned.
  ghost function Insert(g: Graph, parent: Node, child: Node): (Result<(), DagError>, Graph)
    requires g.Valid()
  {
    if parent == child then (Err(Cyclic), g) else
    var (p, g1) := Intern(g, parent);
    if p.Err? then (Err(p.error), g1) else
    var (c, g2) := Intern(g1, child);
    if c.Err? then (Err(c.error), g2)
    else if g2.Reaches(p.value, c.value) then (Err(Cyclic), g2)
    else if p.value in g2.parents[c.value] then (Ok(()), g2)
    else if |g2.parents[c.value]| >= MAX_PARENTS then (Err(Overflow), g2)
    else (Ok(()), AddLink(g2, c.value, p.value))
  }

  ghost function InsertAll(g: Graph, edges: seq<(Node, Node)>): Graph
    requires g.Valid()
    decreases edges
  {
    if edges == [] then g
    else
      InsertValid(g, edges[0].0, edges[0].1);
      InsertAll(Insert(g, edges[0].0, edges[0].1).1, edges[1..])
  }

  // ---------- walks ----------

  lemma LinkReaches(g: Graph, d: nat, a: nat)
    requires g.Link(d, a)
    ensures g.Reaches(d, a)
  {
    assert g.Walk([d, a]);
  }

  lemma ReachesTransitive(g: Graph, d: nat, m: nat, a: nat)
    requires g.Reaches(d, m) && g.Reaches(m, a)
    ensures g.Reaches(d, a)
  {
    var p: seq<nat> :| |p| >= 2 && p[0] == d && p[|p| - 1] == m && g.Walk(p);
    var q: seq<nat> :| |q| >= 2 && q[0] == m && q[|q| - 1] == a && g.Walk(q);
    var r := p + q[1..];
    forall k: nat | k < |r| - 1 ensures g.Link(r[k], r[k + 1]) {
      if k < |p| - 1 {
        assert g.Link(p[k], p[k + 1]);
      } else {
        assert g.Link(q[k - (|p| - 1)], q[k - (|p| - 1) + 1]);
      }
    }
    assert g.Walk(r) && r[0] == d && r[|r| - 1] == a;
  }

  lemma WalkTail(g: Graph, p: seq<nat>)
    requires |p| >= 2 && g.Walk(p)
    ensures g.Link(p[0], p[1]) && g.Walk(p[1..])
  {
    forall k: nat | k < |p[1..]| - 1 ensures g.Link(p[1..][k], p[1..][k + 1]) {
      assert g.Link(p[k + 1], p[k + 2]);
    }
  }

  // Graphs with the same links have the same ancestry.
  lemma SameLinks(g: Graph, h: Graph, d: nat, a: nat)
    requires forall x: nat, y: nat :: g.Link(x, y) ==> h.Link(x, y)
    ensures g.Reaches(d, a) ==> h.Reaches(d, a)
  {
    if g.Reaches(d, a) {
      var p: seq<nat> :| |p| >= 2 && p[0] == d && p[|p| - 1] == a && g.Walk(p);
      forall k: nat | k < |p| - 1 ensures h.Link(p[k], p[k + 1]) {
        assert g.Link(p[k], p[k + 1]);
      }
      assert h.Walk(p);
    }
  }

  // ---------- one new link ----------

  lemma {:induction false} NewLinkWalk(g: Graph, c: nat, p: nat, w: seq<nat>)
    requires c < |g.parents| && |w| >= 2 && AddLink(g, c, p).Walk(w)
    ensures var d, a := w[0], w[|w| - 1];
            g.Reaches(d, a) || (g.ReachesOrIs(d, c) && g.ReachesOrIs(p, a))
    decreases |w|
  {
    hide Graph.Walk, Graph.Reaches;
    var h := AddLink(g, c, p);
    WalkTail(h, w);
    if g.Link(w[0], w[1]) {
      LinkReaches(g, w[0], w[1]);
    }
    if |w| > 2 {
      NewLinkWalk(g, c, p, w[1..]);
      if g.Reaches(w[0], w[1]) {
        if g.Reaches(w[1], w[|w| - 1]) {
          ReachesTransitive(g, w[0], w[1], w[|w| - 1]);
        } else if w[1] != c {
          ReachesTransitive(g, w[0], w[1], c);
        }
      }
    }
  }

  // A new link adds exactly the pairs that pass through it.
  lemma NewLinkReaches(g: Graph, c: nat, p: nat, d: nat, a: nat)
    requires c < |g.parents|
    ensures AddLink(g, c, p).Reaches(d, a)
            <==> g.Reaches(d, a) || (g.ReachesOrIs(d, c) && g.ReachesOrIs(p, a))
  {
    var h := AddLink(g, c, p);
    if h.Reaches(d, a) {
      var w: seq<nat> :| |w| >= 2 && w[0] == d && w[|w| - 1] == a && h.Walk(w);
      NewLinkWalk(g, c, p, w);
    }
    SameLinks(g, h, d, a);
    if g.ReachesOrIs(d, c) && g.ReachesOrIs(p, a) {
      assert h.Link(c, p);
      LinkReaches(h, c, p);
      if d != c {
        SameLinks(g, h, d, c);
        ReachesTransitive(h, d, c, p);
      }
      if p != a {
        SameLinks(g, h, p, a);
        ReachesTransitive(h, d, p, a);
      }
    }
  }

  lemma NewLinkAcyclic(g: Graph, c: nat, p: nat)
    requires c < |g.parents| && g.Acyclic() && c != p && !g.Reaches(p, c)
    ensures AddLink(g, c, p).Acyclic()
  {
    forall i: nat ensures !AddLink(g, c, p).Reaches(i, i) {
      NewLinkReaches(g, c, p, i, i);
      if g.ReachesOrIs(i, c) && g.ReachesOrIs(p, i) && p != i && i != c {
        ReachesTransitive(g, p, i, c);
      }
    }
  }

  // ---------- insertion ----------

  lemma InternValid(g: Graph, h: Node)
    requires g.Valid()
    ensures var (r, g1) := Intern(g, h);
            && g1.Valid()
            && (r.Ok? ==> r.value < |g1.nodes| && g1.nodes[r.value] == h)
            && g.nodes <= g1.nodes
            && (forall d: nat, a: nat :: g1.Link(d, a) <==> g.Link(d, a))
            && (forall d: nat, a: nat :: g1.Reaches(d, a) <==> g.Reaches(d, a))
  {
    var g1 := Intern(g, h).1;
    forall d: nat, a: nat ensures g1.Reaches(d, a) <==> g.Reaches(d, a) {
      SameLinks(g, g1, d, a);
      SameLinks(g1, g, d, a);
    }
  }

  lemma InsertValid(g: Graph, parent: Node, child: Node)
    requires g.Valid()
    ensures Insert(g, parent, child).1.Valid()
  {
    hide Graph.Reaches, Graph.Link, Distinct;
    InternValid(g, parent);
    InternValid(Intern(g, parent).1, child);
  }

  lemma InsertAcyclic(g: Graph, parent: Node, child: Node)
    requires g.Valid() && g.Acyclic()
    ensures Insert(g, parent, child).1.Acyclic()
  {
    InternValid(g, parent);
    var (p, g1) := Intern(g, parent);
    InternValid(g1, child);
    var (c, g2) := Intern(g1, child);
    if parent != child && p.Ok? && c.Ok? && !g2.Reaches(p.value, c.value) {
      assert p.value != c.value;
      NewLinkAcyclic(g2, c.value, p.value);
    }
  }

  // Over every run of insertions, failed ones included, no hash is its own ancestor.
  lemma {:induction false} RunsStayAcyclic(g: Graph, edges: seq<(Node, Node)>)
    requires g.Valid() && g.Acyclic()
    ensures InsertAll(g, edges).Valid() && InsertAll(g, edges).Acyclic()
    decreases edges
  {
    if edges != [] {
      InsertValid(g, edges[0].0, edges[0].1);
      InsertAcyclic(g, edges[0].0, edges[0].1);
      RunsStayAcyclic(Insert(g, edges[0].0, edges[0].1).1, edges[1..]);
    }
  }

  lemma EmptyAcyclic()
    ensures EMPTY.Valid() && EMPTY.Acyclic()
  {
    forall p: seq<nat> | |p| >= 2 ensures !EMPTY.Walk(p) {
      assert !EMPTY.Link(p[0], p[1]);
    }
  }

  // ---------- ancestry between hashes ----------

  lemma AncestorAt(g: Graph, i: nat, j: nat)
    requires g.Valid() && i < |g.nodes| && j < |g.nodes|
    ensures g.Ancestor(g.nodes[i], g.nodes[j]) <==> g.Reaches(j, i)
  {
  }

  lemma AncestorTransitive(g: Graph, a: Node, m: Node, d: Node)
    requires g.Valid() && g.Ancestor(a, m) && g.Ancestor(m, d)
    ensures g.Ancestor(a, d)
  {
    var i: nat, j: nat :| i < |g.nodes| && j < |g.nodes| && g.nodes[i] == a && g.nodes[j] == m && g.Reaches(j, i);
    var k: nat, l: nat :| k < |g.nodes| && l < |g.nodes| && g.nodes[k] == m && g.nodes[l] == d && g.Reaches(l, k);
    assert k == j;
    ReachesTransitive(g, l, j, i);
  }

  lemma AncestorIrreflexive(g: Graph, h: Node)
    requires g.Valid() && g.Acyclic()
    ensures !g.Ancestor(h, h)
  {
  }

  // A successful insertion adds exactly the ancestries through the new edge; a failed one
  // adds none.
  lemma InsertAncestry(g: Graph, parent: Node, child: Node, a: Node, d: Node)
    requires g.Valid()
    ensures var (r, h) := Insert(g, parent, child);
            h.Ancestor(a, d) <==>
            || g.Ancestor(a, d)
            || (r.Ok? && g.AncestorOrIs(a, parent) && g.AncestorOrIs(child, d))
  {
    if parent != child {
      InternValid(g, parent);
      var (p, g1) := Intern(g, parent);
      InternAncestry(g, parent, a, d);
      InternValid(g1, child);
      var (c, g2) := Intern(g1, child);
      InternAncestry(g1, child, a, d);
      if p.Ok? && c.Ok? && Insert(g, parent, child).0.Ok? {
        InternAncestry(g, parent, a, parent);
        InternAncestry(g1, child, a, parent);
        InternAncestry(g, parent, child, d);
        InternAncestry(g1, child, child, d);
        LinkedAncestry(g2, c.value, p.value, a, d);
      }
    }
  }

  // ---------- when an insertion is refused ----------

  // The child already names the parent.
  ghost predicate Linked(g: Graph, parent: Node, child: Node)
    requires g.Valid()
  {
    parent in g.nodes && child in g.nodes && g.Link(g.Index(child), g.Index(parent))
  }

  ghost predicate HasAllParents(g: Graph, child: Node)
    requires g.Valid()
  {
    child in g.nodes && |g.parents[g.Index(child)]| == MAX_PARENTS
  }

  // The nodes an edge would add.
  ghost function Newcomers(g: Graph, parent: Node, child: Node): nat {
    (if parent in g.nodes then 0 else 1) + (if child in g.nodes then 0 else 1)
  }

  // Cyclic is the answer exactly to an edge from a node to itself or up to one of its own descendants.
  lemma CyclicIff(g: Graph, parent: Node, child: Node)
    requires g.Valid()
    ensures Insert(g, parent, child).0 == Err(Cyclic) <==> parent == child || g.Ancestor(child, parent)
  {
    if parent != child {
      InternValid(g, parent);
      var (p, g1) := Intern(g, parent);
      InternAncestry(g, parent, child, parent);
      InternValid(g1, child);
      var (c, g2) := Intern(g1, child);
      InternAncestry(g1, child, child, parent);
      if p.Ok? && c.Ok? {
        assert g2.nodes[p.value] == parent;
        AncestorAt(g2, c.value, p.value);
      }
      hide Graph.Reaches, Graph.Link;
    }
  }

  // Overflow is the answer exactly to an acyclic edge for which the table has no room: for its nodes, or for one more
  // parent of a child that does not have this one yet.
  lemma OverflowIff(g: Graph, parent: Node, child: Node)
    requires g.Valid()
    ensures Insert(g, parent, child).0 == Err(Overflow) <==>
              && parent != child && !g.Ancestor(child, parent)
              && (|g.nodes| + Newcomers(g, parent, child) > MAX_NODES
                  || (HasAllParents(g, child) && !Linked(g, parent, child)))
  {
    CyclicIff(g, parent, child);
    hide Graph.Reaches, Graph.Ancestor;
    InternValid(g, parent);
    InternValid(Intern(g, parent).1, child);
  }

  // Whatever the answer, an edge between two nodes leaves both in the table, as far as there is room for them: first
  // the parent, then the child.
  lemma InsertNodes(g: Graph, parent: Node, child: Node, x: Node)
    requires g.Valid()
    ensures x in Insert(g, parent, child).1.nodes <==>
              || x in g.nodes
              || (parent != child && x == parent && |g.nodes| < MAX_NODES)
              || (parent != child && x == child && |g.nodes| + Newcomers(g, parent, child) <= MAX_NODES)
  {
    hide Graph.Reaches, Graph.Link, Graph.Index;
  }

  // An accepted edge is accepted again and changes nothing more.
  lemma RepeatIsNoOp(g: Graph, parent: Node, child: Node)
    requires g.Valid() && Insert(g, parent, child).0.Ok?
    ensures var h := Insert(g, parent, child).1;
            h.Valid() && Linked(h, parent, child) && Insert(h, parent, child) == (Ok(()), h)
  {
    InternValid(g, parent);
    var (p, g1) := Intern(g, parent);
    InternValid(g1, child);
    var (c, g2) := Intern(g1, child);
    InsertValid(g, parent, child);
    var h := Insert(g, parent, child).1;
    NewLinkReaches(g2, c.value, p.value, p.value, c.value);
    hide Graph.Reaches, Graph.ReachesOrIs;
    assert h.nodes[p.value] == parent && h.nodes[c.value] == child;
    assert h.Index(parent) == p.value && h.Index(child) == c.value;
    assert p.value in h.parents[c.value];
  }

  lemma InternAncestry(g: Graph, h: Node, a: Node, d: Node)
    requires g.Valid()
    ensures Intern(g, h).1.Ancestor(a, d) <==> g.Ancestor(a, d)
  {
    InternValid(g, h);
    hide Graph.Reaches, Graph.Link, Intern;
    var g1 := Intern(g, h).1;
    if g1.Ancestor(a, d) {
      var i: nat, j: nat :|
        i < |g1.nodes| && j < |g1.nodes| && g1.nodes[i] == a && g1.nodes[j] == d && g1.Reaches(j, i);
      ReachesInside(g, j, i);
    }
    if g.Ancestor(a, d) {
      var i: nat, j: nat :| i < |g.nodes| && j < |g.nodes| && g.nodes[i] == a && g.nodes[j] == d && g.Reaches(j, i);
      assert g1.nodes[i] == a && g1.nodes[j] == d && g1.Reaches(j, i);
    }
  }

  lemma ReachesInside(g: Graph, d: nat, a: nat)
    requires g.Valid() && g.Reaches(d, a)
    ensures d < |g.nodes| && a < |g.nodes|
  {
    var p: seq<nat> :| |p| >= 2 && p[0] == d && p[|p| - 1] == a && g.Walk(p);
    assert g.Link(p[0], p[1]);
    assert g.Link(p[|p| - 2], p[|p| - 1]);
  }

  // The same statement once both endpoints are interned.
  lemma LinkedAncestry(g: Graph, c: nat, p: nat, a: Node, d: Node)
    requires g.Valid() && c < |g.nodes| && p < |g.nodes|
    requires p in g.parents[c] || |g.parents[c]| < MAX_PARENTS
    ensures var h := if p in g.parents[c] then g else AddLink(g, c, p);
            h.Ancestor(a, d) <==>
            || g.Ancestor(a, d)
            || (g.AncestorOrIs(a, g.nodes[p]) && g.AncestorOrIs(g.nodes[c], d))
  {
    var h := if p in g.parents[c] then g else AddLink(g, c, p);
    forall i: nat, j: nat | i < |g.nodes| && j < |g.nodes|
      ensures h.Reaches(j, i) <==> g.Reaches(j, i) || (g.ReachesOrIs(j, c) && g.ReachesOrIs(p, i))
    {
      if p in g.parents[c] {
        if g.ReachesOrIs(j, c) && g.ReachesOrIs(p, i) {
          ExistingLink(g, c, p, j, i);
        }
      } else {
        NewLinkReaches(g, c, p, j, i);
      }
    }
    if a in g.nodes && d in g.nodes {
      var i, j := g.Index(a), g.Index(d);
      AncestorAt(g, i, j);
      AncestorAt(h, i, j);
      AncestorAt(g, i, p);
      AncestorAt(g, c, j);
    } else {
      assert a in g.nodes || !g.AncestorOrIs(a, g.nodes[p]);
      assert d in g.nodes || !g.AncestorOrIs(g.nodes[c], d);
    }
  }

  lemma ExistingLink(g: Graph, c: nat, p: nat, d: nat, a: nat)
    requires g.Link(c, p) && g.ReachesOrIs(d, c) && g.ReachesOrIs(p, a)
    ensures g.Reaches(d, a)
  {
    LinkReaches(g, c, p);
    if d != c {
      ReachesTransitive(g, d, c, p);
    }
    if p != a {
      ReachesTransitive(g, d, p, a);
    }
  }

  // Ancestry only grows.
  lemma {:induction false} AncestryGrows(g: Graph, edges: seq<(Node, Node)>, a: Node, d: Node)
    requires g.Valid() && g.Ancestor(a, d)
    ensures InsertAll(g, edges).Ancestor(a, d)
    decreases edges
  {
    if edges != [] {
      InsertValid(g, edges[0].0, edges[0].1);
      InsertAncestry(g, edges[0].0, edges[0].1, a, d);
      AncestryGrows(Insert(g, edges[0].0, edges[0].1).1, edges[1..], a, d);
    }
  }

  // ---------- breadth-first search ----------

  // Every parent of a processed queue entry has been queued, and none is the target.
  ghost predicate Expanded(g: Graph, q: seq<nat>, target: nat, cur: nat, k: nat)
    requires cur < |g.parents| && k <= |g.parents[cur]|
  {
    forall m: nat :: m < k ==> g.parents[cur][m] in q && g.parents[cur][m] != target
  }

  ghost predicate Explored(g: Graph, q: seq<nat>, target: nat, head: nat)
    requires head <= |q|
  {
    forall j: nat :: j < head ==> q[j] < |g.parents| && Expanded(g, q, target, q[j], |g.parents[q[j]]|)
  }

  lemma ExploredExcludes(g: Graph, q: seq<nat>, source: nat, target: nat)
    requires forall x <- q :: x < |g.parents|
    requires source in q && Explored(g, q, target, |q|)
    ensures !g.Reaches(source, target)
  {
    if g.Reaches(source, target) {
      var p: seq<nat> :| |p| >= 2 && p[0] == source && p[|p| - 1] == target && g.Walk(p);
      var last := |p| - 2;
      assert g.Link(p[last], p[last + 1]);
      StaysQueued(g, q, target, p, last);
    }
  }

  lemma {:induction false} StaysQueued(g: Graph, q: seq<nat>, target: nat, p: seq<nat>, k: nat)
    requires forall x <- q :: x < |g.parents|
    requires Explored(g, q, target, |q|)
    requires k < |p| && p[0] in q && g.Walk(p)
    ensures p[k] in q
  {
    if k > 0 {
      StaysQueued(g, q, target, p, k - 1);
      assert g.Link(p[k - 1], p[k - 1 + 1]);
    }
  }

  class Dag {
    const nodes: array<Node>
    var nodeCount: nat
    const parents: array2<nat>
    const parentCount: array<nat>
    const visited: array<bool>
    const queue: array<nat>
    ghost var g: Graph

    // The arrays hold exactly the graph g, whatever lies beyond the counts.
    ghost predicate Holds()
      reads this, nodes, parents, parentCount
    {
      && g.Valid()
      && nodes.Length == parentCount.Length == parents.Length0 == MAX_NODES
      && parents.Length1 == MAX_PARENTS
      && nodeCount == |g.nodes|
      && (forall i: nat :: i < nodeCount ==> nodes[i] == g.nodes[i] && parentCount[i] == |g.parents[i]|)
      && (forall i: nat, k: nat :: i < nodeCount && k < |g.parents[i]| ==> parents[i, k] == g.parents[i][k])
    }

    ghost predicate Valid()
      reads this, nodes, parents, parentCount, visited, queue
    {
      && Holds() && g.Acyclic()
      && visited.Length == queue.Length == MAX_NODES
      && parentCount != queue
      && (forall i: nat :: i < MAX_NODES ==> !visited[i])
    }

    constructor ()
      ensures Valid() && g == EMPTY
      ensures fresh(nodes) && fresh(parents) && fresh(parentCount) && fresh(visited) && fresh(queue)
    {
      nodes := new Node[MAX_NODES](_ => []);
      parents := new nat[MAX_NODES, MAX_PARENTS]((_, _) => 0);
      parentCount := new nat[MAX_NODES](_ => 0);
      visited := new bool[MAX_NODES](_ => false);
      queue := new nat[MAX_NODES](_ => 0);
      nodeCount, g := 0, EMPTY;
      EmptyAcyclic();
    }

    method IndexOf(hash: Node) returns (r: Option<nat>)
      requires Valid()
      ensures r == if hash in g.nodes then Some(g.Index(hash)) else None
    {
      for i := 0 to nodeCount
        invariant hash !in g.nodes[..i]
      {
        if nodes[i] == hash {
          assert g.nodes[i] == hash;
          return Some(i);
        }
      }
      assert g.nodes[..nodeCount] == g.nodes;
      return None;
    }

    method InternNode(hash: Node) returns (r: Result<nat, DagError>)
      requires Valid()
      modifies this, nodes, parentCount
      ensures Valid()
      ensures (r, g) == Intern(old(g), hash)
    {
      var found := IndexOf(hash);
      if found.Some? {
        return Ok(found.value);
      }
      if nodeCount >= MAX_NODES {
        return Err(Overflow);
      }
      InternValid(g, hash);
      var idx := nodeCount;
      nodes[idx] := hash;
      parentCount[idx] := 0;
      nodeCount := nodeCount + 1;
      g := Intern(g, hash).1;
      return Ok(idx);
    }

    // Clear the marks of the nodes touched by a search.
    method ResetVisited(touched: array<nat>, n: nat, ghost q: seq<nat>)
      requires Holds() && g.Acyclic() && Searching(touched, q) && n == |q|
      modifies visited
      ensures Valid()
    {
      for i := 0 to n
        invariant forall k: nat :: k < MAX_NODES && visited[k] ==> k in q[i..]
      {
        assert touched[i] == touched[..n][i] == q[i] && q[i] in q;
        assert q[i..] == [q[i]] + q[i + 1..];
        visited[touched[i]] := false;
      }
    }

    // Mid-search: the queue and the touched list hold q, and exactly its nodes are marked.
    ghost predicate Searching(touched: array<nat>, q: seq<nat>)
      reads this, visited, queue, touched
    {
      && touched != queue && touched != parentCount && parentCount != queue
      && visited.Length == queue.Length == touched.Length == MAX_NODES
      && |q| <= MAX_NODES
      && queue[..|q|] == q
      && touched[..|q|] == q
      && (forall x <- q :: x < MAX_NODES)
      && (forall i: nat :: i < MAX_NODES ==> (visited[i] <==> i in q))
    }

    // Mark a node and append it to the queue.
    method Enqueue(touched: array<nat>, tail: nat, p: nat, ghost q: seq<nat>)
      requires Searching(touched, q) && tail == |q| < MAX_NODES && p < MAX_NODES
      modifies visited, queue, touched
      ensures Searching(touched, q + [p])
    {
      visited[p] := true;
      touched[tail] := p;
      queue[tail] := p;
      assert queue[..tail] == q && touched[..tail] == q;
      assert queue[..tail + 1] == q + [p];
      assert touched[..tail + 1] == q + [p];
    }

    // One round of the search: queue the unmarked parents of cur, stopping at the target.
    method ScanParents(touched: array<nat>, tail: nat, cur: nat, ancestor: nat, ghost q: seq<nat>, ghost up: set<nat>)
      returns (hit: bool, newTail: nat, ghost newQ: seq<nat>)
      requires Holds() && Searching(touched, q) && tail == |q|
      requires Frontier(g, q, up) && cur in q
      modifies visited, queue, touched
      ensures Holds() && Searching(touched, newQ) && newTail == |newQ|
      ensures Frontier(g, newQ, up) && q <= newQ
      ensures hit ==> ancestor in up
      ensures !hit ==> Expanded(g, newQ, ancestor, cur, |g.parents[cur]|)
    {
      newTail, newQ := tail, q;
      var pc := parentCount[cur];
      for k := 0 to pc
        invariant Holds() && Searching(touched, newQ) && newTail == |newQ|
        invariant Frontier(g, newQ, up) && q <= newQ
        invariant Expanded(g, newQ, ancestor, cur, k)
      {
        var p := parents[cur, k];
        assert g.Link(cur, p) by { assert p == g.parents[cur][k]; }
        if p == ancestor {
          return true, newTail, newQ;
        }
        if !visited[p] {
          FrontierGrows(g, newQ, up, p);
          Enqueue(touched, newTail, p, newQ);
          newTail, newQ := newTail + 1, newQ + [p];
        }
      }
      hit := false;
    }

    // The search loop, inside any set `up` that contains the start and is closed under links.
    method Search(touched: array<nat>, ancestor: nat, ghost descendant: nat, ghost up: set<nat>) returns (r: bool)
      requires Holds() && g.Acyclic() && Searching(touched, [descendant])
      requires Frontier(g, [descendant], up)
      modifies visited, queue, touched
      ensures Valid()
      ensures if r then ancestor in up else !g.Reaches(descendant, ancestor)
    {
      hide Graph.Acyclic, Graph.Reaches, Expanded;
      var head, tail := 0, 1;
      ghost var q := [descendant];
      while head < tail
        invariant head <= tail == |q|
        invariant Holds() && Searching(touched, q) && Frontier(g, q, up)
        invariant descendant in q && Explored(g, q, ancestor, head)
        decreases nodeCount - head
      {
        FrontierFits(g, q, up);
        var cur := queue[head];
        assert cur == q[head];
        head := head + 1;
        var hit;
        ghost var newQ;
        hit, tail, newQ := ScanParents(touched, tail, cur, ancestor, q, up);
        if hit {
          ResetVisited(touched, tail, newQ);
          return true;
        }
        ExploredGrows(g, q, newQ, ancestor, head - 1);
        q := newQ;
      }
      ResetVisited(touched, tail, q);
      ExploredExcludes(g, q, descendant, ancestor);
      return false;
    }

    // Is the first node reached from the second by parent links? The marks are clear again afterwards.
    method IsAncestorIdx(ancestor: nat, descendant: nat) returns (r: bool)
      requires Valid() && ancestor < nodeCount && descendant < nodeCount
      modifies visited, queue
      ensures Valid()
      ensures r <==> ancestor != descendant && g.Reaches(descendant, ancestor)
    {
      if ancestor == descendant {
        return false;
      }
      UpwardClosed(g, descendant);
      var touched := new nat[MAX_NODES](_ => 0);
      Enqueue(touched, 0, descendant, []);
      assert [] + [descendant] == [descendant];
      r := Search(touched, ancestor, descendant, Upward(g, descendant));
    }

    // Record the link unless it is there already.
    method AppendParent(cidx: nat, pidx: nat) returns (r: Result<(), DagError>)
      requires Valid() && cidx < nodeCount && pidx < nodeCount
      requires cidx != pidx && !g.Reaches(pidx, cidx)
      modifies this, parents, parentCount
      ensures Valid()
      ensures if pidx in old(g).parents[cidx] then r == Ok(()) && g == old(g)
              else if |old(g).parents[cidx]| >= MAX_PARENTS then r == Err(Overflow) && g == old(g)
              else r == Ok(()) && g == AddLink(old(g), cidx, pidx)
    {
      hide Graph.Reaches, Graph.Acyclic;
      var pc := parentCount[cidx];
      for k := 0 to pc
        invariant pidx !in g.parents[cidx][..k]
      {
        if parents[cidx, k] == pidx {
          assert g.parents[cidx][k] == pidx;
          return Ok(());
        }
      }
      assert g.parents[cidx][..pc] == g.parents[cidx];
      if pc >= MAX_PARENTS {
        return Err(Overflow);
      }
      parents[cidx, pc] := pidx;
      parentCount[cidx] := pc + 1;
      NewLinkAcyclic(g, cidx, pidx);
      g := AddLink(g, cidx, pidx);
      return Ok(());
    }

    method InsertEdge(parent: Node, child: Node) returns (r: Result<(), DagError>)
      requires Valid()
      modifies this, nodes, parents, parentCount, visited, queue
      ensures Valid()
      ensures (r, g) == Insert(old(g), parent, child)
    {
      if parent == child {
        return Err(Cyclic);
      }
      InternValid(g, parent);
      var pidx :- InternNode(parent);
      InternValid(g, child);
      var cidx :- InternNode(child);
      var closes := IsAncestorIdx(cidx, pidx);
      if closes {
        return Err(Cyclic);
      }
      r := AppendParent(cidx, pidx);
    }

    // Ancestry between hashes, false when either is unknown.
    method IsAncestor(ancestor: Node, descendant: Node) returns (r: bool)
      requires Valid()
      modifies visited, queue
      ensures Valid()
      ensures r <==> g.Ancestor(ancestor, descendant)
    {
      var a := IndexOf(ancestor);
      if a.None? {
        return false;
      }
      var d := IndexOf(descendant);
      if d.None? {
        return false;
      }
      AncestorAt(g, a.value, d.value);
      r := IsAncestorIdx(a.value, d.value);
    }

    // A span observed at `origin` is superseded by an effect between it and the claim.
    method Supersedes(origin: Node, effect: Node, claim: Node) returns (r: bool)
      requires Valid()
      modifies visited, queue
      ensures Valid()
      ensures r <==> g.Ancestor(origin, effect) && g.Ancestor(effect, claim)
    {
      r := IsAncestor(origin, effect);
      if r {
        r := IsAncestor(effect, claim);
      }
    }
  }

  ghost predicate Closed(g: Graph, up: set<nat>) {
    forall d: nat, a: nat :: d in up && g.Link(d, a) ==> a in up
  }

  ghost function Upward(g: Graph, d: nat): set<nat> {
    set a <- Below(|g.nodes|) | g.ReachesOrIs(d, a)
  }

  lemma UpwardClosed(g: Graph, d: nat)
    requires g.Valid() && d < |g.nodes|
    ensures d in Upward(g, d) && Closed(g, Upward(g, d))
  {
    forall m: nat, a: nat | m in Upward(g, d) && g.Link(m, a) ensures a in Upward(g, d) {
      StepReaches(g, d, m, a);
    }
  }

  // The queue lists nodes of `up`, once each.
  ghost predicate Frontier(g: Graph, q: seq<nat>, up: set<nat>) {
    && g.Valid() && Closed(g, up)
    && Distinct(q)
    && forall x <- q :: x < |g.nodes| && x in up
  }

  lemma FrontierFits(g: Graph, q: seq<nat>, up: set<nat>)
    requires Frontier(g, q, up)
    ensures |q| <= |g.nodes|
  {
    DistinctBelow(q, |g.nodes|);
  }

  // A node not yet queued leaves room in the queue.
  lemma FrontierGrows(g: Graph, q: seq<nat>, up: set<nat>, p: nat)
    requires Frontier(g, q, up) && p !in q && p < |g.nodes| && p in up
    ensures Frontier(g, q + [p], up) && |q| < |g.nodes|
  {
    FrontierFits(g, q + [p], up);
  }

  lemma StepReaches(g: Graph, d: nat, m: nat, a: nat)
    requires g.ReachesOrIs(d, m) && g.Link(m, a)
    ensures g.Reaches(d, a)
  {
    LinkReaches(g, m, a);
    if d != m {
      ReachesTransitive(g, d, m, a);
    }
  }

  lemma ExploredGrows(g: Graph, q: seq<nat>, r: seq<nat>, target: nat, head: nat)
    requires head <= |q| && q <= r && Explored(g, q, target, head)
    ensures Explored(g, r, target, head)
  {
    forall j: nat | j < head ensures Expanded(g, r, target, r[j], |g.parents[r[j]]|) {
      assert Expanded(g, q, target, q[j], |g.parents[q[j]]|);
    }
  }
}
