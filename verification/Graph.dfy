/**
 The triple graph: two nested indexes kept as each other's transpose, an edge counter, and the bounded
 breadth-first search over the outgoing index.
 */
module Graph {
  type Name = string

  type Index = map<Name, map<Name, set<Name>>>

  datatype Hop = Hop(predicate_: Name, object_: Name)

  // ----- nested indexes as sets of triples

  predicate Has(ix: Index, a: Name, p: Name, b: Name) {
    a in ix && p in ix[a] && b in ix[a][p]
  }

  /** No subject without predicates and no predicate without objects is kept. */
  ghost predicate Tidy(ix: Index) {
    forall a :: a in ix ==> ix[a] != map[] && forall p :: p in ix[a] ==> ix[a][p] != {}
  }

  ghost function Triples(ix: Index): set<(Name, Name, Name)> {
    set a, p, b | a in ix && p in ix[a] && b in ix[a][p] :: (a, p, b)
  }

  function Inserted(ix: Index, a: Name, p: Name, b: Name): Index {
    var inner := if a in ix then ix[a] else map[];
    ix[a := inner[p := (if p in inner then inner[p] else {}) + {b}]]
  }

  function Deleted(ix: Index, a: Name, p: Name, b: Name): Index
    requires Has(ix, a, p, b)
  {
    var inner := WithoutObject(ix[a], p, b);
    if inner == map[] then ix - {a} else ix[a := inner]
  }

  function WithoutObject(m: map<Name, set<Name>>, p: Name, b: Name): map<Name, set<Name>>
    requires p in m
  {
    if m[p] - {b} == {} then m - {p} else m[p := m[p] - {b}]
  }

  lemma WithoutObjectHas(m: map<Name, set<Name>>, p: Name, b: Name, q: Name, y: Name)
    requires p in m
    ensures var g := WithoutObject(m, p, b);
            q in g && y in g[q] <==> q in m && y in m[q] && !(q == p && y == b)
  {
    if q == p && y in m[q] && y != b {
      assert y in m[p] - {b};
    }
  }

  lemma InsertedTriples(ix: Index, a: Name, p: Name, b: Name)
    ensures Triples(Inserted(ix, a, p, b)) == Triples(ix) + {(a, p, b)}
    ensures forall x, q, y :: Has(Inserted(ix, a, p, b), x, q, y) <==> Has(ix, x, q, y) || (x == a && q == p && y == b)
    ensures Tidy(ix) ==> Tidy(Inserted(ix, a, p, b))
  {
  }

  lemma DeletedHas(ix: Index, a: Name, p: Name, b: Name, x: Name, q: Name, y: Name)
    requires Has(ix, a, p, b)
    ensures Has(Deleted(ix, a, p, b), x, q, y) <==> Has(ix, x, q, y) && !(x == a && q == p && y == b)
  {
    WithoutObjectHas(ix[a], p, b, q, y);
  }

  lemma DeletedTriples(ix: Index, a: Name, p: Name, b: Name)
    requires Has(ix, a, p, b)
    ensures Triples(Deleted(ix, a, p, b)) == Triples(ix) - {(a, p, b)}
    ensures forall x, q, y :: Has(Deleted(ix, a, p, b), x, q, y) <==> Has(ix, x, q, y) && !(x == a && q == p && y == b)
    ensures Tidy(ix) ==> Tidy(Deleted(ix, a, p, b))
  {
    forall x, q, y
      ensures Has(Deleted(ix, a, p, b), x, q, y) <==> Has(ix, x, q, y) && !(x == a && q == p && y == b)
    {
      DeletedHas(ix, a, p, b, x, q, y);
    }
    var g := Deleted(ix, a, p, b);
    TriplesHas(ix);
    TriplesHas(g);
    hide Triples, Has;
    assert Triples(g) == Triples(ix) - {(a, p, b)};
  }

  lemma TriplesHas(ix: Index)
    ensures forall t {:trigger t in Triples(ix)} :: t in Triples(ix) <==> Has(ix, t.0, t.1, t.2)
  {
  }

  // ----- paths

  predicate Edge(ix: Index, filter: Name, a: Name, hop: Hop) {
    Has(ix, a, hop.predicate_, hop.object_) && (filter == "" || hop.predicate_ == filter)
  }

  /** The node before hop i of a path, or its end. */
  function NodeAt(from: Name, path: seq<Hop>, i: nat): Name
    requires i <= |path|
  {
    if i == 0 then from else path[i - 1].object_
  }

  /** A chain of edges that respects the filter, from `from` to `to`. */
  ghost predicate IsPath(ix: Index, filter: Name, from: Name, path: seq<Hop>, to: Name) {
    && NodeAt(from, path, |path|) == to
    && forall i :: 0 <= i < |path| ==> Edge(ix, filter, NodeAt(from, path, i), path[i])
  }

  lemma PathExtends(ix: Index, filter: Name, from: Name, path: seq<Hop>, to: Name, hop: Hop)
    requires IsPath(ix, filter, from, path, to) && Edge(ix, filter, to, hop)
    ensures IsPath(ix, filter, from, path + [hop], hop.object_)
  {
    var r := path + [hop];
    forall i | 0 <= i < |r| ensures Edge(ix, filter, NodeAt(from, r, i), r[i]) {
      assert NodeAt(from, r, i) == NodeAt(from, path, i);
    }
  }

  lemma PathPrefix(ix: Index, filter: Name, from: Name, path: seq<Hop>, to: Name)
    requires path != [] && IsPath(ix, filter, from, path, to)
    ensures var n := |path| - 1;
            && IsPath(ix, filter, from, path[..n], NodeAt(from, path, n))
            && Edge(ix, filter, NodeAt(from, path, n), path[n]) && path[n].object_ == to
  {
    var n := |path| - 1;
    forall i | 0 <= i < n ensures Edge(ix, filter, NodeAt(from, path[..n], i), path[..n][i]) {
      assert NodeAt(from, path[..n], i) == NodeAt(from, path, i);
    }
  }

  // ----- paths in terms of the triples

  type Triple = (Name, Name, Name)

  /** A chain of triples from one node to another, all with the predicate wanted if one is. */
  ghost predicate IsChain(triples: set<Triple>, filter: Name, from: Name, path: seq<Hop>, to: Name)
    decreases |path|
  {
    if path == [] then from == to
    else
      && (from, path[0].predicate_, path[0].object_) in triples
      && (filter == "" || path[0].predicate_ == filter)
      && IsChain(triples, filter, path[0].object_, path[1..], to)
  }

  lemma {:induction false} PathIsChain(ix: Index, filter: Name, from: Name, path: seq<Hop>, to: Name)
    ensures IsPath(ix, filter, from, path, to) <==> IsChain(Triples(ix), filter, from, path, to)
    decreases |path|
  {
    TriplesHas(ix);
    hide Triples;
    if path != [] {
      var rest := path[1..];
      PathIsChain(ix, filter, path[0].object_, rest, to);
      assert (from, path[0].predicate_, path[0].object_) in Triples(ix)
        <==> Has(ix, from, path[0].predicate_, path[0].object_);
      hide Has;
      FirstHop(ix, filter, from, path, to);
    }
  }

  lemma FirstHop(ix: Index, filter: Name, from: Name, path: seq<Hop>, to: Name)
    requires path != []
    ensures IsPath(ix, filter, from, path, to) <==>
      Edge(ix, filter, from, path[0]) && IsPath(ix, filter, path[0].object_, path[1..], to)
  {
    hide Edge;
    var rest, next := path[1..], path[0].object_;
    forall i | 0 <= i <= |rest| ensures NodeAt(next, rest, i) == NodeAt(from, path, i + 1) {
    }
    if IsPath(ix, filter, from, path, to) {
      assert Edge(ix, filter, NodeAt(from, path, 0), path[0]);
      forall i | 0 <= i < |rest| ensures Edge(ix, filter, NodeAt(next, rest, i), rest[i]) {
        assert Edge(ix, filter, NodeAt(from, path, i + 1), path[i + 1]);
      }
    }
    if Edge(ix, filter, from, path[0]) && IsPath(ix, filter, next, rest, to) {
      forall i | 0 <= i < |path| ensures Edge(ix, filter, NodeAt(from, path, i), path[i]) {
        if i > 0 {
          assert Edge(ix, filter, NodeAt(next, rest, i - 1), rest[i - 1]);
        }
      }
    }
  }

  /** The shortest path in those terms. */
  lemma ShortestChain(ix: Index, filter: Name, from: Name, path: seq<Hop>, to: Name)
    ensures Shortest(ix, filter, from, path, to) <==>
      && IsChain(Triples(ix), filter, from, path, to)
      && forall other :: IsChain(Triples(ix), filter, from, other, to) ==> |path| <= |other|
  {
    hide IsPath, IsChain, Triples;
    forall p ensures IsPath(ix, filter, from, p, to) <==> IsChain(Triples(ix), filter, from, p, to) {
      PathIsChain(ix, filter, from, p, to);
    }
  }

  lemma ReachesByChain(ix: Index, filter: Name, from: Name, to: Name, n: nat)
    ensures Reaches(ix, filter, from, to, n) <==>
      exists path :: |path| <= n && IsChain(Triples(ix), filter, from, path, to)
  {
    hide IsPath, IsChain, Triples;
    forall p ensures IsPath(ix, filter, from, p, to) <==> IsChain(Triples(ix), filter, from, p, to) {
      PathIsChain(ix, filter, from, p, to);
    }
  }

  // ----- what the search has established

  /** Every edge out of u leads to a node that has been seen at most one hop further away. */
  ghost predicate Expanded(ix: Index, filter: Name, depth: map<Name, nat>, u: Name)
    requires u in depth
  {
    forall hop {:trigger Edge(ix, filter, u, hop)} ::
      Edge(ix, filter, u, hop) ==> hop.object_ in depth && depth[hop.object_] <= depth[u] + 1
  }

  /** Every seen node is still open, out of range, or expanded. */
  ghost predicate Explored(ix: Index, filter: Name, maxDepth: nat, depth: map<Name, nat>, open: set<Name>) {
    forall u :: u in depth && u !in open && depth[u] < maxDepth ==> Expanded(ix, filter, depth, u)
  }

  /**
   The frontier argument: if every open node is at least d hops away, then whatever some path of at most d (and
   at most maxDepth) hops reaches has been seen, and at no greater depth than that path's length.
   */
  lemma {:induction false} ReachedIsSeen(
    ix: Index, filter: Name, from: Name, maxDepth: nat, depth: map<Name, nat>, open: set<Name>, d: nat,
    path: seq<Hop>, v: Name)
    requires from in depth && depth[from] == 0 && Explored(ix, filter, maxDepth, depth, open)
    requires forall u :: u in open && u in depth ==> d <= depth[u]
    requires IsPath(ix, filter, from, path, v) && |path| <= d && |path| <= maxDepth
    ensures v in depth && depth[v] <= |path|
    decreases |path|
  {
    if path == [] {
    } else {
      var n := |path| - 1;
      var u := NodeAt(from, path, n);
      PathPrefix(ix, filter, from, path, v);
      ReachedIsSeen(ix, filter, from, maxDepth, depth, open, d, path[..n], u);
      assert Expanded(ix, filter, depth, u);
    }
  }

  datatype QNode = QNode(node: Name, path: seq<Hop>)

  ghost function Nodes(queue: seq<QNode>): set<Name> { set q | q in queue :: q.node }

  /** The queue holds seen nodes with a path as long as their depth, in order of depth, spanning at most one step. */
  ghost predicate QueueSound(ix: Index, filter: Name, from: Name, depth: map<Name, nat>, queue: seq<QNode>, d: nat) {
    && (forall q :: q in queue ==>
          && IsPath(ix, filter, from, q.path, q.node)
          && q.node in depth && depth[q.node] == |q.path| && d <= |q.path| <= d + 1)
    && (forall i, j :: 0 <= i < j < |queue| ==> |queue[i].path| <= |queue[j].path|)
    && (forall u :: u in depth ==> depth[u] <= d + 1)
  }

  lemma Started(ix: Index, filter: Name, from: Name, limit: nat)
    ensures QueueSound(ix, filter, from, map[from := 0], [QNode(from, [])], 0)
    ensures Explored(ix, filter, limit, map[from := 0], Nodes([QNode(from, [])]))
    ensures IsPath(ix, filter, from, [], from)
  {
    var queue := [QNode(from, [])];
    assert queue[0] in queue;
    assert from in Nodes(queue);
  }

  /** The front of the queue sets the new lower bound. */
  lemma Popped(
    ix: Index, filter: Name, from: Name, limit: nat, cur: QNode, queue: seq<QNode>, depth: map<Name, nat>, d: nat)
    requires QueueSound(ix, filter, from, depth, [cur] + queue, d)
    requires Explored(ix, filter, limit, depth, Nodes([cur] + queue))
    ensures d <= |cur.path| && QueueSound(ix, filter, from, depth, [cur] + queue, |cur.path|)
    ensures |cur.path| >= limit ==>
              && QueueSound(ix, filter, from, depth, queue, |cur.path|)
              && Explored(ix, filter, limit, depth, Nodes(queue))
  {
    var all := [cur] + queue;
    assert all[0] == cur;
    forall q | q in queue ensures q in all {
    }
    assert Nodes(all) == {cur.node} + Nodes(queue);
    assert forall i :: 0 <= i < |queue| ==> queue[i] == all[i + 1];
    forall q | q in all ensures |cur.path| <= |q.path| {
      var i :| 0 <= i < |all| && all[i] == q;
      assert i == 0 || |all[0].path| <= |all[i].path|;
    }
    if |cur.path| >= limit {
      forall u | u in depth && u !in Nodes(queue) && depth[u] < limit ensures Expanded(ix, filter, depth, u) {
        assert u != cur.node;
      }
    }
  }

  /** The state of a search while node cur is expanded: cur itself counts as the first open node. */
  ghost predicate Searching(
    ix: Index, filter: Name, from: Name, to: Name, limit: nat, cur: QNode, queue: seq<QNode>, depth: map<Name, nat>)
  {
    && from in depth && depth[from] == 0 && to !in depth && |cur.path| < limit
    && QueueSound(ix, filter, from, depth, [cur] + queue, |cur.path|)
    && Explored(ix, filter, limit, depth, Nodes([cur] + queue))
  }

  /** The edges out of cur whose predicate is not in `todo` lead to seen nodes. */
  ghost predicate Covered(ix: Index, filter: Name, cur: QNode, depth: map<Name, nat>, todo: set<Name>) {
    forall hop {:trigger Edge(ix, filter, cur.node, hop)} ::
      Edge(ix, filter, cur.node, hop) && hop.predicate_ !in todo ==>
        hop.object_ in depth && depth[hop.object_] <= |cur.path| + 1
  }

  /** The objects of predicate p that are not in `todo` are seen nodes next to cur. */
  ghost predicate ObjectsCovered(objs: set<Name>, cur: QNode, depth: map<Name, nat>, todo: set<Name>) {
    forall o :: o in objs && o !in todo ==> o in depth && depth[o] <= |cur.path| + 1
  }

  lemma ObjectsUncovered(objs: set<Name>, cur: QNode, depth: map<Name, nat>)
    ensures ObjectsCovered(objs, cur, depth, objs)
  {
  }

  lemma CoverNothing(ix: Index, filter: Name, cur: QNode, depth: map<Name, nat>)
    ensures cur.node !in ix ==> Covered(ix, filter, cur, depth, {})
    ensures cur.node in ix ==> Covered(ix, filter, cur, depth, ix[cur.node].Keys)
  {
  }

  /** Predicate p is done: its objects are covered, or the filter excludes it. */
  lemma CoverPredicate(ix: Index, filter: Name, cur: QNode, depth: map<Name, nat>, todo: set<Name>, p: Name)
    requires cur.node in ix && p in ix[cur.node] && Covered(ix, filter, cur, depth, todo)
    requires (filter != "" && p != filter) || ObjectsCovered(ix[cur.node][p], cur, depth, {})
    ensures Covered(ix, filter, cur, depth, todo - {p})
  {
  }

  /** Seeing another node next to cur keeps what is covered, and covers that node. */
  lemma CoverObject(
    ix: Index, filter: Name, cur: QNode, depth: map<Name, nat>, todo: set<Name>, objs: set<Name>, left: set<Name>,
    o: Name, depth': map<Name, nat>)
    requires Covered(ix, filter, cur, depth, todo) && ObjectsCovered(objs, cur, depth, left)
    requires if o in depth then depth' == depth && depth[o] <= |cur.path| + 1 else depth' == depth[o := |cur.path| + 1]
    ensures Covered(ix, filter, cur, depth', todo) && ObjectsCovered(objs, cur, depth', left - {o})
  {
  }

  lemma SearchStarts(
    ix: Index, filter: Name, from: Name, to: Name, limit: nat, cur: QNode, queue: seq<QNode>, depth: map<Name, nat>)
    requires from in depth && depth[from] == 0 && to !in depth && |cur.path| < limit
    requires QueueSound(ix, filter, from, depth, [cur] + queue, |cur.path|)
    requires Explored(ix, filter, limit, depth, Nodes([cur] + queue))
    ensures Searching(ix, filter, from, to, limit, cur, queue, depth)
  {
  }

  lemma ShortestReaches(ix: Index, filter: Name, from: Name, path: seq<Hop>, to: Name, n: nat)
    requires Shortest(ix, filter, from, path, to) && |path| <= n
    ensures Reaches(ix, filter, from, to, n)
  {
  }

  lemma TrivialPath(ix: Index, filter: Name, from: Name)
    ensures Shortest(ix, filter, from, [], from)
  {
  }

  /** Enqueueing an unseen neighbour of cur keeps the search state. */
  lemma Enqueued(
    ix: Index, filter: Name, from: Name, to: Name, limit: nat, cur: QNode, queue: seq<QNode>, depth: map<Name, nat>,
    hop: Hop)
    requires Searching(ix, filter, from, to, limit, cur, queue, depth)
    requires Edge(ix, filter, cur.node, hop) && hop.object_ !in depth && hop.object_ != to
    ensures Searching(ix, filter, from, to, limit, cur, queue + [QNode(hop.object_, cur.path + [hop])],
                      depth[hop.object_ := |cur.path| + 1])
  {
    hide IsPath, QueueSound, Explored, Edge;
    var q := QNode(hop.object_, cur.path + [hop]);
    var all := [cur] + queue;
    var depth' := depth[hop.object_ := |cur.path| + 1];
    assert [cur] + (queue + [q]) == all + [q];
    CurIsSound(ix, filter, from, depth, cur, queue);
    PathExtends(ix, filter, from, cur.path, cur.node, hop);
    QueueGrows(ix, filter, from, depth, all, |cur.path|, q);
    assert Nodes(all + [q]) == Nodes(all) + {q.node};
    ExploredGrows(ix, filter, limit, depth, Nodes(all), q.node, |cur.path| + 1);
  }

  lemma CurIsSound(ix: Index, filter: Name, from: Name, depth: map<Name, nat>, cur: QNode, queue: seq<QNode>)
    requires QueueSound(ix, filter, from, depth, [cur] + queue, |cur.path|)
    ensures IsPath(ix, filter, from, cur.path, cur.node)
  {
    assert ([cur] + queue)[0] == cur;
  }

  lemma QueueGrows(ix: Index, filter: Name, from: Name, depth: map<Name, nat>, queue: seq<QNode>, d: nat, q: QNode)
    requires QueueSound(ix, filter, from, depth, queue, d)
    requires IsPath(ix, filter, from, q.path, q.node) && |q.path| == d + 1 && q.node !in depth
    ensures QueueSound(ix, filter, from, depth[q.node := d + 1], queue + [q], d)
  {
    hide IsPath;
    forall i, j | 0 <= i < j < |queue + [q]| ensures |(queue + [q])[i].path| <= |(queue + [q])[j].path| {
      if j == |queue| {
        assert queue[i] in queue;
      }
    }
  }

  lemma ExploredGrows(
    ix: Index, filter: Name, limit: nat, depth: map<Name, nat>, open: set<Name>, v: Name, d: nat)
    requires Explored(ix, filter, limit, depth, open) && v !in depth
    ensures Explored(ix, filter, limit, depth[v := d], open + {v})
  {
    hide Edge;
    var depth' := depth[v := d];
    forall u | u in depth' && u !in open + {v} && depth'[u] < limit ensures Expanded(ix, filter, depth', u) {
      assert Expanded(ix, filter, depth, u);
    }
  }

  lemma SeenNearby(
    ix: Index, filter: Name, from: Name, to: Name, limit: nat, cur: QNode, queue: seq<QNode>, depth: map<Name, nat>,
    u: Name)
    requires Searching(ix, filter, from, to, limit, cur, queue, depth) && u in depth
    ensures depth[u] <= |cur.path| + 1
  {
  }

  /** An unseen target next to cur ends a shortest path. */
  lemma Found(
    ix: Index, filter: Name, from: Name, to: Name, limit: nat, cur: QNode, queue: seq<QNode>, depth: map<Name, nat>,
    hop: Hop)
    requires Searching(ix, filter, from, to, limit, cur, queue, depth)
    requires Edge(ix, filter, cur.node, hop) && hop.object_ == to
    ensures Shortest(ix, filter, from, cur.path + [hop], to)
  {
    var all := [cur] + queue;
    assert all[0] == cur;
    PathExtends(ix, filter, from, cur.path, cur.node, hop);
    forall other | IsPath(ix, filter, from, other, to) ensures |cur.path| + 1 <= |other| {
      if |other| <= |cur.path| {
        ReachedIsSeen(ix, filter, from, limit, depth, Nodes(all), |cur.path|, other, to);
      }
    }
  }

  /** When all edges out of cur are covered, cur is expanded and need no longer be open. */
  lemma ExpansionDone(
    ix: Index, filter: Name, from: Name, to: Name, limit: nat, cur: QNode, queue: seq<QNode>, depth: map<Name, nat>)
    requires Searching(ix, filter, from, to, limit, cur, queue, depth)
    requires Covered(ix, filter, cur, depth, {})
    ensures from in depth && depth[from] == 0 && to !in depth
    ensures QueueSound(ix, filter, from, depth, queue, |cur.path|)
    ensures Explored(ix, filter, limit, depth, Nodes(queue))
  {
    var all := [cur] + queue;
    assert all[0] == cur;
    assert Nodes(all) == {cur.node} + Nodes(queue);
    assert forall i :: 0 <= i < |queue| ==> queue[i] == all[i + 1];
    forall u | u in depth && u !in Nodes(queue) && depth[u] < limit ensures Expanded(ix, filter, depth, u) {
      assert u != cur.node ==> Expanded(ix, filter, depth, u);
    }
  }

  ghost predicate Reaches(ix: Index, filter: Name, from: Name, to: Name, n: nat) {
    exists path :: |path| <= n && IsPath(ix, filter, from, path, to)
  }

  ghost predicate Shortest(ix: Index, filter: Name, from: Name, path: seq<Hop>, to: Name) {
    && IsPath(ix, filter, from, path, to)
    && forall other :: IsPath(ix, filter, from, other, to) ==> |path| <= |other|
  }

  function Depth(maxDepth: int): (d: nat)
    ensures d > 0
  {
    if maxDepth <= 0 then 6 else maxDepth
  }

  // ----- the program

  class Graph {
    var out: Index
    var inn: Index
    var count: nat

    constructor ()
      ensures Valid() && Triples(out) == {}
    {
      out, inn, count := map[], map[], 0;
    }

    /** The incoming index is the transpose of the outgoing one, and count is the number of triples. */
    ghost predicate Valid()
      reads this
    {
      && Tidy(out) && Tidy(inn) && count == |Triples(out)|
      && forall a, p, b :: Has(out, a, p, b) <==> Has(inn, b, p, a)
    }

    /** Add a triple; true when it is new. */
    method Link(subject: Name, predicate_: Name, object_: Name) returns (added: bool)
      requires Valid()
      modifies this
      ensures Valid() && (added <==> (subject, predicate_, object_) !in old(Triples(out)))
      ensures Triples(out) == old(Triples(out)) + {(subject, predicate_, object_)}
    {
      hide Triples, Inserted, Tidy, Has;
      InsertedTriples(out, subject, predicate_, object_);
      TriplesHas(out);
      if Has(out, subject, predicate_, object_) {
        assert Triples(out) == Triples(out) + {(subject, predicate_, object_)};
        return false;
      }
      InsertedTriples(inn, object_, predicate_, subject);
      out := Inserted(out, subject, predicate_, object_);
      inn := Inserted(inn, object_, predicate_, subject);
      count := count + 1;
      return true;
    }

    /** Remove a triple; true when it was there. */
    method Unlink(subject: Name, predicate_: Name, object_: Name) returns (removed: bool)
      requires Valid()
      modifies this
      ensures Valid() && (removed <==> (subject, predicate_, object_) in old(Triples(out)))
      ensures Triples(out) == old(Triples(out)) - {(subject, predicate_, object_)}
    {
      hide Triples, Deleted, Tidy, Has;
      TriplesHas(out);
      if !Has(out, subject, predicate_, object_) {
        return false;
      }
      DeletedTriples(out, subject, predicate_, object_);
      assert Has(inn, object_, predicate_, subject);
      DeletedTriples(inn, object_, predicate_, subject);
      assert (subject, predicate_, object_) in Triples(out);
      out := Deleted(out, subject, predicate_, object_);
      inn := Deleted(inn, object_, predicate_, subject);
      count := count - 1;
      return true;
    }

    /** The sources of the edges into an object, each once. */
    method In(object_: Name, filter: Name) returns (subjects: set<Name>)
      requires Valid()
      ensures forall s :: s in subjects <==>
        exists p :: (s, p, object_) in Triples(out) && (filter == "" || p == filter)
    {
      TriplesHas(out);
      hide Triples;
      subjects := {};
      if object_ !in inn {
        forall s, p ensures (s, p, object_) !in Triples(out) {
          assert Has(out, s, p, object_) <==> Has(inn, object_, p, s);
        }
        return;
      }
      var todo := inn[object_].Keys;
      while todo != {}
        invariant todo <= inn[object_].Keys
        invariant forall s :: s in subjects ==>
          exists p :: (s, p, object_) in Triples(out) && (filter == "" || p == filter)
        invariant forall s, p ::
          p in inn[object_] && p !in todo && s in inn[object_][p] && (filter == "" || p == filter) ==> s in subjects
        decreases |todo|
      {
        var p :| p in todo;
        todo := todo - {p};
        if filter != "" && filter != p {
          continue;
        }
        forall s | s in inn[object_][p] ensures (s, p, object_) in Triples(out) {
          assert Has(inn, object_, p, s) && Has(out, s, p, object_);
        }
        subjects := subjects + inn[object_][p];
      }
      forall s, p | (s, p, object_) in Triples(out) && (filter == "" || p == filter) ensures s in subjects {
        assert Has(out, s, p, object_) && Has(inn, object_, p, s);
      }
    }

    /** The nodes a search can see. */
    ghost function Universe(from: Name): set<Name>
      reads this
    {
      {from} + set t | t in Triples(out) :: t.2
    }

    /** Look at every edge out of cur: enqueue unseen nodes, or stop at the target. */
    method Expand(from: Name, to: Name, filter: Name, ghost limit: nat, cur: QNode, queue: seq<QNode>,
                  seen: set<Name>, ghost depth: map<Name, nat>)
      returns (queue': seq<QNode>, seen': set<Name>, found: seq<Hop>, ghost depth': map<Name, nat>)
      requires Searching(out, filter, from, to, limit, cur, queue, depth)
      requires depth.Keys == seen <= Universe(from)
      ensures found != [] ==> Shortest(out, filter, from, found, to) && |found| == |cur.path| + 1
      ensures found == [] ==>
                && depth'.Keys == seen' <= Universe(from)
                && from in depth' && depth'[from] == 0 && to !in depth'
                && QueueSound(out, filter, from, depth', queue', |cur.path|)
                && Explored(out, filter, limit, depth', Nodes(queue'))
                && seen <= seen' && (seen' == seen ==> queue' == queue)
    {
      hide QueueSound, Explored, Universe, Searching, Covered, ObjectsCovered, Shortest;
      queue', seen', found, depth' := queue, seen, [], depth;
      CoverNothing(out, filter, cur, depth');
      if cur.node !in out {
        ExpansionDone(out, filter, from, to, limit, cur, queue', depth');
        return;
      }
      var preds := out[cur.node];
      var todo := preds.Keys;
      while todo != {}
        invariant todo <= preds.Keys && found == []
        invariant Searching(out, filter, from, to, limit, cur, queue', depth')
        invariant Covered(out, filter, cur, depth', todo)
        invariant depth'.Keys == seen' <= Universe(from)
        invariant seen <= seen' && (seen' == seen ==> queue' == queue)
        decreases |todo|
      {
        var p :| p in todo;
        if filter != "" && p != filter {
          CoverPredicate(out, filter, cur, depth', todo, p);
          todo := todo - {p};
          continue;
        }
        var objs := preds[p];
        ObjectsUncovered(objs, cur, depth');
        while objs != {}
          invariant objs <= preds[p] && found == []
          invariant Searching(out, filter, from, to, limit, cur, queue', depth')
          invariant Covered(out, filter, cur, depth', todo) && ObjectsCovered(preds[p], cur, depth', objs)
          invariant depth'.Keys == seen' <= Universe(from)
          invariant seen <= seen' && (seen' == seen ==> queue' == queue)
          decreases |objs|
        {
          var o :| o in objs;
          var hop := Hop(p, o);
          ghost var was := depth';
          if o in seen' {
            SeenNearby(out, filter, from, to, limit, cur, queue', depth', o);
          } else {
            var newPath := cur.path + [hop];
            if o == to {
              Found(out, filter, from, to, limit, cur, queue', depth', hop);
              found := newPath;
              return;
            }
            Enqueued(out, filter, from, to, limit, cur, queue', depth', hop);
            InUniverse(from, cur.node, hop);
            seen' := seen' + {o};
            queue' := queue' + [QNode(o, newPath)];
            depth' := depth'[o := |cur.path| + 1];
          }
          CoverObject(out, filter, cur, was, todo, preds[p], objs, o, depth');
          objs := objs - {o};
        }
        CoverPredicate(out, filter, cur, depth', todo, p);
        todo := todo - {p};
      }
      ExpansionDone(out, filter, from, to, limit, cur, queue', depth');
    }

    lemma FromInUniverse(from: Name)
      ensures from in Universe(from)
    {
    }

    lemma InUniverse(from: Name, a: Name, hop: Hop)
      requires Has(out, a, hop.predicate_, hop.object_)
      ensures hop.object_ in Universe(from)
    {
      assert (a, hop.predicate_, hop.object_) in Triples(out);
    }

    /**
     A shortest path of at most maxDepth hops (6 when maxDepth is not positive) that only uses the given predicate
     (any, when it is empty); false exactly when there is none.
     */
    method Path(from: Name, to: Name, maxDepth: int, filter: Name) returns (path: seq<Hop>, ok: bool)
      ensures ok <==> exists chain ::
        |chain| <= (if maxDepth <= 0 then 6 else maxDepth) && IsChain(Triples(out), filter, from, chain, to)
      ensures ok ==> |path| <= (if maxDepth <= 0 then 6 else maxDepth)
      ensures ok ==> IsChain(Triples(out), filter, from, path, to)
      ensures ok ==> forall other :: IsChain(Triples(out), filter, from, other, to) ==> |path| <= |other|
    {
      path, ok := Search(from, to, maxDepth, filter);
      hide Shortest, Reaches, IsChain, Triples;
      ShortestChain(out, filter, from, path, to);
      ReachesByChain(out, filter, from, to, Depth(maxDepth));
    }

    /** The search itself. */
    method Search(from: Name, to: Name, maxDepth: int, filter: Name) returns (path: seq<Hop>, ok: bool)
      ensures ok ==> Shortest(out, filter, from, path, to) && |path| <= Depth(maxDepth)
      ensures ok <==> Reaches(out, filter, from, to, Depth(maxDepth))
    {
      hide QueueSound, Explored, Universe, Searching, Shortest, Reaches;
      var limit := Depth(maxDepth);
      if from == to {
        TrivialPath(out, filter, from);
        ShortestReaches(out, filter, from, [], to, limit);
        return [], true;
      }
      Started(out, filter, from, limit);
      FromInUniverse(from);
      var queue := [QNode(from, [])];
      var seen := {from};
      ghost var depth: map<Name, nat> := map[from := 0];
      ghost var d: nat := 0;
      while queue != []
        invariant depth.Keys == seen <= Universe(from)
        invariant from in depth && depth[from] == 0 && to !in depth
        invariant QueueSound(out, filter, from, depth, queue, d)
        invariant Explored(out, filter, limit, depth, Nodes(queue))
        decreases Universe(from) - seen, |queue|
      {
        ghost var was := queue;
        var cur := queue[0];
        queue := queue[1..];
        assert [cur] + queue == was;
        Popped(out, filter, from, limit, cur, queue, depth, d);
        d := |cur.path|;
        if |cur.path| >= limit {
          continue;
        }
        SearchStarts(out, filter, from, to, limit, cur, queue, depth);
        var found;
        queue, seen, found, depth := Expand(from, to, filter, limit, cur, queue, seen, depth);
        if found != [] {
          ShortestReaches(out, filter, from, found, to, limit);
          return found, true;
        }
      }
      NothingLeft(out, filter, from, to, limit, depth);
      return [], false;
    }
  }

  /** With no open node left and the target unseen, no path within the limit reaches it. */
  lemma NothingLeft(ix: Index, filter: Name, from: Name, to: Name, limit: nat, depth: map<Name, nat>)
    requires from in depth && depth[from] == 0 && to !in depth
    requires Explored(ix, filter, limit, depth, Nodes([]))
    ensures !Reaches(ix, filter, from, to, limit)
  {
    if Reaches(ix, filter, from, to, limit) {
      var path :| |path| <= limit && IsPath(ix, filter, from, path, to);
      ReachedIsSeen(ix, filter, from, limit, depth, Nodes([]), limit, path, to);
    }
  }

  const THREE: set<Triple> := {("a", "knows", "b"), ("b", "knows", "c"), ("a", "likes", "c")}

  /**
   Two ways from "a" to "c": by "knows" over "b", and at once by "likes". The filter picks the longer one, which one
   hop is too few for.
   */
  method TwoWays() returns (direct: seq<Hop>, known: seq<Hop>, short: bool)
    ensures direct == [Hop("likes", "c")] && known == [Hop("knows", "b"), Hop("knows", "c")] && !short
  {
    var g := ThreeTriples();
    hide Triples, IsChain, Has, Tidy;
    OneHop(THREE, "", "a", "likes", "c");
    TwoHops(THREE, "knows", "a", "knows", "b", "knows", "c");
    var ok;
    direct, ok := g.Path("a", "c", 0, "");
    OnlyDirect(direct);
    known, ok := g.Path("a", "c", 0, "knows");
    OnlyKnown(known);
    var no;
    no, short := g.Path("a", "c", 1, "knows");
    if short {
      OnlyKnown(no);
    }
  }

  method ThreeTriples() returns (g: Graph)
    ensures fresh(g) && Triples(g.out) == THREE
  {
    hide Triples, Has, Tidy;
    g := new Graph();
    var added := g.Link("a", "knows", "b");
    added := g.Link("b", "knows", "c");
    added := g.Link("a", "likes", "c");
  }

  lemma NamesDiffer()
    ensures "knows" != "likes" && "a" != "b" && "b" != "c" && "a" != "c"
  {
    assert "knows"[0] != "likes"[0] && "a"[0] != "b"[0] && "b"[0] != "c"[0] && "a"[0] != "c"[0];
  }

  lemma OnlyDirect(path: seq<Hop>)
    requires IsChain(THREE, "", "a", path, "c") && |path| <= 1
    ensures path == [Hop("likes", "c")]
  {
    NamesDiffer();
    assert path == [path[0]] && path[1..] == [];
  }

  lemma OnlyKnown(path: seq<Hop>)
    requires IsChain(THREE, "knows", "a", path, "c") && |path| <= 2
    ensures path == [Hop("knows", "b"), Hop("knows", "c")]
  {
    NamesDiffer();
    assert path != [] && path[0] == Hop("knows", "b");
    var rest := path[1..];
    assert IsChain(THREE, "knows", "b", rest, "c");
    assert rest != [] && rest[0] == Hop("knows", "c") && rest[1..] == [];
    assert path == [path[0]] + ([rest[0]] + rest[1..]);
  }

  lemma OneHop(ts: set<Triple>, filter: Name, a: Name, p: Name, b: Name)
    requires (a, p, b) in ts && (filter == "" || p == filter)
    ensures IsChain(ts, filter, a, [Hop(p, b)], b)
  {
    assert [Hop(p, b)][1..] == [];
  }

  lemma TwoHops(ts: set<Triple>, filter: Name, a: Name, p: Name, b: Name, q: Name, c: Name)
    requires (a, p, b) in ts && (b, q, c) in ts && (filter == "" || p == filter == q)
    ensures IsChain(ts, filter, a, [Hop(p, b), Hop(q, c)], c)
  {
    OneHop(ts, filter, b, q, c);
    assert [Hop(p, b), Hop(q, c)][1..] == [Hop(q, c)];
  }
}
