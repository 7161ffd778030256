/**
  The joint tree of a robot model: the order in which links are visited from the root, the
  transform of every link, and the links an actuated joint moves. Matrices are any monoid.
  */
module UrdfTree {

  datatype Link = Link(name: string)

  datatype Joint = Joint(name: string, parent: Link, child: Link, actuated: bool)

  /** The joints that leave a link, in the model's order. */
  function Children(joints: seq<Joint>, link: Link): (kids: seq<Joint>)
    ensures forall j :: j in kids <==> j in joints && j.parent == link
  {
    if joints == [] then []
    else
      var n := |joints| - 1;
      assert joints == joints[..n] + [joints[n]];
      if joints[n].parent == link then Children(joints[..n], link) + [joints[n]] else Children(joints[..n], link)
  }

  // ---------- Orders ----------

  /** The root, or the child of one of the first `n` joints of the order. */
  predicate Known(root: Link, order: seq<Joint>, n: nat, link: Link)
    requires n <= |order|
  {
    link == root || exists j :: 0 <= j < n && order[j].child == link
  }

  predicate Visited(root: Link, order: seq<Joint>, link: Link) {
    Known(root, order, |order|, link)
  }

  /** Every link is visited once, and after the parent of its joint. */
  predicate ParentsFirst(root: Link, order: seq<Joint>) {
    (forall i :: 0 <= i < |order| ==> order[i].child != root)
    && (forall i, j :: 0 <= i < j < |order| ==> order[i].child != order[j].child)
    && forall i :: 0 <= i < |order| ==> Known(root, order, i, order[i].parent)
  }

  /** Whatever a visited link leads to is visited. */
  predicate Closed(joints: seq<Joint>, root: Link, order: seq<Joint>) {
    forall j :: j in joints && Visited(root, order, j.parent) ==> Visited(root, order, j.child)
  }

  predicate FromModel(joints: seq<Joint>, order: seq<Joint>) {
    forall i :: 0 <= i < |order| ==> order[i] in joints
  }

  lemma KnownLater(root: Link, order: seq<Joint>, more: seq<Joint>, n: nat, link: Link)
    requires n <= |order|
    ensures Known(root, order + more, n, link) <==> Known(root, order, n, link)
  {
    var all := order + more;
    assert forall j :: 0 <= j < n ==> all[j] == order[j];
  }

  lemma VisitedSnoc(root: Link, order: seq<Joint>, j: Joint, link: Link)
    ensures Visited(root, order + [j], link) <==> Visited(root, order, link) || link == j.child
  {
    var all := order + [j];
    assert forall i :: 0 <= i < |order| ==> all[i] == order[i];
    assert all[|order|] == j;
  }

  /** Visiting a new child of a visited link keeps the order. */
  lemma SnocParentsFirst(root: Link, order: seq<Joint>, j: Joint)
    requires ParentsFirst(root, order) && Visited(root, order, j.parent) && !Visited(root, order, j.child)
    ensures ParentsFirst(root, order + [j])
  {
    var all := order + [j];
    forall i | 0 <= i < |all|
      ensures Known(root, all, i, all[i].parent)
    {
      KnownLater(root, order, [j], i, all[i].parent);
    }
  }

  // ---------- Reachability ----------

  /** `path` leads from `from` to `to` along joints of the model. */
  predicate Leads(joints: seq<Joint>, from: Link, path: seq<Joint>, to: Link) {
    if path == [] then from == to
    else
      var last := path[|path| - 1];
      last in joints && last.child == to && Leads(joints, from, path[..|path| - 1], last.parent)
  }

  /** A closed order visits everything a path leads to. */
  lemma {:induction false} ReachableVisited(joints: seq<Joint>, root: Link, order: seq<Joint>, path: seq<Joint>, to: Link)
    requires Closed(joints, root, order) && Leads(joints, root, path, to)
    ensures Visited(root, order, to)
  {
    if path != [] {
      ReachableVisited(joints, root, order, path[..|path| - 1], path[|path| - 1].parent);
    }
  }

  /** Where the joint of a visited link stands. */
  function Position(root: Link, order: seq<Joint>, n: nat, link: Link): (i: nat)
    requires n <= |order| && link != root && Known(root, order, n, link)
    ensures i < n && order[i].child == link
  {
    if order[n - 1].child == link then n - 1 else Position(root, order, n - 1, link)
  }

  /** The path of the tree from the root to a link. */
  function TreePath(root: Link, order: seq<Joint>, n: nat, link: Link): (path: seq<Joint>)
    requires ParentsFirst(root, order) && n <= |order| && Known(root, order, n, link)
    decreases n
  {
    if link == root then []
    else
      var i := Position(root, order, n, link);
      TreePath(root, order, i, order[i].parent) + [order[i]]
  }

  /** The tree path leads to its link. */
  lemma {:induction false} TreePathLeads(joints: seq<Joint>, root: Link, order: seq<Joint>, n: nat, link: Link)
    requires ParentsFirst(root, order) && FromModel(joints, order) && n <= |order| && Known(root, order, n, link)
    ensures Leads(joints, root, TreePath(root, order, n, link), link)
    decreases n
  {
    if link != root {
      var i := Position(root, order, n, link);
      TreePathLeads(joints, root, order, i, order[i].parent);
      var path := TreePath(root, order, i, order[i].parent);
      assert (path + [order[i]])[..|path|] == path;
    }
  }

  ghost predicate Reachable(joints: seq<Joint>, root: Link, link: Link) {
    exists path :: Leads(joints, root, path, link)
  }

  /** The visited links are exactly the reachable ones. */
  lemma VisitedIffReachable(joints: seq<Joint>, root: Link, order: seq<Joint>, link: Link)
    requires ParentsFirst(root, order) && FromModel(joints, order) && Closed(joints, root, order)
    ensures Visited(root, order, link) <==> Reachable(joints, root, link)
  {
    if Visited(root, order, link) {
      TreePathLeads(joints, root, order, |order|, link);
    }
    if Reachable(joints, root, link) {
      var path :| Leads(joints, root, path, link);
      ReachableVisited(joints, root, order, path, link);
    }
  }

  /** The tree path does not depend on how much of the order is looked at. */
  lemma {:induction false} TreePathStable(root: Link, order: seq<Joint>, n: nat, m: nat, link: Link)
    requires ParentsFirst(root, order) && n <= m <= |order| && Known(root, order, n, link)
    ensures Known(root, order, m, link) && TreePath(root, order, m, link) == TreePath(root, order, n, link)
  {
    if link != root {
      var i, j := Position(root, order, n, link), Position(root, order, m, link);
      assert i == j;
    }
  }

  // ---------- The traversal ----------

  /** Everything the joints mention as a child, and the root. */
  function Universe(joints: seq<Joint>, root: Link): set<Link> {
    (set j | j in joints :: j.child) + {root}
  }

  /** The order holds and `seen` is what it visits. */
  ghost predicate Holds(joints: seq<Joint>, root: Link, order: seq<Joint>, seen: set<Link>) {
    ParentsFirst(root, order) && FromModel(joints, order) && seen <= Universe(joints, root)
    && forall l :: l in seen <==> Visited(root, order, l)
  }

  lemma SnocHolds(joints: seq<Joint>, root: Link, order: seq<Joint>, seen: set<Link>, j: Joint)
    requires Holds(joints, root, order, seen) && j in joints && j.parent in seen && j.child !in seen
    ensures Holds(joints, root, order + [j], seen + {j.child})
  {
    SnocParentsFirst(root, order, j);
    forall l ensures Visited(root, order + [j], l) <==> l in seen + {j.child} {
      VisitedSnoc(root, order, j, l);
    }
  }

  lemma SnocMembers(stack: seq<Link>, link: Link)
    ensures forall l :: l in stack + [link] <==> l in stack || l == link
  {
  }

  /** The inner loop: every child of a link that is new is visited and pushed. */
  method Expand(joints: seq<Joint>, root: Link, link: Link, order0: seq<Joint>, seen0: set<Link>, stack0: seq<Link>)
      returns (order: seq<Joint>, seen: set<Link>, stack: seq<Link>)
    requires Holds(joints, root, order0, seen0) && link in seen0 && forall l :: l in stack0 ==> l in seen0
    ensures Holds(joints, root, order, seen) && seen0 <= seen
    ensures (forall l :: l in stack ==> l in seen) && (forall l :: l in stack0 ==> l in stack)
    ensures (forall l :: l in seen ==> l in seen0 || l in stack) && (seen == seen0 ==> stack == stack0)
    ensures forall j :: j in joints && j.parent == link ==> j.child in seen
  {
    order, seen, stack := order0, seen0, stack0;
    var kids := Children(joints, link);
    for k := 0 to |kids|
      invariant Holds(joints, root, order, seen) && seen0 <= seen
      invariant (forall l :: l in stack ==> l in seen) && (forall l :: l in stack0 ==> l in stack)
      invariant (forall l :: l in seen ==> l in seen0 || l in stack) && (seen == seen0 ==> stack == stack0)
      invariant forall i :: 0 <= i < k ==> kids[i].child in seen
    {
      var j := kids[k];
      assert j in kids;
      if j.child !in seen {
        SnocHolds(joints, root, order, seen, j);
        SnocMembers(stack, j.child);
        seen, order, stack := seen + {j.child}, order + [j], stack + [j.child];
      }
    }
    AllChildren(joints, link, kids, seen);
  }

  lemma AllChildren(joints: seq<Joint>, link: Link, kids: seq<Joint>, seen: set<Link>)
    requires kids == Children(joints, link) && forall i :: 0 <= i < |kids| ==> kids[i].child in seen
    ensures forall j :: j in joints && j.parent == link ==> j.child in seen
  {
    forall j | j in joints && j.parent == link ensures j.child in seen {
      assert j in kids;
    }
  }

  /** The traversal of the constructor: a stack, the links seen so far and the growing order.
      It ends on every model, cyclic ones included. */
  method Traverse(joints: seq<Joint>, root: Link) returns (order: seq<Joint>)
    ensures ParentsFirst(root, order) && FromModel(joints, order) && Closed(joints, root, order)
  {
    order := [];
    var seen, stack := {root}, [root];
    while stack != []
      invariant Holds(joints, root, order, seen) && forall l :: l in stack ==> l in seen
      invariant forall j :: j in joints && j.parent in seen && j.parent !in stack ==> j.child in seen
      decreases Universe(joints, root) - seen, |stack|
    {
      ghost var before := seen;
      var link, rest := stack[|stack| - 1], stack[..|stack| - 1];
      assert stack == rest + [link];
      order, seen, stack := Expand(joints, root, link, order, seen, rest);
      if seen != before {
        assert exists l :: l in seen && l !in before;
      }
    }
  }

  // ---------- Transforms ----------

  /** What a solver multiplies: a monoid, the fixed transform of every joint and the turn of
      every actuated one. */
  datatype Algebra<!M> = Algebra(mul: (M, M) -> M, one: M, origin: Joint -> M, turn: Joint -> M)

  ghost predicate Monoid<M(!new)>(a: Algebra<M>) {
    (forall p, q, r :: a.mul(a.mul(p, q), r) == a.mul(p, a.mul(q, r)))
    && forall p :: a.mul(a.one, p) == p && a.mul(p, a.one) == p
  }

  /** A fixed joint does not turn. */
  function Turn<M>(a: Algebra<M>, j: Joint): M {
    if j.actuated then a.turn(j) else a.one
  }

  /** From the parent's frame to the child's. */
  function Across<M>(a: Algebra<M>, j: Joint): M {
    a.mul(a.origin(j), Turn(a, j))
  }

  /** The product along a path, from the root outwards. */
  function Product<M>(a: Algebra<M>, path: seq<Joint>): M {
    if path == [] then a.one else a.mul(Product(a, path[..|path| - 1]), Across(a, path[|path| - 1]))
  }

  /** One joint more: its fixed transform, and then its turn if it is actuated and nothing if it
      is not. */
  lemma ProductNext<M(!new)>(a: Algebra<M>, path: seq<Joint>, j: Joint)
    requires Monoid(a)
    ensures Product(a, path + [j])
         == if j.actuated then a.mul(a.mul(Product(a, path), a.origin(j)), a.turn(j)) else a.mul(Product(a, path), a.origin(j))
  {
    assert (path + [j])[..|path|] == path;
  }

  /** So what a fixed joint is told to turn makes no difference. */
  lemma {:induction false} FixedJointsDoNotTurn<M(!new)>(a: Algebra<M>, turn: Joint -> M, path: seq<Joint>)
    requires Monoid(a) && forall i :: 0 <= i < |path| && path[i].actuated ==> turn(path[i]) == a.turn(path[i])
    ensures Product(a.(turn := turn), path) == Product(a, path)
  {
    if path != [] {
      FixedJointsDoNotTurn(a, turn, path[..|path| - 1]);
    }
  }

  /** The transforms of the links of the first `n` joints are the products along their paths. */
  ghost predicate Placed<M>(a: Algebra<M>, root: Link, order: seq<Joint>, n: nat, ts: map<Link, M>)
    requires ParentsFirst(root, order) && n <= |order|
  {
    (forall l :: l in ts <==> Known(root, order, n, l))
    && forall l :: l in ts ==> Known(root, order, n, l) && ts[l] == Product(a, TreePath(root, order, n, l))
  }

  lemma PlacedNext<M(!new)>(a: Algebra<M>, root: Link, order: seq<Joint>, n: nat, ts: map<Link, M>)
    requires Monoid(a) && ParentsFirst(root, order) && n < |order| && Placed(a, root, order, n, ts)
    ensures order[n].parent in ts
    ensures Placed(a, root, order, n + 1,
                   ts[order[n].child := a.mul(a.mul(ts[order[n].parent], a.origin(order[n])), Turn(a, order[n]))])
  {
    var j := order[n];
    assert Known(root, order, n, j.parent);
    var next := ts[j.child := a.mul(a.mul(ts[j.parent], a.origin(j)), Turn(a, j))];
    forall l ensures l in next <==> Known(root, order, n + 1, l) {
      if l in ts { TreePathStable(root, order, n, n + 1, l); }
    }
    forall l | l in next
      ensures Known(root, order, n + 1, l) && next[l] == Product(a, TreePath(root, order, n + 1, l))
    {
      if l == j.child {
        var path := TreePath(root, order, n, j.parent);
        assert Position(root, order, n + 1, l) == n;
        assert (path + [j])[..|path|] == path;
      } else {
        TreePathStable(root, order, n, n + 1, l);
      }
    }
  }

  /** `link_transforms`: one pass over the order gives every reachable link the product along
      its path, and no other link anything. */
  method LinkTransforms<M(!new)>(a: Algebra<M>, root: Link, order: seq<Joint>) returns (ts: map<Link, M>)
    requires Monoid(a) && ParentsFirst(root, order)
    ensures Placed(a, root, order, |order|, ts)
  {
    ts := map[root := a.one];
    for n := 0 to |order|
      invariant Placed(a, root, order, n, ts)
    {
      var j := order[n];
      PlacedNext(a, root, order, n, ts);
      if j.parent in ts {
        ts := ts[j.child := a.mul(a.mul(ts[j.parent], a.origin(j)), Turn(a, j))];
      }
    }
  }

  // ---------- What moves ----------

  predicate AnyActuated(path: seq<Joint>) {
    exists i :: 0 <= i < |path| && path[i].actuated
  }

  ghost predicate Movable(root: Link, order: seq<Joint>, n: nat, moving: set<Link>)
    requires ParentsFirst(root, order) && n <= |order|
  {
    forall l :: l in moving <==> Known(root, order, n, l) && AnyActuated(TreePath(root, order, n, l))
  }

  lemma ActuatedSnoc(path: seq<Joint>, j: Joint)
    ensures AnyActuated(path + [j]) <==> AnyActuated(path) || j.actuated
  {
    var all := path + [j];
    if AnyActuated(path) {
      var i :| 0 <= i < |path| && path[i].actuated;
      assert all[i].actuated;
    }
    assert all[|path|] == j;
  }

  lemma MovableNext(root: Link, order: seq<Joint>, n: nat, moving: set<Link>)
    requires ParentsFirst(root, order) && n < |order| && Movable(root, order, n, moving)
    ensures var j := order[n];
            Movable(root, order, n + 1, if j.actuated || j.parent in moving then moving + {j.child} else moving)
  {
    var j := order[n];
    var next := if j.actuated || j.parent in moving then moving + {j.child} else moving;
    assert Known(root, order, n, j.parent);
    forall l ensures l in next <==> Known(root, order, n + 1, l) && AnyActuated(TreePath(root, order, n + 1, l)) {
      if l == j.child {
        assert Position(root, order, n + 1, l) == n;
        ActuatedSnoc(TreePath(root, order, n, j.parent), j);
        assert !Known(root, order, n, l);
      } else if Known(root, order, n, l) {
        TreePathStable(root, order, n, n + 1, l);
      }
    }
  }

  /** No joint leaves the link, and an actuated joint lies on its path. */
  ghost predicate IsLeaf(joints: seq<Joint>, root: Link, order: seq<Joint>, link: Link)
    requires ParentsFirst(root, order)
  {
    (forall j :: j in joints ==> j.parent != link)
    && Visited(root, order, link) && AnyActuated(TreePath(root, order, |order|, link))
  }

  /** The leaves among the links, each as often and in the order the model lists it. */
  ghost function LeavesOf(links: seq<Link>, joints: seq<Joint>, root: Link, order: seq<Joint>): seq<Link>
    requires ParentsFirst(root, order)
  {
    if links == [] then []
    else
      var n := |links| - 1;
      LeavesOf(links[..n], joints, root, order) + if IsLeaf(joints, root, order, links[n]) then [links[n]] else []
  }

  /** The pass over the order that collects what moves. */
  method MovingLinks(root: Link, order: seq<Joint>) returns (moving: set<Link>)
    requires ParentsFirst(root, order)
    ensures Movable(root, order, |order|, moving)
  {
    moving := {};
    for n := 0 to |order|
      invariant Movable(root, order, n, moving)
    {
      var j := order[n];
      MovableNext(root, order, n, moving);
      if j.actuated || j.parent in moving {
        moving := moving + {j.child};
      }
    }
  }

  /** `leaf_links`: the links, in the model's order, that no joint leaves and that have an
      actuated joint on their path. */
  method LeafLinks(links: seq<Link>, joints: seq<Joint>, root: Link, order: seq<Joint>) returns (leaves: seq<Link>)
    requires ParentsFirst(root, order)
    ensures leaves == LeavesOf(links, joints, root, order)
  {
    var moving := MovingLinks(root, order);
    var parents := set j | j in joints :: j.parent;
    leaves := [];
    for i := 0 to |links|
      invariant leaves == LeavesOf(links[..i], joints, root, order)
    {
      assert links[..i + 1][..i] == links[..i];
      assert IsLeaf(joints, root, order, links[i]) <==> links[i] !in parents && links[i] in moving;
      if links[i] !in parents && links[i] in moving {
        leaves := leaves + [links[i]];
      }
    }
    assert links[..|links|] == links;
  }
}
