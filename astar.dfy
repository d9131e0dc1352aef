/**
 * The generic A* engine of a_star.py.
 *
 * The engine knows nothing about grids: a problem is a value holding its
 * initial state and four functions (the actions of a state, the state an
 * action leads to, the goal test and the canonical key), and the heuristic is
 * a fifth function. Search nodes live in an arena (a sequence that only
 * grows); a node's parent is the arena index of an earlier node, so walking
 * parent links always terminates. The frontier is a sequence of arena indices
 * and the explored set holds canonical keys.
 */
module AStar {
  import opened Common

  /** What the engine asks of a problem (the attributes and methods a_star.py calls on `problem`). */
  datatype Problem<!S, !A, K> = Problem(
    initial: S,
    actions: S -> seq<A>,
    apply: (S, A) -> S,
    isGoal: S -> bool,
    key: S -> K)

  /** A search node; `parent` is the arena index of the node it was generated from. */
  datatype Node<S> = Node(state: S, parent: Option<nat>, g: nat, h: nat) {
    /** The frontier's ordering key, never stored apart from g and h. */
    function F(): nat { g + h }
  }

  /** The counters a_star returns beside the path. */
  datatype Metrics = Metrics(nodesGenerated: nat, nodesExpanded: nat, maxFrontierSize: nat)

  // ---------------------------------------------------------------------------
  // The state graph the problem describes

  /** t is reached from s by one of the actions the problem offers in s. */
  ghost predicate Step<S, A, K>(p: Problem<S, A, K>, s: S, t: S) {
    exists a :: a in p.actions(s) && p.apply(s, a) == t
  }

  /** A sequence of states that starts at the initial state and moves by Steps. */
  ghost predicate IsPath<S, A, K>(p: Problem<S, A, K>, path: seq<S>) {
    |path| >= 1 && path[0] == p.initial &&
    forall k :: 0 <= k < |path| - 1 ==> Step(p, path[k], path[k + 1])
  }

  /** A property of (state, depth) that holds initially and survives every Step holds along every path. */
  lemma {:induction false} PathInvariant<S, A, K>(p: Problem<S, A, K>, path: seq<S>, inv: (S, int) -> bool, m: int)
    requires IsPath(p, path) && inv(p.initial, 0)
    requires forall s, t, d :: inv(s, d) && Step(p, s, t) ==> inv(t, d + 1)
    requires 0 <= m < |path|
    ensures inv(path[m], m)
  {
    if m > 0 {
      PathInvariant(p, path, inv, m - 1);
    }
  }

  /** No path from the initial state ends in a goal. */
  ghost predicate GoalUnreachable<S(!new), A, K>(p: Problem<S, A, K>) {
    forall path :: IsPath(p, path) ==> !p.isGoal(path[|path| - 1])
  }

  /** The key is canonical: states with equal keys are equal. */
  ghost predicate KeyInjective<S(!new), A, K>(p: Problem<S, A, K>) {
    forall s, t :: p.key(s) == p.key(t) ==> s == t
  }

  // ---------------------------------------------------------------------------
  // Nodes and the arena

  /** child_node: the node an action leads to from the arena node `parent`. */
  function ChildNode<S, A, K>(p: Problem<S, A, K>, h: S -> nat, arena: seq<Node<S>>, parent: nat, action: A): (c: Node<S>)
    requires parent < |arena|
    ensures c.parent == Some(parent) && c.g == arena[parent].g + 1
    ensures c.state == p.apply(arena[parent].state, action) && c.F() == c.g + h(c.state)
    ensures action in p.actions(arena[parent].state) ==> Step(p, arena[parent].state, c.state)
  {
    var s := p.apply(arena[parent].state, action);
    Node(s, Some(parent), arena[parent].g + 1, h(s))
  }

  ghost predicate ParentsBelow<S>(arena: seq<Node<S>>) {
    forall i :: 0 <= i < |arena| && arena[i].parent.Some? ==> arena[i].parent.value < i
  }

  /** Node i is the root (i == 0) or hangs one Step below an earlier parent, with g one more. */
  ghost predicate Linked<S, A, K>(p: Problem<S, A, K>, h: S -> nat, arena: seq<Node<S>>, i: nat)
    requires i < |arena|
  {
    if i == 0 then arena[0] == Node(p.initial, None, 0, h(p.initial))
    else
      arena[i].parent.Some? && arena[i].parent.value < i &&
      arena[i].g == arena[arena[i].parent.value].g + 1 &&
      arena[i].h == h(arena[i].state) &&
      Step(p, arena[arena[i].parent.value].state, arena[i].state)
  }

  ghost predicate ArenaValid<S, A, K>(p: Problem<S, A, K>, h: S -> nat, arena: seq<Node<S>>) {
    |arena| >= 1 && ParentsBelow(arena) &&
    forall i :: 0 <= i < |arena| ==> Linked(p, h, arena, i)
  }

  /** Appending a child generated from an arena node by one of its actions keeps the arena valid. */
  lemma ArenaGrows<S, A, K>(p: Problem<S, A, K>, h: S -> nat, arena: seq<Node<S>>, parent: nat, action: A)
    requires ArenaValid(p, h, arena) && parent < |arena|
    requires action in p.actions(arena[parent].state)
    ensures ArenaValid(p, h, arena + [ChildNode(p, h, arena, parent, action)])
  {
    var arena' := arena + [ChildNode(p, h, arena, parent, action)];
    forall i | 0 <= i < |arena'|
      ensures Linked(p, h, arena', i)
    {
      if i < |arena| {
        assert Linked(p, h, arena, i);
        if i > 0 {
          assert arena'[arena[i].parent.value] == arena[arena[i].parent.value];
        }
      }
    }
  }

  /** The states from the root to node i, following parent links (reconstruct_path). */
  ghost function PathTo<S>(arena: seq<Node<S>>, i: nat): seq<S>
    requires ParentsBelow(arena) && i < |arena|
    decreases i
  {
    match arena[i].parent
    case None => [arena[i].state]
    case Some(q) => PathTo(arena, q) + [arena[i].state]
  }

  /**
   * The path to any arena node is a path of the problem that ends at that
   * node's state, and its number of steps is the node's g.
   */
  lemma {:induction false} PathSound<S, A, K>(p: Problem<S, A, K>, h: S -> nat, arena: seq<Node<S>>, i: nat)
    requires ArenaValid(p, h, arena) && i < |arena|
    ensures IsPath(p, PathTo(arena, i))
    ensures |PathTo(arena, i)| == arena[i].g + 1
    ensures PathTo(arena, i)[|PathTo(arena, i)| - 1] == arena[i].state
    decreases i
  {
    assert Linked(p, h, arena, i);
    if i > 0 {
      var q := arena[i].parent.value;
      PathSound(p, h, arena, q);
      var prefix := PathTo(arena, q);
      var path := PathTo(arena, i);
      assert path == prefix + [arena[i].state];
      forall k | 0 <= k < |path| - 1
        ensures Step(p, path[k], path[k + 1])
      {
        if k < |prefix| - 1 {
          assert path[k] == prefix[k] && path[k + 1] == prefix[k + 1];
        }
      }
    }
  }

  /** path[::-1] */
  function Reverse<T>(s: seq<T>): (r: seq<T>)
    ensures |r| == |s| && forall k :: 0 <= k < |s| ==> r[k] == s[|s| - 1 - k]
  {
    if s == [] then [] else [s[|s| - 1]] + Reverse(s[..|s| - 1])
  }

  /** reconstruct_path: collects states from the goal node up to the root, then reverses them. */
  method ReconstructPath<S>(arena: seq<Node<S>>, goal: nat) returns (path: seq<S>)
    requires ParentsBelow(arena) && goal < |arena|
    ensures path == PathTo(arena, goal)
  {
    var collected: seq<S> := [];
    var node: Option<nat> := Some(goal);
    while node.Some?
      invariant node.Some? ==> node.value < |arena| &&
                               PathTo(arena, goal) == PathTo(arena, node.value) + Reverse(collected)
      invariant node.None? ==> PathTo(arena, goal) == Reverse(collected)
      decreases if node.Some? then node.value + 1 else 0
    {
      var n := node.value;
      assert Reverse(collected + [arena[n].state]) == [arena[n].state] + Reverse(collected);
      collected := collected + [arena[n].state];
      node := arena[n].parent;
    }
    path := Reverse(collected);
  }

  // ---------------------------------------------------------------------------
  // The frontier

  ghost predicate Indices<S>(arena: seq<Node<S>>, frontier: seq<nat>) {
    forall q :: 0 <= q < |frontier| ==> frontier[q] < |arena|
  }

  ghost function KeyAt<S, A, K>(p: Problem<S, A, K>, arena: seq<Node<S>>, frontier: seq<nat>, q: int): K
    requires Indices(arena, frontier) && 0 <= q < |frontier|
  {
    p.key(arena[frontier[q]].state)
  }

  /** Some frontier node has canonical key k. */
  ghost predicate InFrontier<S, A, K>(p: Problem<S, A, K>, arena: seq<Node<S>>, frontier: seq<nat>, k: K)
    requires Indices(arena, frontier)
  {
    exists q :: 0 <= q < |frontier| && KeyAt(p, arena, frontier, q) == k
  }

  /** Every key in the first frontier is still in the second one. */
  ghost predicate KeepsKeys<S, A, K>(p: Problem<S, A, K>, arena: seq<Node<S>>, frontier: seq<nat>,
                                     arena': seq<Node<S>>, frontier': seq<nat>)
    requires Indices(arena, frontier) && Indices(arena', frontier')
  {
    forall q :: 0 <= q < |frontier| ==> InFrontier(p, arena', frontier', KeyAt(p, arena, frontier, q))
  }

  /** Every entry of the second frontier was in the first one or is an arena index from `lo` on. */
  predicate OnlyAdds(frontier: seq<nat>, frontier': seq<nat>, lo: nat) {
    forall x :: x in frontier' ==> x in frontier || lo <= x
  }

  /** The reconciliation invariant: frontier keys are pairwise distinct and none is explored. */
  ghost predicate FrontierOk<S, A, K>(p: Problem<S, A, K>, arena: seq<Node<S>>, frontier: seq<nat>, explored: set<K>) {
    Indices(arena, frontier) &&
    (forall a, b :: 0 <= a < b < |frontier| ==> KeyAt(p, arena, frontier, a) != KeyAt(p, arena, frontier, b)) &&
    (forall q :: 0 <= q < |frontier| ==> KeyAt(p, arena, frontier, q) !in explored)
  }

  /** Every key ever put in the frontier is still there or has been explored. */
  ghost predicate Covers<S, A, K>(p: Problem<S, A, K>, arena: seq<Node<S>>, frontier: seq<nat>, explored: set<K>, reached: set<K>)
    requires Indices(arena, frontier)
  {
    forall k :: k in reached ==> k in explored || InFrontier(p, arena, frontier, k)
  }

  /**
   * The expanded states, by key: none is a goal, and the key of every state
   * one action away from one of them has been reached.
   */
  ghost predicate ClosedOk<S, A, K>(p: Problem<S, A, K>, closed: map<K, S>, explored: set<K>, reached: set<K>) {
    closed.Keys == explored &&
    (forall k :: k in closed ==> p.key(closed[k]) == k && !p.isGoal(closed[k])) &&
    (forall k, a :: k in closed && a in p.actions(closed[k]) ==> p.key(p.apply(closed[k], a)) in reached)
  }

  /** heappop: the position of a frontier node of least f (the first such position). */
  function MinFPosition<S>(arena: seq<Node<S>>, frontier: seq<nat>): (k: nat)
    requires |frontier| > 0 && forall q :: 0 <= q < |frontier| ==> frontier[q] < |arena|
    ensures k < |frontier|
    ensures forall q :: 0 <= q < |frontier| ==> arena[frontier[k]].F() <= arena[frontier[q]].F()
    decreases |frontier|
  {
    if |frontier| == 1 then 0
    else
      var k := MinFPosition(arena, frontier[..|frontier| - 1]);
      if arena[frontier[|frontier| - 1]].F() < arena[frontier[k]].F() then |frontier| - 1 else k
  }

  /** The `for f_node in frontier` scan: the first frontier position whose key is k. */
  method FindInFrontier<S, A, K(==)>(p: Problem<S, A, K>, arena: seq<Node<S>>, frontier: seq<nat>, k: K)
    returns (pos: Option<nat>)
    requires Indices(arena, frontier)
    ensures pos.Some? ==> pos.value < |frontier| && KeyAt(p, arena, frontier, pos.value) == k
    ensures pos.Some? ==> forall r :: 0 <= r < pos.value ==> KeyAt(p, arena, frontier, r) != k
    ensures pos.None? <==> !InFrontier(p, arena, frontier, k)
  {
    var q := 0;
    while q < |frontier|
      invariant q <= |frontier|
      invariant forall r :: 0 <= r < q ==> KeyAt(p, arena, frontier, r) != k
    {
      if p.key(arena[frontier[q]].state) == k {
        return Some(q);
      }
      q := q + 1;
    }
    return None;
  }

  /** Old frontier entries keep their keys when the arena grows. */
  lemma KeysStable<S, A, K>(p: Problem<S, A, K>, arena: seq<Node<S>>, arena': seq<Node<S>>, frontier: seq<nat>)
    requires Indices(arena, frontier) && arena <= arena'
    ensures Indices(arena', frontier)
    ensures forall q :: 0 <= q < |frontier| ==> KeyAt(p, arena', frontier, q) == KeyAt(p, arena, frontier, q)
  {
    forall q | 0 <= q < |frontier|
      ensures arena'[frontier[q]] == arena[frontier[q]]
    {
    }
  }

  /**
   * One pass of the body of `for action in actions`: generate the child, then
   * replace a frontier node of the same key if the child's g is strictly
   * smaller, keep the frontier if that node is at least as good, push the
   * child if its key is neither in the frontier nor explored, and drop it if
   * it is explored. The child is appended to the arena in every case.
   */
  method AddChild<S, A, K(==)>(p: Problem<S, A, K>, h: S -> nat, arena: seq<Node<S>>, frontier: seq<nat>,
                               explored: set<K>, parent: nat, action: A)
    returns (arena': seq<Node<S>>, frontier': seq<nat>)
    requires parent < |arena| && FrontierOk(p, arena, frontier, explored)
    ensures arena' == arena + [ChildNode(p, h, arena, parent, action)]
    ensures FrontierOk(p, arena', frontier', explored)
    ensures var c := |arena|;
            forall q :: 0 <= q < |frontier| && KeyAt(p, arena, frontier, q) == p.key(arena'[c].state) ==>
              frontier' == if arena'[c].g < arena[frontier[q]].g then frontier[..q] + frontier[q + 1..] + [c]
                           else frontier
    ensures var c := |arena|;
            !InFrontier(p, arena, frontier, p.key(arena'[c].state)) ==>
              frontier' == if p.key(arena'[c].state) in explored then frontier else frontier + [c]
    ensures forall k :: InFrontier(p, arena, frontier, k) ==> InFrontier(p, arena', frontier', k)
    ensures var ck := p.key(arena'[|arena|].state); ck in explored || InFrontier(p, arena', frontier', ck)
    ensures |frontier'| <= |frontier| + 1
    ensures forall x :: x in frontier' ==> x in frontier || x == |arena|
  {
    var child := ChildNode(p, h, arena, parent, action);
    arena' := arena + [child];
    var c := |arena|;
    KeysStable(p, arena, arena', frontier);
    var childKey := p.key(child.state);
    var found := FindInFrontier(p, arena, frontier, childKey);
    frontier' := frontier;
    if found.Some? {
      var q := found.value;
      if child.g < arena[frontier[q]].g {
        frontier' := frontier[..q] + frontier[q + 1..] + [c];
        ReplaceKeeps(p, arena, frontier, explored, child, q);
        assert KeyAt(p, arena', frontier', |frontier'| - 1) == childKey;
      } else {
        assert KeyAt(p, arena', frontier', q) == childKey;
      }
    } else if childKey !in explored {
      frontier' := frontier + [c];
      PushKeeps(p, arena, frontier, explored, child);
      assert KeyAt(p, arena', frontier', |frontier'| - 1) == childKey;
    }
  }

  /** Replacing the frontier node of the child's key by the child keeps the invariant and every key. */
  lemma ReplaceKeeps<S, A, K>(p: Problem<S, A, K>, arena: seq<Node<S>>, frontier: seq<nat>, explored: set<K>,
                              child: Node<S>, q: nat)
    requires FrontierOk(p, arena, frontier, explored) && q < |frontier|
    requires KeyAt(p, arena, frontier, q) == p.key(child.state)
    ensures var arena', frontier' := arena + [child], frontier[..q] + frontier[q + 1..] + [|arena|];
            FrontierOk(p, arena', frontier', explored) &&
            forall k :: InFrontier(p, arena, frontier, k) ==> InFrontier(p, arena', frontier', k)
  {
    var arena', frontier' := arena + [child], frontier[..q] + frontier[q + 1..] + [|arena|];
    var childKey := p.key(child.state);
    KeysStable(p, arena, arena', frontier);
    assert KeyAt(p, arena', frontier', |frontier'| - 1) == childKey;
    forall a, b | 0 <= a < b < |frontier'|
      ensures KeyAt(p, arena', frontier', a) != KeyAt(p, arena', frontier', b)
    {
      var a' := if a < q then a else a + 1;
      assert KeyAt(p, arena', frontier', a) == KeyAt(p, arena, frontier, a');
      if b < |frontier'| - 1 {
        var b' := if b < q then b else b + 1;
        assert KeyAt(p, arena', frontier', b) == KeyAt(p, arena, frontier, b');
      }
    }
    forall q' | 0 <= q' < |frontier'|
      ensures KeyAt(p, arena', frontier', q') !in explored
    {
      if q' < |frontier'| - 1 {
        var r := if q' < q then q' else q' + 1;
        assert KeyAt(p, arena', frontier', q') == KeyAt(p, arena, frontier, r);
      }
    }
    forall k | InFrontier(p, arena, frontier, k)
      ensures InFrontier(p, arena', frontier', k)
    {
      var r :| 0 <= r < |frontier| && KeyAt(p, arena, frontier, r) == k;
      if r < q {
        assert KeyAt(p, arena', frontier', r) == k;
      } else if r > q {
        assert KeyAt(p, arena', frontier', r - 1) == k;
      } else {
        assert KeyAt(p, arena', frontier', |frontier'| - 1) == k;
      }
    }
  }

  /** Pushing a child whose key is new and unexplored keeps the invariant and every key. */
  lemma PushKeeps<S, A, K>(p: Problem<S, A, K>, arena: seq<Node<S>>, frontier: seq<nat>, explored: set<K>,
                           child: Node<S>)
    requires FrontierOk(p, arena, frontier, explored)
    requires !InFrontier(p, arena, frontier, p.key(child.state)) && p.key(child.state) !in explored
    ensures var arena', frontier' := arena + [child], frontier + [|arena|];
            FrontierOk(p, arena', frontier', explored) &&
            forall k :: InFrontier(p, arena, frontier, k) ==> InFrontier(p, arena', frontier', k)
  {
    var arena', frontier' := arena + [child], frontier + [|arena|];
    var childKey := p.key(child.state);
    KeysStable(p, arena, arena', frontier);
    assert KeyAt(p, arena', frontier', |frontier'| - 1) == childKey;
    forall a, b | 0 <= a < b < |frontier'|
      ensures KeyAt(p, arena', frontier', a) != KeyAt(p, arena', frontier', b)
    {
      assert KeyAt(p, arena', frontier', a) == KeyAt(p, arena, frontier, a);
      if b < |frontier| {
        assert KeyAt(p, arena', frontier', b) == KeyAt(p, arena, frontier, b);
      }
    }
    forall q | 0 <= q < |frontier|
      ensures KeyAt(p, arena', frontier', q) !in explored
    {
      assert KeyAt(p, arena', frontier', q) == KeyAt(p, arena, frontier, q);
    }
    forall k | InFrontier(p, arena, frontier, k)
      ensures InFrontier(p, arena', frontier', k)
    {
      var r :| 0 <= r < |frontier| && KeyAt(p, arena, frontier, r) == k;
      assert KeyAt(p, arena', frontier', r) == k;
    }
  }

  /**
   * One pass of the expansion loop: the child reached by `action` joins the arena and is reconciled
   * with the frontier, and its key is marked as reached.
   */
  method AddSuccessor<S, A, K(==)>(p: Problem<S, A, K>, h: S -> nat, arena: seq<Node<S>>, frontier: seq<nat>,
                                   explored: set<K>, ghost reached: set<K>, parent: nat, action: A)
    returns (arena': seq<Node<S>>, frontier': seq<nat>, ghost reached': set<K>)
    requires ArenaValid(p, h, arena) && parent < |arena| && action in p.actions(arena[parent].state)
    requires FrontierOk(p, arena, frontier, explored) && Covers(p, arena, frontier, explored, reached)
    ensures arena' == arena + [ChildNode(p, h, arena, parent, action)] && ArenaValid(p, h, arena')
    ensures reached' == reached + {p.key(p.apply(arena[parent].state, action))}
    ensures FrontierOk(p, arena', frontier', explored) && Covers(p, arena', frontier', explored, reached')
    ensures forall k :: InFrontier(p, arena, frontier, k) ==> InFrontier(p, arena', frontier', k)
    ensures forall x :: x in frontier' ==> x in frontier || x == |arena|
    ensures |frontier'| <= |frontier| + 1
  {
    ArenaGrows(p, h, arena, parent, action);
    arena', frontier' := AddChild(p, h, arena, frontier, explored, parent, action);
    assert arena'[|arena|].state == p.apply(arena[parent].state, action);
    CoversAdd(p, arena, frontier, arena', frontier', explored, reached, p.key(p.apply(arena[parent].state, action)));
    reached' := reached + {p.key(p.apply(arena[parent].state, action))};
  }

  /**
   * The loop `for action in actions` of one expansion: every action yields a
   * generated node, and afterwards the key of every child has been reached.
   */
  method ExpandNode<S, A, K(==)>(p: Problem<S, A, K>, h: S -> nat, arena: seq<Node<S>>, frontier: seq<nat>,
                                 explored: set<K>, parent: nat, nodesGenerated: nat, ghost reached: set<K>)
    returns (arena': seq<Node<S>>, frontier': seq<nat>, nodesGenerated': nat, ghost reached': set<K>)
    requires ArenaValid(p, h, arena) && parent < |arena|
    requires FrontierOk(p, arena, frontier, explored) && Covers(p, arena, frontier, explored, reached)
    ensures ArenaValid(p, h, arena') && arena <= arena'
    ensures |arena'| == |arena| + |p.actions(arena[parent].state)|
    ensures nodesGenerated' == nodesGenerated + |p.actions(arena[parent].state)|
    ensures FrontierOk(p, arena', frontier', explored) && Covers(p, arena', frontier', explored, reached')
    ensures reached <= reached'
    ensures forall a :: a in p.actions(arena[parent].state) ==>
              p.key(p.apply(arena[parent].state, a)) in reached'
    ensures |frontier'| - |frontier| <= |arena'| - |arena|
    ensures KeepsKeys(p, arena, frontier, arena', frontier') && OnlyAdds(frontier, frontier', |arena|)
    ensures forall k :: InFrontier(p, arena, frontier, k) ==> InFrontier(p, arena', frontier', k)
  {
    var s := arena[parent].state;
    var actions := p.actions(s);
    arena', frontier', nodesGenerated', reached' := arena, frontier, nodesGenerated, reached;
    var j := 0;
    while j < |actions|
      invariant 0 <= j <= |actions|
      invariant ArenaValid(p, h, arena') && arena <= arena' && |arena'| == |arena| + j
      invariant nodesGenerated' == nodesGenerated + j
      invariant FrontierOk(p, arena', frontier', explored) && Covers(p, arena', frontier', explored, reached')
      invariant reached <= reached'
      invariant forall r :: 0 <= r < j ==> p.key(p.apply(s, actions[r])) in reached'
      invariant |frontier'| - |frontier| <= j
      invariant KeepsKeys(p, arena, frontier, arena', frontier') && OnlyAdds(frontier, frontier', |arena|)
    {
      ghost var before := arena';
      ghost var frontierBefore := frontier';
      arena', frontier', reached' := AddSuccessor(p, h, arena', frontier', explored, reached', parent, actions[j]);
      nodesGenerated' := nodesGenerated' + 1;
      assert before[parent].state == s;
      KeepsKeysStep(p, arena, frontier, before, frontierBefore, arena', frontier');
      OnlyAddsStep(frontier, frontierBefore, frontier', |arena|, |before|);
      j := j + 1;
    }
    forall a | a in actions
      ensures p.key(p.apply(s, a)) in reached'
    {
      var r :| 0 <= r < |actions| && actions[r] == a;
    }
    KeepsKeysIn(p, arena, frontier, arena', frontier');
  }

  /** A key kept from the first frontier to the second and from the second to the third is in the third. */
  lemma KeepsKeysStep<S, A, K>(p: Problem<S, A, K>, a0: seq<Node<S>>, f0: seq<nat>, a1: seq<Node<S>>, f1: seq<nat>,
                               a2: seq<Node<S>>, f2: seq<nat>)
    requires Indices(a0, f0) && Indices(a1, f1) && Indices(a2, f2)
    requires KeepsKeys(p, a0, f0, a1, f1)
    requires forall k :: InFrontier(p, a1, f1, k) ==> InFrontier(p, a2, f2, k)
    ensures KeepsKeys(p, a0, f0, a2, f2)
  {
    forall q | 0 <= q < |f0|
      ensures InFrontier(p, a2, f2, KeyAt(p, a0, f0, q))
    {
      assert InFrontier(p, a1, f1, KeyAt(p, a0, f0, q));
    }
  }

  /** A frontier that keeps the key at every position keeps every key. */
  lemma KeepsKeysIn<S, A, K>(p: Problem<S, A, K>, a0: seq<Node<S>>, f0: seq<nat>, a1: seq<Node<S>>, f1: seq<nat>)
    requires Indices(a0, f0) && Indices(a1, f1) && KeepsKeys(p, a0, f0, a1, f1)
    ensures forall k :: InFrontier(p, a0, f0, k) ==> InFrontier(p, a1, f1, k)
  {
    forall k | InFrontier(p, a0, f0, k)
      ensures InFrontier(p, a1, f1, k)
    {
      var q :| 0 <= q < |f0| && KeyAt(p, a0, f0, q) == k;
    }
  }

  /** Adding only the index `i >= lo` to a frontier that had only added indices from `lo` on adds only indices from `lo` on. */
  lemma OnlyAddsStep(f0: seq<nat>, f1: seq<nat>, f2: seq<nat>, lo: nat, i: nat)
    requires OnlyAdds(f0, f1, lo) && lo <= i
    requires forall x :: x in f2 ==> x in f1 || x == i
    ensures OnlyAdds(f0, f2, lo)
  {
  }

  /** A step that keeps every frontier key and puts `key` in the frontier or among the explored keeps the coverage of `reached + {key}`. */
  lemma CoversAdd<S, A, K>(p: Problem<S, A, K>, a1: seq<Node<S>>, f1: seq<nat>, a2: seq<Node<S>>, f2: seq<nat>,
                           explored: set<K>, reached: set<K>, key: K)
    requires Indices(a1, f1) && Indices(a2, f2) && Covers(p, a1, f1, explored, reached)
    requires forall k :: InFrontier(p, a1, f1, k) ==> InFrontier(p, a2, f2, k)
    requires key in explored || InFrontier(p, a2, f2, key)
    ensures Covers(p, a2, f2, explored, reached + {key})
  {
    forall k | k in reached + {key}
      ensures k in explored || InFrontier(p, a2, f2, k)
    {
      if k != key {
        assert k in explored || InFrontier(p, a1, f1, k);
      }
    }
  }

  /** Popping frontier position k and exploring its key keeps the reconciliation invariant and the coverage. */
  lemma PopKeeps<S, A, K>(p: Problem<S, A, K>, arena: seq<Node<S>>, frontier: seq<nat>, explored: set<K>,
                          reached: set<K>, k: nat)
    requires FrontierOk(p, arena, frontier, explored) && Covers(p, arena, frontier, explored, reached)
    requires k < |frontier|
    ensures var frontier', explored' := frontier[..k] + frontier[k + 1..], explored + {KeyAt(p, arena, frontier, k)};
            FrontierOk(p, arena, frontier', explored') && Covers(p, arena, frontier', explored', reached)
  {
    var frontier' := frontier[..k] + frontier[k + 1..];
    var popped := KeyAt(p, arena, frontier, k);
    var explored' := explored + {popped};
    assert forall q :: 0 <= q < |frontier'| ==> frontier'[q] == frontier[if q < k then q else q + 1];
    forall a, b | 0 <= a < b < |frontier'|
      ensures KeyAt(p, arena, frontier', a) != KeyAt(p, arena, frontier', b)
    {
      assert KeyAt(p, arena, frontier', a) == KeyAt(p, arena, frontier, if a < k then a else a + 1);
      assert KeyAt(p, arena, frontier', b) == KeyAt(p, arena, frontier, if b < k then b else b + 1);
    }
    forall q | 0 <= q < |frontier'|
      ensures KeyAt(p, arena, frontier', q) !in explored'
    {
      assert KeyAt(p, arena, frontier', q) == KeyAt(p, arena, frontier, if q < k then q else q + 1);
    }
    forall x | x in reached
      ensures x in explored' || InFrontier(p, arena, frontier', x)
    {
      if x !in explored' {
        var r :| 0 <= r < |frontier| && KeyAt(p, arena, frontier, r) == x;
        assert r != k;
        assert KeyAt(p, arena, frontier', if r < k then r else r - 1) == x;
      }
    }
  }

  /**
   * If every state one action away from an expanded state has an expanded key,
   * and the initial key is expanded, then with a canonical key every state on
   * every path is an expanded state.
   */
  lemma {:induction false} ClosedHoldsPath<S(!new), A, K>(p: Problem<S, A, K>, closed: map<K, S>, path: seq<S>)
    requires KeyInjective(p) && p.key(p.initial) in closed
    requires forall k :: k in closed ==> p.key(closed[k]) == k
    requires forall k, a :: k in closed && a in p.actions(closed[k]) ==> p.key(p.apply(closed[k], a)) in closed
    requires IsPath(p, path)
    ensures forall m :: 0 <= m < |path| ==> p.key(path[m]) in closed && closed[p.key(path[m])] == path[m]
    decreases |path|
  {
    if |path| == 1 {
      assert p.key(closed[p.key(p.initial)]) == p.key(p.initial);
    } else {
      var prefix := path[..|path| - 1];
      assert IsPath(p, prefix) by {
        forall k | 0 <= k < |prefix| - 1
          ensures Step(p, prefix[k], prefix[k + 1])
        {
          assert prefix[k] == path[k] && prefix[k + 1] == path[k + 1];
        }
      }
      ClosedHoldsPath(p, closed, prefix);
      var m := |path| - 2;
      assert path[m] == prefix[m];
      assert Step(p, path[m], path[m + 1]);
      var a :| a in p.actions(path[m]) && p.apply(path[m], a) == path[m + 1];
      var t := path[m + 1];
      assert p.key(t) in closed;
      assert p.key(closed[p.key(t)]) == p.key(t);
    }
  }

  /** When the frontier has emptied, every reached key is explored; with a canonical key, no goal is reachable. */
  lemma ExhaustedMeansUnreachable<S(!new), A, K>(p: Problem<S, A, K>, closed: map<K, S>, reached: set<K>)
    requires p.key(p.initial) in reached && reached <= closed.Keys
    requires ClosedOk(p, closed, closed.Keys, reached)
    ensures KeyInjective(p) ==> GoalUnreachable(p)
  {
    if KeyInjective(p) {
      forall path | IsPath(p, path)
        ensures !p.isGoal(path[|path| - 1])
      {
        ClosedHoldsPath(p, closed, path);
        assert closed[p.key(path[|path| - 1])] == path[|path| - 1];
      }
    }
  }

  // ---------------------------------------------------------------------------
  // The driver

  /**
   * a_star(problem, heuristic, iteration_limit): returns a path from the
   * initial state to a goal, or None when the frontier empties or when the
   * iteration limit is reached, together with the search counters.
   */
  method Search<S(!new), A, K(==)>(p: Problem<S, A, K>, h: S -> nat, iterationLimit: int)
    returns (path: Option<seq<S>>, metrics: Metrics)
    ensures path.Some? ==> IsPath(p, path.value) && p.isGoal(path.value[|path.value| - 1])
    ensures metrics.nodesExpanded <= metrics.nodesGenerated
    ensures metrics.nodesExpanded <= (if iterationLimit < 0 then 0 else iterationLimit)
    ensures metrics.nodesGenerated >= 1 && metrics.maxFrontierSize >= 1
    ensures iterationLimit <= 0 ==> path == None && metrics == Metrics(1, 0, 1)
    ensures p.isGoal(p.initial) && iterationLimit >= 1 ==>
              path == Some([p.initial]) && metrics == Metrics(1, 1, 1)
    ensures path.None? && metrics.nodesExpanded < iterationLimit && KeyInjective(p) ==> GoalUnreachable(p)
  {
    var start := Node(p.initial, None, 0, h(p.initial));
    var arena := [start];
    var frontier: seq<nat> := [0];
    var explored: set<K> := {};
    var nodesGenerated, nodesExpanded, maxFrontierSize, i := 1, 0, 1, 0;
    ghost var closed: map<K, S> := map[];
    ghost var reached: set<K> := {p.key(p.initial)};
    assert KeyAt(p, arena, frontier, 0) == p.key(p.initial);
    while frontier != []
      invariant ArenaValid(p, h, arena) && arena[0] == start
      invariant FrontierOk(p, arena, frontier, explored) && Covers(p, arena, frontier, explored, reached)
      invariant ClosedOk(p, closed, explored, reached) && p.key(p.initial) in reached
      invariant nodesGenerated == |arena| && nodesExpanded == i && i + |frontier| <= |arena|
      invariant 1 <= maxFrontierSize && |frontier| <= maxFrontierSize
      invariant i == 0 || i <= iterationLimit
      invariant i == 0 ==> arena == [start] && frontier == [0] && maxFrontierSize == 1
      invariant i > 0 ==> !p.isGoal(p.initial)
      decreases iterationLimit - i
    {
      if i >= iterationLimit {
        return None, Metrics(nodesGenerated, nodesExpanded, maxFrontierSize);
      }
      i := i + 1;
      var k := MinFPosition(arena, frontier);
      var n := frontier[k];
      var node := arena[n];
      PopKeeps(p, arena, frontier, explored, reached, k);
      frontier := frontier[..k] + frontier[k + 1..];
      nodesExpanded := nodesExpanded + 1;
      if p.isGoal(node.state) {
        var route := ReconstructPath(arena, n);
        PathSound(p, h, arena, n);
        return Some(route), Metrics(nodesGenerated, nodesExpanded, maxFrontierSize);
      }
      explored := explored + {p.key(node.state)};
      closed := closed[p.key(node.state) := node.state];
      ghost var reachedBefore := reached;
      arena, frontier, nodesGenerated, reached :=
        ExpandNode(p, h, arena, frontier, explored, n, nodesGenerated, reached);
      assert arena[n] == node;
      maxFrontierSize := if |frontier| > maxFrontierSize then |frontier| else maxFrontierSize;
    }
    ExhaustedMeansUnreachable(p, closed, reached);
    return None, Metrics(nodesGenerated, nodesExpanded, maxFrontierSize);
  }
}
