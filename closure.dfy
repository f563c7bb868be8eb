/** `transitive_closure`: every (ancestor, descendant) pair of a parent-to-children
    map, found by a stack-based search from every node with a visited set per
    ancestor. The order in which the source walks its sets is not fixed, so each
    walk over a set picks its next element arbitrarily. */
module Closure {

  /** `{parent: [child, ...]}` */
  type Graph = map<string, seq<string>>

  /** No element occurs twice. */
  ghost predicate Distinct<T>(s: seq<T>) {
    forall i, j :: 0 <= i < j < |s| ==> s[i] != s[j]
  }

  /** The children of `x`: the set the source builds from `x`'s list. */
  function Successors(g: Graph, x: string): set<string> {
    if x in g then set c | c in g[x] else {}
  }

  /** `children.get(x, [])` */
  function Lookup(children: map<string, set<string>>, x: string): set<string> {
    if x in children then children[x] else {}
  }

  /** `n` is a parent or a child in `g`. */
  ghost predicate IsNode(g: Graph, n: string) {
    n in g || exists p :: p in g && n in g[p]
  }

  /** `path` follows direct edges from its first node to its last. */
  ghost predicate IsPath(g: Graph, path: seq<string>) {
    forall i :: 0 <= i < |path| - 1 ==> path[i + 1] in Successors(g, path[i])
  }

  /** `d` is reached from `a` by one or more direct edges. */
  ghost predicate Reachable(g: Graph, a: string, d: string) {
    exists path :: |path| >= 2 && path[0] == a && path[|path| - 1] == d && IsPath(g, path)
  }

  // ---------------------------------------------------------------------------
  // Reachability
  // ---------------------------------------------------------------------------

  lemma ReachStep(g: Graph, a: string, c: string)
    requires c in Successors(g, a)
    ensures Reachable(g, a, c)
  {
    assert IsPath(g, [a, c]);
  }

  lemma ReachExtend(g: Graph, a: string, x: string, c: string)
    requires Reachable(g, a, x) && c in Successors(g, x)
    ensures Reachable(g, a, c)
  {
    var path :| |path| >= 2 && path[0] == a && path[|path| - 1] == x && IsPath(g, path);
    var longer := path + [c];
    assert IsPath(g, longer) by {
      forall i | 0 <= i < |longer| - 1 ensures longer[i + 1] in Successors(g, longer[i]) {
        if i < |path| - 1 {
          assert longer[i] == path[i] && longer[i + 1] == path[i + 1];
        }
      }
    }
  }

  /** A set holding `a`'s children and closed under taking children holds every
      node reachable from `a`. */
  lemma ReachClosed(g: Graph, a: string, s: set<string>, d: string)
    requires Successors(g, a) <= s
    requires forall v :: v in s ==> Successors(g, v) <= s
    requires Reachable(g, a, d)
    ensures d in s
  {
    var path :| |path| >= 2 && path[0] == a && path[|path| - 1] == d && IsPath(g, path);
    var k := 1;
    assert path[1] in Successors(g, path[0]);
    while k < |path| - 1
      invariant 1 <= k <= |path| - 1 && path[k] in s
    {
      assert path[k + 1] in Successors(g, path[k]);
      k := k + 1;
    }
  }

  /** Only a parent reaches anything, and only nodes are reached. */
  lemma ReachableEnds(g: Graph, a: string, d: string)
    requires Reachable(g, a, d)
    ensures a in g && IsNode(g, d)
    ensures exists x :: d in Successors(g, x)
  {
    var path :| |path| >= 2 && path[0] == a && path[|path| - 1] == d && IsPath(g, path);
    assert path[1] in Successors(g, path[0]);
    assert path[|path| - 1] in Successors(g, path[|path| - 2]);
  }

  /** A node with no children reaches nothing, so it contributes no pairs. */
  lemma NoChildNoPairs(g: Graph, a: string)
    requires a !in g || g[a] == []
    ensures forall d :: !Reachable(g, a, d)
  {
    assert forall path :: |path| >= 2 && path[0] == a && IsPath(g, path) ==> path[1] in Successors(g, a);
  }

  // ---------------------------------------------------------------------------
  // The closure
  // ---------------------------------------------------------------------------

  /** Walking over a set: its elements, once each, in an order left open. */
  method Enumerate(s: set<string>) returns (xs: seq<string>)
    ensures forall x :: x in xs <==> x in s
    ensures Distinct(xs)
  {
    xs := [];
    var rest := s;
    while rest != {}
      invariant rest <= s
      invariant forall x :: x in xs <==> x in s - rest
      invariant Distinct(xs)
      decreases rest
    {
      var x :| x in rest;
      xs := xs + [x];
      rest := rest - {x};
    }
  }

  /** The first loops: the children sets and the set of all nodes. */
  method BuildChildren(g: Graph) returns (children: map<string, set<string>>, allNodes: set<string>)
    ensures forall x :: Lookup(children, x) == Successors(g, x)
    ensures forall n :: n in allNodes <==> IsNode(g, n)
  {
    children, allNodes := map[], {};
    var todo := g.Keys;
    while todo != {}
      invariant todo <= g.Keys
      invariant forall x :: Lookup(children, x) == if x in todo then {} else Successors(g, x)
      invariant forall n :: n in allNodes <==>
        (n in g && n !in todo) || exists p :: p in g && p !in todo && n in g[p]
      decreases todo
    {
      var parent :| parent in todo;
      allNodes := allNodes + {parent};
      children, allNodes := AddChildren(children, allNodes, parent, g[parent]);
      todo := todo - {parent};
      forall n ensures n in allNodes <==>
        (n in g && n !in todo) || exists p :: p in g && p !in todo && n in g[p]
      {
        if n in g[parent] {
          assert parent in g && parent !in todo;
        }
      }
    }
  }

  /** The inner loop of the first pass: `children[parent].add(ch)` and
      `all_nodes.add(ch)` for each child in the list. */
  method AddChildren(children0: map<string, set<string>>, allNodes0: set<string>,
                     parent: string, chList: seq<string>)
    returns (children: map<string, set<string>>, allNodes: set<string>)
    ensures Lookup(children, parent) == Lookup(children0, parent) + set c | c in chList
    ensures forall x :: x != parent ==> Lookup(children, x) == Lookup(children0, x)
    ensures allNodes == allNodes0 + set c | c in chList
  {
    children, allNodes := children0, allNodes0;
    for j := 0 to |chList|
      invariant Lookup(children, parent) == Lookup(children0, parent) + set c | c in chList[..j]
      invariant forall x :: x != parent ==> Lookup(children, x) == Lookup(children0, x)
      invariant allNodes == allNodes0 + set c | c in chList[..j]
    {
      assert chList[..j + 1] == chList[..j] + [chList[j]];
      children := children[parent := Lookup(children, parent) + {chList[j]}];
      allNodes := allNodes + {chList[j]};
    }
    assert chList[..|chList|] == chList;
  }

  /** Every child of `x` has been visited or is waiting on the stack. */
  ghost predicate Covered(g: Graph, visited: set<string>, queue: seq<string>, x: string) {
    forall c :: c in Successors(g, x) ==> c in visited || c in queue
  }

  /** Popping the top of the stack keeps a node covered, once the popped node is
      visited and the rest of the stack is kept. */
  lemma CoveredAfterPop(g: Graph, visited: set<string>, queue: seq<string>,
                        visited': set<string>, queue': seq<string>, x: string)
    requires Covered(g, visited, queue, x) && queue != []
    requires visited <= visited' && queue[|queue| - 1] in visited'
    requires forall c :: c in queue[..|queue| - 1] ==> c in queue'
    ensures Covered(g, visited', queue', x)
  {
    forall c | c in queue ensures c in visited' || c in queue' {
      var k :| 0 <= k < |queue| && queue[k] == c;
      if k < |queue| - 1 {
        assert c in queue[..|queue| - 1];
      }
    }
  }

  /** The loop invariant of the search from `ancestor`: the pairs added so far are
      the pairs of the visited nodes, each once; everything visited or waiting is a
      descendant; and every child of the ancestor or of a visited node is visited
      or waiting. */
  ghost predicate Searching(g: Graph, nodes: set<string>, ancestor: string,
                            pairs0: seq<(string, string)>, pairs: seq<(string, string)>,
                            visited: set<string>, queue: seq<string>) {
    |pairs0| <= |pairs| && pairs[..|pairs0|] == pairs0
    && (forall k :: |pairs0| <= k < |pairs| ==> pairs[k].0 == ancestor)
    && (forall d :: (ancestor, d) in pairs[|pairs0|..] <==> d in visited)
    && Distinct(pairs[|pairs0|..])
    && visited <= nodes
    && (forall v :: v in visited ==> Reachable(g, ancestor, v))
    && (forall c :: c in queue ==> Reachable(g, ancestor, c))
    && Covered(g, visited, queue, ancestor)
    && (forall v :: v in visited ==> Covered(g, visited, queue, v))
  }

  /** Popping a node already visited keeps the invariant. */
  lemma SkipStep(g: Graph, nodes: set<string>, ancestor: string, pairs0: seq<(string, string)>,
                 pairs: seq<(string, string)>, visited: set<string>, queue: seq<string>)
    requires Searching(g, nodes, ancestor, pairs0, pairs, visited, queue)
    requires queue != [] && queue[|queue| - 1] in visited
    ensures Searching(g, nodes, ancestor, pairs0, pairs, visited, queue[..|queue| - 1])
  {
    var rest := queue[..|queue| - 1];
    forall c | c in rest ensures c in queue {
      FrontInQueue(queue, c);
    }
    forall x | x == ancestor || x in visited ensures Covered(g, visited, rest, x) {
      CoveredAfterPop(g, visited, queue, visited, rest, x);
    }
  }

  /** Popping a new node, recording its pair and pushing its children keeps the
      invariant; the node is one of the graph's nodes. */
  lemma VisitStep(g: Graph, nodes: set<string>, ancestor: string, pairs0: seq<(string, string)>,
                  pairs: seq<(string, string)>, visited: set<string>, queue: seq<string>,
                  more: seq<string>)
    requires Searching(g, nodes, ancestor, pairs0, pairs, visited, queue)
    requires forall x, c :: c in Successors(g, x) ==> c in nodes
    requires queue != [] && queue[|queue| - 1] !in visited
    requires forall c :: c in more <==> c in Successors(g, queue[|queue| - 1])
    ensures queue[|queue| - 1] in nodes
    ensures Searching(g, nodes, ancestor, pairs0, pairs + [(ancestor, queue[|queue| - 1])],
                      visited + {queue[|queue| - 1]}, queue[..|queue| - 1] + more)
  {
    var node := queue[|queue| - 1];
    var rest := queue[..|queue| - 1];
    assert Reachable(g, ancestor, node);
    assert node in nodes by {
      ReachableEnds(g, ancestor, node);
      var x :| node in Successors(g, x);
    }
    var pairs' := pairs + [(ancestor, node)];
    var tail := pairs[|pairs0|..];
    assert pairs'[..|pairs0|] == pairs0;
    assert pairs'[|pairs0|..] == tail + [(ancestor, node)];
    DistinctAppend(tail, (ancestor, node));
    forall d ensures (ancestor, d) in tail + [(ancestor, node)] <==> d in visited + {node} {
      AppendMember(tail, (ancestor, node), (ancestor, d));
    }
    forall c | c in more ensures Reachable(g, ancestor, c) {
      ReachExtend(g, ancestor, node, c);
    }
    var queue' := rest + more;
    forall c | c in rest ensures c in queue' {
      FrontInQueue(queue, c);
    }
    forall x | x == ancestor || x in visited ensures Covered(g, visited + {node}, queue', x) {
      CoveredAfterPop(g, visited, queue, visited + {node}, queue', x);
    }
  }

  lemma DistinctAppend<T>(s: seq<T>, x: T)
    requires Distinct(s) && x !in s
    ensures Distinct(s + [x])
  {
  }

  lemma AppendMember<T>(s: seq<T>, x: T, y: T)
    ensures y in s + [x] <==> y in s || y == x
  {
  }

  lemma FrontInQueue(queue: seq<string>, c: string)
    requires queue != [] && c in queue[..|queue| - 1]
    ensures c in queue
  {
    var k :| 0 <= k < |queue| - 1 && queue[..|queue| - 1][k] == c;
    assert queue[k] == c;
  }

  /** The search from one ancestor: pops the stack, skips visited nodes, and
      records a pair and pushes the children for every new node. */
  method Search(g: Graph, children: map<string, set<string>>, ghost nodes: set<string>,
                ancestor: string, pairs0: seq<(string, string)>)
    returns (pairs: seq<(string, string)>)
    requires forall x :: Lookup(children, x) == Successors(g, x)
    requires forall x, c :: c in Successors(g, x) ==> c in nodes
    ensures |pairs0| <= |pairs| && pairs[..|pairs0|] == pairs0
    ensures forall k :: |pairs0| <= k < |pairs| ==> pairs[k].0 == ancestor
    ensures forall d :: (ancestor, d) in pairs[|pairs0|..] <==> Reachable(g, ancestor, d)
    ensures Distinct(pairs[|pairs0|..])
  {
    var visited: set<string> := {};
    var queue := Enumerate(Lookup(children, ancestor));
    pairs := pairs0;
    forall c | c in queue ensures Reachable(g, ancestor, c) {
      ReachStep(g, ancestor, c);
    }
    assert pairs[|pairs0|..] == [];
    while queue != []
      invariant Searching(g, nodes, ancestor, pairs0, pairs, visited, queue)
      decreases nodes - visited, |queue|
    {
      var node := queue[|queue| - 1];
      if node in visited {
        SkipStep(g, nodes, ancestor, pairs0, pairs, visited, queue);
        queue := queue[..|queue| - 1];
        continue;
      }
      var more := Enumerate(Lookup(children, node));
      VisitStep(g, nodes, ancestor, pairs0, pairs, visited, queue, more);
      visited := visited + {node};
      pairs := pairs + [(ancestor, node)];
      queue := queue[..|queue| - 1] + more;
    }
    forall d | Reachable(g, ancestor, d) ensures d in visited {
      ReachClosed(g, ancestor, visited, d);
    }
  }

  /** `transitive_closure`: exactly the pairs (a, d) with d reachable from a, each once. */
  method TransitiveClosure(g: Graph) returns (pairs: seq<(string, string)>)
    ensures forall a, d :: (a, d) in pairs <==> Reachable(g, a, d)
    ensures Distinct(pairs)
  {
    var children, allNodes := BuildChildren(g);
    forall x, c | c in Successors(g, x) ensures c in allNodes {
      assert x in g && c in g[x];
    }
    pairs := [];
    var remaining := allNodes;
    while remaining != {}
      invariant remaining <= allNodes
      invariant forall a, d :: (a, d) in pairs <==> a in allNodes && a !in remaining && Reachable(g, a, d)
      invariant Distinct(pairs)
      decreases remaining
    {
      var ancestor :| ancestor in remaining;
      ghost var before := pairs;
      pairs := Search(g, children, allNodes, ancestor, pairs);
      ghost var added := pairs[|before|..];
      assert pairs == before + added;
      forall a, d ensures (a, d) in pairs <==>
        a in allNodes && a !in remaining - {ancestor} && Reachable(g, a, d)
      {
        if (a, d) in added {
          var k :| 0 <= k < |added| && added[k] == (a, d);
          assert pairs[|before| + k].0 == ancestor;
        }
      }
      forall i, j | 0 <= i < j < |pairs| ensures pairs[i] != pairs[j] {
        if i < |before| <= j {
          assert pairs[j].0 == ancestor && pairs[i] in before;
        } else if |before| <= i {
          assert pairs[i] == added[i - |before|] && pairs[j] == added[j - |before|];
        }
      }
      remaining := remaining - {ancestor};
    }
    forall a, d | Reachable(g, a, d) ensures a in allNodes {
      ReachableEnds(g, a, d);
    }
  }
}
