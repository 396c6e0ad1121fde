/// The Monte Carlo search tree (Assets/Scripts/Tree.cs).
///
/// The source's `Node` objects point to their parent and hold a dictionary
/// from child node to the column that leads to it. Here the nodes of one tree
/// live in an arena, the sequence `nodes` of the class `Tree`: a reference to
/// a node is its index, the parent link is an optional index, and the
/// dictionary is the sequence of its entries in insertion order (the order in
/// which the source enumerates it). The node operations become methods of
/// `Tree` that take the index of the node they run on.
module Search {
  import opened Board

  datatype Option<T> = None | Some(value: T)

  /// One entry of a node's children dictionary: the child and the column
  /// played to reach it.
  datatype Edge = Edge(child: nat, action: int)

  /// A node: the win and play counters, the side that made the move into it,
  /// the parent link and the children.
  datatype Node = Node(wins: int, plays: int, isPlayersTurn: bool, parent: Option<nat>, children: seq<Edge>)

  /// Every non-root node points to an earlier node, so parent chains end at
  /// the root.
  predicate ParentsBefore(nodes: seq<Node>) {
    && |nodes| >= 1 && nodes[0].parent == None
    && forall i :: 0 < i < |nodes| ==> nodes[i].parent.Some? && nodes[i].parent.value < i
  }

  /// The node `n` and all its ancestors.
  function Chain(nodes: seq<Node>, n: nat): (r: set<nat>)
    requires ParentsBefore(nodes) && n < |nodes|
    ensures n in r && forall i :: i in r ==> i <= n
    decreases n
  {
    if n == 0 then {0} else {n} + Chain(nodes, nodes[n].parent.value)
  }

  /// Every parent chain reaches the root.
  lemma {:induction false} RootInChain(nodes: seq<Node>, n: nat)
    requires ParentsBefore(nodes) && n < |nodes|
    ensures 0 in Chain(nodes, n)
    decreases n
  {
    if n != 0 {
      RootInChain(nodes, nodes[n].parent.value);
    }
  }

  /// Chains depend on the parent links only.
  lemma {:induction false} ChainFrame(nodes: seq<Node>, nodes': seq<Node>, n: nat)
    requires ParentsBefore(nodes) && ParentsBefore(nodes') && n < |nodes| && n < |nodes'|
    requires forall i :: 0 <= i <= n ==> nodes'[i].parent == nodes[i].parent
    ensures Chain(nodes', n) == Chain(nodes, n)
    decreases n
  {
    if n != 0 {
      ChainFrame(nodes, nodes', nodes[n].parent.value);
    }
  }

  /// What `BackPropagate` does to one node of the chain.
  function Bumped(node: Node, playersVictory: bool): (r: Node)
    ensures r.plays == node.plays + 1
    ensures r.wins == node.wins + (if node.isPlayersTurn == playersVictory then 1 else 0)
    ensures r.isPlayersTurn == node.isPlayersTurn && r.parent == node.parent && r.children == node.children
  {
    node.(plays := node.plays + 1,
          wins := if node.isPlayersTurn == playersVictory then node.wins + 1 else node.wins)
  }

  /// Every child entry points to a node whose parent is this node and whose
  /// recorded action is the entry's.
  ghost predicate EdgesPoint(nodes: seq<Node>, actionOf: seq<int>)
    requires |actionOf| == |nodes|
  {
    forall i, k :: 0 <= i < |nodes| && 0 <= k < |nodes[i].children| ==>
      var e := nodes[i].children[k];
      e.child < |nodes| && nodes[e.child].parent == Some(i) && actionOf[e.child] == e.action
  }

  /// Every non-root node is a child of its parent.
  ghost predicate ParentsList(nodes: seq<Node>, actionOf: seq<int>)
    requires ParentsBefore(nodes) && |actionOf| == |nodes|
  {
    forall c :: 0 < c < |nodes| ==> Edge(c, actionOf[c]) in nodes[nodes[c].parent.value].children
  }

  /// The actions of one node's children are pairwise distinct.
  ghost predicate DistinctActions(nodes: seq<Node>) {
    forall i, k, k' :: 0 <= i < |nodes| && 0 <= k < k' < |nodes[i].children| ==>
      nodes[i].children[k].action != nodes[i].children[k'].action
  }

  /// The arena invariant: parents come first, the links agree both ways,
  /// children's actions are distinct and `0 <= wins <= plays`.
  ghost predicate Arena(nodes: seq<Node>, actionOf: seq<int>) {
    && ParentsBefore(nodes) && |actionOf| == |nodes|
    && EdgesPoint(nodes, actionOf) && ParentsList(nodes, actionOf) && DistinctActions(nodes)
    && (forall i :: 0 <= i < |nodes| ==> 0 <= nodes[i].wins <= nodes[i].plays)
  }

  /// Bumping the counters of one node keeps the arena invariant.
  lemma BumpKeepsArena(nodes: seq<Node>, actionOf: seq<int>, n: nat, playersVictory: bool)
    requires Arena(nodes, actionOf) && n < |nodes|
    ensures Arena(nodes[n := Bumped(nodes[n], playersVictory)], actionOf)
  {
    var nodes' := nodes[n := Bumped(nodes[n], playersVictory)];
    SameLinksKeepArena(nodes, nodes', actionOf);
  }

  /// The arena invariant depends on the counters only through
  /// `0 <= wins <= plays`.
  lemma SameLinksKeepArena(nodes: seq<Node>, nodes': seq<Node>, actionOf: seq<int>)
    requires Arena(nodes, actionOf) && |nodes'| == |nodes|
    requires forall i :: 0 <= i < |nodes| ==> nodes'[i].parent == nodes[i].parent && nodes'[i].children == nodes[i].children
    requires forall i :: 0 <= i < |nodes'| ==> 0 <= nodes'[i].wins <= nodes'[i].plays
    ensures Arena(nodes', actionOf)
  {
    assert ParentsBefore(nodes');
    forall i, k | 0 <= i < |nodes'| && 0 <= k < |nodes'[i].children|
      ensures var e := nodes'[i].children[k];
        e.child < |nodes'| && nodes'[e.child].parent == Some(i) && actionOf[e.child] == e.action
    {
      assert nodes'[i].children[k] == nodes[i].children[k];
    }
    assert EdgesPoint(nodes', actionOf);
    forall c | 0 < c < |nodes'| ensures Edge(c, actionOf[c]) in nodes'[nodes'[c].parent.value].children {
      assert Edge(c, actionOf[c]) in nodes[nodes[c].parent.value].children;
    }
    assert ParentsList(nodes', actionOf);
    assert DistinctActions(nodes') by {
      forall i, k, k' | 0 <= i < |nodes'| && 0 <= k < k' < |nodes'[i].children|
        ensures nodes'[i].children[k].action != nodes'[i].children[k'].action
      {
        assert nodes'[i].children == nodes[i].children;
      }
    }
  }

  /// The arena after `BackPropagate` from `n`: `n` bumped, then its parent
  /// and so on up to the root.
  function Propagated(nodes: seq<Node>, n: nat, playersVictory: bool): (r: seq<Node>)
    requires ParentsBefore(nodes) && n < |nodes|
    ensures ParentsBefore(r) && |r| == |nodes|
    decreases n
  {
    var bumped := nodes[n := Bumped(nodes[n], playersVictory)];
    assert forall i :: 0 <= i < |nodes| ==> bumped[i].parent == nodes[i].parent;
    if n == 0 then bumped else Propagated(bumped, nodes[n].parent.value, playersVictory)
  }

  /// Propagating from `n` bumps exactly the nodes of `n`'s chain.
  lemma {:induction false} PropagatedBumpsChain(nodes: seq<Node>, n: nat, playersVictory: bool)
    requires ParentsBefore(nodes) && n < |nodes|
    ensures forall i :: 0 <= i < |nodes| ==>
              Propagated(nodes, n, playersVictory)[i]
                == if i in Chain(nodes, n) then Bumped(nodes[i], playersVictory) else nodes[i]
    decreases n
  {
    if n != 0 {
      var bumped := nodes[n := Bumped(nodes[n], playersVictory)];
      var p := nodes[n].parent.value;
      assert forall i :: 0 <= i < |nodes| ==> bumped[i].parent == nodes[i].parent;
      PropagatedBumpsChain(bumped, p, playersVictory);
      ChainFrame(nodes, bumped, p);
      assert n !in Chain(nodes, p);
    }
  }

  // ----- plays flow from parents to children -----

  /// The plays of the children listed in `es`, summed.
  function ChildPlays(nodes: seq<Node>, es: seq<Edge>): int {
    if es == [] then 0
    else
      var c := es[|es| - 1].child;
      ChildPlays(nodes, es[..|es| - 1]) + (if c < |nodes| then nodes[c].plays else 0)
  }

  /// Every node has been played at least as often as all its children
  /// together: each play of a child is also a play of its parent.
  ghost predicate PlaysCoverChildren(nodes: seq<Node>) {
    forall i :: 0 <= i < |nodes| ==> nodes[i].plays >= ChildPlays(nodes, nodes[i].children)
  }

  /// How many of the entries `es` lead to a node of `chain`.
  function ChainCount(es: seq<Edge>, chain: set<nat>): nat {
    if es == [] then 0
    else ChainCount(es[..|es| - 1], chain) + (if es[|es| - 1].child in chain then 1 else 0)
  }

  /// Sums of children's plays depend only on those children's plays.
  lemma {:induction false} ChildPlaysFrame(nodes: seq<Node>, nodes': seq<Node>, es: seq<Edge>)
    requires forall k :: 0 <= k < |es| ==>
               es[k].child < |nodes| && es[k].child < |nodes'| && nodes'[es[k].child].plays == nodes[es[k].child].plays
    ensures ChildPlays(nodes', es) == ChildPlays(nodes, es)
  {
    if es != [] {
      ChildPlaysFrame(nodes, nodes', es[..|es| - 1]);
    }
  }

  /// One more play on each node of `chain` adds, to a sum of children's
  /// plays, the number of those children that lie on the chain.
  lemma {:induction false} ChildPlaysBumped(nodes: seq<Node>, nodes': seq<Node>, es: seq<Edge>, chain: set<nat>)
    requires |nodes'| == |nodes|
    requires forall k :: 0 <= k < |es| ==> es[k].child < |nodes|
    requires forall c :: 0 <= c < |nodes| ==> nodes'[c].plays == nodes[c].plays + (if c in chain then 1 else 0)
    ensures ChildPlays(nodes', es) == ChildPlays(nodes, es) + ChainCount(es, chain)
  {
    if es != [] {
      ChildPlaysBumped(nodes, nodes', es[..|es| - 1], chain);
    }
  }

  lemma {:induction false} ChainCountZero(es: seq<Edge>, chain: set<nat>)
    requires forall k :: 0 <= k < |es| ==> es[k].child !in chain
    ensures ChainCount(es, chain) == 0
  {
    if es != [] {
      ChainCountZero(es[..|es| - 1], chain);
    }
  }

  lemma {:induction false} ChainCountAtMostOne(es: seq<Edge>, chain: set<nat>)
    requires forall k, k' :: 0 <= k < k' < |es| ==> !(es[k].child in chain && es[k'].child in chain)
    ensures ChainCount(es, chain) <= 1
  {
    if es != [] {
      var init := es[..|es| - 1];
      if es[|es| - 1].child in chain {
        ChainCountZero(init, chain);
      } else {
        ChainCountAtMostOne(init, chain);
      }
    }
  }

  /// The parent of a non-root node of a chain is on the chain too.
  lemma {:induction false} ChainClosed(nodes: seq<Node>, n: nat, c: nat)
    requires ParentsBefore(nodes) && n < |nodes| && c in Chain(nodes, n) && c != 0
    ensures nodes[c].parent.value in Chain(nodes, n)
    decreases n
  {
    if c != n {
      ChainClosed(nodes, nodes[n].parent.value, c);
    }
  }

  /// A chain passes through at most one child of any node.
  lemma {:induction false} ChainChildUnique(nodes: seq<Node>, n: nat, c: nat, c': nat)
    requires ParentsBefore(nodes) && n < |nodes|
    requires c in Chain(nodes, n) && c' in Chain(nodes, n) && c != 0 && c' != 0
    requires nodes[c].parent == nodes[c'].parent
    ensures c == c'
    decreases n
  {
    if n != 0 {
      var p := nodes[n].parent.value;
      if c != n && c' != n {
        ChainChildUnique(nodes, p, c, c');
      }
    }
  }

  /// Adding a child with no plays keeps every node's plays covering its
  /// children's.
  lemma GrowKeepsCover(nodes: seq<Node>, actionOf: seq<int>, n: nat, turn: bool, a: int)
    requires Arena(nodes, actionOf) && n < |nodes| && PlaysCoverChildren(nodes)
    ensures PlaysCoverChildren(Grown(nodes, n, turn, a))
  {
    var g := Grown(nodes, n, turn, a);
    GrownKeepsNodes(nodes, n, turn, a);
    forall i | 0 <= i < |g| ensures g[i].plays >= ChildPlays(g, g[i].children) {
      if i < |nodes| {
        var es := nodes[i].children;
        assert forall k :: 0 <= k < |es| ==> es[k].child < |nodes| && g[es[k].child].plays == nodes[es[k].child].plays;
        ChildPlaysFrame(nodes, g, es);
        if i == n {
          assert g[n].children[..|g[n].children| - 1] == es;
        } else {
          assert g[i].children == es;
        }
      }
    }
  }

  /// A node on the chain from `e` has at most one child on it; a node off
  /// the chain has none.
  lemma ChildrenOnChain(nodes: seq<Node>, actionOf: seq<int>, e: nat, i: nat)
    requires Arena(nodes, actionOf) && e < |nodes| && i < |nodes|
    ensures ChainCount(nodes[i].children, Chain(nodes, e)) <= if i in Chain(nodes, e) then 1 else 0
  {
    var es, chain := nodes[i].children, Chain(nodes, e);
    if i in chain {
      forall k, k' | 0 <= k < k' < |es| ensures !(es[k].child in chain && es[k'].child in chain) {
        if es[k].child in chain && es[k'].child in chain {
          assert actionOf[es[k].child] != actionOf[es[k'].child];
          ChainChildUnique(nodes, e, es[k].child, es[k'].child);
        }
      }
      ChainCountAtMostOne(es, chain);
    } else {
      forall k | 0 <= k < |es| ensures es[k].child !in chain {
        if es[k].child in chain {
          ChainClosed(nodes, e, es[k].child);
        }
      }
      ChainCountZero(es, chain);
    }
  }

  /// Propagating a result from `e` keeps every node's plays covering its
  /// children's: a node on the chain gains one play, and at most one of its
  /// children is on the chain; a node off the chain has no child on it.
  lemma PropagatedKeepsCover(nodes: seq<Node>, actionOf: seq<int>, e: nat, playersVictory: bool)
    requires Arena(nodes, actionOf) && e < |nodes| && PlaysCoverChildren(nodes)
    ensures PlaysCoverChildren(Propagated(nodes, e, playersVictory))
  {
    var r, chain := Propagated(nodes, e, playersVictory), Chain(nodes, e);
    PropagatedBumpsChain(nodes, e, playersVictory);
    assert forall c :: 0 <= c < |nodes| ==> r[c].plays == nodes[c].plays + (if c in chain then 1 else 0);
    forall i | 0 <= i < |r| ensures r[i].plays >= ChildPlays(r, r[i].children) {
      var es := nodes[i].children;
      assert r[i].children == es;
      assert forall k :: 0 <= k < |es| ==> es[k].child < |nodes|;
      ChildPlaysBumped(nodes, r, es, chain);
      ChildrenOnChain(nodes, actionOf, e, i);
    }
  }

  /// The actions of a node's children, in dictionary order.
  function Actions(es: seq<Edge>): (r: seq<int>)
    ensures |r| == |es| && forall k :: 0 <= k < |es| ==> r[k] == es[k].action
  {
    seq(|es|, k requires 0 <= k < |es| => es[k].action)
  }

  /// The board at node `i`: the root's board with the moves on the path from
  /// the root down to `i` played in turn.
  ghost function StateAt(nodes: seq<Node>, actionOf: seq<int>, s0: State, i: nat): (s: State)
    requires ParentsBefore(nodes) && |actionOf| == |nodes| && i < |nodes| && WellFormed(s0)
    ensures WellFormed(s) && s.rows == s0.rows && s.columns == s0.columns
    ensures s.piecesToWin == s0.piecesToWin && s.allowDiagonal == s0.allowDiagonal
    ensures Counted(s0) ==> Counted(s)
    decreases i
  {
    if i == 0 then s0
    else
      var p := StateAt(nodes, actionOf, s0, nodes[i].parent.value);
      if 0 <= actionOf[i] < p.columns then Played(p, actionOf[i]) else p
  }

  /// The board at a node depends only on the links and actions of the nodes
  /// up to it.
  lemma {:induction false} StateAtFrame(nodes: seq<Node>, actionOf: seq<int>, nodes': seq<Node>, actionOf': seq<int>,
                                        s0: State, i: nat)
    requires ParentsBefore(nodes) && |actionOf| == |nodes| && i < |nodes| && WellFormed(s0)
    requires ParentsBefore(nodes') && |actionOf'| == |nodes'| && i < |nodes'|
    requires forall j :: 0 <= j <= i ==> nodes'[j].parent == nodes[j].parent && actionOf'[j] == actionOf[j]
    ensures StateAt(nodes', actionOf', s0, i) == StateAt(nodes, actionOf, s0, i)
    decreases i
  {
    if i != 0 {
      StateAtFrame(nodes, actionOf, nodes', actionOf', s0, nodes[i].parent.value);
    }
  }

  /// The tree agrees with the boards it was grown on: a node with children is
  /// not terminal, each child's action is a legal move of the node's board,
  /// and each child is tagged with the turn of that board, i.e. the side
  /// that plays the child's move.
  ghost predicate Replays(nodes: seq<Node>, actionOf: seq<int>, s0: State)
    requires Arena(nodes, actionOf) && WellFormed(s0)
  {
    forall i, k :: 0 <= i < |nodes| && 0 <= k < |nodes[i].children| ==> EdgeReplays(nodes, actionOf, s0, i, k)
  }

  /// The `k`-th child entry of node `i` agrees with node `i`'s board.
  ghost predicate EdgeReplays(nodes: seq<Node>, actionOf: seq<int>, s0: State, i: nat, k: nat)
    requires Arena(nodes, actionOf) && WellFormed(s0) && i < |nodes| && k < |nodes[i].children|
  {
    var s := StateAt(nodes, actionOf, s0, i);
    var e := nodes[i].children[k];
    && !Terminal(s) && e.action in Drops(s) && nodes[e.child].isPlayersTurn == s.isPlayersTurn
  }

  /// The arena after `Expand` adds a child with action `a` and turn flag
  /// `turn` under node `n`.
  function Grown(nodes: seq<Node>, n: nat, turn: bool, a: int): seq<Node>
    requires n < |nodes|
  {
    nodes[n := nodes[n].(children := nodes[n].children + [Edge(|nodes|, a)])]
      + [Node(0, 0, turn, Some(n), [])]
  }

  /// Growing the tree keeps every existing node's counters, turn flag and
  /// children, except that `n` gains one child.
  lemma GrownKeepsNodes(nodes: seq<Node>, n: nat, turn: bool, a: int)
    requires n < |nodes|
    ensures var nodes' := Grown(nodes, n, turn, a);
      && |nodes'| == |nodes| + 1
      && (forall i :: 0 <= i < |nodes| ==>
            && nodes'[i].plays == nodes[i].plays && nodes'[i].wins == nodes[i].wins
            && nodes'[i].isPlayersTurn == nodes[i].isPlayersTurn
            && nodes[i].children <= nodes'[i].children)
      && nodes'[|nodes|] == Node(0, 0, turn, Some(n), [])
  {
  }

  /// Updating an element before the appended one commutes with the append.
  lemma UpdateAfterAppend<T>(xs: seq<T>, x: T, n: nat, y: T)
    requires n < |xs|
    ensures (xs + [x])[n := y] == xs[n := y] + [x]
  {
  }

  /// Adding a child whose action is new at its parent keeps the arena
  /// invariant.
  lemma GrowKeepsArena(nodes: seq<Node>, actionOf: seq<int>, n: nat, turn: bool, a: int)
    requires Arena(nodes, actionOf) && n < |nodes| && a !in Actions(nodes[n].children)
    ensures Arena(Grown(nodes, n, turn, a), actionOf + [a])
  {
    GrowKeepsEdges(nodes, actionOf, n, turn, a);
    GrowKeepsParentEdges(nodes, actionOf, n, turn, a);
    GrowKeepsDistinct(nodes, actionOf, n, turn, a);
  }

  lemma GrowKeepsEdges(nodes: seq<Node>, actionOf: seq<int>, n: nat, turn: bool, a: int)
    requires Arena(nodes, actionOf) && n < |nodes|
    ensures EdgesPoint(Grown(nodes, n, turn, a), actionOf + [a])
  {
    var nodes', actionOf' := Grown(nodes, n, turn, a), actionOf + [a];
    var m := |nodes|;
    forall i, k | 0 <= i < |nodes'| && 0 <= k < |nodes'[i].children|
      ensures var e := nodes'[i].children[k];
        e.child < |nodes'| && nodes'[e.child].parent == Some(i) && actionOf'[e.child] == e.action
    {
      if i == n && k == |nodes[n].children| {
        assert nodes'[i].children[k] == Edge(m, a);
      } else {
        assert nodes'[i].children[k] == nodes[i].children[k];
      }
    }
  }

  lemma GrowKeepsParentEdges(nodes: seq<Node>, actionOf: seq<int>, n: nat, turn: bool, a: int)
    requires Arena(nodes, actionOf) && n < |nodes|
    ensures ParentsBefore(Grown(nodes, n, turn, a))
    ensures ParentsList(Grown(nodes, n, turn, a), actionOf + [a])
  {
    var nodes', actionOf' := Grown(nodes, n, turn, a), actionOf + [a];
    var m := |nodes|;
    forall c | 0 < c < |nodes'|
      ensures Edge(c, actionOf'[c]) in nodes'[nodes'[c].parent.value].children
    {
      if c == m {
        assert nodes'[n].children[|nodes[n].children|] == Edge(m, a);
      } else {
        var p := nodes[c].parent.value;
        assert Edge(c, actionOf[c]) in nodes[p].children;
        assert nodes[p].children <= nodes'[p].children;
      }
    }
  }

  lemma GrowKeepsDistinct(nodes: seq<Node>, actionOf: seq<int>, n: nat, turn: bool, a: int)
    requires Arena(nodes, actionOf) && n < |nodes| && a !in Actions(nodes[n].children)
    ensures DistinctActions(Grown(nodes, n, turn, a))
  {
    var nodes' := Grown(nodes, n, turn, a);
    forall i, k, k' | 0 <= i < |nodes'| && 0 <= k < k' < |nodes'[i].children|
      ensures nodes'[i].children[k].action != nodes'[i].children[k'].action
    {
      if i == n && k' == |nodes[n].children| {
        assert Actions(nodes[n].children)[k] == nodes'[i].children[k].action;
      }
    }
  }

  /// Growing the tree leaves the boards of the existing nodes as they were;
  /// the new node's board is its move played on its parent's.
  lemma GrowKeepsStates(nodes: seq<Node>, actionOf: seq<int>, s0: State, n: nat, turn: bool, a: int)
    requires Arena(nodes, actionOf) && WellFormed(s0)
    requires n < |nodes| && a !in Actions(nodes[n].children) && a in Drops(StateAt(nodes, actionOf, s0, n))
    ensures Arena(Grown(nodes, n, turn, a), actionOf + [a])
    ensures forall i :: 0 <= i < |nodes| ==>
              StateAt(Grown(nodes, n, turn, a), actionOf + [a], s0, i) == StateAt(nodes, actionOf, s0, i)
    ensures StateAt(Grown(nodes, n, turn, a), actionOf + [a], s0, |nodes|) == Played(StateAt(nodes, actionOf, s0, n), a)
  {
    GrowKeepsArena(nodes, actionOf, n, turn, a);
    var nodes', actionOf' := Grown(nodes, n, turn, a), actionOf + [a];
    forall i | 0 <= i < |nodes|
      ensures StateAt(nodes', actionOf', s0, i) == StateAt(nodes, actionOf, s0, i)
    {
      StateAtFrame(nodes, actionOf, nodes', actionOf', s0, i);
    }
    assert nodes'[|nodes|].parent == Some(n);
  }

  /// Adding a legal, untried move of a non-terminal node's board, tagged with
  /// that board's turn, keeps the tree in agreement with the boards.
  lemma GrowKeepsReplays(nodes: seq<Node>, actionOf: seq<int>, s0: State, n: nat, turn: bool, a: int)
    requires Arena(nodes, actionOf) && WellFormed(s0) && Replays(nodes, actionOf, s0)
    requires n < |nodes| && a !in Actions(nodes[n].children)
    requires !Terminal(StateAt(nodes, actionOf, s0, n)) && a in Drops(StateAt(nodes, actionOf, s0, n))
    requires turn == StateAt(nodes, actionOf, s0, n).isPlayersTurn
    ensures Arena(Grown(nodes, n, turn, a), actionOf + [a])
    ensures Replays(Grown(nodes, n, turn, a), actionOf + [a], s0)
  {
    GrowKeepsStates(nodes, actionOf, s0, n, turn, a);
    var nodes', actionOf' := Grown(nodes, n, turn, a), actionOf + [a];
    var m := |nodes|;
    forall i, k | 0 <= i < |nodes'| && 0 <= k < |nodes'[i].children|
      ensures EdgeReplays(nodes', actionOf', s0, i, k)
    {
      assert i < m;
      if i == n && k == |nodes[n].children| {
        assert nodes'[i].children[k] == Edge(m, a);
      } else {
        var e := nodes[i].children[k];
        assert EdgeReplays(nodes, actionOf, s0, i, k);
        assert nodes'[i].children[k] == e;
        assert nodes'[e.child] == nodes[e.child] || e.child == n;
      }
    }
  }

  /// Changing only the counters keeps the tree in agreement with the boards.
  lemma CountersKeepReplays(nodes: seq<Node>, nodes': seq<Node>, actionOf: seq<int>, s0: State)
    requires Arena(nodes, actionOf) && Arena(nodes', actionOf) && WellFormed(s0) && Replays(nodes, actionOf, s0)
    requires |nodes'| == |nodes|
    requires forall i :: 0 <= i < |nodes| ==>
               && nodes'[i].parent == nodes[i].parent && nodes'[i].children == nodes[i].children
               && nodes'[i].isPlayersTurn == nodes[i].isPlayersTurn
    ensures Replays(nodes', actionOf, s0)
  {
    forall i, k | 0 <= i < |nodes'| && 0 <= k < |nodes'[i].children|
      ensures EdgeReplays(nodes', actionOf, s0, i, k)
    {
      assert EdgeReplays(nodes, actionOf, s0, i, k);
      StateAtFrame(nodes, actionOf, nodes', actionOf, s0, i);
    }
  }

  /// A node whose board is not over and whose children do not cover all
  /// legal moves has an untried legal move: the children's actions are
  /// distinct legal moves.
  lemma RoomToExpand(nodes: seq<Node>, actionOf: seq<int>, s0: State, n: nat)
    requires Arena(nodes, actionOf) && WellFormed(s0) && Replays(nodes, actionOf, s0) && n < |nodes|
    requires |nodes[n].children| != |Drops(StateAt(nodes, actionOf, s0, n))|
    ensures exists c :: c in Drops(StateAt(nodes, actionOf, s0, n)) && c !in Actions(nodes[n].children)
  {
    var tried, legal := Actions(nodes[n].children), Drops(StateAt(nodes, actionOf, s0, n));
    forall a | a in tried ensures a in legal {
      var k :| 0 <= k < |tried| && tried[k] == a;
      assert EdgeReplays(nodes, actionOf, s0, n, k);
    }
    UntriedExists(tried, legal);
  }

  /// Legal-move lists have no repeated column.
  predicate Increasing(s: seq<int>) {
    forall i, j :: 0 <= i < j < |s| ==> s[i] < s[j]
  }

  /// `List.Remove`: the list without the first occurrence of `c`.
  function Remove(s: seq<int>, c: int): (r: seq<int>)
    ensures forall x :: x in r ==> x in s
    ensures Increasing(s) ==> Increasing(r) && forall x :: x in r <==> x in s && x != c
  {
    if |s| == 0 then []
    else if s[0] == c then s[1..]
    else
      var t := Remove(s[1..], c);
      PrependIncreasing(s, t);
      [s[0]] + t
  }

  /// Putting back the head of an increasing list in front of a sublist of
  /// its tail keeps it increasing.
  lemma PrependIncreasing(s: seq<int>, t: seq<int>)
    requires |s| > 0 && forall x :: x in t ==> x in s[1..]
    ensures forall x :: x in [s[0]] + t <==> x == s[0] || x in t
    ensures Increasing(s) && Increasing(t) ==> Increasing([s[0]] + t)
  {
    var r := [s[0]] + t;
    assert forall x :: x in r <==> x == s[0] || x in t;
    if Increasing(s) && Increasing(t) {
      assert forall x :: x in s[1..] ==> s[0] < x;
      assert forall j :: 0 < j < |r| ==> r[j] == t[j - 1] && r[j] in t;
    }
  }

  /// Distinct actions taken from the legal moves, fewer of them than there
  /// are legal moves: some legal move is untried.
  lemma UntriedExists(tried: seq<int>, legal: seq<int>)
    requires forall k, k' :: 0 <= k < k' < |tried| ==> tried[k] != tried[k']
    requires Increasing(legal) && forall a :: a in tried ==> a in legal
    requires |tried| != |legal|
    ensures exists c :: c in legal && c !in tried
  {
    DistinctCard(tried);
    DistinctCard(legal);
    var t, l := set x | x in tried, set x | x in legal;
    assert t <= l;
    assert t != l;
    assert !(l <= t);
    var c :| c in l && c !in t;
    assert c in legal && c !in tried;
  }

  /// A sequence without repetitions has as many elements as its set.
  lemma {:induction false} DistinctCard(s: seq<int>)
    requires forall k, k' :: 0 <= k < k' < |s| ==> s[k] != s[k']
    ensures |set x | x in s| == |s|
  {
    if |s| > 0 {
      DistinctCard(s[1..]);
      assert (set x | x in s) == (set x | x in s[1..]) + {s[0]};
      assert s[0] !in s[1..];
    }
  }

  /// The loop of `Expand` that strikes the actions already tried at a node
  /// from a copy of the legal moves.
  method UntriedDrops(possible: seq<int>, children: seq<Edge>) returns (drops: seq<int>)
    requires Increasing(possible)
    ensures Increasing(drops)
    ensures forall c :: c in drops <==> c in possible && c !in Actions(children)
  {
    drops := possible;
    var k := 0;
    while k < |children|
      invariant 0 <= k <= |children|
      invariant Increasing(drops)
      invariant forall c :: c in drops <==> c in possible && c !in Actions(children)[..k]
    {
      var column := children[k].action;
      if column in drops {
        drops := Remove(drops, column);
      }
      assert Actions(children)[..k + 1] == Actions(children)[..k] + [column];
      k := k + 1;
    }
    assert Actions(children)[..k] == Actions(children);
  }

  class Tree {
    var nodes: seq<Node>
    /// `actionOf[c]` is the column on the edge into node `c` (unused for the
    /// root).
    ghost var actionOf: seq<int>

    /// The arena invariant.
    ghost predicate Valid()
      reads this
    {
      Arena(nodes, actionOf)
    }

    /// A tree holding only a fresh root node.
    constructor (isPlayersTurn: bool)
      ensures Valid()
      ensures nodes == [Node(0, 0, isPlayersTurn, None, [])]
    {
      nodes := [Node(0, 0, isPlayersTurn, None, [])];
      actionOf := [0];
    }

    /// The `Node` constructor: a new node with zero counters, no children and
    /// the given turn flag and parent, appended to the arena.
    method NewNode(isPlayersTurn: bool, parent: nat) returns (id: nat)
      modifies this
      ensures id == |old(nodes)|
      ensures nodes == old(nodes) + [Node(0, 0, isPlayersTurn, Some(parent), [])]
      ensures actionOf == old(actionOf) + [0]
    {
      id := |nodes|;
      nodes := nodes + [Node(0, 0, isPlayersTurn, Some(parent), [])];
      actionOf := actionOf + [0];
    }

    /// `AddChild`: a new entry at the end of node `n`'s dictionary.
    method AddChild(n: nat, child: nat, action: int)
      requires n < |nodes| && child < |actionOf|
      modifies this
      ensures nodes == old(nodes)[n := old(nodes)[n].(children := old(nodes)[n].children + [Edge(child, action)])]
      ensures actionOf == old(actionOf)[child := action]
    {
      nodes := nodes[n := nodes[n].(children := nodes[n].children + [Edge(child, action)])];
      actionOf := actionOf[child := action];
    }

    /// The tree agrees with the boards reached from `s0`.
    ghost predicate Tracks(s0: State)
      reads this
      requires WellFormed(s0)
    {
      Valid() && Replays(nodes, actionOf, s0)
    }

    /// The children of node `n` as `MostSelectedMove` and the merge see
    /// them: each child's counters with the column that leads to it.
    function ChildStats(n: nat): (r: seq<ChildStat>)
      reads this
      requires Valid() && n < |nodes|
      ensures |r| == |nodes[n].children|
      ensures forall k :: 0 <= k < |r| ==>
                var e := nodes[n].children[k];
                r[k] == ChildStat(nodes[e.child].wins, nodes[e.child].plays, e.action)
    {
      var ns := nodes;
      seq(|ns[n].children|, k requires 0 <= k < |ns[n].children| =>
        var e := ns[n].children[k];
        ChildStat(ns[e.child].wins, ns[e.child].plays, e.action))
    }

    /// `SelectBestChild`: the UCT choice is abstracted to some child; the
    /// result is the position of its entry in `n`'s dictionary.
    method SelectBestChild(n: nat, nbSimulation: int) returns (k: nat)
      requires n < |nodes| && |nodes[n].children| > 0
      ensures k < |nodes[n].children|
    {
      k :| k < |nodes[n].children|;
    }

    /// `SelectNodeToExpand`: from `n`, follow chosen children, playing their
    /// moves on `board`, until the board is over or the node still has an
    /// untried move; return that node.
    method SelectNodeToExpand(n: nat, nbSimulation: int, board: Field, ghost s0: State) returns (selected: nat)
      requires WellFormed(s0) && Tracks(s0) && n < |nodes|
      requires board.Valid() && board.Model() == StateAt(nodes, actionOf, s0, n)
      modifies board, board.field
      decreases |nodes| - n
      ensures selected < |nodes| && Chain(nodes, n) <= Chain(nodes, selected)
      ensures board.Valid() && board.Model() == StateAt(nodes, actionOf, s0, selected)
      ensures Terminal(board.Model()) || |nodes[selected].children| != |Drops(board.Model())|
      ensures old(Terminal(board.Model()) || |nodes[n].children| != |Drops(board.Model())|) ==>
                selected == n && board.Model() == old(board.Model())
    {
      var empty := board.ContainsEmptyCell();
      var won := board.CheckForVictory();
      if !empty || won {
        return n;
      }
      var drops := board.GetPossibleDrops();
      if |nodes[n].children| != |drops| {
        return n;
      }
      var k := SelectBestChild(n, nbSimulation);
      var child := Descend(n, k, board, s0);
      selected := SelectNodeToExpand(child, nbSimulation, board, s0);
    }

    /// Lines 52-53 of `SelectNodeToExpand`: play the move of `n`'s `k`-th
    /// child on `board`, which then holds that child's board.
    method Descend(n: nat, k: nat, board: Field, ghost s0: State) returns (child: nat)
      requires WellFormed(s0) && Tracks(s0) && n < |nodes| && k < |nodes[n].children|
      requires board.Valid() && board.Model() == StateAt(nodes, actionOf, s0, n)
      modifies board, board.field
      ensures child == nodes[n].children[k].child && n < child < |nodes|
      ensures Chain(nodes, n) <= Chain(nodes, child)
      ensures board.Valid() && board.Model() == StateAt(nodes, actionOf, s0, child)
    {
      var edge := nodes[n].children[k];
      assert EdgeReplays(nodes, actionOf, s0, n, k);
      board.DropAndSwitch(edge.action);
      child := edge.child;
    }

    /// `Expand`: on a board that is not over, add one child under `n` for a
    /// legal move not yet tried there, tagged with the turn before the move,
    /// play that move on `board` and return the child; on a board that is
    /// over, return `n` and change nothing.
    method Expand(n: nat, board: Field, ghost s0: State) returns (expanded: nat)
      requires WellFormed(s0) && Tracks(s0) && n < |nodes|
      requires board.Valid() && board.Model() == StateAt(nodes, actionOf, s0, n)
      requires Terminal(board.Model()) || exists c :: c in Drops(board.Model()) && c !in Actions(nodes[n].children)
      modifies this, board, board.field
      ensures Tracks(s0) && expanded < |nodes|
      ensures board.Valid() && board.Model() == StateAt(nodes, actionOf, s0, expanded)
      ensures old(Terminal(board.Model())) ==>
                expanded == n && nodes == old(nodes) && actionOf == old(actionOf) && board.Model() == old(board.Model())
      ensures !old(Terminal(board.Model())) ==>
                var a := actionOf[expanded];
                && expanded == |old(nodes)|
                && nodes == Grown(old(nodes), n, old(board.isPlayersTurn), a) && actionOf == old(actionOf) + [a]
                && a in Drops(old(board.Model())) && a !in Actions(old(nodes)[n].children)
                && board.Model() == Played(old(board.Model()), a)
    {
      var empty := board.ContainsEmptyCell();
      var won := board.CheckForVictory();
      if !empty || won {
        return n;
      }
      expanded := ExpandUntried(n, board, s0);
    }

    /// Lines 64-79 of `Expand`, on a board that is not over: pick one of the
    /// legal moves not yet tried at `n`, add a child for it and play it.
    method ExpandUntried(n: nat, board: Field, ghost s0: State) returns (expanded: nat)
      requires WellFormed(s0) && Tracks(s0) && n < |nodes|
      requires board.Valid() && board.Model() == StateAt(nodes, actionOf, s0, n) && !Terminal(board.Model())
      requires exists c :: c in Drops(board.Model()) && c !in Actions(nodes[n].children)
      modifies this, board, board.field
      ensures Tracks(s0) && expanded == |old(nodes)| && expanded < |nodes|
      ensures var a := actionOf[expanded];
                && nodes == Grown(old(nodes), n, old(board.isPlayersTurn), a) && actionOf == old(actionOf) + [a]
                && a in Drops(old(board.Model())) && a !in Actions(old(nodes)[n].children)
                && board.Valid() && board.Model() == Played(old(board.Model()), a)
                && board.Model() == StateAt(nodes, actionOf, s0, expanded)
    {
      var colToPlay := PickUntried(n, board);
      // The new node takes the turn flag from before the move; the board and
      // the tree are separate objects, so playing the move first changes
      // nothing in the result.
      var turn := board.isPlayersTurn;
      board.DropAndSwitch(colToPlay);
      expanded := Attach(n, turn, colToPlay, s0);
      assert actionOf[expanded] == colToPlay;
    }

    /// Lines 64-74 of `Expand`: one of the legal moves on `board` not yet
    /// tried at `n`, chosen at random.
    method PickUntried(n: nat, board: Field) returns (col: int)
      requires n < |nodes| && board.Valid()
      requires exists c :: c in Drops(board.Model()) && c !in Actions(nodes[n].children)
      ensures col in Drops(board.Model()) && col !in Actions(nodes[n].children)
    {
      var possible := board.GetPossibleDrops();
      var drops := UntriedDrops(possible, nodes[n].children);
      var pick :| 0 <= pick < |drops|;
      col := drops[pick];
      assert col in drops;
    }

    /// Lines 75-76 of `Expand`: a new node for move `a`, tagged `turn`, made a
    /// child of `n`.
    method Attach(n: nat, turn: bool, a: int, ghost s0: State) returns (id: nat)
      requires WellFormed(s0) && Tracks(s0) && n < |nodes| && a !in Actions(nodes[n].children)
      requires !Terminal(StateAt(nodes, actionOf, s0, n)) && a in Drops(StateAt(nodes, actionOf, s0, n))
      requires turn == StateAt(nodes, actionOf, s0, n).isPlayersTurn
      modifies this
      ensures Tracks(s0) && id == |old(nodes)|
      ensures nodes == Grown(old(nodes), n, turn, a) && actionOf == old(actionOf) + [a]
      ensures StateAt(nodes, actionOf, s0, id) == Played(StateAt(old(nodes), old(actionOf), s0, n), a)
    {
      ghost var before, acts := nodes, actionOf;
      ghost var grown, acts' := Grown(before, n, turn, a), acts + [a];
      GrowKeepsReplays(before, acts, s0, n, turn, a);
      GrowKeepsStates(before, acts, s0, n, turn, a);
      assert Replays(grown, acts', s0);
      id := NewNode(turn, n);
      AddChild(n, id, a);
      UpdateAfterAppend(before, Node(0, 0, turn, Some(n), []), n,
                        before[n].(children := before[n].children + [Edge(id, a)]));
      assert actionOf == acts';
      assert nodes == grown;
    }

    /// `BackPropagate`: one more play on `n` and on each of its ancestors, and
    /// one more win on those whose turn flag equals the outcome. Nothing else
    /// changes.
    method BackPropagate(n: nat, playersVictory: bool)
      requires Valid() && n < |nodes|
      modifies this
      decreases n
      ensures Valid()
      ensures actionOf == old(actionOf) && nodes == Propagated(old(nodes), n, playersVictory)
    {
      BumpKeepsArena(nodes, actionOf, n, playersVictory);
      nodes := nodes[n := Bumped(nodes[n], playersVictory)];
      if nodes[n].parent.Some? {
        BackPropagate(nodes[n].parent.value, playersVictory);
      }
    }
  }

  // ----- random playouts -----

  /// The board after the moves `moves` are played in turn from `s`; a
  /// column off the board is skipped.
  ghost function Replay(s: State, moves: seq<int>): (t: State)
    requires WellFormed(s)
    ensures WellFormed(t) && t.rows == s.rows && t.columns == s.columns
    ensures t.piecesToWin == s.piecesToWin && t.allowDiagonal == s.allowDiagonal
    ensures Counted(s) ==> Counted(t)
    decreases |moves|
  {
    if moves == [] then s
    else if 0 <= moves[0] < s.columns then Replay(Played(s, moves[0]), moves[1..])
    else Replay(s, moves[1..])
  }

  /// `moves` continue the game from `s` by the rules: each one is a legal
  /// move of a board on which the game is not over yet.
  ghost predicate Playout(s: State, moves: seq<int>)
    requires WellFormed(s)
    decreases |moves|
  {
    moves == [] || (!Terminal(s) && moves[0] in Drops(s) && Playout(Played(s, moves[0]), moves[1..]))
  }

  /// Playing one more move after a replay.
  lemma {:induction false} ReplayStep(s: State, moves: seq<int>, c: int)
    requires WellFormed(s) && 0 <= c < s.columns
    ensures Replay(s, moves + [c]) == Played(Replay(s, moves), c)
    decreases |moves|
  {
    if moves == [] {
      assert [c][1..] == [];
    } else {
      assert (moves + [c])[1..] == moves[1..] + [c];
      if 0 <= moves[0] < s.columns {
        ReplayStep(Played(s, moves[0]), moves[1..], c);
      } else {
        ReplayStep(s, moves[1..], c);
      }
    }
  }

  /// A playout goes on with any legal move of a board that is not over.
  lemma {:induction false} PlayoutStep(s: State, moves: seq<int>, c: int)
    requires WellFormed(s) && Playout(s, moves)
    requires !Terminal(Replay(s, moves)) && c in Drops(Replay(s, moves))
    ensures Playout(s, moves + [c])
    decreases |moves|
  {
    if moves == [] {
      assert [c][1..] == [];
    } else {
      assert (moves + [c])[1..] == moves[1..] + [c];
      PlayoutStep(Played(s, moves[0]), moves[1..], c);
    }
  }

  /// One pass of the playout loop of `Simulate` on a board where the game
  /// is not over: a random legal move is dropped; after a win the turn is
  /// left with the winner, otherwise it passes to the other side.
  method PlayTurn(board: Field, ghost s: State, ghost moves: seq<int>) returns (column: int, won: bool)
    requires board.Valid() && WellFormed(s) && board.Model() == Replay(s, moves) && Playout(s, moves)
    requires !Terminal(board.Model())
    modifies board, board.field
    ensures board.Valid() && board.piecesNumber == old(board.piecesNumber) + 1
    ensures board.piecesNumber <= board.numberRows * board.numberColumns
    ensures column in Drops(old(board.Model())) && Playout(s, moves + [column])
    ensures won ==> PlayedOut(s, moves + [column], board.Model(), board.isPlayersTurn)
    ensures !won ==> board.Model() == Replay(s, moves + [column]) && !Victory(board.Model())
  {
    ghost var before := board.Model();
    RoomIffDrops(before);
    column := board.GetRandomMove();
    DropPlacesOnePiece(before, column);
    var _ := board.DropInColumn(column);
    won := board.CheckForVictory();
    PlayoutStep(s, moves, column);
    ReplayStep(s, moves, column);
    SwitchKeepsOutcome(board.Model());
    if !won {
      board.SwitchPlayer();
    }
  }

  /// How a playout from `s` by `moves` ends on board `final` with result
  /// `playersVictory`: the moves follow the rules and the game is over after
  /// them; a line is credited to the side that made the last move, whose
  /// turn the board still shows; a full board without a line counts as the
  /// player's.
  ghost predicate PlayedOut(s: State, moves: seq<int>, final: State, playersVictory: bool)
    requires WellFormed(s)
  {
    var t := Replay(s, moves);
    && Playout(s, moves) && Terminal(t)
    && (Victory(t) ==> final == Switched(t) && playersVictory == !t.isPlayersTurn)
    && (!Victory(t) ==> final == t && playersVictory)
  }

  /// `Simulate`: a board already won reports the side that made the last
  /// move and changes nothing; otherwise random legal moves are played until
  /// the game is over. `moves` are the moves played, at most one per cell
  /// that was empty.
  method Simulate(board: Field) returns (playersVictory: bool, ghost moves: seq<int>)
    requires board.Valid()
    modifies board, board.field
    ensures board.Valid()
    ensures old(Victory(board.Model())) ==>
              moves == [] && board.Model() == old(board.Model()) && playersVictory == !old(board.isPlayersTurn)
    ensures !old(Victory(board.Model())) ==> PlayedOut(old(board.Model()), moves, board.Model(), playersVictory)
    ensures |moves| <= old(board.numberRows * board.numberColumns - board.piecesNumber)
  {
    ghost var s, cells := board.Model(), board.numberRows * board.numberColumns;
    RoomIffDrops(s);
    moves := [];
    var won := board.CheckForVictory();
    if won {
      return !board.isPlayersTurn, moves;
    }
    while board.ContainsEmptyCell()
      invariant board.Valid() && board.Model() == Replay(s, moves) && Playout(s, moves)
      invariant !Victory(board.Model())
      invariant board.piecesNumber == old(board.piecesNumber) + |moves| <= cells
      decreases board.numberRows * board.numberColumns - board.piecesNumber
    {
      var column;
      column, won := PlayTurn(board, s, moves);
      moves := moves + [column];
      if won {
        return board.isPlayersTurn, moves;
      }
    }
    RoomIffDrops(board.Model());
    assert PlayedOut(s, moves, board.Model(), true);
    return true, moves;
  }

  // ----- choosing the move to play -----

  /// A win rate as the double `(double)wins / (double)plays` evaluates it:
  /// a fraction with a positive denominator, or, for zero plays, an
  /// infinity or not-a-number.
  datatype Rate = Frac(num: int, den: int) | PosInf | NegInf | NaN

  predicate Proper(r: Rate) {
    r.Frac? ==> r.den > 0
  }

  /// Division by the play count: IEEE 754 gives a signed infinity for a
  /// non-zero count of wins over zero plays and not-a-number for 0 / 0.
  function RateOf(wins: int, plays: int): (r: Rate)
    ensures Proper(r)
    ensures r.Frac? <==> plays != 0
    ensures r.NaN? <==> plays == 0 && wins == 0
    ensures r.PosInf? <==> plays == 0 && wins > 0
  {
    if plays > 0 then Frac(wins, plays)
    else if plays < 0 then Frac(-wins, -plays)
    else if wins > 0 then PosInf
    else if wins < 0 then NegInf
    else NaN
  }

  /// The `>` of doubles: false whenever one side is not-a-number.
  predicate Gt(a: Rate, b: Rate) {
    match a
    case NaN => false
    case NegInf => false
    case PosInf => !b.NaN? && !b.PosInf?
    case Frac(n, d) => b.NegInf? || (b.Frac? && n * b.den > b.num * d)
  }

  /// For positive play counts, one rate beats another exactly when its
  /// fraction is the larger one.
  lemma GtIsRatioOrder(w: int, p: int, v: int, q: int)
    requires p > 0 && q > 0
    ensures Gt(RateOf(w, p), RateOf(v, q)) <==> w * q > v * p
  {
  }

  /// `c > b` and not `a > b`, with `a` and `b` numbers: then `c > a`.
  lemma GtOverNotGt(a: Rate, b: Rate, c: Rate)
    requires Proper(a) && Proper(b) && Proper(c) && !a.NaN? && !b.NaN?
    requires !Gt(a, b) && Gt(c, b)
    ensures Gt(c, a)
  {
    if a.Frac? && b.Frac? && c.Frac? {
      CrossMultiply(c.num, c.den, b.num, b.den, a.num, a.den, false);
    }
  }

  /// `>` on rates is transitive.
  lemma GtTransitive(a: Rate, b: Rate, c: Rate)
    requires Proper(a) && Proper(b) && Proper(c)
    requires Gt(c, b) && Gt(b, a)
    ensures Gt(c, a)
  {
    if a.Frac? && b.Frac? && c.Frac? {
      CrossMultiply(c.num, c.den, b.num, b.den, a.num, a.den, true);
    }
  }

  /// Comparing fractions by cross-multiplication chains through a middle
  /// fraction: `x/dx > y/dy` and `y/dy > z/dz` (or just `>=` for the second
  /// when `strict` is false) give `x/dx > z/dz`.
  lemma CrossMultiply(x: int, dx: int, y: int, dy: int, z: int, dz: int, strict: bool)
    requires dx > 0 && dy > 0 && dz > 0
    requires x * dy > y * dx
    requires if strict then y * dz > z * dy else y * dz >= z * dy
    ensures x * dz > z * dx
  {
    assert (x * dy) * dz > (y * dx) * dz;
    assert (y * dz) * dx >= (z * dy) * dx;
    assert dy * (x * dz) > dy * (z * dx) by {
      assert (x * dy) * dz == dy * (x * dz);
      assert (y * dx) * dz == (y * dz) * dx;
      assert (z * dy) * dx == dy * (z * dx);
    }
  }

  /// One entry of a children dictionary as `MostSelectedMove` sees it: the
  /// child's counters and the column played to reach it.
  datatype ChildStat = ChildStat(wins: int, plays: int, action: int)

  function RateAt(children: seq<ChildStat>, k: nat): Rate
    requires k < |children|
  {
    RateOf(children[k].wins, children[k].plays)
  }

  /// Entry `k` is the one `MostSelectedMove` picks: its rate beats the
  /// starting maximum of -1, beats every earlier rate that is a number, and
  /// is not beaten by any later rate.
  ghost predicate Chosen(children: seq<ChildStat>, k: nat)
    requires k < |children|
  {
    && Gt(RateAt(children, k), Frac(-1, 1))
    && (forall j :: 0 <= j < k && !RateAt(children, j).NaN? ==> Gt(RateAt(children, k), RateAt(children, j)))
    && (forall j :: k < j < |children| ==> !Gt(RateAt(children, j), RateAt(children, k)))
  }

  /// At most one entry is the chosen one: a later entry cannot beat the
  /// chosen rate, as it would have to.
  lemma ChosenUnique(children: seq<ChildStat>, k: nat, k': nat)
    requires k < |children| && k' < |children|
    ensures Chosen(children, k) && Chosen(children, k') ==> k == k'
  {
    if Chosen(children, k) && k < k' {
      assert !Gt(RateAt(children, k'), RateAt(children, k));
    }
    if Chosen(children, k') && k' < k {
      assert !Gt(RateAt(children, k), RateAt(children, k'));
    }
  }

  /// The state of the `MostSelectedMove` loop after `i` entries: `best`
  /// is -1 while no rate has beaten the starting maximum -1, and otherwise
  /// the entry holding the maximum `maxValue`, chosen among the first `i`.
  ghost predicate Leading(children: seq<ChildStat>, i: nat, best: int, maxValue: Rate) {
    && i <= |children| && Proper(maxValue) && !maxValue.NaN?
    && (best == -1 ==>
          && maxValue == Frac(-1, 1)
          && forall j :: 0 <= j < i ==> !Gt(RateAt(children, j), Frac(-1, 1)))
    && (best != -1 ==>
          && 0 <= best < i && maxValue == RateAt(children, best) && Gt(maxValue, Frac(-1, 1))
          && (forall j :: 0 <= j < best && !RateAt(children, j).NaN? ==> Gt(maxValue, RateAt(children, j)))
          && (forall j :: best < j < i ==> !Gt(RateAt(children, j), maxValue)))
  }

  /// One pass of the loop: a rate above the maximum takes the lead.
  lemma LeadingStep(children: seq<ChildStat>, i: nat, best: int, maxValue: Rate)
    requires Leading(children, i, best, maxValue) && i < |children|
    ensures Gt(RateAt(children, i), maxValue) ==> Leading(children, i + 1, i, RateAt(children, i))
    ensures !Gt(RateAt(children, i), maxValue) ==> Leading(children, i + 1, best, maxValue)
  {
    if Gt(RateAt(children, i), maxValue) {
      TakesTheLead(children, i, best, maxValue);
    }
  }

  /// A rate above the current maximum beats every earlier rate that is a
  /// number.
  lemma TakesTheLead(children: seq<ChildStat>, i: nat, best: int, maxValue: Rate)
    requires Leading(children, i, best, maxValue) && i < |children| && Gt(RateAt(children, i), maxValue)
    ensures Leading(children, i + 1, i, RateAt(children, i))
  {
    if best != -1 {
      GtTransitive(Frac(-1, 1), maxValue, RateAt(children, i));
    }
    forall j | 0 <= j < i && !RateAt(children, j).NaN?
      ensures Gt(RateAt(children, i), RateAt(children, j))
    {
      var r := RateAt(children, j);
      assert Gt(maxValue, r) || !Gt(r, maxValue);
      BeatsBelow(r, maxValue, RateAt(children, i));
    }
  }

  /// A rate above `m` is above every number that `m` beats or ties.
  lemma BeatsBelow(r: Rate, m: Rate, c: Rate)
    requires Proper(r) && Proper(m) && Proper(c) && !r.NaN? && !m.NaN?
    requires Gt(c, m) && (Gt(m, r) || !Gt(r, m))
    ensures Gt(c, r)
  {
    if Gt(m, r) {
      GtTransitive(r, m, c);
    } else {
      GtOverNotGt(r, m, c);
    }
  }

  /// `MostSelectedMove`: the column of the child with the highest win rate,
  /// the first such child in dictionary order, or -1 when no rate exceeds
  /// -1 (no children, or only children with 0 / 0).
  method MostSelectedMove(children: seq<ChildStat>) returns (bestMove: int)
    ensures (forall k :: 0 <= k < |children| ==> !Gt(RateAt(children, k), Frac(-1, 1))) ==> bestMove == -1
    ensures (exists k :: 0 <= k < |children| && Gt(RateAt(children, k), Frac(-1, 1))) ==>
              exists k :: 0 <= k < |children| && Chosen(children, k) && bestMove == children[k].action
  {
    var maxValue := Frac(-1, 1);
    bestMove := -1;
    ghost var best := -1;
    for i := 0 to |children|
      invariant Leading(children, i, best, maxValue)
      invariant best == -1 ==> bestMove == -1
      invariant best != -1 ==> bestMove == children[best].action
    {
      LeadingStep(children, i, best, maxValue);
      var rate := RateOf(children[i].wins, children[i].plays);
      if Gt(rate, maxValue) {
        bestMove := children[i].action;
        maxValue := rate;
        best := i;
      }
    }
    if best != -1 {
      assert Chosen(children, best);
    }
  }
}
