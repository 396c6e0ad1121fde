/// The search orchestration of the game controller
/// (Assets/Scripts/GameController.cs): the win-length clamp of
/// `InitializeGame`, one search worker (`ExpandTree`), the merge of the
/// workers' root children and the choice of the computer's column in
/// `CalculateRow`.
///
/// The workers run on a thread pool in the source; here they run one after
/// the other, which is what they amount to, since each reads the real board
/// only through a fresh copy and writes only to its own tree.
module GameControl {
  import opened Board
  import opened Search

  // ----- the win-length clamp -----

  function Max(a: int, b: int): int {
    if a > b then a else b
  }

  /// The clamp of `InitializeGame`: a win length longer than the longer
  /// side of the board is cut down to that side; a shorter one is kept.
  function ClampedWinLength(n: int, rows: int, columns: int): (r: int)
    ensures r <= n && r <= Max(rows, columns)
    ensures r == n || r == Max(rows, columns)
  {
    var longest := Max(rows, columns);
    if n > longest then longest else n
  }

  /// Clamping twice is clamping once, and a length that fits is left alone.
  lemma ClampIdempotent(n: int, rows: int, columns: int)
    ensures ClampedWinLength(ClampedWinLength(n, rows, columns), rows, columns) == ClampedWinLength(n, rows, columns)
    ensures n <= Max(rows, columns) ==> ClampedWinLength(n, rows, columns) == n
  {
  }

  // ----- one search worker -----

  /// The board a worker searches from: its copy of the real board, whose
  /// last-move record reads `(0, 0)` because `Clone` does not copy it.
  function SearchRoot(s: State): (r: State)
    requires WellFormed(s)
    ensures WellFormed(r) && (Counted(s) ==> Counted(r))
    ensures r.grid == s.grid && r.pieces == s.pieces && r.isPlayersTurn == s.isPlayersTurn
    ensures r.dropColumn == 0 && r.dropRow == 0
  {
    s.(dropColumn := 0, dropRow := 0)
  }

  /// Every node other than the root and `e` has been played at least once.
  ghost predicate PlayedExcept(nodes: seq<Node>, e: nat)
  {
    forall i :: 0 < i < |nodes| && i != e ==> nodes[i].plays >= 1
  }

  /// The state of a worker's tree between iterations: it agrees with the
  /// boards reached from `s0`, every node other than the root has been
  /// played at least once, and no node has fewer plays than its children
  /// together.
  ghost predicate Worker(tree: Tree, s0: State)
    reads tree
    requires WellFormed(s0)
  {
    tree.Tracks(s0) && PlayedExcept(tree.nodes, 0) && PlaysCoverChildren(tree.nodes)
  }

  /// A node added by `Expand` is the only one that has not been played,
  /// plays still cover children's plays, and the root keeps its counters
  /// and turn and loses no child.
  lemma GrownPlayed(nodes: seq<Node>, actionOf: seq<int>, n: nat, turn: bool, a: int)
    requires Arena(nodes, actionOf) && n < |nodes| && PlayedExcept(nodes, 0) && PlaysCoverChildren(nodes)
    ensures var grown := Grown(nodes, n, turn, a);
      && PlayedExcept(grown, |nodes|) && PlaysCoverChildren(grown)
      && grown[0].plays == nodes[0].plays && grown[0].isPlayersTurn == nodes[0].isPlayersTurn
      && |grown[0].children| >= |nodes[0].children|
  {
    GrownKeepsNodes(nodes, n, turn, a);
    GrowKeepsCover(nodes, actionOf, n, turn, a);
  }

  /// Propagating a result from `e` plays `e` and the root once more, so
  /// afterwards every node has been played.
  lemma PropagatedPlayed(nodes: seq<Node>, nodes': seq<Node>, e: nat, playersVictory: bool)
    requires ParentsBefore(nodes) && e < |nodes| && PlayedExcept(nodes, e) && nodes[e].plays >= 0
    requires |nodes'| == |nodes|
    requires forall i :: 0 <= i < |nodes| ==>
               nodes'[i] == if i in Chain(nodes, e) then Bumped(nodes[i], playersVictory) else nodes[i]
    ensures PlayedExcept(nodes', 0)
    ensures nodes'[0] == Bumped(nodes[0], playersVictory)
  {
    RootInChain(nodes, e);
    forall i | 0 < i < |nodes'|
      ensures nodes'[i].plays >= 1
    {
      if i != e && i in Chain(nodes, e) {
        assert nodes'[i].plays == nodes[i].plays + 1;
      }
    }
  }

  /// The selection and expansion steps of one iteration of `ExpandTree`, on
  /// the worker's fresh copy of the board: the tree keeps agreeing with the
  /// boards and the board is that of the expanded node. The root keeps its
  /// counters and turn flag and does not lose children; on a root board
  /// that is not over, the root ends up with a child. Only the expanded node
  /// may be a node never played, and plays still cover children's plays.
  method SelectAndExpand(tree: Tree, simulated: Field, ghost s0: State) returns (expanded: nat)
    requires WellFormed(s0) && Worker(tree, s0) && Counted(s0)
    requires simulated.Valid() && simulated.Model() == s0
    modifies tree, simulated, simulated.field
    ensures tree.Tracks(s0) && expanded < |tree.nodes|
    ensures simulated.Valid() && simulated.Model() == StateAt(tree.nodes, tree.actionOf, s0, expanded)
    ensures PlayedExcept(tree.nodes, expanded) && PlaysCoverChildren(tree.nodes)
    ensures tree.nodes[0].plays == old(tree.nodes[0].plays)
    ensures tree.nodes[0].isPlayersTurn == old(tree.nodes[0].isPlayersTurn)
    ensures |tree.nodes[0].children| >= |old(tree.nodes[0].children)|
    ensures !Terminal(s0) ==> |tree.nodes[0].children| >= 1
  {
    var selected := tree.SelectNodeToExpand(0, tree.nodes[0].plays, simulated, s0);
    if !Terminal(simulated.Model()) {
      RoomToExpand(tree.nodes, tree.actionOf, s0, selected);
    }
    if !Terminal(s0) && |tree.nodes[0].children| == 0 {
      RoomIffDrops(s0);
      assert selected == 0;
    }
    ghost var before, turn := tree.nodes, simulated.isPlayersTurn;
    expanded := tree.Expand(selected, simulated, s0);
    if tree.nodes != before {
      GrownPlayed(before, old(tree.actionOf), selected, turn, tree.actionOf[expanded]);
    }
  }

  /// One iteration of the loop of `ExpandTree`: a fresh copy of the board,
  /// selection and expansion, a random playout and the propagation of its
  /// result. The root gains one play; on a root board that is not over, the
  /// root ends up with at least one child.
  method Iterate(tree: Tree, current: Field, ghost s0: State)
    requires current.Valid() && s0 == SearchRoot(current.Model()) && Worker(tree, s0)
    modifies tree
    ensures Worker(tree, s0)
    ensures tree.nodes[0].plays == old(tree.nodes[0].plays) + 1
    ensures tree.nodes[0].isPlayersTurn == old(tree.nodes[0].isPlayersTurn)
    ensures |tree.nodes[0].children| >= |old(tree.nodes[0].children)|
    ensures !Terminal(s0) ==> |tree.nodes[0].children| >= 1
  {
    var simulated := current.Clone();
    var expanded := SelectAndExpand(tree, simulated, s0);
    var playersVictory, _ := Simulate(simulated);
    Propagate(tree, expanded, playersVictory, s0);
  }

  /// The back-propagation step of one iteration: the result of the playout
  /// from `expanded` is added to it and its ancestors. The tree keeps
  /// agreeing with the boards, every node has now been played, plays still
  /// cover children's plays, and the root gains one play and keeps its turn
  /// flag and children.
  method Propagate(tree: Tree, expanded: nat, playersVictory: bool, ghost s0: State)
    requires WellFormed(s0) && tree.Tracks(s0) && expanded < |tree.nodes| && PlayedExcept(tree.nodes, expanded)
    requires PlaysCoverChildren(tree.nodes)
    modifies tree
    ensures Worker(tree, s0)
    ensures tree.nodes[0].plays == old(tree.nodes[0].plays) + 1
    ensures tree.nodes[0].isPlayersTurn == old(tree.nodes[0].isPlayersTurn)
    ensures tree.nodes[0].children == old(tree.nodes[0].children)
  {
    ghost var grown := tree.nodes;
    tree.BackPropagate(expanded, playersVictory);
    PropagatedBumpsChain(grown, expanded, playersVictory);
    PropagatedPlayed(grown, tree.nodes, expanded, playersVictory);
    PropagatedKeepsCover(grown, tree.actionOf, expanded, playersVictory);
    CountersKeepReplays(grown, tree.nodes, tree.actionOf, s0);
  }

  /// `ExpandTree`: a new tree whose root carries the turn of the copied
  /// board, grown by `iterationCount` iterations. The real board is only
  /// read. Afterwards the root has been played once per iteration.
  method ExpandTree(current: Field, iterationCount: int) returns (tree: Tree)
    requires current.Valid()
    ensures fresh(tree) && Worker(tree, SearchRoot(current.Model()))
    ensures tree.nodes[0].isPlayersTurn == current.isPlayersTurn
    ensures tree.nodes[0].plays == if iterationCount > 0 then iterationCount else 0
    ensures iterationCount >= 1 && !Terminal(SearchRoot(current.Model())) ==> |tree.nodes[0].children| >= 1
  {
    ghost var s0 := SearchRoot(current.Model());
    var simulated := current.Clone();
    tree := new Tree(simulated.isPlayersTurn);
    var i := 0;
    while i < iterationCount
      invariant fresh(tree) && Worker(tree, s0) && tree.nodes[0].isPlayersTurn == current.isPlayersTurn
      invariant 0 <= i && (i <= iterationCount || i == 0)
      invariant tree.nodes[0].plays == i
      invariant i >= 1 && !Terminal(s0) ==> |tree.nodes[0].children| >= 1
    {
      Iterate(tree, current, s0);
      i := i + 1;
    }
  }

  // ----- merging the workers' root children -----

  /// The columns of a list of child entries.
  function ActionsOf(cs: seq<ChildStat>): (r: seq<int>)
    ensures |r| == |cs| && forall k :: 0 <= k < |cs| ==> r[k] == cs[k].action
  {
    seq(|cs|, k requires 0 <= k < |cs| => cs[k].action)
  }

  predicate OnePerColumn(cs: seq<ChildStat>) {
    forall i, j :: 0 <= i < j < |cs| ==> cs[i].action != cs[j].action
  }

  predicate SortedByAction(cs: seq<ChildStat>) {
    forall i, j :: 0 <= i < j < |cs| ==> cs[i].action <= cs[j].action
  }

  /// `c` put in place in a list sorted by action.
  function Insert(c: ChildStat, cs: seq<ChildStat>): (r: seq<ChildStat>)
    ensures multiset(r) == multiset(cs) + multiset{c}
  {
    if cs == [] || c.action <= cs[0].action then [c] + cs
    else
      assert cs == [cs[0]] + cs[1..];
      [cs[0]] + Insert(c, cs[1..])
  }

  lemma {:induction false} InsertSorted(c: ChildStat, cs: seq<ChildStat>)
    requires SortedByAction(cs)
    ensures SortedByAction(Insert(c, cs))
  {
    if cs != [] && c.action > cs[0].action {
      InsertSorted(c, cs[1..]);
      var rest := Insert(c, cs[1..]);
      forall j | 0 <= j < |rest| ensures cs[0].action <= rest[j].action {
        assert rest[j] in multiset(rest);
        if rest[j] != c {
          assert rest[j] in multiset(cs[1..]);
          var i :| 0 <= i < |cs[1..]| && cs[1..][i] == rest[j];
        }
      }
    }
  }

  /// `List.Sort` with the comparison of `CalculateRow`: the entries ordered
  /// by action (the library's own algorithm is not part of this model).
  function SortByAction(cs: seq<ChildStat>): (r: seq<ChildStat>)
    ensures SortedByAction(r) && multiset(r) == multiset(cs)
  {
    if cs == [] then []
    else
      assert cs == [cs[0]] + cs[1..];
      InsertSorted(cs[0], SortByAction(cs[1..]));
      Insert(cs[0], SortByAction(cs[1..]))
  }

  /// The wins and the plays of the entries for column `a`, summed.
  function WinsFor(cs: seq<ChildStat>, a: int): int {
    if cs == [] then 0 else (if cs[0].action == a then cs[0].wins else 0) + WinsFor(cs[1..], a)
  }

  function PlaysFor(cs: seq<ChildStat>, a: int): int {
    if cs == [] then 0 else (if cs[0].action == a then cs[0].plays else 0) + PlaysFor(cs[1..], a)
  }

  /// In a list with one entry per column, the sums for a column are that
  /// entry's counters.
  lemma {:induction false} EntryHoldsTotals(cs: seq<ChildStat>, k: nat)
    requires OnePerColumn(cs) && k < |cs|
    ensures WinsFor(cs, cs[k].action) == cs[k].wins && PlaysFor(cs, cs[k].action) == cs[k].plays
  {
    if k == 0 {
      AbsentHasNoTotals(cs[1..], cs[0].action);
    } else {
      EntryHoldsTotals(cs[1..], k - 1);
    }
  }

  lemma {:induction false} AbsentHasNoTotals(cs: seq<ChildStat>, a: int)
    requires a !in ActionsOf(cs)
    ensures WinsFor(cs, a) == 0 && PlaysFor(cs, a) == 0
  {
    if cs != [] {
      assert ActionsOf(cs)[0] == cs[0].action;
      assert ActionsOf(cs[1..]) == ActionsOf(cs)[1..];
      AbsentHasNoTotals(cs[1..], a);
    }
  }

  /// Sums split over a concatenation.
  lemma {:induction false} TotalsOfConcat(xs: seq<ChildStat>, ys: seq<ChildStat>, a: int)
    ensures WinsFor(xs + ys, a) == WinsFor(xs, a) + WinsFor(ys, a)
    ensures PlaysFor(xs + ys, a) == PlaysFor(xs, a) + PlaysFor(ys, a)
  {
    if xs != [] {
      assert (xs + ys)[1..] == xs[1..] + ys;
      TotalsOfConcat(xs[1..], ys, a);
    } else {
      assert xs + ys == ys;
    }
  }

  /// Sorting keeps the sums.
  lemma {:induction false} InsertKeepsTotals(c: ChildStat, cs: seq<ChildStat>, a: int)
    requires SortedByAction(cs)
    ensures WinsFor(Insert(c, cs), a) == WinsFor([c] + cs, a)
    ensures PlaysFor(Insert(c, cs), a) == PlaysFor([c] + cs, a)
  {
    if cs != [] && c.action > cs[0].action {
      InsertKeepsTotals(c, cs[1..], a);
      assert ([c] + cs)[1..] == cs;
      assert ([c] + cs[1..])[1..] == cs[1..];
      assert ([cs[0]] + Insert(c, cs[1..]))[1..] == Insert(c, cs[1..]);
    }
  }

  lemma {:induction false} SortKeepsTotals(cs: seq<ChildStat>, a: int)
    ensures WinsFor(SortByAction(cs), a) == WinsFor(cs, a)
    ensures PlaysFor(SortByAction(cs), a) == PlaysFor(cs, a)
  {
    if cs != [] {
      SortKeepsTotals(cs[1..], a);
      InsertKeepsTotals(cs[0], SortByAction(cs[1..]), a);
      assert ([cs[0]] + SortByAction(cs[1..]))[1..] == SortByAction(cs[1..]);
    }
  }

  /// The merge step for one entry `c` of a worker's root: the first merged
  /// entry for the same column takes `c`'s wins and plays on top of its
  /// own; without one, `c` is appended as a new entry.
  function Absorb(merged: seq<ChildStat>, c: ChildStat): seq<ChildStat> {
    if merged == [] then [c]
    else if merged[0].action == c.action then
      [merged[0].(wins := merged[0].wins + c.wins, plays := merged[0].plays + c.plays)] + merged[1..]
    else [merged[0]] + Absorb(merged[1..], c)
  }

  /// The merge of the entries `cs`, one after the other, into `merged`.
  function MergeAll(merged: seq<ChildStat>, cs: seq<ChildStat>): seq<ChildStat>
    decreases |cs|
  {
    if cs == [] then merged else MergeAll(Absorb(merged, cs[0]), cs[1..])
  }

  /// The first merged entry for column `a`, or -1 when there is none
  /// (`ContainsValue` and `First` of `CalculateRow`).
  function IndexOfAction(merged: seq<ChildStat>, a: int): (k: int)
    ensures -1 <= k < |merged|
    ensures k == -1 <==> forall j :: 0 <= j < |merged| ==> merged[j].action != a
    ensures k >= 0 ==> merged[k].action == a && forall j :: 0 <= j < k ==> merged[j].action != a
  {
    if merged == [] then -1
    else if merged[0].action == a then 0
    else
      var k := IndexOfAction(merged[1..], a);
      if k == -1 then -1 else k + 1
  }

  /// `Absorb` is the update at the first entry for the column, or an
  /// append when there is none.
  lemma {:induction false} AbsorbAt(merged: seq<ChildStat>, c: ChildStat)
    ensures var k := IndexOfAction(merged, c.action);
      Absorb(merged, c) == if k < 0 then merged + [c]
                           else merged[k := merged[k].(wins := merged[k].wins + c.wins, plays := merged[k].plays + c.plays)]
  {
    if merged != [] && merged[0].action != c.action {
      var rest := merged[1..];
      var k := IndexOfAction(rest, c.action);
      AbsorbAt(rest, c);
      assert Absorb(merged, c) == [merged[0]] + Absorb(rest, c);
      if k < 0 {
        assert merged + [c] == [merged[0]] + (rest + [c]);
      } else {
        var e := rest[k].(wins := rest[k].wins + c.wins, plays := rest[k].plays + c.plays);
        assert merged[k + 1 := e] == [merged[0]] + rest[k := e];
      }
    }
  }

  /// Absorbing one entry adds its counters to the sums of its column.
  lemma {:induction false} AbsorbTotals(merged: seq<ChildStat>, c: ChildStat, a: int)
    ensures WinsFor(Absorb(merged, c), a) == WinsFor(merged, a) + (if c.action == a then c.wins else 0)
    ensures PlaysFor(Absorb(merged, c), a) == PlaysFor(merged, a) + (if c.action == a then c.plays else 0)
  {
    var r := Absorb(merged, c);
    if merged == [] {
      assert r[1..] == [];
    } else if merged[0].action == c.action {
      assert r[1..] == merged[1..];
    } else {
      AbsorbTotals(merged[1..], c, a);
      assert r[1..] == Absorb(merged[1..], c);
    }
  }

  /// Absorbing one entry: existing entries keep their places and columns,
  /// the entry's column is then present and no other is added.
  lemma {:induction false} AbsorbColumns(merged: seq<ChildStat>, c: ChildStat)
    ensures var r := Absorb(merged, c);
      && |merged| <= |r| && (forall k :: 0 <= k < |merged| ==> r[k].action == merged[k].action)
      && (forall x :: x in ActionsOf(r) <==> x in ActionsOf(merged) || x == c.action)
  {
    var r := Absorb(merged, c);
    if merged == [] {
      assert ActionsOf(r) == [c.action];
    } else if merged[0].action == c.action {
      assert ActionsOf(r) == ActionsOf(merged);
    } else {
      AbsorbColumns(merged[1..], c);
      assert r[1..] == Absorb(merged[1..], c);
      assert ActionsOf(r) == [merged[0].action] + ActionsOf(Absorb(merged[1..], c));
      assert ActionsOf(merged) == [merged[0].action] + ActionsOf(merged[1..]);
    }
  }

  /// An entry for a column not yet listed can go in front.
  lemma ConsOnePerColumn(x: ChildStat, rest: seq<ChildStat>)
    requires OnePerColumn(rest) && x.action !in ActionsOf(rest)
    ensures OnePerColumn([x] + rest)
  {
    var r := [x] + rest;
    forall i, j | 0 <= i < j < |r| ensures r[i].action != r[j].action {
      if i == 0 {
        assert ActionsOf(rest)[j - 1] == r[j].action;
      }
    }
  }

  /// Absorbing keeps one entry per column.
  lemma {:induction false} AbsorbKeepsOnePerColumn(merged: seq<ChildStat>, c: ChildStat)
    requires OnePerColumn(merged)
    ensures OnePerColumn(Absorb(merged, c))
  {
    if merged != [] && merged[0].action != c.action {
      var rest := Absorb(merged[1..], c);
      AbsorbKeepsOnePerColumn(merged[1..], c);
      AbsorbColumns(merged[1..], c);
      assert merged[0].action !in ActionsOf(merged[1..]) by {
        forall k | 0 <= k < |merged| - 1 ensures ActionsOf(merged[1..])[k] != merged[0].action {
          assert ActionsOf(merged[1..])[k] == merged[k + 1].action;
        }
      }
      ConsOnePerColumn(merged[0], rest);
      assert Absorb(merged, c) == [merged[0]] + rest;
    }
  }

  /// Merging a list of entries adds up the sums column by column.
  lemma {:induction false} MergeAllTotals(merged: seq<ChildStat>, cs: seq<ChildStat>, a: int)
    ensures WinsFor(MergeAll(merged, cs), a) == WinsFor(merged, a) + WinsFor(cs, a)
    ensures PlaysFor(MergeAll(merged, cs), a) == PlaysFor(merged, a) + PlaysFor(cs, a)
    decreases |cs|
  {
    if cs != [] {
      AbsorbTotals(merged, cs[0], a);
      MergeAllTotals(Absorb(merged, cs[0]), cs[1..], a);
    }
  }

  /// Merging a list of entries: the merged columns are the old ones, in
  /// place, followed by the new ones in order of first appearance, with one
  /// entry per column.
  lemma {:induction false} MergeAllColumns(merged: seq<ChildStat>, cs: seq<ChildStat>)
    ensures var r := MergeAll(merged, cs);
      && |merged| <= |r| && (forall k :: 0 <= k < |merged| ==> r[k].action == merged[k].action)
      && (forall x :: x in ActionsOf(r) <==> x in ActionsOf(merged) || x in ActionsOf(cs))
      && (OnePerColumn(merged) ==> OnePerColumn(r))
    decreases |cs|
  {
    if cs != [] {
      AbsorbColumns(merged, cs[0]);
      if OnePerColumn(merged) {
        AbsorbKeepsOnePerColumn(merged, cs[0]);
      }
      MergeAllColumns(Absorb(merged, cs[0]), cs[1..]);
      assert ActionsOf(cs) == [cs[0].action] + ActionsOf(cs[1..]);
    }
  }

  /// Merging one more entry after a list.
  lemma {:induction false} MergeAllStep(merged: seq<ChildStat>, cs: seq<ChildStat>, c: ChildStat)
    ensures MergeAll(merged, cs + [c]) == Absorb(MergeAll(merged, cs), c)
    decreases |cs|
  {
    if cs == [] {
      assert [c][1..] == [];
    } else {
      assert (cs + [c])[1..] == cs[1..] + [c];
      MergeAllStep(Absorb(merged, cs[0]), cs[1..], c);
    }
  }

  /// The entries of the workers' roots in the order the merge takes them:
  /// worker by worker, each worker's entries sorted by action.
  function Gathered(roots: seq<seq<ChildStat>>): seq<ChildStat> {
    if roots == [] then [] else Gathered(roots[..|roots| - 1]) + SortByAction(roots[|roots| - 1])
  }

  /// The wins and plays for column `a` summed over the workers' roots; a
  /// worker without that column adds nothing.
  function TotalWins(roots: seq<seq<ChildStat>>, a: int): int {
    if roots == [] then 0 else TotalWins(roots[..|roots| - 1], a) + WinsFor(roots[|roots| - 1], a)
  }

  function TotalPlays(roots: seq<seq<ChildStat>>, a: int): int {
    if roots == [] then 0 else TotalPlays(roots[..|roots| - 1], a) + PlaysFor(roots[|roots| - 1], a)
  }

  lemma {:induction false} GatheredTotals(roots: seq<seq<ChildStat>>, a: int)
    ensures WinsFor(Gathered(roots), a) == TotalWins(roots, a)
    ensures PlaysFor(Gathered(roots), a) == TotalPlays(roots, a)
  {
    if roots != [] {
      var init, last := roots[..|roots| - 1], roots[|roots| - 1];
      GatheredTotals(init, a);
      TotalsOfConcat(Gathered(init), SortByAction(last), a);
      SortKeepsTotals(last, a);
    }
  }

  /// Sorting keeps the columns.
  lemma SortKeepsColumns(cs: seq<ChildStat>, x: int)
    ensures x in ActionsOf(SortByAction(cs)) <==> x in ActionsOf(cs)
  {
    var s := SortByAction(cs);
    if x in ActionsOf(s) {
      var k :| 0 <= k < |s| && ActionsOf(s)[k] == x;
      assert s[k] in multiset(cs);
      var i :| 0 <= i < |cs| && cs[i] == s[k];
      assert ActionsOf(cs)[i] == x;
    }
    if x in ActionsOf(cs) {
      var k :| 0 <= k < |cs| && ActionsOf(cs)[k] == x;
      assert cs[k] in multiset(s);
      var i :| 0 <= i < |s| && s[i] == cs[k];
      assert ActionsOf(s)[i] == x;
    }
  }

  /// The gathered entries hold the columns of all the workers' roots.
  lemma {:induction false} GatheredColumns(roots: seq<seq<ChildStat>>, x: int)
    ensures x in ActionsOf(Gathered(roots)) <==> exists i :: 0 <= i < |roots| && x in ActionsOf(roots[i])
  {
    if roots != [] {
      var init, last := roots[..|roots| - 1], roots[|roots| - 1];
      GatheredColumns(init, x);
      SortKeepsColumns(last, x);
      assert ActionsOf(Gathered(init) + SortByAction(last)) == ActionsOf(Gathered(init)) + ActionsOf(SortByAction(last));
      if exists i :: 0 <= i < |roots| && x in ActionsOf(roots[i]) {
        var i :| 0 <= i < |roots| && x in ActionsOf(roots[i]);
        if i < |roots| - 1 {
          assert roots[i] == init[i];
        }
      }
    }
  }

  /// What the merge of `CalculateRow` computes: one entry per column that
  /// appears at some worker's root, holding that column's wins and plays
  /// summed over all workers.
  lemma MergedTotals(roots: seq<seq<ChildStat>>)
    ensures var r := MergeAll([], Gathered(roots));
      && OnePerColumn(r)
      && (forall x :: x in ActionsOf(r) <==> exists i :: 0 <= i < |roots| && x in ActionsOf(roots[i]))
      && forall k :: 0 <= k < |r| ==> r[k].wins == TotalWins(roots, r[k].action) && r[k].plays == TotalPlays(roots, r[k].action)
  {
    var r := MergeAll([], Gathered(roots));
    MergeAllColumns([], Gathered(roots));
    assert ActionsOf([]) == [];
    forall x ensures x in ActionsOf(r) <==> exists i :: 0 <= i < |roots| && x in ActionsOf(roots[i]) {
      GatheredColumns(roots, x);
    }
    forall k | 0 <= k < |r|
      ensures r[k].wins == TotalWins(roots, r[k].action) && r[k].plays == TotalPlays(roots, r[k].action)
    {
      MergeAllTotals([], Gathered(roots), r[k].action);
      GatheredTotals(roots, r[k].action);
      EntryHoldsTotals(r, k);
    }
  }

  /// The merge loop of `CalculateRow`: for each worker in turn, its root's
  /// entries sorted by action, each added into the merged root.
  method Merge(roots: seq<seq<ChildStat>>) returns (merged: seq<ChildStat>)
    ensures merged == MergeAll([], Gathered(roots))
  {
    merged := [];
    for i := 0 to |roots|
      invariant merged == MergeAll([], Gathered(roots[..i]))
    {
      var sortedChildren := SortByAction(roots[i]);
      merged := MergeInto(merged, sortedChildren);
      MergeAllConcat(Gathered(roots[..i]), sortedChildren);
      assert roots[..i + 1][..i] == roots[..i];
    }
    assert roots[..|roots|] == roots;
  }

  /// The inner loop of the merge: each entry of one worker's sorted root
  /// is added to the entry for its column, or appended when there is none.
  method MergeInto(merged: seq<ChildStat>, cs: seq<ChildStat>) returns (r: seq<ChildStat>)
    ensures r == MergeAll(merged, cs)
  {
    r := merged;
    for c := 0 to |cs|
      invariant r == MergeAll(merged, cs[..c])
    {
      var child := cs[c];
      var k := IndexOfAction(r, child.action);
      AbsorbAt(r, child);
      MergeAllStep(merged, cs[..c], child);
      assert cs[..c + 1] == cs[..c] + [child];
      if k < 0 {
        r := r + [child];
      } else {
        r := r[k := r[k].(wins := r[k].wins + child.wins, plays := r[k].plays + child.plays)];
      }
    }
    assert cs[..|cs|] == cs;
  }

  /// Merging a concatenation is merging one part after the other.
  lemma {:induction false} MergeAllConcat(xs: seq<ChildStat>, ys: seq<ChildStat>)
    ensures forall m :: MergeAll(MergeAll(m, xs), ys) == MergeAll(m, xs + ys)
  {
    forall m ensures MergeAll(MergeAll(m, xs), ys) == MergeAll(m, xs + ys) {
      MergeAllConcatFrom(m, xs, ys);
    }
  }

  lemma {:induction false} MergeAllConcatFrom(m: seq<ChildStat>, xs: seq<ChildStat>, ys: seq<ChildStat>)
    ensures MergeAll(MergeAll(m, xs), ys) == MergeAll(m, xs + ys)
    decreases |xs|
  {
    if xs == [] {
      assert xs + ys == ys;
    } else {
      assert (xs + ys)[1..] == xs[1..] + ys;
      MergeAllConcatFrom(Absorb(m, xs[0]), xs[1..], ys);
    }
  }

  // ----- the controller -----

  class GameController {
    var numberRows: int
    var numberColumns: int
    var numPiecesToWin: int
    var allowDiagonalConnection: bool
    var parallelProcesses: int
    var iterations: int
    var field: Field?

    /// The settings as the editor sets them; no board yet.
    constructor (rows: int, columns: int, piecesToWin: int, allowDiagonal: bool, processes: int, mctsIterations: int)
      ensures numberRows == rows && numberColumns == columns && numPiecesToWin == piecesToWin
      ensures allowDiagonalConnection == allowDiagonal && parallelProcesses == processes
      ensures iterations == mctsIterations && field == null
    {
      numberRows, numberColumns, numPiecesToWin := rows, columns, piecesToWin;
      allowDiagonalConnection, parallelProcesses, iterations := allowDiagonal, processes, mctsIterations;
      field := null;
    }

    /// `InitializeGame` with `CreateField`: the win length is clamped to the
    /// longer side, then a new empty board is made; the side to move first
    /// is the coin flip `playersTurn`.
    method InitializeGame(playersTurn: bool)
      requires 1 <= numberRows && 1 <= numberColumns
      modifies this
      ensures numPiecesToWin == ClampedWinLength(old(numPiecesToWin), numberRows, numberColumns)
      ensures numberRows == old(numberRows) && numberColumns == old(numberColumns)
      ensures allowDiagonalConnection == old(allowDiagonalConnection)
      ensures parallelProcesses == old(parallelProcesses) && iterations == old(iterations)
      ensures field != null && fresh(field) && field.Valid() && field.piecesNumber == 0
      ensures field.numberRows == numberRows && field.numberColumns == numberColumns
      ensures field.numberPiecesToWin == numPiecesToWin && field.isPlayersTurn == playersTurn
      ensures field.allowDiagonalConnection == allowDiagonalConnection
      ensures field.dropColumn == 0 && field.dropRow == 0
      ensures forall x, y :: 0 <= x < numberColumns && 0 <= y < numberRows ==> field.field[x, y] == Empty
    {
      var max := if numberRows > numberColumns then numberRows else numberColumns;
      if numPiecesToWin > max {
        numPiecesToWin := max;
      }
      field := new Field(numberRows, numberColumns, numPiecesToWin, allowDiagonalConnection, playersTurn);
    }

    /// `CalculateRow`: on an empty board a random legal column, or -1 when
    /// there is none; otherwise `parallelProcesses` workers search, their
    /// roots are merged and the column with the best merged win rate is
    /// chosen, which is always a legal one. The real board is not changed.
    /// A search needs a worker (waiting on no handles throws) and a first
    /// worker whose root gained a child (trimming its empty log line throws),
    /// so at least one iteration on a board that is not over.
    /// `workerRoots` are the workers' root entries and `mergedRoot` the
    /// merged root.
    method CalculateRow() returns (column: int, ghost workerRoots: seq<seq<ChildStat>>, ghost mergedRoot: seq<ChildStat>)
      requires field != null && field.Valid()
      requires field.piecesNumber != 0 ==>
                 parallelProcesses >= 1 && iterations >= 1 && !Terminal(SearchRoot(field.Model()))
      ensures field.piecesNumber == 0 ==> (column == -1 <==> Drops(field.Model()) == [])
      ensures field.piecesNumber == 0 && column != -1 ==> column in Drops(field.Model())
      ensures field.piecesNumber != 0 ==> column in Drops(field.Model())
      ensures field.piecesNumber != 0 ==>
                var roots, merged := workerRoots, mergedRoot;
                && |roots| == parallelProcesses && |roots[0]| >= 1
                && (forall j :: 0 <= j < |roots| ==> Sampled(roots[j]))
                && (forall j, k :: 0 <= j < |roots| && 0 <= k < |roots[j]| ==> roots[j][k].action in Drops(field.Model()))
                && merged == MergeAll([], Gathered(roots))
                && exists k :: 0 <= k < |merged| && Chosen(merged, k) && column == merged[k].action
    {
      if field.piecesNumber != 0 {
        ghost var s0 := SearchRoot(field.Model());
        var roots: seq<seq<ChildStat>> := [];
        for i := 0 to parallelProcesses
          invariant |roots| == i
          invariant forall j :: 0 <= j < i ==> Sampled(roots[j])
          invariant forall j, k :: 0 <= j < i && 0 <= k < |roots[j]| ==> roots[j][k].action in Drops(s0)
          invariant i >= 1 ==> |roots[0]| >= 1
        {
          var stats := RunWorker(field, iterations);
          roots := roots + [stats];
        }
        var merged := Merge(roots);
        column := PickColumn(roots, merged, Drops(s0));
        workerRoots, mergedRoot := roots, merged;
      } else {
        column := field.GetRandomMove();
        workerRoots, mergedRoot := [], [];
      }
    }
  }

  /// One worker of `CalculateRow`: a tree grown by `ExpandTree` from a copy
  /// of the board, read out as its root's entries. They are legal columns of
  /// the board with sampled counters, and with at least one iteration on a
  /// board that is not over there is at least one.
  method RunWorker(current: Field, iterationCount: int) returns (stats: seq<ChildStat>)
    requires current.Valid()
    ensures Sampled(stats) && forall k :: 0 <= k < |stats| ==> stats[k].action in Drops(SearchRoot(current.Model()))
    ensures iterationCount >= 1 && !Terminal(SearchRoot(current.Model())) ==> |stats| >= 1
  {
    var tree := ExpandTree(current, iterationCount);
    stats := RootStats(tree, SearchRoot(current.Model()));
  }

  /// The entries of a worker's root: legal columns of the root board, with
  /// counters `0 <= wins <= plays` and `plays >= 1`.
  method RootStats(tree: Tree, ghost s0: State) returns (stats: seq<ChildStat>)
    requires WellFormed(s0) && Worker(tree, s0)
    ensures stats == tree.ChildStats(0)
    ensures Sampled(stats) && forall k :: 0 <= k < |stats| ==> stats[k].action in Drops(s0)
  {
    stats := tree.ChildStats(0);
    forall k | 0 <= k < |stats|
      ensures stats[k].action in Drops(s0) && 0 <= stats[k].wins <= stats[k].plays && stats[k].plays >= 1
    {
      assert EdgeReplays(tree.nodes, tree.actionOf, s0, 0, k);
      assert tree.nodes[0].children[k].child > 0;
    }
  }

  /// Counters with `0 <= wins <= plays` and `plays >= 1`, as a worker's
  /// root children have them.
  predicate Sampled(cs: seq<ChildStat>) {
    forall k :: 0 <= k < |cs| ==> 0 <= cs[k].wins <= cs[k].plays && cs[k].plays >= 1
  }

  lemma {:induction false} SumsBounded(cs: seq<ChildStat>, a: int)
    requires Sampled(cs)
    ensures 0 <= WinsFor(cs, a) <= PlaysFor(cs, a)
    ensures a in ActionsOf(cs) ==> PlaysFor(cs, a) >= 1
  {
    if cs != [] {
      assert ActionsOf(cs) == [cs[0].action] + ActionsOf(cs[1..]);
      SumsBounded(cs[1..], a);
    }
  }

  lemma {:induction false} TotalsBounded(roots: seq<seq<ChildStat>>, a: int)
    requires forall j :: 0 <= j < |roots| ==> Sampled(roots[j])
    ensures 0 <= TotalWins(roots, a) <= TotalPlays(roots, a)
    ensures (exists j :: 0 <= j < |roots| && a in ActionsOf(roots[j])) ==> TotalPlays(roots, a) >= 1
  {
    if roots != [] {
      var init := roots[..|roots| - 1];
      TotalsBounded(init, a);
      SumsBounded(roots[|roots| - 1], a);
      if exists j :: 0 <= j < |roots| && a in ActionsOf(roots[j]) {
        var j :| 0 <= j < |roots| && a in ActionsOf(roots[j]);
        if j < |roots| - 1 {
          assert roots[j] == init[j];
        }
      }
    }
  }

  /// Every merged entry has a win rate above -1 and a column that some
  /// worker tried at its root.
  lemma MergedRates(roots: seq<seq<ChildStat>>, legal: seq<int>)
    requires forall j :: 0 <= j < |roots| ==> Sampled(roots[j])
    requires forall j, k :: 0 <= j < |roots| && 0 <= k < |roots[j]| ==> roots[j][k].action in legal
    ensures var r := MergeAll([], Gathered(roots));
      && (|r| == 0 <==> forall j :: 0 <= j < |roots| ==> |roots[j]| == 0)
      && forall k :: 0 <= k < |r| ==> Gt(RateAt(r, k), Frac(-1, 1)) && r[k].action in legal
  {
    var r := MergeAll([], Gathered(roots));
    MergedTotals(roots);
    forall k | 0 <= k < |r|
      ensures Gt(RateAt(r, k), Frac(-1, 1)) && r[k].action in legal
    {
      var a := r[k].action;
      assert a in ActionsOf(r);
      var j :| 0 <= j < |roots| && a in ActionsOf(roots[j]);
      var i :| 0 <= i < |roots[j]| && ActionsOf(roots[j])[i] == a;
      TotalsBounded(roots, a);
    }
    if |r| > 0 {
      assert r[0].action in ActionsOf(r);
    }
    if exists j :: 0 <= j < |roots| && |roots[j]| != 0 {
      var j :| 0 <= j < |roots| && |roots[j]| != 0;
      assert roots[j][0].action in ActionsOf(roots[j]);
      assert roots[j][0].action in ActionsOf(r);
    }
  }

  /// The end of `CalculateRow`: `MostSelectedMove` on the merged root. On
  /// counters a worker produces, the result is -1 only when no worker's
  /// root has a child.
  method PickColumn(roots: seq<seq<ChildStat>>, merged: seq<ChildStat>, ghost legal: seq<int>) returns (column: int)
    requires merged == MergeAll([], Gathered(roots))
    requires forall j :: 0 <= j < |roots| ==> Sampled(roots[j])
    requires forall j, k :: 0 <= j < |roots| && 0 <= k < |roots[j]| ==> roots[j][k].action in legal
    requires forall x :: x in legal ==> 0 <= x
    ensures column == -1 <==> forall j :: 0 <= j < |roots| ==> |roots[j]| == 0
    ensures column != -1 ==> column in legal
    ensures column != -1 ==> exists k :: 0 <= k < |merged| && Chosen(merged, k) && column == merged[k].action
  {
    MergedRates(roots, legal);
    column := MostSelectedMove(merged);
    if |merged| > 0 {
      assert Gt(RateAt(merged, 0), Frac(-1, 1));
    }
  }
}
