/**
 Whether a tree the check accepts is supported: every bought node reached along fully ranked nodes. It
 depends on the tree data alone, on whether the data holds a trap that can be paid for.
 */
module TalentSupport {
  import opened IdOrder
  import opened TalentTrees

  ghost predicate Supported(nodes: Nodes, points: map<int, nat>, id: int)
  {
    exists path :: Supports(nodes, points, path, id)
  }

  ghost predicate AllSupported(nodes: Nodes, points: map<int, nat>)
  {
    forall id | id in nodes && Got(points, id) > 0 :: Supported(nodes, points, id)
  }

  // ---------------------------------------------------------------- traps

  /** Fully ranked without a point spent on it. */
  predicate GrantedFull(node: Node)
  {
    node.granted && node.MaxRanks() == 1
  }

  predicate LeadsTo(nodes: Nodes, prior: int, id: int)
  {
    prior in nodes && id in nodes && prior in nodes[id].previous
  }

  /** A node that is not granted, has a prior among the others, and no prior that is full as granted. */
  ghost predicate TrapNode(nodes: Nodes, trap: set<int>, id: int)
  {
    && id in nodes && !nodes[id].granted
    && (exists prior :: prior in trap && LeadsTo(nodes, prior, id))
    && forall prior | LeadsTo(nodes, prior, id) :: !GrantedFull(nodes[prior])
  }

  /** Nodes that lead to each other, none granted, and none entered from a node that is full as granted. */
  ghost predicate Trap(nodes: Nodes, trap: set<int>)
  {
    trap != {} && forall id {:trigger TrapNode(nodes, trap, id)} | id in trap :: TrapNode(nodes, trap, id)
  }

  /** A node outside the trap that leads into it: fully ranked, it would support the trap. */
  ghost predicate Feeds(nodes: Nodes, trap: set<int>, id: int)
  {
    id !in trap && exists next :: next in trap && LeadsTo(nodes, id, next)
  }

  /** The points a node can take without feeding the trap. */
  ghost function Room(nodes: Nodes, trap: set<int>, id: int): int
    requires id in nodes
  {
    nodes[id].MaxRanks() - (if nodes[id].granted then 1 else 0) - (if Feeds(nodes, trap, id) then 1 else 0)
  }

  ghost predicate HasRoom(nodes: Nodes, trap: set<int>, bought: set<int>)
  {
    bought <= nodes.Keys && forall id | id in bought :: Room(nodes, trap, id) >= 1
  }

  /** As many points on each bought node as do not feed the trap. */
  ghost function Filling(nodes: Nodes, trap: set<int>, bought: set<int>): map<int, nat>
    requires HasRoom(nodes, trap, bought)
  {
    map id | id in bought :: Room(nodes, trap, id) as nat
  }

  /** A prior that is fully ranked once the bought nodes are filled. */
  ghost predicate Opens(nodes: Nodes, trap: set<int>, bought: set<int>, prior: int)
    requires prior in nodes
  {
    GrantedFull(nodes[prior]) || (prior in bought && !Feeds(nodes, trap, prior))
  }

  /** A node that can be bought once the others are: one of its priors opens it, and they pay what it requires. */
  ghost predicate Buyable(nodes: Nodes, extraPoints: nat, trap: set<int>, bought: set<int>, id: int)
    requires HasRoom(nodes, trap, bought) && id in nodes
  {
    && (HasPrior(nodes, id) ==> exists prior :: LeadsTo(nodes, prior, id) && Opens(nodes, trap, bought, prior))
    && nodes[id].required <= TreePoints(nodes, Filling(nodes, trap, bought)) + extraPoints
  }

  /**
   A trap that can be bought: among nodes that can be bought before it is supported, it and they meet every
   spent-points requirement. No points are named: it is a condition on the tree data.
   */
  ghost predicate FundedTrap(nodes: Nodes, extraPoints: nat, trap: set<int>, bought: set<int>)
  {
    && Trap(nodes, trap) && trap <= bought && HasRoom(nodes, trap, bought)
    && forall id {:trigger Buyable(nodes, extraPoints, trap, bought, id)} | id in bought ::
         Buyable(nodes, extraPoints, trap, bought, id)
  }

  ghost predicate Trapped(nodes: Nodes, extraPoints: nat)
  {
    exists trap, bought :: FundedTrap(nodes, extraPoints, trap, bought)
  }

  // ---------------------------------------------------------------- a trap is never supported

  /** A path into a trap that nothing feeds lies in the trap all the way back. */
  lemma {:induction false} PathInTrap(
      nodes: Nodes, points: map<int, nat>, trap: set<int>, path: seq<int>, id: int, k: nat)
    requires Trap(nodes, trap) && id in trap && Supports(nodes, points, path, id) && k < |path|
    requires forall p | p in nodes && Feeds(nodes, trap, p) :: !FullyRanked(nodes[p], points)
    ensures path[k] in trap
    decreases |path| - k
  {
    if k < |path| - 1 {
      PathInTrap(nodes, points, trap, path, id, k + 1);
      assert TrapNode(nodes, trap, path[k + 1]);
      assert LeadsTo(nodes, path[k], path[k + 1]);
    }
  }

  lemma InTrap(nodes: Nodes, trap: set<int>, id: int)
    requires Trap(nodes, trap) && id in trap
    ensures id in nodes && !nodes[id].granted && HasPrior(nodes, id)
  {
    assert TrapNode(nodes, trap, id);
  }

  lemma TrapUnsupported(nodes: Nodes, points: map<int, nat>, trap: set<int>, id: int)
    requires Trap(nodes, trap) && id in trap
    requires forall p | p in nodes && Feeds(nodes, trap, p) :: !FullyRanked(nodes[p], points)
    ensures !Supported(nodes, points, id)
  {
    if Supported(nodes, points, id) {
      var path :| Supports(nodes, points, path, id);
      PathInTrap(nodes, points, trap, path, id, 0);
      InTrap(nodes, trap, path[0]);
    }
  }

  lemma {:induction false} PointsOverAgree(ids: seq<int>, a: map<int, nat>, b: map<int, nat>)
    requires forall id | id in ids :: Got(a, id) <= Got(b, id)
    ensures PointsOver(ids, a) <= PointsOver(ids, b)
  {
    if ids != [] {
      assert ids[0] in ids && forall id | id in ids[1..] :: id in ids;
      PointsOverAgree(ids[1..], a, b);
    }
  }

  lemma TreePointsGrow(nodes: Nodes, a: map<int, nat>, b: map<int, nat>)
    requires forall id | id in nodes :: Got(a, id) <= Got(b, id)
    ensures TreePoints(nodes, a) <= TreePoints(nodes, b)
  {
    hide Sorted, PointsOver;
    PointsOverAgree(Sorted(nodes.Keys), a, b);
  }

  ghost predicate Filled(nodes: Nodes, trap: set<int>, bought: set<int>, points: map<int, nat>)
  {
    && HasRoom(nodes, trap, bought)
    && forall id | id in nodes :: Got(points, id) == if id in bought then Room(nodes, trap, id) else 0
  }

  /** Points that fill a funded trap are accepted, and no node of the trap is supported. */
  lemma FillingAccepted(
      nodes: Nodes, extraPoints: nat, trap: set<int>, bought: set<int>, points: map<int, nat>)
    requires NodesWellFormed(nodes) && FundedTrap(nodes, extraPoints, trap, bought)
    requires Filled(nodes, trap, bought, points)
    ensures TreeAccepted(nodes, points, extraPoints) && !AllSupported(nodes, points)
  {
    hide TreePoints;
    TreePointsGrow(nodes, Filling(nodes, trap, bought), points);
    forall id | id in nodes
      ensures NodeAccepted(nodes, points, TreePoints(nodes, points) + extraPoints, id)
    {
      if Got(points, id) > 0 {
        assert Buyable(nodes, extraPoints, trap, bought, id);
      }
      if Got(points, id) > 0 && HasPrior(nodes, id) {
        assert Buyable(nodes, extraPoints, trap, bought, id);
        var prior :| LeadsTo(nodes, prior, id) && Opens(nodes, trap, bought, prior);
        assert FullyRanked(nodes[prior], points);
      }
    }
    forall p | p in nodes && Feeds(nodes, trap, p) ensures !FullyRanked(nodes[p], points) {
      var next :| next in trap && LeadsTo(nodes, p, next);
      assert TrapNode(nodes, trap, next);
    }
    var id := SomeMember(trap);
    TrapUnsupported(nodes, points, trap, id);
  }

  // ---------------------------------------------------------------- what is unsupported is a trap

  /** The bought nodes nothing supports. */
  ghost function Unsupported(nodes: Nodes, points: map<int, nat>): set<int>
  {
    set id | id in nodes && Got(points, id) > 0 && !nodes[id].granted && !Supported(nodes, points, id)
  }

  lemma Extended(nodes: Nodes, points: map<int, nat>, prior: int, id: int)
    requires LeadsTo(nodes, prior, id) && FullyRanked(nodes[prior], points)
    requires nodes[prior].granted || Supported(nodes, points, prior)
    ensures Supported(nodes, points, id)
  {
    if nodes[prior].granted {
      assert Supports(nodes, points, [prior, id], id);
    } else {
      var path :| Supports(nodes, points, path, prior);
      ExtendPath(nodes, points, path, prior, id);
    }
  }

  /** A fully ranked prior of an unsupported node is itself unsupported and bought. */
  lemma FullPriorUnsupported(nodes: Nodes, points: map<int, nat>, prior: int, id: int)
    requires NodesWellFormed(nodes) && LeadsTo(nodes, prior, id) && !Supported(nodes, points, id)
    requires FullyRanked(nodes[prior], points)
    ensures prior in Unsupported(nodes, points)
  {
    if nodes[prior].granted || Supported(nodes, points, prior) {
      Extended(nodes, points, prior, id);
    }
  }

  lemma RootSupported(nodes: Nodes, points: map<int, nat>, id: int)
    requires id in nodes && !HasPrior(nodes, id)
    ensures Supported(nodes, points, id)
  {
    assert Supports(nodes, points, [id], id);
  }

  lemma UnsupportedPrior(nodes: Nodes, points: map<int, nat>, extraPoints: nat, id: int) returns (prior: int)
    requires NodesWellFormed(nodes) && TreeAccepted(nodes, points, extraPoints)
    requires id in nodes && Got(points, id) > 0 && !Supported(nodes, points, id)
    ensures LeadsTo(nodes, prior, id) && prior in Unsupported(nodes, points)
  {
    hide TreePoints, Unsupported, Supported;
    if !HasPrior(nodes, id) {
      RootSupported(nodes, points, id);
    }
    prior := FullPrior(nodes, points, TreePoints(nodes, points) + extraPoints, id);
    FullPriorUnsupported(nodes, points, prior, id);
  }

  lemma UnsupportedIsTrap(nodes: Nodes, points: map<int, nat>, extraPoints: nat)
    requires NodesWellFormed(nodes) && TreeAccepted(nodes, points, extraPoints) && !AllSupported(nodes, points)
    ensures Trap(nodes, Unsupported(nodes, points))
  {
    hide TreePoints, TreeAccepted, Supported;
    var trap := Unsupported(nodes, points);
    var first :| first in nodes && Got(points, first) > 0 && !Supported(nodes, points, first);
    var second := UnsupportedPrior(nodes, points, extraPoints, first);
    forall id | id in trap ensures TrapNode(nodes, trap, id) {
      var prior := UnsupportedPrior(nodes, points, extraPoints, id);
      forall other | LeadsTo(nodes, other, id) ensures !GrantedFull(nodes[other]) {
        if GrantedFull(nodes[other]) {
          Extended(nodes, points, other, id);
        }
      }
    }
  }

  /** A node that feeds what is unsupported is not fully ranked. */
  lemma FeederNotFull(nodes: Nodes, points: map<int, nat>, id: int)
    requires NodesWellFormed(nodes) && id in nodes && Feeds(nodes, Unsupported(nodes, points), id)
    ensures !FullyRanked(nodes[id], points)
  {
    hide Supported;
    var next :| next in Unsupported(nodes, points) && LeadsTo(nodes, id, next);
    if FullyRanked(nodes[id], points) {
      FullPriorUnsupported(nodes, points, id, next);
    }
  }

  lemma UnsupportedIsFunded(nodes: Nodes, points: map<int, nat>, extraPoints: nat)
    requires NodesWellFormed(nodes) && TreeAccepted(nodes, points, extraPoints) && !AllSupported(nodes, points)
    ensures FundedTrap(
              nodes, extraPoints, Unsupported(nodes, points), set id | id in nodes && Got(points, id) > 0)
  {
    hide TreePoints, Supported, Feeds, Trap;
    var trap, bought := Unsupported(nodes, points), set id | id in nodes && Got(points, id) > 0;
    UnsupportedIsTrap(nodes, points, extraPoints);
    forall id | id in bought ensures Room(nodes, trap, id) >= Got(points, id) {
      assert NodeAccepted(nodes, points, TreePoints(nodes, points) + extraPoints, id);
      if Feeds(nodes, trap, id) {
        FeederNotFull(nodes, points, id);
      }
    }
    TreePointsGrow(nodes, points, Filling(nodes, trap, bought));
    forall id | id in bought ensures Buyable(nodes, extraPoints, trap, bought, id) {
      assert NodeAccepted(nodes, points, TreePoints(nodes, points) + extraPoints, id);
      if HasPrior(nodes, id) {
        var prior := FullPrior(nodes, points, TreePoints(nodes, points) + extraPoints, id);
        if Feeds(nodes, trap, prior) {
          FeederNotFull(nodes, points, prior);
        }
        assert LeadsTo(nodes, prior, id) && Opens(nodes, trap, bought, prior);
      }
    }
  }

  // ---------------------------------------------------------------- exactly when accepted trees are supported

  /**
   For some extra points, every accepted tree has all its bought nodes supported exactly when the tree data
   holds no trap that can be funded with them.
   */
  lemma SupportedIffUntrapped(nodes: Nodes, extraPoints: nat)
    requires NodesWellFormed(nodes)
    ensures (forall points | TreeAccepted(nodes, points, extraPoints) :: AllSupported(nodes, points))
            <==> !Trapped(nodes, extraPoints)
  {
    hide TreeAccepted, AllSupported, FundedTrap;
    if Trapped(nodes, extraPoints) {
      var trap, bought :| FundedTrap(nodes, extraPoints, trap, bought);
      FundedHasRoom(nodes, extraPoints, trap, bought);
      var points := Filling(nodes, trap, bought);
      FillingAccepted(nodes, extraPoints, trap, bought, points);
    }
    if points: map<int, nat> :| TreeAccepted(nodes, points, extraPoints) && !AllSupported(nodes, points) {
      UnsupportedIsFunded(nodes, points, extraPoints);
    }
  }

  lemma FundedHasRoom(nodes: Nodes, extraPoints: nat, trap: set<int>, bought: set<int>)
    requires FundedTrap(nodes, extraPoints, trap, bought)
    ensures HasRoom(nodes, trap, bought)
  {
  }

  lemma {:induction false} RequirementsBounded(nodes: Nodes, ids: set<int>) returns (bound: nat)
    requires ids <= nodes.Keys
    ensures forall id | id in ids :: nodes[id].required <= bound
  {
    if ids == {} {
      bound := 0;
    } else {
      var id := SomeMember(ids);
      bound := RequirementsBounded(nodes, ids - {id});
      if nodes[id].required > bound {
        bound := nodes[id].required;
      }
    }
  }

  /** With enough extra points every trap is funded. */
  lemma TrapIsFunded(nodes: Nodes, trap: set<int>) returns (extraPoints: nat)
    requires NodesWellFormed(nodes) && Trap(nodes, trap)
    ensures FundedTrap(nodes, extraPoints, trap, trap)
  {
    hide TreePoints;
    forall id | id in trap ensures id in nodes {
      assert TrapNode(nodes, trap, id);
    }
    extraPoints := RequirementsBounded(nodes, trap);
    forall id | id in trap ensures id in nodes && Room(nodes, trap, id) >= 1 {
      assert TrapNode(nodes, trap, id);
    }
    assert HasRoom(nodes, trap, trap);
    forall id | id in trap ensures Buyable(nodes, extraPoints, trap, trap, id) {
      assert TrapNode(nodes, trap, id);
      var prior :| prior in trap && LeadsTo(nodes, prior, id);
      assert LeadsTo(nodes, prior, id) && Opens(nodes, trap, trap, prior);
    }
  }

  /** Whatever the extra points, every accepted tree is supported exactly when the tree data holds no trap. */
  lemma SupportedIffNoTrap(nodes: Nodes)
    requires NodesWellFormed(nodes)
    ensures (forall points, extraPoints: nat | TreeAccepted(nodes, points, extraPoints) :: AllSupported(nodes, points))
            <==> !exists trap :: Trap(nodes, trap)
  {
    hide TreeAccepted, AllSupported, FundedTrap, Trap;
    if trap :| Trap(nodes, trap) {
      var extraPoints := TrapIsFunded(nodes, trap);
      SupportedIffUntrapped(nodes, extraPoints);
      assert Trapped(nodes, extraPoints);
    }
    if points: map<int, nat>, extraPoints: nat :| TreeAccepted(nodes, points, extraPoints) && !AllSupported(nodes, points) {
      UnsupportedIsTrap(nodes, points, extraPoints);
    }
  }

  /**
   Over a tree without funded traps the check accepts exactly the builds in which no bought node has more
   ranks than it holds, every spent-points requirement is met, and every bought node is supported.
   */
  lemma AcceptedIffSupported(nodes: Nodes, points: map<int, nat>, extraPoints: nat)
    requires NodesWellFormed(nodes) && !Trapped(nodes, extraPoints)
    ensures TreeAccepted(nodes, points, extraPoints) <==>
            forall id | id in nodes :: NodeSupported(nodes, points, TreePoints(nodes, points) + extraPoints, id)
  {
    hide TreePoints, Supports, Trapped;
    var total := TreePoints(nodes, points) + extraPoints;
    SupportedIffUntrapped(nodes, extraPoints);
    if TreeAccepted(nodes, points, extraPoints) {
      forall id | id in nodes ensures NodeSupported(nodes, points, total, id) {
        assert NodeAccepted(nodes, points, total, id);
        assert Got(points, id) > 0 ==> Supported(nodes, points, id);
      }
    }
    if forall id | id in nodes :: NodeSupported(nodes, points, total, id) {
      forall id | id in nodes ensures NodeAccepted(nodes, points, total, id) {
        assert NodeSupported(nodes, points, total, id);
        if Got(points, id) > 0 {
          var path :| Supports(nodes, points, path, id);
          PathEndsOnFullPrior(nodes, points, path, id);
        }
      }
    }
  }

  // ---------------------------------------------------------------- cycles

  /** The `previousNodeIds` graph has no cycle: every edge goes up a level. */
  ghost predicate Levels(nodes: Nodes, level: int -> nat)
  {
    forall id, prior | id in nodes && prior in nodes[id].previous && prior in nodes :: level(prior) < level(id)
  }

  /** Data without cycles holds no trap: every trap goes round. */
  lemma {:induction false} AcyclicHasNoTrap(nodes: Nodes, level: int -> nat, trap: set<int>, id: int)
    requires Levels(nodes, level) && id in trap
    ensures !Trap(nodes, trap)
    decreases level(id)
  {
    if Trap(nodes, trap) {
      assert TrapNode(nodes, trap, id);
      var prior :| prior in trap && LeadsTo(nodes, prior, id);
      AcyclicHasNoTrap(nodes, level, trap, prior);
    }
  }

  lemma AcyclicIsUntrapped(nodes: Nodes, level: int -> nat, extraPoints: nat)
    requires Levels(nodes, level)
    ensures !Trapped(nodes, extraPoints)
  {
    if trap, bought :| FundedTrap(nodes, extraPoints, trap, bought) {
      var id := SomeMember(trap);
      AcyclicHasNoTrap(nodes, level, trap, id);
    }
  }

  /** Two nodes that lead only to each other. */
  const CYCLE: Nodes := map[1 := Node(1, Ranked, 1, false, [2], 0), 2 := Node(2, Ranked, 1, false, [1], 0)]

  lemma CycleHasPriors(points: map<int, nat>)
    requires points == map[1 := 1, 2 := 1]
    ensures NodesWellFormed(CYCLE)
    ensures HasPrior(CYCLE, 1) && HasPrior(CYCLE, 2)
    ensures HasFullPrior(CYCLE, points, 1) && HasFullPrior(CYCLE, points, 2)
  {
    assert 2 in CYCLE[1].previous && FullyRanked(CYCLE[2], points);
    assert 1 in CYCLE[2].previous && FullyRanked(CYCLE[1], points);
  }

  /** Without acyclicity the check is weaker: a bought cycle passes it with no support. */
  lemma CycleIsAcceptedUnsupported(points: map<int, nat>, path: seq<int>)
    requires points == map[1 := 1, 2 := 1]
    ensures TreeAccepted(CYCLE, points, 0)
    ensures !Supports(CYCLE, points, path, 1)
  {
    hide TreePoints;
    CycleHasPriors(points);
    if |path| > 0 && path[0] in CYCLE {
      assert HasPrior(CYCLE, path[0]) && !CYCLE[path[0]].granted;
    }
  }
}
