/** Which hashes convert: those whose build is supported, exactly as far as the tree data holds no trap. */
module SupportedBuilds {
  import opened Wrappers
  import opened IdOrder
  import opened BitCodec
  import opened TalentTrees
  import opened TalentSupport
  import opened TalentHash
  import opened TalentExport
  import opened TalentMeaning

  ghost predicate TreeSupported(nodes: Nodes, points: map<int, nat>, extraPoints: nat)
  {
    forall id | id in nodes :: NodeSupported(nodes, points, TreePoints(nodes, points) + extraPoints, id)
  }

  /** In all three trees of a hash every bought node is supported; apex ranks count as points of the spec tree. */
  ghost predicate BuildSupported(spec: SpecTree, plan: Plan)
  {
    && TreeSupported(spec.classNodes, plan.spending.points, 0)
    && TreeSupported(spec.specNodes, plan.spending.points, plan.apexRanks)
    && TreeSupported(HeroNodesOf(spec, plan.hero), plan.spending.points, 0)
  }

  /** No tree of the spec holds a trap that a hash can pay for; the spec tree has the apex ranks besides. */
  ghost predicate Untrapped(spec: SpecTree)
  {
    && !Trapped(spec.classNodes, 0) && !Trapped(spec.specNodes, Sum(spec.apexSpellRanks))
    && !Trapped(spec.heroLeft, 0) && !Trapped(spec.heroRight, 0)
  }

  // ---------------------------------------------------------------- untrapped data

  lemma TreesWellFormed(spec: SpecTree, hero: Option<Bit>)
    requires SpecWellFormed(spec)
    ensures NodesWellFormed(spec.classNodes) && NodesWellFormed(spec.specNodes)
    ensures NodesWellFormed(HeroNodesOf(spec, hero))
  {
  }

  lemma FewerPointsFundLess(nodes: Nodes, fewer: nat, more: nat)
    requires fewer <= more && Trapped(nodes, fewer)
    ensures Trapped(nodes, more)
  {
    hide TreePoints, Trap, Opens, Room;
    var trap, bought :| FundedTrap(nodes, fewer, trap, bought);
    forall id | id in bought ensures Buyable(nodes, more, trap, bought, id) {
      assert Buyable(nodes, fewer, trap, bought, id);
    }
    assert FundedTrap(nodes, more, trap, bought);
  }

  lemma EmptyUntrapped(extraPoints: nat)
    ensures !Trapped(map[], extraPoints)
  {
    if trap, bought :| FundedTrap(map[], extraPoints, trap, bought) {
      var id := SomeMember(trap);
      InTrap(map[], trap, id);
    }
  }

  lemma TreeAcceptedIffSupported(nodes: Nodes, points: map<int, nat>, extraPoints: nat)
    requires NodesWellFormed(nodes) && !Trapped(nodes, extraPoints)
    ensures TreeAccepted(nodes, points, extraPoints) <==> TreeSupported(nodes, points, extraPoints)
  {
    hide TreeAccepted, NodeSupported, Trapped, NodesWellFormed;
    AcceptedIffSupported(nodes, points, extraPoints);
  }

  lemma AcceptedIffBuildSupported(spec: SpecTree, contents: Contents)
    requires SpecWellFormed(spec) && Untrapped(spec)
    ensures Accepted(spec, PlanOf(spec, contents)) <==> BuildSupported(spec, PlanOf(spec, contents))
  {
    hide SpecWellFormed, MergedNodes, TreeAccepted, TreeSupported, Spend, Sum, NodesWellFormed, Trapped;
    var plan := PlanOf(spec, contents);
    TreesWellFormed(spec, plan.hero);
    if Trapped(spec.specNodes, plan.apexRanks) {
      FewerPointsFundLess(spec.specNodes, plan.apexRanks, Sum(spec.apexSpellRanks));
    }
    EmptyUntrapped(0);
    TreeAcceptedIffSupported(spec.classNodes, plan.spending.points, 0);
    TreeAcceptedIffSupported(spec.specNodes, plan.spending.points, plan.apexRanks);
    TreeAcceptedIffSupported(HeroNodesOf(spec, plan.hero), plan.spending.points, 0);
  }

  lemma ListedSpecWellFormed(tree: ClassTree, specId: nat)
    requires WellFormed(tree) && SpecById(tree.specs, specId).Ok?
    ensures SpecWellFormed(SpecById(tree.specs, specId).value)
  {
  }

  lemma ExportsIffAccepted(tree: ClassTree, contents: Contents)
    requires SpecById(tree.specs, contents.specId).Ok?
    ensures ExportContents(tree, contents).Ok? <==>
            var spec := SpecById(tree.specs, contents.specId).value;
            Accepted(spec, PlanOf(spec, contents))
  {
    hide ExportText, PlanOf, AllNodeIds;
  }

  /** Over data without funded traps a hash converts exactly when the build it spells is supported in all three trees. */
  lemma ConvertsIffSupported(tree: ClassTree, contents: Contents, pvp: string, older: bool)
    requires WellFormed(tree) && ValidContents(tree, contents) && '-' !in pvp
    requires older ==> contents.apexEntries == 0
    requires Indexable(SpecById(tree.specs, contents.specId).value)
    requires Untrapped(SpecById(tree.specs, contents.specId).value)
    ensures var spec := SpecById(tree.specs, contents.specId).value;
            ExportCode(EncodeHash(tree, contents, pvp, older), tree).Ok? <==>
            BuildSupported(spec, PlanOf(spec, contents))
  {
    hide EncodeHash, Indexable, ExportCode, ExportContents, BuildSupported, Untrapped, Means, Decode, PlanOf, Accepted,
      WellFormed, FitsSpec, SpecWellFormed, AllNodeIds;
    var spec := SpecById(tree.specs, contents.specId).value;
    EncodeConvertDecode(tree, contents, pvp, older);
    ExportsIffAccepted(tree, contents);
    ListedSpecWellFormed(tree, contents.specId);
    AcceptedIffBuildSupported(spec, contents);
  }

  // ---------------------------------------------------------------- a hash that buys a trap

  function Times(p: Purchase, n: nat): seq<Purchase>
  {
    if n == 0 then [] else [p] + Times(p, n - 1)
  }

  lemma {:induction false} TimesCount(p: Purchase, n: nat, id: int)
    ensures Count(Times(p, n), id) == if p.node == id then n else 0
    ensures forall q | q in Times(p, n) :: q == p
  {
    if n > 0 {
      TimesCount(p, n - 1, id);
      assert Times(p, n)[1..] == Times(p, n - 1);
    }
  }

  function PurchaseOf(nodes: Nodes, id: int): Purchase
    requires id in nodes
  {
    Purchase(id, if nodes[id].kind.Choice? then Some(0) else None)
  }

  /** Purchases that put the given points in some nodes. */
  function BuysFor(nodes: Nodes, ids: seq<int>, points: map<int, nat>): seq<Purchase>
    requires forall id | id in ids :: id in nodes
  {
    if ids == [] then []
    else
      assert ids[0] in ids && forall id | id in ids[1..] :: id in ids;
      Times(PurchaseOf(nodes, ids[0]), Got(points, ids[0])) + BuysFor(nodes, ids[1..], points)
  }

  lemma {:induction false} BuysForCount(nodes: Nodes, ids: seq<int>, points: map<int, nat>, id: int)
    requires Ascending(ids) && forall other | other in ids :: other in nodes
    ensures Count(BuysFor(nodes, ids, points), id) == if id in ids then Got(points, id) else 0
  {
    if ids != [] {
      hide Count, Times;
      assert ids[0] in ids && forall other | other in ids[1..] :: other in ids;
      BuysForCount(nodes, ids[1..], points, id);
      var head := Times(PurchaseOf(nodes, ids[0]), Got(points, ids[0]));
      TimesCount(PurchaseOf(nodes, ids[0]), Got(points, ids[0]), id);
      CountConcat(head, BuysFor(nodes, ids[1..], points), id);
      assert ids == [ids[0]] + ids[1..];
      assert ids[0] !in ids[1..];
    } else {
      NothingCounted(id);
    }
  }

  lemma NothingCounted(id: int)
    ensures Count([], id) == 0
  {
  }

  lemma {:induction false} BuysForValid(nodes: Nodes, ids: seq<int>, points: map<int, nat>)
    requires forall id | id in ids :: id in nodes
    ensures ValidBuys(nodes, BuysFor(nodes, ids, points))
  {
    if ids != [] {
      hide Times;
      assert ids[0] in ids && forall id | id in ids[1..] :: id in ids;
      BuysForValid(nodes, ids[1..], points);
      var head := Times(PurchaseOf(nodes, ids[0]), Got(points, ids[0]));
      TimesCount(PurchaseOf(nodes, ids[0]), Got(points, ids[0]), 0);
      assert forall k | 0 <= k < |head| :: head[k] in head;
    }
  }

  /** Purchases that fill a trap, and buy nothing outside its tree. */
  lemma TrapBuys(nodes: Nodes, extraPoints: nat, trap: set<int>, bought: set<int>) returns (buys: seq<Purchase>)
    requires FundedTrap(nodes, extraPoints, trap, bought)
    ensures ValidBuys(nodes, buys) && HasRoom(nodes, trap, bought)
    ensures forall id :: Count(buys, id) == if id in bought then Room(nodes, trap, id) else 0
  {
    hide Count, BuysFor, Sorted, Room, ValidBuys, Trap, Buyable;
    var points, ids := Filling(nodes, trap, bought), Sorted(bought);
    assert forall id :: id in ids <==> id in bought;
    buys := BuysFor(nodes, ids, points);
    BuysForValid(nodes, ids, points);
    forall id ensures Count(buys, id) == if id in bought then Room(nodes, trap, id) else 0 {
      BuysForCount(nodes, ids, points, id);
    }
  }

  lemma PointsOfBuys(buys: seq<Purchase>, id: int)
    ensures Got(Spend(NOTHING_SPENT, buys).points, id) == Count(buys, id)
  {
    hide Spend, Count;
    SpendPoints(NOTHING_SPENT, buys, id);
  }

  lemma NothingBoughtAccepted(nodes: Nodes, points: map<int, nat>, extraPoints: nat)
    requires forall id | id in nodes :: Got(points, id) == 0
    ensures TreeAccepted(nodes, points, extraPoints)
  {
    hide TreePoints;
  }

  lemma TreeSupportedMeans(nodes: Nodes, points: map<int, nat>, extraPoints: nat)
    requires TreeSupported(nodes, points, extraPoints)
    ensures AllSupported(nodes, points)
  {
    hide TreePoints, Supports;
    forall id | id in nodes && Got(points, id) > 0 ensures Supported(nodes, points, id) {
      assert NodeSupported(nodes, points, TreePoints(nodes, points) + extraPoints, id);
    }
  }

  /** The points of purchases that fill a trap are accepted by its tree, which they leave unsupported. */
  lemma TrapTree(
      nodes: Nodes, extraPoints: nat, trap: set<int>, bought: set<int>, buys: seq<Purchase>, points: map<int, nat>)
    requires NodesWellFormed(nodes) && FundedTrap(nodes, extraPoints, trap, bought) && HasRoom(nodes, trap, bought)
    requires forall id :: Count(buys, id) == if id in bought then Room(nodes, trap, id) else 0
    requires points == Spend(NOTHING_SPENT, buys).points
    ensures TreeAccepted(nodes, points, extraPoints) && !TreeSupported(nodes, points, extraPoints)
    ensures forall id | id !in nodes :: Got(points, id) == 0
  {
    hide TreeAccepted, TreeSupported, AllSupported, FundedTrap, Spend, Count, Room;
    forall id ensures Got(points, id) == if id in bought then Room(nodes, trap, id) else 0 {
      PointsOfBuys(buys, id);
    }
    FillingAccepted(nodes, extraPoints, trap, bought, points);
    if TreeSupported(nodes, points, extraPoints) {
      TreeSupportedMeans(nodes, points, extraPoints);
    }
  }

  lemma OneTreeBuys(contents: Contents, buys: seq<Purchase>)
    requires contents.classBuys + contents.specBuys + contents.HeroBuys() == buys
    ensures AllBuys(contents) == buys
  {
  }

  ghost predicate ConvertsUnsupported(spec: SpecTree, contents: Contents)
  {
    && FitsSpec(spec, contents)
    && Accepted(spec, PlanOf(spec, contents)) && !BuildSupported(spec, PlanOf(spec, contents))
  }

  lemma ClassTrapConverts(spec: SpecTree) returns (contents: Contents)
    requires SpecWellFormed(spec) && Trapped(spec.classNodes, 0)
    ensures ConvertsUnsupported(spec, contents) && contents.specId == spec.id
  {
    hide TreeAccepted, TreeSupported, FundedTrap, HasRoom, Spend, Count, Room, NodesWellFormed, ApexRanks, MergedNodes;
    var nodes := spec.classNodes;
    var trap, bought :| FundedTrap(nodes, 0, trap, bought);
    var buys := TrapBuys(nodes, 0, trap, bought);
    contents := Contents(spec.id, buys, [], 0, None);
    OneTreeBuys(contents, buys);
    var points := Spend(NOTHING_SPENT, buys).points;
    TrapTree(nodes, 0, trap, bought, buys, points);
    NothingBoughtAccepted(spec.specNodes, points, ApexRanks(spec, 0));
    NothingBoughtAccepted(map[], points, 0);
  }

  lemma SpecTrapConverts(spec: SpecTree) returns (contents: Contents)
    requires SpecWellFormed(spec) && Trapped(spec.specNodes, Sum(spec.apexSpellRanks))
    ensures ConvertsUnsupported(spec, contents) && contents.specId == spec.id
  {
    hide TreeAccepted, TreeSupported, FundedTrap, HasRoom, Spend, Count, Room, NodesWellFormed, Sum, MergedNodes;
    var nodes, apex := spec.specNodes, Sum(spec.apexSpellRanks);
    var trap, bought :| FundedTrap(nodes, apex, trap, bought);
    var buys := TrapBuys(nodes, apex, trap, bought);
    contents := Contents(spec.id, [], buys, apex, None);
    assert [] + buys + [] == buys;
    OneTreeBuys(contents, buys);
    var points := Spend(NOTHING_SPENT, buys).points;
    TrapTree(nodes, apex, trap, bought, buys, points);
    NothingBoughtAccepted(spec.classNodes, points, 0);
    NothingBoughtAccepted(map[], points, 0);
  }

  lemma HeroTrapConverts(spec: SpecTree, side: Bit) returns (contents: Contents)
    requires SpecWellFormed(spec) && Trapped(spec.HeroNodes(side), 0)
    ensures ConvertsUnsupported(spec, contents) && contents.specId == spec.id
  {
    hide TreeAccepted, TreeSupported, FundedTrap, HasRoom, Spend, Count, Room, NodesWellFormed, ApexRanks, MergedNodes;
    var nodes := spec.HeroNodes(side);
    var trap, bought :| FundedTrap(nodes, 0, trap, bought);
    var buys := TrapBuys(nodes, 0, trap, bought);
    contents := Contents(spec.id, [], [], 0, Some(HeroPick(side, buys)));
    assert [] + [] + buys == buys;
    OneTreeBuys(contents, buys);
    var points := Spend(NOTHING_SPENT, buys).points;
    TrapTree(nodes, 0, trap, bought, buys, points);
    NothingBoughtAccepted(spec.classNodes, points, 0);
    NothingBoughtAccepted(spec.specNodes, points, ApexRanks(spec, 0));
  }

  // ---------------------------------------------------------------- exactly when converted builds are supported

  lemma SomeTrapConverts(spec: SpecTree) returns (contents: Contents)
    requires SpecWellFormed(spec) && !Untrapped(spec)
    ensures ConvertsUnsupported(spec, contents) && contents.specId == spec.id
  {
    hide SpecWellFormed, Trapped, ConvertsUnsupported, Sum;
    if Trapped(spec.classNodes, 0) {
      contents := ClassTrapConverts(spec);
    } else if Trapped(spec.specNodes, Sum(spec.apexSpellRanks)) {
      contents := SpecTrapConverts(spec);
    } else if Trapped(spec.heroLeft, 0) {
      contents := HeroTrapConverts(spec, 0);
    } else {
      contents := HeroTrapConverts(spec, 1);
    }
  }

  ghost predicate SupportedCode(code: string, tree: ClassTree, specId: nat)
  {
    var contents := ReadContents(code, tree);
    var spec := SpecById(tree.specs, specId);
    contents.Ok? && contents.value.specId == specId && spec.Ok? && ExportCode(code, tree).Ok? ==>
      BuildSupported(spec.value, PlanOf(spec.value, contents.value))
  }

  /**
   Every hash of a spec that converts spells a supported build exactly when no tree of the spec holds a trap
   a hash can pay for: a condition on the tree data.
   */
  lemma ConvertedBuildsSupportedIff(tree: ClassTree, specId: nat)
    requires WellFormed(tree) && specId < 4096 && SpecById(tree.specs, specId).Ok?
    requires Indexable(SpecById(tree.specs, specId).value)
    ensures (forall code :: SupportedCode(code, tree, specId)) <==> Untrapped(SpecById(tree.specs, specId).value)
  {
    hide WellFormed, Indexable, Untrapped, SupportedCode;
    var spec := SpecById(tree.specs, specId).value;
    ListedSpecWellFormed(tree, specId);
    if Untrapped(spec) {
      forall code ensures SupportedCode(code, tree, specId) {
        UntrappedSupports(code, tree, specId);
      }
    } else {
      var contents := SomeTrapConverts(spec);
      var code := TrapCode(tree, spec, contents);
    }
  }

  lemma UntrappedSupports(code: string, tree: ClassTree, specId: nat)
    requires WellFormed(tree) && SpecById(tree.specs, specId).Ok? && Untrapped(SpecById(tree.specs, specId).value)
    ensures SupportedCode(code, tree, specId)
  {
    hide WellFormed, Untrapped, BuildSupported, ReadContents, ExportContents, Accepted, PlanOf, SpecWellFormed;
    if ReadContents(code, tree).Ok? && ReadContents(code, tree).value.specId == specId && ExportCode(code, tree).Ok? {
      var contents := ReadContents(code, tree).value;
      ListedSpecWellFormed(tree, specId);
      ExportsIffAccepted(tree, contents);
      AcceptedIffBuildSupported(SpecById(tree.specs, specId).value, contents);
    }
  }

  /** The reference hash of a converting unsupported build. */
  lemma TrapCode(tree: ClassTree, spec: SpecTree, contents: Contents) returns (code: string)
    requires WellFormed(tree) && contents.specId < 4096 && SpecById(tree.specs, contents.specId) == Ok(spec)
    requires Indexable(spec) && ConvertsUnsupported(spec, contents)
    ensures !SupportedCode(code, tree, contents.specId)
  {
    hide WellFormed, Indexable, BuildSupported, ReadContents, ExportContents, Accepted, PlanOf, EncodeHash, FitsSpec;
    code := EncodeHash(tree, contents, "", false);
    ReadEncodedHash(tree, contents, "", false);
    ExportsIffAccepted(tree, contents);
  }
}
