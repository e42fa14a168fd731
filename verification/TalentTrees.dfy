/**
 The calculator's tree data, the points a hash spends on it, and the check that refuses a build the
 game would not load.
 */
module TalentTrees {
  import opened Wrappers
  import opened IdOrder
  import opened BitCodec

  // ---------------------------------------------------------------- tree data

  datatype NodeKind = Choice | Ranked

  /** `spellRanks` is the first spell's `maxRanks`; `granted` is `alreadyMaxedOut`. */
  datatype Node = Node(id: int, kind: NodeKind, spellRanks: nat, granted: bool, previous: seq<int>, required: int)
  {
    function MaxRanks(): nat
    {
      if kind.Choice? then 1 else spellRanks
    }
  }

  type Nodes = map<int, Node>

  datatype SpecTree = SpecTree(
    id: nat, classNodes: Nodes, specNodes: Nodes, heroLeft: Nodes, heroRight: Nodes,
    heroMetaId: int, apexId: int, apexSpellRanks: seq<nat>)
  {
    function HeroNodes(side: Bit): Nodes
    {
      if side != 0 then heroRight else heroLeft
    }
  }

  datatype ClassTree = ClassTree(unused: seq<int>, specs: seq<SpecTree>)

  ghost predicate FirstSpec(specs: seq<SpecTree>, id: nat, spec: SpecTree)
  {
    exists k :: 0 <= k < |specs| && specs[k] == spec && spec.id == id && forall j | 0 <= j < k :: specs[j].id != id
  }

  /** The first spec with that id, as the original's `next` over the specs finds it. */
  function SpecById(specs: seq<SpecTree>, id: nat): (found: Result<SpecTree>)
    ensures found.Ok? ==> FirstSpec(specs, id, found.value)
    ensures found.Rejected? ==> forall spec | spec in specs :: spec.id != id
  {
    if specs == [] then Rejected
    else if specs[0].id == id then
      assert FirstSpec(specs, id, specs[0]) by { assert specs[0].id == id; }
      Ok(specs[0])
    else
      var later := SpecById(specs[1..], id);
      assert later.Ok? ==> FirstSpec(specs, id, later.value) by {
        if k :| later.Ok? && 0 <= k < |specs[1..]| && specs[1..][k] == later.value
                && forall j | 0 <= j < k :: specs[1..][j].id != id {
          assert specs[k + 1] == later.value;
          assert forall j | 0 < j < k + 1 :: specs[j] == specs[1..][j - 1];
        }
      }
      assert forall spec | spec in specs :: spec == specs[0] || spec in specs[1..];
      later
  }

  /** A node sits under its own id, and its ranks fit the six bits of a partial record. */
  ghost predicate NodesWellFormed(nodes: Nodes)
  {
    forall id | id in nodes :: nodes[id].id == id && 1 <= nodes[id].MaxRanks() <= 64
  }

  ghost predicate SpecWellFormed(spec: SpecTree)
  {
    && NodesWellFormed(spec.classNodes) && NodesWellFormed(spec.specNodes)
    && NodesWellFormed(spec.heroLeft) && NodesWellFormed(spec.heroRight)
    && (spec.classNodes.Keys !! spec.specNodes.Keys !! spec.heroLeft.Keys !! spec.heroRight.Keys
        !! {spec.heroMetaId} !! {spec.apexId})
  }

  ghost predicate WellFormed(tree: ClassTree)
  {
    forall spec | spec in tree.specs :: SpecWellFormed(spec)
  }

  // ---------------------------------------------------------------- spending

  /** One bought point: the node, and the entry when the node is a choice. */
  datatype Purchase = Purchase(node: int, entry: Option<Bit>)

  /** The value of the mutable `Spent` record. */
  datatype Spending = Spending(points: map<int, nat>, choices: map<int, Bit>)

  const NOTHING_SPENT := Spending(map[], map[])

  class Spent {
    var points: map<int, nat>
    var choices: map<int, Bit>

    constructor ()
      ensures Value() == NOTHING_SPENT
    {
      points, choices := map[], map[];
    }

    function Value(): Spending
      reads this
    {
      Spending(points, choices)
    }

    method Add(purchase: Purchase)
      modifies this
      ensures Value() == Buy(old(Value()), purchase)
    {
      if purchase.entry.Some? {
        choices := choices[purchase.node := purchase.entry.value];
      }
      points := points[purchase.node := Got(points, purchase.node) + 1];
    }
  }

  function Got(points: map<int, nat>, id: int): nat
  {
    if id in points then points[id] else 0
  }

  function Buy(spending: Spending, purchase: Purchase): Spending
  {
    Spending(
      spending.points[purchase.node := Got(spending.points, purchase.node) + 1],
      if purchase.entry.Some? then spending.choices[purchase.node := purchase.entry.value] else spending.choices)
  }

  function Spend(spending: Spending, buys: seq<Purchase>): Spending
    decreases |buys|
  {
    if buys == [] then spending else Spend(Buy(spending, buys[0]), buys[1..])
  }

  /** How many points a purchase list puts in a node. */
  function Count(buys: seq<Purchase>, id: int): nat
  {
    if buys == [] then 0 else (if buys[0].node == id then 1 else 0) + Count(buys[1..], id)
  }

  lemma {:induction false} SpendConcat(spending: Spending, a: seq<Purchase>, b: seq<Purchase>)
    ensures Spend(spending, a + b) == Spend(Spend(spending, a), b)
    decreases |a|
  {
    if a == [] {
      assert a + b == b;
    } else {
      SpendConcat(Buy(spending, a[0]), a[1..], b);
      assert (a + b)[1..] == a[1..] + b;
    }
  }

  lemma {:induction false} CountConcat(a: seq<Purchase>, b: seq<Purchase>, id: int)
    ensures Count(a + b, id) == Count(a, id) + Count(b, id)
  {
    if a == [] {
      assert a + b == b;
    } else {
      CountConcat(a[1..], b, id);
      assert (a + b)[1..] == a[1..] + b;
    }
  }

  lemma {:induction false} CountPositive(buys: seq<Purchase>, id: int)
    ensures Count(buys, id) > 0 <==> exists p :: p in buys && p.node == id
  {
    if buys != [] {
      CountPositive(buys[1..], id);
      assert buys == [buys[0]] + buys[1..];
      if buys[0].node == id {
        assert buys[0] in buys;
      }
    }
  }

  /** A node's points are the purchases that name it; the record holds no other nodes. */
  lemma {:induction false} SpendPoints(spending: Spending, buys: seq<Purchase>, id: int)
    ensures Got(Spend(spending, buys).points, id) == Got(spending.points, id) + Count(buys, id)
    ensures id in Spend(spending, buys).points <==> id in spending.points || Count(buys, id) > 0
    decreases |buys|
  {
    if buys != [] {
      SpendPoints(Buy(spending, buys[0]), buys[1..], id);
    }
  }

  /** The entry kept for a node is the one of its last purchase that names an entry. */
  function LastEntry(buys: seq<Purchase>, id: int): Option<Bit>
  {
    if buys == [] then None
    else
      var later := LastEntry(buys[1..], id);
      if later.Some? then later
      else if buys[0].node == id then buys[0].entry
      else None
  }

  lemma {:induction false} SpendChoices(spending: Spending, buys: seq<Purchase>, id: int)
    ensures var last := LastEntry(buys, id);
            var choices := Spend(spending, buys).choices;
            if last.Some? then id in choices && choices[id] == last.value
            else (id in choices <==> id in spending.choices)
                 && (id in choices ==> choices[id] == spending.choices[id])
    decreases |buys|
  {
    if buys != [] {
      SpendChoices(Buy(spending, buys[0]), buys[1..], id);
    }
  }

  lemma {:induction false} LastEntryAmong(buys: seq<Purchase>, id: int)
    ensures LastEntry(buys, id).Some? ==> Purchase(id, LastEntry(buys, id)) in buys
    ensures LastEntry(buys, id).None? ==> forall p | p in buys && p.node == id :: p.entry.None?
  {
    if buys != [] {
      LastEntryAmong(buys[1..], id);
      assert buys == [buys[0]] + buys[1..];
    }
  }

  /** With one purchase of a node, that purchase is the one kept. */
  lemma {:induction false} SinglePurchase(buys: seq<Purchase>, p: Purchase, q: Purchase)
    requires p in buys && q in buys && p.node == q.node && Count(buys, p.node) == 1
    ensures p == q
  {
    var rest := buys[1..];
    assert buys == [buys[0]] + rest;
    if buys[0].node == p.node {
      CountPositive(rest, p.node);
    } else {
      SinglePurchase(rest, p, q);
    }
  }

  // ---------------------------------------------------------------- order of purchases

  function Without(buys: seq<Purchase>, k: nat): seq<Purchase>
    requires k < |buys|
  {
    buys[..k] + buys[k + 1..]
  }

  lemma WithoutOne(buys: seq<Purchase>, k: nat, id: int)
    requires k < |buys|
    ensures multiset(Without(buys, k)) == multiset(buys) - multiset{buys[k]}
    ensures Count(buys, id) == Count(Without(buys, k), id) + Count([buys[k]], id)
  {
    assert buys == buys[..k] + ([buys[k]] + buys[k + 1..]);
    CountConcat(buys[..k], [buys[k]] + buys[k + 1..], id);
    CountConcat([buys[k]], buys[k + 1..], id);
    CountConcat(buys[..k], buys[k + 1..], id);
  }

  lemma {:induction false} CountOfPermutation(a: seq<Purchase>, b: seq<Purchase>, id: int)
    requires multiset(a) == multiset(b)
    ensures Count(a, id) == Count(b, id)
    decreases |a|
  {
    if a == [] {
      assert |b| == |multiset(b)| == 0;
    } else {
      assert a[0] in multiset(b);
      var k :| 0 <= k < |b| && b[k] == a[0];
      WithoutOne(a, 0, id);
      WithoutOne(b, k, id);
      CountOfPermutation(Without(a, 0), Without(b, k), id);
    }
  }

  // ---------------------------------------------------------------- the check

  function Ranks(node: Node, points: map<int, nat>): nat
  {
    Got(points, node.id) + if node.granted then 1 else 0
  }

  predicate FullyRanked(node: Node, points: map<int, nat>)
  {
    Ranks(node, points) >= node.MaxRanks()
  }

  function PointsOver(ids: seq<int>, points: map<int, nat>): nat
  {
    if ids == [] then 0 else Got(points, ids[0]) + PointsOver(ids[1..], points)
  }

  function TreePoints(nodes: Nodes, points: map<int, nat>): nat
  {
    PointsOver(Sorted(nodes.Keys), points)
  }

  ghost predicate HasPrior(nodes: Nodes, id: int)
    requires id in nodes
  {
    exists prior :: prior in nodes[id].previous && prior in nodes
  }

  ghost predicate HasFullPrior(nodes: Nodes, points: map<int, nat>, id: int)
    requires id in nodes
  {
    exists prior :: prior in nodes[id].previous && prior in nodes && FullyRanked(nodes[prior], points)
  }

  ghost predicate NodeAccepted(nodes: Nodes, points: map<int, nat>, treePoints: nat, id: int)
    requires id in nodes
  {
    Got(points, id) > 0 ==>
      && Ranks(nodes[id], points) <= nodes[id].MaxRanks()
      && (HasPrior(nodes, id) ==> HasFullPrior(nodes, points, id))
      && nodes[id].required <= treePoints
  }

  ghost predicate TreeAccepted(nodes: Nodes, points: map<int, nat>, extraPoints: nat)
  {
    forall id | id in nodes :: NodeAccepted(nodes, points, TreePoints(nodes, points) + extraPoints, id)
  }

  method SumPoints(nodes: Nodes, spent: Spent) returns (total: nat)
    ensures total == TreePoints(nodes, spent.points)
  {
    var ids := Sorted(nodes.Keys);
    total := 0;
    for i := 0 to |ids|
      invariant total + PointsOver(ids[i..], spent.points) == PointsOver(ids, spent.points)
    {
      total := total + Got(spent.points, ids[i]);
    }
  }

  method PriorState(nodes: Nodes, spent: Spent, node: Node) returns (any: bool, anyFull: bool)
    ensures any <==> exists prior :: prior in node.previous && prior in nodes
    ensures anyFull <==>
            exists prior :: prior in node.previous && prior in nodes && FullyRanked(nodes[prior], spent.points)
  {
    any, anyFull := false, false;
    for i := 0 to |node.previous|
      invariant any <==> exists prior :: prior in node.previous[..i] && prior in nodes
      invariant anyFull <==>
        exists prior :: prior in node.previous[..i] && prior in nodes && FullyRanked(nodes[prior], spent.points)
    {
      var prior := node.previous[i];
      assert node.previous[..i + 1] == node.previous[..i] + [prior];
      if prior in nodes {
        any := true;
        anyFull := anyFull || FullyRanked(nodes[prior], spent.points);
      }
    }
    assert node.previous[..|node.previous|] == node.previous;
  }

  method CheckNode(nodes: Nodes, spent: Spent, treePoints: nat, id: int) returns (ok: bool)
    requires id in nodes
    ensures ok == NodeAccepted(nodes, spent.points, treePoints, id)
  {
    var node := nodes[id];
    if Got(spent.points, id) == 0 {
      return true;
    }
    if Ranks(node, spent.points) > node.MaxRanks() {
      return false;
    }
    var any, anyFull := PriorState(nodes, spent, node);
    if any && !anyFull {
      return false;
    }
    ok := treePoints >= node.required;
  }

  method CheckTree(nodes: Nodes, spent: Spent, extraPoints: nat) returns (ok: bool)
    ensures ok == TreeAccepted(nodes, spent.points, extraPoints)
  {
    hide NodeAccepted, Sorted, PointsOver;
    var total := SumPoints(nodes, spent);
    total := total + extraPoints;
    var ids := Sorted(nodes.Keys);
    assert forall k | 0 <= k < |ids| :: ids[k] in ids && ids[k] in nodes;
    for i := 0 to |ids|
      invariant forall k | 0 <= k < i :: NodeAccepted(nodes, spent.points, total, ids[k])
    {
      ok := CheckNode(nodes, spent, total, ids[i]);
      if !ok {
        return;
      }
    }
    forall id | id in nodes ensures NodeAccepted(nodes, spent.points, total, id) {
      assert id in ids;
    }
    ok := true;
  }

  /** A choice node bought twice, or bought where it is already granted, is refused. */
  lemma ChoiceBoughtOnce(nodes: Nodes, points: map<int, nat>, extraPoints: nat, id: int)
    requires NodesWellFormed(nodes) && id in nodes && nodes[id].kind.Choice?
    requires Got(points, id) > (if nodes[id].granted then 0 else 1)
    ensures !TreeAccepted(nodes, points, extraPoints)
  {
    assert !NodeAccepted(nodes, points, TreePoints(nodes, points) + extraPoints, id);
  }

  // ---------------------------------------------------------------- accepted builds are supported

  /**
   A path to `id` along fully ranked nodes. It starts at a node with no in-tree predecessor, or at a
   granted node other than `id`.
   */
  ghost predicate Supports(nodes: Nodes, points: map<int, nat>, path: seq<int>, id: int)
  {
    && |path| > 0 && path[|path| - 1] == id
    && (forall k | 0 <= k < |path| :: path[k] in nodes)
    && (HasPrior(nodes, path[0]) ==> |path| > 1 && nodes[path[0]].granted)
    && (forall k | 0 <= k < |path| - 1 ::
          path[k] in nodes[path[k + 1]].previous && FullyRanked(nodes[path[k]], points))
  }

  lemma ExtendPath(nodes: Nodes, points: map<int, nat>, path: seq<int>, prior: int, id: int)
    requires Supports(nodes, points, path, prior)
    requires id in nodes && prior in nodes[id].previous && FullyRanked(nodes[prior], points)
    ensures Supports(nodes, points, path + [id], id)
  {
    var longer := path + [id];
    forall k | 0 <= k < |longer| - 1
      ensures longer[k] in nodes[longer[k + 1]].previous && FullyRanked(nodes[longer[k]], points)
    {
      if k == |path| - 1 {
        assert longer[k] == prior && longer[k + 1] == id;
      } else {
        assert longer[k] == path[k] && longer[k + 1] == path[k + 1];
      }
    }
  }

  lemma FullPrior(nodes: Nodes, points: map<int, nat>, treePoints: nat, id: int) returns (prior: int)
    requires id in nodes && NodeAccepted(nodes, points, treePoints, id)
    requires Got(points, id) > 0 && HasPrior(nodes, id)
    ensures prior in nodes[id].previous && prior in nodes && FullyRanked(nodes[prior], points)
  {
    prior :| prior in nodes[id].previous && prior in nodes && FullyRanked(nodes[prior], points);
  }

  lemma PathEndsOnFullPrior(nodes: Nodes, points: map<int, nat>, path: seq<int>, id: int)
    requires Supports(nodes, points, path, id)
    ensures id in nodes && (HasPrior(nodes, id) ==> HasFullPrior(nodes, points, id))
  {
    var n := |path|;
    if n > 1 {
      var prior := path[n - 2];
      assert path[n - 2 + 1] == id;
      assert prior in nodes[id].previous && prior in nodes && FullyRanked(nodes[prior], points);
    }
  }

  /** What the check asks of a bought node, with the support read as a whole path. */
  ghost predicate NodeSupported(nodes: Nodes, points: map<int, nat>, treePoints: nat, id: int)
    requires id in nodes
  {
    Got(points, id) > 0 ==>
      && Ranks(nodes[id], points) <= nodes[id].MaxRanks()
      && (exists path :: Supports(nodes, points, path, id))
      && nodes[id].required <= treePoints
  }

  // ---------------------------------------------------------------- conservation of points

  lemma {:induction false} PointsOverBuy(ids: seq<int>, spending: Spending, p: Purchase)
    requires Ascending(ids)
    ensures PointsOver(ids, Buy(spending, p).points) == PointsOver(ids, spending.points) + if p.node in ids then 1 else 0
  {
    if ids != [] {
      PointsOverBuy(ids[1..], spending, p);
      assert ids == [ids[0]] + ids[1..];
      if ids[0] == p.node {
        assert forall k | 0 <= k < |ids[1..]| :: ids[1..][k] == ids[k + 1] > ids[0];
      }
    }
  }

  /** Every purchase of a tree's nodes is one point of that tree. */
  lemma {:induction false} PointsConserved(nodes: Nodes, spending: Spending, buys: seq<Purchase>)
    requires forall p | p in buys :: p.node in nodes
    ensures TreePoints(nodes, Spend(spending, buys).points) == TreePoints(nodes, spending.points) + |buys|
    decreases |buys|
  {
    if buys != [] {
      assert buys[0] in buys;
      assert forall p | p in buys[1..] :: p in buys;
      PointsConserved(nodes, Buy(spending, buys[0]), buys[1..]);
      PointsOverBuy(Sorted(nodes.Keys), spending, buys[0]);
    }
  }
}
