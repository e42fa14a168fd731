/**
 What the converter promises: the import string buys exactly the talents the hash spells, one build
 has one string, the order of purchases does not matter, and every reader of a header agrees.
 */
module TalentMeaning {
  import opened Wrappers
  import opened BitCodec
  import opened TalentTrees
  import opened TalentHash
  import opened TalentExport

  // ---------------------------------------------------------------- what a hash says

  function RankedAs(ranks: nat, maxRanks: nat): Taken
  {
    if ranks < maxRanks then Taken(Some(ranks), None) else Taken(None, None)
  }

  /** How an import string must show the node a purchase names. */
  function BoughtAs(node: Node, buys: seq<Purchase>, p: Purchase): Taken
  {
    if node.kind.Choice? then Taken(None, p.entry)
    else RankedAs(Count(buys, p.node) + (if node.granted then 1 else 0), node.MaxRanks())
  }

  ghost predicate Bought(contents: Contents, id: int)
  {
    exists p :: p in AllBuys(contents) && p.node == id
  }

  /** The talents show the plan made from the contents: every purchase, the hero side, the apex ranks, and nothing else. */
  ghost predicate ShowsPlan(spec: SpecTree, contents: Contents, talents: map<int, Taken>)
  {
    var nodes := MergedNodes(spec, contents.HeroSide());
    var apexRanks := ApexRanks(spec, contents.apexEntries);
    && (forall p | p in AllBuys(contents) ::
          && p.node in nodes && p.node in talents
          && talents[p.node] == BoughtAs(nodes[p.node], AllBuys(contents), p))
    && (contents.hero.Some? ==>
          spec.heroMetaId in talents && talents[spec.heroMetaId] == Taken(None, contents.HeroSide()))
    && (apexRanks > 0 ==>
          spec.apexId in talents && talents[spec.apexId] == RankedAs(apexRanks, APEX_FULL_RANKS))
    && (forall id | id in talents ::
          || Bought(contents, id)
          || (id == spec.heroMetaId && contents.hero.Some?)
          || (id == spec.apexId && apexRanks > 0))
  }

  /** A purchase of the contents, whichever tree it is in. */
  ghost predicate Buys(contents: Contents, p: Purchase)
  {
    || p in contents.classBuys || p in contents.specBuys
    || (contents.hero.Some? && p in contents.hero.value.buys)
  }

  function TimesBought(contents: Contents, id: int): nat
  {
    Count(contents.classBuys, id) + Count(contents.specBuys, id)
    + if contents.hero.Some? then Count(contents.hero.value.buys, id) else 0
  }

  /** The nodes of the hero tree the contents pick: side 0 is the left tree. */
  ghost predicate HeroNode(spec: SpecTree, contents: Contents, id: int, node: Node)
  {
    && contents.hero.Some?
    && if contents.hero.value.side == 0 then id in spec.heroLeft && node == spec.heroLeft[id]
       else id in spec.heroRight && node == spec.heroRight[id]
  }

  /** The tree data of a node the contents can buy. */
  ghost predicate NodeData(spec: SpecTree, contents: Contents, id: int, node: Node)
  {
    || (id in spec.classNodes && node == spec.classNodes[id])
    || (id in spec.specNodes && node == spec.specNodes[id])
    || HeroNode(spec, contents, id, node)
  }

  ghost predicate ShowsRanks(taken: Taken, ranks: nat, full: nat)
  {
    taken == if ranks < full then Taken(Some(ranks), None) else Taken(None, None)
  }

  /** A choice shows the entry bought; any other node its ranks, one of them granted if the node is. */
  ghost predicate ShowsPurchase(taken: Taken, node: Node, times: nat, p: Purchase)
  {
    if node.kind.Choice? then taken == Taken(None, p.entry)
    else ShowsRanks(taken, times + (if node.granted then 1 else 0), node.spellRanks)
  }

  ghost predicate Lesser(n: nat, a: nat, b: nat)
  {
    n <= a && n <= b && (n == a || n == b)
  }

  /** The apex node shows as many ranks as the hash has apex letters, up to what its spells hold; none shows nothing. */
  ghost predicate ShowsApex(spec: SpecTree, contents: Contents, talents: map<int, Taken>)
  {
    && (spec.apexId in talents <==> contents.apexEntries > 0 && Sum(spec.apexSpellRanks) > 0)
    && (spec.apexId in talents ==>
          exists ranks: nat :: Lesser(ranks, contents.apexEntries, Sum(spec.apexSpellRanks))
                               && ShowsRanks(talents[spec.apexId], ranks, 4))
  }

  ghost predicate ShowsBuy(spec: SpecTree, contents: Contents, talents: map<int, Taken>, p: Purchase)
  {
    && p.node in talents
    && exists node :: NodeData(spec, contents, p.node, node)
                      && ShowsPurchase(talents[p.node], node, TimesBought(contents, p.node), p)
  }

  /** The talents are the hash's: every purchase, the hero side, the apex ranks, and nothing else. */
  ghost predicate Means(spec: SpecTree, contents: Contents, talents: map<int, Taken>)
  {
    && (forall p | Buys(contents, p) :: ShowsBuy(spec, contents, talents, p))
    && (contents.hero.Some? ==>
          spec.heroMetaId in talents && talents[spec.heroMetaId] == Taken(None, Some(contents.hero.value.side)))
    && ShowsApex(spec, contents, talents)
    && (forall id | id in talents ::
          || (exists p :: Buys(contents, p) && p.node == id)
          || (id == spec.heroMetaId && contents.hero.Some?)
          || id == spec.apexId)
  }

  lemma BuysIsAmong(contents: Contents, p: Purchase)
    ensures Buys(contents, p) <==> p in AllBuys(contents)
  {
  }

  lemma TimesBoughtIsCount(contents: Contents, id: int)
    ensures TimesBought(contents, id) == Count(AllBuys(contents), id)
  {
    CountConcat(contents.classBuys + contents.specBuys, contents.HeroBuys(), id);
    CountConcat(contents.classBuys, contents.specBuys, id);
  }

  /** The merged trees hold exactly the nodes the contents can buy. */
  lemma MergedIsNodeData(spec: SpecTree, contents: Contents, id: int, node: Node)
    requires SpecWellFormed(spec)
    ensures id in MergedNodes(spec, contents.HeroSide()) && MergedNodes(spec, contents.HeroSide())[id] == node
            <==> NodeData(spec, contents, id, node)
  {
  }

  lemma ApexIsLesser(spec: SpecTree, entries: nat)
    ensures Lesser(ApexRanks(spec, entries), entries, Sum(spec.apexSpellRanks))
  {
  }

  lemma NoApexPurchase(spec: SpecTree, contents: Contents, p: Purchase)
    requires SpecWellFormed(spec) && FitsSpec(spec, contents) && p in AllBuys(contents)
    ensures p.node != spec.apexId
  {
    BuyIsMerged(spec, contents, p);
    assert MergedNodes(spec, contents.HeroSide()).Keys !! {spec.apexId};
  }

  /** Talents that show the plan mean what the contents say. */
  lemma PlanMeans(spec: SpecTree, contents: Contents, talents: map<int, Taken>)
    requires SpecWellFormed(spec) && FitsSpec(spec, contents) && ShowsPlan(spec, contents, talents)
    ensures Means(spec, contents, talents)
  {
    hide SpecWellFormed, FitsSpec, MergedNodes, AllBuys, ApexRanks, Count, NodeData, Buys, Sum, TimesBought;
    var nodes := MergedNodes(spec, contents.HeroSide());
    ApexIsLesser(spec, contents.apexEntries);
    forall p | Buys(contents, p) ensures ShowsBuy(spec, contents, talents, p) {
      BuysIsAmong(contents, p);
      TimesBoughtIsCount(contents, p.node);
      MergedIsNodeData(spec, contents, p.node, nodes[p.node]);
      assert ShowsPurchase(talents[p.node], nodes[p.node], TimesBought(contents, p.node), p);
    }
    forall id | Bought(contents, id) ensures (exists p :: Buys(contents, p) && p.node == id) && id != spec.apexId {
      var p :| p in AllBuys(contents) && p.node == id;
      BuysIsAmong(contents, p);
      NoApexPurchase(spec, contents, p);
    }
    ApexIsNotMeta(spec);
  }

  lemma ApexIsNotMeta(spec: SpecTree)
    requires SpecWellFormed(spec)
    ensures spec.heroMetaId != spec.apexId
  {
    assert spec.heroMetaId !in {spec.apexId};
  }

  // ---------------------------------------------------------------- accepted purchases

  lemma AcceptedRanks(spec: SpecTree, contents: Contents, id: int)
    requires SpecWellFormed(spec) && Accepted(spec, PlanOf(spec, contents))
    requires id in MergedNodes(spec, contents.HeroSide())
    ensures var plan := PlanOf(spec, contents);
            Got(plan.spending.points, id) > 0 ==>
              Ranks(plan.nodes[id], plan.spending.points) <= plan.nodes[id].MaxRanks()
  {
    hide TreePoints, HasPrior, HasFullPrior, Spend, AllBuys;
    var plan := PlanOf(spec, contents);
    var points := plan.spending.points;
    var hero := HeroNodesOf(spec, contents.HeroSide());
    if id in spec.classNodes {
      assert NodeAccepted(spec.classNodes, points, TreePoints(spec.classNodes, points) + 0, id);
    } else if id in spec.specNodes {
      assert NodeAccepted(spec.specNodes, points, TreePoints(spec.specNodes, points) + plan.apexRanks, id);
    } else {
      assert NodeAccepted(hero, points, TreePoints(hero, points) + 0, id);
    }
  }

  /** In an accepted build the entry on record is the one the only purchase of the choice names. */
  lemma AcceptedChoice(spec: SpecTree, contents: Contents, p: Purchase)
    requires SpecWellFormed(spec) && FitsSpec(spec, contents)
    requires Accepted(spec, PlanOf(spec, contents))
    requires p in AllBuys(contents) && p.entry.Some?
    ensures var choices := PlanOf(spec, contents).spending.choices;
            p.node in choices && choices[p.node] == p.entry.value
    ensures Count(AllBuys(contents), p.node) == 1
  {
    hide Accepted, MergedNodes, Spend, AllBuys;
    var buys := AllBuys(contents);
    var id := p.node;
    BuyIsMerged(spec, contents, p);
    MergedWellFormed(spec, contents.HeroSide());
    AcceptedRanks(spec, contents, id);
    SpendPoints(NOTHING_SPENT, buys, id);
    CountPositive(buys, id);
    LastEntryAmong(buys, id);
    SpendChoices(NOTHING_SPENT, buys, id);
    SinglePurchase(buys, p, Purchase(id, LastEntry(buys, id)));
  }

  lemma BoughtRecord(spec: SpecTree, contents: Contents, p: Purchase)
    requires SpecWellFormed(spec) && FitsSpec(spec, contents)
    requires Accepted(spec, PlanOf(spec, contents))
    requires p in AllBuys(contents)
    ensures var plan := PlanOf(spec, contents);
            && p.node in plan.nodes
            && Meaning(RecordOf(plan, p.node)) == Some(BoughtAs(plan.nodes[p.node], AllBuys(contents), p))
  {
    hide Accepted, MergedNodes, Spend, AllBuys;
    var buys := AllBuys(contents);
    BuyIsMerged(spec, contents, p);
    MergedWellFormed(spec, contents.HeroSide());
    SpendPoints(NOTHING_SPENT, buys, p.node);
    CountPositive(buys, p.node);
    if p.entry.Some? {
      AcceptedChoice(spec, contents, p);
    }
  }

  lemma UnboughtRecord(spec: SpecTree, contents: Contents, id: int)
    requires SpecWellFormed(spec)
    requires !Bought(contents, id)
    requires !(id == spec.heroMetaId && contents.hero.Some?)
    requires !(id == spec.apexId && ApexRanks(spec, contents.apexEntries) > 0)
    ensures Meaning(RecordOf(PlanOf(spec, contents), id)).None?
  {
    hide MergedNodes, Spend, AllBuys;
    var buys := AllBuys(contents);
    MergedWellFormed(spec, contents.HeroSide());
    SpendPoints(NOTHING_SPENT, buys, id);
    CountPositive(buys, id);
  }

  lemma SpecIdListed(tree: ClassTree, spec: SpecTree, id: int)
    requires spec in tree.specs && id in SpecIds(spec)
    ensures id in AllNodeIds(tree)
  {
    assert Named(tree.unused, tree.specs, id);
  }

  lemma DecodedMeans(tree: ClassTree, spec: SpecTree, contents: Contents, talents: map<int, Taken>)
    requires spec in tree.specs && SpecWellFormed(spec) && FitsSpec(spec, contents)
    requires Accepted(spec, PlanOf(spec, contents))
    requires var plan := PlanOf(spec, contents);
             forall id :: var meant := Meaning(RecordOf(plan, id));
               && (id in talents <==> id in AllNodeIds(tree) && meant.Some?)
               && (id in talents ==> talents[id] == meant.value)
    ensures ShowsPlan(spec, contents, talents)
  {
    hide Accepted, MergedNodes, Spend, AllBuys, ApexRanks, SpecIds, FitsSpec, AllNodeIds, BoughtAs;
    var plan := PlanOf(spec, contents);
    var nodes := MergedNodes(spec, contents.HeroSide());
    MergedWellFormed(spec, contents.HeroSide());
    forall p | p in AllBuys(contents)
      ensures p.node in nodes && p.node in talents
      ensures talents[p.node] == BoughtAs(nodes[p.node], AllBuys(contents), p)
    {
      BoughtRecord(spec, contents, p);
      SpecIdListed(tree, spec, p.node);
    }
    MetaAndApexListed(tree, spec);
    forall id | id in talents
      ensures Bought(contents, id) || (id == spec.heroMetaId && contents.hero.Some?)
              || (id == spec.apexId && ApexRanks(spec, contents.apexEntries) > 0)
    {
      if !Bought(contents, id) && !(id == spec.heroMetaId && contents.hero.Some?)
         && !(id == spec.apexId && ApexRanks(spec, contents.apexEntries) > 0) {
        UnboughtRecord(spec, contents, id);
      }
    }
    assert RecordOf(plan, spec.heroMetaId) ==
           if contents.hero.Some? then Chosen(contents.HeroSide().value) else RecordOf(plan, spec.heroMetaId);
  }

  lemma MetaAndApexListed(tree: ClassTree, spec: SpecTree)
    requires spec in tree.specs && SpecWellFormed(spec)
    ensures spec.heroMetaId in AllNodeIds(tree) && spec.apexId in AllNodeIds(tree)
    ensures spec.heroMetaId != spec.apexId
  {
    SpecIdListed(tree, spec, spec.heroMetaId);
    SpecIdListed(tree, spec, spec.apexId);
  }

  // ---------------------------------------------------------------- the transcoding theorem

  /**
   Every hash the converter accepts becomes an import string that the independent decoder reads as the
   hash's spec id and exactly its purchases: partial nodes with their ranks, full nodes without, choice
   nodes with their entry, the hero selection node with the chosen side, and the apex node's ranks.
   Nodes that are only granted, and the other hero tree, do not appear.
   */
  lemma TranscodingPreservesMeaning(code: string, tree: ClassTree)
    requires WellFormed(tree) && ExportCode(code, tree).Ok?
    ensures ReadContents(code, tree).Ok?
    ensures var contents := ReadContents(code, tree).value;
            var spec := SpecById(tree.specs, contents.specId);
            var talents := Decode(ExportCode(code, tree).value, AllNodeIds(tree));
            && spec.Ok? && talents.Some?
            && talents.value.0 == contents.specId
            && Means(spec.value, contents, talents.value.1)
  {
    var contents := ReadContents(code, tree).value;
    ReadContentsValid(code, tree);
    ContentsMeaning(tree, contents);
  }

  lemma ContentsMeaning(tree: ClassTree, contents: Contents)
    requires WellFormed(tree) && ValidContents(tree, contents)
    requires ExportContents(tree, contents).Ok?
    ensures var spec := SpecById(tree.specs, contents.specId).value;
            var talents := Decode(ExportContents(tree, contents).value, AllNodeIds(tree));
            && talents.Some? && talents.value.0 == contents.specId
            && Means(spec, contents, talents.value.1)
  {
    hide Accepted, ExportText, Decode, Means, ShowsPlan, PlanOf, AllNodeIds, RecordOf;
    var spec := SpecById(tree.specs, contents.specId).value;
    var plan := PlanOf(spec, contents);
    var ids := AllNodeIds(tree);
    PlanOfFits(spec, contents);
    var talents := Decode(ExportText(contents.specId, plan, ids), ids);
    forall id
      ensures var meant := Meaning(RecordOf(plan, id));
              && talents.Some? && talents.value.0 == contents.specId
              && (id in talents.value.1 <==> id in ids && meant.Some?)
              && (id in talents.value.1 ==> talents.value.1[id] == meant.value)
    {
      DecodeExport(contents.specId, plan, ids, id);
    }
    DecodeExport(contents.specId, plan, ids, 0);
    DecodedMeans(tree, spec, contents, talents.value.1);
    PlanMeans(spec, contents, talents.value.1);
  }

  /** From purchases to purchases: encode a hash, convert it, decode the import string. */
  lemma EncodeConvertDecode(tree: ClassTree, contents: Contents, pvp: string, older: bool)
    requires WellFormed(tree) && ValidContents(tree, contents) && '-' !in pvp
    requires older ==> contents.apexEntries == 0
    requires Indexable(SpecById(tree.specs, contents.specId).value)
    ensures var exported := ExportCode(EncodeHash(tree, contents, pvp, older), tree);
            && exported == ExportContents(tree, contents)
            && (exported.Ok? ==>
                  var talents := Decode(exported.value, AllNodeIds(tree));
                  && talents.Some? && talents.value.0 == contents.specId
                  && Means(SpecById(tree.specs, contents.specId).value, contents, talents.value.1))
  {
    hide EncodeHash, ExportContents, Means, Decode, Indexable;
    ReadEncodedHash(tree, contents, pvp, older);
    if ExportContents(tree, contents).Ok? {
      ContentsMeaning(tree, contents);
    }
  }

  // ---------------------------------------------------------------- one build, one string

  lemma SameMeaningSameRecord(a: Plan, b: Plan, id: int)
    requires a.nodes == b.nodes && a.hero == b.hero && a.metaId == b.metaId && a.apexId == b.apexId
    requires Meaning(RecordOf(a, id)) == Meaning(RecordOf(b, id))
    ensures RecordOf(a, id) == RecordOf(b, id)
  {
  }

  lemma {:induction false} SameRecordsSameBits(a: Plan, b: Plan, ids: seq<int>)
    requires forall id | id in ids :: RecordOf(a, id) == RecordOf(b, id)
    ensures RecordsBits(a, ids) == RecordsBits(b, ids)
  {
    hide RecordOf, RecordBits;
    if ids != [] {
      assert ids[0] in ids && forall id | id in ids[1..] :: id in ids;
      SameRecordsSameBits(a, b, ids[1..]);
    }
  }

  lemma MetaShowsHero(spec: SpecTree, contents: Contents)
    requires SpecWellFormed(spec)
    ensures var side := contents.HeroSide();
            Meaning(RecordOf(PlanOf(spec, contents), spec.heroMetaId)) ==
            if side.Some? then Some(Taken(None, side)) else None
  {
    MergedWellFormed(spec, contents.HeroSide());
  }

  lemma SamePlansText(spec: SpecTree, a: Contents, b: Contents, ids: seq<int>)
    requires SpecWellFormed(spec) && spec.heroMetaId in ids && a.specId == b.specId
    requires forall id | id in ids ::
               Meaning(RecordOf(PlanOf(spec, a), id)) == Meaning(RecordOf(PlanOf(spec, b), id))
    ensures ExportText(a.specId, PlanOf(spec, a), ids) == ExportText(b.specId, PlanOf(spec, b), ids)
  {
    hide RecordOf, Meaning, RecordsBits, MergedNodes, Spend, AllBuys, HeaderBits, TextOf;
    MetaShowsHero(spec, a);
    MetaShowsHero(spec, b);
    assert a.HeroSide() == b.HeroSide();
    forall id | id in ids ensures RecordOf(PlanOf(spec, a), id) == RecordOf(PlanOf(spec, b), id) {
      SameMeaningSameRecord(PlanOf(spec, a), PlanOf(spec, b), id);
    }
    SameRecordsSameBits(PlanOf(spec, a), PlanOf(spec, b), ids);
  }

  lemma DecodedRecords(tree: ClassTree, contents: Contents, id: int)
    requires WellFormed(tree) && ValidContents(tree, contents) && ExportContents(tree, contents).Ok?
    requires id in AllNodeIds(tree)
    ensures var plan := PlanOf(SpecById(tree.specs, contents.specId).value, contents);
            var talents := Decode(ExportContents(tree, contents).value, AllNodeIds(tree));
            && talents.Some? && talents.value.0 == contents.specId
            && Meaning(RecordOf(plan, id)) ==
               if id in talents.value.1 then Some(talents.value.1[id]) else None
  {
    hide Accepted, ExportText, Decode, PlanOf, AllNodeIds, RecordOf;
    var spec := SpecById(tree.specs, contents.specId).value;
    PlanOfFits(spec, contents);
    DecodeExport(contents.specId, PlanOf(spec, contents), AllNodeIds(tree), id);
  }

  lemma SameTalentsSameText(tree: ClassTree, a: Contents, b: Contents)
    requires WellFormed(tree) && ValidContents(tree, a) && ValidContents(tree, b)
    requires ExportContents(tree, a).Ok? && ExportContents(tree, b).Ok?
    ensures SameTalents(ExportContents(tree, a).value, ExportContents(tree, b).value, tree)
            <==> ExportContents(tree, a).value == ExportContents(tree, b).value
  {
    hide Accepted, ExportText, Decode, PlanOf, AllNodeIds, RecordOf, Meaning;
    var ids := AllNodeIds(tree);
    var left, right := ExportContents(tree, a).value, ExportContents(tree, b).value;
    var specA, specB := SpecById(tree.specs, a.specId).value, SpecById(tree.specs, b.specId).value;
    MetaAndApexListed(tree, specA);
    DecodedRecords(tree, a, specA.heroMetaId);
    DecodedRecords(tree, b, specA.heroMetaId);
    if Decode(left, ids) == Decode(right, ids) {
      forall id | id in ids
        ensures Meaning(RecordOf(PlanOf(specA, a), id)) == Meaning(RecordOf(PlanOf(specA, b), id))
      {
        DecodedRecords(tree, a, id);
        DecodedRecords(tree, b, id);
      }
      SamePlansText(specA, a, b, ids);
    }
  }

  /** Among this converter's strings over one class, two buy the same talents exactly when they are equal. */
  lemma SameTalentsIffEqual(left: string, right: string, tree: ClassTree)
    requires WellFormed(tree) && ExportCode(left, tree).Ok? && ExportCode(right, tree).Ok?
    ensures SameTalents(ExportCode(left, tree).value, ExportCode(right, tree).value, tree)
            <==> ExportCode(left, tree).value == ExportCode(right, tree).value
  {
    ReadContentsValid(left, tree);
    ReadContentsValid(right, tree);
    SameTalentsSameText(tree, ReadContents(left, tree).value, ReadContents(right, tree).value);
  }

  // ---------------------------------------------------------------- the order of purchases

  /** The same purchases in each part, in any order; all else equal. */
  ghost predicate SamePurchases(a: Contents, b: Contents)
  {
    && a.specId == b.specId && a.apexEntries == b.apexEntries && a.HeroSide() == b.HeroSide()
    && multiset(a.classBuys) == multiset(b.classBuys)
    && multiset(a.specBuys) == multiset(b.specBuys)
    && multiset(a.HeroBuys()) == multiset(b.HeroBuys())
  }

  lemma PermutedPoint(a: seq<Purchase>, b: seq<Purchase>, id: int)
    requires multiset(a) == multiset(b)
    ensures var left, right := Spend(NOTHING_SPENT, a).points, Spend(NOTHING_SPENT, b).points;
            (id in left <==> id in right) && (id in left ==> left[id] == right[id])
  {
    SpendPoints(NOTHING_SPENT, a, id);
    SpendPoints(NOTHING_SPENT, b, id);
    CountOfPermutation(a, b, id);
  }

  lemma PermutedPoints(a: seq<Purchase>, b: seq<Purchase>)
    requires multiset(a) == multiset(b)
    ensures Spend(NOTHING_SPENT, a).points == Spend(NOTHING_SPENT, b).points
  {
    var left, right := Spend(NOTHING_SPENT, a).points, Spend(NOTHING_SPENT, b).points;
    forall id | id in left ensures id in right && left[id] == right[id] {
      PermutedPoint(a, b, id);
    }
    forall id | id in right ensures id in left {
      PermutedPoint(a, b, id);
    }
    MapsAgree(left, right);
  }

  lemma MapsAgree<K, V>(a: map<K, V>, b: map<K, V>)
    requires forall k | k in a :: k in b && a[k] == b[k]
    requires forall k | k in b :: k in a
    ensures a == b
  {
  }

  lemma PermutedChoices(spec: SpecTree, a: Contents, b: Contents)
    requires SpecWellFormed(spec) && FitsSpec(spec, a) && FitsSpec(spec, b)
    requires multiset(AllBuys(a)) == multiset(AllBuys(b))
    requires Accepted(spec, PlanOf(spec, a)) && Accepted(spec, PlanOf(spec, b))
    ensures PlanOf(spec, a).spending.choices == PlanOf(spec, b).spending.choices
  {
    hide Accepted, AllBuys, Spend, FitsSpec, MergedNodes;
    var left, right := PlanOf(spec, a).spending.choices, PlanOf(spec, b).spending.choices;
    forall id | id in left ensures id in right && left[id] == right[id] {
      ChoiceCarries(spec, a, b, id);
    }
    forall id | id in right ensures id in left && left[id] == right[id] {
      ChoiceCarries(spec, b, a, id);
    }
    MapsAgree(left, right);
  }

  lemma ChoiceCarries(spec: SpecTree, a: Contents, b: Contents, id: int)
    requires SpecWellFormed(spec) && FitsSpec(spec, a) && FitsSpec(spec, b)
    requires multiset(AllBuys(a)) == multiset(AllBuys(b))
    requires Accepted(spec, PlanOf(spec, a)) && Accepted(spec, PlanOf(spec, b))
    requires id in PlanOf(spec, a).spending.choices
    ensures var left, right := PlanOf(spec, a).spending.choices, PlanOf(spec, b).spending.choices;
            id in right && left[id] == right[id]
  {
    hide Accepted, AllBuys, Spend, FitsSpec, MergedNodes;
    SpendChoices(NOTHING_SPENT, AllBuys(a), id);
    LastEntryAmong(AllBuys(a), id);
    var p := Purchase(id, LastEntry(AllBuys(a), id));
    assert p in multiset(AllBuys(a));
    AcceptedChoice(spec, a, p);
    AcceptedChoice(spec, b, p);
  }

  /** Hashes that buy the same things in another order are both refused or give the identical string. */
  lemma PurchaseOrderIrrelevant(tree: ClassTree, a: Contents, b: Contents)
    requires WellFormed(tree) && ValidContents(tree, a) && ValidContents(tree, b)
    requires SamePurchases(a, b)
    ensures ExportContents(tree, a) == ExportContents(tree, b)
  {
    hide TreeAccepted, Spend, FitsSpec, MergedNodes, ExportText, AllNodeIds;
    var spec := SpecById(tree.specs, a.specId).value;
    var planA, planB := PlanOf(spec, a), PlanOf(spec, b);
    assert multiset(AllBuys(a)) == multiset(AllBuys(b)) by {
      assert multiset(AllBuys(a)) == multiset(a.classBuys) + multiset(a.specBuys) + multiset(a.HeroBuys());
      assert multiset(AllBuys(b)) == multiset(b.classBuys) + multiset(b.specBuys) + multiset(b.HeroBuys());
    }
    PermutedPoints(AllBuys(a), AllBuys(b));
    assert Accepted(spec, planA) <==> Accepted(spec, planB);
    if Accepted(spec, planA) {
      PermutedChoices(spec, a, b);
      assert planA == planB;
    }
  }

  lemma PermutedCodes(left: string, right: string, tree: ClassTree)
    requires WellFormed(tree) && ReadContents(left, tree).Ok? && ReadContents(right, tree).Ok?
    requires SamePurchases(ReadContents(left, tree).value, ReadContents(right, tree).value)
    ensures ExportCode(left, tree) == ExportCode(right, tree)
  {
    hide ExportContents, SamePurchases;
    ReadContentsValid(left, tree);
    ReadContentsValid(right, tree);
    PurchaseOrderIrrelevant(tree, ReadContents(left, tree).value, ReadContents(right, tree).value);
  }

  // ---------------------------------------------------------------- header readers

  /** SimC's side of the header: the spec id among the bits of the first four characters. */
  function ExportSpecId(text: string): Option<nat>
  {
    if |text| < 4 || !Readable(ExportAlphabet, text[..4]) then None
    else
      assert forall i | 0 <= i < 4 :: text[..4][i] in text[..4];
      var bits := Sextet(ExportAlphabet, text[..4][0]).value + 64 * Sextet(ExportAlphabet, text[..4][1]).value
                  + 4096 * Sextet(ExportAlphabet, text[..4][2]).value
                  + 262144 * Sextet(ExportAlphabet, text[..4][3]).value;
      Some(ShiftRight(bits, 8) % 65536)
  }

  lemma {:induction false} ShiftDropsLow(low: seq<Bit>, high: seq<Bit>)
    ensures ShiftRight(ValueOf(low + high), |low|) == ValueOf(high)
  {
    if low == [] {
      assert low + high == high;
    } else {
      ShiftDropsLow(low[1..], high);
      assert (low + high)[1..] == low[1..] + high;
    }
  }

  lemma ValueOfSextet(alphabet: Alphabet, text: string)
    requires Readable(alphabet, text) && text != ""
    ensures text[0] in text && Readable(alphabet, text[1..])
    ensures ValueOf(TextBits(alphabet, text))
            == Sextet(alphabet, text[0]).value + 64 * ValueOf(TextBits(alphabet, text[1..]))
  {
    hide ValueOf, BitsOf;
    assert text[0] in text && forall c | c in text[1..] :: c in text;
    var head := Sextet(alphabet, text[0]).value;
    PowersOfTwo();
    ValueOfBitsOf(head, 6);
    ValueOfConcat(BitsOf(head, 6), TextBits(alphabet, text[1..]));
  }

  lemma ValueOfFourLetters(text: string)
    requires Readable(ExportAlphabet, text) && |text| == 4
    ensures ExportSpecId(text) == Some(ShiftRight(ValueOf(TextBits(ExportAlphabet, text)), 8) % 65536)
  {
    hide ValueOf, Sextet, ShiftRight, TextBits;
    assert text[..4] == text;
    assert forall i | 0 <= i < 4 :: text[i] in text;
    ValueOfSextet(ExportAlphabet, text);
    ValueOfSextet(ExportAlphabet, text[1..]);
    ValueOfSextet(ExportAlphabet, text[2..]);
    ValueOfSextet(ExportAlphabet, text[3..]);
    assert text[1..][1..] == text[2..] && text[2..][1..] == text[3..] && text[3..][1..] == "";
    ValueOfNothing();
  }

  lemma ValueOfNothing()
    ensures ValueOf(TextBits(ExportAlphabet, "")) == 0
  {
  }

  lemma ShiftAndMask(bits: seq<Bit>)
    requires |bits| == 24
    ensures ShiftRight(ValueOf(bits), 8) % 65536 == ValueOf(bits[8..])
  {
    PowersOfTwo();
    hide ValueOf, ShiftRight;
    ShiftDropsLow(bits[..8], bits[8..]);
    assert bits == bits[..8] + bits[8..];
  }

  lemma OnlyFourRead(text: string)
    requires Readable(ExportAlphabet, text) && |text| >= 4
    ensures ExportSpecId(text) == ExportSpecId(text[..4])
  {
    hide Sextet, ShiftRight;
    assert text[..4][..4] == text[..4];
  }

  /** The two readings of a header's spec id: sixteen bits after eight, and the masked shift of four letters. */
  lemma HeaderReadings(text: string)
    requires Readable(ExportAlphabet, text) && |text| >= 4
    ensures ExportSpecId(text) == Peek(After(TextBits(ExportAlphabet, text), 8), 16)
  {
    hide ValueOf, Sextet, ShiftRight, TextBits, ExportSpecId;
    var head := text[..4];
    var bits := TextBits(ExportAlphabet, text);
    TextBitsPrefix(ExportAlphabet, text, 4);
    OnlyFourRead(text);
    ValueOfFourLetters(head);
    ShiftAndMask(bits[..24]);
    assert bits[..24][8..] == bits[8..][..16];
  }

  /** For every accepted hash, all readers of the spec id agree, on the hash and on its import string. */
  lemma HeaderReadersAgree(code: string, tree: ClassTree)
    requires WellFormed(tree) && ExportCode(code, tree).Ok?
    ensures var text := ExportCode(code, tree).value;
            var talents := Decode(text, AllNodeIds(tree));
            && talents.Some? && talents.value.0 == HashSpecId(code)
            && ExportSpecId(text) == Some(HashSpecId(code))
  {
    var text := ExportCode(code, tree).value;
    TranscodingPreservesMeaning(code, tree);
    HashSpecIdAgrees(code, tree);
    LongEnough(text, AllNodeIds(tree));
    HeaderReadings(text);
  }

  lemma LongEnough(text: string, ids: seq<int>)
    requires Decode(text, ids).Some?
    ensures Readable(ExportAlphabet, text) && |text| >= 4
    ensures Peek(After(TextBits(ExportAlphabet, text), 8), 16) == Some(Decode(text, ids).value.0)
  {
    hide TextBits, DecodeAll;
  }
}
