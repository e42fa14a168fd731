/**
 The converter against what a hash spells: when it converts, which records it writes, and how any import
 string is decoded. Stated over the tree data and the purchases alone.
 */
module ExportLaws {
  import opened Wrappers
  import opened IdOrder
  import opened BitCodec
  import opened TalentTrees
  import opened TalentHash
  import opened HashSpelling
  import opened TalentExport
  import opened TalentMeaning

  // ---------------------------------------------------------------- when a hash converts

  ghost function FullRanks(node: Node): nat
  {
    if node.kind.Choice? then 1 else node.spellRanks
  }

  ghost function RanksWith(node: Node, times: nat): nat
  {
    times + if node.granted then 1 else 0
  }

  /** A bought node of a tree fits its ranks, is led to by a fully ranked node if by any, and is paid for. */
  ghost predicate Loads(nodes: Nodes, buys: seq<Purchase>, extraPoints: nat, id: int)
    requires id in nodes
  {
    && RanksWith(nodes[id], Count(buys, id)) <= FullRanks(nodes[id])
    && ((exists prior :: prior in nodes[id].previous && prior in nodes) ==>
          exists prior :: prior in nodes[id].previous && prior in nodes
                          && RanksWith(nodes[prior], Count(buys, prior)) >= FullRanks(nodes[prior]))
    && nodes[id].required <= |buys| + extraPoints
  }

  /** The purchases of a tree meet its rules. */
  ghost predicate TreeLoads(nodes: Nodes, buys: seq<Purchase>, extraPoints: nat)
  {
    forall p | p in buys :: p.node in nodes && Loads(nodes, buys, extraPoints, p.node)
  }

  ghost function ChosenHero(spec: SpecTree, side: Bit): Nodes
  {
    if side == 0 then spec.heroLeft else spec.heroRight
  }

  /** In all three trees; the apex ranks count as points of the spec tree. */
  ghost predicate BuildLoads(spec: SpecTree, contents: Contents, apexRanks: nat)
  {
    && TreeLoads(spec.classNodes, contents.classBuys, 0)
    && TreeLoads(spec.specNodes, contents.specBuys, apexRanks)
    && (contents.hero.Some? ==> TreeLoads(ChosenHero(spec, contents.hero.value.side), contents.hero.value.buys, 0))
  }

  lemma {:induction false} CountIn(buys: seq<Purchase>, id: int)
    ensures Count(buys, id) > 0 <==> exists p :: p in buys && p.node == id
  {
    CountPositive(buys, id);
  }

  lemma BoughtInside(nodes: Nodes, buys: seq<Purchase>)
    requires ValidBuys(nodes, buys)
    ensures forall p | p in buys :: p.node in nodes
  {
    forall p | p in buys ensures p.node in nodes {
      var k :| 0 <= k < |buys| && buys[k] == p;
      assert ValidBuy(nodes, buys[k]);
    }
  }

  lemma NodeAcceptedIffLoads(nodes: Nodes, buys: seq<Purchase>, points: map<int, nat>, extraPoints: nat, id: int)
    requires NodesWellFormed(nodes) && id in nodes && Got(points, id) > 0
    requires TreePoints(nodes, points) == |buys|
    requires forall id | id in nodes :: Got(points, id) == Count(buys, id)
    ensures NodeAccepted(nodes, points, TreePoints(nodes, points) + extraPoints, id) <==> Loads(nodes, buys, extraPoints, id)
  {
    hide TreePoints, Count, Got;
    if HasPrior(nodes, id) && HasFullPrior(nodes, points, id) {
      var prior :| prior in nodes[id].previous && prior in nodes && FullyRanked(nodes[prior], points);
      assert RanksWith(nodes[prior], Count(buys, prior)) >= FullRanks(nodes[prior]);
    }
    if prior :| prior in nodes[id].previous && prior in nodes
                && RanksWith(nodes[prior], Count(buys, prior)) >= FullRanks(nodes[prior]) {
      assert FullyRanked(nodes[prior], points);
    }
  }

  lemma TreeAcceptedIffLoads(nodes: Nodes, buys: seq<Purchase>, points: map<int, nat>, extraPoints: nat)
    requires NodesWellFormed(nodes) && ValidBuys(nodes, buys) && TreePoints(nodes, points) == |buys|
    requires forall id | id in nodes :: Got(points, id) == Count(buys, id)
    ensures TreeAccepted(nodes, points, extraPoints) <==> TreeLoads(nodes, buys, extraPoints)
  {
    hide TreePoints, Count, NodeAccepted, Loads;
    if TreeAccepted(nodes, points, extraPoints) {
      BoughtInside(nodes, buys);
      forall p | p in buys ensures p.node in nodes && Loads(nodes, buys, extraPoints, p.node) {
        CountIn(buys, p.node);
        NodeAcceptedIffLoads(nodes, buys, points, extraPoints, p.node);
      }
    }
    if TreeLoads(nodes, buys, extraPoints) {
      forall id | id in nodes ensures NodeAccepted(nodes, points, TreePoints(nodes, points) + extraPoints, id) {
        if Got(points, id) > 0 {
          CountIn(buys, id);
          var p :| p in buys && p.node == id;
          NodeAcceptedIffLoads(nodes, buys, points, extraPoints, id);
        } else {
          UnboughtAccepted(nodes, points, TreePoints(nodes, points) + extraPoints, id);
        }
      }
    }
  }

  lemma UnboughtAccepted(nodes: Nodes, points: map<int, nat>, treePoints: nat, id: int)
    requires id in nodes && Got(points, id) == 0
    ensures NodeAccepted(nodes, points, treePoints, id)
  {
  }

  lemma {:induction false} SamePointsOver(ids: seq<int>, a: map<int, nat>, b: map<int, nat>)
    requires forall id | id in ids :: Got(a, id) == Got(b, id)
    ensures PointsOver(ids, a) == PointsOver(ids, b)
  {
    if ids != [] {
      assert ids[0] in ids && forall id | id in ids[1..] :: id in ids;
      SamePointsOver(ids[1..], a, b);
    }
  }

  /** The points of a tree are its own purchases, when the others buy none of its nodes. */
  lemma TreePointsAre(nodes: Nodes, buys: seq<Purchase>, points: map<int, nat>)
    requires ValidBuys(nodes, buys) && forall id | id in nodes :: Got(points, id) == Count(buys, id)
    ensures TreePoints(nodes, points) == |buys|
  {
    hide Count, Spend, Sorted, PointsOver, Got;
    var own := Spend(NOTHING_SPENT, buys).points;
    forall id | id in nodes ensures Got(own, id) == Got(points, id) {
      SpendPoints(NOTHING_SPENT, buys, id);
      NothingGot(id);
    }
    SamePointsOver(Sorted(nodes.Keys), own, points);
    BoughtInside(nodes, buys);
    PointsConserved(nodes, NOTHING_SPENT, buys);
    NoPoints(Sorted(nodes.Keys));
  }

  lemma NothingGot(id: int)
    ensures Got(NOTHING_SPENT.points, id) == 0
  {
  }

  lemma NoneOfOther(nodes: Nodes, buys: seq<Purchase>, id: int)
    requires ValidBuys(nodes, buys) && id !in nodes
    ensures Count(buys, id) == 0
  {
    hide Count;
    CountIn(buys, id);
    BoughtInside(nodes, buys);
  }

  /** The points spent on a node of one of the three trees are the purchases of that tree. */
  lemma OwnPoints(spec: SpecTree, contents: Contents, id: int)
    requires SpecWellFormed(spec) && FitsSpec(spec, contents)
    ensures var got := Got(Spend(NOTHING_SPENT, AllBuys(contents)).points, id);
            && (id in spec.classNodes ==> got == Count(contents.classBuys, id))
            && (id in spec.specNodes ==> got == Count(contents.specBuys, id))
            && (contents.hero.Some? && id in ChosenHero(spec, contents.hero.value.side) ==>
                  got == Count(contents.hero.value.buys, id))
  {
    hide Count, Spend, Got;
    SpendPoints(NOTHING_SPENT, AllBuys(contents), id);
    NothingGot(id);
    TimesBoughtIsCount(contents, id);
    if id !in spec.classNodes {
      NoneOfOther(spec.classNodes, contents.classBuys, id);
    }
    if id !in spec.specNodes {
      NoneOfOther(spec.specNodes, contents.specBuys, id);
    }
    if contents.hero.Some? && id !in ChosenHero(spec, contents.hero.value.side) {
      NoneOfOther(ChosenHero(spec, contents.hero.value.side), contents.hero.value.buys, id);
    }
  }

  /** The check of all three trees accepts exactly the builds that meet the rules of their trees. */
  lemma AcceptedIffLoads(spec: SpecTree, contents: Contents, apexRanks: nat)
    requires SpecWellFormed(spec) && FitsSpec(spec, contents)
    requires Lesser(apexRanks, contents.apexEntries, Sum(spec.apexSpellRanks))
    ensures Accepted(spec, PlanOf(spec, contents)) <==> BuildLoads(spec, contents, apexRanks)
  {
    hide TreeAccepted, TreeLoads, Spend, Count, AllBuys, Sum, MergedNodes, ValidBuys, TreePoints, NodesWellFormed, ApexRanks;
    var points := PlanOf(spec, contents).spending.points;
    ApexIsLesser(spec, contents.apexEntries);
    forall id
      ensures id in spec.classNodes ==> Got(points, id) == Count(contents.classBuys, id)
      ensures id in spec.specNodes ==> Got(points, id) == Count(contents.specBuys, id)
      ensures contents.hero.Some? && id in ChosenHero(spec, contents.hero.value.side) ==>
                Got(points, id) == Count(contents.hero.value.buys, id)
    {
      OwnPoints(spec, contents, id);
    }
    TreePointsAre(spec.classNodes, contents.classBuys, points);
    TreeAcceptedIffLoads(spec.classNodes, contents.classBuys, points, 0);
    TreePointsAre(spec.specNodes, contents.specBuys, points);
    TreeAcceptedIffLoads(spec.specNodes, contents.specBuys, points, apexRanks);
    if contents.hero.Some? {
      var nodes := ChosenHero(spec, contents.hero.value.side);
      TreePointsAre(nodes, contents.hero.value.buys, points);
      TreeAcceptedIffLoads(nodes, contents.hero.value.buys, points, 0);
    } else {
      EmptyTreeAccepted(points);
    }
  }

  lemma EmptyTreeAccepted(points: map<int, nat>)
    ensures TreeAccepted(map[], points, 0)
  {
  }

  /**
   The converter, from hash to talents: a hash that spells some contents converts exactly when they meet
   the rules of their trees, and then to a string the decoder reads as the spec id and exactly those talents.
   */
  lemma HashConverts(code: string, tree: ClassTree, spec: SpecTree, contents: Contents, apexRanks: nat)
    requires WellFormed(tree) && SpellsHash(code, tree, spec, contents)
    requires Lesser(apexRanks, contents.apexEntries, Sum(spec.apexSpellRanks))
    ensures ExportCode(code, tree).Ok? <==> BuildLoads(spec, contents, apexRanks)
    ensures ExportCode(code, tree).Ok? ==>
              var talents := Decode(ExportCode(code, tree).value, AllNodeIds(tree));
              talents.Some? && talents.value.0 == contents.specId && Means(spec, contents, talents.value.1)
  {
    hide SpellsHash, ReadContents, BuildLoads, Means, Decode, AllNodeIds, Accepted, PlanOf, ExportText, WellFormed, Sum;
    ReadIffSpelled(code, tree, spec, contents);
    ReadContentsValid(code, tree);
    SpecListed(tree, contents.specId, spec);
    AcceptedIffLoads(spec, contents, apexRanks);
    if ExportCode(code, tree).Ok? {
      TranscodingPreservesMeaning(code, tree);
    }
  }

  lemma SpecListed(tree: ClassTree, specId: nat, spec: SpecTree)
    requires WellFormed(tree) && SpecById(tree.specs, specId) == Ok(spec)
    ensures SpecWellFormed(spec)
  {
  }

  /** A hash that spells nothing over the tree data is refused. */
  lemma UnspelledRefused(code: string, tree: ClassTree)
    ensures (forall spec, contents :: !SpellsHash(code, tree, spec, contents)) ==> ExportCode(code, tree).Rejected?
  {
    hide SpellsHash, ReadContents, ExportContents;
    if ReadContents(code, tree).Ok? {
      var contents := ReadContents(code, tree).value;
      ReadContentsValid(code, tree);
      ReadIffSpelled(code, tree, SpecById(tree.specs, contents.specId).value, contents);
    }
  }

  // ---------------------------------------------------------------- the records written

  /** The ids written: the unused ones, and every spec's class, spec, hero, selection and apex nodes. */
  lemma NodeIdsAre(tree: ClassTree, id: int)
    ensures id in AllNodeIds(tree) <==>
            || id in tree.unused
            || exists spec :: spec in tree.specs
                 && (|| id in spec.classNodes || id in spec.specNodes || id in spec.heroLeft || id in spec.heroRight
                     || id == spec.heroMetaId || id == spec.apexId)
    ensures Ascending(AllNodeIds(tree))
  {
    hide AllNodeIds;
    assert id in AllNodeIds(tree) <==> Named(tree.unused, tree.specs, id);
  }

  /** Selected, purchased, partial with six bits of ranks or full, no choice. */
  ghost predicate WritesRanks(bits: seq<Bit>, ranks: nat, full: nat)
  {
    bits == if ranks < full then [1, 1, 1] + BitsOf(ranks, 6) + [0] else [1, 1, 0, 0]
  }

  /** Selected, purchased, full, a choice, two bits of entry. */
  ghost predicate WritesEntry(bits: seq<Bit>, entry: Bit)
  {
    bits == [1, 1, 0, 1, entry, 0]
  }

  /** The record of a node of the build's own trees. */
  ghost predicate WritesNode(bits: seq<Bit>, contents: Contents, node: Node, id: int)
  {
    var times := TimesBought(contents, id);
    if times == 0 then bits == if node.granted then [1, 0] else [0]
    else if node.kind.Choice? then
      exists p :: Buys(contents, p) && p.node == id && p.entry.Some? && WritesEntry(bits, p.entry.value)
    else WritesRanks(bits, RanksWith(node, times), node.spellRanks)
  }

  /** The record of any node: of the build's trees, the hero selection, the apex, or one not selected. */
  ghost predicate Writes(bits: seq<Bit>, spec: SpecTree, contents: Contents, apexRanks: nat, id: int)
  {
    && (forall node | NodeData(spec, contents, id, node) :: WritesNode(bits, contents, node, id))
    && ((forall node :: !NodeData(spec, contents, id, node)) ==>
          if id == spec.heroMetaId && contents.hero.Some? then WritesEntry(bits, contents.hero.value.side)
          else if id == spec.apexId && apexRanks > 0 then WritesRanks(bits, apexRanks, 4)
          else bits == [0])
  }

  function Concat(records: seq<seq<Bit>>): seq<Bit>
  {
    if records == [] then [] else records[0] + Concat(records[1..])
  }

  function RecordsOf(plan: Plan, ids: seq<int>): (records: seq<seq<Bit>>)
    ensures |records| == |ids| && forall k | 0 <= k < |ids| :: records[k] == RecordBits(RecordOf(plan, ids[k]))
  {
    seq(|ids|, k requires 0 <= k < |ids| => RecordBits(RecordOf(plan, ids[k])))
  }

  lemma {:induction false} RecordsConcat(plan: Plan, ids: seq<int>)
    ensures RecordsBits(plan, ids) == Concat(RecordsOf(plan, ids))
  {
    if ids != [] {
      RecordsConcat(plan, ids[1..]);
      assert RecordsOf(plan, ids)[1..] == RecordsOf(plan, ids[1..]);
    }
  }

  lemma EntryTwoBits(entry: Bit)
    ensures BitsOf(entry, 2) == [entry, 0]
  {
    assert BitsOf(entry / 2, 1) == [(entry / 2) % 2] + BitsOf(entry / 2 / 2, 0);
  }

  lemma EntryRecord(entry: Bit)
    ensures WritesEntry(RecordBits(Chosen(entry)), entry)
  {
    hide BitsOf;
    EntryTwoBits(entry);
  }

  lemma NodeWritten(spec: SpecTree, contents: Contents, node: Node, id: int)
    requires SpecWellFormed(spec) && FitsSpec(spec, contents) && Accepted(spec, PlanOf(spec, contents))
    requires NodeData(spec, contents, id, node)
    ensures WritesNode(RecordBits(RecordOf(PlanOf(spec, contents), id)), contents, node, id)
  {
    hide SpecWellFormed, FitsSpec, Accepted, MergedNodes, Spend, AllBuys, Count, BitsOf, NodeData, ApexRanks, TimesBought;
    var plan, buys := PlanOf(spec, contents), AllBuys(contents);
    MergedIsNodeData(spec, contents, id, node);
    MergedWellFormed(spec, contents.HeroSide());
    SpendPoints(NOTHING_SPENT, buys, id);
    TimesBoughtIsCount(contents, id);
    NothingGot(id);
    CountIn(buys, id);
    if TimesBought(contents, id) > 0 && node.kind.Choice? {
      var p :| p in buys && p.node == id;
      BuysIsAmong(contents, p);
      BuyIsMerged(spec, contents, p);
      AcceptedChoice(spec, contents, p);
      EntryRecord(p.entry.value);
    }
  }

  lemma RecordWritten(spec: SpecTree, contents: Contents, apexRanks: nat, id: int)
    requires SpecWellFormed(spec) && FitsSpec(spec, contents) && Accepted(spec, PlanOf(spec, contents))
    requires Lesser(apexRanks, contents.apexEntries, Sum(spec.apexSpellRanks))
    ensures Writes(RecordBits(RecordOf(PlanOf(spec, contents), id)), spec, contents, apexRanks, id)
  {
    hide SpecWellFormed, FitsSpec, Accepted, MergedNodes, Spend, AllBuys, BitsOf, NodeData, ApexRanks, WritesNode, Sum, WritesEntry;
    var plan := PlanOf(spec, contents);
    ApexIsLesser(spec, contents.apexEntries);
    forall node | NodeData(spec, contents, id, node)
      ensures WritesNode(RecordBits(RecordOf(plan, id)), contents, node, id)
    {
      NodeWritten(spec, contents, node, id);
    }
    if forall node :: !NodeData(spec, contents, id, node) {
      if id in plan.nodes {
        MergedIsNodeData(spec, contents, id, plan.nodes[id]);
      }
      if contents.hero.Some? {
        EntryRecord(contents.hero.value.side);
      }
    }
  }

  /**
   The import string, bit by bit: version 2 on eight bits, the spec id on sixteen, a zero tree hash on 128,
   one record for every id in ascending order, and fewer than six zeros.
   */
  lemma ExportSpelled(code: string, tree: ClassTree, spec: SpecTree, contents: Contents, apexRanks: nat)
    returns (records: seq<seq<Bit>>, padding: nat)
    requires WellFormed(tree) && SpellsHash(code, tree, spec, contents) && ExportCode(code, tree).Ok?
    requires Lesser(apexRanks, contents.apexEntries, Sum(spec.apexSpellRanks))
    ensures var ids, text := AllNodeIds(tree), ExportCode(code, tree).value;
            && |records| == |ids| && padding < 6
            && (forall k | 0 <= k < |ids| :: Writes(records[k], spec, contents, apexRanks, ids[k]))
            && Readable(ExportAlphabet, text)
            && TextBits(ExportAlphabet, text) ==
               BitsOf(2, 8) + BitsOf(contents.specId, 16) + Zeros(128) + Concat(records) + Zeros(padding)
  {
    hide SpellsHash, ReadContents, Accepted, PlanOf, AllNodeIds, Writes, Sum, RecordsBits, BitsOf, TextBits, TextOf,
      Zeros, Concat, WellFormed, RecordsOf, SpecById, FitsSpec, SpecWellFormed;
    ReadIffSpelled(code, tree, spec, contents);
    ReadContentsValid(code, tree);
    SpecListed(tree, contents.specId, spec);
    var plan, ids := PlanOf(spec, contents), AllNodeIds(tree);
    records := RecordsOf(plan, ids);
    forall k | 0 <= k < |ids| ensures Writes(records[k], spec, contents, apexRanks, ids[k]) {
      RecordWritten(spec, contents, apexRanks, ids[k]);
    }
    RecordsConcat(plan, ids);
    var bits := HeaderBits(contents.specId) + RecordsBits(plan, ids);
    padding := PadLength(|bits|);
    TextBitsOfTextOf(ExportAlphabet, bits);
    ZerosAreZero(128);
  }

  // ---------------------------------------------------------------- decoding any import string

  ghost predicate FlagAt(bits: seq<Bit>, at: nat)
  {
    at < |bits| && bits[at] == 1
  }

  ghost function Drop(bits: seq<Bit>, n: nat): seq<Bit>
  {
    if n <= |bits| then bits[n..] else []
  }

  /** A field behind its flag: none when the flag is clear or missing, and nothing read when it is cut short. */
  ghost predicate FieldReads(bits: seq<Bit>, width: nat, value: Option<nat>, later: seq<Bit>)
  {
    if !FlagAt(bits, 0) then value == None && later == Drop(bits, 1)
    else if |bits| < 1 + width then value == None && later == bits[1..]
    else value.Some? && value.value < Pow2(width) && bits == [1] + BitsOf(value.value, width) + later
  }

  /** A record: not purchased unless both its first flags are set; then its ranks and its entry, if flagged. */
  ghost predicate RecordReads(bits: seq<Bit>, taken: Option<Taken>, later: seq<Bit>)
  {
    if !FlagAt(bits, 0) then taken == None && later == Drop(bits, 1)
    else if !FlagAt(bits, 1) then taken == None && later == Drop(bits, 2)
    else
      && taken.Some?
      && exists between :: FieldReads(bits[2..], 6, taken.value.ranks, between)
                           && FieldReads(between, 2, taken.value.entry, later)
  }

  /** One record an id, in order; the purchased ones by id. */
  ghost predicate RecordsRead(bits: seq<Bit>, ids: seq<int>, talents: map<int, Taken>)
    decreases |ids|
  {
    if ids == [] then talents == map[]
    else
      exists taken, later, others :: RecordReads(bits, taken, later) && RecordsRead(later, ids[1..], others)
        && talents == if taken.Some? then map[ids[0] := taken.value] + others else others
  }

  lemma FlagPeeked(bits: seq<Bit>)
    ensures Truthy(Peek(bits, 1)) <==> FlagAt(bits, 0)
    ensures After(bits, 1) == Drop(bits, 1)
  {
    if |bits| >= 1 {
      assert bits[..1] == [bits[0]];
      assert bits[..1][1..] == [];
    }
  }

  lemma FieldDecoded(bits: seq<Bit>, width: nat)
    ensures FieldReads(bits, width, DecodeField(bits, width).0, DecodeField(bits, width).1)
  {
    hide ValueOf, BitsOf, Pow2;
    FlagPeeked(bits);
    if FlagAt(bits, 0) && |bits| >= 1 + width {
      BitsOfValueOf(bits[1..][..width]);
      assert bits == [1] + bits[1..][..width] + bits[1..][width..];
    }
  }

  lemma RecordDecoded(bits: seq<Bit>)
    ensures RecordReads(bits, DecodeOne(bits).0, DecodeOne(bits).1)
  {
    hide DecodeField, FieldReads, Peek, After;
    FlagPeeked(bits);
    FlagPeeked(Drop(bits, 1));
    if FlagAt(bits, 0) {
      assert FlagAt(Drop(bits, 1), 0) <==> FlagAt(bits, 1);
      assert Drop(Drop(bits, 1), 1) == Drop(bits, 2);
      if FlagAt(bits, 1) {
        FieldDecoded(bits[2..], 6);
        FieldDecoded(DecodeField(bits[2..], 6).1, 2);
      }
    }
  }

  lemma {:induction false} RecordsDecoded(bits: seq<Bit>, ids: seq<int>)
    ensures RecordsRead(bits, ids, DecodeAll(bits, ids))
    decreases |ids|
  {
    if ids != [] {
      hide DecodeOne, RecordReads;
      var (taken, later) := DecodeOne(bits);
      RecordDecoded(bits);
      RecordsDecoded(later, ids[1..]);
    }
  }

  /**
   Any text decodes: to nothing when a letter is outside the alphabet, the header is cut short or its version
   is not 2; else to the sixteen-bit spec id and the records that follow the header.
   */
  lemma DecodeIs(text: string, ids: seq<int>)
    ensures Decode(text, ids).None? <==>
            !Readable(ExportAlphabet, text) || |text| < 26 || TextBits(ExportAlphabet, text)[..8] != BitsOf(2, 8)
    ensures Decode(text, ids).Some? ==>
              var (specId, talents) := Decode(text, ids).value;
              var bits := TextBits(ExportAlphabet, text);
              && specId < 65536 && bits[8..24] == BitsOf(specId, 16)
              && RecordsRead(bits[152..], ids, talents)
  {
    hide TextBits, ValueOf, BitsOf, DecodeAll, RecordsRead;
    PowersOfTwo();
    if Readable(ExportAlphabet, text) {
      var bits := TextBits(ExportAlphabet, text);
      assert |bits| == 6 * |text|;
      if |bits| >= 152 {
        BitsOfValueOf(bits[..8]);
        ValueOfBitsOf(2, 8);
        BitsOfValueOf(bits[8..][..16]);
        assert bits[8..][..16] == bits[8..24] && bits[8..][16..] == bits[24..] && bits[24..][128..] == bits[152..];
        RecordsDecoded(bits[152..], ids);
      }
    }
  }
}
