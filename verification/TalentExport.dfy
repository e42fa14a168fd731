/**
 The WoW loadout import string: the writer that turns a calculator hash into one, the decoder that
 reads the purchased talents back, and what the two mean together.
 */
module TalentExport {
  import opened Wrappers
  import opened IdOrder
  import opened BitCodec
  import opened TalentTrees
  import opened TalentHash

  const EXPORT_VERSION := 2
  const APEX_FULL_RANKS := 4

  // ---------------------------------------------------------------- one node's record

  datatype Record = Unselected | Granted | Full | Partial(ranks: nat) | Chosen(entry: nat)

  predicate RecordFits(record: Record)
  {
    (record.Partial? ==> record.ranks < 64) && (record.Chosen? ==> record.entry < 4)
  }

  function RecordBits(record: Record): seq<Bit>
  {
    match record
    case Unselected => [0]
    case Granted => [1, 0]
    case Full => [1, 1, 0, 0]
    case Partial(ranks) => [1, 1, 1] + BitsOf(ranks, 6) + [0]
    case Chosen(entry) => [1, 1, 0, 1] + BitsOf(entry, 2)
  }

  function RankedRecord(ranks: nat, maxRanks: nat): Record
  {
    if ranks < maxRanks then Partial(ranks) else Full
  }

  function EntryTaken(spending: Spending, id: int): Bit
  {
    if id in spending.choices then spending.choices[id] else 0
  }

  function NodeRecord(node: Node, spending: Spending): Record
  {
    var ranks := Ranks(node, spending.points);
    if node.granted && Got(spending.points, node.id) == 0 then Granted
    else if ranks == 0 then Unselected
    else if node.kind.Choice? then Chosen(EntryTaken(spending, node.id))
    else RankedRecord(ranks, node.MaxRanks())
  }

  lemma OneBitWritten()
    ensures BitsOf(1, 1) == [1] && BitsOf(0, 1) == [0]
  {
  }

  method WriteRanked(writer: BitWriter, ranks: nat, maxRanks: nat)
    modifies writer
    ensures writer.bits == old(writer.bits) + RecordBits(RankedRecord(ranks, maxRanks))
  {
    OneBitWritten();
    hide BitsOf;
    writer.Write(1, 1);
    writer.Write(1, 1);
    if ranks < maxRanks {
      writer.Write(1, 1);
      writer.Write(ranks, 6);
    } else {
      writer.Write(0, 1);
    }
    writer.Write(0, 1);
  }

  method WriteChoice(writer: BitWriter, entry: nat)
    modifies writer
    ensures writer.bits == old(writer.bits) + RecordBits(Chosen(entry))
  {
    OneBitWritten();
    hide BitsOf;
    writer.Write(1, 1);
    writer.Write(1, 1);
    writer.Write(0, 1);
    writer.Write(1, 1);
    writer.Write(entry, 2);
  }

  /** A bought choice node has its entry on record: the lookup cannot fail. */
  predicate EntryKnown(node: Node, spending: Spending)
  {
    node.kind.Choice? && Got(spending.points, node.id) > 0 ==> node.id in spending.choices
  }

  method WriteNode(writer: BitWriter, node: Node, spent: Spent)
    requires EntryKnown(node, spent.Value())
    modifies writer
    ensures writer.bits == old(writer.bits) + RecordBits(NodeRecord(node, spent.Value()))
  {
    OneBitWritten();
    hide BitsOf;
    var ranks := Ranks(node, spent.points);
    if node.granted && Got(spent.points, node.id) == 0 {
      writer.Write(1, 1);
      writer.Write(0, 1);
    } else if ranks == 0 {
      writer.Write(0, 1);
    } else if node.kind.Choice? {
      WriteChoice(writer, spent.choices[node.id]);
    } else {
      WriteRanked(writer, ranks, node.MaxRanks());
    }
  }

  // ---------------------------------------------------------------- all records

  /** What the record stream is a function of. */
  datatype Plan = Plan(nodes: Nodes, spending: Spending, metaId: int, hero: Option<Bit>, apexId: int, apexRanks: nat)

  function RecordOf(plan: Plan, id: int): Record
  {
    if id in plan.nodes then NodeRecord(plan.nodes[id], plan.spending)
    else if id == plan.metaId && plan.hero.Some? then Chosen(plan.hero.value)
    else if id == plan.apexId && plan.apexRanks > 0 then RankedRecord(plan.apexRanks, APEX_FULL_RANKS)
    else Unselected
  }

  function RecordsBits(plan: Plan, ids: seq<int>): seq<Bit>
  {
    if ids == [] then [] else RecordBits(RecordOf(plan, ids[0])) + RecordsBits(plan, ids[1..])
  }

  ghost predicate EntriesKnown(plan: Plan)
  {
    forall id | id in plan.nodes :: EntryKnown(plan.nodes[id], plan.spending)
  }

  method WriteRecord(writer: BitWriter, id: int, spent: Spent, plan: Plan)
    requires plan.spending == spent.Value() && EntriesKnown(plan)
    modifies writer
    ensures writer.bits == old(writer.bits) + RecordBits(RecordOf(plan, id))
  {
    OneBitWritten();
    hide BitsOf;
    if id in plan.nodes {
      WriteNode(writer, plan.nodes[id], spent);
    } else if id == plan.metaId && plan.hero.Some? {
      WriteChoice(writer, plan.hero.value);
    } else if id == plan.apexId && plan.apexRanks != 0 {
      WriteRanked(writer, plan.apexRanks, APEX_FULL_RANKS);
    } else {
      writer.Write(0, 1);
    }
  }

  method WriteRecords(writer: BitWriter, ids: seq<int>, spent: Spent, plan: Plan)
    requires plan.spending == spent.Value() && EntriesKnown(plan)
    modifies writer
    ensures writer.bits == old(writer.bits) + RecordsBits(plan, ids)
  {
    hide RecordOf, RecordBits;
    ghost var before := writer.bits;
    for i := 0 to |ids|
      invariant plan.spending == spent.Value()
      invariant writer.bits + RecordsBits(plan, ids[i..]) == before + RecordsBits(plan, ids)
    {
      assert ids[i..][1..] == ids[i + 1..];
      WriteRecord(writer, ids[i], spent, plan);
    }
  }

  // ---------------------------------------------------------------- the class's node ids

  function SpecIds(spec: SpecTree): set<int>
  {
    spec.classNodes.Keys + spec.specNodes.Keys + spec.heroLeft.Keys + spec.heroRight.Keys
    + {spec.heroMetaId, spec.apexId}
  }

  /** An id some of the specs use, or one the class lists as unused. */
  ghost predicate Named(unused: seq<int>, specs: seq<SpecTree>, id: int)
  {
    id in unused || exists spec :: spec in specs && id in SpecIds(spec)
  }

  lemma NamedOneMore(unused: seq<int>, specs: seq<SpecTree>, spec: SpecTree, id: int)
    ensures Named(unused, specs + [spec], id) <==> Named(unused, specs, id) || id in SpecIds(spec)
    ensures Named(unused, [spec] + specs, id) <==> Named(unused, specs, id) || id in SpecIds(spec)
  {
    assert forall s :: s in specs + [spec] <==> s in specs || s == spec;
    assert forall s :: s in [spec] + specs <==> s in specs || s == spec;
  }

  function NodeIdsFrom(unused: seq<int>, specs: seq<SpecTree>): (ids: set<int>)
    ensures forall id :: id in ids <==> Named(unused, specs, id)
  {
    if specs == [] then set id | id in unused
    else
      assert specs == [specs[0]] + specs[1..];
      assert forall id :: Named(unused, specs, id) <==> Named(unused, specs[1..], id) || id in SpecIds(specs[0]) by {
        forall id { NamedOneMore(unused, specs[1..], specs[0], id); }
      }
      SpecIds(specs[0]) + NodeIdsFrom(unused, specs[1..])
  }

  /** Every node id of the class, ascending. */
  function AllNodeIds(tree: ClassTree): (ids: seq<int>)
    ensures Ascending(ids) && forall id :: id in ids <==> Named(tree.unused, tree.specs, id)
  {
    Sorted(NodeIdsFrom(tree.unused, tree.specs))
  }

  method CollectNodeIds(tree: ClassTree) returns (ids: seq<int>)
    ensures ids == AllNodeIds(tree)
  {
    hide SpecIds;
    var found := set id | id in tree.unused;
    for i := 0 to |tree.specs|
      invariant found == NodeIdsFrom(tree.unused, tree.specs[..i])
    {
      assert tree.specs[..i + 1] == tree.specs[..i] + [tree.specs[i]];
      NodeIdsOneMore(tree.unused, tree.specs[..i], tree.specs[i]);
      found := found + SpecIds(tree.specs[i]);
    }
    assert tree.specs[..|tree.specs|] == tree.specs;
    ids := Sorted(found);
  }

  lemma {:induction false} NodeIdsOneMore(unused: seq<int>, specs: seq<SpecTree>, spec: SpecTree)
    ensures NodeIdsFrom(unused, specs + [spec]) == NodeIdsFrom(unused, specs) + SpecIds(spec)
  {
    hide SpecIds, Named;
    if specs == [] {
      assert specs + [spec] == [spec];
      assert [spec][1..] == [];
    } else {
      NodeIdsOneMore(unused, specs[1..], spec);
      assert (specs + [spec])[1..] == specs[1..] + [spec];
    }
  }

  // ---------------------------------------------------------------- a hash's export

  function AllBuys(contents: Contents): seq<Purchase>
  {
    contents.classBuys + contents.specBuys + contents.HeroBuys()
  }

  function HeroNodesOf(spec: SpecTree, hero: Option<Bit>): Nodes
  {
    match hero case None => map[] case Some(side) => spec.HeroNodes(side)
  }

  function MergedNodes(spec: SpecTree, hero: Option<Bit>): Nodes
  {
    spec.classNodes + spec.specNodes + HeroNodesOf(spec, hero)
  }

  function Sum(values: seq<nat>): nat
  {
    if values == [] then 0 else values[0] + Sum(values[1..])
  }

  /** The ranks of all spells together, each counted once. */
  lemma {:induction false} SumAdds(a: seq<nat>, b: seq<nat>, one: nat)
    ensures Sum([]) == 0 && Sum([one]) == one && Sum(a + b) == Sum(a) + Sum(b)
  {
    assert [one][1..] == [];
    if a == [] {
      assert a + b == b;
    } else {
      SumAdds(a[1..], b, one);
      assert (a + b)[1..] == a[1..] + b;
    }
  }

  function Min(a: nat, b: nat): nat
  {
    if a < b then a else b
  }

  /** One rank an apex entry, up to the ranks the apex node's spells hold. */
  function ApexRanks(spec: SpecTree, entries: nat): nat
  {
    Min(entries, Sum(spec.apexSpellRanks))
  }

  function PlanOf(spec: SpecTree, contents: Contents): Plan
  {
    Plan(
      MergedNodes(spec, contents.HeroSide()), Spend(NOTHING_SPENT, AllBuys(contents)),
      spec.heroMetaId, contents.HeroSide(), spec.apexId, ApexRanks(spec, contents.apexEntries))
  }

  ghost predicate Accepted(spec: SpecTree, plan: Plan)
  {
    && TreeAccepted(spec.classNodes, plan.spending.points, 0)
    && TreeAccepted(spec.specNodes, plan.spending.points, plan.apexRanks)
    && TreeAccepted(HeroNodesOf(spec, plan.hero), plan.spending.points, 0)
  }

  function HeaderBits(specId: nat): seq<Bit>
  {
    BitsOf(EXPORT_VERSION, 8) + BitsOf(specId, 16) + BitsOf(0, 128)
  }

  function ExportText(specId: nat, plan: Plan, ids: seq<int>): string
  {
    TextOf(ExportAlphabet, HeaderBits(specId) + RecordsBits(plan, ids))
  }

  /** The import string for the contents of a hash, or a refusal. */
  ghost function ExportContents(tree: ClassTree, contents: Contents): Result<string>
    requires SpecById(tree.specs, contents.specId).Ok?
  {
    var spec := SpecById(tree.specs, contents.specId).value;
    var plan := PlanOf(spec, contents);
    if Accepted(spec, plan) then Ok(ExportText(contents.specId, plan, AllNodeIds(tree))) else Rejected
  }

  /** The import string for a hash, or a refusal. */
  ghost function ExportCode(code: string, tree: ClassTree): Result<string>
  {
    var contents := ReadContents(code, tree);
    if contents.Rejected? then Rejected
    else
      ReadContentsValid(code, tree);
      ExportContents(tree, contents.value)
  }

  // ---------------------------------------------------------------- which nodes a purchase can name

  /** A valid purchase names a node of the merged trees, with the kind its own tree gives it. */
  lemma BuyIsMerged(spec: SpecTree, contents: Contents, p: Purchase)
    requires SpecWellFormed(spec) && FitsSpec(spec, contents)
    requires p in AllBuys(contents)
    ensures ValidBuy(MergedNodes(spec, contents.HeroSide()), p)
  {
    if p in contents.classBuys {
      var k :| 0 <= k < |contents.classBuys| && contents.classBuys[k] == p;
      assert ValidBuy(spec.classNodes, p);
    } else if p in contents.specBuys {
      var k :| 0 <= k < |contents.specBuys| && contents.specBuys[k] == p;
      assert ValidBuy(spec.specNodes, p);
    } else {
      var buys := contents.HeroBuys();
      var k :| 0 <= k < |buys| && buys[k] == p;
      assert ValidBuy(HeroNodesOf(spec, contents.HeroSide()), p);
    }
  }

  lemma MergedWellFormed(spec: SpecTree, hero: Option<Bit>)
    requires SpecWellFormed(spec)
    ensures NodesWellFormed(MergedNodes(spec, hero))
    ensures spec.heroMetaId !in MergedNodes(spec, hero) && spec.apexId !in MergedNodes(spec, hero)
    ensures MergedNodes(spec, hero).Keys <= SpecIds(spec)
  {
  }

  lemma BoughtEntries(spec: SpecTree, contents: Contents)
    requires SpecWellFormed(spec) && FitsSpec(spec, contents)
    ensures EntriesKnown(PlanOf(spec, contents))
  {
    var plan := PlanOf(spec, contents);
    var buys := AllBuys(contents);
    MergedWellFormed(spec, contents.HeroSide());
    forall id | id in plan.nodes ensures EntryKnown(plan.nodes[id], plan.spending) {
      SpendPoints(NOTHING_SPENT, buys, id);
      if plan.nodes[id].kind.Choice? && Count(buys, id) > 0 {
        CountPositive(buys, id);
        var p :| p in buys && p.node == id;
        BuyIsMerged(spec, contents, p);
        LastEntryAmong(buys, id);
        SpendChoices(NOTHING_SPENT, buys, id);
      }
    }
  }

  // ---------------------------------------------------------------- the converter

  method CountApexEntries(part: string) returns (entries: nat)
    requires Readable(HashAlphabet, part)
    ensures entries == |part|
  {
    hide TextBits, ValueOf;
    var reader := new BitReader(HashAlphabet, part);
    entries := 0;
    assert |reader.Rest()| == 6 * |part|;
    while true
      invariant reader.Valid() && |reader.Rest()| == 6 * (|part| - entries)
      decreases |part| - entries
    {
      var value := reader.Read(6);
      if value.None? {
        return;
      }
      entries := entries + 1;
    }
  }

  method ReadHeroPart(spec: SpecTree, part: string, spent: Spent) returns (ok: bool, hero: Option<Bit>)
    requires Readable(HashAlphabet, part)
    modifies spent
    ensures ok == ReadHero(spec, part).Ok?
    ensures ok ==>
      var read := ReadHero(spec, part).value;
      && hero == (match read case None => None case Some(pick) => Some(pick.side))
      && spent.Value() == Spend(old(spent.Value()), match read case None => [] case Some(pick) => pick.buys)
  {
    hero := None;
    if part == "" {
      return true, None;
    }
    var reader := new BitReader(HashAlphabet, part);
    ghost var bits := reader.Rest();
    assert |bits| >= 6;
    OneBit(bits);
    var side := reader.Read(1);
    hero := Some(side.value);
    ok := ReadTree(reader, spec.HeroNodes(side.value), spent);
  }

  method ReadTreePart(nodes: Nodes, part: string, spent: Spent) returns (ok: bool)
    requires Readable(HashAlphabet, part)
    modifies spent
    ensures ok == ReadBuys(nodes, TextBits(HashAlphabet, part)).Ok?
    ensures ok ==>
      spent.Value() == Spend(old(spent.Value()), ReadBuys(nodes, TextBits(HashAlphabet, part)).value)
  {
    var reader := new BitReader(HashAlphabet, part);
    ok := ReadTree(reader, nodes, spent);
  }

  /** Read the three tree parts into one record of what was spent. */
  method ReadSpending(spec: SpecTree, parts: Parts) returns (ok: bool, spent: Spent, hero: Option<Bit>)
    requires parts.AllReadable()
    ensures fresh(spent)
    ensures ok == ReadTrees(spec, 0, parts).Ok?
    ensures ok ==>
      var contents := ReadTrees(spec, 0, parts).value;
      && hero == contents.HeroSide()
      && spent.Value() == Spend(NOTHING_SPENT, AllBuys(contents))
  {
    hide ReadBuys, ReadHero, TextBits, Spend;
    spent := new Spent();
    hero := None;
    ok := ReadTreePart(spec.classNodes, parts.classTree, spent);
    if !ok {
      return;
    }
    ghost var classBuys := ReadBuys(spec.classNodes, TextBits(HashAlphabet, parts.classTree)).value;
    ok := ReadTreePart(spec.specNodes, parts.specTree, spent);
    if !ok {
      return;
    }
    ghost var specBuys := ReadBuys(spec.specNodes, TextBits(HashAlphabet, parts.specTree)).value;
    ok, hero := ReadHeroPart(spec, parts.hero, spent);
    if ok {
      ghost var contents := ReadTrees(spec, 0, parts).value;
      SpendConcat(NOTHING_SPENT, classBuys, specBuys);
      SpendConcat(NOTHING_SPENT, classBuys + specBuys, contents.HeroBuys());
    }
  }

  lemma ReadTreesSpecId(spec: SpecTree, specId: nat, parts: Parts)
    requires parts.AllReadable()
    ensures ReadTrees(spec, specId, parts) ==
            if ReadTrees(spec, 0, parts).Ok? then Ok(ReadTrees(spec, 0, parts).value.(specId := specId)) else Rejected
  {
    hide ReadBuys, ReadHero, TextBits;
  }

  method CheckTrees(spec: SpecTree, spent: Spent, plan: Plan) returns (ok: bool)
    requires plan.spending == spent.Value()
    ensures ok == Accepted(spec, plan)
  {
    hide TreeAccepted;
    ok := CheckTree(spec.classNodes, spent, 0);
    if ok {
      ok := CheckTree(spec.specNodes, spent, plan.apexRanks);
    }
    if ok {
      ok := CheckTree(HeroNodesOf(spec, plan.hero), spent, 0);
    }
  }

  method WriteExport(specId: nat, tree: ClassTree, spent: Spent, plan: Plan) returns (text: string)
    requires plan.spending == spent.Value() && EntriesKnown(plan)
    ensures text == ExportText(specId, plan, AllNodeIds(tree))
  {
    hide BitsOf, RecordsBits, AllNodeIds, TextOf;
    var writer := new BitWriter();
    writer.Write(EXPORT_VERSION, 8);
    writer.Write(specId, 16);
    writer.Write(0, 128);
    assert writer.bits == HeaderBits(specId);
    var ids := CollectNodeIds(tree);
    WriteRecords(writer, ids, spent, plan);
    text := writer.Text();
  }

  method ReadSpecId(parts: Parts) returns (specId: nat)
    requires parts.AllReadable()
    ensures specId == PartsSpecId(parts)
  {
    var reader := new BitReader(HashAlphabet, parts.spec);
    var value := reader.Read(12);
    specId := OrZero(value);
  }

  method ExportString(code: string, tree: ClassTree) returns (result: Result<string>)
    requires WellFormed(tree)
    ensures result == ExportCode(code, tree)
  {
    hide ReadTrees, PartsSpecId, Accepted, ExportText;
    var parts := HashParts(code);
    if parts.Rejected? || !parts.value.AllReadable() {
      return Rejected;
    }
    var specId := ReadSpecId(parts.value);
    var spec := SpecById(tree.specs, specId);
    if spec.Rejected? {
      return Rejected;
    }
    ReadTreesSpecId(spec.value, specId, parts.value);
    var ok, spent, hero := ReadSpending(spec.value, parts.value);
    if !ok {
      return Rejected;
    }
    ghost var contents := ReadContents(code, tree).value;
    ReadContentsValid(code, tree);
    ReadTreesApex(spec.value, parts.value);
    BoughtEntries(spec.value, contents);
    var entries := CountApexEntries(parts.value.apex);
    var plan := Plan(
      MergedNodes(spec.value, hero), spent.Value(), spec.value.heroMetaId, hero, spec.value.apexId,
      ApexRanks(spec.value, entries));
    assert plan == PlanOf(spec.value, contents);
    ok := CheckTrees(spec.value, spent, plan);
    if !ok {
      return Rejected;
    }
    var text := WriteExport(specId, tree, spent, plan);
    result := Ok(text);
  }

  lemma ReadTreesApex(spec: SpecTree, parts: Parts)
    requires parts.AllReadable()
    ensures ReadTrees(spec, 0, parts).Ok? ==> ReadTrees(spec, 0, parts).value.apexEntries == |parts.apex|
  {
    hide ReadBuys, ReadHero, TextBits;
  }

  // ---------------------------------------------------------------- the decoder

  /** A purchased node: its ranks when the record is partial, its entry when the node is a choice. */
  datatype Taken = Taken(ranks: Option<nat>, entry: Option<nat>)

  /** Python's truth of a read: neither `None` nor zero. */
  predicate Truthy(value: Option<nat>)
  {
    value.Some? && value.value != 0
  }

  /** A flag, and the field after it when the flag is set. */
  function DecodeField(rest: seq<Bit>, width: nat): (Option<nat>, seq<Bit>)
  {
    var later := After(rest, 1);
    if Truthy(Peek(rest, 1)) then (Peek(later, width), After(later, width)) else (None, later)
  }

  function DecodeOne(rest: seq<Bit>): (Option<Taken>, seq<Bit>)
  {
    var selected := After(rest, 1);
    if !Truthy(Peek(rest, 1)) then (None, selected)
    else
      var purchased := After(selected, 1);
      if !Truthy(Peek(selected, 1)) then (None, purchased)
      else
        var (ranks, ranked) := DecodeField(purchased, 6);
        var (entry, chosen) := DecodeField(ranked, 2);
        (Some(Taken(ranks, entry)), chosen)
  }

  function DecodeAll(rest: seq<Bit>, ids: seq<int>): map<int, Taken>
    decreases |ids|
  {
    if ids == [] then map[]
    else
      var (taken, later) := DecodeOne(rest);
      var others := DecodeAll(later, ids[1..]);
      if taken.Some? then map[ids[0] := taken.value] + others else others
  }

  /** The spec id and the purchased nodes of an import string; nothing when it does not read as a loadout. */
  function Decode(text: string, ids: seq<int>): Option<(nat, map<int, Taken>)>
  {
    if !Readable(ExportAlphabet, text) then None
    else
      var bits := TextBits(ExportAlphabet, text);
      var version := After(bits, 8);
      var spec := After(version, 16);
      if Peek(bits, 8) != Some(EXPORT_VERSION) || Peek(version, 16).None? || Peek(spec, 128).None? then None
      else Some((Peek(version, 16).value, DecodeAll(After(spec, 128), ids)))
  }

  method ReadField(reader: BitReader, width: nat) returns (value: Option<nat>)
    requires reader.Valid()
    modifies reader
    ensures reader.Valid() && (value, reader.Rest()) == DecodeField(old(reader.Rest()), width)
  {
    var flag := reader.Read(1);
    value := None;
    if Truthy(flag) {
      value := reader.Read(width);
    }
  }

  method ReadRecord(reader: BitReader) returns (taken: Option<Taken>)
    requires reader.Valid()
    modifies reader
    ensures reader.Valid() && (taken, reader.Rest()) == DecodeOne(old(reader.Rest()))
  {
    hide Peek, After, DecodeField;
    var selected := reader.Read(1);
    if !Truthy(selected) {
      return None;
    }
    var purchased := reader.Read(1);
    if !Truthy(purchased) {
      return None;
    }
    var ranks := ReadField(reader, 6);
    var entry := ReadField(reader, 2);
    taken := Some(Taken(ranks, entry));
  }

  method ReadRecords(reader: BitReader, ids: seq<int>) returns (purchased: map<int, Taken>)
    requires reader.Valid()
    modifies reader
    ensures purchased == DecodeAll(old(reader.Rest()), ids)
  {
    hide DecodeOne;
    ghost var records := reader.Rest();
    purchased := map[];
    for i := 0 to |ids|
      invariant reader.Valid()
      invariant purchased + DecodeAll(reader.Rest(), ids[i..]) == DecodeAll(records, ids)
    {
      assert ids[i..][1..] == ids[i + 1..];
      var taken := ReadRecord(reader);
      ghost var others := DecodeAll(reader.Rest(), ids[i + 1..]);
      if taken.Some? {
        assert purchased + (map[ids[i] := taken.value] + others) == purchased[ids[i] := taken.value] + others;
        purchased := purchased[ids[i] := taken.value];
      }
    }
  }

  method PurchasedTalents(text: string, ids: seq<int>) returns (result: Option<(nat, map<int, Taken>)>)
    ensures result == Decode(text, ids)
  {
    hide DecodeAll, TextBits, Peek, After;
    if !Readable(ExportAlphabet, text) {
      return None;
    }
    var reader := new BitReader(ExportAlphabet, text);
    var version := reader.Read(8);
    if version != Some(EXPORT_VERSION) {
      return None;
    }
    var specId := reader.Read(16);
    if specId.None? {
      return None;
    }
    var treeHash := reader.Read(128);
    if treeHash.None? {
      return None;
    }
    var purchased := ReadRecords(reader, ids);
    result := Some((specId.value, purchased));
  }

  /** Whether two import strings buy the same talents over a class's tree data. */
  predicate SameTalents(left: string, right: string, tree: ClassTree)
  {
    var ids := AllNodeIds(tree);
    Decode(left, ids).Some? && Decode(left, ids) == Decode(right, ids)
  }

  // ---------------------------------------------------------------- decoding what was written

  /** What a record says is purchased. */
  function Meaning(record: Record): Option<Taken>
  {
    match record
    case Unselected => None
    case Granted => None
    case Full => Some(Taken(None, None))
    case Partial(ranks) => Some(Taken(Some(ranks), None))
    case Chosen(entry) => Some(Taken(None, Some(entry)))
  }

  lemma ReadFlag(flag: Bit, tail: seq<Bit>)
    ensures Peek([flag] + tail, 1) == Some(flag) && After([flag] + tail, 1) == tail
  {
    OneBit([flag] + tail);
  }

  lemma ReadSetField(value: nat, width: nat, tail: seq<Bit>)
    requires value < Pow2(width)
    ensures DecodeField([1] + (BitsOf(value, width) + tail), width) == (Some(value), tail)
  {
    ReadFlag(1, BitsOf(value, width) + tail);
    PeekWritten(value, width, tail);
  }

  lemma ReadClearField(width: nat, tail: seq<Bit>)
    ensures DecodeField([0] + tail, width) == (None, tail)
  {
    ReadFlag(0, tail);
  }

  lemma DecodePurchased(fields: seq<Bit>)
    ensures DecodeOne([1] + ([1] + fields)) ==
            var (ranks, ranked) := DecodeField(fields, 6);
            var (entry, chosen) := DecodeField(ranked, 2);
            (Some(Taken(ranks, entry)), chosen)
  {
    ReadFlag(1, [1] + fields);
    ReadFlag(1, fields);
  }

  lemma DecodePartial(ranks: nat, tail: seq<Bit>)
    requires ranks < 64
    ensures DecodeOne(RecordBits(Partial(ranks)) + tail) == (Meaning(Partial(ranks)), tail)
  {
    PowersOfTwo();
    hide Peek, After, DecodeField, BitsOf, DecodeOne;
    var fields := [1] + (BitsOf(ranks, 6) + ([0] + tail));
    assert RecordBits(Partial(ranks)) + tail == [1] + ([1] + fields);
    DecodePurchased(fields);
    ReadSetField(ranks, 6, [0] + tail);
    ReadClearField(2, tail);
  }

  lemma DecodeChosen(entry: nat, tail: seq<Bit>)
    requires entry < 4
    ensures DecodeOne(RecordBits(Chosen(entry)) + tail) == (Meaning(Chosen(entry)), tail)
  {
    PowersOfTwo();
    hide Peek, After, DecodeField, BitsOf, DecodeOne;
    var fields := [0] + ([1] + (BitsOf(entry, 2) + tail));
    assert RecordBits(Chosen(entry)) + tail == [1] + ([1] + fields);
    DecodePurchased(fields);
    ReadClearField(6, [1] + (BitsOf(entry, 2) + tail));
    ReadSetField(entry, 2, tail);
  }

  lemma DecodeFull(tail: seq<Bit>)
    ensures DecodeOne(RecordBits(Full) + tail) == (Meaning(Full), tail)
  {
    hide Peek, After, DecodeField, DecodeOne;
    assert RecordBits(Full) + tail == [1] + ([1] + ([0] + ([0] + tail)));
    DecodePurchased([0] + ([0] + tail));
    ReadClearField(6, [0] + tail);
    ReadClearField(2, tail);
  }

  /** A record decodes to its meaning and leaves exactly what follows it. */
  lemma DecodeRecord(record: Record, tail: seq<Bit>)
    requires RecordFits(record)
    ensures DecodeOne(RecordBits(record) + tail) == (Meaning(record), tail)
  {
    hide Peek, After, DecodeField, BitsOf;
    match record
    case Unselected =>
      ReadFlag(0, tail);
    case Granted =>
      assert RecordBits(record) + tail == [1] + ([0] + tail);
      ReadFlag(1, [0] + tail);
      ReadFlag(0, tail);
    case Full =>
      DecodeFull(tail);
    case Partial(ranks) =>
      DecodePartial(ranks, tail);
    case Chosen(entry) =>
      DecodeChosen(entry, tail);
  }

  ghost predicate PlanFits(plan: Plan)
  {
    forall id :: RecordFits(RecordOf(plan, id))
  }

  lemma {:induction false} DecodeRecords(plan: Plan, ids: seq<int>, tail: seq<Bit>, id: int)
    requires PlanFits(plan)
    ensures var purchased := DecodeAll(RecordsBits(plan, ids) + tail, ids);
            var meant := Meaning(RecordOf(plan, id));
            && (id in purchased <==> id in ids && meant.Some?)
            && (id in purchased ==> purchased[id] == meant.value)
    decreases |ids|
  {
    hide RecordOf, RecordBits, DecodeOne, Meaning;
    if ids != [] {
      var head, rest := ids[0], ids[1..];
      var later := RecordsBits(plan, rest) + tail;
      assert RecordsBits(plan, ids) + tail == RecordBits(RecordOf(plan, head)) + later;
      DecodeRecord(RecordOf(plan, head), later);
      DecodeRecords(plan, rest, tail, id);
      assert ids == [head] + rest;
    }
  }

  lemma DecodeHeader(specId: nat, records: seq<Bit>)
    requires specId < 65536
    ensures var bits := HeaderBits(specId) + records;
            var version := After(bits, 8);
            && Peek(bits, 8) == Some(EXPORT_VERSION)
            && Peek(version, 16) == Some(specId)
            && Peek(After(version, 16), 128).Some?
            && After(After(version, 16), 128) == records
  {
    PowersOfTwo();
    hide BitsOf, Peek, After;
    var treeHash := BitsOf(0, 128) + records;
    assert HeaderBits(specId) + records == BitsOf(EXPORT_VERSION, 8) + (BitsOf(specId, 16) + treeHash);
    PeekWritten(EXPORT_VERSION, 8, BitsOf(specId, 16) + treeHash);
    PeekWritten(specId, 16, treeHash);
    PeekWritten(0, 128, records);
  }

  /** An export text decodes to its spec id and, node by node, the meaning of each record. */
  lemma DecodeExport(specId: nat, plan: Plan, ids: seq<int>, id: int)
    requires specId < 65536 && PlanFits(plan)
    ensures var talents := Decode(ExportText(specId, plan, ids), ids);
            var meant := Meaning(RecordOf(plan, id));
            && talents.Some? && talents.value.0 == specId
            && (id in talents.value.1 <==> id in ids && meant.Some?)
            && (id in talents.value.1 ==> talents.value.1[id] == meant.value)
  {
    hide BitsOf, HeaderBits, RecordsBits, TextBits, SextetText, Peek, After, DecodeAll, RecordOf, Meaning;
    var bits := HeaderBits(specId) + RecordsBits(plan, ids);
    var pad := Zeros(PadLength(|bits|));
    TextBitsOfTextOf(ExportAlphabet, bits);
    assert bits + pad == HeaderBits(specId) + (RecordsBits(plan, ids) + pad);
    DecodeHeader(specId, RecordsBits(plan, ids) + pad);
    DecodeRecords(plan, ids, pad, id);
  }

  lemma PlanOfFits(spec: SpecTree, contents: Contents)
    requires SpecWellFormed(spec)
    ensures PlanFits(PlanOf(spec, contents))
  {
    var plan := PlanOf(spec, contents);
    MergedWellFormed(spec, contents.HeroSide());
    forall id ensures RecordFits(RecordOf(plan, id)) {
      if id in plan.nodes {
        assert 1 <= plan.nodes[id].MaxRanks() <= 64;
      }
    }
  }
}
