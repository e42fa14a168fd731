/**
 The calculator hash: how it is read, and the encoder the format's description implies. The encoder is
 the reference the reader is proved against; the original has no encoder.
 */
module TalentHash {
  import opened Wrappers
  import opened Strings
  import opened IdOrder
  import opened BitCodec
  import opened TalentTrees

  // ---------------------------------------------------------------- one tree part

  /** One turn of the reading loop: the part has ended, does not read, or names one purchase. */
  datatype Turn = Ended | Unreadable | Bought(purchase: Purchase, rest: seq<Bit>)

  function ReadOne(nodes: Nodes, rest: seq<Bit>): (turn: Turn)
    ensures turn.Bought? ==> |turn.rest| < |rest|
  {
    var ids := Sorted(nodes.Keys);
    if |rest| < 6 then Ended
    else
      var index := ValueOf(rest[..6]);
      if index >= |ids| then Unreadable
      else
        assert ids[index] in ids;
        if nodes[ids[index]].kind.Ranked? then Bought(Purchase(ids[index], None), rest[6..])
        else if |rest| < 7 then Unreadable
        else Bought(Purchase(ids[index], Some(rest[6])), rest[7..])
  }

  /** The purchases a tree part spells: a six-bit node index each, and one more bit for a choice. */
  function ReadBuys(nodes: Nodes, rest: seq<Bit>): Result<seq<Purchase>>
    decreases |rest|
  {
    match ReadOne(nodes, rest)
    case Ended => Ok([])
    case Unreadable => Rejected
    case Bought(purchase, later) => Continue([purchase], ReadBuys(nodes, later))
  }

  /** What reading the rest of a part adds to the purchases already read from it. */
  function Continue(done: seq<Purchase>, rest: Result<seq<Purchase>>): Result<seq<Purchase>>
  {
    if rest.Ok? then Ok(done + rest.value) else Rejected
  }

  method ReadNext(reader: BitReader, nodes: Nodes, ids: seq<int>) returns (turn: Turn)
    requires reader.Valid() && ids == Sorted(nodes.Keys)
    modifies reader
    ensures reader.Valid()
    ensures turn == ReadOne(nodes, old(reader.Rest()))
    ensures turn.Bought? ==> reader.Rest() == turn.rest
  {
    ghost var rest := reader.Rest();
    var index := reader.Read(6);
    if index.None? {
      return Ended;
    }
    if index.value >= |ids| {
      return Unreadable;
    }
    var id := ids[index.value];
    assert id in ids;
    if nodes[id].kind.Ranked? {
      return Bought(Purchase(id, None), reader.bits[reader.index..]);
    }
    var choice := reader.Read(1);
    if choice.None? {
      return Unreadable;
    }
    OneBit(rest[6..]);
    turn := Bought(Purchase(id, Some(choice.value)), reader.bits[reader.index..]);
  }

  method ReadTree(reader: BitReader, nodes: Nodes, spent: Spent) returns (ok: bool)
    requires reader.Valid()
    modifies reader, spent
    ensures reader.Valid()
    ensures ok == ReadBuys(nodes, old(reader.Rest())).Ok?
    ensures ok ==> spent.Value() == Spend(old(spent.Value()), ReadBuys(nodes, old(reader.Rest())).value)
  {
    ghost var all := ReadBuys(nodes, reader.Rest());
    ghost var start := spent.Value();
    ghost var done: seq<Purchase> := [];
    var ids := Sorted(nodes.Keys);
    ContinueNone(all);
    while true
      invariant reader.Valid()
      invariant all == Continue(done, ReadBuys(nodes, reader.Rest()))
      invariant spent.Value() == Spend(start, done)
      decreases |reader.Rest()|
    {
      var turn := ReadNext(reader, nodes, ids);
      match turn
      case Ended =>
        assert done + [] == done;
        return true;
      case Unreadable =>
        return false;
      case Bought(purchase, _) =>
        spent.Add(purchase);
        SpendOne(start, done, purchase);
        ContinueOne(done, purchase, ReadBuys(nodes, reader.Rest()));
        done := done + [purchase];
    }
  }

  lemma SpendOne(start: Spending, done: seq<Purchase>, p: Purchase)
    ensures Spend(start, done + [p]) == Buy(Spend(start, done), p)
  {
    SpendConcat(start, done, [p]);
    assert Spend(Buy(Spend(start, done), p), []) == Buy(Spend(start, done), p);
  }

  lemma ContinueNone(all: Result<seq<Purchase>>)
    ensures Continue([], all) == all
  {
    if all.Ok? {
      assert [] + all.value == all.value;
    }
  }

  lemma OneBit(rest: seq<Bit>)
    requires |rest| >= 1
    ensures Peek(rest, 1) == Some(rest[0])
  {
    assert rest[..1] == [rest[0]];
    assert ValueOf([rest[0]][1..]) == 0;
  }

  lemma ContinueOne(done: seq<Purchase>, p: Purchase, rest: Result<seq<Purchase>>)
    ensures Continue(done, Continue([p], rest)) == Continue(done + [p], rest)
  {
    if rest.Ok? {
      assert done + ([p] + rest.value) == (done + [p]) + rest.value;
    }
  }

  /** A purchase the tree can take: an entry exactly for a choice. */
  predicate ValidBuy(nodes: Nodes, p: Purchase)
  {
    p.node in nodes && (p.entry.Some? <==> nodes[p.node].kind.Choice?)
  }

  predicate ValidBuys(nodes: Nodes, buys: seq<Purchase>)
  {
    forall k | 0 <= k < |buys| :: ValidBuy(nodes, buys[k])
  }

  lemma ReadOneValid(nodes: Nodes, rest: seq<Bit>)
    ensures ReadOne(nodes, rest).Bought? ==> ValidBuy(nodes, ReadOne(nodes, rest).purchase)
  {
    hide ValueOf, Sorted;
    var ids := Sorted(nodes.Keys);
    if |rest| >= 6 && ValueOf(rest[..6]) < |ids| {
      assert ids[ValueOf(rest[..6])] in ids;
    }
  }

  lemma {:induction false} ReadBuysValid(nodes: Nodes, rest: seq<Bit>)
    ensures var read := ReadBuys(nodes, rest);
            read.Ok? ==> ValidBuys(nodes, read.value)
    decreases |rest|
  {
    var turn := ReadOne(nodes, rest);
    if turn.Bought? {
      ReadOneValid(nodes, rest);
      ReadBuysValid(nodes, turn.rest);
    }
  }

  // ---------------------------------------------------------------- the reference encoder of a part

  function EntryBits(entry: Option<Bit>): seq<Bit>
  {
    match entry case None => [] case Some(bit) => [bit]
  }

  function BuyBits(nodes: Nodes, p: Purchase): seq<Bit>
    requires p.node in nodes
  {
    BitsOf(IndexOf(Sorted(nodes.Keys), p.node), 6) + EntryBits(p.entry)
  }

  function BuysBits(nodes: Nodes, buys: seq<Purchase>): seq<Bit>
    requires ValidBuys(nodes, buys)
  {
    if buys == [] then []
    else
      assert ValidBuy(nodes, buys[0]);
      BuyBits(nodes, buys[0]) + BuysBits(nodes, buys[1..])
  }

  /** Six bits can name the node: its place among the ids is below 64. */
  predicate Nameable(nodes: Nodes, p: Purchase)
  {
    p.node in nodes && IndexOf(Sorted(nodes.Keys), p.node) < 64
  }

  lemma SmallTreeNameable(nodes: Nodes, buys: seq<Purchase>)
    requires ValidBuys(nodes, buys) && |nodes| <= 64
    ensures forall k | 0 <= k < |buys| :: Nameable(nodes, buys[k])
  {
    hide Sorted, IndexOf;
    assert |Sorted(nodes.Keys)| == |nodes.Keys| == |nodes|;
    forall k | 0 <= k < |buys| ensures Nameable(nodes, buys[k]) {
      assert ValidBuy(nodes, buys[k]);
    }
  }

  lemma ReadOneBuy(nodes: Nodes, p: Purchase, tail: seq<Bit>)
    requires ValidBuy(nodes, p) && Nameable(nodes, p)
    ensures ReadOne(nodes, BuyBits(nodes, p) + tail) == Bought(p, tail)
  {
    hide BitsOf, ValueOf, Sorted, IndexOf;
    var ids := Sorted(nodes.Keys);
    var index := IndexOf(ids, p.node);
    PowersOfTwo();
    ValueOfBitsOf(index, 6);
    var bits := BuyBits(nodes, p) + tail;
    assert bits[..6] == BitsOf(index, 6);
    if p.entry.Some? {
      assert bits[7..] == tail && bits[6] == p.entry.value;
    } else {
      assert bits[6..] == tail;
    }
  }

  lemma ReadOneMore(nodes: Nodes, p: Purchase, rest: seq<Purchase>, later: seq<Bit>)
    requires ValidBuy(nodes, p) && Nameable(nodes, p)
    requires ReadBuys(nodes, later) == Ok(rest)
    ensures ReadBuys(nodes, BuyBits(nodes, p) + later) == Ok([p] + rest)
  {
    var bits := BuyBits(nodes, p) + later;
    ReadOneBuy(nodes, p, later);
    assert ReadBuys(nodes, bits) == Continue([p], ReadBuys(nodes, later));
  }

  lemma BuysBitsHead(nodes: Nodes, buys: seq<Purchase>, tail: seq<Bit>)
    requires ValidBuys(nodes, buys) && buys != []
    ensures ValidBuy(nodes, buys[0]) && ValidBuys(nodes, buys[1..])
    ensures BuysBits(nodes, buys) + tail == BuyBits(nodes, buys[0]) + (BuysBits(nodes, buys[1..]) + tail)
  {
    hide BuyBits;
    assert ValidBuy(nodes, buys[0]);
  }

  /** Purchases six bits can name, encoded, read back as themselves; the padding of the last character is no purchase. */
  lemma {:induction false} ReadNameableBack(nodes: Nodes, buys: seq<Purchase>, tail: seq<Bit>)
    requires ValidBuys(nodes, buys) && |tail| < 6
    requires forall k | 0 <= k < |buys| :: Nameable(nodes, buys[k])
    ensures ReadBuys(nodes, BuysBits(nodes, buys) + tail) == Ok(buys)
  {
    hide ReadBuys, BuyBits, ValidBuy, Nameable;
    if buys == [] {
      ReadNone(nodes, tail);
      assert BuysBits(nodes, buys) + tail == tail;
    } else {
      BuysBitsHead(nodes, buys, tail);
      assert forall k | 0 <= k < |buys[1..]| :: buys[1..][k] == buys[k + 1];
      ReadNameableBack(nodes, buys[1..], tail);
      ReadOneMore(nodes, buys[0], buys[1..], BuysBits(nodes, buys[1..]) + tail);
      assert [buys[0]] + buys[1..] == buys;
    }
  }

  /** Any valid purchase list of a tree of at most 64 nodes, encoded, reads back as itself. */
  lemma ReadBuysBack(nodes: Nodes, buys: seq<Purchase>, tail: seq<Bit>)
    requires ValidBuys(nodes, buys)
    requires |nodes| <= 64 && |tail| < 6
    ensures ReadBuys(nodes, BuysBits(nodes, buys) + tail) == Ok(buys)
  {
    hide ReadBuys, BuysBits, Nameable;
    SmallTreeNameable(nodes, buys);
    ReadNameableBack(nodes, buys, tail);
  }

  lemma ReadNone(nodes: Nodes, tail: seq<Bit>)
    requires |tail| < 6
    ensures ReadBuys(nodes, tail) == Ok([])
  {
  }

  /**
   A tree part written from a valid purchase list is read without error, gives each node the count and
   last entry of its purchases, and spends one point a purchase.
   */
  lemma TreePartRoundTrip(nodes: Nodes, buys: seq<Purchase>, id: int)
    requires ValidBuys(nodes, buys)
    requires |nodes| <= 64
    ensures var read := ReadBuys(nodes, TextBits(HashAlphabet, TextOf(HashAlphabet, BuysBits(nodes, buys))));
            && read.Ok?
            && var spent := Spend(NOTHING_SPENT, read.value);
               && Got(spent.points, id) == Count(buys, id)
               && (id in spent.choices <==> LastEntry(buys, id).Some?)
               && (id in spent.choices ==> Some(spent.choices[id]) == LastEntry(buys, id))
               && TreePoints(nodes, spent.points) == |buys|
  {
    hide BuysBits, ReadBuys, Spend, Count, LastEntry, TextBits, TextOf, PointsOver, Sorted, Zeros;
    var bits := BuysBits(nodes, buys);
    TextBitsOfTextOf(HashAlphabet, bits);
    ReadBuysBack(nodes, buys, Zeros(PadLength(|bits|)));
    SpendPoints(NOTHING_SPENT, buys, id);
    SpendChoices(NOTHING_SPENT, buys, id);
    PointsConserved(nodes, NOTHING_SPENT, buys);
    NoPoints(Sorted(nodes.Keys));
  }

  lemma {:induction false} NoPoints(ids: seq<int>)
    ensures PointsOver(ids, map[]) == 0
  {
    if ids != [] {
      NoPoints(ids[1..]);
    }
  }

  // ---------------------------------------------------------------- the whole hash

  datatype Parts = Parts(spec: string, classTree: string, specTree: string, apex: string, hero: string)
  {
    predicate AllReadable()
    {
      && Readable(HashAlphabet, spec) && Readable(HashAlphabet, classTree) && Readable(HashAlphabet, specTree)
      && Readable(HashAlphabet, apex) && Readable(HashAlphabet, hero)
    }
  }

  /** Six parts, or five from before the apex part; the last is the PvP part. */
  function HashParts(code: string): Result<Parts>
  {
    var parts := Split(code, '-');
    if |parts| == 6 then Ok(Parts(parts[0], parts[1], parts[2], parts[3], parts[4]))
    else if |parts| == 5 then Ok(Parts(parts[0], parts[1], parts[2], "", parts[3]))
    else Rejected
  }

  /** A hash is its five or six parts between dashes: joined again, they are the hash. */
  lemma HashPartsRejoin(code: string) returns (pvp: string)
    requires HashParts(code).Ok?
    ensures var parts := HashParts(code).value;
            && (forall part | part in [parts.spec, parts.classTree, parts.specTree, parts.apex, parts.hero, pvp] ::
                  '-' !in part)
            && (|| code == Join([parts.spec, parts.classTree, parts.specTree, parts.apex, parts.hero, pvp], '-')
                || (parts.apex == ""
                    && code == Join([parts.spec, parts.classTree, parts.specTree, parts.hero, pvp], '-')))
  {
    hide Split, Join;
    var pieces := Split(code, '-');
    JoinSplit(code, '-');
    assert forall k | 0 <= k < |pieces| :: '-' !in pieces[k];
    pvp := pieces[|pieces| - 1];
    var parts := HashParts(code).value;
    if |pieces| == 6 {
      assert pieces == [parts.spec, parts.classTree, parts.specTree, parts.apex, parts.hero, pvp];
    } else {
      assert pieces == [parts.spec, parts.classTree, parts.specTree, parts.hero, pvp];
    }
  }

  datatype HeroPick = HeroPick(side: Bit, buys: seq<Purchase>)

  /** What a hash says: the spec, the purchases in the order made, the apex entries, and the hero part if any. */
  datatype Contents = Contents(
    specId: nat, classBuys: seq<Purchase>, specBuys: seq<Purchase>, apexEntries: nat, hero: Option<HeroPick>)
  {
    function HeroSide(): Option<Bit>
    {
      match hero case None => None case Some(pick) => Some(pick.side)
    }

    function HeroBuys(): seq<Purchase>
    {
      match hero case None => [] case Some(pick) => pick.buys
    }
  }

  function OrZero(value: Option<nat>): nat
  {
    match value case None => 0 case Some(n) => n
  }

  function ReadHero(spec: SpecTree, part: string): Result<Option<HeroPick>>
    requires Readable(HashAlphabet, part)
  {
    if part == "" then Ok(None)
    else
      var bits := TextBits(HashAlphabet, part);
      var side := bits[0];
      var buys :- ReadBuys(spec.HeroNodes(side), bits[1..]);
      Ok(Some(HeroPick(side, buys)))
  }

  function ReadTrees(spec: SpecTree, specId: nat, parts: Parts): Result<Contents>
    requires parts.AllReadable()
  {
    var classBuys :- ReadBuys(spec.classNodes, TextBits(HashAlphabet, parts.classTree));
    var specBuys :- ReadBuys(spec.specNodes, TextBits(HashAlphabet, parts.specTree));
    var hero :- ReadHero(spec, parts.hero);
    Ok(Contents(specId, classBuys, specBuys, |parts.apex|, hero))
  }

  function PartsSpecId(parts: Parts): (id: nat)
    requires parts.AllReadable()
    ensures id < 4096
  {
    PowersOfTwo();
    OrZero(Peek(TextBits(HashAlphabet, parts.spec), 12))
  }

  /** The contents of a hash over a class's tree data, or a refusal. */
  function ReadContents(code: string, tree: ClassTree): Result<Contents>
  {
    var parts :- HashParts(code);
    if !parts.AllReadable() then Rejected
    else
      var spec :- SpecById(tree.specs, PartsSpecId(parts));
      ReadTrees(spec, PartsSpecId(parts), parts)
  }

  ghost predicate ValidHero(spec: SpecTree, hero: Option<HeroPick>)
  {
    hero.Some? ==> ValidBuys(spec.HeroNodes(hero.value.side), hero.value.buys)
  }

  ghost predicate FitsSpec(spec: SpecTree, contents: Contents)
  {
    && ValidBuys(spec.classNodes, contents.classBuys)
    && ValidBuys(spec.specNodes, contents.specBuys)
    && ValidHero(spec, contents.hero)
  }

  /** The contents fit the tree: the spec exists and every purchase is one its tree can take. */
  ghost predicate ValidContents(tree: ClassTree, contents: Contents)
  {
    && contents.specId < 4096
    && SpecById(tree.specs, contents.specId).Ok?
    && FitsSpec(SpecById(tree.specs, contents.specId).value, contents)
  }

  lemma ReadHeroValid(spec: SpecTree, part: string)
    requires Readable(HashAlphabet, part)
    ensures var hero := ReadHero(spec, part);
            hero.Ok? ==> ValidHero(spec, hero.value)
  {
    if part != "" {
      var bits := TextBits(HashAlphabet, part);
      ReadBuysValid(spec.HeroNodes(bits[0]), bits[1..]);
    }
  }

  lemma ReadTreesValid(spec: SpecTree, specId: nat, parts: Parts)
    requires parts.AllReadable() && ReadTrees(spec, specId, parts).Ok?
    ensures var contents := ReadTrees(spec, specId, parts).value;
            contents.specId == specId && FitsSpec(spec, contents)
  {
    ReadBuysValid(spec.classNodes, TextBits(HashAlphabet, parts.classTree));
    ReadBuysValid(spec.specNodes, TextBits(HashAlphabet, parts.specTree));
    ReadHeroValid(spec, parts.hero);
  }

  lemma ReadContentsValid(code: string, tree: ClassTree)
    requires ReadContents(code, tree).Ok?
    ensures ValidContents(tree, ReadContents(code, tree).value)
  {
    var parts := HashParts(code).value;
    var specId := PartsSpecId(parts);
    ReadTreesValid(SpecById(tree.specs, specId).value, specId, parts);
  }

  // ---------------------------------------------------------------- the reference encoder of a hash

  function HeroBits(spec: SpecTree, pick: HeroPick): seq<Bit>
    requires ValidBuys(spec.HeroNodes(pick.side), pick.buys)
  {
    [pick.side] + BuysBits(spec.HeroNodes(pick.side), pick.buys)
  }

  ghost function HeroText(spec: SpecTree, hero: Option<HeroPick>): string
    requires ValidHero(spec, hero)
  {
    match hero case None => "" case Some(pick) => TextOf(HashAlphabet, HeroBits(spec, pick))
  }

  /** The parts the format's description gives for some contents; the apex entries may be any sextets. */
  ghost function EncodeParts(tree: ClassTree, contents: Contents): Parts
    requires ValidContents(tree, contents)
  {
    var spec := SpecById(tree.specs, contents.specId).value;
    Parts(
      TextOf(HashAlphabet, BitsOf(contents.specId, 12)),
      TextOf(HashAlphabet, BuysBits(spec.classNodes, contents.classBuys)),
      TextOf(HashAlphabet, BuysBits(spec.specNodes, contents.specBuys)),
      SextetText(HashAlphabet, Zeros(6 * contents.apexEntries)),
      HeroText(spec, contents.hero))
  }

  /** A hash that spells the contents; `pvp` is its last part. The older form has no apex part. */
  ghost function EncodeHash(tree: ClassTree, contents: Contents, pvp: string, older: bool): string
    requires ValidContents(tree, contents)
  {
    var parts := EncodeParts(tree, contents);
    if older then Join([parts.spec, parts.classTree, parts.specTree, parts.hero, pvp], '-')
    else Join([parts.spec, parts.classTree, parts.specTree, parts.apex, parts.hero, pvp], '-')
  }

  lemma ReadableHasNoDash(text: string)
    requires Readable(HashAlphabet, text)
    ensures '-' !in text
  {
    assert Sextet(HashAlphabet, '-').None?;
  }

  lemma SplitSix(parts: Parts, pvp: string)
    requires parts.AllReadable() && '-' !in pvp
    ensures HashParts(Join([parts.spec, parts.classTree, parts.specTree, parts.apex, parts.hero, pvp], '-')) == Ok(parts)
  {
    ReadableHasNoDash(parts.spec);
    ReadableHasNoDash(parts.classTree);
    ReadableHasNoDash(parts.specTree);
    ReadableHasNoDash(parts.apex);
    ReadableHasNoDash(parts.hero);
    SplitJoin([parts.spec, parts.classTree, parts.specTree, parts.apex, parts.hero, pvp], '-');
  }

  lemma SplitFive(parts: Parts, pvp: string)
    requires parts.AllReadable() && '-' !in pvp
    ensures HashParts(Join([parts.spec, parts.classTree, parts.specTree, parts.hero, pvp], '-')) == Ok(parts.(apex := ""))
  {
    ReadableHasNoDash(parts.spec);
    ReadableHasNoDash(parts.classTree);
    ReadableHasNoDash(parts.specTree);
    ReadableHasNoDash(parts.hero);
    SplitJoin([parts.spec, parts.classTree, parts.specTree, parts.hero, pvp], '-');
  }

  lemma EncodedPartsReadable(tree: ClassTree, contents: Contents)
    requires ValidContents(tree, contents)
    ensures EncodeParts(tree, contents).AllReadable()
  {
  }

  lemma EncodedPartsSplit(tree: ClassTree, contents: Contents, pvp: string, older: bool)
    requires ValidContents(tree, contents) && '-' !in pvp
    requires older ==> contents.apexEntries == 0
    ensures HashParts(EncodeHash(tree, contents, pvp, older)) == Ok(EncodeParts(tree, contents))
  {
    var parts := EncodeParts(tree, contents);
    EncodedPartsReadable(tree, contents);
    if older {
      SplitFive(parts, pvp);
      assert parts.apex == "";
    } else {
      SplitSix(parts, pvp);
    }
  }

  /** Every part's nodes can be named by a six-bit index. */
  ghost predicate Indexable(spec: SpecTree)
  {
    |spec.classNodes| <= 64 && |spec.specNodes| <= 64 && |spec.heroLeft| <= 64 && |spec.heroRight| <= 64
  }

  lemma ReadHeroBack(spec: SpecTree, hero: Option<HeroPick>)
    requires Indexable(spec) && ValidHero(spec, hero)
    ensures Readable(HashAlphabet, HeroText(spec, hero))
    ensures ReadHero(spec, HeroText(spec, hero)) == Ok(hero)
  {
    if hero.Some? {
      var pick := hero.value;
      var nodes := spec.HeroNodes(pick.side);
      var bits := BuysBits(nodes, pick.buys);
      var pad := Zeros(PadLength(1 + |bits|));
      ReadBuysBack(nodes, pick.buys, pad);
      TextAfterBit(pick.side, bits);
    }
  }

  lemma TextAfterBit(bit: Bit, bits: seq<Bit>)
    ensures var text := TextOf(HashAlphabet, [bit] + bits);
            && text != ""
            && TextBits(HashAlphabet, text)[0] == bit
            && TextBits(HashAlphabet, text)[1..] == bits + Zeros(PadLength(1 + |bits|))
  {
    hide TextOf, TextBits;
    var text := TextOf(HashAlphabet, [bit] + bits);
    TextBitsOfTextOf(HashAlphabet, [bit] + bits);
    assert |TextBits(HashAlphabet, text)| >= 1;
  }

  lemma ReadBuysOfText(nodes: Nodes, buys: seq<Purchase>)
    requires ValidBuys(nodes, buys)
    requires |nodes| <= 64
    ensures ReadBuys(nodes, TextBits(HashAlphabet, TextOf(HashAlphabet, BuysBits(nodes, buys)))) == Ok(buys)
  {
    hide BuysBits, ReadBuys, Spend, Count, LastEntry, TextBits, TextOf, PointsOver, Sorted, Zeros;
    var bits := BuysBits(nodes, buys);
    TextBitsOfTextOf(HashAlphabet, bits);
    ReadBuysBack(nodes, buys, Zeros(PadLength(|bits|)));
  }

  lemma ReadSpecIdBack(specId: nat)
    requires specId < 4096
    ensures OrZero(Peek(TextBits(HashAlphabet, TextOf(HashAlphabet, BitsOf(specId, 12))), 12)) == specId
  {
    PowersOfTwo();
    TextBitsOfTextOf(HashAlphabet, BitsOf(specId, 12));
    PeekWritten(specId, 12, Zeros(PadLength(12)));
  }

  lemma ReadTreesFrom(spec: SpecTree, parts: Parts, contents: Contents)
    requires parts.AllReadable()
    requires ReadBuys(spec.classNodes, TextBits(HashAlphabet, parts.classTree)) == Ok(contents.classBuys)
    requires ReadBuys(spec.specNodes, TextBits(HashAlphabet, parts.specTree)) == Ok(contents.specBuys)
    requires ReadHero(spec, parts.hero) == Ok(contents.hero)
    requires |parts.apex| == contents.apexEntries
    ensures ReadTrees(spec, contents.specId, parts) == Ok(contents)
  {
  }

  lemma ReadTreesBack(tree: ClassTree, contents: Contents)
    requires ValidContents(tree, contents)
    requires Indexable(SpecById(tree.specs, contents.specId).value)
    ensures var parts := EncodeParts(tree, contents);
            && parts.AllReadable()
            && PartsSpecId(parts) == contents.specId
            && ReadTrees(SpecById(tree.specs, contents.specId).value, contents.specId, parts) == Ok(contents)
  {
    hide TextOf, SextetText, BitsOf, BuysBits, TextBits, ReadBuys;
    var spec := SpecById(tree.specs, contents.specId).value;
    EncodedPartsReadable(tree, contents);
    ReadSpecIdBack(contents.specId);
    ReadBuysOfText(spec.classNodes, contents.classBuys);
    ReadBuysOfText(spec.specNodes, contents.specBuys);
    ReadHeroBack(spec, contents.hero);
    ReadTreesFrom(spec, EncodeParts(tree, contents), contents);
  }

  /** The reader is the inverse of the format's description. */
  lemma ReadEncodedHash(tree: ClassTree, contents: Contents, pvp: string, older: bool)
    requires ValidContents(tree, contents) && '-' !in pvp
    requires older ==> contents.apexEntries == 0
    requires Indexable(SpecById(tree.specs, contents.specId).value)
    ensures ReadContents(EncodeHash(tree, contents, pvp, older), tree) == Ok(contents)
  {
    EncodedPartsSplit(tree, contents, pvp, older);
    ReadTreesBack(tree, contents);
  }

  // ---------------------------------------------------------------- the spec id at the front

  /** The spec id read from the first two characters, without splitting; 0 when they do not read. */
  function HashSpecId(code: string): nat
  {
    var head := if |code| < 2 then code else code[..2];
    if Readable(HashAlphabet, head) then OrZero(Peek(TextBits(HashAlphabet, head), 12)) else 0
  }

  lemma SplitHead(code: string)
    ensures var first := Split(code, '-')[0];
            first <= code && '-' !in first && (|first| < |code| ==> code[|first|] == '-')
  {
    if code != "" && code[0] != '-' {
      SplitHead(code[1..]);
    }
  }

  lemma {:induction false} TextBitsPrefix(alphabet: Alphabet, text: string, n: nat)
    requires Readable(alphabet, text) && n <= |text|
    ensures Readable(alphabet, text[..n])
    ensures TextBits(alphabet, text[..n]) == TextBits(alphabet, text)[..6 * n]
  {
    hide Sextet, BitsOf;
    assert forall c | c in text[..n] :: c in text;
    if n > 0 {
      var rest := text[1..];
      assert forall c | c in rest :: c in text;
      TextBitsPrefix(alphabet, rest, n - 1);
      assert text[..n][1..] == rest[..n - 1];
      assert text[0] in text;
      var head := BitsOf(Sextet(alphabet, text[0]).value, 6);
      assert TextBits(alphabet, text) == head + TextBits(alphabet, rest);
      assert (head + TextBits(alphabet, rest))[..6 * n] == head + TextBits(alphabet, rest)[..6 * (n - 1)];
    }
  }

  lemma FrontSpecId(code: string, first: string)
    requires Readable(HashAlphabet, first)
    requires first <= code && (|first| < |code| ==> code[|first|] == '-')
    ensures HashSpecId(code) == OrZero(Peek(TextBits(HashAlphabet, first), 12))
  {
    if |first| >= 2 {
      assert code[..2] == first[..2];
      TextBitsPrefix(HashAlphabet, first, 2);
      assert TextBits(HashAlphabet, first)[..12][..12] == TextBits(HashAlphabet, first)[..12];
    } else if |first| < |code| && |code| >= 2 {
      assert '-' in code[..2] by { assert code[..2][|first|] == '-'; }
      assert Sextet(HashAlphabet, '-').None?;
    } else {
      assert code == first || |code| < 2;
    }
  }

  /** The id read off the front of a hash is the id its spec part spells, for every hash that reads. */
  lemma HashSpecIdAgrees(code: string, tree: ClassTree)
    requires ReadContents(code, tree).Ok?
    ensures HashSpecId(code) == ReadContents(code, tree).value.specId
  {
    var first := Split(code, '-')[0];
    SplitHead(code);
    var parts := HashParts(code).value;
    FrontSpecId(code, first);
    ReadTreesValid(SpecById(tree.specs, PartsSpecId(parts)).value, PartsSpecId(parts), parts);
  }
}
