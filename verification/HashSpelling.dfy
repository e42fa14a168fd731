/**
 What a hash spells, as its format is described: dash-separated parts, each a run of letters, the tree parts
 purchase by purchase. Reading a hash is proved to accept exactly what the description allows.
 */
module HashSpelling {
  import opened Wrappers
  import opened Strings
  import opened IdOrder
  import opened BitCodec
  import opened TalentTrees
  import opened TalentHash

  // ---------------------------------------------------------------- one tree part

  /** The bits are the purchases, each a six-bit index and an entry bit for a choice, and fewer than six bits more. */
  ghost predicate SpellsBuys(nodes: Nodes, bits: seq<Bit>, buys: seq<Purchase>)
  {
    && ValidBuys(nodes, buys) && (forall k | 0 <= k < |buys| :: Nameable(nodes, buys[k]))
    && exists tail: seq<Bit> :: |tail| < 6 && bits == BuysBits(nodes, buys) + tail
  }

  lemma {:induction false} IndexOfAscending(ids: seq<int>, k: nat)
    requires Ascending(ids) && k < |ids|
    ensures IndexOf(ids, ids[k]) == k
  {
    if k > 0 {
      assert ids[0] < ids[k];
      IndexOfAscending(ids[1..], k - 1);
      assert ids[1..][k - 1] == ids[k];
    }
  }

  lemma NothingIsShort(nodes: Nodes, rest: seq<Bit>)
    ensures ReadOne(nodes, rest).Ended? <==> |rest| < 6
  {
    hide Sorted, ValueOf;
  }

  lemma OnePurchaseRead(nodes: Nodes, rest: seq<Bit>)
    requires ReadOne(nodes, rest).Bought?
    ensures var p := ReadOne(nodes, rest).purchase;
            && ValidBuy(nodes, p) && Nameable(nodes, p)
            && rest == BuyBits(nodes, p) + ReadOne(nodes, rest).rest
  {
    hide Sorted, ValueOf, BitsOf, IndexOf;
    PowersOfTwo();
    ReadOneValid(nodes, rest);
    var ids, index := Sorted(nodes.Keys), ValueOf(rest[..6]);
    IndexOfAscending(ids, index);
    BitsOfValueOf(rest[..6]);
    assert rest == rest[..6] + rest[6..];
    if |rest| > 6 {
      assert rest[6..] == [rest[6]] + rest[7..];
    }
  }

  lemma SpellsMore(nodes: Nodes, p: Purchase, later: seq<Bit>, buys: seq<Purchase>)
    requires ValidBuy(nodes, p) && Nameable(nodes, p) && SpellsBuys(nodes, later, buys)
    ensures SpellsBuys(nodes, BuyBits(nodes, p) + later, [p] + buys)
  {
    hide BuyBits, Nameable;
    var tail: seq<Bit> :| |tail| < 6 && later == BuysBits(nodes, buys) + tail;
    var all := [p] + buys;
    assert all[0] == p && all[1..] == buys;
    forall k | 0 <= k < |all| ensures ValidBuy(nodes, all[k]) && Nameable(nodes, all[k]) {
      if k > 0 {
        assert all[k] == buys[k - 1];
      }
    }
    BuysBitsHead(nodes, all, tail);
    assert BuyBits(nodes, p) + later == BuysBits(nodes, all) + tail;
  }

  /** What is read was spelled. */
  lemma {:induction false} ReadIsSpelled(nodes: Nodes, rest: seq<Bit>)
    requires ReadBuys(nodes, rest).Ok?
    ensures SpellsBuys(nodes, rest, ReadBuys(nodes, rest).value)
    decreases |rest|
  {
    var turn := ReadOne(nodes, rest);
    hide ReadOne, BuysBits, Nameable, ValidBuy, BuyBits, SpellsBuys;
    NothingIsShort(nodes, rest);
    if turn.Bought? {
      OnePurchaseRead(nodes, rest);
      ReadIsSpelled(nodes, turn.rest);
      SpellsMore(nodes, turn.purchase, turn.rest, ReadBuys(nodes, turn.rest).value);
    } else {
      SpellsNothing(nodes, rest);
    }
  }

  lemma SpellsNothing(nodes: Nodes, rest: seq<Bit>)
    requires |rest| < 6
    ensures SpellsBuys(nodes, rest, [])
  {
    assert rest == BuysBits(nodes, []) + rest;
  }

  /** A tree part is read as some purchases exactly when it spells them. */
  lemma ReadBuysIffSpelled(nodes: Nodes, rest: seq<Bit>, buys: seq<Purchase>)
    ensures ReadBuys(nodes, rest) == Ok(buys) <==> SpellsBuys(nodes, rest, buys)
  {
    hide ReadBuys, BuysBits, Nameable, ValidBuy;
    if ReadBuys(nodes, rest).Ok? {
      ReadIsSpelled(nodes, rest);
    }
    if SpellsBuys(nodes, rest, buys) {
      var tail: seq<Bit> :| |tail| < 6 && rest == BuysBits(nodes, buys) + tail;
      ReadNameableBack(nodes, buys, tail);
    }
  }

  // ---------------------------------------------------------------- the parts

  /** Six parts between dashes, or five without an apex part; the last names the PvP talents. */
  ghost predicate MadeOf(code: string, parts: Parts, pvp: string)
  {
    && (forall part | part in [parts.spec, parts.classTree, parts.specTree, parts.apex, parts.hero, pvp] :: '-' !in part)
    && (|| code == Join([parts.spec, parts.classTree, parts.specTree, parts.apex, parts.hero, pvp], '-')
        || (parts.apex == "" && code == Join([parts.spec, parts.classTree, parts.specTree, parts.hero, pvp], '-')))
  }

  /** A hash splits into its parts exactly when it is made of them. */
  lemma HashPartsIff(code: string, parts: Parts)
    ensures HashParts(code) == Ok(parts) <==> exists pvp :: MadeOf(code, parts, pvp)
  {
    hide Split, Join;
    if HashParts(code) == Ok(parts) {
      var pvp := HashPartsRejoin(code);
      assert MadeOf(code, parts, pvp);
    }
    if pvp :| MadeOf(code, parts, pvp) {
      if code == Join([parts.spec, parts.classTree, parts.specTree, parts.apex, parts.hero, pvp], '-') {
        SplitJoin([parts.spec, parts.classTree, parts.specTree, parts.apex, parts.hero, pvp], '-');
      } else {
        SplitJoin([parts.spec, parts.classTree, parts.specTree, parts.hero, pvp], '-');
      }
    }
  }

  /** The spec part spells an id on twelve bits; one too short for that spells 0. */
  ghost predicate SpellsSpecId(text: string, id: nat)
    requires Readable(HashAlphabet, text)
  {
    if |text| < 2 then id == 0
    else id < 4096 && BitsOf(id, 12) == TextBits(HashAlphabet, text)[..12]
  }

  /** A hero part spells a side, 0 for the left tree, and purchases of that tree; an empty one spells no hero tree. */
  ghost predicate SpellsHero(spec: SpecTree, text: string, hero: Option<HeroPick>)
    requires Readable(HashAlphabet, text)
  {
    if text == "" then hero == None
    else
      && hero.Some?
      && TextBits(HashAlphabet, text)[0] == hero.value.side
      && SpellsBuys(
           if hero.value.side == 0 then spec.heroLeft else spec.heroRight, TextBits(HashAlphabet, text)[1..],
           hero.value.buys)
  }

  lemma SpecIdIff(text: string, id: nat)
    requires Readable(HashAlphabet, text)
    ensures OrZero(Peek(TextBits(HashAlphabet, text), 12)) == id <==> SpellsSpecId(text, id)
  {
    hide ValueOf, BitsOf, TextBits;
    PowersOfTwo();
    if |text| >= 2 {
      BitsOfValueOf(TextBits(HashAlphabet, text)[..12]);
      if id < 4096 {
        ValueOfBitsOf(id, 12);
      }
    }
  }

  lemma HeroIff(spec: SpecTree, text: string, hero: Option<HeroPick>)
    requires Readable(HashAlphabet, text)
    ensures ReadHero(spec, text) == Ok(hero) <==> SpellsHero(spec, text, hero)
  {
    hide ReadBuys, SpellsBuys, TextBits;
    if text != "" {
      var bits := TextBits(HashAlphabet, text);
      assert |bits| >= 1;
      if hero.Some? {
        ReadBuysIffSpelled(spec.HeroNodes(hero.value.side), bits[1..], hero.value.buys);
      }
    }
  }

  // ---------------------------------------------------------------- the whole hash

  /** Every part is readable and spells its share of the contents, over the first spec of the id; the apex part one entry a letter. */
  ghost predicate PartsSpell(parts: Parts, tree: ClassTree, spec: SpecTree, contents: Contents)
  {
    && Readable(HashAlphabet, parts.spec) && Readable(HashAlphabet, parts.classTree)
    && Readable(HashAlphabet, parts.specTree) && Readable(HashAlphabet, parts.apex) && Readable(HashAlphabet, parts.hero)
    && SpellsSpecId(parts.spec, contents.specId) && FirstSpec(tree.specs, contents.specId, spec)
    && SpellsBuys(spec.classNodes, TextBits(HashAlphabet, parts.classTree), contents.classBuys)
    && SpellsBuys(spec.specNodes, TextBits(HashAlphabet, parts.specTree), contents.specBuys)
    && contents.apexEntries == |parts.apex|
    && SpellsHero(spec, parts.hero, contents.hero)
  }

  ghost predicate SpellsHash(code: string, tree: ClassTree, spec: SpecTree, contents: Contents)
  {
    exists parts, pvp :: MadeOf(code, parts, pvp) && PartsSpell(parts, tree, spec, contents)
  }

  lemma {:induction false} FirstSpecFound(specs: seq<SpecTree>, id: nat, spec: SpecTree)
    ensures SpecById(specs, id) == Ok(spec) <==> FirstSpec(specs, id, spec)
  {
    if FirstSpec(specs, id, spec) {
      var k :| 0 <= k < |specs| && specs[k] == spec && spec.id == id && forall j | 0 <= j < k :: specs[j].id != id;
      hide SpecById;
      assert spec in specs;
      var found := SpecById(specs, id).value;
      var l :| 0 <= l < |specs| && specs[l] == found && found.id == id && forall j | 0 <= j < l :: specs[j].id != id;
      assert k == l;
    }
  }

  lemma PartsReadIff(parts: Parts, tree: ClassTree, spec: SpecTree, contents: Contents)
    requires parts.AllReadable() && FirstSpec(tree.specs, PartsSpecId(parts), spec)
    ensures ReadTrees(spec, PartsSpecId(parts), parts) == Ok(contents) <==> PartsSpell(parts, tree, spec, contents)
  {
    hide ReadBuys, ReadHero, SpellsBuys, SpellsHero, SpellsSpecId, TextBits, Peek, OrZero, FirstSpec, Readable;
    SpecIdIff(parts.spec, contents.specId);
    ReadBuysIffSpelled(spec.classNodes, TextBits(HashAlphabet, parts.classTree), contents.classBuys);
    ReadBuysIffSpelled(spec.specNodes, TextBits(HashAlphabet, parts.specTree), contents.specBuys);
    HeroIff(spec, parts.hero, contents.hero);
  }

  lemma SpelledSpecIs(parts: Parts, tree: ClassTree, spec: SpecTree, contents: Contents)
    requires PartsSpell(parts, tree, spec, contents)
    ensures parts.AllReadable() && PartsSpecId(parts) == contents.specId
    ensures SpecById(tree.specs, contents.specId) == Ok(spec)
  {
    hide SpellsBuys, SpellsHero, SpellsSpecId, TextBits, Peek, FirstSpec, SpecById, Readable;
    SpecIdIff(parts.spec, contents.specId);
    FirstSpecFound(tree.specs, contents.specId, spec);
  }

  /** A hash reads as some contents exactly when it spells them over the class's tree data. */
  lemma ReadIffSpelled(code: string, tree: ClassTree, spec: SpecTree, contents: Contents)
    ensures ReadContents(code, tree) == Ok(contents) && SpecById(tree.specs, contents.specId) == Ok(spec)
            <==> SpellsHash(code, tree, spec, contents)
  {
    hide HashParts, MadeOf, PartsSpell, ReadTrees, FirstSpec, SpecById, Readable, TextBits, Peek;
    if ReadContents(code, tree) == Ok(contents) && SpecById(tree.specs, contents.specId) == Ok(spec) {
      var parts := HashParts(code).value;
      HashPartsIff(code, parts);
      var pvp :| MadeOf(code, parts, pvp);
      ReadTreesSpecIdIs(SpecById(tree.specs, PartsSpecId(parts)).value, PartsSpecId(parts), parts);
      FirstSpecFound(tree.specs, contents.specId, spec);
      PartsReadIff(parts, tree, spec, contents);
    }
    if SpellsHash(code, tree, spec, contents) {
      var parts, pvp :| MadeOf(code, parts, pvp) && PartsSpell(parts, tree, spec, contents);
      HashPartsIff(code, parts);
      SpelledSpecIs(parts, tree, spec, contents);
      FirstSpecFound(tree.specs, contents.specId, spec);
      PartsReadIff(parts, tree, spec, contents);
    }
  }

  lemma ReadTreesSpecIdIs(spec: SpecTree, specId: nat, parts: Parts)
    requires parts.AllReadable() && ReadTrees(spec, specId, parts).Ok?
    ensures ReadTrees(spec, specId, parts).value.specId == specId
  {
    hide ReadBuys, ReadHero, TextBits;
  }

  /** The quick reader gives the id the first two letters spell, and 0 when they do not read. */
  lemma QuickSpecId(code: string)
    ensures if |code| >= 2 && Readable(HashAlphabet, code[..2]) then SpellsSpecId(code[..2], HashSpecId(code))
            else HashSpecId(code) == 0
  {
    hide TextBits, ValueOf, BitsOf;
    if |code| >= 2 && Readable(HashAlphabet, code[..2]) {
      SpecIdIff(code[..2], HashSpecId(code));
    }
  }
}
