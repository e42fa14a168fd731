/**
 The converted rows, said over the rows of the page: which published row buys a build's talents, what each row
 puts in the answer, and which label an added row carries.
 */
module ConversionLaws {
  import opened Wrappers
  import opened Sequences
  import opened Strings
  import opened TalentTrees
  import opened TalentHash
  import opened TalentExport
  import opened TalentConversion

  // ---------------------------------------------------------------- published rows

  /** Both strings decode, to one spec id and one set of talents. */
  ghost predicate BuysSame(left: string, right: string, tree: ClassTree)
  {
    exists talents ::
      Decode(left, AllNodeIds(tree)) == Some(talents) && Decode(right, AllNodeIds(tree)) == Some(talents)
  }

  lemma SameIsSame(left: string, right: string, tree: ClassTree)
    ensures SameTalents(left, right, tree) <==> BuysSame(left, right, tree)
  {
    hide Decode, AllNodeIds;
  }

  /** Row `k` publishes a string that buys the same talents. */
  ghost predicate PublishedAt(rows: seq<Row>, k: nat, text: string, tree: ClassTree)
  {
    k < |rows| && rows[k].kind.Published? && BuysSame(rows[k].code, text, tree)
  }

  /** Row `k` is the first that does. */
  ghost predicate TwinAt(rows: seq<Row>, k: nat, text: string, tree: ClassTree)
  {
    PublishedAt(rows, k, text, tree) && forall j: nat | j < k :: !PublishedAt(rows, j, text, tree)
  }

  ghost predicate Unpublished(rows: seq<Row>, text: string, tree: ClassTree)
  {
    forall k: nat :: !PublishedAt(rows, k, text, tree)
  }

  /** The codes looked at are exactly those of the published rows. */
  lemma {:induction false} PublishedCodesAre(rows: seq<Row>, code: string)
    ensures code in PublishedCodes(rows) <==>
            exists k :: 0 <= k < |rows| && rows[k].kind.Published? && rows[k].code == code
  {
    if rows != [] {
      PublishedCodesAre(rows[1..], code);
      assert rows == [rows[0]] + rows[1..];
      if k :| 0 <= k < |rows[1..]| && rows[1..][k].kind.Published? && rows[1..][k].code == code {
        assert rows[k + 1].kind.Published? && rows[k + 1].code == code;
      }
    }
  }

  /** Looking for a twin finds the first published row that buys the talents, and nothing exactly when no row does. */
  lemma {:induction false} TwinIsFirst(rows: seq<Row>, text: string, tree: ClassTree)
    ensures var twin := FirstTwin(PublishedCodes(rows), text, tree);
            && (twin.None? <==> Unpublished(rows, text, tree))
            && (twin.Some? ==> exists k: nat :: k < |rows| && TwinAt(rows, k, text, tree) && rows[k].code == twin.value)
  {
    hide BuysSame, PublishedCodes, FirstTwin, PublishedAt;
    if rows == [] {
      NothingPublished(text, tree);
    } else {
      var row, rest := rows[0], rows[1..];
      assert rows == [row] + rest;
      TwinIsFirst(rest, text, tree);
      FirstTwinCons(row, rest, text, tree);
      PublishedCons(row, rest, text, tree);
      if PublishedAt(rows, 0, text, tree) {
        assert TwinAt(rows, 0, text, tree);
      } else if FirstTwin(PublishedCodes(rest), text, tree).Some? {
        var k: nat :| k < |rest| && TwinAt(rest, k, text, tree) && rest[k].code == FirstTwin(PublishedCodes(rest), text, tree).value;
        PublishedLater(row, rest, text, tree, k);
      }
    }
  }

  lemma NothingPublished(text: string, tree: ClassTree)
    ensures FirstTwin(PublishedCodes([]), text, tree).None? && Unpublished([], text, tree)
  {
  }

  lemma PublishedCons(row: Row, rest: seq<Row>, text: string, tree: ClassTree)
    ensures PublishedAt([row] + rest, 0, text, tree) <==> row.kind.Published? && BuysSame(row.code, text, tree)
    ensures Unpublished([row] + rest, text, tree) <==>
            !PublishedAt([row] + rest, 0, text, tree) && Unpublished(rest, text, tree)
  {
    hide BuysSame;
    var rows := [row] + rest;
    forall k: nat ensures PublishedAt(rows, k + 1, text, tree) <==> PublishedAt(rest, k, text, tree) {
    }
    if !PublishedAt(rows, 0, text, tree) && Unpublished(rest, text, tree) {
      forall k: nat ensures !PublishedAt(rows, k, text, tree) {
        if k > 0 {
          assert !PublishedAt(rest, k - 1, text, tree);
        }
      }
    }
  }

  lemma PublishedLater(row: Row, rest: seq<Row>, text: string, tree: ClassTree, k: nat)
    requires !PublishedAt([row] + rest, 0, text, tree) && TwinAt(rest, k, text, tree)
    ensures TwinAt([row] + rest, k + 1, text, tree)
    ensures ([row] + rest)[k + 1].code == rest[k].code
  {
    hide BuysSame;
    forall j: nat | j < k + 1 ensures !PublishedAt([row] + rest, j, text, tree) {
      if j > 0 {
        assert !PublishedAt(rest, j - 1, text, tree);
      }
    }
  }

  lemma FirstTwinCons(row: Row, rest: seq<Row>, text: string, tree: ClassTree)
    ensures FirstTwin(PublishedCodes([row] + rest), text, tree) ==
            if row.kind.Published? && BuysSame(row.code, text, tree) then Some(row.code)
            else FirstTwin(PublishedCodes(rest), text, tree)
  {
    hide SameTalents, BuysSame;
    SameIsSame(row.code, text, tree);
    var rows := [row] + rest;
    assert rows[1..] == rest;
    var codes := PublishedCodes(rest);
    if row.kind.Published? {
      assert ([row.code] + codes)[1..] == codes;
    } else {
      assert [] + codes == codes;
    }
  }

  // ---------------------------------------------------------------- what each row puts in the answer

  /** A calculator row converts: its spec id has a class, whose tree data loads, over which its hash converts. */
  ghost predicate Builds(site: Site, row: Row, conversion: Conversion)
  {
    && row.kind.Calculator?
    && site.treeUrl(HashSpecId(row.code)) == Some(conversion.treeUrl)
    && site.loadTree(conversion.treeUrl) == Ok(conversion.tree)
    && ExportCode(row.code, conversion.tree) == Ok(conversion.text)
  }

  /** The code is five or six parts between dashes. */
  ghost predicate MadeOfParts(code: string, parts: seq<string>)
  {
    && (|parts| == 5 || |parts| == 6) && (forall part | part in parts :: '-' !in part)
    && code == Join(parts, '-')
  }

  ghost predicate OtherThanA(part: string)
  {
    exists k :: 0 <= k < |part| && part[k] != 'A'
  }

  /** The last of its parts has a letter other than `A`. */
  ghost predicate PicksPvp(code: string)
  {
    exists parts :: MadeOfParts(code, parts) && OtherThanA(parts[|parts| - 1])
  }

  /** Row `j` converts to a string no row publishes. */
  ghost predicate Gives(site: Site, rows: seq<Row>, j: nat, text: string)
  {
    j < |rows| &&
    exists conversion :: Builds(site, rows[j], conversion) && conversion.text == text
                         && Unpublished(rows, text, conversion.tree)
  }

  /** The labels of all rows that convert to a string, in row order. */
  ghost predicate LabelsGiven(site: Site, rows: seq<Row>, text: string, count: nat, captions: seq<Option<string>>)
    requires count <= |rows|
  {
    if count == 0 then captions == []
    else if Gives(site, rows, count - 1, text) then
      && captions != [] && captions[|captions| - 1] == rows[count - 1].caption
      && LabelsGiven(site, rows, text, count - 1, captions[..|captions| - 1])
    else LabelsGiven(site, rows, text, count - 1, captions)
  }

  /** The texts joined by " / ", from the front. */
  ghost predicate Joins(texts: seq<string>, joined: string)
  {
    if texts == [] then joined == ""
    else if |texts| == 1 then joined == texts[0]
    else exists rest :: joined == texts[0] + " / " + rest && Joins(texts[1..], rest)
  }

  /** The texts are the labels that are there and not empty, in order. */
  ghost predicate Filters(captions: seq<Option<string>>, texts: seq<string>)
  {
    if captions == [] then texts == []
    else if captions[0] == None || captions[0] == Some("") then Filters(captions[1..], texts)
    else texts != [] && captions[0] == Some(texts[0]) && Filters(captions[1..], texts[1..])
  }

  /** One build keeps its label; several join their non-empty ones, none if there are none. */
  ghost predicate LabelSays(captions: seq<Option<string>>, caption: Option<string>)
  {
    if |captions| == 1 then caption == captions[0]
    else
      exists texts, joined :: Filters(captions, texts) && Joins(texts, joined)
        && caption == if texts == [] then None else Some(joined)
  }

  /** The string a row that keeps its URL names: the twin's, else its own. */
  ghost predicate Names(rows: seq<Row>, conversion: Conversion, text: string)
  {
    if Unpublished(rows, conversion.text, conversion.tree) then text == conversion.text
    else exists k: nat :: TwinAt(rows, k, conversion.text, conversion.tree) && text == rows[k].code
  }

  /** The annotated row, kept on pages that keep URLs and for builds with PvP talents. */
  ghost predicate Notes(
      rows: seq<Row>, keepUrls: bool, row: Row, conversion: Conversion, noted: seq<Answer>)
  {
    if keepUrls || PicksPvp(row.code) then
      |noted| == 1 && noted[0].Annotated? && noted[0].row == row && noted[0].treeUrl == conversion.treeUrl
      && Names(rows, conversion, noted[0].text)
    else noted == []
  }

  /** The added row, at the first build of a string that no row publishes. */
  ghost predicate Adds(
      site: Site, rows: seq<Row>, i: nat, conversion: Conversion, added: seq<Answer>)
    requires i < |rows|
  {
    if Unpublished(rows, conversion.text, conversion.tree)
       && forall j: nat | j < i :: !Gives(site, rows, j, conversion.text)
    then
      && |added| == 1 && added[0].Added? && added[0].text == conversion.text && added[0].origin == rows[i]
      && added[0].treeUrl == conversion.treeUrl
      && exists captions :: LabelsGiven(site, rows, conversion.text, |rows|, captions)
                            && LabelSays(captions, added[0].caption)
    else added == []
  }

  /** What row `i` puts in the answer. */
  ghost predicate Puts(site: Site, rows: seq<Row>, keepUrls: bool, i: nat, block: seq<Answer>)
    requires i < |rows|
  {
    if !rows[i].kind.Calculator? then block == [AsGiven(rows[i])]
    else if forall conversion :: !Builds(site, rows[i], conversion) then block == [FailedRow(rows[i])]
    else
      exists conversion, noted, added ::
        && Builds(site, rows[i], conversion)
        && Notes(rows, keepUrls, rows[i], conversion, noted)
        && Adds(site, rows, i, conversion, added)
        && block == noted + added
  }

  // ---------------------------------------------------------------- the model's terms in these

  lemma BuildsIff(site: Site, row: Row, conversion: Conversion)
    ensures Builds(site, row, conversion) <==> row.kind.Calculator? && Convert(site, row) == Ok(conversion)
  {
    hide ExportCode, HashSpecId;
  }

  lemma PicksPvpIff(code: string)
    ensures PicksPvp(code) <==> NamesPvpTalents(code)
  {
    hide Split, Join;
    JoinSplit(code, '-');
    if NamesPvpTalents(code) {
      assert MadeOfParts(code, Split(code, '-'));
    }
    if parts :| MadeOfParts(code, parts) && OtherThanA(parts[|parts| - 1]) {
      SplitJoin(parts, '-');
    }
  }

  lemma GivesIff(site: Site, rows: seq<Row>, j: nat, text: string)
    requires j < |rows|
    ensures Gives(site, rows, j, text) <==> FreshExport(site, PublishedCodes(rows), rows[j]) == Some(text)
  {
    hide Builds, Unpublished, Convert, PublishedCodes, FirstTwin;
    forall conversion
      ensures Builds(site, rows[j], conversion) <==> rows[j].kind.Calculator? && Convert(site, rows[j]) == Ok(conversion)
    {
      BuildsIff(site, rows[j], conversion);
    }
    if rows[j].kind.Calculator? && Convert(site, rows[j]).Ok? {
      var conversion := Convert(site, rows[j]).value;
      TwinIsFirst(rows, conversion.text, conversion.tree);
    }
  }

  lemma {:induction false} LabelsAreGiven(site: Site, rows: seq<Row>, text: string, count: nat)
    requires count <= |rows|
    ensures LabelsGiven(site, rows, text, count, Labels(site, PublishedCodes(rows), rows[..count], text))
  {
    hide Gives, FreshExport, PublishedCodes;
    if count > 0 {
      LabelsAreGiven(site, rows, text, count - 1);
      GivesIff(site, rows, count - 1, text);
      var before := Labels(site, PublishedCodes(rows), rows[..count - 1], text);
      assert rows[..count] == rows[..count - 1] + [rows[count - 1]];
      LabelsGrow(site, PublishedCodes(rows), rows[..count - 1], rows[count - 1], text);
      if Gives(site, rows, count - 1, text) {
        assert (before + [rows[count - 1].caption])[..|before|] == before;
      }
    }
  }

  lemma {:induction false} NonEmptyFilters(captions: seq<Option<string>>)
    ensures Filters(captions, NonEmpty(captions))
  {
    if captions != [] {
      NonEmptyFilters(captions[1..]);
      var rest := NonEmpty(captions[1..]);
      assert NonEmpty(captions) == TextIfAny(captions[0]) + rest;
      if TextIfAny(captions[0]) == [] {
        assert NonEmpty(captions) == rest;
      } else {
        assert NonEmpty(captions)[1..] == rest;
      }
    }
  }

  lemma {:induction false} JoinLabelsJoins(texts: seq<string>)
    ensures Joins(texts, JoinLabels(texts))
  {
    if |texts| > 1 {
      JoinLabelsJoins(texts[1..]);
    }
  }

  lemma SharedLabelSays(captions: seq<Option<string>>)
    ensures LabelSays(captions, SharedLabel(captions))
  {
    hide NonEmpty, JoinLabels, Filters, Joins;
    var texts := NonEmpty(captions);
    NonEmptyFilters(captions);
    JoinLabelsJoins(texts);
    NonEmptyTexts(captions);
    if texts == [] {
      NothingJoined();
    } else {
      JoinLabelsNonEmpty(texts);
    }
  }

  lemma NothingJoined()
    ensures JoinLabels([]) == ""
  {
  }

  lemma NamesText(rows: seq<Row>, conversion: Conversion)
    ensures var twin := FirstTwin(PublishedCodes(rows), conversion.text, conversion.tree);
            && (twin.None? <==> Unpublished(rows, conversion.text, conversion.tree))
            && Names(rows, conversion, if twin.Some? then twin.value else conversion.text)
  {
    hide PublishedCodes, FirstTwin, Unpublished;
    TwinIsFirst(rows, conversion.text, conversion.tree);
  }

  lemma AddedIs(site: Site, rows: seq<Row>, i: nat, conversion: Conversion)
    requires i < |rows| && FateOf(site, PublishedCodes(rows), rows[i]) == Fresh(conversion)
    ensures Adds(site, rows, i, conversion,
                 if FirstOfItsExport(site, PublishedCodes(rows), rows, i) then
                   [Added(conversion.text, SharedLabel(Labels(site, PublishedCodes(rows), rows, conversion.text)), rows[i],
                          conversion.treeUrl)]
                 else [])
  {
    hide FateOf, PublishedCodes, Labels, SharedLabel, FreshExport, Gives, LabelsGiven, LabelSays, Unpublished, FirstTwin,
      Convert;
    FreshTextIs(site, PublishedCodes(rows), rows[i]);
    TwinIsFirst(rows, conversion.text, conversion.tree);
    FreshHasNoTwin(site, PublishedCodes(rows), rows[i]);
    forall j: nat | j < i
      ensures Gives(site, rows, j, conversion.text) <==>
              FreshExport(site, PublishedCodes(rows), rows[j]) == FreshExport(site, PublishedCodes(rows), rows[i])
    {
      GivesIff(site, rows, j, conversion.text);
    }
    var captions := Labels(site, PublishedCodes(rows), rows, conversion.text);
    LabelsAreGiven(site, rows, conversion.text, |rows|);
    assert rows[..|rows|] == rows;
    SharedLabelSays(captions);
  }

  lemma FreshTextIs(site: Site, published: seq<string>, row: Row)
    requires FateOf(site, published, row).Fresh?
    ensures FreshExport(site, published, row) == Some(FateOf(site, published, row).conversion.text)
  {
    hide FateOf;
  }

  lemma FreshHasNoTwin(site: Site, published: seq<string>, row: Row)
    requires FateOf(site, published, row).Fresh?
    ensures var conversion := FateOf(site, published, row).conversion;
            && row.kind.Calculator? && Convert(site, row) == Ok(conversion)
            && FirstTwin(published, conversion.text, conversion.tree).None?
  {
    hide Convert, FirstTwin;
  }

  lemma TwinnedHasTwin(site: Site, published: seq<string>, row: Row)
    requires FateOf(site, published, row).Twinned?
    ensures var fate := FateOf(site, published, row);
            && row.kind.Calculator? && Convert(site, row) == Ok(fate.conversion)
            && FirstTwin(published, fate.conversion.text, fate.conversion.tree) == Some(fate.twin)
  {
    hide Convert, FirstTwin;
  }

  // ---------------------------------------------------------------- the answer

  lemma TwinnedBlock(site: Site, published: seq<string>, rows: seq<Row>, keepUrls: bool, i: nat)
    requires i < |rows| && FateOf(site, published, rows[i]).Twinned?
    ensures var fate := FateOf(site, published, rows[i]);
            Block(site, published, rows, keepUrls, i) ==
            if keepUrls || NamesPvpTalents(rows[i].code) then [Annotated(rows[i], fate.twin, fate.conversion.treeUrl)]
            else []
  {
    hide FateOf, NamesPvpTalents;
  }

  lemma FreshBlock(site: Site, published: seq<string>, rows: seq<Row>, keepUrls: bool, i: nat)
    requires i < |rows| && FateOf(site, published, rows[i]).Fresh?
    ensures var conversion := FateOf(site, published, rows[i]).conversion;
            Block(site, published, rows, keepUrls, i) ==
            (if keepUrls || NamesPvpTalents(rows[i].code)
             then [Annotated(rows[i], conversion.text, conversion.treeUrl)] else [])
            + (if FirstOfItsExport(site, published, rows, i) then
                 [Added(conversion.text, SharedLabel(Labels(site, published, rows, conversion.text)), rows[i],
                        conversion.treeUrl)]
               else [])
  {
    hide FateOf, NamesPvpTalents, FirstOfItsExport, SharedLabel, Labels;
  }

  lemma PutsConverted(
      site: Site, rows: seq<Row>, keepUrls: bool, i: nat, conversion: Conversion, noted: seq<Answer>, added: seq<Answer>)
    requires i < |rows| && Builds(site, rows[i], conversion)
    requires Notes(rows, keepUrls, rows[i], conversion, noted) && Adds(site, rows, i, conversion, added)
    ensures Puts(site, rows, keepUrls, i, noted + added)
  {
    hide Notes, Adds;
  }

  lemma BlockTwinned(site: Site, rows: seq<Row>, keepUrls: bool, i: nat)
    requires i < |rows| && FateOf(site, PublishedCodes(rows), rows[i]).Twinned?
    ensures Puts(site, rows, keepUrls, i, Block(site, PublishedCodes(rows), rows, keepUrls, i))
  {
    hide FateOf, PublishedCodes, FirstTwin, Convert, Builds, NamesPvpTalents, PicksPvp, Unpublished, Names, Gives, Block, Puts;
    var fate := FateOf(site, PublishedCodes(rows), rows[i]);
    TwinnedHasTwin(site, PublishedCodes(rows), rows[i]);
    BuildsIff(site, rows[i], fate.conversion);
    PicksPvpIff(rows[i].code);
    NamesText(rows, fate.conversion);
    TwinnedBlock(site, PublishedCodes(rows), rows, keepUrls, i);
    var block := Block(site, PublishedCodes(rows), rows, keepUrls, i);
    PutsConverted(site, rows, keepUrls, i, fate.conversion, block, []);
    assert block + [] == block;
  }

  lemma BlockFresh(site: Site, rows: seq<Row>, keepUrls: bool, i: nat)
    requires i < |rows| && FateOf(site, PublishedCodes(rows), rows[i]).Fresh?
    ensures Puts(site, rows, keepUrls, i, Block(site, PublishedCodes(rows), rows, keepUrls, i))
  {
    hide FateOf, PublishedCodes, FirstTwin, Convert, Builds, NamesPvpTalents, PicksPvp, Unpublished, Names, Gives, Adds,
      FirstOfItsExport, SharedLabel, Labels, Block, Puts;
    var conversion := FateOf(site, PublishedCodes(rows), rows[i]).conversion;
    FreshHasNoTwin(site, PublishedCodes(rows), rows[i]);
    BuildsIff(site, rows[i], conversion);
    PicksPvpIff(rows[i].code);
    NamesText(rows, conversion);
    AddedIs(site, rows, i, conversion);
    FreshBlock(site, PublishedCodes(rows), rows, keepUrls, i);
    var noted := if keepUrls || NamesPvpTalents(rows[i].code)
      then [Annotated(rows[i], conversion.text, conversion.treeUrl)] else [];
    var added := if FirstOfItsExport(site, PublishedCodes(rows), rows, i) then
        [Added(conversion.text, SharedLabel(Labels(site, PublishedCodes(rows), rows, conversion.text)), rows[i],
               conversion.treeUrl)]
      else [];
    PutsConverted(site, rows, keepUrls, i, conversion, noted, added);
  }

  /** Each row puts in the answer what it should. */
  lemma BlockPuts(site: Site, rows: seq<Row>, keepUrls: bool, i: nat)
    requires i < |rows|
    ensures Puts(site, rows, keepUrls, i, Block(site, PublishedCodes(rows), rows, keepUrls, i))
  {
    var fate := FateOf(site, PublishedCodes(rows), rows[i]);
    if fate.Twinned? {
      BlockTwinned(site, rows, keepUrls, i);
    } else if fate.Fresh? {
      BlockFresh(site, rows, keepUrls, i);
    } else {
      forall conversion
        ensures Builds(site, rows[i], conversion) <==> rows[i].kind.Calculator? && Convert(site, rows[i]) == Ok(conversion)
      {
        BuildsIff(site, rows[i], conversion);
      }
      hide PublishedCodes, FirstTwin, Convert, Builds;
    }
  }

  function Id<T>(block: seq<T>): seq<T>
  {
    block
  }

  ghost predicate AllPut(site: Site, rows: seq<Row>, keepUrls: bool, blocks: seq<seq<Answer>>)
  {
    |blocks| == |rows| && forall i | 0 <= i < |rows| :: Puts(site, rows, keepUrls, i, blocks[i])
  }

  /** The answer is what the rows put in it, in row order. */
  lemma AnswerIs(site: Site, rows: seq<Row>, keepUrls: bool) returns (blocks: seq<seq<Answer>>)
    ensures AllPut(site, rows, keepUrls, blocks)
    ensures Blocks(site, PublishedCodes(rows), rows, keepUrls, |rows|) == Flatten(blocks, Id)
  {
    hide Block, Blocks, PublishedCodes, Puts;
    blocks := seq(|rows|, i requires 0 <= i < |rows| => Block(site, PublishedCodes(rows), rows, keepUrls, i));
    forall i | 0 <= i < |rows| ensures Puts(site, rows, keepUrls, i, blocks[i]) {
      BlockPuts(site, rows, keepUrls, i);
    }
    BlocksFlatten(site, PublishedCodes(rows), rows, keepUrls, |rows|, blocks);
    assert blocks[..|rows|] == blocks;
  }

  lemma {:induction false} BlocksFlatten(
      site: Site, published: seq<string>, rows: seq<Row>, keepUrls: bool, count: nat, blocks: seq<seq<Answer>>)
    requires count <= |rows| == |blocks|
    requires forall i | 0 <= i < |rows| :: blocks[i] == Block(site, published, rows, keepUrls, i)
    ensures Blocks(site, published, rows, keepUrls, count) == Flatten(blocks[..count], Id)
  {
    hide Block, Flatten;
    if count > 0 {
      BlocksFlatten(site, published, rows, keepUrls, count - 1, blocks);
      assert blocks[..count] == blocks[..count - 1] + [blocks[count - 1]];
      FlattenSnoc(blocks[..count - 1], blocks[count - 1], Id);
    } else {
      NothingFlattened();
    }
  }

  lemma NothingFlattened()
    ensures Flatten<seq<Answer>, Answer>([], Id) == []
  {
  }

  /** No added row buys what a published row buys. */
  lemma AddedRowUnpublished(site: Site, rows: seq<Row>, keepUrls: bool, k: nat)
    requires k < |Blocks(site, PublishedCodes(rows), rows, keepUrls, |rows|)|
    ensures var answer := Blocks(site, PublishedCodes(rows), rows, keepUrls, |rows|)[k];
            answer.Added? ==>
              exists conversion :: Builds(site, answer.origin, conversion) && conversion.text == answer.text
                && answer.origin in rows && Unpublished(rows, answer.text, conversion.tree)
  {
    hide Blocks, PublishedCodes, Convert, BuysSame, SameTalents, FirstTwin, Builds, Unpublished;
    AddedOrigin(site, PublishedCodes(rows), rows, keepUrls, |rows|, k);
    var answer := Blocks(site, PublishedCodes(rows), rows, keepUrls, |rows|)[k];
    if answer.Added? {
      var conversion := FateOf(site, PublishedCodes(rows), answer.origin).conversion;
      BuildsIff(site, answer.origin, conversion);
      TwinIsFirst(rows, conversion.text, conversion.tree);
    }
  }

  /** Answer `k` carries the string, with the label of all the builds that give it, and no other answer adds it. */
  ghost predicate CarriedBy(site: Site, rows: seq<Row>, answers: seq<Answer>, text: string, k: nat)
  {
    && k < |answers| && answers[k].Added? && answers[k].text == text
    && (exists captions :: LabelsGiven(site, rows, text, |rows|, captions) && LabelSays(captions, answers[k].caption))
    && forall l | 0 <= l < |answers| && l != k && answers[l].Added? :: answers[l].text != text
  }

  /**
   Every build that converts is accounted for: the first published row that buys its talents stands for it, or
   none does and exactly one added row carries its string.
   */
  lemma EveryBuildAccounted(site: Site, rows: seq<Row>, keepUrls: bool, i: nat, conversion: Conversion)
    requires SiteWellFormed(site) && i < |rows| && Builds(site, rows[i], conversion)
    ensures var answers := Blocks(site, PublishedCodes(rows), rows, keepUrls, |rows|);
            if Unpublished(rows, conversion.text, conversion.tree) then
              exists k: nat :: CarriedBy(site, rows, answers, conversion.text, k)
            else exists k: nat :: TwinAt(rows, k, conversion.text, conversion.tree)
  {
    hide Blocks, PublishedCodes, Convert, SharedLabel, Labels, BuysSame, SameTalents, Unpublished, FirstTwin, Builds, LabelsGiven,
      LabelSays, TwinAt, CarriedBy, FateOf;
    BuildsIff(site, rows[i], conversion);
    TwinIsFirst(rows, conversion.text, conversion.tree);
    if Unpublished(rows, conversion.text, conversion.tree) {
      UntwinnedIsFresh(site, PublishedCodes(rows), rows[i], conversion);
      var k := FreshCarried(site, rows, keepUrls, i, conversion);
      LabelsAreGiven(site, rows, conversion.text, |rows|);
      assert rows[..|rows|] == rows;
      SharedLabelSays(Labels(site, PublishedCodes(rows), rows, conversion.text));
      CarriedWithLabel(site, rows, Blocks(site, PublishedCodes(rows), rows, keepUrls, |rows|), conversion.text, k,
                       Labels(site, PublishedCodes(rows), rows, conversion.text));
    }
  }

  lemma UntwinnedIsFresh(site: Site, published: seq<string>, row: Row, conversion: Conversion)
    requires row.kind.Calculator? && Convert(site, row) == Ok(conversion)
    requires FirstTwin(published, conversion.text, conversion.tree).None?
    ensures FateOf(site, published, row) == Fresh(conversion)
  {
    hide Convert, FirstTwin;
  }

  ghost predicate AddedOnce(answers: seq<Answer>, text: string, k: nat)
  {
    && k < |answers| && answers[k].Added? && answers[k].text == text
    && forall l | 0 <= l < |answers| && l != k && answers[l].Added? :: answers[l].text != text
  }

  lemma FreshCarried(site: Site, rows: seq<Row>, keepUrls: bool, i: nat, conversion: Conversion) returns (k: nat)
    requires SiteWellFormed(site) && i < |rows|
    requires FateOf(site, PublishedCodes(rows), rows[i]) == Fresh(conversion)
    ensures var answers := Blocks(site, PublishedCodes(rows), rows, keepUrls, |rows|);
            && AddedOnce(answers, conversion.text, k)
            && answers[k].caption == SharedLabel(Labels(site, PublishedCodes(rows), rows, conversion.text))
  {
    hide Blocks, PublishedCodes, SharedLabel, Labels, BuysSame, SameTalents, FateOf, Convert;
    FreshHasNoTwin(site, PublishedCodes(rows), rows[i]);
    FateAccounted(site, rows, keepUrls, i);
    var answers := Blocks(site, PublishedCodes(rows), rows, keepUrls, |rows|);
    k :| k < |answers| && answers[k].Added? && answers[k].text == conversion.text
         && answers[k].caption == SharedLabel(Labels(site, PublishedCodes(rows), rows, conversion.text))
         && forall l | 0 <= l < |answers| && l != k && answers[l].Added? :: answers[l].text != conversion.text;
  }

  lemma CarriedWithLabel(
      site: Site, rows: seq<Row>, answers: seq<Answer>, text: string, k: nat, captions: seq<Option<string>>)
    requires AddedOnce(answers, text, k) && LabelsGiven(site, rows, text, |rows|, captions)
    requires LabelSays(captions, answers[k].caption)
    ensures CarriedBy(site, rows, answers, text, k)
  {
    hide LabelsGiven, LabelSays;
  }
}
