/**
 Converting a page's calculator builds: each becomes a row with its import string, unless the page
 already publishes a string that buys the same talents, or another build converted to that string.
 */
module TalentConversion {
  import opened Wrappers
  import opened Sequences
  import opened Strings
  import opened TalentTrees
  import opened TalentHash
  import opened TalentExport
  import opened TalentMeaning

  // ---------------------------------------------------------------- rows

  /** `reference_type`: a published import string, a calculator build, or anything else. */
  datatype RowKind = Published | Calculator | Unrelated

  datatype Row = Row(kind: RowKind, code: string, caption: Option<string>, url: string)

  /**
   A row of the answer: an input row as it was, a calculator row that failed or that names its import
   string, or a row added for a converted build.
   */
  datatype Answer =
    | AsGiven(row: Row)
    | FailedRow(row: Row)
    | Annotated(row: Row, text: string, treeUrl: string)
    | Added(text: string, caption: Option<string>, origin: Row, treeUrl: string)

  /** Where the tree data of a spec's class is, and how it loads. */
  datatype Site = Site(treeUrl: nat -> Option<string>, loadTree: string -> Result<ClassTree>)

  ghost predicate SiteWellFormed(site: Site)
  {
    forall url: string :: site.loadTree(url).Ok? ==> WellFormed(site.loadTree(url).value)
  }

  datatype Conversion = Conversion(text: string, treeUrl: string, tree: ClassTree)

  ghost function Convert(site: Site, row: Row): Result<Conversion>
  {
    match site.treeUrl(HashSpecId(row.code))
    case None => Rejected
    case Some(url) =>
      var tree :- site.loadTree(url);
      var text :- ExportCode(row.code, tree);
      Ok(Conversion(text, url, tree))
  }

  method ConvertRow(site: Site, row: Row) returns (result: Result<Conversion>)
    requires SiteWellFormed(site)
    ensures result == Convert(site, row)
  {
    var url := site.treeUrl(HashSpecId(row.code));
    if url.None? {
      return Rejected;
    }
    var tree := site.loadTree(url.value);
    if tree.Rejected? {
      return Rejected;
    }
    var text := ExportString(row.code, tree.value);
    result := if text.Ok? then Ok(Conversion(text.value, url.value, tree.value)) else Rejected;
  }

  // ---------------------------------------------------------------- labels

  function TextIfAny(caption: Option<string>): seq<string>
  {
    if caption.Some? && caption.value != "" then [caption.value] else []
  }

  function NonEmpty(labels: seq<Option<string>>): seq<string>
  {
    Flatten(labels, TextIfAny)
  }

  function JoinLabels(labels: seq<string>): string
  {
    if labels == [] then ""
    else if |labels| == 1 then labels[0]
    else labels[0] + " / " + JoinLabels(labels[1..])
  }

  /** Python's `" / ".join(filter(None, labels)) or None`. */
  function JoinedLabel(labels: seq<Option<string>>): Option<string>
  {
    var text := JoinLabels(NonEmpty(labels));
    if text == "" then None else Some(text)
  }

  /** One build's label is kept as it is; several builds' non-empty labels are joined in order. */
  function SharedLabel(labels: seq<Option<string>>): Option<string>
  {
    if |labels| == 1 then labels[0] else JoinedLabel(labels)
  }

  lemma {:induction false} NonEmptyTexts(labels: seq<Option<string>>)
    ensures forall text | text in NonEmpty(labels) :: text != ""
  {
    if labels != [] {
      NonEmptyTexts(labels[1..]);
      assert NonEmpty(labels) == TextIfAny(labels[0]) + NonEmpty(labels[1..]);
    }
  }

  lemma {:induction false} JoinLabelsSnoc(labels: seq<string>, last: string)
    requires labels != []
    ensures JoinLabels(labels + [last]) == JoinLabels(labels) + " / " + last
  {
    var all := labels + [last];
    assert all[1..] == labels[1..] + [last];
    if |labels| > 1 {
      JoinLabelsSnoc(labels[1..], last);
      var tail := JoinLabels(labels[1..]);
      assert labels[0] + " / " + (tail + " / " + last) == labels[0] + " / " + tail + " / " + last;
    } else {
      assert all[1..] == [last];
    }
  }

  lemma JoinLabelsNonEmpty(labels: seq<string>)
    requires labels != [] && forall text | text in labels :: text != ""
    ensures JoinLabels(labels) != ""
  {
    assert labels[0] in labels;
  }

  /** Joining a build's label to the label so far gives the label of all the builds. */
  lemma LabelStep(labels: seq<Option<string>>, next: Option<string>)
    requires labels != []
    ensures JoinedLabel([SharedLabel(labels), next]) == SharedLabel(labels + [next])
  {
    var shared := SharedLabel(labels);
    var texts := NonEmpty(labels);
    FlattenSnoc(labels, next, TextIfAny);
    NonEmptyTexts(labels);
    FlattenOne(shared, TextIfAny);
    assert [shared, next] == [shared] + [next];
    FlattenSnoc([shared], next, TextIfAny);
    if |labels| == 1 {
      assert labels == [shared];
    } else if texts != [] {
      JoinLabelsNonEmpty(texts);
      if TextIfAny(next) != [] {
        JoinLabelsSnoc(texts, next.value);
        JoinLabelsSnoc([shared.value], next.value);
      } else {
        assert texts + [] == texts;
      }
    } else {
      assert [] + TextIfAny(next) == TextIfAny(next);
    }
  }

  // ---------------------------------------------------------------- what becomes of each row

  function PublishedCodes(rows: seq<Row>): seq<string>
  {
    if rows == [] then []
    else (if rows[0].kind.Published? then [rows[0].code] else []) + PublishedCodes(rows[1..])
  }

  /** The first published string that buys the same talents. */
  function FirstTwin(published: seq<string>, text: string, tree: ClassTree): (twin: Option<string>)
    ensures twin.Some? ==> twin.value in published && SameTalents(twin.value, text, tree)
    ensures twin.None? ==> forall code | code in published :: !SameTalents(code, text, tree)
  {
    if published == [] then None
    else if SameTalents(published[0], text, tree) then Some(published[0])
    else FirstTwin(published[1..], text, tree)
  }

  /** Whether a hash's last part picks any PvP talent: it holds a letter other than the zero sextet. */
  predicate NamesPvpTalents(code: string)
  {
    var parts := Split(code, '-');
    var pvp := parts[|parts| - 1];
    (|parts| == 5 || |parts| == 6) && exists k :: 0 <= k < |pvp| && pvp[k] != 'A'
  }

  datatype Fate = Untouched | Failed | Twinned(conversion: Conversion, twin: string) | Fresh(conversion: Conversion)

  ghost function FateOf(site: Site, published: seq<string>, row: Row): Fate
  {
    if !row.kind.Calculator? then Untouched
    else
      match Convert(site, row)
      case Rejected => Failed
      case Ok(conversion) =>
        match FirstTwin(published, conversion.text, conversion.tree)
        case Some(twin) => Twinned(conversion, twin)
        case None => Fresh(conversion)
  }

  /** The string a row adds to the answer, if any. */
  ghost function FreshExport(site: Site, published: seq<string>, row: Row): Option<string>
  {
    match FateOf(site, published, row) case Fresh(conversion) => Some(conversion.text) case _ => None
  }

  /** The labels of the builds among `rows` that share a converted string. */
  ghost function Labels(site: Site, published: seq<string>, rows: seq<Row>, text: string): seq<Option<string>>
  {
    if rows == [] then []
    else
      var last := rows[|rows| - 1];
      Labels(site, published, rows[..|rows| - 1], text)
      + if FreshExport(site, published, last) == Some(text) then [last.caption] else []
  }

  ghost predicate FirstOfItsExport(site: Site, published: seq<string>, rows: seq<Row>, i: nat)
    requires i < |rows|
  {
    forall j | 0 <= j < i :: FreshExport(site, published, rows[j]) != FreshExport(site, published, rows[i])
  }

  predicate Keeps(keepUrls: bool, row: Row)
  {
    keepUrls || NamesPvpTalents(row.code)
  }

  /** What row `i` puts in the answer for `rows`: one added row per converted string, at its first build. */
  ghost function Block(site: Site, published: seq<string>, rows: seq<Row>, keepUrls: bool, i: nat): seq<Answer>
    requires i < |rows|
  {
    var row := rows[i];
    match FateOf(site, published, row)
    case Untouched => [AsGiven(row)]
    case Failed => [FailedRow(row)]
    case Twinned(conversion, twin) =>
      if Keeps(keepUrls, row) then [Annotated(row, twin, conversion.treeUrl)] else []
    case Fresh(conversion) =>
      (if Keeps(keepUrls, row) then [Annotated(row, conversion.text, conversion.treeUrl)] else [])
      + (if FirstOfItsExport(site, published, rows, i) then
           [Added(conversion.text, SharedLabel(Labels(site, published, rows, conversion.text)), row, conversion.treeUrl)]
         else [])
  }

  ghost function Blocks(site: Site, published: seq<string>, rows: seq<Row>, keepUrls: bool, count: nat): seq<Answer>
    requires count <= |rows|
  {
    if count == 0 then []
    else Blocks(site, published, rows, keepUrls, count - 1) + Block(site, published, rows, keepUrls, count - 1)
  }

  // ---------------------------------------------------------------- relabelling

  function RelabelOne(answer: Answer, text: string, caption: Option<string>): Answer
  {
    if answer.Added? && answer.text == text then answer.(caption := caption) else answer
  }

  function Relabel(answers: seq<Answer>, text: string, caption: Option<string>): (relabelled: seq<Answer>)
    ensures |relabelled| == |answers|
    ensures forall k | 0 <= k < |answers| :: relabelled[k] == RelabelOne(answers[k], text, caption)
  {
    seq(|answers|, k requires 0 <= k < |answers| => RelabelOne(answers[k], text, caption))
  }

  lemma LabelsGrow(site: Site, published: seq<string>, rows: seq<Row>, next: Row, text: string)
    ensures Labels(site, published, rows + [next], text) ==
            if FreshExport(site, published, next) == Some(text)
            then Labels(site, published, rows, text) + [next.caption]
            else Labels(site, published, rows, text)
  {
    hide FreshExport;
    var all := rows + [next];
    assert all[..|all| - 1] == rows;
  }

  lemma FirstStays(site: Site, published: seq<string>, rows: seq<Row>, next: Row, i: nat)
    requires i < |rows|
    ensures FirstOfItsExport(site, published, rows + [next], i) == FirstOfItsExport(site, published, rows, i)
  {
    hide FreshExport;
    assert forall j | 0 <= j <= i :: (rows + [next])[j] == rows[j];
  }

  lemma BlockGrows(site: Site, published: seq<string>, rows: seq<Row>, next: Row, keepUrls: bool, i: nat)
    requires i < |rows|
    ensures var gained := FreshExport(site, published, next);
            Block(site, published, rows + [next], keepUrls, i) ==
            if gained.None? then Block(site, published, rows, keepUrls, i)
            else Relabel(Block(site, published, rows, keepUrls, i), gained.value,
                         SharedLabel(Labels(site, published, rows + [next], gained.value)))
  {
    hide FateOf, FreshExport, Keeps, SharedLabel, Labels, FirstOfItsExport;
    var fate := FateOf(site, published, rows[i]);
    assert (rows + [next])[i] == rows[i];
    FirstStays(site, published, rows, next, i);
    if fate.Fresh? {
      LabelsGrow(site, published, rows, next, fate.conversion.text);
    }
  }

  /** When the list of rows grows by one, the answer so far changes at most one label. */
  lemma {:induction false} BlocksGrow(
      site: Site, published: seq<string>, rows: seq<Row>, next: Row, keepUrls: bool, count: nat)
    requires count <= |rows|
    ensures var gained := FreshExport(site, published, next);
            Blocks(site, published, rows + [next], keepUrls, count) ==
            if gained.None? then Blocks(site, published, rows, keepUrls, count)
            else Relabel(Blocks(site, published, rows, keepUrls, count), gained.value,
                         SharedLabel(Labels(site, published, rows + [next], gained.value)))
  {
    hide FreshExport, Block, SharedLabel, Labels;
    if count > 0 {
      BlocksGrow(site, published, rows, next, keepUrls, count - 1);
      BlockGrows(site, published, rows, next, keepUrls, count - 1);
    }
  }

  /** Each added row is found under its string, and nowhere else. */
  ghost predicate Indexed(answers: seq<Answer>, added: map<string, nat>)
  {
    && (forall text | text in added ::
          added[text] < |answers| && answers[added[text]].Added? && answers[added[text]].text == text)
    && (forall k | 0 <= k < |answers| && answers[k].Added? ::
          answers[k].text in added && added[answers[k].text] == k)
  }

  lemma RelabelAtIndex(answers: seq<Answer>, added: map<string, nat>, text: string, caption: Option<string>)
    requires Indexed(answers, added)
    ensures text in added ==>
              Relabel(answers, text, caption) == answers[added[text] := answers[added[text]].(caption := caption)]
    ensures text !in added ==> Relabel(answers, text, caption) == answers
  {
  }

  /** Some row adds this string. */
  ghost predicate Gains(site: Site, published: seq<string>, rows: seq<Row>, text: string)
  {
    exists j :: 0 <= j < |rows| && FreshExport(site, published, rows[j]) == Some(text)
  }

  lemma GainsGrow(site: Site, published: seq<string>, rows: seq<Row>, next: Row, text: string)
    ensures Gains(site, published, rows + [next], text)
            <==> Gains(site, published, rows, text) || FreshExport(site, published, next) == Some(text)
  {
    hide FreshExport;
    var all := rows + [next];
    if Gains(site, published, rows, text) {
      var j :| 0 <= j < |rows| && FreshExport(site, published, rows[j]) == Some(text);
      assert all[j] == rows[j];
    }
    if FreshExport(site, published, next) == Some(text) {
      assert all[|rows|] == next;
    }
  }

  lemma {:induction false} LabelsNonEmpty(site: Site, published: seq<string>, rows: seq<Row>, text: string)
    ensures Labels(site, published, rows, text) != [] <==> Gains(site, published, rows, text)
  {
    hide FreshExport;
    if rows != [] {
      var front, last := rows[..|rows| - 1], rows[|rows| - 1];
      assert rows == front + [last];
      LabelsNonEmpty(site, published, front, text);
      GainsGrow(site, published, front, last, text);
    }
  }

  // ---------------------------------------------------------------- the converter

  /** The strings converted so far are the keys of `added`. */
  ghost predicate KeysAreFresh(site: Site, published: seq<string>, rows: seq<Row>, added: map<string, nat>)
  {
    forall text :: text in added <==> Gains(site, published, rows, text)
  }

  lemma FirstIffNew(site: Site, published: seq<string>, rows: seq<Row>, next: Row, added: map<string, nat>)
    requires KeysAreFresh(site, published, rows, added)
    requires FreshExport(site, published, next).Some?
    ensures FirstOfItsExport(site, published, rows + [next], |rows|)
            <==> FreshExport(site, published, next).value !in added
  {
    hide FreshExport;
    var all := rows + [next];
    assert all[|rows|] == next;
    assert forall j | 0 <= j < |rows| :: all[j] == rows[j];
  }

  lemma KeysGrow(site: Site, published: seq<string>, rows: seq<Row>, next: Row, added: map<string, nat>, k: nat)
    requires KeysAreFresh(site, published, rows, added)
    ensures var gained := FreshExport(site, published, next);
            KeysAreFresh(site, published, rows + [next],
                         if gained.Some? && gained.value !in added then added[gained.value := k] else added)
  {
    hide FreshExport, Gains;
    forall text {
      GainsGrow(site, published, rows, next, text);
    }
  }

  method FateOfRow(site: Site, published: seq<string>, row: Row) returns (fate: Fate)
    requires SiteWellFormed(site)
    ensures fate == FateOf(site, published, row)
  {
    if !row.kind.Calculator? {
      return Untouched;
    }
    var conversion := ConvertRow(site, row);
    if conversion.Rejected? {
      return Failed;
    }
    var twin := FirstTwin(published, conversion.value.text, conversion.value.tree);
    fate := if twin.Some? then Twinned(conversion.value, twin.value) else Fresh(conversion.value);
  }

  /** One turn of the loop for a build no published string buys: a new row, or a longer label on an earlier one. */
  method AddConverted(
      site: Site, published: seq<string>, ghost rows: seq<Row>, row: Row, conversion: Conversion,
      answers: seq<Answer>, added: map<string, nat>)
    returns (longer: seq<Answer>, index: map<string, nat>)
    requires FateOf(site, published, row) == Fresh(conversion)
    requires Indexed(answers, added) && KeysAreFresh(site, published, rows, added)
    requires forall k | 0 <= k < |answers| && answers[k].Added? ::
               answers[k].caption == SharedLabel(Labels(site, published, rows, answers[k].text))
    ensures var text := conversion.text;
            var caption := SharedLabel(Labels(site, published, rows + [row], text));
            longer == Relabel(answers, text, caption) +
                      if FirstOfItsExport(site, published, rows + [row], |rows|)
                      then [Added(text, caption, row, conversion.treeUrl)] else []
    ensures Indexed(longer, index) && KeysAreFresh(site, published, rows + [row], index)
  {
    var text := conversion.text;
    ghost var caption := SharedLabel(Labels(site, published, rows + [row], text));
    FreshOf(site, published, row);
    hide FateOf, FreshExport, SharedLabel, Labels, JoinedLabel, FirstOfItsExport, Gains;
    LabelOfRow(site, published, rows, row, text);
    KeysGrow(site, published, rows, row, added, |answers|);
    FirstIffNew(site, published, rows, row, added);
    RelabelAtIndex(answers, added, text, caption);
    if text in added {
      var earlier := answers[added[text]];
      longer := answers[added[text] := earlier.(caption := JoinedLabel([earlier.caption, row.caption]))];
      index := added;
    } else {
      longer := answers + [Added(text, row.caption, row, conversion.treeUrl)];
      index := added[text := |answers|];
    }
  }

  /** The answer after one more row is the answer before, relabelled where it must be, and that row's block. */
  lemma BlocksNext(site: Site, published: seq<string>, rows: seq<Row>, next: Row, keepUrls: bool)
    ensures var gained := FreshExport(site, published, next);
            var before := Blocks(site, published, rows, keepUrls, |rows|);
            Blocks(site, published, rows + [next], keepUrls, |rows| + 1) ==
            (if gained.None? then before
             else Relabel(before, gained.value, SharedLabel(Labels(site, published, rows + [next], gained.value))))
            + Block(site, published, rows + [next], keepUrls, |rows|)
  {
    hide FreshExport, Block, SharedLabel, Labels, Relabel;
    BlocksGrow(site, published, rows, next, keepUrls, |rows|);
  }

  method ConvertFresh(
      site: Site, published: seq<string>, ghost rows: seq<Row>, row: Row, conversion: Conversion, keepUrls: bool,
      answers: seq<Answer>, added: map<string, nat>)
    returns (longer: seq<Answer>, index: map<string, nat>)
    requires FateOf(site, published, row) == Fresh(conversion)
    requires answers == Blocks(site, published, rows, keepUrls, |rows|)
    requires Indexed(answers, added) && KeysAreFresh(site, published, rows, added)
    ensures longer == Blocks(site, published, rows + [row], keepUrls, |rows| + 1)
    ensures Indexed(longer, index) && KeysAreFresh(site, published, rows + [row], index)
  {
    BlocksNext(site, published, rows, row, keepUrls);
    FreshOf(site, published, row);
    hide Blocks, FateOf, FreshExport, SharedLabel, NamesPvpTalents, Labels, FirstOfItsExport, Gains;
    assert (rows + [row])[|rows|] == row;
    ghost var caption := SharedLabel(Labels(site, published, rows + [row], conversion.text));
    var note := if Keeps(keepUrls, row) then [Annotated(row, conversion.text, conversion.treeUrl)] else [];
    var noted := answers + note;
    forall k | 0 <= k < |noted| && noted[k].Added?
      ensures noted[k].caption == SharedLabel(Labels(site, published, rows, noted[k].text))
    {
      AddedLabel(site, published, rows, keepUrls, |rows|, k);
    }
    longer, index := AddConverted(site, published, rows, row, conversion, noted, added);
    assert Relabel(noted, conversion.text, caption) == Relabel(answers, conversion.text, caption) + note;
  }

  /** One turn of the loop: the answer and its index, after one more row. */
  method ConvertNext(
      site: Site, published: seq<string>, ghost rows: seq<Row>, row: Row, keepUrls: bool,
      answers: seq<Answer>, added: map<string, nat>)
    returns (longer: seq<Answer>, index: map<string, nat>)
    requires SiteWellFormed(site)
    requires answers == Blocks(site, published, rows, keepUrls, |rows|)
    requires Indexed(answers, added) && KeysAreFresh(site, published, rows, added)
    ensures longer == Blocks(site, published, rows + [row], keepUrls, |rows| + 1)
    ensures Indexed(longer, index) && KeysAreFresh(site, published, rows + [row], index)
  {
    var fate := FateOfRow(site, published, row);
    if fate.Fresh? {
      longer, index := ConvertFresh(site, published, rows, row, fate.conversion, keepUrls, answers, added);
      return;
    }
    BlocksNext(site, published, rows, row, keepUrls);
    KeysGrow(site, published, rows, row, added, 0);
    FreshOf(site, published, row);
    hide Blocks, FateOf, FreshExport, SharedLabel, NamesPvpTalents, Labels, FirstOfItsExport, Gains, Relabel;
    assert (rows + [row])[|rows|] == row;
    index := added;
    var more: seq<Answer> := [];
    match fate {
      case Untouched =>
        more := [AsGiven(row)];
      case Failed =>
        more := [FailedRow(row)];
      case Twinned(conversion, twin) =>
        if Keeps(keepUrls, row) {
          more := [Annotated(row, twin, conversion.treeUrl)];
        }
    }
    IndexedAppend(answers, added, more);
    longer := answers + more;
  }

  lemma IndexedAppend(answers: seq<Answer>, added: map<string, nat>, more: seq<Answer>)
    requires Indexed(answers, added) && forall k | 0 <= k < |more| :: !more[k].Added?
    ensures Indexed(answers + more, added)
  {
  }

  lemma FreshOf(site: Site, published: seq<string>, row: Row)
    ensures FreshExport(site, published, row) ==
            match FateOf(site, published, row) case Fresh(conversion) => Some(conversion.text) case _ => None
  {
  }

  lemma LabelOfRow(site: Site, published: seq<string>, rows: seq<Row>, next: Row, text: string)
    requires FreshExport(site, published, next) == Some(text)
    ensures var labels := Labels(site, published, rows, text);
            && Labels(site, published, rows + [next], text) == labels + [next.caption]
            && (labels == [] ==> SharedLabel(labels + [next.caption]) == next.caption)
            && (labels != [] ==>
                  SharedLabel(labels + [next.caption]) == JoinedLabel([SharedLabel(labels), next.caption]))
    ensures Labels(site, published, rows, text) != [] <==> Gains(site, published, rows, text)
  {
    hide FreshExport, SharedLabel, Labels, Gains;
    LabelsGrow(site, published, rows, next, text);
    LabelsNonEmpty(site, published, rows, text);
    var labels := Labels(site, published, rows, text);
    if labels != [] {
      LabelStep(labels, next.caption);
    } else {
      LabelAlone(next.caption);
    }
  }

  lemma LabelAlone(caption: Option<string>)
    ensures SharedLabel([] + [caption]) == caption
  {
  }

  lemma {:induction false} AddedLabel(
      site: Site, published: seq<string>, rows: seq<Row>, keepUrls: bool, count: nat, k: nat)
    requires count <= |rows| && k < |Blocks(site, published, rows, keepUrls, count)|
    ensures var answer := Blocks(site, published, rows, keepUrls, count)[k];
            answer.Added? ==> answer.caption == SharedLabel(Labels(site, published, rows, answer.text))
  {
    hide FateOf, SharedLabel, Labels, Keeps, FirstOfItsExport;
    var before := Blocks(site, published, rows, keepUrls, count - 1);
    if k < |before| {
      AddedLabel(site, published, rows, keepUrls, count - 1, k);
    }
  }

  /** Every row's fate is settled, one added row a converted string, with the labels of all its builds. */
  method ConvertCalculatorBuilds(rows: seq<Row>, site: Site, keepUrls: bool) returns (answers: seq<Answer>)
    requires SiteWellFormed(site)
    ensures answers == Blocks(site, PublishedCodes(rows), rows, keepUrls, |rows|)
  {
    hide Blocks, PublishedCodes;
    var published := PublishedCodes(rows);
    var added: map<string, nat> := map[];
    answers := [];
    BlocksOfNone(site, published, rows[..0], keepUrls);
    for i := 0 to |rows|
      invariant answers == Blocks(site, published, rows[..i], keepUrls, i)
      invariant Indexed(answers, added) && KeysAreFresh(site, published, rows[..i], added)
    {
      assert rows[..i + 1] == rows[..i] + [rows[i]];
      answers, added := ConvertNext(site, published, rows[..i], rows[i], keepUrls, answers, added);
    }
    assert rows[..|rows|] == rows;
  }

  lemma BlocksOfNone(site: Site, published: seq<string>, rows: seq<Row>, keepUrls: bool)
    ensures Blocks(site, published, rows, keepUrls, 0) == []
  {
  }

  // ---------------------------------------------------------------- nothing is lost and nothing is doubled

  function GivenOf(answer: Answer): seq<Row>
  {
    if answer.AsGiven? then [answer.row] else []
  }

  function FailedOf(answer: Answer): seq<Row>
  {
    if answer.FailedRow? then [answer.row] else []
  }

  /** The rows the answer passes through unchanged, in order. */
  function GivenRows(answers: seq<Answer>): seq<Row>
  {
    Flatten(answers, GivenOf)
  }

  function FailedRows(answers: seq<Answer>): seq<Row>
  {
    Flatten(answers, FailedOf)
  }

  function OtherRows(rows: seq<Row>): seq<Row>
  {
    if rows == [] then []
    else OtherRows(rows[..|rows| - 1]) + if rows[|rows| - 1].kind.Calculator? then [] else [rows[|rows| - 1]]
  }

  ghost function UnconvertedRows(site: Site, rows: seq<Row>): seq<Row>
  {
    if rows == [] then []
    else
      var last := rows[|rows| - 1];
      UnconvertedRows(site, rows[..|rows| - 1])
      + if last.kind.Calculator? && Convert(site, last).Rejected? then [last] else []
  }

  lemma NeitherGivenNorFailed(answers: seq<Answer>)
    requires forall k | 0 <= k < |answers| :: answers[k].Annotated? || answers[k].Added?
    ensures GivenRows(answers) == [] && FailedRows(answers) == []
  {
    FlattenNothing(answers, GivenOf);
    FlattenNothing(answers, FailedOf);
  }

  lemma BlockRows(site: Site, published: seq<string>, rows: seq<Row>, keepUrls: bool, i: nat)
    requires i < |rows|
    ensures var block := Block(site, published, rows, keepUrls, i);
            && GivenRows(block) == (if rows[i].kind.Calculator? then [] else [rows[i]])
            && FailedRows(block) ==
               (if rows[i].kind.Calculator? && Convert(site, rows[i]).Rejected? then [rows[i]] else [])
  {
    hide Convert, SharedLabel, Labels, FirstTwin, NamesPvpTalents, FirstOfItsExport;
    var fate := FateOf(site, published, rows[i]);
    var block := Block(site, published, rows, keepUrls, i);
    if fate.Twinned? || fate.Fresh? {
      hide GivenRows, FailedRows;
      NeitherGivenNorFailed(block);
    } else {
      FlattenOne(block[0], GivenOf);
      FlattenOne(block[0], FailedOf);
      assert block == [block[0]];
    }
  }

  /** Rows that are not calculator builds, and builds that do not convert, come through in order, once each. */
  lemma {:induction false} RowsComeThrough(
      site: Site, published: seq<string>, rows: seq<Row>, keepUrls: bool, count: nat)
    requires count <= |rows|
    ensures var answers := Blocks(site, published, rows, keepUrls, count);
            && GivenRows(answers) == OtherRows(rows[..count])
            && FailedRows(answers) == UnconvertedRows(site, rows[..count])
  {
    hide Block, Convert;
    if count > 0 {
      RowsComeThrough(site, published, rows, keepUrls, count - 1);
      var front := rows[..count];
      assert front[..|front| - 1] == rows[..count - 1];
      BlockRows(site, published, rows, keepUrls, count - 1);
      var before, block :=
        Blocks(site, published, rows, keepUrls, count - 1), Block(site, published, rows, keepUrls, count - 1);
      FlattenConcat(before, block, GivenOf);
      FlattenConcat(before, block, FailedOf);
    }
  }

  /** The answer for some rows, before their later builds have lengthened any label. */
  lemma {:induction false} AddedIndex(
      site: Site, published: seq<string>, rows: seq<Row>, keepUrls: bool, count: nat) returns (added: map<string, nat>)
    requires count <= |rows|
    ensures Indexed(Blocks(site, published, rows, keepUrls, count), added)
    ensures KeysAreFresh(site, published, rows[..count], added)
  {
    hide Block, FreshExport, Gains;
    if count == 0 {
      added := map[];
      NoGains(site, published, rows[..0]);
    } else {
      var before := AddedIndex(site, published, rows, keepUrls, count - 1);
      added := AddedIndexStep(site, published, rows, keepUrls, count - 1, before);
    }
  }

  lemma NoGains(site: Site, published: seq<string>, rows: seq<Row>)
    requires rows == []
    ensures KeysAreFresh(site, published, rows, map[])
  {
  }

  lemma AddedIndexStep(
      site: Site, published: seq<string>, rows: seq<Row>, keepUrls: bool, i: nat, before: map<string, nat>)
    returns (added: map<string, nat>)
    requires i < |rows|
    requires Indexed(Blocks(site, published, rows, keepUrls, i), before)
    requires KeysAreFresh(site, published, rows[..i], before)
    ensures Indexed(Blocks(site, published, rows, keepUrls, i + 1), added)
    ensures KeysAreFresh(site, published, rows[..i + 1], added)
  {
    var front, row := rows[..i], rows[i];
    assert rows[..i + 1] == front + [row];
    var answers := Blocks(site, published, rows, keepUrls, i);
    var block := Block(site, published, rows, keepUrls, i);
    var gained := FreshExport(site, published, row);
    BlocksAt(site, published, rows, keepUrls, i);
    BlockAdds(site, published, rows, keepUrls, i, before);
    hide Blocks, Block, FateOf, Gains, FreshExport;
    if gained.Some? && gained.value !in before {
      var more, last := block[..|block| - 1], block[|block| - 1];
      KeysGrow(site, published, front, row, before, |answers| + |more|);
      IndexedGrow(answers, before, more, last);
      assert more + [last] == block;
      added := before[gained.value := |answers| + |more|];
    } else {
      KeysGrow(site, published, front, row, before, 0);
      IndexedAppend(answers, before, block);
      added := before;
    }
  }

  /** A row's block ends in an added row when its string is new, and holds no other added row. */
  lemma BlockAdds(
      site: Site, published: seq<string>, rows: seq<Row>, keepUrls: bool, i: nat, before: map<string, nat>)
    requires i < |rows| && KeysAreFresh(site, published, rows[..i], before)
    ensures var gained := FreshExport(site, published, rows[i]);
            var block := Block(site, published, rows, keepUrls, i);
            if gained.Some? && gained.value !in before
            then |block| > 0 && block[|block| - 1].Added? && block[|block| - 1].text == gained.value
                 && forall k | 0 <= k < |block| - 1 :: !block[k].Added?
            else forall k | 0 <= k < |block| :: !block[k].Added?
  {
    hide SharedLabel, Labels, Keeps, FirstOfItsExport, Convert, Gains;
    if FreshExport(site, published, rows[i]).Some? {
      FirstIffNew(site, published, rows[..i], rows[i], before);
      FirstOfPrefix(site, published, rows, i);
    }
  }

  lemma BlocksAt(site: Site, published: seq<string>, rows: seq<Row>, keepUrls: bool, i: nat)
    requires i < |rows|
    ensures Blocks(site, published, rows, keepUrls, i + 1) ==
            Blocks(site, published, rows, keepUrls, i) + Block(site, published, rows, keepUrls, i)
  {
  }

  lemma IndexedGrow(answers: seq<Answer>, added: map<string, nat>, more: seq<Answer>, last: Answer)
    requires Indexed(answers, added) && forall k | 0 <= k < |more| :: !more[k].Added?
    requires last.Added? && last.text !in added
    ensures Indexed(answers + (more + [last]), added[last.text := |answers| + |more|])
  {
    IndexedAppend(answers, added, more);
    assert answers + (more + [last]) == (answers + more) + [last];
  }

  lemma FirstOfPrefix(site: Site, published: seq<string>, rows: seq<Row>, i: nat)
    requires i < |rows|
    ensures FirstOfItsExport(site, published, rows, i) == FirstOfItsExport(site, published, rows[..i] + [rows[i]], i)
  {
    hide FreshExport;
    assert forall j | 0 <= j <= i :: (rows[..i] + [rows[i]])[j] == rows[j];
  }

  /** An added row comes from a build among the rows that converts to its string and has no published twin. */
  lemma {:induction false} AddedOrigin(
      site: Site, published: seq<string>, rows: seq<Row>, keepUrls: bool, count: nat, k: nat)
    requires count <= |rows| && k < |Blocks(site, published, rows, keepUrls, count)|
    ensures var answer := Blocks(site, published, rows, keepUrls, count)[k];
            answer.Added? ==>
              && answer.origin in rows
              && FateOf(site, published, answer.origin).Fresh?
              && FateOf(site, published, answer.origin).conversion.text == answer.text
  {
    hide FateOf, SharedLabel, Labels, Keeps, FirstOfItsExport;
    var before := Blocks(site, published, rows, keepUrls, count - 1);
    if k < |before| {
      AddedOrigin(site, published, rows, keepUrls, count - 1, k);
    }
  }

  /** What the answer holds for a calculator row, by its fate. */
  lemma FateAccounted(site: Site, rows: seq<Row>, keepUrls: bool, i: nat)
    requires SiteWellFormed(site) && i < |rows| && rows[i].kind.Calculator?
    ensures var published := PublishedCodes(rows);
            var answers := Blocks(site, published, rows, keepUrls, |rows|);
            match FateOf(site, published, rows[i])
            case Untouched => false
            case Failed => Convert(site, rows[i]).Rejected?
            case Twinned(conversion, twin) => twin in published && SameTalents(twin, conversion.text, conversion.tree)
            case Fresh(conversion) =>
              && (forall code | code in published :: !SameTalents(code, conversion.text, conversion.tree))
              && exists k: nat :: k < |answers| && answers[k].Added? && answers[k].text == conversion.text
                   && answers[k].caption == SharedLabel(Labels(site, published, rows, conversion.text))
                   && forall l | 0 <= l < |answers| && l != k && answers[l].Added? :: answers[l].text != conversion.text
  {
    hide Blocks, SharedLabel, Labels, Convert, FreshExport, SameTalents, PublishedCodes;
    var published := PublishedCodes(rows);
    var answers := Blocks(site, published, rows, keepUrls, |rows|);
    var fate := FateOf(site, published, rows[i]);
    if fate.Fresh? {
      var added := AddedIndex(site, published, rows, keepUrls, |rows|);
      FreshOf(site, published, rows[i]);
      assert rows[..|rows|] == rows;
      assert Gains(site, published, rows, fate.conversion.text);
      var k := added[fate.conversion.text];
      AddedLabel(site, published, rows, keepUrls, |rows|, k);
      assert answers[k].Added? && answers[k].text == fate.conversion.text;
    }
  }

  lemma TextNamesSpec(site: Site, row: Row)
    requires SiteWellFormed(site) && Convert(site, row).Ok?
    ensures ExportSpecId(Convert(site, row).value.text) == Some(HashSpecId(row.code))
  {
    hide ExportCode, HashSpecId, ExportSpecId, WellFormed;
    HeaderReadersAgree(row.code, Convert(site, row).value.tree);
  }

  lemma TreeOfSpec(site: Site, row: Row)
    requires Convert(site, row).Ok?
    ensures var conversion := Convert(site, row).value;
            var url := site.treeUrl(HashSpecId(row.code));
            url.Some? && conversion.treeUrl == url.value && site.loadTree(url.value) == Ok(conversion.tree)
  {
    hide ExportCode, HashSpecId;
  }

  /** One string means one spec, so one tree: builds that share a string share their conversion. */
  lemma SameTextSameConversion(site: Site, a: Row, b: Row)
    requires SiteWellFormed(site) && Convert(site, a).Ok? && Convert(site, b).Ok?
    requires Convert(site, a).value.text == Convert(site, b).value.text
    ensures Convert(site, a) == Convert(site, b)
  {
    hide Convert, HashSpecId, ExportSpecId, SiteWellFormed;
    TextNamesSpec(site, a);
    TextNamesSpec(site, b);
    TreeOfSpec(site, a);
    TreeOfSpec(site, b);
  }

  /** Builds that share a string share their fate: all point at a published string, or all at the added row. */
  lemma SameTextSameFate(site: Site, published: seq<string>, a: Row, b: Row)
    requires SiteWellFormed(site) && a.kind.Calculator? && b.kind.Calculator?
    requires Convert(site, a).Ok? && Convert(site, b).Ok?
    requires Convert(site, a).value.text == Convert(site, b).value.text
    ensures FateOf(site, published, a) == FateOf(site, published, b)
  {
    hide Convert, SiteWellFormed;
    SameTextSameConversion(site, a, b);
  }

  /**
   Added rows are pairwise different builds: their strings differ, and over one tree they do not buy the
   same talents.
   */
  lemma AddedRowsDiffer(site: Site, rows: seq<Row>, keepUrls: bool, k: nat, l: nat)
    requires SiteWellFormed(site)
    requires var answers := Blocks(site, PublishedCodes(rows), rows, keepUrls, |rows|);
             k < l < |answers| && answers[k].Added? && answers[l].Added?
    ensures var answers := Blocks(site, PublishedCodes(rows), rows, keepUrls, |rows|);
            var left, right := Convert(site, answers[k].origin), Convert(site, answers[l].origin);
            && left.Ok? && left.value.text == answers[k].text
            && right.Ok? && right.value.text == answers[l].text
            && answers[k].text != answers[l].text
            && (left.value.tree == right.value.tree ==>
                  !SameTalents(answers[k].text, answers[l].text, left.value.tree))
            && forall code | code in PublishedCodes(rows) :: !SameTalents(code, answers[k].text, left.value.tree)
  {
    hide Blocks, Convert, SameTalents, PublishedCodes, Gains;
    var published := PublishedCodes(rows);
    var answers := Blocks(site, published, rows, keepUrls, |rows|);
    var added := AddedIndex(site, published, rows, keepUrls, |rows|);
    AddedOrigin(site, published, rows, keepUrls, |rows|, k);
    AddedOrigin(site, published, rows, keepUrls, |rows|, l);
    assert added[answers[k].text] == k && added[answers[l].text] == l;
    var left, right := Convert(site, answers[k].origin).value, Convert(site, answers[l].origin).value;
    if left.tree == right.tree {
      ConvertedApart(site, answers[k].origin, answers[l].origin);
    }
  }

  lemma ConvertedApart(site: Site, a: Row, b: Row)
    requires SiteWellFormed(site) && Convert(site, a).Ok? && Convert(site, b).Ok?
    requires Convert(site, a).value.tree == Convert(site, b).value.tree
    ensures SameTalents(Convert(site, a).value.text, Convert(site, b).value.text, Convert(site, a).value.tree)
            <==> Convert(site, a).value.text == Convert(site, b).value.text
  {
    hide ExportCode, HashSpecId, WellFormed, SameTalents;
    SameTalentsIffEqual(a.code, b.code, Convert(site, a).value.tree);
  }
}
