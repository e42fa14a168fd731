/**
 From action lists to entries: each action parsed, every talent reference traced to the line that starts
 it, the entries sorted by line, and grouped by list again.
 */
module AplEntries {
  import opened Wrappers
  import opened Sequences
  import opened Strings
  import opened AplParser

  // ---------------------------------------------------------------- talent references

  predicate WordChar(c: char)
  {
    'A' <= c <= 'Z' || 'a' <= c <= 'z' || '0' <= c <= '9' || c == '_'
  }

  const TALENT_PREFIX := "talent."

  function WordEnd(body: string, from: nat): (end: nat)
    requires from <= |body|
    ensures from <= end <= |body|
    ensures forall k | from <= k < end :: WordChar(body[k])
    ensures end < |body| ==> !WordChar(body[end])
    decreases |body| - from
  {
    if from < |body| && WordChar(body[from]) then WordEnd(body, from + 1) else from
  }

  /** A match starts here: the prefix, then at least one word character. */
  predicate TalentAt(body: string, at: nat)
  {
    at + 7 < |body| && body[at..at + 7] == TALENT_PREFIX && WordChar(body[at + 7])
  }

  datatype Match = Match(start: nat, name: string)

  /** The matches of `talent\.([A-Za-z0-9_]+)`, leftmost first, none overlapping another. */
  function Matches(body: string, from: nat): (matches: seq<Match>)
    ensures forall m | m in matches :: from <= m.start && TalentAt(body, m.start)
    decreases |body| - from
  {
    if from >= |body| then []
    else if TalentAt(body, from) then
      var end := WordEnd(body, from + 7);
      [Match(from, body[from + 7..end])] + Matches(body, end)
    else Matches(body, from + 1)
  }

  /** The references of a marked body: each match, with the line of the character it starts on. */
  function MarkedRefs(marks: seq<Mark>, matches: seq<Match>): seq<(string, nat)>
    requires forall m | m in matches :: m.start < |marks|
  {
    if matches == [] then []
    else
      assert matches[0] in matches && forall m | m in matches[1..] :: m in matches;
      [(matches[0].name, marks[matches[0].start].line)] + MarkedRefs(marks, matches[1..])
  }

  function BodyLength(sources: Action): nat
  {
    if sources == [] then 0 else |sources[0].text| + BodyLength(sources[1..])
  }

  lemma {:induction false} ActionLength(sources: Action)
    ensures |ActionMarks(sources)| == BodyLength(sources)
  {
    if sources != [] {
      ActionLength(sources[1..]);
      FragmentIsLine(sources[0]);
      assert ActionMarks(sources) == FragmentMarks(sources[0]) + ActionMarks(sources[1..]);
    }
  }

  /** The character at an offset belongs to the fragment whose span contains it, and to no other. */
  lemma {:induction false} SpanHolds(sources: Action, k: nat, at: nat)
    requires k < |sources|
    requires BodyLength(sources[..k]) <= at < BodyLength(sources[..k]) + |sources[k].text|
    ensures at < |ActionMarks(sources)| && ActionMarks(sources)[at].line == sources[k].lineNo
  {
    ActionLength(sources);
    assert ActionMarks(sources) == FragmentMarks(sources[0]) + ActionMarks(sources[1..]);
    FragmentIsLine(sources[0]);
    if k > 0 {
      assert sources[..k][1..] == sources[1..][..k - 1];
      SpanHolds(sources[1..], k - 1, at - |sources[0].text|);
    }
  }

  lemma {:induction false} BodyLengthSnoc(sources: Action, last: Fragment)
    ensures BodyLength(sources + [last]) == BodyLength(sources) + |last.text|
  {
    if sources != [] {
      BodyLengthSnoc(sources[1..], last);
      assert (sources + [last])[1..] == sources[1..] + [last];
    }
  }

  /** The line of the first fragment that ends past the offset. */
  method LineAt(sources: Action, at: nat) returns (line: nat)
    requires at < |ActionMarks(sources)|
    ensures line == ActionMarks(sources)[at].line
  {
    ActionLength(sources);
    hide ActionMarks;
    var offset := 0;
    line := 0;
    var k := 0;
    assert sources[..0] == [] && sources[..|sources|] == sources;
    while k < |sources|
      invariant 0 <= k <= |sources| && offset == BodyLength(sources[..k]) && offset <= at
    {
      assert sources[..k + 1] == sources[..k] + [sources[k]];
      BodyLengthSnoc(sources[..k], sources[k]);
      offset := offset + |sources[k].text|;
      if at < offset {
        SpanHolds(sources, k, at);
        return sources[k].lineNo;
      }
      k := k + 1;
    }
    assert false;
  }

  lemma RefsStep(marks: seq<Mark>, matches: seq<Match>, i: nat)
    requires i < |matches| && forall m | m in matches :: m.start < |marks|
    ensures matches[i].start < |marks|
    ensures (forall m | m in matches[i..] :: m.start < |marks|) && (forall m | m in matches[i + 1..] :: m.start < |marks|)
    ensures MarkedRefs(marks, matches[i..]) ==
            [(matches[i].name, marks[matches[i].start].line)] + MarkedRefs(marks, matches[i + 1..])
  {
    assert matches[i] in matches;
    assert forall m | m in matches[i..] :: m in matches;
    assert forall m | m in matches[i + 1..] :: m in matches;
    assert matches[i..][1..] == matches[i + 1..];
  }

  /** Every match is attributed once, to the line of the fragment whose span contains its start. */
  method TalentSourceLines(body: string, sources: Action) returns (refs: seq<(string, nat)>)
    requires body == Erase(ActionMarks(sources))
    ensures refs == MarkedRefs(ActionMarks(sources), Matches(body, 0))
  {
    hide ActionMarks, Matches, MarkedRefs, TalentAt;
    var matches := Matches(body, 0);
    ghost var marks := ActionMarks(sources);
    MatchesInside(body);
    refs := [];
    assert matches[0..] == matches;
    assert [] + MarkedRefs(marks, matches) == MarkedRefs(marks, matches);
    for i := 0 to |matches|
      invariant forall m | m in matches[i..] :: m.start < |marks|
      invariant refs + MarkedRefs(marks, matches[i..]) == MarkedRefs(marks, matches)
    {
      RefsStep(marks, matches, i);
      var line := LineAt(sources, matches[i].start);
      ConcatAssociates(refs, [(matches[i].name, line)], MarkedRefs(marks, matches[i + 1..]));
      refs := refs + [(matches[i].name, line)];
    }
    NoRefs(marks);
    assert matches[|matches|..] == [];
    assert refs + [] == refs;
  }

  lemma MatchesInside(body: string)
    ensures forall m | m in Matches(body, 0) :: m.start < |body|
  {
    hide Matches;
  }

  lemma NoRefs(marks: seq<Mark>)
    ensures MarkedRefs(marks, []) == []
  {
  }

  // ---------------------------------------------------------------- one entry

  /** Python's `partition`: before the first separator, whether there is one, and what follows it. */
  function Partition(s: string, sep: char): (string, bool, string)
  {
    if s == "" then ("", false, "")
    else if s[0] == sep then ("", true, s[1..])
    else
      var (before, found, later) := Partition(s[1..], sep);
      ([s[0]] + before, found, later)
  }

  /** The value of the last `key=value` option with that key. */
  function LastOption(parts: seq<string>, key: string): Option<string>
  {
    if parts == [] then None
    else
      var (name, found, value) := Partition(parts[|parts| - 1], '=');
      if found && Strip(name) == key then Some(Strip(value)) else LastOption(parts[..|parts| - 1], key)
  }

  datatype Kind = Plain | Call | Run

  datatype Entry = Entry(
    lineNo: nat, list: string, op: Op, action: string, rawArgs: string, condition: Option<string>,
    target: Option<string>, kind: Kind, talentLines: seq<(string, nat)>)

  function KindOf(action: string): Kind
  {
    if action == "call_action_list" then Call else if action == "run_action_list" then Run else Plain
  }

  /** The entry a marked piece of a list's text is. */
  function EntryOf(list: string, piece: seq<Mark>): Entry
    requires piece != []
  {
    var body := Erase(piece);
    var (action, _, args) := Partition(body, ',');
    var rawArgs := Strip(args);
    var parts := Split(rawArgs, ',');
    var kind := KindOf(Strip(action));
    Entry(
      piece[0].line, list, piece[0].op, Strip(action), rawArgs, LastOption(parts, "if"),
      if kind.Plain? then None else LastOption(parts, "name"), kind, MarkedRefs(piece, Matches(body, 0)))
  }

  method ReadOptions(parts: seq<string>) returns (options: map<string, string>)
    ensures forall key :: (key in options <==> LastOption(parts, key).Some?)
                          && (key in options ==> Some(options[key]) == LastOption(parts, key))
  {
    options := map[];
    assert parts[..0] == [];
    for i := 0 to |parts|
      invariant forall key :: (key in options <==> LastOption(parts[..i], key).Some?)
                              && (key in options ==> Some(options[key]) == LastOption(parts[..i], key))
    {
      assert parts[..i + 1][..i] == parts[..i];
      var (key, found, value) := Partition(parts[i], '=');
      if found {
        options := options[Strip(key) := Strip(value)];
      }
    }
    assert parts[..|parts|] == parts;
  }

  lemma EraseConcat(a: seq<Mark>, b: seq<Mark>)
    ensures Erase(a + b) == Erase(a) + Erase(b)
  {
    hide Erase;
    assert |Erase(a + b)| == |Erase(a) + Erase(b)|;
  }

  lemma EraseLine(text: string, line: nat, op: Op)
    ensures Erase(MarkLine(text, line, op)) == text
  {
  }

  method JoinTexts(sources: Action) returns (body: string)
    ensures body == Erase(ActionMarks(sources))
  {
    hide MarkLine, Flatten, Erase;
    body := "";
    assert sources[..0] == [] && sources[..|sources|] == sources;
    NothingErased();
    for i := 0 to |sources|
      invariant body == Erase(ActionMarks(sources[..i]))
    {
      var source := sources[i];
      assert sources[..i + 1] == sources[..i] + [source];
      FlattenSnoc(sources[..i], source, FragmentMarks);
      EraseConcat(ActionMarks(sources[..i]), FragmentMarks(source));
      EraseLine(source.text, source.lineNo, source.op);
      body := body + source.text;
    }
  }

  lemma NothingErased()
    ensures Erase(ActionMarks([])) == ""
  {
  }

  lemma FirstMark(sources: Action)
    requires sources != [] && sources[0].text != ""
    ensures var marks := ActionMarks(sources);
            marks != [] && marks[0].line == sources[0].lineNo && marks[0].op == sources[0].op
  {
    assert ActionMarks(sources) == FragmentMarks(sources[0]) + ActionMarks(sources[1..]);
    FragmentIsLine(sources[0]);
  }

  method ParseAction(sources: Action, list: string) returns (entry: Entry)
    requires sources != [] && sources[0].text != ""
    ensures ActionMarks(sources) != [] && entry == EntryOf(list, ActionMarks(sources))
  {
    hide LastOption, Strip, Partition, Split, Matches, ActionMarks, MarkedRefs, Erase;
    FirstMark(sources);
    var body := JoinTexts(sources);
    var (action, _, args) := Partition(body, ',');
    var rawArgs := Strip(args);
    var options := ReadOptions(Split(rawArgs, ','));
    var kind := KindOf(Strip(action));
    var condition := if "if" in options then Some(options["if"]) else None;
    var target := if !kind.Plain? && "name" in options then Some(options["name"]) else None;
    var refs := TalentSourceLines(body, sources);
    entry := Entry(sources[0].lineNo, list, sources[0].op, Strip(action), rawArgs, condition, target, kind, refs);
  }

  // ---------------------------------------------------------------- sorting and grouping

  /** Python's stable `sorted` by line, as an insertion: an entry goes before later entries on its line. */
  function Insert(entry: Entry, sorted: seq<Entry>): (longer: seq<Entry>)
    ensures |longer| == |sorted| + 1
  {
    if sorted == [] || entry.lineNo <= sorted[0].lineNo then [entry] + sorted
    else [sorted[0]] + Insert(entry, sorted[1..])
  }

  function StableSort(entries: seq<Entry>): (sorted: seq<Entry>)
    ensures |sorted| == |entries|
  {
    if entries == [] then [] else Insert(entries[0], StableSort(entries[1..]))
  }

  ghost predicate InLineOrder(entries: seq<Entry>)
  {
    forall k, l | 0 <= k < l < |entries| :: entries[k].lineNo <= entries[l].lineNo
  }

  function OfList(entries: seq<Entry>, list: string): seq<Entry>
  {
    if entries == [] then []
    else (if entries[0].list == list then [entries[0]] else []) + OfList(entries[1..], list)
  }

  lemma {:induction false} InsertBound(entry: Entry, sorted: seq<Entry>, line: nat)
    requires line <= entry.lineNo && forall k | 0 <= k < |sorted| :: line <= sorted[k].lineNo
    ensures forall k | 0 <= k < |Insert(entry, sorted)| :: line <= Insert(entry, sorted)[k].lineNo
  {
    if sorted != [] && entry.lineNo > sorted[0].lineNo {
      InsertBound(entry, sorted[1..], line);
    }
  }

  lemma {:induction false} InsertSorted(entry: Entry, sorted: seq<Entry>)
    requires InLineOrder(sorted)
    ensures InLineOrder(Insert(entry, sorted))
  {
    if sorted != [] && entry.lineNo > sorted[0].lineNo {
      InsertSorted(entry, sorted[1..]);
      InsertBound(entry, sorted[1..], sorted[0].lineNo);
    }
  }

  lemma {:induction false} InsertMembers(entry: Entry, sorted: seq<Entry>)
    ensures multiset(Insert(entry, sorted)) == multiset(sorted) + multiset{entry}
  {
    if sorted != [] && entry.lineNo > sorted[0].lineNo {
      InsertMembers(entry, sorted[1..]);
      assert sorted == [sorted[0]] + sorted[1..];
    }
  }

  /** The sort is a sort: same entries, in line order. */
  lemma {:induction false} SortSorts(entries: seq<Entry>)
    ensures InLineOrder(StableSort(entries))
    ensures multiset(StableSort(entries)) == multiset(entries)
  {
    if entries != [] {
      SortSorts(entries[1..]);
      InsertSorted(entries[0], StableSort(entries[1..]));
      InsertMembers(entries[0], StableSort(entries[1..]));
      assert entries == [entries[0]] + entries[1..];
    }
  }

  lemma OfListCons(entry: Entry, rest: seq<Entry>, list: string)
    ensures OfList([entry] + rest, list) == if entry.list == list then [entry] + OfList(rest, list) else OfList(rest, list)
  {
    assert ([entry] + rest)[1..] == rest;
    assert [] + OfList(rest, list) == OfList(rest, list);
  }

  lemma {:induction false} FilterKeepsBound(entries: seq<Entry>, list: string, line: nat)
    requires forall k | 0 <= k < |entries| :: line <= entries[k].lineNo
    ensures forall k | 0 <= k < |OfList(entries, list)| :: line <= OfList(entries, list)[k].lineNo
  {
    if entries != [] {
      FilterKeepsBound(entries[1..], list, line);
    }
  }

  lemma InsertInFront(entry: Entry, sorted: seq<Entry>, list: string)
    requires InLineOrder(sorted) && (sorted == [] || entry.lineNo <= sorted[0].lineNo)
    ensures Insert(entry, OfList(sorted, list)) == [entry] + OfList(sorted, list)
  {
    FilterKeepsBound(sorted, list, entry.lineNo);
  }

  lemma InsertBehind(entry: Entry, head: Entry, rest: seq<Entry>)
    requires entry.lineNo > head.lineNo
    ensures Insert(entry, [head] + rest) == [head] + Insert(entry, rest)
  {
    assert ([head] + rest)[1..] == rest;
  }

  lemma {:induction false} InsertThenFilter(entry: Entry, sorted: seq<Entry>, list: string)
    requires InLineOrder(sorted)
    ensures OfList(Insert(entry, sorted), list) ==
            if entry.list == list then Insert(entry, OfList(sorted, list)) else OfList(sorted, list)
  {
    hide OfList;
    if sorted == [] || entry.lineNo <= sorted[0].lineNo {
      InsertInFront(entry, sorted, list);
      OfListCons(entry, sorted, list);
    } else {
      var head, rest := sorted[0], sorted[1..];
      assert sorted == [head] + rest;
      InsertThenFilter(entry, rest, list);
      InsertBehind(entry, head, rest);
      OfListCons(head, rest, list);
      OfListCons(head, Insert(entry, rest), list);
      InsertBehind(entry, head, OfList(rest, list));
    }
  }

  lemma SortCons(entry: Entry, rest: seq<Entry>)
    ensures StableSort([entry] + rest) == Insert(entry, StableSort(rest))
  {
    assert ([entry] + rest)[1..] == rest;
  }

  /** Sorting then picking a list is picking the list then sorting. */
  lemma {:induction false} SortThenFilter(entries: seq<Entry>, list: string)
    ensures OfList(StableSort(entries), list) == StableSort(OfList(entries, list))
  {
    if entries != [] {
      hide OfList, StableSort, Insert;
      var head, rest := entries[0], entries[1..];
      assert entries == [head] + rest;
      SortThenFilter(rest, list);
      SortSorts(rest);
      SortCons(head, rest);
      InsertThenFilter(head, StableSort(rest), list);
      OfListCons(head, rest, list);
      SortCons(head, OfList(rest, list));
    }
  }

  lemma {:induction false} SortedStays(entries: seq<Entry>)
    requires InLineOrder(entries)
    ensures StableSort(entries) == entries
  {
    if entries != [] {
      SortedStays(entries[1..]);
      assert entries == [entries[0]] + entries[1..];
    }
  }

  /** A list whose lines never go back keeps its order through the sort. */
  lemma SortKeepsListOrder(entries: seq<Entry>, list: string)
    requires InLineOrder(OfList(entries, list))
    ensures OfList(StableSort(entries), list) == OfList(entries, list)
  {
    SortThenFilter(entries, list);
    SortedStays(OfList(entries, list));
  }

  lemma {:induction false} OfListSnoc(entries: seq<Entry>, last: Entry, list: string)
    ensures OfList(entries + [last], list) == OfList(entries, list) + if last.list == list then [last] else []
  {
    if entries == [] {
      assert [last][1..] == [];
    } else {
      OfListSnoc(entries[1..], last, list);
      assert (entries + [last])[1..] == entries[1..] + [last];
    }
  }

  /** The lists that have entries, each with its entries in order. */
  method GroupEntries(entries: seq<Entry>) returns (grouped: map<string, seq<Entry>>)
    ensures forall list :: (list in grouped <==> OfList(entries, list) != [])
                           && (list in grouped ==> grouped[list] == OfList(entries, list))
  {
    grouped := map[];
    assert entries[..0] == [] && entries[..|entries|] == entries;
    for i := 0 to |entries|
      invariant forall list :: (list in grouped <==> OfList(entries[..i], list) != [])
                               && (list in grouped ==> grouped[list] == OfList(entries[..i], list))
    {
      var entry := entries[i];
      assert entries[..i + 1] == entries[..i] + [entry];
      forall list {
        OfListSnoc(entries[..i], entry, list);
      }
      var earlier := if entry.list in grouped then grouped[entry.list] else [];
      grouped := grouped[entry.list := earlier + [entry]];
    }
  }

  // ---------------------------------------------------------------- the parser

  ghost predicate LinesAscend(assignments: seq<Assignment>)
  {
    forall i, j | 0 <= i < j < |assignments| :: assignments[i].lineNo < assignments[j].lineNo
  }

  function LastLine(done: seq<Assignment>): nat
  {
    if done == [] then 0 else done[|done| - 1].lineNo
  }

  /** What the parser holds for a list: its actions are the pieces of its text, and the flag its last slash. */
  ghost predicate Tracks(
      done: seq<Assignment>, list: string, lists: map<string, seq<Action>>, separatorAtEnd: map<string, bool>)
  {
    if list in lists then
      && Bodies(lists[list]) == Pieces(ListMarks(done, list))
      && (list in separatorAtEnd && separatorAtEnd[list] <==> EndsInSlash(ListMarks(done, list)))
      && WellBuilt(lists[list], LastLine(done))
    else list !in separatorAtEnd && ListMarks(done, list) == []
  }

  ghost predicate TracksAll(
      done: seq<Assignment>, lists: map<string, seq<Action>>, separatorAtEnd: map<string, bool>)
  {
    forall list :: Tracks(done, list, lists, separatorAtEnd)
  }

  lemma MarksStep(done: seq<Assignment>, next: Assignment, list: string)
    ensures ListMarks(done + [next], list) ==
            if next.list != list then ListMarks(done, list)
            else if next.op.Replace? then ValueMarks(next)
            else ListMarks(done, list) + ValueMarks(next)
  {
    assert (done + [next])[..|done|] == done;
  }

  lemma EndsStep(before: seq<Mark>, assignment: Assignment)
    ensures EndsInSlash(before + ValueMarks(assignment)) <==>
            if assignment.value == "" then EndsInSlash(before)
            else assignment.value[|assignment.value| - 1] == '/'
  {
    var value := ValueMarks(assignment);
    if assignment.value == "" {
      assert before + value == before;
    } else {
      assert (before + value)[|before + value| - 1] == value[|value| - 1];
    }
  }

  lemma WellBuiltLater(actions: seq<Action>, line: nat, later: nat)
    requires WellBuilt(actions, line) && line <= later
    ensures WellBuilt(actions, later)
  {
  }

  /** The two dicts after one more assignment line. */
  method Assign(
      ghost done: seq<Assignment>, assignment: Assignment, lists: map<string, seq<Action>>,
      separatorAtEnd: map<string, bool>)
    returns (newLists: map<string, seq<Action>>, newSeparator: map<string, bool>)
    requires TracksAll(done, lists, separatorAtEnd) && LastLine(done) <= assignment.lineNo
    ensures TracksAll(done + [assignment], newLists, newSeparator)
    ensures newLists.Keys == lists.Keys + {assignment.list}
  {
    hide ListMarks, Pieces, Bodies, WellBuilt, EndsInSlash, ValueMarks, SplitWhere, Extend;
    var list, value := assignment.list, assignment.value;
    ghost var text := ListMarks(done, list);
    assert Tracks(done, list, lists, separatorAtEnd);
    newLists, newSeparator := lists, separatorAtEnd;
    if assignment.op.Replace? {
      newLists := newLists[list := []];
      newSeparator := newSeparator[list := false];
    }
    if list !in newLists {
      newLists := newLists[list := []];
    }
    var actions := newLists[list];
    var continues := assignment.op.Append? && !(list in newSeparator && newSeparator[list]);
    NothingYet(assignment.lineNo);
    if list in lists {
      WellBuiltLater(lists[list], LastLine(done), assignment.lineNo);
    }
    if assignment.op.Replace? {
      ReplaceIsPieces(ValueMarks(assignment));
      EndsStep([], assignment);
    } else {
      ExtendIsConcat(text, ValueMarks(assignment));
      EndsStep(text, assignment);
    }
    actions := AddValue(actions, assignment, continues);
    newLists := newLists[list := actions];
    if value != "" {
      newSeparator := newSeparator[list := value[|value| - 1] == '/'];
    }
    assert [] + ValueMarks(assignment) == ValueMarks(assignment);
    assert LastLine(done + [assignment]) == assignment.lineNo;
    MarksStep(done, assignment, list);
    forall other ensures Tracks(done + [assignment], other, newLists, newSeparator) {
      if other != list {
        OtherStays(done, assignment, other, lists, separatorAtEnd, newLists, newSeparator);
      }
    }
  }

  /** An assignment line to one list leaves what is held for another. */
  lemma OtherStays(
      done: seq<Assignment>, assignment: Assignment, other: string, lists: map<string, seq<Action>>,
      separatorAtEnd: map<string, bool>, newLists: map<string, seq<Action>>, newSeparator: map<string, bool>)
    requires TracksAll(done, lists, separatorAtEnd) && LastLine(done) <= assignment.lineNo
    requires other != assignment.list
    requires other in newLists <==> other in lists
    requires other in lists ==> newLists[other] == lists[other]
    requires other in newSeparator <==> other in separatorAtEnd
    requires other in newSeparator ==> newSeparator[other] == separatorAtEnd[other]
    ensures Tracks(done + [assignment], other, newLists, newSeparator)
  {
    hide ListMarks, Pieces, Bodies, WellBuilt, EndsInSlash;
    MarksStep(done, assignment, other);
    assert Tracks(done, other, lists, separatorAtEnd);
    assert LastLine(done + [assignment]) == assignment.lineNo;
    if other in lists {
      WellBuiltLater(lists[other], LastLine(done), assignment.lineNo);
    }
  }

  lemma NothingYet(line: nat)
    ensures Bodies([]) == [] && WellBuilt([], line) && !EndsInSlash([]) && Pieces([]) == []
  {
    EmptySplit(IsSlash);
    FlattenOne([], KeepIfAny<Mark>);
  }

  /** A list's entries: its pieces in order. */
  function PieceEntries(list: string, pieces: seq<seq<Mark>>): (entries: seq<Entry>)
    requires forall k | 0 <= k < |pieces| :: pieces[k] != []
    ensures |entries| == |pieces|
    ensures forall k | 0 <= k < |pieces| :: entries[k] == EntryOf(list, pieces[k])
  {
    seq(|pieces|, k requires 0 <= k < |pieces| => EntryOf(list, pieces[k]))
  }

  method ListEntries(list: string, actions: seq<Action>, ghost line: nat) returns (entries: seq<Entry>)
    requires WellBuilt(actions, line)
    ensures forall k | 0 <= k < |Bodies(actions)| :: Bodies(actions)[k] != []
    ensures entries == PieceEntries(list, Bodies(actions))
    ensures InLineOrder(entries)
  {
    hide EntryOf, Bodies, ActionMarks;
    BodiesLength(actions);
    forall k | 0 <= k < |actions|
      ensures ActionMarks(actions[k]) != [] && ActionMarks(actions[k])[0].line == actions[k][0].lineNo
    {
      FirstMark(actions[k]);
    }
    entries := [];
    for k := 0 to |actions|
      invariant |entries| == k
      invariant forall l | 0 <= l < k :: entries[l] == EntryOf(list, Bodies(actions)[l])
    {
      var entry := ParseAction(actions[k], list);
      entries := entries + [entry];
    }
    forall k | 0 <= k < |entries| ensures entries[k].lineNo == actions[k][0].lineNo {
      EntryLine(list, Bodies(actions)[k]);
    }
  }

  lemma EntryLine(list: string, piece: seq<Mark>)
    requires piece != []
    ensures EntryOf(list, piece).lineNo == piece[0].line && EntryOf(list, piece).list == list
  {
  }

  lemma {:induction false} OfListConcat(a: seq<Entry>, b: seq<Entry>, list: string)
    ensures OfList(a + b, list) == OfList(a, list) + OfList(b, list)
  {
    hide OfList;
    if a == [] {
      assert a + b == b;
      assert OfList([], list) == [] by { NoEntries(list); }
    } else {
      OfListConcat(a[1..], b, list);
      assert a + b == [a[0]] + (a[1..] + b);
      assert a == [a[0]] + a[1..];
      OfListCons(a[0], a[1..] + b, list);
      OfListCons(a[0], a[1..], list);
    }
  }

  lemma NoEntries(list: string)
    ensures OfList([], list) == []
  {
  }

  lemma {:induction false} OfOneList(entries: seq<Entry>, list: string, other: string)
    requires forall k | 0 <= k < |entries| :: entries[k].list == list
    ensures OfList(entries, other) == if list == other then entries else []
  {
    if entries != [] {
      OfOneList(entries[1..], list, other);
      assert entries == [entries[0]] + entries[1..];
    }
  }

  lemma PieceEntriesOf(list: string, pieces: seq<seq<Mark>>, other: string)
    requires forall k | 0 <= k < |pieces| :: pieces[k] != []
    ensures OfList(PieceEntries(list, pieces), other) == if list == other then PieceEntries(list, pieces) else []
  {
    hide EntryOf;
    forall k | 0 <= k < |pieces| ensures PieceEntries(list, pieces)[k].list == list {
      EntryLine(list, pieces[k]);
    }
    OfOneList(PieceEntries(list, pieces), list, other);
  }

  ghost predicate Distinct(names: seq<string>)
  {
    forall i, j | 0 <= i < j < |names| :: names[i] != names[j]
  }

  /** The entries of a list, as the specification has them. */
  ghost function SpecEntries(assignments: seq<Assignment>, list: string): seq<Entry>
  {
    PieceEntries(list, Pieces(ListMarks(assignments, list)))
  }

  method CollectEntries(ghost done: seq<Assignment>, names: seq<string>, lists: map<string, seq<Action>>,
                        ghost separatorAtEnd: map<string, bool>)
    returns (entries: seq<Entry>)
    requires TracksAll(done, lists, separatorAtEnd)
    requires Distinct(names) && forall name :: name in names <==> name in lists
    ensures forall list :: OfList(entries, list) == SpecEntries(done, list) && InLineOrder(OfList(entries, list))
  {
    hide ListMarks, Bodies, Pieces, PieceEntries, WellBuilt, OfList, TracksAll;
    entries := [];
    assert names[..0] == [] && names[..|names|] == names;
    forall list { NoEntries(list); }
    for i := 0 to |names|
      invariant forall list | list in names[..i] ::
        OfList(entries, list) == SpecEntries(done, list) && InLineOrder(OfList(entries, list))
      invariant forall list | list !in names[..i] :: OfList(entries, list) == []
    {
      var name := names[i];
      assert names[..i + 1] == names[..i] + [name];
      assert name in names && name !in names[..i];
      TrackedList(done, name, lists, separatorAtEnd);
      var more := ListEntries(name, lists[name], LastLine(done));
      forall list ensures OfList(entries + more, list) == if list == name then more else OfList(entries, list) {
        ListAppended(entries, name, Bodies(lists[name]), list);
      }
      entries := entries + more;
    }
    forall list | list !in names ensures SpecEntries(done, list) == [] {
      UntrackedList(done, list, lists, separatorAtEnd);
    }
  }

  lemma TrackedList(
      done: seq<Assignment>, name: string, lists: map<string, seq<Action>>, separatorAtEnd: map<string, bool>)
    requires TracksAll(done, lists, separatorAtEnd) && name in lists
    ensures WellBuilt(lists[name], LastLine(done)) && Bodies(lists[name]) == Pieces(ListMarks(done, name))
  {
    hide ListMarks, Bodies, Pieces, WellBuilt;
    assert Tracks(done, name, lists, separatorAtEnd);
  }

  lemma UntrackedList(
      done: seq<Assignment>, name: string, lists: map<string, seq<Action>>, separatorAtEnd: map<string, bool>)
    requires TracksAll(done, lists, separatorAtEnd) && name !in lists
    ensures SpecEntries(done, name) == []
  {
    hide ListMarks, Bodies, Pieces, PieceEntries, WellBuilt;
    assert Tracks(done, name, lists, separatorAtEnd);
    NoSpecEntries(name);
  }

  lemma ListAppended(entries: seq<Entry>, name: string, pieces: seq<seq<Mark>>, list: string)
    requires forall k | 0 <= k < |pieces| :: pieces[k] != []
    requires list == name ==> OfList(entries, list) == []
    ensures OfList(entries + PieceEntries(name, pieces), list) ==
            if list == name then PieceEntries(name, pieces) else OfList(entries, list)
  {
    hide PieceEntries, OfList;
    var more := PieceEntries(name, pieces);
    OfListConcat(entries, more, list);
    PieceEntriesOf(name, pieces, list);
    assert OfList(entries, list) + [] == OfList(entries, list);
    assert [] + more == more;
  }

  lemma NoSpecEntries(list: string)
    ensures Pieces([]) == [] && PieceEntries(list, []) == []
  {
    NothingYet(0);
  }

  /**
   For every list, the entries are the non-empty pieces of its text since its last `=`, in order: parsed,
   on the line where the piece starts, each talent reference on the line where it starts.
   */
  method ParseApl(assignments: seq<Assignment>) returns (entries: seq<Entry>)
    requires LinesAscend(assignments)
    ensures forall list :: OfList(entries, list) == SpecEntries(assignments, list)
    ensures InLineOrder(entries)
  {
    hide Tracks, SpecEntries, OfList, StableSort;
    var lists: map<string, seq<Action>> := map[];
    var separatorAtEnd: map<string, bool> := map[];
    var names: seq<string> := [];
    assert assignments[..0] == [] && assignments[..|assignments|] == assignments;
    StartsTracking();
    for i := 0 to |assignments|
      invariant TracksAll(assignments[..i], lists, separatorAtEnd)
      invariant LastLine(assignments[..i]) <= if i == 0 then 0 else assignments[i - 1].lineNo
      invariant Distinct(names) && forall name :: name in names <==> name in lists
    {
      var assignment := assignments[i];
      assert assignments[..i + 1] == assignments[..i] + [assignment];
      if assignment.list !in lists {
        names := names + [assignment.list];
      }
      lists, separatorAtEnd := Assign(assignments[..i], assignment, lists, separatorAtEnd);
    }
    var unsorted := CollectEntries(assignments, names, lists, separatorAtEnd);
    entries := StableSort(unsorted);
    SortSorts(unsorted);
    forall list {
      SortKeepsListOrder(unsorted, list);
    }
  }

  lemma StartsTracking()
    ensures TracksAll([], map[], map[])
  {
  }

  /** Grouping the parsed entries gives each list its actions in parse order; an emptied list is absent. */
  method ParseAndGroup(assignments: seq<Assignment>) returns (grouped: map<string, seq<Entry>>)
    requires LinesAscend(assignments)
    ensures forall list :: (list in grouped <==> SpecEntries(assignments, list) != [])
                           && (list in grouped ==> grouped[list] == SpecEntries(assignments, list))
  {
    hide SpecEntries, OfList;
    var entries := ParseApl(assignments);
    grouped := GroupEntries(entries);
  }

  // ---------------------------------------------------------------- the text alone

  /** A list's values since its last `=`, as plain text. */
  function ListText(assignments: seq<Assignment>, name: string): string
  {
    if assignments == [] then ""
    else
      var last := assignments[|assignments| - 1];
      var before := ListText(assignments[..|assignments| - 1], name);
      if last.list != name then before
      else if last.op.Replace? then last.value
      else before + last.value
  }

  lemma {:induction false} ErasedText(assignments: seq<Assignment>, name: string)
    ensures Erase(ListMarks(assignments, name)) == ListText(assignments, name)
  {
    if assignments != [] {
      var last := assignments[|assignments| - 1];
      var front := assignments[..|assignments| - 1];
      ErasedText(front, name);
      EraseLine(last.value, last.lineNo, last.op);
      EraseConcat(ListMarks(front, name), ValueMarks(last));
    }
  }

  function ErasePieces(pieces: seq<seq<Mark>>): (texts: seq<string>)
    ensures |texts| == |pieces|
  {
    if pieces == [] then [] else [Erase(pieces[0])] + ErasePieces(pieces[1..])
  }

  lemma {:induction false} SplitErased(marks: seq<Mark>)
    ensures ErasePieces(SplitWhere(marks, IsSlash)) == Split(Erase(marks), '/')
  {
    if marks != [] {
      SplitErased(marks[1..]);
      var rest := SplitWhere(marks[1..], IsSlash);
      assert Erase(marks)[1..] == Erase(marks[1..]);
      assert Is('/')(marks[0].c) <==> IsSlash(marks[0]);
      if !IsSlash(marks[0]) {
        var pieces := [[marks[0]] + rest[0]] + rest[1..];
        assert pieces[1..] == rest[1..];
        assert ErasePieces(rest)[1..] == ErasePieces(rest[1..]);
        assert Erase([marks[0]] + rest[0]) == [marks[0].c] + Erase(rest[0]);
      } else {
        assert ([[]] + rest)[1..] == rest;
      }
    }
  }

  lemma {:induction false} KeptErased(pieces: seq<seq<Mark>>)
    ensures ErasePieces(Kept(pieces)) == Kept(ErasePieces(pieces))
  {
    if pieces != [] {
      KeptErased(pieces[1..]);
      assert Kept(pieces) == KeepIfAny(pieces[0]) + Kept(pieces[1..]);
      assert Kept(ErasePieces(pieces)) == KeepIfAny(Erase(pieces[0])) + Kept(ErasePieces(pieces[1..]));
      if pieces[0] != [] {
        assert (KeepIfAny(pieces[0]) + Kept(pieces[1..]))[1..] == Kept(pieces[1..]);
      } else {
        assert [] + Kept(pieces[1..]) == Kept(pieces[1..]);
        assert [] + Kept(ErasePieces(pieces[1..])) == Kept(ErasePieces(pieces[1..]));
      }
    }
  }

  /** Concatenate, then split: the bodies of a list's actions are the non-empty pieces of its text. */
  lemma ConcatenateThenSplit(assignments: seq<Assignment>, name: string)
    ensures ErasePieces(Pieces(ListMarks(assignments, name))) == Kept(Split(ListText(assignments, name), '/'))
  {
    ErasedText(assignments, name);
    SplitErased(ListMarks(assignments, name));
    KeptErased(SplitWhere(ListMarks(assignments, name), IsSlash));
  }
}
