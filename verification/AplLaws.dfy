/**
 A parsed action, said over its text alone: which stretches of it are talent references, how its name, its
 arguments and its options are spelled, and which lines a list's text comes from.
 */
module AplLaws {
  import opened Wrappers
  import opened Sequences
  import opened Strings
  import opened AplParser
  import opened AplEntries
  import BitCodec

  // ---------------------------------------------------------------- talent references

  /** A reference: the prefix, then a name of word characters that is not empty and goes on as far as it can. */
  ghost predicate RefSpelled(body: string, at: nat, name: string)
  {
    && name != "" && at + 7 + |name| <= |body|
    && body[at..at + 7] == "talent." && body[at + 7..at + 7 + |name|] == name
    && (forall c | c in name :: WordChar(c))
    && (at + 7 + |name| < |body| ==> !WordChar(body[at + 7 + |name|]))
  }

  ghost predicate RefStarts(body: string, at: nat)
  {
    exists name :: RefSpelled(body, at, name)
  }

  /** Offset `at` lies in the text of match `k`, its start included. */
  ghost predicate InSpan(matches: seq<Match>, k: nat, at: nat)
  {
    k < |matches| && matches[k].start <= at < matches[k].start + 7 + |matches[k].name|
  }

  ghost predicate Spelled(body: string, matches: seq<Match>)
  {
    forall k | 0 <= k < |matches| :: RefSpelled(body, matches[k].start, matches[k].name)
  }

  ghost predicate Apart(matches: seq<Match>)
  {
    forall k, l | 0 <= k < l < |matches| :: matches[k].start + 7 + |matches[k].name| <= matches[l].start
  }

  /** From `from` on, a reference starts nowhere but in the text of a match. */
  ghost predicate NoneMissing(body: string, from: nat, matches: seq<Match>)
  {
    forall at: nat | from <= at && RefStarts(body, at) :: exists k: nat :: InSpan(matches, k, at)
  }

  lemma NameEnds(body: string, at: nat)
    requires TalentAt(body, at)
    ensures RefSpelled(body, at, body[at + 7..WordEnd(body, at + 7)])
  {
    var end := WordEnd(body, at + 7);
    var name := body[at + 7..end];
    assert WordEnd(body, at + 7) > at + 7;
    forall c | c in name ensures WordChar(c) {
      var k :| 0 <= k < |name| && name[k] == c;
      assert c == body[at + 7 + k];
    }
  }

  lemma StartIsTalentAt(body: string, at: nat, name: string)
    requires RefSpelled(body, at, name)
    ensures TalentAt(body, at)
  {
    assert body[at + 7] == name[0];
    assert name[0] in name;
  }

  lemma {:induction false} MatchesFrom(body: string, from: nat)
    ensures var matches := Matches(body, from);
            && Spelled(body, matches) && Apart(matches) && NoneMissing(body, from, matches)
    decreases |body| - from
  {
    hide TalentAt, WordEnd, RefSpelled, RefStarts, NoneMissing, Spelled, Apart;
    if from >= |body| {
      NoneStarts(body, from);
    } else if TalentAt(body, from) {
      NameEndsLater(body, from);
      var end := WordEnd(body, from + 7);
      NameEnds(body, from);
      MatchesFrom(body, end);
      OneMore(body, from, body[from + 7..end], Matches(body, end));
    } else {
      MatchesFrom(body, from + 1);
      NoneHere(body, from, Matches(body, from + 1));
    }
  }

  lemma NoneStarts(body: string, from: nat)
    requires from >= |body|
    ensures Spelled(body, []) && Apart([]) && NoneMissing(body, from, [])
  {
    hide RefSpelled;
    forall at: nat | from <= at ensures !RefStarts(body, at) {
      if name :| RefSpelled(body, at, name) {
        StartInside(body, at, name);
      }
    }
  }

  lemma NoneHere(body: string, from: nat, matches: seq<Match>)
    requires !TalentAt(body, from) && NoneMissing(body, from + 1, matches)
    ensures NoneMissing(body, from, matches)
  {
    hide RefSpelled, TalentAt, InSpan;
    if RefStarts(body, from) {
      var name :| RefSpelled(body, from, name);
      StartIsTalentAt(body, from, name);
    }
  }

  lemma OneMore(body: string, from: nat, name: string, later: seq<Match>)
    requires RefSpelled(body, from, name)
    requires forall m | m in later :: from + 7 + |name| <= m.start
    requires Spelled(body, later) && Apart(later) && NoneMissing(body, from + 7 + |name|, later)
    ensures var matches := [Match(from, name)] + later;
            Spelled(body, matches) && Apart(matches) && NoneMissing(body, from, matches)
  {
    hide RefSpelled, RefStarts;
    var matches := [Match(from, name)] + later;
    forall k, l | 0 <= k < l < |matches| ensures matches[k].start + 7 + |matches[k].name| <= matches[l].start {
      assert matches[l] == later[l - 1] && later[l - 1] in later;
    }
    forall at: nat | from <= at && RefStarts(body, at) ensures exists k: nat :: InSpan(matches, k, at) {
      if at < from + 7 + |name| {
        assert InSpan(matches, 0, at);
      } else {
        var k: nat :| InSpan(later, k, at);
        assert InSpan(matches, k + 1, at);
      }
    }
  }

  lemma StartInside(body: string, at: nat, name: string)
    requires RefSpelled(body, at, name)
    ensures at < |body|
  {
  }

  lemma TalentInside(body: string, at: nat)
    requires TalentAt(body, at)
    ensures at + 7 < |body|
  {
  }

  lemma NameEndsLater(body: string, at: nat)
    requires TalentAt(body, at)
    ensures at + 7 < |body| && WordEnd(body, at + 7) > at + 7
    ensures |body[at + 7..WordEnd(body, at + 7)]| == WordEnd(body, at + 7) - at - 7
  {
  }

  /**
   The references of any text: each is the prefix and the longest non-empty name after it, none overlaps
   another, they come in the order of the text, and wherever the prefix is followed by a name a listed
   reference starts or is under way.
   */
  lemma MatchesAre(body: string)
    ensures var matches := Matches(body, 0);
            && Spelled(body, matches) && Apart(matches) && NoneMissing(body, 0, matches)
  {
    MatchesFrom(body, 0);
  }

  lemma InRun(run: string, first: char, c: char)
    requires forall i | 0 <= i < |run| :: run[i] as int == first as int + i
    ensures c in run <==> first as int <= c as int < first as int + |run|
  {
    if first as int <= c as int < first as int + |run| {
      assert run[c as int - first as int] == c;
    }
  }

  /** A name goes on through letters, digits and underscores. */
  lemma WordCharIs(c: char)
    ensures WordChar(c) <==> c in BitCodec.UPPER || c in BitCodec.LOWER || c in BitCodec.DIGITS || c == '_'
  {
    hide *;
    BitCodec.RunOfLetters();
    InRun(BitCodec.UPPER, 'A', c);
    InRun(BitCodec.LOWER, 'a', c);
    InRun(BitCodec.DIGITS, '0', c);
    WordCharRanges(c);
  }

  lemma WordCharRanges(c: char)
    ensures WordChar(c) <==> 65 <= c as int < 91 || 97 <= c as int < 123 || 48 <= c as int < 58 || c == '_'
  {
  }

  /** The references of a marked text, each on the line of the mark its match starts at. */
  ghost predicate RefsShow(piece: seq<Mark>, matches: seq<Match>, refs: seq<(string, nat)>)
  {
    && Spelled(Erase(piece), matches) && Apart(matches) && NoneMissing(Erase(piece), 0, matches)
    && |refs| == |matches|
    && forall k | 0 <= k < |matches| ::
         matches[k].start < |piece| && refs[k] == (matches[k].name, piece[matches[k].start].line)
  }

  lemma {:induction false} MarkedRefAt(marks: seq<Mark>, matches: seq<Match>)
    requires forall m | m in matches :: m.start < |marks|
    ensures |MarkedRefs(marks, matches)| == |matches|
    ensures forall k | 0 <= k < |matches| ::
              matches[k].start < |marks|
              && MarkedRefs(marks, matches)[k] == (matches[k].name, marks[matches[k].start].line)
  {
    if matches != [] {
      assert matches[0] in matches && forall m | m in matches[1..] :: m in matches;
      MarkedRefAt(marks, matches[1..]);
      assert forall k | 0 <= k < |matches| :: matches[k] in matches;
    }
  }

  /** Every reference of a marked text is listed once, in order, on the line of the character it starts on. */
  lemma MarkedRefsShow(piece: seq<Mark>)
    ensures forall m | m in Matches(Erase(piece), 0) :: m.start < |piece|
    ensures exists matches :: RefsShow(piece, matches, MarkedRefs(piece, Matches(Erase(piece), 0)))
  {
    hide Matches, TalentAt, MarkedRefs, Spelled, Apart, NoneMissing, Erase;
    var matches := Matches(Erase(piece), 0);
    MatchesAre(Erase(piece));
    forall m | m in matches ensures m.start < |piece| {
      TalentInside(Erase(piece), m.start);
    }
    MarkedRefAt(piece, matches);
    assert RefsShow(piece, matches, MarkedRefs(piece, matches));
  }

  // ---------------------------------------------------------------- the spelling of an action

  /** What stands before the first separator and after it, where there is one. */
  ghost predicate Parted(s: string, sep: char, before: string, found: bool, later: string)
  {
    && sep !in before
    && if found then s == before + [sep] + later else s == before && later == ""
  }

  lemma {:induction false} PartitionParts(s: string, sep: char)
    ensures var (before, found, later) := Partition(s, sep); Parted(s, sep, before, found, later)
  {
    if s != "" && s[0] != sep {
      PartitionParts(s[1..], sep);
      assert s == [s[0]] + s[1..];
    }
  }

  lemma HeadApart(before: string, sep: char, found: bool, later: string)
    requires sep !in before
    ensures var s := before + if found then [sep] + later else "";
            (before == "" <==> s == "" || s[0] == sep) && (before == "" && !found <==> s == "")
  {
    if before != "" {
      assert before[0] in before;
    }
  }

  lemma {:induction false} PartsAlone(
      a: string, b: string, sep: char, found: bool, other: bool, later: string, rest: string)
    requires sep !in a && sep !in b
    requires a + (if found then [sep] + later else "") == b + (if other then [sep] + rest else "")
    ensures a == b && found == other && (found ==> later == rest)
  {
    var s := a + if found then [sep] + later else "";
    var t := b + if other then [sep] + rest else "";
    assert s == t;
    HeadApart(a, sep, found, later);
    HeadApart(b, sep, other, rest);
    if a == "" {
      if found {
        assert s[1..] == later && t[1..] == rest;
      }
    } else {
      assert s[0] == a[0] && t[0] == b[0];
      assert s[1..] == a[1..] + (if found then [sep] + later else "");
      assert t[1..] == b[1..] + (if other then [sep] + rest else "");
      PartsAlone(a[1..], b[1..], sep, found, other, later, rest);
      assert a == [a[0]] + a[1..] && b == [b[0]] + b[1..];
    }
  }

  lemma PartitionIff(s: string, sep: char, before: string, found: bool, later: string)
    ensures Partition(s, sep) == (before, found, later) <==> Parted(s, sep, before, found, later)
  {
    hide Partition;
    PartitionParts(s, sep);
    var (first, there, rest) := Partition(s, sep);
    if Parted(s, sep, before, found, later) {
      assert before + (if found then [sep] + later else "") == s;
      assert first + (if there then [sep] + rest else "") == s;
      PartsAlone(before, first, sep, found, there, later, rest);
    }
  }

  /** The part spells `key=value`, spaces around either left out. */
  ghost predicate Sets(part: string, key: string, value: string)
  {
    exists before, later :: Parted(part, '=', before, true, later) && Bare(before, key) && Bare(later, value)
  }

  /** Of the parts that set the key the last gives its value. */
  ghost predicate LastSet(parts: seq<string>, key: string, value: Option<string>)
  {
    match value
    case None => forall k, v | 0 <= k < |parts| :: !Sets(parts[k], key, v)
    case Some(v) => exists k :: 0 <= k < |parts| && Sets(parts[k], key, v)
                                && forall l, w | k < l < |parts| :: !Sets(parts[l], key, w)
  }

  lemma SetsIff(part: string, key: string, value: string)
    ensures Sets(part, key, value) <==>
            var (name, found, rest) := Partition(part, '=');
            found && Strip(name) == key && Strip(rest) == value
  {
    hide Partition, Strip, Parted, Bare;
    var (name, found, rest) := Partition(part, '=');
    PartitionIff(part, '=', name, found, rest);
    StripIff(name, key);
    StripIff(rest, value);
    if Sets(part, key, value) {
      var before, later :| Parted(part, '=', before, true, later) && Bare(before, key) && Bare(later, value);
      PartitionIff(part, '=', before, true, later);
    }
  }

  lemma {:induction false} LastOptionSet(parts: seq<string>, key: string)
    ensures LastSet(parts, key, LastOption(parts, key))
  {
    hide Partition, Strip, Sets;
    if parts != [] {
      var n := |parts| - 1;
      var (name, found, value) := Partition(parts[n], '=');
      forall v {
        SetsIff(parts[n], key, v);
      }
      var earlier := LastOption(parts[..n], key);
      if found && Strip(name) == key {
        assert Sets(parts[n], key, Strip(value));
      } else {
        LastOptionSet(parts[..n], key);
        assert forall k | 0 <= k < n :: parts[..n][k] == parts[k];
        if earlier.Some? {
          var k :| 0 <= k < n && Sets(parts[..n][k], key, earlier.value)
                   && forall l, w | k < l < n :: !Sets(parts[..n][l], key, w);
          assert Sets(parts[k], key, earlier.value);
        }
      }
    }
  }

  /** The arguments' option of that key: they are cut at every comma, and the last part that sets it counts. */
  ghost predicate OptionShows(args: string, key: string, value: Option<string>)
  {
    exists parts: seq<string> :: |parts| >= 1 && (forall part | part in parts :: ',' !in part)
                                 && args == Join(parts, ',') && LastSet(parts, key, value)
  }

  lemma OptionOf(args: string, key: string)
    ensures OptionShows(args, key, LastOption(Split(args, ','), key))
  {
    JoinSplit(args, ',');
    LastOptionSet(Split(args, ','), key);
  }

  /** An entry, said over the marked text it was parsed from. */
  ghost predicate EntryShows(list: string, piece: seq<Mark>, entry: Entry)
  {
    && piece != [] && entry.lineNo == piece[0].line && entry.op == piece[0].op && entry.list == list
    && NameAndArgs(Erase(piece), entry.action, entry.rawArgs)
    && OptionShows(entry.rawArgs, "if", entry.condition)
    && (entry.kind.Call? <==> entry.action == "call_action_list")
    && (entry.kind.Run? <==> entry.action == "run_action_list")
    && (if entry.kind.Plain? then entry.target.None? else OptionShows(entry.rawArgs, "name", entry.target))
    && exists matches :: RefsShow(piece, matches, entry.talentLines)
  }

  /** The name stands before the first comma, the arguments after it, spaces around either left out. */
  ghost predicate NameAndArgs(body: string, action: string, args: string)
  {
    exists before, found, later :: Parted(body, ',', before, found, later) && Bare(before, action) && Bare(later, args)
  }

  /** Every entry shows the text it was parsed from. */
  lemma EntryIs(list: string, piece: seq<Mark>)
    requires piece != []
    ensures EntryShows(list, piece, EntryOf(list, piece))
  {
    hide Partition, Strip, Parted, Bare, LastOption, OptionShows, Matches, MarkedRefs, RefsShow, Erase;
    var body := Erase(piece);
    var (before, found, later) := Partition(body, ',');
    PartitionIff(body, ',', before, found, later);
    StripIff(before, Strip(before));
    StripIff(later, Strip(later));
    OptionOf(Strip(later), "if");
    OptionOf(Strip(later), "name");
    MarkedRefsShow(piece);
  }

  // ---------------------------------------------------------------- the text of a list

  function ValueTo(name: string): Assignment -> seq<Mark>
  {
    (assignment: Assignment) => if assignment.list == name then ValueMarks(assignment) else []
  }

  /** No `=` to the list among the assignments. */
  ghost predicate OnlyAppends(assignments: seq<Assignment>, name: string)
  {
    forall k | 0 <= k < |assignments| && assignments[k].list == name :: assignments[k].op.Append?
  }

  /** A list's text is every value given to it, end to end, from its last `=` on. */
  lemma {:induction false} ListMarksAre(before: seq<Assignment>, later: seq<Assignment>, name: string)
    requires OnlyAppends(later, name)
    requires before == [] || (before[|before| - 1].list == name && before[|before| - 1].op.Replace?)
    ensures ListMarks(before + later, name) == SinceReplace(before) + Flatten(later, ValueTo(name))
  {
    hide Flatten, ListMarks, ValueMarks;
    if later == [] {
      assert before + later == before;
      LastReplace(before, name);
      NoValues(name);
      assert SinceReplace(before) + [] == SinceReplace(before);
    } else {
      var n := |later| - 1;
      ListMarksAre(before, later[..n], name);
      assert later == later[..n] + [later[n]];
      assert before + later == (before + later[..n]) + [later[n]];
      FlattenSnoc(later[..n], later[n], ValueTo(name));
      MarksStep(before + later[..n], later[n], name);
      ConcatAssociates(SinceReplace(before), Flatten(later[..n], ValueTo(name)), ValueTo(name)(later[n]));
      assert ListMarks(before + later[..n], name) + [] == ListMarks(before + later[..n], name);
    }
  }

  function SinceReplace(before: seq<Assignment>): seq<Mark>
  {
    if before == [] then [] else ValueMarks(before[|before| - 1])
  }

  lemma LastReplace(before: seq<Assignment>, name: string)
    requires before == [] || (before[|before| - 1].list == name && before[|before| - 1].op.Replace?)
    ensures ListMarks(before, name) == SinceReplace(before)
  {
  }

  lemma NoValues(name: string)
    ensures Flatten([], ValueTo(name)) == []
  {
  }
}
