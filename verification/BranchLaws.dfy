/**
 The summary and the trace of an action list, said over its rows and their verdicts: what a status says of the
 runs, which row each reported note and decision is of, and which lines each row of a trace puts down.
 */
module BranchLaws {
  import opened Wrappers
  import opened Sequences
  import opened AplEntries
  import opened AplBranches
  import opened AplTrace

  // ---------------------------------------------------------------- what a status says

  /** The run gets as far as row `k`: no run row before it took it elsewhere. */
  ghost predicate Reaches(rows: seq<Entry>, truth: seq<bool>, k: nat)
  {
    && k < |rows| && |truth| == |rows|
    && forall j | 0 <= j < k && rows[j].kind.Run? && rows[j].target.Some? && rows[j].target.value != "" :: !truth[j]
  }

  /** Some consistent run gets as far as row `k` and finds it so. */
  ghost predicate Finds(verdict: Evaluator, rows: seq<Entry>, k: nat, value: bool)
  {
    exists truth :: Consistent(verdict, rows, truth) && Reaches(rows, truth, k) && truth[k] == value
  }

  lemma FindsIff(verdict: Evaluator, rows: seq<Entry>, k: nat, value: bool)
    requires Sane(verdict) && k < |rows|
    ensures Finds(verdict, rows, k, value) <==>
            (forall j | 0 <= j < k :: !AlwaysRuns(verdict, rows[j]))
            && if value then verdict(rows[k]).canBeTrue else verdict(rows[k]).canBeFalse
  {
    if Finds(verdict, rows, k, value) {
      var truth :| Consistent(verdict, rows, truth) && Reaches(rows, truth, k) && truth[k] == value;
    }
    if (forall j | 0 <= j < k :: !AlwaysRuns(verdict, rows[j]))
       && if value then verdict(rows[k]).canBeTrue else verdict(rows[k]).canBeFalse {
      var truth := seq(|rows|, j requires 0 <= j < |rows| =>
        if j == k then value else if j < k && IsRun(rows[j]) then false else verdict(rows[j]).canBeTrue);
      forall j | 0 <= j < |rows|
        ensures if truth[j] then verdict(rows[j]).canBeTrue else verdict(rows[j]).canBeFalse
      {
        if j < k {
          assert !AlwaysRuns(verdict, rows[j]);
        }
      }
      assert Consistent(verdict, rows, truth) && Reaches(rows, truth, k) && truth[k] == value;
    }
  }

  /**
   What each status says of the runs: a row is shadowed when no run gets to it, guaranteed when every run that
   gets to it finds it true, dead when every one finds it false, and possible when there are runs of both kinds.
   */
  lemma StatusMeans(verdict: Evaluator, rows: seq<Entry>, k: nat)
    requires Sane(verdict) && k < |rows|
    ensures match StatusAt(verdict, rows, k)
            case Shadowed => !Finds(verdict, rows, k, true) && !Finds(verdict, rows, k, false)
            case Guaranteed => Finds(verdict, rows, k, true) && !Finds(verdict, rows, k, false)
            case Dead => !Finds(verdict, rows, k, true) && Finds(verdict, rows, k, false)
            case Possible => Finds(verdict, rows, k, true) && Finds(verdict, rows, k, false)
  {
    hide Finds, AlwaysRuns;
    FindsIff(verdict, rows, k, true);
    FindsIff(verdict, rows, k, false);
    StopsAlways(verdict, rows, k);
  }

  lemma StopsAlways(verdict: Evaluator, rows: seq<Entry>, k: nat)
    requires k < |rows|
    ensures ShadowedAt(verdict, rows, k) <==> exists j :: 0 <= j < k && AlwaysRuns(verdict, rows[j])
  {
    if ShadowedAt(verdict, rows, k) {
      var j :| 0 <= j < k && Stops(verdict, rows[j]);
      assert AlwaysRuns(verdict, rows[j]);
    }
    if exists j :: 0 <= j < k && AlwaysRuns(verdict, rows[j]) {
      var j :| 0 <= j < k && AlwaysRuns(verdict, rows[j]);
      assert Stops(verdict, rows[j]);
    }
  }

  // ---------------------------------------------------------------- what the summary reports

  ghost predicate RunsTo(row: Entry, target: string)
  {
    row.kind.Run? && row.target == Some(target) && target != ""
  }

  /**
   The notes are of the rows at the places, in order: all the run rows of that status among the first `count`,
   with their reasons or without.
   */
  ghost predicate NotesAt(
      verdict: Evaluator, rows: seq<Entry>, count: nat, status: Status, places: seq<nat>, notes: seq<Note>)
    requires count <= |rows|
  {
    && |places| == |notes|
    && (forall i, j | 0 <= i < j < |places| :: places[i] < places[j])
    && (forall i | 0 <= i < |places| ::
          && places[i] < count && RunsTo(rows[places[i]], notes[i].target)
          && notes[i].lineNo == rows[places[i]].lineNo
          && notes[i].reason == if status.Shadowed? then "" else verdict(rows[places[i]]).reason)
    && forall k: nat | k < count :: k in places <==> ReportedAt(verdict, rows, status, k)
  }

  ghost predicate ReportedAt(verdict: Evaluator, rows: seq<Entry>, status: Status, k: nat)
  {
    k < |rows| && (exists target :: RunsTo(rows[k], target)) && StatusAt(verdict, rows, k) == status
  }

  lemma RunIs(row: Entry)
    ensures IsRun(row) <==> exists target :: RunsTo(row, target)
    ensures IsRun(row) ==> RunsTo(row, row.target.value)
  {
    if IsRun(row) {
      assert RunsTo(row, row.target.value);
    }
  }

  lemma OneMoreNote(
      verdict: Evaluator, rows: seq<Entry>, count: nat, status: Status, places: seq<nat>, notes: seq<Note>)
    requires count < |rows| && NotesAt(verdict, rows, count, status, places, notes)
    requires IsRun(rows[count]) && StatusAt(verdict, rows, count) == status
    ensures NotesAt(
              verdict, rows, count + 1, status, places + [count], notes + [NoteOf(verdict, rows[count], status)])
  {
    hide StatusAt;
    RunIs(rows[count]);
    var longer := places + [count];
    forall k: nat | k < count + 1 ensures k in longer <==> ReportedAt(verdict, rows, status, k) {
      assert k in longer <==> k in places || k == count;
    }
  }

  lemma NoMoreNote(
      verdict: Evaluator, rows: seq<Entry>, count: nat, status: Status, places: seq<nat>, notes: seq<Note>)
    requires count < |rows| && NotesAt(verdict, rows, count, status, places, notes)
    requires !(IsRun(rows[count]) && StatusAt(verdict, rows, count) == status)
    ensures NotesAt(verdict, rows, count + 1, status, places, notes)
  {
    hide StatusAt, RunsTo;
    RunIs(rows[count]);
    assert count !in places;
  }

  lemma {:induction false} NotesAre(verdict: Evaluator, rows: seq<Entry>, count: nat, status: Status)
    returns (places: seq<nat>)
    requires count <= |rows|
    ensures NotesAt(verdict, rows, count, status, places, NotesWith(verdict, rows, count, status))
  {
    hide StatusAt, NotesWith, NotesAt;
    if count == 0 {
      places := [];
      NoNotes(verdict, rows, status);
    } else {
      var last := count - 1;
      places := NotesAre(verdict, rows, last, status);
      NotesStep(verdict, rows, last, status);
      var notes := NotesWith(verdict, rows, last, status);
      if IsRun(rows[last]) && StatusAt(verdict, rows, last) == status {
        OneMoreNote(verdict, rows, last, status, places, notes);
        places := places + [last];
      } else {
        NoMoreNote(verdict, rows, last, status, places, notes);
      }
    }
  }

  lemma NoNotes(verdict: Evaluator, rows: seq<Entry>, status: Status)
    ensures NotesAt(verdict, rows, 0, status, [], NotesWith(verdict, rows, 0, status))
  {
  }

  /** Of the rows that run the target, `k` is the last. */
  ghost predicate LastRunTo(rows: seq<Entry>, target: string, k: nat)
  {
    k < |rows| && RunsTo(rows[k], target) && forall j | k < j < |rows| :: !RunsTo(rows[j], target)
  }

  /** What the summary of a list with these rows shows. */
  ghost predicate SummaryShows(verdict: Evaluator, rows: seq<Entry>, summary: Summary)
  {
    && (match summary.dispatch
        case None => forall k | 0 <= k < |rows| :: !AlwaysRuns(verdict, rows[k])
        case Some(note) => exists k: nat :: FirstRun(verdict, rows, k) && RunsTo(rows[k], note.target)
                             && note.lineNo == rows[k].lineNo && note.reason == verdict(rows[k]).reason)
    && (exists places :: NotesAt(verdict, rows, |rows|, Dead, places, summary.dead))
    && (exists places :: NotesAt(verdict, rows, |rows|, Possible, places, summary.unresolved))
    && (exists places :: NotesAt(verdict, rows, |rows|, Shadowed, places, summary.shadowed))
    && forall target :: DecisionShows(verdict, rows, target, summary.decisions)
  }

  /** The list has a decision when some row runs it: that of the last such row, with its own status and reason. */
  ghost predicate DecisionShows(
      verdict: Evaluator, rows: seq<Entry>, target: string, decisions: map<string, Decision>)
  {
    && (target in decisions <==> exists k: nat :: LastRunTo(rows, target, k))
    && forall k: nat | LastRunTo(rows, target, k) ::
         && target in decisions && decisions[target].target == target
         && decisions[target].lineNo == rows[k].lineNo && decisions[target].status == StatusAt(verdict, rows, k)
         && decisions[target].reason ==
            if decisions[target].status.Shadowed? then "shadowed by earlier guaranteed dispatch"
            else verdict(rows[k]).reason
  }

  lemma LastToIs(rows: seq<Entry>, target: string, k: nat)
    ensures LastRunTo(rows, target, k) <==> k < |rows| && target != "" && LastTo(rows, |rows|, target, k)
  {
  }

  lemma {:induction false} LastExists(rows: seq<Entry>, target: string, k: nat) returns (last: nat)
    requires k < |rows| && RunsTo(rows[k], target)
    ensures LastRunTo(rows, target, last)
    decreases |rows| - k
  {
    if j: nat :| k < j < |rows| && RunsTo(rows[j], target) {
      last := LastExists(rows, target, j);
    } else {
      last := k;
    }
  }

  lemma DecisionsShow(verdict: Evaluator, rows: seq<Entry>, decisions: map<string, Decision>, target: string)
    requires DecisionsHold(verdict, rows, |rows|, decisions)
    ensures DecisionShows(verdict, rows, target, decisions)
  {
    hide StatusAt;
    if target in decisions {
      assert Leads(rows, |rows|, target);
      var k: nat :| k < |rows| && IsRun(rows[k]) && rows[k].target.value == target;
      assert RunsTo(rows[k], target);
      var last := LastExists(rows, target, k);
    }
    forall k: nat | LastRunTo(rows, target, k)
      ensures target in decisions && decisions[target] == DecisionOf(verdict, rows[k], StatusAt(verdict, rows, k))
    {
      LastToIs(rows, target, k);
    }
  }

  /** What `SummarizeBranches` promises of a summary, over the rows and verdicts themselves. */
  lemma SummaryIs(verdict: Evaluator, rows: seq<Entry>, summary: Summary)
    requires IsDispatch(verdict, rows, summary.dispatch) && DecisionsHold(verdict, rows, |rows|, summary.decisions)
    requires summary.dead == NotesWith(verdict, rows, |rows|, Dead)
    requires summary.unresolved == NotesWith(verdict, rows, |rows|, Possible)
    requires summary.shadowed == NotesWith(verdict, rows, |rows|, Shadowed)
    ensures SummaryShows(verdict, rows, summary)
  {
    hide DecisionsHold, DecisionShows, NotesWith, NotesAt, StatusAt, IsDispatch;
    NotesShow(verdict, rows, Dead);
    NotesShow(verdict, rows, Possible);
    NotesShow(verdict, rows, Shadowed);
    DispatchShows(verdict, rows, summary.dispatch);
    forall target ensures DecisionShows(verdict, rows, target, summary.decisions) {
      DecisionsShow(verdict, rows, summary.decisions, target);
    }
  }

  lemma NotesShow(verdict: Evaluator, rows: seq<Entry>, status: Status)
    ensures exists places :: NotesAt(verdict, rows, |rows|, status, places, NotesWith(verdict, rows, |rows|, status))
  {
    hide NotesAt;
    var places := NotesAre(verdict, rows, |rows|, status);
  }

  lemma DispatchShows(verdict: Evaluator, rows: seq<Entry>, dispatch: Option<Note>)
    requires IsDispatch(verdict, rows, dispatch)
    ensures match dispatch
            case None => forall k | 0 <= k < |rows| :: !AlwaysRuns(verdict, rows[k])
            case Some(note) => exists k: nat :: FirstRun(verdict, rows, k) && RunsTo(rows[k], note.target)
                                 && note.lineNo == rows[k].lineNo && note.reason == verdict(rows[k]).reason
  {
    if dispatch.None? {
      forall k | 0 <= k < |rows| ensures !AlwaysRuns(verdict, rows[k]) {
        assert !Stops(verdict, rows[k]);
      }
    } else {
      var k: nat :| k < |rows| && Stops(verdict, rows[k]) && !ShadowedAt(verdict, rows, k)
                    && dispatch.value == NoteOf(verdict, rows[k], Guaranteed);
      StopsAlways(verdict, rows, k);
      assert FirstRun(verdict, rows, k) && RunsTo(rows[k], dispatch.value.target);
    }
  }

  // ---------------------------------------------------------------- what the trace puts down

  /** A row's own lines: its status, and the reason unless there is nothing to say. */
  ghost predicate OwnLines(verdict: Evaluator, row: Entry, depth: int, lines: seq<TraceLine>)
  {
    var known := verdict(row);
    && |lines| >= 1 && lines[0].depth == depth + 1 && lines[0].text.RowText? && lines[0].text.row == row
    && (lines[0].text.status.Guaranteed? <==> known.canBeTrue && !known.canBeFalse)
    && (lines[0].text.status.Dead? <==> !known.canBeTrue && known.canBeFalse)
    && !lines[0].text.status.Shadowed?
    && lines[1..] == if known.reason in {"no condition", "depends on runtime-only state"} then []
                     else [TraceLine(depth + 2, BecauseText(known.reason))]
  }

  /** The row calls or runs a list, and its condition can be true. */
  ghost predicate LeadsOn(verdict: Evaluator, row: Entry)
  {
    (row.kind.Call? || row.kind.Run?) && row.target.Some? && row.target.value != "" && verdict(row).canBeTrue
  }

  /**
   What one row puts down: a shadow mark after a row that always runs a list; else its own lines and, when it
   leads to a list, that list's trace, set between two more lines when the row may run it or fall through.
   */
  ghost predicate Puts(
      lists: Lists, verdict: Evaluator, rows: seq<Entry>, k: nat, depth: int, maxDepth: int, visited: seq<string>,
      lines: seq<TraceLine>)
    requires k < |rows|
  {
    var row := rows[k];
    if exists j :: 0 <= j < k && AlwaysRuns(verdict, rows[j]) then lines == [TraceLine(depth + 1, ShadowText(row.lineNo))]
    else
      exists own ::
        && OwnLines(verdict, row, depth, own)
        && lines == own
           + (if !LeadsOn(verdict, row) then []
              else if row.kind.Run? && verdict(row).canBeFalse then
                [TraceLine(depth + 2, PathText(row.target.value))]
                + TraceLines(lists, verdict, row.target.value, depth + 3, maxDepth, visited)
                + [TraceLine(depth + 2, FallthroughText)]
              else TraceLines(lists, verdict, row.target.value, depth + 2, maxDepth, visited))
  }

  /** The lines a trace of a list puts down. */
  function TraceLines(
      lists: Lists, verdict: Evaluator, name: string, depth: int, maxDepth: int, visited: seq<string>): seq<TraceLine>
  {
    Lines(TraceOf(lists, verdict, name, depth, maxDepth, visited), verdict, depth)
  }

  ghost function Itself(block: seq<TraceLine>): seq<TraceLine>
  {
    block
  }

  /** The lines of an expanded list are its header and then what each of its rows puts down, in order. */
  ghost predicate Blocks(
      lists: Lists, verdict: Evaluator, rows: seq<Entry>, depth: int, maxDepth: int, visited: seq<string>,
      blocks: seq<seq<TraceLine>>)
  {
    |blocks| == |rows| && forall k | 0 <= k < |rows| :: Puts(lists, verdict, rows, k, depth, maxDepth, visited, blocks[k])
  }

  lemma OwnLinesAre(verdict: Evaluator, row: Entry, depth: int)
    ensures var because := Because(verdict(row));
            OwnLines(verdict, row, depth,
                     [TraceLine(depth + 1, RowText(row, StatusOf(verdict(row))))]
                     + if because.Some? then [TraceLine(depth + 2, BecauseText(because.value))] else [])
  {
  }

  lemma RowPuts(
      lists: Lists, verdict: Evaluator, rows: seq<Entry>, k: nat, depth: int, maxDepth: int, visited: seq<string>)
    requires Sane(verdict) && k < |rows| && depth <= maxDepth
    ensures Puts(lists, verdict, rows, k, depth, maxDepth, visited,
                 RowLines(RowTraceOf(lists, verdict, rows, k, depth, maxDepth, visited), verdict, depth))
  {
    hide TraceOf, Lines, OwnLines, Because, StatusOf;
    var row := rows[k];
    StopsAlways(verdict, rows, k);
    assert StoppedBefore(verdict, rows, k) <==> ShadowedAt(verdict, rows, k);
    if !StoppedBefore(verdict, rows, k) {
      OwnLinesAre(verdict, row, depth);
    }
  }

  lemma {:induction false} RowsPut(
      lists: Lists, verdict: Evaluator, rows: seq<Entry>, count: nat, depth: int, maxDepth: int, visited: seq<string>)
    returns (blocks: seq<seq<TraceLine>>)
    requires Sane(verdict) && count <= |rows| && depth <= maxDepth
    ensures |blocks| == count
    ensures RowsLines(RowTraces(lists, verdict, rows, count, depth, maxDepth, visited), verdict, depth) ==
            Flatten(blocks, Itself)
    ensures forall k | 0 <= k < count :: Puts(lists, verdict, rows, k, depth, maxDepth, visited, blocks[k])
    decreases count
  {
    hide RowLines, RowTraceOf, Puts;
    if count == 0 {
      blocks := [];
    } else {
      var last := count - 1;
      var before := RowsPut(lists, verdict, rows, last, depth, maxDepth, visited);
      var block := RowLines(RowTraceOf(lists, verdict, rows, last, depth, maxDepth, visited), verdict, depth);
      RowPuts(lists, verdict, rows, last, depth, maxDepth, visited);
      RowsLinesSnoc(
        RowTraces(lists, verdict, rows, last, depth, maxDepth, visited),
        RowTraceOf(lists, verdict, rows, last, depth, maxDepth, visited), verdict, depth);
      FlattenSnoc(before, block, Itself);
      blocks := before + [block];
    }
  }

  /** What the trace of any list puts down, whatever the lists call. */
  lemma TraceShows(
      lists: Lists, verdict: Evaluator, name: string, depth: int, maxDepth: int, visited: seq<string>)
    requires Sane(verdict)
    ensures var lines := TraceLines(lists, verdict, name, depth, maxDepth, visited);
            var rows := if name in lists then lists[name] else [];
            if depth > maxDepth then lines == [TraceLine(depth, MaxDepthText(name))]
            else if name in visited then lines == [TraceLine(depth, RecursionText(name))]
            else exists blocks ::
                   && Blocks(lists, verdict, rows, depth, maxDepth, visited + [name], blocks)
                   && lines == [TraceLine(depth, HeaderText(name))] + Flatten(blocks, Itself)
  {
    hide RowsLines, RowTraces, Puts;
    if depth <= maxDepth && name !in visited {
      var rows := Rows(lists, name);
      var blocks := RowsPut(lists, verdict, rows, |rows|, depth, maxDepth, visited + [name]);
      assert Blocks(lists, verdict, rows, depth, maxDepth, visited + [name], blocks);
    }
  }
}
