/**
 The recursive trace of an action list and the walk to the list a build settles in. Lists may call each
 other in cycles; both stop, and what they show is exactly what some consistent run can enter.
 */
module AplTrace {
  import opened Wrappers
  import opened Sequences
  import opened AplEntries
  import opened AplBranches

  // ---------------------------------------------------------------- the trace as a tree

  /**
   What one row contributes: nothing but a shadow mark, or its status and reason, and under it the trace
   of the list it leads to when a run can enter it.
   */
  datatype RowTrace =
    | Shadow(row: Entry)
    | Open(row: Entry, status: Status, because: Option<string>, child: Option<Trace>)

  datatype Trace =
    | MaxDepth(name: string)
    | Recursion(name: string)
    | Expanded(name: string, rows: seq<RowTrace>)

  const NO_CONDITION := "no condition"
  const RUNTIME_ONLY := "depends on runtime-only state"

  function Because(verdict: Verdict): Option<string>
  {
    if verdict.reason == NO_CONDITION || verdict.reason == RUNTIME_ONLY then None else Some(verdict.reason)
  }

  /** A run can enter the row's list: it calls or runs one, and its condition can be true. */
  predicate Opens(verdict: Evaluator, row: Entry)
  {
    !row.kind.Plain? && HasTarget(row) && verdict(row).canBeTrue
  }

  /** How much deeper the row's list is shown: one more when a run row may also fall through. */
  function Step(verdict: Evaluator, row: Entry): nat
  {
    if row.kind.Run? && !verdict(row).GuaranteedTrue() then 3 else 2
  }

  function Room(depth: int, maxDepth: int): nat
  {
    if depth > maxDepth then 0 else maxDepth - depth + 1
  }

  function TraceOf(
      lists: Lists, verdict: Evaluator, name: string, depth: int, maxDepth: int, visited: seq<string>): (trace: Trace)
    ensures trace.name == name
    decreases Room(depth, maxDepth), 0, 0
  {
    if depth > maxDepth then MaxDepth(name)
    else if name in visited then Recursion(name)
    else Expanded(name, RowTraces(lists, verdict, Rows(lists, name), |Rows(lists, name)|, depth, maxDepth, visited + [name]))
  }

  /** The first `count` rows of an expanded list. */
  function RowTraces(
      lists: Lists, verdict: Evaluator, rows: seq<Entry>, count: nat, depth: int, maxDepth: int, visited: seq<string>)
    : (traces: seq<RowTrace>)
    requires count <= |rows| && depth <= maxDepth
    ensures |traces| == count
    decreases Room(depth, maxDepth) - 1, 1, count
  {
    if count == 0 then []
    else
      RowTraces(lists, verdict, rows, count - 1, depth, maxDepth, visited)
      + [RowTraceOf(lists, verdict, rows, count - 1, depth, maxDepth, visited)]
  }

  predicate StoppedBefore(verdict: Evaluator, rows: seq<Entry>, k: nat)
    requires k <= |rows|
  {
    exists j :: 0 <= j < k && Stops(verdict, rows[j])
  }

  function RowTraceOf(
      lists: Lists, verdict: Evaluator, rows: seq<Entry>, k: nat, depth: int, maxDepth: int, visited: seq<string>)
    : RowTrace
    requires k < |rows| && depth <= maxDepth
    decreases Room(depth, maxDepth) - 1, 1, k
  {
    var row := rows[k];
    if StoppedBefore(verdict, rows, k) then Shadow(row)
    else
      Open(row, StatusOf(verdict(row)), Because(verdict(row)),
           if Opens(verdict, row)
           then Some(TraceOf(lists, verdict, row.target.value, depth + Step(verdict, row), maxDepth, visited))
           else None)
  }

  // ---------------------------------------------------------------- the trace as lines

  /** A line's text, with its wording left open. */
  datatype Text =
    | MaxDepthText(name: string) | RecursionText(name: string) | HeaderText(name: string)
    | ShadowText(lineNo: nat) | RowText(row: Entry, status: Status) | BecauseText(reason: string)
    | PathText(target: string) | FallthroughText

  datatype TraceLine = TraceLine(depth: int, text: Text)

  function Lines(trace: Trace, verdict: Evaluator, depth: int): seq<TraceLine>
    decreases trace, 0
  {
    match trace
    case MaxDepth(name) => [TraceLine(depth, MaxDepthText(name))]
    case Recursion(name) => [TraceLine(depth, RecursionText(name))]
    case Expanded(name, rows) => [TraceLine(depth, HeaderText(name))] + RowsLines(rows, verdict, depth)
  }

  function RowsLines(rows: seq<RowTrace>, verdict: Evaluator, depth: int): seq<TraceLine>
    decreases rows, 0
  {
    if rows == [] then []
    else RowLines(rows[0], verdict, depth) + RowsLines(rows[1..], verdict, depth)
  }

  function RowLines(row: RowTrace, verdict: Evaluator, depth: int): seq<TraceLine>
    decreases row, 0
  {
    match row
    case Shadow(entry) => [TraceLine(depth + 1, ShadowText(entry.lineNo))]
    case Open(entry, status, because, child) =>
      [TraceLine(depth + 1, RowText(entry, status))]
      + (if because.Some? then [TraceLine(depth + 2, BecauseText(because.value))] else [])
      + (match child case None => [] case Some(trace) => ChildLines(entry, trace, verdict, depth))
  }

  function ChildLines(entry: Entry, trace: Trace, verdict: Evaluator, depth: int): seq<TraceLine>
    decreases trace, 1
  {
    if Step(verdict, entry) == 3 then
      [TraceLine(depth + 2, PathText(trace.name))] + Lines(trace, verdict, depth + 3)
      + [TraceLine(depth + 2, FallthroughText)]
    else Lines(trace, verdict, depth + 2)
  }

  lemma {:induction false} RowsLinesSnoc(rows: seq<RowTrace>, last: RowTrace, verdict: Evaluator, depth: int)
    ensures RowsLines(rows + [last], verdict, depth) == RowsLines(rows, verdict, depth) + RowLines(last, verdict, depth)
  {
    hide RowLines;
    if rows == [] {
      assert rows + [last] == [last];
      assert [last][1..] == [];
      assert [] + RowLines(last, verdict, depth) == RowLines(last, verdict, depth) + [];
    } else {
      RowsLinesSnoc(rows[1..], last, verdict, depth);
      assert (rows + [last])[1..] == rows[1..] + [last];
      ConcatAssociates(RowLines(rows[0], verdict, depth), RowsLines(rows[1..], verdict, depth), RowLines(last, verdict, depth));
    }
  }

  /** The list of lines every call appends to. */
  class TraceLog {
    var lines: seq<TraceLine>

    constructor ()
      ensures lines == []
    {
      lines := [];
    }

    method Append(depth: int, text: Text)
      modifies this
      ensures lines == old(lines) + [TraceLine(depth, text)]
    {
      lines := lines + [TraceLine(depth, text)];
    }
  }

  /** Any list graph, cyclic or not: the calls end, and what they append is the tree's lines. */
  method TraceList(
      lists: Lists, name: string, verdict: Evaluator, log: TraceLog, depth: int, maxDepth: int, visited: seq<string>)
    modifies log
    ensures log.lines == old(log.lines) + Lines(TraceOf(lists, verdict, name, depth, maxDepth, visited), verdict, depth)
    decreases Room(depth, maxDepth), 0
  {
    if depth > maxDepth {
      log.Append(depth, MaxDepthText(name));
      return;
    }
    if name in visited {
      log.Append(depth, RecursionText(name));
      return;
    }
    log.Append(depth, HeaderText(name));
    TraceRows(lists, Rows(lists, name), verdict, log, depth, maxDepth, visited + [name]);
  }

  method TraceRows(
      lists: Lists, rows: seq<Entry>, verdict: Evaluator, log: TraceLog, depth: int, maxDepth: int, visited: seq<string>)
    requires depth <= maxDepth
    modifies log
    ensures log.lines ==
            old(log.lines)
            + RowsLines(RowTraces(lists, verdict, rows, |rows|, depth, maxDepth, visited), verdict, depth)
    decreases Room(depth, maxDepth) - 1, 3
  {
    var stopHere := false;
    for k := 0 to |rows|
      invariant stopHere <==> StoppedBefore(verdict, rows, k)
      invariant log.lines ==
        old(log.lines) + RowsLines(RowTraces(lists, verdict, rows, k, depth, maxDepth, visited), verdict, depth)
    {
      hide RowsLines, RowLines, RowTraceOf, Stops;
      RowsLinesSnoc(
        RowTraces(lists, verdict, rows, k, depth, maxDepth, visited),
        RowTraceOf(lists, verdict, rows, k, depth, maxDepth, visited), verdict, depth);
      TraceRow(lists, rows, k, stopHere, verdict, log, depth, maxDepth, visited);
      stopHere := stopHere || Stops(verdict, rows[k]);
    }
  }

  method TraceRow(
      lists: Lists, rows: seq<Entry>, k: nat, stopHere: bool, verdict: Evaluator, log: TraceLog, depth: int,
      maxDepth: int, visited: seq<string>)
    requires k < |rows| && depth <= maxDepth && stopHere == StoppedBefore(verdict, rows, k)
    modifies log
    ensures log.lines ==
            old(log.lines)
            + RowLines(RowTraceOf(lists, verdict, rows, k, depth, maxDepth, visited), verdict, depth)
    decreases Room(depth, maxDepth) - 1, 2
  {
    hide ChildLines, RowsLines, TraceOf;
    var row := rows[k];
    if stopHere {
      log.Append(depth + 1, ShadowText(row.lineNo));
      return;
    }
    var outcome := verdict(row);
    log.Append(depth + 1, RowText(row, StatusOf(outcome)));
    if Because(outcome).Some? {
      log.Append(depth + 2, BecauseText(outcome.reason));
    }
    if Opens(verdict, row) {
      TraceChild(lists, row, verdict, log, depth, maxDepth, visited);
    }
  }

  /** The list a row leads to: called, always run, or run when its condition happens to hold. */
  method TraceChild(
      lists: Lists, row: Entry, verdict: Evaluator, log: TraceLog, depth: int, maxDepth: int, visited: seq<string>)
    requires depth <= maxDepth && Opens(verdict, row)
    modifies log
    ensures log.lines ==
            old(log.lines)
            + ChildLines(row, TraceOf(lists, verdict, row.target.value, depth + Step(verdict, row), maxDepth, visited), verdict, depth)
    decreases Room(depth, maxDepth) - 1, 1
  {
    hide Lines, TraceOf;
    if row.kind.Call? || verdict(row).GuaranteedTrue() {
      TraceList(lists, row.target.value, verdict, log, depth + 2, maxDepth, visited);
    } else {
      log.Append(depth + 2, PathText(row.target.value));
      TraceList(lists, row.target.value, verdict, log, depth + 3, maxDepth, visited);
      log.Append(depth + 2, FallthroughText);
    }
  }

  // ---------------------------------------------------------------- what the trace shows

  ghost predicate Within(lines: seq<TraceLine>, low: int, high: int)
  {
    forall k | 0 <= k < |lines| :: low <= lines[k].depth <= high
  }

  function Max(a: int, b: int): int
  {
    if a < b then b else a
  }

  /** No line is shallower than its list or deeper than three below the limit. */
  lemma {:induction false} DepthBounded(
      lists: Lists, verdict: Evaluator, name: string, depth: int, maxDepth: int, visited: seq<string>)
    ensures Within(Lines(TraceOf(lists, verdict, name, depth, maxDepth, visited), verdict, depth),
                   depth, Max(depth, maxDepth + 3))
    decreases Room(depth, maxDepth), 0, 0
  {
    if depth <= maxDepth && name !in visited {
      var rows := Rows(lists, name);
      RowsDepthBounded(lists, verdict, rows, |rows|, depth, maxDepth, visited + [name]);
    }
  }

  lemma {:induction false} RowsDepthBounded(
      lists: Lists, verdict: Evaluator, rows: seq<Entry>, count: nat, depth: int, maxDepth: int, visited: seq<string>)
    requires count <= |rows| && depth <= maxDepth
    ensures Within(RowsLines(RowTraces(lists, verdict, rows, count, depth, maxDepth, visited), verdict, depth),
                   depth, maxDepth + 3)
    decreases Room(depth, maxDepth) - 1, 1, count
  {
    if count > 0 {
      hide RowLines, RowTraceOf, RowsLines;
      RowsDepthBounded(lists, verdict, rows, count - 1, depth, maxDepth, visited);
      RowDepthBounded(lists, verdict, rows, count - 1, depth, maxDepth, visited);
      RowsLinesSnoc(
        RowTraces(lists, verdict, rows, count - 1, depth, maxDepth, visited),
        RowTraceOf(lists, verdict, rows, count - 1, depth, maxDepth, visited), verdict, depth);
    }
  }

  lemma {:induction false} RowDepthBounded(
      lists: Lists, verdict: Evaluator, rows: seq<Entry>, k: nat, depth: int, maxDepth: int, visited: seq<string>)
    requires k < |rows| && depth <= maxDepth
    ensures Within(RowLines(RowTraceOf(lists, verdict, rows, k, depth, maxDepth, visited), verdict, depth),
                   depth, maxDepth + 3)
    decreases Room(depth, maxDepth) - 1, 1, k
  {
    hide Lines, TraceOf, StoppedBefore;
    var row := rows[k];
    if !StoppedBefore(verdict, rows, k) && Opens(verdict, row) {
      DepthBounded(lists, verdict, row.target.value, depth + Step(verdict, row), maxDepth, visited);
    }
  }

  /** On every path down the tree the expanded lists differ, and none was visited before. */
  ghost predicate NoRepeats(trace: Trace, visited: seq<string>)
    decreases trace
  {
    trace.Expanded? ==>
      && trace.name !in visited
      && forall k | 0 <= k < |trace.rows| && trace.rows[k].Open? && trace.rows[k].child.Some? ::
           NoRepeats(trace.rows[k].child.value, visited + [trace.name])
  }

  lemma {:induction false} RowTraceAt(
      lists: Lists, verdict: Evaluator, rows: seq<Entry>, count: nat, depth: int, maxDepth: int, visited: seq<string>, k: nat)
    requires k < count <= |rows| && depth <= maxDepth
    ensures RowTraces(lists, verdict, rows, count, depth, maxDepth, visited)[k]
            == RowTraceOf(lists, verdict, rows, k, depth, maxDepth, visited)
    decreases count
  {
    hide RowTraceOf;
    if k < count - 1 {
      RowTraceAt(lists, verdict, rows, count - 1, depth, maxDepth, visited, k);
    }
  }

  /** No list is expanded twice on one path. */
  lemma {:induction false} NoListTwice(
      lists: Lists, verdict: Evaluator, name: string, depth: int, maxDepth: int, visited: seq<string>)
    ensures NoRepeats(TraceOf(lists, verdict, name, depth, maxDepth, visited), visited)
    decreases Room(depth, maxDepth)
  {
    if depth <= maxDepth && name !in visited {
      var rows := Rows(lists, name);
      var trace := TraceOf(lists, verdict, name, depth, maxDepth, visited);
      forall k | 0 <= k < |trace.rows| && trace.rows[k].Open? && trace.rows[k].child.Some?
        ensures NoRepeats(trace.rows[k].child.value, visited + [name])
      {
        RowTraceAt(lists, verdict, rows, |rows|, depth, maxDepth, visited + [name], k);
        NoListTwice(lists, verdict, rows[k].target.value, depth + Step(verdict, rows[k]), maxDepth, visited + [name]);
      }
    }
  }

  /** In an expanded list the rows marked shadowed are exactly those after its first row that always fires. */
  lemma ShadowsMatch(
      lists: Lists, verdict: Evaluator, name: string, depth: int, maxDepth: int, visited: seq<string>, k: nat)
    requires depth <= maxDepth && name !in visited && k < |Rows(lists, name)|
    ensures var rows := Rows(lists, name);
            var trace := TraceOf(lists, verdict, name, depth, maxDepth, visited);
            && trace.Expanded? && |trace.rows| == |rows|
            && trace.rows[k].row == rows[k]
            && (trace.rows[k].Shadow? <==> ShadowedAt(verdict, rows, k))
  {
    var rows := Rows(lists, name);
    RowTraceAt(lists, verdict, rows, |rows|, depth, maxDepth, visited + [name], k);
  }

  /** The shadowed run rows of an expanded list, as the summary would report them. */
  function ShadowNotes(verdict: Evaluator, rows: seq<RowTrace>): seq<Note>
  {
    if rows == [] then []
    else
      var last := rows[|rows| - 1];
      ShadowNotes(verdict, rows[..|rows| - 1])
      + if last.Shadow? && IsRun(last.row) then [NoteOf(verdict, last.row, Shadowed)] else []
  }

  lemma {:induction false} ShadowNotesUpTo(
      lists: Lists, verdict: Evaluator, rows: seq<Entry>, count: nat, depth: int, maxDepth: int, visited: seq<string>)
    requires count <= |rows| && depth <= maxDepth
    ensures ShadowNotes(verdict, RowTraces(lists, verdict, rows, count, depth, maxDepth, visited))
            == NotesWith(verdict, rows, count, Shadowed)
    decreases count
  {
    if count > 0 {
      ShadowNotesUpTo(lists, verdict, rows, count - 1, depth, maxDepth, visited);
      var before := RowTraces(lists, verdict, rows, count - 1, depth, maxDepth, visited);
      var all := RowTraces(lists, verdict, rows, count, depth, maxDepth, visited);
      assert all[..count - 1] == before;
      assert all[count - 1] == RowTraceOf(lists, verdict, rows, count - 1, depth, maxDepth, visited);
    }
  }

  /** The trace and the summary agree on what is shadowed. */
  lemma ShadowsAgreeWithSummary(
      lists: Lists, verdict: Evaluator, name: string, depth: int, maxDepth: int, visited: seq<string>)
    requires depth <= maxDepth && name !in visited
    ensures var rows := Rows(lists, name);
            var trace := TraceOf(lists, verdict, name, depth, maxDepth, visited);
            trace.Expanded? && ShadowNotes(verdict, trace.rows) == NotesWith(verdict, rows, |rows|, Shadowed)
  {
    ShadowNotesUpTo(lists, verdict, Rows(lists, name), |Rows(lists, name)|, depth, maxDepth, visited + [name]);
  }

  // ---------------------------------------------------------------- the trace is exact

  /** The node a path of row indexes leads to in a trace. */
  function Walk(trace: Trace, path: seq<nat>): Option<Trace>
    decreases |path|
  {
    if path == [] then Some(trace)
    else if trace.Expanded? && path[0] < |trace.rows| && trace.rows[path[0]].Open? && trace.rows[path[0]].child.Some?
    then Walk(trace.rows[path[0]].child.value, path[1..])
    else None
  }

  /** Some consistent run of the list enters the row, and the row leads to a list. */
  ghost predicate Enterable(verdict: Evaluator, rows: seq<Entry>, k: nat)
  {
    && k < |rows| && !rows[k].kind.Plain? && HasTarget(rows[k])
    && exists truth :: Consistent(verdict, rows, truth) && Enters(rows, truth, k)
  }

  /** Runs can follow the path from list to list, meeting no list twice, without passing the depth limit. */
  ghost predicate Followable(
      lists: Lists, verdict: Evaluator, name: string, path: seq<nat>, depth: int, maxDepth: int, visited: seq<string>)
    decreases |path|
  {
    && depth <= maxDepth && name !in visited
    && (path != [] ==>
          var rows := Rows(lists, name);
          && Enterable(verdict, rows, path[0])
          && Followable(lists, verdict, rows[path[0]].target.value, path[1..],
                        depth + Step(verdict, rows[path[0]]), maxDepth, visited + [name]))
  }

  lemma ChildIffEnterable(
      lists: Lists, verdict: Evaluator, name: string, depth: int, maxDepth: int, visited: seq<string>, k: nat)
    requires Sane(verdict) && depth <= maxDepth && name !in visited
    ensures var rows := Rows(lists, name);
            var trace := TraceOf(lists, verdict, name, depth, maxDepth, visited);
            && trace.Expanded? && |trace.rows| == |rows|
            && (Enterable(verdict, rows, k) <==>
                  k < |rows| && trace.rows[k].Open? && trace.rows[k].child.Some?)
            && (Enterable(verdict, rows, k) ==>
                  trace.rows[k].child.value ==
                  TraceOf(lists, verdict, rows[k].target.value, depth + Step(verdict, rows[k]), maxDepth, visited + [name]))
  {
    var rows := Rows(lists, name);
    if k < |rows| {
      RowTraceAt(lists, verdict, rows, |rows|, depth, maxDepth, visited + [name], k);
      EnteredIffLive(verdict, rows, k);
      assert StoppedBefore(verdict, rows, k) == ShadowedAt(verdict, rows, k);
    }
  }

  /**
   The trace is exact: it expands a list at the end of a path exactly when runs can follow the path within
   the depth limit without meeting a list twice.
   */
  lemma {:induction false} TraceIsExact(
      lists: Lists, verdict: Evaluator, name: string, path: seq<nat>, depth: int, maxDepth: int, visited: seq<string>)
    requires Sane(verdict)
    ensures var node := Walk(TraceOf(lists, verdict, name, depth, maxDepth, visited), path);
            Followable(lists, verdict, name, path, depth, maxDepth, visited) <==> node.Some? && node.value.Expanded?
    decreases |path|
  {
    if depth <= maxDepth && name !in visited {
      hide Enterable;
      var rows := Rows(lists, name);
      if path != [] {
        ChildIffEnterable(lists, verdict, name, depth, maxDepth, visited, path[0]);
        if path[0] < |rows| && Enterable(verdict, rows, path[0]) {
          TraceIsExact(lists, verdict, rows[path[0]].target.value, path[1..],
                       depth + Step(verdict, rows[path[0]]), maxDepth, visited + [name]);
        }
      }
    }
  }
}
