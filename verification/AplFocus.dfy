/** Following guaranteed dispatches and single calls from a list to the one a build's rotation sits in. */
module AplFocus {
  import opened Wrappers
  import opened AplEntries
  import opened AplBranches

  /** The original's constant tables: lists that only help, and actions beside any rotation. */
  datatype Vocabulary = Vocabulary(helperLists: set<string>, utilityActions: set<string>)

  predicate EndsWith(text: string, suffix: string)
  {
    |text| >= |suffix| && text[|text| - |suffix|..] == suffix
  }

  predicate IsHelper(vocabulary: Vocabulary, row: Entry)
  {
    row.kind.Call? && HasTarget(row)
    && (row.target.value in vocabulary.helperLists || EndsWith(row.target.value, "_variables")
        || EndsWith(row.target.value, "_helper"))
  }

  predicate Live(verdict: Evaluator, row: Entry)
  {
    !verdict(row).GuaranteedFalse()
  }

  /** A live row that leads to another list and is no helper call. */
  predicate LeadsAway(vocabulary: Vocabulary, verdict: Evaluator, row: Entry)
  {
    Live(verdict, row) && HasTarget(row) && !IsHelper(vocabulary, row)
  }

  /** A live action of the list's own rotation. */
  predicate OwnAction(vocabulary: Vocabulary, verdict: Evaluator, row: Entry)
  {
    Live(verdict, row) && !HasTarget(row) && row.action !in vocabulary.utilityActions
  }

  function CountRows(rows: seq<Entry>, p: Entry -> bool): nat
  {
    if rows == [] then 0 else (if p(rows[0]) then 1 else 0) + CountRows(rows[1..], p)
  }

  function LiveRow(verdict: Evaluator): Entry -> bool
  {
    row => Live(verdict, row)
  }

  function Away(vocabulary: Vocabulary, verdict: Evaluator): Entry -> bool
  {
    row => LeadsAway(vocabulary, verdict, row)
  }

  function Own(vocabulary: Vocabulary, verdict: Evaluator): Entry -> bool
  {
    row => OwnAction(vocabulary, verdict, row)
  }

  function FirstWith(rows: seq<Entry>, p: Entry -> bool): (found: Option<Entry>)
    ensures found.Some? ==> found.value in rows && p(found.value)
    ensures found.None? <==> CountRows(rows, p) == 0
  {
    if rows == [] then None else if p(rows[0]) then Some(rows[0]) else FirstWith(rows[1..], p)
  }

  /** The list this one always calls, when that call is its only live way out and holds more live rows than it has. */
  function SingleCallTarget(lists: Lists, verdict: Evaluator, vocabulary: Vocabulary, name: string): Option<string>
  {
    var rows := Rows(lists, name);
    var only := FirstWith(rows, Away(vocabulary, verdict));
    if CountRows(rows, Away(vocabulary, verdict)) != 1 || only.None? then None
    else
      var target := only.value.target;
      if target.None? || !only.value.kind.Call? || !verdict(only.value).GuaranteedTrue() then None
      else if CountRows(rows, Own(vocabulary, verdict)) < CountRows(Rows(lists, target.value), LiveRow(verdict))
      then target
      else None
  }

  // ---------------------------------------------------------------- sole calls, over the rows themselves

  ghost predicate HelperName(vocabulary: Vocabulary, name: string)
  {
    name in vocabulary.helperLists || (exists s: string :: name == s + "_variables")
    || exists s: string :: name == s + "_helper"
  }

  /** The row's condition is not known to be false. */
  ghost predicate Alive(verdict: Evaluator, row: Entry)
  {
    verdict(row).canBeTrue || !verdict(row).canBeFalse
  }

  /** A live row that names another list, other than a call of a helper list. */
  ghost predicate WayOut(vocabulary: Vocabulary, verdict: Evaluator, row: Entry)
  {
    && Alive(verdict, row) && row.target.Some? && row.target.value != ""
    && !(row.kind.Call? && HelperName(vocabulary, row.target.value))
  }

  /** Row `k` is the only live way out of the list: a call of the target that always happens. */
  ghost predicate SoleCall(
      vocabulary: Vocabulary, verdict: Evaluator, rows: seq<Entry>, k: nat, target: string)
  {
    && k < |rows| && WayOut(vocabulary, verdict, rows[k])
    && rows[k].kind.Call? && rows[k].target == Some(target) && AlwaysTrue(verdict, rows[k])
    && forall j | 0 <= j < |rows| && j != k :: !WayOut(vocabulary, verdict, rows[j])
  }

  /** The places of the live rows of a list. */
  ghost function LivePlaces(verdict: Evaluator, rows: seq<Entry>): set<nat>
  {
    set k: nat | k < |rows| && Alive(verdict, rows[k])
  }

  /** The places of its live rows that lead to no list and are no utility actions. */
  ghost function OwnPlaces(vocabulary: Vocabulary, verdict: Evaluator, rows: seq<Entry>): set<nat>
  {
    set k: nat | k < |rows| && Alive(verdict, rows[k]) && (rows[k].target.None? || rows[k].target.value == "")
                 && rows[k].action !in vocabulary.utilityActions
  }

  /** The list solely calls the target, which has more live rows than the list has actions of its own. */
  ghost predicate CallsInto(
      lists: Lists, verdict: Evaluator, vocabulary: Vocabulary, name: string, target: string)
  {
    && name in lists && target in lists
    && (exists k: nat :: SoleCall(vocabulary, verdict, lists[name], k, target))
    && |OwnPlaces(vocabulary, verdict, lists[name])| < |LivePlaces(verdict, lists[target])|
  }

  lemma EndsWithIff(text: string, suffix: string)
    ensures EndsWith(text, suffix) <==> exists s: string :: text == s + suffix
  {
    if EndsWith(text, suffix) {
      assert text == text[..|text| - |suffix|] + suffix;
    }
  }

  lemma RowMeans(vocabulary: Vocabulary, verdict: Evaluator, row: Entry)
    ensures Live(verdict, row) <==> Alive(verdict, row)
    ensures LeadsAway(vocabulary, verdict, row) <==> WayOut(vocabulary, verdict, row)
  {
    if HasTarget(row) {
      EndsWithIff(row.target.value, "_variables");
      EndsWithIff(row.target.value, "_helper");
    }
  }

  /** The places of the rows with the property. */
  ghost function Places(rows: seq<Entry>, p: Entry -> bool): set<nat>
  {
    set k: nat | k < |rows| && p(rows[k])
  }

  lemma {:induction false} CountIsPlaces(rows: seq<Entry>, p: Entry -> bool)
    ensures CountRows(rows, p) == |Places(rows, p)|
  {
    if rows == [] {
      assert Places(rows, p) == {};
    } else {
      CountIsPlaces(rows[1..], p);
      ShiftPlaces(rows, p);
    }
  }

  ghost function Shifted(places: set<nat>): set<nat>
  {
    set k: nat | k in places :: k + 1
  }

  lemma NoneShifted()
    ensures Shifted({}) == {}
  {
  }

  lemma ShiftMore(places: set<nat>, k: nat)
    ensures Shifted(places + {k}) == Shifted(places) + {k + 1}
    ensures k !in places ==> k + 1 !in Shifted(places)
  {
  }

  lemma {:induction false} ShiftedSize(places: set<nat>)
    ensures |Shifted(places)| == |places|
  {
    hide Shifted;
    NoneShifted();
    if places != {} {
      var k :| k in places;
      var others := places - {k};
      ShiftedSize(others);
      assert places == others + {k};
      ShiftMore(others, k);
    }
  }

  lemma ShiftPlaces(rows: seq<Entry>, p: Entry -> bool)
    requires rows != []
    ensures |Places(rows, p)| == (if p(rows[0]) then 1 else 0) + |Places(rows[1..], p)|
  {
    var later := Shifted(Places(rows[1..], p));
    ShiftedSize(Places(rows[1..], p));
    forall k: nat | k in Places(rows, p) && k > 0 ensures k in later {
      assert rows[1..][k - 1] == rows[k];
      assert k - 1 in Places(rows[1..], p);
    }
    assert Places(rows, p) == (if p(rows[0]) then {0} else {}) + later;
  }

  lemma CountsAre(lists: Lists, verdict: Evaluator, vocabulary: Vocabulary, rows: seq<Entry>)
    ensures CountRows(rows, Own(vocabulary, verdict)) == |OwnPlaces(vocabulary, verdict, rows)|
    ensures CountRows(rows, LiveRow(verdict)) == |LivePlaces(verdict, rows)|
  {
    CountIsPlaces(rows, Own(vocabulary, verdict));
    CountIsPlaces(rows, LiveRow(verdict));
    forall row {
      RowMeans(vocabulary, verdict, row);
    }
    assert Places(rows, Own(vocabulary, verdict)) == OwnPlaces(vocabulary, verdict, rows);
    assert Places(rows, LiveRow(verdict)) == LivePlaces(verdict, rows);
  }

  /** A list is the single call target exactly when it is solely called and has more live rows than the caller has actions. */
  lemma SingleCallMeans(lists: Lists, verdict: Evaluator, vocabulary: Vocabulary, name: string, target: string)
    ensures SingleCallTarget(lists, verdict, vocabulary, name) == Some(target) <==>
            CallsInto(lists, verdict, vocabulary, name, target)
  {
    hide CountRows, FirstWith, LeadsAway, Live, WayOut, Alive, OwnPlaces, LivePlaces;
    var rows, p := Rows(lists, name), Away(vocabulary, verdict);
    CountsAre(lists, verdict, vocabulary, rows);
    CountsAre(lists, verdict, vocabulary, Rows(lists, target));
    NothingCounted(verdict);
    forall row {
      RowMeans(vocabulary, verdict, row);
    }
    if CountRows(rows, p) == 1 {
      var k := OnlyOne(rows, p);
      forall j | 0 <= j < |rows| && j != k ensures !WayOut(vocabulary, verdict, rows[j]) {
        assert !p(rows[j]);
      }
      assert LeadsAway(vocabulary, verdict, rows[k]);
      if SingleCallTarget(lists, verdict, vocabulary, name) == Some(target) {
        assert SoleCall(vocabulary, verdict, rows, k, target);
      }
    }
    if CallsInto(lists, verdict, vocabulary, name, target) {
      var k: nat :| SoleCall(vocabulary, verdict, rows, k, target);
      forall j | 0 <= j < |rows| && j != k ensures !p(rows[j]) {
        assert !WayOut(vocabulary, verdict, rows[j]);
      }
      OneCounted(rows, p, k);
    }
  }

  lemma NothingCounted(verdict: Evaluator)
    ensures CountRows([], LiveRow(verdict)) == 0
  {
  }

  lemma {:induction false} OneCounted(rows: seq<Entry>, p: Entry -> bool, k: nat)
    requires k < |rows| && p(rows[k]) && forall j | 0 <= j < |rows| && j != k :: !p(rows[j])
    ensures CountRows(rows, p) == 1 && FirstWith(rows, p) == Some(rows[k])
  {
    if k == 0 {
      NoneToCount(rows[1..], p);
    } else {
      OneCounted(rows[1..], p, k - 1);
    }
  }

  lemma {:induction false} NoneToCount(rows: seq<Entry>, p: Entry -> bool)
    requires forall j | 0 <= j < |rows| :: !p(rows[j])
    ensures CountRows(rows, p) == 0
  {
    if rows != [] {
      NoneToCount(rows[1..], p);
    }
  }

  lemma {:induction false} NoneCounted(rows: seq<Entry>, p: Entry -> bool)
    requires CountRows(rows, p) == 0
    ensures forall j | 0 <= j < |rows| :: !p(rows[j])
  {
    if rows != [] {
      NoneCounted(rows[1..], p);
    }
  }

  lemma {:induction false} OnlyOne(rows: seq<Entry>, p: Entry -> bool) returns (k: nat)
    requires CountRows(rows, p) == 1
    ensures k < |rows| && p(rows[k]) && FirstWith(rows, p) == Some(rows[k])
    ensures forall j | 0 <= j < |rows| && j != k :: !p(rows[j])
  {
    if p(rows[0]) {
      NoneCounted(rows[1..], p);
      k := 0;
    } else {
      var later := OnlyOne(rows[1..], p);
      k := later + 1;
    }
  }

  // ---------------------------------------------------------------- hops

  /** The first row that always runs a list runs the target. */
  ghost predicate DispatchesTo(verdict: Evaluator, rows: seq<Entry>, target: string)
  {
    exists k: nat :: k < |rows| && FirstRun(verdict, rows, k) && rows[k].target == Some(target)
  }

  lemma LaterRun(verdict: Evaluator, row: Entry, rest: seq<Entry>, k: nat)
    requires !AlwaysRuns(verdict, row)
    ensures FirstRun(verdict, [row] + rest, k + 1) <==> FirstRun(verdict, rest, k)
  {
    hide AlwaysRuns;
    var rows := [row] + rest;
    assert forall j: nat | j < |rest| :: rows[j + 1] == rest[j];
    if FirstRun(verdict, rest, k) {
      assert forall j | 0 < j < k + 1 :: rows[j] == rest[j - 1];
    }
  }

  lemma NotFirstRun(verdict: Evaluator, rows: seq<Entry>)
    requires rows != [] && !AlwaysRuns(verdict, rows[0])
    ensures !FirstRun(verdict, rows, 0)
  {
  }

  lemma LaterDispatch(verdict: Evaluator, rows: seq<Entry>, target: string)
    requires rows != [] && !AlwaysRuns(verdict, rows[0])
    ensures DispatchesTo(verdict, rows, target) <==> DispatchesTo(verdict, rows[1..], target)
  {
    hide AlwaysRuns, FirstRun;
    var rest := rows[1..];
    assert rows == [rows[0]] + rest;
    NotFirstRun(verdict, rows);
    forall k: nat {
      LaterRun(verdict, rows[0], rest, k);
    }
    if DispatchesTo(verdict, rows, target) {
      var k: nat :| k < |rows| && FirstRun(verdict, rows, k) && rows[k].target == Some(target);
      assert FirstRun(verdict, rest, k - 1);
    }
    if DispatchesTo(verdict, rest, target) {
      var k: nat :| k < |rest| && FirstRun(verdict, rest, k) && rest[k].target == Some(target);
      assert FirstRun(verdict, rows, k + 1);
    }
  }

  /** The list of the first row that always dispatches. */
  function Dispatch(verdict: Evaluator, rows: seq<Entry>): Option<string>
  {
    if rows == [] then None
    else if Stops(verdict, rows[0]) then rows[0].target
    else Dispatch(verdict, rows[1..])
  }

  lemma {:induction false} DispatchIs(verdict: Evaluator, rows: seq<Entry>, target: string)
    ensures Dispatch(verdict, rows) == Some(target) <==> DispatchesTo(verdict, rows, target)
  {
    if rows != [] {
      if Stops(verdict, rows[0]) {
        assert FirstRun(verdict, rows, 0);
      } else {
        LaterDispatch(verdict, rows, target);
        DispatchIs(verdict, rows[1..], target);
      }
    }
  }

  /** It is the dispatch the summary reports. */
  lemma {:induction false} DispatchIsReported(verdict: Evaluator, rows: seq<Entry>, reported: Option<Note>)
    requires IsDispatch(verdict, rows, reported)
    ensures Dispatch(verdict, rows) == if reported.Some? then Some(reported.value.target) else None
  {
    if reported.Some? {
      var k :| 0 <= k < |rows| && Stops(verdict, rows[k]) && !ShadowedAt(verdict, rows, k)
               && reported.value == NoteOf(verdict, rows[k], Guaranteed);
      DispatchIs(verdict, rows, reported.value.target);
    } else if Dispatch(verdict, rows).Some? {
      DispatchIs(verdict, rows, Dispatch(verdict, rows).value);
    }
  }

  /** The list dispatches to the target: it has rows, and the first that always runs a list runs that one. */
  ghost predicate RunsInto(lists: Lists, verdict: Evaluator, name: string, target: string)
  {
    name in lists && DispatchesTo(verdict, lists[name], target)
  }

  /** The two ways on from a list, each to a list not seen yet; a sole call only where no dispatch goes on. */
  ghost predicate GoesOn(
      lists: Lists, verdict: Evaluator, vocabulary: Vocabulary, name: string, seen: set<string>, next: string)
  {
    && next !in seen
    && (RunsInto(lists, verdict, name, next)
        || (CallsInto(lists, verdict, vocabulary, name, next)
            && forall other | RunsInto(lists, verdict, name, other) :: other in seen))
  }

  /** Neither way leads on to a list not seen yet. */
  ghost predicate Settled(
      lists: Lists, verdict: Evaluator, vocabulary: Vocabulary, name: string, seen: set<string>)
  {
    forall next | RunsInto(lists, verdict, name, next) || CallsInto(lists, verdict, vocabulary, name, next) ::
      next in seen
  }

  lemma DispatchRunsInto(lists: Lists, verdict: Evaluator, name: string)
    ensures forall target ::
              RunsInto(lists, verdict, name, target) <==> Dispatch(verdict, Rows(lists, name)) == Some(target)
  {
    hide DispatchesTo;
    forall target
      ensures RunsInto(lists, verdict, name, target) <==> Dispatch(verdict, Rows(lists, name)) == Some(target)
    {
      DispatchIs(verdict, Rows(lists, name), target);
    }
  }

  lemma SingleCallsInto(lists: Lists, verdict: Evaluator, vocabulary: Vocabulary, name: string)
    ensures forall target ::
              CallsInto(lists, verdict, vocabulary, name, target) <==>
              SingleCallTarget(lists, verdict, vocabulary, name) == Some(target)
  {
    hide CallsInto, SingleCallTarget;
    forall target
      ensures CallsInto(lists, verdict, vocabulary, name, target) <==>
              SingleCallTarget(lists, verdict, vocabulary, name) == Some(target)
    {
      SingleCallMeans(lists, verdict, vocabulary, name, target);
    }
  }

  ghost predicate Distinct(path: seq<string>)
  {
    forall i, j | 0 <= i < j < |path| :: path[i] != path[j]
  }

  function NamesOf(path: seq<string>): set<string>
  {
    set name | name in path
  }

  /** Each hop of the path goes on from the list before it, given the lists already passed. */
  ghost predicate Hops(lists: Lists, verdict: Evaluator, vocabulary: Vocabulary, path: seq<string>)
  {
    forall i | 0 <= i < |path| - 1 ::
      GoesOn(lists, verdict, vocabulary, path[i], NamesOf(path[..i + 1]), path[i + 1])
  }

  datatype HopReason = StartList | RunDispatch | CallLeaf

  /** How the last list of a path was reached: not at all, by the dispatch of the one before it, or by its sole call. */
  ghost predicate ReasonHolds(
      lists: Lists, verdict: Evaluator, vocabulary: Vocabulary, path: seq<string>, reason: HopReason)
  {
    var n := |path|;
    match reason
    case StartList => n == 1
    case RunDispatch => n >= 2 && RunsInto(lists, verdict, path[n - 2], path[n - 1])
    case CallLeaf =>
      n >= 2 && CallsInto(lists, verdict, vocabulary, path[n - 2], path[n - 1])
      && !RunsInto(lists, verdict, path[n - 2], path[n - 1])
  }

  datatype Focus = Focus(start: string, focus: string, path: seq<string>, reason: HopReason)

  ghost predicate ValidFocus(
      lists: Lists, verdict: Evaluator, vocabulary: Vocabulary, start: string, maxDepth: nat, focus: Focus)
  {
    && focus.start == start && 1 <= |focus.path| <= maxDepth + 1
    && focus.path[0] == start && focus.path[|focus.path| - 1] == focus.focus
    && Distinct(focus.path)
    && Hops(lists, verdict, vocabulary, focus.path)
    && ReasonHolds(lists, verdict, vocabulary, focus.path, focus.reason)
  }

  method ResolveFocus(lists: Lists, verdict: Evaluator, vocabulary: Vocabulary, start: string, maxDepth: nat)
    returns (focus: Focus)
    ensures ValidFocus(lists, verdict, vocabulary, start, maxDepth, focus)
    ensures |focus.path| <= maxDepth ==>
              Settled(lists, verdict, vocabulary, focus.focus, NamesOf(focus.path))
  {
    hide Dispatch, SingleCallTarget, IsDispatch, DecisionsHold, NotesWith, Hops, Distinct, RunsInto, CallsInto, Rows;
    StartPath(lists, verdict, vocabulary, start);
    var current := start;
    var path := [start];
    var seen := {start};
    var reason := StartList;
    var turn := 0;
    while turn < maxDepth
      invariant 0 <= turn <= maxDepth && |path| == turn + 1
      invariant path[0] == start && path[|path| - 1] == current && seen == NamesOf(path)
      invariant Distinct(path) && Hops(lists, verdict, vocabulary, path)
      invariant ReasonHolds(lists, verdict, vocabulary, path, reason)
    {
      ghost var before := path;
      var summary := SummarizeBranches(lists, verdict, current);
      DispatchIsReported(verdict, Rows(lists, current), summary.dispatch);
      var target := SingleCallTarget(lists, verdict, vocabulary, current);
      DispatchRunsInto(lists, verdict, current);
      SingleCallsInto(lists, verdict, vocabulary, current);
      if summary.dispatch.Some? && summary.dispatch.value.target !in seen {
        current := summary.dispatch.value.target;
        reason := RunDispatch;
      } else if target.Some? && target.value !in seen {
        current := target.value;
        reason := CallLeaf;
      } else {
        break;
      }
      path := path + [current];
      seen := seen + {current};
      HopOn(lists, verdict, vocabulary, before, current);
      turn := turn + 1;
    }
    focus := Focus(start, current, path, reason);
  }

  lemma StartPath(lists: Lists, verdict: Evaluator, vocabulary: Vocabulary, start: string)
    ensures Distinct([start]) && Hops(lists, verdict, vocabulary, [start])
  {
  }

  lemma HopOn(lists: Lists, verdict: Evaluator, vocabulary: Vocabulary, path: seq<string>, next: string)
    requires path != [] && Distinct(path) && Hops(lists, verdict, vocabulary, path)
    requires GoesOn(lists, verdict, vocabulary, path[|path| - 1], NamesOf(path), next)
    ensures Distinct(path + [next]) && Hops(lists, verdict, vocabulary, path + [next])
    ensures NamesOf(path + [next]) == NamesOf(path) + {next}
  {
    hide RunsInto, CallsInto;
    var longer := path + [next];
    assert next !in NamesOf(path);
    forall i | 0 <= i < |longer| - 1
      ensures GoesOn(lists, verdict, vocabulary, longer[i], NamesOf(longer[..i + 1]), longer[i + 1])
    {
      assert longer[..i + 1] == path[..i + 1];
      if i == |path| - 1 {
        assert path[..i + 1] == path;
      }
    }
  }

  lemma {:induction false} DistinctCount(path: seq<string>)
    requires Distinct(path)
    ensures |NamesOf(path)| == |path|
  {
    if path == [] {
      assert NamesOf(path) == {};
    } else {
      var last := path[|path| - 1];
      var front := path[..|path| - 1];
      DistinctCount(front);
      assert path == front + [last];
      assert NamesOf(path) == NamesOf(front) + {last};
    }
  }

  lemma SubsetSize<T>(a: set<T>, b: set<T>)
    requires a <= b
    ensures |a| <= |b|
    ensures |a| == |b| ==> a == b
  {
    var rest := b - a;
    assert b == a + rest;
  }

  /** Every list passed on the way has rows, so there are at most as many hops as lists. */
  lemma HopsLeaveLists(lists: Lists, verdict: Evaluator, vocabulary: Vocabulary, path: seq<string>)
    requires Distinct(path) && path != [] && Hops(lists, verdict, vocabulary, path)
    ensures NamesOf(path[..|path| - 1]) <= lists.Keys
    ensures |path| - 1 <= |lists|
    ensures |path| - 1 == |lists| ==> path[|path| - 1] !in lists
  {
    var front := path[..|path| - 1];
    forall name | name in NamesOf(front) ensures name in lists {
      var i :| 0 <= i < |front| && front[i] == name;
      assert GoesOn(lists, verdict, vocabulary, path[i], NamesOf(path[..i + 1]), path[i + 1]);
    }
    DistinctCount(front);
    SubsetSize(NamesOf(front), lists.Keys);
    var last := path[|path| - 1];
    assert last !in NamesOf(front) by {
      assert forall i | 0 <= i < |front| :: front[i] == path[i] != last;
    }
  }

  /** With a depth of at least the number of lists, the walk always ends where no unvisited list follows. */
  lemma FocusSettles(
      lists: Lists, verdict: Evaluator, vocabulary: Vocabulary, start: string, maxDepth: nat, focus: Focus)
    requires ValidFocus(lists, verdict, vocabulary, start, maxDepth, focus)
    requires |focus.path| <= maxDepth ==> Settled(lists, verdict, vocabulary, focus.focus, NamesOf(focus.path))
    requires maxDepth >= |lists|
    ensures Settled(lists, verdict, vocabulary, focus.focus, NamesOf(focus.path))
  {
    hide DispatchesTo, SoleCall, OwnPlaces, LivePlaces;
    HopsLeaveLists(lists, verdict, vocabulary, focus.path);
  }
}
