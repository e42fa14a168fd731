/**
 Which list a run of an action list dispatches to, from what is known of each row's condition: a row is
 guaranteed, dead or possible, and a guaranteed row shadows every row after it.
 */
module AplBranches {
  import opened Wrappers
  import opened AplEntries

  /** Whether a row's condition can be true and can be false, with the reason given for it. */
  datatype Verdict = Verdict(canBeTrue: bool, canBeFalse: bool, reason: string)
  {
    predicate GuaranteedTrue()
    {
      canBeTrue && !canBeFalse
    }

    predicate GuaranteedFalse()
    {
      !canBeTrue && canBeFalse
    }
  }

  /** The condition evaluator: any function that never rules out both truth values. */
  type Evaluator = Entry -> Verdict

  ghost predicate Sane(verdict: Evaluator)
  {
    forall entry: Entry :: verdict(entry).canBeTrue || verdict(entry).canBeFalse
  }

  type Lists = map<string, seq<Entry>>

  function Rows(lists: Lists, name: string): seq<Entry>
  {
    if name in lists then lists[name] else []
  }

  predicate HasTarget(entry: Entry)
  {
    entry.target.Some? && entry.target.value != ""
  }

  predicate IsRun(entry: Entry)
  {
    entry.kind.Run? && HasTarget(entry)
  }

  // ---------------------------------------------------------------- statuses

  datatype Status = Guaranteed | Dead | Possible | Shadowed

  function StatusOf(verdict: Verdict): Status
  {
    if verdict.GuaranteedTrue() then Guaranteed
    else if verdict.GuaranteedFalse() then Dead
    else Possible
  }

  predicate Stops(verdict: Evaluator, entry: Entry)
  {
    IsRun(entry) && verdict(entry).GuaranteedTrue()
  }

  /** Some earlier run row always fires. */
  ghost predicate ShadowedAt(verdict: Evaluator, rows: seq<Entry>, k: nat)
    requires k < |rows|
  {
    exists j :: 0 <= j < k && Stops(verdict, rows[j])
  }

  ghost function StatusAt(verdict: Evaluator, rows: seq<Entry>, k: nat): Status
    requires k < |rows|
  {
    if ShadowedAt(verdict, rows, k) then Shadowed else StatusOf(verdict(rows[k]))
  }

  // ---------------------------------------------------------------- rows that always run a list

  ghost predicate AlwaysTrue(verdict: Evaluator, row: Entry)
  {
    verdict(row).canBeTrue && !verdict(row).canBeFalse
  }

  /** A run row that names a list and whose condition is known to hold. */
  ghost predicate AlwaysRuns(verdict: Evaluator, row: Entry)
  {
    row.kind.Run? && row.target.Some? && row.target.value != "" && AlwaysTrue(verdict, row)
  }

  /** Row `k` is the first that always runs a list. */
  ghost predicate FirstRun(verdict: Evaluator, rows: seq<Entry>, k: nat)
  {
    k < |rows| && AlwaysRuns(verdict, rows[k]) && forall j | 0 <= j < k :: !AlwaysRuns(verdict, rows[j])
  }

  // ---------------------------------------------------------------- runs

  /** A truth value for every row that the verdicts allow. */
  ghost predicate Consistent(verdict: Evaluator, rows: seq<Entry>, truth: seq<bool>)
  {
    && |truth| == |rows|
    && forall k | 0 <= k < |rows| ::
         if truth[k] then verdict(rows[k]).canBeTrue else verdict(rows[k]).canBeFalse
  }

  /** Row `k` is the first run row of the list whose condition is true: the one a run dispatches through. */
  ghost predicate Dispatches(rows: seq<Entry>, truth: seq<bool>, k: nat)
  {
    && k < |rows| && |truth| == |rows| && IsRun(rows[k]) && truth[k]
    && forall j | 0 <= j < k && IsRun(rows[j]) :: !truth[j]
  }

  /** A row evaluation reaches row `k` and finds it true: no earlier run row took the run elsewhere. */
  ghost predicate Enters(rows: seq<Entry>, truth: seq<bool>, k: nat)
  {
    && k < |rows| && |truth| == |rows| && truth[k]
    && forall j | 0 <= j < k && IsRun(rows[j]) :: !truth[j]
  }

  /** The truth values that reach row `k`: false before it, true at it, and whatever is allowed after. */
  ghost function Reaching(verdict: Evaluator, rows: seq<Entry>, k: nat): seq<bool>
    requires k < |rows|
  {
    seq(|rows|, j requires 0 <= j < |rows| =>
      if j == k then true
      else if j < k && IsRun(rows[j]) then false
      else verdict(rows[j]).canBeTrue)
  }

  /** Some consistent run enters a row exactly when the row is not shadowed and its condition can be true. */
  lemma EnteredIffLive(verdict: Evaluator, rows: seq<Entry>, k: nat)
    requires Sane(verdict) && k < |rows|
    ensures (exists truth :: Consistent(verdict, rows, truth) && Enters(rows, truth, k))
            <==> !ShadowedAt(verdict, rows, k) && verdict(rows[k]).canBeTrue
  {
    if !ShadowedAt(verdict, rows, k) && verdict(rows[k]).canBeTrue {
      var truth := Reaching(verdict, rows, k);
      forall j | 0 <= j < |rows|
        ensures if truth[j] then verdict(rows[j]).canBeTrue else verdict(rows[j]).canBeFalse
      {
        if j < k && IsRun(rows[j]) {
          assert !Stops(verdict, rows[j]);
        }
      }
      assert Consistent(verdict, rows, truth) && Enters(rows, truth, k);
    }
    if exists truth :: Consistent(verdict, rows, truth) && Enters(rows, truth, k) {
      var truth :| Consistent(verdict, rows, truth) && Enters(rows, truth, k);
      forall j | 0 <= j < k ensures !Stops(verdict, rows[j]) {
        if IsRun(rows[j]) {
          assert !truth[j];
        }
      }
    }
  }

  /**
   A run row can be the one a run dispatches through exactly when it is reported unresolved or as the
   guaranteed dispatch; a dead or shadowed row never is.
   */
  lemma DispatchedIffLive(verdict: Evaluator, rows: seq<Entry>, k: nat)
    requires Sane(verdict) && k < |rows| && IsRun(rows[k])
    ensures (exists truth :: Consistent(verdict, rows, truth) && Dispatches(rows, truth, k))
            <==> StatusAt(verdict, rows, k) in {Possible, Guaranteed}
  {
    EnteredIffLive(verdict, rows, k);
    if exists truth :: Consistent(verdict, rows, truth) && Dispatches(rows, truth, k) {
      var truth :| Consistent(verdict, rows, truth) && Dispatches(rows, truth, k);
      assert Enters(rows, truth, k);
    }
    if exists truth :: Consistent(verdict, rows, truth) && Enters(rows, truth, k) {
      var truth :| Consistent(verdict, rows, truth) && Enters(rows, truth, k);
      assert Dispatches(rows, truth, k);
    }
  }

  ghost predicate SomeRowStops(verdict: Evaluator, rows: seq<Entry>)
  {
    exists k :: 0 <= k < |rows| && Stops(verdict, rows[k])
  }

  lemma FirstTrueRun(rows: seq<Entry>, truth: seq<bool>, bound: nat) returns (k: nat)
    requires |truth| == |rows| && bound < |rows| && IsRun(rows[bound]) && truth[bound]
    ensures k <= bound && Dispatches(rows, truth, k)
  {
    k := 0;
    while !(IsRun(rows[k]) && truth[k])
      invariant k <= bound
      invariant forall j | 0 <= j < k && IsRun(rows[j]) :: !truth[j]
      decreases bound - k
    {
      k := k + 1;
    }
  }

  /** A guaranteed dispatch is reported exactly when every consistent run dispatches through some row. */
  lemma AlwaysDispatchesIffGuaranteed(verdict: Evaluator, rows: seq<Entry>)
    requires Sane(verdict)
    ensures SomeRowStops(verdict, rows) <==>
            forall truth | Consistent(verdict, rows, truth) :: exists k: nat :: Dispatches(rows, truth, k)
  {
    if SomeRowStops(verdict, rows) {
      forall truth | Consistent(verdict, rows, truth) ensures exists k: nat :: Dispatches(rows, truth, k) {
        var g :| 0 <= g < |rows| && Stops(verdict, rows[g]);
        assert truth[g];
        var k := FirstTrueRun(rows, truth, g);
      }
    } else {
      var truth := seq(|rows|, j requires 0 <= j < |rows| =>
        if IsRun(rows[j]) then false else verdict(rows[j]).canBeTrue);
      forall j | 0 <= j < |rows|
        ensures if truth[j] then verdict(rows[j]).canBeTrue else verdict(rows[j]).canBeFalse
      {
        assert !Stops(verdict, rows[j]);
      }
      assert Consistent(verdict, rows, truth);
      assert forall k: nat :: !Dispatches(rows, truth, k);
    }
  }

  // ---------------------------------------------------------------- the summary

  /** A reported row: its line, the list it leads to, and the reason. */
  datatype Note = Note(lineNo: nat, target: string, reason: string)

  datatype Decision = Decision(target: string, lineNo: nat, status: Status, reason: string)

  datatype Summary = Summary(
    start: string, dispatch: Option<Note>, dead: seq<Note>, unresolved: seq<Note>, shadowed: seq<Note>,
    decisions: map<string, Decision>)

  const SHADOW_REASON := "shadowed by earlier guaranteed dispatch"

  function NoteOf(verdict: Evaluator, row: Entry, status: Status): Note
    requires HasTarget(row)
  {
    Note(row.lineNo, row.target.value, if status.Shadowed? then "" else verdict(row).reason)
  }

  function DecisionOf(verdict: Evaluator, row: Entry, status: Status): Decision
    requires HasTarget(row)
  {
    Decision(row.target.value, row.lineNo, status, if status.Shadowed? then SHADOW_REASON else verdict(row).reason)
  }

  /** The run rows of a list with a status, in order, each as the summary reports it. */
  ghost function NotesWith(verdict: Evaluator, rows: seq<Entry>, count: nat, status: Status): seq<Note>
    requires count <= |rows|
  {
    if count == 0 then []
    else
      NotesWith(verdict, rows, count - 1, status)
      + if IsRun(rows[count - 1]) && StatusAt(verdict, rows, count - 1) == status
        then [NoteOf(verdict, rows[count - 1], status)] else []
  }

  /** The last run row among the first `count` that leads to a list. */
  ghost predicate LastTo(rows: seq<Entry>, count: nat, target: string, k: nat)
    requires count <= |rows|
  {
    && k < count && IsRun(rows[k]) && rows[k].target.value == target
    && forall j | k < j < count && IsRun(rows[j]) :: rows[j].target.value != target
  }

  ghost predicate Leads(rows: seq<Entry>, count: nat, target: string)
    requires count <= |rows|
  {
    exists k :: 0 <= k < count && IsRun(rows[k]) && rows[k].target.value == target
  }

  ghost predicate DecisionsHold(
      verdict: Evaluator, rows: seq<Entry>, count: nat, decisions: map<string, Decision>)
    requires count <= |rows|
  {
    && (forall target :: target in decisions <==> Leads(rows, count, target))
    && forall target, k: nat | k < |rows| && LastTo(rows, count, target, k) ::
         target in decisions && decisions[target] == DecisionOf(verdict, rows[k], StatusAt(verdict, rows, k))
  }

  lemma LastToStep(rows: seq<Entry>, count: nat, target: string, k: nat)
    requires count < |rows|
    ensures LastTo(rows, count + 1, target, k) <==>
            if IsRun(rows[count]) && rows[count].target.value == target then k == count
            else LastTo(rows, count, target, k)
  {
  }

  lemma LeadsStep(rows: seq<Entry>, count: nat, target: string)
    requires count < |rows|
    ensures Leads(rows, count + 1, target) <==>
            Leads(rows, count, target) || (IsRun(rows[count]) && rows[count].target.value == target)
  {
  }

  lemma DecisionsStep(
      verdict: Evaluator, rows: seq<Entry>, count: nat, before: map<string, Decision>, after: map<string, Decision>)
    requires count < |rows| && DecisionsHold(verdict, rows, count, before)
    requires after == if IsRun(rows[count])
                      then before[rows[count].target.value :=
                             DecisionOf(verdict, rows[count], StatusAt(verdict, rows, count))]
                      else before
    ensures DecisionsHold(verdict, rows, count + 1, after)
  {
    hide StatusAt, Leads;
    forall target ensures target in after <==> Leads(rows, count + 1, target) {
      LeadsStep(rows, count, target);
    }
    forall target, k: nat | k < |rows| && LastTo(rows, count + 1, target, k)
      ensures target in after && after[target] == DecisionOf(verdict, rows[k], StatusAt(verdict, rows, k))
    {
      LastToStep(rows, count, target, k);
    }
  }

  /** The first row that always fires, if any. */
  ghost predicate IsDispatch(verdict: Evaluator, rows: seq<Entry>, dispatch: Option<Note>)
  {
    if dispatch.None? then !SomeRowStops(verdict, rows)
    else exists k :: 0 <= k < |rows| && Stops(verdict, rows[k]) && !ShadowedAt(verdict, rows, k)
                     && dispatch.value == NoteOf(verdict, rows[k], Guaranteed)
  }

  lemma NotesStep(verdict: Evaluator, rows: seq<Entry>, count: nat, status: Status)
    requires count < |rows|
    ensures NotesWith(verdict, rows, count + 1, status) ==
            if IsRun(rows[count]) && StatusAt(verdict, rows, count) == status
            then NotesWith(verdict, rows, count, status) + [NoteOf(verdict, rows[count], status)]
            else NotesWith(verdict, rows, count, status)
  {
  }

  method SummarizeBranches(lists: Lists, verdict: Evaluator, start: string) returns (summary: Summary)
    ensures var rows := Rows(lists, start);
            && summary.start == start
            && IsDispatch(verdict, rows, summary.dispatch)
            && summary.dead == NotesWith(verdict, rows, |rows|, Dead)
            && summary.unresolved == NotesWith(verdict, rows, |rows|, Possible)
            && summary.shadowed == NotesWith(verdict, rows, |rows|, Shadowed)
            && DecisionsHold(verdict, rows, |rows|, summary.decisions)
  {
    hide DecisionsHold, NotesWith;
    var rows := Rows(lists, start);
    var dispatch: Option<Note> := None;
    var dead: seq<Note>, unresolved: seq<Note>, shadowed: seq<Note> := [], [], [];
    var decisions: map<string, Decision> := map[];
    var stopHere := false;
    NothingReported(verdict, rows);
    for k := 0 to |rows|
      invariant stopHere <==> exists j :: 0 <= j < k && Stops(verdict, rows[j])
      invariant stopHere <==> dispatch.Some?
      invariant stopHere ==> IsDispatch(verdict, rows, dispatch)
      invariant dead == NotesWith(verdict, rows, k, Dead)
      invariant unresolved == NotesWith(verdict, rows, k, Possible)
      invariant shadowed == NotesWith(verdict, rows, k, Shadowed)
      invariant DecisionsHold(verdict, rows, k, decisions)
    {
      var row := rows[k];
      ghost var before := decisions;
      NotesStep(verdict, rows, k, Dead);
      NotesStep(verdict, rows, k, Possible);
      NotesStep(verdict, rows, k, Shadowed);
      if IsRun(row) {
        if stopHere {
          shadowed := shadowed + [NoteOf(verdict, row, Shadowed)];
          decisions := decisions[row.target.value := DecisionOf(verdict, row, Shadowed)];
        } else {
          var outcome := verdict(row);
          if outcome.GuaranteedTrue() {
            assert !ShadowedAt(verdict, rows, k);
            dispatch := Some(NoteOf(verdict, row, Guaranteed));
            decisions := decisions[row.target.value := DecisionOf(verdict, row, Guaranteed)];
            stopHere := true;
          } else if outcome.GuaranteedFalse() {
            dead := dead + [NoteOf(verdict, row, Dead)];
            decisions := decisions[row.target.value := DecisionOf(verdict, row, Dead)];
          } else {
            unresolved := unresolved + [NoteOf(verdict, row, Possible)];
            decisions := decisions[row.target.value := DecisionOf(verdict, row, Possible)];
          }
        }
      }
      DecisionsStep(verdict, rows, k, before, decisions);
    }
    summary := Summary(start, dispatch, dead, unresolved, shadowed, decisions);
  }

  lemma NothingReported(verdict: Evaluator, rows: seq<Entry>)
    ensures DecisionsHold(verdict, rows, 0, map[])
    ensures forall status :: NotesWith(verdict, rows, 0, status) == []
  {
  }

  // ---------------------------------------------------------------- decisions per target

  ghost predicate CanDispatchTo(verdict: Evaluator, rows: seq<Entry>, target: string)
  {
    exists truth, k: nat :: Consistent(verdict, rows, truth) && Dispatches(rows, truth, k)
                            && rows[k].target.value == target
  }

  ghost predicate LiveAt(verdict: Evaluator, rows: seq<Entry>, k: nat)
    requires k < |rows|
  {
    IsRun(rows[k]) && StatusAt(verdict, rows, k) in {Possible, Guaranteed}
  }

  /**
   The decision kept for a list is that of its last row. It is live exactly when a run can dispatch to the
   list, unless an earlier row for the list is live and the last is not: then it hides a possible dispatch.
   */
  lemma DecisionTellsDispatchIff(
      verdict: Evaluator, rows: seq<Entry>, decisions: map<string, Decision>, target: string, last: nat)
    requires Sane(verdict) && DecisionsHold(verdict, rows, |rows|, decisions)
    requires last < |rows| && LastTo(rows, |rows|, target, last)
    ensures target in decisions
    ensures (decisions[target].status in {Possible, Guaranteed} <==> CanDispatchTo(verdict, rows, target))
            <==> !(!LiveAt(verdict, rows, last)
                   && exists k: nat :: k < last && LiveAt(verdict, rows, k) && rows[k].target.value == target)
  {
    if CanDispatchTo(verdict, rows, target) {
      var truth, k: nat :| Consistent(verdict, rows, truth) && Dispatches(rows, truth, k) && rows[k].target.value == target;
      DispatchedIffLive(verdict, rows, k);
      assert LiveAt(verdict, rows, k) && k <= last;
    }
    forall k: nat | k < |rows| && LiveAt(verdict, rows, k) && rows[k].target.value == target
      ensures CanDispatchTo(verdict, rows, target)
    {
      DispatchedIffLive(verdict, rows, k);
    }
  }

  /** The kept decision says of a list exactly whether runs can dispatch to it. */
  ghost predicate DecisionRight(
      verdict: Evaluator, rows: seq<Entry>, decisions: map<string, Decision>, target: string)
  {
    target in decisions
    && (decisions[target].status in {Possible, Guaranteed} <==> CanDispatchTo(verdict, rows, target))
  }

  ghost predicate RowTo(rows: seq<Entry>, k: nat, target: string)
  {
    k < |rows| && IsRun(rows[k]) && rows[k].target.value == target
  }

  /** An evaluator that knows one row to fire always, and nothing of the others. */
  function OnlyFires(row: Entry): Evaluator
  {
    entry => Verdict(true, entry != row, "")
  }

  lemma {:induction false} DecisionsExist(verdict: Evaluator, rows: seq<Entry>, count: nat)
    returns (decisions: map<string, Decision>)
    requires count <= |rows|
    ensures DecisionsHold(verdict, rows, count, decisions)
  {
    hide DecisionsHold;
    if count == 0 {
      decisions := map[];
      NothingReported(verdict, rows);
    } else {
      var before := DecisionsExist(verdict, rows, count - 1);
      var row := rows[count - 1];
      decisions :=
        if IsRun(row) then before[row.target.value := DecisionOf(verdict, row, StatusAt(verdict, rows, count - 1))]
        else before;
      DecisionsStep(verdict, rows, count - 1, before, decisions);
    }
  }

  /** When the first of several rows to a list always fires, the last is shadowed and the list dispatched to. */
  lemma FirstRowFires(rows: seq<Entry>, target: string, first: nat, last: nat)
    requires RowTo(rows, first, target) && first < last < |rows|
    requires forall k: nat | k < first :: !RowTo(rows, k, target)
    ensures Sane(OnlyFires(rows[first])) && StatusAt(OnlyFires(rows[first]), rows, last) == Shadowed
    ensures CanDispatchTo(OnlyFires(rows[first]), rows, target)
  {
    var verdict := OnlyFires(rows[first]);
    assert Stops(verdict, rows[first]);
    forall j: nat | j < first ensures !Stops(verdict, rows[j]) {
      assert !RowTo(rows, j, target);
    }
    assert StatusAt(verdict, rows, first) == Guaranteed;
    DispatchedIffLive(verdict, rows, first);
  }

  lemma FirstRowTo(rows: seq<Entry>, target: string, k: nat) returns (first: nat)
    requires RowTo(rows, k, target)
    ensures first <= k && RowTo(rows, first, target) && forall j: nat | j < first :: !RowTo(rows, j, target)
  {
    first := 0;
    while !RowTo(rows, first, target)
      invariant first <= k && forall j: nat | j < first :: !RowTo(rows, j, target)
      decreases k - first
    {
      first := first + 1;
    }
  }

  /** Under every evaluator the decision kept for a list is right exactly when only one run row leads to the list. */
  lemma DecisionRightIffSoleRow(rows: seq<Entry>, target: string, last: nat)
    requires LastTo(rows, |rows|, target, last)
    ensures (forall verdict, decisions | Sane(verdict) && DecisionsHold(verdict, rows, |rows|, decisions) ::
               DecisionRight(verdict, rows, decisions, target))
            <==> forall k: nat | k < last :: !RowTo(rows, k, target)
  {
    hide DecisionsHold, Sane, CanDispatchTo, StatusAt;
    if forall k: nat | k < last :: !RowTo(rows, k, target) {
      forall verdict, decisions | Sane(verdict) && DecisionsHold(verdict, rows, |rows|, decisions)
        ensures DecisionRight(verdict, rows, decisions, target)
      {
        DecisionTellsDispatchIff(verdict, rows, decisions, target, last);
        assert forall k: nat | k < last && LiveAt(verdict, rows, k) :: !RowTo(rows, k, target);
      }
    } else {
      var k: nat :| k < last && RowTo(rows, k, target);
      var first := FirstRowTo(rows, target, k);
      FirstRowFires(rows, target, first, last);
      var verdict := OnlyFires(rows[first]);
      var decisions := DecisionsExist(verdict, rows, |rows|);
      LastDecision(verdict, rows, decisions, target, last);
      assert !DecisionRight(verdict, rows, decisions, target);
    }
  }

  lemma LastDecision(
      verdict: Evaluator, rows: seq<Entry>, decisions: map<string, Decision>, target: string, last: nat)
    requires DecisionsHold(verdict, rows, |rows|, decisions) && last < |rows| && LastTo(rows, |rows|, target, last)
    ensures target in decisions && decisions[target].status == StatusAt(verdict, rows, last)
  {
    hide StatusAt;
  }

  function RunRow(line: nat, target: string): Entry
  {
    Entry(line, "default", AplParser.Append, "run_action_list", "", None, Some(target), Run, [])
  }

  /** It happens: a list reached by an unresolved row and again after the guaranteed one is reported shadowed. */
  lemma DecisionCanHideDispatch(verdict: Evaluator, decisions: map<string, Decision>)
    requires Sane(verdict)
    requires verdict(RunRow(1, "st")) == Verdict(true, true, "")
    requires verdict(RunRow(2, "aoe")) == Verdict(true, false, "")
    requires DecisionsHold(verdict, [RunRow(1, "st"), RunRow(2, "aoe"), RunRow(3, "st")], 3, decisions)
    ensures var rows := [RunRow(1, "st"), RunRow(2, "aoe"), RunRow(3, "st")];
            "st" in decisions && decisions["st"].status == Shadowed && CanDispatchTo(verdict, rows, "st")
  {
    var rows := [RunRow(1, "st"), RunRow(2, "aoe"), RunRow(3, "st")];
    assert Stops(verdict, rows[1]);
    assert LastTo(rows, 3, "st", 2);
    assert !ShadowedAt(verdict, rows, 0);
    DispatchedIffLive(verdict, rows, 0);
    assert rows[0].target.value == "st";
  }
}
