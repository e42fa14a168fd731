/**
 Action lists, built assignment by assignment: `=` replaces a list, `+=` appends text to it, and a slash
 starts another action. The specification is plain: concatenate a list's values since its last `=`, then
 split on slashes. It is stated over marked text, so it also says which line each character came from.
 */
module AplParser {
  import opened Sequences
  import opened Strings

  datatype Op = Replace | Append

  /** One assignment line: the list it names, how it assigns, and its value. */
  datatype Assignment = Assignment(lineNo: nat, list: string, op: Op, value: string)

  /** A piece of one assignment's value that went into an action. */
  datatype Fragment = Fragment(text: string, lineNo: nat, op: Op)

  type Action = seq<Fragment>

  // ---------------------------------------------------------------- marked text

  /** A character, the line it was written on, and how that line assigns. */
  datatype Mark = Mark(c: char, line: nat, op: Op)

  predicate IsSlash(mark: Mark)
  {
    mark.c == '/'
  }

  function MarkLine(text: string, line: nat, op: Op): (marks: seq<Mark>)
    ensures |marks| == |text| && forall k | 0 <= k < |text| :: marks[k] == Mark(text[k], line, op)
  {
    if text == "" then [] else [Mark(text[0], line, op)] + MarkLine(text[1..], line, op)
  }

  function ValueMarks(assignment: Assignment): seq<Mark>
  {
    MarkLine(assignment.value, assignment.lineNo, assignment.op)
  }

  function Erase(marks: seq<Mark>): (text: string)
    ensures |text| == |marks| && forall k | 0 <= k < |marks| :: text[k] == marks[k].c
  {
    if marks == [] then "" else [marks[0].c] + Erase(marks[1..])
  }

  /** The text of a list: its values since the last `=`, end to end. */
  function ListMarks(assignments: seq<Assignment>, name: string): seq<Mark>
  {
    if assignments == [] then []
    else
      var last := assignments[|assignments| - 1];
      var before := ListMarks(assignments[..|assignments| - 1], name);
      if last.list != name then before
      else if last.op.Replace? then ValueMarks(last)
      else before + ValueMarks(last)
  }

  function KeepIfAny<T>(piece: seq<T>): seq<seq<T>>
  {
    if piece == [] then [] else [piece]
  }

  function Kept<T>(pieces: seq<seq<T>>): seq<seq<T>>
  {
    Flatten(pieces, KeepIfAny)
  }

  /** The non-empty pieces between slashes: what a list's actions must be. */
  function Pieces(marks: seq<Mark>): (pieces: seq<seq<Mark>>)
    ensures forall k | 0 <= k < |pieces| :: pieces[k] != []
  {
    KeptNonEmpty(SplitWhere(marks, IsSlash));
    Kept(SplitWhere(marks, IsSlash))
  }

  lemma {:induction false} KeptNonEmpty<T>(pieces: seq<seq<T>>)
    ensures forall k | 0 <= k < |Kept(pieces)| :: Kept(pieces)[k] != []
  {
    if pieces != [] {
      KeptNonEmpty(pieces[1..]);
      assert Kept(pieces) == KeepIfAny(pieces[0]) + Kept(pieces[1..]);
    }
  }

  // ---------------------------------------------------------------- the actions as marked text

  function FragmentMarks(fragment: Fragment): seq<Mark>
  {
    MarkLine(fragment.text, fragment.lineNo, fragment.op)
  }

  function ActionMarks(action: Action): seq<Mark>
  {
    Flatten(action, FragmentMarks)
  }

  function AsPiece(action: Action): seq<seq<Mark>>
  {
    [ActionMarks(action)]
  }

  function Bodies(actions: seq<Action>): seq<seq<Mark>>
  {
    Flatten(actions, AsPiece)
  }

  lemma BodiesPush(actions: seq<Action>, fragment: Fragment)
    ensures Bodies(actions + [[fragment]]) == Bodies(actions) + [FragmentMarks(fragment)]
  {
    FlattenSnoc(actions, [fragment], AsPiece);
    FlattenOne(fragment, FragmentMarks);
  }

  lemma BodiesExtend(actions: seq<Action>, fragment: Fragment)
    requires actions != []
    ensures var n := |actions| - 1;
            var bodies := Bodies(actions);
            && |bodies| == |actions|
            && Bodies(actions[n := actions[n] + [fragment]]) == bodies[..n] + [bodies[n] + FragmentMarks(fragment)]
  {
    var n := |actions| - 1;
    var front, last := actions[..n], actions[n];
    assert actions == front + [last];
    assert actions[n := last + [fragment]] == front + [last + [fragment]];
    FlattenSnoc(front, last, AsPiece);
    FlattenSnoc(front, last + [fragment], AsPiece);
    FlattenSnoc(last, fragment, FragmentMarks);
    BodiesLength(front);
  }

  lemma {:induction false} BodiesLength(actions: seq<Action>)
    ensures |Bodies(actions)| == |actions|
    ensures forall k | 0 <= k < |actions| :: Bodies(actions)[k] == ActionMarks(actions[k])
  {
    if actions != [] {
      BodiesLength(actions[1..]);
      assert Bodies(actions) == [ActionMarks(actions[0])] + Bodies(actions[1..]);
    }
  }

  // ---------------------------------------------------------------- one value

  /** What the pieces of a value do to the bodies: the first may continue the last body, the rest are new. */
  function Extend(bodies: seq<seq<Mark>>, pieces: seq<seq<Mark>>, continues: bool): seq<seq<Mark>>
  {
    if pieces == [] then bodies
    else if continues && bodies != [] && pieces[0] != [] then
      bodies[..|bodies| - 1] + [bodies[|bodies| - 1] + pieces[0]] + Kept(pieces[1..])
    else bodies + Kept(pieces)
  }

  lemma ExtendSnoc(bodies: seq<seq<Mark>>, pieces: seq<seq<Mark>>, next: seq<Mark>, continues: bool)
    requires pieces != []
    ensures Extend(bodies, pieces + [next], continues) == Extend(bodies, pieces, continues) + KeepIfAny(next)
  {
    hide Flatten, KeepIfAny;
    FlattenSnoc(pieces, next, KeepIfAny);
    FlattenSnoc(pieces[1..], next, KeepIfAny);
    assert (pieces + [next])[1..] == pieces[1..] + [next];
  }

  lemma ExtendFirst(bodies: seq<seq<Mark>>, first: seq<Mark>, continues: bool)
    ensures Extend(bodies, [first], continues) ==
            if first == [] then bodies
            else if continues && bodies != [] then bodies[..|bodies| - 1] + [bodies[|bodies| - 1] + first]
            else bodies + [first]
  {
    assert [first][1..] == [];
    FlattenOne(first, KeepIfAny);
  }

  function MarkPieces(pieces: seq<string>, line: nat, op: Op): (marked: seq<seq<Mark>>)
    ensures |marked| == |pieces|
  {
    if pieces == [] then [] else [MarkLine(pieces[0], line, op)] + MarkPieces(pieces[1..], line, op)
  }

  lemma {:induction false} MarkPiecesSnoc(pieces: seq<string>, last: string, line: nat, op: Op)
    ensures MarkPieces(pieces + [last], line, op) == MarkPieces(pieces, line, op) + [MarkLine(last, line, op)]
  {
    if pieces == [] {
      assert [last][1..] == [];
    } else {
      MarkPiecesSnoc(pieces[1..], last, line, op);
      assert (pieces + [last])[1..] == pieces[1..] + [last];
    }
  }

  /** Splitting then marking is marking then splitting. */
  lemma {:induction false} SplitMarked(text: string, line: nat, op: Op)
    ensures SplitWhere(MarkLine(text, line, op), IsSlash) == MarkPieces(Split(text, '/'), line, op)
  {
    if text == "" {
      assert MarkLine("", line, op) == [];
    } else {
      SplitMarked(text[1..], line, op);
      var marks := MarkLine(text, line, op);
      assert marks[1..] == MarkLine(text[1..], line, op);
      var rest := Split(text[1..], '/');
      assert Is('/')(text[0]) <==> text[0] == '/';
      if text[0] == '/' {
        assert Split(text, '/') == [""] + rest;
      } else {
        assert Split(text, '/') == [[text[0]] + rest[0]] + rest[1..];
        assert ([[text[0]] + rest[0]] + rest[1..])[1..] == rest[1..];
        assert MarkLine([text[0]] + rest[0], line, op) == [marks[0]] + MarkLine(rest[0], line, op);
      }
    }
  }

  /** Actions are never empty, hold text only, and start on lines that never go back, none past `line`. */
  ghost predicate WellBuilt(actions: seq<Action>, line: nat)
  {
    && (forall k | 0 <= k < |actions| :: actions[k] != [] && actions[k][0].lineNo <= line)
    && (forall k, l | 0 <= k < |actions| && 0 <= l < |actions[k]| :: actions[k][l].text != "")
    && (forall k, l | 0 <= k < l < |actions| :: actions[k][0].lineNo <= actions[l][0].lineNo)
  }

  method AddPiece(actions: seq<Action>, fragment: Fragment, continues: bool) returns (longer: seq<Action>)
    requires fragment.text != ""
    ensures Bodies(longer) ==
            if continues && actions != []
            then Bodies(actions)[..|Bodies(actions)| - 1]
                 + [Bodies(actions)[|Bodies(actions)| - 1] + FragmentMarks(fragment)]
            else Bodies(actions) + [FragmentMarks(fragment)]
    ensures WellBuilt(actions, fragment.lineNo) ==> WellBuilt(longer, fragment.lineNo)
  {
    BodiesLength(actions);
    if continues && actions != [] {
      BodiesExtend(actions, fragment);
      var n := |actions| - 1;
      longer := actions[n := actions[n] + [fragment]];
    } else {
      BodiesPush(actions, fragment);
      longer := actions + [[fragment]];
    }
  }

  method AddValue(actions: seq<Action>, assignment: Assignment, continues: bool) returns (longer: seq<Action>)
    ensures Bodies(longer) == Extend(Bodies(actions), SplitWhere(ValueMarks(assignment), IsSlash), continues)
    ensures WellBuilt(actions, assignment.lineNo) ==> WellBuilt(longer, assignment.lineNo)
  {
    hide Extend, Bodies, SplitWhere, Split, MarkPieces, MarkLine, FragmentMarks, WellBuilt;
    var pieces := Split(assignment.value, '/');
    ghost var line, op := assignment.lineNo, assignment.op;
    SplitMarked(assignment.value, line, op);
    longer := actions;
    BodiesLength(actions);
    ExtendNothing(Bodies(actions), continues);
    NoPieces(line, op);
    assert pieces[..0] == [];
    for index := 0 to |pieces|
      invariant Bodies(longer) == Extend(Bodies(actions), MarkPieces(pieces[..index], line, op), continues)
      invariant index == 0 ==> longer == actions
      invariant WellBuilt(actions, line) ==> WellBuilt(longer, line)
    {
      var body := pieces[index];
      assert pieces[..index + 1] == pieces[..index] + [body];
      MarkPiecesSnoc(pieces[..index], body, line, op);
      PieceStep(Bodies(actions), MarkPieces(pieces[..index], line, op), MarkLine(body, line, op), continues);
      if body != "" {
        var fragment := Fragment(body, assignment.lineNo, assignment.op);
        FragmentIsLine(fragment);
        longer := AddPiece(longer, fragment, index == 0 && continues);
      }
    }
    assert pieces[..|pieces|] == pieces;
  }

  lemma ExtendNothing(bodies: seq<seq<Mark>>, continues: bool)
    ensures Extend(bodies, [], continues) == bodies
  {
  }

  lemma NoPieces(line: nat, op: Op)
    ensures MarkPieces([], line, op) == []
  {
  }

  lemma FragmentIsLine(fragment: Fragment)
    ensures FragmentMarks(fragment) == MarkLine(fragment.text, fragment.lineNo, fragment.op)
    ensures |FragmentMarks(fragment)| == |fragment.text|
  {
  }

  lemma PieceStep(bodies: seq<seq<Mark>>, pieces: seq<seq<Mark>>, next: seq<Mark>, continues: bool)
    ensures var before := Extend(bodies, pieces, continues);
            Extend(bodies, pieces + [next], continues) ==
            if next == [] then before
            else if pieces == [] && continues && bodies != [] then bodies[..|bodies| - 1] + [bodies[|bodies| - 1] + next]
            else before + [next]
  {
    hide Extend;
    if pieces == [] {
      assert pieces + [next] == [next];
      ExtendFirst(bodies, next, continues);
      ExtendNothing(bodies, continues);
    } else {
      ExtendSnoc(bodies, pieces, next, continues);
    }
  }

  // ---------------------------------------------------------------- a value appended to a text

  /** Whether appended text starts an action of its own: the text so far ends in a slash. */
  predicate EndsInSlash(marks: seq<Mark>)
  {
    marks != [] && IsSlash(marks[|marks| - 1])
  }

  lemma KeptSnoc<T>(front: seq<seq<T>>, last: seq<T>)
    ensures Kept(front + [last]) == if last == [] then Kept(front) else Kept(front) + [last]
  {
    hide Flatten;
    FlattenSnoc(front, last, KeepIfAny);
    assert Kept(front) + [] == Kept(front);
  }

  lemma KeptCons<T>(first: seq<T>, rest: seq<seq<T>>)
    ensures Kept([first] + rest) == if first == [] then Kept(rest) else [first] + Kept(rest)
  {
    assert ([first] + rest)[1..] == rest;
    assert [] + Kept(rest) == Kept(rest);
  }

  /** Extending by pieces continues the last piece with the first, when the text ends inside a piece. */
  lemma ExtendMiddle(
      front: seq<seq<Mark>>, last: seq<Mark>, first: seq<Mark>, rest: seq<seq<Mark>>, continues: bool)
    requires last != [] ==> continues
    requires last == [] && continues ==> Kept(front) == []
    ensures Extend(Kept(front + [last]), [first] + rest, continues) == Kept(front + [last + first]) + Kept(rest)
  {
    hide Kept;
    KeptSnoc(front, last);
    KeptSnoc(front, last + first);
    KeptCons(first, rest);
    assert ([first] + rest)[0] == first && ([first] + rest)[1..] == rest;
    if last == [] {
      assert last + first == first;
      ConcatAssociates(Kept(front), [first], Kept(rest));
    } else if first == [] {
      assert last + first == last;
    } else {
      assert (Kept(front) + [last])[..|Kept(front)|] == Kept(front);
    }
  }

  lemma KeptGlue(left: seq<seq<Mark>>, right: seq<seq<Mark>>)
    requires left != [] && right != []
    ensures var n := |left| - 1;
            Kept(Glue(left, right)) == Kept(left[..n] + [left[n] + right[0]]) + Kept(right[1..])
  {
    hide Flatten;
    var n := |left| - 1;
    FlattenConcat(left[..n] + [left[n] + right[0]], right[1..], KeepIfAny);
  }

  /** Extending the pieces of a text by a value's pieces gives the pieces of the two end to end. */
  lemma ExtendIsConcat(before: seq<Mark>, value: seq<Mark>)
    ensures Extend(Pieces(before), SplitWhere(value, IsSlash), !EndsInSlash(before)) == Pieces(before + value)
  {
    hide SplitWhere, Kept, IsSlash, Glue, Extend;
    var left, right := SplitWhere(before, IsSlash), SplitWhere(value, IsSlash);
    var front, last := left[..|left| - 1], left[|left| - 1];
    SplitConcat(before, value, IsSlash);
    KeptGlue(left, right);
    LastPiece(before, IsSlash);
    assert left == front + [last];
    assert right == [right[0]] + right[1..];
    if before == [] {
      EmptySplit(IsSlash);
      assert front == [];
      KeptNone();
    }
    ExtendMiddle(front, last, right[0], right[1..], !EndsInSlash(before));
  }

  lemma KeptNone()
    ensures Kept<Mark>([]) == []
  {
  }

  lemma EmptySplit<T>(isSep: T -> bool)
    ensures SplitWhere([], isSep) == [[]]
  {
  }

  lemma ReplaceIsPieces(value: seq<Mark>)
    ensures Extend([], SplitWhere(value, IsSlash), false) == Pieces(value)
  {
    hide SplitWhere;
    assert [] + Kept(SplitWhere(value, IsSlash)) == Pieces(value);
  }
}
