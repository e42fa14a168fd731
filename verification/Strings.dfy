/** Python's `str.split` on a one-character separator, and the `join` that undoes it. */
module Strings {
  import opened Sequences

  function Is(sep: char): char -> bool
  {
    c => c == sep
  }

  function Split(s: string, sep: char): (pieces: seq<string>)
    ensures |pieces| >= 1
  {
    SplitWhere(s, Is(sep))
  }

  function Join(pieces: seq<string>, sep: char): string
    requires |pieces| >= 1
  {
    if |pieces| == 1 then pieces[0]
    else pieces[0] + [sep] + Join(pieces[1..], sep)
  }

  /** Splitting loses nothing and leaves no separator inside a piece. */
  lemma {:induction false} JoinSplit(s: string, sep: char)
    ensures Join(Split(s, sep), sep) == s
    ensures forall piece | piece in Split(s, sep) :: sep !in piece
  {
    if s != "" {
      JoinSplit(s[1..], sep);
      var rest := Split(s[1..], sep);
      if s[0] == sep {
        assert Split(s, sep)[1..] == rest;
        assert s == [sep] + s[1..];
      } else {
        assert Split(s, sep)[1..] == rest[1..];
        assert s == [s[0]] + s[1..];
      }
    }
  }

  /** A list of separator-free pieces is recovered from its join. */
  lemma {:induction false} SplitJoin(pieces: seq<string>, sep: char)
    requires |pieces| >= 1
    requires forall piece | piece in pieces :: sep !in piece
    ensures Split(Join(pieces, sep), sep) == pieces
    decreases |pieces|, |pieces[0]|
  {
    var head := pieces[0];
    if |pieces| == 1 {
      SplitWhole(head, sep);
      assert pieces == [head];
    } else if head == "" {
      SplitJoin(pieces[1..], sep);
      assert Join(pieces, sep)[1..] == Join(pieces[1..], sep);
      assert pieces == [""] + pieces[1..];
    } else {
      var shorter := [head[1..]] + pieces[1..];
      assert forall piece | piece in shorter :: sep !in piece by {
        assert forall c | c in head[1..] :: c in head;
      }
      SplitJoin(shorter, sep);
      assert shorter[1..] == pieces[1..];
      assert Join(pieces, sep)[1..] == Join(shorter, sep);
      assert Join(pieces, sep)[0] == head[0];
      assert [head[0]] + head[1..] == head;
      assert pieces == [head] + pieces[1..];
    }
  }

  lemma {:induction false} SplitWhole(s: string, sep: char)
    requires sep !in s
    ensures Split(s, sep) == [s]
  {
    if s != "" {
      assert forall c | c in s[1..] :: c in s;
      SplitWhole(s[1..], sep);
      assert s == [s[0]] + s[1..];
    }
  }

  // ---------------------------------------------------------------- stripping

  /** The characters Python's `str.isspace` accepts, by code point. */
  predicate IsSpace(c: char)
  {
    var code := c as int;
    || 0x09 <= code <= 0x0D || 0x1C <= code <= 0x20 || code == 0x85 || code == 0xA0 || code == 0x1680
    || 0x2000 <= code <= 0x200A || code == 0x2028 || code == 0x2029 || code == 0x202F || code == 0x205F || code == 0x3000
  }

  /** Python's `strip`: what is left once no space leads or trails. */
  function Strip(s: string): (stripped: string)
    ensures stripped != "" ==> !IsSpace(stripped[0]) && !IsSpace(stripped[|stripped| - 1])
    ensures s != "" && !IsSpace(s[0]) && !IsSpace(s[|s| - 1]) ==> stripped == s
  {
    if s == "" then ""
    else if IsSpace(s[0]) then Strip(s[1..])
    else if IsSpace(s[|s| - 1]) then Strip(s[..|s| - 1])
    else s
  }

  ghost predicate Spaces(s: string)
  {
    forall k | 0 <= k < |s| :: IsSpace(s[k])
  }

  ghost predicate Around(s: string, lead: string, bare: string, trail: string)
  {
    Spaces(lead) && Spaces(trail) && s == lead + bare + trail
  }

  /** What is left of a text when the spaces around it are taken away. */
  ghost predicate Bare(s: string, bare: string)
  {
    && (bare != "" ==> !IsSpace(bare[0]) && !IsSpace(bare[|bare| - 1]))
    && exists lead, trail :: Around(s, lead, bare, trail)
  }

  lemma OneMoreSpace(s: string, lead: string, bare: string, trail: string, c: char)
    requires Around(s, lead, bare, trail) && IsSpace(c)
    ensures Around([c] + s, [c] + lead, bare, trail) && Around(s + [c], lead, bare, trail + [c])
  {
    hide IsSpace;
    assert ([c] + lead) + bare + trail == [c] + s;
    assert lead + bare + (trail + [c]) == s + [c];
  }

  lemma NoSpaces(s: string)
    ensures Around(s, "", s, "")
  {
    assert "" + s + "" == s;
  }

  lemma StripSteps(s: string)
    ensures s == "" ==> Strip(s) == ""
    ensures s != "" && IsSpace(s[0]) ==> Strip(s) == Strip(s[1..])
    ensures s != "" && !IsSpace(s[0]) && IsSpace(s[|s| - 1]) ==> Strip(s) == Strip(s[..|s| - 1])
  {
    hide IsSpace;
  }

  lemma StripStops(s: string)
    requires s != "" ==> !IsSpace(s[0]) && !IsSpace(s[|s| - 1])
    ensures Strip(s) == s
  {
    hide IsSpace;
  }

  lemma {:induction false} StripIsBare(s: string)
    ensures Bare(s, Strip(s))
  {
    hide IsSpace, Around, Strip;
    StripSteps(s);
    if s == "" {
      NoSpaces(s);
    } else if IsSpace(s[0]) {
      StripIsBare(s[1..]);
      var lead: string, trail: string :| Around(s[1..], lead, Strip(s[1..]), trail);
      OneMoreSpace(s[1..], lead, Strip(s), trail, s[0]);
      assert s == [s[0]] + s[1..];
    } else if IsSpace(s[|s| - 1]) {
      var front, last := s[..|s| - 1], s[|s| - 1];
      StripIsBare(front);
      var lead: string, trail: string :| Around(front, lead, Strip(front), trail);
      OneMoreSpace(front, lead, Strip(s), trail, last);
      assert s == front + [last];
    } else {
      StripStops(s);
      NoSpaces(s);
    }
  }

  lemma {:induction false} StripSpaces(lead: string, bare: string, trail: string)
    requires Spaces(lead) && Spaces(trail)
    requires bare != "" ==> !IsSpace(bare[0]) && !IsSpace(bare[|bare| - 1])
    ensures Strip(lead + bare + trail) == bare
    decreases |lead| + |trail|
  {
    hide IsSpace, Strip;
    var s := lead + bare + trail;
    StripSteps(s);
    if lead != "" {
      assert s[1..] == lead[1..] + bare + trail;
      StripSpaces(lead[1..], bare, trail);
    } else if trail != "" {
      if bare == "" {
        assert s == trail && s[1..] == "" + bare + trail[1..];
        StripSpaces("", bare, trail[1..]);
      } else {
        assert s[|s| - 1] == trail[|trail| - 1] && s[0] == bare[0];
        assert s[..|s| - 1] == lead + bare + trail[..|trail| - 1];
        StripSpaces(lead, bare, trail[..|trail| - 1]);
      }
    } else {
      assert s == bare;
      StripStops(bare);
    }
  }

  lemma StripIff(s: string, bare: string)
    ensures Strip(s) == bare <==> Bare(s, bare)
  {
    StripIsBare(s);
    if Bare(s, bare) {
      var lead: string, trail: string :| Around(s, lead, bare, trail);
      StripSpaces(lead, bare, trail);
    }
  }
}
