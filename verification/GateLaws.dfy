/**
 The modify-build gate, said over the builds themselves: which talent each build takes at an entry, what the
 unrequested rows are, and what a verified result keeps from the base and from each swap source.
 */
module GateLaws {
  import opened Wrappers
  import opened ModifyBuildGate

  // ---------------------------------------------------------------- what a build takes

  /** Talent `k` is the last of its entry that has a rank, or one that could not be read. */
  ghost predicate LastOf(talents: seq<Talent>, entry: int, k: nat)
  {
    && k < |talents| && talents[k].entry == entry && (talents[k].rank > 0 || !talents[k].rankKnown)
    && forall j | k < j < |talents| && talents[j].entry == entry :: talents[j].rank == 0 && talents[j].rankKnown
  }

  /** What the talents take at an entry; entry 0 stands for none. */
  ghost predicate TakesOf(talents: seq<Talent>, entry: int, found: Option<Talent>)
  {
    match found
    case Some(talent) => entry != 0 && exists k: nat :: LastOf(talents, entry, k) && talents[k] == talent
    case None => entry == 0 || forall k: nat :: !LastOf(talents, entry, k)
  }

  ghost predicate Takes(build: Build, tree: ActiveTree, entry: int, found: Option<Talent>)
  {
    if tree in build then TakesOf(build[tree], entry, found) else found.None?
  }

  function Lookup(entries: Entries, entry: int): Option<Talent>
  {
    if entry in entries then Some(entries[entry]) else None
  }

  lemma LastOfSnoc(front: seq<Talent>, last: Talent, entry: int, k: nat)
    ensures LastOf(front + [last], entry, k) <==>
            if last.entry == entry && last.Taken() then k == |front| else LastOf(front, entry, k)
  {
    var talents := front + [last];
    assert forall j | 0 <= j < |front| :: talents[j] == front[j];
    assert talents[|front|] == last;
    if LastOf(front, entry, k) && !(last.entry == entry && last.Taken()) {
      assert talents[k] == front[k];
    }
  }

  lemma {:induction false} IndexTakes(talents: seq<Talent>, entry: int, found: Option<Talent>)
    ensures TakesOf(talents, entry, found) <==> found == Lookup(ByEntry(talents), entry)
  {
    hide LastOf, ByEntry;
    if talents == [] {
      NothingTaken(entry);
    } else {
      var front, last := talents[..|talents| - 1], talents[|talents| - 1];
      assert talents == front + [last];
      IndexTakes(front, entry, found);
      EntriesSnoc(front, last);
      forall k: nat
        ensures LastOf(talents, entry, k) <==>
                if last.entry == entry && last.Taken() then k == |front| else LastOf(front, entry, k)
      {
        LastOfSnoc(front, last, entry, k);
      }
      if last.entry == entry && last.Taken() {
        assert LastOf(talents, entry, |front|);
      } else {
        TakesLess(front, last, entry, found);
      }
    }
  }

  lemma TakesLess(front: seq<Talent>, last: Talent, entry: int, found: Option<Talent>)
    requires !(last.entry == entry && last.Taken())
    ensures TakesOf(front + [last], entry, found) <==> TakesOf(front, entry, found)
  {
    hide LastOf;
    var talents := front + [last];
    forall k: nat
      ensures LastOf(talents, entry, k) <==> LastOf(front, entry, k)
      ensures LastOf(front, entry, k) ==> k < |front| && talents[k] == front[k]
    {
      LastOfSnoc(front, last, entry, k);
      LastOfInside(front, entry, k);
    }
  }

  lemma LastOfInside(talents: seq<Talent>, entry: int, k: nat)
    ensures LastOf(talents, entry, k) ==> k < |talents|
  {
  }

  lemma NothingTaken(entry: int)
    ensures ByEntry([]) == map[] && forall k: nat :: !LastOf([], entry, k)
  {
  }

  lemma TakesIs(build: Build, tree: ActiveTree, entry: int, found: Option<Talent>)
    ensures Takes(build, tree, entry, found) <==> found == Lookup(ByEntry(TalentsOf(build, tree)), entry)
  {
    hide ByEntry, TakesOf;
    NothingTaken(entry);
    if tree in build {
      IndexTakes(build[tree], entry, found);
    }
  }

  /** Both take the entry, at the same known rank or both at an unread one, or neither takes it. */
  ghost predicate Alike(a: Option<Talent>, b: Option<Talent>)
  {
    (a.Some? <==> b.Some?)
    && (a.Some? ==> a.value.rankKnown == b.value.rankKnown && (a.value.rankKnown ==> a.value.rank == b.value.rank))
  }

  ghost predicate NamedBy(edits: seq<Edit>, tokenize: Tokenizer, tree: ActiveTree, talent: Talent)
  {
    exists k :: 0 <= k < |edits| && edits[k].tree == tree && tokenize(edits[k].value) == talent.token
  }

  ghost predicate ListedBy(edits: seq<Edit>, entry: int)
  {
    exists k :: 0 <= k < |edits| && entry in edits[k].entries
  }

  /** A difference is excused when an edit lists its entry or names the talent the source took, or else the result's. */
  ghost predicate ExcusedAt(
      edits: seq<Edit>, tokenize: Tokenizer, tree: ActiveTree, entry: int, a: Option<Talent>, b: Option<Talent>)
  {
    || ListedBy(edits, entry)
    || (a.Some? && NamedBy(edits, tokenize, tree, a.value))
    || (a.None? && b.Some? && NamedBy(edits, tokenize, tree, b.value))
  }

  /** At every entry of the tree the result takes what the source does, or the difference is excused. */
  ghost predicate KeptFrom(
      source: Build, result: Build, edits: seq<Edit>, tokenize: Tokenizer, tree: ActiveTree)
  {
    forall entry, a, b | Takes(source, tree, entry, a) && Takes(result, tree, entry, b) ::
      Alike(a, b) || ExcusedAt(edits, tokenize, tree, entry, a, b)
  }

  /** The same, where only a listed entry may differ. */
  ghost predicate KeptStrictly(source: Build, result: Build, edits: seq<Edit>, tree: ActiveTree)
  {
    forall entry, a, b | Takes(source, tree, entry, a) && Takes(result, tree, entry, b) ::
      Alike(a, b) || ListedBy(edits, entry)
  }

  lemma SameIsAlike(base: Entries, other: Entries, entry: int)
    ensures SameAt(base, other, entry) <==> Alike(Lookup(base, entry), Lookup(other, entry))
  {
  }

  lemma AsRequestedIs(
      source: Build, result: Build, edits: seq<Edit>, tokenize: Tokenizer, tree: ActiveTree)
    ensures TreeAsRequested(ByEntry(TalentsOf(source, tree)), ByEntry(TalentsOf(result, tree)), edits, tokenize, tree)
            <==> KeptFrom(source, result, edits, tokenize, tree)
  {
    hide ByEntry, TalentsOf, SameAt, Alike, Takes;
    var base, other := ByEntry(TalentsOf(source, tree)), ByEntry(TalentsOf(result, tree));
    forall entry
      ensures AsRequested(base, other, edits, tokenize, tree, entry) <==>
              (Alike(Lookup(base, entry), Lookup(other, entry))
               || ExcusedAt(edits, tokenize, tree, entry, Lookup(base, entry), Lookup(other, entry)))
    {
      SameIsAlike(base, other, entry);
      ExcusesAgree(base, other, edits, tokenize, tree, entry);
    }
    forall entry, found
      ensures Takes(source, tree, entry, found) <==> found == Lookup(base, entry)
      ensures Takes(result, tree, entry, found) <==> found == Lookup(other, entry)
    {
      TakesIs(source, tree, entry, found);
      TakesIs(result, tree, entry, found);
    }
    if KeptFrom(source, result, edits, tokenize, tree) {
      forall entry ensures AsRequested(base, other, edits, tokenize, tree, entry) {
        assert Takes(source, tree, entry, Lookup(base, entry)) && Takes(result, tree, entry, Lookup(other, entry));
      }
    }
  }

  lemma ExcusesAgree(
      base: Entries, other: Entries, edits: seq<Edit>, tokenize: Tokenizer, tree: ActiveTree, entry: int)
    ensures EntryRequested(edits, entry) || NamedAt(base, other, edits, tokenize, tree, entry) <==>
            ExcusedAt(edits, tokenize, tree, entry, Lookup(base, entry), Lookup(other, entry))
  {
  }

  lemma StrictIs(source: Build, result: Build, edits: seq<Edit>, tree: ActiveTree)
    ensures (forall entry ::
               SameAt(ByEntry(TalentsOf(source, tree)), ByEntry(TalentsOf(result, tree)), entry)
               || EntryRequested(edits, entry))
            <==> KeptStrictly(source, result, edits, tree)
  {
    hide ByEntry, TalentsOf, SameAt, Alike, Takes;
    var base, other := ByEntry(TalentsOf(source, tree)), ByEntry(TalentsOf(result, tree));
    forall entry ensures SameAt(base, other, entry) <==> Alike(Lookup(base, entry), Lookup(other, entry)) {
      SameIsAlike(base, other, entry);
    }
    assert forall entry :: EntryRequested(edits, entry) <==> ListedBy(edits, entry);
    forall entry, found
      ensures Takes(source, tree, entry, found) <==> found == Lookup(base, entry)
      ensures Takes(result, tree, entry, found) <==> found == Lookup(other, entry)
    {
      TakesIs(source, tree, entry, found);
      TakesIs(result, tree, entry, found);
    }
    if KeptStrictly(source, result, edits, tree) {
      forall entry ensures SameAt(base, other, entry) || EntryRequested(edits, entry) {
        assert Takes(source, tree, entry, Lookup(base, entry)) && Takes(result, tree, entry, Lookup(other, entry));
      }
    }
  }

  // ---------------------------------------------------------------- the ranks of an edit

  lemma {:induction false} RankAdds(a: seq<Talent>, b: seq<Talent>, entries: set<int>)
    ensures RankTaken(a + b, entries) ==
            if RankTaken(a, entries).None? || RankTaken(b, entries).None? then None
            else Some(RankTaken(a, entries).value + RankTaken(b, entries).value)
  {
    hide RankTaken;
    if b == [] {
      assert a + b == a;
      NoRank(entries);
    } else {
      var front, last := b[..|b| - 1], b[|b| - 1];
      assert b == front + [last];
      assert a + b == (a + front) + [last];
      RankAdds(a, front, entries);
      RankSnoc(front, last, entries);
      RankSnoc(a + front, last, entries);
    }
  }

  lemma NoRank(entries: set<int>)
    ensures RankTaken([], entries) == Some(0)
  {
  }

  /** Rank by rank: a talent counts when its entry is listed and it has a rank, and an unread rank leaves no total. */
  lemma RankOfOne(talent: Talent, entries: set<int>)
    ensures RankTaken([talent], entries) ==
            if talent.entry !in entries then Some(0)
            else if !talent.rankKnown then None
            else Some(talent.rank)
  {
    assert [talent][..0] == [];
  }

  /** The edit's entries hold its rank in the result. */
  ghost predicate Carried(edit: Edit, result: Build)
  {
    if edit.tree in result then RankTaken(result[edit.tree], edit.entries) == Some(edit.rank) else edit.rank == 0
  }

  lemma CarriedIs(edit: Edit, result: Build)
    ensures EditApplied(edit, result) <==> Carried(edit, result)
  {
    NoRank(edit.entries);
  }

  /** The edits at the places, in order: all of the first `count` that the result does not carry. */
  ghost predicate UncarriedAt(edits: seq<Edit>, count: nat, result: Build, places: seq<nat>, unapplied: seq<Edit>)
  {
    && count <= |edits| && |places| == |unapplied|
    && (forall i, j | 0 <= i < j < |places| :: places[i] < places[j])
    && (forall i | 0 <= i < |places| :: places[i] < count && unapplied[i] == edits[places[i]])
    && forall k: nat | k < count :: k in places <==> !Carried(edits[k], result)
  }

  lemma OneMoreUncarried(edits: seq<Edit>, count: nat, result: Build, places: seq<nat>, unapplied: seq<Edit>)
    requires count < |edits| && UncarriedAt(edits, count, result, places, unapplied)
    ensures if Carried(edits[count], result) then UncarriedAt(edits, count + 1, result, places, unapplied)
            else UncarriedAt(edits, count + 1, result, places + [count], unapplied + [edits[count]])
  {
    hide Carried;
    var longer := places + [count];
    assert forall k: nat | k < count + 1 :: k in longer <==> k in places || k == count;
    assert count !in places;
  }

  /** The unapplied edits are those the result does not carry, each once, in the order they were given. */
  lemma {:induction false} UnappliedAre(edits: seq<Edit>, count: nat, result: Build) returns (places: seq<nat>)
    requires count <= |edits|
    ensures UncarriedAt(edits, count, result, places, Unapplied(edits[..count], result))
  {
    hide Carried, UncarriedAt, EditApplied;
    if count == 0 {
      places := [];
      NothingUncarried(edits, result);
    } else {
      var last := count - 1;
      places := UnappliedAre(edits, last, result);
      assert edits[..count][..last] == edits[..last] && edits[..count][last] == edits[last];
      CarriedIs(edits[last], result);
      OneMoreUncarried(edits, last, result, places, Unapplied(edits[..last], result));
      assert Unapplied(edits[..last], result) + [] == Unapplied(edits[..last], result);
      if !Carried(edits[last], result) {
        places := places + [last];
      }
    }
  }

  lemma NothingUncarried(edits: seq<Edit>, result: Build)
    ensures UncarriedAt(edits, 0, result, [], Unapplied(edits[..0], result))
  {
  }

  // ---------------------------------------------------------------- the gate

  /**
   What `verified` means: every swapped tree takes at every entry what its own swap source takes there, every
   other tree what the base takes, but for the differences an edit lists or names; and every edit is carried.
   */
  lemma GateIs(
      base: Build, swaps: map<ActiveTree, Build>, result: Build, edits: seq<Edit>, tokenize: Tokenizer)
    ensures Passes(base, swaps, result, edits, tokenize) <==>
            && (forall tree | tree in swaps :: KeptFrom(swaps[tree], result, edits, tokenize, tree))
            && (forall tree | tree !in swaps :: KeptFrom(base, result, edits, tokenize, tree))
            && forall k | 0 <= k < |edits| :: Carried(edits[k], result)
  {
    hide Passes, TreeAsRequested, ByEntry, KeptFrom, EditApplied, Carried, TalentsOf;
    GateMeans(base, swaps, result, edits, tokenize);
    forall tree: ActiveTree
      ensures TreeAsRequested(Intended(base, swaps, tree), ByEntry(TalentsOf(result, tree)), edits, tokenize, tree)
              <==> KeptFrom(if tree in swaps then swaps[tree] else base, result, edits, tokenize, tree)
    {
      AsRequestedIs(if tree in swaps then swaps[tree] else base, result, edits, tokenize, tree);
    }
    forall k | 0 <= k < |edits| {
      CarriedIs(edits[k], result);
    }
  }

  /** Nothing else changed: the same, where only listed entries may differ. */
  lemma StrictMeans(base: Build, swaps: map<ActiveTree, Build>, result: Build, edits: seq<Edit>)
    ensures Strict(base, swaps, result, edits) <==>
            && (forall tree | tree in swaps :: KeptStrictly(swaps[tree], result, edits, tree))
            && (forall tree | tree !in swaps :: KeptStrictly(base, result, edits, tree))
  {
    hide ByEntry, KeptStrictly, SameAt, EntryRequested, TalentsOf;
    forall tree: ActiveTree
      ensures (forall entry ::
                 SameAt(Intended(base, swaps, tree), ByEntry(TalentsOf(result, tree)), entry)
                 || EntryRequested(edits, entry))
              <==> KeptStrictly(if tree in swaps then swaps[tree] else base, result, edits, tree)
    {
      StrictIs(if tree in swaps then swaps[tree] else base, result, edits, tree);
    }
  }

  // ---------------------------------------------------------------- the rows

  /** What a row shows of a difference between what the source takes and what the result takes. */
  ghost predicate Differs(row: ChangeRow, a: Option<Talent>, b: Option<Talent>)
  {
    && !Alike(a, b)
    && (a.None? ==> row.change == Added && b == Some(row.talent))
    && (b.None? ==> row.change == Removed && a == Some(row.talent))
    && (a.Some? && b.Some? ==> row.change == Changed && a == Some(row.talent))
  }

  /** A row of a tree's comparison: source and result differ at its entry. */
  ghost predicate RowShows(source: Build, result: Build, row: ChangeRow)
  {
    exists a, b ::
      Takes(source, row.tree, row.talent.entry, a) && Takes(result, row.tree, row.talent.entry, b) && Differs(row, a, b)
  }

  function TreeNumber(tree: ActiveTree): nat
  {
    match tree case ClassTalents => 0 case SpecTalents => 1 case HeroTalents => 2
  }

  function ChangeNumber(change: Change): nat
  {
    match change case Added => 0 case Removed => 1 case Changed => 2
  }

  /** Rows come by tree, within a tree by kind of change, within a kind by entry. */
  ghost predicate Precedes(a: ChangeRow, b: ChangeRow)
  {
    || TreeNumber(a.tree) < TreeNumber(b.tree)
    || (a.tree == b.tree
        && (ChangeNumber(a.change) < ChangeNumber(b.change)
            || (a.change == b.change && a.talent.entry < b.talent.entry)))
  }

  ghost predicate RowsInOrder(rows: seq<ChangeRow>)
  {
    forall i, j | 0 <= i < j < |rows| :: Precedes(rows[i], rows[j])
  }

  /** Row `k` of a tree's diff: the added ids' talents, then the removed ids', then the changed ids' in the base. */
  ghost predicate RowFrom(tree: ActiveTree, base: Entries, other: Entries, k: nat, row: ChangeRow)
  {
    var added, removed, changed := AddedIds(base, other), AddedIds(other, base), ChangedIds(base, other);
    var a, r := |added|, |added| + |removed|;
    && (k < a ==> added[k] in other && row == ChangeRow(tree, Added, other[added[k]]))
    && (a <= k < r ==> removed[k - a] in base && row == ChangeRow(tree, Removed, base[removed[k - a]]))
    && (r <= k < r + |changed| ==> changed[k - r] in base && row == ChangeRow(tree, Changed, base[changed[k - r]]))
  }

  lemma RowsFrom(tree: ActiveTree, base: Entries, other: Entries)
    requires Keyed(base) && Keyed(other)
    ensures var rows := DiffRows(tree, DiffOf(base, other));
            && |rows| == |AddedIds(base, other)| + |AddedIds(other, base)| + |ChangedIds(base, other)|
            && forall k | 0 <= k < |rows| :: RowFrom(tree, base, other, k, rows[k])
  {
    hide AddedIds, ChangedIds, DiffRows, RowFrom;
    var diff := DiffOf(base, other);
    var rows := DiffRows(tree, diff);
    RowsOfParts(tree, diff);
    var a, r := |diff.added|, |diff.added| + |diff.removed|;
    forall k | 0 <= k < |rows| ensures RowFrom(tree, base, other, k, rows[k]) {
      if k < a {
        assert rows[k] == ChangeRow(tree, Added, diff.added[k]);
        AddedRow(tree, base, other, k);
      } else if k < r {
        assert rows[a + (k - a)] == ChangeRow(tree, Removed, diff.removed[k - a]);
        RemovedRow(tree, base, other, k - a);
      } else {
        assert rows[r + (k - r)] == ChangeRow(tree, Changed, diff.changed[k - r].0);
        ChangedRow(tree, base, other, k - r);
      }
    }
  }

  lemma AddedRow(tree: ActiveTree, base: Entries, other: Entries, k: nat)
    requires k < |AddedIds(base, other)|
    ensures RowFrom(tree, base, other, k, ChangeRow(tree, Added, DiffOf(base, other).added[k]))
  {
    hide AddedIds, ChangedIds;
  }

  lemma RemovedRow(tree: ActiveTree, base: Entries, other: Entries, k: nat)
    requires k < |AddedIds(other, base)|
    ensures RowFrom(tree, base, other, |AddedIds(base, other)| + k,
                    ChangeRow(tree, Removed, DiffOf(base, other).removed[k]))
  {
    hide AddedIds, ChangedIds;
  }

  lemma ChangedRow(tree: ActiveTree, base: Entries, other: Entries, k: nat)
    requires k < |ChangedIds(base, other)|
    ensures RowFrom(tree, base, other, |AddedIds(base, other)| + |AddedIds(other, base)| + k,
                    ChangeRow(tree, Changed, DiffOf(base, other).changed[k].0))
  {
    hide AddedIds, ChangedIds;
    assert RankDiffers(base, other, ChangedIds(base, other)[k]);
  }

  lemma RowsPrecede(
      tree: ActiveTree, base: Entries, other: Entries, i: nat, j: nat, first: ChangeRow, second: ChangeRow)
    requires Keyed(base) && Keyed(other)
    requires i < j < |AddedIds(base, other)| + |AddedIds(other, base)| + |ChangedIds(base, other)|
    requires RowFrom(tree, base, other, i, first) && RowFrom(tree, base, other, j, second)
    ensures Precedes(first, second)
  {
    hide AddedIds, ChangedIds;
  }

  lemma TreeRowsInOrder(tree: ActiveTree, base: Entries, other: Entries)
    requires Keyed(base) && Keyed(other)
    ensures RowsInOrder(DiffRows(tree, DiffOf(base, other)))
  {
    hide AddedIds, ChangedIds, DiffRows, DiffOf, RowFrom, Precedes;
    var rows := DiffRows(tree, DiffOf(base, other));
    RowsFrom(tree, base, other);
    forall i, j | 0 <= i < j < |rows| ensures Precedes(rows[i], rows[j]) {
      RowsPrecede(tree, base, other, i, j, rows[i], rows[j]);
    }
  }

  lemma RowFromDiffers(tree: ActiveTree, base: Entries, other: Entries, k: nat, row: ChangeRow)
    requires Keyed(base) && Keyed(other) && RowFrom(tree, base, other, k, row)
    requires k < |AddedIds(base, other)| + |AddedIds(other, base)| + |ChangedIds(base, other)|
    ensures row.tree == tree && Differs(row, Lookup(base, row.talent.entry), Lookup(other, row.talent.entry))
  {
    hide AddedIds, ChangedIds;
    var r := |AddedIds(base, other)| + |AddedIds(other, base)|;
    if r <= k {
      assert RankDiffers(base, other, ChangedIds(base, other)[k - r]);
    }
  }

  lemma DifferingRow(tree: ActiveTree, base: Entries, other: Entries, row: ChangeRow)
    requires Keyed(base) && Keyed(other) && row.tree == tree
    requires Differs(row, Lookup(base, row.talent.entry), Lookup(other, row.talent.entry))
    ensures row in DiffRows(tree, DiffOf(base, other))
  {
    hide AddedIds, ChangedIds, DiffRows, DiffOf, RowFrom;
    var entry := row.talent.entry;
    SameIsAlike(base, other, entry);
    var k := RowOfDifference(tree, base, other, entry);
    RowsFrom(tree, base, other);
    var found := DiffRows(tree, DiffOf(base, other))[k];
    RowFromDiffers(tree, base, other, k, found);
    OneRow(found, row, Lookup(base, entry), Lookup(other, entry));
  }

  lemma OneRow(x: ChangeRow, y: ChangeRow, a: Option<Talent>, b: Option<Talent>)
    requires x.tree == y.tree && Differs(x, a, b) && Differs(y, a, b)
    ensures x == y
  {
  }

  lemma DiffRowShows(tree: ActiveTree, base: Entries, other: Entries, row: ChangeRow)
    requires Keyed(base) && Keyed(other)
    ensures row in DiffRows(tree, DiffOf(base, other)) <==>
            row.tree == tree && Differs(row, Lookup(base, row.talent.entry), Lookup(other, row.talent.entry))
  {
    hide DiffRows, DiffOf, RowFrom, Differs, Lookup, Keyed;
    var rows := DiffRows(tree, DiffOf(base, other));
    RowsFrom(tree, base, other);
    if row in rows {
      var k :| 0 <= k < |rows| && rows[k] == row;
      RowFromDiffers(tree, base, other, k, row);
    }
    if row.tree == tree && Differs(row, Lookup(base, row.talent.entry), Lookup(other, row.talent.entry)) {
      DifferingRow(tree, base, other, row);
    }
  }

  ghost function SourceOf(base: Build, swaps: map<ActiveTree, Build>, tree: ActiveTree): (source: Build)
    ensures tree in swaps ==> source == swaps[tree]
    ensures tree !in swaps ==> source == base
  {
    if tree in swaps then swaps[tree] else base
  }

  lemma TreeRowShows(base: Build, swaps: map<ActiveTree, Build>, result: Build, tree: ActiveTree, row: ChangeRow)
    ensures row in RequestRows(base, swaps, result, tree) <==>
            row.tree == tree && RowShows(SourceOf(base, swaps, tree), result, row)
  {
    hide ByEntry, DiffRows, DiffOf, Takes, Alike, TalentsOf;
    var source := SourceOf(base, swaps, tree);
    var before, after := ByEntry(TalentsOf(source, tree)), ByEntry(TalentsOf(result, tree));
    ByEntryKeyed(TalentsOf(source, tree));
    ByEntryKeyed(TalentsOf(result, tree));
    DiffRowShows(tree, before, after, row);
    forall found
      ensures Takes(source, tree, row.talent.entry, found) <==> found == Lookup(before, row.talent.entry)
      ensures Takes(result, tree, row.talent.entry, found) <==> found == Lookup(after, row.talent.entry)
    {
      TakesIs(source, tree, row.talent.entry, found);
      TakesIs(result, tree, row.talent.entry, found);
    }
    assert row.tree == tree ==>
      Takes(source, tree, row.talent.entry, Lookup(before, row.talent.entry))
      && Takes(result, tree, row.talent.entry, Lookup(after, row.talent.entry));
  }

  lemma TreeRowsOrdered(base: Build, swaps: map<ActiveTree, Build>, result: Build, tree: ActiveTree)
    ensures RowsInOrder(RequestRows(base, swaps, result, tree))
  {
    hide ByEntry, DiffRows, DiffOf, Precedes, TalentsOf;
    ByEntryKeyed(TalentsOf(SourceOf(base, swaps, tree), tree));
    ByEntryKeyed(TalentsOf(result, tree));
    TreeRowsInOrder(tree, Intended(base, swaps, tree), ByEntry(TalentsOf(result, tree)));
  }

  lemma {:induction false} UnexcusedIn(edits: seq<Edit>, tokenize: Tokenizer, rows: seq<ChangeRow>)
    ensures forall row ::
              row in Unexcused(edits, tokenize, rows) <==>
              row in rows && !ListedBy(edits, row.talent.entry) && !NamedBy(edits, tokenize, row.tree, row.talent)
    ensures RowsInOrder(rows) ==> RowsInOrder(Unexcused(edits, tokenize, rows))
  {
    hide Precedes, NamedBy, ListedBy;
    if rows != [] {
      var front, last := rows[..|rows| - 1], rows[|rows| - 1];
      assert rows == front + [last];
      UnexcusedIn(edits, tokenize, front);
      ExcusedRaw(edits, tokenize, last);
      if RowsInOrder(rows) {
        var kept := Unexcused(edits, tokenize, front);
        assert RowsInOrder(front);
        forall i | 0 <= i < |kept| ensures Precedes(kept[i], last) {
          assert kept[i] in kept && kept[i] in front;
          var j :| 0 <= j < |front| && front[j] == kept[i];
          assert rows[j] == front[j] && rows[|rows| - 1] == last;
        }
      }
    }
  }

  lemma ExcusedRaw(edits: seq<Edit>, tokenize: Tokenizer, row: ChangeRow)
    ensures Excused(edits, tokenize, row) <==>
            ListedBy(edits, row.talent.entry) || NamedBy(edits, tokenize, row.tree, row.talent)
  {
  }

  lemma ThreeInOrder(a: seq<ChangeRow>, b: seq<ChangeRow>, c: seq<ChangeRow>)
    requires RowsInOrder(a) && RowsInOrder(b) && RowsInOrder(c)
    requires forall row | row in a :: row.tree == ClassTalents
    requires forall row | row in b :: row.tree == SpecTalents
    requires forall row | row in c :: row.tree == HeroTalents
    ensures RowsInOrder(a + b + c)
  {
    var rows := a + b + c;
    forall i, j | 0 <= i < j < |rows| ensures Precedes(rows[i], rows[j]) {
      assert i < |a| ==> rows[i] == a[i] && rows[i] in a;
      assert |a| <= i < |a| + |b| ==> rows[i] == b[i - |a|] && rows[i] in b;
      assert |a| + |b| <= i ==> rows[i] == c[i - |a| - |b|];
      assert j < |a| ==> rows[j] == a[j];
      assert |a| <= j < |a| + |b| ==> rows[j] == b[j - |a|] && rows[j] in b;
      assert |a| + |b| <= j ==> rows[j] == c[j - |a| - |b|] && rows[j] in c;
    }
  }

  /**
   The unrequested rows are exactly the differences from the swap source of a swapped tree, or else from the
   base, that no edit lists or names: each once, by tree, by kind of change and by entry.
   */
  lemma UnrequestedAre(
      base: Build, swaps: map<ActiveTree, Build>, result: Build, edits: seq<Edit>, tokenize: Tokenizer)
    ensures var rows := Unexcused(edits, tokenize, AllRequestRows(base, swaps, result));
            && RowsInOrder(rows)
            && forall row :: row in rows <==>
                 && RowShows(if row.tree in swaps then swaps[row.tree] else base, result, row)
                 && !ListedBy(edits, row.talent.entry) && !NamedBy(edits, tokenize, row.tree, row.talent)
  {
    hide Unexcused, RequestRows, RowShows, Precedes, NamedBy, ListedBy, RowsInOrder;
    UnexcusedIn(edits, tokenize, AllRequestRows(base, swaps, result));
    forall tree, row
      ensures row in RequestRows(base, swaps, result, tree) <==>
              row.tree == tree && RowShows(SourceOf(base, swaps, tree), result, row)
    {
      TreeRowShows(base, swaps, result, tree, row);
    }
    forall tree ensures RowsInOrder(RequestRows(base, swaps, result, tree)) {
      TreeRowsOrdered(base, swaps, result, tree);
    }
    ThreeInOrder(
      RequestRows(base, swaps, result, ClassTalents), RequestRows(base, swaps, result, SpecTalents),
      RequestRows(base, swaps, result, HeroTalents));
  }
}
