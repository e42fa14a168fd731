/**
 The gate in front of a modified build: an encoder nobody trusts re-serializes the build, the result is
 decoded, and it is let through only when it differs from what was asked for in nothing but the edits.
 */
module ModifyBuildGate {
  import opened Wrappers
  import opened IdOrder

  // ---------------------------------------------------------------- talents and diffs

  datatype Talent = Talent(name: string, token: string, rank: nat, maxRank: nat, entry: int, rankKnown: bool)
  {
    /** A talent whose rank could not be read still counts as taken. */
    predicate Taken()
    {
      rank > 0 || !rankKnown
    }

    function KnownRank(): Option<nat>
    {
      if rankKnown then Some(rank) else None
    }
  }

  type Entries = map<int, Talent>

  /** The taken talents by entry id; a later talent of the same entry replaces an earlier one. */
  function ByEntry(talents: seq<Talent>): (entries: Entries)
    ensures forall e | e in entries :: e != 0 && entries[e].entry == e && entries[e].Taken() && entries[e] in talents
    ensures forall t | t in talents && t.Taken() && t.entry != 0 :: t.entry in entries
  {
    if talents == [] then map[]
    else
      var last := talents[|talents| - 1];
      var before := ByEntry(talents[..|talents| - 1]);
      if last.Taken() && last.entry != 0 then before[last.entry := last] else before
  }

  method IndexByEntry(talents: seq<Talent>) returns (entries: Entries)
    ensures entries == ByEntry(talents)
  {
    entries := map[];
    assert talents[..|talents|] == talents;
    for k := 0 to |talents|
      invariant entries == ByEntry(talents[..k])
    {
      assert talents[..k + 1][..k] == talents[..k];
      if talents[k].Taken() && talents[k].entry != 0 {
        entries := entries[talents[k].entry := talents[k]];
      }
    }
  }

  datatype TreeDiff = TreeDiff(added: seq<Talent>, removed: seq<Talent>, changed: seq<(Talent, Talent)>)
  {
    predicate Empty()
    {
      added == [] && removed == [] && changed == []
    }
  }

  function Pick(ids: seq<int>, entries: Entries): (talents: seq<Talent>)
    requires forall k | 0 <= k < |ids| :: ids[k] in entries
    ensures |talents| == |ids| && forall k | 0 <= k < |ids| :: talents[k] == entries[ids[k]]
  {
    seq(|ids|, k requires 0 <= k < |ids| => entries[ids[k]])
  }

  predicate RankDiffers(base: Entries, other: Entries, id: int)
  {
    id in base && id in other && base[id].KnownRank() != other[id].KnownRank()
  }

  function AddedIds(base: Entries, other: Entries): (ids: seq<int>)
    ensures Ascending(ids) && forall id :: id in ids <==> id in other && id !in base
    ensures forall k | 0 <= k < |ids| :: ids[k] in other && ids[k] !in base
  {
    var ids := Sorted(other.Keys - base.Keys);
    assert forall id :: id in ids <==> id in other.Keys - base.Keys;
    assert forall k | 0 <= k < |ids| :: ids[k] in other.Keys - base.Keys;
    ids
  }

  function ChangedIds(base: Entries, other: Entries): (ids: seq<int>)
    ensures Ascending(ids) && forall id :: id in ids <==> RankDiffers(base, other, id)
    ensures forall k | 0 <= k < |ids| :: RankDiffers(base, other, ids[k])
  {
    var changed := set id | id in base && RankDiffers(base, other, id);
    var ids := Sorted(changed);
    assert forall id :: id in ids <==> id in changed;
    assert forall k | 0 <= k < |ids| :: ids[k] in changed;
    ids
  }

  function Pairs(ids: seq<int>, base: Entries, other: Entries): (pairs: seq<(Talent, Talent)>)
    requires forall k | 0 <= k < |ids| :: ids[k] in base && ids[k] in other
    ensures |pairs| == |ids| && forall k | 0 <= k < |ids| :: pairs[k] == (base[ids[k]], other[ids[k]])
  {
    seq(|ids|, k requires 0 <= k < |ids| => (base[ids[k]], other[ids[k]]))
  }

  /** The diff by entry, each part in entry order. */
  function DiffOf(base: Entries, other: Entries): TreeDiff
  {
    TreeDiff(
      Pick(AddedIds(base, other), other), Pick(AddedIds(other, base), base),
      Pairs(ChangedIds(base, other), base, other))
  }

  method ChangedTalents(base: Entries, other: Entries) returns (changed: seq<(Talent, Talent)>)
    ensures changed == DiffOf(base, other).changed
  {
    hide Sorted;
    var shared := Sorted(base.Keys * other.Keys);
    changed := [];
    ghost var kept: seq<int> := [];
    assert shared[..|shared|] == shared;
    for k := 0 to |shared|
      invariant Ascending(kept)
      invariant forall id :: id in kept <==> id in shared[..k] && RankDiffers(base, other, id)
      invariant forall j | 0 <= j < |kept| :: kept[j] in base && kept[j] in other
      invariant changed == Pairs(kept, base, other)
    {
      var id := shared[k];
      assert shared[..k + 1] == shared[..k] + [id];
      if base[id].KnownRank() != other[id].KnownRank() {
        changed := changed + [(base[id], other[id])];
        forall j | 0 <= j < |kept| ensures kept[j] < id {
          assert kept[j] in kept;
        }
        kept := kept + [id];
      }
    }
    forall id ensures id in kept <==> id in ChangedIds(base, other) {
      assert id in shared <==> id in base.Keys * other.Keys;
    }
    AscendingUnique(kept, ChangedIds(base, other));
  }

  method DiffTalentTrees(baseTalents: seq<Talent>, otherTalents: seq<Talent>) returns (diff: TreeDiff)
    ensures diff == DiffOf(ByEntry(baseTalents), ByEntry(otherTalents))
  {
    hide AddedIds, ChangedIds, ByEntry;
    var base := IndexByEntry(baseTalents);
    var other := IndexByEntry(otherTalents);
    var changed := ChangedTalents(base, other);
    diff := TreeDiff(Pick(AddedIds(base, other), other), Pick(AddedIds(other, base), base), changed);
  }

  // ---------------------------------------------------------------- the diff is exact

  /** What is taken and at which known rank, entry by entry. */
  function RankAt(entries: Entries, id: int): Option<Option<nat>>
  {
    if id in entries then Some(entries[id].KnownRank()) else None
  }

  ghost predicate SameAt(base: Entries, other: Entries, id: int)
  {
    RankAt(base, id) == RankAt(other, id)
  }

  /** An entry shows up in the diff exactly when it differs. */
  lemma DiffNamesDifferences(base: Entries, other: Entries, id: int)
    ensures !SameAt(base, other, id) <==>
            id in AddedIds(base, other) || id in AddedIds(other, base) || id in ChangedIds(base, other)
  {
    hide AddedIds, ChangedIds;
  }

  lemma FirstListed<T>(ids: seq<T>) returns (id: T)
    requires ids != []
    ensures id in ids
  {
    id := ids[0];
  }

  /** The diff is empty exactly when both sides take the same entries at the same known ranks. */
  lemma EmptyDiffIffSame(base: Entries, other: Entries)
    ensures DiffOf(base, other).Empty() <==> forall id :: SameAt(base, other, id)
  {
    hide SameAt, AddedIds, ChangedIds;
    var added, removed, changed := AddedIds(base, other), AddedIds(other, base), ChangedIds(base, other);
    if DiffOf(base, other).Empty() {
      forall id ensures SameAt(base, other, id) {
        DiffNamesDifferences(base, other, id);
      }
    }
    if forall id :: SameAt(base, other, id) {
      forall id ensures id !in added && id !in removed && id !in changed {
        DiffNamesDifferences(base, other, id);
      }
      if added != [] { var id := FirstListed(added); }
      if removed != [] { var id := FirstListed(removed); }
      if changed != [] { var id := FirstListed(changed); }
    }
  }

  predicate Carries(talents: seq<Talent>, id: int)
  {
    exists k :: 0 <= k < |talents| && talents[k].entry == id
  }

  predicate CarriesChange(changed: seq<(Talent, Talent)>, id: int)
  {
    exists k :: 0 <= k < |changed| && changed[k].1.entry == id
  }

  /** The entries once a diff is applied: removed ones gone, added and changed ones as in the diff. */
  ghost predicate Applied(base: Entries, diff: TreeDiff, id: int, rank: Option<Option<nat>>)
  {
    if Carries(diff.removed, id) then rank == None
    else if Carries(diff.added, id) then
      exists k :: 0 <= k < |diff.added| && diff.added[k].entry == id && rank == Some(diff.added[k].KnownRank())
    else if CarriesChange(diff.changed, id) then
      exists k :: 0 <= k < |diff.changed| && diff.changed[k].1.entry == id && rank == Some(diff.changed[k].1.KnownRank())
    else rank == RankAt(base, id)
  }

  ghost predicate Keyed(entries: Entries)
  {
    forall e | e in entries :: entries[e].entry == e
  }

  lemma CarriesPicked(ids: seq<int>, entries: Entries, id: int)
    requires Keyed(entries) && forall k | 0 <= k < |ids| :: ids[k] in entries
    ensures Carries(Pick(ids, entries), id) <==> id in ids
  {
    assert forall k | 0 <= k < |ids| :: Pick(ids, entries)[k].entry == ids[k];
  }

  lemma ChangedAt(base: Entries, other: Entries, id: int) returns (k: nat)
    requires Keyed(base) && Keyed(other) && RankDiffers(base, other, id)
    ensures var changed := DiffOf(base, other).changed;
            k < |changed| && changed[k] == (base[id], other[id])
  {
    hide ChangedIds, AddedIds;
    k := IndexOf(ChangedIds(base, other), id);
  }

  lemma ChangeIsDifference(base: Entries, other: Entries, k: nat)
    requires Keyed(base) && Keyed(other) && k < |DiffOf(base, other).changed|
    ensures var id := DiffOf(base, other).changed[k].1.entry;
            RankDiffers(base, other, id) && DiffOf(base, other).changed[k] == (base[id], other[id])
  {
    hide ChangedIds, AddedIds;
    assert RankDiffers(base, other, ChangedIds(base, other)[k]);
  }

  /** Applying the diff to the base gives the other side, at every entry. */
  lemma DiffApplies(base: Entries, other: Entries, id: int)
    requires Keyed(base) && Keyed(other)
    ensures Applied(base, DiffOf(base, other), id, RankAt(other, id))
  {
    hide AddedIds, ChangedIds;
    var diff := DiffOf(base, other);
    var removedIds, addedIds := AddedIds(other, base), AddedIds(base, other);
    CarriesPicked(removedIds, base, id);
    CarriesPicked(addedIds, other, id);
    DiffNamesDifferences(base, other, id);
    if RankDiffers(base, other, id) {
      var k := ChangedAt(base, other, id);
      assert diff.changed[k].1.entry == id;
    }
    if CarriesChange(diff.changed, id) {
      var k :| 0 <= k < |diff.changed| && diff.changed[k].1.entry == id;
      ChangeIsDifference(base, other, k);
    }
    if id in addedIds {
      var k := IndexOf(addedIds, id);
      assert diff.added[k].entry == id;
    }
  }

  // ---------------------------------------------------------------- edits and excuses

  datatype ActiveTree = ClassTalents | SpecTalents | HeroTalents

  /** A decoded build: its talents per tree; a tree it lacks has none. */
  type Build = map<ActiveTree, seq<Talent>>

  function TalentsOf(build: Build, tree: ActiveTree): seq<Talent>
  {
    if tree in build then build[tree] else []
  }

  /** One `--add` or `--remove`: the tree, the name or id asked for, the rank wanted (0 to remove), its entries. */
  datatype Edit = Edit(tree: ActiveTree, value: string, rank: nat, entries: set<int>)

  /** How SimC tokenizes a talent name. */
  type Tokenizer = string -> string

  datatype Change = Added | Removed | Changed

  /** A row of the diff payload, with the entry and token it is known by. */
  datatype ChangeRow = ChangeRow(tree: ActiveTree, change: Change, talent: Talent)

  function RowsFor(tree: ActiveTree, change: Change, talents: seq<Talent>): (rows: seq<ChangeRow>)
    ensures |rows| == |talents|
    ensures forall k | 0 <= k < |talents| :: rows[k] == ChangeRow(tree, change, talents[k])
  {
    seq(|talents|, k requires 0 <= k < |talents| => ChangeRow(tree, change, talents[k]))
  }

  function Firsts(changed: seq<(Talent, Talent)>): (bases: seq<Talent>)
    ensures |bases| == |changed| && forall k | 0 <= k < |changed| :: bases[k] == changed[k].0
  {
    seq(|changed|, k requires 0 <= k < |changed| => changed[k].0)
  }

  /** The rows of a tree's diff: added, removed, and changed under the base's name. */
  function DiffRows(tree: ActiveTree, diff: TreeDiff): seq<ChangeRow>
  {
    RowsFor(tree, Added, diff.added) + RowsFor(tree, Removed, diff.removed)
    + RowsFor(tree, Changed, Firsts(diff.changed))
  }

  ghost predicate EntryRequested(edits: seq<Edit>, entry: int)
  {
    exists k :: 0 <= k < |edits| && entry in edits[k].entries
  }

  ghost predicate NameRequested(edits: seq<Edit>, tokenize: Tokenizer, tree: ActiveTree, token: string)
  {
    exists k :: 0 <= k < |edits| && edits[k].tree == tree && tokenize(edits[k].value) == token
  }

  ghost predicate Excused(edits: seq<Edit>, tokenize: Tokenizer, row: ChangeRow)
  {
    EntryRequested(edits, row.talent.entry) || NameRequested(edits, tokenize, row.tree, row.talent.token)
  }

  method CollectRequested(edits: seq<Edit>, tokenize: Tokenizer)
    returns (entries: set<int>, names: set<(ActiveTree, string)>)
    ensures forall entry :: entry in entries <==> EntryRequested(edits, entry)
    ensures forall tree, token :: (tree, token) in names <==> NameRequested(edits, tokenize, tree, token)
  {
    entries, names := {}, {};
    for k := 0 to |edits|
      invariant forall entry :: entry in entries <==> exists j :: 0 <= j < k && entry in edits[j].entries
      invariant forall tree, token :: (tree, token) in names <==>
        exists j :: 0 <= j < k && edits[j].tree == tree && tokenize(edits[j].value) == token
    {
      entries := entries + edits[k].entries;
      names := names + {(edits[k].tree, tokenize(edits[k].value))};
    }
  }

  /** The rows nobody asked for, in payload order. */
  ghost function Unexcused(edits: seq<Edit>, tokenize: Tokenizer, rows: seq<ChangeRow>): seq<ChangeRow>
  {
    if rows == [] then []
    else
      var last := rows[|rows| - 1];
      Unexcused(edits, tokenize, rows[..|rows| - 1]) + if Excused(edits, tokenize, last) then [] else [last]
  }

  lemma {:induction false} NothingUnexcused(edits: seq<Edit>, tokenize: Tokenizer, rows: seq<ChangeRow>)
    ensures Unexcused(edits, tokenize, rows) == [] <==> forall k | 0 <= k < |rows| :: Excused(edits, tokenize, rows[k])
  {
    if rows != [] {
      NothingUnexcused(edits, tokenize, rows[..|rows| - 1]);
      assert forall k | 0 <= k < |rows| - 1 :: rows[..|rows| - 1][k] == rows[k];
    }
  }

  /** The build a tree is checked against: its swap source, or the base. */
  function Intended(base: Build, swaps: map<ActiveTree, Build>, tree: ActiveTree): Entries
  {
    ByEntry(TalentsOf(if tree in swaps then swaps[tree] else base, tree))
  }

  function RequestRows(base: Build, swaps: map<ActiveTree, Build>, result: Build, tree: ActiveTree): seq<ChangeRow>
  {
    DiffRows(tree, DiffOf(Intended(base, swaps, tree), ByEntry(TalentsOf(result, tree))))
  }

  function AllRequestRows(base: Build, swaps: map<ActiveTree, Build>, result: Build): seq<ChangeRow>
  {
    RequestRows(base, swaps, result, ClassTalents) + RequestRows(base, swaps, result, SpecTalents)
    + RequestRows(base, swaps, result, HeroTalents)
  }

  method UnrequestedChanges(
      base: Build, swaps: map<ActiveTree, Build>, result: Build, edits: seq<Edit>, tokenize: Tokenizer)
    returns (unrequested: seq<ChangeRow>)
    ensures unrequested == Unexcused(edits, tokenize, AllRequestRows(base, swaps, result))
  {
    hide DiffOf, DiffRows, ByEntry, Excused;
    var entries, names := CollectRequested(edits, tokenize);
    var rows: seq<ChangeRow> := [];
    var trees := [ClassTalents, SpecTalents, HeroTalents];
    for i := 0 to 3
      invariant rows == if i == 0 then [] else if i == 1 then RequestRows(base, swaps, result, ClassTalents)
                        else if i == 2 then RequestRows(base, swaps, result, ClassTalents)
                                            + RequestRows(base, swaps, result, SpecTalents)
                        else AllRequestRows(base, swaps, result)
    {
      var tree := trees[i];
      var diff := DiffTalentTrees(
        TalentsOf(if tree in swaps then swaps[tree] else base, tree), TalentsOf(result, tree));
      rows := rows + DiffRows(tree, diff);
    }
    unrequested := [];
    assert rows[..|rows|] == rows;
    for k := 0 to |rows|
      invariant unrequested == Unexcused(edits, tokenize, rows[..k])
    {
      assert rows[..k + 1][..k] == rows[..k];
      ExcusedIs(edits, tokenize, rows[k]);
      if rows[k].talent.entry !in entries && (rows[k].tree, rows[k].talent.token) !in names {
        unrequested := unrequested + [rows[k]];
      }
    }
  }

  lemma ExcusedIs(edits: seq<Edit>, tokenize: Tokenizer, row: ChangeRow)
    ensures Excused(edits, tokenize, row) <==>
            EntryRequested(edits, row.talent.entry) || NameRequested(edits, tokenize, row.tree, row.talent.token)
  {
  }

  // ---------------------------------------------------------------- applied edits

  /** The total rank of the taken talents of some entries; nothing when one of their ranks is unknown. */
  function RankTaken(talents: seq<Talent>, entries: set<int>): Option<nat>
  {
    if talents == [] then Some(0)
    else
      var last := talents[|talents| - 1];
      var before := RankTaken(talents[..|talents| - 1], entries);
      if !(last.Taken() && last.entry in entries) then before
      else if before.None? || !last.rankKnown then None
      else Some(before.value + last.rank)
  }

  predicate EditApplied(edit: Edit, result: Build)
  {
    RankTaken(TalentsOf(result, edit.tree), edit.entries) == Some(edit.rank)
  }

  ghost function Unapplied(edits: seq<Edit>, result: Build): seq<Edit>
  {
    if edits == [] then []
    else
      var last := edits[|edits| - 1];
      Unapplied(edits[..|edits| - 1], result) + if EditApplied(last, result) then [] else [last]
  }

  lemma {:induction false} NothingUnapplied(edits: seq<Edit>, result: Build)
    ensures Unapplied(edits, result) == [] <==> forall k | 0 <= k < |edits| :: EditApplied(edits[k], result)
  {
    if edits != [] {
      NothingUnapplied(edits[..|edits| - 1], result);
      assert forall k | 0 <= k < |edits| - 1 :: edits[..|edits| - 1][k] == edits[k];
    }
  }

  method UnappliedEdits(edits: seq<Edit>, result: Build) returns (unapplied: seq<Edit>)
    ensures unapplied == Unapplied(edits, result)
  {
    unapplied := [];
    assert edits[..|edits|] == edits;
    for i := 0 to |edits|
      invariant unapplied == Unapplied(edits[..i], result)
    {
      assert edits[..i + 1][..i] == edits[..i];
      var edit := edits[i];
      var talents := TalentsOf(result, edit.tree);
      var allKnown, total := true, 0;
      assert talents[..|talents|] == talents;
      for k := 0 to |talents|
        invariant RankTaken(talents[..k], edit.entries) == if allKnown then Some(total) else None
      {
        assert talents[..k + 1][..k] == talents[..k];
        if talents[k].Taken() && talents[k].entry in edit.entries {
          allKnown := allKnown && talents[k].rankKnown;
          total := total + talents[k].rank;
        }
      }
      if !(allKnown && total == edit.rank) {
        unapplied := unapplied + [edit];
      }
    }
  }

  /** A removal is applied exactly when the result takes none of the entries. */
  lemma {:induction false} RemovalIffNoneTaken(talents: seq<Talent>, entries: set<int>)
    ensures RankTaken(talents, entries) == Some(0) <==>
            forall k | 0 <= k < |talents| :: !(talents[k].Taken() && talents[k].entry in entries)
  {
    if talents != [] {
      var front := talents[..|talents| - 1];
      RemovalIffNoneTaken(front, entries);
      assert forall k | 0 <= k < |front| :: front[k] == talents[k];
    }
  }

  /** No entry is taken twice. */
  ghost predicate DistinctEntries(talents: seq<Talent>)
  {
    forall i, j | 0 <= i < j < |talents| && talents[i].Taken() && talents[j].Taken() :: talents[i].entry != talents[j].entry
  }

  /** An edit of one entry is applied exactly when the result takes that entry at the rank asked for, or not at all for 0. */
  lemma {:induction false} OneEntryApplied(talents: seq<Talent>, entry: int, rank: nat)
    requires entry != 0 && DistinctEntries(talents)
    ensures RankTaken(talents, {entry}) == Some(rank) <==>
            RankAt(ByEntry(talents), entry) == if rank == 0 then None else Some(Some(rank))
  {
    if talents != [] {
      var front, last := talents[..|talents| - 1], talents[|talents| - 1];
      assert forall k | 0 <= k < |front| :: front[k] == talents[k];
      if last.Taken() && last.entry == entry {
        RemovalIffNoneTaken(front, {entry});
      } else {
        OneEntryApplied(front, entry, rank);
      }
    }
  }

  // ---------------------------------------------------------------- the gate

  ghost predicate Passes(
      base: Build, swaps: map<ActiveTree, Build>, result: Build, edits: seq<Edit>, tokenize: Tokenizer)
  {
    && Unexcused(edits, tokenize, AllRequestRows(base, swaps, result)) == []
    && Unapplied(edits, result) == []
  }

  method ModifyBuild(
      base: Build, swaps: map<ActiveTree, Build>, result: Build, edits: seq<Edit>, tokenize: Tokenizer)
    returns (verified: bool)
    ensures verified == Passes(base, swaps, result, edits, tokenize)
  {
    var unrequested := UnrequestedChanges(base, swaps, result, edits, tokenize);
    var unapplied := UnappliedEdits(edits, result);
    verified := unrequested == [] && unapplied == [];
  }

  /** The token a difference at an entry is known by: the intended build's where it takes the entry, else the result's. */
  ghost predicate NamedAt(
      intended: Entries, actual: Entries, edits: seq<Edit>, tokenize: Tokenizer, tree: ActiveTree, entry: int)
  {
    if entry in intended then NameRequested(edits, tokenize, tree, intended[entry].token)
    else entry in actual && NameRequested(edits, tokenize, tree, actual[entry].token)
  }

  /** The result agrees with the intended build at an entry, or an edit names it. */
  ghost predicate AsRequested(
      intended: Entries, actual: Entries, edits: seq<Edit>, tokenize: Tokenizer, tree: ActiveTree, entry: int)
  {
    SameAt(intended, actual, entry) || EntryRequested(edits, entry)
    || NamedAt(intended, actual, edits, tokenize, tree, entry)
  }

  lemma RowsOfParts(tree: ActiveTree, diff: TreeDiff)
    ensures var rows := DiffRows(tree, diff);
            var a, r := |diff.added|, |diff.removed|;
            && |rows| == a + r + |diff.changed|
            && (forall k | 0 <= k < a :: rows[k] == ChangeRow(tree, Added, diff.added[k]))
            && (forall k | 0 <= k < r :: rows[a + k] == ChangeRow(tree, Removed, diff.removed[k]))
            && (forall k | 0 <= k < |diff.changed| :: rows[a + r + k] == ChangeRow(tree, Changed, diff.changed[k].0))
  {
  }

  /** The rows of a tree's diff are its differences, each under the token it is known by. */
  lemma RowOfDifference(tree: ActiveTree, base: Entries, other: Entries, entry: int) returns (k: nat)
    requires Keyed(base) && Keyed(other) && !SameAt(base, other, entry)
    ensures var rows := DiffRows(tree, DiffOf(base, other));
            && k < |rows| && rows[k].tree == tree && rows[k].talent.entry == entry
            && rows[k].talent == if entry in base then base[entry] else other[entry]
  {
    hide AddedIds, ChangedIds, DiffRows, IndexOf;
    var diff := DiffOf(base, other);
    RowsOfParts(tree, diff);
    if entry !in base {
      k := IndexOf(AddedIds(base, other), entry);
    } else if entry !in other {
      k := |diff.added| + IndexOf(AddedIds(other, base), entry);
    } else {
      k := |diff.added| + |diff.removed| + IndexOf(ChangedIds(base, other), entry);
    }
  }

  lemma DifferenceOfRow(tree: ActiveTree, base: Entries, other: Entries, k: nat)
    requires Keyed(base) && Keyed(other)
    requires k < |DiffRows(tree, DiffOf(base, other))|
    ensures var row := DiffRows(tree, DiffOf(base, other))[k];
            var entry := row.talent.entry;
            && row.tree == tree && !SameAt(base, other, entry)
            && (entry in base || entry in other)
            && row.talent == if entry in base then base[entry] else other[entry]
  {
    hide AddedIds, ChangedIds, DiffRows;
    var diff := DiffOf(base, other);
    RowsOfParts(tree, diff);
    var a, r := |diff.added|, |diff.removed|;
    if k < a {
      assert DiffRows(tree, diff)[k] == ChangeRow(tree, Added, diff.added[k]);
    } else if k < a + r {
      assert DiffRows(tree, diff)[a + (k - a)] == ChangeRow(tree, Removed, diff.removed[k - a]);
    } else {
      assert DiffRows(tree, diff)[a + r + (k - a - r)] == ChangeRow(tree, Changed, diff.changed[k - a - r].0);
      assert RankDiffers(base, other, ChangedIds(base, other)[k - a - r]);
    }
  }

  ghost predicate AllExcused(edits: seq<Edit>, tokenize: Tokenizer, rows: seq<ChangeRow>)
  {
    forall k | 0 <= k < |rows| :: Excused(edits, tokenize, rows[k])
  }

  /** A tree's result takes every entry as intended, except where an edit names the entry or its name. */
  ghost predicate TreeAsRequested(
      intended: Entries, actual: Entries, edits: seq<Edit>, tokenize: Tokenizer, tree: ActiveTree)
  {
    forall entry :: AsRequested(intended, actual, edits, tokenize, tree, entry)
  }

  lemma TreeExcusedIff(
      tree: ActiveTree, base: Entries, other: Entries, edits: seq<Edit>, tokenize: Tokenizer)
    requires Keyed(base) && Keyed(other)
    ensures AllExcused(edits, tokenize, DiffRows(tree, DiffOf(base, other)))
            <==> TreeAsRequested(base, other, edits, tokenize, tree)
  {
    hide DiffOf, DiffRows, SameAt, NameRequested, EntryRequested;
    var rows := DiffRows(tree, DiffOf(base, other));
    if AllExcused(edits, tokenize, rows) {
      forall entry ensures AsRequested(base, other, edits, tokenize, tree, entry) {
        if !SameAt(base, other, entry) {
          var k := RowOfDifference(tree, base, other, entry);
          assert Excused(edits, tokenize, rows[k]);
          OneSideTakes(base, other, entry);
        }
      }
    }
    if TreeAsRequested(base, other, edits, tokenize, tree) {
      forall k | 0 <= k < |rows| ensures Excused(edits, tokenize, rows[k]) {
        DifferenceOfRow(tree, base, other, k);
        assert AsRequested(base, other, edits, tokenize, tree, rows[k].talent.entry);
      }
    }
  }

  lemma OneSideTakes(base: Entries, other: Entries, entry: int)
    requires !SameAt(base, other, entry)
    ensures entry in base || entry in other
  {
  }

  lemma ByEntryKeyed(talents: seq<Talent>)
    ensures Keyed(ByEntry(talents))
  {
  }

  /**
   What `verified` means: a result passes exactly when, in every active tree, it takes every entry as the
   tree's intended build does unless an edit names the entry or its name, and every edit is applied.
   */
  lemma GateMeans(
      base: Build, swaps: map<ActiveTree, Build>, result: Build, edits: seq<Edit>, tokenize: Tokenizer)
    ensures Passes(base, swaps, result, edits, tokenize) <==>
            && (forall tree ::
                  TreeAsRequested(Intended(base, swaps, tree), ByEntry(TalentsOf(result, tree)), edits, tokenize, tree))
            && forall k | 0 <= k < |edits| :: EditApplied(edits[k], result)
  {
    hide TreeAsRequested, AllExcused, DiffOf, DiffRows, ByEntry, EditApplied, Unexcused, Unapplied;
    AllRowsExcused(base, swaps, result, edits, tokenize);
    NothingUnapplied(edits, result);
    forall tree: ActiveTree
      ensures AllExcused(edits, tokenize, RequestRows(base, swaps, result, tree)) <==>
              TreeAsRequested(Intended(base, swaps, tree), ByEntry(TalentsOf(result, tree)), edits, tokenize, tree)
    {
      ByEntryKeyed(TalentsOf(if tree in swaps then swaps[tree] else base, tree));
      ByEntryKeyed(TalentsOf(result, tree));
      TreeExcusedIff(tree, Intended(base, swaps, tree), ByEntry(TalentsOf(result, tree)), edits, tokenize);
    }
  }

  lemma AllRowsExcused(
      base: Build, swaps: map<ActiveTree, Build>, result: Build, edits: seq<Edit>, tokenize: Tokenizer)
    ensures Unexcused(edits, tokenize, AllRequestRows(base, swaps, result)) == [] <==>
            forall tree :: AllExcused(edits, tokenize, RequestRows(base, swaps, result, tree))
  {
    hide Excused, RequestRows, Unexcused;
    var first, second, third := RequestRows(base, swaps, result, ClassTalents),
      RequestRows(base, swaps, result, SpecTalents), RequestRows(base, swaps, result, HeroTalents);
    NothingUnexcused(edits, tokenize, first + second + third);
    AllOfThree(edits, tokenize, first, second, third);
    forall tree: ActiveTree
      ensures RequestRows(base, swaps, result, tree) == first || RequestRows(base, swaps, result, tree) == second
              || RequestRows(base, swaps, result, tree) == third
    {
      match tree
      case ClassTalents =>
      case SpecTalents =>
      case HeroTalents =>
    }
  }

  lemma AllOfThree(
      edits: seq<Edit>, tokenize: Tokenizer, first: seq<ChangeRow>, second: seq<ChangeRow>, third: seq<ChangeRow>)
    ensures AllExcused(edits, tokenize, first + second + third) <==>
            && AllExcused(edits, tokenize, first) && AllExcused(edits, tokenize, second)
            && AllExcused(edits, tokenize, third)
  {
    hide Excused;
    var all := first + second + third;
    assert forall k | 0 <= k < |first| :: all[k] == first[k];
    assert forall k | 0 <= k < |second| :: all[|first| + k] == second[k];
    assert forall k | 0 <= k < |third| :: all[|first| + |second| + k] == third[k];
  }

  // ---------------------------------------------------------------- is anything else changed?

  /** The trait data: the token of every entry of a tree. */
  type TraitTable = map<(ActiveTree, int), string>

  ghost predicate FitsTable(table: TraitTable, tree: ActiveTree, talents: seq<Talent>)
  {
    forall k | 0 <= k < |talents| && talents[k].Taken() && talents[k].entry != 0 ::
      (tree, talents[k].entry) in table && table[(tree, talents[k].entry)] == talents[k].token
  }

  ghost predicate BuildFits(table: TraitTable, build: Build)
  {
    forall tree :: FitsTable(table, tree, TalentsOf(build, tree))
  }

  ghost predicate SourcesFit(table: TraitTable, base: Build, swaps: map<ActiveTree, Build>)
  {
    BuildFits(table, base) && forall tree | tree in swaps :: BuildFits(table, swaps[tree])
  }

  /** Nothing changed but the entries the edits name. */
  ghost predicate Strict(base: Build, swaps: map<ActiveTree, Build>, result: Build, edits: seq<Edit>)
  {
    forall tree, entry ::
      SameAt(Intended(base, swaps, tree), ByEntry(TalentsOf(result, tree)), entry) || EntryRequested(edits, entry)
  }

  /** Every entry that carries a name an edit asks for is one of the entries the edits name. */
  ghost predicate NamesCovered(table: TraitTable, edits: seq<Edit>, tokenize: Tokenizer)
  {
    forall key | key in table && key.1 != 0 && NameRequested(edits, tokenize, key.0, table[key]) ::
      EntryRequested(edits, key.1)
  }

  lemma {:induction false} EntryFits(table: TraitTable, tree: ActiveTree, talents: seq<Talent>, entry: int)
    requires FitsTable(table, tree, talents) && entry in ByEntry(talents)
    ensures (tree, entry) in table && table[(tree, entry)] == ByEntry(talents)[entry].token
  {
    var t := ByEntry(talents)[entry];
    var k :| 0 <= k < |talents| && talents[k] == t;
  }

  lemma IntendedFits(
      table: TraitTable, base: Build, swaps: map<ActiveTree, Build>, tree: ActiveTree, entry: int)
    requires SourcesFit(table, base, swaps) && entry in Intended(base, swaps, tree)
    ensures (tree, entry) in table && table[(tree, entry)] == Intended(base, swaps, tree)[entry].token
  {
    var source := if tree in swaps then swaps[tree] else base;
    assert FitsTable(table, tree, TalentsOf(source, tree));
    EntryFits(table, tree, TalentsOf(source, tree), entry);
  }

  lemma NonZeroEntry(talents: seq<Talent>, entry: int)
    requires entry in ByEntry(talents)
    ensures entry != 0
  {
  }

  /** When the names are covered, a verified build changed nothing but the named entries. */
  lemma CoveredIsStrict(
      table: TraitTable, base: Build, swaps: map<ActiveTree, Build>, result: Build, edits: seq<Edit>,
      tokenize: Tokenizer)
    requires SourcesFit(table, base, swaps) && BuildFits(table, result)
    requires NamesCovered(table, edits, tokenize) && Passes(base, swaps, result, edits, tokenize)
    ensures Strict(base, swaps, result, edits)
  {
    hide ByEntry, Passes, SameAt, EntryRequested, NameRequested, SourcesFit, EditApplied;
    GateMeans(base, swaps, result, edits, tokenize);
    forall tree: ActiveTree, entry
      ensures SameAt(Intended(base, swaps, tree), ByEntry(TalentsOf(result, tree)), entry)
              || EntryRequested(edits, entry)
    {
      var actual := ByEntry(TalentsOf(result, tree));
      assert TreeAsRequested(Intended(base, swaps, tree), actual, edits, tokenize, tree);
      assert AsRequested(Intended(base, swaps, tree), actual, edits, tokenize, tree, entry);
      if entry in Intended(base, swaps, tree) {
        IntendedFits(table, base, swaps, tree, entry);
        NonZeroEntry(TalentsOf(if tree in swaps then swaps[tree] else base, tree), entry);
        assert (tree, entry) in table;
      } else if entry in actual {
        assert FitsTable(table, tree, TalentsOf(result, tree));
        EntryFits(table, tree, TalentsOf(result, tree), entry);
        NonZeroEntry(TalentsOf(result, tree), entry);
        assert (tree, entry) in table;
      }
    }
  }

  /** The gate never refuses a result that is what was asked for: edits applied, nothing else changed. */
  lemma StrictPasses(
      base: Build, swaps: map<ActiveTree, Build>, result: Build, edits: seq<Edit>, tokenize: Tokenizer)
    requires Strict(base, swaps, result, edits)
    requires forall k | 0 <= k < |edits| :: EditApplied(edits[k], result)
    ensures Passes(base, swaps, result, edits, tokenize)
  {
    hide ByEntry, Passes, SameAt, EntryRequested, NameRequested, EditApplied;
    GateMeans(base, swaps, result, edits, tokenize);
    forall tree: ActiveTree
      ensures TreeAsRequested(Intended(base, swaps, tree), ByEntry(TalentsOf(result, tree)), edits, tokenize, tree)
    {
      forall entry
        ensures AsRequested(Intended(base, swaps, tree), ByEntry(TalentsOf(result, tree)), edits, tokenize, tree, entry)
      {
      }
    }
  }

  // A result that passes can be altered at an uncovered entry and still pass.

  function Without(talents: seq<Talent>, entry: int): seq<Talent>
  {
    if talents == [] then []
    else
      var last := talents[|talents| - 1];
      Without(talents[..|talents| - 1], entry) + if last.Taken() && last.entry == entry then [] else [last]
  }

  function Stray(entry: int, token: string): Talent
  {
    Talent(token, token, 1, 1, entry, true)
  }

  /** The talents with one entry dropped when they take it, or taken when they do not. */
  function Toggle(talents: seq<Talent>, entry: int, token: string): seq<Talent>
  {
    if entry in ByEntry(talents) then Without(talents, entry) else talents + [Stray(entry, token)]
  }

  lemma EntriesSnoc(front: seq<Talent>, last: Talent)
    ensures ByEntry(front + [last]) ==
            if last.Taken() && last.entry != 0 then ByEntry(front)[last.entry := last] else ByEntry(front)
  {
    assert (front + [last])[..|front|] == front;
  }

  lemma RankSnoc(front: seq<Talent>, last: Talent, entries: set<int>)
    ensures !(last.Taken() && last.entry in entries) ==>
              RankTaken(front + [last], entries) == RankTaken(front, entries)
    ensures last.Taken() && last.entry in entries ==>
              RankTaken(front + [last], entries) ==
              if RankTaken(front, entries).None? || !last.rankKnown then None
              else Some(RankTaken(front, entries).value + last.rank)
  {
    assert (front + [last])[..|front|] == front;
  }

  lemma WithoutNothing(entry: int)
    ensures Without([], entry) == []
  {
  }

  lemma WithoutSnoc(front: seq<Talent>, last: Talent, entry: int)
    ensures Without(front + [last], entry) ==
            if last.Taken() && last.entry == entry then Without(front, entry) else Without(front, entry) + [last]
  {
    assert (front + [last])[..|front|] == front;
  }

  lemma RemoveAfterUpdate(entries: Entries, key: int, t: Talent, entry: int)
    ensures entries[key := t] - {entry} == if key == entry then entries - {entry} else (entries - {entry})[key := t]
  {
  }

  lemma {:induction false} WithoutEntries(talents: seq<Talent>, entry: int)
    ensures ByEntry(Without(talents, entry)) == ByEntry(talents) - {entry}
  {
    if talents != [] {
      hide ByEntry, Without, RankTaken;
      var front, last := talents[..|talents| - 1], talents[|talents| - 1];
      assert talents == front + [last];
      WithoutEntries(front, entry);
      EntriesSnoc(front, last);
      EntriesSnoc(Without(front, entry), last);
      WithoutSnoc(front, last, entry);
      RemoveAfterUpdate(ByEntry(front), last.entry, last, entry);
    }
  }

  lemma WithoutRankStep(front: seq<Talent>, last: Talent, entry: int, entries: set<int>)
    requires entry !in entries && RankTaken(Without(front, entry), entries) == RankTaken(front, entries)
    ensures RankTaken(Without(front + [last], entry), entries) == RankTaken(front + [last], entries)
  {
    hide Without, RankTaken;
    WithoutSnoc(front, last, entry);
    RankSnoc(front, last, entries);
    if !(last.Taken() && last.entry == entry) {
      RankSnoc(Without(front, entry), last, entries);
    }
  }

  lemma {:induction false} WithoutRank(talents: seq<Talent>, entry: int, entries: set<int>)
    requires entry !in entries
    ensures RankTaken(Without(talents, entry), entries) == RankTaken(talents, entries)
  {
    hide Without, RankTaken;
    if talents == [] {
      WithoutNothing(entry);
    } else {
      var front, last := talents[..|talents| - 1], talents[|talents| - 1];
      WithoutRank(front, entry, entries);
      WithoutRankStep(front, last, entry, entries);
      assert talents == front + [last];
    }
  }

  lemma {:induction false} WithoutFits(table: TraitTable, tree: ActiveTree, talents: seq<Talent>, entry: int)
    requires FitsTable(table, tree, talents)
    ensures FitsTable(table, tree, Without(talents, entry))
  {
    if talents != [] {
      var front := talents[..|talents| - 1];
      assert forall k | 0 <= k < |front| :: front[k] == talents[k];
      WithoutFits(table, tree, front, entry);
    }
  }

  lemma ToggleEffect(table: TraitTable, tree: ActiveTree, talents: seq<Talent>, entry: int, token: string)
    requires entry != 0 && FitsTable(table, tree, talents)
    requires (tree, entry) in table && table[(tree, entry)] == token
    ensures var before, after := ByEntry(talents), ByEntry(Toggle(talents, entry, token));
            && (entry in after <==> entry !in before)
            && (entry in after ==> after[entry].token == token)
            && (forall id | id != entry :: id in after <==> id in before)
            && (forall id | id != entry && id in before :: after[id] == before[id])
    ensures FitsTable(table, tree, Toggle(talents, entry, token))
  {
    if entry in ByEntry(talents) {
      WithoutEntries(talents, entry);
      WithoutFits(table, tree, talents, entry);
    } else {
      var longer := talents + [Stray(entry, token)];
      assert longer[..|talents|] == talents;
    }
  }

  lemma ToggleRank(talents: seq<Talent>, entry: int, token: string, entries: set<int>)
    requires entry !in entries
    ensures RankTaken(Toggle(talents, entry, token), entries) == RankTaken(talents, entries)
  {
    if entry in ByEntry(talents) {
      WithoutRank(talents, entry, entries);
    } else {
      var longer := talents + [Stray(entry, token)];
      assert longer[..|talents|] == talents;
    }
  }

  lemma ToggledAsRequested(
      intended: Entries, before: Entries, after: Entries, edits: seq<Edit>, tokenize: Tokenizer, tree: ActiveTree,
      entry: int, token: string)
    requires TreeAsRequested(intended, before, edits, tokenize, tree)
    requires NameRequested(edits, tokenize, tree, token)
    requires entry in intended ==> intended[entry].token == token
    requires SameAt(intended, before, entry)
    requires entry in after <==> entry !in before
    requires entry in after ==> after[entry].token == token
    requires forall id | id != entry :: id in after <==> id in before
    requires forall id | id != entry && id in before :: after[id] == before[id]
    ensures TreeAsRequested(intended, after, edits, tokenize, tree)
    ensures !SameAt(intended, after, entry)
  {
    hide NameRequested, EntryRequested;
    forall id ensures AsRequested(intended, after, edits, tokenize, tree, id) {
      assert AsRequested(intended, before, edits, tokenize, tree, id);
    }
  }

  lemma ToggleKeepsEdit(result: Build, slipped: Build, edit: Edit, tree: ActiveTree, entry: int, token: string)
    requires entry !in edit.entries && EditApplied(edit, result)
    requires slipped == result[tree := Toggle(TalentsOf(result, tree), entry, token)]
    ensures EditApplied(edit, slipped)
  {
    hide Toggle, RankTaken;
    ToggleRank(TalentsOf(result, tree), entry, token, edit.entries);
  }

  /** One uncovered entry is enough: from any passing result there is one that passes and changed that entry. */
  lemma UncoveredCanSlip(
      table: TraitTable, base: Build, swaps: map<ActiveTree, Build>, result: Build, edits: seq<Edit>,
      tokenize: Tokenizer, tree: ActiveTree, entry: int) returns (slipped: Build)
    requires SourcesFit(table, base, swaps) && BuildFits(table, result)
    requires Passes(base, swaps, result, edits, tokenize)
    requires (tree, entry) in table && entry != 0 && NameRequested(edits, tokenize, tree, table[(tree, entry)])
    requires !EntryRequested(edits, entry)
    ensures BuildFits(table, slipped) && Passes(base, swaps, slipped, edits, tokenize)
    ensures !Strict(base, swaps, slipped, edits)
  {
    hide ByEntry, Passes, SameAt, NameRequested, SourcesFit, TreeAsRequested, FitsTable, Toggle, EditApplied;
    var intended := Intended(base, swaps, tree);
    var talents := TalentsOf(result, tree);
    if !SameAt(intended, ByEntry(talents), entry) {
      slipped := result;
      return;
    }
    var token := table[(tree, entry)];
    slipped := result[tree := Toggle(talents, entry, token)];
    GateMeans(base, swaps, result, edits, tokenize);
    GateMeans(base, swaps, slipped, edits, tokenize);
    assert FitsTable(table, tree, talents);
    ToggleEffect(table, tree, talents, entry, token);
    if entry in intended {
      IntendedFits(table, base, swaps, tree, entry);
    }
    ToggledAsRequested(
      intended, ByEntry(talents), ByEntry(TalentsOf(slipped, tree)), edits, tokenize, tree, entry, token);
    forall other: ActiveTree
      ensures TalentsOf(slipped, other) == if other == tree then Toggle(talents, entry, token) else TalentsOf(result, other)
    {
    }
    forall other: ActiveTree ensures FitsTable(table, other, TalentsOf(slipped, other)) {
      assert FitsTable(table, other, TalentsOf(result, other));
    }
    forall k | 0 <= k < |edits| ensures EditApplied(edits[k], slipped) {
      assert EditApplied(edits[k], result);
      ToggleKeepsEdit(result, slipped, edits[k], tree, entry, token);
    }
  }

  /**
   "Nothing else changed" is what every verified build promises exactly when each entry that carries a
   requested name is itself requested; the trait data decides that before the encoder runs.
   */
  lemma StrictIffNamesCovered(
      table: TraitTable, base: Build, swaps: map<ActiveTree, Build>, edits: seq<Edit>, tokenize: Tokenizer, some: Build)
    requires SourcesFit(table, base, swaps)
    requires BuildFits(table, some) && Passes(base, swaps, some, edits, tokenize)
    ensures (forall result | BuildFits(table, result) && Passes(base, swaps, result, edits, tokenize) ::
               Strict(base, swaps, result, edits))
            <==> NamesCovered(table, edits, tokenize)
  {
    hide Passes, Strict, BuildFits, SourcesFit, EntryRequested, NameRequested;
    if NamesCovered(table, edits, tokenize) {
      forall result | BuildFits(table, result) && Passes(base, swaps, result, edits, tokenize)
        ensures Strict(base, swaps, result, edits)
      {
        CoveredIsStrict(table, base, swaps, result, edits, tokenize);
      }
    } else {
      var key :| key in table && key.1 != 0 && NameRequested(edits, tokenize, key.0, table[key])
                 && !EntryRequested(edits, key.1);
      var slipped := UncoveredCanSlip(table, base, swaps, some, edits, tokenize, key.0, key.1);
    }
  }

  const STARFIRE := Talent("Starfire", "starfire", 1, 1, 1, true)
  const OTHER_STARFIRE := Talent("Starfire", "starfire", 1, 1, 2, true)

  lemma BothStarfires()
    ensures ByEntry([]) == map[]
    ensures ByEntry([STARFIRE, OTHER_STARFIRE]) == map[1 := STARFIRE, 2 := OTHER_STARFIRE]
  {
    EntriesSnoc([], STARFIRE);
    EntriesSnoc([STARFIRE], OTHER_STARFIRE);
    assert [] + [STARFIRE] == [STARFIRE];
    assert [STARFIRE] + [OTHER_STARFIRE] == [STARFIRE, OTHER_STARFIRE];
  }

  /** Two nodes share a name; removing one by name lets the encoder drop the other unseen. */
  lemma SameNameSlips(tokenize: Tokenizer, base: Build, edits: seq<Edit>)
    requires tokenize("starfire") == "starfire"
    requires base == map[SpecTalents := [STARFIRE, OTHER_STARFIRE]]
    requires edits == [Edit(SpecTalents, "starfire", 0, {1})]
    ensures Passes(base, map[], map[], edits, tokenize)
    ensures !Strict(base, map[], map[], edits)
  {
    hide ByEntry, Passes;
    BothStarfires();
    GateMeans(base, map[], map[], edits, tokenize);
    assert NameRequested(edits, tokenize, SpecTalents, "starfire") by {
      assert edits[0].tree == SpecTalents && tokenize(edits[0].value) == "starfire";
    }
    assert !EntryRequested(edits, 2);
    assert !SameAt(Intended(base, map[], SpecTalents), ByEntry(TalentsOf(map[], SpecTalents)), 2);
    forall tree: ActiveTree
      ensures TreeAsRequested(Intended(base, map[], tree), ByEntry(TalentsOf(map[], tree)), edits, tokenize, tree)
    {
      hide EntryRequested, NameRequested;
      if tree != SpecTalents {
        assert Intended(base, map[], tree) == map[];
      }
    }
  }
}
