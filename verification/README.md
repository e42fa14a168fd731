# Verified model of the Warcraft CLI cores

A Dafny model of the parts of the Warcraft command-line tools that carry real logic, with proofs of what
they promise. `dafny verify dfyconfig.toml` checks the whole project.

**The talent transcoder** (`BitCodec`, `TalentTrees`, `TalentSupport`, `TalentHash`, `TalentExport`,
`TalentMeaning`, `HashSpelling`, `ExportLaws`, `SupportedBuilds`, `TalentConversion`, `ConversionLaws`). An Icy Veins
calculator hash lists purchases in spending order, bit-packed least significant bit first. The converter reads it, checks
the trees and writes the game's import string: a fixed header and one variable-length record for every node id of the
class. The original has no encoder for the hash; the model writes one from the format's description and proves the reader
to be its inverse. The main results: a hash that spells a build converts exactly when the build meets the rules of its
trees; the independent decoder recovers from every import string exactly the purchases of the hash; every converted
build is supported exactly when the tree data holds no trap a hash can pay for, and then a hash converts exactly when
its build is supported; the talents and the string determine each other; purchase order is irrelevant; and the
conversion of a page's builds loses and doubles nothing. Well-formed tree data means: ids fit their maps, class,
spec, hero, selection and apex nodes are pairwise disjoint, and a node has between 1 and 64 ranks.

**The action-list parser and its dispatch analysis** (`AplParser`, `AplEntries`, `AplLaws`, `AplBranches`, `AplTrace`,
`BranchLaws`, `AplFocus`). SimC concatenates the text of a list's `+=` lines and then splits it on slashes; the parser works
line by line. The model marks every character with its line and proves the two the same, with every entry and
talent reference on the line it starts on. Condition evaluation is a parameter, a function from rows to "can be
true" and "can be false"; runs are all truth assignments it allows. The status of a row is proved to be exactly
what runs can do with it, and the trace to contain exactly the paths that runs can follow.

**The modify-build gate** (`ModifyBuildGate`, `GateLaws`). SimC re-encodes an edited build; nobody trusts it, so the result is
decoded and compared with the request. The model takes the decoded builds as arbitrary talent lists and proves
what passing the gate means, in both directions.

**Three smaller stateful cores** (`SiteIndex`, `SiteLaws`, `LeaderboardSample`, `LeaderboardLaws`, `AuctionMedian`): the
site index over any run of crawls, the paged leaderboard sampler against its simple specification, and the unit-weighted auction median.

`Wrappers`, `Sequences`, `Strings`, `IdOrder` and `Slugs` hold what the others share. Methods follow the original's
loops and mutable objects and are proved against specification functions. The lemmas are about those functions, and the
modules named after laws (with `HashSpelling`) say what each computes over the data alone, without naming it on both sides.

## Where code and documentation differ

The model follows the code. Each difference has a lemma with a failing input or an exact condition.

- `packages/simc-cli/src/simc_cli/main.py:2914` says a verified build changed nothing but the requested edits. An edit
  given by name also excuses changes to other entries of that name in its tree: `ModifyBuildGate.SameNameSlips` gives a
  failing input, `ModifyBuildGate.StrictIffNamesCovered` the exact condition.
- `packages/raiderio-cli/src/raiderio_cli/analytics.py:282` promises at most `limit` runs. Called directly with a limit
  below one it still keeps one: `LeaderboardSample.OneRunIsKept`, exact condition `LeaderboardSample.AtMostLimitIff`. The
  commands never pass such a limit (`packages/raiderio-cli/src/raiderio_cli/main.py:68`, `:164`). Line 285 promises that
  later pages request the identified season. They do exactly when the caller named one or the first page's echo stands
  as it is: `LeaderboardSample.LaterPagesPinned`, failing input `LeaderboardSample.KeywordEchoUnpins`.
- `branch_decisions` (`packages/simc-cli/src/simc_cli/branch.py:148`) keeps one decision a list, the last. It can report
  a list as shadowed or dead that runs do dispatch to: `AplBranches.DecisionCanHideDispatch`. It is right under every
  evaluator exactly when one run row leads to the list, `AplBranches.DecisionRightIffSoleRow`; under a given one,
  `AplBranches.DecisionTellsDispatchIff` says when. Dispatch soundness is therefore stated over rows.
- `_check_tree` (`packages/icy-veins-cli/src/icy_veins_cli/talent_calculator.py:138`) means to refuse nodes bought without
  their prerequisites. On some cyclic tree data it does not: `TalentSupport.CycleIsAcceptedUnsupported`. It does exactly
  on data without a trap that can be funded: `TalentSupport.SupportedIffUntrapped` for one tree,
  `SupportedBuilds.ConvertedBuildsSupportedIff` for the hashes of a spec. Data without cycles is among it.
- `merge_crawl` (`packages/icy-veins-cli/src/icy_veins_cli/site_index.py:104`) documents no failure. It fails on a crawl that
  reads a page for the first time under one URL and finds it missing under another: `SiteIndex.NewPageMissingFails`,
  exact condition `SiteIndex.MergeSucceedsIff`.

## Model

| member | source | states |
|---|---|---|
| `BitCodec.LettersSpell` | packages/icy-veins-cli/src/icy_veins_cli/talent_calculator.py:27-28 | the letters the model computes are the two 64-letter alphabets, the import string's that of section 4 of RFC 4648 and the hash's with `:` in place of `/` |
| `BitCodec.BitReader.constructor` | packages/icy-veins-cli/src/icy_veins_cli/talent_calculator.py:44-48 | a reader stands at the first bit of the text's bits, six a letter, least significant first |
| `BitCodec.BitReader.Read` | packages/icy-veins-cli/src/icy_veins_cli/talent_calculator.py:50-56 | a read returns the next field and moves past it, or returns nothing and moves nowhere when the text is too short |
| `BitCodec.BitWriter.Write` | packages/icy-veins-cli/src/icy_veins_cli/talent_calculator.py:63-64 | a write appends exactly the value's bits, least significant first, to what was written |
| `BitCodec.BitWriter.Text` | packages/icy-veins-cli/src/icy_veins_cli/talent_calculator.py:66-68 | the text packs the bits six a letter, zero padded, and nothing else |
| `BitCodec.TextBitsOfTextOf` | packages/icy-veins-cli/src/icy_veins_cli/talent_calculator.py:44-48 | decoding a written text gives the bits back followed by fewer than six zeros |
| `BitCodec.SextetTextOfTextBits` | packages/icy-veins-cli/src/icy_veins_cli/talent_calculator.py:66-68 | re-encoding the bits of a readable text gives the text itself, so text and bits determine each other |
| `BitCodec.FieldsRoundTrip` | packages/icy-veins-cli/src/icy_veins_cli/talent_calculator.py:43-68 | any sequence of (value, width) writes with value < 2^width, turned into text and read with the same widths, returns the values and leaves fewer than six bits, all zero |
| `TalentTrees.Spent.Add` | packages/icy-veins-cli/src/icy_veins_cli/talent_calculator.py:117-121 | a purchase adds one point to its node and, for a choice, overwrites the entry |
| `TalentTrees.SpendPoints` | packages/icy-veins-cli/src/icy_veins_cli/talent_calculator.py:110-121 | a node's points are the number of purchases that name it |
| `TalentTrees.SpendChoices` | packages/icy-veins-cli/src/icy_veins_cli/talent_calculator.py:118-121 | a choice node's entry is that of its last purchase |
| `TalentTrees.PointsConserved` | packages/icy-veins-cli/src/icy_veins_cli/talent_calculator.py:110-121 | the points of a tree grow by exactly the number of its purchases |
| `TalentTrees.CheckTree` | packages/icy-veins-cli/src/icy_veins_cli/talent_calculator.py:137-153 | the check accepts exactly the spendings in which every bought node is within its maximum, has a fully ranked predecessor when it has any in the tree, and has its spent-points requirement met |
| `TalentTrees.ChoiceBoughtOnce` | packages/icy-veins-cli/src/icy_veins_cli/talent_calculator.py:137-153 | a choice node of an accepted tree was bought at most once |
| `TalentSupport.AcceptedIffSupported` | packages/icy-veins-cli/src/icy_veins_cli/talent_calculator.py:124-153 | over tree data without a funded trap, a tree is accepted if and only if every bought node is reached along fully ranked nodes from a granted node or a root, no node exceeds its maximum and every spent-points requirement is met |
| `TalentSupport.SupportedIffUntrapped` | packages/icy-veins-cli/src/icy_veins_cli/talent_calculator.py:137-153 | for any given extra points, every accepted tree has all its bought nodes supported if and only if the tree data holds no trap that can be funded: nodes that lead only to each other, not granted and not entered from a node full as granted, which with other nodes that do not feed them meet all their requirements |
| `TalentSupport.SupportedIffNoTrap` | packages/icy-veins-cli/src/icy_veins_cli/talent_calculator.py:137-153 | whatever the extra points, every accepted tree is supported if and only if the tree data holds no trap at all |
| `TalentSupport.AcyclicIsUntrapped` | packages/icy-veins-cli/src/icy_veins_cli/talent_calculator.py:149-150 | data whose predecessor graph has no cycle holds no trap |
| `TalentSupport.CycleIsAcceptedUnsupported` | packages/icy-veins-cli/src/icy_veins_cli/talent_calculator.py:142-150 | a failing input: two nodes that are each other's predecessors are accepted with no path to either |
| `TalentTrees.CountOfPermutation` | packages/icy-veins-cli/src/icy_veins_cli/talent_calculator.py:110-121 | the count of a node does not depend on the order of the purchases |
| `TalentHash.ReadTree` | packages/icy-veins-cli/src/icy_veins_cli/talent_calculator.py:110-121 | the loop accepts exactly the parts that spell purchases, and spends exactly those purchases |
| `TalentHash.ReadBuysBack` | packages/icy-veins-cli/src/icy_veins_cli/talent_calculator.py:3-15 | the reference encoding of any valid purchase list reads back as that list, whatever the padding of its last letter |
| `TalentHash.TreePartRoundTrip` | packages/icy-veins-cli/src/icy_veins_cli/talent_calculator.py:110-121 | a written tree part is read without error, gives each node its exact count and last choice, and spends one point a purchase |
| `TalentHash.HashPartsRejoin` | packages/icy-veins-cli/src/icy_veins_cli/talent_calculator.py:220-227 | a hash that splits is its five or six dash-free parts joined again, without an apex part in the five-part form |
| `TalentHash.ReadContentsValid` | packages/icy-veins-cli/src/icy_veins_cli/talent_calculator.py:252-269 | whatever hash is read, its purchases fit the trees of the spec it names |
| `TalentHash.ReadEncodedHash` | packages/icy-veins-cli/src/icy_veins_cli/talent_calculator.py:3-15 | for every well-formed class and every valid contents, the reference hash, in its newer or older form, reads back as those contents |
| `TalentHash.HashSpecIdAgrees` | packages/icy-veins-cli/src/icy_veins_cli/talent_calculator.py:71-76 | the quick spec-id reader and the full reader name the same spec id for every hash that reads |
| `HashSpelling.ReadBuysIffSpelled` | packages/icy-veins-cli/src/icy_veins_cli/talent_calculator.py:110-121 | a tree part is read as some purchases if and only if its bits are those purchases, six bits of index and an entry bit for a choice, and fewer than six bits more |
| `HashSpelling.HashPartsIff` | packages/icy-veins-cli/src/icy_veins_cli/talent_calculator.py:220-227 | a hash splits into some parts if and only if it is six dash-free parts joined by dashes, or five with no apex part |
| `HashSpelling.ReadIffSpelled` | packages/icy-veins-cli/src/icy_veins_cli/talent_calculator.py:252-269 | a hash is read as some contents if and only if it spells them: a spec id of the class on twelve bits, the purchases of the class and spec trees, an apex letter an entry, and a hero part with its side (0 is left) and that tree's purchases |
| `HashSpelling.QuickSpecId` | packages/icy-veins-cli/src/icy_veins_cli/talent_calculator.py:71-76 | the quick reader gives the id the first two letters spell, and 0 when there are not two or one is no letter of the alphabet |
| `TalentExport.WriteRanked` | packages/icy-veins-cli/src/icy_veins_cli/talent_calculator.py:166-175 | a ranked node is written as its record: bought, and partial with its ranks when below the maximum |
| `TalentExport.WriteChoice` | packages/icy-veins-cli/src/icy_veins_cli/talent_calculator.py:178-181 | a choice node is written as its record with the entry taken |
| `TalentExport.WriteNode` | packages/icy-veins-cli/src/icy_veins_cli/talent_calculator.py:184-195 | a node is written as its record: bought if spent on, otherwise granted only or absent |
| `TalentExport.WriteRecords` | packages/icy-veins-cli/src/icy_veins_cli/talent_calculator.py:198-217 | the writer appends one record a node id of the class, in ascending order, those of other specs and the other hero tree empty |
| `TalentExport.CollectNodeIds` | packages/icy-veins-cli/src/icy_veins_cli/talent_calculator.py:156-163 | the ids written are exactly those of the class, each once, ascending |
| `TalentExport.ExportString` | packages/icy-veins-cli/src/icy_veins_cli/talent_calculator.py:252-285 | the import string is the header and the record stream of the purchases the hash spells, and the hash is rejected exactly when a part does not read, the spec is unknown or a tree is refused |
| `TalentExport.BoughtEntries` | packages/icy-veins-cli/src/icy_veins_cli/talent_calculator.py:184-195 | every bought choice node has an entry to write |
| `TalentExport.PurchasedTalents` | packages/icy-veins-cli/src/icy_veins_cli/talent_calculator.py:303-325 | the independent decoder computes the grammar of the import string over the class's ids, and nothing when the header does not read |
| `TalentExport.DecodeRecord` | packages/icy-veins-cli/src/icy_veins_cli/talent_calculator.py:303-325 | every record written is decoded as its meaning and leaves exactly the records after it |
| `TalentExport.DecodeExport` | packages/icy-veins-cli/src/icy_veins_cli/talent_calculator.py:303-325 | decoding an import string gives its spec id and, for each id, the meaning of the record written for it |
| `TalentExport.SumAdds` | packages/icy-veins-cli/src/icy_veins_cli/talent_calculator.py:249 | the ranks the apex spells hold are added up, each spell counted once |
| `ExportLaws.AcceptedIffLoads` | packages/icy-veins-cli/src/icy_veins_cli/talent_calculator.py:137-153 | the three tree checks accept if and only if every bought node is within its ranks, follows a fully ranked node when it has predecessors, and has its required points spent, the spec tree counting the lesser of apex letters and apex ranks on top |
| `ExportLaws.HashConverts` | packages/icy-veins-cli/src/icy_veins_cli/talent_calculator.py:252-285 | a hash that spells some contents converts if and only if they meet the rules of their trees, the apex ranks being the lesser of its apex letters and the ranks the spells hold, and the string decodes to the spec id and exactly those talents |
| `ExportLaws.UnspelledRefused` | packages/icy-veins-cli/src/icy_veins_cli/talent_calculator.py:220-272 | a hash that spells nothing over the tree data is refused |
| `ExportLaws.NodeIdsAre` | packages/icy-veins-cli/src/icy_veins_cli/talent_calculator.py:156-163 | the ids written are the unused ones and every spec's class, spec, hero, selection and apex nodes, ascending |
| `ExportLaws.ExportSpelled` | packages/icy-veins-cli/src/icy_veins_cli/talent_calculator.py:166-217 | bit for bit, the import string of an accepted hash: version 2, the spec id, 128 zeros, then an id's record in order: granted only, absent, partial with six bits of ranks, full, or a choice with its entry |
| `ExportLaws.DecodeIs` | packages/icy-veins-cli/src/icy_veins_cli/talent_calculator.py:303-325 | what the decoder makes of any text at all: nothing of an unreadable or short one or another version, otherwise the spec id and, field by field, the purchased nodes |
| `TalentMeaning.TranscodingPreservesMeaning` | packages/icy-veins-cli/src/icy_veins_cli/talent_calculator.py:252-285 | for every hash the converter accepts, the decoder recovers exactly its spec id and, for every node: absent if not bought, the ranks if partial, full, or the entry of a choice; the hero meta node carries the side, the apex node its ranks, and granted-only nodes and the other hero tree never appear |
| `TalentMeaning.EncodeConvertDecode` | packages/icy-veins-cli/src/icy_veins_cli/talent_calculator.py:252-325 | from purchases to hash to import string to decoded talents: the meaning of the purchases comes out, and the string is refused exactly when a tree is |
| `SupportedBuilds.ConvertedBuildsSupportedIff` | packages/icy-veins-cli/src/icy_veins_cli/talent_calculator.py:252-272 | every hash of a spec that converts spells a build supported in all three trees if and only if none of the spec's four trees holds a trap a hash can pay for, the apex ranks paying in the spec tree |
| `SupportedBuilds.ConvertsIffSupported` | packages/icy-veins-cli/src/icy_veins_cli/talent_calculator.py:252-272 | over tree data without funded traps the reference hash of any contents converts if and only if, in all three trees, every bought node is supported, within its maximum and past its spent-points requirement |
| `TalentMeaning.SameTalentsSameText` | packages/icy-veins-cli/src/icy_veins_cli/talent_calculator.py:184-217 | two accepted contents decode to the same talents if and only if their strings are equal: the record stream is a function of spec, ranks, choices, hero side and apex ranks |
| `TalentMeaning.SameTalentsIffEqual` | packages/icy-veins-cli/src/icy_veins_cli/talent_calculator.py:328-332 | among strings converted over one class's tree data, buying the same talents and being the same string are the same thing |
| `TalentMeaning.PurchaseOrderIrrelevant` | packages/icy-veins-cli/src/icy_veins_cli/talent_calculator.py:252-285 | contents whose class, spec and hero purchases are permutations of each other are both refused or give the identical string |
| `TalentMeaning.PermutedCodes` | packages/icy-veins-cli/src/icy_veins_cli/talent_calculator.py:252-285 | the same for the hashes themselves |
| `TalentMeaning.HeaderReadersAgree` | packages/simc-cli/src/simc_cli/build_input.py:906-913 | for every accepted hash the quick reader, the decoder's sixteen bits and the masked shift of SimC's header reader give one spec id |
| `TalentConversion.ConvertRow` | packages/icy-veins-cli/src/icy_veins_cli/talent_calculator.py:354-360 | a calculator row converts exactly when its spec id has a class, its tree data loads and the hash is accepted |
| `TalentConversion.LabelStep` | packages/icy-veins-cli/src/icy_veins_cli/talent_calculator.py:389-391 | joining one more label to a row's label gives the join of the non-empty labels so far, in order |
| `TalentConversion.FirstTwin` | packages/icy-veins-cli/src/icy_veins_cli/talent_calculator.py:382 | the twin is a published string that buys the same talents, and there is none only when none does |
| `TalentConversion.ConvertCalculatorBuilds` | packages/icy-veins-cli/src/icy_veins_cli/talent_calculator.py:363-394 | the rows come out block by block: untouched, failed, annotated with the string, and one added row a converted string at its first build, labelled by all its builds |
| `TalentConversion.RowsComeThrough` | packages/icy-veins-cli/src/icy_veins_cli/talent_calculator.py:375-381 | other rows and failed builds come through in order, once each |
| `TalentConversion.SameTextSameConversion` | packages/icy-veins-cli/src/icy_veins_cli/talent_calculator.py:389-393 | builds that convert to one string convert with the same spec, tree and talents, so the string is a sound key |
| `TalentConversion.SameTextSameFate` | packages/icy-veins-cli/src/icy_veins_cli/talent_calculator.py:382-393 | builds with one string are all twinned or all fresh |
| `ConversionLaws.PublishedCodesAre` | packages/icy-veins-cli/src/icy_veins_cli/talent_calculator.py:372 | the strings looked at for twins are exactly those of the published rows |
| `ConversionLaws.TwinIsFirst` | packages/icy-veins-cli/src/icy_veins_cli/talent_calculator.py:372-384 | a twin is found if and only if some published row buys the talents, and it is the string of the first such row |
| `ConversionLaws.AnswerIs` | packages/icy-veins-cli/src/icy_veins_cli/talent_calculator.py:363-394 | row by row, what the answer holds: other rows as given, failed builds as failures, a kept row (its URL asked for, or PvP talents named) annotated with the twin's string or its own, and at the first build of an unpublished string one added row with the labels of all its builds joined by slashes |
| `ConversionLaws.EveryBuildAccounted` | packages/icy-veins-cli/src/icy_veins_cli/talent_calculator.py:376-394 | for every build that converts, the first published row that buys its talents stands for it, or no published row does and exactly one added row carries its string and the labels of all builds that share it |
| `ConversionLaws.AddedRowUnpublished` | packages/icy-veins-cli/src/icy_veins_cli/talent_calculator.py:382-388 | every added row comes from a build among the rows that converts to its string, and no published row buys its talents |
| `TalentConversion.AddedRowsDiffer` | packages/icy-veins-cli/src/icy_veins_cli/talent_calculator.py:382-393 | added rows have pairwise different strings and, over one tree, different talents |
| `AplParser.AddValue` | packages/simc-cli/src/simc_cli/apl.py:65-76 | one assignment value, split on slashes, extends the actions: the first piece may continue the last action, empty pieces add nothing |
| `AplParser.ExtendIsConcat` | packages/simc-cli/src/simc_cli/apl.py:64-76 | extending the pieces of a text by a value's pieces, continuing unless the text ends in a slash, gives the pieces of the two texts end to end |
| `AplParser.ReplaceIsPieces` | packages/simc-cli/src/simc_cli/apl.py:59-61 | after `=` the actions are the pieces of the value alone |
| `AplEntries.Assign` | packages/simc-cli/src/simc_cli/apl.py:57-76 | one assignment keeps the invariant: every list's actions are the pieces of its text, and its flag says whether the text ends in a slash |
| `AplEntries.ParseApl` | packages/simc-cli/src/simc_cli/apl.py:41-77 | for any sequence of assignments, each list's entries are the non-empty pieces of its text since its last `=`, in order, and all entries are in line order |
| `AplEntries.ConcatenateThenSplit` | packages/simc-cli/src/simc_cli/apl.py:41-77 | forgetting lines, the pieces are those of splitting the concatenated text on slashes and dropping the empty ones |
| `AplEntries.ParseAction` | packages/simc-cli/src/simc_cli/apl.py:80-95 | an entry is what its body says: action, arguments, the last `if` and `name` options, and where the piece starts |
| `AplEntries.LineAt` | packages/simc-cli/src/simc_cli/apl.py:101-107 | the fragment loop finds the line of the character at an offset |
| `AplEntries.SpanHolds` | packages/simc-cli/src/simc_cli/apl.py:101-107 | an offset belongs to the one fragment whose span contains it |
| `AplEntries.TalentSourceLines` | packages/simc-cli/src/simc_cli/apl.py:98-108 | every match of `talent.X` is attributed once, to the line of the fragment it starts in |
| `AplLaws.MatchesAre` | packages/simc-cli/src/simc_cli/apl.py:98-101 | in any text the references listed are the prefix `talent.` and the longest non-empty name after it, in order and without overlap, and wherever the prefix is followed by a name a listed reference starts or is under way |
| `AplLaws.WordCharIs` | packages/simc-cli/src/simc_cli/apl.py:9 | a name goes on through ASCII letters, digits and underscores and no further |
| `AplLaws.MarkedRefsShow` | packages/simc-cli/src/simc_cli/apl.py:98-108 | the references of an action are exactly those of its text, each once, on the line of the fragment it starts in |
| `AplLaws.EntryIs` | packages/simc-cli/src/simc_cli/apl.py:80-95 | every entry shows its text: the name before the first comma and the arguments after it without the blanks around them, the `if` and `name` of the last parts that set them, its kind by its name alone, a target only for calls and runs, and its references |
| `AplLaws.LastOptionSet` | packages/simc-cli/src/simc_cli/apl.py:84-87 | an option has the value of the last `key=value` part with that key, blanks aside, and none when no part sets it |
| `Strings.StripIff` | packages/simc-cli/src/simc_cli/apl.py:82 | stripping leaves exactly what stands between the blanks around a text |
| `AplLaws.ListMarksAre` | packages/simc-cli/src/simc_cli/apl.py:59-76 | a list's text is every value assigned to it since its last `=`, end to end |
| `AplEntries.SortSorts` | packages/simc-cli/src/simc_cli/apl.py:77 | the sort keeps the entries and orders them by line |
| `AplEntries.SortThenFilter` | packages/simc-cli/src/simc_cli/apl.py:77 | sorting and then picking a list is picking the list and then sorting, so the sort is stable within lists |
| `AplEntries.SortKeepsListOrder` | packages/simc-cli/src/simc_cli/apl.py:76-77 | a list whose starting lines never go back keeps its order through the sort |
| `AplEntries.GroupEntries` | packages/simc-cli/src/simc_cli/apl.py:111-115 | grouping gives each list exactly its entries, in order, and no empty list |
| `AplEntries.ParseAndGroup` | packages/simc-cli/src/simc_cli/apl.py:41-115 | parsing, sorting and regrouping gives each list its actions in parse order |
| `AplBranches.SummarizeBranches` | packages/simc-cli/src/simc_cli/branch.py:136-202 | the summary reports the first row that always fires, and the dead, possible and shadowed run rows, each once and in order; the decision of a list is that of its last run row |
| `AplBranches.EnteredIffLive` | packages/simc-cli/src/simc_cli/branch.py:142-191 | a run row can be reached and fire under some truth assignment consistent with the verdicts if and only if it is neither dead nor shadowed |
| `AplBranches.DispatchedIffLive` | packages/simc-cli/src/simc_cli/branch.py:150-191 | some consistent truth assignment makes a row the first true run row if and only if the row is unresolved or the guaranteed one: never a dead or shadowed row, and none of the others is excluded |
| `AplBranches.AlwaysDispatchesIffGuaranteed` | packages/simc-cli/src/simc_cli/branch.py:166-175 | every consistent truth assignment dispatches somewhere if and only if a guaranteed dispatch is reported |
| `AplBranches.DecisionTellsDispatchIff` | packages/simc-cli/src/simc_cli/branch.py:148-191 | the decision kept for a list tells whether the list can be dispatched to exactly when no earlier live row of it is overwritten by a dead or shadowed one |
| `AplBranches.DecisionRightIffSoleRow` | packages/simc-cli/src/simc_cli/branch.py:148-191 | the decision kept for a list is right under every evaluator if and only if only one run row leads to the list, a condition on the action list alone |
| `AplBranches.DecisionCanHideDispatch` | packages/simc-cli/src/simc_cli/branch.py:148-163 | it can hide one: two rows to one list, the second shadowed, and the decision reads shadowed |
| `BranchLaws.StatusMeans` | packages/simc-cli/src/simc_cli/branch.py:155-191 | what a status says of the runs: no run gets to a shadowed row; of those that get to a guaranteed row all find it true, to a dead row all find it false, to a possible row some find it true and some false |
| `BranchLaws.SummaryIs` | packages/simc-cli/src/simc_cli/branch.py:136-202 | the summary over rows and verdicts: the first row that always runs a list with line and reason, the dead, possible and shadowed rows each once in order, and per list the line, status and reason of its last run row |
| `AplTrace.TraceLog.Append` | packages/simc-cli/src/simc_cli/branch.py:468-497 | a line is added at the end of the shared log |
| `AplTrace.TraceList` | packages/simc-cli/src/simc_cli/branch.py:468-497 | on every list graph, cyclic or not, the recursion ends and appends exactly the lines of the trace tree |
| `AplTrace.TraceRow` | packages/simc-cli/src/simc_cli/branch.py:479-497 | one row appends its own lines: shadowed, or label, reason and the list it leads to |
| `AplTrace.DepthBounded` | packages/simc-cli/src/simc_cli/branch.py:468-497 | every line of a trace that starts at depth d lies between d and the greater of d and max_depth + 3 |
| `AplTrace.NoListTwice` | packages/simc-cli/src/simc_cli/branch.py:472-476 | no list is expanded twice on one path |
| `AplTrace.ShadowsMatch` | packages/simc-cli/src/simc_cli/branch.py:478-482 | in every expanded list the rows marked shadowed are exactly those after its first guaranteed run row |
| `AplTrace.ShadowsAgreeWithSummary` | packages/simc-cli/src/simc_cli/branch.py:150-163 | the shadowed run rows of an expanded list are the summary's shadowed lines |
| `AplTrace.ChildIffEnterable` | packages/simc-cli/src/simc_cli/branch.py:487-497 | a row of an expanded list is followed if and only if it can be entered under some consistent truth assignment |
| `AplTrace.TraceIsExact` | packages/simc-cli/src/simc_cli/branch.py:468-497 | a path through the trace is a path some consistent evaluation can follow, without repeating a list and within the depth, and every such path is in the trace |
| `BranchLaws.TraceShows` | packages/simc-cli/src/simc_cli/branch.py:468-497 | line by line, what a trace of any list puts down: the depth or recursion mark, or the header and for each row a shadow mark, or its status, its reason unless it is one of the two plain ones, and the trace of its list two deeper, or three between a path and a fall-through line |
| `AplFocus.SingleCallMeans` | packages/simc-cli/src/simc_cli/branch.py:232-248 | a list is the single call target if and only if the caller has one live way out but for helper calls, a call that always happens, to it, and it has more live rows than the caller has live actions that are not utilities |
| `AplFocus.DispatchIs` | packages/simc-cli/src/simc_cli/branch.py:166-175 | the dispatch followed is the target of the first run row that always fires |
| `AplFocus.DispatchIsReported` | packages/simc-cli/src/simc_cli/branch.py:212-218 | it is the dispatch the summary reports |
| `AplFocus.ResolveFocus` | packages/simc-cli/src/simc_cli/branch.py:205-229 | the path starts at the start list, ends at the focus list and repeats no list; each hop is the dispatch to an unseen list, or where none goes on the sole call of an unseen list with more live rows; short of max_depth it ends where neither leads to an unseen list; the reason names the last hop |
| `AplFocus.HopsLeaveLists` | packages/simc-cli/src/simc_cli/branch.py:205-229 | every list a hop leaves is a list with rows |
| `AplFocus.FocusSettles` | packages/simc-cli/src/simc_cli/branch.py:205-229 | once max_depth is at least the number of lists, neither a dispatch nor a sole call leads from the focus list to an unseen list |
| `ModifyBuildGate.IndexByEntry` | packages/simc-cli/src/simc_cli/build_input.py:1354-1355 | a tree's talents by entry: taken ones with an entry, a later one of an entry replacing an earlier |
| `ModifyBuildGate.DiffTalentTrees` | packages/simc-cli/src/simc_cli/build_input.py:1345-1364 | the diff lists added, removed and rank-changed entries, each in entry order |
| `ModifyBuildGate.DiffNamesDifferences` | packages/simc-cli/src/simc_cli/build_input.py:1356-1363 | an entry is in the diff if and only if the two sides differ on whether it is taken or at which known rank |
| `ModifyBuildGate.EmptyDiffIffSame` | packages/simc-cli/src/simc_cli/build_input.py:1345-1364 | the diff is empty if and only if both sides take the same entries at the same known ranks |
| `ModifyBuildGate.DiffApplies` | packages/simc-cli/src/simc_cli/build_input.py:1345-1364 | applying the diff to the base gives the other side |
| `ModifyBuildGate.RowOfDifference` | packages/simc-cli/src/simc_cli/main.py:2321-2344 | every difference has a row in the payload, under the base's name where the base takes the entry |
| `ModifyBuildGate.DifferenceOfRow` | packages/simc-cli/src/simc_cli/main.py:2321-2344 | every row of the payload is a difference |
| `ModifyBuildGate.CollectRequested` | packages/simc-cli/src/simc_cli/main.py:2703-2707 | the requested entries and names are exactly those of the edits |
| `ModifyBuildGate.UnrequestedChanges` | packages/simc-cli/src/simc_cli/main.py:2696-2718 | the unrequested changes are the rows of the request diff that no edit names by entry or by tree and token, in order |
| `ModifyBuildGate.UnappliedEdits` | packages/simc-cli/src/simc_cli/main.py:2721-2733 | the unapplied edits are those whose entries the result does not carry at the requested total rank |
| `ModifyBuildGate.RemovalIffNoneTaken` | packages/simc-cli/src/simc_cli/main.py:2728-2732 | an edit to rank 0 is applied if and only if the result takes none of its entries |
| `ModifyBuildGate.OneEntryApplied` | packages/simc-cli/src/simc_cli/main.py:2728-2732 | an edit of one entry is applied if and only if the result takes that entry at that known rank, or not at all for 0 |
| `ModifyBuildGate.ModifyBuild` | packages/simc-cli/src/simc_cli/main.py:2885-2916 | `verified` is said exactly when no change is unrequested and no edit unapplied |
| `ModifyBuildGate.GateMeans` | packages/simc-cli/src/simc_cli/main.py:2885-2916 | passing means, in both directions: in every active tree the result takes every entry as the swap source or the base does, except where an edit names the entry or its tree and token, and every edit is applied |
| `GateLaws.TakesIs` | packages/simc-cli/src/simc_cli/build_input.py:1354-1355 | what a tree takes at an entry is its last talent of that entry with a rank or with one that could not be read, and entry 0 is never taken |
| `GateLaws.RankAdds` | packages/simc-cli/src/simc_cli/main.py:2728-2730 | the rank an edit is measured by is added up over the talents, and unknown when any counted rank is |
| `GateLaws.RankOfOne` | packages/simc-cli/src/simc_cli/main.py:2728-2730 | one talent counts when its entry is the edit's: its rank, or no total when the rank was not read |
| `GateLaws.UnappliedAre` | packages/simc-cli/src/simc_cli/main.py:2721-2733 | the unapplied edits are those whose entries the result does not hold at the edit's rank, each once, in the order given |
| `GateLaws.GateIs` | packages/simc-cli/src/simc_cli/main.py:2805-2808 | `verified` if and only if every swapped tree takes at every entry what its own swap source takes there and every other tree what the base takes, but for differences an edit lists by entry or names in the tree, and every edit is carried |
| `GateLaws.StrictMeans` | packages/simc-cli/src/simc_cli/main.py:2909-2915 | nothing else changed, in the same terms: only listed entries may differ from the swap source, or from the base |
| `GateLaws.UnrequestedAre` | packages/simc-cli/src/simc_cli/main.py:2696-2718 | the unrequested rows are exactly the differences from the swap source of a swapped tree, or else from the base, that no edit lists or names, each once, by tree, kind of change and entry |
| `ModifyBuildGate.StrictPasses` | packages/simc-cli/src/simc_cli/main.py:2885-2888 | the gate never refuses a result in which every edit is applied and nothing else changed |
| `ModifyBuildGate.CoveredIsStrict` | packages/simc-cli/src/simc_cli/main.py:2703-2716 | when every entry that carries a requested name is requested, a verified build changed nothing but the named entries |
| `ModifyBuildGate.UncoveredCanSlip` | packages/simc-cli/src/simc_cli/main.py:2703-2716 | when one entry with a requested name is not requested, then from every verified result there is one that is also verified and changed that entry |
| `ModifyBuildGate.StrictIffNamesCovered` | packages/simc-cli/src/simc_cli/main.py:2909-2915 | `nothing else changed` holds of all verified builds if and only if every entry that carries a requested name is itself requested, a condition on the trait data and the edits alone |
| `ModifyBuildGate.SameNameSlips` | packages/simc-cli/src/simc_cli/main.py:2528-2533 | the failing input: two nodes of one tree named Starfire, one removed by name, and an encoder that drops both is verified |
| `SiteIndex.PageTable.Upsert` | packages/icy-veins-cli/src/icy_veins_cli/site_index.py:116-125 | an upsert writes the fields, keeps the source and first date of a known slug, records a new one, and dates the row today |
| `SiteIndex.PageTable.Pop` | packages/icy-veins-cli/src/icy_veins_cli/site_index.py:134 | a pop removes the row and says whether there was one |
| `SiteIndex.MergeCrawl` | packages/icy-veins-cli/src/icy_veins_cli/site_index.py:104-138 | the merge is the upserts of the crawled pages, then of the renames, then the removal of missing pages; it fails where a lookup fails |
| `SiteIndex.MergeSucceedsIff` | packages/icy-veins-cli/src/icy_veins_cli/site_index.py:129-138 | it succeeds if and only if every URL names a page, every rename was requested by a crawled page, and no page read for the first time is missing |
| `SiteIndex.NewPageMissingFails` | packages/icy-veins-cli/src/icy_veins_cli/site_index.py:127-138 | the failing input: a page read at an old URL is new under its slug, then that slug's own URL answers missing |
| `SiteIndex.MergedRow` | packages/icy-veins-cli/src/icy_veins_cli/site_index.py:104-138 | every row of the merged index: gone if missing; if read, the last fields written, the first source and first date it ever had, and today; otherwise untouched |
| `SiteIndex.ReadRowShows` | packages/icy-veins-cli/src/icy_veins_cli/site_index.py:127-133 | a row that was read shows the last page read under its slug, live; where a rename took the slug, a redirect to the new one with nothing of a page |
| `SiteIndex.ReadRowSource` | packages/icy-veins-cli/src/icy_veins_cli/site_index.py:116-133 | a new row records the source of the first page read under its slug, or of the last page requested at its old URL; a known row keeps its source |
| `SiteLaws.MergeIs` | packages/icy-veins-cli/src/icy_veins_cli/site_index.py:104-138 | what any merge that succeeds leaves: which rows, each as it was or refreshed (page or rename shown, source and first date kept or new, today's day), the date kept when a run was blocked or found the site down, and the crawl's frontier |
| `SiteLaws.CountsInOrder` | packages/icy-veins-cli/src/icy_veins_cli/site_index.py:107-138 | `new` is in the order the slugs were first read, `dropped` in the order they were first found missing |
| `SiteIndex.CountsAre` | packages/icy-veins-cli/src/icy_veins_cli/site_index.py:134-138 | `new` names once each first-read slug whose row is a live page, `dropped` once each missing slug that had a row |
| `SiteIndex.MergeSize` | packages/icy-veins-cli/src/icy_veins_cli/site_index.py:104-138 | the index grows by exactly the first-read slugs and shrinks by exactly the dropped ones |
| `SiteIndex.SaveLoad` | packages/icy-veins-cli/src/icy_veins_cli/site_index.py:45-73 | loading a saved index restores pages, frontier and date if and only if every row is under its own slug, and rows are saved in slug order |
| `SiteIndex.LoadedIsKeyed` | packages/icy-veins-cli/src/icy_veins_cli/site_index.py:65-73 | whatever was saved, a loaded index has every row under its own slug |
| `SiteLaws.PayloadIs` | packages/icy-veins-cli/src/icy_veins_cli/site_index.py:44-51 | an index is saved as format 1 with its date, its frontier and every row once, by slug in code-point order |
| `SiteLaws.ParseIs` | packages/icy-veins-cli/src/icy_veins_cli/site_index.py:65-73 | a saved list loads if and only if its format is 1, with the last row of every slug, its date and its frontier |
| `SiteLaws.RefreshIs` | packages/icy-veins-cli/src/icy_veins_cli/provider.py:354-363 | a run saves the merged index if and only if its seed was read, it could be merged and it read anything |
| `SiteIndex.RunsStaySound` | packages/icy-veins-cli/src/icy_veins_cli/site_index.py:104-138 | over any run of refreshes with a clock that does not go back, every row is under its slug and first seen <= last seen <= today |
| `SiteIndex.RunsCarry` | packages/icy-veins-cli/src/icy_veins_cli/site_index.py:104-138 | over any run of refreshes a page keeps its source and first date unless a crawl found it missing, and its whole row when none read it |
| `SiteIndex.BlockedRunsStayOld` | packages/icy-veins-cli/src/icy_veins_cli/site_index.py:135-136 | runs that were blocked or found the site down leave the index as old as it was, however many there are |
| `SiteIndex.AgeIsLastFinished` | packages/icy-veins-cli/src/icy_veins_cli/provider.py:356-363 | after any run of refreshes the index is dated by the last one that read something, could be merged and was not cut short, and by nothing else |
| `Slugs.InSlugOrder` | packages/icy-veins-cli/src/icy_veins_cli/site_index.py:50-51 | the sorted slugs are exactly the slugs, in strict code-point order |
| `LeaderboardSample.SampleLeaderboardRuns` | packages/raiderio-cli/src/raiderio_cli/analytics.py:281-344 | the paging loop computes the sample's specification, for every provider and every request |
| `LeaderboardSample.TakeRuns` | packages/raiderio-cli/src/raiderio_cli/analytics.py:319-331 | one page's rows: repeats are dropped and counted, and reading stops at the run that fills the sample |
| `LeaderboardSample.SampleIsFirstDistinctRuns` | packages/raiderio-cli/src/raiderio_cli/analytics.py:281-344 | the runs are the first `limit` distinct-id runs of the pages end to end, up to the first empty page or the page cap; the sample fails if and only if a page fails before that, and no page is fetched beyond the one that fills it |
| `LeaderboardSample.UrlsAre` | packages/raiderio-cli/src/raiderio_cli/analytics.py:313-315 | the reported leaderboard URLs are those of the pages, each once |
| `LeaderboardSample.DuplicatesAreTheRest` | packages/raiderio-cli/src/raiderio_cli/analytics.py:323-331 | runs examined = kept + duplicates, and the rows examined end exactly at the run that fills the sample |
| `LeaderboardSample.DedupIds` | packages/raiderio-cli/src/raiderio_cli/analytics.py:323-328 | the distinct runs name every id once |
| `LeaderboardSample.DedupKeepsFirsts` | packages/raiderio-cli/src/raiderio_cli/analytics.py:323-328 | each distinct run is the first row of its id |
| `LeaderboardSample.BookEnds` | packages/raiderio-cli/src/raiderio_cli/analytics.py:299-318 | reading ends at the first empty page or at the cap, and nowhere else without failing |
| `LeaderboardLaws.DistinctRuns` | packages/raiderio-cli/src/raiderio_cli/analytics.py:323-328 | the distinct runs are the rows no earlier row names the same, in order, a run being named by the first of its three ids, else by rank, dungeon and time |
| `LeaderboardLaws.ReadingIs` | packages/raiderio-cli/src/raiderio_cli/analytics.py:299-318 | which pages any request reads from any provider, and why reading ends or fails: every later page answers the known season, every echo is that season, and it fails only where no season is known for a later page, the provider fails or an echo names another season |
| `LeaderboardLaws.SampleIs` | packages/raiderio-cli/src/raiderio_cli/analytics.py:281-344 | every sample or failure is what those pages make of it: the first distinct runs up to the one that fills it, the pages that took, the repeats among the rows examined, the known season and the pages' URLs |
| `LeaderboardLaws.ResolveIs` | packages/raiderio-cli/src/raiderio_cli/analytics.py:299-302 | a season is asked for without the blanks around it, and not at all when blank or the keyword in any case |
| `LeaderboardSample.SampleKeepsOneSeason` | packages/raiderio-cli/src/raiderio_cli/analytics.py:299-313 | all echoes of the pages read agree with the reported season, and every page after the first was asked for by it |
| `LeaderboardSample.LaterPagesPinned` | packages/raiderio-cli/src/raiderio_cli/analytics.py:299-313 | a later page is asked for by the caller's season, else by the first page's echo, and names that season itself if and only if the caller gave one or the echo is neither padded with blanks nor the keyword `current` |
| `LeaderboardSample.KeywordEchoUnpins` | packages/raiderio-cli/src/raiderio_cli/analytics.py:302-313 | the failing input: a response that echoes `current`, after which the second page is asked for without a season |
| `LeaderboardSample.AtMostLimitIff` | packages/raiderio-cli/src/raiderio_cli/analytics.py:282-283 | no provider makes a request keep more runs than its limit if and only if the limit is at least one, or is zero with no page to read |
| `LeaderboardSample.OneRunIsKept` | packages/raiderio-cli/src/raiderio_cli/analytics.py:328-332 | the failing input: a limit below one and a provider with one run, and the run is kept |
| `LeaderboardSample.LimitBelowOne` | packages/raiderio-cli/src/raiderio_cli/analytics.py:328-332 | a limit below one is the limit one on the first page alone |
| `AuctionMedian.UnitWeightedMedian` | packages/blizzard-api-cli/src/blizzard_api_cli/summaries.py:263-272 | the loop returns a listed price at which half the units are available and below which fewer are, or the lowest price when no units are offered, and never runs past the end |
| `AuctionMedian.SplitUnits` | packages/blizzard-api-cli/src/blizzard_api_cli/summaries.py:265-271 | the units at some prices are those of the first listings and of the rest together |
| `AuctionMedian.UnitsOfOne` | packages/blizzard-api-cli/src/blizzard_api_cli/summaries.py:265-271 | one listing counts its units when its price is among them and nothing otherwise |
| `AuctionMedian.MedianIsLeast` | packages/blizzard-api-cli/src/blizzard_api_cli/summaries.py:263-272 | it is the least listed price at which half the units are available |
| `AuctionMedian.MedianOfPermutation` | packages/blizzard-api-cli/src/blizzard_api_cli/summaries.py:263-272 | it does not depend on the order of the listings |
| `AuctionMedian.MinPrice` | packages/blizzard-api-cli/src/blizzard_api_cli/summaries.py:299 | the cheapest price is a listed one and no listing is below it |
| `AuctionMedian.TallyAuctions` | packages/blizzard-api-cli/src/blizzard_api_cli/summaries.py:281-292 | the dictionaries hold, for every item, its listings, its units and its priced listings |
| `AuctionMedian.CountsOfOne` | packages/blizzard-api-cli/src/blizzard_api_cli/summaries.py:252-292 | one auction adds to its item one listing, its quantity (1 when missing or not positive), and a price when it gives one: the unit price, else the most whole buyout allows for each unit |
| `AuctionMedian.CountsAdd` | packages/blizzard-api-cli/src/blizzard_api_cli/summaries.py:281-292 | listings, units and priced listings of two runs of auctions add up |
| `AuctionMedian.AuctionsView` | packages/blizzard-api-cli/src/blizzard_api_cli/summaries.py:275-305 | one truthful row for every listed item and for nothing else, most listed first, then by id; an item nobody prices has no prices |
| `AuctionMedian.ListingsConserved` | packages/blizzard-api-cli/src/blizzard_api_cli/summaries.py:284-304 | the listings of all rows add up to the auctions that carry an item id |
| `AuctionMedian.ViewOfPermutation` | packages/blizzard-api-cli/src/blizzard_api_cli/summaries.py:275-305 | the view is fixed by the auctions, whatever order they come in |

## Left out

Parameters and simplifications inside the modelled code:

- Condition evaluation (`entry_verdict`, `packages/simc-cli/src/simc_cli/prune.py:122-131`): a parameter; runs range over all truth assignments consistent with it. That a possible row can be both true and false independently of other rows is part of this reading.
- Line matching in `parse_apl` (`ACTION_RE`, `_strip_comment`): the parser takes assignments (list, operator, value, line); the regular expression and the comment stripping are text plumbing.
- AplEntry.raw, the error messages, and the wording of trace and summary lines: rows are reported as values (line, target, status, reason).
- Malformed tree data and Python's dynamic-shape guards: tree data is well formed, failure is one rejected result.
- The PvP part's contents: only whether it names any talent, which decides whether a converted row keeps its URL.
- Row fields the conversion passes through (titles, build identity, notes): a row has its kind, code, label and URL.
- Encoding and decoding by the SimC binary, and the resolution of an edit's entries against the trait data: the gate takes the decoded builds and the edits as given.
- SimC's name tokenizer: a parameter of the gate.
- The `inactive_hero` diff and the disclosures: reported beside the gate, never deciding it.
- The helper-list and utility-action tables: parameters of `AplFocus`.
- Trees of more than 64 nodes: six bits cannot name their nodes, so the reference encoder and the results stated over it (`TalentHash.ReadEncodedHash`, `TalentMeaning.EncodeConvertDecode`, `SupportedBuilds`) are about trees of at most 64; the results about hashes as they come have no such bound.
- `guide_ref_parts`: a parameter that may name no slug. Dates are days and seconds counted from a fixed start.
- Where the index is stored, JSON text and the atomic write: the payload is a value.
- The leaderboard's transport, freshness and cache fields, the scope flags sent unchanged with every page, and the snapshot fields that do not enter a run's id: the client is an arbitrary function of season parameter and page number.
- Floating point in the auction median: half of the total is compared exactly as twice the units seen. Python's in-place sort of the price list is a function; the caller never looks at the list again.

Not modelled:

- `compare_branches`, intent summaries and the projection views: they compose the modelled analyses into text.
- `talent_refs`, `action_counts`, the graph renderings: folds over the parsed entries.
- The site crawler: a crawl's result is arbitrary, and `SiteIndex.MergeSucceedsIff` says which results can be merged.
- `player_snapshots`, the run filters and the other leaderboard views: tallies over the sampled runs.
- `auctions_page` and the other catalogue views: selections from the modelled view.
- Network clients, caches, tokens, command-line options, envelopes, HTML parsing and search scoring.
