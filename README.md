# Passive tree optimizer — a verified model

This project models the core of a Path of Exile 2 passive-tree optimizer
written in plain JavaScript. It has two parts:

- **Tree data** (`js/data.js`). Node records from a tree definition are
  ingested into three node tables, one per node type (keystone, notable,
  small). Offense and defense values come from keyword counts, and tags
  from a fixed keyword vocabulary. The sample notable and small nodes are
  generated, and a distance-based connection table is built. The tables
  are merged into one, and an ascendancy is looked up to its class.
- **Optimizer** (`js/optimizer.js`). Every node is scored from its tags
  against the chosen skill's tags and weapon types, weighted for offense
  and defense and multiplied by a per-type factor. The required keystones
  go in first. A quota-driven greedy pass then spends the remaining points
  on keystones, notables and small nodes. A bounded swap search replaces
  the weakest entries, and the final statistics are computed: sums, an
  efficiency percentage, a stat summary built with `parseStat`, and the
  display order.

Each loader and each optimizer phase that updates state in place is a
method of a class (`TreeStore.TreeData`, `Optimizer.Optimizer`). Every such
method is proved equal to a function on values (modules `Tree`,
`Connections`, `SampleData`, `Scoring`, `StatParse`, `Allocation`,
`FinalStats`), and the properties are proved as lemmas about those
functions. Node tables keep their keys in the order `Object.keys` reports
them: array-index keys (such as the numeric ids of a POB tree) first, in
ascending order, then the other keys in insertion order. Scores and weights are exact `real`s. `Math.ceil`,
`Math.floor` and `Math.round` (as floor(x + 1/2)) are in module `Basics`.
The stable `Array.prototype.sort` with a comparator is modelled as an
insertion sort in module `Sorting`.

Files: `basics.dfy`, `text.dfy` (ASCII `toLowerCase`, `includes`, `join`,
`trim`), `sorting.dfy`, `classes.dfy`, `tree.dfy`, `connections.dfy`,
`sample_data.dfy`, `tree_store.dfy`, `scoring.dfy`, `stat_parse.dfy`,
`allocation.dfy`, `final_stats.dfy`, `optimizer.dfy`.

## Model

| member | source | states |
|---|---|---|
| Basics.Ceil | js/optimizer.js:203 | `Math.ceil`: the least integer not below x |
| Basics.Floor | js/optimizer.js:235 | `Math.floor`: the greatest integer not above x |
| Basics.Round | js/optimizer.js:355 | `Math.round`: the nearest integer, with halves rounded up |
| Text.ToLower | js/data.js:465 | ASCII lower-casing keeps the length and lower-cases each character |
| Text.TrimSpec | js/optimizer.js:380 | `trim` removes exactly the leading and the trailing whitespace: the result is a middle part `s[i..j]` of the text, with all of `s[..i]` and `s[j..]` whitespace; it is "" iff the text is all whitespace |
| Text.Trim | js/optimizer.js:380 | the trimmed text neither starts nor ends with whitespace |
| Sorting.SortBy | js/optimizer.js:358-363 | the sort by ascending rank, then descending weight, returns a sorted permutation of its input |
| Sorting.SortByStable | js/optimizer.js:358-363 | the sort is stable: elements that tie on rank and weight keep their input order |
| Classes.AscendanciesResolve | js/data.js:28-56 | every ascendancy names a class that is in the class table |
| Classes.GetClassForAscendancy | js/data.js:424-427 | returns the mapped class record exactly when the ascendancy is known, and null otherwise |
| Tree.GetAllNodes | js/data.js:408-410 | the merged table has exactly the keys of the three tables; small nodes win over notables, and notables over keystones, on a clash |
| Tree.GetAllNodesOrder | js/data.js:408-410 | the merged keys are in JavaScript's property order, and the keystones' non-index keys come first among the non-index keys |
| Tree.PutOrder | js/data.js:497-503 | storing under a key keeps JavaScript's property order; an existing key keeps its place, and a new non-index key goes after every other non-index key |
| Tree.JsOrderedPairs | js/data.js:408-410 | in a list in JavaScript's order, an array-index key comes only after array-index keys that are not larger |
| Tree.IndexKeyListedFirst | js/data.js:497-503 | a notable stored under the POB id "100" after a keystone keyed "ironwill" is listed before it |
| Tree.Classify | js/data.js:452-455 | the type is keystone iff `ks` is set, notable iff `not` is set and `ks` is not, small otherwise |
| Tree.BuildNode | js/data.js:485-494 | the node keeps its key as id and its stats; a missing name becomes "Node <id>"; the position is (x, y), with 0 for a missing coordinate |
| Tree.BuildNodeScores | js/data.js:461-480 | offense (defense) is the tier weight 10/5/2 times the number of stats mentioning an offense (defense) keyword, between 0 and the tier weight times the stat count |
| Tree.StatScoreBounds | js/data.js:464-480 | a stat score is a non-negative multiple of the tier weight, at most one tier weight per stat, and zero iff no stat mentions a keyword |
| Tree.IngestOrdered | js/data.js:447-510 | ingesting POB records keeps every table's keys in JavaScript's property order |
| Tree.IngestPlacement | js/data.js:449-509 | every ingested node is stored under its key in exactly the table of its type; the other tables are unchanged at that key; its connections are replaced by `out` only when `out` is present |
| Tree.ExtractTagsFromStats | js/data.js:512-544 | a tag is in the result iff one of its keywords occurs in the lower-cased, space-joined stat text |
| Tree.ExtractedTagsOrdered | js/data.js:536-544 | the extracted tags follow the vocabulary's order and never repeat |
| Tree.NoStatsNoTags | js/data.js:536-544 | a node without stats gets no tags |
| Connections.NeighboursMembers | js/data.js:381-392 | a node's neighbour list holds exactly the other nodes whose distance from it is below 100 |
| Connections.NoSelfLinks | js/data.js:376-394 | no node other than a class start is linked to itself |
| Connections.LinksSymmetric | js/data.js:376-394 | among nodes that are not class starts, b is a neighbour of a iff a is a neighbour of b |
| Connections.StartLinks | js/data.js:397-404 | each class start node's list is exactly the first five small-node keys |
| Connections.StartLinksOneWay | js/data.js:397-404 | a start node that is not a tree node is linked to nothing that links back to it |
| SampleData.SampleSmallNodesShape | js/data.js:347-365 | eight nodes per template; copy i of a template is a small node with id s_<prefix>_<i> and the template's name, stats, tags and scores |
| SampleData.SmallIdInjective | js/data.js:350 | two generated ids are equal iff they come from the same prefix and copy number |
| SampleData.SampleSmallIdsDistinct | js/data.js:347-365 | with distinct prefixes, the generated ids are distinct |
| SampleData.SampleSmallNodesStored | js/data.js:362 | with distinct prefixes, every generated small node ends up in the table under its own id |
| SampleData.SampleNotables | js/data.js:300-311 | every notable template becomes a node with the template's id and type notable |
| SampleData.PutNodesKeys | js/data.js:310 | storing nodes by id adds exactly their ids and leaves every other key as it was |
| SampleData.PutNodesOrder | js/data.js:310 | storing nodes by id keeps JavaScript's property order, and the table's earlier non-index keys stay first |
| TreeStore.ScoreStats | js/data.js:461-480 | the loop over the stats computes the offense and defense stat scores |
| TreeStore.ParseNode | js/data.js:449-494 | one raw record becomes the node that BuildNode describes |
| TreeStore.TreeData.constructor | js/data.js:227-234 | a fresh data object holds the given keystone table and empty notable, small and connection tables |
| TreeStore.TreeData.ParsePobtreeNodes | js/data.js:447-510 | the tables after the loop are those of Ingest over the entries, in order, each key placed where JavaScript lists it |
| TreeStore.TreeData.StoreNode | js/data.js:496-508 | stores the node in the table of its type and replaces its connections when `out` is present |
| TreeStore.TreeData.GenerateSampleNotables | js/data.js:244-312 | the notable table after the loop is the old one with every sample notable stored under its id |
| TreeStore.TreeData.GenerateSampleSmallNodes | js/data.js:314-366 | the small table after the loops is the old one with every generated small node stored under its id |
| TreeStore.TreeData.AddCopies | js/data.js:348-364 | the inner loop stores the eight copies of one template at the next grid slots |
| TreeStore.TreeData.GenerateConnections | js/data.js:368-405 | the connection table becomes Connect of the old one; the node tables are unchanged |
| TreeStore.TreeData.LinkNearby | js/data.js:376-394 | one node's list becomes its near neighbours, in key order |
| TreeStore.TreeData.WireStart | js/data.js:397-404 | one start node's list becomes the first five small-node keys |
| TreeStore.TreeData.Init | js/data.js:237-242 | init generates the notables, then the small nodes, then the connections, and marks the data loaded |
| TreeStore.TreeData.LoadFromJSON | js/data.js:430-445 | ingests the node list when present, marks the data loaded, and reports success |
| Scoring.MatchingTags | js/optimizer.js:129-131 | the matching tags are exactly the node's tags that the skill also has |
| Scoring.Relevance | js/optimizer.js:123-152 | relevance is at least 1, and exactly 1 when the skill has no tags |
| Scoring.RelevanceNeutral | js/optimizer.js:128-151 | relevance is 1 iff the skill has no tags, or no tag matches and no weapon type matches |
| Scoring.RelevanceBound | js/optimizer.js:134-150 | relevance is at most (1 + 0.5·number of node tags)·1.3·1.4 |
| Scoring.TypeMultiplier | js/optimizer.js:159-161 | the type multiplier is at least 1 |
| Scoring.ScoreNode | js/optimizer.js:122-175 | the score record carries the node's id and the relevance factor; its offense and defense are the node's values times the offense and defense weights, without relevance; the per-point value equals the total |
| Scoring.ScoreNodeTotal | js/optimizer.js:154-166 | the total is (weighted offense + weighted defense) times the relevance factor times the type multiplier |
| Scoring.NoSkillTagsNoRelevance | js/optimizer.js:122-173 | without skill tags, total = (offense·offenseWeight + defense·defenseWeight)·type multiplier |
| Scoring.KindMultipliers | js/optimizer.js:158-165 | the same node scores 2 times as a keystone, and 1.5 times as a notable, what it scores as a small node |
| Scoring.ScoreAtLeastWeighted | js/optimizer.js:154-165 | with non-negative values and weights, 0 ≤ weighted offense + weighted defense ≤ total |
| StatParse.NumberAt | js/optimizer.js:372 | a number found at p ends after p and within the text |
| StatParse.FirstMatchLeftmost | js/optimizer.js:372-377 | the first pattern fails iff it matches at no start position, and otherwise returns the match at the leftmost one |
| StatParse.LeadingDecimal | js/optimizer.js:372 | a decimal literal at the start of a line, followed by neither a digit nor a '.', is the first pattern's number there, with the literal's signed value |
| StatParse.PercentForm | js/optimizer.js:369-383 | "<sign><digits>[.<digits>]% <text>" (e.g. "+1.5% to Critical Strike Chance") parses to the trimmed text and the signed number |
| StatParse.SpacedForm | js/optimizer.js:369-383 | "<sign><digits>[.<digits>] <text>" (e.g. "+25 to Maximum Life") parses to the trimmed text and the signed number |
| StatParse.NoDigitsFallback | js/optimizer.js:369-388 | a stat without digits parses to the whole line with value 1 |
| StatParse.ParseFloat | js/optimizer.js:379 | parseFloat gives NaN exactly when neither a digit nor a '.' and a digit follows the leading whitespace and sign |
| StatParse.ParseFloatDecimal | js/optimizer.js:379 | a decimal literal at the start of the text, followed by none of a digit, '.', 'e' or 'E', is read as its signed value |
| StatParse.ColonLineAsWritten | js/optimizer.js:373-387 | as written, "<text>: <digits>" falls back to the whole line with value 1 |
| StatParse.ColonLineParse | js/optimizer.js:373-382 | corrected, "<text>: <digits>" parses to the trimmed text and the number |
| StatParse.ColonForm | js/optimizer.js:373-387 | both readings of "<text>: <digits>" side by side |
| StatParse.LifeShape | js/optimizer.js:373 | "Life: 5" has the shape ColonForm covers |
| Allocation.CandidatesByKey | js/optimizer.js:185-191 | one candidate per table key, named by the key, as the code tests them |
| Allocation.Candidates | js/optimizer.js:185-191 | one candidate per table key, named by the node id |
| Allocation.KeyedByIdSameCandidates | js/optimizer.js:181-191 | when every node is stored under its own id, the two candidate lists coincide |
| Allocation.IdsOfExactly | js/optimizer.js:181 | the allocated-id set holds exactly the ids of the list |
| Allocation.Pool | js/optimizer.js:185-192 | the candidates not yet allocated, a permutation of that filter, by descending score |
| Allocation.Step | js/optimizer.js:209-265 | one candidate either changes nothing, or is appended once, with its name added and one point spent, and only when points remain and its name is unallocated |
| Allocation.FoldBudget | js/optimizer.js:209-265 | a loop only appends, spends one point per entry, never goes below zero, and does nothing with no points |
| Allocation.GreedyBudget | js/optimizer.js:180-265 | greedyAllocate appends at most `pointBudget` nodes, and none when `pointBudget` ≤ 0 |
| Allocation.GreedyUnique | js/optimizer.js:181-265 | with candidates named by id, no appended id repeats and none was allocated before |
| Allocation.GreedyTableUnique | js/optimizer.js:181-265 | the same, for the scored node table |
| Allocation.GreedyQuotas | js/optimizer.js:203-264 | at most ceil(3·offenseWeight) offensive keystones; at most 3 minus that many other keystones; at most floor(0.35·points left after keystones) notables, each scoring ≥ 3; small nodes only when they score ≥ 1 |
| Allocation.GreedyKeystones | js/optimizer.js:203-204 | with 0 ≤ offenseWeight ≤ 1, at most three keystones are appended |
| Allocation.LowestInSpec | js/optimizer.js:274-282 | the first non-required entry of least score, and none exactly when every entry is required |
| Allocation.BestInSpec | js/optimizer.js:290-306 | the first unallocated candidate of the same type with the greatest score above the floor, and none exactly when none scores above it |
| Allocation.FindSwapSpec | js/optimizer.js:272-313 | a swap pairs the lowest non-required entry with an unallocated same-type candidate scoring more than it and more than 1.1 times it; no swap exactly when there is no such candidate |
| Allocation.LocalStepImproves | js/optimizer.js:309-310 | a swap keeps the length, the required entries and each position's type, and lowers no score |
| Allocation.LocalStepChangesOne | js/optimizer.js:309-310 | a swap overwrites exactly one non-required entry with an unallocated same-type candidate of strictly greater score |
| Allocation.LocalSearchImproves | js/optimizer.js:271-314 | localOptimize keeps the length, every required entry and each position's type, and lowers no score |
| Allocation.LocalSearchUnique | js/optimizer.js:271-314 | with candidates named by id, a list without repeated ids keeps none |
| Allocation.Swaps | js/optimizer.js:272 | no more swaps than rounds |
| Allocation.LocalSearchSwaps | js/optimizer.js:271-314 | at most `iterations` swaps, which change at most that many positions; fewer swaps only when the last round found no swap |
| Allocation.GreedyRepeatsAsWritten | js/optimizer.js:181-220 | as written, a required keystone stored under a key other than its id is appended a second time |
| Allocation.GreedyNoRepeat | js/optimizer.js:181-220 | tested by id, that keystone is not appended again |
| Allocation.LocalRepeatsAsWritten | js/optimizer.js:287-310 | as written, an allocated node offered under another key replaces a weaker entry and is then held twice |
| Allocation.LocalNoRepeat | js/optimizer.js:287-310 | tested by id, the same swap is not made |
| FinalStats.MaxPossibleBounds | js/optimizer.js:349-350 | the per-type maximum lies between 5 and 30 points per node |
| FinalStats.EfficiencyRange | js/optimizer.js:353-355 | efficiency is 0 for an empty list, and between 0 and 100 when every node scores within its type's cap |
| FinalStats.SummarizeSpec | js/optimizer.js:336-345 | a key is in the stat summary iff it is not empty and some stat parses to it, and its value is the sum of the values parsed under it |
| FinalStats.DisplayOrder | js/optimizer.js:357-363 | the output is a permutation of the list, keystones before notables before small nodes, each group by descending score |
| FinalStats.SumsOfPermutation | js/optimizer.js:329-351 | reordering the list keeps the sums of offense, defense, score and maximum |
| FinalStats.FinalSpec | js/optimizer.js:320-363 | totalPoints is the list length; offense, defense and efficiency are those of the sorted list; the sorted list is a permutation of the input |
| Optimizer.RequiredEntries | js/optimizer.js:78-87 | as written, looked up by table key: only keystones stored under a configured name, each marked required, at most one per configured name |
| Optimizer.KeyOfId | js/optimizer.js:79-80 | the first key from a position on whose node carries the id, or none when no node there carries it |
| Optimizer.RequiredById | js/optimizer.js:78-87 | corrected, looked up by node id: each entry is a required keystone whose id was configured, at most one per configured id |
| Optimizer.RequiredByIdFound | js/optimizer.js:78-87 | every configured non-empty id that some keystone carries yields an entry for that keystone |
| Optimizer.RequiredByIdAsWritten | js/optimizer.js:78-80 | as written, when no keystone id is also a key of the keystone table (as in the sample table), keystones required by their ids all yield no entry; looked up by id, every non-empty one yields its keystone |
| Optimizer.OptimizedSize | js/optimizer.js:78-102 | as written and as intended, the result holds at most max(maxPoints, required count) nodes, totalPoints is that count, and every required entry is in it |
| Optimizer.RequiredKeystonesAllocated | js/optimizer.js:78-102 | as intended, every required id that some keystone carries is in the result of optimize |
| Optimizer.OptimizedUnique | js/optimizer.js:78-97 | as intended, when the required keystones are distinct nodes, no node id repeats in the result |
| Optimizer.ScoredCandidatesAre | js/optimizer.js:108-117 | the candidates read from the score map are those of scoreNode, named by table key |
| Optimizer.Optimizer.constructor | js/optimizer.js:25-32 | a fresh optimizer has empty results |
| Optimizer.Optimizer.ScoreAllNodes | js/optimizer.js:108-117 | the score map holds scoreNode's result under every key of the table and nothing else |
| Optimizer.Optimizer.Optimize | js/optimizer.js:54-103 | the results become those of optimize as written: required keystones by key, candidates named by key, stats summarised with parseStat as written |
| Optimizer.Optimizer.Allocate | js/optimizer.js:77-94 | the allocated list becomes the required entries plus the greedy additions, reshaped by the swap search, all as written |
| Optimizer.Optimizer.AllocateRequired | js/optimizer.js:77-87 | appends the required entries in order |
| Optimizer.Optimizer.GreedyAllocate | js/optimizer.js:180-266 | keeps the existing entries in place and appends what the greedy pass over the key-named candidates chooses |
| Optimizer.Optimizer.SortedCandidates | js/optimizer.js:185-192 | the key-named candidates whose key is not in the allocated set, by descending score |
| Optimizer.Optimizer.AllocateKeystones | js/optimizer.js:203-232 | the keystone loop with its offense and defense targets |
| Optimizer.Optimizer.AllocateNotables | js/optimizer.js:234-251 | the notable loop with its target taken from the points left |
| Optimizer.Optimizer.AllocateSmalls | js/optimizer.js:253-265 | the small-node loop |
| Optimizer.Optimizer.FindLowest | js/optimizer.js:274-282 | the index and score of the lowest non-required entry, or -1 |
| Optimizer.Optimizer.FindReplacement | js/optimizer.js:287-306 | the index and score of the best replacement, or -1 |
| Optimizer.Optimizer.LocalOptimize | js/optimizer.js:271-315 | the allocated list becomes LocalSearch of the old one over the key-named candidates |
| Optimizer.Optimizer.SwapRounds | js/optimizer.js:272-314 | the rounds of the swap search, stopping at the first without a swap |
| Optimizer.Optimizer.CalculateFinalStats | js/optimizer.js:320-364 | the results become Final of the old allocated list, with parseStat as written |
| Optimizer.Optimizer.AccumulateStats | js/optimizer.js:321-351 | the loop yields the count, the offense, defense and score sums, the maximum and the stat summary of parseStat as written |
| Optimizer.Optimizer.AddStats | js/optimizer.js:336-346 | one entry's stats, parsed as written, are added into the summary |
| Optimizer.Optimizer.AddParsedStat | js/optimizer.js:339-344 | a parsed stat with a non-empty key is added to the value under its key |

## Findings

| source | as written | input that shows it | evidently intended | confidence | as-written member | corrected member |
|---|---|---|---|---|---|---|
| js/optimizer.js:78-80 | the required keystones are looked up by table key (`POE2Data.keystones[keystoneId]`), but the keystone selects of js/app.js:100-103 offer node ids, which js/app.js:168-172 pass on as `requiredKeystones` | every sample keystone, such as the one keyed "ironwill" with id "ks_ironwill": required as "ks_ironwill", it is silently dropped | look the required keystones up by node id, so that each one the user picks is allocated | high (not executed) | Optimizer.RequiredByIdAsWritten | Optimizer.RequiredKeystonesAllocated |
| js/optimizer.js:181-192 | `allocatedIds` holds node ids (`n.id`), but the candidates are table keys, and `allocatedIds.has(key)` tests the key | the sample keystone stored under "ironwill" has id "ks_ironwill"; with `requiredKeystones = ["ironwill"]` (a caller passing table keys, unlike js/app.js) it stays in the greedy pool and, if among the best offensive keystones, is appended a second time | test and record the node id, so that a required keystone is never appended again | high (not executed) | Allocation.GreedyRepeatsAsWritten | Allocation.GreedyUnique |
| js/optimizer.js:287-310 | the same key-versus-id test in the swap search | an allocated node also offered under a different key replaces a weaker entry of its type, and the list holds it twice | test by node id | medium (not executed) | Allocation.LocalRepeatsAsWritten | Allocation.LocalSearchUnique |
| js/optimizer.js:373-382 | for the second pattern `(.+?):\s*(number)` the code still reads `value = parseFloat(match[1])` and `key = match[2]`, so the text before the colon goes to parseFloat | "Life: 5" parses to key "Life: 5" with value 1 | key "Life" (the text before the colon, trimmed) with value 5 | high (not executed) | StatParse.ColonLineAsWritten | StatParse.ColonLineParse |

The definitions that compose optimize (`Optimizer.Allocated`,
`Optimizer.Optimized`, `FinalStats.Final` and the helpers they call) take
a `Basics.Reading`: `AsWritten` or `Intended`. As written, the required
keystones are looked up by key (`Optimizer.RequiredEntries`), the
candidates are named by key (`Allocation.CandidatesByKey`) and stats are
parsed by `StatParse.ParseStatAsWritten`. As intended, required keystones
are looked up by id (`Optimizer.RequiredById`), candidates are named by id
(`Allocation.Candidates`) and stats are parsed by `StatParse.ParseStat`.
The class `Optimizer.Optimizer` runs the code as written: its methods are
proved equal to `Optimized(AsWritten, ..)`, `Final(AsWritten, ..)` and the
key-named candidate lists. The properties of the intended behaviour are
proved of `Optimized(Intended, ..)`. When every node is stored under its
own id, `KeyedByIdSameCandidates` shows that the two candidate lists
coincide.

## Left out

- The DOM side of the application (rendering, event wiring, file reading, clipboard, timers) is not part of this model.
- `configure` (js/optimizer.js:37-49) is not modelled. It merges options and reads the skill's tags and weapon types from the page. The configuration is an input (`Scoring.Config`), with a null weapon type given as the empty list, since both give no weapon bonus.
- `exportToPoB`, `exportToJSON`, `generateShareUrl` and `loadFromUrl` (js/optimizer.js:393-451) are left out. They are wrappers over base64, JSON and the browser location.
- `getKeystonesList` (js/data.js:413-421) is left out. It is a projection for a drop-down list.
- Timing and logging in `optimize` (js/optimizer.js:55, 99-100) are left out.
- The class start node that `optimize` looks up (js/optimizer.js:74-75) is never used afterwards, so the model does not compute it.
- Scores, weights and offense/defense values are exact reals, and IEEE rounding is not modelled. `Math.round` is floor(x + 1/2). The distance test `sqrt(dx² + dy²) < 100` is compared on squares over integer positions.
- `toLowerCase`, `includes`, `join` and `trim` are modelled on ASCII text only. In `parseStat`, `.` is taken to match every character, since stat lines are single lines, and `\s` is ASCII whitespace. `parseFloat` does not model `Infinity` or hexadecimal forms.
- The JavaScript fallbacks `node.offense || 0`, `node.score || 0` and `scoredNodes[id]?.totalScore || 0` are not modelled: every node built by the tree code carries these fields. In a raw node record a missing `sd` is the empty list, a missing or empty `dn` is "", a missing coordinate is 0, and `ks`/`not` are booleans. The `out` ids are taken as strings already (the `map(String)` conversion is not modelled).
- The literal keystone table and the notable and small-node template lists (js/data.js:59-226, 246-343) are not reproduced. The generators take the templates as inputs.
- `generateSampleNotables` also writes `type` and `position` into the template objects themselves (js/data.js:305-309). The model builds fresh nodes and does not model that aliasing.
- The `try`/`catch` in `loadFromJSON` (js/data.js:431-444) is not modelled, because the model's ingestion cannot throw.
- The key order of the connection table is not modelled (it is a `map`); the optimizer never reads it. The node tables keep their keys in JavaScript's property order.
- Node tables are not required to have distinct keys in their key list (`Tree.WellFormed`). `Put` never adds a key twice.
- Pathfinding, connectivity of the allocation, Travel nodes, warnings and a clamp of the efficiency to 100 are not modelled: the code has none of them. The connection table is built but never read by the optimizer.
- FinalStats.EfficiencyRange: the 0–100 bound is proved only when every node scores within its type's cap (30/15/5). The code does not clamp, and larger scores give an efficiency above 100.
- Optimizer.OptimizedUnique: distinct node ids are proved only for the intended behaviour (required keystones and candidates by id), and only when the required keystones are distinct nodes. A repeated name in `requiredKeystones` is appended twice, as in the code.
- Optimizer.RequiredKeystonesAllocated: proved only for the intended behaviour. As written, a keystone required by its id is dropped (Findings).
