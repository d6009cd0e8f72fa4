# A verified model of the control-plane proxy

The proxy shows virtual P4 switches to controllers and keeps a set of physical switches in step with them.
It stores every table update in a log, sends it to the targets whose allow list admits it, replays parts of
the log when targets or allow-list values come and go, banks the counters of what leaves, translates table and
action ids between programs, limits and batches what it sends, and merges what it reads. This project models
that behaviour in Dafny and proves what it promises over all inputs, all runs and all interleavings.

A switch is a map from key (table id, match, priority) to action with a list of counters beside it, following
sections 9.1, 12 and 13 of the P4Runtime Specification v1.4. A refused update changes nothing, an INSERT or
MODIFY needs an action, and a DELETE of an absent entry is accepted and changes nothing
(`Replicas.PurgeOnStrictSwitch` says when that matters). A management call is one atomic step. Objects with
fields are classes; each of their methods is proved against a specification function or relation, and the
promises are proved about that specification. Automatic induction is switched off for every lemma; an inductive
proof is written out.

Files:

- `Tables.dfy`, `AllowLists.dfy`, `Replicas.dfy`: logs, tables, allow lists and the state machine of the
  management calls. Main results: `StepExactly` (when each call succeeds and keeps every replica equal to the
  recomputation from the log, whether the log is valid or not), `RunExactly` (the same over whole runs),
  `RunWithoutReplay` and `RestartExactly`.
- `Effects.dfy`: what every call does in any mode and from any state, said without the state machine.
- `Entities.dfy`, `Conservation.dfy`, `Reads.dfy`: merging, counter conservation (`RunAccounts`,
  `RunConservesExactly`) and what a Read answers (`ReadFailsExactly`, `ReadAnswersCounters`, `ReadAfterRun`).
- `Servicer.dfy`: the proxy object with its loops.
- `Names.dfy`, `Converter.dfy`, `Embedding.dfy`: name prefixes, id translation, aggregation and restructuring.
- `RateLimit.dfy`, `Sending.dfy`: leaky bucket, bounded buffer, heartbeat, batcher.
- `Paths.dfy`, `Balancing.dfy`, `Numbers.dfy`: shortest path, hitless migration, number encoding.

Conditions found on the way, each proved exactly or shown necessary by a counterexample:

- On a valid log, adding values of a parameter that the target's allow list does not mention yet works only on
  an empty target, and values of a listed parameter only if every entry of the target carries it as an EXACT
  match; otherwise entries are inserted twice, or stay although they are no longer allowed
  (`Replicas.AddOneParameterExactly`; `Replicas.AddFilterExactly` for any log). Adding values of two parameters
  in one call can miss entries (`Replicas.TwoParametersAtOnce`).
- Writing keeps the replicas equal to the recomputation even when the updates are invalid, but an invalid
  update stays in the log, and from then on a fill of an empty switch that admits it fails
  (`Replicas.HandledWrite`, `Replicas.FillOfEmptySwitchExactly`).
- Counts are not always conserved. Banking compares table and match but not the priority and only as many fields
  as the shorter match has, so an entry purged after one that looks alike is banked twice. And a switch that is
  removed and added back without being reset is counted twice, because its counts are in the bank and it still
  reports them. These are the only ways in which a run counts too much (`Conservation.RunConservesExactly`,
  `Conservation.PurgeConservesExactly`, `Conservation.LookalikeIsBankedTwice`,
  `Conservation.ReaddedSwitchCountsTwice`). A request that asks for a counter twice is answered with the live
  counts twice (`Reads.ReadShowsTotalExactly`).
- Read answers are merged by table id without the match, so a Read fails as soon as two different entries of one
  table are answered (`Reads.ReadFailsExactly`, `Reads.ClashExactly`).
- Sources that share a switch see each other's entries as soon as one prefix begins another
  (`Embedding.TransparentExactly`, `Embedding.NestedPrefixesMix`).
- A Write ignores the `names` map of a single target, a fill applies it: refilling such a target loses the live
  entries of the other tables (`Embedding.RefillRebuildsExactly`).
- A `names` map and a prefix together break the reverse conversion (`Converter.BothSetRoundTripExactly`,
  `Converter.RenamedAndPrefixedIsLost`).
- Naming a node that does not exist is refused by the balancer only after the new node has been recorded. A
  later call may then reroute the user without his entries; exactly the calls that move a user with entries
  from a recorded node that is not his to a third one do so (`Balancing.MigrationIsHitlessExactly`,
  `Balancing.RefusedCallsLoseTheUser`). A table with a single field that is neither EXACT nor LPM is moved
  whole, with everybody's entries (`Balancing.WholeTableIsMoved`).
- `docs/json_configuration.md` says that a `rate_limit` of 0 means unlimited and that the buffer holds 100
  commands by default. In the code a limit of 0 or 1 never sends a buffered command and the default buffer
  holds none; the model follows the code (`RateLimit.WaitedCallFits`, `Sending.RateLimitedStub.Append`).

## Model

| member | source | states |
|---|---|---|
| Tables.ReplayOnly | proxy.py:550-559 | replaying the part of a log that concerns some keys builds exactly the part of the table with those keys |
| Tables.OnlyValid | proxy.py:550-559 | the selected part of a log that was valid when issued is valid on the selected part of the table |
| Tables.ReplayOverDisjoint | proxy.py:550-559 | replaying a valid log over a table that holds none of its keys meets no error and adds what the log builds from nothing |
| Tables.PresentKeyIsRefused | proxy.py:550-559 | replaying a valid log over a table that holds one of its keys is refused somewhere |
| Tables.ReplayForgets | proxy.py:550-559 | a log that is accepted on a table ends, on each key, in what it builds from nothing, if and only if the table lacked the key or some update deletes it |
| Tables.UnchangedExactly | proxy.py:550-559 | updates leave a key as it was if and only if the accepted update that has the last word on it restores what was there |
| AllowLists.Fresh | proxy.py:173-178 | appending while testing membership adds exactly the values not known before |
| AllowLists.ExtendedAdmitsExactly | proxy.py:173-181 | the longer lists admit an entry if and only if every EXACT field with a listed or added parameter has its value in the old list or among the added values |
| AllowLists.AddedSelectsExactly | proxy.py:173-183 | the selection that is replayed is the entries whose every EXACT field with an added parameter has an added value that was not listed |
| AllowLists.WithoutRemoves | proxy.py:193-197 | removing values takes away one occurrence for each, as far as there are any |
| AllowLists.ShortenedAdmitsExactly | proxy.py:191-197 | on duplicate-free lists the shorter lists admit an entry if and only if it was admitted and no EXACT field carries a removed value of its parameter |
| AllowLists.ListedParameter | proxy.py:163-183 | for an entry, the replayed selection is exactly what longer lists of one listed parameter newly allow, unless the entry was allowed and lacks the parameter |
| AllowLists.UnlistedParameter | proxy.py:179-181 | a parameter that was not listed makes the selection clash with every entry allowed before |
| AllowLists.ShorteningShrinks | proxy.py:193-197 | removing values, with or without duplicates in the list, never admits a new entry |
| AllowLists.RemoveThenAdd | proxy.py:163-197 | removing a listed value and adding it back admits the same entries |
| Replicas.FillExactly | proxy.py:528-559 | on a valid log a fill succeeds if and only if the target holds no key of the replayed part, and then adds exactly what that part builds |
| Replicas.FillOnAnyLog | proxy.py:528-559 | on any log a fill succeeds if and only if the log is accepted on the switch wherever it concerns the replayed part, and then changes exactly those keys, as the log does |
| Replicas.WriteExactly | proxy.py:301-373 | in step, a Write succeeds and keeps every replica equal to the recomputation if and only if all its kinds are known and every update that some target admits is accepted on the controller's view; the log stays valid if and only if it was and what was logged is valid there |
| Replicas.HandledWrite | proxy.py:301-373 | a Write of known kinds keeps every replica equal to the recomputation whatever its updates are, with the exact condition for its success |
| Replicas.StoppedWrite | proxy.py:309-352 | a Write stopped by an unknown kind has logged a part and sent nothing; the replicas are still equal to the recomputation if and only if, on every entry that some target admits, the logged update with the last word restores what the view has |
| Replicas.LoggedWrite | proxy.py:314-316 | the log stays valid if and only if the part of the request that is logged is valid on the controller's view |
| Replicas.FillOfEmptySwitchExactly | proxy.py:528-559 | what an invalid logged update does later: the fill of an empty switch succeeds if and only if every logged update it admits was accepted when issued |
| Replicas.RunWithoutReplay | proxy.py:150-373 | over whole runs without a replay the replicas stay equal to the recomputation, whatever is written and refused |
| Effects.WriteHasEffect | proxy.py:301-373 | in every mode and from any state, a request of known kinds is applied to every target on exactly the entries its lists admit and is logged in a writing mode; it succeeds if and only if these updates are accepted; an unknown kind stops it with a part logged and nothing sent |
| Effects.FillStopsAt | proxy.py:528-559 | a fill handles the selected logged updates in order up to the first that is refused |
| Effects.FillAllHasEffect | proxy.py:517-526 | the targets are filled in turn; after the first fill that stops the others are untouched |
| Effects.AddTargetHasEffect | proxy.py:130-148 | in every mode a new target takes the place of one with its address or comes last; a writing proxy fills it |
| Effects.RemoveTargetHasEffect | proxy.py:150-161 | in every mode the target leaves; a writing proxy banks exactly its counters that counted something |
| Effects.AddFilterHasEffect | proxy.py:163-183 | in every mode and from any state the target then admits what the old lists and the added values say, and exactly the selection is filled in |
| Effects.RemoveFilterHasEffect | proxy.py:185-225 | in every mode and from any state the target then admits what it did without the removed values, and exactly the logged entries no longer admitted are gone |
| Effects.NewlyAdmittedIsHeld | proxy.py:163-183 | when adding values keeps the replicas in step, the target holds exactly the live entries with their values in the old lists or among the added values |
| Effects.RemovedValuesAreGone | proxy.py:185-225 | from a target in step with duplicate-free lists exactly the entries go that carry a removed value |
| Replicas.AddTargetExactly | proxy.py:130-148 | adding a target succeeds and keeps the replicas in step if and only if the log is accepted on its switch wherever its lists admit, and every entry the switch holds is admitted and deleted by the log at some point |
| Replicas.AddTargetOnValidLog | proxy.py:130-148 | on a valid log that is: if and only if the new switch is empty |
| Replicas.RestartExactly | proxy.py:517-559 | a proxy started on an existing log, in any mode, succeeds and brings every target in step if and only if that condition holds for every target |
| Replicas.RestartOnValidLog | proxy.py:517-559 | on a valid log that is: if and only if every switch is empty |
| Replicas.AddFilterExactly | proxy.py:163-183 | adding allow-list values succeeds and keeps the replicas in step, whatever the log, if and only if the replayed selection is accepted on the switch and the longer lists change nothing for live entries outside the selection |
| Replicas.AddFilterOnValidLog | proxy.py:163-183 | on a valid log that is: if and only if the replayed selection is what the longer lists newly allow on the live keys |
| Replicas.AddOneParameterExactly | proxy.py:163-183 | for one parameter that condition is: listed already and carried by every held entry, or new on an empty target |
| Replicas.TwoParametersAtOnce | proxy.py:169-183 | a target in step that lists one value of each of two parameters does not stay in step, or the call fails, when both lists are lengthened in one call and an entry has one new and one old value |
| Replicas.RemoveFilterExactly | proxy.py:185-225 | removing allow-list values always leaves exactly the entries still allowed; the call fails only without a target or without lists |
| Replicas.PurgeEntries | proxy.py:207-225 | the purge deletes exactly the entries named by the departing part of the log |
| Replicas.PurgeOnStrictSwitch | proxy.py:207-225 | if deleting an absent entry were an error, the purge would succeed if and only if no departing entry has more than one update in the log |
| Replicas.RemoveAndAddBack | proxy.py:163-225 | removing an allow-list value and adding it back restores the target's table |
| Replicas.StepExactly | proxy.py:144-225 | on any log, every management call succeeds and keeps every replica equal to the filtered replay of the log if and only if its condition holds; the log stays valid if and only if it was and the call logs valid updates |
| Replicas.RunExactly | proxy.py:144-373 | over whole runs, every call succeeds and leaves every replica in step if and only if every call meets its condition; the log is valid at the end if and only if it was and only valid updates were logged |
| Replicas.RunKeepsInSync | proxy.py:144-373 | a run that meets the conditions and logs valid updates stays in step with a valid log |
| Entities.Ids | common/entity_helper.py:34-39 | no identifier is listed twice |
| Entities.IdsInFirstAppearanceOrder | common/entity_helper.py:33-39 | groups are kept in the order in which their identifiers first appear |
| Entities.MergeIds | common/entity_helper.py:32-69 | a merged answer has one entity per identifier of the input, in the same order |
| Entities.MergeConserves | common/entity_helper.py:57-64 | read off the entities themselves: a merged answer has a counter of a cell or an entry if and only if the input has one, once, with the sum of packets and bytes of all its copies |
| Entities.MergeFailsExactly | common/entity_helper.py:6-56 | merging fails if and only if an entity is of an unsupported kind, or two different table or meter entries share their table or meter number |
| Entities.MergeIsIncremental | common/entity_helper.py:32-69 | merging a merged answer with more entities is merging everything at once |
| Entities.MergeFailureStays | common/entity_helper.py:32-69 | a failed merge stays failed whatever is read afterwards |
| Entities.NumberedMerged | common/entity_helper.py:51-56 | a merged answer has exactly the table and meter entries of the input |
| Entities.SameExactly | common/entity_helper.py:83-92 | two keys compare equal if and only if they are of one table and one match begins with the other; with equally many fields, if and only if table and fields are equal |
| Entities.GroupEntities | common/entity_helper.py:33-39 | the dictionary pass computes the groups and their order |
| Entities.CheckGroup | common/entity_helper.py:42-49 | the comparison accepts exactly the groups of equal entities |
| Entities.AddUpGroup | common/entity_helper.py:57-64 | adding into the first entity yields the group's sum under the group's identifier |
| Entities.MergeGroups | common/entity_helper.py:51-69 | the second pass fails exactly on a differing group and otherwise combines every group in order |
| Entities.MergeDuplicates | common/entity_helper.py:32-69 | the passes together compute the specified merge: every counter once with its sum, every table and meter entry kept, both kinds of errors |
| Conservation.PurgeCounts | proxy.py:207-225 | the purge drops the live counter of every departing entry and banks it once per update that compares equal to it up to its deletion |
| Conservation.PurgeConservesExactly | proxy.py:207-225 | the purge conserves the count of an entry if and only if it counted nothing, or no entry that compares equal to it is purged before it |
| Conservation.PurgeAccounts | proxy.py:207-225 | the purge loses nothing and adds what an entry counted once more for every lookalike purged before it |
| Conservation.LookalikeIsBankedTwice | common/entity_helper.py:83-92 | an entry preceded by another that compares equal is banked twice |
| Conservation.FillKeepsCounts | proxy.py:528-559 | replaying part of a valid log never throws a counter away, whatever the switch held and wherever the fill stops |
| Conservation.StepStaysCovered | proxy.py:354-361 | every entry of a counted table keeps its counter through every update |
| Conservation.RemoveTargetConserves | proxy.py:150-161 | removing a target moves all its counts to the bank |
| Conservation.RemoveFilterConservesExactly | proxy.py:185-225 | removing allow-list values conserves a count if and only if it is a cell, the target counted nothing for it, or no lookalike is purged before the entry |
| Conservation.RemoveFilterConservesByPriority | proxy.py:207-225 | with one match length in the table, removing allow-list values conserves the count of an entry if and only if nothing was counted or no entry of the same table and fields but another priority is purged first |
| Conservation.StepAccounts | proxy.py:144-225 | the balance of every call: the total changes by the traffic counted, by what a new switch brings along, by what is thrown away and by what is counted twice |
| Conservation.RunAccounts | proxy.py:144-225 | the same balance over every run |
| Conservation.RunConservesExactly | proxy.py:144-225 | over every run, live, banked and thrown-away counts are what was there and all traffic counted since if and only if no removal of allow-list values purged a counting entry after a lookalike and no added switch reported a count already |
| Conservation.ReaddedSwitchCountsTwice | proxy.py:130-161 | removing a switch without entries and adding it back as it is meets every condition of the replicas and counts everything it reports twice |
| Reads.JoinedCounts | proxy.py:418-425 | banked counters join exactly the identifiers that were received, with their whole count |
| Reads.ReadAnswersCounters | proxy.py:375-439 | a Read of any request answers exactly the counters that it asks for and some live target reports, each once, with packets and bytes of the live copies as often as it asks for them and of the banked ones in reading mode |
| Reads.ReadAfterRun | proxy.py:375-439 | after any run a reported counter that is asked for once shows what was there at the start and all traffic counted since, less what was thrown away, if and only if every call counted everything once |
| Reads.ReadFailsExactly | proxy.py:375-439 | a Read of any request fails if and only if two different entries of one table are answered |
| Reads.ReadAnswersEntries | proxy.py:375-439 | otherwise it answers exactly the table entries that some target answers |
| Reads.ClashExactly | proxy.py:375-439 | from replicas in step it fails if and only if two entries of the controller's view that are asked for and admitted by some target lie in one table |
| Reads.ReadShowsTotalExactly | proxy.py:375-439 | a reported counter shows the total of all live and banked copies if and only if it is asked for once or nothing is live |
| Reads.CellsAnswered | proxy.py:375-439 | a request for one cell, one array or all cells is answered with exactly the cells asked for that some live target reports |
| Reads.DirectCountersAnswered | proxy.py:375-439 | the same for direct counters of one entry, one table or all tables |
| Reads.EntriesRequested | proxy.py:375-439 | a request for one entry, one table or all tables is answered with exactly the entries asked for that some target holds |
| Servicer.SendUpdates | proxy.py:354-361 | one request hands every update to the switch and reports whether all were accepted |
| Servicer.ExtendLists | proxy.py:169-181 | the loops compute the longer lists and the new values, and these admit and select the stated entries |
| Servicer.ShortenLists | proxy.py:191-197 | the loops take away one occurrence of a value for every occurrence among the removals |
| Servicer.ProxyServicer.constructor | proxy.py:97-128 | the configured targets are registered, later ones replacing earlier ones of the same address; what is stored stays and nothing is sent |
| Servicer.ProxyServicer.FillFromRedis | proxy.py:517-526 | the loop fills the targets in turn up to the first error; all are in step exactly if every fill works |
| Servicer.ProxyServicer.Start | proxy.py:662-668 | only a proxy that reads the store fills its targets at the start |
| Servicer.ProxyServicer.Write | proxy.py:301-373 | logging, distribution and sending reach the specified state and, in every mode, the effect that is stated without it; replicas stay equal to the recomputation whatever the updates of known kinds |
| Servicer.ProxyServicer.FillOneTarget | proxy.py:528-559 | the replay loop sends exactly the updates that pass the selection and the target's own filter, up to the first error |
| Servicer.ProxyServicer.AddTargetSwitch | proxy.py:130-148 | registration and fill reach the specified state and keep the replicas in step exactly under the condition |
| Servicer.ProxyServicer.RemoveTargetSwitch | proxy.py:150-161 | the target leaves and its non-empty counters are banked |
| Servicer.ProxyServicer.AddFilterParams | proxy.py:163-183 | reaches the specified state and, in every mode, the effect that is stated without it; keeps the replicas in step exactly under the condition |
| Servicer.ProxyServicer.RemoveFilterParams | proxy.py:185-225 | reaches the specified state and, in every mode, the effect that is stated without it: shorter lists, deleted entries, banked counters |
| Servicer.ProxyServicer.PurgeTarget | proxy.py:207-225 | the loop over the log banks and deletes for exactly the departing updates, in order |
| Servicer.ProxyServicer.MatchingCounters | proxy.py:217-223 | collects exactly the non-empty direct counters of the table whose match begins with the departing one or the other way round |
| Servicer.ProxyServicer.JoinBank | proxy.py:418-425 | appends exactly the banked entities that can be merged into the answer |
| Servicer.ProxyServicer.Read | proxy.py:375-439 | for any request: collects the answers of all targets to all its entities, joins the bank in reading mode and merges; fails exactly on two different entries of one table, and otherwise answers the entries and counters as specified |
| Names.RoundTripExactly | common/p4_name_id_helper.py:9-40 | for a dot-free prefix, removing it undoes adding it if and only if the name is NoAction, or has no dot and does not become NoAction, or has one dot and a namespace that does not begin with the prefix (an empty prefix always works) |
| Names.ImagesAreDisjoint | common/p4_name_id_helper.py:9-18 | sources whose prefixes do not begin with each other meet in no name except NoAction |
| Names.NoActionStays | common/p4_name_id_helper.py:7-26 | NoAction is neither prefixed nor stripped |
| Converter.ByName | common/p4runtime_lib/helper.py:41-57 | a lookup by name returns an object with that name or alias, and fails only if there is none or the name is empty |
| Converter.ById | common/p4runtime_lib/helper.py:41-57 | a lookup by id returns an object with that id and fails only if there is none |
| Converter.NameIdentifies | common/p4runtime_lib/helper.py:41-57 | in a well-formed P4INFO a name finds an object exactly if it is its name or alias |
| Converter.RenamesExactly | common/p4_name_id_helper.py:72-78 | a name that is a key of the names map becomes its value, any other name stays |
| Converter.RenamesBackExactly | common/p4_name_id_helper.py:55-78 | backwards a value becomes the last key that has it, any other name stays |
| Converter.ConvertsExactly | common/p4_name_id_helper.py:57-102 | an id is converted, either way, if and only if an object has it and one of the other program has its converted name as name or alias; the result is the id of that one |
| Converter.IdRoundTripExactly | common/p4_name_id_helper.py:57-102 | an id converted there, by name or by alias, and back is itself if and only if the name that comes back names or abbreviates the object |
| Converter.PrefixOnlyRoundTrip | common/p4_name_id_helper.py:57-102 | without a names map the round trip holds for every name that can be prefixed and stripped |
| Converter.RenameOnlyRoundTrip | common/p4_name_id_helper.py:57-102 | with an empty prefix the round trip holds for every name that is renamed injectively |
| Converter.BothSetRoundTripExactly | common/p4_name_id_helper.py:72-85 | with a prefix and a names map the round trip holds if and only if what is stripped names the object: the key, where the prefixed name is a value of the map, and the renamed name otherwise |
| Converter.RenamedAndPrefixedIsLost | common/p4_name_id_helper.py:72-85 | a concrete table that is renamed and prefixed and does not come back |
| Embedding.TableEntryMessage.ConvertTableEntry | common/p4_name_id_helper.py:105-117 | the ids are replaced in the message; if the action fails the table id has been replaced already |
| Embedding.Encode | common/p4_name_id_helper.py:105-117 | an update converts if and only if its key and, if there is one, its action convert; kind and the rest stay |
| Embedding.ReadableExactly | common/p4_name_id_helper.py:42-45 | an entry can be tested for the prefix if and only if its table is known and the name of the table has exactly one dot |
| Embedding.OwnStep | proxy.py:340-350 | an update and its conversion, with its action if it has one, are valid alike and keep the physical table holding the image of the virtual one |
| Embedding.HeldIsPulledBack | proxy.py:408-416 | prefix test and reverse conversion read back exactly the virtual table, unless the switch has an entry whose table has no pure name, own or foreign, which is an error |
| Embedding.AggregationIsTransparent | proxy.py:317-350 | for every interleaving of several sources on one target, each source reads back exactly the table its own updates make |
| Embedding.TransparentExactly | proxy.py:317-350 | sources of one switch read back their own tables for every interleaving if and only if no source recognises a table that another converts to |
| Embedding.NestedPrefixesMix | common/p4_name_id_helper.py:57-117 | a prefix that begins another recognises the other source's tables |
| Embedding.PrefixesMakeAggregationTransparent | common/p4_name_id_helper.py:57-117 | the same from conditions on names: well-formed P4INFO, strippable names, no prefix that begins with another |
| Embedding.PrefixedSourceEmbeds | common/p4_name_id_helper.py:57-117 | a prefixed source's ids come back and its tables are recognised |
| Embedding.RenamedSourceEmbeds | common/p4_name_id_helper.py:57-117 | the same for a source without prefix and an injective names map |
| Embedding.TargetHoldsItsShare | proxy.py:528-559 | a fill gives each target of a layout the share of the virtual table that its names map and its allow lists take, and meets no error on a valid log |
| Embedding.RestructuringExactly | proxy.py:517-559 | replaying a log onto any layout of converters and allow lists reads back as the original table if and only if every live entry is taken by some target |
| Embedding.TargetsFor | proxy.py:247-260 | the loop finds exactly the targets whose names map has the table, in order; a single target gets everything; otherwise the wildcard and an unknown id are errors |
| Embedding.TakesExactly | proxy.py:255 | a target takes a table if and only if it has no names map or the map has the name of the table as a key |
| Embedding.RefillRebuildsExactly | proxy.py:247-260 | refilling a target rebuilds what the writes made if and only if there are other targets or its names map has the table of every live entry that its lists admit |
| Embedding.SharesAreDisjoint | proxy.py:247-260 | targets that take no live entry in common return no entry twice |
| RateLimit.AcceptedStaysOrLeaks | common/high_level_switch_connection_async.py:57-71 | accepted calls are bounded by what is in the bucket and what has leaked |
| RateLimit.RateBound | common/high_level_switch_connection_async.py:48-71 | among calls ending with an accepted one, fewer than limit times (T + 1) are accepted, with both clock readings of every call |
| RateLimit.AcceptedExactly | common/high_level_switch_connection_async.py:57-71 | a call is accepted if and only if, with it, every stretch of calls ending in it stays below the limit plus what has leaked since: the limiter refuses no more than it has to |
| RateLimit.RestedExactly | common/high_level_switch_connection_async.py:57-62 | rested means that at least 1/limit has passed since the last tick |
| RateLimit.WaitedCallFits | common/high_level_switch_connection_async.py:64-71 | with a limit above 1 a call 1/limit after the last tick is accepted; with a limit of 1 or less none ever is |
| Sending.RateLimiter.IsFitInTheRateLimit | common/high_level_switch_connection_async.py:57-71 | the fields follow the specified bucket over all calls so far, and the answer is the specified one |
| Sending.RateLimitedStub.Append | common/high_level_switch_connection_async.py:81-104 | appending to a full buffer drops the oldest command, or the new one if the buffer can hold none; otherwise nothing is dropped |
| Sending.RateLimitedStub.FlushBufferedCommands | common/high_level_switch_connection_async.py:93-96 | sends from the front, one command for every yes of the limiter, until the buffer is empty or the limiter says no; drops nothing; with a rested limiter at least one command leaves |
| Sending.RateLimitedStub.Submit | common/high_level_switch_connection_async.py:98-106 | sent at once if and only if nothing waits and the limiter says yes; otherwise the oldest command is dropped if and only if the buffer is full, and the flush goes on until the limiter says no |
| Sending.RateLimitedStub.Heartbeat | common/high_level_switch_connection_async.py:88-96 | with a limit of 10 or more, n buffered commands are gone after n beats of a rested limiter, n + 1 in any case; with a limit of 1 or less nothing is sent |
| Sending.PickPartitions | common/high_level_switch_connection_async.py:93-106 | sent and dropped commands together are exactly the settled ones |
| Sending.StubHistory | common/high_level_switch_connection_async.py:74-106 | sent, dropped and buffered commands make up the submitted ones, and without a drop sent followed by buffered is submitted, in order |
| Sending.SendRateBound | common/high_level_switch_connection_async.py:48-106 | in every closed window of length T fewer than limit times (T + 1) commands leave, direct and flushed together |
| Sending.SwitchConnection.WriteUpdates | common/high_level_switch_connection_async.py:336-340 | with a batch delay the updates are added to the pending batch; without one they are submitted at once as one request |
| Sending.SwitchConnection.TakeBatch | common/high_level_switch_connection_async.py:155-158 | the batch is taken whole and replaced by an empty one |
| Sending.SwitchConnection.SendBatch | common/high_level_switch_connection_async.py:159-160 | the taken batch is submitted as one request |
| Sending.UpdatesExactlyOnce | common/high_level_switch_connection_async.py:154-160 | for every interleaving, updates sent, buffered, in flight and pending are all updates ever added, in order, as long as the buffer did not overflow |
| Paths.FirstShortest | common/mininet/shortest_path.py:23-24 | a stable sort by length puts the first of the shortest paths in front |
| Paths.RecPath | common/mininet/shortest_path.py:19-24 | terminates and finds a simple path at most as long as any walk that avoids the visited nodes, or none if there is no such walk |
| Paths.ShortestIsSymmetric | common/mininet/shortest_path.py:8-24 | searches in both directions find paths of equal length or both none |
| Paths.ShortestPath.AddEdge | common/mininet/shortest_path.py:8-13 | adjacency stays symmetric and free of duplicates and gains exactly the edge |
| Paths.ShortestPath.Get | common/mininet/shortest_path.py:15-30 | an unknown start is an error unless it is the destination, an unknown destination has no path; otherwise there is no path if and only if no walk with admitted inner nodes exists, and the path found is simple and at most as long as any such walk |
| Balancing.Balancer.LoadEntries | common/balancer.py:39-51 | routes exactly the recorded users to their nodes, with a meter each in meter mode, or fails on a missing node or an existing route; entries placed on the recorded nodes make everybody at home |
| Balancing.Balancer.ReadEntries | common/balancer.py:75-99 | collects exactly the entries the requests ask for, each once, and fails exactly if a request cannot be built |
| Balancing.Balancer.MoveToNewTarget | common/balancer.py:71-110 | the final state, when it succeeds, and what every intermediate write leaves |
| Balancing.Balancer.SetTargetNode | common/balancer.py:61-69 | records first and moves then; for any user and any node everybody is served afterwards if and only if the call does not strand its user, and then every write on the way was hitless |
| Balancing.CopyingIsHitless | common/balancer.py:102-103 | while the destination is filled every user is served by the node he was on, also when the moved user is not routed |
| Balancing.ClearingIsHitless | common/balancer.py:105-110 | from the switch-over on every user is served |
| Balancing.MovedIsSettled | common/balancer.py:71-110 | after the move the source holds none of the user's entries and other users' entries are untouched on every node |
| Balancing.CallIsHitlessExactly | common/balancer.py:61-110 | one call, for any user and any node: everybody is served afterwards if and only if the call does not move a user with entries from a recorded node that is not the one he is routed to to a third one; and then at every write on the way |
| Balancing.OnlyTheUserMoves | common/balancer.py:71-110 | whatever becomes of a call, other users' entries stay where they are, and a completed move leaves none behind |
| Balancing.OtherTablesStay | common/balancer.py:75-77 | entries of tables without exactly one field stay on every node |
| Balancing.OtherFieldRefuses | common/balancer.py:86-93 | a single EXACT or LPM field of another name makes every move fail before anything is written |
| Balancing.MigrationIsHitlessExactly | common/balancer.py:61-110 | over every sequence of calls, whatever users and nodes they name, everybody is served after every call if and only if no call strands its user, and then after every single write |
| Balancing.MigrationIsHitless | common/balancer.py:61-110 | while only existing nodes are named, for users known or new, nobody is ever stranded and calls for routed users succeed |
| Balancing.RefusedCallsLoseTheUser | common/balancer.py:65-73 | a call for a missing node and two more calls route a user to a node without his entries |
| Balancing.WholeTableIsMoved | common/balancer.py:75-110 | a table whose single field is neither EXACT nor LPM is moved whole, and another user on the origin loses his entries |
| Numbers.EncodeDecode | common/p4runtime_lib/convert.py:46-57 | a number encodes if and only if it fits the width, to the least number of bytes that has the width, and these decode to it |
| Numbers.DecodeIsBigEndian | common/p4runtime_lib/convert.py:56-57 | decoding reads the bytes in base 256, most significant first |
| Numbers.EncodingIsInjective | common/p4runtime_lib/convert.py:49-57 | the encoding of a number is the only byte string of its width that decodes to it |

## Left out

- Servicer.ProxyServicer.Write: targets have no `names` map and the conversion is the identity, as in `common/replicated_node_balancer.py`; routing by `names` is stated apart, in `Embedding.TargetsFor` and `Embedding.RefillRebuildsExactly`, and converting one message in place once per target is not modelled.
- Servicer.ProxyServicer.FillOneTarget: the same; no `names` test and no conversion of ids, which `Embedding` states for whole logs.
- Servicer.ProxyServicer.Read: targets have no `names` map and the conversion is the identity; `Embedding` states the prefix test and the reverse conversion for table entries.
- Servicer.ProxyServicer.AddTargetSwitch: `fill_counter_from_redis` is off; restoring counter and meter entries is not modelled.
- Embedding.AggregationIsTransparent: stated on the entries collected before merging, because merging rejects two different entries of one table.
- Balancing.MigrationIsHitless: single-field EXACT or LPM source-address tables, which `Balancing.WholeTableIsMoved` shows to be needed; node numbers are not negative.
- Sending.RateLimitedStub.Submit: a send counts as completed when it is dispatched; sends that overlap are interleavings of the smaller methods, each of which keeps the invariant.
- Allow-list values are their encoded bytes, and match fields carry the name their P4INFO gives them; values that cannot be encoded and unknown field ids are not modelled.
- Counts are unbounded; the 64-bit limit of the messages is not modelled. Time and bucket are real numbers; rounding is not modelled.
- Default entries, register, digest and multicast entries, and meters in the log.
- Setting the forwarding pipeline inside a run, which clears the log and leaves the switches alone.
- `purge_buffer`, which replaces the buffer by a list of another type.
- Races between a running fill and a Write, and sending without waiting for the answer.
- The lock-based twins of limiter, buffer and batcher in `common/p4runtime_lib/switch.py`, which repeat the same steps under a lock.
- gRPC, Redis transport, message text, files, command line, streaming, arbitration, capabilities: input and output.
- Address and MAC text parsing, plotting, test harness and programs: easy or outside the proxy.
