# Verified model of the guest network tool

The tool reads and changes the network settings of a guest system: a command line names settings by
MAC address, and platform code applies them through configuration files and system commands. This
project models the parts of it that are state machines over lists and text, and proves what they keep.

* **Shared by all.** `Text`, `CBuffer` (C strings in character arrays), `Files`, `Errno`, `Invariants`.
* **The rc.conf store on BSD.** `CircularList` (the intrusive circular list), `RcLine` (one line, trimmed and parsed in place), `RcItems` (the store as a
  value: ordered items with distinct keys, and its text form), `RcStore` (the store on the heap and its
  file), `Numbered` (a list of values encoded as an index entry and numbered entries, as a value),
  `Resave` (when saving such a list again changes nothing), `Sublist` (the same list on the heap),
  `SetRoute` (load, edit and save of the stored routes), `RouteWords` (what the commands and the stored
  values say, word by word).
* **The log of disabled adapters on Windows.** `Names` and `NameList` (name lists, their bounded text
  form, their comparison with a request), `DisableLog` (the log as a step machine with crashes),
  `Adapters` (the imperative code that produces its events).
* **Option application.** `OptionSpec` (parsing as a function of the words), `OptionRuns` (what parsing
  keeps, and what lines of settings mean), `OptionLines` (what all other lines mean, and where reading
  stops), `Options` (the option list on the heap), `ApplySpec` (which adapters are to change and which
  calls that leads to), `Outcomes` (the entries, the order and the power events in plain words), `Apply`
  (the loops over adapters and options), `Requests` (from the command line to the calls).
* **Text codecs.** `Resolv` and `ResolvConf` (editing of resolv.conf), `ResolvLines` (what its scans see), `RouteText` (three parsers of one
  route grammar), `Netmask` (two ways from a netmask to a prefix length, section 3.1 of RFC 4632),
  `MacText` (hardware addresses).

A module with a class works on heap objects, arrays and loops as the C code does; its contracts tie each
method to the functions of the value-level module beside it, and the lemmas are about those functions.
A file is a text and the errors that opening it gives; a system command, a registry access and a setter
answer anything. Strings are sequences of characters; where the code works on a C string, the model
stops at the NUL. Case is ignored as `strcasecmp` does in the C locale.

## Findings

Where a promised property does not hold of the code, the exact condition is proved, and a lemma beside
it gives a concrete case.

* The first run that stores routes does not settle the file. Where `static_routes` was missing, the
  entries are written in front of the new index and the next run moves them behind it
  (BSD/rcconf_sublist.c:224-250, BSD/setnet.c:220-264); where an index could not be loaded, the entries
  it left behind stay in their places until the next run. `SetRoute.RunTwice` says exactly when a second
  run changes nothing, `SetRoute.FirstRunsDiffer` gives an empty file, and from the second run on the
  file stays as it is unless a requested route is stored twice (`SetRoute.RunOnceMore`).
* A stored list that holds a requested route twice need not be settled by a run, as each run moves the
  first mention to the end (BSD/rcconf_sublist.c:78-87). One request settles it if and only if nothing
  else stands behind the second mention (`SetRoute.SetTwiceExactly`, `SetRoute.RunTwiceOneRoute`;
  `SetRoute.RepeatMovesOn`).
* A run answers 0 also when the file cannot be written and when the list does not fit its buffers
  (BSD/setnet.c:263-264). In the second case the file gets the entries that fit and keeps its old index
  (`SetRoute.RoutesCut`, `Numbered.StopsSomewhere`).
* A new nameserver line runs into the last line of resolv.conf when that line has no newline
  (BSD/resolvconf.c:141-143). The lines survive a reload if and only if the file was empty or ended in
  one (`Resolv.AppendSurvivesReload`); the nameserver is enumerated then, and otherwise only behind a
  last line of white space, or behind the bare word "nameserver" when it has that name itself
  (`Resolv.AppendIsListed`, `Resolv.UnendedLineIsJoined`). A nameserver on the unended line makes one
  name with the word of the new line (`Resolv.UnendedNameserverIsLost`). A new search line runs into it in the same way
  (BSD/resolvconf.c:192-193; `Resolv.SearchSurvivesReload`).
* A registry read that fails while an adapter is being disabled makes the tool write a log with that
  adapter alone, and a failed write or a full log loses the new name (setnet.c:516-545). Over whole runs
  with crashes the condition is exact (`DisableLog.CrashExact`, `DisableLog.DisableExact`,
  `DisableLog.FailedReadForgets`).
* A requested name that merely contains a present one counts as its mention (namelist.c:185-190;
  `Names.MatchesExactly`, `Names.PartOfTokenMatches`, `Names.LongerAddressMatches`).
* A route metric without a gateway is understood by the scripts and not by the C parser
  (netinfo_common.c:177-187; `RouteText.CRecovers`, `RouteText.MetricAloneIsKept`).
* A route with a repeated separator is read in three ways: of two metrics or two gateways the C parser
  makes one, the shell functions take the first for a part of what stands in front of it, and the netplan
  script drops both (netinfo_common.c:169-189, Linux/scripts/functions:878-887,
  Linux/scripts/netplan-cfg.py:48-64; `RouteText.TwoMetrics`, `RouteText.TwoGateways`).
* When settings are compared, an adapter whose only differing settings are routes or names of the system
  is never marked as changed, so its routes are not set (nettool.c:413-418; `ApplySpec.ChangedExactly`,
  `ApplySpec.LoneRoute`).
* The macro DEBUG_OPT_COMPARE adds debug output, and with it a comparison of DHCP that has effects
  (nettool.c:403-405, nettool.c:160-165). So whether an adapter is restarted on newer Windows when
  nothing is compared depends on the macro, which the only makefile for Windows defines
  (Makefile.Windows:9; `ApplySpec.RestartsExactly`, `ApplySpec.DebugRestarts`).
* On newer Windows DHCP is switched on without the restart that the code says it needs
  (nettool.c:517-526) exactly when settings are compared and IPv6 alone is switched on, unasked, because
  no address is given (setnet.c:684-686; `ApplySpec.SwitchedWithoutRestart`).
* Gateway entries are applied to unchanged adapters too; an entry whose value is any part of the word
  "remove", even the empty one, goes before the others (nettool.c:456-483; `ApplySpec.PlanExact`,
  `ApplySpec.PlanOrdered`).

## Model

| member | source | states |
|---|---|---|
| CircularList.Ring.ValidIsCycle | BSD/rcconf_list.c:26-44 | the link-by-link invariant holds exactly when the links form one cycle through the head with `prev` inverse to `next` and no link twice |
| CircularList.Ring.Walk | BSD/rcconf_list.c:26-38 | following `next` visits the items in order and is back at the head behind the last, and not before |
| CircularList.Ring.WalkBack | BSD/rcconf_list.c:26-38 | `prev` undoes `next` at every link |
| CircularList.Ring.Clear | BSD/rcconf_list.c:26-30 | the list is empty and well formed again |
| CircularList.Ring.Append | BSD/rcconf_list.c:32-38 | appending is sequence append and keeps the list well formed |
| CircularList.Ring.Del | BSD/rcconf_list.c:40-44 | deleting removes exactly the element at its position and keeps the list well formed |
| CircularList.Ring.SetData | BSD/rcconf.c:200-210 | replacing the value of a linked item changes that element and no link |
| RcLine.TrimIs | BSD/rcconf.c:325-342 | trimming gives exactly the part between the outermost non-blank characters |
| RcLine.Strip | BSD/rcconf.c:325-337 | the in-place loops leave the trimmed string at the same place and touch nothing in front of it and nothing behind the old string but one spare cell |
| RcLine.Parse | BSD/rcconf.c:292-323 | the in-place parser returns the trimmed key and the unquoted value of the original line, or nothing when there is no '=', no key or no quotes |
| RcLine.ParsePadded | BSD/rcconf.c:292-342 | a line is an item with any blanks and tabs around key and quoted value and a newline at the end; any other character at the ends of a key is kept |
| RcLine.ParseNothing | BSD/rcconf.c:296-309 | a line without '=', or with nothing but blanks and tabs in front of it, is no item |
| RcLine.ParseUnquoted | BSD/rcconf.c:311-319 | a value that is not in quotes at both ends makes no item |
| RcLine.ParsePrint | BSD/rcconf.c:164-164 | every printable item is parsed back from its printed line |
| RcLine.ParsedIsPrintable | BSD/rcconf.c:292-323 | whatever any line parses to prints in a form that parses back |
| RcItems.LoadedIsWellFormed | BSD/rcconf.c:134-137 | a store loaded from any text has distinct keys and only printable items |
| RcItems.AddLinesWellFormed | BSD/rcconf.c:238-253 | adding lines keeps keys distinct and never changes an item already there, so of several lines with one key the first wins |
| RcItems.LoadSave | BSD/rcconf.c:144-169 | saving and loading a well-formed store gives the same items in the same order under any inert header |
| RcItems.LoadNormalises | BSD/rcconf.c:116-169 | for every text, a save and a load after a load change nothing |
| RcItems.NoEqualsIsInert | BSD/rcconf.c:158-160 | a header without '=' adds no item when the file is read again |
| RcItems.StoreKeepsDistinct | BSD/rcconf.c:191-253 | adding, setting and deleting keep the keys distinct |
| RcItems.EditsLookup | BSD/rcconf.c:64-78 | after any edits a key has the value of its last edit, or its old one |
| RcItems.EditsKeepOthers | BSD/rcconf.c:64-78 | keys no edit names keep their values and their order |
| RcItems.SavedItemsReload | BSD/rcconf.c:39-88 | reloading the file that was written gives the old store with every pair applied in turn |
| RcItems.SavedItemsTwice | BSD/rcconf.c:39-88 | a second identical call writes an identical file |
| Files.GetLine | BSD/rcconf.c:134-134 | the next line ends where the rest of the lines begin |
| RcStore.MakeItem | BSD/rcconf.c:135-135 | a fresh item for a line that parses, NULL for any other |
| RcStore.RcConf.GetItem | BSD/rcconf.c:172-189 | the link of the first item with the key, or NULL when there is none |
| RcStore.RcConf.AddItem | BSD/rcconf.c:238-253 | NULL and a repeated key are refused with their codes and change nothing; a new key is appended |
| RcStore.RcConf.SetItem | BSD/rcconf.c:191-218 | a value is replaced in its place, or the item appended |
| RcStore.RcConf.DelItem | BSD/rcconf.c:220-236 | the item leaves the list, or ENOENT and nothing changes |
| RcStore.RcConf.Load | BSD/rcconf.c:116-142 | the store becomes what the text of the file stands for; it is empty when the file cannot be opened |
| RcStore.RcConf.Save | BSD/rcconf.c:144-169 | the file becomes the header and the printed items; it is left alone when it cannot be opened |
| RcStore.SaveItems | BSD/rcconf.c:39-88 | load, edits and save on the heap write exactly the file of the value-level edit, or leave the file alone with the error |
| Numbered.SaveCapacity | BSD/rcconf_sublist.c:224-250 | a save of a non-empty list succeeds if and only if both lengths at the last element fit 4095 characters, and then stores every entry and the whole index |
| Numbered.SaveStops | BSD/rcconf_sublist.c:224-250 | a save that does not fit has set exactly the entries that do, and not the index |
| Numbered.StopsSomewhere | BSD/rcconf_sublist.c:224-250 | every list that does not fit has one such place |
| Numbered.IndexLength | BSD/rcconf_sublist.c:228-235 | the length of an index: stems, decimal digits and separating blanks |
| Numbered.LoadElemsExact | BSD/rcconf_sublist.c:180-202 | a load succeeds exactly when every name in the index fits the key buffer and has an entry, and gives the values in index order |
| Numbered.LoadElemsFails | BSD/rcconf_sublist.c:269-286 | the first name that fails decides: code 22 for a key of 256 characters or more, code 2 for an entry that is not there |
| Numbered.SavedLookup | BSD/rcconf_sublist.c:224-250 | after a save every element key has its value and the index key the whole index |
| Numbered.GoodNamesWhen | BSD/rcconf_sublist.c:35-48 | simple conditions on the three names under which numbered keys are printable, short and never the index key |
| Numbered.LoadSaved | BSD/rcconf_sublist.c:159-251 | loading from the store that was saved to gives back the values in order |
| Numbered.PersistenceRoundTrip | BSD/rcconf_sublist.c:159-251 | list, store, file, store, list: the same values in the same order |
| Numbered.CleanLookup | BSD/rcconf_sublist.c:288-301 | taking out the prefixed keys leaves every other key with its value |
| Numbered.IndexAndEntriesAgree | BSD/rcconf_sublist.c:170-251 | after a load, any edits and a save the prefixed entries are exactly those numbered 0 to n-1, the index names exactly those, and unrelated items keep place and value |
| Resave.SavedTwice | BSD/rcconf_sublist.c:211-301 | saving a list again after a load changes nothing if and only if, before the first save, the index key was there and the prefixed items were a tail numbered from 0, no longer than the list |
| Sublist.SetValKeepsNoRepeat | BSD/rcconf_sublist.c:78-87 | setting a value keeps a repeat-free list repeat-free and adds that value alone |
| Sublist.DelValExact | BSD/rcconf_sublist.c:127-139 | deleting a value from a repeat-free list removes that value alone |
| Sublist.RcSublist.Append | BSD/rcconf_sublist.c:50-76 | the value comes last and the size field stays the length |
| Sublist.RcSublist.DelItem | BSD/rcconf_sublist.c:98-106 | the item at its position goes and the size field stays the length |
| Sublist.RcSublist.GetItemByVal | BSD/rcconf_sublist.c:108-125 | the first item with the value, or NULL |
| Sublist.RcSublist.DelItemByVal | BSD/rcconf_sublist.c:127-139 | the first item with the value goes, or ENOENT |
| Sublist.RcSublist.Set | BSD/rcconf_sublist.c:78-87 | the value is moved to, or added at, the end |
| Sublist.RcSublist.Free | BSD/rcconf_sublist.c:141-157 | the list is empty and its size 0 |
| Sublist.NextName | BSD/rcconf_sublist.c:180-201 | cutting the string at the next blank splits off the first token of the rest, in place |
| Sublist.RcSublist.LoadTurn | BSD/rcconf_sublist.c:180-202 | one turn of the load loop: the rest of the load is as far along as before, or it has failed and the list is empty |
| Sublist.RcSublist.LoadItem | BSD/rcconf_sublist.c:269-286 | the value of the prefixed key is appended; a long key or a missing entry is refused with its code |
| Sublist.RcSublist.LoadClean | BSD/rcconf_sublist.c:288-301 | every prefixed item leaves the store while it is walked, and no other |
| Sublist.RcSublist.Load | BSD/rcconf_sublist.c:159-209 | all values in index order and a cleaned store, or an empty list and an untouched store |
| Sublist.SaveItem | BSD/rcconf_sublist.c:226-248 | one turn of the save loop: the index buffer grows by one name and the entry is set, or the save stops with what was set so far |
| Sublist.RcSublist.SaveNext | BSD/rcconf_sublist.c:224-248 | one turn at an item of the list: the rest of the save is as far along as before, or it has stopped |
| Sublist.RcSublist.Save | BSD/rcconf_sublist.c:211-251 | the loop over the buffers does what the value-level save does, also when it stops halfway; for an empty list any text becomes the index |
| SetRoute.Run | BSD/setnet.c:205-271 | for every file and request: commands are run for the requested routes in order up to the first that fails, whose code is the result, and for all of them when the result is 0; the file changes only then, to the old routes with the requested ones set |
| RouteWords.PlainCommand | BSD/setnet.c:235-249 | for every address and interface that fit the buffer, the command without a gateway says: route del, version, address; route add, version, address, -interface, name; the version is -6 exactly for an address with a colon |
| RouteWords.GatewayCommand | BSD/setnet.c:235-249 | the same with a gateway, and a metric or none: route add, version, address, gateway, -ifp, name |
| RouteWords.PlainValue | BSD/setnet.c:255-258 | the stored value says: version, address, -interface, name |
| RouteWords.GatewayValue | BSD/setnet.c:255-258 | with a gateway: version, address, gateway, -ifp, name |
| RouteWords.RanPlain | BSD/setnet.c:228-253 | the i-th command of a run says so of the i-th request, behind the commands run before |
| RouteWords.RanGateway | BSD/setnet.c:228-253 | the same for a request with a gateway |
| RouteWords.StoredPlain | BSD/setnet.c:228-264 | after a run the file that is read again has, for every requested route, an entry whose value says so, under a key that the index names |
| RouteWords.StoredGateway | BSD/setnet.c:228-264 | the same for a request with a gateway |
| RouteWords.RouteCapacity | BSD/rcconf_sublist.c:224-250 | the list of routes can be saved exactly when it has no more than 600 elements |
| RouteWords.FirstFile | BSD/setnet.c:220-264 | the whole text of the file after a first request on an empty one |
| SetRoute.RoutesReload | BSD/setnet.c:220-264 | loading the routes from the file that was written gives the edited list |
| SetRoute.RoutesLeaveTheRest | BSD/setnet.c:220-264 | everything else in the file keeps its place and value, and no old route entry is left over |
| SetRoute.RoutesCut | BSD/setnet.c:263-264 | when the list does not fit, the file gets the entries of the routes that do and keeps the old index |
| SetRoute.SetAllMembers | BSD/setnet.c:228-260 | the stored routes are the old and the requested ones and no other, and none is added twice |
| SetRoute.SetAllNoRepeat | BSD/setnet.c:228-260 | a repeat-free list stays so |
| SetRoute.SetAllMoves | BSD/setnet.c:228-260 | the requested routes, each at its last mention, end up in their order behind the other ones, in theirs |
| SetRoute.SetAllTwice | BSD/setnet.c:228-260 | a list that holds no requested route twice is settled by one run |
| SetRoute.SetTwiceExactly | BSD/rcconf_sublist.c:78-87 | setting one value twice is the same as setting it once if and only if nothing else stands behind its second mention |
| SetRoute.RepeatMovesOn | BSD/rcconf_sublist.c:78-87 | two mentions in front of any other value are moved on by the second run |
| SetRoute.RunTwice | BSD/setnet.c:205-271 | a second identical run leaves the file as it is if and only if the list is settled, the index was in the store before the first, and it could be loaded or left at most a numbered tail of entries |
| SetRoute.RunTwiceOneRoute | BSD/setnet.c:205-271 | for one requested route that condition is read off the file alone |
| SetRoute.RunOnceMore | BSD/setnet.c:205-271 | when no requested route is in the old list twice, the store alone decides about that, and from the second run on the file stays as it is, for every file |
| SetRoute.FirstRunsDiffer | BSD/setnet.c:205-271 | on an empty file the second run changes the file |
| RouteText.ParseRoute | netinfo_common.c:169-189 | cutting the buffer at '=' and 'm' recovers the three parts of the original text |
| RouteText.CRecovers | netinfo_common.c:169-189 | the C parser inverts rendering exactly when no metric comes without a gateway |
| RouteText.MetricAloneIsKept | netinfo_common.c:169-189 | a metric without a gateway becomes part of the address |
| RouteText.ShellRecovers | Linux/scripts/functions:878-903 | word splitting, the expansions, the printed line and the fields of awk recover address, gateway and metric of every clean route |
| RouteText.ShellRecoversPadded | Linux/scripts/functions:878-903 | the same with blanks, tabs and newlines in front of the route and anything behind the next |
| RouteText.PythonRecovers | Linux/scripts/netplan-cfg.py:48-64 | the script recovers the parts, with 0.0.0.0 for a missing gateway |
| RouteText.PythonRecoversPadded | Linux/scripts/netplan-cfg.py:48-64 | the same with white space around the route |
| RouteText.TwoMetrics | netinfo_common.c:169-189 | what each of the three parsers makes of a route with two metrics |
| RouteText.TwoGateways | netinfo_common.c:169-189 | what each of the three parsers makes of a route with two gateways |
| RouteText.ParsersAgree | netinfo_common.c:169-189 | all three parsers agree on every rendered route, up to that default and that exception |
| RouteText.MetricNumber | Linux/scripts/netplan-cfg.py:56-58 | a metric written in decimal is read as the same number |
| Names.FirstMatch | namelist.c:64-102 | search and removal act on the first name that matches ignoring case |
| Names.FitExact | namelist.c:146-157 | printing stops exactly at the first name that would not fit with its delimiter and NUL |
| Names.SplitWritten | namelist.c:207-232 | splitting what was written gives back the names |
| Names.PrintSplit | namelist.c:138-158 | bounded output splits into a prefix of the list, and into all of it exactly when it fits |
| Names.AgreeingListsMatch | namelist.c:160-193 | lists that agree as sets ignoring case are never reported as different |
| Names.MatchesMeans | namelist.c:160-193 | the comparison spelled out: each token says "remove" or is listed, and each name that is not skipped stands in the text, all ignoring case |
| Names.MatchedTokens | namelist.c:173-180 | where no difference is found, each token is listed or has "remove" in it, ignoring case |
| Names.RemovalsMatchNothing | namelist.c:175-176 | a request of removals alone matches the empty list |
| Names.OneOther | namelist.c:177-180 | a request for one name is not met by one other |
| Names.RealDifference | namelist.c:177-180 | a second server that is requested and not there is a difference |
| Names.MatchesExactly | namelist.c:160-193 | the comparison is set equality unless every request is listed, every compared name is part of a requested one and some is no requested name itself; and then it is not |
| Names.NoPartsMatch | namelist.c:160-193 | it is set equality when no compared name is part of a longer token |
| Names.PartOfTokenMatches | namelist.c:185-190 | a present name that is part of a requested one is taken for requested |
| Names.LongerAddressMatches | namelist.c:185-190 | an address that begins another requested one is taken for requested |
| Names.OccursInToken | namelist.c:187-187 | a name without the delimiter that occurs in the text occurs inside one token |
| NameList.List.Add | namelist.c:30-60 | the name is linked in last |
| NameList.List.Search | namelist.c:64-77 | found exactly when some name matches ignoring case |
| NameList.List.Remove | namelist.c:79-102 | the first matching name is unlinked, or 1 is returned and nothing changes |
| NameList.List.Split | namelist.c:207-232 | the tokens are appended in order |
| NameList.List.Print | namelist.c:138-158 | the buffer holds the bounded text as a C string, never a cut name |
| NameList.List.Compare | namelist.c:160-193 | equal exactly when every token that is no removal is listed and every name not skipped occurs in the text |
| DisableLog.CrashSafe | setnet.c:984-1001 | over every run of crashed and restarted sessions, after every single event, each adapter that was disabled and not successfully enabled since is in the log, and the log stays sound; enables may find the registry failing in any way, disables where what happens does no harm, and nothing is asked of what a crash prevents |
| DisableLog.OpsSafe | setnet.c:984-1001 | the same within one session, cut off anywhere |
| DisableLog.OpSafe | setnet.c:991-998 | saving before disabling and erasing after a successful enable keep every adapter covered at each step |
| DisableLog.EnableSafe | setnet.c:991-998 | an enable does so whatever the registry answers |
| DisableLog.CrashExact | setnet.c:984-1001 | over such runs every adapter is covered after every event if and only if each store and each command of a disable that happens keeps it so |
| DisableLog.SaveSound | setnet.c:519-545 | a save keeps the log repeat-free and within its buffer, and changes it by the one name |
| DisableLog.DisableExact | setnet.c:509-548 | with failing registry accesses a disable keeps every adapter covered exactly under the stated condition |
| DisableLog.StoreExact | setnet.c:509-548 | the same for the save of a disable that is cut off before its command |
| DisableLog.FailedReadForgets | setnet.c:516-545 | after a failed read a sound log loses the adapter it held |
| DisableLog.ReplayExact | setnet.c:1020-1030 | with any answers a replay leaves exactly the names whose enable failed or whose log could not be read or written, in their old order, although each turn rewrites the list |
| DisableLog.ReplayReliable | setnet.c:1020-1030 | with a registry that works those are the names whose enable failed |
| DisableLog.ReplayTwice | setnet.c:1008-1038 | a second replay has nothing to do exactly when every enable succeeded and was erased |
| DisableLog.OpsCommands | setnet.c:984-1001 | whatever the registry answers, every operation runs its command exactly once, in order |
| DisableLog.DisableStores | setnet.c:509-548 | a disable that finds nothing failing stores the old names and its own, each with a colon behind it, and then runs its command |
| DisableLog.FirstDisable | setnet.c:509-548 | without a log the first disable stores its name alone |
| Adapters.System.SaveAdapterDisabled | setnet.c:509-548 | read, edit, print and write produce exactly the events of one save for the answers given |
| Adapters.System.EnableAdapterName | setnet.c:984-1001 | the events of one operation, in their order |
| Adapters.System.RestoreAdapterState | setnet.c:1008-1038 | one enable for each listed name, with the events of all of them, or nothing when the list cannot be read |
| OptionSpec.ReadQuery | options.c:382-395 | the arguments of a query never take the cursor past the end |
| OptionSpec.ReadSetting | options.c:396-467 | the arguments of a setting never take the cursor past the end, and some are taken |
| OptionSpec.Turn | options.c:293-468 | every turn moves the cursor forward and not past the end, or stops |
| OptionSpec.GetOptMacFirst | options.c:208-225 | no newer entry fits than the one that is found |
| OptionRuns.ParsedIsSound | options.c:283-488 | on every argument vector, however parsing ends: one DHCP entry at most for a MAC, with value "4", "6" or "4 6", and one entry for a MAC in a query |
| OptionRuns.MergeKeeps | options.c:408-437 | merging a DHCP flag keeps that |
| OptionRuns.FlagIsFound | options.c:408-437 | a flag stops parsing exactly when it is the third for its MAC, and otherwise only its own entry changes |
| OptionRuns.ParsedSettings | options.c:283-488 | for every line of settings and switches: parsing stops at the first third DHCP flag; of what comes before, the value given last is found for each kind and MAC, DHCP has the flags' digits, and the switches that were given are on |
| OptionRuns.ParsedUpTo | options.c:283-488 | the same for settings with anything behind them: reading stops at the third flag or goes on behind them with what they leave |
| OptionLines.FirstWordDecides | options.c:315-328 | for every argument vector the first word alone decides the action |
| OptionLines.ParsedQueries | options.c:283-488 | for every line of queries and switches: one entry for a MAC with exactly the kinds asked for it, as flags exactly the kinds asked for without one, and all kinds where nothing is asked for |
| OptionLines.ParsedAll | options.c:296-300 | --all behind such a line asks for all kinds and empties the entries |
| OptionLines.ParsedOthers | options.c:283-488 | lines that clean or restart keep the switches and nothing else |
| OptionLines.SettingStops | options.c:396-459 | behind any settings: code 1 where a MAC or a value is missing; without IPv6, code 3 for an IPv6 value and for a first flag for DHCP over IPv6 |
| OptionLines.AllWord | options.c:296-300 | --all at any place |
| OptionLines.EndingWord | options.c:301-310 | asking for the version or for help ends the process with code 0 |
| OptionLines.UnknownWord | options.c:374-378 | any word but the known ones ends the process with code 1 |
| OptionLines.NoMacForSystem | options.c:382-395 | search domains and the host name are not asked for by MAC |
| Options.NetOpts.AddOptMac | options.c:84-115 | the kind is added to the entry of the MAC, or a new entry comes first |
| Options.NetOpts.CleanOptMac | options.c:159-170 | every entry loses these kinds |
| Options.NetOpts.CountOptMac | options.c:172-185 | the number of entries that have one of the kinds |
| Options.NetOpts.GetOptMac | options.c:208-225 | the node of the newest entry that fits, or NULL |
| Options.NetOpts.DhcpFlag | options.c:408-437 | the merge of a DHCP flag on the list |
| Options.NetOpts.Query | options.c:382-395 | a query option on the list, with the cursor behind its arguments |
| Options.NetOpts.Setting | options.c:396-467 | a setting option on the list, with the cursor behind its arguments, or the way parsing ends |
| Options.NetOpts.ParseOptions | options.c:283-488 | the loop ends, reads no word past the end and leaves what the specification says |
| ApplySpec.ChangedExactly | nettool.c:388-420 | an adapter is to change exactly when an entry of a deciding kind differs from what it has |
| ApplySpec.LoneRoute | nettool.c:388-420 | a route alone is set without a comparison and left out with one |
| ApplySpec.SatisfiedIsLeftAlone | nettool.c:388-420 | when settings are compared, an adapter that has what is asked for is left alone |
| ApplySpec.ChangedWhenUnsatisfied | nettool.c:388-420 | when settings are compared, an adapter is to change exactly when it lacks something its entries ask for and no part of a longer name hides that; so, without such parts, exactly when it is not satisfied |
| ApplySpec.DifferenceIsSeen | nettool.c:149-257 | the same for one value: DHCP flags, addresses, gateways or name servers |
| ApplySpec.OtherAddress | nettool.c:413-418 | one address asked for and one other there make an adapter one to change |
| ApplySpec.PlanExact | nettool.c:422-507 | every call that is due is made exactly once and no other is made |
| ApplySpec.PlanOrdered | nettool.c:422-507 | calls come in the fixed order of kinds, gateway removals before other gateways |
| ApplySpec.NothingPlanned | nettool.c:330-331 | without settings no call is made |
| ApplySpec.UnixNoPower | nettool.c:439-441 | outside Windows no adapter is switched off or on |
| ApplySpec.NotesAtEnd | nettool.c:523-526 | behind the setters a note about DHCP is left for exactly the adapters that are to be restarted |
| ApplySpec.RestartedExactly | nettool.c:515-529 | behind the last setter exactly the adapters that are to be restarted and are not off already are switched off, and these and those that were off are switched on; nothing else happens |
| ApplySpec.RestartsExactly | nettool.c:403-418 | for every build and both modes, in terms of the entry and the adapter: which adapters are to be restarted |
| ApplySpec.SwitchedWithoutRestart | setnet.c:657-712 | when DHCP is switched on without a restart |
| ApplySpec.DebugRestarts | nettool.c:403-405 | asking for DHCP that is off, with nothing compared, is followed by a restart exactly in builds with the macro |
| ApplySpec.WokenFirst | nettool.c:339-368 | missing adapters are woken before anything else happens |
| ApplySpec.MissingExactly | nettool.c:346-358 | the adapters that are woken are those asked for that were not found |
| Outcomes.ExcludeMeans | nettool.c:370-382 | an entry loses its kinds exactly when it names a MAC that no adapter has, and nothing else changes |
| Outcomes.EntryForMeans | options.c:208-225 | an adapter gets the first entry with its MAC and the kind |
| Outcomes.MissingInOrder | nettool.c:346-358 | missing adapters are woken in the order of their entries |
| Outcomes.KindsInOrder | nettool.c:422-507 | DHCP, addresses, gateways, search domains, name servers, routes, host name: calls never go back in this order |
| Outcomes.RemovalsFirst | nettool.c:295-317 | of two gateways the one whose value is a part of the word "remove" comes first |
| Outcomes.DownMeans | nettool.c:260-292 | an adapter is off when it was switched off and not on again |
| Outcomes.SetWhileOff | nettool.c:269-282 | on older Windows what is set for an adapter with a gateway or a route is set while it is off |
| Outcomes.OffOnlyWhen | nettool.c:269-282 | no adapter is switched off but there for that or to be restarted |
| Outcomes.OffForKind | nettool.c:431-442 | the loop for one kind switches off exactly the changed adapters that have an entry of that kind and a gateway or a route |
| Outcomes.OffAtEnd | nettool.c:422-507 | behind the last setter exactly the changed adapters with a gateway or a route are off, on older Windows |
| Apply.Run.FindIface | netinfo_common.c:71-82 | the first adapter with the MAC, or NULL |
| Apply.Run.EnableMissing | nettool.c:339-368 | exactly the entries whose MAC was not found are woken, in order, and those are waited for for which that worked |
| Apply.Run.ExcludeUnknown | nettool.c:370-382 | exactly the entries whose MAC was not found lose their kinds |
| Apply.Run.IsEqualDhcp | nettool.c:149-174 | equal exactly when compared and both flags agree, with the difference noted |
| Apply.Run.IsToChange | nettool.c:413-417 | whether the entry of a kind makes the adapter one to change |
| Apply.Run.DecideOne | nettool.c:396-418 | one adapter and kind: the mark, and what is noted about DHCP, with the macro and without |
| Apply.Run.DecideAll | nettool.c:388-420 | the marks and notes are exactly the decisions, and no setter is called meanwhile |
| Apply.Run.DoDisableAdapter | nettool.c:260-267 | an adapter is switched off at most once and noted as off |
| Apply.Run.EnableAdapterIfNeeded | nettool.c:284-292 | an adapter that was switched off is switched on, another is not touched |
| Apply.Run.TakeBack | setnet.c:657-712 | the setter of DHCP on Windows keeps the notes of what it switches on and forgets the others, unless it gives up early |
| Apply.Run.GetOptVal | nettool.c:295-317 | the next gateway entry of the pass, and none is skipped |
| Apply.Run.ApplyToIface | nettool.c:431-452 | one adapter and kind: the call that is due, if any, with the adapter switched off before where it has to be |
| Apply.Run.ApplyGateways | nettool.c:460-482 | one pass makes the calls for its entries with a known MAC, in list order |
| Apply.Run.ApplyKind | nettool.c:424-506 | the calls for one kind |
| Apply.Run.RestartAdapters | nettool.c:511-530 | the last loop adds exactly the restarts of the specification |
| Apply.Run.ApplyParameters | nettool.c:319-532 | missing adapters are woken before everything else; the calls are those of the plan for decisions taken before the first of them; the result is 0 exactly when every setter returned 0; adapters are switched off only where needed, restarted exactly where the specification says, and all are on at the end |
| Requests.AskedIsApplied | nettool.c:388-507 | from any line of settings and switches to the calls: the setter of a kind is called for an adapter exactly once, with the value given last, if it is asked for and the adapter is to change, and otherwise never; it is to change exactly when something asked for differs from what it has, or anything is asked for and nothing compared |
| Requests.LackingIsChanged | nettool.c:388-420 | from any line of settings and switches: the adapters to change are those that lack something the line asks for last, unless a part of a longer name hides that; without a comparison, those that anything is asked for |
| Resolv.SetDnsThenGet | BSD/resolvconf.c:113-144 | a nameserver that was set is enumerated, behind the earlier ones in their order, and setting it again changes nothing |
| ResolvLines.SetDnsCodes | BSD/resolvconf.c:113-144 | -22 exactly for more than 46 characters, -34 exactly when another nameserver stands behind 255 lines or more and in front of the one to be set; nothing changes then |
| ResolvLines.ScanNameserver | BSD/resolvconf.c:131-131 | a line names the word behind "nameserver", with any white space before and after, cut at 46 characters |
| ResolvLines.ScanSearchWords | BSD/resolvconf.c:155-155 | a line lists everything behind "search" and white space up to the newline |
| ResolvLines.ScanOther | BSD/resolvconf.c:131-131 | a line that starts with another word names and lists nothing |
| Resolv.SetSearchThenGet | BSD/resolvconf.c:146-194 | a search list that was set is read back, and the nameservers stay |
| Resolv.SettersCommute | BSD/resolvconf.c:113-194 | for all arguments the order of the two setters does not matter to results and getters |
| Resolv.AppendSurvivesReload | BSD/resolvconf.c:141-143 | an added nameserver line survives a save and a load exactly when the file was empty or ended in a newline |
| Resolv.AppendIsListed | BSD/resolvconf.c:113-144 | it is enumerated behind the old ones after that exactly then, or behind a harmless last line |
| Resolv.UnendedNameserverIsLost | BSD/resolvconf.c:141-143 | a nameserver on an unended last line makes one name with the word of the new line, cut at the length of the scan, so it is lost unless it has that length |
| Resolv.UnendedLineIsJoined | BSD/resolvconf.c:141-143 | a nameserver added behind an unended comment is not enumerated after a save and a load |
| Resolv.SearchSurvivesReload | BSD/resolvconf.c:162-194 | a new search list survives a reload exactly when it replaced one or the file was empty or ended in a newline |
| Resolv.LoadThenSave | BSD/resolvconf.c:51-97 | a load and a save without edits write the same file |
| ResolvConf.Conf.Load | BSD/resolvconf.c:51-79 | the lines of the file are linked in order |
| ResolvConf.Conf.Save | BSD/resolvconf.c:81-97 | the file becomes the lines one after the other |
| ResolvConf.Conf.SetNameserver | BSD/resolvconf.c:113-144 | the scan and the append do what the specification says, and the formatted line fits its buffer |
| ResolvConf.Conf.GetSearchList | BSD/resolvconf.c:146-160 | the first line that scans as a search list |
| ResolvConf.Conf.SetSearchList | BSD/resolvconf.c:162-194 | the first search line is replaced in place, or one is appended, and it fits its buffer |
| ResolvConf.Conf.NextDns | BSD/resolvconf.c:196-208 | the next line that names a server, with none in between |
| Netmask.MaskSection2Digit | Linux/scripts/nm-set_ip.sh:41-58 | the shifting loop ends and gives the number of ones, or -1 exactly when a zero comes before a one |
| Netmask.Mask2Cidr | Linux/scripts/nm-set_ip.sh:60-88 | over octet lists of any length the loop accepts exactly ones followed by zeros and prints the bit count of the other script |
| Netmask.NetmaskToCidrOnes | Linux/scripts/netplan-cfg.py:66-70 | the bit count is the number of ones in the mask |
| Netmask.PrefixMaskMeans | Linux/scripts/nm-set_ip.sh:66-82 | ones followed by zeros means that no zero comes before a one |
| MacText.MacToStr | netinfo_common.c:132-157 | succeeds exactly when there are bytes and three cells for each, and then writes 3n-1 characters, none cut off |
| MacText.DecodeMac | netinfo_common.c:149-155 | the text decodes to the same bytes |
| MacText.MacCells | netinfo_common.c:149-155 | cell by cell: the two lower-case hexadecimal digits of each byte, the higher first, and colons between bytes |
| MacText.MacInjective | netinfo_common.c:149-155 | different addresses print differently |

## Left out

- Numbered.SaveCapacity: needs at least one element; for an empty list the index buffer is never written (BSD/rcconf_sublist.c:213), which `Sublist.RcSublist.Save` models as any text.
- Numbered.PersistenceRoundTrip: needs keys shorter than 256 characters; a longer key is cut by `snprintf` without an error, which `Numbered.Save` models but no round trip survives.
- SetRoute.RunTwice: is about lists that are not empty and fit the index buffer; that the list is settled is said of the list of the first run, `SetRoute.SetAllTwice` gives the usual reason and `SetRoute.SetTwiceExactly` the exact one for one request.
- RouteWords.GatewayCommand: is about texts that fit the command buffer; longer ones are cut at 1023 characters, as `RouteWords.LongTexts` says.
- RcLine.Strip: needs one spare cell behind the terminator, which the code writes for a string of blanks (BSD/rcconf.c:336).
- Resolv.SearchList: does not model lines longer than the static scan buffer (BSD/resolvconf.c:149).
- RouteText.ParsersAgree: is about clean parts; what the parsers do with white space inside a part, and Python's error on a metric that is no number, is not compared. File name patterns in a part, which the shell would expand, are not modelled.
- Apply.Run.ApplyParameters: starts from the adapters that were found; the list is not read again behind the wait for woken ones, as in the code.
- Requests.AskedIsApplied: is about well-formed lines of settings and switches; gateways and settings of the system are covered by the exact plan only.
- Allocation failure, `free` and leaks: allocation always succeeds. NULL arguments of the library functions are not modelled.
- System commands, netsh, the registry, netlink, file locks and syslog: any answer, or a change of the model's state.
- The setters themselves other than `set_route` on BSD, and restarting the network.
- Adding the include section to rc.conf (BSD/rcprl.c:39-65).
- `strtok`, `sscanf` and `snprintf` are modelled by what the C library promises of them.
- Distribution detection, the other configuration scripts, printed reports and usage text.
- Route removal in the netplan script and the conversion from prefix to dotted mask.
