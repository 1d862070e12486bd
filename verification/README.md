# nsapi in Dafny

A model of nsapi, a Python client for the NationStates API, and of the
scripts built on it.  The library part is the dump bookkeeping of
`nsapi/resources.py` (when a daily dump is stale, what the resource manager
downloads and what it writes to its marker file), the XML helpers of
`nsapi/parser.py` and the record decoders of `nsapi/models.py`, the
nation-name normalisation of `nsapi/core.py`, and the older single-file
client `nsapi.py`.  The script part is the data logic of the tools that
use the client: endorsement cross-checks, roster checks and updates, card
binning, issue-count deltas and puppetmaster totals, status reports,
delegacy and ending searches, region collectors and rankings.

Every request to NationStates is a parameter of the model: a function from
a query (or a nation name) to what the API answers, or the decoded dump
itself.  The clock is a parameter too.  Files appear as state: the resource
manager and the older requester are classes whose fields are the set of
existing files, the marker or cookie contents and the log of downloads.

One module per source file, with the older copy of a script sharing the
module of its newer version:

- `Core` (core.dfy): `clean_format`, `same_nation`, `Name`
- `Parser` (parser.dfy): `NodeParse`, `label_children`, `content`, `sequence`
- `Models` (models.dfy): the `from_xml` decoders
- `Resources` (resources.dfy): resources, dump days, `ResourceManager`, `DumpManager`
- `LegacyClient` (legacy_client.dfy): nsapi.py: `NationStandard`, `raw_request`, `update_nation_dump`
- `Credentials`, `World` (auth.dfy, world.dfy): the credential of a nation request; the happenings query
- `Outcomes`, `Strings`, `Dates`, `Patterns`, `Sorting`, `Dicts`: exceptions, `str` operations, `datetime`, the delimited regular expressions, `sorted`, ordered dictionaries
- `Cross`: wa/cross.py, cross.py
- `Unendorsed`: wa/endorsements.py
- `RosterUpdate`, `RosterCheck`, `RosterRead`, `Deployed`: roster/rosterupdate.py, rosterupdate.py, roster/rosterread.py and rosterread.py, roster/deployed.py
- `CardSort`: cards/cardsort.py and cardsort.py (the older script bins by the card's `category`, the field the model calls its rarity, and does not lowercase the rarities entered)
- `IssueCounter`, `PuppetTotals`: cards/issuecounter.py and issuecounter.py
- `Status`: status.py
- `CardSend`, `Autologins`: cardsend.py, autologin/autologin.py
- `Update`, `Endings`: search/update.py and update.py, search/endings.py and endings.py
- `WaResidents`, `NationCollector`, `NationTags`: wa/waresidents.py and waresidents.py, search/nationcollector.py and its identical copy nationcollector.py, the `[nation]` forum tags
- `RegionCardPop`, `RarityFinder`, `RiseGenerator`: cards/regioncardpop.py and regioncardpop.py, cards/rarityfinder.py, cards/risegenerator.py
- `FactbookSearch`, `WaPopulation`: wfe.py, wapopulation.py

## Model

| member | source | states |
|---|---|---|
| Credentials.AuthOf | autologin/autologin.py:40-43 | the credential is an autologin exactly when the keys are autologins, and carries the key unchanged |
| World.TimeQuery | search/endings.py:59-61 | the `sincetime` and `beforetime` strings sent read back as the integers they were built from; the filter is passed unchanged |
| Core.CleanFormat | nsapi/core.py:69-71 | `clean_format` keeps the length and maps each character on its own: a space to an underscore, an upper-case letter to lower case, anything else unchanged |
| Core.CleanFormatShape | nsapi/core.py:69-71 | a cleaned name contains no space and no upper-case letter |
| Core.CleanFormatIdempotent | nsapi/core.py:69-71 | cleaning a cleaned name changes nothing |
| Core.SameNation | nsapi/core.py:74-82 | two names are the same nation exactly when they have equal length and agree character by character up to case and space versus underscore |
| Core.SameNationEquivalence | nsapi/core.py:74-82 | `same_nation` is reflexive, symmetric and transitive |
| Core.SameNationIgnoresCaseAndSpaces | nsapi/core.py:74-82 | a name is the same nation as its lower-cased form and as its cleaned form |
| Core.NameEqualsIsSameNation | nsapi/core.py:97-106 | `Name.__eq__` against a string holds exactly when the two are the same nation, and is symmetric |
| Core.NameEquals | nsapi/core.py:97-106 | a `Name` equals a string exactly when the two texts have equal length and agree character by character up to case and space versus underscore |
| Core.EqualNamesHashEqually | nsapi/core.py:108-110 | names that compare equal have equal hashes, as dict keys and set members need |
| Core.NameEqualsNormal | nsapi/core.py:88-106 | a `Name` equals its own normal form |
| Parser.Content | nsapi/parser.py:61-63 | the text of the element when it has one, else the empty string |
| Parser.GroupChildren | nsapi/parser.py:15-27 | the loop of the constructor leaves `child_tags` equal to the grouping of the children by tag |
| Parser.GroupByTagIsWithTag | nsapi/parser.py:15-27 | `child_tags` has a key for exactly the tags that occur, and each key lists exactly the children with that tag, in document order |
| Parser.DistinctTagsMembers | nsapi/parser.py:15-27 | the keys of `child_tags`, in insertion order, are exactly the occurring tags, each once |
| Parser.WithTagEmpty | nsapi/parser.py:15-27 | a tag has an empty group exactly when it does not occur among the children |
| Parser.NoEmptyGroup | nsapi/parser.py:15-27 | no list in `child_tags` is empty |
| Parser.GroupSizesSum | nsapi/parser.py:15-27 | the groups together hold every child exactly once (their sizes add up to the number of children) |
| Parser.Parse | nsapi/parser.py:15-27 | the parse keeps the node it was built from; what its groups hold is stated by `Parser.GroupByTagIsWithTag` |
| Parser.HasNameIff | nsapi/parser.py:29-31 | `has_name` holds exactly when some child carries the tag |
| Parser.FromNameSpec | nsapi/parser.py:33-39 | `from_name` is the children with the tag in document order, and a KeyError exactly when no child has it |
| Parser.WithTagFirst | nsapi/parser.py:41-45 | the first element of a tag group is a child with that tag and no earlier child has it |
| Parser.WithTagNone | nsapi/parser.py:41-45 | an empty group means that no child has the tag |
| Parser.FirstSpec | nsapi/parser.py:41-45 | `first` fails exactly when the tag is absent, and then with KeyError (never IndexError); otherwise it is the earliest child with the tag |
| Parser.LabelChildrenLast | nsapi/parser.py:52-58 | `label_children` has a key for exactly the occurring tags and maps each to the last child with that tag |
| Parser.Sequence | nsapi/parser.py:66-70 | on success one decoded value per child, each the decoding of the child at the same position; on failure the error of the first child whose decoding fails, every earlier child decoding |
| Strings.IndexOf | autologin/autologin.py:65 | the first position where the separator occurs, or none exactly when it occurs nowhere |
| Strings.SplitOnce | autologin/autologin.py:65 | `split(sep, maxsplit=1)`: one piece, the whole string, exactly when the separator does not occur; otherwise two pieces that rebuild the string around its first occurrence |
| Strings.JoinSplit | nsapi/models.py:531 | joining the pieces of `split(sep)` with the same separator gives the string back |
| Strings.SplitJoin | nsapi/models.py:531 | `split` on a one-character separator undoes a join with it when no piece contains the character |
| Strings.SplitPiecesFree | nsapi/models.py:531 | no piece of a split contains the separator |
| Strings.ReplaceIsSplitJoin | nsapi/core.py:71 | `replace(pat, rep)` is a split on `pat` joined with `rep` |
| Strings.Strip | autologin/autologin.py:65 | the stripped text is an infix `s[i..j]` of the input with only whitespace before `i` and from `j` on, and it neither starts nor ends with whitespace |
| Strings.ParseIntToString | search/endings.py:59-61 | `int(str(n)) == n` for every integer |
| Strings.UnsignedFloat | nsapi/models.py:230-232 | `float()` of unsigned text reads an unsigned decimal literal as its exact value and rejects anything else with ValueError |
| Strings.ParseIntAgreesWithFloat | nsapi/models.py:114-119 | whatever `int()` accepts, `float()` reads as the same number |
| Dates.NextDay | nsapi/resources.py:135 | adding a day gives a valid, later date |
| Dates.PrevDay | nsapi/resources.py:67-69 | subtracting a day gives a valid, earlier date |
| Dates.NextPrevInverse | nsapi/resources.py:67-69 | going one day back and one day forward are inverse |
| Dates.NextDayAdjacent | nsapi/resources.py:135 | no valid date lies strictly between a date and the next day |
| Dates.MonthBoundary | cards/issuecounter.py:341-343 | the day before the first of a month is the last day of the month before, and the next day of it is the first again |
| Dates.AddDay | nsapi/resources.py:135 | adding a day to a datetime gives a valid, later instant |
| Dates.IsoFormat | nsapi/resources.py:253 | `isoformat()` is ten characters with dashes at positions 4 and 7 |
| Dates.ParseIsoDate | cards/issuecounter.py:333-334 | whatever `fromisoformat` accepts is a valid date of a four-digit year |
| Dates.IsoRoundTrip | nsapi/resources.py:253 | `fromisoformat(d.isoformat()) == d` |
| Dates.IsoParsedFormat | cards/issuecounter.py:333-334 | every string `fromisoformat` accepts is the ISO form of the date it reads |
| Patterns.SearchLazySpec | roster/rosterread.py:17 | `re.search(open(.*?)close)` finds a match exactly when one exists, at the leftmost start, with the shortest group |
| Patterns.SearchGreedySpec | search/endings.py:66-67 | `re.search(open(.*)close)` finds a match exactly when one exists, at the leftmost start, with the longest group |
| Patterns.GroupLazy | roster/rosterread.py:17 | the group is present exactly when the lazy search matches |
| Patterns.GroupGreedy | search/endings.py:66-67 | the group is present exactly when the greedy search matches |
| Patterns.SubLazyNoMatch | search/update.py:72-90 | `re.sub` leaves text without a match unchanged |
| Patterns.SubLazyAvoids | search/update.py:72-90 | a character absent from the text and never introduced by the replacement is absent from the result |
| Patterns.SearchDelimited | search/update.py:72-90 | in `a@@x@@b` with `@` absent from `a` and `x`, the lazy match is the `@@x@@` after `a` |
| Patterns.SubDelimited | search/update.py:72-90 | substituting in such a text replaces the delimited group and goes on after it |
| Patterns.GroupGreedyDelimited | search/endings.py:66-67 | the greedy group of `a@@x@@b` with `@` absent from `a` and `b` is exactly `x` |
| Sorting.SortByKey | wa/cross.py:132 | `sorted(..., key=pair[0])` is sorted by key and a permutation of its input |
| Dicts.Get | cards/issuecounter.py:353-360 | `d[k]` fails exactly when the key is absent, with KeyError, and otherwise gives the value of an entry with that key |
| Dicts.Put | cards/issuecounter.py:353-360 | `d[k] = v` keeps the key order when the key is present, appends the pair when it is new, and keeps keys distinct |
| Dicts.GetPut | cards/issuecounter.py:353-360 | after `d[k] = v` the key `k` reads `v` and every other key reads what it read before |
| Dicts.FromPairs | cards/issuecounter.py:105 | a dict comprehension has distinct keys |
| Dicts.FromPairsIn | cards/issuecounter.py:105 | a comprehension holds exactly the keys it assigned |
| Dicts.FromPairsLast | cards/issuecounter.py:105 | each key of a comprehension holds the value it was assigned last |
| Dicts.FromPairsValue | cards/issuecounter.py:105 | every value a comprehension holds was assigned to that key by some pair |
| Dicts.LastPairWins | cards/issuecounter.py:105 | a key holds the value of the last item that assigns it |
| Dicts.PairsOfIn | cards/issuecounter.py:105 | a key is present exactly when some item assigns it |
| Dicts.Pop | cards/issuecounter.py:69 | `d.pop(k)` fails with KeyError exactly when the key is absent; otherwise one entry fewer and the key gone |
| Dicts.GetPop | cards/issuecounter.py:69 | after a pop every other key reads as before |
| Models.ChildTexts | nsapi/models.py:28-38 | the set of the children's texts, a child without text contributing "" |
| Models.DossierFromXml | nsapi/models.py:28-38 | `dossier` and `rdossier` hold exactly the texts of the children of the two nodes, "" for a child without text |
| Models.HappeningFromXml | nsapi/models.py:52-60 | KeyError without an `id` attribute; on success the id is the attribute's integer, the timestamp is None exactly when child 0 has no text and otherwise its integer, and the text is child 1's text or ""; too few children raise IndexError |
| Models.CardIdentifierFromXml | nsapi/models.py:73-85 | children 0, 1 and 2 by position, with 0, "" and "" for a missing text; IndexError when there are no children; with three children it fails exactly when the id text is not an integer |
| Models.Identifier | nsapi/models.py:126-131 | the identifier has the card's id, rarity and season |
| Models.CardInfoFromXml | nsapi/models.py:107-124 | the market value is the `float()` of the MARKET_VALUE text; on a node carrying every field, decoding fails exactly when that text is not a number |
| Models.DecimalRejectedByInt | nsapi/models.py:119 | `int("0.05")` raises ValueError |
| Models.DecimalReadByFloat | nsapi/models.py:119 | `float("0.05")` is 0.05 |
| Models.MarketValueCounterexample | nsapi/models.py:107-124 | on a CARD node with every field present and market value "0.05", the decoder as written raises ValueError while the corrected one gives 0.05 |
| Models.MarketValueIntegers | nsapi/models.py:107-124 | when the market value is an integer text, the decoder as written succeeds and agrees with the corrected one |
| Models.DictOfOk | nsapi/models.py:172-175 | a dict comprehension over children succeeds exactly when every key and every value can be computed |
| Models.DictOfKeys | nsapi/models.py:172-175 | its keys are exactly the keys of the children |
| Models.DictOfLast | nsapi/models.py:172-175 | a key holds the value of the last child with that key |
| Models.TrophiesOk | nsapi/models.py:172-175 | the trophies decode exactly when every trophy text is an integer |
| Models.TrophiesKeys | nsapi/models.py:172-175 | the trophy keys are the `type` attributes, "" where absent |
| Models.TrophiesLast | nsapi/models.py:172-175 | each trophy type holds the integer of the last trophy of that type |
| Models.CardStandardFromXml | nsapi/models.py:154-176 | on success the badges are the texts of the first BADGES child's children and the trophies are the trophy comprehension over the first TROPHIES child |
| Models.SplitNonEmpty | nsapi/models.py:415-419 | an empty text gives [], any other text a non-empty split that joins back to it |
| Models.OptionsOk | nsapi/models.py:320 | the options decode exactly when every option has an integer `id` |
| Models.OptionsKeys | nsapi/models.py:320 | the option keys are the options' ids |
| Models.OptionsLast | nsapi/models.py:320 | each id holds the text of the last option with that id |
| Models.IssueFromXml | nsapi/models.py:302-322 | KeyError without an `id`; on success the id is its integer, the editors are [] for an empty EDITOR and its ", "-split otherwise, `pic1`/`pic2` are "" when absent, and the options are the option comprehension |
| Models.FreedomTexts | nsapi/models.py:333-345 | `Freedoms.from_xml(node, str)` succeeds exactly when the three children exist, and holds their texts |
| Models.FreedomScores | nsapi/models.py:333-345 | `Freedoms.from_xml(node, int)` succeeds exactly when the three texts are integers, and holds their values |
| Models.GovernmentKeys | nsapi/models.py:433-435 | the government map holds exactly the tags of the GOVT children |
| Models.NationOpening | nsapi/models.py:409-424 | the NAME to TAX fields in argument order; the endorsements text read is `simple("ENDORSEMENTS")` |
| Models.NationMiddle | nsapi/models.py:425-438 | the ANIMAL to LASTLOGIN fields in argument order; the government map is the comprehension over the first GOVT child |
| Models.NationClosing | nsapi/models.py:439-448 | the INFLUENCE to DBID fields in argument order; the deaths are `sequence` over the first DEATHS child |
| Models.NationStandardFromXml | nsapi/models.py:404-449 | on success the endorsements are [] for an empty text and its ","-split otherwise, the deaths and the government map are decoded from their children |
| Models.NationStandardWithoutName | nsapi/models.py:409 | a NATION element without NAME raises KeyError("NAME") before anything else |
| Models.LabelTextLast | nsapi/models.py:465-478 | reading a tag from `label_children` succeeds exactly when the tag occurs, gives the text of its last child, and otherwise raises KeyError |
| Models.OfficerFromXml | nsapi/models.py:465-478 | every officer field is the text of the last child with its tag (TIME as an integer); a missing NATION raises KeyError("NATION") |
| Models.DeathCauseFromXml | nsapi/models.py:355-360 | a death cause decodes exactly when the node has a `type` attribute and its text reads as a float, and then holds both; a missing `type` raises KeyError("type") |
| Models.EmbassyFromXml | nsapi/models.py:488-494 | the region is the text; the status is the `type` attribute, or "open" when absent |
| Models.RegionStandardFromXml | nsapi/models.py:523-542 | on success the nations are the ":"-split of the last NATIONS child (never empty), the officers and the embassies are decoded from the last OFFICERS and EMBASSIES children |
| Models.EmptyListTexts | nsapi/models.py:415-419 | an empty endorsements text gives [], while an empty NATIONS text gives [""] (line 531) |
| Resources.NextUpdate | nsapi/resources.py:129-137 | the next regeneration instant has the update time of day and lies in [previous, previous + 1 day) |
| Resources.NextUpdateFirst | nsapi/resources.py:129-137 | it is the first instant at or after `previous` with that time of day |
| Resources.OutdatedWindow | nsapi/resources.py:118-137 | a daily resource is never outdated at a time before it was fetched, and always outdated a day or more after |
| Resources.OutdatedMonotone | nsapi/resources.py:96-137 | once outdated, a resource stays outdated as the current time grows |
| Resources.StaticNeverOutdated | nsapi/resources.py:96-109 | a plain `Resource` is never outdated |
| Resources.CurrentDumpDay | nsapi/resources.py:57-70 | `current_dump_day` is the day whose dump is available: now lies within the day after 07:00 of the day following it |
| Resources.LastDumpTimestamp | nsapi/resources.py:73-86 | the latest 06:00 at or before now |
| Resources.DumpDayBeforeGeneration | nsapi/resources.py:57-86 | outside 06:00-07:00 the dump day is the day before the last generation |
| Resources.DumpDayLagsInSixthHour | nsapi/resources.py:57-86 | between 06:00 and 07:00 the dump day lags the last generation by two days |
| Resources.Resolve | nsapi/resources.py:155-161 | a non-empty target is used as given; a missing or empty target falls back to the resource's name |
| Resources.UpdatePlanDownload | nsapi/resources.py:182-218 | `update` fails exactly when the marker file is not JSON (a JSON error) or its entry for the resource is not ISO date-time text (a ValueError naming that text); otherwise it downloads exactly when the marker is missing, lacks the name, holds an outdated time, or the file is absent |
| Resources.UpdatePlanMarker | nsapi/resources.py:192-214 | the written marker records now for the resource when it was refetched and is the marker read otherwise; every other entry, readable or not, is kept as read |
| Resources.UpdateIdempotent | nsapi/resources.py:182-218 | a second `update` at the same instant downloads nothing and writes the same marker, unless now falls exactly on the daily update time |
| Resources.AfterVerify | nsapi/resources.py:172-180 | the state after `verify`: the file exists afterwards, and it was fetched exactly when it was missing |
| Resources.VerifyAfterUpdate | nsapi/resources.py:172-218 | verifying twice equals verifying once; `update` fails exactly on a marker that is not JSON or whose entry for the resource is not an ISO date-time, and after a successful one the file exists, a verify changes nothing, and at most one download was made |
| Resources.ResourceManager.DownloadResource | nsapi/resources.py:163-170 | the resolved path is added to the files and the download is logged; the marker is untouched |
| Resources.ResourceManager.Verify | nsapi/resources.py:172-180 | nothing changes when the resolved path exists; otherwise exactly one download to it |
| Resources.ResourceManager.Update | nsapi/resources.py:182-218 | a marker that is not JSON, or whose entry for the resource is not an ISO date-time, is an error and changes nothing; otherwise the marker is rewritten with the planned entries and the file is downloaded exactly when the plan says so |
| Resources.DumpResource | nsapi/resources.py:226-246 | the resource table: a valid resource for each of its four names, and none for any other |
| Resources.DumpResourcePolicies | nsapi/resources.py:226-246 | the live dumps regenerate daily at 06:00 and the card lists never change |
| Resources.ArchivedDump | nsapi/resources.py:247-257 | an archived dump is a valid plain (never outdated) resource |
| Resources.ArchivedDumpSpec | nsapi/resources.py:247-257 | the archive name is the ISO date, which reads back as that date, then "-<dump>-xml.gz"; the source is the name under the dump's archive directory |
| Resources.Events | nsapi/resources.py:279-309 | the events of an element start with its start event and end with its end event |
| Resources.PostOrder | nsapi/resources.py:279-309 | the end order of a subtree ends with its root |
| Resources.EndsArePostOrder | nsapi/resources.py:279-309 | the end events of an element arrive in post-order |
| Resources.RetrievedSpec | nsapi/resources.py:297-309 | every yielded element has a listed tag; with no tags every element is yielded; the root is yielded exactly when its tag is listed |
| Resources.RetrieveIterator | nsapi/resources.py:279-309 | the loop over the events yields exactly `Retrieved`: the wanted elements in end order, then the root if wanted, in the state the tree builder leaves it after the clears |
| Resources.ReadChild | nsapi/resources.py:303-309 | the events of one child of the root yield that child's wanted elements in end order; the root holds the child appended at its start event, or is cleared (tag only) if anything in the child was yielded |
| Resources.RootAfterSpec | nsapi/resources.py:297-309 | after the root's children are read, the root holds all of them when no child's subtree yielded anything; otherwise it has lost its text and attributes and holds exactly the children after the last child whose subtree yielded |
| Resources.RetrievedRoot | nsapi/resources.py:297-309 | a wanted root is yielded last: unchanged when nothing came before it, otherwise cleared and holding the children that start after the last yielding child |
| Resources.RetrievedClearedRoot | nsapi/resources.py:297-309 | a root R with leaf children A then B and tags {R, A} yields A, then R without text or attributes holding only B |
| Resources.DumpChoice | nsapi/resources.py:311-338 | with a date the archived dump of that day (never outdated), without one the table's entry for the name |
| Resources.DumpManager.constructor | nsapi/resources.py:259-263 | a fresh resource manager over the given files and marker, with nothing downloaded |
| Resources.DumpManager.NamedDailyDump | nsapi/resources.py:311-338 | an unknown name without a date is a KeyError and changes nothing; otherwise the chosen resource is updated or verified, the manager's new state is exactly that of `AfterUpdate` or `AfterVerify`, an update error is returned with the state unchanged, and the result is the decoding of every element with the tag |
| Resources.DumpManager.Nations | nsapi/resources.py:340-356 | as `NamedDailyDump` for "nations" and NATION elements |
| Resources.DumpManager.Regions | nsapi/resources.py:358-374 | as `NamedDailyDump` for "regions" and REGION elements |
| Resources.DumpManager.Cards | nsapi/resources.py:376-391 | an unknown season is a KeyError and changes nothing; otherwise the card list is verified (downloaded only when missing) and every CARD element decoded |
| LegacyClient.EnumerateMapInverse | nsapi.py:277-279 | the enumeration map's keys are the listed tags, each mapped to a position that holds it, the last such position |
| LegacyClient.TagMapInvertsTagList | nsapi.py:242-279 | `tag_list[tag_map[t]] == t` for every listed tag, and the map knows no other tag |
| LegacyClient.FirstWithTagSpec | nsapi.py:314-324 | `find_tag` gives the earliest child with the tag and raises ValueError exactly when no child has it |
| LegacyClient.FindTag | nsapi.py:314-324 | the scan that returns at the first match computes `find_tag`'s answer |
| LegacyClient.WithTagPrefix | nsapi.py:314-324 | a child with the tag that has no earlier one heads the tag's group |
| LegacyClient.LookupSpec | nsapi.py:286-305 | a returned child always has the requested tag, and is the child at the mapped index or the earliest with the tag; IndexError exactly when the node is shorter than the mapped index; ValueError exactly when no child has the tag otherwise |
| LegacyClient.GetItem | nsapi.py:286-305 | `__getitem__` computes the lookup |
| LegacyClient.Basic | nsapi.py:307-312 | the text of the looked-up child, "" when it has none, with the lookup's error otherwise |
| LegacyClient.RequestUrl | nsapi.py:173-188 | the URL starts with base + api + "&q=", and nothing follows it when there are no shards |
| LegacyClient.RequestUrlShards | nsapi.py:182-185 | the part after "&q=" splits on '+' back into the shards when no shard name holds a '+' |
| LegacyClient.ShardsDictLastChild | nsapi.py:222-231 | every requested shard is mapped to the text of the last child of the response; an empty response gives an empty dict |
| LegacyClient.Shard | nsapi.py:233-235 | a shard reads the text of the response's last child; KeyError when the response had none |
| LegacyClient.DumpDayYear | nsapi.py:57-68 | the dump day of a clock in years 2..9999 has a four-digit year |
| LegacyClient.DumpDayText | nsapi.py:110 | the ISO text written to the cookie reads back as `current_dump_day()` |
| LegacyClient.NationDumpPlanSpec | nsapi.py:89-133 | error exactly for an unreadable cookie or a timestring `fromisoformat` rejects; a download exactly when the cookie is missing, lacks the timestring, holds an earlier day, or the dump file is absent; a stale cookie gets the current dump day and keeps its other keys, a fresh one is written back unchanged |
| LegacyClient.NationDumpSettles | nsapi.py:89-133 | after an update, a second one at the same clock with the dump in place downloads nothing and rewrites the same cookie |
| LegacyClient.LegacyRequester.constructor | nsapi.py:74-79 | a requester over the given dump path, files and cookie, with nothing downloaded |
| LegacyClient.LegacyRequester.DownloadNationDump | nsapi.py:81-87 | the dump path is added to the files and the download logged; the cookie is untouched |
| LegacyClient.LegacyRequester.UpdateNationDump | nsapi.py:89-133 | an error changes nothing; otherwise the cookie is always rewritten with the plan's fields and the dump is downloaded exactly when the plan says so, so the dump file exists afterwards |
| Resources.ResourceManager.constructor | nsapi/resources.py:143-153 | a new manager starts from the given files and a well-formed marker, with no downloads made |
| CardSort.Bump | cards/cardsort.py:63-68 | bumping a card adds one to its count and leaves every other card's count alone |
| CardSort.BumpKeys | cards/cardsort.py:63-68 | a nation's bin keeps its cards in first-seen order, a new card appended |
| CardSort.AddCard | cards/cardsort.py:48-68 | binning one card fails with KeyError exactly when its rarity is not a key of the result; the rarity keys never change |
| CardSort.ApplySnoc | cards/cardsort.py:48-68 | one more card is one more binning step, unless an earlier step failed |
| CardSort.ApplyAppend | cards/cardsort.py:48-68 | binning two runs of cards is binning the first and then the second from its result |
| CardSort.SortDeck | cards/cardsort.py:55-68 | the loop over one deck computes the binning of that deck's cards |
| CardSort.Sort | cards/cardsort.py:27-70 | the loop over the nations computes `sorted_cards` |
| CardSort.AddCardIs | cards/cardsort.py:55-68 | one card puts the nation's bin, with the card bumped, back under its rarity |
| CardSort.AddCardWellFormed | cards/cardsort.py:55-68 | binning keeps every level of the result free of duplicate keys |
| CardSort.AddCardCount | cards/cardsort.py:55-68 | one card raises exactly its own count `out[r][n][c]` by one |
| CardSort.AddCardPresent | cards/cardsort.py:57-62 | after one card, a nation is present under a rarity exactly when it was before or the card is its |
| CardSort.ApplyWellFormed | cards/cardsort.py:48-68 | a run of cards keeps the result free of duplicate keys |
| CardSort.ApplyCount | cards/cardsort.py:48-68 | after a run of cards, each count has grown by the number of times that (nation, card) occurs, under the card's rarity |
| CardSort.ApplyPresent | cards/cardsort.py:57-62 | after a run, a nation is present under a rarity exactly when it was, or holds a card of that rarity in the run |
| CardSort.ApplyKeys | cards/cardsort.py:36-46 | a run never changes the rarity keys |
| CardSort.ApplySucceeds | cards/cardsort.py:56 | a run succeeds exactly when every card's rarity is a key |
| CardSort.ApplyError | cards/cardsort.py:56 | the first card with an unknown rarity makes the whole run raise KeyError for that rarity |
| CardSort.DeckEventsCount | cards/cardsort.py:48-68 | a deck contributes a (nation, card) pair as often as the deck holds the card, and only for its own nation |
| CardSort.EventsCount | cards/cardsort.py:48-68 | over all nations, a pair occurs (times the nation is listed) x (copies in its deck) |
| CardSort.EventsMember | cards/cardsort.py:48-68 | a pair occurs exactly when the nation is listed and its deck holds the card |
| CardSort.InitialEmpty | cards/cardsort.py:36-46 | the initial result has the seven rarity keys, "" included, and every count is 0 |
| CardSort.RaritiesDistinct | cards/cardsort.py:36-46 | the seven rarity keys are distinct |
| CardSort.SortedCardsOk | cards/cardsort.py:27-70 | `sorted_cards` succeeds exactly when every card of every listed deck has one of the seven rarities |
| CardSort.SortedCardsCount | cards/cardsort.py:27-70 | the result has exactly the seven rarity keys, and `out[r][n][c]` is the number of copies of `c` in `n`'s deck (times `n` is listed) when `r` is `c`'s rarity, else 0 |
| CardSort.SortedCardsPresent | cards/cardsort.py:57-62 | a nation appears under a rarity exactly when it is listed and its deck holds a card of that rarity |
| CardSort.BinCardsMember | cards/cardsort.py:73-82 | a card is extracted from a rarity's bins exactly when some nation's bin holds it |
| CardSort.ExtractedMember | cards/cardsort.py:73-82 | `extracted_cards` yields exactly the cards of every nation bin of every rarity |
| CardSort.ExtractedCounted | cards/cardsort.py:73-82 | every card with a non-zero count is extracted |
| CardSort.NameOf | cards/cardsort.py:92-99 | a non-empty name is the name of a dump card with that id |
| CardSort.NameOfAppend | cards/cardsort.py:92-99 | over two dumps, a card in the later one takes its name from there, else from the earlier one |
| CardSort.NameOfLater | cards/cardsort.py:92-99 | a season-2 name overrides a season-1 name for the same id |
| CardSort.NameOfEarlier | cards/cardsort.py:92-99 | an id the later dump lacks keeps the earlier dump's name |
| CardSort.NameOfLast | cards/cardsort.py:92-99 | an id takes the name of the last dump card with that id |
| CardSort.NamedCards | cards/cardsort.py:85-99 | the result maps exactly the input ids, each to its last name across season 1 then season 2, "" when no dump card has it; dump ids not in the input are ignored |
| CardSort.SelectedRaritiesJoin | cards/cardsort.py:151-156 | typing the rarities joined by "," selects exactly those rarities, lower-cased |
| CardSort.SelectedRaritiesLower | cards/cardsort.py:151-156 | the selected rarities are lower-case, and the default excludes "" |
| CardSort.Copies | cards/cardsort.py:193-198 | `range(count)` copies of a row: `count` rows when positive, none otherwise |
| CardSort.EntryRows | cards/cardsort.py:186-204 | a row is the card link, the card's name, the nation and the rarity separated by ", ", with ", <count>" added when collecting; without collecting there is one such row per copy; every row has one field per header column |
| CardSort.Header | cards/cardsort.py:175-180 | the header is the column names card, cardName, nation, rarity, and copies only when collecting, separated by ", " |
| CardSort.CsvLines | cards/cardsort.py:172-204 | the file is the header, then lines that each have one field per header column; with no selected rarity in the data it is the header alone |
| CardSort.DataRowsShaped | cards/cardsort.py:182-204 | when every row a card entry gives has a given number of fields, so does every line the rarities give |
| CardSort.LegacyEntryRows | cardsort.py:102-110 | the older script writes one row per card: the card link, the nation, the rarity and the count separated by ", ", under the four legacy columns |
| CardSort.LegacyHeader | cardsort.py:96 | the older header is the column names card, nation, rarity, copies separated by ", " |
| CardSort.LegacyCsvLines | cardsort.py:92-110 | the older file is its header, then lines with one field per legacy column; with no selected rarity in the data it is the header alone |
| CardSort.DataRowsUnselected | cards/cardsort.py:182-184 | rarities not selected contribute no row |
| CardSort.DataRowsAppend | cards/cardsort.py:182-204 | the rows of the rarities are written in the result's order, rarity after rarity |
| CardSort.CountsRowsLength | cards/cardsort.py:186-204 | a nation's bin gives one row per card when collecting and one per copy otherwise |
| CardSend.PiecePair | cardsend.py:38-42 | a piece yields a key-value pair exactly when it holds '='; the pair joined by '=' is the piece again and the key holds no '=' (the split is at the first '=') |
| CardSend.PieceSplit | cardsend.py:41 | the pair is what splitting once at '=' gives, and a piece without '=' gives none |
| CardSend.PieceValueMayContainEquals | cardsend.py:41 | a value may itself contain '=': only the first '=' separates key from value |
| CardSend.ParseLink | cardsend.py:36-42 | the loop over the '/'-separated pieces builds the key-value dictionary of the link, a later key overwriting an earlier one |
| CardSend.LinkPieces | cardsend.py:37 | a link joined from '/'-free pieces is read back piece by piece |
| CardSend.CardSeasonPieces | cardsend.py:37-46 | when the last two pieces are `card=x` and `season=y`, the dictionary maps card to x and season to y |
| CardSend.CardLinkData | cardsend.py:37-46 | any path prefix before `card=x/season=y` leaves card and season read as x and y |
| CardSend.CardOf | cardsend.py:46 | a missing card key is a KeyError, a non-integer card a ValueError; success exactly when both keys are present and parse as integers, and then the pair is their values |
| CardSend.CardLink | cardsend.py:46 | a link ending in `card=c/season=s` for naturals c and s yields exactly (c, s) |
| CardSend.CardMissing | cardsend.py:46 | a link with no `card=` piece fails with KeyError("card") |
| CardSend.SendCard | cardsend.py:20-46 | a link that cannot be decoded fails with the decoding error; the gift succeeds exactly when the link decodes and the server accepts the gift of that card and season from the sender, with its credential, to the receiver |
| CardSend.SendCards | cardsend.py:91-116 | the loop over the rows computes exactly the run of rows (senders created, credentials set, one outcome per row) |
| CardSend.RunLog | cardsend.py:95-116 | every row logs exactly one outcome, and the outcomes of a prefix of the rows are a prefix of the outcomes |
| CardSend.RunRowsLog | cardsend.py:95-116 | one more row appends one outcome and leaves earlier outcomes alone |
| CardSend.RowOutcome | cardsend.py:96-116 | a row with fewer than three columns fails with IndexError; any other row's outcome is sending its card from the cleaned sender, with the credential held after that row, to its receiver |
| CardSend.RunSenders | cardsend.py:98-100 | each sender is created once, and a nation has a sender exactly when some row with at least two columns names it |
| CardSend.SenderRowSnoc | cardsend.py:98-100 | a nation is named by the rows exactly when it is named by all but the last row or by the last row |
| CardSend.RunCredentialsHeld | cardsend.py:104-109 | a nation has a credential exactly when some row with a fourth column names it as sender |
| CardSend.CredentialRowSnoc | cardsend.py:104-109 | a nation has a credential row exactly when an earlier row or the last row supplies one |
| CardSend.RunCredentialsLast | cardsend.py:104-109 | the credential kept is the one from the last row that supplies one for that sender, read as autologin or password as chosen |
| CardSend.RunRowsCredential | cardsend.py:104-109 | a row with a fourth column replaces its sender's credential, and any other row leaves every credential alone |
| Autologins.ParseLine | autologin/autologin.py:58-66 | a line is split once at the first delimiter after stripping: no second token exactly when the delimiter does not occur, the tokens joined by the delimiter give the stripped line and the first holds no delimiter; an empty delimiter is a ValueError |
| Autologins.ParseLineFirstComma | autologin/autologin.py:58-66 | `name,key` with a comma-free name and no surrounding space parses to the name and the key, even when the key holds commas |
| Autologins.KeptPair | autologin/autologin.py:93-95 | a line contributes a nation exactly when it has a second token that is not empty, and the pair is its two tokens |
| Autologins.NationsListed | autologin/autologin.py:93-95 | a nation is in the input dictionary exactly when one of the kept lines names it |
| Autologins.NationsLastKey | autologin/autologin.py:93-95 | a nation listed on several lines keeps the key of its last line |
| Autologins.LoginOf | autologin/autologin.py:38-54 | only an APIError of the shard request gives None; any other error of it, every error of `get_autologin()` (an APIError included, taking precedence over missing shards), and a reply without region or unstatus are errors; otherwise the entry holds the autologin key, the region and whether the WA status starts with "WA" |
| Autologins.AutologinEntries | autologin/autologin.py:29-55 | the output has exactly the input nations as keys, in order; a nation maps to None exactly when its shard request failed, and otherwise to its entry |
| Autologins.ZipNext | autologin/autologin.py:48-54 | storing the next nation's result extends the output by that nation alone, because the input nations are distinct |
| Autologins.Autologin | autologin/autologin.py:29-55 | the loop over the nations computes exactly the specified output dictionary, or the first error raised |
| Autologins.KeyLineRoundTrip | autologin/autologin.py:110-113 | a written key line read back by `parse_line` gives the nation and its key, or "None" for a failed login |
| Autologins.SummaryLineShape | autologin/autologin.py:100-107 | a successful login reports the nation and its region, with " (WA)" added exactly for WA members; a failed one reports the failure |
| RegionCardPop.PreviousSet | cards/regioncardpop.py:16-18 | a missing previous collection is the empty set, and a given one is kept |
| RegionCardPop.ParticipantsMembers | cards/regioncardpop.py:26-38 | a nation is a participant exactly when it is a resident, not a previous one, and holds cards, bank, a valuation or an opened pack; there are never more participants than residents |
| RegionCardPop.RequestsMembers | cards/regioncardpop.py:12-15 | the requests are made for exactly the residents not seen before, at most one per resident |
| RegionCardPop.ParticipantsAppend | cards/regioncardpop.py:26-36 | the participants of two runs of residents are those of the first followed by those of the second, so the order of residents is kept |
| RegionCardPop.VisitResidents | cards/regioncardpop.py:20-38 | the loop over the residents returns exactly the specified participants and makes exactly the specified requests |
| RegionCardPop.CheckRegion | cards/regioncardpop.py:9-38 | the residents come from splitting the "nations" shard at ':', and the result is their participants against the previous collection |
| RegionCardPop.RootOutputLines | regioncardpop.py:49-51 | the older writer puts each tagged participant on its own line, so the file splits at newlines into the tags and an empty last piece; with no participants the file is empty |
| RegionCardPop.ReadLines | cards/regioncardpop.py:66-77 | reading a file's lines never yields an empty line |
| RegionCardPop.ReadOneLine | cards/regioncardpop.py:77 | a file of one terminated line reads as that line with its newline |
| RegionCardPop.LineNamesTagged | cards/regioncardpop.py:73-80 | removing the opening tags and splitting at the closing tags, less the last piece, gives back the participants written on a line |
| RegionCardPop.PreviousRoundTrip | cards/regioncardpop.py:73-88 | the file a run writes, read back as a previous collection, is exactly the set of that run's participants |
| RegionCardPop.CardsOutput | cards/regioncardpop.py:83-88 | the file is the tagged participants back to back, then one newline; for names without newlines it reads back as that single line |
| NationCollector.FilterRegionsMembers | search/nationcollector.py:9-22 | a region is kept exactly when the tag search returned it and no exclusion has the same cleaned name; the result is never longer than the search |
| NationCollector.FilterRegionsAppend | search/nationcollector.py:18-22 | filtering keeps the search order |
| NationCollector.NationsByRegionKeys | search/nationcollector.py:25-41 | a cleaned name is a key of the output exactly when some dump region has it and it was asked for under some spelling |
| NationCollector.NationsByRegionLast | search/nationcollector.py:35-39 | a region's entry is the cleaned residents of the last dump region with that cleaned name |
| NationCollector.NationsByRegion | search/nationcollector.py:31-41 | the loop over the dump computes exactly the specified region-to-residents dictionary |
| NationCollector.AnnouncementLineRegion | search/nationcollector.py:70 | a line splits at its first colon into the region and the tags of its nations, for a region name without a colon |
| NationCollector.AnnouncementLinesBack | search/nationcollector.py:70 | the announcement splits at newlines into its region lines and an empty last piece; an empty map gives a lone newline |
| NationCollector.DefenderExcluded | search/nationcollector.py:44-63 | no excluded region gets a line under any spelling that cleans alike, and every region that does was returned by the "defender", "-fascist" tag search |
| NationCollector.DefenderAnnouncement | search/nationcollector.py:44-70 | the defender text is one line per region of the defender map, in its order, then a newline, and a lone newline when no region is left; which regions appear is stated by DefenderExcluded |
| Cross.Outgoing | wa/cross.py:57-59 | an endorsement text with fewer than two "@@" pieces, or an outgoing one with fewer than four, raises IndexError; otherwise the set is exactly the endorsees of the texts whose endorser is the nation |
| Cross.NoMarkerRaises | wa/cross.py:58 | a happening text without "@@" raises IndexError |
| Cross.Uncrossed | wa/cross.py:20-64 | the result fails exactly when some happening since now minus the duration is malformed; otherwise it is exactly the lead's endorsers that the nation has not endorsed in that window |
| Cross.UncrossedLegacy | cross.py:23-63 | the older copy fails on the same malformed happenings, and otherwise gives exactly the nation's own endorsers that it has not endorsed in the window |
| Cross.UncrossedLegacyIgnoresLead | cross.py:23-63 | the older copy's answer does not depend on the lead |
| Cross.Endorsements | wa/cross.py:67-75 | the keys are exactly the lead and its endorsers, each mapped to its own endorsement list |
| Cross.Unendorsing | wa/cross.py:96-100 | a key is listed exactly when it is not the nation and its endorser set lacks the nation |
| Cross.UnendorsingOne | wa/cross.py:96-100 | one entry adds its key when that key is another nation whose endorsers lack the nation, and nothing otherwise |
| Cross.UnendorsingAppend | wa/cross.py:96-100 | the list of two runs of entries is that of the first followed by that of the second, so the keys keep the input order |
| Cross.MissingCrosses | wa/cross.py:92-102 | the result has the reference's keys, in order |
| Cross.MissingCrossesSpec | wa/cross.py:78-102 | for each nation, the others listed are exactly the keys other than itself whose endorsers do not include it, and the list is `Unendorsing` over the endorser sets in key order |
| Cross.MissingCrossesUsesSets | wa/cross.py:88-90 | only the set of each nation's endorsers matters, not their order or repetitions |
| Deployed.OwnersOf | roster/deployed.py:33 | never longer than the endorsers, and a nation is listed exactly when it owns one of the endorsers |
| Deployed.Deployed | roster/deployed.py:16-33 | never more members than endorsements, and a main is listed exactly when it owns some cleaned endorser of the lead |
| Deployed.OwnersOfOne | roster/deployed.py:33 | one endorser adds its owner when the owner table knows it, and nothing otherwise |
| Deployed.OwnersOfAppend | roster/deployed.py:33 | the owners of two runs of endorsers are those of the first followed by those of the second, so order and repetitions are kept |
| Deployed.DeployedAppend | roster/deployed.py:23-33 | `deployed` goes endorsement by endorsement: a main is listed once per endorsement by it or a switcher of it, in endorsement order, and `format_deployed` counts those repetitions |
| Deployed.DeployedOne | roster/deployed.py:23-33 | a single endorsement yields the owner of its cleaned name, if the table has one |
| Deployed.SwitcherPairsFrom | roster/deployed.py:25-29 | every inverted pair is a cleaned switcher of some main, paired with that main |
| Deployed.OwnerIsMain | roster/deployed.py:25-31 | every owner is a main of the roster, owning either itself or one of its cleaned switchers |
| Deployed.MainOwnsItself | roster/deployed.py:31 | a main owns itself even when it is also listed as someone's switcher, because the mains are added last |
| Deployed.EndorsingMainCounts | roster/deployed.py:31-33 | a main that endorses the lead itself is deployed |
| Deployed.DeployedAreMains | roster/deployed.py:16-33 | everyone deployed is a main that endorses the lead itself or through one of its switchers |
| Deployed.Deployments | roster/deployed.py:47 | each lead appears once as a key |
| Deployed.DeploymentsSpec | roster/deployed.py:36-47 | the keys are exactly the leads, each mapped to who is deployed on it |
| Deployed.LastIndex | roster/deployed.py:47 | the last position of a lead, at which a repeated lead's answer is taken |
| Deployed.FormatDeployed | roster/deployed.py:50-52 | the line starts with the lead, ends with the members joined by ", ", and the number in parentheses reads back as the member count |
| Endings.EndingsWindow | search/endings.py:43-56 | `before` defaults to now when falsy, and `since` to twenty-four hours before `before` when falsy |
| Endings.LegacyEndingsWindow | endings.py:41-54 | in the older script a falsy `since` defaults to twenty-four hours before now, not before `before` |
| Endings.EndingsWindowsAgree | endings.py:44-54 | the two scripts ask for the same window exactly when `before` is falsy, `since` is given, or `before` is now |
| Endings.LegacyFounderEndings | endings.py:67-76 | the older `founder_endings` has no statements and returns None for every window |
| Endings.EndingOf | search/endings.py:65-70 | a happening yields an ending exactly when both the `@@(.*)@@` and the `%%(.*)%%` searches match, and then the nation and region are their first groups |
| Endings.EndingOfMarked | search/endings.py:66-70 | a text holding exactly one `@@x@@` and one `%%y%%` yields the ending (x, y) |
| Endings.EndingsInAppend | search/endings.py:63-76 | endings are read happening by happening, so they keep the happenings' order |
| Endings.FoundAppend | search/endings.py:64-74 | the match attempts of two runs of happenings are those of the first followed by those of the second |
| Endings.EndingsInOne | search/endings.py:68-74 | one happening adds its ending when it has one, and nothing otherwise |
| Endings.CollectEndings | search/endings.py:63-76 | the loop over the happenings returns exactly the endings they name, in order |
| Endings.RetrieveEndings | search/endings.py:32-76 | the endings are those of the "cte" happenings of the defaulted window |
| Endings.FoundersIn | search/endings.py:102-109 | never longer than the dump, and it holds exactly the endings of cleaned founders that ended, each with its region |
| Endings.FoundsCons | search/endings.py:102-109 | the dump is read region by region |
| Endings.FoundersInOne | search/endings.py:102-109 | one dump region adds its cleaned founder's ending when the founder ended, and nothing otherwise |
| Endings.FoundersInAppend | search/endings.py:102-109 | the endings of two runs of regions are those of the first followed by those of the second: one per qualifying region, in dump order, with a founder of two such regions appearing twice |
| Endings.EndingRegions | search/endings.py:97-99 | the keys are exactly the cleaned ending nations, and a nation maps to the region of its last ending |
| Endings.FounderEndings | search/endings.py:80-111 | never more endings than dump regions, each naming the cleaned founder of some region and some nation that ended |
| Endings.FounderEndingFound | search/endings.py:95-109 | a region whose cleaned founder ended yields that founder with the region of its last ending |
| Endings.FounderEndingSource | search/endings.py:80-111 | every founder ending names the founder of some dump region and the region of one of its endings |
| Endings.LegacyEndingsQuery | endings.py:41-59 | the older script asks for the "cte" happenings between times that read back as `since` (a day before now when falsy) and `before` (now when falsy) |
| Endings.LegacyRetrieveEndings | endings.py:30-63 | the older `retrieve_endings` returns exactly the happenings the world answers to one "cte" query whose since and before read back as the older window, unfiltered |
| Endings.LegacyEndingsAgree | endings.py:30-63 | whenever the two windows agree, the happenings the older `retrieve_endings` returns name exactly the endings the newer one returns |
| FactbookSearch.FactbookSearcher | wfe.py:18-32 | never more results than dump regions, and every region returned is a dump region with a keyword in its factbook and more nations than the minimum |
| FactbookSearch.FactbookSearcherMembers | wfe.py:18-32 | a region is found exactly when it is in the dump, one keyword occurs in its factbook, and its population is above the minimum; never more results than regions |
| FactbookSearch.FactbookSearcherAppend | wfe.py:22-32 | the search keeps the dump order |
| FactbookSearch.NoKeywordsNothing | wfe.py:30 | with no keywords, `any` is false and nothing is found |
| FactbookSearch.EmptyKeywordLine | wfe.py:43 | an empty keyword line splits into one empty keyword, which every factbook contains, so every region above the minimum is found |
| FactbookSearch.ResolveArgument | nsapi/resources.py:155-161 | a non-empty location is the path; otherwise a `Resource` resolves to its name and a bare text raises AttributeError("name") |
| FactbookSearch.FactbookSearcherAsWritten | wfe.py:18-32 | when the dump path resolves, the result is the search over the decoded regions |
| FactbookSearch.FactbookSearcherAsWrittenFails | wfe.py:27 | as written, the search raises AttributeError for every dump and every keyword list |
| IssueCounter.Entry | cards/issuecounter.py:47-56 | a dump nation is recorded exactly when its raw or cleaned name was asked for, with its issue count, under its cleaned name (under its raw dump name in issuecounter.py:41-50) |
| IssueCounter.RecordIssues | cards/issuecounter.py:47-56 | one dump loop computes exactly the specified recorded dictionary |
| IssueCounter.RecordedKeys | cards/issuecounter.py:47-56 | a name is recorded exactly when some wanted dump nation has that cleaned (or raw) name |
| IssueCounter.RecordedLast | cards/issuecounter.py:50 | a name seen twice in a dump keeps the count of its last occurrence |
| IssueCounter.Missing | cards/issuecounter.py:68-71 | the invalid nations are exactly the asked-for names absent from the end record |
| IssueCounter.SettleInvalid | cards/issuecounter.py:65-71 | the invalid list is the asked-for names missing at the end, in the order they were asked for |
| IssueCounter.SettleKeys | cards/issuecounter.py:65-71 | after the settling loop an asked-for name is kept exactly when it is present at the end, with its start count or 0 when it was absent at the start; other start entries are untouched; keys stay distinct |
| IssueCounter.SettleNations | cards/issuecounter.py:65-71 | the settling loop computes exactly the specified kept dictionary and invalid list |
| IssueCounter.DeltaOf | cards/issuecounter.py:77-80 | a kept name absent from the end record raises KeyError with that name |
| IssueCounter.CountChangeFrom | cards/issuecounter.py:61-80 | on success the invalid list is the asked-for names missing at the end, in order; the only failure is a KeyError for a key the end record lacks |
| IssueCounter.CountChange | cards/issuecounter.py:29-82 | the whole procedure computes exactly the specified deltas and invalid list, or the KeyError it raises |
| IssueCounter.RecordedListed | cards/issuecounter.py:47-56 | with clean-formatted names asked for, every recorded key is an asked-for name |
| IssueCounter.DeltaPairs | cards/issuecounter.py:77-80 | when every kept name exists at the end, every delta is its end count minus its kept count |
| IssueCounter.DeltasClean | cards/issuecounter.py:77-80 | then no KeyError is raised, and the deltas have exactly the kept names as keys |
| IssueCounter.DeltasCleanValue | cards/issuecounter.py:77-80 | then each kept name's delta is its end count minus its kept count |
| IssueCounter.KeptClean | cards/issuecounter.py:65-71 | with clean-formatted names asked for, every kept name exists at the end and is clean |
| IssueCounter.CountChangeFromClean | cards/issuecounter.py:65-80 | with clean-formatted names the procedure succeeds, and the delta keys and the invalid list partition the names asked for |
| IssueCounter.CountChangeFromValue | cards/issuecounter.py:61-80 | a name present at the end has the delta end count minus start count, a start count of 0 when it was absent at the start |
| IssueCounter.CountChangeFromAll | cards/issuecounter.py:61-80 | the two facts above together, for any recorded dictionaries |
| IssueCounter.CountChangeClean | cards/issuecounter.py:29-82 | for clean-formatted names and any two dumps, the procedure succeeds, the invalid list is the names missing at the end, the deltas partition the rest, and each delta is end minus start |
| IssueCounter.RecordedAb | issuecounter.py:41-50 | a dump nation "Ab" asked for as "ab" is recorded under "Ab" by the older script and under "ab" by the newer one |
| IssueCounter.SettleRaw | issuecounter.py:59-65 | in the older script the raw start key "Ab" survives settling while "ab" is reported invalid |
| IssueCounter.SettleClean | cards/issuecounter.py:65-71 | in the newer script the cleaned key is removed and reported invalid |
| IssueCounter.LegacyCountChangeCounterexample | issuecounter.py:70-72 | the older script raises KeyError("Ab") when "ab" is asked for and the nation "Ab" no longer exists at the end |
| IssueCounter.DeltasMissing | issuecounter.py:70-72 | any kept name missing from the end record raises KeyError with that name |
| IssueCounter.CleanCountChangeAb | cards/issuecounter.py:29-82 | the newer script on the same input reports "ab" invalid and no deltas |
| IssueCounter.PuppetEntry | cards/issuecounter.py:324-329 | a row with fewer than two columns raises IndexError; otherwise the cleaned first column maps to the cleaned second column, or to itself when the second is empty (no cleaning in issuecounter.py:317) |
| IssueCounter.PuppetsRead | cards/issuecounter.py:324-329 | the puppet map is built exactly when every row has two columns, and fails with IndexError otherwise |
| IssueCounter.PuppetsLast | cards/issuecounter.py:324-329 | a puppet listed on several rows keeps the master of its last row |
| IssueCounter.PuppetsKeys | cards/issuecounter.py:324-329 | the puppets are exactly the first columns, cleaned in the newer script |
| IssueCounter.PuppetsClean | cards/issuecounter.py:324-329 | every puppet name of the newer script is clean-formatted, so it can be passed to `count_change` as clean input |
| IssueCounter.PuppetClean | cards/issuecounter.py:325 | each puppet key is its own clean format |
| IssueCounter.MonthWindow | cards/issuecounter.py:340-345 | for a `YYYY-MM` month the report month is its first day, the start is the last day of the previous month, and the end the last day of the month; anything `fromisoformat` refuses is an error, and so is 0001-01 whose previous day overflows |
| IssueCounter.ParsedFirst | cards/issuecounter.py:341 | a date read from `YYYY-MM-01` is the first of its month |
| IssueCounter.MonthWindowDays | cards/issuecounter.py:340-345 | the days after the start up to and including the end are exactly the days of the month |
| IssueCounter.DatesWindow | cards/issuecounter.py:332-339 | the "dates" mode takes the two given dates, and the report month from `--month` or, when it is empty or absent, the first of the end month; any date `fromisoformat` refuses is an error |
| RarityFinder.ResolvePath | cards/rarityfinder.py:11-13 | the file of a rarity is its name followed by "Cards.json" |
| RarityFinder.ResolvePathDistinct | cards/rarityfinder.py:11-13 | two rarities share a file exactly when they are the same rarity |
| RarityFinder.Record | cards/rarityfinder.py:48 | a record carries the card's name and season, and its card id reads back as the card's id |
| RarityFinder.SelectedMembers | cards/rarityfinder.py:37-39 | a card is selected from a dump exactly when it is in that dump with the rarity asked for, paired with that dump's season |
| RarityFinder.RaritiesMembers | cards/rarityfinder.py:36-42 | a (card, season) pair is listed exactly when the card has the rarity and is in the season 1 dump with "1" or the season 2 dump with "2" |
| RarityFinder.RaritiesSeasonOrder | cards/rarityfinder.py:36-42 | all season 1 matches come before all season 2 matches |
| RarityFinder.CollectRarity | cards/rarityfinder.py:36-42 | the two loops compute exactly the specified selection, season 1 first, each in dump order |
| RarityFinder.RarityFiles.FindRarities | cards/rarityfinder.py:30-52 | the rarity's file is (re)written with the records of its selection, and no other file changes |
| RarityFinder.RarityFiles.VerifyRarityData | cards/rarityfinder.py:16-19 | an existing file is kept as it is, whatever it holds; a missing one is generated; afterwards the file exists |
| WaResidents.Residents | wa/waresidents.py:19-25 | the WA residents are exactly the region's nations that are whole entries of the comma-separated WA members list |
| WaResidents.ResidentsWholeNames | wa/waresidents.py:23-24 | membership compares whole names: "b" is not a member because "ab" is |
| WaResidents.ListLinks | wa/waresidents.py:28-39 | every link is followed by a newline, so the text always ends with one; no nations give a lone newline |
| WaResidents.ListLinksSplit | wa/waresidents.py:33-38 | the text splits at newlines into exactly the links and an empty last piece |
| WaResidents.LowEndorsementsOf | wa/waresidents.py:42-70 | never more names than dump nations, and each name listed is that of a WA nation of the region, compared without case, with at most `count` endorsements |
| WaResidents.LowEndorsementsMembers | wa/waresidents.py:42-70 | a name is listed exactly when a dump nation of that name is a WA nation of the region, compared without case, with at most `count` endorsements; never more names than dump nations |
| WaResidents.LowEndorsementsAppend | wa/waresidents.py:58-68 | the listing keeps the dump order |
| WaResidents.LowEndorsementsIgnoresCase | wa/waresidents.py:55-61 | two spellings of the region that lower-case alike give the same listing |
| WaResidents.LowEndorsements | wa/waresidents.py:52-70 | the loop over the dump returns exactly the specified listing |
| WaResidents.MainNations | wa/waresidents.py:96-101 | an absent or zero count takes the residents from the API, and any other count takes the low-endorsed nations from the dump |
| RiseGenerator.RuleShape | cards/risegenerator.py:9-13 | a rule starts with the fixed URL pattern, the cleaned name sits right after it, and the rule ends with " , " and the nation as given |
| RiseGenerator.RulePatternSameClean | cards/risegenerator.py:12-13 | two nations get the same pattern exactly when their clean formats agree |
| RiseGenerator.RuleSplit | cards/risegenerator.py:13 | splitting a rule at " , " gives the pattern followed by the pieces of the nation, and just the pattern and the nation when the nation holds no " , " |
| RiseGenerator.RiseLineBlank | cards/risegenerator.py:26-31 | an output line is empty exactly when its input line is blank after stripping |
| RiseGenerator.RiseOutput | cards/risegenerator.py:26-31 | one output line per input line, in order: the rule of the stripped nation, or an empty line |
| RiseGenerator.RiseLines | cards/risegenerator.py:26-31 | the loop over the input lines prints exactly the specified lines |
| RosterCheck.WaPuppetsSpec | rosterupdate.py:49 | the WA puppets listed are exactly the puppets the API reports in the WA |
| RosterCheck.WaPuppetsAsked | rosterupdate.py:49 | when the list is built, every puppet was asked about, none skipped |
| RosterCheck.WaPuppetsFail | rosterupdate.py:27-32 | the first puppet whose status request fails with anything but a missing nation fails the whole list with that error |
| RosterCheck.CandidatesSpec | rosterupdate.py:46-49 | the member comes first when it is itself in the WA, and the candidates are exactly the member and those of its puppets that are in the WA |
| RosterCheck.CollectWas | rosterupdate.py:46-49 | the member check and the puppet loop build exactly the specified candidate list |
| RosterCheck.Outcome | rosterupdate.py:54-57 | no candidate gives no WA, and otherwise the WA is the clean format of the first candidate |
| RosterCheck.CheckRoster | rosterupdate.py:35-59 | the loop over the members computes exactly the specified output and warns for exactly the members with several WA nations, or fails with the first request error |
| RosterCheck.RosterStep | rosterupdate.py:44-58 | each member stores its outcome under its cleaned name and adds a warning exactly when it has more than one candidate |
| RosterCheck.RosterFail | rosterupdate.py:44-58 | a failed request ends the run with its error |
| RosterCheck.RosterStops | rosterupdate.py:44-58 | once failed, the run stays failed |
| RosterCheck.RosterKeys | rosterupdate.py:58 | the output keys are distinct and are exactly the cleaned member names |
| RosterCheck.NamedBefore | rosterupdate.py:58 | a cleaned name occurs among the first n+1 members exactly when it occurs among the first n or is the (n+1)th |
| RosterCheck.RosterLast | rosterupdate.py:58 | two members that clean alike leave the outcome of the later one |
| RosterCheck.RosterKeptFrom | rosterupdate.py:58 | an entry no later member overwrites keeps its value to the end |
| RosterCheck.RosterEntered | rosterupdate.py:58 | right after a member is handled its cleaned name holds its outcome |
| RosterCheck.RosterKept | rosterupdate.py:58 | handling a member leaves every other cleaned name's entry alone |
| RosterCheck.RosterFoundOk | rosterupdate.py:44-58 | a successful run had every request of every member succeed |
| RosterCheck.RosterPrefixOk | rosterupdate.py:44-58 | every prefix of a successful run succeeded |
| RosterCheck.RosterUnfold | rosterupdate.py:58 | a successful run is the run of all but the last member with the last member's outcome stored |
| RosterCheck.CheckRosterSpecProps | rosterupdate.py:35-59 | the output keys are distinct, and a member not followed by another that cleans alike maps to the clean format of its first WA candidate, or to no WA |
| RosterCheck.CheckRosterKeys | rosterupdate.py:58 | the output has exactly the cleaned member names as keys |
| RosterCheck.Changes | rosterupdate.py:103-107 | the changes are exactly the old-roster members missing from the output, mapped to no WA, and those whose WA differs from the old one, with their new WA |
| RosterCheck.PrintOutput | rosterupdate.py:62-71 | one line per member, in nation order: the lines are those of a sorted rearrangement of the entries, each "nation: WA", or "No known WA" when the WA is falsy |
| RosterRead.ReadLine | roster/rosterread.py:14-20 | a line contributes a pair exactly when both the lazy anchor search and the lazy `\](.*?)\[` search match, and then the member is the name group and the WA nation the anchor group |
| RosterRead.LinePairsSnoc | roster/rosterread.py:12-20 | one more line adds its pair, if any, after the earlier ones |
| RosterRead.CleanPairs | rosterread.py:22 | the older reader puts both names of every pair in clean format |
| RosterRead.PlainStep | roster/rosterread.py:20 | a line with a pair stores it, overwriting an earlier entry of that member; any other line changes nothing |
| RosterRead.CleanStep | rosterread.py:22 | the same for the older reader, under the cleaned names |
| RosterRead.ReadPlain | roster/rosterread.py:9-21 | the loop over the lines computes exactly the dictionary of the pairs found, a later line winning |
| RosterRead.ReadPlainClean | rosterread.py:11-23 | the older loop computes exactly the dictionary of the cleaned pairs found |
| RosterRead.ReadPlainSnoc | roster/rosterread.py:12-20 | after one more line, its member maps to its WA nation and every other entry is unchanged; a line without a pair changes nothing |
| RosterRead.ReadPlainCleanSnoc | rosterread.py:14-22 | in the older reader, one more line sets the entry of every name that cleans like its member to its cleaned WA nation |
| RosterRead.CleanSnocPair | rosterread.py:22 | storing one cleaned pair changes the entry of its cleaned member alone |
| RosterRead.ReadPlainCleanIsClean | rosterread.py:22 | every key and value of the older reader's output is in clean format |
| RosterRead.CleanPut | rosterread.py:22 | storing a clean pair keeps the dictionary clean |
| RosterRead.ReadLineFormat | roster/rosterread.py:14-20 | a roster line `[a href="https://www.nationstates.net/nation=W"]N[...` gives the pair (N, W) |
| RosterRead.AnchorFound | roster/rosterread.py:14-16 | the anchor group of such a line is W |
| RosterRead.AnchorThen | roster/rosterread.py:15 | the lazy anchor group stops at the first `"]` |
| RosterRead.AnchorOpensLine | roster/rosterread.py:15 | a line starting with the anchor text matches the anchor at its start |
| RosterRead.AnchorClosesAt | roster/rosterread.py:15 | the closing `"]` found is the first one after the group starts |
| RosterRead.NameFound | roster/rosterread.py:17 | the name group of such a line is N |
| RosterRead.NameAfter | roster/rosterread.py:17 | the name group runs from the first `]` to the next `[` |
| RosterUpdate.IsWa | roster/rosterupdate.py:21-26 | a nation is in the WA exactly when its status text starts with "WA"; a missing nation (ResourceError) counts as not in the WA, and any other request error is passed on |
| RosterUpdate.FindWa | roster/rosterupdate.py:29-37 | the loop stops at the first WA nation and computes exactly the specified search |
| RosterUpdate.FirstWaSpec | roster/rosterupdate.py:29-37 | the nation found is in the WA and every nation before it is not; None exactly when no nation is in the WA; an error is the error of a nation after only non-WA ones |
| RosterUpdate.Normalize | roster/rosterupdate.py:50-70 | the keys of a normalized mapping are distinct as names |
| RosterUpdate.NormalizeSpec | roster/rosterupdate.py:50-70 | a name is a key exactly when some key is the same nation, and its value is the value of the last such key |
| RosterUpdate.WaDeltas | roster/rosterupdate.py:73-98 | one (old, new) pair per roster member, in roster order, or the error of a member's search |
| RosterUpdate.WaDeltasTail | roster/rosterupdate.py:82-98 | the same for the members after the first |
| RosterUpdate.FailureInTail | roster/rosterupdate.py:82-98 | an error of a later member is an error of the roster |
| RosterUpdate.WaDeltasCons | roster/rosterupdate.py:82-98 | the first member's pair followed by the rest's pairs covers the whole roster |
| RosterUpdate.WaDeltasSpec | roster/rosterupdate.py:82-98 | each member keeps its old WA; its new WA is None when the known data lacks it, and otherwise the first WA nation among its puppets |
| RosterUpdate.WaChangesAsWritten | roster/rosterupdate.py:101-109 | a member is kept exactly when it has no WA now or its old and new WA differ as raw text |
| RosterUpdate.WaChanges | roster/rosterupdate.py:101-109 | a member is kept exactly when it has no WA now or its new WA is a different nation from the old one |
| RosterUpdate.WaChangesSpellingCounterexample | roster/rosterupdate.py:108 | an old WA written "A B" and a new WA "a_b" are the same nation, yet the comparison as written reports a change |
| RosterUpdate.WithoutCounts | roster/rosterupdate.py:135 | filtering removes every copy of the top item and keeps every other item as often as before |
| RosterUpdate.Bubble | roster/rosterupdate.py:127-135 | the top item comes first, followed by the items without it |
| RosterUpdate.BubbleSpec | roster/rosterupdate.py:127-135 | the result holds the top item once and every other item as often as the input does |
| RosterUpdate.ExtractNew | roster/rosterupdate.py:138-142 | exactly the members with a new WA, mapped to it |
| RosterUpdate.Reorganize | roster/rosterupdate.py:145-153 | the members keep their order; a member with a new WA has it bubbled to the front of its puppets, and the others are unchanged |
| RosterUpdate.ReorganizeSpec | roster/rosterupdate.py:145-153 | a member without a new WA is unchanged, and one with a new WA has it first and exactly once |
| RosterUpdate.SortedLines | roster/rosterupdate.py:112-121 | one printed line per entry |
| RosterUpdate.SortedLinesSpec | roster/rosterupdate.py:112-121 | the lines are those of a rearrangement of the entries sorted by nation, each printing the nation and its WA, or the fallback when the WA is falsy |
| RosterUpdate.PrintOutput | roster/rosterupdate.py:112-121 | one line per roster entry, written in key order of a rearrangement of the entries, each "<nation> - <WA>" or "<nation> - Unknown WA" |
| RosterUpdate.OutputLineFallback | roster/rosterupdate.py:118-121 | a line reads "Unknown WA" exactly when the WA is falsy or is that very text |
| RosterUpdate.UpdateRoster | roster/rosterupdate.py:156-202 | the update fails exactly when a WA search fails; otherwise it prints the sorted lines of the members whose WA changed (by the intended comparison) and the reorganized known data keeps exactly the members of the known data |
| Status.RetrieveStatus | status.py:36-50 | a missing nation (ResourceError) is CTE with no region and no WA; otherwise it is not CTE and carries the region and unstatus shards; the name is always cleaned; any other request error, or a reply lacking those shards, raises |
| Status.XkiLabel | status.py:61-74 | the label is "CTE" exactly when the nation ceased to exist; otherwise it is "Islander" exactly for the region "10000 Islands" and "Friend" for any other, prefixed with "WA " exactly when the WA status is non-empty and starts with "WA" |
| Status.LabelWords | status.py:69-72 | the five labels are distinct and only the two WA labels start with "WA " |
| Status.StatusRow | status.py:101-111 | a row exists exactly when the status could be retrieved; it has five fields: the link of the cleaned nation, the CTE flag, the region, the WA status (Python's "None" when absent) and the label |
| Status.ReportStatusShape | status.py:77-113 | a successful report has the header and one five-field row per data row, in input order, each linking the cleaned nation of its row |
| Status.ReportStatusRow | status.py:100-111 | each output row is the status row of the data row at the same position |
| Status.ReportStatusParts | status.py:85-113 | a successful report is the output header followed by the rows of the data lines |
| Status.RowShape | status.py:101-105 | a status row has five fields and starts with the link of the cleaned nation |
| Status.ReportStatusErrors | status.py:85-93 | an empty table raises StopIteration and a header without "nation" raises ValueError |
| Status.StatusLines | status.py:100-111 | the loop over the data rows computes exactly the specified rows, or stops at the first failure |
| Status.ReportStatus | status.py:77-113 | the whole procedure computes exactly the specified report |
| Status.LineRow | status.py:100-102 | a data line with no field at the nation column raises IndexError; otherwise its row is the status row of its nation, or that request's error |
| NationTags.TaggedAppend | search/nationcollector.py:66 | tagging two lists of names one after the other is tagging their concatenation |
| NationTags.TaggedNoNewline | cards/regioncardpop.py:84-88 | tagged names without newlines form a single line |
| NationTags.ReplaceOpenTags | cards/regioncardpop.py:76 | removing the opening tags of tagged names, for names without '[', leaves each name followed by its closing tag |
| NationTags.SplitCloseTags | cards/regioncardpop.py:76 | splitting those at the closing tags gives back the names, followed by the pieces of whatever came after |
| PuppetTotals.InitialCountsZero | cards/issuecounter.py:353 | the initial totals have exactly the masters of the puppet table as keys, each at 0 |
| PuppetTotals.InitialCountsMasters | cards/issuecounter.py:353 | the initial totals hold every master, once each |
| PuppetTotals.TallyStops | cards/issuecounter.py:354-355 | once a delta fails to find its master, the loop stays failed |
| PuppetTotals.TallyFail | cards/issuecounter.py:354-355 | a failure part-way through is the failure of the whole loop |
| PuppetTotals.TallyKeys | cards/issuecounter.py:354-355 | adding deltas never adds or removes a master |
| PuppetTotals.MasterCounted | cards/issuecounter.py:355 | a listed puppet's master has a total |
| PuppetTotals.TallySnoc | cards/issuecounter.py:354-355 | one more delta of a listed puppet adds to its master's total |
| PuppetTotals.AddChangeGet | cards/issuecounter.py:355 | a delta raises its master's total by the delta and leaves every other total alone |
| PuppetTotals.AllListedSnoc | cards/issuecounter.py:354-355 | every puppet with a delta is listed exactly when all but the last are and the last is |
| PuppetTotals.TallyOk | cards/issuecounter.py:354-355 | the loop raises no KeyError exactly when every puppet with a delta is in the puppet table |
| PuppetTotals.TallyTotal | cards/issuecounter.py:354-355 | each master ends with its starting total plus the sum of its puppets' deltas |
| PuppetTotals.CollectedCountOk | cards/issuecounter.py:353-355 | the totals exist exactly when every puppet with a delta is in the puppet table |
| PuppetTotals.CollectedCountMasters | cards/issuecounter.py:353 | the totals have exactly the masters as keys |
| PuppetTotals.CollectedCountTotal | cards/issuecounter.py:353-355 | each master's total is the sum of its puppets' deltas, 0 when none of them has a valid delta |
| PuppetTotals.TotalFromZero | cards/issuecounter.py:353-355 | starting from 0, a master's total is exactly the sum of its puppets' deltas |
| PuppetTotals.AddOne | cards/issuecounter.py:355 | one loop step computes exactly the specified update |
| PuppetTotals.CollectCounts | issuecounter.py:341-343 | the loop computes exactly the specified totals, or the KeyError it raises |
| PuppetTotals.OutputLineRoundTrip | cards/issuecounter.py:357-359 | an output line splits at its comma into the master and a count that reads back as the total |
| Unendorsed.UnendorsedNations | wa/endorsements.py:22-55 | the region returned is the endorser's "region" shard, and there are never more unendorsed nations than dump nations |
| Unendorsed.UnendorsedMembers | wa/endorsements.py:39-53 | a cleaned name is listed exactly when some dump nation of that name is a WA member of the region whose endorsements lack the endorser |
| Unendorsed.UnendorsedAppend | wa/endorsements.py:39-53 | the listing keeps the dump order |
| Unendorsed.EndorsedNotListed | wa/endorsements.py:52 | a nation the endorser already endorses is not listed, unless another dump nation cleans to the same name |
| Unendorsed.Citizens | wa/endorsements.py:117-119 | the citizens are exactly the WA members that are among the region's nations |
| Unendorsed.UnendorsedV2AsWritten | wa/endorsements.py:103-132 | a citizen the endorser is not endorsed by is kept exactly when the endorser's name is not a substring of the citizen's endorsements text |
| Unendorsed.UnendorsedV2 | wa/endorsements.py:103-132 | a nation is kept exactly when it is a citizen, it does not endorse the endorser, and the endorser is not one of the comma-separated names it is endorsed by |
| Unendorsed.V2AsWrittenWithin | wa/endorsements.py:129 | the substring test never keeps more than the whole-name test |
| Unendorsed.V2SubstringCounterexample | wa/endorsements.py:129 | endorser "ab" and a citizen endorsed only by "abc": the substring test drops the citizen although "ab" has not endorsed it |
| Update.Window | search/update.py:40-52 | a given start or end is kept; a missing end is start plus duration when both are given and now otherwise; a missing start lies duration (or twelve hours) before the end |
| Update.WindowIgnoresDuration | search/update.py:38-43 | with both start and end given the duration plays no part in the window |
| Update.WindowLength | search/update.py:41-49 | whenever start or end is missing, a given duration is exactly the window's length |
| Update.LegacyWindow | update.py:29-35 | the older script treats a falsy (missing or zero) end as now and a falsy start as twelve hours before the end |
| Update.LegacyWindowZero | update.py:30-35 | in the older script a time of 0 behaves exactly like a missing one |
| Update.LegacyWindowAgrees | update.py:29-35 | without zero times and without a duration the older window equals the newer one |
| Update.DelegateChanges | search/update.py:54-64 | a happening is kept exactly when its text contains "WA Delegate", and no more happenings come out than went in |
| Update.DelegateChangesAppend | search/update.py:55-64 | the filter keeps the happenings' order: filtering a concatenation concatenates the filtered parts |
| Update.Delegacy | search/update.py:23-64 | no more happenings than the "member" query of the window returned, and a happening is kept exactly when it is one of them and its text contains "WA Delegate" |
| Update.LegacyDelegacy | update.py:23-46 | the same filter over the "member" happenings of the older window |
| Update.DelegacyAgrees | update.py:23-46 | without zero times the older `delegacy` sends the same "member" query and returns the same happenings as the newer one without a duration |
| Update.Linked | search/update.py:70-88 | turning names into links never introduces a newline, so each happening stays one output line, and a text with no `@` and no `%` is written unchanged |
| Update.WriteOutput | search/update.py:67-90 | the file starts with the header line and ends with a newline |
| Update.NationLinked | search/update.py:81-85 | a nation between `@@` marks is replaced by its nation URL and the rest is kept |
| Update.RegionLinked | search/update.py:72-80 | a region between `%%` marks is replaced by its region URL and the text around it is kept |
| Update.LinkedNationThenRegion | search/update.py:70-88 | a happening naming one nation and one region becomes the nation URL, the words between, the region URL and the tail |
| Update.WriteOutputLines | search/update.py:67-90 | the written file's lines are the header, then one linked line per happening in order, then the empty remainder after the final newline |
| WaPopulation.PopulationsKeys | wapopulation.py:14-17 | the `populations` dictionary has a key exactly for each region name of the dump |
| WaPopulation.PopulationsLast | wapopulation.py:16-17 | a region name's value is the set of its nations that are WA members, taken from the last region of that name |
| WaPopulation.VotesKeys | wapopulation.py:30-33 | the `votes` dictionary has a key exactly for each region name of the dump |
| WaPopulation.VotesLast | wapopulation.py:32-33 | a region name's value is its delegate's votes, taken from the last region of that name |
| WaPopulation.FillPopulations | wapopulation.py:12-17 | the first loop builds exactly the `populations` dictionary of the dump and the WA member set |
| WaPopulation.FillVotes | wapopulation.py:30-33 | the loop builds exactly the `votes` dictionary of the dump |
| WaPopulation.SortDesc | wapopulation.py:19-21 | the ranking holds the same entries as the dictionary, as a multiset |
| WaPopulation.SortDescSorted | wapopulation.py:19-21 | the ranking is highest score first |
| WaPopulation.SortDescStable | wapopulation.py:35 | the ranking is stable: names with equal scores keep dictionary order, as Python's reversed sort does |
| WaPopulation.RankedEntries | wapopulation.py:19-24 | every ranked name is a dictionary key and is ranked by the score of that key's value |
| WaPopulation.RankLinesOf | wapopulation.py:23-24 | the first min(100, ranking length) lines are `name: score` of the ranking in order, and a ranking shorter than 100 ends with IndexError |
| WaPopulation.PrintRanks | wapopulation.py:37-38 | the print loop writes exactly the lines of `RankLinesOf` and raises exactly when it does |
| WaPopulation.RankedLineCount | wapopulation.py:19-24 | a ranked dictionary prints exactly 100 lines when it has at least 100 keys, and otherwise one line per key and then IndexError |
| WaPopulation.TopByWaMembersOf | wapopulation.py:9-24 | 100 lines, or one per region name and then IndexError when the dump has fewer; every line is a region name and its number of WA nations |
| WaPopulation.TopByDelegateVotesOf | wapopulation.py:27-38 | 100 lines, or one per region name and then IndexError when the dump has fewer; every line is a region name and its delegate's votes |
| WaPopulation.TopRegionsByWaMembers | wapopulation.py:9-24 | `top_regions_by_wa_members` prints the top regions by WA nations, as the ranking of the filled dictionary |
| WaPopulation.TopRegionsByDelegateVotes | wapopulation.py:27-38 | `top_regions_by_delegate_votes` prints the top regions by delegate votes, as the ranking of the filled dictionary |

## Left out

- Network transport, rate limiting, authentication headers and pagination (`nsapi.api` is not part of this model): every API answer is an oracle parameter.
- File and console I/O: `download_file`, `print`, `input()`, argparse, JSON and CSV reading and writing.  Files are a set of paths with marker or cookie contents; printed output is the sequence of lines.
- A marker entry that is not a JSON string (a number or a list): `fromisoformat` raises TypeError on it; marker entries are modelled as text only, readable as a date-time or not.
- gzip and the XML tokeniser (`etree.iterparse`, `etree.parse`): the dump is the sequence of parse events or decoded elements, and the memory saved by `root.clear()` is not expressible; its effect on the yielded root (lost text, attributes and earlier children) is modelled.
- Logging setup (`configure_logger`, `enable_logging`, `basicConfig`).
- The time zone of `last_dump_timestamp`: only the chosen 06:00 instant is modelled.
- Time is kept to the second: a date-time is a date and the second of its day (dates.dfy:80-84), not microseconds.  The outdated checks and every "now minus a duration" window therefore compare whole seconds.
- Years are unbounded: Python's MINYEAR and MAXYEAR limits on `datetime.date` are not modelled.
- Strings.Lower: lowercases ASCII letters only (strings.dfy:424-433); Python lowercases all of Unicode.  This affects `clean_format`, `Name` equality and hashing, `low_endorsements`, and the nation comparison of the autologin check.
- Strings.Strip: removes only the ASCII whitespace of `IsSpace` (strings.dfy:451-479); Python also strips Unicode spaces.
- Strings.ParseInt: accepts an optional sign and ASCII digits only (strings.dfy:534); Python's `int()` also accepts underscores between digits (`"1_000"`) and non-ASCII decimal digits.
- Strings.ParseFloat: reads plain decimal literals as exact reals (strings.dfy:599); exponents, `inf`, `nan` and binary rounding are not modelled.
- Floating-point fields (`DeathCause.percentage`, `CardInfo.marketValue`, the tax and public-sector fields of a nation) are exact reals.
- The `Trade`, `DeckInfo` and `Census` decoders of nsapi/models.py are not modelled: they convert floats and no modelled script reads them.
- Patterns: a `.` in the scripts' regular expressions does not match a newline in Python, but the model's groups may contain one; happening texts and roster lines have no newline, so search/update.py, search/endings.py and the roster readers are unaffected on single-line input.
- `retrieve_statuses` of status.py, a dictionary of `retrieve_status` over the nations, is not modelled beyond `retrieve_status` itself.
- `generate_report` and `_get_forum_names` of cards/issuecounter.py: the report text and the spreadsheet download of forum names are not modelled.
- The endorsement table script of wa/endorsements.py (its `main`), the JSON form of the rarity records and `load_rarity_data` of cards/rarityfinder.py are not modelled.
- Unendorsed.UnendorsedNations: its own contract gives the region and the size bound only; which nations it returns is stated by Unendorsed.UnendorsedMembers.
- RosterUpdate.SortedLines: its own contract gives the number of lines only; their content and order are stated by RosterUpdate.SortedLinesSpec.
- Update.WriteOutputLines: the output text is stated for one or more happenings; with none the file holds the header and an empty line, which the lemma does not state.

## Findings

| source | as written | input that shows it | evidently intended | confidence | as-written member | corrected member |
|---|---|---|---|---|---|---|
| nsapi/models.py:119 | `marketValue=int(data.simple("MARKET_VALUE"))` | a CARD node whose MARKET_VALUE is "0.05": `int("0.05")` raises ValueError | the field is declared a float, so `float(...)`, giving 0.05 | not executed | Models.MarketValueCounterexample | Models.CardInfoFromXml |
| roster/rosterupdate.py:108 | `old != new` on `Name` values: `Name` defines `__eq__` but not `__ne__`, so the raw strings are compared | old WA "A B", new WA "a_b": the same nation, reported as a change | a change only when the WA is a different nation (`not old == new`) | not executed | RosterUpdate.WaChangesSpellingCounterexample | RosterUpdate.WaChanges |
| issuecounter.py:70-72 | `starting` is keyed by the dump's own spelling while the missing-nation check pops the requested spelling, so the delta reads `ending` at a key it lacks | asking for "ab" when the nation "Ab" is in the starting dump only: `ending["Ab"]` raises KeyError("Ab") | the newer cards/issuecounter.py: names are cleaned first, "ab" is reported invalid and no delta is computed | not executed | IssueCounter.LegacyCountChangeCounterexample | IssueCounter.CountChangeClean |
| wa/endorsements.py:129 | `endorser not in requester.nation(nation).shard("endorsements")`, a substring test on the comma-separated shard text | endorser "ab" and a citizen endorsed only by "abc": the citizen is dropped | a test against the list of endorsing nations | not executed | Unendorsed.V2SubstringCounterexample | Unendorsed.UnendorsedV2 |
| wfe.py:27 | `requester.dumpManager().retrieve_iterator("regions")`: the bare text "regions" where a `Resource` is expected, with no location and no tag filter | any run: `resolve` computes `None or "regions".name` (nsapi/resources.py:161, 293), which raises AttributeError before a region is read | iterate the regions dump resource with `tags={"REGION"}`, as `DumpManager.regions()` does, and search the decoded regions | not executed | FactbookSearch.FactbookSearcherAsWrittenFails | FactbookSearch.FactbookSearcher |
