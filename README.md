# SCope server core in Dafny

This project models three parts of the SCope single-cell viewer's Python server and proves properties of them.

1. **Feature search** (`SCope.get_features`). A query is split into a namespace and a search text:
   - `hsap\…` searches through the human alias table;
   - `mmus\…` searches through the mouse alias table;
   - anything else searches the dataset's own genes.

   The search text is then processed in four stages:
   - It is matched by substring against the case-folded keys of the search space.
   - The matches are reordered by four literal "pop and put in front" passes.
   - They are collapsed into an ordered dictionary keyed by `(canonical name, category)`.
   - Each collapsed key gets a description: the synonyms list, or the orthologue line.

   The reply is three parallel lists. Module `FeatureSearch` (`search.dfy`) holds the specification functions (`Search`, `Rank`, `Pass`, `NativeFeatures`, `CrossFeatures`). It also holds the methods that mirror the loops (`PromotionPass`, `CollapseNative`, `CollapseAliases`, `DescribeNative`, `DescribeCross`, `GetFeatures`). Each method is proved equal to its specification.

2. **Session registry.** `DataFileHandler`'s three fields are a class of the same name in module `DataFiles` (`datafiles.dfy`):
   - `currentUUIDs`: id → start time;
   - `permanentUUIDs`: a set of ids;
   - `activeSessions`: id → last activity.

   The class's methods model these Python functions:
   - `read_UUID_db`: load the tab-separated timeouts table, then merge or create the permanent-id list;
   - `update_UUID_db`: write the table, then merge the list again;
   - `active_session_check`;
   - `reset_active_session_timeout`.

   Module `SessionService` (`sessions.dfy`) models the two RPC handlers that drive the registry:
   - `getUUID`;
   - `getRemainingUUIDTime`: reap expired ids, look up or adopt the request id, drop idle sessions, then refresh on mouse events and raise the capacity flag.

   Each handler is a method proved equal to a specification function on a `Registry` value (`NewSession`, `RemainingTime`). The registry invariants and the capacity behaviour are proved as lemmas on those functions. `DataFiles` also holds `get_data_dir_path_by_file_type` and the five data directories.

3. **Small helpers** (module `Cells`, `cells.dfy`):
   - `compressHexColor`: hex parsing, the bit fields of `a >> 20 << 8 | a >> 8 & 240 | a >> 4 & 15`, and `hex` output without "0x";
   - `getCellIDs`: Python list indexing, including negative indices and `IndexError`;
   - `translateLassoSelection`.

Shared modules:
- `Results`: the `Option` and `Result` types.
- `Sequences`: first match, counting, filtering, positions, first-occurrence de-duplication.
- `Text`: the Python string operations the core uses. These are `startswith`, `in`, `readlines`, `rstrip('\n')`, `split`, `join`, the decimal text of a number, `sorted` (insertion sort by code point) and `list.remove`.

Times are whole seconds (`nat`), and each handler call reads the clock once, as the parameter `now`. The code is followed where it differs from the documented intent:
- **Malformed request id.** An unknown request id that `uuid.UUID` rejects is meant to get a fresh id. The code only catches `KeyError`/`AttributeError`, so the `ValueError` escapes and the call fails. The model returns `Failure(MalformedId(id))` with the registry already reaped.
- **Promotion passes.** The four passes are not a sort. They pop from the list `enumerate` walks until the first hit, which skips the next element. After that they pop by index from a fresh list, so a later hit can move a different element from the one that was examined. `Pass`/`Continue` and the `aliased` flag in `PromotionPass` model exactly this.
- **Mouse events.** With mouse events at or above the threshold, the request id is made active whatever the capacity limit.
- **Permanent ids.** Merging the permanent list dates each permanent id 365 days after the merge, and every later `update_UUID_db` merges again and moves that date forward. The id is never exempt from reaping: its remaining time `_UUID_TIMEOUT - (now - start)` goes negative once the clock is more than `_UUID_TIMEOUT` (five days) past that date, 370 days after the last merge, and it is then reaped like any other id.

## Model

| member | source | states |
|---|---|---|
| FeatureSearch.ParseQuery | opt/scopeserver/dataserver/modules/gserver/GServer.py:64-74 | A query starting with `hsap\` selects the human table and one starting with `mmus\` the mouse table; the text matched is the query without those five characters. Any other query is matched whole in the native space. |
| FeatureSearch.Matches | opt/scopeserver/dataserver/modules/gserver/GServer.py:84-85 | The unranked list is exactly the space's entries whose folded key contains the folded query, in search-space order. |
| FeatureSearch.EmptyQueryKeepsAll | opt/scopeserver/dataserver/modules/gserver/GServer.py:84-85 | A folded query that is empty keeps every entry of the space, in order. The case-folding parameter `fold` is unconstrained, so this is stated for the folded query "" and not for `fold("")`. |
| FeatureSearch.PromotionPass | opt/scopeserver/dataserver/modules/gserver/GServer.py:87-90 | The `enumerate`/`pop` loop, modelled with the iterated list, the current list and an aliasing flag, computes `Pass`. |
| FeatureSearch.PassPermutation | opt/scopeserver/dataserver/modules/gserver/GServer.py:87-102 | Every promotion pass returns a permutation of its input. |
| FeatureSearch.PassNoMatch | opt/scopeserver/dataserver/modules/gserver/GServer.py:87-102 | A pass whose predicate holds for no element is the identity. |
| FeatureSearch.PassSingleMatch | opt/scopeserver/dataserver/modules/gserver/GServer.py:87-102 | A pass whose predicate holds for exactly one element moves it to the front and keeps the others in order. |
| FeatureSearch.ContinueNoHit | opt/scopeserver/dataserver/modules/gserver/GServer.py:87-90 | After the first pop, a pass with no further hits leaves the fresh list unchanged. |
| FeatureSearch.RankMatches | opt/scopeserver/dataserver/modules/gserver/GServer.py:87-102 | Running the four passes in the source's order (raw query in key, key starts with, key equals, display name equals) computes `Rank`. |
| FeatureSearch.RankPermutation | opt/scopeserver/dataserver/modules/gserver/GServer.py:87-102 | The ranked list is a permutation of the matches. |
| FeatureSearch.RankUniqueDisplayFirst | opt/scopeserver/dataserver/modules/gserver/GServer.py:99-102 | A unique candidate whose display name equals the raw query ranks first. |
| FeatureSearch.CollapseNative | opt/scopeserver/dataserver/modules/gserver/GServer.py:108-114 | The ordered dictionary built has as keys the `(canonical, category)` pairs in order of first occurrence. Each key maps to the display names of its candidates, in ranked order. |
| FeatureSearch.NativeCollapseNew | opt/scopeserver/dataserver/modules/gserver/GServer.py:111-112 | Adding a candidate with a new key appends the key and starts its group with the display name. |
| FeatureSearch.NativeCollapseOld | opt/scopeserver/dataserver/modules/gserver/GServer.py:113-114 | Adding a candidate with a known key leaves the key order alone and appends the display name to that group. |
| FeatureSearch.MembersOfUnseen | opt/scopeserver/dataserver/modules/gserver/GServer.py:110-114 | A key no candidate has gets no display names. |
| FeatureSearch.GroupSizesSum | opt/scopeserver/dataserver/modules/gserver/GServer.py:110-114 | Every ranked display name lands in exactly one group: the group sizes sum to the ranked length. |
| Sequences.DedupDistinct | opt/scopeserver/dataserver/modules/gserver/GServer.py:108-124 | The collapsed keys are pairwise distinct. |
| Sequences.DedupFirstOccurrenceOrder | opt/scopeserver/dataserver/modules/gserver/GServer.py:108-124 | The collapsed keys appear in the order of their first occurrence. |
| Sequences.FilterIsGatherOfPositions | opt/scopeserver/dataserver/modules/gserver/GServer.py:85 | The comprehension `[x for x in keys if p(x)]` equals the elements at the positions satisfying `p`, in order. |
| FeatureSearch.FanOut | opt/scopeserver/dataserver/modules/gserver/GServer.py:116-124 | Looking up the alias lists raises `KeyError` exactly when some ranked candidate's translated key is not in the table. |
| FeatureSearch.FanOutFailurePropagates | opt/scopeserver/dataserver/modules/gserver/GServer.py:116-124 | The first candidate (in ranked order) with a missing key decides the error: later candidates are never looked at. |
| FeatureSearch.CandidateRows | opt/scopeserver/dataserver/modules/gserver/GServer.py:117-119 | A candidate gives one row per alias, keyed `(alias, category)` and carrying the candidate's display name and the alias's pct. |
| FeatureSearch.CollapseAliases | opt/scopeserver/dataserver/modules/gserver/GServer.py:117-119 | The inner alias loop keeps the cross collapse invariant: keys in order of first occurrence, each with the (display name, pct) of its first row. |
| FeatureSearch.CrossCollapseNew | opt/scopeserver/dataserver/modules/gserver/GServer.py:118-119 | A row with a new key appends the key and records that row's (display name, pct). |
| FeatureSearch.CrossCollapseOld | opt/scopeserver/dataserver/modules/gserver/GServer.py:118-119 | A row with a known key changes nothing: only the first occurrence is kept. |
| FeatureSearch.FirstRowSnoc | opt/scopeserver/dataserver/modules/gserver/GServer.py:118-119 | Appending a row does not change the first row of an existing key; for a new key the first row is the appended one. |
| FeatureSearch.CollapseCross | opt/scopeserver/dataserver/modules/gserver/GServer.py:115-124 | The cross-species collapse fails with the first missing key's error, and otherwise builds the first-occurrence dictionary of all alias rows. |
| Text.SortSpec | opt/scopeserver/dataserver/modules/gserver/GServer.py:129 | `sorted` returns an ordered permutation of the group's names. |
| Text.RemoveFirst | opt/scopeserver/dataserver/modules/gserver/GServer.py:130-133 | `list.remove` drops the first occurrence if there is one, and otherwise leaves the list alone (the `ValueError` is swallowed). |
| FeatureSearch.SynonymsSpec | opt/scopeserver/dataserver/modules/gserver/GServer.py:129-133 | The synonyms are sorted and are exactly the group's names minus one occurrence of the canonical name, as multisets. |
| FeatureSearch.NativeDescriptionSpec | opt/scopeserver/dataserver/modules/gserver/GServer.py:129-137 | A description is "" exactly when the names, less one canonical occurrence, are empty. Otherwise it is "Synonym of: " followed by a sorted list of exactly those names, joined with ", ". |
| FeatureSearch.DescribeNative | opt/scopeserver/dataserver/modules/gserver/GServer.py:127-137 | The description loop, which sorts each group, removes one canonical occurrence and formats the rest, gives, key by key, the description of that key's group. |
| FeatureSearch.NativeDescriptionsAt | opt/scopeserver/dataserver/modules/gserver/GServer.py:127-137 | The k-th description is the description of the k-th key's members. |
| FeatureSearch.DescribeCross | opt/scopeserver/dataserver/modules/gserver/GServer.py:138-143 | The orthologue loop gives one "Orthologue of …" line per key, made from its chosen (display name, pct) and the species' name. |
| FeatureSearch.OrthologueDescriptionsOfCollapse | opt/scopeserver/dataserver/modules/gserver/GServer.py:138-143 | Those lines are the orthologue descriptions of each key's first row. |
| FeatureSearch.NativeReply | opt/scopeserver/dataserver/modules/gserver/GServer.py:108-150 | The native collapse, descriptions and reply compute `NativeFeatures`. |
| FeatureSearch.CrossReply | opt/scopeserver/dataserver/modules/gserver/GServer.py:115-150 | The cross-species collapse, descriptions and reply compute `CrossFeatures`. |
| FeatureSearch.KeysAligned | opt/scopeserver/dataserver/modules/gserver/GServer.py:148-150 | Distinct keys make a reply whose three lists have equal length and no repeated (feature, type) pair. |
| FeatureSearch.NativeAligned | opt/scopeserver/dataserver/modules/gserver/GServer.py:126-150 | A native reply has three lists of equal length, one entry per distinct collapsed key. |
| FeatureSearch.CrossAligned | opt/scopeserver/dataserver/modules/gserver/GServer.py:126-150 | A successful cross-species reply has three lists of equal length, one entry per distinct collapsed key. |
| FeatureSearch.SearchAligned | opt/scopeserver/dataserver/modules/gserver/GServer.py:60-151 | Every successful `get_features` reply is aligned. |
| FeatureSearch.GetFeatures | opt/scopeserver/dataserver/modules/gserver/GServer.py:60-151 | `get_features` step by step computes the specification `Search`. |
| DataFiles.DataFileHandler.constructor | opt/scopeserver/utils/DataFileHandler.py:36-38 | A new handler tracks nothing: no start times, no permanent ids, no active sessions. |
| DataFiles.ParseTime | opt/scopeserver/utils/DataFileHandler.py:93 | `float` of a whole number reads the number. |
| DataFiles.ParseTimeText | opt/scopeserver/utils/DataFileHandler.py:109 | A start time as the writer formats it reads back as the same time. |
| DataFiles.ParseTimeoutLineOf | opt/scopeserver/utils/DataFileHandler.py:92-93 | A table line written for an id without tab or newline parses back to exactly that id and time. |
| DataFiles.TimeoutLineIsLine | opt/scopeserver/utils/DataFileHandler.py:109 | A written table line is one line, ended by its newline. |
| DataFiles.BadLineFailsRead | opt/scopeserver/utils/DataFileHandler.py:91-93 | A line with no tab (`ls[1]` raises `IndexError`) or a bad time (`float` raises `ValueError`) makes reading the table fail. |
| DataFiles.LoadEntriesStopsAtError | opt/scopeserver/utils/DataFileHandler.py:91-93 | Once a line fails, the later lines are never stored. |
| DataFiles.LoadEntriesGood | opt/scopeserver/utils/DataFileHandler.py:91-93 | A good line stores its id's time, overriding an earlier value. |
| DataFiles.LoadEntries | opt/scopeserver/utils/DataFileHandler.py:91-93 | Loading only adds or overwrites ids: every id tracked before is still tracked. |
| DataFiles.DataFileHandler.LoadTimeouts | opt/scopeserver/utils/DataFileHandler.py:91-93 | The loading loop stores the lines in order up to the first bad one, and fails with that line's error. |
| DataFiles.TimeoutLines | opt/scopeserver/utils/DataFileHandler.py:107-109 | The table has one `<id>\t<start>\n` line per listed id, in order. |
| DataFiles.ListedStartTimes | opt/scopeserver/utils/DataFileHandler.py:107-109 | The ids written are exactly the tracked ids that are not permanent, with their start times. |
| DataFiles.LinesOfWritten | opt/scopeserver/utils/DataFileHandler.py:106-109 | `readlines` on the written table gives back the written lines. |
| DataFiles.LoadGoodEntries | opt/scopeserver/utils/DataFileHandler.py:91-93 | Loading the entries for a list of ids, starting from nothing, gives exactly those ids' start times and no error. |
| DataFiles.LoadWrittenLines | opt/scopeserver/utils/DataFileHandler.py:91-93 | Loading the written lines gives exactly the written ids' start times, with no error. |
| DataFiles.TimeoutsRoundTrip | opt/scopeserver/utils/DataFileHandler.py:89-109 | Reading the table `update_UUID_db` writes restores exactly the tracked non-permanent map, provided no id contains a tab or a newline. |
| DataFiles.DataFileHandler.MergePermanentList | opt/scopeserver/utils/DataFileHandler.py:94-98 | Each listed id, trailing newlines removed, becomes permanent and starts 365 days after now, overriding any table value. Other ids keep their start times. |
| DataFiles.PermanentIdsSnoc | opt/scopeserver/utils/DataFileHandler.py:96-97 | Each further line of the permanent list adds exactly its stripped id. |
| DataFiles.DataFileHandler.ReadUUIDDb | opt/scopeserver/utils/DataFileHandler.py:88-103 | The call succeeds exactly when the table is absent or every line of it reads. A bad table fails after a partial load and leaves the permanent set alone. Otherwise the table is loaded and the permanent list merged. With no list, exactly one id "SCopeApp__<fresh>" is created, dated a year ahead and not made permanent. |
| DataFiles.DataFileHandler.UpdateUUIDDb | opt/scopeserver/utils/DataFileHandler.py:105-114 | The table written lists each tracked non-permanent id once, and no permanent id. The permanent list, if present, is merged as on reading. |
| DataFiles.LiveSessions | opt/scopeserver/utils/DataFileHandler.py:125-129 | A session survives exactly when it is tracked and idle for at most `SessionTimeout`, and it keeps its timestamp. |
| DataFiles.DataFileHandler.ActiveSessionCheck | opt/scopeserver/utils/DataFileHandler.py:125-129 | The deletion loop leaves exactly `LiveSessions` of the old active map. |
| DataFiles.DataFileHandler.ResetActiveSessionTimeout | opt/scopeserver/utils/DataFileHandler.py:131-132 | Only that id's entry is set to now (inserted if absent); everything else is unchanged. |
| DataFiles.PathJoin | opt/scopeserver/utils/DataFileHandler.py:68 | `os.path.join` of two parts: an absolute second part replaces the first. Otherwise the parts are joined with one '/', inserted exactly when the first part is non-empty and does not already end in '/'. |
| DataFiles.DataDirPath | opt/scopeserver/utils/DataFileHandler.py:64-70 | `join(base, UUID)` only for "Loom", "GeneSet" or "LoomAUCellRankings" with an id given; the type's base path otherwise; `KeyError` exactly for unknown types. |
| DataFiles.SessionDirInsideTypeDir | opt/scopeserver/utils/DataFileHandler.py:66-69 | A session's directory lies inside its type's directory. |
| Text.Lines | opt/scopeserver/utils/DataFileHandler.py:91 | `readlines` splits a text into lines that join back to the text, each but the last ending in a newline. |
| Text.LinesOfJoin | opt/scopeserver/utils/DataFileHandler.py:91 | `readlines` of newline-terminated lines gives those lines back. |
| Text.StripNewlines | opt/scopeserver/utils/DataFileHandler.py:92 | `rstrip('\n')` removes exactly the trailing newlines. |
| Text.Split | opt/scopeserver/utils/DataFileHandler.py:92 | `split('\t')` gives separator-free fields that join back to the line. |
| Text.SplitJoin | opt/scopeserver/utils/DataFileHandler.py:92 | Splitting the tab-join of separator-free fields gives the fields back. |
| Text.ParseDecimal | opt/scopeserver/utils/DataFileHandler.py:93 | The decimal text of a number parses back to it. |
| SessionService.NewSessionSpec | opt/scopeserver/dataserver/modules/gserver/GServer.py:395-405 | The id handed out is tracked afterwards. A tracked id keeps its start time and a new one starts now. Outside app mode it is the fresh id; permanent and active sets are unchanged. |
| SessionService.AppModeIdIsCreatedId | opt/scopeserver/dataserver/modules/gserver/GServer.py:396-398 | In app mode, the first line of the permanent list that `read_UUID_db` created is its "SCopeApp__" id. |
| SessionService.GetUUID | opt/scopeserver/dataserver/modules/gserver/GServer.py:395-405 | The handler computes `NewSession` on the registry. |
| SessionService.Unexpired | opt/scopeserver/dataserver/modules/gserver/GServer.py:408-413 | After reaping, an id is tracked exactly when its remaining time is not negative, with its old start time. |
| SessionService.Expired | opt/scopeserver/dataserver/modules/gserver/GServer.py:408-413 | The reaped ids are exactly the tracked ids whose remaining time is negative. |
| SessionService.ReapExpired | opt/scopeserver/dataserver/modules/gserver/GServer.py:408-416 | The reaping loop leaves `Unexpired` and returns the ids whose directories it would remove. |
| SessionService.GetRemainingUUIDTime | opt/scopeserver/dataserver/modules/gserver/GServer.py:407-444 | The handler computes `RemainingTime` on the registry and reaps exactly `Expired`. |
| SessionService.RemainingTimeTracked | opt/scopeserver/dataserver/modules/gserver/GServer.py:408-431 | Afterwards every tracked id has time left and the reported time is not negative. A surviving request id keeps its start time; an unknown valid one starts now with the full timeout. A malformed unknown id fails. |
| SessionService.RemainingTimeActive | opt/scopeserver/dataserver/modules/gserver/GServer.py:433-443 | After a successful call every active id is tracked and idle for at most `SessionTimeout`. |
| SessionService.CapacityFlag | opt/scopeserver/dataserver/modules/gserver/GServer.py:437-443 | The request id is active afterwards exactly when `sessionsLimitReached` is false; a permanent id never gets the flag. |
| SessionService.CapacityStepWithinLimit | opt/scopeserver/dataserver/modules/gserver/GServer.py:439-443 | For a non-permanent id, the capacity step keeps an active set that is within the limit within it. |
| SessionService.ActiveWithinLimit | opt/scopeserver/dataserver/modules/gserver/GServer.py:433-443 | For a non-permanent id below the mouse-event threshold, an active set within the limit stays within it. |
| SessionService.MouseEventsActivate | opt/scopeserver/dataserver/modules/gserver/GServer.py:434-443 | With mouse events at or above the threshold, a successful call leaves the request id active as of now and without the capacity flag, whatever the active set's size and the limit. |
| SessionService.MouseEventsBypassLimit | opt/scopeserver/dataserver/modules/gserver/GServer.py:434-435 | An example of `MouseEventsActivate`: at or above the threshold the id is made active even when the set is full: with limit 1 and one other active session, the set grows to 2. |
| Cells.HexString | opt/scopeserver/dataserver/modules/gserver/GServer.py:155-156 | `hex` without "0x": non-empty hex digits, '0'-'9' or lower-case 'a'-'f' only, no 'x', no leading zero. |
| Cells.HexStringValue | opt/scopeserver/dataserver/modules/gserver/GServer.py:155-156 | The digits written have the value of the number. |
| Cells.ParseHexString | opt/scopeserver/dataserver/modules/gserver/GServer.py:154-156 | `int(…, 16)` of the text `hex` writes gives the number back. |
| Cells.BitOrDisjoint | opt/scopeserver/dataserver/modules/gserver/GServer.py:155 | Or-ing a multiple of 2^k with a number below 2^k adds them. |
| Cells.FieldsDisjoint | opt/scopeserver/dataserver/modules/gserver/GServer.py:155 | The three shifted and masked fields of the colour do not overlap, so their or is their sum. |
| Cells.SixDigitFields | opt/scopeserver/dataserver/modules/gserver/GServer.py:155 | For six hex digits the fields are the high nibbles of red, green and blue at 256, 16 and 1. |
| Cells.CompressSixDigits | opt/scopeserver/dataserver/modules/gserver/GServer.py:153-156 | For `RRGGBB` the result is the hex, without "0x" or leading zeros, of the three high nibbles: a value below 4096. |
| Cells.CompressBlack | opt/scopeserver/dataserver/modules/gserver/GServer.py:153-156 | "000000" compresses to "0". |
| Cells.PyIndex | opt/scopeserver/dataserver/modules/gserver/GServer.py:458 | Python indexing: an index in `[-n, n)` selects an element, a negative one counting from the end; any other index raises `IndexError`. |
| Cells.GetCellIDsSpec | opt/scopeserver/dataserver/modules/gserver/GServer.py:455-459 | `getCellIDs` succeeds exactly when every index is in range, and then returns `cell_ids[indices[k]]` at each position k. Otherwise it reports the first index out of range. |
| Cells.TranslateLassoSpec | opt/scopeserver/dataserver/modules/gserver/GServer.py:446-453 | The result lists, strictly increasing, exactly the destination indices whose cell id equals the id at some selected source index. It fails exactly when a source index is out of range. |

## Left out

- I/O is left out: the gRPC request and reply plumbing, opening files, the audit-log writes, `print` and timing. Contents of the timeouts table and the permanent-id list enter as `Option<string>` (None when the file is absent); the table `update_UUID_db` writes is returned as text.
- Directory removal is left out: the `shutil.rmtree` of an expired session's directories is not modelled. `ReapExpired` returns the set of reaped ids instead.
- Threading is left out: the worker pool and the lack of locking; every call is modelled sequentially.
- The `lru_cache` on `get_features` is a memoiser and is left out: `get_features` is modelled as a pure function of its inputs.
- The search space builder and the loaded alias tables are external collaborators. They enter as parameters: the space as a sequence of candidates in dictionary order, the tables as maps from a key to its alias list.
- Loom file access for `getCellIDs` and `translateLassoSelection` is left out; the cell ids enter as sequences.
- `str.casefold` (full Unicode case folding) enters as the parameter `fold`.
- `uuid.uuid4` enters as the parameter `freshId`, and `uuid.UUID`'s acceptance of a string as the predicate parameter `validId`.
- The app-mode flag enters as a parameter. So do `_MOUSE_EVENTS_THRESHOLD` and `_ACTIVE_SESSIONS_LIMIT`, which come from a `Constant` module that is not part of this model.
- Floating point is left out. Times are whole seconds and each handler call reads the clock once, whereas the source calls `time.time()` repeatedly within one call. `int()` truncation of the remaining time is therefore exact here.
- The identity percentage is an opaque, already formatted text; `{1:.2f}` formatting is left out.
- DataFiles.ParseTime: reads `digits[.digits]` and keeps the whole seconds. It does not model `float`'s signs, exponents, underscores, surrounding whitespace, `inf`/`nan` or fractional seconds.
- Cells.ParseHex: `int(s, 16)` is modelled for an optional "0x"/"0X" prefix followed by hex digits only. Signs, underscores and surrounding whitespace are not accepted.
- DataFiles.DataFileHandler.UpdateUUIDDb: the table's line order follows the dictionary's insertion order in the source. The model keeps the map unordered, so the contract states the set of lines written, each once, and not their order.
- Text.Lines: `readlines` is modelled for "\n" line ends only, without universal-newline translation of "\r\n" and "\r".
- The `AppDirs` discovery of the per-user directories enters as a `PlatformDirs` parameter. `create_global_dirs`, `set_global_data`, `create_uuid_log` and the gene-mapping loading are file-system set-up and are not modelled.
- The other RPC handlers of the servicer are not modelled: colouring, metadata, coordinates, marker genes, gene-set enrichment, loom listing and download, and file deletion.
