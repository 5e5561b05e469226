# cosmos-light-indexer, modelled in Dafny

The indexer follows one Cosmos chain and keeps a per-chain SQLite database of
its validators' history. It records:

- profile edits as diffs against the values in force before them;
- unjail events;
- governance votes;
- the genesis validators;
- the next software upgrade.

A resumable scanner pages through the chain's REST API by message type and
hands each page to a record processor. A small read API serves the tables.

The model covers, one Dafny module per source file:

- **Store** (`store.dfy`): the database as a class whose fields are the tables, keyed as the schema
  keys them. `history_edits` is a sequence in row order, because the prior-value lookup has to break
  ties between rows of equal height. `INSERT OR IGNORE` and `INSERT OR REPLACE` are pure folds that
  the processors' loops are proved against.
- **EditValidator** (`edit_validator.dfy`): point-in-time diff reconstruction. The lookup of the
  latest earlier mention of a field, the sentinel and no-op suppression, the diff row, the profile
  upsert, and reprocessing a page.
- **CreateValidator**, **Unjail** and **Vote**: the per-page record processors and their
  first-seen-wins and replay properties.
- **Genesis**: the one-time import. The guard, deduplication by address with gentxs first,
  synthetic height-0 rows, and all-or-nothing commit.
- **Fetcher**: the checkpointed scan loop over an abstract sequence of attempt outcomes. It covers
  request building in both URL dialects, the stuck-block jump and the error budget.
- **Upgrade**: `fetchSmart`'s endpoint fallback, plan extraction, candidate choice, block-time
  sampling, the estimate and the action on `active_upgrade`.
- **InjectManualUpgrade**: the per-chain injection loop and the archive decision.
- **Server**: the chain-name sanitiser, the vote tally and the upgrade report.
- **Utils**, **Ledger** and **Base**: vote-option normalisation, address conversion over an abstract
  bech32 codec, the shape of transactions, and the JavaScript string operations used.

Where the written description of the system and the code disagree, the model follows the code:

- `syncUpgradePlan` writes no `history_upgrades` rows.
- Its candidate is the proposal with the latest voting start, whatever its height.
- The current-plan fallback is not compared with the current height.
- A run upserts the candidate's row and leaves the rows of other plans in `active_upgrade`; it does
  not replace the table.
- The first vote per (proposal, validator) is kept.

## Model

| member | source | states |
|---|---|---|
| Base.ReplaceFirst | src/utils.js:29 | `replace` with a string pattern replaces only the first occurrence, and leaves a string without the pattern unchanged |
| Base.ReplaceFirstOfPrefix | src/utils.js:29 | a string that starts with the pattern loses exactly that prefix |
| Base.FirstOccurrence | src/utils.js:29 | the position found is the first occurrence, and there is none exactly when the pattern does not occur |
| Base.SliceLast | src/processors/genesis.js:61 | `slice(-8)` is the last 8 characters, or the whole string when it is shorter |
| Base.StripTrailingSlash | src/fetcher.js:14 | `/\/$/` removes one trailing slash and nothing else |
| Base.DecimalString | src/fetcher.js:27 | a height in a template string is a non-empty digit string without leading zeros |
| Base.DecimalRoundTrip | src/fetcher.js:27 | parsing the rendered height gives the height back |
| Base.DecimalStringInjective | src/fetcher.js:27 | distinct heights render to distinct strings |
| Ledger.FindMsg | src/processors/unjail.js:15 | `messages.find` returns the first message whose type matches, and nothing exactly when none matches |
| Ledger.MsgOfKind | src/processors/unjail.js:12-16 | a transaction without a body or messages has no message of any kind; a message found is in the body and its type includes the kind |
| Utils.NormalizeVoteOption | src/utils.js:15-33 | numbers and digit strings map into the six fixed labels, a missing option is UNKNOWN, and another string without the prefix is returned as is |
| Utils.NumericOptions | src/utils.js:16-25 | 0..4 map to UNSPECIFIED, YES, ABSTAIN, NO, NO_WITH_VETO, and every other number below 10^21 to UNKNOWN |
| Utils.DigitStringLikeNumber | src/utils.js:24-25 | below 10^21, the decimal string of a number normalises like the number |
| Utils.SymbolicOption | src/utils.js:28-30 | `VOTE_OPTION_<name>` normalises to `<name>` for every name, without normalising again (`VOTE_OPTION_1` gives "1", `VOTE_OPTION_` gives "") |
| Utils.YesVote | src/utils.js:28-30 | `VOTE_OPTION_YES` normalises to YES |
| Utils.YesVoteDigit | src/utils.js:24-25 | the string "1" normalises to YES |
| Utils.ConvertToValoper | src/utils.js:5-13 | None for an empty address; a result re-encodes the decoded words under the validator prefix; a result exists whenever decoding and encoding succeed |
| Store.Database.constructor | src/database.js:7-64 | a fresh database has every table empty and no `history_upgrades` table |
| Store.IgnoreAllKeys | src/processors/unjail.js:2-6 | `INSERT OR IGNORE` statements leave exactly the old keys plus the inserted keys |
| Store.IgnoreAllKeepsRows | src/processors/vote.js:4-8 | an existing row is never overwritten |
| Store.IgnoreAllCount | src/processors/vote.js:37-45 | the summed change counts equal the number of new keys |
| Store.IgnoreAllFirstWins | src/processors/vote.js:4-8 | a new key holds the row of the first statement with that key |
| Store.IgnoreAllPresent | src/processors/unjail.js:2-6 | statements whose keys are all present change nothing and report 0 |
| Store.IgnoreAllReplay | src/processors/unjail.js:18-24 | replaying the statements on their own result changes nothing and reports 0 |
| Store.IgnorePageFirstWins | src/processors/vote.js:15-46 | within a page, a new key holds the row of the first item producing that key |
| Store.WriteAllOverlay | src/processors/createValidator.js:8-11 | `INSERT OR REPLACE` statements overlay the old table: the last write per key wins and other rows stay |
| Store.WriteAllReplay | src/processors/createValidator.js:64-70 | replaying the same upserts leaves the table as the first run left it |
| Store.WriteAllLast | src/processors/createValidator.js:64-70 | the last write to a key decides the key's row |
| Store.WriteAllElsewhere | src/processors/createValidator.js:8-11 | a key no write mentions keeps its presence and its row |
| Store.WritePageLast | src/processors/createValidator.js:16-71 | within a page, the last item writing a key decides that key's row |
| Store.AddIfPresentEntry | src/processors/createValidator.js:28-42 | a conditional diff step adds its field exactly when the value is non-empty and keeps the other entries |
| Store.FindRow | src/database.js:30 | the position found holds the key, and there is none exactly when no row holds it |
| Store.ReplaceEdit | src/processors/editValidator.js:11-15 | `INSERT OR REPLACE INTO history_edits` stores the row and keeps the primary key unique |
| Store.ReplaceEditRows | src/processors/editValidator.js:11-15 | after the replace, every row is the new row or an old one, and every old row under another key is still there |
| Store.IgnoreEdit | src/processors/createValidator.js:2-6 | `INSERT OR IGNORE INTO history_edits`: a present key leaves the table and reports 0; otherwise the row is appended and reports 1; the key stays unique |
| Store.IgnoreEditsGrow | src/processors/createValidator.js:45-54 | old rows stay in place, new rows are only appended, every key is present afterwards, and the count is the number appended |
| Store.IgnoreEditsPresent | src/processors/createValidator.js:2-6 | inserts whose keys are all present change nothing and report 0 |
| Store.IgnoreEditsReplay | src/processors/createValidator.js:2-6 | replaying the inserts on their own result changes nothing and reports 0 |
| Store.IgnoreEditsUnique | src/processors/createValidator.js:2-6 | the primary key of `history_edits` stays unique |
| Store.MaxLastHeight | server.js:231 | `MAX(last_height)` is NULL exactly for an empty `sync_status`, and otherwise a stored height at least every other |
| Unjail.ProcessUnjail | src/processors/unjail.js:1-29 | the table and the returned count are the `INSERT OR IGNORE` fold of the page's unjail rows |
| Unjail.UnjailOne | src/processors/unjail.js:11-24 | one transaction inserts its row, if it has an unjail message and its key is new, and reports the change |
| Unjail.UnjailPageEffect | src/processors/unjail.js:18-29 | the table gains exactly the page's keys, old rows stay, and the count is the number of new keys |
| Unjail.UnjailReplay | src/processors/unjail.js:18-24 | replaying a page returns 0 and leaves the table unchanged |
| Unjail.UnjailIgnoresOtherTxs | src/processors/unjail.js:12-16 | a page without MsgUnjail changes nothing and returns 0 |
| Unjail.UnjailFirstWins | src/processors/unjail.js:18-23 | a new key holds the first such transaction's row, at height 0 when the transaction has none |
| Vote.VoteEntry | src/processors/vote.js:16-35 | a vote yields a row only under an operator address already in `validators` |
| Vote.ProcessVote | src/processors/vote.js:3-51 | only `history_votes` changes; it and the count are the `INSERT OR IGNORE` fold of the page's accepted votes |
| Vote.VoteOne | src/processors/vote.js:16-45 | one transaction, with its early `continue`s, inserts its vote only when it is new and reports the change |
| Vote.VotePageEffect | src/processors/vote.js:31-45 | old votes never change, every new row belongs to a known validator, and the count is the number of new rows |
| Vote.VoteReplay | src/processors/vote.js:37-45 | replaying a page returns 0 and changes nothing |
| Vote.VoteFirstWins | src/processors/vote.js:4-8 | of several votes of one validator on one proposal, the first is the one kept |
| Vote.VoteDropped | src/processors/vote.js:25-32 | an unconvertible voter or an unknown validator records nothing |
| Vote.VoteWithoutOption | src/processors/vote.js:34 | a vote without an `option` is stored as UNKNOWN |
| CreateValidator.CreateDiffEntry | src/processors/createValidator.js:28-42 | the initial diff holds exactly the non-empty history fields, from '0' for commission and min self-delegation and from 'N/A' for description fields |
| CreateValidator.CreateOne | src/processors/createValidator.js:17-70 | one transaction inserts its history row, if its diff is non-empty, and upserts its profile if it is a creation |
| CreateValidator.ProcessCreateValidator | src/processors/createValidator.js:1-75 | `history_edits` and the count are the ignore fold of the page's rows, and `validators` is the upsert fold of its profiles |
| CreateValidator.CreateEditsEffect | src/processors/createValidator.js:45-54 | existing history rows are never overwritten, and the count equals the rows appended |
| CreateValidator.CreateReplay | src/processors/createValidator.js:45-70 | replaying a page adds 0 rows and leaves both tables as they were |
| CreateValidator.CreateProfileWritten | src/processors/createValidator.js:57-70 | the profile holds the message's moniker or 'Unknown', its website, identity, details and security contact, its rate or '0', and the tx timestamp |
| CreateValidator.CreateWithoutValues | src/processors/createValidator.js:45-70 | a creation with no values writes a profile but no history row |
| EditValidator.LatestMention | src/processors/editValidator.js:17-25 | the lookup returns a row of the table that qualifies: same validator, lower height, mentions the field |
| EditValidator.LatestMentionSpec | src/processors/editValidator.js:17-25 | the lookup returns nothing exactly when no row qualifies; otherwise it returns a highest qualifying row, the last stored among equals |
| EditValidator.LatestMentionUnique | src/processors/editValidator.js:17-25 | any row meeting that description is the one returned |
| EditValidator.PriorValue | src/processors/editValidator.js:40-47 | the prior value is never empty ('N/A' when missing) |
| EditValidator.LatestMentionBelow | src/processors/editValidator.js:21 | the lookup at a height depends only on the rows below it |
| EditValidator.PriorValueBelow | src/processors/editValidator.js:21 | tables that agree below a height give the same prior values there |
| EditValidator.BelowUpdate | src/processors/editValidator.js:21 | overwriting a row at or above the height changes nothing below it |
| EditValidator.ReplaceAboveInvisible | src/processors/editValidator.js:21 | a row written at or above the height is invisible to lookups there, so an edit never sees its own row |
| EditValidator.ReplaceExisting | src/processors/editValidator.js:11-15 | replacing a row that is already stored changes nothing |
| EditValidator.EditDiffEntry | src/processors/editValidator.js:49-87 | the diff holds exactly the fields whose value is present, not the sentinel and not the prior value, each from the prior value (commission defaulting to '0') to the new one |
| EditValidator.EditDiffNonEmpty | src/processors/editValidator.js:90 | the diff is non-empty exactly when some field takes effect |
| EditValidator.EditBetweenEdits | src/processors/editValidator.js:40-58 | with moniker edits A to B at 10 and B to C at 30, an edit to D at 20 records B to D and shows D |
| EditValidator.EditProfileMatchesDiff | src/processors/editValidator.js:101-115 | a changed field holds the diff's new value, an unchanged one its prior value; 'N/A' description values are stored as '' |
| EditValidator.MinSelfDelegationNotInProfile | src/processors/editValidator.js:72-79 | min_self_delegation can enter the diff but never changes the profile |
| EditValidator.EditSameBelow | src/processors/editValidator.js:17-25 | an edit's diff and profile depend only on the rows below its height |
| EditValidator.EditTxsMember | src/processors/editValidator.js:2-7 | every edit of the page is a page transaction with its MsgEditValidator |
| EditValidator.EditTxsNone | src/processors/editValidator.js:9 | a page without MsgEditValidator returns 0 and touches no table |
| EditValidator.EditRowOf | src/processors/editValidator.js:89-99 | an edit's history row carries its tx hash, validator and height |
| EditValidator.ReplacePage | src/processors/editValidator.js:35-116 | a run over a page keeps the primary key unique and makes one profile write per edit |
| EditValidator.ProcessField | src/processors/editValidator.js:51-58 | `processField` adds the change when it takes effect and returns the value in force |
| EditValidator.ComputeEdit | src/processors/editValidator.js:36-87 | steps 1 to 3 of the loop body compute the edit's diff and the profile it will write |
| EditValidator.EditOne | src/processors/editValidator.js:36-116 | one edit replaces its history row only when its diff is non-empty (counting 1) and always upserts its profile |
| EditValidator.ProcessEditValidator | src/processors/editValidator.js:1-121 | the tables and the count are those of the page's edits applied in order, each reading the history the earlier ones left |
| EditValidator.HeightsAgreeKept | src/processors/editValidator.js:90-99 | running the page keeps every row of a page key at that transaction's height |
| EditValidator.BelowKept | src/processors/editValidator.js:21 | later edits of an ascending page never change what an earlier edit sees |
| EditValidator.RowKept | src/processors/editValidator.js:90-99 | a row an edit wrote survives the page's later edits |
| EditValidator.ReplayPrefix | src/processors/editValidator.js:90-115 | replaying a prefix of the page on the page's result repeats its writes and count and changes nothing |
| EditValidator.EditStepsLookBelow | src/processors/editValidator.js:17-25 | an edit's row and profile depend only on rows below its height and carry its key and height |
| EditValidator.EditReplay | src/processors/editValidator.js:90-115 | reprocessing a page leaves both tables unchanged; the count repeats because REPLACE reports changes |
| Genesis.StateEntries | src/processors/genesis.js:106-118 | the i-th state validator gives the i-th `saveValidator` call, with its operator address, moniker, description fields, commission rate and the genesis time |
| Genesis.GentxEntriesSpec | src/processors/genesis.js:84-103 | the gentx calls are exactly those of the gentxs that hold a MsgCreateValidator, at most one per gentx |
| Genesis.GentxEntriesPrefix | src/processors/genesis.js:84-103 | the gentx calls keep the gentxs' order |
| Genesis.GenesisDiffEntry | src/processors/genesis.js:52-59 | the diff holds exactly the non-empty commission and description fields, from '0' and 'N/A' |
| Genesis.GenesisRow | src/processors/genesis.js:61-69 | the row sits at height 0, keyed `GENESIS_` plus the address's last 8 characters, and the address |
| Genesis.ProcessGenesisFile | src/processors/genesis.js:3-127 | no file, or a height-0 row already there, skips; a throwing import rolls both tables back; otherwise the tables and count are the import's |
| Genesis.ImportEntries | src/processors/genesis.js:47-119 | the transaction body commits exactly when every call succeeds, and then leaves the import's tables and count |
| Genesis.SaveOne | src/processors/genesis.js:48-82 | one `saveValidator` call for an entry with an address |
| Genesis.RunStaysFailed | src/processors/genesis.js:47-121 | once a call has thrown, the whole transaction fails |
| Genesis.SaveCount | src/processors/genesis.js:48-82 | a call throws exactly without an address, and otherwise adds the address to `processedAddr` and counts it once |
| Genesis.RunFails | src/processors/genesis.js:61 | the import throws exactly when some validator has no address |
| Genesis.RunCount | src/processors/genesis.js:80-81 | `processedAddr` ends with every address and `count` counts each address once |
| Genesis.SaveProfiles | src/processors/genesis.js:72-78 | one call adds a profile only for an address that had none |
| Genesis.RunProfiles | src/processors/genesis.js:39-42 | existing profiles are never overwritten, and every imported address has one |
| Genesis.RunKeepsRows | src/processors/genesis.js:63-69 | a history row under a key no genesis row uses survives |
| Genesis.RunRowStays | src/processors/genesis.js:61-69 | a processed validator's row is not displaced by later entries |
| Genesis.RunFirstWins | src/processors/genesis.js:48-49 | the first entry with an address supplies its row and, when new, its profile |
| Genesis.ImportEffect | src/processors/genesis.js:44-81 | the import commits exactly when all addresses exist; count is the number of distinct addresses; old profiles stay |
| Genesis.ImportRows | src/processors/genesis.js:61-69 | every imported address has its first entry's height-0 row |
| Genesis.ImportOnce | src/processors/genesis.js:12-16 | after a committed non-empty import the guard skips every later run |
| Genesis.GentxWins | src/processors/genesis.js:84-118 | a gentx takes precedence over the staking list for the same address |
| Fetcher.RequestInjective | src/fetcher.js:24-44 | in both URL dialects two requests are equal exactly when they ask from the same height |
| Fetcher.Start | src/fetcher.js:9-10 | the scan resumes at the stored checkpoint, or 0 without one |
| Fetcher.FetchAndProcess | src/fetcher.js:4-106 | the checkpoint row and the requests sent are those of the scan over the attempts |
| Fetcher.FetchOne | src/fetcher.js:47-104 | one trip round the loop updates the resume height, error counter, running flag and checkpoint as one scan step |
| Fetcher.ScanFirstRequest | src/fetcher.js:10 | the first request asks from the resume height the scan started at |
| Fetcher.CheckpointAfterProcessing | src/fetcher.js:62-69 | the checkpoint moves only after a processed non-empty page, to its last height or one above |
| Fetcher.RetryAfterProcessingFailure | src/fetcher.js:53-104 | a page the processor threw on keeps the checkpoint and the resume height, and the scan goes on |
| Fetcher.EmptyPageStops | src/fetcher.js:55-59 | an empty page ends the scan without writing the checkpoint |
| Fetcher.PartialPageStops | src/fetcher.js:72-75 | a processed page under 100 ends the scan with the checkpoint at its last height |
| Fetcher.FullPageProgress | src/fetcher.js:72-83 | a full page sets the resume height and the checkpoint to its last height when it got past the resume height, and to one above when it stayed inside one block; the next request differs |
| Fetcher.RateLimitNeutral | src/fetcher.js:88-96 | a 429 leaves everything but the request log unchanged, the error counter included |
| Fetcher.FetchErrorsStop | src/fetcher.js:88-103 | five consecutive fetch errors end the scan, fewer do not, and the checkpoint stays |
| Fetcher.ProcessingFailuresNeverStop | src/fetcher.js:53-103 | as written, pages the processor throws on never exhaust the error budget |
| Fetcher.EventsModeStuck | src/fetcher.js:37-75 | as written, a 50-transaction events page in one block ends the scan, and the next scan sends the same request |
| Fetcher.FixedAgreesInQueryMode | src/fetcher.js:72 | the corrected step agrees with the code except on a page the processor threw on |
| Fetcher.FixedEventsModeProgress | src/fetcher.js:72-83 | corrected, a full events page inside one block moves the scan past that block |
| Fetcher.FixedErrorsStop | src/fetcher.js:88-103 | corrected, five consecutive errors of either kind end the scan |
| Upgrade.FetchSmart | src/processors/upgrade.js:3-12 | the endpoint loop computes the fallback function |
| Upgrade.FetchSmartDecidedBy | src/processors/upgrade.js:3-12 | the first endpoint not passed over decides: its answer, or a rethrow |
| Upgrade.FetchSmartNothing | src/processors/upgrade.js:3-12 | `undefined` exactly when every endpoint is passed over by a 404/501 or as a non-last path |
| Upgrade.FindUpgradeMsg | src/processors/upgrade.js:79-82 | the message found is the first upgrade message |
| Upgrade.LatestIndex | src/processors/upgrade.js:99-102 | the head of the stable descending sort: no later voting start, none equal listed before |
| Upgrade.SampleHeight | src/processors/upgrade.js:50 | the sample height is max(1, current - 2000) |
| Upgrade.AvgBlockTimeDefined | src/processors/upgrade.js:58-63 | the average exists exactly when the sample answered and the height exceeds 1; the span is at most 2000 |
| Upgrade.EtaSpec | src/processors/upgrade.js:133-142 | a passed target is due now; 1000 ms per block without an average; never before now and monotone in the target |
| Upgrade.ApplyActionSpec | src/processors/upgrade.js:128-150 | clearing empties the table; an upsert stores its row and leaves other plans' rows |
| Upgrade.SampleAverage | src/processors/upgrade.js:47-66 | step 2 computes the average block time or leaves it null |
| Upgrade.FindCandidate | src/processors/upgrade.js:68-126 | steps 3 and 4 choose the candidate from proposals, else from the current plan |
| Upgrade.SyncUpgradePlan | src/processors/upgrade.js:14-153 | the action is the decision on the fetched data, and `active_upgrade` is that action applied |
| Upgrade.ContentPlanOnlyWithoutMessages | src/processors/upgrade.js:78-87 | `content.plan` counts only for a proposal without `messages` |
| Upgrade.NoUpgradeMessageNoPlan | src/processors/upgrade.js:78-89 | messages without an upgrade message yield no plan and the proposal is dropped |
| Upgrade.ProposalInfo | src/processors/upgrade.js:91-108 | a proposal with a plan becomes a candidate whose info is "<id>. <title>", the id falling back from `id` to `proposal_id`, the title from `title` to the content's title or, without content, the plan name; a value still missing is written "undefined" |
| Upgrade.UnchangedWithoutLatest | src/processors/upgrade.js:40-45 | without the latest block `active_upgrade` is left unchanged |
| Upgrade.ProposalsComeFirst | src/processors/upgrade.js:99-113 | a proposal plan settles the candidate, the latest voting start, without the current-plan endpoint |
| Upgrade.CurrentPlanFallback | src/processors/upgrade.js:112-126 | otherwise the current plan is the candidate, started at the block time; with neither there is none |
| Upgrade.DecideWithLatest | src/processors/upgrade.js:128-150 | no candidate clears the table; a candidate is upserted even when passed, with the estimate equal to now |
| InjectManualUpgrade.ActiveRowEta | injectManualUpgrade.js:104-108 | the estimate is now plus remaining blocks times the pace (6 s by default) in ms, after now for a positive pace |
| InjectManualUpgrade.Injected | injectManualUpgrade.js:123 | the count, the entries that reach `totalInjected++`, never exceeds the number of entries |
| InjectManualUpgrade.InjectedNone | injectManualUpgrade.js:123-128 | nothing is injected exactly when no entry reaches the increment |
| InjectManualUpgrade.HistoryLastWins | injectManualUpgrade.js:91-99 | a plan's history row is that of its last entry whose history insert completed |
| InjectManualUpgrade.ActiveOnlyAhead | injectManualUpgrade.js:104 | a plan with no entry both above the current height and completing its active insert keeps its `active_upgrade` state |
| InjectManualUpgrade.ActiveLastWins | injectManualUpgrade.js:103-116 | an entry still ahead whose active insert completed, not replaced later, is the plan's active upgrade |
| InjectManualUpgrade.InjectChain | injectManualUpgrade.js:85-128 | the loop leaves both tables and the count as the per-entry folds give them, a throw after the history insert keeping the rows already written uncounted |
| InjectManualUpgrade.WrittenNotCounted | injectManualUpgrade.js:104-123 | an entry still ahead whose estimate log throws is written to both tables and counts 0 |
| InjectManualUpgrade.CountedWritten | injectManualUpgrade.js:91-123 | the count never exceeds the number of completed history inserts |
| InjectManualUpgrade.ArchiveIffInjected | injectManualUpgrade.js:134-146 | when the script finishes it archives exactly when the total is positive |
| InjectManualUpgrade.CurrentHeightSpec | injectManualUpgrade.js:80-81 | the current height is 0 for an empty `sync_status`, otherwise a stored height at least every other |
| InjectManualUpgrade.CurrentHeightUnique | injectManualUpgrade.js:80-81 | a stored height at least every other is the current height |
| InjectManualUpgrade.InjectManualUpgrades | injectManualUpgrade.js:50-146 | the script ends as the per-chain outcome function says; each chain it works on before any crash gets its list folded into `history_upgrades` and `active_upgrade` at its `MAX(last_height)` (0 when empty); every other database and table is left as it was |
| Server.Sanitize | server.js:16 | the sanitised name holds only [A-Za-z0-9_-] and is no longer than the input |
| Server.SanitizeAppend | server.js:16 | sanitising works piecewise, so kept characters stay in order |
| Server.SanitizeKeepsClean | server.js:16 | a clean name comes through unchanged |
| Server.SanitizeIdempotent | server.js:16 | sanitising twice is sanitising once |
| Server.SanitizeCounts | server.js:16 | every kept character keeps its multiplicity and every other character is dropped |
| Server.DbPath | server.js:16-17 | the path is `./data/<name>.db` with a name holding neither '/' nor '.' |
| Server.TallyStepEntries | server.js:180-188 | one vote adds one to its counter or UNKNOWN, and to TOTAL (two for option 'TOTAL') |
| Server.TallyOf | server.js:178-188 | the tally has exactly the six counters |
| Server.Tally | server.js:178-188 | the `forEach` computes the tally of the rows |
| Server.TallySums | server.js:178-188 | TOTAL is the row count plus the 'TOTAL' votes, and the five counters sum to the rest |
| Server.TallyCounts | server.js:181-183 | YES, NO, NO_WITH_VETO and ABSTAIN count exactly their votes |
| Server.TallyUnknown | server.js:181-186 | UNKNOWN counts every vote without a counter of its own, null and '' included |
| Server.TotalOptionCountedTwice | server.js:187 | a vote with option 'TOTAL' counts twice in TOTAL and in no option |
| Server.TopUpgrade | server.js:230 | no row exactly for an empty table, otherwise a row of greatest target height |
| Server.UpgradeStatus | server.js:225-246 | inactive exactly without rows; else the top row, with current height NULL exactly for empty `sync_status` and otherwise the largest stored height |

## Left out

- Network I/O, timeouts, sleeps, logging, `process.exit` and file-system checks are left out. HTTP
  answers, attempt outcomes, the clock (`now`) and file contents are parameters.
- JSON parsing and stringifying, `URLSearchParams` percent-encoding, and `Date` parsing and formatting
  are left out. Diffs are maps, requests are lists of parameter pairs, and times are integers in
  milliseconds.
- `parseInt` of arbitrary strings and NaN are not modelled. Heights are natural numbers, and
  `parseInt` of a string only appears as the parse of a digit string; `parseInt` of a number
  is modelled below 10^21 only (see `Utils.NormalizeVoteOption`).
- Utils.NormalizeVoteOption: numbers of 10^21 and above are not modelled. JavaScript prints them
  in exponent form and `parseInt` reads only the leading digit, so 1e21 gives YES where the model
  gives UNKNOWN; following that needs the printing of IEEE doubles (1e23 prints as "1e+23" though
  its exact value starts with 9). `Utils.NumericOptions` and `Utils.DigitStringLikeNumber` state
  their claims below 10^21 only.
- bech32 (BIP 173) is an external library. It is passed in as a pair of partial functions.
- Floating point: the average block time and estimates are `real`, without rounding.
- `last_checked` and every other `CURRENT_TIMESTAMP` column are not modelled.
- Express routing, CORS, read-only opening of the database, the other routes and the date-range filter
  of server.js are not modelled.
- index.js, the orchestration loop, is not part of this model. Neither are `validatorState.js` (it
  overwrites profiles every cycle) and `dailySnapshot.js`. So no claim is made that a profile equals a
  fold of the edit history.
- The `history_delegator_stats` table, which dailySnapshot.js fills, is not modelled.
- Fetcher.FetchAndProcess: the loop also stops when the sequence of attempts runs out. The real loop
  runs until it stops by itself.
- Fetcher.FetchAndProcess follows the code as written. `StepFixed`/`ScanFixed` are the corrected scan,
  about which the Fixed lemmas are proved; nothing else uses them.
- Server.Tally: JavaScript objects also answer `tally[opt]` for inherited keys such as `constructor`.
  The model counts those as UNKNOWN.
- Genesis.ProcessGenesisFile: a gentx message with no `validator_address` is taken as the empty
  address, where JavaScript would throw on `undefined.slice`.
- EditValidator.EditReplay only covers pages in ascending height order with distinct (tx, validator)
  keys, whose keys are held only at their own heights. The API's ascending order and the fact that a
  transaction has one height are assumed, not derived.
- EditValidator.LatestMention: SQLite leaves ties in `ORDER BY block_height DESC` unspecified. The
  model returns the row stored last.
- InjectManualUpgrade.InjectManualUpgrades: requires every chain to have its own database. Two config entries naming the same
  `db_file` are not modelled; the second would see the first one's writes.
- Unjail.UnjailReplay, Vote.VoteReplay, Vote.VoteFirstWins, CreateValidator.CreateReplay, EditValidator.EditReplay,
  EditValidator.LatestMention: a key field that is absent (`txhash`, `validator_addr`, `validator_address`,
  `proposal_id`) is read as the empty string. In SQLite it would be NULL, which a TEXT primary key accepts and never
  matches. So such a row would be inserted again on every replay, including by the `INSERT OR REPLACE` of
  history_edits, and the `operator_address = ?` lookup would find no earlier row for it. The same holds for a
  `validators` row without `validator_address`.
- Ledger.FindMsg: a message without `@type` makes `m['@type'].includes` throw and rolls the page back. The model
  counts it as a message of no kind.
- InjectManualUpgrade.InjectChain: where an entry's `try` block throws is an input (`throws`). The causes, such as a
  busy database or a NaN estimate, are not modelled.
- InjectManualUpgrade.HistoryAfter: `history_upgrades` is taken to be keyed by `plan_name`. Its DDL is not part of
  this repository, and without a unique key `INSERT OR REPLACE` would append instead.
- Upgrade.SyncUpgradePlan: the sample block's answer is reduced to its time. A failed sample request
  is None.

## Findings

| source | as written | input that shows it | evidently intended | confidence | as-written member | corrected member |
|---|---|---|---|---|---|---|
| src/fetcher.js:37 | events mode asks for 50 transactions, but a page counts as partial below 100 (line 72) | events mode, a block holding 50 matching transactions at the resume height: the page ends the scan with the checkpoint at that block, and the next scan sends the identical request | compare with the limit the mode asked for, so the stuck-block jump applies | high, not executed | Fetcher.EventsModeStuck | Fetcher.FixedEventsModeProgress |
| src/fetcher.js:53 | `consecutiveErrors = 0` runs before `processCallback` (line 62), so a throwing processor leaves the counter at 1 | a page on which the processor always throws: the scan refetches it forever | clear the counter only after the page was processed, so five failures end the scan | medium, not executed | Fetcher.ProcessingFailuresNeverStop | Fetcher.FixedErrorsStop |
