# Subgraph Radio: the PoI cross-check, modelled and proved

The radio exchanges signed proofs of indexing (PoIs) with other indexers, folds what it hears into
stake-weighted attestations, and compares them with its own. This project models that protocol in Dafny
and proves what it does over every list of messages and every run of the store:

- **Aggregation** (`Attestations`, `AddressLaws`, `Aggregation`, `AggregationLaws`): the in-place fold over a
  nested table computes a group-by; each attestation is a faithful summary of the messages behind it; the
  order of arrival does not matter; the sender group hash, sorted and hashed as the code does it, is
  canonical, down to the bytes that get hashed; the 64-bit sums are exact while the senders' total stake
  fits.
- **Comparison** (`StableSort`, `Comparison`, `ComparisonOrder`): the two comparators sort and take the last
  element; they are described by positions in the order of arrival, and it is said exactly when they agree
  and when the order of arrival decides a verdict.
- **The store** (`DecimalText`, `Tables`, `Store`): the five tables, with block numbers and nonces compared
  as text, and exactly when that is the comparison of numbers.
- **Cross-check and life cycle** (`CrossCheck`, `CrossCheckLaws`, `Operation`, `Lifecycle`,
  `LifecycleLaws`, `LifecycleOrder`, `LifecycleRollover`, `LifecycleBatch`): comparison point, verdict,
  cleanup, batches, and a step relation in which sends, receptions, verdicts and cleanups of all
  deployments interleave.
- **Announcements** (`Notifications`, `NotificationText`, `NotificationLaws`), **upgrade rate limit**
  (`Upgrades`, `UpgradeSpacing`) and **ratios** (`Ratios`, `RatioLaws`).

Methods have the shape of the source's code and are proved against functions on values; the lemmas are
about those functions. The outside world comes in as parameters: an account's stake and the SHA3-256 hash
(`Env`), the clock, and the answers to queries and sends (`Outside`, `Attempt`).

Where the code and its documentation or intent differ, the model follows the code, and the difference is a
result:

- `compare_attestations` is documented to compare with the top-attested PPOI; it compares with a
  least-staked one. `ComparatorsAgree` says when that makes no difference, `MajorityDiverges` what it does
  otherwise.
- The same comment says an indexer can send one attestation per block only; nothing enforces it: an
  indexer that sends two PPOIs counts in full towards both, and only then (`CountedUnderEach`).
- Both cleanups compare text: `LocalCleanupExact` and `RemoteCleanupExact` give the exact condition for the
  intended effect, `CleanupAtRollover` the family of failures. The consequence is that compared blocks need
  not increase: `ThoroughExactly` and `AheadExactly` say which cleanups and sends keep the order, and
  `RolloverUpsets` is a run, at every power of ten, that compares 10..0 and then 9..9.
- A `BuildFailed` verdict cannot be read back (`TypeRoundTrip`) and would block its deployment
  (`BuildFailedIsFinal`); no comparison produces one (`OutcomeExact`).
- A notification that meets a pending one is refused after the verdict has been saved
  (`PendingIsFirstNews`, `RecordedLatest`).
- A suppressed upgrade message still moves the rate-limit window, so a steady stream is accepted once
  (`SteadyStreamExact`), and an old nonce moves it back (`OldNonceReopens`).
- The rate limit compares nonces as text, with a bound that wraps below zero. `TooSoonExact` gives, for all
  nonces, the condition under which it nevertheless measures the distance. `SpacingExact` says what is sure of
  the next accepted upgrade, whatever its nonce: short of the end of the 64-bit range it is the threshold
  after a given nonce only if that is no greater than the least number whose text is not below the stored
  one, and if no wrapped bound lets an earlier one through. After a stored nonce of 500 that number is 6, so threshold + 6 is accepted; the spacing
  from the stored nonce is sure only for nonces like 7 or 9994 (`LastIsSafe`). Among nonces that compare as
  text as they do as numbers it always is (`ComparableSpacing`).
- An upgrade that was announced and then failed is forgotten, and announced again with the same nonce
  (`FailedAnnouncedAgain`, `NothingStored`).
- In the ratios a matching local stake is counted twice (`RatiosConserve`), and an attestation that already
  lists the local radio disappears (`StarMissingExactly`).

Integers: `u64` is a subset type, additions and subtractions wrap as in a release build (a debug build
panics instead). `Sort` stands for the standard library's stable sort; `StableSortUnique` shows there is
only one such result.

## Model

| member | source | states |
|---|---|---|
| `DecimalText.ParseRender` | subgraph-radio/src/database/mod.rs:126-129 | a number stored as decimal text is read back unchanged |
| `DecimalText.RenderInjective` | migrations/20231208160822_persisted-state.up.sql:9 | equality of the text columns is equality of the numbers, so the UNIQUE key and `block_number = ?` mean what they say |
| `DecimalText.SameLengthOrder` | subgraph-radio/src/database/mod.rs:196-206 | texts of equal length compare as their numbers do |
| `DecimalText.TextOrder` | subgraph-radio/src/database/mod.rs:198-198 | for every pair of numbers, what the text comparison means: the longer number is cut to the length of the shorter before they are compared |
| `DecimalText.TextAgreesExactly` | subgraph-radio/src/database/mod.rs:338-346 | text order is numeric order on a pair if and only if digit counts agree or the shorter number does not exceed the leading digits of the longer |
| `DecimalText.RolloverReversed` | migrations/20231208160822_persisted-state.up.sql:3-3 | at every power of ten the two orders disagree in both directions |
| `DecimalText.LeastAboveExact` | subgraph-radio/src/database/mod.rs:506-514 | the number computed from the leading digits is the least of all whose text is not below that of the given one |
| `StableSort.StableSortUnique` | subgraph-radio/src/operator/attestation.rs:498-502 | a list is the result of the sort if and only if it is ordered and keeps equal elements in arrival order, so the algorithm behind `sort_by` is irrelevant |
| `Attestations.InsertAddress` | subgraph-radio/src/operator/attestation.rs:583-589 | one element of the slice is moved, by swaps, to where the stable sort has it |
| `Attestations.SortAddresses` | subgraph-radio/src/operator/attestation.rs:583-589 | the slice is sorted in place by decoded bytes, stably |
| `Attestations.HashAddresses` | subgraph-radio/src/operator/attestation.rs:592-607 | the buffer grown in the loop is the concatenation of all decoded addresses, and that is what gets hashed |
| `Attestations.NewAttestation` | subgraph-radio/src/operator/attestation.rs:53-74 | the group hash is that of the sorted copy; the senders keep their order |
| `Attestations.GroupHashCanonical` | subgraph-radio/src/operator/attestation.rs:61-63 | the hash depends only on which decoded addresses occur and how often, not on their order |
| `AddressLaws.WellFormedExact` | subgraph-radio/src/operator/attestation.rs:585-586 | the addresses that can be decoded: two characters, then an even number of hexadecimal digits of either case |
| `AddressLaws.DecodeEncode` | subgraph-radio/src/operator/attestation.rs:599-599 | decoding the Base16 encoding of any bytes gives them back |
| `AddressLaws.EncodeDecode` | subgraph-radio/src/operator/attestation.rs:599-599 | encoding the decoding of hexadecimal digits gives them back in lower case |
| `AddressLaws.SameAddress` | subgraph-radio/src/operator/attestation.rs:585-586 | two addresses decode alike if and only if their digits differ in case at most |
| `AddressLaws.BytesLeExact` | subgraph-radio/src/operator/attestation.rs:587-587 | one list of bytes is not above another if and only if it is a prefix of it or less in the first byte in which they differ |
| `AddressLaws.ConcatAt` | subgraph-radio/src/operator/attestation.rs:597-601 | the bytes that get hashed are the decoded addresses one after the other, each at its place |
| `AddressLaws.GroupHashExact` | subgraph-radio/src/operator/attestation.rs:61-63 | the group hash is the hash of the decoded senders in any order in which their bytes do not go down |
| `Attestations.Update` | subgraph-radio/src/operator/attestation.rs:76-96 | refused exactly when the sender is already listed; otherwise sender and timestamp are added at the end, the stake to the weight, and the hash is that of the new senders |
| `Attestations.UpdateAttestation` | subgraph-radio/src/operator/attestation.rs:76-96 | the code's update, which sorts and hashes anew, is that function |
| `Attestations.ChainHashCanonical` | subgraph-radio/src/operator/attestation.rs:53-96 | attestations built by `new` and any chains of `update` over the same addresses carry the same hash, whatever the order and repeats |
| `Aggregation.FindPpoiExact` | subgraph-radio/src/operator/attestation.rs:154-154 | the search finds the first attestation with the PPOI, or there is none |
| `Aggregation.MergeMessage` | subgraph-radio/src/operator/attestation.rs:154-175 | the body of the loop: the sender joins the group of its PPOI, is ignored as a repeat, or opens a new group at the end |
| `Aggregation.FoldRepresents` | subgraph-radio/src/operator/attestation.rs:131-176 | after any list of messages the nested table holds, under every key, the declarative group-by of the list, and has no empty entry |
| `Aggregation.ProcessPpoiMessage` | subgraph-radio/src/operator/attestation.rs:113-201 | the loop over the mutable table computes that table; it fails exactly when some sender's stake cannot be looked up; every weight is the sum of the stakes looked up for the senders, modulo 2^64 |
| `AggregationLaws.ContributorsExact` | subgraph-radio/src/operator/attestation.rs:82-92 | the messages that count towards a PPOI are the first ones of its accounts: all of these, nothing else, in order of arrival |
| `AggregationLaws.AccountsDistinct` | subgraph-radio/src/operator/attestation.rs:82-82 | no sender is listed twice in an attestation |
| `AggregationLaws.GroupSummarises` | subgraph-radio/src/operator/attestation.rs:76-96 | senders are the distinct accounts that sent the PPOI, each timestamp is its sender's first nonce, the weight is the sum of the stakes looked up for the senders modulo 2^64, the hash that of the senders |
| `AggregationLaws.TableMeaning` | subgraph-radio/src/operator/attestation.rs:131-176 | under every deployment and block the table lists one such summary per PPOI sent for it, and no other; all weights are sums of stakes looked up |
| `AggregationLaws.CountedUnderEach` | subgraph-radio/src/operator/attestation.rs:474-475 | an account is a sender of two attestations of a block if and only if it has sent two PPOIs for it, and each weight has its full stake on top of the others' |
| `AggregationLaws.OrderIndependent` | subgraph-radio/src/operator/attestation.rs:131-176 | permuting the messages leaves PPOIs, sender sets, weights and group hashes at every key unchanged |
| `AggregationLaws.WeightBound` | subgraph-radio/src/operator/attestation.rs:91-91 | after any prefix of the loop a weight is at most the stake of the distinct accounts of the whole list, and is the exact sum while that fits in 64 bits |
| `AggregationLaws.AdditionFits` | subgraph-radio/src/operator/attestation.rs:91-91 | under the same bound no single addition of the loop overflows |
| `Comparison.LeastStakedExact` | subgraph-radio/src/operator/attestation.rs:497-504 | the main loop tests the last-arrived of the attestations of least weight |
| `Comparison.MostStakedExact` | subgraph-radio/src/operator/attestation.rs:543-550 | the query interface tests the last-arrived of those of greatest weight |
| `Comparison.CompareAttestations` | subgraph-radio/src/operator/attestation.rs:480-536 | sorting and taking the last element gives the verdict on the last-arrived of least weight, NotFound without a local or a remote attestation; the result carries all remote attestations of the key, heaviest first, equal weights in order of arrival |
| `Comparison.CompareAttestation` | subgraph-radio/src/operator/attestation.rs:539-580 | on a non-empty list, the verdict on the last-arrived of greatest weight; the result is about the local attestation's deployment and block and carries all remote ones, lightest first |
| `Comparison.ComparatorsAgree` | subgraph-radio/src/operator/attestation.rs:472-551 | with distinct PPOIs the two verdicts agree if and only if all weights are equal or the local PPOI is neither of the two tested |
| `Comparison.MatchesLeast` | subgraph-radio/src/operator/attestation.rs:506-526 | a verdict is Match if and only if the last-arrived least-staked attestation carries the local PPOI |
| `Comparison.MajorityDiverges` | subgraph-radio/src/operator/attestation.rs:472-475 | a radio whose PPOI has any lighter rival is called divergent, however heavy its own group |
| `Comparison.NotTheTopAttested` | subgraph-radio/src/operator/attestation.rs:472-475 | for any two messages with different PPOIs and different stakes behind them, the documented verdict on the heavier PPOI is Match and the actual one Divergent |
| `Comparison.VerdictsOrderIndependent` | subgraph-radio/src/operator/attestation.rs:497-551 | permuting the messages changes neither verdict where the extreme weight is reached only once |
| `ComparisonOrder.AnyOrderExactly` | subgraph-radio/src/operator/attestation.rs:497-526 | the main loop's verdict is the same for every order of the messages if and only if the least weight is reached once or by no attestation with the local PPOI |
| `Tables.TypeRoundTrip` | subgraph-radio/src/operator/attestation.rs:377-406 | a result type survives Display and FromStr if and only if it is not BuildFailed |
| `Tables.ParseExact` | subgraph-radio/src/operator/attestation.rs:378-388 | the four texts that can be read as a result type |
| `Tables.SavedIsRead` | subgraph-radio/src/database/mod.rs:590-625 | a saved result is read back whole if and only if it is not a BuildFailed, and no other deployment's changes |
| `Tables.LocalCleanupExact` | subgraph-radio/src/database/mod.rs:191-210 | the delete drops the rows of the deployment up to the block and keeps all others in order if and only if each such row's text and number compare alike |
| `Tables.RemoteCleanupExact` | subgraph-radio/src/database/mod.rs:333-353 | the same for remote messages |
| `Tables.CleanupAtRollover` | subgraph-radio/src/database/mod.rs:196-206 | for every power of ten, cleaning up at it keeps the block just below, and cleaning up just below drops it |
| `Tables.LocalAt` | subgraph-radio/src/database/mod.rs:43-95 | a row of that deployment and block is returned if there is one, and nothing otherwise |
| `Store.Database.InsertLocalAttestation` | subgraph-radio/src/database/mod.rs:16-41 | appends the row, or is refused and changes nothing when block, deployment and PPOI are taken |
| `Store.Database.GetLocalAttestationsByIdentifier` | subgraph-radio/src/database/mod.rs:97-144 | the push loop returns the rows of the deployment, all of them, in order |
| `Store.Database.DeleteOutdatedLocalAttestations` | subgraph-radio/src/database/mod.rs:191-210 | leaves exactly the rows the text condition spares, and reports how many went |
| `Store.Database.InsertRemotePpoiMessage` | subgraph-radio/src/database/mod.rs:212-236 | appends the message with the duplicated fields taken from the outer one |
| `Store.Database.CleanRemotePpoiMessages` | subgraph-radio/src/database/mod.rs:333-353 | as the local delete, for remote messages |
| `Store.Database.SaveComparisonResult` | subgraph-radio/src/database/mod.rs:590-625 | upserts the deployment's row, from which the result is read back, and always counts one row |
| `Store.Database.GetComparisonResultByDeployment` | subgraph-radio/src/database/mod.rs:701-735 | nothing, the stored result, or an error if its type cannot be parsed |
| `Store.Database.CreateNotification` | subgraph-radio/src/database/mod.rs:525-543 | refused, without change, when the deployment has a notification |
| `Store.Database.ClearAllNotifications` | subgraph-radio/src/database/mod.rs:578-588 | nothing is pending afterwards |
| `Store.Database.SaveUpgradeIntentMessage` | subgraph-radio/src/database/mod.rs:355-385 | one row per subgraph, the latest saved |
| `Store.Database.RecentUpgrade` | subgraph-radio/src/database/mod.rs:501-523 | compares the stored nonce as text with the wrapped difference |
| `CrossCheck.LocalComparisonPoint` | subgraph-radio/src/operator/attestation.rs:220-258 | the chain of filters and minimum over both tables yields the comparison point |
| `CrossCheck.PointExact` | subgraph-radio/src/operator/attestation.rs:232-257 | there is a point if and only if a block is in both tables; it is the least such block, and the window opens at the earliest timestamp of its rows |
| `CrossCheck.PointUnique` | subgraph-radio/src/operator/attestation.rs:232-257 | nothing else has those properties |
| `CrossCheck.PointOfFirst` | subgraph-radio/src/operator/attestation.rs:242-257 | the same for rows with any number of timestamps: the first row that no other comes before, those without a timestamp last, and its first timestamp or zero plus the window |
| `CrossCheck.PoiMessageComparison` | subgraph-radio/src/messages/poi.rs:326-388 | the comparison of one deployment, reading the database step by step, gives the outcome specified on its contents |
| `CrossCheck.OutcomeExact` | subgraph-radio/src/messages/poi.rs:336-385 | each error and each verdict from the tables alone: no verdict before the window ends, NotFound if and only if no message of the block came in the window, never BuildFailed, never a missing local record; the attestations are those gathered, heaviest first |
| `CrossCheck.MatchExact` | subgraph-radio/src/messages/poi.rs:379-388 | Match if and only if the last-arrived least-staked of the attestations gathered in the window carries the local PPOI |
| `CrossCheck.ResultMeaning` | subgraph-radio/src/messages/poi.rs:352-388 | the attestations of a result are one faithful summary for each PPOI sent about the block in the window, weighing what the senders' stakes add up to |
| `CrossCheck.DistinctInResult` | subgraph-radio/src/operator/attestation.rs:154-175 | no PPOI is listed twice in the result of a comparison, as the laws about verdicts and ratios ask |
| `CrossCheck.CleanupAfterComparison` | subgraph-radio/src/operator/operation.rs:181-196 | both tables are cleaned up at the compared block, no other table changes |
| `CrossCheckLaws.PointMoves` | subgraph-radio/src/operator/attestation.rs:232-257 | a received message moves the comparison point if and only if it makes a locally attested, lower block comparable |
| `CrossCheckLaws.NonInterference` | subgraph-radio/src/messages/poi.rs:336-385 | a message at a higher block, at a block not attested locally, of another deployment, or after the window does not change the outcome |
| `CrossCheckLaws.ReadApart` | subgraph-radio/src/messages/poi.rs:336-385 | the point is chosen before the messages and the local row are read: whatever is sent and received in between, the outcome is that of a comparison in one piece, the sends and the messages that would have moved the point counting as made after it and all others before |
| `CrossCheckLaws.CompareFrame` | subgraph-radio/src/messages/poi.rs:352-373 | the outcome depends on the rows of its own deployment only |
| `CrossCheckLaws.CleanupFrame` | subgraph-radio/src/operator/operation.rs:181-196 | a cleanup leaves the rows of other deployments as they are, in order |
| `CrossCheckLaws.CleanupExact` | subgraph-radio/src/operator/operation.rs:181-196 | which blocks are left in each table, for every deployment |
| `Operation.SendPoiMessage` | subgraph-radio/src/messages/poi.rs:184-295 | refused as not synced if and only if the latest block is below the message's, and as a duplicate if and only if it is not and the deployment has a row for the block; otherwise sent, if all answers come, and recorded in a row with the PPOI, the nonce and nothing else |
| `Operation.ProcessValidMessage` | subgraph-radio/src/messages/poi.rs:301-322 | a validated message is stored |
| `Operation.ComparePoi` | subgraph-radio/src/operator/operation.rs:124-179 | the two loops: every comparison against the same tables, then a cleanup for each success |
| `Operation.BatchIsSequential` | subgraph-radio/src/operator/operation.rs:128-176 | for distinct deployments this gives the results and tables of comparing and cleaning up one deployment at a time |
| `Lifecycle.StepKeeps` | subgraph-radio/src/messages/poi.rs:200-277 | every step keeps: one local row per deployment and block, each recording a send made when the deployment had synced that far; no row in the way of a send in progress; a row under every verdict awaiting cleanup; only senders whose address can be decoded |
| `Lifecycle.TablesInvariant` | subgraph-radio/src/messages/poi.rs:200-277 | so it holds in every reachable state; in particular no comparison there meets an address it cannot decode |
| `LifecycleLaws.SendHistory` | subgraph-radio/src/messages/poi.rs:211-219 | a send not covered by a cleanup since still has its row, in every reachable state |
| `LifecycleLaws.SentOncePerCleanup` | subgraph-radio/src/messages/poi.rs:211-277 | over any run a block is sent a second time for a deployment only after a cleanup covering it |
| `LifecycleLaws.UniqueKeyNotEnough` | migrations/20231208160822_persisted-state.up.sql:9-9 | two sends of a block that overlap leave two rows if and only if the PPOI changed in between |
| `LifecycleLaws.BalancedStep` | subgraph-radio/src/operator/operation.rs:157-196 | each step keeps the account between rows, cleanups, verdicts and sends of a deployment |
| `LifecycleLaws.VerdictsBounded` | subgraph-radio/src/operator/operation.rs:158-196 | from any reachable state a deployment gets at most as many more verdicts as it has rows plus sends to come; so without gossip comparing ends, under text ordering too |
| `LifecycleOrder.VerdictsIncrease` | subgraph-radio/src/operator/operation.rs:158-196 | over any interleaving in which gossip stays ahead and no cleanup leaves a row up to its block, compared blocks strictly increase per deployment |
| `LifecycleOrder.VerdictsIncreaseWithEqualDigits` | subgraph-radio/src/database/mod.rs:191-210 | in particular when the blocks of each deployment have equally many digits |
| `LifecycleOrder.ReachablePoint` | subgraph-radio/src/operator/attestation.rs:232-257 | in every reachable store the point is the least shared block with the timestamp of its one row plus the window, and is absent if and only if no block is shared |
| `LifecycleRollover.StaleRowGoesBack` | subgraph-radio/src/database/mod.rs:196-206 | after a cleanup that left a row up to its block behind, one message moves the comparison point back to that row or further, and the verdict falls there from the end of the window on |
| `LifecycleRollover.ThoroughExactly` | subgraph-radio/src/operator/operation.rs:158-196 | after any orderly run the cleanup that is due leaves no such row if and only if compared blocks go on increasing whatever valid message is heard next and whenever it is compared |
| `LifecycleRollover.AheadExactly` | subgraph-radio/src/messages/poi.rs:253-277 | after any orderly run the send in progress ends ahead of what has been compared if and only if compared blocks go on increasing, likewise |
| `LifecycleRollover.RolloverUpsets` | subgraph-radio/src/database/mod.rs:196-206 | at every power of ten, for any time of sending and any time of comparing after the window, a run from the empty store whose sends stay ahead and which compares 10..0, cleans up, and then compares 9..9 |
| `LifecycleBatch.BatchIsRun` | subgraph-radio/src/operator/operation.rs:124-179 | a batch of distinct deployments is a run of verdicts followed by cleanups, with the tables the method leaves |
| `LifecycleBatch.SendIsRun` | subgraph-radio/src/messages/poi.rs:200-277 | a send is its two steps: refused at the first, or leading to the tables the method leaves |
| `Notifications.HandleComparisonResult` | subgraph-radio/src/operator/attestation.rs:323-362 | refused without change if the recorded result cannot be read; otherwise recorded, and announced if it is the first, or of another type than the recorded one and not Match after NotFound; refused then if the deployment has a notification pending |
| `Notifications.SuccessesExact` | subgraph-radio/src/operator/attestation.rs:654-690 | what is handled is all successes of the batch, in order |
| `Notifications.ProcessComparisonResults` | subgraph-radio/src/operator/attestation.rs:642-710 | handles every success in order; in Live mode sends and clears all that is pending |
| `Notifications.NotificationTick` | subgraph-radio/src/operator/mod.rs:412-434 | in PeriodicUpdate mode sends and clears all that is pending, otherwise nothing |
| `Notifications.BuildFailedIsFinal` | subgraph-radio/src/operator/attestation.rs:329-347 | in any list of results one is refused and lost if and only if a BuildFailed for its deployment came before it |
| `NotificationText.ShownText` | subgraph-radio/src/operator/attestation.rs:409-456 | the text of a notification names the type of the result, its deployment and its block |
| `NotificationText.TextTellsAll` | subgraph-radio/src/operator/attestation.rs:409-456 | two results with the same text have the same type, deployment and block |
| `NotificationLaws.RecordedLatest` | subgraph-radio/src/operator/attestation.rs:347-359 | after any history of verdicts and flushes the results table carries the latest verdict of each deployment, also where its notification was refused |
| `NotificationLaws.PendingIsFirstNews` | subgraph-radio/src/operator/attestation.rs:349-359 | what is pending is, for each deployment, the first announceable verdict since the last flush |
| `NotificationLaws.PendingOneEach` | migrations/20231208160822_persisted-state.up.sql:40-43 | at most one notification per deployment is ever pending |
| `NotificationLaws.LiveAnnouncesChanges` | subgraph-radio/src/operator/attestation.rs:340-359 | in Live mode what is sent about a deployment over any run is its verdict history without repeats and without NotFound-to-Match changes, and nothing stays pending |
| `NotificationLaws.LiveAnnounced` | subgraph-radio/src/operator/attestation.rs:340-359 | the same with the changes written out: a note is sent for a verdict if and only if it is the first, or of another type than the one before and not Match after NotFound; one each, in order |
| `NotificationLaws.LiveIsHistory` | subgraph-radio/src/operator/attestation.rs:692-706 | a Live run is the history of its verdicts with a flush after each batch: same tables, same notes sent |
| `NotificationLaws.ComparedBatch` | subgraph-radio/src/operator/operation.rs:157-178 | the results of a batch of distinct deployments meet the conditions of that law |
| `Upgrades.ProcessValidMessage` | subgraph-radio/src/messages/upgrade.rs:103-157 | notifies exactly when there was no recent upgrade; a suppressed message finishes without an error |
| `Upgrades.ProcessUpgradeMessage` | subgraph-radio/src/operator/mod.rs:572-593 | a valid message, from the owner and with equal nonces and accounts inside and out, is announced if and only if there was no recent upgrade; it is stored, field by field, if it was suppressed or its deployment went through, and nothing changes otherwise |
| `Upgrades.RememberedLast` | subgraph-radio/src/database/mod.rs:355-385 | what is remembered of a subgraph is the last message for it that finished |
| `Upgrades.TooSoonExact` | subgraph-radio/src/database/mod.rs:506-514 | for all nonces and thresholds: the query measures the distance if and only if the text of the stored nonce and that of the bound, wrapped or not, compare as digit counts and leading digits say |
| `Upgrades.SuppressedExactly` | subgraph-radio/src/messages/upgrade.rs:110-118 | a valid message is suppressed only after another has finished; it is suppressed for coming less than the threshold after the last one that finished, itself suppressed or not, if and only if the two are comparable |
| `Upgrades.AcceptedApart` | subgraph-radio/src/messages/upgrade.rs:110-118 | while nonces do not go down, an accepted or otherwise announced upgrade whose nonce is comparable with the last stored one is at least the threshold after every message of its subgraph that finished before |
| `Upgrades.SteadyStreamExact` | subgraph-radio/src/operator/mod.rs:586-592 | after a message that finished, all later ones are suppressed if and only if each is too soon after the one before it |
| `Upgrades.SteadyStreamAcceptedOnce` | subgraph-radio/src/operator/mod.rs:586-592 | a stream with all gaps below the threshold, each nonce comparable with the one before it, has one message accepted at most, whatever else is interleaved |
| `UpgradeSpacing.LaterNonces` | subgraph-radio/src/database/mod.rs:506-514 | of the nonces from the threshold on, those let through are all a threshold after a given one if and only if that is at most the least number whose text is not below the stored one, or no such nonce is left |
| `UpgradeSpacing.EarlierNonces` | subgraph-radio/src/database/mod.rs:506-506 | none of the nonces below the threshold, whose bound wraps, is let through if and only if the stored text is above that of 2^64 - 1 and all wrapped bounds have twenty digits |
| `UpgradeSpacing.SpacingExact` | subgraph-radio/src/operator/mod.rs:586-592 | after any history with a message stored, the next accepted upgrade, and the next announced one, is sure to be the threshold after a given nonce if and only if both these conditions hold of the stored nonce; no restriction on the next nonce |
| `UpgradeSpacing.LastIsSafe` | subgraph-radio/src/database/mod.rs:506-514 | that nonce can be the stored one itself if and only if it has one digit or nines before its last digit, and no wrapped bound lets through |
| `UpgradeSpacing.NothingStored` | subgraph-radio/src/messages/upgrade.rs:110-118 | with nothing stored for the subgraph nothing at all is sure of the next upgrade |
| `UpgradeSpacing.FailedAnnouncedAgain` | subgraph-radio/src/operator/mod.rs:586-592 | an upgrade announced and failed is announced again with the same nonce as long as no other message is stored |
| `UpgradeSpacing.ComparableSpacing` | subgraph-radio/src/messages/upgrade.rs:110-118 | among nonces comparable with the stored one, the next accepted upgrade is sure to be the threshold after a given nonce if and only if that is not above the stored one, or no nonce is left |
| `UpgradeSpacing.OldNonceReopens` | subgraph-radio/src/database/mod.rs:506-514 | for any old nonce in between that is comparable with the first, two upgrades less than the threshold apart are accepted |
| `Ratios.AggregateAttestation` | subgraph-radio/src/server/model/mod.rs:470-516 | the loop with its flag adds the local radio to the attestations of its PPOI, or its own row if there is none |
| `RatioLaws.AggregatedExact` | subgraph-radio/src/server/model/mod.rs:495-515 | what that leaves, in order: the remote attestations but for those that already list the local radio, the radio added at the end of the senders of its PPOI, and its own row last if no remote one matched |
| `Ratios.CalcRatios` | subgraph-radio/src/server/model/mod.rs:206-239 | the two printed ratios, heaviest first, the local PPOI starred |
| `RatioLaws.EntriesInOrder` | subgraph-radio/src/server/model/mod.rs:206-239 | both ratios list the attestations heaviest first, equal weights in their old order, the same at the same place in each; the value and star of every entry |
| `Ratios.PrintRoundTrip` | subgraph-radio/src/server/model/mod.rs:235-236 | a printed ratio can be read back entry by entry |
| `RatioLaws.RatioTotals` | subgraph-radio/src/server/model/mod.rs:206-239 | for any list of remote attestations and all stakes, wrapped or not, what each contributes to the stake ratio, the sender ratio and the stars |
| `RatioLaws.RatiosConserve` | subgraph-radio/src/server/model/mod.rs:495-515 | with distinct PPOIs, and as long as no shown sum wraps, the stakes total the remote stake plus twice the local stake on a match, plus the local row's weight and once the local stake otherwise; sender counts, without that condition, likewise; one star in each ratio |
| `RatioLaws.StarMissingExactly` | subgraph-radio/src/server/model/mod.rs:497-506 | the star is missing if and only if the remote attestation of the local PPOI already lists the local radio |
| `RatioLaws.RatiosWithoutLocal` | subgraph-radio/src/server/model/mod.rs:229-233 | without a local attestation the totals are the remote ones, with one starred zero at the end |

## Left out

- Waku transport, wallets, signatures, EIP-712, message decoding and sender validation: the messages that enter the model have passed them.
- GraphQL and HTTP clients and servers, indexer management, the notifier's webhooks: I/O; a notification that is sent is a value returned.
- Metrics and logging, among them `combine_senders`, `allocated_subgraphs` and the summary lists of `process_comparison_results`, which nothing else reads.
- SQL execution, JSON columns, migrations and database faults other than a key that is taken; rows come back in insertion order, and numeric columns are kept as numbers that are rendered wherever the database compares text.
- Configuration, topic coverage, timers, `skip_iteration`, timeouts and shutdown.
- `gossip_poi` and `gossip_set_up` as loops over deployments: each send is a task of its own, and the step relation interleaves them.
- The query resolvers and their filters, and the text of the PeriodicReport mode: reads without effect on the protocol.
- Attestations.SortAddresses: malformed addresses are excluded by a precondition, since the code panics on them; so for the methods that build attestations from them.
- AggregationLaws.OrderIndependent: an account's stake is a function of the account, so a stake that changes between two lookups is not modelled.
- Lifecycle.TablesInvariant: a cleanup's two deletes are one step; a reception between them leads to the same tables as one before both, because the first delete does not read what is received.
- Lifecycle.Next: a comparison is one step, although the code reads the tables one after the other and awaits stake lookups in between; `ReadApart` shows that sends and receptions meanwhile make no difference.
- Ratios.AggregateAttestation: the clock reading is given as a number, so the error for a clock before 1970 cannot occur.
- RatioLaws.RatiosConserve: its stake total is stated where no shown sum reaches 2^64; `RatioTotals` has the wrapped entries beyond.
