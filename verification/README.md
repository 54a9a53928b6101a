# Attachra core: a verified model

Attachra is a mail filter. It receives a message from the MTA over the milter protocol, walks its
MIME parts, asks a policy what to do with each attachment, moves the replaced attachments to
object storage behind personal download links, hands the rewritten message back to the MTA as a
list of header changes and a new body, and keeps a hash-chained audit log of what it did. Its HTTP
side throttles clients by address.

The project models six parts of that core and proves what each promises. Operations that change
state in place are classes and methods with loops, each proved against a specification function;
the theorems are lemmas about those functions.

| part | files |
|---|---|
| audit log | `audit_record`, `audit_verify`, `audit_log`, `audit_theorems` |
| rate limiting | `token_bucket`, `lru`, `evicting_map`, `limiters`, `limiter_theorems` |
| milter header reconciliation | `milter_headers`, `milter_reconcile`, `milter_outcome`, `milter_exact`, `milter_normalize`, `milter_folding`, `milter_message`, `milter_backend`, `milter_text`, `milter_session`, `milter_theorems` |
| MIME walk and inline references | `mime_tree`, `mime_occurrence`, `mime_walk`, `mime_paths`, `cid_scan`, `cid_markup`, `cid_refs` |
| decision and commit | `policy_decision`, `pipeline_decision`, `decision_effects`, `recipient_order`, `link_engine`, `link_integrity`, `pipeline_uploads`, `pipeline_process` |
| forwarded addresses | `trusted_proxy` |
| shared | `text` (numerals, splitting, trimming, order, induction), `sorting`, `rearranging` |

`dafny verify dfyconfig.toml` checks all of it.

## What stands for what

- SHA-256, JSON rendering, date formatting, percent-decoding, rule conditions, the canonical form
  of a header name, address parsing and `rewrite.Rewrite` are function parameters. SHA-256 is not
  assumed injective: results about tampering end in "or two rows collide".
- Every call of the object store, the metadata store, the random source and the rewriter may fail.
  Which calls of a kind fail is a parameter, numbered call by call, so that what a run leaves
  behind can be stated exactly. A failed call changes nothing. Identifiers and tokens are never drawn twice.
- The clock does not go backwards. Tokens of a rate limit are real numbers, and one request reads
  the clock once.
- Text is a sequence of characters standing for bytes. `TrimSpace` trims ASCII white space.
- A MIME message starts as the tree of its parts, with the sizes in which a leaf's content is read.
- The MTA is any that carries out header changes as the milter protocol defines them
  (`MilterHeaders.Conforming`); the message text is read back by the line-based reader of
  `MilterMessage`, which stands for `net/textproto`.

## Findings

Where the code does not do what its comments or documentation say, the model follows the code and
the exact condition is proved.

1. Audit truncation compares timestamps as RFC 3339 text, in which trailing zeros of the fraction
   are dropped. Text order is not time order: a row of the cutoff's own second whose fraction
   continues the cutoff's digits is removed although it is newer (`AuditRecord.TextOrderExact`,
   `AuditLog.TruncationRemovesNewerRow`). The promise to remove only older rows holds for every
   table exactly when the cutoff is written with all nine digits
   (`AuditLog.OnlyOlderRemovedExactly`). An older row whose digits the cutoff continues counts as
   recent, in turn, and ends what is removed; `AuditLog.RemovesOlderExactly` says when just the
   older, unheld rows go.
2. The evicting rate-limit map answers as one that never evicts exactly when a bucket refills
   within an entry's lifetime (`LimiterTheorems.RefinesExactly`). With the default lifetime that
   means a burst of at most thirty times the rate per minute
   (`LimiterTheorems.DefaultLifetimeSuffices`); the constructors accept larger bursts.
3. `normalizeHeaderValue` is meant to make the comparison robust to folding. A value that starts on
   a continuation line, or has blanks before a fold, still compares unequal to itself read back,
   so the header is changed although nothing rewrote it (`MilterFolding.ReadBackSameExactly`,
   `MilterFolding.FoldedBeforeText`, `MilterTheorems.IdentityRewrite`).
4. A rewritten header value that is empty and differs from the original deletes the header instead
   of emptying it (`MilterExact.EmptyChangeDeletes`). Where no name has more than one value on
   either side, every name ends as wanted exactly if there is no such value
   (`MilterExact.AllDeliveredExactly`); with more values two of them can make up for each other
   (`MilterExact.TwoEmptyChanges`).
5. When an attachment's identifier cannot be drawn after its object was stored, that object is in
   no list the rollback works through and stays behind. A run that does not deliver leaves both
   stores as they were except for the uploads whose deletion fails, its rows if purging them
   fails, and one object exactly if uploading meets such a draw first
   (`PipelineProcess.Processor.Process`). It can happen at any attachment
   (`PipelineUploads.StrandingArises`).
6. Whether an attachment's ruling runs dry is taken from the first recipient with the strongest
   action. So the order of recipients can decide whether a message is rejected
   (`RecipientOrder.OrderDecides`). It cannot exactly when nobody has an attachment blocked in
   earnest, or there are attachments, some of them blocked, such that nobody has one of these
   blocked in a dry run without having one of these blocked in earnest
   (`RecipientOrder.RejectionOrderExactly`); in the latter case every order rejects the message,
   even where the recipients disagree on each attachment (`RecipientOrder.CrosswiseRejected`).
7. `ApplyModeToMessage` starts from no action, unlike the other aggregations, so a message without
   attachments ends with an empty action (`PipelineDecision.Settled`).
8. The comment on `forwardedClientIP` says a malformed hop anywhere abandons the header. The code
   looks no further left than the first hop that is not a trusted proxy, so a malformed hop is
   noticed exactly if the last such hop is malformed (`TrustedProxy.MalformedNoticedExactly`). This
   is what makes the result independent of what a client puts in front, on a line that the proxies
   append to (`TrustedProxy.AppendedDecides`). Only the header's first line is consulted: a client's
   own line in front of the proxies' lines decides alone (`TrustedProxy.FirstLineDecides`).
9. The audit preimage joins its fields with `|` without escaping. Another row with the same head
   and details has a row's preimage exactly when the row's actor, message or recipient contains `|`
   (`AuditRecord.FramingExactly`); actor `x|y` with message `z` and actor `x` with message `y|z` are
   such a pair (`AuditRecord.FramingAmbiguity`).
10. `CheckpointsPresent` is documented as the number of retention checkpoints in the verified range.
    It is the number of different anchors they name, which is the same exactly if no two name one
    (`AuditVerify.CheckpointsCountedExactly`).

## Model

| member | source | states |
|---|---|---|
| AuditRecord.TextOrderExact | internal/core/store/sqlite/store.go:14-20 | when the text order of two timestamps is their time order, and when it is the reverse |
| AuditRecord.PreimageDeterminesPrevHash | internal/core/audit/hash.go:63-81 | equal preimages have equal stored predecessor hashes |
| AuditRecord.PreimageDetermines | internal/core/audit/hash.go:21-81 | equal preimages determine id, number, type and the timestamp's text, and with bar-free actor, message and recipient also these and the details' text |
| AuditRecord.PreimageReads | internal/core/audit/hash.go:63-81 | the digested text is the nine fields in order, joined by bars, with `{}` for no details |
| AuditRecord.FramingExactly | internal/core/audit/hash.go:63-81 | another row with the same head and details has the same preimage iff actor, message or recipient contains the separator |
| AuditRecord.FramingAmbiguity | internal/core/audit/hash.go:63-81 | such a pair of rows |
| AuditVerify.ChainWalker.Step | internal/core/audit/verify.go:240-291 | a row extends the intact rows, is the first break with its reason, or cannot be hashed |
| AuditVerify.ChainWalker.MakeReport | internal/core/audit/verify.go:295-367 | the report on the rows seen: start mode, anchor checks, counts |
| AuditVerify.Verify | internal/core/audit/verify.go:104-113 | one pass gives the assessment of the whole log |
| AuditVerify.CheckpointIsLast | internal/core/audit/verify.go:240-291 | the map of checkpoints keeps, for each anchor hash, the last checkpoint that names it |
| AuditVerify.AcceptedExactly | internal/core/audit/verify.go:295-367 | accepted iff the chain is intact and the log is empty, starts at genesis, or its last checkpoint for the first row's predecessor names the number before it |
| AuditVerify.StartBreak | internal/core/audit/verify.go:295-367 | an intact chain that is cut off is rejected for a missing anchor iff no checkpoint names the predecessor's hash, and for the number iff the last one that does names another |
| AuditVerify.ReportCounts | internal/core/audit/verify.go:295-367 | every report gives the first row's number, the rows checked, and how many different anchors the checkpoints among them name |
| AuditVerify.CheckpointsCountedExactly | internal/core/audit/verify.go:79-84 | that is the number of checkpoints iff no two of them name the same anchor, and otherwise less |
| AuditLog.AuditStore.Record | internal/core/store/sqlite/audit.go:53-107 | appends the event, as it was given, as the next row of the chain, or nothing if the new row cannot be hashed because its details cannot be serialised |
| AuditLog.AuditStore.TruncationBoundary | internal/core/store/sqlite/audit.go:416-439 | the highest number below the first recent row |
| AuditLog.AuditStore.OldestHeld | internal/core/store/sqlite/audit.go:445-460 | the lowest held number up to the boundary |
| AuditLog.AuditStore.TruncateAudit | internal/core/store/sqlite/audit.go:292-408 | removes the removable prefix and appends one checkpoint that names the last row removed with its hash, how many went, the cutoff and whether a held row cut it short; or does nothing |
| AuditLog.AuditStore.DeleteBehindCheckpoint | internal/core/store/sqlite/audit.go:292-408 | the checkpoint is written before the prefix behind it goes, and links to the last row |
| AuditLog.BoundaryIsRemovable | internal/core/store/sqlite/audit.go:292-460 | boundary and hold clamp together leave exactly the longest old, unheld prefix |
| AuditLog.StopsAtHeld | internal/core/store/sqlite/audit.go:441-460 | truncation is cut short exactly by an old row tied to a held message; a row tied to no message holds nothing |
| AuditLog.RemovedRowsOlderExactly | internal/core/audit/retention.go:94-113 | all removed rows are older than the cutoff iff none continues the cutoff's digits in its second |
| AuditLog.OnlyOlderRemovedExactly | internal/core/audit/retention.go:94-113 | for every table only rows older than the cutoff are removed iff the cutoff has all nine digits |
| AuditLog.TruncationRemovesNewerRow | internal/core/store/sqlite/audit.go:416-439 | any row of the cutoff's second that continues its digits is newer and removed |
| AuditLog.RemovesOlderExactly | internal/core/store/sqlite/audit.go:292-460 | the removed rows are exactly the leading older, unheld ones iff every unheld row of misjudged age stands behind a held or rightly recent one |
| AuditTheorems.RunIsIntact | internal/core/audit/retention.go:94-113 | every run of recordings and truncations keeps numbering, chaining and the newest checkpoint on the first survivor |
| AuditTheorems.EveryRunVerifies | internal/core/audit/verify.go:295-367 | every such run is accepted in the start mode of its history, over all its rows |
| AuditTheorems.PrefixDeletionRejected | internal/core/audit/verify.go:325-356 | in every reachable log, deleting a proper prefix without a checkpoint is rejected |
| AuditTheorems.TailRemovalAcceptedExactly | internal/core/audit/verify.go:75-104 | removing the newest rows goes unnoticed iff the newest checkpoint is kept or the log starts at genesis |
| AuditTheorems.SameHeadSameLog | internal/core/audit/verify.go:240-291 | accepted logs with one last hash agree from the end up to preimage, or rows collide; from genesis they have one length |
| AuditTheorems.EditDetectedExactly | internal/core/audit/verify.go:240-291 | replacing a row that is not last breaks at it or behind it, unless number, predecessor hash and own hash stay; the break says gap or mismatch, with the hash found and the one stored |
| AuditTheorems.UndetectedEdit | internal/core/audit/verify.go:240-291 | an accepted edit has the old row's preimage or collides with it |
| AuditTheorems.InteriorRemovalDetected | internal/core/audit/verify.go:240-291 | removing any block of inner rows is a sequence gap right there, with the rows before it checked |
| AuditTheorems.ReorderBreak | internal/core/audit/verify.go:240-291 | a reordering is a sequence gap at the first place behind the first row where it differs, with the rows before it checked |
| AuditTheorems.ReorderDetected | internal/core/audit/verify.go:240-291 | no reordering but the identity is accepted |
| TokenBuckets.TokenBucket.Allow | internal/adapters/http/ratelimit.go:51-74 | refills up to the burst and spends one token if there is one |
| TokenBuckets.CallsInvariant | internal/adapters/http/ratelimit.go:51-74 | over any calls, those allowed and the tokens left stay within the allowance, and tokens within the burst |
| TokenBuckets.WindowBound | internal/adapters/http/ratelimit.go:29-74 | at most burst plus rate times duration calls are allowed in any window |
| TokenBuckets.IdleRefills | internal/adapters/http/evictingmap.go:60-73 | a bucket idle for the lifetime is as a fresh one if rate times lifetime reaches the burst |
| TokenBuckets.BurstAtOnce | internal/adapters/http/ratelimit.go:29-74 | a new limiter lets through exactly its burst at once, or its rate per minute if no burst is set |
| TokenBuckets.MinuteAfterBurst | internal/adapters/http/ratelimit.go:51-74 | a used-up one lets through its rate per minute a minute later, within its burst |
| Lru.ExpireExact | internal/adapters/http/evictingmap.go:145-166 | stopping at the first live entry from the back removes exactly the idle ones |
| Lru.TouchKeepsOrder | internal/adapters/http/evictingmap.go:122-184 | a request keeps keys distinct, entries by recency and the size within bounds, with its key in front |
| Lru.TouchOtherPresent | internal/adapters/http/evictingmap.go:122-184 | another key's entry is dropped only when idle or pushed over the capacity, and otherwise kept as it is |
| EvictingMap.EvictingBucketMap.EvictExpired | internal/adapters/http/evictingmap.go:150-166 | removes from the back what has been idle for the lifetime |
| EvictingMap.EvictingBucketMap.EvictOverCap | internal/adapters/http/evictingmap.go:171-184 | removes from the back what exceeds the capacity |
| EvictingMap.EvictingBucketMap.GetOrCreate | internal/adapters/http/evictingmap.go:122-143 | the list becomes what a request makes of it, with the key's bucket in front; list and index stay in step |
| Limiters.PerIPLimiter.AllowRequest | internal/adapters/http/ratelimit.go:125-132 | answers and updates its map as the admission function says, or always allows when disabled |
| Limiters.PerIPLimiter.AllowNotFound | internal/adapters/http/ratelimit.go:138-145 | the same for the not-found limit |
| Limiters.AuthThrottle.FailAllowed | internal/adapters/http/auththrottle.go:62-70 | the same for failed log-ins |
| LimiterTheorems.DroppedOnlyFor | internal/adapters/http/evictingmap.go:122-184 | for all bounds, quotas and requests a key is dropped only after a lifetime or after as many distinct other keys as the capacity; until then its entry has its last request's stamp |
| LimiterTheorems.BoundedTracks | internal/adapters/http/evictingmap.go:60-73 | while buckets refill in time and a key is not crowded out, its entry holds the never-evicting limiter's bucket and the answers are equal |
| LimiterTheorems.RefinesExactly | internal/adapters/http/evictingmap.go:60-73 | for every request sequence and every key not crowded out the answers equal a never-evicting limiter's, iff buckets refill within the lifetime |
| LimiterTheorems.CrowdedOut | internal/adapters/http/evictingmap.go:168-184 | for every capacity, lifetime and quota, as many other keys as the capacity get a spent key a full bucket that the never-evicting limiter denies |
| LimiterTheorems.BoundedWindow | internal/adapters/http/ratelimit.go:51-74 | the window bound holds through evictions |
| LimiterTheorems.DefaultLifetimeSuffices | internal/adapters/http/evictingmap.go:28-73 | with the default lifetime buckets refill iff the burst is at most thirty times the rate |
| MilterHeaders.ChangeHitsCell | internal/adapters/milter/backend.go:356-399 | a change at a header's own index changes that header only, whatever was appended or deleted behind it |
| MilterReconcile.PlanReconciles | internal/adapters/milter/backend.go:428-497 | running the issued operations on the MTA's list leaves the kept headers in order with settled values, then the additions |
| MilterReconcile.SortedSchedule | internal/adapters/milter/backend.go:478-483 | the sorted deletions are the surplus occurrences, each once, highest index first within a name |
| MilterReconcile.DeletesRun | internal/adapters/milter/backend.go:484-492 | in that order no deletion shifts an index still pending |
| MilterOutcome.ReconciledValues | internal/adapters/milter/backend.go:428-497 | afterwards each name has exactly its wanted number of values, its own where equivalent |
| MilterExact.NameEnds | internal/adapters/milter/backend.go:428-497 | for any headers and any rewritten block, empty values included, each name ends as its own values alone determine |
| MilterExact.SimulatedOutcome | internal/adapters/milter/backend.go:446-492 | that is its wanted number of values, its own where equivalent, if no differing wanted value of the name is empty |
| MilterExact.EmptyChangeDeletes | internal/adapters/milter/backend.go:446-456 | a name whose only value is to become empty and differs ends without a header, whatever the other headers |
| MilterExact.SingleDelivered | internal/adapters/milter/backend.go:446-492 | a name with at most one value on either side ends as wanted iff it is not that case |
| MilterExact.AllDeliveredExactly | internal/adapters/milter/backend.go:428-497 | if no name has more, every name ends as wanted iff no differing wanted value is empty |
| MilterExact.TwoEmptyChanges | internal/adapters/milter/backend.go:446-456 | with two values the condition is not necessary |
| MilterNormalize.SkipBlanks | internal/adapters/milter/backend.go:560-565 | skips the blanks at a position |
| MilterNormalize.UnfoldAll | internal/adapters/milter/backend.go:555-579 | every line break with the blanks after it becomes one space |
| MilterNormalize.NormalizeHeaderValue | internal/adapters/milter/backend.go:555-579 | the comparison form of a value |
| MilterFolding.ReadBackSameExactly | internal/adapters/milter/backend.go:541-579 | a folded value equals itself read back iff it is folded neatly |
| MilterFolding.FoldedBeforeText | internal/adapters/milter/backend.go:541-579 | a value folded before its text is not |
| MilterText.UnchangedOnOneLine | internal/adapters/milter/backend.go:541-579 | values on one line count as unchanged iff they are the same text up to the blanks around |
| MilterText.UnchangedKeepsLetters | internal/adapters/milter/backend.go:541-579 | values that count as unchanged, however folded, have the same characters but for blanks and line breaks |
| MilterText.DeliveredReadsSame | internal/adapters/milter/backend.go:446-492 | what is delivered is the same text as what was wanted in both senses |
| MilterMessage.ContinueFolded | internal/adapters/milter/backend.go:414-421 | the reader joins exactly the continuation lines of a folded value |
| MilterMessage.ReadReassembled | internal/adapters/milter/backend.go:335-354 | reading a reassembled message gives back its fields in order and its body untouched |
| MilterMessage.CrlfKept | internal/adapters/milter/backend.go:325-354 | the reassembled message has no bare line feed if what was collected has none |
| MilterBackend.LooksLikeHeaderBlock | internal/adapters/milter/backend.go:618-656 | true iff the first line of the first 512 characters is a field line and no boundary delimiter |
| MilterBackend.FieldWithin | internal/adapters/milter/backend.go:618-656 | a body that begins with a name and a colon starts with a field iff the colon is among its first 512 characters and it is no delimiter |
| MilterBackend.GroupValues | internal/adapters/milter/backend.go:422-426 | the values of each canonical name, in order of appearance |
| MilterBackend.HeaderNameUnion | internal/adapters/milter/backend.go:519-533 | the names of either side, each once, ascending |
| MilterSession.Session.ReassembleMessage | internal/adapters/milter/backend.go:335-354 | the collected headers, a blank line and the body; the body alone without headers |
| MilterSession.Session.ReconcileNames | internal/adapters/milter/backend.go:448-476 | issues the changes and additions name by name, up to the refused one, and schedules the deletions |
| MilterSession.Session.DeleteScheduled | internal/adapters/milter/backend.go:484-492 | issues the deletions in order, up to the refused one |
| MilterSession.Session.ReplaceMessage | internal/adapters/milter/backend.go:401-503 | nothing is issued for an unreadable block or a promoted body; otherwise the whole program, the body last, or what precedes the operation that the MTA refuses |
| MilterTheorems.RewriteDelivers | internal/adapters/milter/backend.go:356-399 | after the program a name ends as its own values determine: with exactly the rewritten message's text, up to normalization, unless a differing one is empty |
| MilterTheorems.SingleRewriteDelivers | internal/adapters/milter/backend.go:356-399 | a name with at most one value on either side has, iff the rewritten message does not give it an empty value in place of a different one |
| MilterTheorems.EmptyPlan | internal/adapters/milter/backend.go:448-492 | with as many values wanted as there are, no header operation is issued iff none differs |
| MilterTheorems.IdentityRewrite | internal/adapters/milter/backend.go:401-503 | a message handed back as written reads back whole unless it has a body but no headers, and has only its body replaced iff all its values are folded neatly |
| MilterTheorems.HeaderlessIdentity | internal/adapters/milter/backend.go:335-421 | a message without headers reads back with all of its body iff that is empty |
| MimeWalk.PartReader.Read | internal/core/message/parser.go:332-346 | counts each read and fails iff the part's or the message's size limit is passed |
| MimeWalk.Walk.EmitLeaf | internal/core/message/parser.go:210-246 | a leaf is visited once and counted whole, or fails for a reason that holds |
| MimeWalk.Walk.WalkMultipart | internal/core/message/parser.go:126-170 | children are walked in order; success means all of them fit |
| MimeWalk.Walk.WalkNested | internal/core/message/parser.go:178-198 | the inner message is walked one level deeper at the same path |
| MimeWalk.Walk.WalkPart | internal/core/message/parser.go:95-119 | success iff the subtree fits, then with its totals and leaves; a failure names a limit the subtree exceeds |
| MimeWalk.Parse | internal/core/message/parser.go:61-84 | success iff the whole message is readable, accepted and within all limits, however reads are cut, said of its measures and of the parts that stand in it; then every leaf was visited once in document order |
| MimeWalk.FitsExactly | internal/core/message/parser.go:61-119 | a message fits iff every part that stands in it, inner messages included, is readable, not too deep and within the header limit, and the parts listed in document order are not too many, nor their leaves too large, singly or together |
| MimeWalk.Effective | internal/core/message/limits.go:59-77 | each limit that is not positive gets its default, each other one stays |
| MimePaths.LeafPathsDistinct | internal/core/message/parser.go:126-198 | no two leaves have one path |
| MimeOccurrence.OneListing | internal/core/message/parser.go:126-198 | the parts that stand in a message can be listed in document order in exactly one way |
| MimeOccurrence.SoundThroughout | internal/core/message/parser.go:95-198 | all parts that stand in a message are sound within the limits iff its measures are |
| MimeOccurrence.LeavesListed | internal/core/message/parser.go:126-198 | the leaves walked are those listed, in order |
| MimeOccurrence.PlaceIs | internal/core/message/parser.go:126-198 | a multipart's parts have its path with their number and its type; an embedded message has the path of the part it is in |
| MimeOccurrence.InlineAssetExactly | internal/core/message/parser.go:210-229 | a leaf is an inline asset iff it has a Content-ID and stands directly in a multipart/related |
| MimeTree.ContentIDRead | internal/core/message/parser.go:304-315 | a Content-ID is read without the brackets and blanks around it |
| MimePaths.ContainersLocate | internal/core/pipeline/cid.go:281-283 | the leaves whose path starts with a multipart's path and a dot are exactly those below it |
| MimePaths.InlineAssetParent | internal/core/pipeline/cid.go:285-294 | an inline asset's parent path is its multipart/related's |
| MimePaths.InlineScope | internal/core/pipeline/cid.go:277-294 | the leaves within an inline asset's parent path are exactly those of its multipart/related |
| CidScan.TakingUnique | internal/core/pipeline/cid.go:339-364 | there is one way to take all references left to right without overlap |
| CidScan.ReferencesTaken | internal/core/pipeline/cid.go:339-364 | skipping ahead takes them in that way: no start of a reference is missed outside a taken one |
| CidScan.ContentIDsExactly | internal/core/pipeline/cid.go:339-364 | a Content-ID is found iff some taken reference names it |
| CidScan.LengthBounded | internal/core/pipeline/cid.go:339-364 | the taken references together are no longer than the text |
| CidScan.ExtractTokens | internal/core/pipeline/cid.go:339-364 | the scan returns exactly those Content-IDs |
| CidMarkup.ReferenceFound | internal/core/pipeline/cid.go:321-428 | a reference written out in the text is found: the scheme in any case, at a boundary, then up to 998 characters of printable ASCII other than quotes and brackets |
| CidMarkup.FoundIsReference | internal/core/pipeline/cid.go:321-428 | every Content-ID found stands in the text in that way |
| CidRefs.ScanReferences | internal/core/pipeline/cid.go:307-319 | scans the text up to the limit and reports whether there was more |
| CidRefs.ScanBody | internal/core/pipeline/cid.go:180-236 | one body stays within what is left of the budgets, and is complete if it fits |
| CidRefs.CollectHtmlRefs | internal/core/pipeline/cid.go:172-239 | totals stay within the budgets, each HTML body is recorded soundly, and completely when all fits |
| CidRefs.CidReferenced | internal/core/pipeline/cid.go:253-275 | referenced iff found or not ruled out; failsafe iff only not ruled out |
| CidRefs.BudgetsFailSafe | internal/core/pipeline/cid.go:242-275 | what an unbounded scan finds is always reported; without truncation in the container the answers coincide |
| PolicyDecision.DecideOne | internal/core/policy/evaluate.go:147-170 | the outcome of the first enabled rule that matches, or of the default |
| PolicyDecision.FirstMatchWins | internal/core/policy/evaluate.go:144-170 | the first enabled rule that matches, or else the default, gives action, parameters, reason and dry-run setting |
| PolicyDecision.DecideAttachment | internal/core/policy/evaluate.go:129-142 | the worst of the recipients' decisions: a block if one blocks, otherwise a replacement if one replaces, otherwise a pass |
| PolicyDecision.WorstIsSeverest | internal/core/policy/types.go:22-38 | a block by one recipient blocks, otherwise one replacement replaces, otherwise one pass passes; rule, reason and dry-run setting are those of the first recipient with that action |
| PolicyDecision.WorstIsStrongest | internal/core/policy/evaluate.go:181-194 | the worst case has the strongest action, with rule, reason and dry-run setting of the first that has it |
| PolicyDecision.WorstBound | internal/core/policy/evaluate.go:196-248 | each bound of a worst-case replacement is the least any recipient's replacement sets |
| PolicyDecision.OrderIrrelevant | internal/core/policy/evaluate.go:172-194 | order and repetition of decisions do not change the action, nor a replacement's parameters and opt-in |
| PolicyDecision.RecipientOrderIrrelevant | internal/core/policy/evaluate.go:129-142 | the same for the recipients of a message |
| PolicyDecision.DryRunOrder | internal/core/policy/mode.go:29-34 | the order of decisions never changes whether the worst case runs dry iff all strongest decisions agree |
| PolicyDecision.RecipientDryRunOrder | internal/core/policy/mode.go:29-34 | the same for the recipients of a message, in any order of them |
| PipelineDecision.BlockedExactly | internal/core/policy/evaluate.go:101-122 | a message is blocked iff an attachment is, with the first one's reason |
| PipelineDecision.SummaryIsSeverest | internal/core/policy/evaluate.go:101-122 | a message's action is a block if one attachment's is, otherwise a replacement, otherwise a pass |
| PipelineDecision.Evaluate | internal/core/policy/evaluate.go:101-122 | rules on every attachment, and blocks if one is blocked, otherwise replaces if one is replaced, otherwise passes; as the later re-aggregations do |
| PipelineDecision.HasInlineCandidate | internal/core/pipeline/cid.go:132-139 | whether some inline asset is small enough |
| PipelineDecision.ProtectInlineAssets | internal/core/pipeline/processor.go:816-853 | downgrades exactly the protected inline assets and reports their paths, and which are unverified |
| PipelineDecision.ProtectStructuralBodies | internal/core/pipeline/processor.go:874-894 | downgrades exactly the replaced parts of the message's own text |
| PipelineDecision.Aggregated | internal/core/pipeline/processor.go:920-931 | re-derives action and reason as Evaluate does |
| PipelineDecision.ApplyModeToMessage | internal/core/policy/mode.go:87-108 | suppresses what runs dry and takes the severest action that is left, starting from no action |
| PipelineDecision.Settled | internal/core/policy/mode.go:87-108 | blocked iff some ruling blocks in earnest, with the first such reason; no action iff no attachments |
| PipelineDecision.Conclusion | internal/core/pipeline/processor.go:345-420 | the chain replaces exactly what is ruled so in earnest and unprotected, and blocks as Settled says |
| PipelineDecision.GateHarmless | internal/core/pipeline/processor.go:369-380 | without an inline candidate the collected references change nothing |
| PipelineDecision.Decide | internal/core/pipeline/processor.go:345-420 | the whole chain's decision, the same whether the scan was skipped or not |
| PipelineDecision.EmbeddedImageKept | internal/core/pipeline/processor.go:816-853 | a small image embedded by an HTML body of its own multipart/related is never replaced, whatever the budgets cut off |
| PipelineDecision.UnembeddedNotProtected | internal/core/pipeline/processor.go:816-853 | one that no such body embeds gets no protection when nothing was cut off |
| DecisionEffects.EmbeddedByText | internal/core/pipeline/processor.go:816-853 | a small image is never replaced if an HTML body of its own multipart/related has a reference to it written out in its text |
| DecisionEffects.OwnTextKept | internal/core/pipeline/processor.go:874-894 | a plain or HTML text shown without a file name is never replaced |
| DecisionEffects.OthersReplaced | internal/core/pipeline/processor.go:345-420 | everything else that is no small inline image is replaced iff that is ruled in earnest |
| DecisionEffects.DryRunHarmless | internal/core/policy/mode.go:29-108 | the policy's own dry-run setting counts, otherwise the global one; nothing ruled in a dry run blocks or is replaced |
| PipelineDecision.WorstCaseReplaceParams | internal/core/pipeline/processor.go:1023-1040 | merges the parameters of all replacements |
| PipelineDecision.FinalBounds | internal/core/pipeline/processor.go:1016-1040 | each bound on the links is the least over all recipients and attachments still replaced |
| RecipientOrder.AlwaysRejected | internal/core/policy/evaluate.go:181-194 | every order of the recipients has some attachment first blocked in earnest iff there are attachments, some blocked, of which nobody blocks one in a dry run without blocking one in earnest |
| RecipientOrder.Evaded | internal/core/policy/evaluate.go:181-194 | otherwise an order exists in which none is |
| RecipientOrder.RejectionByOrder | internal/core/policy/mode.go:29-108 | the same for a message under a policy; and some order rejects it iff somebody has an attachment blocked in earnest |
| RecipientOrder.RejectionOrderExactly | internal/core/policy/mode.go:29-108 | the order of the recipients never decides whether a message is rejected iff nobody has an attachment blocked in earnest or every order rejects it |
| RecipientOrder.CrosswiseRejected | internal/core/policy/mode.go:29-34 | two recipients who disagree on each of two attachments and yet have the message rejected in either order |
| RecipientOrder.RejectionOrder | internal/core/policy/mode.go:29-34 | for one attachment the condition is that those for whom it is blocked agree on the dry run |
| RecipientOrder.OrderDecides | internal/core/policy/mode.go:29-34 | a policy and two recipients whose order decides |
| LinkEngine.ResolveParams | internal/core/link/params.go:109-137 | each value is the policy's if set and the default otherwise; the retention is raised to the link lifetime, and a configured one raised is flagged |
| LinkEngine.LinkCount | internal/core/link/engine.go:165-313 | recipients times attachments plus one links |
| LinkEngine.Metadata.DeleteMessage | internal/core/store/sqlite/store.go:704-753 | fails, or is refused for a held link, or finds no such message, or else deletes all its rows; nothing changes unless it deletes |
| LinkEngine.WithoutAdded | internal/core/store/sqlite/store.go:704-753 | deleting a message undoes exactly what was added for it |
| LinkEngine.Engine.CreateLinks | internal/core/link/engine.go:178-313 | stores message, attachments and for each recipient the links in order, all with one expiry no later than the retention; on a failure only rows of this message |
| LinkIntegrity.StoredServes | internal/core/link/engine.go:178-313 | in the stored rows every recipient has, for every replaced attachment, a link with a token of its own that leads to the one row of that attachment, whose object has its content and is kept as long as the link lives; and no other links exist |
| LinkEngine.Engine.PurgeMessage | internal/core/link/engine.go:652-683 | deletes the message's rows exactly if the call does not fail, no link is held and the message is there, and always records the attempt |
| PipelineProcess.Processor.UploadOne | internal/core/pipeline/processor.go:965-998 | uploads one attachment, or stores nothing, or strands an object exactly if it is stored and its id cannot be drawn |
| PipelineProcess.Processor.UploadReplaced | internal/core/pipeline/processor.go:965-998 | uploads the replaced attachments in order up to a failure, adding only their objects, and one more exactly if the first that fails is stranded |
| PipelineUploads.StrandingArises | internal/core/pipeline/processor.go:965-998 | any of the attachments can be stranded, by the one draw of its id |
| PipelineProcess.Processor.Undo | internal/core/pipeline/processor.go:478-512 | deletes the uploads except those whose deletion fails, and purges the message's rows unless that fails, a link is held or there are none; succeeds exactly if nothing fails or is refused |
| PipelineProcess.Processor.FilterForRewrite | internal/core/pipeline/processor.go:714-731 | leaves out the message's own text |
| PipelineProcess.Processor.RollBack | internal/core/pipeline/processor.go:478-512 | leaves what was there before, the uploads whose deletion fails, and the rows if the purge fails; records the purge; succeeds exactly if none fails, and then both stores are as before the run |
| PipelineProcess.RemovedIsReplaced | internal/core/pipeline/processor.go:695-731 | leaving the message's own text out does not change what is removed |
| PipelineProcess.RewriterSees | internal/core/pipeline/processor.go:714-731 | nothing but the message's own text is left out of what the rewriter sees |
| PipelineProcess.DeliveryRecords | internal/core/pipeline/processor.go:446-594 | the log of a delivery names each stored object, with its attachment's content, and then each recipient |
| PipelineProcess.Processor.PackageLinkFor | internal/core/pipeline/processor.go:1054-1061 | finds a recipient's package link iff there is one |
| PipelineProcess.PackageLinkExists | internal/core/pipeline/processor.go:1042-1061 | once links were created every recipient has one |
| PipelineProcess.Processor.LinkAndRewrite | internal/core/pipeline/processor.go:529-580 | on success everything is linked and rewritten without a fault; otherwise only rows of this message were added, its own row first |
| PipelineProcess.Processor.Deliver | internal/core/pipeline/processor.go:446-594 | a message delivered has its replaced attachments stored, and every recipient's links lead to them; one given up leaves the stores as they were but for the uploads whose deletion fails, the rows if the purge fails, and one object exactly if one is stranded, and records the compensation exactly if links were attempted |
| PipelineProcess.Processor.Process | internal/core/pipeline/processor.go:268-594 | rejected iff blocked, passed on iff nothing is replaced, otherwise delivered with links that lead every recipient to every replaced attachment, or given up only for a fault and then cleared up but for the uploads whose deletion fails, the rows if the purge fails, and one object exactly if one is stranded; what was there before is never touched; the events of the decision and of the delivery or of giving up, then exactly one terminal event |
| PipelineProcess.RewrittenMeans | internal/core/pipeline/processor.go:529-594 | the rewriter removes exactly what was uploaded, and there are recipients times uploads plus one links |
| TrustedProxy.ForwardedClientIP | internal/adapters/http/trustedproxy.go:130-151 | the address of the last hop that is not a trusted proxy, if well-formed |
| TrustedProxy.ClientIP | internal/adapters/http/trustedproxy.go:67-85 | the peer's host unless a trusted peer reports a usable address |
| TrustedProxy.HeadersIgnoredExactly | internal/adapters/http/trustedproxy.go:67-151 | a peer's headers never matter iff it is not a trusted proxy or no other address can be reported |
| TrustedProxy.AppendedDecides | internal/adapters/http/trustedproxy.go:103-151 | what the proxies appended to the header's first line decides, for every beginning of that line a client sends |
| TrustedProxy.MalformedFallsBack | internal/adapters/http/trustedproxy.go:103-151 | a malformed last foreign hop there falls back to the peer, for every such beginning |
| TrustedProxy.FirstLineDecides | internal/adapters/http/trustedproxy.go:130-151 | an address in a first line of its own decides whatever the further lines say |
| TrustedProxy.MalformedNoticedExactly | internal/adapters/http/trustedproxy.go:130-151 | a first line with a malformed hop counts for nothing iff its last hop that is no trusted proxy is malformed |
| TrustedProxy.HopRead | internal/adapters/http/trustedproxy.go:130-151 | a hop is read without the blanks around it |
| TrustedProxy.BlankAfterComma | internal/adapters/http/trustedproxy.go:130-151 | blanks behind any comma of the chain do not change the result |

## Left out

- MilterReconcile.PlanReconciles: gives the order of the whole header list for blocks without such values only; with them MilterExact.NameEnds gives each name's values.
- AuditTheorems.SameHeadSameLog: allows for colliding rows, because SHA-256 is not injective.
- TokenBuckets.WindowBound: uses real numbers, so the rounding of float64 is not modelled.
- CidRefs.CollectHtmlRefs: bytes pulled from a body whose reading fails are not debited by the code and not counted here.
- The JSONL verifier's line reader and `HashRecord`'s JSON text; rows are values.
- Rules' conditions and globs (`policy/match.go`), policy validation, `rewrite.Rewrite`'s body and the MIME tokeniser.
- Temp-file spools, closing of part readers, logging, metrics and goroutine scheduling around mutexes.
- Resolving, downloading, revoking and holding single links, and the HTTP handlers.
- Mapping a verdict to the milter response in fail-open and fail-closed mode, and resetting a session.
- Multi-chunk `ReplaceBody` failures, which count as one refused operation.
- Parsing of trusted CIDR ranges; whether an address is trusted is a parameter.
