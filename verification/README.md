# Attestation pipeline: model and proofs

This project models the parts of the attestation system in which a mistake would be hard to see by
reading one function: the log server that numbers and stores attestations, the native host that
checks signatures and revocations, the browser worker that turns an artifact's log entries into one
verdict per category, the worker's cache, the server's rate limiter, the dialog that signs changes,
and the badge overlay. Code that works step by step is modelled by methods and classes whose
contracts tie them to functions; the properties are proved about those functions, over all inputs
and all runs.

Check everything with `dafny verify dfyconfig.toml` (Dafny 4.11).

## Modules

| file | what it models |
|---|---|
| Text.dfy, LogEntries.dfy, JsMaps.dfy | string order, decimals, splitting, fields; the log entry; the insertion-ordered `Map` |
| Timestamps.dfy | printing seconds as RFC 3339 UTC strings and comparing the strings |
| GpgVerify.dfy | scanning gpg's status lines and signature listings |
| NativeHost.dfy | the batch `verify` operation with its two revocation gates |
| KeyList.dfy | the key listing parser |
| Framing.dfy | the length-prefixed message stream and the host's main loop |
| JsonText.dfy | the two JSON printers, and a reader of the objects they print (section 7 of RFC 8259 for the strings) |
| CanonicalPayload.dfy | the bytes that are signed, as the server and as the worker produce them |
| LogStore.dfy | the store as a machine whose steps are single Redis commands of concurrent appends |
| Claims.dfy, Verdicts.dfy | latest claim per signer and category, verification, vote |
| Encodable.dfy | which entries the worker can send for verification at all |
| Pipeline.dfy | log, worker and native host put together |
| VerdictCache.dfy | the verdict cache as an event machine |
| RateLimiter.dfy | two layers of token buckets with eviction |
| LimiterLedger.dfy | the same limiter without buckets: a request is served if every window that ends with it has room |
| DialogDiff.dfy | the dialog's diff, interrupted attempts and what the log says afterwards |
| Badges.dfy, Overlay.dfy | the badge registry on values, and the page's objects updated in place |
| ContentRect.dfy | the visible content of a scaled image |

## Where the code does less than it seems to

Each of these is a property one would expect of the code and that does not hold on all inputs. The
first lemma named proves for which inputs it does, the second shows an input on which it fails.

- Comparing timestamps as strings is comparing times exactly within years -1 to 9999
  (`Timestamps.FaithfulRange`, `Timestamps.YearTenThousandMisorders`); RFC 3339, section 5.1, promises
  it for years 0000-9999.
- The scan for a certification revocation uses 0 for "nothing seen": a record dated 0 erases earlier
  ones and a negative date silences it (`GpgVerify.ScanReportsEarliestIff`,
  `GpgVerify.ZeroDateErasesRevocation`).
- With several revoking verifiers the gate uses the first in list order, not the earliest date
  (`NativeHost.FirstVerifierGateIff`, `NativeHost.ListOrderShows`).
- The comment on `Append` says that it works atomically. Only the counter increment is atomic; an
  append that stops between two commands leaves an entry that is visible by index but not by UUID, or
  by UUID but not by artifact (`LogStore.VisibilityIff`, `LogStore.StoppedHalfway`). The model follows
  the code.
- The worker rebuilds the bytes the server signed exactly when every text field is ASCII without
  `<`, `>` and `&` (`CanonicalPayload.WorkerRebuildsServerBytesIff`,
  `CanonicalPayload.AmpersandBreaksBytes`); other logged entries never verify
  (`Pipeline.LoggedEntryAcceptedIff`).
- An entry that cannot be verified should only cost its own vote. One latest claim under a trusted signer's
  name with a character beyond U+00FF in a signed text or in the signature makes `btoa` throw, and the
  image has no verdict at all (`Encodable.LookUpEncodesIff`, `Encodable.OneClaimStopsAll`).
- Composite keys `signer:category` are unique only because fingerprints have no colon
  (`Verdicts.KeysCollideIff`, `Verdicts.KeysMeet`; `Verdicts.TrustedColonFree` rules the case out).
- After a signature has been confirmed, later answers are fresh exactly when no lookup in flight has
  read the log before the log stored the signature (`VerdictCache.FreshAfterSigningIff`,
  `VerdictCache.ReadThenSign`). That no lookup is in flight at all, which the worker could check, is
  sufficient but not necessary (`VerdictCache.SignThenRead`).
- Throwing idle buckets away is invisible, and an address keeps to its allowance, exactly when a
  bucket refills within one sweep interval (`RateLimiter.EvictionInvisibleIff`,
  `RateLimiter.AllowanceHoldsIff`, `RateLimiter.EarlySweepServed`).
- Signing a diff reaches the chosen state exactly when, in every category left as it was shown, the
  signing key had the shown verdict and no earlier attempt logged another one
  (`DialogDiff.DialogConvergesIff`). It fails after a switch of the key (`DialogDiff.KeySwitchMisses`)
  and after a failed attempt whose choice was taken back (`DialogDiff.TakenBackStays`).
- `createBadges` keeps its two maps inverse to each other exactly when it does not drop every badge
  of an element while adding new ones (`Badges.CreateKeepsInvIff`, `Badges.ReplacingDetaches`).
- A stream cut at a frame boundary, or right behind the header of a non-empty body, ends like a
  complete one (`Framing.TruncatedStream`).

## Model

| member | source | states |
|---|---|---|
| Timestamps.CivilRoundTrip | client/internal/gpg/verify.go:129 | every second of any year is a valid civil time of the proleptic calendar with the leap-year rule, and that time denotes the second again |
| Timestamps.SecondsRoundTrip | client/internal/gpg/verify.go:171 | every valid civil time is what its second prints as, so printing loses nothing in either direction |
| Timestamps.EpochIs1970 | client/internal/gpg/verify.go:129 | second 0 is 1970-01-01, midnight |
| Timestamps.EpochPrinted | server/internal/api/handler.go:142 | second 0 prints as 1970-01-01T00:00:00Z |
| Timestamps.Tick | client/internal/gpg/verify.go:171 | each later second is the next one on clock and calendar: seconds, minutes, hours, days, months of 28 to 31 days and years turn over as they should |
| Timestamps.Layout | client/internal/gpg/verify.go:96 | a printed time of years 0-9999 read by position: 20 characters, its six numerals in their columns, `-`, `T`, `:` and `Z` between them |
| Timestamps.FormatShowsTime | server/internal/api/handler.go:142 | the same for the second itself: the printed string shows the date and time that the second is |
| Timestamps.StringOrderIsTimeOrder | client/cmd/gpg-attest/main.go:126-142 | for two seconds in years 0000-9999 the printed strings compare bytewise exactly as the seconds do, and are equal only for equal seconds |
| Timestamps.OrderInYears | extension/background/service-worker.js:245 | the same down to year -1, the true limit of the format |
| Timestamps.YearTenThousandMisorders | server/internal/api/handler.go:142 | the second after 9999-12-31T23:59:59Z prints as a smaller string |
| Timestamps.NegativeYearsMisorder | client/internal/gpg/verify.go:129 | every year from -9998 to -1 starts with a smaller string than the second before it |
| Timestamps.FaithfulRange | client/internal/gpg/verify.go:96-129 | an interval around the epoch can be compared as strings if and only if it lies within years -1 to 9999 |
| GpgVerify.ReadStatusLine | client/internal/gpg/verify.go:62-100 | one status line replaces the verdict, the signer or the date it carries, and only ever raises the key flags |
| GpgVerify.ParseStatusFd | client/internal/gpg/verify.go:59-102 | the scan returns the declarative report: validity by the last of the five signature-status lines, each key flag by the existence of a witness |
| GpgVerify.StatusLineReadsBack | client/internal/gpg/verify.go:62-70 | words printed with single blanks behind the status prefix read back as those words |
| GpgVerify.OpinionAndDateReadBack | client/internal/gpg/verify.go:71-99 | gpg's opinion and its VALIDSIG line give the whole report: valid unless it says BADSIG, that fingerprint, that second, the key flags |
| GpgVerify.MissingKeyReadsBack | client/internal/gpg/verify.go:82-89 | an error with reason 9 is an invalid signature by a missing key |
| GpgVerify.GetKeyRevocationDate | client/internal/gpg/verify.go:108-134 | the date of the first usable self-revocation record, if any, however many unusable ones precede it |
| GpgVerify.SelfRevocationReadsBack | client/internal/gpg/verify.go:115-131 | a revocation record gives its date for the key itself exactly when its signature class starts with 20 |
| GpgVerify.GetCertRevocationDate | client/internal/gpg/verify.go:140-174 | the scan's result for the revoker's records in order, reported only when positive |
| GpgVerify.ScanNegative | client/internal/gpg/verify.go:165-170 | a negative date among the records makes the scan end negative, hence report nothing, and nothing else does |
| GpgVerify.ScanSinceLastZero | client/internal/gpg/verify.go:165-167 | without negative dates the scan ends with the minimum of the dates after the last zero |
| GpgVerify.ScanReportsEarliestIff | client/internal/gpg/verify.go:150-173 | the earliest positive date is reported if and only if there is none, or no date is negative and some earliest positive one has no zero after it |
| GpgVerify.PositiveScan | client/internal/gpg/verify.go:139-170 | for positive dates the scan reports exactly the minimum, and reports one iff there is a record |
| GpgVerify.PositiveScanIgnoresOrder | client/internal/gpg/verify.go:150-173 | for positive dates any permutation of the records gives the same result |
| GpgVerify.RevRecordReadsBack | client/internal/gpg/verify.go:153-164 | a revocation record gives its date to its own revoker and to nobody else |
| GpgVerify.ZeroDateErasesRevocation | client/internal/gpg/verify.go:165 | for any revoker, records dated 5 then 0 report no revocation, 0 then 5 report 5 |
| NativeHost.CheckCertRevocation | client/cmd/gpg-attest/main.go:134-145 | the loop with break finds the revocation of the first verifier in list order that has one, and compares with that date only |
| NativeHost.CheckSelfRevocation | client/cmd/gpg-attest/main.go:124-130 | true exactly when the timestamp string precedes the printed self-revocation date |
| NativeHost.CheckGates | client/cmd/gpg-attest/main.go:123-148 | both gates together, including the empty timestamp, the empty fingerprint and the revoked key without a usable record |
| NativeHost.CheckEntry | client/cmd/gpg-attest/main.go:106-149 | one turn of the batch loop writes slot i with the result of entry i and changes no other slot |
| NativeHost.HandleVerify | client/cmd/gpg-attest/main.go:101-154 | n entries give n results with Index equal to position, each a function of its own entry alone; an empty batch is an error |
| NativeHost.ValidityIsDownwardClosed | client/cmd/gpg-attest/main.go:123-148 | an entry valid at a log time is valid at every earlier one, whatever the revocation dates |
| NativeHost.ValidityCutOffs | client/cmd/gpg-attest/main.go:123-148 | the exact set of valid times: before the self-revocation second and before the date of the first revoking verifier |
| NativeHost.PredatesIsBefore | client/cmd/gpg-attest/main.go:128 | the string test of a gate is the test on seconds |
| NativeHost.FirstRevocationIsSome | client/cmd/gpg-attest/main.go:137-144 | a revocation is found iff some verifier has one, and it is that verifier's |
| NativeHost.FirstVerifierGateIff | client/cmd/gpg-attest/main.go:136-145 | the gate agrees with "before every verifier's revocation" at all times iff the first revoking verifier is also an earliest one |
| NativeHost.ListOrderShows | client/cmd/gpg-attest/main.go:137-144 | two verifiers revoked, the first listed one later: at the earlier date the key still passes, and with the list turned round it does not |
| Text.ParseSigned | client/internal/gpg/verify.go:95 | a signed numeral is read with its sign, and one that does not fit in 64 bits is not read |
| KeyList.Flush | client/internal/gpg/keys.go:57-78 | a finished block is reported unless its validity is r, e or i or it has no fingerprint |
| KeyList.StartKey | client/internal/gpg/keys.go:90-105 | what a pub or sec record sets, including the capability test |
| KeyList.ReadDetail | client/internal/gpg/keys.go:107-123 | fpr keeps the first non-empty fingerprint, uid the first non-empty one of a live user id, sub and ssb change nothing |
| KeyList.LowerCaseS | client/internal/gpg/keys.go:103-104 | lower-casing and searching for s or S finds one exactly when the capabilities contain either |
| KeyList.ParseColons | client/internal/gpg/keys.go:45-128 | the line loop equals the declarative reading: split at key records, drop unusable blocks, first non-empty fingerprint and first non-empty live uid |
| KeyList.RemainingAtKeyRecord | client/internal/gpg/keys.go:90-94 | a key record ends the block before it |
| KeyList.RemainingAtOtherLine | client/internal/gpg/keys.go:83-124 | any other line belongs to the block that is open |
| KeyList.ListingsConcatenate | client/internal/gpg/keys.go:45-128 | parse(A + B) = parse(A) + parse(B) whenever B starts with a key record |
| KeyList.FingerprintsHaveNoColon | client/internal/gpg/keys.go:83-110 | no reported fingerprint contains a colon |
| KeyList.ListedKeyReadsBack | client/internal/gpg/keys.go:82-124 | a key printed as a listing reads back with its fingerprint, user id, trust and capability, unless it is dead, has no fingerprint or is not a pub or sec record |
| JsMaps.DeleteKeepsOthers | extension/background/service-worker.js:194 | deleting a key removes it alone and keeps the other keys distinct and in order |
| JsonText.EscapeReads | extension/background/service-worker.js:184-186 | the reader takes back any character from its escape by either printer, whatever follows |
| JsonText.ObjectReads | extension/background/service-worker.js:184-186 | reading a printed object gives back its members: keys, strings and numbers, in order, for both printers |
| JsonText.ObjectTextInjective | server/internal/store/store.go:85 | a printed object determines its members |
| CanonicalPayload.SortSorts | extension/background/service-worker.js:185 | sorting distinct keys gives them all, strictly ascending |
| CanonicalPayload.CanonicalIffSameMembers | extension/background/service-worker.js:184-186 | two objects have the same canonical text exactly when they have the same members, whatever the insertion order |
| CanonicalPayload.CanonicalReads | extension/background/service-worker.js:184-186 | reading the canonical text of an object gives its members with the keys strictly ascending |
| CanonicalPayload.KeysAscend | server/internal/store/store.go:33-45 | the declared key orders of both payloads are ascending |
| CanonicalPayload.ServerObjectText | extension/background/service-worker.js:270-279 | the worker's object prints with the members in the order of the server's struct |
| CanonicalPayload.SignerObjectText | extension/background/service-worker.js:444-449 | the signed object prints with its four members in sorted order |
| CanonicalPayload.SignerTextReads | extension/background/service-worker.js:444-449 | the signed text reads back as artifact_hash, category, signer_keyid and verdict with the values asked for |
| CanonicalPayload.Utf8Reads | server/internal/store/store.go:85 | reading UTF-8 bytes by the lead byte gives back the encoded text |
| CanonicalPayload.ServerBytesRead | server/internal/store/store.go:75-85 | the bytes the server signs read back, as UTF-8 and then as JSON, as the entry's eight fields |
| CanonicalPayload.SidesAgreeIff | server/internal/store/store.go:85 | for any members the worker's bytes equal the server's exactly when every text is plain |
| CanonicalPayload.WorkerRebuildsServerBytesIff | extension/background/service-worker.js:267-280 | the worker rebuilds the signed bytes of an entry exactly when its seven text fields are plain, for log indices below 2^53 |
| CanonicalPayload.AmpersandBreaksBytes | server/internal/api/handler.go:112-119 | one ampersand in the signer's key id, which the server accepts, and the rebuilt bytes are others |
| CanonicalPayload.ServerBytesInjective | server/internal/store/store.go:75-85 | equal server payloads mean equal signed fields, all eight |
| CanonicalPayload.SignerBytesInjective | extension/background/service-worker.js:286-294 | equal signer payloads mean equal signed fields, all four |
| CanonicalPayload.PayloadKindsDisjoint | extension/background/service-worker.js:267-294 | no signer payload has the bytes of a server payload |
| LogStore.StepKeepsInv | server/internal/store/store.go:66-129 | any single command of any running append, or its end anywhere, keeps the store's invariant |
| LogStore.ReachableStatesAreSafe | server/internal/store/store.go:66-129 | in every reachable state of any interleaving: indices unique and below the counter; every entry key, uuid key, list element and leaf belongs to an append with that index, uuid and artifact |
| LogStore.RunGrows | server/internal/store/store.go:101-107 | over any run no written entry or uuid key changes, lists grow at the front only, leaves at the end only |
| LogStore.IndicesAreConserved | server/internal/store/store.go:68-72 | counter = stored entries + appends in flight before their first write + appends abandoned before it |
| LogStore.EntryKeyIsNew | server/internal/store/store.go:102 | an append about to write its entry finds the key unused |
| LogStore.UuidKeyIsNew | server/internal/store/store.go:103 | an append about to write its uuid key finds it unused |
| LogStore.VisibilityIff | server/internal/store/store.go:101-126 | exactly how far an append is visible by index, uuid, artifact and leaf after each command |
| LogStore.StoppedHalfway | server/internal/store/store.go:101-107 | a run that stops after its first command: found by index, by neither uuid nor artifact |
| LogStore.StoppedForGood | server/internal/store/store.go:105-107 | an append that has stopped stays exactly as far as it came over every later run |
| LogStore.PushedIsReversed | server/internal/store/store.go:104 | an artifact's list is the reverse of its pushes |
| LogStore.ListLeadsToEntries | server/internal/store/store.go:164-182 | every list element leads to the stored entry of that index and artifact |
| LogStore.ReadsStayGood | server/internal/store/store.go:169-180 | an index read from a list parses and leads to the same entry in every later state |
| LogStore.GetByUUID | server/internal/store/store.go:148-161 | what two reads return in any two states; in a state of the store and any later one they find the entry with that uuid or report it missing, and never fail |
| LogStore.ReadEntries | server/internal/store/store.go:169-181 | for any indices and states the loop returns, in order, exactly the entries that can be read |
| LogStore.NothingSkipped | server/internal/store/store.go:170-180 | indices that all lead to entries are all read |
| LogStore.GetByHash | server/internal/store/store.go:164-182 | LRANGE and one GET per index; from a state of the store, with each GET in any later one, the result is exactly the artifact's pushes, last first |
| LogStore.Store.Append | server/internal/store/store.go:66-129 | however a call ends, it is a run of the machine; on success the returned entry is stored under its index, uuid and artifact |
| LogStore.Store.Number | server/internal/store/store.go:68-72 | the increment hands out the old counter as index |
| LogStore.Store.Pipeline | server/internal/store/store.go:101-107 | the pipeline executes a prefix of its three commands in order |
| Claims.LatestIffNewest | extension/background/service-worker.js:245 | the scan keeps position i exactly when everything before it is earlier and nothing after it is later |
| Claims.LatestByTimeThenPush | extension/background/service-worker.js:240-248 | over any newest-push-first listing of pushes with canonical stamps the scan keeps exactly the entry greatest by (second, push order) |
| Claims.FoldByCategory | extension/background/service-worker.js:408-416 | one map built in a single pass holds the latest claim for every category of the key |
| Claims.GetMyVerdicts | extension/background/service-worker.js:407-425 | for each category the key's latest verdict, none if that is a revocation |
| Verdicts.SelectLatest | extension/background/service-worker.js:238-248 | one map built in a single pass holds, under every composite key, the latest eligible entry, its keys in the order in which the list first has them |
| Verdicts.KeysCollideIff | extension/background/service-worker.js:243 | two signers can share a composite key exactly when one id continues the other across a colon |
| Verdicts.CompositeKeyInjective | extension/background/service-worker.js:243 | for colon-free signers the composite key determines signer and category |
| Verdicts.SelectedClaims | extension/background/service-worker.js:238-248 | the map holds exactly each trusted signer's latest claim per category |
| Verdicts.ChosenAreClaims | extension/background/service-worker.js:263 | the entries sent for verification are exactly the latest claims of trusted signers, each once |
| Verdicts.SelectionOf | extension/background/service-worker.js:238-263 | and they come in the order in which their signers first claim the category |
| Verdicts.BuildRequests | extension/background/service-worker.js:263-298 | entry i gives requests 2i (server signature) and 2i+1 (signer signature); one payload that btoa rejects fails the whole batch |
| Verdicts.PairsAreAboutEntries | extension/background/service-worker.js:313-316 | results 2i and 2i+1 are both valid exactly when both signatures of entry i check out |
| Verdicts.PairResults | extension/background/service-worker.js:311-329 | entry i is kept exactly when results 2i and 2i+1 are both valid, the others keep their order |
| Verdicts.VerifyChosen | extension/background/service-worker.js:263-329 | requests, batch and pairing together keep exactly the entries whose two signatures check out |
| Verdicts.CountVerdicts | extension/background/service-worker.js:349-352 | the counts are those of the votes, in order of first appearance |
| Verdicts.TopVerdict | extension/background/service-worker.js:353-360 | the winner's count is maximal, and of equal counts the first to appear wins |
| Verdicts.CastOrder | extension/background/service-worker.js:349-355 | a verdict that comes earlier among the counts has a vote before every vote for the later one |
| Verdicts.CastIffCounted | extension/background/service-worker.js:350-352 | a verdict has been cast exactly when its count is positive |
| Verdicts.CountsSumToVotes | extension/background/service-worker.js:349-352 | the per-verdict counts sum to the number of votes |
| Verdicts.IconsAreNamed | extension/background/service-worker.js:77-83 | an icon bears the name of its category and verdict, joined by a dash |
| Verdicts.Tally | extension/background/service-worker.js:340-366 | a category is reported exactly when it has a non-revoke vote, with winner, number of votes and icon |
| Verdicts.VotesAreVoters | extension/background/service-worker.js:342-363 | votes are voters: their number is that of the distinct trusted signers whose latest claim verified and is no revocation, and likewise per verdict |
| Verdicts.SupportersAddUp | extension/background/service-worker.js:349-363 | over distinct verdicts the numbers of supporters add up to that of all of them together |
| Verdicts.WinnerBeats | extension/background/service-worker.js:353-360 | against every other verdict the winner has more supporters, or as many and among them the signer who claimed the category first in the log's list |
| Verdicts.TallyReportsVote | extension/background/service-worker.js:361-365 | `signers` is the number of distinct voters and the sum over the verdicts' supporters, and the reported verdict beats every other |
| Verdicts.ReportIsUnique | extension/background/service-worker.js:345-365 | the log, the trusted keys and the checks admit only one result for a category |
| Verdicts.AnswersAreUnique | extension/background/service-worker.js:340-368 | and only one answer altogether |
| Verdicts.TrustedColonFree | extension/background/service-worker.js:122-125 | the trusted fingerprints of any key listing have no colon |
| Verdicts.TrustedIff | extension/background/service-worker.js:123-125 | trusted signers are exactly the fingerprints of listed keys with trust f or u |
| Verdicts.VerifierIff | extension/background/service-worker.js:302-304 | verifiers are exactly those of listed keys with trust u |
| Verdicts.DecideChosen | extension/background/service-worker.js:250-368 | verification and vote over the chosen entries, with the outcomes that leave the answer empty |
| Verdicts.Decide | extension/background/service-worker.js:238-368 | selection, verification and vote give the one answer there is; an older claim never stands in for a latest one that fails |
| Verdicts.LookUp | extension/background/service-worker.js:225-371 | end to end, with its failure paths: the answer is empty, or the one the votes of distinct trusted signers determine, ties included |
| Encodable.ObjectEncodedIff | extension/background/service-worker.js:184-186 | btoa encodes a printed object exactly when its keys and texts are in Latin-1, whatever the printer escapes |
| Encodable.SignerPayloadIff | extension/background/service-worker.js:443-452 | handleSign gets as far as the native host exactly for four texts in Latin-1 |
| Encodable.LookUpEncodesIff | extension/background/service-worker.js:263-298 | a lookup gets as far as verification exactly when every latest claim under a trusted signer's name is in Latin-1 in all its signed texts and its signature |
| Encodable.OneClaimStopsAll | extension/background/service-worker.js:369-371 | a witness: one newest entry with such a signature, and the claims of all others are lost |
| Pipeline.SelectFromLog | extension/background/service-worker.js:230-248 | listing from a log in use and selecting leaves in every trusted signer's slot exactly the claim greatest by (second, push order) |
| Pipeline.ScanKeepsGreatest | server/internal/store/store.go:104 | the scan of an artifact's listing keeps a push exactly when it is the greatest claim |
| Pipeline.PushesAreFromLog | server/internal/store/store.go:163-182 | an artifact's pushes are exactly the pushed entries about it, with distinct indices |
| Pipeline.LoggedEntryAcceptedIff | extension/background/service-worker.js:266-283 | an entry the store has made visible passes the check of the server's signature exactly when its fields are plain text |
| Pipeline.SignerAcceptedIff | extension/background/service-worker.js:285-297 | the check of the signer's signature succeeds exactly when btoa accepts the entry's four-field payload and the entry's signature is one over those bytes |
| Pipeline.AskedIsFourFields | extension/background/service-worker.js:443-458 | the payload that handleSign has signed is the one that the check rebuilds |
| Pipeline.SignedEntryPassesIff | extension/background/service-worker.js:263-316 | a visible entry signed as handleSign has it signed passes both checks exactly when its fields are plain text |
| Pipeline.PassedClaimVotes | extension/background/service-worker.js:311-343 | a trusted signer whose latest claim is no revocation has a vote exactly when that claim passes both checks |
| Pipeline.SignerCheckInTime | extension/background/service-worker.js:295-296 | the signer's check also needs the log's stamp to precede the revocations of the key that signed, to the second |
| Pipeline.ServerCheckInTime | extension/background/service-worker.js:280-282 | likewise the server's check, for the key that made the server's signature |
| VerdictCache.StepKeepsInv | extension/background/service-worker.js:188-208 | every event keeps the cache bounded, ordered by age, and flights off cached urls |
| VerdictCache.ReachableStatesAreSafe | extension/background/service-worker.js:188-208 | in every reachable state at most 500 entries, oldest first, and no flight that has not landed is for a cached url |
| VerdictCache.HitsAreRecent | extension/background/service-worker.js:189-193 | a cache hit returns a result that a lookup stored less than 30 minutes ago, 5 if it is empty |
| VerdictCache.AnswersLast | extension/background/service-worker.js:188-208 | a result just stored answers every request for exactly that long |
| VerdictCache.LandingAppends | extension/background/service-worker.js:202-208 | a finishing flight finds its url uncached and appends it, evicting the oldest entry when the cache is full |
| VerdictCache.SingleFlight | extension/background/service-worker.js:197-378 | over any run the lookups launched for a url are those settled plus at most one |
| VerdictCache.FreshAfterSigningIff | extension/background/service-worker.js:463-485 | when a signature is confirmed, no answer misses it until the user signs again if and only if the url's flight, if any, has not read the log before the log stored it; without a flight none does |
| VerdictCache.ReadThenSign | extension/background/service-worker.js:197-206 | a run in which the lookup reads first: afterwards the cache answers with the older result |
| VerdictCache.SignThenRead | extension/background/service-worker.js:212-236 | a run in which the flight is pending at the confirmation but reads the log later: all later answers are fresh |
| VerdictCache.Worker.HandleGetVerdicts | extension/background/service-worker.js:188-208 | one request: hit, join or launch, and the whole new state of cache and flights |
| VerdictCache.Worker.LaunchFlight | extension/background/service-worker.js:199-373 | a new lookup up to its first suspension: a pending flight, or at once an empty answer for a rejected url |
| VerdictCache.Worker.ReadLog | extension/background/service-worker.js:230-236 | the flight has now seen every signature the log holds |
| VerdictCache.Worker.CacheAndReturn | extension/background/service-worker.js:202-208 | eviction and insertion into the insertion-ordered map |
| VerdictCache.Worker.LandFlight | extension/background/service-worker.js:372-375 | a flight's end stores its result and touches nothing else |
| VerdictCache.Worker.SettleFlight | extension/background/service-worker.js:376-378 | the first caller drops the flight |
| VerdictCache.Worker.SignLogged | extension/background/service-worker.js:480-485 | the confirmation of a signature drops the url's cached answer and leaves its flight alone |
| RateLimiter.Limiter.SweepOnce | server/internal/api/ratelimit.go:53-60 | one sweep, in any visiting order, deletes exactly the entries last seen before the cutoff |
| RateLimiter.Limiter.GetIPLimiter | server/internal/api/ratelimit.go:64-74 | the address's bucket, a full new one if there is none, and the time it was seen |
| RateLimiter.Limiter.Handle | server/internal/api/ratelimit.go:78-93 | the answer to one request and the whole new state; a globally refused request never reaches the address map |
| RateLimiter.StepKeepsMatch | server/internal/api/ratelimit.go:49-93 | an evicting limiter and one that never deletes stay indistinguishable step by step |
| RateLimiter.EvictionIsInvisible | server/internal/api/ratelimit.go:49-93 | if a bucket refills within a sweep interval, every arrival sequence and sweep schedule gets the answers of a limiter that keeps all buckets |
| RateLimiter.EvictionInvisibleIff | server/internal/api/ratelimit.go:49-93 | eviction is invisible if and only if ipRate * sweep >= ipBurst |
| RateLimiter.GlobalWindowBound | server/internal/api/ratelimit.go:79-83 | in any window of any history at most globalBurst + globalRate * T requests are served |
| RateLimiter.IpWindowBound | server/internal/api/ratelimit.go:84-91 | and to one address at most ipBurst + ipRate * T, when buckets refill within a sweep |
| RateLimiter.AllowanceHoldsIff | server/internal/api/ratelimit.go:49-93 | the bound for one address holds in all windows if and only if ipRate * sweep >= ipBurst |
| RateLimiter.EarlySweepServed | server/internal/api/ratelimit.go:54-58 | a witness: a sweep before the refill serves the burst twice |
| LimiterLedger.AnswersAreTheLedgers | server/internal/api/ratelimit.go:49-93 | for every arrival sequence and sweep schedule the answers are the ledger's, which serves a request if and only if every window that ends with it has room, overall and for its address; when buckets refill within a sweep |
| LimiterLedger.ServedInFullIff | server/internal/api/ratelimit.go:78-93 | no request is refused if and only if every window holds at most ipBurst + ipRate * T requests of each address and globalBurst + globalRate * T overall; when buckets refill within a sweep |
| Framing.Input.ReadFull | client/internal/protocol/framing.go:15-25 | filling a buffer from arbitrary chunks takes exactly its size from the stream, or ends with EOF only if nothing was left |
| Framing.Input.ReadFrame | client/internal/protocol/framing.go:13-25 | header, size check and body buffer read exactly the next frame |
| Framing.Output.WriteFrame | client/internal/protocol/framing.go:34-46 | header and body are appended, the length truncated to 32 bits |
| Framing.Uint32RoundTrip | client/internal/protocol/framing.go:18-40 | the little-endian header is read back as written |
| Framing.HeaderIsLittleEndian | client/internal/protocol/framing.go:40 | the low byte comes first and the bytes behind it spell the rest |
| Framing.FrameRoundTripIff | client/internal/protocol/framing.go:13-46 | a frame reads back as its body exactly when the body is at most 1 MiB |
| Framing.StreamRoundTrip | client/internal/protocol/framing.go:13-46 | a stream of such frames reads back as exactly its bodies and a clean end |
| Framing.TruncatedStream | client/internal/protocol/framing.go:13-25 | a strict prefix yields a strict prefix of the bodies and then an end of input, a clean one exactly at the seams |
| Framing.Serve | client/cmd/gpg-attest/main.go:27-43 | the main loop answers the requests in order, up to the first message that is cut, too large or not a request |
| DialogDiff.ComputeActions | extension/content/content.js:391-402 | the loop collects the changed categories in order, a cleared one as a revocation |
| DialogDiff.DiffSpelled | extension/content/content.js:391-402 | the changes of authorship, method and authenticity, in this order |
| DialogDiff.SignClick | extension/content/content.js:414-439 | the log gets the actions before the first failing request and, if it got through, that one; this is what an attempt of that length logs, and a click without failure is one that finishes |
| DialogDiff.VerdictAfterPushes | extension/background/service-worker.js:407-425 | after any pushes stamped in order the key's verdict is that of its last action, among any pushes of other keys |
| DialogDiff.LastInDiff | extension/content/content.js:393-402 | the diff has an action for a category exactly when it changed |
| DialogDiff.LoggedIsSelected | extension/content/content.js:414-439 | what an attempt logs for a category is its own selection there, and a changed one; an attempt that finishes logs every change |
| DialogDiff.TouchedBySelection | extension/content/content.js:424-437 | over attempts that stop anywhere and may change the selection, the last action in a category is some attempt's changed selection |
| DialogDiff.DialogConvergesIff | extension/content/content.js:385-439 | after any attempts and one that finishes, the log says what the last one selected if and only if, wherever that is what was shown, the signing key had that verdict and no earlier attempt logged anything there |
| DialogDiff.DialogConverges | extension/content/content.js:385-439 | it does when the dialog had loaded the signing key's own verdicts and the selection never changed |
| DialogDiff.KeySwitchMisses | extension/content/content.js:248-264 | a run of the dialog: loaded for one key, signed with another, everything signed and yet not what was chosen |
| DialogDiff.TakenBackStays | extension/content/content.js:427-437 | a run of the dialog: a click on two choices logs the first and fails on the second; the first is then taken back and stays |
| ContentRect.RescaledFits | extension/content/content.js:660-694 | an image under contain, or a larger one under scale-down, keeps its aspect ratio, fits the element and fills one dimension exactly; otherwise the whole element is visible |
| ContentRect.RescaledIsPlaced | extension/content/content.js:652-693 | p% lays the p% point of the image on the p% point of the element; left and top make the near edges meet, right and bottom the far ones, anything else centers |
| ContentRect.ScaleDownNeverEnlarges | extension/content/content.js:672-675 | scale-down never exceeds the natural size |
| ContentRect.AnchoredOffset | extension/content/content.js:652-658 | exactly which position values keep an offset within the spare room |
| ContentRect.ContentInsideIff | extension/content/content.js:676-693 | the content lies inside the element exactly when both position components are anchored |
| Badges.RemoveBadgeKeepsInv | extension/content/content.js:618-635 | removing one badge keeps registry and element maps inverse and the element observed iff badges remain |
| Badges.RemoveForTargetKeepsInv | extension/content/content.js:637-648 | so does removing all badges of an element |
| Badges.RemoveAllRemoves | extension/content/content.js:539-544 | removing several badges removes exactly those; the element keeps its map unless nothing is left in it |
| Badges.ActiveInOrder | extension/content/content.js:529 | the found categories come as authorship, method, authenticity |
| Badges.PrepareExisting | extension/content/content.js:539-547 | the map that createBadges goes on with has exactly the kept categories and is still the element's own unless every badge was dropped |
| Badges.PrepareNew | extension/content/content.js:546-547 | an element without a map gets an empty one |
| Badges.NewBadgeMatchesOthers | extension/content/content.js:591-598 | a new badge is visible exactly when the element's other badges are |
| Badges.AddCategoriesAttached | extension/content/content.js:550-612 | adding badges to the element's own map keeps the invariant |
| Badges.AddCategoriesDetached | extension/content/content.js:546-612 | adding to a detached map registers badges that no element lists |
| Badges.StrayBreaksInv | extension/content/content.js:601-602 | such badges break the inverse relation |
| Badges.CreateKeepsInvIff | extension/content/content.js:525-616 | a call keeps the maps inverse if and only if it does not drop every badge of an element while creating others |
| Badges.ReplacingDetaches | extension/content/content.js:525-616 | a run from an empty page: one badge, then another category instead, and the maps are at odds |
| Badges.CreateShowsCategories | extension/content/content.js:525-616 | after such a call the element shows exactly the found categories with an icon or a badge before, old badges keep their ids, other elements are untouched |
| Badges.AddCategoriesPlaces | extension/content/content.js:549-611 | the badge of the i-th found category is placed i-th and shows the current answer |
| Badges.SetVisibleKeepsInv | extension/content/content.js:730-742 | the intersection callback keeps the invariant |
| Badges.RunsAreSafe | extension/content/content.js:525-648 | over every run of such calls, removals and callbacks the maps stay inverse and observation follows the badges |
| Badges.IdsAreNeverReused | extension/content/content.js:573 | over every run whatever, detaching calls included, an id once given out never names a badge of another element or category |
| Overlay.Page.Unlist | extension/content/content.js:625-633 | the element's map object loses the category and is dropped and unobserved when empty |
| Overlay.Page.Forget | extension/content/content.js:629-631 | the element's map object leaves and the element is no longer observed |
| Overlay.Page.RemoveBadge | extension/content/content.js:618-635 | in place, the page goes to the specified layer; other map objects stay where they are, and an object that leaves is empty |
| Overlay.Page.RemoveEach | extension/content/content.js:541-543 | the loop of removals, with the element's map object possibly leaving on the way |
| Overlay.Page.RemoveBadgesForTarget | extension/content/content.js:637-648 | in place removal of all badges of an element |
| Overlay.Page.CreateBadge | extension/content/content.js:572-609 | a new badge in a map object that is the element's own or nobody's |
| Overlay.Page.AddBadge | extension/content/content.js:551-611 | one category: skipped, refreshed or created |
| Overlay.Page.AddBadges | extension/content/content.js:549-612 | the loop over the found categories |
| Overlay.Page.PrepareMap | extension/content/content.js:538-547 | the local reference to the old map object, which the removals may have detached |
| Overlay.Page.CreateBadges | extension/content/content.js:525-616 | the whole call, in place and with that aliasing, reaches exactly the specified layer |
| Overlay.Page.OnIntersect | extension/content/content.js:730-742 | the callback's loop sets the visibility of the element's badges and nothing else |

## Left out

- gpg itself, temporary files and cryptographic soundness: what gpg prints is a parameter, and what a signature covers an uninterpreted relation. The host does not compare the signing key with `signer_keyid`, and nothing here says that it does.
- The scanner's limit on line length and its removal of carriage returns: gpg's output is given as lines.
- `time.Unix` at the extreme ends of int64, where the date computation overflows.
- Redis and Trillian transport, gRPC, HTTP routing and JSON decoding: a store step is one Redis command that either happens or does not. Base64 is a pair of functions.
- A pipeline command that fails while a later one of the same pipeline succeeds, and the Redis client's retries, which may repeat an INCR or an LPUSH: the store's machine performs a prefix of the three commands, each once.
- LogStore.Store.Append: one call without interference; calls that interleave are covered by the machine, whose runs each call is one of.
- UUID generation and request validation: fresh UUIDs are assumed by the store's machine.
- Clocks that step backwards. Cache and limiter see non-decreasing times.
- The internals of `golang.org/x/time/rate` and floating point: buckets use reals, and looking up a bucket and drawing from it is one step.
- The caches of trusted keys and of the server key, which follow the pattern of the verdict cache; a lookup takes the two key listings as given.
- Verdict texts that look like array indices or name members of Object.prototype: counts are kept in an insertion-ordered map, and the verdict lookup of the dialog in an ordinary one.
- Log indices of 2^53 and above, which JavaScript numbers cannot hold.
- The order of keys beyond the basic multilingual plane, where UTF-16 and code points disagree; the payload keys are ASCII.
- Garbage collection of page elements (weak references and the finalization registry), the DOM, dialog construction and the timing of observers.
- Options page, menus, install scripts, key import and the other operations of the host: no property that spans functions.
- Changing the log server while results are cached: the caches are not flushed, and a run has one server.
- Errors while writing a response: the main loop just ends.
- DialogDiff.SignClick: does not model two dialogs signing at the same time; pushes of the same key by others would have to be part of the attempts.
- Badges.RunsAreSafe: covers runs in which no call of createBadges detaches a map, because a call that does breaks the invariant (Badges.CreateKeepsInvIff).
