# A verified model of the ledger engine

The engine is a deterministic double-entry ledger: entries are appended to a Merkle log,
balances and indexes are kept beside it, periods are sealed in order, and a sealed closing
balance can be proven to someone who holds only the seal. This project models the engine's
core in Dafny and proves what it is for.

The files follow the program:

| file | what it models |
|---|---|
| Wrappers, Powers, OrderedMaps | options, results, machine integers; powers of a base; range queries on ordered maps |
| MerkleTree, MerkleProofs, MerkleLog | the tree hash, the two bit-shifting verifiers, the accumulator and the log |
| Hashing, Canonical, HashTags, Entries, GoldenVectors | digests; the canonical writer; what is hashed for a digest; postings, entries, balances and their encodings; the published encoding |
| Money, Literals | largest-remainder splits; reading and showing amounts |
| Dates, Periods, Accounts | day numbers; the calendar and its watermark; the registry, its tree and its bindings |
| Validation, Books, Reversals | sealing a draft; balances and sites as folds; reversals and stored entries |
| Seals, Commitments, SealedBalances | trial-balance commitments, the seal chain, proofs of a sealed balance |
| Clearings, LedgerClearings | the clearing register, and clearing against the books |
| Ledgers, LedgerRuns, Checkpoints, BalanceLaws | the ledger as a state machine, what every run keeps, checkpoints, the balance laws |
| JournalIndexes, JournalReads, Journals | the journal class, everything it derives, and its readers |
| Closings, Paging, Stores, Archives | closing entries, pages, the in-memory store's reads, the cold tier |

Hashes are a free datatype: two digests are equal exactly when they were built the same way.
That is the collision-freedom the engine assumes, and it is justified inside the model:
`HashTags.HashedExact` proves that two digests hash the same bytes, tag and length prefix
included, exactly when they are the same, and every encoding that goes into a payload is
proven uniquely decodable. A preimage is a sequence of bytes and whole digests.

Code that updates fields is a class here, code that loops is a method with a loop, and each
is proved against a function of plain values. `Ledgers` and `LedgerRuns` state the journal as
a relation between such values, by searching and folding the entries; `Journals` refines it,
so the whole-run theorems apply to every sequence of journal calls.

Where code and documentation differ, the model follows the code:

- The documentation of the registry names `u32::MAX` as the most accounts there can be; the
  code issues handles as long as the next index fits, which is one more
  (src/account.rs:639-677).
- Stored accounts are documented to come back only when the handles are those from zero on,
  once each (src/account.rs:866-876); the code takes a handle given twice under one path, and
  the last record stands (src/account.rs:833-888). `Accounts.RepeatedHandle` gives the input,
  `Accounts.AccountRegistry.FromRecords` the exact condition.
- The watermark is documented as derived from the period table, so that a restart keeps every
  day closed that was closed (src/period.rs:303-311, 385-388). It is not after a sealed period
  is filed again as open or closing, which `ensure` allows (src/period.rs:402-412) and the
  stores do on a period's definition (src/storage.rs:1075-1085): the live calendar keeps its
  watermark, and one read from the table has lost it. `Periods.ReopenedByRestart` gives the
  input, `Periods.RestartRestores` says that a restart restores the calendar exactly when its
  watermark is the last day of a period stored as sealed, and `Periods.PeriodCalendar.Ensure`
  after which calls it is.
- `verify_balanced` is documented to hold because every entry balances
  (src/journal.rs:903-922), and it need not. Entries balance per currency across both layers
  (src/entry.rs:833-853), while the check asks per currency and layer:
  `BalanceLaws.AcrossLayersPasses` gives entries that are recorded and make the check answer
  no. It also adds up over all accounts, which no rule bounds:
  `BalanceLaws.BalancedYetOverflowing` gives two entries that are recorded, balance in every
  layer, and make it answer with an overflow. `Journals.Journal.VerifyBalanced` says exactly
  when it answers what, and `BalanceLaws.NextAnswersYes` from which entries on it goes on
  answering yes.
- A split of the least amount that gives all of it to one part is documented as a split and
  is an overflow in the code (src/money.rs:348-359). `Money.Allocate` says for exactly which
  weights; for an even split it is one part alone (`Money.Distribute`). The least amount cannot
  be parsed back either: `Literals.RoundTrip`.

## Model

| member | source | states |
|---|---|---|
| MerkleTree.SplitPoint | src/merkle.rs:57-64 | the doubling loop finds the largest power of two strictly below the size |
| MerkleTree.SplitIsUnique | src/merkle.rs:57-64 | no other power of two splits a size that way |
| MerkleTree.MthIsRoot | src/merkle.rs:67-76 | the tree hash of leaves is the same recursion over a row of node hashes |
| MerkleTree.RootUp | src/merkle.rs:67-76 | combining neighbours one row up, with a last odd node carried, leaves every root where it was: the bridge between the top-down split and the bottom-up walks |
| MerkleTree.PathUp | src/merkle.rs:723-736 | an audit path is the sibling at this row, if there is one, then the audit path one row up |
| MerkleTree.SubProofUp | src/merkle.rs:739-755 | from an even size the consistency path is the one a row up |
| MerkleTree.SubProofOdd | src/merkle.rs:739-755 | from an odd size it is the last old node, unless that is the whole old tree, and that node's audit path |
| MerkleTree.MthPrefix | src/merkle.rs:591-600 | the tree hash at an earlier size is the tree hash of that prefix taken as a log |
| MerkleTree.TreeHashInjective | src/merkle.rs:67-76 | two logs with one tree hash are the same log, whatever their lengths |
| MerkleProofs.InclusionProof.Verify | src/merkle.rs:167-194 | the iterative inclusion verifier accepts exactly what the row-by-row climb accepts |
| MerkleProofs.WalkReachesRoot | src/merkle.rs:167-194 | the climb reaches the root of a row exactly from the right node by its audit path |
| MerkleProofs.InclusionExact | src/merkle.rs:167-194 | against the head of a log a proof is accepted if and only if it is the built proof of the leaf at its index |
| MerkleProofs.OneLabelling | src/merkle.rs:147-166 | with distinct leaves only one index and size verify for a payload under a head |
| MerkleProofs.BitAndIs | src/merkle.rs:292-300 | a bit of the masked size is set exactly when it is set in both |
| MerkleProofs.PowerOfTwoTest | src/merkle.rs:292-300 | the bit test that chooses the seed is true exactly on powers of two |
| MerkleProofs.SubProofShape | src/merkle.rs:739-755 | the built consistency path is the last old peak, unless it is the old root, and that peak's audit path |
| MerkleProofs.WalkPairOld | src/merkle.rs:302-331 | along that path the old half of the walk rebuilds the root of the old prefix |
| MerkleProofs.RunReachesRoots | src/merkle.rs:302-331 | the whole walk ends in a pair of roots exactly on the right seed and path, and then the first is the root of the prefix |
| MerkleProofs.ConsistencyProof.Verify | src/merkle.rs:271-332 | the consistency verifier, with its size checks and seed, accepts what the specified walk accepts |
| MerkleProofs.ConsistencyProof.Rebuild | src/merkle.rs:302-331 | the loop that drops rows and rebuilds both roots computes that walk |
| MerkleProofs.ConsistencyExact | src/merkle.rs:271-332 | from a non-empty old head, acceptance against the head of a log holds if and only if the old head is the head of that prefix and the path is the built one |
| MerkleProofs.VacuousConsistency | src/merkle.rs:243-245 | from the empty tree, exactly what acceptance pins and what it leaves open |
| MerkleLogs.PeaksHeights | src/merkle.rs:361-367 | the heights of a log's stack are the cover of its size |
| MerkleLogs.CoverIsBits | src/merkle.rs:361-367 | the cover of a size lists exactly its set bits, highest first |
| MerkleLogs.PushExtends | src/merkle.rs:422-438 | merging equal heights turns the stack of a row into the stack of the longer row |
| MerkleLogs.FoldIsRoot | src/merkle.rs:445-455 | folding a stack onto a node gives the root of the row with that node last |
| MerkleLogs.StackRoot | src/merkle.rs:445-455 | the fold over a log's stack is its tree hash |
| MerkleLogs.StackPush | src/merkle.rs:422-438 | a pushed leaf takes the stack of a log to that of the longer log |
| MerkleLogs.GenuinePartsAreWellFormed | src/merkle.rs:386-401 | the parts of a log's own accumulator always have the required heights |
| MerkleLogs.MerkleAccumulator.CoverOf | src/merkle.rs:361-367 | testing the bits from the top yields the cover |
| MerkleLogs.MerkleAccumulator.TryFromParts | src/merkle.rs:386-401 | persisted parts are taken over exactly when their heights are the set bits of the size, and the error carries both |
| MerkleLogs.MerkleAccumulator.Push | src/merkle.rs:422-438 | the new stack, the returned index and the saturating size; coverage of a log extends to the longer log |
| MerkleLogs.MerkleAccumulator.Root | src/merkle.rs:445-455 | the fold; the tree hash of whatever log the stack covers |
| MerkleLogs.BuildInclusionPath | src/merkle.rs:723-736 | the recursive builder appends the audit path |
| MerkleLogs.BuildConsistencyPath | src/merkle.rs:739-755 | the recursive builder appends the consistency path |
| MerkleLogs.MerkleLog.Append | src/merkle.rs:530-533 | the leaf is added at the returned index and the derived stack follows |
| MerkleLogs.MerkleLog.Truncate | src/merkle.rs:548-558 | the log is the prefix and its stack that of a log built from those leaves alone |
| MerkleLogs.MerkleLog.FromLeaves | src/merkle.rs:500-506 | a log rebuilt from leaves is consistent |
| MerkleLogs.MerkleLog.StackDetermined | src/merkle.rs:480-486 | the leaves determine the derived stack |
| MerkleLogs.MerkleLog.Root | src/merkle.rs:565-567 | the maintained root is the tree hash of the leaves |
| MerkleLogs.MerkleLog.VerifyIncrementalState | src/merkle.rs:575-577 | the self-check always succeeds on a consistent log |
| MerkleLogs.MerkleLog.Head | src/merkle.rs:581-586 | the head is size and tree hash |
| MerkleLogs.MerkleLog.HeadAt | src/merkle.rs:591-616 | the head at an earlier size is that of the prefix, and a size beyond the log is an error |
| MerkleLogs.MerkleLog.InclusionProofAt | src/merkle.rs:641-660 | for every index below a size the log has had, the proof built verifies under the head at that size; otherwise the exact error |
| MerkleLogs.MerkleLog.ConsistencyProofBetween | src/merkle.rs:691-719 | for all sizes in order the proof built verifies between their heads; otherwise the exact error |
| Canonical.LeUnique | src/canonical.rs:60-87 | fixed-width integers decode in one way, whatever follows |
| Canonical.I64Unique | src/canonical.rs:78-81 | so do two's-complement ones |
| Canonical.FixedUnique | src/canonical.rs:116-119 | and bytes of a width fixed by the schema |
| Canonical.BytesUnique | src/canonical.rs:102-106 | a length prefix keeps neighbouring byte strings apart |
| Canonical.OptionUnique | src/canonical.rs:122-133 | options of decodable values are decodable |
| Canonical.SeqUnique | src/canonical.rs:140-150 | counted sequences of decodable values are decodable |
| Canonical.LeAt | src/canonical.rs:60-87 | byte i of a number is its digit of weight 256 to the i, lowest first |
| Canonical.I64Is | src/canonical.rs:78-81 | a negative number is written as the word two's complement gives it |
| Canonical.FixedIs | src/canonical.rs:116-119 | bytes of a fixed width are written as they are |
| Canonical.CanonicalWriter.Bytes | src/canonical.rs:102-106 | the writer appends the length-prefixed encoding |
| Canonical.CanonicalWriter.Fixed | src/canonical.rs:116-119 | the writer appends the bytes without a prefix |
| Canonical.CanonicalWriter.I64 | src/canonical.rs:78-81 | the writer appends eight little-endian bytes of the two's complement |
| Canonical.CanonicalWriter.U64 | src/canonical.rs:66-69 | the writer appends eight little-endian bytes |
| HashTags.NamesSeparate | src/hash.rs:157-174 | no tag serves two kinds of digest |
| HashTags.HashedIs | src/merkle.rs:31-33 | the name and the payload hashed for each kind of digest, a node's left before its right |
| HashTags.HashedExact | src/hash.rs:184-191 | two of the engine's digests hash the same bytes if and only if they are the same digest |
| HashTags.OutsideNamespace | src/hash.rs:176-180 | nothing hashed under a caller's own domain hashes the bytes of one of the engine's digests |
| Entries.DateUnique | src/account.rs:497-501 | an encoded date determines the date |
| Entries.PostingUnique | src/posting.rs:190-199 | an encoded posting determines every field, its dimensions included |
| Entries.ProvenanceUnique | src/entry.rs:280-286 | encoded provenance determines provenance |
| Entries.DocumentDecodable | src/entry.rs:348-355 | an encoded document reference determines the reference |
| Entries.EntryUnique | src/entry.rs:1139-1157 | an encoded entry determines the scale and every field but the identifier, and where it ends |
| Entries.ContentHashExact | src/entry.rs:908-910 | equal content hashes if and only if equal entries up to identifier, at one scale |
| Entries.EncodePosting | src/posting.rs:190-199 | writing a posting field by field gives its encoding |
| Entries.EncodeEntry | src/entry.rs:1139-1157 | writing an entry field by field gives its encoding |
| Entries.Digest | src/entry.rs:908-910 | the digest is the tagged hash of that encoding |
| GoldenVectors.ReferenceEncoding | tests/golden.rs:64-138 | the encoding of the reference entry is the published vector, byte for byte |
| GoldenVectors.SealPreimage | src/seal.rs:280-302 | what a seal's hash covers, in order and byte for byte, on the reference seal |
| GoldenVectors.RowPreimage | src/seal.rs:322-331 | what a row's leaf covers, in order and byte for byte |
| GoldenVectors.BindingPreimage | src/account.rs:549-554 | what a binding's leaf covers: the handle and the segments of the path |
| Money.AllocationIs | src/money.rs:292-298 | every part is its exact share rounded down or one unit more, the parts add up, and the extra units go to the largest remainders, of equal ones to the lower index |
| Money.AllocationUnique | src/money.rs:292-298 | the largest-remainder rule leaves one possible split |
| Money.WithinOneUnit | src/money.rs:292-298 | every part is less than one minor unit from its exact share |
| Money.RoundedUpHasRemainder | src/money.rs:343-353 | only a part with a remainder is rounded up, and a weight of zero gets nothing |
| Money.LeftoverSmall | src/money.rs:338-353 | what rounding down leaves is less than one unit per part, so one pass hands it all out |
| Money.TotalWeight | src/money.rs:303-308 | summing a slice of weights never overflows 128 bits |
| Money.Shares | src/money.rs:322-336 | shares, remainders and their sum, with no overflow |
| Money.HandOut | src/money.rs:343-353 | handing the leftover out in rank order follows the rule |
| Money.AllocationFits | src/money.rs:354-359 | a part is out of range exactly when it is all of the least amount's magnitude, and for which weights that is |
| Money.Allocate | src/money.rs:299-360 | no weight is refused; otherwise it fails if and only if the amount is the least one and one part takes all of it; a split adds up to the amount, keeps its sign and follows the rule |
| Money.Distribute | src/money.rs:285-290 | equal parts add up and differ by at most one unit, the larger ones first; fails exactly for no parts, or the least amount in one part |
| Literals.RescaledExact | src/money.rs:391-420 | the computed minor units are exactly what the literal denotes, and none are when digits beyond the scale are lost |
| Literals.MinorUnits | src/money.rs:405-415 | the digit loop computes the fraction at the scale and cannot overflow |
| Literals.PowerOfTen | src/money.rs:434-445 | the clamped power is exact at every scale in use |
| Literals.TrimmedExact | src/money.rs:368 | trimming takes off the white space around a text and nothing else |
| Literals.SpacesAre | src/money.rs:368 | white space is exactly the 25 characters with that Unicode property |
| Literals.TakenApartSpells | src/money.rs:369-384 | every text is a sign or none, what is before the first point, and the point with the rest or neither |
| Literals.SpelledWellFormed | src/money.rs:369-390 | everything spelled as a sign or none, digits, and a point with digits or none, with at least one digit, is well formed and read as it was spelled |
| Literals.Parse | src/money.rs:367-425 | white space around it aside, a malformed literal is refused; a well-formed one gives the amount it denotes, or is refused exactly for a fraction of a unit or for more than the largest amount |
| Literals.DisplayDenotes | src/money.rs:447-462 | what an amount is shown as denotes that amount and no other, with exactly as many digits after the point as the scale and no leading zero |
| Literals.RoundTrip | src/money.rs:367-425 | parsing what was displayed, with any white space around it, gives the amount back for every amount but the least, which overflows |
| OrderedMaps.LastAtMost | src/period.rs:339-343 | the greatest key at or before a bound |
| OrderedMaps.FirstAtLeast | src/period.rs:344 | the least key at or after a bound |
| Periods.NewPeriod | src/period.rs:227-237 | an inverted range is refused; otherwise the period has that identifier and range, is open, and contains exactly its days |
| Periods.OverlapsIsSharedDay | src/period.rs:247-249 | two ranges overlap exactly when some day lies in both |
| Periods.WellFormedInDays | src/period.rs:303-311 | a calendar is well formed exactly when no day has two periods and no day of a sealed period is past the watermark |
| Periods.RefusedInDays | src/period.rs:333-360 | a period is refused for a taken identifier, or for a day it shares with the period named, the earliest such |
| Periods.NeighboursSuffice | src/period.rs:333-360 | among disjoint periods, missing both neighbours by start date means missing all of them |
| Periods.PeriodCalendar.FirstMet | src/period.rs:337-353 | the neighbour found is the earliest of all periods met, and finding none means none is met |
| Periods.StateOnCovered | src/period.rs:432-437 | the scan over all periods has one answer |
| Periods.SealingSetsWatermark | src/period.rs:363-371 | sealing a sealable period puts the watermark on that period's own last day |
| Periods.AdvancesIs | src/period.rs:363-371 | advancing moves no boundary, drops no period and never takes the watermark back |
| Periods.SealableIs | src/period.rs:503-546 | a period may be sealed exactly when no reason against it can be given: it is closing, ends past the watermark, and everything that starts before it is sealed |
| Periods.SealRefusalIs | src/period.rs:503-546 | each reason against sealing is given exactly when it is the first that applies; of several unsealed predecessors the earliest is named |
| Periods.StuckBehindWatermark | src/period.rs:503-546 | a period that ends behind the watermark cannot be sealed in any later calendar, and while it is not marked sealed by other means neither can any period that starts after it |
| Periods.WatermarkDetermined | src/period.rs:315-321 | the periods determine an exact watermark |
| Periods.RestartRestores | src/period.rs:303-321 | a restart from the stored table restores every period, freezes no other day, and restores the watermark if and only if it is the last day of a period stored as sealed |
| Periods.FiledExactIff | src/period.rs:402-412 | filing a period leaves the watermark derivable from the table exactly when the period is sealed and reaches it, or it was derivable and is not that period's own last day |
| Periods.ReopenedByRestart | src/period.rs:402-412 | a period sealed and filed again as open stays closed while the calendar lives and is open again after a restart |
| Periods.PeriodCalendar.Define | src/period.rs:333-360 | a new identifier is refused exactly when some day would belong to two periods, with the exact error, which names the earliest period met; a taken one always; the watermark never moves back |
| Periods.PeriodCalendar.Ensure | src/period.rs:402-412 | the same range only replaces the stored state; anything else is refused exactly when its identifier is taken or some day would belong to two periods, with the exact error; the watermark never moves back; and the exact condition on which the table still gives it |
| Periods.PeriodCalendar.MarkSealedThrough | src/period.rs:363-371 | the watermark advances only to a sealed period that reaches further |
| Periods.PeriodCalendar.PeriodOn | src/period.rs:416-419 | the last period starting by a date is the only one that can contain it |
| Periods.PeriodCalendar.StateOn | src/period.rs:432-437 | sealed up to the watermark; otherwise the state of the period the day is in, and open on a day in none; equals the scan of the whole table |
| Periods.PeriodCalendar.Transition | src/period.rs:456-478 | exactly open to closing, closing to open and closing to sealed are accepted, with the exact error otherwise, changing no boundary |
| Periods.PeriodCalendar.CheckSealable | src/period.rs:503-546 | accepts exactly a closing period with nothing earlier unsealed that ends past the watermark; the error is the first reason in that order |
| Periods.PeriodCalendar.FirstUnsealedBefore | src/period.rs:515-532 | the first unsealed period in start order, or proof that there is none |
| Periods.PeriodCalendar.FromPeriods | src/period.rs:315-321 | a table in any order is accepted exactly when no identifier repeats and no day is in two rows, and the watermark comes back exact; the error is that of the first row that clashes with an earlier one |
| Periods.ClashTells | src/period.rs:315-321 | the error for a row tells whether its identifier is taken, or which row, the earliest such, it shares a day with |
| Accounts.PathTransitive | src/account.rs:120-128 | the order of paths is transitive |
| Accounts.LabelLeIs | src/account.rs:120-128 | segments are ordered by the first byte that differs, a prefix first |
| Accounts.PathLeIs | src/account.rs:120-128 | paths are ordered by the first segment that differs, a prefix first |
| Accounts.UnderIs | src/account.rs:221-224 | a path is under another exactly when it is that path and some more segments |
| Accounts.LeafIs | src/account.rs:717-719 | an account is a leaf exactly when no registered path extends its own by a segment or more |
| Accounts.LimitIsSide | src/account.rs:351-357 | no credit balance means the net is zero or above, no debit balance that it is zero or below |
| Accounts.OpenDays | src/account.rs:470-472 | an account is open from its opening day through its closing day, and on no day at all exactly when it closed before it opened |
| Accounts.DescendantsAreContiguous | src/account.rs:684-692 | everything between a prefix and a path under it is under it too |
| Accounts.CountDescendants | src/account.rs:684-692 | the forward scan counts exactly the registered strict descendants |
| Accounts.CountIsZeroOnLeaves | src/account.rs:717-719 | a count of zero means no registered path lies below |
| Accounts.BindingLeafInjective | src/account.rs:549-554 | a binding leaf determines handle and path |
| Accounts.PathHashInjective | src/account.rs:231-235 | a path's content hash determines the path and is never a binding leaf |
| Accounts.BindingExact | src/account.rs:605-612 | against a registry's commitment exactly its true bindings verify |
| Accounts.BindingSurvives | src/account.rs:990-1012 | a binding proven at a size verifies under the commitment the registry had then, whatever happened since |
| Accounts.AccountRegistry.Register | src/account.rs:639-677 | the next handle, the exact error otherwise, and every child count right whatever the order of registration |
| Accounts.AccountRegistry.CountAncestors | src/account.rs:659-665 | the counts of exactly the registered strict prefixes go up by one |
| Accounts.AccountRegistry.IsLeafHandle | src/account.rs:717-719 | exact: no other registered path lies under the account |
| Accounts.AccountRegistry.Close | src/account.rs:744-757 | sets the closing date of a known account that is not closed before it opened: from then it is open from its opening day through that day |
| Accounts.AccountRegistry.Reopen | src/account.rs:760-766 | clears it: from then the account is open on every day from its opening day |
| Accounts.AccountRegistry.SetLimit | src/account.rs:781-787 | replaces one account's limit and nothing else |
| Accounts.AccountRegistry.Restore | src/account.rs:833-864 | a held handle keeps its path; a new one must be the next; the exact condition for success and the exact error |
| Accounts.RestoreTells | src/account.rs:833-864 | the error for a record is true of the accounts held: a skipped handle, another path at the handle, the path at another handle, or a closing before the opening |
| Accounts.AccountRegistry.FromRecords | src/account.rs:877-888 | accepted exactly when records agree on handle and path, skip no handle and close nothing before it opened; each handle then holds its last record; the error is that of the first record, by handle, that cannot be put back |
| Accounts.RecordsRestore | src/account.rs:877-888 | a registry's own records, in any order and any number of times, restore exactly its accounts |
| Accounts.ByIdLast | src/account.rs:880-881 | sorting by handle keeps which record of a handle came last |
| Accounts.RepeatedHandle | src/account.rs:866-888 | a handle given twice is accepted |
| Validation.PassingIsBalanced | src/entry.rs:769-894 | a passing entry has two legs, positive amounts and balances in every currency |
| Validation.PassingIsInContext | src/entry.rs:769-894 | it books leaf accounts no earlier than they opened and no later than they closed, on a date that accepts postings, past the watermark |
| Validation.PassesExactly | src/entry.rs:769-894 | an entry passes exactly when it has two to 32767 postings, each of a positive amount to a leaf open on its booking date, in the ledger's currency and with every required axis, every currency balances and fits, its period is open, and its value date is near enough |
| Validation.PostingPasses | src/entry.rs:786-823 | nothing is wrong with a posting exactly when its amount is positive, its account registered, a leaf, opened by the booking date and not closed before it, its currency the ledger's, and every required axis there |
| Validation.FittingIs | src/entry.rs:825-831 | no posting overflows its currency exactly when every currency's totals fit |
| Validation.DifferenceIsExact | src/entry.rs:833-853 | the difference reported for an unbalanced currency is the exact one |
| Dates.JulianDayCounts | src/entry.rs:863-866 | the day numbers of consecutive Gregorian days are consecutive, across month ends, leap days and year ends, counted from the Julian day of 1 January 2000 |
| Validation.NoOverflowMeansExact | src/entry.rs:825-831 | without an overflow the running totals are the exact sums |
| Validation.CheckPosting | src/entry.rs:786-823 | reports all and only the violations of one posting, in order |
| Validation.Tally | src/entry.rs:825-831 | per-currency totals, leaving out a posting that would overflow them |
| Validation.ErrorsExact | src/entry.rs:769-894 | the list of errors in its order holds all and only the violations, and is empty exactly on entries that pass |
| Validation.SealEntry | src/entry.rs:769-894 | an entry passes if and only if nothing is wrong with it, and then every posting is in order; otherwise the errors are all and only its violations, in the one order they are reported in |
| Reversals.Reverse | src/entry.rs:1027-1036 | every side flipped, booked and valued on the day given, naming the entry and the day it was booked, with its description and neither kind, provenance nor document |
| Reversals.InversionNetsOut | src/journal.rs:1344-1358 | an accepted inversion nets its original out on every key |
| Reversals.ReverseBalances | src/entry.rs:1027-1035 | reversing a balanced entry gives a balanced draft |
| Reversals.ReverseIsAllowed | src/journal.rs:656-677 | a reversal of a recorded entry is allowed exactly when that entry is no reversal and not yet reversed |
| Reversals.AdoptedIsRecorded | src/entry.rs:741-762 | a stored draft is taken back exactly when it is the recorded entry up to its identifier |
| Books.SumMoves | src/balance.rs:109-119 | one more posting adds its amount to its own side of its own key and to nothing else |
| Books.SumShuffled | src/balance.rs:109-119 | balances do not depend on the order of postings |
| Books.SumPrefix | src/journal.rs:594-601 | totals of a prefix never exceed those of the whole |
| Books.SitesOnFacts | src/journal.rs:501-506 | the sites of a key are exactly where it is posted to, once each, strictly ordered |
| Books.SiteSumIsSum | src/journal.rs:870-879 | adding up a key's sites gives its balance |
| Books.SitesPrefix | src/journal.rs:1030-1041 | the sites within a prefix of the log are a prefix of them all |
| Books.ThroughBounded | src/journal.rs:958-966 | balances through a date are bounded by those over everything |
| Books.ThroughIs | src/journal.rs:958-966 | the postings through a date are those of the entries booked by then |
| Seals.CurrencyRankOrders | src/money.rs:45-46 | currencies are ordered by the bytes of their codes |
| Seals.RankOrders | src/balance.rs:79-88 | keys are ordered by account, then currency code, then layer, settled before pending |
| Seals.SortKeys | src/balance.rs:151-153 | rows come in key order |
| Seals.SortedCurrenciesList | src/balance.rs:184-189 | currencies come once each in code order |
| Seals.BalanceLeafInjective | src/seal.rs:322-331 | a row's leaf determines scale, key and both gross totals |
| Seals.TrialBalanceHeadInjective | src/seal.rs:310-312 | equal heads mean the same keys with the same totals |
| Seals.BalanceProofExact | src/seal.rs:466-469 | under a trial balance's head exactly the built proofs of its own rows verify |
| Seals.BuildSeal | src/seal.rs:176-200 | a built seal has every field given and is self-consistent |
| Seals.SealHashInjective | src/seal.rs:204-214 | a self-consistent seal's hash determines every field |
| Seals.LinkIs | src/seal.rs:845-888 | a link is accepted exactly when every rule holds, and otherwise each error is given exactly when its rule is the first broken |
| Seals.LinkedExactly | src/seal.rs:845-888 | a chain is linked exactly when every seal is genuine, of this ledger, and names the hash of the one before it, the first none, neither log nor registry shrinks, and no period is sealed twice |
| Seals.ChainBinding | src/seal.rs:845-888 | two linked chains of one ledger ending in one hash are equal seal by seal |
| Seals.LinkedMonotone | src/seal.rs:845-888 | along a chain neither log nor registry shrinks and no period repeats |
| Seals.SealChain.Push | src/seal.rs:895-900 | appends exactly a seal that links, which is one of this ledger; a genuine seal of another ledger gets exactly the error that names both; a refused one changes nothing |
| Seals.SealChain.Verify | src/seal.rs:913-922 | succeeds exactly on linked chains, all of whose seals are this ledger's, so on every chain built by pushing; otherwise the error is that of the first seal that does not link |
| Seals.SealChain.FromSeals | src/seal.rs:807-816 | rebuilding succeeds exactly when verifying does, and then every seal is this ledger's; otherwise the error is that of the first seal that does not link |
| Seals.SealChain.Head | src/seal.rs:826-828 | the newest seal's hash pins the chain: no other linked chain of the ledger has that head |
| Commitments.RegistryCommitment | src/account.rs:909-930 | the head over every binding in handle order |
| Commitments.TrialBalanceCommitment.Head | src/seal.rs:370-386 | the head is a function of the balances alone |
| Commitments.TrialBalanceCommitment.Prove | src/seal.rs:412-421 | the proof of a present row, and none for an absent one |
| SealedBalances.AssembleClaim | src/seal.rs:609-637 | assembles with the three checks in their order, and the exact outcome |
| SealedBalances.AssembleSucceeds | src/seal.rs:609-637 | under a true seal both proofs come back and the claim verifies |
| SealedBalances.SealedBalanceProvable | src/journal.rs:1218-1242 | in every sound state the only error is a missing seal, every row of the closing balance comes back proven under that seal, and a key without a row is told from an account registered later |
| SealedBalances.OutcomeTells | src/seal.rs:609-637 | a proof comes back exactly for a row, not yet registered exactly for an account the seal does not know, and no row exactly otherwise |
| SealedBalances.SealedClaimSound | src/seal.rs:650-652 | nothing else verifies under a true seal: balance and account name are forced |
| SealedBalances.SealedClaimByHash | src/seal.rs:642-652 | the hash of a true seal is enough: a verifying claim whose seal has that hash carries that very seal, and the row and binding proofs built for it |
| SealedBalances.ProvenForever | src/journal.rs:1218-1242 | whatever is answered about a sealed period, claim or none, is answered the same, proofs included, in every later state |
| Clearings.GrowthKeepsClearings | src/clearing.rs:401-486 | growing books keep every clearing sound and within bounds |
| Clearings.ResetReleases | src/clearing.rs:489-512 | releasing a clearing releases exactly what it applied |
| Clearings.AppliedNetsToZero | src/clearing.rs:401-486 | over one key everything applied offsets, so clearing never moves a balance |
| Clearings.ResidualsTotal | src/clearing.rs:558-582 | residuals total to amounts less what is applied |
| Clearings.ClearingRegister.CheckItem | src/clearing.rs:424-462 | accepts exactly an item on the key within what its posting has open; each error is true of it |
| Clearings.ClearingRegister.CheckItems | src/clearing.rs:401-475 | accepts exactly clearings that may be recorded; each error explains itself |
| Clearings.ClearingRegister.Apply | src/clearing.rs:475-482 | staged amounts land on their postings and nowhere else |
| Clearings.ClearingRegister.Clear | src/clearing.rs:401-486 | recorded if and only if new, sound, in range and within what is open; the applied amounts move by the items; a refused clearing changes nothing |
| Clearings.ClearingRegister.Reset | src/clearing.rs:489-512 | released once, with the exact error otherwise, and the record stays |
| Clearings.OpenExactly | src/clearing.rs:557-581 | an item is listed exactly when its posting is a candidate not fully applied, with the posting's side and amount, what is applied, and the rest |
| Clearings.ClearingRegister.OpenItems | src/clearing.rs:558-582 | lists exactly the candidates not fully applied, each with the amount of its posting as the original, what is applied to it, and the residual, in the order given; or names a reference that does not resolve |
| LedgerClearings.LookupsAgree | src/journal.rs:1329-1337 | resolving through the identifier index is resolving by search |
| LedgerClearings.ClearableIs | src/clearing.rs:401-475 | the register's test through its maps is the definition on the books |
| LedgerClearings.RefusalIs | src/clearing.rs:401-475 | the register's reason is true of the books |
| LedgerClearings.ClearingNeverOverflows | src/clearing.rs:401-475 | in a sound ledger no clearing is refused for an overflow: its sides are within the gross totals of its key |
| LedgerClearings.ClearableExactly | src/clearing.rs:401-475 | one may be recorded exactly when no clearing has its identifier, it names at least two postings, each once, all of its key and each for a positive amount within what is open on it, and its debits equal its credits |
| LedgerClearings.RefusalIsGenuine | src/clearing.rs:401-475 | no reason is ever given against a clearing that may be recorded, and an over-application says how much is open |
| LedgerClearings.FaultTells | src/clearing.rs:401-475 | what a refusal says of one item is true of it: named twice, not positive, unknown, or of another account, currency or layer than the key |
| Ledgers.RecordKeepsEntries | src/journal.rs:456-524 | recording keeps entries distinct, balanced, in range, and reversals one-to-one |
| Ledgers.PrefixSound | src/journal.rs:566-610 | a prefix of sound entries is sound |
| Ledgers.LeavesDistinct | src/merkle.rs:147-166 | the leaves of a journal are pairwise distinct |
| Ledgers.EntryProofUnique | src/journal.rs:763-769 | so a proof for an entry verifies under one index and size only, and that index holds the entry |
| Ledgers.RecordableIs | src/journal.rs:456-524 | an entry is recordable exactly when identifier and key are new, it reverses nothing or inverts a recorded entry that is no reversal and that nothing reverses, every total fits, and no account is left on the side of zero its limit forbids |
| Ledgers.InversionIs | src/journal.rs:1344-1358 | one entry inverts another exactly when, posting by posting, only the side differs |
| Ledgers.LimitsIgnoreOrder | src/journal.rs:612-653 | limits allow an entry or not whatever order its postings are listed in |
| Ledgers.OpenItemsMatchBalance | src/journal.rs:1083-1105 | the signed residuals of a key's open items are its balance |
| Ledgers.OpenItemsAre | src/journal.rs:1083-1105 | the items listed on a key are exactly its postings not fully applied, at their position and under their name, with side, amount, what is applied and the rest |
| LedgerRuns.RecordKeepsSeal | src/journal.rs:1190-1242 | an entry validation accepts cannot reach behind the watermark, so every seal still commits to the closing balance |
| LedgerRuns.SealLinks | src/journal.rs:1151-1173 | the seal of a sealable period always links |
| LedgerRuns.StepKeeps | src/journal.rs:256-304 | every step keeps the whole invariant, every seal, every entry, every path and every boundary |
| LedgerRuns.RunKeeps | src/journal.rs:256-304 | so does every run |
| LedgerRuns.SealedNeverRestated | src/journal.rs:1128-1173 | over any run a sealed period's closing balance, folded afresh, stays what it was |
| LedgerRuns.LimitKept | src/journal.rs:624-653 | an account within its limit stays within it, on every key, for as long as the limit is unchanged |
| LedgerRuns.NetKept | src/journal.rs:624-653 | over any run that leaves the limit alone, an account with no credit balance keeps a net of zero or above on every key, and one with no debit balance of zero or below |
| LedgerRuns.StuckForever | src/period.rs:503-546 | over any run a period behind the watermark is never sealed again and holds up every later one |
| LedgerRuns.ReplayForever | src/journal.rs:420-442 | a recorded entry answers for its key and position in every later state |
| LedgerRuns.ClosingFits | src/journal.rs:958-966 | balances through a date never overflow |
| LedgerRuns.CoverageIs | src/journal.rs:1114-1126 | a coverage counts a period's entries and names the first and the last of them, or none |
| Checkpoints.CheckpointForever | src/journal.rs:1255-1289 | a checkpoint that holds once holds in every later state |
| Checkpoints.HeadPinsHistory | src/checkpoint.rs:27-46 | a head that stands for a prefix of two ledgers makes those prefixes equal up to identifiers |
| Checkpoints.CheckpointUnique | src/checkpoint.rs:27-46 | one head and key admit one balance |
| BalanceLaws.BooksBalance | src/entry.rs:833-853 | across all accounts and both layers every currency balances |
| BalanceLaws.LayersOffset | src/entry.rs:833-853 | what one layer of a currency is out by the other is out by in the other direction |
| BalanceLaws.NextKeepsLayers | src/journal.rs:912-922 | books whose layers balance keep them balanced exactly when the next entry's own layers do |
| BalanceLaws.NextAnswersYes | src/journal.rs:912-922 | books for which the check answers yes go on doing so exactly when the next entry's layers balance and the layer totals have room for it |
| BalanceLaws.TransferPasses | src/entry.rs:769-894 | a transfer between two open leaves passes validation whichever layers its legs are on |
| BalanceLaws.AcrossLayersPasses | src/entry.rs:769-894 | a transfer between layers passes validation wherever its accounts can be posted to, is recorded, and unbalances books that were balanced |
| BalanceLaws.BalancedYetOverflowing | src/journal.rs:903-922 | two transfers that are both accepted and recorded balance in every layer and overflow a layer's total |
| BalanceLaws.RowsMakeLayer | src/balance.rs:172-180 | adding up the rows of a layer is adding up its postings |
| BalanceLaws.TotalsOf | src/balance.rs:172-180 | the totals over accounts, or an overflow exactly when they do not fit |
| BalanceLaws.CheckBalanced | src/journal.rs:912-922 | yes exactly when every layer of every currency balances and fits; otherwise the first layer at fault, by currency code and settled first, decides between no and overflow |
| BalanceLaws.FirstFaultIs | src/journal.rs:912-922 | the layer that decides is out of balance or out of range, and every one before it by currency code, settled first, is neither |
| JournalIndexes.NamesUnique | src/journal.rs:256-275 | the entries determine every identifier, key and reversal index |
| JournalIndexes.SitesUnique | src/journal.rs:256-275 | and every posting list |
| JournalIndexes.NamesAppend | src/journal.rs:497-516 | filing an entry keeps the indexes equal to a search |
| JournalIndexes.NamesRemove | src/journal.rs:566-584 | removing the last entry does too |
| JournalIndexes.AddSites | src/journal.rs:501-506 | each posting is filed at the end of its key's list |
| JournalIndexes.RemoveSites | src/journal.rs:576-582 | one entry's postings leave exactly the lists of its keys |
| JournalIndexes.ApplyAll | src/journal.rs:490-494 | postings are added to a copy; it fails exactly when a resulting balance does not fit |
| JournalIndexes.FoldSites | src/journal.rs:1030-1041 | the walk over a key's sites gives its balance at a size and never overflows |
| JournalIndexes.Resettle | src/journal.rs:585-609 | recomputing the touched keys settles lists and rows to what the entries give |
| JournalReads.FoldEntries | src/journal.rs:842-856 | the fold over a prefix is its trial balance and never overflows |
| JournalReads.FoldThrough | src/journal.rs:958-966 | the fold through a date is the closing balance and never overflows |
| JournalReads.FoldDated | src/journal.rs:890-901 | the dated walk over a key's sites gives its balance through the date |
| JournalReads.RunningTotal | src/journal.rs:979-998 | a running total is the balance of the log cut right after that posting |
| JournalReads.LineIs | src/journal.rs:979-998 | a site has one line: where the posting is, what it books, and the balance of its key right after it |
| JournalReads.StatementLines | src/journal.rs:979-998 | a line per site with that balance, the last being the key's balance |
| JournalReads.CoverageOf | src/journal.rs:1114-1126 | the least and greatest positions in a date range and how many entries it has |
| Journals.RefusalIsExclusive | src/journal.rs:456-524 | a refused entry is neither a replay nor recordable |
| Journals.RefusalTells | src/journal.rs:456-524 | what each refusal says is true of the books: the key or identifier is taken, the original is unknown, reversed already, a reversal, or not inverted, or a total does not fit |
| Journals.BreachTells | src/journal.rs:624-653 | a breach names a key the entry touches, its account's limit, and the net on the side of zero it forbids |
| Journals.ReplayIs | src/journal.rs:420-442 | a replay names the entry on record under the key, at its position, and that entry is what was submitted, up to its identifier |
| Journals.SubmittedIs | src/journal.rs:540-556 | an accepted submission either appends the entry and answers with its position, or finds it there already |
| Journals.BatchIsRun | src/journal.rs:540-556 | a batch is a run of the ledger |
| Journals.ReplayedForever | src/journal.rs:420-442 | a recorded entry submitted again gets its identifier and position back in every later state |
| Journals.Journal.constructor | src/journal.rs:288-304 | a new journal holds the empty ledger |
| Journals.Journal.SetPolicy | src/journal.rs:306-315 | a policy step; nothing recorded is looked at again |
| Journals.Journal.Settle | src/journal.rs:420-436 | a key on record is answered as a replay of the same content or a conflict |
| Journals.Journal.CheckReversal | src/journal.rs:656-677 | accepts exactly what the correction rules allow, with the exact error |
| Journals.Journal.CheckLimits | src/journal.rs:624-653 | accepts exactly when no touched key is left with a net on the side of zero its account's limit forbids |
| Journals.Journal.Append | src/journal.rs:496-516 | entry, log, every index and the balances move together |
| Journals.Journal.RecordValidated | src/journal.rs:456-524 | a key on record is a replay or a conflict whether or not the entry still passes; otherwise a refusal with its reason, or a recording step; refusals change nothing |
| Journals.Journal.Record | src/journal.rs:420-442 | the key is settled before validation; then invalid with all violations, refused, or recorded |
| Journals.Journal.RecordBatch | src/journal.rs:540-556 | all in order, replays of entries that no longer pass included, or at the first refusal everything exactly as it was, every index and the log included |
| Journals.Journal.PopTo | src/journal.rs:566-584 | entries leave newest first and every index follows |
| Journals.Journal.RollbackTo | src/journal.rs:566-610 | the journal is again one that never saw the entries after the mark |
| Journals.Journal.TrialBalanceAt | src/journal.rs:842-856 | the balances of any prefix, never an overflow |
| Journals.Journal.BalanceAt | src/journal.rs:870-879 | one balance at any size equals the fold of that prefix |
| Journals.Journal.BalanceOnDate | src/journal.rs:890-901 | one balance through a date equals the fold by booking date |
| Journals.Journal.TrialBalanceThroughDate | src/journal.rs:958-966 | the closing balances, never an overflow |
| Journals.Journal.VerifyBalanced | src/journal.rs:912-922 | yes exactly when every layer of every currency balances and fits; otherwise the first layer at fault decides between no and overflow |
| Journals.Journal.VerifyBalances | src/journal.rs:932-940 | recomputation always agrees |
| Journals.Journal.VerifyLog | src/journal.rs:815-825 | the log always agrees with the entries |
| Journals.Journal.Statement | src/journal.rs:979-998 | lines in log order whose last running balance is the maintained balance |
| Journals.Journal.Clear | src/journal.rs:1050-1059 | recorded exactly when clearable against the books; otherwise nothing changes, and the reason given is true of the books and never an overflow |
| Journals.Journal.ResetClearing | src/journal.rs:1066-1069 | released once, with the exact error otherwise |
| Journals.Journal.OpenItems | src/journal.rs:1083-1105 | exactly the postings to the key not fully applied, each with its amount, what is applied and what is left, oldest first, with a signed total equal to the key's balance |
| Journals.Journal.RegisterAccount | src/journal.rs:335-337 | a registry step that appends the account at the next handle, or the exact error and nothing |
| Journals.Journal.SetLimit | src/journal.rs:335-337 | a registry step that replaces that account's limit only, with the exact error for an unknown one |
| Journals.Journal.CloseAccount | src/journal.rs:335-337 | a registry step that sets that account's closing date only, with the exact error; then it is open from its opening day through that day |
| Journals.Journal.ReopenAccount | src/journal.rs:335-337 | a registry step that clears that account's closing date only; then it is open on every day from its opening day |
| Journals.Journal.RestoreAccount | src/storage.rs:926-936 | a registry step that puts a stored account at its handle, or the exact error and nothing |
| Journals.Journal.DefinePeriod | src/journal.rs:367-370 | a calendar step; a new identifier is refused exactly when some day would belong to two periods, with the exact error; a derivable watermark stays so |
| Journals.Journal.EnsurePeriod | src/storage.rs:1075-1085 | a calendar step that may replace a stored state, even a sealed one, is refused otherwise exactly for a taken identifier or a day in two periods, and still leaves every day up to the watermark sealed; whether the table still gives the watermark after it |
| Journals.Journal.TransitionPeriod | src/journal.rs:377-384 | a calendar step, accepted exactly along the lifecycle, with the exact error; a derivable watermark stays so |
| Journals.Journal.DraftSeal | src/journal.rs:1151-1167 | the seal commits to the log, the closing balances and the registry as they stand, and counts the entries booked in the period, naming the first and last |
| Journals.Journal.SealPeriod | src/journal.rs:1151-1173 | succeeds exactly when the calendar allows it, so the only error is the calendar's first reason; the sealing step, or nothing |
| Journals.Journal.ProveSealedBalance | src/journal.rs:1218-1242 | the only error is a missing seal; every row comes back as a claim under that seal that verifies and carries the account's path; a missing row is told from an account registered later |
| Journals.Journal.VerifySeals | src/journal.rs:1186-1188 | the journal's own chain always verifies |
| Journals.Journal.TakeCheckpoint | src/journal.rs:1255-1257 | a checkpoint that holds |
| Journals.Journal.VerifyCheckpoint | src/journal.rs:1271-1289 | accepts exactly a checkpoint that holds, with the exact error otherwise |
| Closings.FlattenAll | src/closing.rs:86-127 | one leg for every key in scope with a net, and the offsets they leave; fails exactly when a sum does not fit |
| Closings.EquityLegs | src/closing.rs:129-147 | one equity leg per currency that is out brings every currency into balance |
| Closings.ClosingPostings | src/closing.rs:67-149 | given exactly when equity is registered and out of scope and the sums fit; in key order and then equity by currency, one posting per key, positive, without dimensions, balanced in every currency, flattening exactly the scope; none when nothing has a net |
| Closings.ClosingHasLegs | src/closing.rs:39-66 | closing postings are none or at least two, as an entry needs |
| Closings.ScopeIs | src/closing.rs:92-99 | the scope is one layer of the registered accounts of the kinds given, equity apart |
| Closings.SumsFitIs | src/closing.rs:101-147 | the sums fit exactly when no net in scope, no running sum and no negation of them leaves the machine's range |
| Closings.ClosingLegsAre | src/closing.rs:86-149 | posting by posting: first those in scope in key order, each moving exactly its row's net to the other side, then one to equity per currency, by code, for what moved |
| Closings.ClosingFlattens | src/closing.rs:39-66 | booking them zeroes every key in scope, moves the summed net to equity, leaves other keys alone, and leaves a second run nothing |
| Paging.Cursor.EffectiveLimit | src/storage.rs:167-169 | a limit from 1 to 4096 is used as it is, zero as one, and more as 4096 |
| Paging.EntryPage | src/storage.rs:972-998 | the records right after the cursor, as many as the clamped limit or as are left, and the cursor that resumes after them |
| Paging.DrainEntries | src/storage.rs:972-998 | the pages of a log joined, at any limits, are the log |
| Paging.PositionPage | src/storage.rs:1128-1152 | the elements right after the cursor's position, as many as the clamped limit or as are left, and the cursor that resumes after them |
| Paging.ResumesAfter | src/storage.rs:1180-1219 | a page that ended inside an entry is resumed inside it |
| Paging.DrainPositions | src/storage.rs:1180-1219 | the pages of a positioned list joined, at any limits, are the list |
| Paging.DrainReads | src/storage.rs:583-600 | the list is read again for every page: nothing comes twice, each element was there when its page was read, and what was there throughout is listed; if reads only add to the end the last read comes out |
| Stores.OpenItemsOrdered | src/storage.rs:1128-1152 | open items come in strict log order |
| Stores.AllOpenItems | src/storage.rs:583-600 | draining pages of any size gives exactly the open items of the key, once each, adding up to the balance |
| Stores.WholeStatement | src/storage.rs:1180-1219 | draining pages of any size gives the whole statement |
| Stores.AllOpenItemsMeanwhile | src/storage.rs:583-600 | while the ledger moves on between pages: nothing twice, each item open when its page was read, and everything open throughout |
| Stores.StatementMeanwhile | src/storage.rs:1180-1219 | while the log grows between pages: the whole statement as of the last page |
| Stores.LinesGrow | src/journal.rs:979-998 | as the log grows no line of a statement changes |
| Archives.RenderRoundTrip | src/storage/iceberg.rs:319-348 | rendered accumulator parts parse back to the same parts |
| Archives.HeightIs | src/storage/iceberg.rs:329-348 | a height reads the same with and without a plus sign, and is what its digits say if that fits a byte |
| Archives.DecodeAccumulator | src/storage/iceberg.rs:329-348 | a text is restored exactly when it parses to parts whose heights are the set bits of the size, and then to those parts; what a log's accumulator rendered to is restored as that log's accumulator |
| Archives.Collect | src/storage/iceberg.rs:461-504 | reads exactly the log positions asked for, as far as the store has them |
| Archives.RootDecides | src/storage/iceberg.rs:418-439 | the sealed root is reached if and only if the hashes handed over are the sealed ones |
| Archives.ColdTier.ArchiveState | src/storage/iceberg.rs:512-536 | an archive of a prefix yields the accumulator of that prefix; a snapshot of someone else's is an error |
| Archives.ColdTier.Compact | src/storage/iceberg.rs:392-458 | against a genuine seal, success leaves exactly the sealed prefix archived and failure changes nothing; it succeeds exactly when the seal is not behind and the hashes handed over for the new positions are the log's |
| Archives.HoldsOnward | src/storage/iceberg.rs:371-391 | the log growing changes nothing for an archive |
| Archives.ArchivedExactly | src/storage/iceberg.rs:371-391 | where each record carries the hash of its entry, archived entries are the log's own, one for one, up to identifiers |
| Archives.RecordsAreTheLog | src/storage.rs:972-998 | the in-memory store hands over the log's own hashes, each with its entry, so a compaction against a genuine seal succeeds exactly when the seal is not behind |
| Archives.SealsAreGenuine | src/storage/iceberg.rs:392-458 | every seal a ledger made is genuine for its log ever after |

## Left out

- The SQLite and PostgreSQL backends: SQL text, transactions and pools are not visible to the model.
- Parquet, Arrow and the catalog: a compaction's commit is one atomic step and a row stands for its record; the columns, the count of postings written and a record without a log position, which pages never hold, are not modelled.
- Asynchrony and the mutex of the in-memory store: a call is one step.
- BLAKE3, and the rendering of a hash in hexadecimal: digests are a free datatype, and a rendered hash is one symbol of text.
- Serde, error texts, UUID generation, and the character rules of labels, descriptions, keys and currency codes: labels and keys are byte strings.
- Dates: a date is a packed year, month and day whose order is calendar order; every such integer is allowed, valid or not.
- Integer width of positions: entries number at most what 64 bits count, which the recording methods require of their callers as an address space does.
- Subtree heights: the source's eight-bit height saturates only past sizes no log reaches; heights are unbounded here.
- Journals.Journal.RegisterAccount: the source lends its registry and calendar for arbitrary change; the model has the registry's and the calendar's own operations, not the replacement of either by another one.
- One-line accessors, assertions about balances, and normal sides of account kinds: they would only add easy members.
- Liveness of sealing: none is claimed, because a period defined behind the watermark blocks every later one; `LedgerRuns.StuckForever` states it.
