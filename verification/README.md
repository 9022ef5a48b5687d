# Verified model of the internal wallet's algorithms

A Dafny 4.11 project that models the algorithms on which the wallet's services rest, and proves
what they promise. `dafny verify dfyconfig.toml` checks all of it.

| file | models |
|---|---|
| `Numerals.dfy`, `Decimals.dfy` | digit strings, and the decimal library (version 1.4.0 of shopspring/decimal): coefficient and exponent, printing, reading, arithmetic |
| `Amounts.dfy` | decimal text to smallest units and back |
| `FeeDisplay.dfy` | the two printers of amounts shown to people |
| `WithdrawFee.dfy` | the fee calculator and the gross-amount check |
| `WithdrawOrders.dfy`, `WithdrawFlow.dfy` | a withdrawal's amounts, and its freezing, settling and unfreezing |
| `AssetMoves.dfy` | freezing and unfreezing a user's assets, and transfers, which share the locked rows |
| `WithdrawRuns.dfy`, `WithdrawCover.dfy`, `StrandedOrders.dfy` | whole runs of all of these, when the locked row covers the open orders, and two runs after which it does not |
| `Sorting.dfy`, `Ledger.dfy`, `LedgerSafety.dfy`, `LedgerAnswers.dfy` | the double-entry engine, what every run of it keeps, and what it answers to which request |
| `Snowflake.dfy` | the ID generator and systems of many generators |
| `Passwords.dfy` | generated passwords and the strength check |
| `RateLimiter.dfy`, `LeaseLock.dfy`, `AlertAccumulator.dfy` | three protocols on shared Redis state |
| `RequestMetadata.dfy` | request metadata from context to wire and back |
| `PythonText.dfy`, `SqlSanitizer.dfy`, `SanitizerText.dfy`, `ExternalSecrets.dfy` | the two line-driven maintenance scripts, down to the text of their lines |

Clocks, random draws, other clients' commands and fresh transaction ids are inputs, so that a
theorem over all inputs speaks of every clock, every draw and every interleaving. Where the
source changes state in place the model is a class or a loop, proved against a function; the
theorems are about that function.

## Where the code departs from what it promises

Each of these is proved, with the exact condition under which the promise holds.

- The exact parser also takes a sign after a leading dot, so ".+5" is 0.05
  (`Amounts.ParseAcceptsExactly`, `Amounts.SignAfterDotIsAccepted`).
- Below six digits of precision a frozen withdrawal can be stuck. The worker unfreezes with six
  decimals written out, which parses only from six digits on
  (`WithdrawOrders.UnfreezeParsesExactly`), and it settles exactly when the precision holds the
  fee's written decimals (`WithdrawOrders.SettleParsesExactly`); at precision two, 1.5 with a fee
  of 0.025 does neither (`WithdrawOrders.NeitherSettledNorUnfrozen`). Cancelling always works
  (`WithdrawOrders.CancelReturnsFrozen`).
- Completing a withdrawal by hand cuts net and fee separately; it leaves one unit locked exactly
  when the fee has more written decimals than the precision
  (`WithdrawOrders.CompletionLeavesDust`).
- When an administrator's creation fails after freezing, the rollback
  (services/admin/rpc/internal/logic/createCurrencyWithdrawalLogic.go:361-369) unfreezes the amount
  as typed, not as cut: too much is asked for when digits beyond the sixth count, and a text with
  an exponent or too many decimals is refused (`WithdrawOrders.RollbackExactly`).
- Settling and unfreezing have different idempotency keys. Closing keeps what the locked row holds
  beyond the open orders exactly when it closes an open order for what that order froze; an order
  closed twice takes its amount from the others (`WithdrawCover.CloseCoversExactly`, with the run
  `StrandedOrders.TwiceClosedStrands`).
- Asset freezes, asset unfreezes and transfers of frozen funds share the locked row with
  withdrawals. The open orders stay covered exactly when an unfreeze or transfer takes at most
  what is held beside them (`WithdrawCover.AssetMoveCoversExactly`). Unfreezing a user asks for the
  whole locked balance as shown, withdrawals included, so no open order can be closed afterwards
  (`WithdrawCover.UnfreezeUserStrands`, with the run `StrandedOrders.UnfrozenUserStrands`); below
  six digits of precision it is refused, because balances are shown with six decimals
  (`AssetMoves.ShownBalanceReads`).
- The limiter's sorted set holds one entry per millisecond: it bounds admitted milliseconds, and
  requests only up to a rate of one (`RateLimiter.RequestBoundExactly`). A window below a second
  would never limit (`RateLimiter.SubSecondWindowNeverLimits`).
- Unlocking deletes the key whoever owns it: safe exactly when every unlock finds its own lease
  running or the key gone (`LeaseLock.SafeExactlyWhenTimely`).
- The accumulator's pipeline is called atomic and is not. Its sums are exact under every
  interleaving, with every delay up to `late`, exactly when no add can arrive after the expiry of
  another one to its bucket (`AlertAccumulator.AlwaysExactly`). A key lacks the window's length, and
  changing a length clears nothing: sums, and reads, are exact exactly when no two lengths in use
  differ by more than 300 seconds less the delay (`AlertAccumulator.LengthsExactly`,
  `AlertAccumulator.ReadsExactly`). From an hour to a minute they are not
  (`AlertAccumulator.ShortenedWindowLosesSum`).
- A failed first `Init` makes every later one report success without a generator
  (`Snowflake.InitSuccessMeansInitialized`).
- A formatted fee is left alone on supported chains only (`FeeDisplay.UnsupportedChainReformats`).
- A `property` line before its `key` line is not seen (`ExternalSecrets.PropertyBeforeKeyIsLost`).
- The sanitizer drops unwanted INSERTs only inside a records block; elsewhere it keeps them all
  (`SqlSanitizer.KeepsExactly`), so nothing unwanted is left exactly when all of it stood in blocks
  (`SqlSanitizer.AllGoneExactly`). `main` refuses a result that still inserts into `master_seeds` or
  `swap_svc_api_keys` (scripts/sanitize-initdb-sql.py:188-197), so these are never written
  (`SqlSanitizer.SecretsAreNeverWritten`); a stray row of the administrators' tables is
  (`SqlSanitizer.StrayRows`).

## Model

| member | source | states |
|---|---|---|
| Numerals.TrimSpaceOf | pkg/accounting/amount.go:18-20 | trimming takes away exactly the white space around a trimmed text |
| Numerals.UpperExactly | pkg/accounting/amount.go:18-20 | a text in capitals gives a word exactly when it spells it in either case |
| Numerals.LowerExactly | common/withdrawcalc/withdraw_fee.go:152-152 | the same in small letters |
| Numerals.Utf8Exactly | services/accounting/rpc/internal/engine/engine.go:181-189 | a character counts as many bytes as its UTF-8 form, from which it can be read back |
| Decimals.ExponentShifts | common/withdrawcalc/withdraw_fee.go:153-156 | a number written with an exponent is read as the number before the mark, shifted |
| Amounts.ValidateAcceptsExactly | pkg/accounting/amount.go:72-95 | the digit-count check accepts exactly the whole numbers from 0 to below 10^65, whatever exponent represents them |
| Amounts.ParseAcceptsExactly | pkg/accounting/amount.go:22-70 | the exact parser accepts exactly: scale 0 to 30, one of the two written forms, the required sign, at most `scale` written decimals, value below 10^65 units, and returns that value |
| Amounts.SignAfterDotIsAccepted | pkg/accounting/amount.go:34-37 | ".+5" is not a plain decimal, yet parses as 5 units at scale 2 |
| Amounts.LateChecksNeverFire | pkg/accounting/amount.go:53-69 | the representability check and the second round of sign checks can never reject |
| Amounts.PrintedParses | pkg/accounting/amount.go:22-70 | a printed number with p decimals parses exactly at any scale from p on, iff its units stay below 10^65 |
| Amounts.RawPrints | pkg/accounting/amount.go:97-109 | printing accepts, of the amounts from 0 on, exactly those below 10^65, rounds to the nearest unit and writes exactly `scale` decimals |
| Amounts.RawRoundTrip | pkg/accounting/amount.go:22-109 | raw to text to raw returns every whole amount below 10^65 at every scale |
| Amounts.RawRoundTripOnlyIfWhole | pkg/accounting/amount.go:97-109 | an amount that is not whole never comes back as itself |
| Amounts.TextRoundTrip | pkg/accounting/amount.go:22-109 | text to raw to text keeps the value and writes exactly `scale` decimals |
| Amounts.RelaxedExtendsExact | services/accounting/rpc/internal/logic/helpers.go:75-114 | the truncating parser agrees with the exact one wherever that one accepts |
| Amounts.RelaxedAcceptsExactly | services/accounting/rpc/internal/logic/helpers.go:75-114 | it accepts exactly the readable texts at scale 0 to 30 whose number of units is below 10^65 and not negative, or at least one where zero is not allowed, and returns that number rounded down |
| Amounts.ExactByValue | pkg/accounting/amount.go:22-70 | the exact parser accepts the readable texts of at most `scale` written decimals with the required sign and below 10^65 units, and returns the units themselves |
| FeeDisplay.FromRawIntIsDotted | common/utils/web3_fee.go:104-128 | the fee printer writes the amount's digits, padded and stripped of trailing zeros |
| FeeDisplay.FromRawIntIsExact | common/utils/web3_fee.go:104-128 | what is shown reads back as raw / 10^decimals |
| FeeDisplay.FromRawIntInjective | common/utils/web3_fee.go:104-128 | different raw amounts never look alike |
| FeeDisplay.FromRawIntIsCanonical | common/utils/web3_fee.go:104-128 | no superfluous leading zero, no zero or dot at the end of a fraction |
| FeeDisplay.PrintersAgree | pkg/notify/address_privacy.go:36-72 | formatting the accounting text of a raw amount gives the fee printer's text of it, for every raw below 10^65 and scale up to 30 |
| FeeDisplay.FeePathsAgree | common/utils/web3_fee.go:21-62 | a raw fee and the same fee left as gas used times gas price print alike |
| FeeDisplay.RawFeeIsShown | common/utils/web3_fee.go:64-84 | a raw fee is shown with six decimals on TRON and eighteen elsewhere, with the unit of the chain where it is known |
| FeeDisplay.WordyFeesExactly | common/utils/web3_fee.go:28-45 | several words stay as they are; one word with a dot, or one that is no number from zero on, gets the unit |
| FeeDisplay.HexReads | common/utils/web3_fee.go:86-97 | a fee in hexadecimal is read as its number |
| FeeDisplay.FormatAmountExactly | pkg/notify/address_privacy.go:36-72 | a notification shows zero for a blank amount, unreadable text as it is, and every number in its shortest form |
| FeeDisplay.FormattingIsIdempotent | common/utils/web3_fee.go:21-62 | on a supported chain, formatting an already formatted fee changes nothing |
| FeeDisplay.UnsupportedChainReformats | common/utils/web3_fee.go:21-42 | without a known unit it does: one whole coin formatted twice shrinks to one raw unit |
| WithdrawFee.BuildWithdrawFee | common/withdrawcalc/withdraw_fee.go:128-228 | the loop over the rules: total, fixed and percent totals have the specified values, the parts are those of the charging rules, and the final clamp never fires |
| WithdrawFee.ChargeMatches | common/withdrawcalc/withdraw_fee.go:138-204 | one rule's computed charge has the specified real value, through sixteen-digit division and both clamps, and is never negative |
| WithdrawFee.ChargesExactly | common/withdrawcalc/withdraw_fee.go:137-157 | a rule charges iff the amount lies in the range its text gives, its value is read as a number from zero on, and its type reads fixed or percent |
| WithdrawFee.OthersChargeNothing | common/withdrawcalc/withdraw_fee.go:137-157 | any other rule adds nothing and leaves no part |
| WithdrawFee.FixedCharge | common/withdrawcalc/withdraw_fee.go:159-168 | a fixed rule charges its value whatever the amount, and its part says so |
| WithdrawFee.PercentCharge | common/withdrawcalc/withdraw_fee.go:169-204 | a percent rule charges the percentage, off by at most half of 10^-16, raised to the least fee and then lowered to the greatest as their texts give them, never below zero; its part shows the percentage, the bounds that applied and the charge |
| WithdrawFee.TotalsAreByType | common/withdrawcalc/withdraw_fee.go:158-194 | the two totals are those of the rules whose type reads fixed and percent |
| WithdrawFee.FeeSplitsByKind | common/withdrawcalc/withdraw_fee.go:158-194 | total = fixed total + percent total, each non-negative, over every rule list |
| WithdrawFee.PartsAddUp | common/withdrawcalc/withdraw_fee.go:160-203 | the fee is the sum of what the audit parts report, read back from their printed form |
| WithdrawFee.FeeConcat | common/withdrawcalc/withdraw_fee.go:137-205 | the fee is additive over concatenation of rule lists |
| WithdrawFee.FeeReorder | common/withdrawcalc/withdraw_fee.go:137-205 | the fee is unchanged by any reordering of the rules |
| WithdrawFee.FeeMonotone | common/withdrawcalc/withdraw_fee.go:169-194 | while the same rules apply, a larger amount never pays a smaller fee, through rounding and clamps |
| WithdrawFee.ClampOrder | common/withdrawcalc/withdraw_fee.go:173-191 | the maximum binds unless it is negative, the minimum binds up to the maximum, and where the minimum exceeds the maximum the maximum wins |
| WithdrawFee.ExactlyOneTier | common/withdrawcalc/withdraw_fee.go:138-150 | ranges laid end to end put every amount in exactly one rule's range |
| WithdrawFee.TieredFee | common/withdrawcalc/withdraw_fee.go:138-205 | so the fee is that rule's charge alone |
| WithdrawFee.GrossAcceptedExactly | common/withdrawcalc/withdraw_fee.go:243-292 | accepted exactly when fee >= 0, amount > 0, minimum > 0 and amount - fee >= minimum |
| WithdrawFee.GrossErrorsExactly | common/withdrawcalc/withdraw_fee.go:243-292 | which error is given, by value: the first condition that fails |
| WithdrawOrders.CutExactly | common/withdrawcalc/withdraw_fee.go:15-18 | cutting a number from zero on keeps exactly its whole millionths |
| WithdrawOrders.SplitIsExact | services/business/rpc/internal/logic/withdraw_payout_worker.go:547-569 | for every accepted order, net and fee as the worker reads, splits, cuts and prints them lose nothing |
| WithdrawOrders.OrderConserves | services/business/rpc/internal/logic/withdraw_payout_worker.go:547-569 | at six to thirty digits the texts of an accepted order all parse exactly; frozen = net + fee in smallest units, unfreezing returns the frozen amount, net >= minimum > 0 |
| WithdrawOrders.UnfreezeParsesExactly | services/business/rpc/internal/logic/withdraw_payout_worker.go:826-829 | the unfreezing text of a frozen order parses exactly at six digits of precision or more |
| WithdrawOrders.UnfreezeCanFail | services/business/rpc/internal/logic/withdraw_payout_worker.go:826-829 | such an order: precision two, one and a half coins |
| WithdrawOrders.TextParsesExactly | pkg/accounting/amount.go:22-70 | a printed number parses at a precision exactly when its written decimals fit, which is when its value is a whole number of units, and then as that number |
| WithdrawOrders.SettleParsesExactly | services/business/rpc/internal/logic/withdraw_payout_worker.go:547-569 | at every precision, a frozen order's settlement parses iff the precision holds the fee's written decimals, and then takes exactly what was frozen |
| WithdrawOrders.UnfreezeReturnsFrozen | services/business/rpc/internal/logic/withdraw_payout_worker.go:826-829 | from six digits on the worker's unfreezing returns exactly what was frozen |
| WithdrawOrders.NeitherSettledNorUnfrozen | services/business/rpc/internal/logic/withdraw_payout_worker.go:547-569 | an accepted order that freezes and then neither settles nor unfreezes: precision two, 1.5 with a fee of 0.025 |
| WithdrawOrders.CompletionLeavesDust | services/admin/rpc/internal/logic/updateCurrencyWithdrawalLogic.go:417-446 | completing by hand parses iff the net is at least one unit, and leaves one unit locked iff the fee has more written decimals than the precision |
| WithdrawOrders.CancelReturnsFrozen | services/admin/rpc/internal/logic/cancelCurrencyWithdrawalLogic.go:91-108 | cancelling or rejecting returns exactly what was frozen at every precision |
| WithdrawOrders.RollbackExactly | services/admin/rpc/internal/logic/createCurrencyWithdrawalLogic.go:361-369 | the rollback's text returns what was frozen iff it has no exponent mark, decimals within the precision and nothing beyond the sixth; with more digits that parse it asks for more |
| WithdrawFlow.CarriesExactly | services/accounting/rpc/internal/logic/settleWithdrawLogic.go:55-83 | a call sends postings iff its texts are read as numbers, for a settlement with a sum below 10^65 |
| WithdrawFlow.OrderCallsExactly | services/business/rpc/internal/logic/createWithdrawLogic.go:166-180 | for every accepted order, at every precision: which calls carry which numbers after freezing, for worker, cancellation and completion by hand |
| WithdrawFlow.StageAdmitted | services/accounting/rpc/internal/logic/settleWithdrawLogic.go:70-114 | the raw postings of each call are admitted as the postings of the numbers it carries |
| WithdrawFlow.StageChecked | services/accounting/rpc/internal/engine/engine.go:178-248 | the engine's checks pass for every call that carries numbers |
| WithdrawFlow.PostExactly | services/accounting/rpc/internal/engine/engine.go:284-349 | a checked request under a fresh key is posted iff its netted rows fit, and then moves every row by its net |
| WithdrawFlow.StageExactly | services/accounting/rpc/internal/logic/freezeWithdrawLogic.go:52-75 | a call under a fresh key is posted exactly when its rows have funds and room, and then moves frozen, net and fee amounts exactly and touches no other balance |
| AssetMoves.TransfersExactly | services/accounting/rpc/internal/logic/transferLogic.go:58-83 | an asset freeze, asset unfreeze or transfer sends postings iff it goes somewhere and its amount, cut or exact, is read as a number of units |
| AssetMoves.AmountsAreRead | services/accounting/rpc/internal/logic/transferLogic.go:70-83 | only a transfer on historical data cuts its amount; every other call reads it exactly |
| AssetMoves.AssetExactly | services/accounting/rpc/internal/logic/transferLogic.go:106-114 | under a fresh key it is posted iff the source has the amount and the target has room, and then moves exactly that |
| AssetMoves.ShownBalanceReads | services/accounting/rpc/internal/logic/getUserBalancesLogic.go:87-99 | a shown balance sent back as an amount is refused below six digits, is the balance at six, and the balance rounded to millionths above |
| WithdrawRuns.FreezeThenUnfreeze | services/accounting/rpc/internal/logic/unfreezeWithdrawLogic.go:65-73 | unfreezing after freezing always succeeds and gives every balance back |
| WithdrawRuns.FreezeThenSettle | services/accounting/rpc/internal/logic/settleWithdrawLogic.go:80-121 | settling after freezing, exactly or by hand, takes the amount from the user, the net from the hot wallet and earns the fee; only what was cut off stays locked |
| WithdrawRuns.MoveRecords | services/accounting/rpc/internal/engine/engine.go:284-349 | a move posted anew uses its own key for the first time and no other; one not posted changes nothing |
| WithdrawRuns.LockedIsOpenAndHolds | services/accounting/rpc/internal/logic/freezeWithdrawLogic.go:67-75 | in every run of withdrawals on any chains, asset freezes and unfreezes, transfers and any other requests, the locked balance is exactly what the open orders froze plus what the other moves left there |
| WithdrawCover.MoveCoversExactly | services/accounting/rpc/internal/logic/unfreezeUserAssetsLogic.go:63-72 | a posted move of any kind leaves the open orders covered iff it takes at most what is spare |
| WithdrawCover.AlwaysCoveredExactly | services/accounting/rpc/internal/logic/unfreezeUserAssetsLogic.go:63-72 | over whole runs: the open orders are covered all along iff no posted move takes more than is held beside them |
| WithdrawCover.AssetMoveCoversExactly | services/accounting/rpc/internal/logic/transferLogic.go:106-114 | an asset unfreeze, or a transfer out of the locked row, leaves the open orders covered iff its amount is at most what is spare |
| WithdrawCover.CloseCoversExactly | services/business/rpc/internal/logic/withdraw_payout_worker.go:838-846 | settling or unfreezing keeps what is spare iff it closes an open order for what that order froze, and leaves the others covered iff the excess was spare |
| WithdrawCover.OpenOrdersCanClose | services/accounting/rpc/internal/logic/settleWithdrawLogic.go:108-121 | in every orderly run in which no move takes more than is held beside the orders, an open order unfreezes iff the available row has room, and settles iff the hot wallet has the net and the fee row has room |
| WithdrawCover.CoveredMeansClosable | services/accounting/rpc/internal/logic/unfreezeWithdrawLogic.go:65-73 | after every orderly run the open orders are covered iff all of them can be unfrozen one after another |
| WithdrawCover.UnfreezeUserTakes | services/admin/rpc/internal/logic/unfreezeUserLogic.go:154-176 | unfreezing a user works from six digits on, leaves at most half a millionth locked, and at six digits leaves the open orders covered iff there are none |
| WithdrawCover.UnfreezeUserStrands | services/admin/rpc/internal/logic/unfreezeUserLogic.go:154-176 | afterwards no order worth more than half a millionth can be settled or unfrozen |
| StrandedOrders.UnfrozenUserStrands | services/admin/rpc/internal/logic/unfreezeUserLogic.go:154-176 | a run from the empty ledger: deposit, freeze, unfreezing of the user; the order stays open and its settlement is not posted |
| StrandedOrders.UnfreezesWhatIsShown | services/admin/rpc/internal/logic/unfreezeUserLogic.go:162-170 | the amount in that run is the one unfreezing the user sends at that moment |
| StrandedOrders.TwiceClosedStrands | services/business/rpc/internal/logic/withdraw_payout_worker.go:838-846 | a run from the empty ledger: two freezes, one order settled and unfrozen; half a coin is locked where the other needs two, and its settlement is not posted |
| Sorting.SortedSorts | services/accounting/rpc/internal/engine/engine.go:269-281 | sorting by a strict order keeps the elements and puts them in order |
| Sorting.OrderIsUnique | services/accounting/rpc/internal/engine/engine.go:398-412 | only one arrangement is in order, so the sorted rows do not depend on the algorithm |
| Sorting.StringLessExactly | services/accounting/rpc/internal/engine/engine.go:398-412 | one string comes before another exactly when it is a proper prefix or has the smaller character where they first differ |
| Ledger.AdmitsExactly | services/accounting/rpc/internal/engine/engine.go:194-214 | a posting is admitted exactly when asset, account and bucket are named and its amounts are whole, below 10^65 and one-sided |
| Ledger.AdmittedIsOneSided | services/accounting/rpc/internal/engine/engine.go:201-212 | the admitted amounts are the exact values that were sent |
| Ledger.RowsAreOrdered | services/accounting/rpc/internal/engine/engine.go:398-412 | the row comparison is a strict total order |
| Ledger.SameIntentExactly | services/accounting/rpc/internal/engine/engine.go:375-419 | two requests hash the same content exactly when operation and reference agree and the postings are the same up to order |
| Ledger.Engine.Normalize | services/accounting/rpc/internal/engine/engine.go:194-215 | admits all postings or none |
| Ledger.Engine.CheckBalance | services/accounting/rpc/internal/engine/engine.go:217-228 | accepts exactly when debits equal credits for every asset |
| Ledger.Engine.Check | services/accounting/rpc/internal/engine/engine.go:178-248 | the checks before the transaction, in their order with their errors |
| Ledger.Engine.Net | services/accounting/rpc/internal/engine/engine.go:249-281 | the net movement of every touched row, by normal side, rows in ascending order |
| Ledger.Engine.Transact | services/accounting/rpc/internal/engine/engine.go:284-349 | updating rows in place with rollback has the effect of the one-step transaction |
| Ledger.Engine.PostTx | services/accounting/rpc/internal/engine/engine.go:174-354 | the whole call against its specification |
| LedgerAnswers.AdmitSays | services/accounting/rpc/internal/engine/engine.go:194-214 | a posting is admitted as another exactly when that one has its asset in capitals, its account, its bucket in any case, and its two amounts by value |
| LedgerAnswers.PostedExactly | services/accounting/rpc/internal/engine/engine.go:174-354 | under a fresh key and id a request is posted iff key and operation are given, key, operation and reference are within 128, 64 and 128 bytes, the postings are some, well formed and balanced, every account exists, has a normal side and supports its asset, and every netted row stays in range |
| LedgerAnswers.RefusalsExactly | services/accounting/rpc/internal/engine/engine.go:181-276 | the error of every condition before the transaction: an unknown account is not found, everything else is an invalid request |
| LedgerAnswers.ConflictsExactly | services/accounting/rpc/internal/engine/engine.go:298-327 | after them: a known key answers duplicate or conflict, then a known id is refused, then the first row in ascending order that cannot be moved gives its error |
| LedgerAnswers.RunsAreServed | services/accounting/rpc/internal/engine/engine.go:235-247 | after every run, every recorded posting and every balance row is on an account that supports the asset, and every recorded name is within its length |
| LedgerSafety.LockedRows | services/accounting/rpc/internal/engine/engine.go:269-281 | every touched row is updated once, in ascending order |
| LedgerSafety.LockedRowsAscend | services/accounting/rpc/internal/engine/engine.go:269-281 | by account, then asset, then the available bucket before the locked one |
| LedgerSafety.FinalAt | services/accounting/rpc/internal/engine/engine.go:249-267 | netting per row equals applying the postings one after another |
| LedgerSafety.ApplyAllIs | services/accounting/rpc/internal/engine/engine.go:319-327 | the row updates succeed exactly when every netted row fits, and move exactly those rows |
| LedgerSafety.CommitExactly | services/accounting/rpc/internal/engine/engine.go:284-349 | a new transaction is posted exactly when every netted row stays in 0 to below 10^65; otherwise nothing changes |
| LedgerSafety.RunsAreSound | services/accounting/rpc/internal/engine/engine.go:174-354 | after every run, balances are the projection of the recorded postings, in range, with each key and id used once and every transaction balanced |
| LedgerSafety.OnlyNewPostingsChange | services/accounting/rpc/internal/engine/engine.go:284-353 | a refused or repeated request leaves no trace |
| LedgerSafety.BooksBalance | services/accounting/rpc/internal/engine/engine.go:217-267 | after every run, for every asset, debit-normal balances sum to what credit-normal balances sum to |
| LedgerSafety.PostMoves | services/accounting/rpc/internal/engine/engine.go:249-349 | a call posted anew moves every row by what its checked postings net to and keeps the ledger sound; any other changes nothing |
| LedgerSafety.KnownKeyExactly | services/accounting/rpc/internal/engine/engine.go:298-311 | under a known key a request moves nothing: it returns the recorded id iff it is the same request up to posting order, and conflicts otherwise |
| LedgerSafety.RetryIsHarmless | services/accounting/rpc/internal/engine/engine.go:298-311 | once posted, a request sent again after any other traffic returns its transaction and changes nothing |
| LedgerSafety.OrderDoesNotMatter | services/accounting/rpc/internal/engine/engine.go:249-327 | whether a transaction is posted, and the balances it leaves, do not depend on the order of its postings |
| Snowflake.AssembleIsSum | common/utils/snowflake.go:98-100 | the fields do not overlap, so the or is a sum modulo the word, whatever the clock reads |
| Snowflake.PackUnpack | common/utils/snowflake.go:20-28 | within 41 bits of milliseconds an ID is a 63-bit number that gives the three fields back |
| Snowflake.UnpackPack | common/utils/snowflake.go:20-28 | every 63-bit number is the ID of exactly the fields it unpacks to |
| Snowflake.SameIdExactly | common/utils/snowflake.go:98-100 | IDs coincide exactly when machine and sequence agree and milliseconds agree modulo 2^42 |
| Snowflake.Generator.constructor | common/utils/snowflake.go:58-67 | a fresh generator of a machine ID in range |
| Snowflake.Generator.NextID | common/utils/snowflake.go:70-103 | one call: the clock-regress error, the wrapping sequence, the wait for a later millisecond, the assembled ID |
| Snowflake.EpochIs2021 | common/utils/snowflake.go:21-21 | time counts from the beginning of 2021 |
| Snowflake.ReadingsFixTheCall | common/utils/snowflake.go:74-96 | after any run a call's answer follows from its clock readings and the IDs issued: an error when the clock is behind; the millisecond read, numbered by the machine's IDs in it; a wait for a later millisecond exactly when these are 4096 |
| Snowflake.SequenceIsCount | common/utils/snowflake.go:81-93 | in every run an ID's sequence is the number of earlier IDs of its machine in its millisecond, with the first number of millisecond 0 counted as used |
| Snowflake.StepAdvances | common/utils/snowflake.go:74-95 | every issued stamp comes after the one before, in time or in sequence |
| Snowflake.IdsAreUnique | common/utils/snowflake.go:58-103 | in every run of generators with distinct machine IDs, in any order and with any clocks within one span of 2^42 ms, no ID is issued twice |
| Snowflake.IdsIncrease | common/utils/snowflake.go:70-103 | IDs of one machine strictly increase within 41 bits |
| Snowflake.SpanIsNeeded | common/utils/snowflake.go:98-100 | 2^42 ms apart, one machine repeats an ID |
| Snowflake.SharedMachineCollides | common/utils/snowflake.go:36-36 | two generators with one machine ID issue the same ID in the same millisecond |
| Snowflake.AtMost4096PerMillisecond | common/utils/snowflake.go:81-93 | at most 4096 IDs of one machine carry one millisecond, in every run |
| Snowflake.FirstInitDecides | common/utils/snowflake.go:45-55 | the first call of Init decides for good |
| Snowflake.InitSuccessMeansInitialized | common/utils/snowflake.go:45-55 | a successful Init leaves a generator exactly when the very first call had a valid machine ID |
| Passwords.ValidatePasswordStrength | common/security/password.go:44-76 | too short, too simple or strong, each exactly characterised by byte length and the four classes |
| Passwords.AsciiClassesExactly | common/security/password.go:57-70 | the four classes of ASCII: letters by having another case, digits by having a value, the other visible characters |
| Passwords.ShuffleKeeps | common/security/password.go:133-141 | every run of the shuffle keeps the multiset |
| Passwords.ShuffleInjective | common/security/password.go:133-141 | different draws give different arrangements of distinct elements |
| Passwords.ShuffleReaches | common/security/password.go:133-141 | every arrangement is reached by some draws |
| Passwords.ShuffleIsBijection | common/security/password.go:133-141 | draw vectors and arrangements correspond one to one |
| Passwords.GenerateSecurePassword | common/security/password.go:79-144 | class picks, fill and in-place shuffle yield the shuffled picks of the draws, or nothing if a draw fails |
| Passwords.GeneratedIsStrong | common/security/password.go:79-144 | every generated password has length max(n, 12) and passes the strength check at it, whatever the draws |
| Passwords.CharsExactly | common/security/password.go:82-86 | each position is drawn from exactly its characters, each once: one class for each of the first four, any legible character after that |
| Passwords.GeneratedIsLegible | common/security/password.go:79-144 | generated passwords hold no capital I or O, no small l, no 0 or 1, and no sign beyond the eight |
| Passwords.PasswordsExactly | common/security/password.go:79-144 | the passwords that can come out are exactly all those of length max(n, 12) that hold legible characters only and one at least of each class |
| RateLimiter.Limiter.Allow | common/middleware/redis_ratelimit.go:41-64 | the script's commands one after another, on the set and its expiry |
| RateLimiter.KeyLivesExactly | common/middleware/redis_ratelimit.go:57-73 | after an admitted request the key lives for exactly twice the window |
| RateLimiter.Limiter.GetStats | common/middleware/redis_ratelimit.go:145-154 | prunes and counts |
| RateLimiter.Limiter.CleanupExpired | common/middleware/redis_ratelimit.go:157-167 | prunes |
| RateLimiter.PruneIsWindow | common/middleware/redis_ratelimit.go:49-53 | after pruning, the members are exactly the admitted milliseconds in the window |
| RateLimiter.RefinesHistory | common/middleware/redis_ratelimit.go:33-83 | with clocks that advance and agree, the pruned, expiring set admits exactly the requests that the full history admits; statistics, clean-ups and expiry change no decision |
| RateLimiter.AdmittedMillisecondsBound | common/middleware/redis_ratelimit.go:52-57 | every window, wherever it ends, holds at most `rate` admitted milliseconds |
| RateLimiter.RequestBound | common/middleware/redis_ratelimit.go:52-57 | at most `rate` admitted requests when their milliseconds are distinct |
| RateLimiter.SameMillisecondPasses | common/middleware/redis_ratelimit.go:56-57 | from a rate of two on, any number of requests in one millisecond pass |
| RateLimiter.RequestBoundExactly | common/middleware/redis_ratelimit.go:52-57 | the bound on requests holds of every run iff the rate is at most one |
| RateLimiter.SizeNeverExceedsRate | common/middleware/redis_ratelimit.go:52-63 | under any clocks the set never exceeds the rate |
| RateLimiter.SubSecondWindowNeverLimits | common/middleware/redis_ratelimit.go:72-74 | a window below a second expires its key at once, so every request passes |
| LeaseLock.KeysMeetExactly | common/cache/redis_cache.go:28-33 | within one cache an entry lands on a lock exactly when it is named after it, and two locks meet iff their names agree |
| LeaseLock.PrefixesCanMeet | common/cache/redis_cache.go:28-33 | two caches with different prefixes can share a lock |
| LeaseLock.Server.Lock | common/cache/redis_cache.go:267-285 | takes the key iff it is free and the duration is not negative |
| LeaseLock.LeaseLastsExactly | common/cache/redis_cache.go:271-277 | a successful Lock makes the key live and the caller its holder for exactly the duration asked for, without end for zero |
| LeaseLock.NextLockExactly | common/cache/redis_cache.go:267-285 | over runs: with no unlock of the key, the next Lock succeeds iff the lease was finite and has ended |
| LeaseLock.Server.Unlock | common/cache/redis_cache.go:280-282 | deletes the key whoever holds it |
| LeaseLock.LockSucceedsIffFree | common/cache/redis_cache.go:271-277 | while guarded, locking succeeds iff nobody holds the key |
| LeaseLock.TimelyIsSynced | common/cache/redis_cache.go:267-285 | in runs whose unlocks are guarded, a key is on the server iff somebody holds it, and then one does |
| LeaseLock.MutualExclusion | common/cache/redis_cache.go:265-285 | in every run where holders unlock before their lease ends, at most one holds a key at any time |
| LeaseLock.SafeExactlyWhenTimely | common/cache/redis_cache.go:280-282 | a run stays exclusive for every newcomer iff each unlock finds its own lease running or the key gone |
| LeaseLock.StaleUnlockWitness | common/cache/redis_cache.go:280-282 | a run with one late unlock and two holders |
| LeaseLock.KeysDoNotInterfere | common/cache/redis_cache.go:267-285 | a lock fares as if the other keys' events had never happened |
| LeaseLock.Server.LockWithRetry | common/cache/redis_cache.go:290-303 | at most maxRetries + 1 attempts with pauses between them; it succeeds iff the last attempt did, all earlier ones failed, and the joint run is a run of the lock |
| AlertAccumulator.WindowsTile | common/alert/accumulator.go:32-35 | every instant lies in its own window and in no other |
| AlertAccumulator.ZeroTimeIsYearOne | common/alert/accumulator.go:34-34 | windows are counted from the beginning of year 1 |
| AlertAccumulator.BucketKeysExactly | common/alert/accumulator.go:36-36 | buckets coincide iff configuration and start do |
| AlertAccumulator.Accumulator.Add | common/alert/accumulator.go:26-58 | the three commands and the totals reported |
| AlertAccumulator.Accumulator.GetTotal | common/alert/accumulator.go:61-87 | what is read, nothing without a total |
| AlertAccumulator.PromptIsBeforeExpiry | common/alert/accumulator.go:43-44 | a command up to five minutes late still precedes its bucket's expiry |
| AlertAccumulator.InterleavingIsExact | common/alert/accumulator.go:38-44 | under every interleaving of pipelined commands, with window lengths that may change but no add that can arrive after another's expiry, each bucket holds the exact sum and count of what was executed |
| AlertAccumulator.AlwaysExactly | common/alert/accumulator.go:38-44 | for every list of adds and every delay up to five minutes: all interleavings are exact iff no add can arrive after the expiry of another one to its bucket |
| AlertAccumulator.TotalsAreExact | common/alert/accumulator.go:26-87 | once the pipelines have run, GetTotal reports exactly the adds whose clock fell into the window |
| AlertAccumulator.CountNeverAhead | common/alert/accumulator.go:41-42 | the count may lag behind the amounts, never run ahead |
| AlertAccumulator.LengthsExactly | services/admin/rpc/internal/logic/updateAlertConfigLogic.go:85-85 | for every set of window lengths: all adds with these lengths are summed and counted exactly in every run iff no two lengths differ by more than 300 seconds less the delay |
| AlertAccumulator.ReadsExactly | common/alert/accumulator.go:61-87 | under the same condition, and only then, every read with one of these lengths finds the exact sum and count |
| AlertAccumulator.ShortenedWindowLosesSum | common/alert/accumulator.go:34-44 | a run in which an hour's sum is lost |
| RequestMetadata.FieldsAreApart | common/interceptor/metadata.go:15-50 | sixteen headers and sixteen context keys, all distinct |
| RequestMetadata.ExtractMetadataFromContext | common/interceptor/metadata.go:78-156 | filling the map field by field yields one header for every field with something to send |
| RequestMetadata.InjectMetadataToContext | common/interceptor/metadata.go:184-264 | deriving the context field by field overrides exactly the bound fields |
| RequestMetadata.InjectKeepsOthers | common/interceptor/metadata.go:184-264 | no other context key is touched |
| RequestMetadata.SentByName | common/interceptor/metadata.go:78-156 | which context key is sent under which of the sixteen headers, as it is, trimmed or in decimal |
| RequestMetadata.ParseInt64Exactly | common/interceptor/metadata.go:251-262 | integers are those of 64 bits in decimal |
| RequestMetadata.BoundByName | common/interceptor/metadata.go:184-264 | which header is bound to which context key, and when a key is left alone |
| RequestMetadata.TextRoundTrip | common/interceptor/metadata.go:78-264 | reading a text field after extract and inject gives the value read before, over any receiving context |
| RequestMetadata.NumberRoundTrip | common/interceptor/metadata.go:148-153 | a positive int64 survives printing and parsing; others leave the receiver's value |
| RequestMetadata.ServiceReadsTheSame | common/middleware/metadata.go:147-269 | from a blank context every reader answers as at the caller, integers as max(0, n) |
| RequestMetadata.SecondHop | common/interceptor/metadata.go:78-264 | a second hop sends what the first sent, over what its own context adds |
| RequestMetadata.StableExactly | common/interceptor/metadata.go:78-264 | metadata survives a service iff it is clean: known headers, one value, trimmed method and path, canonical positive integers |
| RequestMetadata.EnterAt | common/middleware/metadata.go:58-116 | the gateway binds every non-empty header, and the client address always |
| RequestMetadata.AddressExactly | common/middleware/metadata.go:120-144 | the client's address: the first forwarded one, else the real one, else the peer's without its port |
| RequestMetadata.LocaleExactly | common/middleware/metadata.go:97-104 | the language: X-Lang unless it is blank, else Accept-Language, trimmed |
| RequestMetadata.HeadersReachService | common/middleware/metadata.go:58-144 | from HTTP header through gateway, wire and service, each reader sees the header as sent |
| SqlSanitizer.SanitizeLines | scripts/sanitize-initdb-sql.py:115-171 | the loop with its flag and early continues, against its specification |
| SanitizerText.RecordsOfExactly | scripts/sanitize-initdb-sql.py:82-82 | a line is a header for a table exactly when it is the fixed words, that word without blanks, and then blanks at most |
| SanitizerText.OpensExactly | scripts/sanitize-initdb-sql.py:124-129 | and a block is opened by exactly those lines |
| SanitizerText.InsertTableExactly | scripts/sanitize-initdb-sql.py:81-81 | a line inserts into a table exactly when it is the keyword in any case, blanks, the name in back quotes, blanks and a bracket |
| SanitizerText.FirstCodeAtExactly | scripts/sanitize-initdb-sql.py:85-95 | a list starts with a code exactly when it is VALUES, a bracket and the code in quotes, with blanks between |
| SanitizerText.SecondCodeAtExactly | scripts/sanitize-initdb-sql.py:97-107 | the same for a code in second place, after one value and a comma |
| SanitizerText.CodesExactly | scripts/sanitize-initdb-sql.py:85-107 | the filters take the leftmost such list |
| SanitizerText.RowGoes | scripts/sanitize-initdb-sql.py:139-159 | after any header a row of any table that is on the drop list or off the allowlist goes, whatever its values, and the header stays |
| SanitizerText.SecretTablesGo | scripts/sanitize-initdb-sql.py:60-68 | the tables of secrets and of accounts are such tables |
| SanitizerText.RowStaysInBlock | scripts/sanitize-initdb-sql.py:148-169 | a row of an allowlisted table without a filter stays |
| SanitizerText.AccountTypeRow | scripts/sanitize-initdb-sql.py:85-95 | an account type's row stays iff its code is one of the six |
| SanitizerText.TypeAssetRow | scripts/sanitize-initdb-sql.py:97-107 | a row of the types' assets stays iff its second value is one of the six |
| SanitizerText.CommitEnds | scripts/sanitize-initdb-sql.py:131-136 | COMMIT ends the block: the same row goes before it and stays after it |
| SqlSanitizer.StateIsBlock | scripts/sanitize-initdb-sql.py:118-136 | the flag is set iff a header stands before with no COMMIT in between |
| SqlSanitizer.KeepsExactly | scripts/sanitize-initdb-sql.py:115-171 | kept, in order and only re-ended, are exactly the lines that are not an unwanted INSERT inside a block |
| SqlSanitizer.Idempotent | scripts/sanitize-initdb-sql.py:115-171 | sanitizing again changes nothing, and blocks open and close as before |
| SqlSanitizer.UnchangedExactly | scripts/sanitize-initdb-sql.py:115-171 | unchanged are exactly the documents with one newline per line and no unwanted INSERT in a block |
| SqlSanitizer.NothingUnwantedLeft | scripts/sanitize-initdb-sql.py:152-163 | no block of the result holds an unwanted INSERT |
| SqlSanitizer.SecretsAreGone | scripts/sanitize-initdb-sql.py:26-68 | every INSERT left in a block is for an allowlisted table, never a secret or account table |
| SqlSanitizer.AllGoneExactly | scripts/sanitize-initdb-sql.py:115-171 | the result holds no unwanted INSERT anywhere iff every unwanted INSERT of the input stands in a block |
| SqlSanitizer.SecretsAreNeverWritten | scripts/sanitize-initdb-sql.py:183-199 | no line that `main` writes inserts into a table of secrets |
| SqlSanitizer.StrayRows | scripts/sanitize-initdb-sql.py:183-199 | one row of a table to be dropped, with no header before it: kept by the pass, refused by `main` for the two tables of secrets and written for the administrators' |
| ExternalSecrets.ParseExternalSecrets | scripts/audit-secrets-manager-required.py:91-144 | the loop with its pending key and property, against its specification |
| ExternalSecrets.StripQuotesExactly | scripts/audit-secrets-manager-required.py:58-62 | one pair of equal quotes is taken off with the blanks around it; anything else stays |
| ExternalSecrets.KeyLineExactly | scripts/audit-secrets-manager-required.py:98-98 | a key line, however indented, gives its key bare or out of its quotes |
| ExternalSecrets.ItemLineExactly | scripts/audit-secrets-manager-required.py:100-100 | a dash, the keyword and a name begin an item; a keyword alone says nothing |
| ExternalSecrets.PropertyLineExactly | scripts/audit-secrets-manager-required.py:99-99 | a property line gives its word |
| ExternalSecrets.OtherLinesExactly | scripts/audit-secrets-manager-required.py:140-141 | three dashes separate; text that begins like none of the keywords says nothing |
| ExternalSecrets.ReferenceIsRequired | scripts/audit-secrets-manager-required.py:91-144 | a manifest of one reference, as text: its property is required, or the whole secret when none is named |
| ExternalSecrets.MergeRequired | scripts/audit-secrets-manager-required.py:147-153 | merging in place, key by key, joins both requirements |
| ExternalSecrets.MergeIsJoin | scripts/audit-secrets-manager-required.py:147-153 | merging is commutative, associative and idempotent with the empty one as unit |
| ExternalSecrets.ParseCollects | scripts/audit-secrets-manager-required.py:102-144 | the machine collects exactly the references of the key lines, each read off its own block |
| ExternalSecrets.RequiredExactly | scripts/audit-secrets-manager-required.py:106-116 | a property is required iff some key line's block ends with it, the whole secret iff some block has none |
| ExternalSecrets.JoinedDocuments | scripts/audit-secrets-manager-required.py:118-144 | a document appended at an item, key or separator requires what both require alone |
| ExternalSecrets.SeparatorMerges | scripts/audit-secrets-manager-required.py:140-144 | parsing two documents joined by a separator line is merging the parses |
| ExternalSecrets.PropertyBeforeKeyIsLost | scripts/audit-secrets-manager-required.py:134-138 | a property before its key is not seen, and the whole secret is required instead |

## Left out

- Decimals whose exponent leaves 32 bits during arithmetic (the library stops the program there); reading and printing do check the range.
- Text that is not valid UTF-8; strings are sequences of characters, and byte lengths are those of their UTF-8 form.
- Case folding beyond ASCII, except for the few letters that fold onto ASCII ones.
- The JSON snapshot and the rule summary of the fee calculator: formatting only.
- `formatAmountFromRawInt` for negative amounts, which its callers rule out, and absent big integers.
- SHA-256 and JSON of the request hash: two requests count as the same when the hashed content is the same.
- The database below the ledger: a transaction is one step, arithmetic on balance rows is exact, idempotency keys compare exactly, soft-deleted rows and connection errors do not occur.
- Account types whose normal side an administrator changes while they hold balances: the chart of accounts is fixed.
- Creating accounts, assets and balance rows ahead of time (`EnsureUserAccountingSetup`, `EnsureSystemAccounts`): rows appear when first touched, as in `PostTx` itself.
- Deposits, funding and adjustments as separate templates: in `WithdrawRuns` they are other requests, of which nothing is assumed, and in `LedgerSafety` any balanced request. The order states of internal transfers; their freezing, unfreezing and transferring calls are `AssetMoves`.
- The order states, approvals and payout tasks of a withdrawal, and retries of failed remote calls.
- WithdrawRuns.LockedIsOpenAndHolds: tracks the orders of one user in one asset; the calls of other users and assets are other requests, in any number and order.
- WithdrawCover.OpenOrdersCanClose: in orderly runs, where orders are frozen before they are closed and no other request uses up the idempotency key of one of the user's orders; an order whose closing key is used up could not be closed.
- A restarted ID generator, which forgets its last millisecond.
- RateLimiter.RefinesHistory: whole-millisecond windows of at least a second, as the constructor sets; what smaller ones do is `RateLimiter.SubSecondWindowNeverLimits`.
- Network failures between a client and Redis, and the limiter's letting requests pass on them.
- LeaseLock.MutualExclusion: lease ends are judged by the server's clock; a holder's own clock is not modelled, nor are durations that are not whole milliseconds.
- Floating point in the accumulator: amounts are exact reals. Its transaction details and cooldowns.
- AlertAccumulator.TotalsAreExact: windows are positive, as configured; both reads of GetTotal are one step.
- gRPC's own encoding of header values, and the client interceptor's keeping of an earlier outgoing context when there is nothing to send.
- bcrypt, token parsing and the source of random numbers.
- The sanitizer's last safety search over the joined output, and file handling in both scripts.
- `parse_secretproviderclass_required`, the calls to AWS and the audit's report.
- Network clients, notifications, configuration, repositories, the admin front end and generated code.
