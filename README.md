# Time-deposit records: rows, early-unlock fine and action gate

A model of the arithmetic behind the "locked records" table of the staking
account page (`src/components/account/LockedRecords.tsx`). Each time deposit
of the stash account (an amount of RING locked from a start time to an expiry
time, both in milliseconds) becomes a table row holding its position, its
amount, the KTON reward for the whole thirty-day months it was committed for,
and a status, LOCKING or EXPIRED. A locking row offers "unlock earlier": the
page computes a fine of three times the reward forfeited so far and disables
confirmation when the stash's KTON balance is below it. An expired row offers
"release" of the mature deposits.

Everything is in one module, `LockedRecords` (`locked_records.dfy`), written as
datatypes, functions and lemmas, since the page computes all of this with
expressions and a `map` over the deposits.

- The wall clock is a parameter. `builtAt` is the time the rows are built;
  `now` is the time the "unlock earlier" button is clicked.
- The imported helpers `ringToKton`, `fromWei` and `toWei` are arbitrary
  functions carried in a `Utils` value. A lemma that needs a property of them
  (a monotone reward schedule, an exact wei/display round trip) states it as a
  hypothesis.
- `THIRTY_DAYS_IN_MILLISECOND` is defined in a configuration file that is not
  part of this model. Its value is taken from its name: 2 592 000 000.
- Big-number division (`BN.div`, used for the committed months) truncates
  toward zero and is modelled as `BnDiv`. `Math.floor` of the quotient (used
  for the elapsed months) is Dafny's `/`, which is floor division for a
  positive divisor. The lemma `CommittedAgreesWithElapsed` says exactly when
  the two agree.

Two behaviours of the code are worth stating plainly:

- A deposit whose expiry precedes its start is not rejected: it gets a
  committed month count truncated toward zero. The fine has no clamp: it is
  negative whenever the reward for the elapsed months exceeds the committed
  reward.
- A row's status is fixed when the rows are built from the deposits; the
  clock is read again only when the fine is computed.
  `StaleLockingRowGetsNegativeFine` shows the consequence: when the reward
  schedule pays strictly more for more months for that deposit's amount, and
  the wei/display conversion round-trips exactly, a row still marked locking,
  clicked a month or more after its expiry, offers the early unlock with a
  negative fine.

## Model

| member | source | states |
|---|---|---|
| `LockedRecords.BnDiv` | src/components/account/LockedRecords.tsx:81-86 | big-number division truncates toward zero: for a non-negative numerator the quotient is the floor, for a negative one the ceiling |
| `LockedRecords.CommittedMonths` | src/components/account/LockedRecords.tsx:38 | the committed months are the whole thirty-day months in expiry minus start: non-negative and exact when expiry is not before start, non-positive and rounded toward zero otherwise |
| `LockedRecords.ElapsedMonths` | src/components/account/LockedRecords.tsx:41 | the elapsed months are the floor of (now minus start) over thirty days, negative before the start |
| `LockedRecords.CommittedAgreesWithElapsed` | src/components/account/LockedRecords.tsx:38-41 | the truncating and the flooring month counts of the same interval agree if and only if expiry is not before start or the reversed length is a whole number of months |
| `LockedRecords.ElapsedNotAfterCommitted` | src/components/account/LockedRecords.tsx:38-41 | while start <= now <= expiry, 0 <= elapsed months <= committed months |
| `LockedRecords.Status` | src/components/account/LockedRecords.tsx:96 | a deposit is EXPIRED exactly when its expiry is strictly before the current time, LOCKING otherwise (so LOCKING at expiry itself) |
| `LockedRecords.MakeRow` | src/components/account/LockedRecords.tsx:78-97 | the row for one deposit carries the given index, the deposit's amount, start and expiry unchanged, the reward for the committed months, and is EXPIRED exactly when expiry < build time |
| `LockedRecords.BuildRows` | src/components/account/LockedRecords.tsx:77-98 | one row per deposit in the same order; row i has index i, the deposit's amount, start and expiry unchanged, the reward for the committed months, and is EXPIRED exactly when expiry < build time |
| `LockedRecords.BuildRowsAppend` | src/components/account/LockedRecords.tsx:78-98 | appending a deposit appends its row with the next index and leaves every earlier row unchanged |
| `LockedRecords.FineDependsOnlyOnDeposit` | src/components/account/LockedRecords.tsx:32-46 | the fine is determined by amount, start, expiry and click time alone; index, stored reward and status do not affect it |
| `LockedRecords.FineWei` | src/components/account/LockedRecords.tsx:32-45 | the fine in wei is three times (reward for the committed months minus reward for the months elapsed by the click time), with no clamp, and zero whenever the two month counts are equal |
| `LockedRecords.CalcFine` | src/components/account/LockedRecords.tsx:45 | the displayed fine converts back to exactly the fine in wei whenever the wei/display conversion round-trips |
| `LockedRecords.RowRewardIsFineOrigin` | src/components/account/LockedRecords.tsx:38-91 | the fine of a built row equals three times (the row's stored reward minus the reward for the elapsed months): the fine's committed reward is the row's reward |
| `LockedRecords.FineNonNegativeDuringLock` | src/components/account/LockedRecords.tsx:41-45 | if the schedule never pays less for more months for this amount, the fine is non-negative whenever start <= now <= expiry |
| `LockedRecords.FineZeroInFinalMonth` | src/components/account/LockedRecords.tsx:38-45 | from the last whole-month boundary up to and including expiry the fine is zero, whatever the schedule |
| `LockedRecords.FineNegativeOnceElapsedExceedsCommitted` | src/components/account/LockedRecords.tsx:38-45 | for a deposit not reversed, if the schedule pays strictly more for more months for this amount, the fine is negative whenever the elapsed months exceed the committed ones (there is no clamp) |
| `LockedRecords.FineNegativeAMonthAfterExpiry` | src/components/account/LockedRecords.tsx:38-45 | if the schedule pays strictly more for more months for this amount, the fine is negative once the click time is a month or more past expiry |
| `LockedRecords.ZeroDepositHasNoFine` | src/components/account/LockedRecords.tsx:40-45 | a zero amount has zero fine when the schedule pays nothing for zero |
| `LockedRecords.ThreeMonthLockAfterOneMonth` | src/components/account/LockedRecords.tsx:38-45 | a three-month deposit one month in is LOCKING, its reward is that for three months, and its fine is three times (reward for three months minus reward for one) |
| `LockedRecords.FindKton` | src/components/account/LockedRecords.tsx:168 | the lookup finds nothing exactly when no entry is KTON, and otherwise returns the first KTON entry |
| `LockedRecords.KtonMax` | src/components/account/LockedRecords.tsx:167-168 | the KTON balance is the `max` of the first KTON entry, zero when that `max` is absent or empty, and zero when there is no KTON entry |
| `LockedRecords.IsInsufficient` | src/components/account/LockedRecords.tsx:167-169 | the balance is insufficient exactly when the first KTON entry's `max` (zero if absent or empty) is below the fine converted back to wei; with no KTON entry, exactly when that converted fine is positive |
| `LockedRecords.ActionFor` | src/components/account/LockedRecords.tsx:163-216 | a LOCKING row (and only such a row) offers the early unlock, keyed by its expiry, showing the fine, with confirmation disabled exactly when the KTON balance is below the fine converted back to wei; an EXPIRED row releases the mature deposits |
| `LockedRecords.GateComparesBalanceWithFine` | src/components/account/LockedRecords.tsx:166-193 | if the display conversion round-trips exactly, confirmation is disabled exactly when the KTON balance is below the fine in wei |
| `LockedRecords.NoKtonBlocksPositiveFine` | src/components/account/LockedRecords.tsx:167-193 | without a KTON entry a positive fine always disables confirmation |
| `LockedRecords.StaleLockingRowGetsNegativeFine` | src/components/account/LockedRecords.tsx:76-169 | a row built while its deposit was locking and clicked a month or more after expiry still offers the early unlock, with a negative fine, whenever the schedule pays strictly more for more months for that deposit's amount |

## Left out

- React state and hooks, the table, modal, progress bar and button rendering, and the "No." column showing index + 1: presentation.
- Building and submitting transactions (`queueExtrinsic`, the success callback refreshing staking data): chain I/O through an external library. The model only says which transaction each action would submit.
- The bodies of `ringToKton`, `fromWei` and `toWei` are defined in files that are not part of this model: they are parameters typed over integers (`ringToKton` returns an integer; `fromWei` stands for the page's `BigNumber(...).toString()` followed by `fromWei`, so the round-trip hypotheses concern that composition), with no other assumed properties. `processTime` and `prettyNumber` are used only by presentation code and do not appear.
- Date formatting and the progress percentage: presentation.
- Reading the wall clock: `builtAt` and `now` are parameters.
- `BN.toNumber()` throwing on values of more than 53 bits, and the floating-point division inside `Math.floor`: for month counts and millisecond timestamps of realistic size both are exact, so the model uses unbounded integers.
- Parsing a balance entry's decimal `max` string into a number: entries carry the number itself, or `None` when `max` is absent or empty (the `|| '0'` fallback).
