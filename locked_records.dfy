/**
 * The time-deposit ("lock") arithmetic of the staking account page: the
 * table rows built from the stash account's time deposits, the early-unlock
 * fine, and the action each row offers.
 *
 * The wall clock is a parameter: `builtAt` is the time at which the rows are
 * built, `now` the time at which the user asks for the fine. The helpers the
 * page imports (`ringToKton`, `fromWei`, `toWei`) are arbitrary functions
 * passed in a `Utils` value; nothing is assumed of them unless a lemma says
 * so in its `requires`.
 */
module LockedRecords {

  datatype Option<T> = None | Some(value: T)

  /** Milliseconds in thirty days: one reward "month". */
  const THIRTY_DAYS_IN_MILLISECOND: int := 30 * 24 * 60 * 60 * 1000

  /** The early-unlock fine is this many times the forfeited reward. */
  const FINE_TIMES: int := 3

  /** The imported helpers, left uninterpreted. Amounts are in the smallest unit (wei). */
  datatype Utils = Utils(
    ringToKton: (nat, int) -> int,   // KTON reward for a RING amount locked for a number of months
    fromWei: int -> string,          // wei amount to its decimal display string
    toWei: string -> int             // decimal string back to wei
  )

  /** One time deposit as the chain reports it. */
  datatype TimeDepositItem = TimeDepositItem(value: nat, startTime: nat, expireTime: nat)

  datatype LockStatus = Locking | Expired

  datatype Duration = Duration(startTime: nat, expireTime: nat)

  /** One row of the records table. */
  datatype DataSourceState = DataSourceState(
    index: nat,
    value: nat,
    reward: int,
    duration: Duration,
    status: LockStatus
  )

  datatype DarwiniaAsset = Ring | Kton

  /** A balance entry of the stash account; `max` is None when it is absent or empty. */
  datatype AssetBalance = AssetBalance(asset: DarwiniaAsset, max: Option<int>)

  /** The transactions the page can submit. */
  datatype Extrinsic = TryClaimDepositsWithPunish(expireTime: nat) | ClaimMatureDeposits

  /**
   * What clicking a row's action button does: either a confirmation dialog
   * for the early unlock (showing the fine, with its OK button possibly
   * disabled, and submitting `onOk`), or the immediate release of mature deposits.
   */
  datatype Action =
    | UnlockEarlier(penalty: string, okDisabled: bool, onOk: Extrinsic)
    | Release(submit: Extrinsic)

  // ---------------------------------------------------------------------
  // Month counts

  lemma NegMul(p: int, d: int)
    ensures (-p) * d == -(p * d)
  {
  }

  /** Big-number division: the quotient is truncated toward zero. */
  function BnDiv(a: int, d: int): (q: int)
    requires d > 0
    ensures a >= 0 ==> 0 <= q && q * d <= a < q * d + d
    ensures a < 0 ==> q <= 0 && q * d - d < a <= q * d
  {
    if a >= 0 then a / d
    else
      var p := (-a) / d;
      NegMul(p, d);
      -p
  }

  /** Whole thirty-day months between start and expiry, by big-number division. */
  function CommittedMonths(startTime: nat, expireTime: nat): (month: int)
    ensures expireTime >= startTime ==>
              0 <= month
              && month * THIRTY_DAYS_IN_MILLISECOND <= expireTime - startTime
              < (month + 1) * THIRTY_DAYS_IN_MILLISECOND
    ensures expireTime < startTime ==>
              month <= 0
              && (month - 1) * THIRTY_DAYS_IN_MILLISECOND < expireTime - startTime
              <= month * THIRTY_DAYS_IN_MILLISECOND
  {
    BnDiv(expireTime - startTime, THIRTY_DAYS_IN_MILLISECOND)
  }

  /** Whole thirty-day months from start to `now`, rounded down (also before the start). */
  function ElapsedMonths(startTime: nat, now: int): (month: int)
    ensures month * THIRTY_DAYS_IN_MILLISECOND <= now - startTime
            < (month + 1) * THIRTY_DAYS_IN_MILLISECOND
  {
    (now - startTime) / THIRTY_DAYS_IN_MILLISECOND
  }

  /**
   * The two ways of counting months agree exactly when the lock is not
   * reversed or its reversed length is a whole number of months.
   */
  lemma CommittedAgreesWithElapsed(startTime: nat, expireTime: nat)
    ensures CommittedMonths(startTime, expireTime) == ElapsedMonths(startTime, expireTime)
            <==> expireTime >= startTime || (startTime - expireTime) % THIRTY_DAYS_IN_MILLISECOND == 0
  {
  }

  /** While start <= now <= expiry, the elapsed months never exceed the committed ones. */
  lemma ElapsedNotAfterCommitted(startTime: nat, expireTime: nat, now: int)
    requires startTime <= now <= expireTime
    ensures 0 <= ElapsedMonths(startTime, now) <= CommittedMonths(startTime, expireTime)
  {
  }

  // ---------------------------------------------------------------------
  // Rows

  /** A deposit is expired once its expiry lies strictly before the current time. */
  function Status(expireTime: nat, now: int): (status: LockStatus)
    ensures status == Expired <==> expireTime < now
    ensures status == Locking <==> now <= expireTime
  {
    if expireTime < now then Expired else Locking
  }

  /** The row for the deposit at position `index`, built at time `builtAt`. */
  function MakeRow(lock: TimeDepositItem, index: nat, utils: Utils, builtAt: int): (row: DataSourceState)
    ensures row.index == index && row.value == lock.value
    ensures row.duration.startTime == lock.startTime && row.duration.expireTime == lock.expireTime
    ensures row.reward == utils.ringToKton(lock.value, CommittedMonths(lock.startTime, lock.expireTime))
    ensures row.status == Expired <==> lock.expireTime < builtAt
  {
    var month := CommittedMonths(lock.startTime, lock.expireTime);
    DataSourceState(
      index,
      lock.value,
      utils.ringToKton(lock.value, month),
      Duration(lock.startTime, lock.expireTime),
      Status(lock.expireTime, builtAt))
  }

  /** The records table: one row per deposit, in the deposits' order. */
  function BuildRows(locks: seq<TimeDepositItem>, utils: Utils, builtAt: int): (rows: seq<DataSourceState>)
    ensures |rows| == |locks|
    ensures forall i :: 0 <= i < |rows| ==>
              && rows[i].index == i
              && rows[i].value == locks[i].value
              && rows[i].duration.startTime == locks[i].startTime
              && rows[i].duration.expireTime == locks[i].expireTime
              && rows[i].reward == utils.ringToKton(locks[i].value, CommittedMonths(locks[i].startTime, locks[i].expireTime))
              && (rows[i].status == Expired <==> locks[i].expireTime < builtAt)
  {
    seq(|locks|, i requires 0 <= i < |locks| => MakeRow(locks[i], i, utils, builtAt))
  }

  /** Adding a deposit at the end adds its row at the end and leaves the other rows as they were. */
  lemma BuildRowsAppend(locks: seq<TimeDepositItem>, lock: TimeDepositItem, utils: Utils, builtAt: int)
    ensures BuildRows(locks + [lock], utils, builtAt)
            == BuildRows(locks, utils, builtAt) + [MakeRow(lock, |locks|, utils, builtAt)]
  {
  }

  // ---------------------------------------------------------------------
  // The early-unlock fine

  /**
   * The fine in wei: three times the reward promised for the committed
   * months minus the reward for the months elapsed by `now`. There is no
   * clamp: it is negative when the elapsed reward is the larger.
   */
  function FineWei(record: DataSourceState, utils: Utils, now: int): (fine: int)
    ensures var startTime := record.duration.startTime;
            var committed := CommittedMonths(startTime, record.duration.expireTime);
            var elapsed := ElapsedMonths(startTime, now);
            && fine == FINE_TIMES * (utils.ringToKton(record.value, committed) - utils.ringToKton(record.value, elapsed))
            && (elapsed == committed ==> fine == 0)
  {
    var startTime := record.duration.startTime;
    var month := CommittedMonths(startTime, record.duration.expireTime);
    var rewardOrigin := utils.ringToKton(record.value, month);
    var rewardMonth := ElapsedMonths(startTime, now);
    var rewardActual := utils.ringToKton(record.value, rewardMonth);
    (rewardOrigin - rewardActual) * FINE_TIMES
  }

  /** The fine as the page displays it. */
  function CalcFine(record: DataSourceState, utils: Utils, now: int): (penalty: string)
    ensures (forall wei: int :: utils.toWei(utils.fromWei(wei)) == wei) ==> utils.toWei(penalty) == FineWei(record, utils, now)
  {
    utils.fromWei(FineWei(record, utils, now))
  }

  /** For this amount, the reward schedule never pays less for more (non-negative) months. */
  ghost predicate MonotoneInMonths(ringToKton: (nat, int) -> int, value: nat)
  {
    forall m1: int, m2: int :: 0 <= m1 <= m2 ==> ringToKton(value, m1) <= ringToKton(value, m2)
  }

  /** For this amount, the reward schedule pays strictly more for more (non-negative) months. */
  ghost predicate StrictlyIncreasingInMonths(ringToKton: (nat, int) -> int, value: nat)
  {
    forall m1: int, m2: int :: 0 <= m1 < m2 ==> ringToKton(value, m1) < ringToKton(value, m2)
  }

  /** The fine depends on the amount, the start, the expiry and `now` only (not on index, reward or status). */
  lemma FineDependsOnlyOnDeposit(r1: DataSourceState, r2: DataSourceState, utils: Utils, now: int)
    requires r1.value == r2.value && r1.duration == r2.duration
    ensures FineWei(r1, utils, now) == FineWei(r2, utils, now)
  {
  }

  /** The reward stored in a row is the committed reward the fine recomputes. */
  lemma RowRewardIsFineOrigin(locks: seq<TimeDepositItem>, utils: Utils, builtAt: int, now: int, i: nat)
    requires i < |locks|
    ensures var row := BuildRows(locks, utils, builtAt)[i];
            FineWei(row, utils, now)
            == FINE_TIMES * (row.reward - utils.ringToKton(locks[i].value, ElapsedMonths(locks[i].startTime, now)))
  {
  }

  /** With a monotone schedule, the fine during the lock period is never negative. */
  lemma FineNonNegativeDuringLock(record: DataSourceState, utils: Utils, now: int)
    requires MonotoneInMonths(utils.ringToKton, record.value)
    requires record.duration.startTime <= now <= record.duration.expireTime
    ensures FineWei(record, utils, now) >= 0
  {
  }

  /** In the last, partial month before expiry (expiry itself included) the fine is zero. */
  lemma FineZeroInFinalMonth(record: DataSourceState, utils: Utils, now: int)
    requires record.duration.startTime <= record.duration.expireTime
    requires record.duration.startTime
             + CommittedMonths(record.duration.startTime, record.duration.expireTime) * THIRTY_DAYS_IN_MILLISECOND
             <= now <= record.duration.expireTime
    ensures FineWei(record, utils, now) == 0
  {
  }

  /** Once more months have elapsed than were committed, a strictly increasing schedule makes the fine negative. */
  lemma FineNegativeOnceElapsedExceedsCommitted(record: DataSourceState, utils: Utils, now: int)
    requires StrictlyIncreasingInMonths(utils.ringToKton, record.value)
    requires record.duration.startTime <= record.duration.expireTime
    ensures ElapsedMonths(record.duration.startTime, now)
            > CommittedMonths(record.duration.startTime, record.duration.expireTime)
            ==> FineWei(record, utils, now) < 0
  {
  }

  /** A full month past expiry, a strictly increasing schedule makes the fine negative. */
  lemma FineNegativeAMonthAfterExpiry(record: DataSourceState, utils: Utils, now: int)
    requires StrictlyIncreasingInMonths(utils.ringToKton, record.value)
    requires record.duration.startTime <= record.duration.expireTime
    requires now >= record.duration.expireTime + THIRTY_DAYS_IN_MILLISECOND
    ensures FineWei(record, utils, now) < 0
  {
  }

  /** A zero deposit has no fine when the schedule pays nothing for a zero amount. */
  lemma ZeroDepositHasNoFine(record: DataSourceState, utils: Utils, now: int)
    requires forall m: int :: utils.ringToKton(0, m) == 0
    requires record.value == 0
    ensures FineWei(record, utils, now) == 0
  {
  }

  /** Three committed months, one elapsed: the fine is three times the difference of the two rewards. */
  lemma ThreeMonthLockAfterOneMonth(utils: Utils)
    ensures var row := MakeRow(TimeDepositItem(1000, 0, 3 * THIRTY_DAYS_IN_MILLISECOND), 0, utils, THIRTY_DAYS_IN_MILLISECOND);
            && row.status == Locking
            && row.reward == utils.ringToKton(1000, 3)
            && FineWei(row, utils, THIRTY_DAYS_IN_MILLISECOND)
               == 3 * (utils.ringToKton(1000, 3) - utils.ringToKton(1000, 1))
  {
  }

  // ---------------------------------------------------------------------
  // The action column

  /** The first balance entry of the KTON asset, as `Array.prototype.find` returns it. */
  function FindKton(assets: seq<AssetBalance>): (found: Option<AssetBalance>)
    ensures found.None? <==> forall i :: 0 <= i < |assets| ==> assets[i].asset != Kton
    ensures found.Some? ==>
              exists i :: 0 <= i < |assets| && assets[i] == found.value && assets[i].asset == Kton
                          && forall j :: 0 <= j < i ==> assets[j].asset != Kton
  {
    if |assets| == 0 then None
    else if assets[0].asset == Kton then Some(assets[0])
    else
      var rest := FindKton(assets[1..]);
      assert forall i :: 1 <= i < |assets| ==> assets[i] == assets[1..][i - 1];
      rest
  }

  /** The stash account's spendable KTON, or zero when it has no (or an empty) KTON entry. */
  function KtonMax(assets: seq<AssetBalance>): (max: int)
    ensures (forall i :: 0 <= i < |assets| ==> assets[i].asset != Kton) ==> max == 0
    ensures forall i :: 0 <= i < |assets| && assets[i].asset == Kton
                        && (forall j :: 0 <= j < i ==> assets[j].asset != Kton)
                        ==> max == (if assets[i].max.Some? then assets[i].max.value else 0)
  {
    match FindKton(assets)
    case Some(AssetBalance(_, Some(max))) => max
    case _ => 0
  }

  /** The stash cannot pay the displayed fine once converted back to wei. */
  function IsInsufficient(assets: seq<AssetBalance>, penalty: string, utils: Utils): (insufficient: bool)
    ensures (forall i :: 0 <= i < |assets| ==> assets[i].asset != Kton) ==> (insufficient <==> utils.toWei(penalty) > 0)
    ensures forall i :: 0 <= i < |assets| && assets[i].asset == Kton
                        && (forall j :: 0 <= j < i ==> assets[j].asset != Kton)
                        ==> (insufficient <==> (if assets[i].max.Some? then assets[i].max.value else 0) < utils.toWei(penalty))
  {
    KtonMax(assets) < utils.toWei(penalty)
  }

  /**
   * Clicking a row's button at time `now`: a locking row asks to confirm the
   * early unlock of the deposit with that expiry, showing the fine, and
   * disables confirmation when the KTON balance is short; an expired row
   * releases the mature deposits.
   */
  function ActionFor(record: DataSourceState, utils: Utils, assets: seq<AssetBalance>, now: int): (action: Action)
    ensures action.UnlockEarlier? <==> record.status == Locking
    ensures action.UnlockEarlier? ==>
              && action.onOk == TryClaimDepositsWithPunish(record.duration.expireTime)
              && action.penalty == utils.fromWei(FineWei(record, utils, now))
              && (action.okDisabled <==> KtonMax(assets) < utils.toWei(action.penalty))
    ensures action.Release? ==> action.submit == ClaimMatureDeposits
  {
    match record.status
    case Locking =>
      var penalty := CalcFine(record, utils, now);
      UnlockEarlier(penalty, IsInsufficient(assets, penalty, utils), TryClaimDepositsWithPunish(record.duration.expireTime))
    case Expired =>
      Release(ClaimMatureDeposits)
  }

  /** When the display conversion round-trips exactly, confirmation is disabled exactly when the balance is below the fine. */
  lemma GateComparesBalanceWithFine(record: DataSourceState, utils: Utils, assets: seq<AssetBalance>, now: int)
    requires forall wei: int :: utils.toWei(utils.fromWei(wei)) == wei
    requires record.status == Locking
    ensures ActionFor(record, utils, assets, now).okDisabled <==> KtonMax(assets) < FineWei(record, utils, now)
  {
  }

  /** Without any KTON entry, a positive fine always disables confirmation. */
  lemma NoKtonBlocksPositiveFine(record: DataSourceState, utils: Utils, assets: seq<AssetBalance>, now: int)
    requires forall wei: int :: utils.toWei(utils.fromWei(wei)) == wei
    requires record.status == Locking
    requires forall i :: 0 <= i < |assets| ==> assets[i].asset != Kton
    requires FineWei(record, utils, now) > 0
    ensures ActionFor(record, utils, assets, now).okDisabled
  {
  }

  /**
   * A row's status is fixed when the rows are built, but the fine is taken
   * when the button is clicked: a row still marked locking, clicked a month
   * or more after its expiry, offers the early unlock with a negative fine.
   */
  lemma StaleLockingRowGetsNegativeFine(
    locks: seq<TimeDepositItem>, utils: Utils, assets: seq<AssetBalance>, builtAt: int, now: int, i: nat)
    requires i < |locks|
    requires StrictlyIncreasingInMonths(utils.ringToKton, locks[i].value)
    requires forall wei: int :: utils.toWei(utils.fromWei(wei)) == wei
    requires locks[i].startTime <= locks[i].expireTime
    requires builtAt <= locks[i].expireTime
    requires now >= locks[i].expireTime + THIRTY_DAYS_IN_MILLISECOND
    ensures var action := ActionFor(BuildRows(locks, utils, builtAt)[i], utils, assets, now);
            action.UnlockEarlier? && utils.toWei(action.penalty) < 0
  {
    FineNegativeAMonthAfterExpiry(BuildRows(locks, utils, builtAt)[i], utils, now);
  }
}
