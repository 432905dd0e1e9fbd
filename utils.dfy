/** The integer helpers of internal/calculator/utils.go: the validator-set comparison table, the
    activation churn limit and `max`. */
module Utils {
  import opened Uint64
  import opened Arith
  import opened Config
  import opened Types
  import opened Rewards
  import opened Penalties

  /** The package's uint64 `max`. */
  function Max(a: u64, b: u64): (r: u64)
    ensures r >= a && r >= b
    ensures r == a || r == b
  {
    if a > b then a else b
  }

  // ---------------------------------------------------------------------------------------------
  // Activation churn

  /** The churn-limit part of EstimateValidatorQueue: n / 65536 clamped to [4, 8], where n is the
      Go `int` validator count converted to uint64 (a negative count wraps to a huge one). */
  function ChurnLimit(currentValidators: i64): (r: u64)
    ensures MIN_PER_EPOCH_CHURN_LIMIT <= r <= MAX_PER_EPOCH_ACTIVATION_CHURN_LIMIT
  {
    var churnLimit := Max(MIN_PER_EPOCH_CHURN_LIMIT, Div(Wrap(currentValidators), CHURN_LIMIT_QUOTIENT));
    Min(churnLimit, MAX_PER_EPOCH_ACTIVATION_CHURN_LIMIT)
  }

  /** The floor of 4 holds below 5 · 65536 validators and the cap of 8 from 8 · 65536 on; a
      negative count, wrapped to a value near 2^64, gets the cap. */
  lemma ChurnLimitBands(n: i64)
    ensures 0 <= n < 5 * CHURN_LIMIT_QUOTIENT ==> ChurnLimit(n) == MIN_PER_EPOCH_CHURN_LIMIT
    ensures n >= 8 * CHURN_LIMIT_QUOTIENT ==> ChurnLimit(n) == MAX_PER_EPOCH_ACTIVATION_CHURN_LIMIT
    ensures n < 0 ==> ChurnLimit(n) == MAX_PER_EPOCH_ACTIVATION_CHURN_LIMIT
  {
    if 0 <= n < 5 * CHURN_LIMIT_QUOTIENT {
      DivMonotone(n, 5 * CHURN_LIMIT_QUOTIENT - 1, CHURN_LIMIT_QUOTIENT);
    } else if n >= 8 * CHURN_LIMIT_QUOTIENT {
      DivMonotone(8 * CHURN_LIMIT_QUOTIENT, n, CHURN_LIMIT_QUOTIENT);
    } else if n < 0 {
      DivMonotone(8 * CHURN_LIMIT_QUOTIENT, n + TWO_64, CHURN_LIMIT_QUOTIENT);
    }
  }

  /** More active validators never shrink the churn limit. */
  lemma ChurnLimitMonotone(n1: i64, n2: i64)
    requires 0 <= n1 <= n2
    ensures ChurnLimit(n1) <= ChurnLimit(n2)
  {
    DivMonotone(n1, n2, CHURN_LIMIT_QUOTIENT);
  }

  // ---------------------------------------------------------------------------------------------
  // Validator-set comparison

  /** The state the comparison builds for `count` validators: all at the maximum effective
      balance, total count · MAX in uint64, epoch 1000 finalized at 998, no fork name. */
  function FullBalanceState(count: i64): (s: NetworkState)
    requires count >= 0
    ensures |s.validators| == count
    ensures forall k :: 0 <= k < |s.validators| ==> s.validators[k].effectiveBalance == MAX_EFFECTIVE_BALANCE
    ensures count * MAX_EFFECTIVE_BALANCE < TWO_64 ==> s.totalActiveBalance == count * MAX_EFFECTIVE_BALANCE
  {
    NetworkState(
      validators := seq(count, _ => Validator(MAX_EFFECTIVE_BALANCE, false, 0)),
      totalActiveBalance := Mul(Wrap(count), MAX_EFFECTIVE_BALANCE),
      currentEpoch := 1000,
      finalizedEpoch := 998,
      justifiedEpoch := 0,
      currentFork := "")
  }

  /** The counts the comparison can run on: a positive count (the base reward reads validator 0)
      whose total stake does not wrap to zero (the base reward divides by its root). */
  predicate ComparableCount(count: i64)
  {
    count > 0 && Mul(Wrap(count), MAX_EFFECTIVE_BALANCE) > 0
  }

  /** The row the comparison reports for a count: the count, the staked total in whole ETH and
      the base reward of a full-balance validator. */
  function ComparisonRow(count: i64): (row: ComparisonResult)
    requires count > 0 && Mul(Wrap(count), MAX_EFFECTIVE_BALANCE) > 0
    ensures row.validatorCount == count
    ensures row.baseReward == CalculateRewards(FullBalanceState(count)).baseRewardPerEpoch
  {
    var state := FullBalanceState(count);
    ComparisonResult(count, Div(state.totalActiveBalance, EFFECTIVE_BALANCE_INCREMENT),
                     GetBaseReward(state, 0))
  }

  /** ValidatorSetComparison, integer fields: one row per requested count, in order, each built
      from a fresh state whose validator slice is filled in a loop. */
  method ValidatorSetComparison(validatorCounts: seq<i64>) returns (results: seq<ComparisonResult>)
    requires forall i :: 0 <= i < |validatorCounts| ==>
      validatorCounts[i] > 0 && Mul(Wrap(validatorCounts[i]), MAX_EFFECTIVE_BALANCE) > 0
    ensures |results| == |validatorCounts|
    ensures forall i :: 0 <= i < |results| ==> results[i] == ComparisonRow(validatorCounts[i])
  {
    var rows := new ComparisonResult[|validatorCounts|];
    for i := 0 to |validatorCounts|
      invariant forall k :: 0 <= k < i ==> rows[k] == ComparisonRow(validatorCounts[k])
    {
      var count := validatorCounts[i];
      var validators := new Validator[count];
      for j := 0 to count
        modifies validators
        invariant forall k :: 0 <= k < j ==> validators[k] == Validator(MAX_EFFECTIVE_BALANCE, false, 0)
      {
        validators[j] := Validator(MAX_EFFECTIVE_BALANCE, false, 0);
      }
      var state := NetworkState(validators[..], Mul(Wrap(count), MAX_EFFECTIVE_BALANCE), 1000, 998, 0, "");
      assert state == FullBalanceState(count);
      var rewards := CalculateRewards(state);
      rows[i] := ComparisonResult(count, Div(state.totalActiveBalance, EFFECTIVE_BALANCE_INCREMENT),
                                  rewards.baseRewardPerEpoch);
    }
    results := rows[..];
  }

  /** While the total does not wrap, a row's stake is 32 ETH per validator. */
  lemma ComparisonStakeIs32PerValidator(count: i64)
    requires count > 0 && count * MAX_EFFECTIVE_BALANCE < TWO_64
    ensures ComparableCount(count)
    ensures ComparisonRow(count).totalStaked == 32 * count
  {
    DivUnique(count * MAX_EFFECTIVE_BALANCE, EFFECTIVE_BALANCE_INCREMENT, 32 * count);
  }

  /** A larger validator set pays each validator a base reward no larger (while the total does not
      wrap). */
  lemma ComparisonBaseRewardFalls(c1: i64, c2: i64)
    requires 0 < c1 <= c2 && c2 * MAX_EFFECTIVE_BALANCE < TWO_64
    ensures ComparableCount(c1) && ComparableCount(c2)
    ensures GetBaseReward(FullBalanceState(c2), 0) <= GetBaseReward(FullBalanceState(c1), 0)
  {
    MulLeft(c1, c2, MAX_EFFECTIVE_BALANCE);
    assert c1 * MAX_EFFECTIVE_BALANCE == MAX_EFFECTIVE_BALANCE * c1;
    assert c2 * MAX_EFFECTIVE_BALANCE == MAX_EFFECTIVE_BALANCE * c2;
    GetBaseRewardMonotone(FullBalanceState(c2), 0, FullBalanceState(c1), 0);
  }

  /** 4096 full validators stake 131072 ETH; ⌊√(131072 · 10^9)⌋ = 11448668, so each earns a base
      reward of 44721 Gwei per epoch, split 9782 / 18167 / 9782. */
  lemma ComparisonOf4096Validators()
    ensures ComparableCount(4096)
    ensures ComparisonRow(4096) == ComparisonResult(4096, 131072, 44721)
    ensures GetBaseReward(FullBalanceState(4096), 0) == 44721
    ensures CalculateRewards(FullBalanceState(4096)).sourceReward == 9782
    ensures CalculateRewards(FullBalanceState(4096)).targetReward == 18167
    ensures CalculateRewards(FullBalanceState(4096)).attestationRewardPerEpoch == 9782 + 18167 + 9782
  {
    var state := FullBalanceState(4096);
    assert state.totalActiveBalance == 131072000000000;
    FloorSqrtUnique(131072000000000, 11448668);
    assert SqrtBalance(state.totalActiveBalance) == 11448668;
  }
}
