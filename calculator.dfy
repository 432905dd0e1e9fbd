/** The library-facing calculator of pkg/rewards/calculator.go: a base-reward factor and a total
    active balance, fixed at construction, and the per-validator rewards derived from them. */
module RewardCalculator {
  import opened Uint64
  import opened Arith
  import opened Config
  import opened Types
  import opened Rewards

  /** The package's fallback factor and total for zero arguments. Their values are not part of
      this model, so they are a parameter of the constructor. */
  datatype Defaults = Defaults(baseRewardFactor: u64, totalActiveBalance: u64)

  /** A Calculator never changes after NewCalculator builds it, so it is a value. */
  datatype Calculator = Calculator(baseRewardFactor: u64, totalActiveBalance: u64)
  {
    /** The effective balance clamped to MAX_EFFECTIVE_BALANCE, times the factor, over ⌊√total⌋,
        in uint64; there is no division by BASE_REWARDS_PER_EPOCH here. */
    function CalculateBaseReward(effectiveBalance: u64): (r: u64)
      requires totalActiveBalance > 0
      ensures effectiveBalance == 0 || baseRewardFactor == 0 ==> r == 0
    {
      var balance := if effectiveBalance > MAX_EFFECTIVE_BALANCE then MAX_EFFECTIVE_BALANCE else effectiveBalance;
      Div(Mul(balance, baseRewardFactor), SqrtBalance(totalActiveBalance))
    }

    /** The three timely-attestation shares of the base reward, each truncated, added in uint64. */
    function CalculateMaxAttestationReward(effectiveBalance: u64): (r: u64)
      requires totalActiveBalance > 0
      ensures var base := CalculateBaseReward(effectiveBalance);
        base * TIMELY_TARGET_WEIGHT < TWO_64 ==>
          base * 54 / WEIGHT_DENOMINATOR - 2 <= r <= base * 54 / WEIGHT_DENOMINATOR
      ensures r == FlaggedReward(CalculateBaseReward(effectiveBalance), true, true, true)
    {
      var baseReward := CalculateBaseReward(effectiveBalance);
      var sourceReward := WeightedReward(baseReward, TIMELY_SOURCE_WEIGHT);
      var targetReward := WeightedReward(baseReward, TIMELY_TARGET_WEIGHT);
      var headReward := WeightedReward(baseReward, TIMELY_HEAD_WEIGHT);
      AttestationSharesBound(baseReward);
      Add(Add(sourceReward, targetReward), headReward)
    }

    /** The 8/64 proposer share of the base reward. */
    function CalculateProposerReward(effectiveBalance: u64): (r: u64)
      requires totalActiveBalance > 0
      ensures effectiveBalance == 0 || baseRewardFactor == 0 ==> r == 0
    {
      WeightedReward(CalculateBaseReward(effectiveBalance), PROPOSER_WEIGHT)
    }

    /** The 2/64 sync-committee share of the base reward. */
    function CalculateSyncCommitteeReward(effectiveBalance: u64): (r: u64)
      requires totalActiveBalance > 0
      ensures effectiveBalance == 0 || baseRewardFactor == 0 ==> r == 0
    {
      WeightedReward(CalculateBaseReward(effectiveBalance), SYNC_REWARD_WEIGHT)
    }

    /** A year of perfect attestations plus the proposer reward for the expected number of blocks,
        in uint64. The source derives the block count from a floating-point probability; here it
        is a parameter. */
    function CalculateAnnualReward(effectiveBalance: u64, expectedBlocksPerYear: u64): (r: u64)
      requires totalActiveBalance > 0
      ensures var attestation := CalculateMaxAttestationReward(effectiveBalance) * EPOCHS_PER_YEAR;
        var proposer := CalculateProposerReward(effectiveBalance) * expectedBlocksPerYear;
        attestation + proposer < TWO_64 ==> r == attestation + proposer
      ensures expectedBlocksPerYear == 0 ==>
        r == Mul(CalculateMaxAttestationReward(effectiveBalance), EPOCHS_PER_YEAR)
    {
      var annualAttestationReward := Mul(CalculateMaxAttestationReward(effectiveBalance), EPOCHS_PER_YEAR);
      var annualProposerReward := Mul(CalculateProposerReward(effectiveBalance), expectedBlocksPerYear);
      AnnualSumFits(CalculateMaxAttestationReward(effectiveBalance), CalculateProposerReward(effectiveBalance),
                    expectedBlocksPerYear);
      Add(annualAttestationReward, annualProposerReward)
    }
  }

  /** When the exact annual sum fits, so do both of its products. */
  lemma AnnualSumFits(attestation: u64, proposer: u64, blocks: u64)
    ensures attestation * EPOCHS_PER_YEAR + proposer * blocks < TWO_64 ==>
      Mul(attestation, EPOCHS_PER_YEAR) == attestation * EPOCHS_PER_YEAR && Mul(proposer, blocks) == proposer * blocks
  {
  }

  /** NewCalculator: a zero factor or a zero total is replaced by the package default, any other
      argument is kept. */
  function NewCalculator(baseRewardFactor: u64, totalActiveBalance: u64, defaults: Defaults): (c: Calculator)
    ensures baseRewardFactor != 0 ==> c.baseRewardFactor == baseRewardFactor
    ensures baseRewardFactor == 0 ==> c.baseRewardFactor == defaults.baseRewardFactor
    ensures totalActiveBalance != 0 ==> c.totalActiveBalance == totalActiveBalance
    ensures totalActiveBalance == 0 ==> c.totalActiveBalance == defaults.totalActiveBalance
  {
    var factor := if baseRewardFactor == 0 then defaults.baseRewardFactor else baseRewardFactor;
    var total := if totalActiveBalance == 0 then defaults.totalActiveBalance else totalActiveBalance;
    Calculator(factor, total)
  }

  /** With positive defaults a constructed calculator can always take a square root of a positive
      total, and constructing it again from its own fields changes nothing. */
  lemma NewCalculatorNormalizes(baseRewardFactor: u64, totalActiveBalance: u64, defaults: Defaults)
    requires defaults.baseRewardFactor > 0 && defaults.totalActiveBalance > 0
    ensures var c := NewCalculator(baseRewardFactor, totalActiveBalance, defaults);
      c.baseRewardFactor > 0 && c.totalActiveBalance > 0
      && NewCalculator(c.baseRewardFactor, c.totalActiveBalance, defaults) == c
  {
  }

  /** Every balance at or above MAX_EFFECTIVE_BALANCE earns the base reward of MAX itself. */
  lemma BaseRewardClamps(c: Calculator, effectiveBalance: u64)
    requires c.totalActiveBalance > 0 && effectiveBalance >= MAX_EFFECTIVE_BALANCE
    ensures c.CalculateBaseReward(effectiveBalance) == c.CalculateBaseReward(MAX_EFFECTIVE_BALANCE)
  {
  }

  /** A larger effective balance never earns a smaller base reward, as long as MAX · factor fits. */
  lemma BaseRewardMonotone(c: Calculator, e1: u64, e2: u64)
    requires c.totalActiveBalance > 0 && e1 <= e2
    requires MAX_EFFECTIVE_BALANCE * c.baseRewardFactor < TWO_64
    ensures c.CalculateBaseReward(e1) <= c.CalculateBaseReward(e2)
  {
    var b1 := if e1 > MAX_EFFECTIVE_BALANCE then MAX_EFFECTIVE_BALANCE else e1;
    var b2 := if e2 > MAX_EFFECTIVE_BALANCE then MAX_EFFECTIVE_BALANCE else e2;
    MulLeft(b1, b2, c.baseRewardFactor);
    MulLeft(b2, MAX_EFFECTIVE_BALANCE, c.baseRewardFactor);
    assert b1 * c.baseRewardFactor == c.baseRewardFactor * b1;
    assert b2 * c.baseRewardFactor == c.baseRewardFactor * b2;
    assert MAX_EFFECTIVE_BALANCE * c.baseRewardFactor == c.baseRewardFactor * MAX_EFFECTIVE_BALANCE;
    DivMonotone(b1 * c.baseRewardFactor, b2 * c.baseRewardFactor, SqrtBalance(c.totalActiveBalance));
  }

  /** With factor 64 and the same total, the per-epoch base reward of GetBaseReward is this
      calculator's base reward divided by BASE_REWARDS_PER_EPOCH, for every balance up to MAX. */
  lemma LegacyBaseRewardIsQuarter(c: Calculator, state: NetworkState, validatorIndex: nat)
    requires validatorIndex < |state.validators| && state.totalActiveBalance > 0
    requires c.baseRewardFactor == BASE_REWARD_FACTOR && c.totalActiveBalance == state.totalActiveBalance
    requires state.validators[validatorIndex].effectiveBalance <= MAX_EFFECTIVE_BALANCE
    ensures GetBaseReward(state, validatorIndex)
            == c.CalculateBaseReward(state.validators[validatorIndex].effectiveBalance) / BASE_REWARDS_PER_EPOCH
  {
  }

  /** The sync share never exceeds the proposer share, which never exceeds the base reward, while
      base · 8 fits. */
  lemma SharesOrdered(c: Calculator, effectiveBalance: u64)
    requires c.totalActiveBalance > 0
    requires c.CalculateBaseReward(effectiveBalance) * PROPOSER_WEIGHT < TWO_64
    ensures c.CalculateSyncCommitteeReward(effectiveBalance) <= c.CalculateProposerReward(effectiveBalance)
              <= c.CalculateBaseReward(effectiveBalance)
  {
    var base := c.CalculateBaseReward(effectiveBalance);
    MulLeft(SYNC_REWARD_WEIGHT, PROPOSER_WEIGHT, base);
    assert base * SYNC_REWARD_WEIGHT == SYNC_REWARD_WEIGHT * base;
    assert base * PROPOSER_WEIGHT == PROPOSER_WEIGHT * base;
    DivMonotone(base * SYNC_REWARD_WEIGHT, base * PROPOSER_WEIGHT, WEIGHT_DENOMINATOR);
    MulDivLe(base, PROPOSER_WEIGHT, WEIGHT_DENOMINATOR);
  }

  /** More expected blocks never lower the annual reward, while the sum fits. */
  lemma AnnualRewardMonotoneInBlocks(c: Calculator, effectiveBalance: u64, b1: u64, b2: u64)
    requires c.totalActiveBalance > 0 && b1 <= b2
    requires c.CalculateMaxAttestationReward(effectiveBalance) * EPOCHS_PER_YEAR
             + c.CalculateProposerReward(effectiveBalance) * b2 < TWO_64
    ensures c.CalculateAnnualReward(effectiveBalance, b1) <= c.CalculateAnnualReward(effectiveBalance, b2)
  {
    MulLeft(b1, b2, c.CalculateProposerReward(effectiveBalance));
  }
}
