/** The legacy reward engine (internal/calculator/rewards.go): integer square root, base reward,
    the weighted attestation components, late-inclusion scaling, and the proposer, sync-committee
    and whistleblower rewards. */
module Rewards {
  import opened Uint64
  import opened Arith
  import opened Config
  import opened Types

  /** Counts r up from a known root while the next square (r + 1)^2, kept in `next`, still fits
      under n; the squares advance by odd steps, so the search needs no multiplication. */
  function RootSearch(n: nat, r: nat, next: nat): nat
    requires r < next
    decreases n - r
  {
    if n < next then r else RootSearch(n, r + 1, next + 2 * r + 3)
  }

  /** ⌊√n⌋, found by counting up from 0. */
  function FloorSqrt(n: nat): nat
  {
    RootSearch(n, 0, 1)
  }

  lemma {:induction false} RootSearchBounds(n: nat, r: nat, next: nat)
    requires r < next && next == (r + 1) * (r + 1) && r * r <= n
    ensures var s := RootSearch(n, r, next); s * s <= n < (s + 1) * (s + 1)
    decreases n - r
  {
    if next <= n {
      assert next + 2 * r + 3 == (r + 2) * (r + 2);
      RootSearchBounds(n, r + 1, next + 2 * r + 3);
    }
  }

  /** FloorSqrt is the floor of the square root. */
  lemma FloorSqrtBounds(n: nat)
    ensures FloorSqrt(n) * FloorSqrt(n) <= n < (FloorSqrt(n) + 1) * (FloorSqrt(n) + 1)
  {
    RootSearchBounds(n, 0, 1);
  }

  /** Only one number satisfies the floor-root inequalities. */
  lemma FloorSqrtUnique(n: nat, r: nat)
    requires r * r <= n < (r + 1) * (r + 1)
    ensures r == FloorSqrt(n)
  {
    var s := FloorSqrt(n);
    FloorSqrtBounds(n);
    if r < s {
      SquareMonotone(r + 1, s);
    } else if s < r {
      SquareMonotone(s + 1, r);
    }
  }

  lemma FloorSqrtMonotone(m: nat, n: nat)
    requires m <= n
    ensures FloorSqrt(m) <= FloorSqrt(n)
  {
    var a, b := FloorSqrt(m), FloorSqrt(n);
    FloorSqrtBounds(m);
    FloorSqrtBounds(n);
    if a > b {
      SquareMonotone(b + 1, a);
    }
  }

  /** The root of a uint64 is at most 2^32 - 1, and the root of a positive number is positive. */
  lemma FloorSqrtRange(n: nat)
    ensures n < TWO_64 ==> FloorSqrt(n) < TWO_32
    ensures n > 0 ==> FloorSqrt(n) > 0
  {
    FloorSqrtBounds(n);
    if FloorSqrt(n) >= TWO_32 {
      SquareMonotone(TWO_32, FloorSqrt(n));
    }
  }

  /** One Newton step from any x >= 1 lands at or above the floor root. */
  lemma NewtonStepStaysAbove(n: nat, x: nat)
    requires x >= 1
    ensures (x + n / x) / 2 >= FloorSqrt(n)
  {
    var q, s := n / x, FloorSqrt(n);
    assert n < x * (q + 1) by { DivBounds(n, x); }
    assert s * s <= n by { FloorSqrtBounds(n); }
    NewtonMean(n, x, q, s);
  }

  /** From above the root, a step that does not go down means x is the root. */
  lemma NewtonStopIsRoot(n: nat, x: nat)
    requires FloorSqrt(n) <= x && x >= 1
    requires (x + n / x) / 2 >= x
    ensures x == FloorSqrt(n)
  {
    var s, q := FloorSqrt(n), n / x;
    DivBounds(n, x);
    FloorSqrtBounds(n);
    if x > s {
      SquareMonotone(s + 1, x);
      if q >= x {
        MulLeft(x, q, x);
      }
    }
  }

  /** Between the root and 2^32, the Newton sum x + n/x fits in a uint64. */
  lemma NewtonSumFits(n: nat, x: nat)
    requires 0 < n < TWO_64
    requires FloorSqrt(n) <= x <= TWO_32
    ensures x > 0 && x + n / x < TWO_64
  {
    NewtonQuotientBound(n, x);
    FloorSqrtRange(n);
  }

  lemma NewtonQuotientBound(n: nat, x: nat)
    requires 0 < n && FloorSqrt(n) <= x
    ensures x > 0 && n / x <= FloorSqrt(n) + 2
  {
    assert FloorSqrt(n) > 0 by { FloorSqrtRange(n); }
    var q, s := n / x, FloorSqrt(n);
    assert n < (s + 1) * (s + 1) by { FloorSqrtBounds(n); }
    assert x * q <= n by { DivBounds(n, x); }
    QuotientNearRoot(n, x, q, s);
  }

  /** IntegerSquareRoot: Newton's iteration from a seed, stopping when the step stops going down.
      The source seeds it with the truncated floating-point square root; here the seed is any
      value between ⌊√n⌋ and 2^32. */
  method IntegerSquareRoot(n: u64, seed: u64) returns (r: u64)
    requires n > 0 ==> FloorSqrt(n) <= seed <= TWO_32
    ensures r * r <= n < (r + 1) * (r + 1)
    ensures r == FloorSqrt(n)
  {
    FloorSqrtBounds(n);
    if n == 0 {
      return 0;
    }
    FloorSqrtRange(n);
    var x := seed;
    while true
      invariant FloorSqrt(n) <= x <= TWO_32
      decreases x
    {
      NewtonSumFits(n, x);
      var x1 := (x + n / x) / 2;
      if x1 >= x {
        NewtonStopIsRoot(n, x);
        return x;
      }
      NewtonStepStaysAbove(n, x);
      x := x1;
    }
  }

  /** ⌊√T⌋ of a positive uint64, as a nonzero divisor. */
  function SqrtBalance(totalActiveBalance: u64): (r: u64)
    requires totalActiveBalance > 0
    ensures 0 < r < TWO_32
  {
    FloorSqrtRange(totalActiveBalance);
    FloorSqrt(totalActiveBalance)
  }

  /** GetBaseReward: eb * BASE_REWARD_FACTOR / isqrt(T) / BASE_REWARDS_PER_EPOCH in uint64, for
      an existing validator (the source indexes the slice) and a positive total (it divides by the
      root). Without wrap-around this is one truncating division by 4·⌊√T⌋. */
  function GetBaseReward(state: NetworkState, validatorIndex: nat): (r: u64)
    requires validatorIndex < |state.validators|
    requires state.totalActiveBalance > 0
    ensures state.validators[validatorIndex].effectiveBalance == 0 ==> r == 0
    ensures r <= Mul(state.validators[validatorIndex].effectiveBalance, BASE_REWARD_FACTOR) / BASE_REWARDS_PER_EPOCH
  {
    var scaled := Mul(state.validators[validatorIndex].effectiveBalance, BASE_REWARD_FACTOR);
    DivLeSelf(scaled, SqrtBalance(state.totalActiveBalance));
    DivMonotone(scaled / SqrtBalance(state.totalActiveBalance), scaled, BASE_REWARDS_PER_EPOCH);
    scaled / SqrtBalance(state.totalActiveBalance) / BASE_REWARDS_PER_EPOCH
  }

  /** Without wrap-around the two truncations are one: eb · 64 / (4 · ⌊√T⌋). */
  lemma GetBaseRewardFormula(state: NetworkState, validatorIndex: nat)
    requires validatorIndex < |state.validators| && state.totalActiveBalance > 0
    requires state.validators[validatorIndex].effectiveBalance * BASE_REWARD_FACTOR < TWO_64
    ensures FloorSqrt(state.totalActiveBalance) > 0
    ensures GetBaseReward(state, validatorIndex)
            == state.validators[validatorIndex].effectiveBalance * BASE_REWARD_FACTOR
               / (BASE_REWARDS_PER_EPOCH * FloorSqrt(state.totalActiveBalance))
  {
    FloorSqrtRange(state.totalActiveBalance);
    DivDiv(state.validators[validatorIndex].effectiveBalance * BASE_REWARD_FACTOR,
           SqrtBalance(state.totalActiveBalance), BASE_REWARDS_PER_EPOCH);
  }

  /** A larger effective balance against a smaller total never gets a smaller base reward. */
  lemma GetBaseRewardMonotone(s1: NetworkState, i1: nat, s2: NetworkState, i2: nat)
    requires i1 < |s1.validators| && i2 < |s2.validators|
    requires 0 < s2.totalActiveBalance <= s1.totalActiveBalance
    requires s1.validators[i1].effectiveBalance <= s2.validators[i2].effectiveBalance
    requires s2.validators[i2].effectiveBalance * BASE_REWARD_FACTOR < TWO_64
    ensures GetBaseReward(s1, i1) <= GetBaseReward(s2, i2)
  {
    var e1, e2 := s1.validators[i1].effectiveBalance, s2.validators[i2].effectiveBalance;
    FloorSqrtMonotone(s2.totalActiveBalance, s1.totalActiveBalance);
    MulLeft(e1, e2, BASE_REWARD_FACTOR);
    QuotientMonotone(Mul(e1, BASE_REWARD_FACTOR), Mul(e2, BASE_REWARD_FACTOR),
                     SqrtBalance(s1.totalActiveBalance), SqrtBalance(s2.totalActiveBalance),
                     BASE_REWARDS_PER_EPOCH);
  }

  /** GetBaseRewardPerIncrement: the base reward of a balance of exactly one increment. */
  function GetBaseRewardPerIncrement(state: NetworkState): (r: u64)
    requires state.totalActiveBalance > 0
    ensures forall i :: 0 <= i < |state.validators| ==>
      (state.validators[i].effectiveBalance == EFFECTIVE_BALANCE_INCREMENT ==> r == GetBaseReward(state, i))
  {
    Mul(EFFECTIVE_BALANCE_INCREMENT, BASE_REWARD_FACTOR) / SqrtBalance(state.totalActiveBalance)
      / BASE_REWARDS_PER_EPOCH
  }

  /** base * weight / WEIGHT_DENOMINATOR in uint64: one weighted share of a base reward. */
  function WeightedReward(base: u64, weight: u64): (r: u64)
    ensures r < TWO_64 / WEIGHT_DENOMINATOR
  {
    Mul(base, weight) / WEIGHT_DENOMINATOR
  }

  /** While base · 26 fits in uint64, the source, target and head shares of a base reward,
      truncated separately, never exceed the 54/64 share truncated once, and fall short of it by
      at most 2. */
  lemma AttestationSharesBound(base: u64)
    ensures var sum := WeightedReward(base, TIMELY_SOURCE_WEIGHT) + WeightedReward(base, TIMELY_TARGET_WEIGHT)
                       + WeightedReward(base, TIMELY_HEAD_WEIGHT);
      base * TIMELY_TARGET_WEIGHT < TWO_64 ==>
        base * 54 / WEIGHT_DENOMINATOR - 2 <= sum <= base * 54 / WEIGHT_DENOMINATOR
  {
    DivSumOfThree(base * TIMELY_SOURCE_WEIGHT, base * TIMELY_TARGET_WEIGHT, base * TIMELY_HEAD_WEIGHT,
                  WEIGHT_DENOMINATOR);
  }

  /** CalculateRewards, integer fields: the base reward of validator 0 and its three weighted
      components. */
  function CalculateRewards(state: NetworkState): (r: RewardResults)
    requires 0 < |state.validators| && 0 < state.totalActiveBalance
    ensures r.validatorCount == |state.validators| && r.totalStaked == state.totalActiveBalance
    ensures r.sqrtTotalBalance * r.sqrtTotalBalance <= state.totalActiveBalance
              < (r.sqrtTotalBalance + 1) * (r.sqrtTotalBalance + 1)
    ensures r.baseRewardPerEpoch == GetBaseReward(state, 0)
    ensures r.sourceReward == WeightedReward(r.baseRewardPerEpoch, TIMELY_SOURCE_WEIGHT)
    ensures r.targetReward == WeightedReward(r.baseRewardPerEpoch, TIMELY_TARGET_WEIGHT)
    ensures r.headReward == WeightedReward(r.baseRewardPerEpoch, TIMELY_HEAD_WEIGHT)
    ensures r.sourceReward == r.headReward
    ensures r.attestationRewardPerEpoch == r.sourceReward + r.targetReward + r.headReward
    ensures r.baseRewardPerEpoch * TIMELY_TARGET_WEIGHT < TWO_64 ==>
      r.baseRewardPerEpoch * 54 / WEIGHT_DENOMINATOR - 2 <= r.attestationRewardPerEpoch
        <= r.baseRewardPerEpoch * 54 / WEIGHT_DENOMINATOR
  {
    var baseReward := GetBaseReward(state, 0);
    var sourceReward := WeightedReward(baseReward, TIMELY_SOURCE_WEIGHT);
    var targetReward := WeightedReward(baseReward, TIMELY_TARGET_WEIGHT);
    var headReward := WeightedReward(baseReward, TIMELY_HEAD_WEIGHT);
    AttestationSharesBound(baseReward);
    FloorSqrtBounds(state.totalActiveBalance);
    RewardResults(
      validatorCount := |state.validators|,
      totalStaked := state.totalActiveBalance,
      sqrtTotalBalance := SqrtBalance(state.totalActiveBalance),
      baseRewardPerEpoch := baseReward,
      sourceReward := sourceReward,
      targetReward := targetReward,
      headReward := headReward,
      attestationRewardPerEpoch := Add(Add(sourceReward, targetReward), headReward))
  }

  /** The reward for the flagged components alone, before any late-inclusion scaling. */
  function FlaggedReward(base: u64, correctSource: bool, correctTarget: bool, correctHead: bool): (r: u64)
    ensures !correctSource && !correctTarget && !correctHead ==> r == 0
    ensures r == (if correctSource then WeightedReward(base, TIMELY_SOURCE_WEIGHT) else 0)
               + (if correctTarget then WeightedReward(base, TIMELY_TARGET_WEIGHT) else 0)
               + (if correctHead then WeightedReward(base, TIMELY_HEAD_WEIGHT) else 0)
  {
    Add(Add(if correctSource then WeightedReward(base, TIMELY_SOURCE_WEIGHT) else 0,
            if correctTarget then WeightedReward(base, TIMELY_TARGET_WEIGHT) else 0),
        if correctHead then WeightedReward(base, TIMELY_HEAD_WEIGHT) else 0)
  }

  /** PROPOSER_REWARD_QUOTIENT + inclusionDelay - MIN_ATTESTATION_INCLUSION_DELAY in uint64; it
      wraps to 0 for exactly one delay, 2^64 - 7. */
  function InclusionDenominator(inclusionDelay: u64): (r: u64)
    ensures r == 0 <==> inclusionDelay == TWO_64 - 7
    ensures inclusionDelay < TWO_64 - 8 ==> r == inclusionDelay + 7
  {
    Sub(Add(PROPOSER_REWARD_QUOTIENT, inclusionDelay), MIN_ATTESTATION_INCLUSION_DELAY)
  }

  /** Whether the source would divide by a wrapped-around zero denominator. */
  predicate ScalingFaults(base: u64, correctSource: bool, correctTarget: bool, correctHead: bool, inclusionDelay: u64)
  {
    inclusionDelay > MIN_ATTESTATION_INCLUSION_DELAY
    && FlaggedReward(base, correctSource, correctTarget, correctHead) > 0
    && InclusionDenominator(inclusionDelay) == 0
  }

  /** The attestation reward for the flagged components, scaled by 8/(7 + delay) when it was
      included late and is positive. */
  function AttestationReward(base: u64, correctSource: bool, correctTarget: bool, correctHead: bool,
                             inclusionDelay: u64): (r: u64)
    requires !ScalingFaults(base, correctSource, correctTarget, correctHead, inclusionDelay)
  {
    var reward := FlaggedReward(base, correctSource, correctTarget, correctHead);
    if inclusionDelay > MIN_ATTESTATION_INCLUSION_DELAY && reward > 0 then
      Div(Mul(reward, PROPOSER_REWARD_QUOTIENT), InclusionDenominator(inclusionDelay))
    else
      reward
  }

  /** CalculateAttestationReward: adds each correct component to a running reward, then rescales
      it for a late inclusion. */
  method CalculateAttestationReward(state: NetworkState, validatorIndex: nat,
                                    correctSource: bool, correctTarget: bool, correctHead: bool,
                                    inclusionDelay: u64) returns (reward: u64)
    requires validatorIndex < |state.validators| && state.totalActiveBalance > 0
    requires !ScalingFaults(GetBaseReward(state, validatorIndex), correctSource, correctTarget, correctHead,
                            inclusionDelay)
    ensures reward == AttestationReward(GetBaseReward(state, validatorIndex), correctSource, correctTarget,
                                        correctHead, inclusionDelay)
  {
    var baseReward := GetBaseReward(state, validatorIndex);
    reward := 0;
    if correctSource {
      reward := Add(reward, WeightedReward(baseReward, TIMELY_SOURCE_WEIGHT));
    }
    if correctTarget {
      reward := Add(reward, WeightedReward(baseReward, TIMELY_TARGET_WEIGHT));
    }
    if correctHead {
      reward := Add(reward, WeightedReward(baseReward, TIMELY_HEAD_WEIGHT));
    }
    assert reward == FlaggedReward(baseReward, correctSource, correctTarget, correctHead);
    if inclusionDelay > MIN_ATTESTATION_INCLUSION_DELAY && reward > 0 {
      var denominator := Sub(Add(PROPOSER_REWARD_QUOTIENT, inclusionDelay), MIN_ATTESTATION_INCLUSION_DELAY);
      assert denominator == InclusionDenominator(inclusionDelay);
      assert denominator != 0;
      reward := Div(Mul(reward, PROPOSER_REWARD_QUOTIENT), denominator);
    }
  }

  /** With no correct component there is nothing to pay, however late. */
  lemma NoFlagsNoReward(base: u64, inclusionDelay: u64)
    ensures AttestationReward(base, false, false, false, inclusionDelay) == 0
  {
  }

  /** A fully correct attestation included on time earns what CalculateRewards reports, for any
      validator whose balance equals validator 0's. */
  lemma TimelyAttestationMatchesCalculateRewards(state: NetworkState, validatorIndex: nat, inclusionDelay: u64)
    requires validatorIndex < |state.validators| && state.totalActiveBalance > 0
    requires state.validators[validatorIndex].effectiveBalance == state.validators[0].effectiveBalance
    requires inclusionDelay <= MIN_ATTESTATION_INCLUSION_DELAY
    ensures AttestationReward(GetBaseReward(state, validatorIndex), true, true, true, inclusionDelay)
            == CalculateRewards(state).attestationRewardPerEpoch
  {
  }

  /** A late, positive reward becomes ⌊reward · 8 / (7 + delay)⌋, strictly less than on time. */
  lemma LateInclusionScaling(base: u64, correctSource: bool, correctTarget: bool, correctHead: bool,
                             inclusionDelay: u64)
    requires MIN_ATTESTATION_INCLUSION_DELAY < inclusionDelay < TWO_64 - 8
    requires FlaggedReward(base, correctSource, correctTarget, correctHead) > 0
    ensures var reward := FlaggedReward(base, correctSource, correctTarget, correctHead);
      var late := AttestationReward(base, correctSource, correctTarget, correctHead, inclusionDelay);
      late == reward * 8 / (7 + inclusionDelay) && late < reward
  {
    var reward := FlaggedReward(base, correctSource, correctTarget, correctHead);
    ScaleDownStrict(reward, 8, 7 + inclusionDelay);
  }

  /** Later inclusion never pays more. */
  lemma LateInclusionMonotone(base: u64, correctSource: bool, correctTarget: bool, correctHead: bool,
                              d1: u64, d2: u64)
    requires d1 <= d2 < TWO_64 - 8
    ensures AttestationReward(base, correctSource, correctTarget, correctHead, d2)
            <= AttestationReward(base, correctSource, correctTarget, correctHead, d1)
  {
    var reward := FlaggedReward(base, correctSource, correctTarget, correctHead);
    if reward > 0 {
      if d1 > MIN_ATTESTATION_INCLUSION_DELAY {
        DivAntitone(reward * 8, 7 + d1, 7 + d2);
      } else if d2 > MIN_ATTESTATION_INCLUSION_DELAY {
        ScaleDownStrict(reward, 8, 7 + d2);
      }
    }
  }

  /** Past 2^64 − 8 the denominator wraps: at delay 2^64 − 6 it is 1, and a very late attestation
      is paid eight times its timely reward. */
  lemma LateInclusionWrapPaysMore(base: u64, correctSource: bool, correctTarget: bool, correctHead: bool)
    requires FlaggedReward(base, correctSource, correctTarget, correctHead) > 0
    requires FlaggedReward(base, correctSource, correctTarget, correctHead) * 8 < TWO_64
    ensures AttestationReward(base, correctSource, correctTarget, correctHead, TWO_64 - 6)
            == FlaggedReward(base, correctSource, correctTarget, correctHead) * 8
    ensures AttestationReward(base, correctSource, correctTarget, correctHead, TWO_64 - 6)
            > AttestationReward(base, correctSource, correctTarget, correctHead, MIN_ATTESTATION_INCLUSION_DELAY)
  {
    assert InclusionDenominator(TWO_64 - 6) == 1;
  }

  /** CalculateProposerReward: an eighth of the per-increment base reward for every whole
      increment of attesting balance. */
  function CalculateProposerReward(state: NetworkState, attestingBalance: u64): (r: u64)
    requires state.totalActiveBalance > 0
    ensures attestingBalance == 0 ==> r == 0
  {
    var proposerRewardPerIncrement := GetBaseRewardPerIncrement(state) / PROPOSER_REWARD_QUOTIENT;
    Mul(proposerRewardPerIncrement, attestingBalance) / EFFECTIVE_BALANCE_INCREMENT
  }

  /** Attesting balance that is a whole number k of increments earns exactly k eighths of the
      per-increment base reward. */
  lemma ProposerRewardPerWholeIncrement(state: NetworkState, k: nat)
    requires state.totalActiveBalance > 0
    requires k * EFFECTIVE_BALANCE_INCREMENT < TWO_64
    requires GetBaseRewardPerIncrement(state) / PROPOSER_REWARD_QUOTIENT * (k * EFFECTIVE_BALANCE_INCREMENT) < TWO_64
    ensures CalculateProposerReward(state, k * EFFECTIVE_BALANCE_INCREMENT)
            == k * (GetBaseRewardPerIncrement(state) / PROPOSER_REWARD_QUOTIENT)
  {
    var p := GetBaseRewardPerIncrement(state) / PROPOSER_REWARD_QUOTIENT;
    var b := k * EFFECTIVE_BALANCE_INCREMENT;
    assert p * b == EFFECTIVE_BALANCE_INCREMENT * (k * p) by { MulRotate(p, k, EFFECTIVE_BALANCE_INCREMENT); }
    DivUnique(p * b, EFFECTIVE_BALANCE_INCREMENT, k * p);
  }

  /** More attesting balance never earns the proposer less, while nothing wraps. */
  lemma ProposerRewardMonotone(state: NetworkState, a1: u64, a2: u64)
    requires state.totalActiveBalance > 0
    requires a1 <= a2
    requires GetBaseRewardPerIncrement(state) / PROPOSER_REWARD_QUOTIENT * a2 < TWO_64
    ensures CalculateProposerReward(state, a1) <= CalculateProposerReward(state, a2)
  {
    var p := GetBaseRewardPerIncrement(state) / PROPOSER_REWARD_QUOTIENT;
    MulLeft(a1, a2, p);
    DivMonotone(p * a1, p * a2, EFFECTIVE_BALANCE_INCREMENT);
  }

  /** The sync-committee reward of one participant: the 2/64 sync share of the total base
      rewards, spread over the slots of an epoch and the members of the committee. */
  function SyncParticipantReward(state: NetworkState): (r: u64)
    requires 0 < |state.validators| && 0 < state.totalActiveBalance
  {
    var baseReward := GetBaseReward(state, 0);
    var totalActiveIncrements := state.totalActiveBalance / EFFECTIVE_BALANCE_INCREMENT;
    var totalBaseRewards := Mul(baseReward, totalActiveIncrements);
    var maxParticipantRewards := Mul(totalBaseRewards, SYNC_REWARD_WEIGHT) / WEIGHT_DENOMINATOR / SLOTS_PER_EPOCH;
    maxParticipantRewards / SYNC_COMMITTEE_SIZE
  }

  /** While the total of base rewards fits, the per-participant reward is one truncating division
      of base · (T / increment) · 2 by 64 · 32 · 512. */
  lemma SyncParticipantRewardFormula(state: NetworkState)
    requires 0 < |state.validators| && 0 < state.totalActiveBalance
    requires GetBaseReward(state, 0) * (state.totalActiveBalance / EFFECTIVE_BALANCE_INCREMENT) * SYNC_REWARD_WEIGHT
             < TWO_64
    ensures SyncParticipantReward(state)
            == GetBaseReward(state, 0) * (state.totalActiveBalance / EFFECTIVE_BALANCE_INCREMENT) * SYNC_REWARD_WEIGHT
               / (WEIGHT_DENOMINATOR * SLOTS_PER_EPOCH * SYNC_COMMITTEE_SIZE)
  {
    var total := GetBaseReward(state, 0) * (state.totalActiveBalance / EFFECTIVE_BALANCE_INCREMENT);
    assert total <= total * SYNC_REWARD_WEIGHT;
    DivDiv(total * SYNC_REWARD_WEIGHT, WEIGHT_DENOMINATOR, SLOTS_PER_EPOCH);
    DivDiv(total * SYNC_REWARD_WEIGHT, WEIGHT_DENOMINATOR * SLOTS_PER_EPOCH, SYNC_COMMITTEE_SIZE);
  }

  /** CalculateSyncCommitteeReward: the per-participant reward times the participant count (a Go
      `int`, converted to uint64). */
  function CalculateSyncCommitteeReward(state: NetworkState, participantCount: i64): (r: u64)
    requires 0 < |state.validators| && 0 < state.totalActiveBalance
    ensures participantCount == 0 ==> r == 0
    ensures 0 <= participantCount && SyncParticipantReward(state) * participantCount < TWO_64 ==>
      r == SyncParticipantReward(state) * participantCount
  {
    Mul(SyncParticipantReward(state), Wrap(participantCount))
  }

  /** More participants never earn less, while nothing wraps. */
  lemma SyncCommitteeRewardMonotone(state: NetworkState, c1: i64, c2: i64)
    requires 0 < |state.validators| && 0 < state.totalActiveBalance
    requires 0 <= c1 <= c2 && SyncParticipantReward(state) * c2 < TWO_64
    ensures CalculateSyncCommitteeReward(state, c1) <= CalculateSyncCommitteeReward(state, c2)
  {
    MulLeft(c1, c2, SyncParticipantReward(state));
  }

  datatype WhistleblowerSplit = WhistleblowerSplit(whistleblowerReward: u64, proposerReward: u64)

  /** CalculateWhistleblowerReward: 1/512 of the slashed balance to the whistleblower, and an
      eighth of that, 1/4096 of the balance, to the proposer. */
  function CalculateWhistleblowerReward(slashedValidatorBalance: u64): (r: WhistleblowerSplit)
    ensures r.proposerReward <= r.whistleblowerReward <= slashedValidatorBalance
    ensures r.whistleblowerReward * WHISTLEBLOWER_REWARD_QUOTIENT <= slashedValidatorBalance
              < (r.whistleblowerReward + 1) * WHISTLEBLOWER_REWARD_QUOTIENT
    ensures r.proposerReward == slashedValidatorBalance / 4096
  {
    var whistleblowerReward := slashedValidatorBalance / WHISTLEBLOWER_REWARD_QUOTIENT;
    DivDiv(slashedValidatorBalance, WHISTLEBLOWER_REWARD_QUOTIENT, PROPOSER_REWARD_QUOTIENT);
    WhistleblowerSplit(whistleblowerReward, whistleblowerReward / PROPOSER_REWARD_QUOTIENT)
  }
}
