/** Missed-duty penalties, the inactivity leak and slashing (internal/calculator/penalties.go). */
module Penalties {
  import opened Uint64
  import opened Arith
  import opened Config
  import opened Types
  import opened Rewards

  /** The package's uint64 `min`. */
  function Min(a: u64, b: u64): (r: u64)
    ensures r <= a && r <= b
    ensures r == a || r == b
  {
    if a < b then a else b
  }

  /** The chain has not finalized for more than MIN_ATTESTATION_INCLUSION_DELAY epochs; the sum
      on the right is a uint64 addition. */
  predicate InLeak(state: NetworkState)
    ensures state.finalizedEpoch < TWO_64 - 1 ==>
      (InLeak(state) <==> state.finalizedEpoch + 1 < state.currentEpoch)
    ensures state.finalizedEpoch == TWO_64 - 1 ==> (InLeak(state) <==> state.currentEpoch > 0)
  {
    state.currentEpoch > Add(state.finalizedEpoch, MIN_ATTESTATION_INCLUSION_DELAY)
  }

  // ---------------------------------------------------------------------------------------------
  // Attestation penalties

  /** CalculatePenalties, integer fields: fills a fresh result record field by field. Every missed
      component is charged what the same component would have paid, a correct one nothing; the
      leak penalty is added only inside the leak. */
  method CalculatePenalties(state: NetworkState, validatorIndex: nat,
                            correctSource: bool, correctTarget: bool, correctHead: bool)
    returns (results: PenaltyResults)
    requires validatorIndex < |state.validators| && state.totalActiveBalance > 0
    ensures var base := GetBaseReward(state, validatorIndex);
      && results.sourcePenalty == (if correctSource then 0 else WeightedReward(base, TIMELY_SOURCE_WEIGHT))
      && results.targetPenalty == (if correctTarget then 0 else WeightedReward(base, TIMELY_TARGET_WEIGHT))
      && results.headPenalty == (if correctHead then 0 else WeightedReward(base, TIMELY_HEAD_WEIGHT))
      && results.totalAttestationPenalty == FlaggedReward(base, !correctSource, !correctTarget, !correctHead)
    ensures results.totalAttestationPenalty
              == results.sourcePenalty + results.targetPenalty + results.headPenalty
    ensures results.inactivityScore == state.validators[validatorIndex].inactivityScore
    ensures results.inactivityPenalty == GetInactivityPenalty(state, validatorIndex)
  {
    var baseReward := GetBaseReward(state, validatorIndex);
    results := PenaltyResults(0, 0, 0, 0, state.validators[validatorIndex].inactivityScore, 0);
    if !correctSource {
      results := results.(sourcePenalty := WeightedReward(baseReward, TIMELY_SOURCE_WEIGHT));
    }
    if !correctTarget {
      results := results.(targetPenalty := WeightedReward(baseReward, TIMELY_TARGET_WEIGHT));
    }
    if !correctHead {
      results := results.(headPenalty := WeightedReward(baseReward, TIMELY_HEAD_WEIGHT));
    }
    results := results.(totalAttestationPenalty :=
      Add(Add(results.sourcePenalty, results.targetPenalty), results.headPenalty));
    if InLeak(state) {
      results := results.(inactivityPenalty := GetInactivityPenalty(state, validatorIndex));
    }
  }

  /** What a validator is charged for the duties it missed and what it is paid for those it did
      make add up, without wrap-around, to the full reward of a perfect attestation. */
  lemma PenaltyComplementsReward(base: u64, correctSource: bool, correctTarget: bool, correctHead: bool)
    ensures FlaggedReward(base, !correctSource, !correctTarget, !correctHead)
            + FlaggedReward(base, correctSource, correctTarget, correctHead)
            == FlaggedReward(base, true, true, true)
  {
  }

  /** Missing every duty costs exactly what CalculateRewards reports as the attestation reward, for
      a validator whose balance equals validator 0's; making every duty costs nothing. */
  lemma AllMissedCostsFullReward(state: NetworkState, validatorIndex: nat)
    requires validatorIndex < |state.validators| && state.totalActiveBalance > 0
    requires state.validators[validatorIndex].effectiveBalance == state.validators[0].effectiveBalance
    ensures FlaggedReward(GetBaseReward(state, validatorIndex), true, true, true)
            == CalculateRewards(state).attestationRewardPerEpoch
    ensures FlaggedReward(GetBaseReward(state, validatorIndex), false, false, false) == 0
  {
  }

  // ---------------------------------------------------------------------------------------------
  // Inactivity leak

  /** GetInactivityPenalty: zero outside the leak; inside it eb · score / (4 · quotient) in
      uint64, with the quotient of the state's fork. */
  function GetInactivityPenalty(state: NetworkState, validatorIndex: nat): (r: u64)
    requires validatorIndex < |state.validators|
    ensures !InLeak(state) ==> r == 0
    ensures state.validators[validatorIndex].inactivityScore == 0 ==> r == 0
    ensures state.validators[validatorIndex].effectiveBalance == 0 ==> r == 0
  {
    var validator := state.validators[validatorIndex];
    if !InLeak(state) then
      0
    else
      var forkConfig := GetForkConfig(state.currentFork);
      var penaltyNumerator := Mul(validator.effectiveBalance, validator.inactivityScore);
      var penaltyDenominator := Mul(INACTIVITY_SCORE_BIAS, forkConfig.inactivityPenaltyQuotient);
      Div(penaltyNumerator, penaltyDenominator)
  }

  /** Inside the leak, and while eb · score fits, the penalty is one truncating division by the
      nonzero 4 · quotient of the fork. */
  lemma InactivityPenaltyFormula(state: NetworkState, validatorIndex: nat)
    requires validatorIndex < |state.validators| && InLeak(state)
    requires state.validators[validatorIndex].effectiveBalance * state.validators[validatorIndex].inactivityScore
             < TWO_64
    ensures var q := GetForkConfig(state.currentFork).inactivityPenaltyQuotient;
      INACTIVITY_SCORE_BIAS * q > 0 &&
      GetInactivityPenalty(state, validatorIndex)
        == state.validators[validatorIndex].effectiveBalance * state.validators[validatorIndex].inactivityScore
           / (INACTIVITY_SCORE_BIAS * q)
  {
  }

  /** A validator whose inactivity score is raised, all else equal, is never charged less (while
      eb · score fits in a uint64). */
  lemma InactivityPenaltyMonotoneInScore(state: NetworkState, validatorIndex: nat, higherScore: u64)
    requires validatorIndex < |state.validators|
    requires state.validators[validatorIndex].inactivityScore <= higherScore
    requires state.validators[validatorIndex].effectiveBalance * higherScore < TWO_64
    ensures var v := state.validators[validatorIndex];
      var raised := state.(validators := state.validators[validatorIndex := v.(inactivityScore := higherScore)]);
      GetInactivityPenalty(state, validatorIndex) <= GetInactivityPenalty(raised, validatorIndex)
  {
    var v := state.validators[validatorIndex];
    var raised := state.(validators := state.validators[validatorIndex := v.(inactivityScore := higherScore)]);
    if InLeak(state) {
      var d := Mul(INACTIVITY_SCORE_BIAS, GetForkConfig(state.currentFork).inactivityPenaltyQuotient);
      MulLeft(v.inactivityScore, higherScore, v.effectiveBalance);
      DivMonotone(v.effectiveBalance * v.inactivityScore, v.effectiveBalance * higherScore, d);
    }
  }

  /** CalculateInactivityScore: one epoch's update of a validator's inactivity score. */
  function CalculateInactivityScore(previousScore: u64, isActive: bool, isFinalized: bool): (r: u64)
    ensures isFinalized ==> r <= previousScore
    ensures isFinalized && previousScore > 0 ==> r == previousScore - 1
    ensures !isFinalized && previousScore + INACTIVITY_SCORE_BIAS < TWO_64 ==>
      r == previousScore + (if isActive then 1 else INACTIVITY_SCORE_BIAS)
  {
    if isFinalized then
      if previousScore > 0 then Sub(previousScore, Min(1, previousScore)) else 0
    else if !isActive then
      Add(previousScore, INACTIVITY_SCORE_BIAS)
    else
      Add(previousScore, 1)
  }

  /** The score after `epochs` further epochs with the same activity and finality. */
  function ScoreAfter(score: u64, isActive: bool, isFinalized: bool, epochs: nat): (r: u64)
    decreases epochs
  {
    if epochs == 0 then score
    else ScoreAfter(CalculateInactivityScore(score, isActive, isFinalized), isActive, isFinalized, epochs - 1)
  }

  /** Every inactive, non-finalizing epoch adds the bias of 4, as long as the score fits. */
  lemma {:induction false} InactiveEpochsAddBias(score: u64, epochs: nat)
    requires score + INACTIVITY_SCORE_BIAS * epochs < TWO_64
    ensures ScoreAfter(score, false, false, epochs) == score + INACTIVITY_SCORE_BIAS * epochs
    decreases epochs
  {
    if epochs > 0 {
      InactiveEpochsAddBias(score + INACTIVITY_SCORE_BIAS, epochs - 1);
    }
  }

  /** Every finalized epoch takes one point off, down to zero and never below. */
  lemma {:induction false} FinalizedEpochsDrain(score: u64, isActive: bool, epochs: nat)
    ensures ScoreAfter(score, isActive, true, epochs) == if epochs <= score then score - epochs else 0
    decreases epochs
  {
    if epochs > 0 {
      FinalizedEpochsDrain(CalculateInactivityScore(score, isActive, true), isActive, epochs - 1);
    }
  }

  /** Ten missed, non-finalizing epochs from a clean record give a score of 40; one finalized
      epoch then brings it to 39. */
  lemma TenInactiveEpochs()
    ensures ScoreAfter(0, false, false, 10) == 40
    ensures CalculateInactivityScore(ScoreAfter(0, false, false, 10), false, true) == 39
  {
    InactiveEpochsAddBias(0, 10);
  }

  // ---------------------------------------------------------------------------------------------
  // Slashing

  /** The correlation penalty as the source computes it: every product is a wrapping uint64
      product, so eb · min(slashed · multiplier, T) can wrap before the division by T. */
  function ProportionalPenaltyAsWritten(effectiveBalance: u64, totalSlashedBalance: u64, multiplier: u64,
                                        totalActiveBalance: u64): (r: u64)
    requires totalActiveBalance > 0
    ensures effectiveBalance * totalActiveBalance < TWO_64 && totalSlashedBalance * multiplier < TWO_64 ==>
      r == ProportionalPenalty(effectiveBalance, totalSlashedBalance, multiplier, totalActiveBalance)
  {
    var clamped := Min(Mul(totalSlashedBalance, multiplier), totalActiveBalance);
    MulLeft(clamped, totalActiveBalance, effectiveBalance);
    Div(Mul(effectiveBalance, clamped), totalActiveBalance)
  }

  /** The correlation penalty as intended: eb · min(slashed · multiplier, T) / T over exact
      integers. The clamp keeps it at most eb, so it always fits. */
  function ProportionalPenalty(effectiveBalance: u64, totalSlashedBalance: u64, multiplier: u64,
                               totalActiveBalance: u64): (r: u64)
    requires totalActiveBalance > 0
    ensures r <= effectiveBalance
    ensures totalSlashedBalance * multiplier >= totalActiveBalance ==> r == effectiveBalance
    ensures totalSlashedBalance * multiplier == 0 ==> r == 0
  {
    var adjusted := totalSlashedBalance * multiplier;
    var clamped := if adjusted < totalActiveBalance then adjusted else totalActiveBalance;
    var penalty := effectiveBalance * clamped / totalActiveBalance;
    assert penalty <= effectiveBalance by { MulDivLe(effectiveBalance, clamped, totalActiveBalance); }
    assert clamped == totalActiveBalance ==> penalty == effectiveBalance by {
      if clamped == totalActiveBalance {
        DivUnique(effectiveBalance * totalActiveBalance, totalActiveBalance, effectiveBalance);
      }
    }
    penalty
  }

  /** More slashed balance never lowers the intended correlation penalty. */
  lemma ProportionalPenaltyMonotone(effectiveBalance: u64, s1: u64, s2: u64, multiplier: u64,
                                    totalActiveBalance: u64)
    requires totalActiveBalance > 0 && s1 <= s2
    ensures ProportionalPenalty(effectiveBalance, s1, multiplier, totalActiveBalance)
            <= ProportionalPenalty(effectiveBalance, s2, multiplier, totalActiveBalance)
  {
    MulLeft(s1, s2, multiplier);
    var c1 := if s1 * multiplier < totalActiveBalance then s1 * multiplier else totalActiveBalance;
    var c2 := if s2 * multiplier < totalActiveBalance then s2 * multiplier else totalActiveBalance;
    assert s1 * multiplier == multiplier * s1 && s2 * multiplier == multiplier * s2;
    MulLeft(c1, c2, effectiveBalance);
    DivMonotone(effectiveBalance * c1, effectiveBalance * c2, totalActiveBalance);
  }

  /** A single slashed 32 ETH validator under Bellatrix. In a network holding only its stake the
      intended penalty is its whole balance, but eb · T = 1.024 · 10^21 wraps and the source
      charges 294658623 Gwei. In a network of a million such validators the intended 96000 Gwei
      becomes 307, because eb · 3 · eb = 3.072 · 10^21 wraps as well. */
  lemma ProportionalPenaltyOverflow()
    ensures ProportionalPenaltyAsWritten(MAX_EFFECTIVE_BALANCE, MAX_EFFECTIVE_BALANCE,
                                         PROPORTIONAL_SLASHING_MULTIPLIER_BELLATRIX, MAX_EFFECTIVE_BALANCE)
            == 294658623
    ensures ProportionalPenalty(MAX_EFFECTIVE_BALANCE, MAX_EFFECTIVE_BALANCE,
                                PROPORTIONAL_SLASHING_MULTIPLIER_BELLATRIX, MAX_EFFECTIVE_BALANCE)
            == MAX_EFFECTIVE_BALANCE
    ensures ProportionalPenaltyAsWritten(MAX_EFFECTIVE_BALANCE, MAX_EFFECTIVE_BALANCE,
                                         PROPORTIONAL_SLASHING_MULTIPLIER_BELLATRIX, 1000000 * MAX_EFFECTIVE_BALANCE)
            == 307
    ensures ProportionalPenalty(MAX_EFFECTIVE_BALANCE, MAX_EFFECTIVE_BALANCE,
                                PROPORTIONAL_SLASHING_MULTIPLIER_BELLATRIX, 1000000 * MAX_EFFECTIVE_BALANCE)
            == 96000
  {
    assert Mul(MAX_EFFECTIVE_BALANCE, PROPORTIONAL_SLASHING_MULTIPLIER_BELLATRIX) == 96000000000;
    assert Mul(MAX_EFFECTIVE_BALANCE, MAX_EFFECTIVE_BALANCE) == 9429075945974661120;
    assert Mul(MAX_EFFECTIVE_BALANCE, 96000000000) == 9840483764214431744;
  }

  /** The code's correlation penalty is not even monotone: with a 32 ETH validator in a network of
      a million, one more Gwei of slashed balance lets eb · 3 · slashed wrap, and the penalty
      drops from 576 Gwei to 0, while the intended one stays at 576. */
  lemma ProportionalPenaltyAsWrittenNotMonotone()
    ensures ProportionalPenaltyAsWritten(MAX_EFFECTIVE_BALANCE, 192153584,
                                         PROPORTIONAL_SLASHING_MULTIPLIER_BELLATRIX, 1000000 * MAX_EFFECTIVE_BALANCE)
            == 576
    ensures ProportionalPenaltyAsWritten(MAX_EFFECTIVE_BALANCE, 192153585,
                                         PROPORTIONAL_SLASHING_MULTIPLIER_BELLATRIX, 1000000 * MAX_EFFECTIVE_BALANCE)
            == 0
    ensures ProportionalPenalty(MAX_EFFECTIVE_BALANCE, 192153585,
                                PROPORTIONAL_SLASHING_MULTIPLIER_BELLATRIX, 1000000 * MAX_EFFECTIVE_BALANCE)
            == 576
  {
    assert Mul(MAX_EFFECTIVE_BALANCE, 576460752) == 18446744064000000000;
    assert Mul(MAX_EFFECTIVE_BALANCE, 576460755) == 86290448384;
  }

  /** CalculateSlashingPenalties, integer fields, with the intended correlation penalty: the
      initial penalty is eb divided by the fork's quotient, the correlation part is at most eb,
      the total is their uint64 sum, and the whistleblower and proposer get the split of eb. */
  function CalculateSlashingPenalties(state: NetworkState, validatorIndex: nat, totalSlashedBalance: u64)
    : (r: SlashingResults)
    requires validatorIndex < |state.validators| && state.totalActiveBalance > 0
    ensures var eb := state.validators[validatorIndex].effectiveBalance;
      var forkConfig := GetForkConfig(state.currentFork);
      && r.initialPenalty * forkConfig.minSlashingPenaltyQuotient <= eb
      && eb < (r.initialPenalty + 1) * forkConfig.minSlashingPenaltyQuotient
      && r.proportionalPenalty == ProportionalPenalty(eb, totalSlashedBalance,
                                                      forkConfig.proportionalSlashingMultiplier,
                                                      state.totalActiveBalance)
      && r.proportionalPenalty <= eb
      && (eb < TWO_63 ==> r.totalPenalty == r.initialPenalty + r.proportionalPenalty)
      && r.whistleblowerReward == CalculateWhistleblowerReward(eb).whistleblowerReward
      && r.proposerReward == CalculateWhistleblowerReward(eb).proposerReward
  {
    var eb := state.validators[validatorIndex].effectiveBalance;
    var forkConfig := GetForkConfig(state.currentFork);
    var initialPenalty := Div(eb, forkConfig.minSlashingPenaltyQuotient);
    DivBounds(eb, forkConfig.minSlashingPenaltyQuotient);
    var proportionalPenalty := ProportionalPenalty(eb, totalSlashedBalance,
                                                   forkConfig.proportionalSlashingMultiplier,
                                                   state.totalActiveBalance);
    var whistleblower := CalculateWhistleblowerReward(eb);
    SlashingResults(
      initialPenalty := initialPenalty,
      proportionalPenalty := proportionalPenalty,
      totalPenalty := Add(initialPenalty, proportionalPenalty),
      whistleblowerReward := whistleblower.whistleblowerReward,
      proposerReward := whistleblower.proposerReward)
  }

  /** CalculateSlashingPenalties exactly as the code computes it, with the wrapping correlation
      penalty; it agrees with the corrected result whenever neither product wraps. */
  function CalculateSlashingPenaltiesAsWritten(state: NetworkState, validatorIndex: nat, totalSlashedBalance: u64)
    : (r: SlashingResults)
    requires validatorIndex < |state.validators| && state.totalActiveBalance > 0
    ensures var eb := state.validators[validatorIndex].effectiveBalance;
      var forkConfig := GetForkConfig(state.currentFork);
      && r.proportionalPenalty == ProportionalPenaltyAsWritten(eb, totalSlashedBalance,
                                                               forkConfig.proportionalSlashingMultiplier,
                                                               state.totalActiveBalance)
      && (eb * state.totalActiveBalance < TWO_64
          && totalSlashedBalance * forkConfig.proportionalSlashingMultiplier < TWO_64
          ==> r == CalculateSlashingPenalties(state, validatorIndex, totalSlashedBalance))
  {
    var eb := state.validators[validatorIndex].effectiveBalance;
    var forkConfig := GetForkConfig(state.currentFork);
    var initialPenalty := Div(eb, forkConfig.minSlashingPenaltyQuotient);
    var proportionalPenalty := ProportionalPenaltyAsWritten(eb, totalSlashedBalance,
                                                            forkConfig.proportionalSlashingMultiplier,
                                                            state.totalActiveBalance);
    var whistleblower := CalculateWhistleblowerReward(eb);
    SlashingResults(
      initialPenalty := initialPenalty,
      proportionalPenalty := proportionalPenalty,
      totalPenalty := Add(initialPenalty, proportionalPenalty),
      whistleblowerReward := whistleblower.whistleblowerReward,
      proposerReward := whistleblower.proposerReward)
  }

  /** For a slashed validator at the maximum balance the total penalty is its initial 1/32 part
      (Bellatrix, the default) plus a correlation part that reaches the whole balance once the
      slashed balance times 3 covers the network. */
  lemma SlashingTotalUnderBellatrix(state: NetworkState, validatorIndex: nat, totalSlashedBalance: u64)
    requires validatorIndex < |state.validators| && state.totalActiveBalance > 0
    requires state.currentFork != "phase0" && state.currentFork != "altair"
    requires state.validators[validatorIndex].effectiveBalance == MAX_EFFECTIVE_BALANCE
    requires totalSlashedBalance * PROPORTIONAL_SLASHING_MULTIPLIER_BELLATRIX >= state.totalActiveBalance
    ensures CalculateSlashingPenalties(state, validatorIndex, totalSlashedBalance).totalPenalty
            == MAX_EFFECTIVE_BALANCE / 32 + MAX_EFFECTIVE_BALANCE
  {
  }

  // ---------------------------------------------------------------------------------------------
  // Security impact of a slashing

  datatype ImpactLevel = Minimal | Low | Moderate | High | Critical | Catastrophic
  {
    /** The position of the level in order of severity. */
    function Rank(): nat
    {
      match this
      case Minimal => 0
      case Low => 1
      case Moderate => 2
      case High => 3
      case Critical => 4
      case Catastrophic => 5
    }

    /** The label the source returns. */
    function Name(): string
    {
      match this
      case Minimal => "Minimal"
      case Low => "Low"
      case Moderate => "Moderate"
      case High => "High"
      case Critical => "Critical"
      case Catastrophic => "Catastrophic"
    }
  }

  /** The lower edges of the Low through Catastrophic bands, in percent of the staked total. */
  const IMPACT_THRESHOLDS: seq<real> := [0.1, 1.0, 5.0, 10.0, 33.3]

  /** How many band edges a percentage has reached. */
  function EdgesReached(thresholds: seq<real>, percentage: real): nat
  {
    if thresholds == [] then 0
    else (if thresholds[0] <= percentage then 1 else 0) + EdgesReached(thresholds[1..], percentage)
  }

  /** Counting the edges one at a time, from the highest down. */
  lemma EdgesReachedUnrolled(percentage: real)
    ensures EdgesReached(IMPACT_THRESHOLDS, percentage)
            == (if 0.1 <= percentage then 1 else 0) + (if 1.0 <= percentage then 1 else 0)
               + (if 5.0 <= percentage then 1 else 0) + (if 10.0 <= percentage then 1 else 0)
               + (if 33.3 <= percentage then 1 else 0)
  {
    var t := IMPACT_THRESHOLDS;
    assert t[1..][1..][1..][1..][1..] == [];
    assert EdgesReached(t[1..][1..][1..][1..], percentage) == if 33.3 <= percentage then 1 else 0;
    assert EdgesReached(t[1..][1..][1..], percentage)
           == (if 10.0 <= percentage then 1 else 0) + EdgesReached(t[1..][1..][1..][1..], percentage);
    assert EdgesReached(t[1..][1..], percentage)
           == (if 5.0 <= percentage then 1 else 0) + EdgesReached(t[1..][1..][1..], percentage);
    assert EdgesReached(t[1..], percentage)
           == (if 1.0 <= percentage then 1 else 0) + EdgesReached(t[1..][1..], percentage);
  }

  /** getSecurityImpactLevel: the first band whose upper edge lies above the percentage. Its rank
      is the number of band edges at or below the percentage, every band is half-open (closed
      below), and the labels name the levels. */
  function GetSecurityImpactLevel(slashingPercentage: real): (r: ImpactLevel)
    ensures r.Rank() == EdgesReached(IMPACT_THRESHOLDS, slashingPercentage)
    ensures r == Minimal <==> slashingPercentage < 0.1
    ensures r == Catastrophic <==> slashingPercentage >= 33.3
  {
    EdgesReachedUnrolled(slashingPercentage);
    if slashingPercentage < 0.1 then Minimal
    else if slashingPercentage < 1.0 then Low
    else if slashingPercentage < 5.0 then Moderate
    else if slashingPercentage < 10.0 then High
    else if slashingPercentage < 33.3 then Critical
    else Catastrophic
  }

  /** A larger slashed share never reads as less severe. */
  lemma SecurityImpactMonotone(p: real, q: real)
    requires p <= q
    ensures GetSecurityImpactLevel(p).Rank() <= GetSecurityImpactLevel(q).Rank()
  {
  }

  /** The band edges themselves belong to the more severe band. */
  lemma SecurityImpactEdges()
    ensures GetSecurityImpactLevel(0.1).Name() == "Low"
    ensures GetSecurityImpactLevel(1.0).Name() == "Moderate"
    ensures GetSecurityImpactLevel(5.0).Name() == "High"
    ensures GetSecurityImpactLevel(10.0).Name() == "Critical"
    ensures GetSecurityImpactLevel(33.3).Name() == "Catastrophic"
    ensures GetSecurityImpactLevel(0.0).Name() == "Minimal"
  {
  }
}
