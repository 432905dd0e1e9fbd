/** The records the engine reads and produces (internal/types/types.go), integer fields only. */
module Types {
  import opened Uint64

  datatype Validator = Validator(effectiveBalance: u64, slashed: bool, inactivityScore: u64)

  /** `currentFork` is the fork name looked up in the fork table; the CLI leaves it empty. */
  datatype NetworkState = NetworkState(
    validators: seq<Validator>,
    totalActiveBalance: u64,
    currentEpoch: u64,
    finalizedEpoch: u64,
    justifiedEpoch: u64,
    currentFork: string)

  datatype RewardResults = RewardResults(
    validatorCount: nat,
    totalStaked: u64,
    sqrtTotalBalance: u64,
    baseRewardPerEpoch: u64,
    sourceReward: u64,
    targetReward: u64,
    headReward: u64,
    attestationRewardPerEpoch: u64)

  datatype PenaltyResults = PenaltyResults(
    sourcePenalty: u64,
    targetPenalty: u64,
    headPenalty: u64,
    totalAttestationPenalty: u64,
    inactivityScore: u64,
    inactivityPenalty: u64)

  datatype SlashingResults = SlashingResults(
    initialPenalty: u64,
    proportionalPenalty: u64,
    totalPenalty: u64,
    whistleblowerReward: u64,
    proposerReward: u64)

  datatype ComparisonResult = ComparisonResult(validatorCount: int, totalStaked: u64, baseReward: u64)
}
