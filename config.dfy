/** Protocol constants and the fork-dependent parameter sets of the calculator
    (internal/config/constants.go). */
module Config {
  import opened Uint64

  // Base parameters
  const BASE_REWARD_FACTOR: u64 := 64
  const BASE_REWARDS_PER_EPOCH: u64 := 4
  const PROPOSER_REWARD_QUOTIENT: u64 := 8
  const WHISTLEBLOWER_REWARD_QUOTIENT: u64 := 512
  const MIN_SLASHING_PENALTY_QUOTIENT: u64 := 128
  const PROPORTIONAL_SLASHING_MULTIPLIER: u64 := 1

  // Altair parameters
  const INACTIVITY_PENALTY_QUOTIENT_ALTAIR: u64 := 50331648
  const MIN_SLASHING_PENALTY_QUOTIENT_ALTAIR: u64 := 64
  const PROPORTIONAL_SLASHING_MULTIPLIER_ALTAIR: u64 := 2

  // Bellatrix parameters
  const INACTIVITY_PENALTY_QUOTIENT_BELLATRIX: u64 := 33554432
  const MIN_SLASHING_PENALTY_QUOTIENT_BELLATRIX: u64 := 32
  const PROPORTIONAL_SLASHING_MULTIPLIER_BELLATRIX: u64 := 3

  // Phase 0 parameters
  const INACTIVITY_PENALTY_QUOTIENT: u64 := 67108864
  const INACTIVITY_SCORE_BIAS: u64 := 4

  // Participation flag weights, in 64ths
  const TIMELY_SOURCE_WEIGHT: u64 := 14
  const TIMELY_TARGET_WEIGHT: u64 := 26
  const TIMELY_HEAD_WEIGHT: u64 := 14
  const SYNC_REWARD_WEIGHT: u64 := 2
  const PROPOSER_WEIGHT: u64 := 8
  const WEIGHT_DENOMINATOR: u64 := 64

  const SYNC_COMMITTEE_SIZE: u64 := 512

  // Balances, in Gwei
  const EFFECTIVE_BALANCE_INCREMENT: u64 := 1000000000
  const MAX_EFFECTIVE_BALANCE: u64 := 32000000000

  // Time
  const SLOTS_PER_EPOCH: u64 := 32
  const EPOCHS_PER_YEAR: u64 := 82180
  const MIN_ATTESTATION_INCLUSION_DELAY: u64 := 1

  // Fork versions
  const PHASE0_FORK_VERSION: string := "0x00000000"
  const ALTAIR_FORK_VERSION: string := "0x01000000"
  const BELLATRIX_FORK_VERSION: string := "0x02000000"

  // Validator set limits
  const CHURN_LIMIT_QUOTIENT: u64 := 65536
  const MIN_PER_EPOCH_CHURN_LIMIT: u64 := 4
  const MAX_PER_EPOCH_ACTIVATION_CHURN_LIMIT: u64 := 8

  /** The parameters that differ from one fork to the next. */
  datatype ForkConfig = ForkConfig(
    version: string,
    inactivityPenaltyQuotient: u64,
    minSlashingPenaltyQuotient: u64,
    proportionalSlashingMultiplier: u64)

  /** The fork names the lookup recognises by name. */
  predicate IsNamedFork(fork: string)
  {
    fork == "phase0" || fork == "altair" || fork == "bellatrix" || fork == "merge"
  }

  /** The parameter set of a fork; every other name, the empty one included, falls back to
      Bellatrix by looking Bellatrix up again. Every quotient it hands out is nonzero, so the
      divisions by them cannot fault. */
  function GetForkConfig(fork: string): (c: ForkConfig)
    decreases if IsNamedFork(fork) then 0 else 1
    ensures c.inactivityPenaltyQuotient > 0 && c.minSlashingPenaltyQuotient > 0
    ensures c.proportionalSlashingMultiplier > 0
    ensures c.inactivityPenaltyQuotient <= INACTIVITY_PENALTY_QUOTIENT
    ensures c.proportionalSlashingMultiplier <= PROPORTIONAL_SLASHING_MULTIPLIER_BELLATRIX
    ensures fork == "phase0" <==> c.version == PHASE0_FORK_VERSION
    ensures fork == "altair" <==> c.version == ALTAIR_FORK_VERSION
    ensures fork != "phase0" && fork != "altair" <==> c.version == BELLATRIX_FORK_VERSION
    ensures c.version == BELLATRIX_FORK_VERSION ==>
      c.inactivityPenaltyQuotient == INACTIVITY_PENALTY_QUOTIENT_BELLATRIX &&
      c.minSlashingPenaltyQuotient == MIN_SLASHING_PENALTY_QUOTIENT_BELLATRIX &&
      c.proportionalSlashingMultiplier == PROPORTIONAL_SLASHING_MULTIPLIER_BELLATRIX
  {
    if fork == "phase0" then
      ForkConfig(PHASE0_FORK_VERSION, INACTIVITY_PENALTY_QUOTIENT,
                 MIN_SLASHING_PENALTY_QUOTIENT, PROPORTIONAL_SLASHING_MULTIPLIER)
    else if fork == "altair" then
      ForkConfig(ALTAIR_FORK_VERSION, INACTIVITY_PENALTY_QUOTIENT_ALTAIR,
                 MIN_SLASHING_PENALTY_QUOTIENT_ALTAIR, PROPORTIONAL_SLASHING_MULTIPLIER_ALTAIR)
    else if fork == "bellatrix" || fork == "merge" then
      ForkConfig(BELLATRIX_FORK_VERSION, INACTIVITY_PENALTY_QUOTIENT_BELLATRIX,
                 MIN_SLASHING_PENALTY_QUOTIENT_BELLATRIX, PROPORTIONAL_SLASHING_MULTIPLIER_BELLATRIX)
    else
      GetForkConfig("bellatrix")
  }

  /** The three parameter sets, with the numbers written out. */
  lemma ForkConfigTable()
    ensures GetForkConfig("phase0") == ForkConfig("0x00000000", 67108864, 128, 1)
    ensures GetForkConfig("altair") == ForkConfig("0x01000000", 50331648, 64, 2)
    ensures GetForkConfig("bellatrix") == ForkConfig("0x02000000", 33554432, 32, 3)
    ensures GetForkConfig("merge") == GetForkConfig("bellatrix")
  {
  }

  /** Any name other than "phase0" and "altair", including the empty name a fresh network state
      carries, gets exactly the Bellatrix parameters. */
  lemma UnknownForkIsBellatrix(fork: string)
    requires fork != "phase0" && fork != "altair"
    ensures GetForkConfig(fork) == GetForkConfig("bellatrix")
  {
  }

  /** From phase0 through Altair to Bellatrix the leak and the initial slashing penalty get
      harsher (smaller quotients) and the correlation multiplier grows. */
  lemma ForksGrowHarsher()
    ensures GetForkConfig("phase0").inactivityPenaltyQuotient > GetForkConfig("altair").inactivityPenaltyQuotient
              > GetForkConfig("bellatrix").inactivityPenaltyQuotient
    ensures GetForkConfig("phase0").minSlashingPenaltyQuotient > GetForkConfig("altair").minSlashingPenaltyQuotient
              > GetForkConfig("bellatrix").minSlashingPenaltyQuotient
    ensures GetForkConfig("phase0").proportionalSlashingMultiplier < GetForkConfig("altair").proportionalSlashingMultiplier
              < GetForkConfig("bellatrix").proportionalSlashingMultiplier
  {
  }

  /** The five reward weights share out the whole denominator. */
  lemma WeightsPartitionDenominator()
    ensures TIMELY_SOURCE_WEIGHT + TIMELY_TARGET_WEIGHT + TIMELY_HEAD_WEIGHT + SYNC_REWARD_WEIGHT
            + PROPOSER_WEIGHT == WEIGHT_DENOMINATOR
  {
  }
}
