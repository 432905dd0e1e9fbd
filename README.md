# Ethereum validator reward and penalty engine, in Dafny

This project models the integer arithmetic of a proof-of-stake reward calculator. The
calculator derives a validator's base reward from its effective balance and the square root of
the total active stake. It splits that reward into the timely source, target and head shares
and rescales it for late inclusion. It computes the proposer and sync-committee rewards and
the whistleblower split of a slashing. On the penalty side it charges missed duties, the
inactivity leak and the inactivity-score recurrence, and the initial and correlation
(proportional) slashing penalties. It also models the fork parameter lookup, the
validator-set comparison, the activation churn limit, the library calculator type, and the
integer and decimal helpers of the command-line tool: the network state it builds, its
participation bands and its thousands separator.

Go `uint64` arithmetic is modelled exactly, with one deliberate exception: the slashing result uses the corrected correlation penalty (see Findings). The subset type `Uint64.u64` holds the values, and
`Add`, `Sub`, `Mul` wrap modulo 2^64. A Go `int` is `Uint64.i64`, and its conversion to
`uint64` is `Uint64.Wrap`. A Go run-time panic (index out of range, integer division by zero)
becomes a precondition. Floating-point thresholds are compared as exact decimals (`real`).

Modules, one per source file:

- `Uint64` and `Arith` hold the machine-integer model and the division lemmas.
- `Config` is internal/config/constants.go.
- `Types` is internal/types/types.go, restricted to its integer fields.
- `Rewards` is internal/calculator/rewards.go.
- `Penalties` is internal/calculator/penalties.go.
- `Utils` is internal/calculator/utils.go.
- `RewardCalculator` is pkg/rewards/calculator.go.
- `Cli` is cmd/calculator/main.go.

Where the repository's written description and its code disagree, the model follows the code:

- The participation bands of the tool are split at the decimals 0.3333 and 0.6667, not at the
  thirds 1/3 and 2/3. So a rate of exactly 1/3 and a rate of exactly 2/3 both fall in the
  inactivity-leak band (`Cli.StatusAtThirds`).
- The participation check rejects only rates below 0 or above 1. A rate of 0 is accepted.
- A zero total active balance is not reported as an error. The code divides by its square
  root, which is a panic, so it is a precondition here.
- The correlation penalty is not rounded to whole balance increments. The code's version,
  with wrapping `uint64` products, is `Penalties.ProportionalPenaltyAsWritten`;
  `Penalties.CalculateSlashingPenalties` uses the corrected `Penalties.ProportionalPenalty`
  (see Findings).
- The Altair inactivity quotient is 50331648, which is 3 · 2^24, although its comment reads
  2**24. The model uses the value.

## Model

| member | source | states |
|---|---|---|
| Uint64.Add | internal/calculator/rewards.go:22 | uint64 addition: the exact sum when it fits, the sum minus 2^64 when it does not |
| Uint64.Sub | internal/calculator/rewards.go:112 | uint64 subtraction: the exact difference when b ≤ a, otherwise it wraps by 2^64 |
| Uint64.Mul | internal/calculator/rewards.go:19 | uint64 multiplication: the exact product when it fits, and never more than it |
| Uint64.Div | internal/calculator/rewards.go:111-112 | uint64 division by a non-zero divisor is the truncating quotient and never exceeds the dividend |
| Uint64.Wrap | internal/calculator/rewards.go:136 | the conversion uint64(x) of a Go int: x itself when 0 ≤ x < 2^64, and x + 2^64 for a negative x |
| Config.GetForkConfig | internal/config/constants.go:102-128 | each of phase0 and altair maps to its own version; every other name, "merge" and the empty name included, falls back to the Bellatrix set; all quotients and the multiplier are positive |
| Config.ForkConfigTable | internal/config/constants.go:6-128 | the three parameter sets with their numbers: 2^26/128/1, 3·2^24/64/2, 2^25/32/3 |
| Config.UnknownForkIsBellatrix | internal/config/constants.go:123-126 | any name other than phase0 and altair gets exactly the Bellatrix parameters |
| Config.ForksGrowHarsher | internal/config/constants.go:13-25 | from phase0 through Altair to Bellatrix the leak quotient and the minimum slashing quotient shrink and the proportional multiplier grows |
| Config.WeightsPartitionDenominator | internal/config/constants.go:36-41 | source, target, head, sync and proposer weights add up to the weight denominator 64 |
| Rewards.FloorSqrtBounds | internal/calculator/rewards.go:177-194 | the reference square root r satisfies r² ≤ n < (r+1)² |
| Rewards.FloorSqrtUnique | internal/calculator/rewards.go:177-194 | any r with r² ≤ n < (r+1)² is the reference root, so the root is unique |
| Rewards.FloorSqrtMonotone | internal/calculator/rewards.go:177-194 | a larger argument never has a smaller root |
| Rewards.FloorSqrtRange | internal/calculator/rewards.go:177-194 | the root of a uint64 fits in 32 bits and is positive for a positive argument |
| Rewards.NewtonStepStaysAbove | internal/calculator/rewards.go:188 | a Newton step from a positive guess never falls below the root |
| Rewards.NewtonStopIsRoot | internal/calculator/rewards.go:188-191 | a guess at or above the root whose next step does not decrease is the root |
| Rewards.NewtonSumFits | internal/calculator/rewards.go:188 | x + n/x does not overflow uint64 for a guess between the root and 2^32 |
| Rewards.NewtonQuotientBound | internal/calculator/rewards.go:188 | n/x is at most root + 2 for a guess at or above the root |
| Rewards.IntegerSquareRoot | internal/calculator/rewards.go:177-194 | Newton's iteration from any seed between the root and 2^32 returns r with r² ≤ n < (r+1)², and 0 for 0 |
| Rewards.SqrtBalance | internal/calculator/rewards.go:83 | the root of a positive total stake is positive and below 2^32 |
| Rewards.GetBaseReward | internal/calculator/rewards.go:78-84 | a zero balance earns 0, and the division by the root never lifts the reward above Mul(eb, 64) / 4 |
| Rewards.GetBaseRewardFormula | internal/calculator/rewards.go:78-84 | while eb · 64 fits, the base reward is eb · 64 / ⌊√T⌋ / 4 with truncating divisions |
| Rewards.GetBaseRewardMonotone | internal/calculator/rewards.go:78-84 | while eb · 64 fits, the base reward does not decrease in effective balance and does not increase in total stake; past 2^58 the code's product wraps and the reward falls |
| Rewards.GetBaseRewardPerIncrement | internal/calculator/rewards.go:87-90 | equals the base reward of every validator whose balance is exactly one increment |
| Rewards.WeightedReward | internal/calculator/rewards.go:19-21 | a weighted share is below 2^64 / 64 |
| Rewards.AttestationSharesBound | internal/calculator/rewards.go:19-22 | while base · 26 fits, the three separately truncated shares add up to at most base · 54/64 and at least that minus 2 |
| Rewards.CalculateRewards | internal/calculator/rewards.go:11-75 | count and total copied; the reported root brackets T; the base reward is validator 0's; source and head are ⌊base · 14/64⌋ and target ⌊base · 26/64⌋ in uint64; the attestation reward is their sum, and within 2 of base · 54/64 while base · 26 fits |
| Rewards.FlaggedReward | internal/calculator/rewards.go:99-107 | the reward is the sum of the shares of exactly the correct components, and 0 with none |
| Rewards.InclusionDenominator | internal/calculator/rewards.go:110-113 | 8 + delay − 1 in uint64 is delay + 7 when that fits, and it wraps to 0 exactly for delay 2^64 − 7 |
| Rewards.CalculateAttestationReward | internal/calculator/rewards.go:93-116 | the accumulating method returns the flagged reward, rescaled by 8/(7 + delay) when late and positive |
| Rewards.NoFlagsNoReward | internal/calculator/rewards.go:97-113 | no correct component pays nothing, whatever the delay |
| Rewards.TimelyAttestationMatchesCalculateRewards | internal/calculator/rewards.go:93-116 | for a validator whose balance equals validator 0's, a fully correct, timely attestation earns the attestation reward CalculateRewards reports |
| Rewards.LateInclusionScaling | internal/calculator/rewards.go:110-113 | for delays below 2^64 − 8, a late positive reward is ⌊reward · 8 / (7 + delay)⌋ and strictly smaller than on time |
| Rewards.LateInclusionMonotone | internal/calculator/rewards.go:110-113 | for delays below 2^64 − 8, a later inclusion never pays more |
| Rewards.LateInclusionWrapPaysMore | internal/calculator/rewards.go:110-113 | at delay 2^64 − 6 the uint64 denominator wraps to 1 and a positive reward is paid eight times over, more than on time |
| Rewards.CalculateProposerReward | internal/calculator/rewards.go:119-124 | no attesting balance earns the proposer nothing |
| Rewards.ProposerRewardPerWholeIncrement | internal/calculator/rewards.go:119-124 | while k · 10^9 and the product fit, k whole increments of attesting balance earn exactly k · ⌊per-increment base reward / 8⌋ |
| Rewards.ProposerRewardMonotone | internal/calculator/rewards.go:119-124 | more attesting balance never earns less while nothing wraps |
| Rewards.SyncParticipantRewardFormula | internal/calculator/rewards.go:127-134 | while nothing wraps, the per-participant reward is one truncating division of base · (T / 10^9) · 2 by 64 · 32 · 512 |
| Rewards.CalculateSyncCommitteeReward | internal/calculator/rewards.go:127-137 | zero participants earn 0; otherwise the participant count times the per-participant reward when it fits |
| Rewards.SyncCommitteeRewardMonotone | internal/calculator/rewards.go:127-137 | more participants never earn less while nothing wraps |
| Rewards.CalculateWhistleblowerReward | internal/calculator/rewards.go:140-144 | the whistleblower gets ⌊eb/512⌋ and the proposer ⌊eb/4096⌋, the proposer never more than the whistleblower |
| Penalties.Min | internal/calculator/penalties.go:164-169 | the result is one of the two arguments and at most both |
| Penalties.CalculatePenalties | internal/calculator/penalties.go:9-41 | each missed component costs its weighted share; a correct one costs 0; the total is the flagged reward of the missed components; the score is copied; the leak penalty is GetInactivityPenalty |
| Penalties.PenaltyComplementsReward | internal/calculator/penalties.go:19-29 | the penalty for the missed components plus the reward for the correct ones is the full attestation reward |
| Penalties.AllMissedCostsFullReward | internal/calculator/penalties.go:19-29 | for a validator whose balance equals validator 0's, missing every duty costs the attestation reward of CalculateRewards; missing none costs 0 |
| Penalties.InLeak | internal/calculator/penalties.go:48 | the leak guard with its uint64 + 1: the current epoch exceeds finalized + 1, except that a finalized epoch of 2^64 − 1 wraps the sum to 0 and any positive current epoch is in the leak |
| Penalties.GetInactivityPenalty | internal/calculator/penalties.go:44-59 | 0 outside the leak, for a zero score and for a zero balance |
| Penalties.InactivityPenaltyFormula | internal/calculator/penalties.go:44-59 | inside the leak, and while eb · score fits, the penalty is eb · score / (4 · fork quotient) |
| Penalties.InactivityPenaltyMonotoneInScore | internal/calculator/penalties.go:55-58 | while eb · higher score fits, a higher inactivity score is never charged less; once the code's product wraps the penalty can fall |
| Penalties.CalculateInactivityScore | internal/calculator/penalties.go:62-78 | a finalized epoch takes 1 off a positive score and keeps 0 at 0; otherwise, while score + 4 fits, the score grows by 4 when inactive and by 1 when active |
| Penalties.InactiveEpochsAddBias | internal/calculator/penalties.go:72-74 | while score + 4k fits, k inactive non-finalizing epochs add exactly 4k |
| Penalties.FinalizedEpochsDrain | internal/calculator/penalties.go:63-68 | k finalized epochs give max(score − k, 0) |
| Penalties.TenInactiveEpochs | internal/calculator/penalties.go:62-78 | from 0, ten inactive epochs give 40, and one finalized epoch then gives 39 |
| Penalties.ProportionalPenaltyAsWritten | internal/calculator/penalties.go:91-94 | with wrapping uint64 products; it equals the intended penalty whenever eb · T and slashed · multiplier fit |
| Penalties.ProportionalPenalty | internal/calculator/penalties.go:91-94 | the intended correlation penalty is at most eb, equals eb once slashed · multiplier reaches T, and is 0 when it is 0 |
| Penalties.ProportionalPenaltyMonotone | internal/calculator/penalties.go:91-94 | more slashed balance never lowers the intended (corrected) correlation penalty; the code's wrapping one is not monotone |
| Penalties.ProportionalPenaltyAsWrittenNotMonotone | internal/calculator/penalties.go:91-94 | with a 32 ETH validator and a million-validator stake, slashed balance 192153584 Gwei is charged 576 but 192153585 is charged 0, where the corrected penalty stays 576 |
| Penalties.ProportionalPenaltyOverflow | internal/calculator/penalties.go:91-94 | two inputs where the code's wrapped products give 294658623 instead of 32000000000, and 307 instead of 96000 |
| Penalties.CalculateSlashingPenalties | internal/calculator/penalties.go:81-110 | the initial penalty is ⌊eb / fork quotient⌋; the correlation part is at most eb; the total is their sum below 2^63; the whistleblower split is CalculateWhistleblowerReward's |
| Penalties.CalculateSlashingPenaltiesAsWritten | internal/calculator/penalties.go:81-110 | the whole slashing result as the code computes it: the correlation part is the wrapping one, and the result equals the corrected one whenever eb · T and slashed · multiplier fit |
| Penalties.SlashingTotalUnderBellatrix | internal/calculator/penalties.go:81-110 | with the corrected correlation penalty, not the code's wrapping one: under Bellatrix, once slashed balance · 3 covers the total stake, a 32 ETH validator loses 33 ETH: 1 initial and 32 proportional |
| Penalties.GetSecurityImpactLevel | internal/calculator/penalties.go:146-161 | the level's rank is the number of thresholds reached; Minimal iff below 0.1 and Catastrophic iff at least 33.3 |
| Penalties.SecurityImpactMonotone | internal/calculator/penalties.go:146-161 | a larger slashed percentage never gives a milder level |
| Penalties.SecurityImpactEdges | internal/calculator/penalties.go:146-161 | each threshold opens the next level: 0.1 Low, 1.0 Moderate, 5.0 High, 10.0 Critical, 33.3 Catastrophic |
| Utils.Max | internal/calculator/utils.go:138-143 | the result is one of the two arguments and at least both |
| Utils.ChurnLimit | internal/calculator/utils.go:61-69 | the churn limit lies between 4 and 8 |
| Utils.ChurnLimitBands | internal/calculator/utils.go:61-69 | below 5 · 65536 validators it is 4, from 8 · 65536 on it is 8, and a negative count wraps and gets 8 |
| Utils.ChurnLimitMonotone | internal/calculator/utils.go:61-69 | more validators never lower the churn limit |
| Utils.FullBalanceState | internal/calculator/utils.go:16-28 | the state has count validators, all at 32 ETH, and a total of count · 32 ETH when that fits |
| Utils.ComparisonRow | internal/calculator/utils.go:30-39 | a row's count is the requested count and its base reward is what CalculateRewards reports for the full-balance state |
| Utils.ValidatorSetComparison | internal/calculator/utils.go:12-43 | one row per requested count, in order, each the comparison row of that count |
| Utils.ComparisonStakeIs32PerValidator | internal/calculator/utils.go:18-34 | a row's staked total is 32 ETH per validator while it fits |
| Utils.ComparisonBaseRewardFalls | internal/calculator/utils.go:12-43 | while count · 32 ETH fits, a larger validator set pays each validator no more |
| Utils.ComparisonOf4096Validators | internal/calculator/utils.go:12-43 | 4096 validators: 131072 ETH, base reward 44721, source 9782, target 18167 |
| RewardCalculator.NewCalculator | pkg/rewards/calculator.go:8-20 | a zero factor or total is replaced by the default, any other value is kept |
| RewardCalculator.NewCalculatorNormalizes | pkg/rewards/calculator.go:8-20 | with positive defaults both fields are positive, and rebuilding from them changes nothing |
| RewardCalculator.Calculator.CalculateBaseReward | pkg/rewards/calculator.go:23-29 | a zero balance or a zero factor earns 0 |
| RewardCalculator.BaseRewardClamps | pkg/rewards/calculator.go:24-26 | every balance at or above 32 ETH earns the base reward of 32 ETH |
| RewardCalculator.BaseRewardMonotone | pkg/rewards/calculator.go:23-29 | a larger balance never earns less while 32 ETH · factor fits |
| RewardCalculator.LegacyBaseRewardIsQuarter | pkg/rewards/calculator.go:23-29 | with factor 64, the same total and a balance up to 32 ETH, the engine's base reward is this base reward divided by 4 |
| RewardCalculator.Calculator.CalculateMaxAttestationReward | pkg/rewards/calculator.go:32-40 | it equals the engine's fully correct flagged reward and, while base · 26 fits, lies within 2 of base · 54/64 |
| RewardCalculator.Calculator.CalculateProposerReward | pkg/rewards/calculator.go:43-46 | a zero balance or factor earns 0; while base · 8 fits, `RewardCalculator.SharesOrdered` places it between the sync share and the base reward |
| RewardCalculator.Calculator.CalculateSyncCommitteeReward | pkg/rewards/calculator.go:49-52 | a zero balance or factor earns 0; while base · 8 fits, `RewardCalculator.SharesOrdered` bounds it by the proposer share |
| RewardCalculator.SharesOrdered | pkg/rewards/calculator.go:43-52 | while base · 8 fits, the sync share is at most the proposer share, which is at most the base reward |
| RewardCalculator.Calculator.CalculateAnnualReward | pkg/rewards/calculator.go:55-66 | equals attestation · 82180 + proposer · blocks when it fits, and the attestation part alone for 0 blocks |
| RewardCalculator.AnnualRewardMonotoneInBlocks | pkg/rewards/calculator.go:55-66 | more expected blocks never lower the annual reward while it fits |
| Cli.ParticipationAccepted | cmd/calculator/main.go:52-55 | a participation rate (a real number, so never NaN) is accepted iff 0 ≤ p ≤ 1 |
| Cli.CliNetworkState | cmd/calculator/main.go:87-109 | count validators at 32 ETH; epoch 1000; every score uint64(4k) for an inactivity period k > 0, else 0; finalized at uint64(998 − k) when validators exist and k > 0, else 998 |
| Cli.CreateNetworkState | cmd/calculator/main.go:87-109 | the state-building loop produces exactly the tool's network state |
| Cli.CliStateWithoutInactivity | cmd/calculator/main.go:87-109 | without inactivity the state is already past the leak guard, but every score is 0 so no leak penalty is charged |
| Cli.CliStateInLeak | cmd/calculator/main.go:104-107 | for 1 to 998 epochs of inactivity the state is in the leak with score 4k and penalty 32e9 · 4k / 2^27 |
| Cli.CliStateWrapStillInLeak | cmd/calculator/main.go:104-107 | at 999 epochs the finalized epoch already wraps, to 2^64 − 1, but the guard's + 1 wraps too: still in the leak, score 3996, penalty 952720 Gwei |
| Cli.CliStateWrapEndsLeak | cmd/calculator/main.go:104-107 | from 1000 epochs on, the finalized epoch wraps past the current epoch and no leak penalty is charged |
| Cli.StatusOf | cmd/calculator/main.go:172-181 | critical below 0.3333, leak from 0.3333 to below 0.6667, reduced to below 0.8, healthy from 0.8, each an iff |
| Cli.StatusMonotone | cmd/calculator/main.go:172-181 | more participation never reads as less healthy |
| Cli.StatusAtThirds | cmd/calculator/main.go:172-181 | exactly 1/3 and 2/3 fall in the leak band, and 0.33 is critical |
| Cli.DecimalDigits | cmd/calculator/main.go:319 | the decimal text of n (strconv.FormatUint) is non-empty and made of digit characters only |
| Cli.DecimalDigitsRoundTrip | cmd/calculator/main.go:319 | reading the printed digits back gives the number |
| Cli.DecimalDigitsLength | cmd/calculator/main.go:319 | a number has at most three digits iff it is below 1000; 0 prints as "0" |
| Cli.FormatNumber | cmd/calculator/main.go:318-330 | removing the commas gives the decimal digits; the length is digits + (digits − 1)/3; a comma sits exactly at every fourth position from the right |
| Cli.SmallNumbersUngrouped | cmd/calculator/main.go:322-327 | a number below 1000 is printed as its bare digits |
| Cli.GroupingShape | cmd/calculator/main.go:322-327 | the output never starts or ends with a comma and is (digits − 1)/3 characters longer than its digits |

## Left out

- Floating-point outputs are not modelled. This covers the annual, daily, weekly and monthly projections, APY, proposer probability and the average proposer reward in CalculateRewards. It also covers PercentageOfStake in CalculateSlashingPenalties and the daily penalty projections in CalculatePenalties. Float rounding has no counterpart in the integer model.
- The participation rate argument of CalculateRewards and ValidatorSetComparison is dropped. It only enters floating-point fields.
- The AnnualRewards, APY and DailyRewards fields of a comparison row are left out because they are floating point.
- EstimateNetworkIssuance, EstimateSlashingImpact, CalculateBreakEvenTime, CalculateCompoundingReturns, OptimalValidatorDistribution, CalculateNetReturns, maxFloat, minFloat, FormatGwei, FormatPercentage and CalculateAPR are left out. They compute only with floats or format floats.
- EstimateValidatorQueue: only its integer churn limit is modelled (`Utils.ChurnLimit`). The epochs and days it returns are float divisions.
- Rewards.IntegerSquareRoot: the first guess comes from a float64 square root. It is a parameter here, assumed to lie between the exact root and 2^32; a float64 rounding that falls below the root is not captured.
- The pkg/rewards square root, its constants and its DEFAULT_BASE_REWARD_FACTOR and DEFAULT_TOTAL_ACTIVE_BALANCE are not part of this model. The calculator uses the engine's root and constants, and the defaults are the `Defaults` parameter.
- RewardCalculator.Calculator.CalculateAnnualReward: the expected block count is derived in the source from a float probability. Here it is a parameter.
- Rewards.AttestationReward and Rewards.SyncParticipantReward are specification functions; their properties are stated by the lemmas next to them.
- Cli: the command-line flags, the global `inactivityEpochs` flag (a parameter here), table printing, colours, JSON output and the comparison drivers are presentation code and are not modelled.
- Cli.FormatNumber: `strconv.FormatUint` is modelled by the recursive `Cli.DecimalDigits`; the string join over one-character strings is modelled as appending characters.
- Penalties.CalculateSlashingPenalties uses the corrected correlation penalty (`Penalties.ProportionalPenalty`), not the wrapping one the code computes (see Findings).
- Penalties.CalculateSlashingPenalties: the total is stated as the exact sum only when the effective balance is below 2^63, which covers every realistic balance; above that the uint64 addition may wrap.
- Penalties.SlashingTotalUnderBellatrix: states the total under the corrected correlation penalty; the code as written charges less once eb · T wraps (at T = 32e9, 1e9 + 294658623 Gwei instead of 33e9; see Findings).
- Cli.ParticipationAccepted: the flag is a float64 parsed from text; a NaN value fails both comparisons at main.go:52 and is accepted, which the model over real numbers does not capture.
- Types: the activation and exit epochs and the float fields of the result records are not modelled.

## Findings

| source | as written | input that shows it | evidently intended | confidence | as-written member | corrected member |
|---|---|---|---|---|---|---|
| internal/calculator/penalties.go:91-94 | the correlation penalty multiplies eb by min(slashed · multiplier, T) in uint64 before dividing by T, so the product wraps for any realistic stake | Bellatrix, eb = slashed = 32e9: with T = 32e9 the code gives 294658623 instead of 32000000000; with T = 10^6 · 32e9 it gives 307 instead of 96000, and one more Gwei of slashed balance (192153584 to 192153585) drops it from 576 to 0 | eb · min(slashed · multiplier, T) / T computed without overflow (for example by dividing by the increment first, or in wider arithmetic) | high, not executed | Penalties.ProportionalPenaltyAsWritten, used by Penalties.CalculateSlashingPenaltiesAsWritten (counterexamples in Penalties.ProportionalPenaltyOverflow and Penalties.ProportionalPenaltyAsWrittenNotMonotone) | Penalties.ProportionalPenalty |
