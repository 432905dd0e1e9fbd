/** The computational parts of the command-line tool (cmd/calculator/main.go): the network state it
    builds from its flags, its participation check and status bands, and its digit grouping. */
module Cli {
  import opened Uint64
  import opened Arith
  import opened Config
  import opened Types
  import opened Rewards
  import opened Penalties

  // ---------------------------------------------------------------------------------------------
  // Network state for the requested validator count

  /** The state createNetworkState returns: `validators` full-balance validators at epoch 1000,
      each with score 4k when k = inactivityEpochs is positive, finalized at 1000 − k − 2 in
      uint64 once at least one validator has been written, and no fork name. */
  function CliNetworkState(validators: i64, inactivityEpochs: i64): (s: NetworkState)
    requires validators >= 0
    ensures |s.validators| == validators
    ensures forall k :: 0 <= k < |s.validators| ==>
      s.validators[k].effectiveBalance == MAX_EFFECTIVE_BALANCE && !s.validators[k].slashed
    ensures validators * MAX_EFFECTIVE_BALANCE < TWO_64 ==>
      s.totalActiveBalance == validators * MAX_EFFECTIVE_BALANCE
    ensures s.currentEpoch == 1000 && s.currentFork == ""
    ensures validators == 0 || inactivityEpochs <= 0 ==> s.finalizedEpoch == 998
    ensures validators > 0 && inactivityEpochs > 0 ==> s.finalizedEpoch == Wrap(998 - inactivityEpochs)
    ensures forall k :: 0 <= k < |s.validators| ==>
      s.validators[k].inactivityScore == (if inactivityEpochs > 0 then Wrap(4 * inactivityEpochs) else 0)
  {
    var score := if inactivityEpochs > 0 then Wrap(inactivityEpochs * 4) else 0;
    NetworkState(
      validators := seq(validators, _ => Validator(MAX_EFFECTIVE_BALANCE, false, score)),
      totalActiveBalance := Mul(Wrap(validators), MAX_EFFECTIVE_BALANCE),
      currentEpoch := 1000,
      finalizedEpoch := if validators > 0 && inactivityEpochs > 0 then Sub(Sub(1000, Wrap(inactivityEpochs)), 2)
                        else 998,
      justifiedEpoch := 0,
      currentFork := "")
  }

  /** createNetworkState: allocates the validator slice, then writes each validator and, when an
      inactivity period was requested, its score and the finalized epoch, inside the loop. The
      period is the tool's `inactivityEpochs` flag, passed in. */
  method CreateNetworkState(validators: i64, inactivityEpochs: i64) returns (state: NetworkState)
    requires validators >= 0
    ensures state == CliNetworkState(validators, inactivityEpochs)
  {
    var slots := new Validator[validators];
    state := NetworkState([], Mul(Wrap(validators), MAX_EFFECTIVE_BALANCE), 1000, 998, 0, "");
    for i := 0 to validators
      invariant forall k :: 0 <= k < i ==>
        slots[k] == Validator(MAX_EFFECTIVE_BALANCE, false,
                              if inactivityEpochs > 0 then Wrap(inactivityEpochs * 4) else 0)
      invariant state == NetworkState([], Mul(Wrap(validators), MAX_EFFECTIVE_BALANCE), 1000,
                                      if i > 0 && inactivityEpochs > 0
                                      then Sub(Sub(1000, Wrap(inactivityEpochs)), 2) else 998,
                                      0, "")
    {
      slots[i] := Validator(MAX_EFFECTIVE_BALANCE, false, 0);
      if inactivityEpochs > 0 {
        slots[i] := slots[i].(inactivityScore := Wrap(inactivityEpochs * 4));
        state := state.(finalizedEpoch := Sub(Sub(state.currentEpoch, Wrap(inactivityEpochs)), 2));
      }
    }
    state := state.(validators := slots[..]);
  }

  /** Without an inactivity period the tool's state is still one epoch past the leak guard, but
      every score is zero, so no validator is charged. */
  lemma CliStateWithoutInactivity(validators: i64, inactivityEpochs: i64, validatorIndex: nat)
    requires validators > 0 && inactivityEpochs <= 0 && validatorIndex < validators
    ensures InLeak(CliNetworkState(validators, inactivityEpochs))
    ensures GetInactivityPenalty(CliNetworkState(validators, inactivityEpochs), validatorIndex) == 0
  {
  }

  /** With k between 1 and 998 epochs of inactivity the state is in the leak, finalized at
      998 − k, and every validator pays the Bellatrix leak on a score of 4k: 32 · 10^9 · 4k / 2^27
      Gwei. */
  lemma CliStateInLeak(validators: i64, inactivityEpochs: i64, validatorIndex: nat)
    requires validators > 0 && 0 < inactivityEpochs <= 998 && validatorIndex < validators
    ensures var s := CliNetworkState(validators, inactivityEpochs);
      && s.finalizedEpoch == 998 - inactivityEpochs
      && s.validators[validatorIndex].inactivityScore == 4 * inactivityEpochs
      && InLeak(s)
      && GetInactivityPenalty(s, validatorIndex)
         == MAX_EFFECTIVE_BALANCE * (4 * inactivityEpochs) / (INACTIVITY_SCORE_BIAS * INACTIVITY_PENALTY_QUOTIENT_BELLATRIX)
  {
    var s := CliNetworkState(validators, inactivityEpochs);
    MulLeft(4 * inactivityEpochs, 4 * 998, MAX_EFFECTIVE_BALANCE);
    assert MAX_EFFECTIVE_BALANCE * (4 * inactivityEpochs) < TWO_64;
    UnknownForkIsBellatrix(s.currentFork);
    InactivityPenaltyFormula(s, validatorIndex);
  }

  /** At exactly 999 epochs of inactivity 1000 − 999 − 2 already wraps, to 2^64 − 1; the leak
      guard's own + 1 then wraps to 0, so the state is still in the leak and every validator pays
      the leak on a score of 3996: 952720 Gwei. */
  lemma CliStateWrapStillInLeak(validators: i64, validatorIndex: nat)
    requires validators > 0 && validatorIndex < validators
    ensures var s := CliNetworkState(validators, 999);
      && s.finalizedEpoch == TWO_64 - 1
      && s.validators[validatorIndex].inactivityScore == 3996
      && InLeak(s)
      && GetInactivityPenalty(s, validatorIndex)
         == MAX_EFFECTIVE_BALANCE * 3996 / (INACTIVITY_SCORE_BIAS * INACTIVITY_PENALTY_QUOTIENT_BELLATRIX)
      && GetInactivityPenalty(s, validatorIndex) == 952720
  {
    var s := CliNetworkState(validators, 999);
    UnknownForkIsBellatrix(s.currentFork);
    InactivityPenaltyFormula(s, validatorIndex);
  }

  /** From 1000 epochs of inactivity on, 1000 − k − 2 wraps to a finalized epoch far in the
      future: the state leaves the leak and nobody is charged, whatever the scores. */
  lemma CliStateWrapEndsLeak(validators: i64, inactivityEpochs: i64, validatorIndex: nat)
    requires validators > 0 && inactivityEpochs >= 1000 && validatorIndex < validators
    ensures var s := CliNetworkState(validators, inactivityEpochs);
      && s.finalizedEpoch == TWO_64 + 998 - inactivityEpochs
      && !InLeak(s)
      && GetInactivityPenalty(s, validatorIndex) == 0
  {
  }

  // ---------------------------------------------------------------------------------------------
  // Participation rate

  /** The range check on the participation flag: reject below 0 or above 1. */
  function ParticipationAccepted(participation: real): (ok: bool)
    ensures ok <==> 0.0 <= participation <= 1.0
  {
    !(participation < 0.0 || participation > 1.0)
  }

  /** The health label of a participation rate. */
  datatype NetworkStatus = CriticalNoFinality | InactivityLeakActive | ReducedSecurity | Healthy
  {
    /** Higher is healthier. */
    function Health(): nat
    {
      match this
      case CriticalNoFinality => 0
      case InactivityLeakActive => 1
      case ReducedSecurity => 2
      case Healthy => 3
    }

    /** The label the tool prints. */
    function Label(): string
    {
      match this
      case CriticalNoFinality => "CRITICAL - No finality"
      case InactivityLeakActive => "Inactivity leak active"
      case ReducedSecurity => "Reduced security"
      case Healthy => "Healthy"
    }
  }

  /** The status bands of the participation comparison: half-open, closed below, with the
      decimal edges 0.3333, 0.6667 and 0.8. */
  function StatusOf(rate: real): (status: NetworkStatus)
    ensures status == CriticalNoFinality <==> rate < 0.3333
    ensures status == InactivityLeakActive <==> 0.3333 <= rate < 0.6667
    ensures status == ReducedSecurity <==> 0.6667 <= rate < 0.8
    ensures status == Healthy <==> 0.8 <= rate
  {
    if rate < 0.3333 then CriticalNoFinality
    else if rate < 0.6667 then InactivityLeakActive
    else if rate < 0.8 then ReducedSecurity
    else Healthy
  }

  /** More participation never reads as less healthy. */
  lemma StatusMonotone(r1: real, r2: real)
    requires r1 <= r2
    ensures StatusOf(r1).Health() <= StatusOf(r2).Health()
  {
  }

  /** The decimal edges are not thirds: exactly one third and exactly two thirds both fall in the
      leak band. */
  lemma StatusAtThirds()
    ensures StatusOf(1.0 / 3.0) == InactivityLeakActive
    ensures StatusOf(2.0 / 3.0) == InactivityLeakActive
    ensures StatusOf(0.3333) == InactivityLeakActive
    ensures StatusOf(0.33) == CriticalNoFinality
  {
  }

  // ---------------------------------------------------------------------------------------------
  // Digit grouping

  /** The decimal character of a digit. */
  function DigitChar(d: nat): (c: char)
    requires d < 10
    ensures '0' <= c <= '9'
  {
    ('0' as int + d) as char
  }

  /** `strconv.FormatUint(n, 10)`: the decimal digits of n, most significant first, no leading
      zero. */
  function DecimalDigits(n: nat): (digits: string)
    ensures 0 < |digits|
    ensures forall k :: 0 <= k < |digits| ==> '0' <= digits[k] <= '9'
    decreases n
  {
    if n < 10 then [DigitChar(n)] else DecimalDigits(n / 10) + [DigitChar(n % 10)]
  }

  /** Reads a string of decimal digits back as a number. */
  function DecimalValue(digits: string): (n: nat)
    requires forall k :: 0 <= k < |digits| ==> '0' <= digits[k] <= '9'
  {
    if digits == [] then 0
    else 10 * DecimalValue(digits[..|digits| - 1]) + (digits[|digits| - 1] as int - '0' as int)
  }

  /** Reading the digits back gives the number. */
  lemma {:induction false} DecimalDigitsRoundTrip(n: nat)
    ensures DecimalValue(DecimalDigits(n)) == n
    decreases n
  {
    var digits := DecimalDigits(n);
    if n >= 10 {
      DecimalDigitsRoundTrip(n / 10);
      assert digits[..|digits| - 1] == DecimalDigits(n / 10);
    }
  }

  /** A number has at most three digits exactly when it is below 1000. */
  lemma {:induction false} DecimalDigitsLength(n: nat)
    ensures n < 10 ==> |DecimalDigits(n)| == 1
    ensures n >= 10 ==> |DecimalDigits(n)| == |DecimalDigits(n / 10)| + 1
    ensures |DecimalDigits(n)| <= 3 <==> n < 1000
    ensures n == 0 ==> DecimalDigits(n) == "0"
    decreases n
  {
    if n >= 10 {
      DecimalDigitsLength(n / 10);
    }
  }

  /** The string with every comma removed. */
  function Strip(s: string): (t: string)
    ensures |t| <= |s|
    ensures forall k :: 0 <= k < |t| ==> t[k] != ','
  {
    if s == [] then []
    else Strip(s[..|s| - 1]) + (if s[|s| - 1] == ',' then [] else [s[|s| - 1]])
  }

  /** Removing the commas of a string extended by one character. */
  lemma StripAppend(s: string, c: char)
    ensures Strip(s + [c]) == Strip(s) + (if c == ',' then [] else [c])
  {
    assert (s + [c])[..|s|] == s;
  }

  /** The length of n with its digits grouped: one comma between consecutive groups of three. */
  function GroupedLength(digitCount: nat): nat
  {
    if digitCount == 0 then 0 else digitCount + (digitCount - 1) / 3
  }

  /** The output length of the grouping loop over `digitCount` digits once `i` of them are
      written: the full grouped length less the remaining digits and the commas in front of them. */
  function WrittenLength(digitCount: nat, i: nat): int
  {
    if i == 0 then 0 else GroupedLength(digitCount) - (digitCount - i) - (digitCount - i) / 3
  }

  /** One step of the grouping loop: digit i gets a comma in front exactly when the output so far
      ends a multiple of four before the end, and the output grows by the comma and the digit. */
  lemma GroupingStep(digitCount: nat, i: nat)
    requires i < digitCount
    ensures var total, before := GroupedLength(digitCount), WrittenLength(digitCount, i);
      if i > 0 && (digitCount - i) % 3 == 0 then
        WrittenLength(digitCount, i + 1) == before + 2 && (total - before) % 4 == 0
        && (total - (before + 1)) % 4 != 0
      else
        WrittenLength(digitCount, i + 1) == before + 1 && (total - before) % 4 != 0
  {
    var rest := digitCount - i;
    var q, r := rest / 3, rest % 3;
    assert rest == 3 * q + r;
    if i == 0 {
      var q0, r0 := (digitCount - 1) / 3, (digitCount - 1) % 3;
      assert digitCount - 1 == 3 * q0 + r0;
    } else if r == 0 {
      assert (rest - 1) / 3 == q - 1;
    } else {
      assert (rest - 1) / 3 == q;
    }
  }

  /** Commas exactly at the positions a multiple of four before `total` (counted from the
      start), kept by appending a character that is a comma exactly when its own position is. */
  predicate CommasAligned(result: string, total: nat)
  {
    forall k :: 0 <= k < |result| ==> (result[k] == ',' <==> (total - k) % 4 == 0)
  }

  lemma CommasAlignedAppend(result: string, c: char, total: nat)
    requires CommasAligned(result, total)
    requires c == ',' <==> (total - |result|) % 4 == 0
    ensures CommasAligned(result + [c], total)
  {
  }

  /** What the grouping loop has produced once `i` digits of `digits` are written: the first i
      digits with their commas, at the length and comma positions of the full output. */
  predicate GroupingInvariant(digits: string, i: nat, result: string)
  {
    && i <= |digits|
    && Strip(result) == digits[..i]
    && |result| == WrittenLength(|digits|, i)
    && CommasAligned(result, GroupedLength(|digits|))
  }

  /** Writing digit i, with a comma in front when the digits left form whole groups of three,
      keeps the loop's invariant. */
  lemma GroupingInvariantStep(digits: string, i: nat, result: string)
    requires i < |digits| && digits[i] != ','
    requires GroupingInvariant(digits, i, result)
    ensures i > 0 && (|digits| - i) % 3 == 0 ==> GroupingInvariant(digits, i + 1, result + [','] + [digits[i]])
    ensures !(i > 0 && (|digits| - i) % 3 == 0) ==> GroupingInvariant(digits, i + 1, result + [digits[i]])
  {
    var total := GroupedLength(|digits|);
    GroupingStep(|digits|, i);
    assert digits[..i + 1] == digits[..i] + [digits[i]];
    if i > 0 && (|digits| - i) % 3 == 0 {
      StripAppend(result, ',');
      CommasAlignedAppend(result, ',', total);
      StripAppend(result + [','], digits[i]);
      CommasAlignedAppend(result + [','], digits[i], total);
    } else {
      StripAppend(result, digits[i]);
      CommasAlignedAppend(result, digits[i], total);
    }
  }

  /** formatNumber: appends the digits one by one, putting a comma in front of each digit that
      starts a group of three counted from the right. The commas are exactly at the positions a
      multiple of four from the end, and removing them gives the digits back. */
  method FormatNumber(n: u64) returns (s: string)
    ensures Strip(s) == DecimalDigits(n)
    ensures |s| == GroupedLength(|DecimalDigits(n)|)
    ensures forall k :: 0 <= k < |s| ==> (s[k] == ',' <==> (|s| - k) % 4 == 0)
  {
    var str := DecimalDigits(n);
    var result: string := [];
    for i := 0 to |str|
      invariant GroupingInvariant(str, i, result)
    {
      GroupingInvariantStep(str, i, result);
      if i > 0 && (|str| - i) % 3 == 0 {
        result := result + [','];
      }
      result := result + [str[i]];
    }
    assert str[..|str|] == str;
    s := result;
  }

  /** A string without commas loses nothing to Strip. */
  lemma {:induction false} StripCommaFree(s: string)
    requires forall k :: 0 <= k < |s| ==> s[k] != ','
    ensures Strip(s) == s
  {
    if s != [] {
      StripCommaFree(s[..|s| - 1]);
    }
  }

  /** Under four characters of output there is nothing to group: the text is the digits alone. */
  lemma ShortOutputHasNoComma(s: string)
    requires |s| < 4
    requires forall k :: 0 <= k < |s| ==> (s[k] == ',' <==> (|s| - k) % 4 == 0)
    ensures Strip(s) == s
  {
    StripCommaFree(s);
  }

  /** A number below 1000 is printed as its bare digits; 0 prints as "0". */
  lemma SmallNumbersUngrouped(n: nat, s: string)
    requires n < 1000
    requires |s| == GroupedLength(|DecimalDigits(n)|)
    requires forall k :: 0 <= k < |s| ==> (s[k] == ',' <==> (|s| - k) % 4 == 0)
    requires Strip(s) == DecimalDigits(n)
    ensures s == DecimalDigits(n)
    ensures n == 0 ==> s == "0"
  {
    DecimalDigitsLength(n);
    ShortOutputHasNoComma(s);
  }

  /** The grouped text is (digits − 1) / 3 characters longer than its digits, and with at least one digit it
      neither starts nor ends with a comma. */
  lemma GroupingShape(digitCount: nat, s: string)
    requires 0 < digitCount && |s| == GroupedLength(digitCount)
    requires forall k :: 0 <= k < |s| ==> (s[k] == ',' <==> (|s| - k) % 4 == 0)
    ensures |s| - digitCount == (digitCount - 1) / 3
    ensures s[0] != ',' && s[|s| - 1] != ','
  {
  }
}
