/**
 * The lag threshold setting: `LAG_THRESHOLD` from the environment, "3" when it is
 * absent, parsed as a decimal `u64`. A value that does not parse stops start-up
 * (`expect`), so the model returns the parse error rather than any default.
 */
module Config {
  import opened Results
  import opened ParseInt

  /** The text used when `LAG_THRESHOLD` is not set. */
  const DEFAULT_LAG_THRESHOLD: string := "3"

  /**
   * The threshold from the variable's value, `None` when `env::var` fails
   * (variable missing or not Unicode). An `Err` is a fatal start-up error.
   */
  function LagThreshold(setting: Option<string>): Result<U64, IntErrorKind> {
    var text := match setting
      case None => DEFAULT_LAG_THRESHOLD
      case Some(v) => v;
    FromStrRadix(text, 10)
  }

  /** A missing setting yields 3 blocks. */
  lemma LagThresholdDefault()
    ensures LagThreshold(None) == Ok(3)
  {
  }

  /**
   * A present setting is parsed and never replaced by the default: it is accepted
   * exactly when it is an optional '+' and decimal digits whose value fits in a u64,
   * and then that value is the threshold.
   */
  lemma LagThresholdPresent(v: string)
    ensures LagThreshold(Some(v)).Ok? <==> WellFormed(v, 10) && ValueOf(Unsigned(v), 10) <= U64_MAX
    ensures LagThreshold(Some(v)).Ok? && WellFormed(v, 10)
        ==> LagThreshold(Some(v)).value == ValueOf(Unsigned(v), 10)
    ensures v == [] ==> LagThreshold(Some(v)) == Err(Empty)
  {
    FromStrRadixCorrect(v, 10);
  }

  /** Every u64 written in decimal is accepted as that threshold. */
  lemma LagThresholdRoundTrip(n: U64)
    ensures LagThreshold(Some(Encode(n, 10))) == Ok(n)
  {
    EncodeRoundTrip(n, 10);
  }

  /** Worked failure: a non-numeric value such as "abc" is an error, not the default. */
  lemma LagThresholdRejectsText()
    ensures LagThreshold(Some("abc")) == Err(InvalidDigit)
  {
  }

  /** Worked failure: the threshold is decimal, so a hex spelling such as "0x3" is rejected. */
  lemma LagThresholdRejectsHex()
    ensures LagThreshold(Some("0x3")) == Err(InvalidDigit)
  {
  }
}
