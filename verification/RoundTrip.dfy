/** The round trip with the program's own table and its own estimate of the power of ten: what the
    other modules ask of these holds, whatever the small errors of the floating-point products are. */
module RoundTrips {
  import opened Words
  import opened Ieee
  import opened Grisu
  import opened ScaledStart
  import opened CachedPowers
  import opened Estimates
  import opened DiyFpStrtods
  import opened DoubleConversion
  import NumberTexts
  import opened StringToDoubles
  import opened DoubleToStrings

  /** Printing any finite double in its shortest form and reading the text gives the same word, but
      for the sign of a zero if the converter prints only one zero. */
  method PrintAndParse(converter: Converter, d64: uint64, double_strtod: (seq<char>, int) -> (bool, uint64),
      estimate_error: real, errors: int -> real) returns (text: string, outcome: Outcome)
    requires converter.Valid() && IsFinite(d64) && DoubleStrtodOk(double_strtod)
    requires Tiny(estimate_error) && forall m: int :: Small(errors(m))
    ensures ShortestText(converter, d64, text)
    ensures outcome.Value? && NumberTexts.Parse(text).Some? && Reads(outcome.d64, NumberTexts.Parse(text).value)
    ensures outcome.d64 % SIGN_MASK == d64 % SIGN_MASK
    ensures outcome == Value(d64) <==> !(d64 == SIGN_MASK && converter.uniqueZero)
  {
    hide CacheOk, PowersOk, EstimateOk, DoubleStrtodOk, Cached, Significand, Exponent, CachedPowerForBinaryExponentRange;
    var v: uint64, estimated_power := d64 % SIGN_MASK, 0;
    if v > 0 {
      Ranges(v);
      var normalized_exponent := NormalizedExponent(Significand(v), Exponent(v));
      estimated_power := EstimatePower(normalized_exponent, estimate_error);
      EstimateHolds(v, Exponent(v) - normalized_exponent, estimate_error);
    }
    TableServes(errors);
    text, outcome := TextRoundTrip(converter, d64, estimated_power,
      (low: int, high: int) => CachedPowerForBinaryExponentRange(low, errors(low)), double_strtod, Cached);
  }
}
