/**
 * The time-of-day values a time column stores, and the collaborators that
 * turn them into packed `int`s and parse them from text. Their bodies
 * (`PackedLocalTime.pack`, `LocalTime.parse` with the column's time
 * formatter, the missing sentinel and the list of missing-value tokens)
 * are not part of this model: they are the fields of a `TimeCodec` that
 * every operation needing them takes as a parameter.
 */
module PackedLocalTimes {
  import opened JavaLang

  /** `java.time.LocalTime`. */
  datatype LocalTime = LocalTime(hour: int, minute: int, second: int, nano: int)

  datatype TimeCodec = TimeCodec(
    /** `PackedLocalTime.pack`. */
    pack: LocalTime -> int32,
    /** `LocalTime.parse(text, TIME_FORMATTER)`: a time, or the exception it throws. */
    parse: string -> Result<LocalTime>,
    /** `ColumnType.LOCAL_TIME.getMissingValue()`, the column's `MISSING_VALUE`. */
    missingValue: int32,
    /** `TypeUtils.MISSING_INDICATORS`, matched exactly. */
    missingIndicators: set<string>)

  /**
   * `Strings.padStart(s, minLength, padChar)`: `s` behind enough copies of
   * `padChar` to make it `minLength` long; a string that is long enough
   * comes back unchanged.
   */
  function PadStart(s: string, minLength: nat, padChar: char): (r: string)
    ensures |r| == if |s| >= minLength then |s| else minLength
    ensures r[|r| - |s|..] == s
    ensures forall k :: 0 <= k < |r| - |s| ==> r[k] == padChar
    ensures |s| >= minLength ==> r == s
  {
    if |s| >= minLength then s else seq(minLength - |s|, _ => padChar) + s
  }

  /** Padding an already padded string changes nothing. */
  lemma PadStartIdempotent(s: string, minLength: nat, padChar: char)
    ensures PadStart(PadStart(s, minLength, padChar), minLength, padChar) == PadStart(s, minLength, padChar)
  {
  }
}
