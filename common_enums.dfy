/** `CommonEnums.Intervals`: fixed lengths of time in milliseconds, each
    defined from the one before it by a constant factor. */
module CommonEnums {

  import opened JvmInts

  datatype Intervals = Second | Minute | Hour | Day | Week | Month {

    /** Position in the enum's declaration order. */
    function Ordinal(): nat {
      match this
      case Second => 0
      case Minute => 1
      case Hour => 2
      case Day => 3
      case Week => 4
      case Month => 5
    }

    /** The constructor argument `valueInMillis`, built by the same chained
        multiplications as the enum entries. */
    function ValueInMillis(): (v: Long)
      ensures this == Second ==> v == 1000
      ensures this == Minute ==> v == 60_000
      ensures this == Hour ==> v == 3_600_000
      ensures this == Day ==> v == 86_400_000
      ensures this == Week ==> v == 604_800_000
      ensures this == Month ==> v == 2_592_000_000
      decreases Ordinal()
    {
      match this
      case Second => 1000
      case Minute => 60 * Second.ValueInMillis()
      case Hour => 60 * Minute.ValueInMillis()
      case Day => 24 * Hour.ValueInMillis()
      case Week => 7 * Day.ValueInMillis()
      case Month => 30 * Day.ValueInMillis()
    }

    /** `millis(multiple)`: a Long product, so it wraps modulo 2^64. The
        Kotlin default `multiple = 1` is kept. */
    function Millis(multiple: Long := 1): (r: Long)
      ensures LongMin <= ValueInMillis() * multiple <= LongMax ==> r == ValueInMillis() * multiple
      ensures (r - ValueInMillis() * multiple) % LongModulus == 0
    {
      WrapLong(ValueInMillis() * multiple)
    }
  }

  /** Each unit is a fixed multiple of a smaller one. */
  lemma UnitRatios()
    ensures Minute.ValueInMillis() == 60 * Second.ValueInMillis()
    ensures Hour.ValueInMillis() == 60 * Minute.ValueInMillis()
    ensures Day.ValueInMillis() == 24 * Hour.ValueInMillis()
    ensures Week.ValueInMillis() == 7 * Day.ValueInMillis()
    ensures Month.ValueInMillis() == 30 * Day.ValueInMillis()
  {
  }

  /** The values are positive and strictly increasing in declaration order. */
  lemma {:induction false} ValuesIncrease(a: Intervals, b: Intervals)
    requires a.Ordinal() < b.Ordinal()
    ensures 0 < a.ValueInMillis() < b.ValueInMillis()
  {
    match a
    case Second =>
    case Minute =>
    case Hour =>
    case Day =>
    case Week =>
    case Month =>
  }

  /** The default multiple gives the unit itself. */
  lemma MillisDefault(i: Intervals)
    ensures i.Millis() == i.ValueInMillis()
  {
  }

  /** `millis` is additive in `multiple` as long as no product leaves Long's
      range. */
  lemma MillisLinear(i: Intervals, a: Long, b: Long)
    requires LongMin <= a + b <= LongMax
    requires LongMin <= i.ValueInMillis() * a <= LongMax
    requires LongMin <= i.ValueInMillis() * b <= LongMax
    requires LongMin <= i.ValueInMillis() * (a + b) <= LongMax
    ensures i.Millis(a + b) == i.Millis(a) + i.Millis(b)
  {
    var v := i.ValueInMillis();
    assert v * (a + b) == v * a + v * b;
  }

  /** Past Long's range the product wraps: a multiple of days just beyond
      2^63 milliseconds comes back negative. */
  lemma MillisOverflow()
    ensures Day.Millis(106_751_991_168) == -9_223_372_036_794_351_616
  {
    var r := Day.Millis(106_751_991_168);
    assert (r - 9_223_372_036_915_200_000) % LongModulus == 0;
    assert r - 9_223_372_036_915_200_000 == -LongModulus;
  }
}
