/** `Util.getStringForTimestamp` and `Util.formatTimestamp`. The clock and the
    date rendering are outside the model: local midnight of today is a
    parameter, and `DateTimeFormatter` is a function from a timestamp and a
    pattern to the rendered text. */
module Timestamps {

  import opened JvmInts
  import opened Chars
  import CommonEnums

  /** `DateTimeFormatter.ofPattern(pattern).format(instant)` in the default
      time zone. */
  type Renderer = (Long, string) -> string

  const DayMillis: int := CommonEnums.Intervals.Day.ValueInMillis()

  /** `formatTimestamp(timestamp, format)`: nothing for a blank pattern,
      otherwise the trimmed pattern rendered. */
  function FormatTimestamp(timestamp: Long, format: string, render: Renderer): (r: string)
    ensures IsBlank(format) ==> r == ""
    ensures !IsBlank(format) ==>
      var p := Trim(format);
      r == render(timestamp, p) && p != [] && !IsWhitespace(p[0]) && !IsWhitespace(p[|p| - 1])
  {
    if IsBlank(format) then "" else render(timestamp, Trim(format))
  }

  /** The four ranges, relative to local midnight `m` of today. */
  predicate IsToday(ts: int, m: int) {
    m <= ts
  }

  predicate IsYesterday(ts: int, m: int) {
    m - DayMillis <= ts < m
  }

  predicate IsEarlierThisWeek(ts: int, m: int) {
    m - 6 * DayMillis <= ts < m - DayMillis
  }

  predicate IsOlder(ts: int, m: int) {
    ts < m - 6 * DayMillis
  }

  /** The text placed before the rendered pattern, and the pattern. */
  datatype Selection = Selection(prefix: string, pattern: string)

  /** The patterns and the prefix the function chooses from. */
  const TimeOfDay: string := "hh:mm a"
  const Weekday: string := "EEE"
  const Date: string := "dd/MM/yy"
  const YesterdayText: string := "Yesterday"

  /** The prefix and pattern for a timestamp, by range: the time of day for
      today, "Yesterday" alone for yesterday, the weekday for the five days
      before, the date for anything earlier; with `showTime`, the time of day
      is added to every range but today's. */
  function Select(ts: int, m: int, showTime: bool): Selection {
    var base :=
      if IsToday(ts, m) then Selection("", TimeOfDay)
      else if IsYesterday(ts, m) then Selection(YesterdayText, "")
      else if IsEarlierThisWeek(ts, m) then Selection("", Weekday)
      else Selection("", Date);
    if showTime && !IsToday(ts, m) then base.(pattern := base.pattern + " " + TimeOfDay) else base
  }

  /** A midnight far enough from Long's minimum that `midnight - 6 days`
      does not wrap; every clock reading since the year -292 million is. */
  predicate NoWrap(midnight: Long) {
    LongMin + 6 * DayMillis <= midnight
  }

  /** `getStringForTimestamp(timestamp, showTime = false)` with today's
      local midnight and the formatter passed in. */
  method GetStringForTimestamp(timestamp: Long, midnight: Long, render: Renderer, showTime: bool := false)
    returns (r: string)
    ensures NoWrap(midnight) ==>
      var s := Select(timestamp, midnight, showTime);
      r == Trim(s.prefix + " " + FormatTimestamp(timestamp, s.pattern, render))
    ensures IsToday(timestamp, midnight) ==> r == Trim(render(timestamp, TimeOfDay))
    ensures NoWrap(midnight) && IsYesterday(timestamp, midnight) && !showTime ==> r == YesterdayText
  {
    var dayMillis := CommonEnums.Intervals.Day.Millis(1);
    if NoWrap(midnight) {
      RangeStarts(midnight);
    }

    var prefix := "";
    var timeAlreadyAdded := false;
    var format: string;
    if timestamp >= midnight {
      timeAlreadyAdded := true;
      format := TimeOfDay;
    } else if timestamp >= WrapLong(midnight - dayMillis) {
      prefix := YesterdayText;
      format := "";
    } else if timestamp >= WrapLong(midnight - WrapLong(6 * dayMillis)) {
      format := Weekday;
    } else {
      format := Date;
    }
    if showTime && !timeAlreadyAdded {
      format := format + " " + TimeOfDay;
    }
    assert NoWrap(midnight) ==> Select(timestamp, midnight, showTime) == Selection(prefix, format);

    r := Trim(prefix + " " + FormatTimestamp(timestamp, format, render));

    if timeAlreadyAdded {
      TodayAlone(timestamp, render);
    }
    if prefix == YesterdayText && !showTime {
      YesterdayAlone(timestamp, render);
    }
  }

  /** Away from Long's minimum, the subtractions that start yesterday's
      range and the week's range do not wrap. */
  lemma RangeStarts(midnight: Long)
    requires NoWrap(midnight)
    ensures WrapLong(midnight - CommonEnums.Intervals.Day.Millis(1)) == midnight - DayMillis
    ensures WrapLong(midnight - WrapLong(6 * CommonEnums.Intervals.Day.Millis(1))) == midnight - 6 * DayMillis
  {
    var d := CommonEnums.Intervals.Day.Millis(1);
    assert d == DayMillis;
    assert WrapLong(6 * d) == 6 * DayMillis;
  }

  /** Today's time of day is rendered without a prefix. */
  lemma TodayAlone(timestamp: Long, render: Renderer)
    ensures Trim("" + " " + FormatTimestamp(timestamp, TimeOfDay, render)) == Trim(render(timestamp, TimeOfDay))
  {
    assert !IsWhitespace(TimeOfDay[0]) && !IsWhitespace(TimeOfDay[|TimeOfDay| - 1]);
    PatternAlone(timestamp, TimeOfDay, render);
  }

  /** With no prefix, the text is the rendering of the pattern, trimmed. */
  lemma PatternAlone(timestamp: Long, pattern: string, render: Renderer)
    requires pattern != [] && !IsWhitespace(pattern[0]) && !IsWhitespace(pattern[|pattern| - 1])
    ensures Trim("" + " " + FormatTimestamp(timestamp, pattern, render)) == Trim(render(timestamp, pattern))
  {
    assert !IsBlank(pattern);
    TrimNoOp(pattern);
    var shown := render(timestamp, pattern);
    assert "" + " " + shown == " " + shown;
    TrimLeadingSpace(shown);
  }

  /** Yesterday without the time of day is the prefix alone. */
  lemma YesterdayAlone(timestamp: Long, render: Renderer)
    ensures Trim(YesterdayText + " " + FormatTimestamp(timestamp, "", render)) == YesterdayText
  {
    assert FormatTimestamp(timestamp, "", render) == "";
    assert !IsWhitespace(YesterdayText[0]) && !IsWhitespace(YesterdayText[|YesterdayText| - 1]);
    PrefixAlone(YesterdayText);
  }

  /** A prefix followed by the separator and nothing else trims to itself. */
  lemma PrefixAlone(prefix: string)
    requires prefix != [] && !IsWhitespace(prefix[0]) && !IsWhitespace(prefix[|prefix| - 1])
    ensures Trim(prefix + " " + "") == prefix
  {
    assert prefix + " " + "" == prefix + " ";
    TrimTrailingSpace(prefix);
    TrimNoOp(prefix);
  }

  /** The four ranges cover every timestamp and never overlap. */
  lemma RangesPartition(ts: int, m: int)
    ensures IsToday(ts, m) || IsYesterday(ts, m) || IsEarlierThisWeek(ts, m) || IsOlder(ts, m)
    ensures !(IsToday(ts, m) && IsYesterday(ts, m))
    ensures !(IsToday(ts, m) && IsEarlierThisWeek(ts, m))
    ensures !(IsToday(ts, m) && IsOlder(ts, m))
    ensures !(IsYesterday(ts, m) && IsEarlierThisWeek(ts, m))
    ensures !(IsYesterday(ts, m) && IsOlder(ts, m))
    ensures !(IsEarlierThisWeek(ts, m) && IsOlder(ts, m))
  {
  }

  predicate EndsWith(s: string, suffix: string) {
    |suffix| <= |s| && s[|s| - |suffix|..] == suffix
  }

  /** The time of day is appended exactly when it is asked for and today's
      pattern, which already shows it, was not chosen; only yesterday gets a
      prefix; only yesterday without the time renders nothing. */
  lemma SelectionShape(ts: int, m: int, showTime: bool)
    ensures EndsWith(Select(ts, m, showTime).pattern, " " + TimeOfDay) <==> showTime && !IsToday(ts, m)
    ensures Select(ts, m, showTime).prefix == (if IsYesterday(ts, m) then YesterdayText else "")
    ensures IsBlank(Select(ts, m, showTime).pattern) <==> IsYesterday(ts, m) && !showTime
  {
    var p := Select(ts, m, showTime).pattern;
    var suffix := " " + TimeOfDay;
    if IsToday(ts, m) {
      assert |p| < |suffix|;
      assert !IsWhitespace(p[0]);
    } else if showTime {
      assert p[|p| - |suffix|..] == suffix;
      assert !IsWhitespace(p[|p| - 1]);
    } else if IsYesterday(ts, m) {
      assert p == "";
    } else if IsEarlierThisWeek(ts, m) {
      assert p == Weekday;
      assert |p| < |suffix|;
      assert !IsWhitespace(p[0]);
    } else {
      assert p == Date;
      assert p[|p| - |suffix|..] != suffix by { assert p[0] != suffix[0]; }
      assert !IsWhitespace(p[0]);
    }
  }

  /** A blank pattern renders as nothing; any other pattern reaches the
      formatter trimmed. */
  lemma FormatTimestampBlank(timestamp: Long, format: string, render: Renderer)
    ensures IsBlank(format) ==> FormatTimestamp(timestamp, format, render) == ""
    ensures !IsBlank(format) ==> FormatTimestamp(timestamp, format, render) == render(timestamp, Trim(format))
    ensures FormatTimestamp(timestamp, " " + TimeOfDay, render) == render(timestamp, TimeOfDay)
  {
    var p := " " + TimeOfDay;
    assert !IsWhitespace(p[1]);
    TrimLeadingSpace(TimeOfDay);
    assert !IsWhitespace(TimeOfDay[0]) && !IsWhitespace(TimeOfDay[|TimeOfDay| - 1]);
    TrimNoOp(TimeOfDay);
  }
}
