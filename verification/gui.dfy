/**
 * The integer helpers of components/gui/gui.c that the dashboard's screens
 * are laid out with: the flow layout that hands out element positions,
 * the search for the first forecast entry not before a given time, the
 * day/night test, the text measurement and the index arithmetic of the
 * weather widget.  Coordinates, widths and heights are `uint16_t`, so the
 * model reduces them modulo 2^16 (`Bitui.Short`).
 */
module Gui {
  import opened Wrappers
  import opened Bitui

  // ---------------------------------------------------------------------
  // bitlayout_t
  // ---------------------------------------------------------------------

  datatype Direction = Horizontal | Vertical

  /** The cursor after an element of the given size: the main axis moves by the size along it plus the gap. */
  function Advanced(cursor: Point, dir: Direction, size: Point, gap: int): Point {
    if dir == Horizontal then cursor.(x := Short(cursor.x + size.x + gap))
    else cursor.(y := Short(cursor.y + size.y + gap))
  }

  /** Only the main-axis coordinate moves, by size plus gap, wrapping as a `uint16_t`. */
  lemma AdvancedMovesMainAxis(cursor: Point, dir: Direction, size: Point, gap: int)
    ensures dir == Horizontal ==> Advanced(cursor, dir, size, gap).y == cursor.y
    ensures dir == Vertical ==> Advanced(cursor, dir, size, gap).x == cursor.x
    ensures (dir == Horizontal && 0 <= cursor.x + size.x + gap < ShortLimit)
            ==> Advanced(cursor, dir, size, gap).x == cursor.x + size.x + gap
    ensures (dir == Vertical && 0 <= cursor.y + size.y + gap < ShortLimit)
            ==> Advanced(cursor, dir, size, gap).y == cursor.y + size.y + gap
  {
  }

  /** Where the n-th of a run of equally sized elements is placed. */
  function Placed(cursor: Point, dir: Direction, size: Point, gap: int, n: nat): Point {
    if n == 0 then cursor else Advanced(Placed(cursor, dir, size, gap, n - 1), dir, size, gap)
  }

  /**
   * Equally sized elements are spaced evenly: while nothing wraps, the n-th
   * horizontal element sits n steps of size plus gap from the start, at the
   * same height.
   */
  lemma {:induction false} PlacedEvenly(cursor: Point, size: Point, gap: int, n: nat)
    requires 0 <= cursor.x && 0 <= size.x + gap
    requires cursor.x + n * (size.x + gap) < ShortLimit
    ensures Placed(cursor, Horizontal, size, gap, n) == Point(cursor.x + n * (size.x + gap), cursor.y)
  {
    if n > 0 {
      assert (n - 1) * (size.x + gap) <= n * (size.x + gap);
      PlacedEvenly(cursor, size, gap, n - 1);
      assert cursor.x + (n - 1) * (size.x + gap) + size.x + gap == cursor.x + n * (size.x + gap);
    }
  }

  /** `bitlayout_t`: a run of elements laid out along one axis. */
  class Layout {
    const dir: Direction
    /** `int16_t` */
    const elementGap: int
    /** `uint16_t` */
    var elementCount: int
    var cursor: Point

    constructor (dir: Direction, elementGap: int, cursor: Point)
      ensures this.dir == dir && this.elementGap == elementGap
      ensures this.cursor == cursor && elementCount == 0
    {
      this.dir := dir;
      this.elementGap := elementGap;
      this.cursor := cursor;
      elementCount := 0;
    }

    /** `bitlayout_element`: hands out the current cursor and moves it past an element of the given size. */
    method Element(size: Point) returns (pos: Point)
      modifies this
      ensures pos == old(cursor)
      ensures cursor == Advanced(old(cursor), dir, size, elementGap)
      ensures elementCount == Short(old(elementCount) + 1)
    {
      pos := cursor;
      var delta := if dir == Horizontal then size.x else size.y;
      if dir == Horizontal {
        cursor := cursor.(x := Short(cursor.x + delta + elementGap));
      } else {
        cursor := cursor.(y := Short(cursor.y + delta + elementGap));
      }
      elementCount := Short(elementCount + 1);
    }
  }

  // ---------------------------------------------------------------------
  // find_closest
  // ---------------------------------------------------------------------

  /** The first index from i on, below count, whose entry is not before needle; count when there is none. */
  function ClosestFrom(haystack: seq<int>, count: nat, needle: int, i: nat): nat
    requires i <= count <= |haystack|
    decreases count - i
  {
    if i < count && haystack[i] < needle then ClosestFrom(haystack, count, needle, i + 1) else i
  }

  function Closest(haystack: seq<int>, count: nat, needle: int): nat
    requires count <= |haystack|
  {
    ClosestFrom(haystack, count, needle, 0)
  }

  lemma {:induction false} ClosestFromIsLeast(haystack: seq<int>, count: nat, needle: int, i: nat)
    requires i <= count <= |haystack|
    requires forall j :: 0 <= j < i ==> haystack[j] < needle
    ensures i <= ClosestFrom(haystack, count, needle, i) <= count
    ensures forall j :: 0 <= j < ClosestFrom(haystack, count, needle, i) ==> haystack[j] < needle
    ensures ClosestFrom(haystack, count, needle, i) < count ==> haystack[ClosestFrom(haystack, count, needle, i)] >= needle
    decreases count - i
  {
    if i < count && haystack[i] < needle {
      ClosestFromIsLeast(haystack, count, needle, i + 1);
    }
  }

  /** Closest is the least index below count whose entry is at least needle, or count. */
  lemma ClosestIsLeast(haystack: seq<int>, count: nat, needle: int)
    requires count <= |haystack|
    ensures Closest(haystack, count, needle) <= count
    ensures forall j :: 0 <= j < Closest(haystack, count, needle) ==> haystack[j] < needle
    ensures Closest(haystack, count, needle) < count ==> haystack[Closest(haystack, count, needle)] >= needle
  {
    ClosestFromIsLeast(haystack, count, needle, 0);
  }

  /** `find_closest`: a linear scan for the first entry not before needle. */
  method FindClosest(haystack: seq<int>, count: nat, needle: int) returns (i: nat)
    requires count <= |haystack|
    ensures i == Closest(haystack, count, needle)
    ensures i <= count
    ensures forall j :: 0 <= j < i ==> haystack[j] < needle
    ensures i < count ==> haystack[i] >= needle
  {
    i := 0;
    while i < count && haystack[i] < needle
      invariant i <= count
      invariant forall j :: 0 <= j < i ==> haystack[j] < needle
      invariant ClosestFrom(haystack, count, needle, i) == Closest(haystack, count, needle)
      decreases count - i
    {
      i := i + 1;
    }
  }

  // ---------------------------------------------------------------------
  // is_day
  // ---------------------------------------------------------------------

  /** FORECAST_DURATION_DAYS */
  const ForecastDays: nat := 2
  /** FORECAST_HOURLY_POINT_COUNT */
  const HourlyPoints: nat := ForecastDays * 24

  const Int64Limit: int := 0x8000_0000_0000_0000

  predicate Int64(v: int) {
    -Int64Limit <= v < Int64Limit
  }

  /** `struct ForecastDaily`: the start, sunrise and sunset of each forecast day, as `int64_t` Unix times. */
  datatype Daily = Daily(time: seq<int>, sunrise: seq<int>, sunset: seq<int>)

  predicate DailyOk(daily: Daily) {
    |daily.time| == ForecastDays && |daily.sunrise| == ForecastDays && |daily.sunset| == ForecastDays
  }

  /** `cur_day`: the index of the day `now` falls in, one before the first day starting at or after `now`. */
  function DayIndex(daily: Daily, now: int): int
    requires DailyOk(daily)
  {
    Closest(daily.time, ForecastDays, now) - 1
  }

  /**
   * What the source's assertion and its `int64_t` subtractions demand: `now`
   * is after the first day's start, and both differences fit in 64 bits.
   */
  predicate IsDayDefined(daily: Daily, now: int) {
    DailyOk(daily) && 0 <= DayIndex(daily, now)
    && Int64(now - daily.sunrise[DayIndex(daily, now)])
    && Int64(now - daily.sunset[DayIndex(daily, now)])
  }

  /**
   * `(a ^ b) < 0` on two's-complement `int64_t`: the sign bit of an exclusive
   * or is the exclusive or of the sign bits.
   */
  predicate SignsDiffer(a: int, b: int) {
    (a < 0) != (b < 0)
  }

  /** The result of is_day and what it writes through `sun_event_time` (None when that pointer is NULL). */
  datatype DayAnswer = DayAnswer(isDay: bool, sunEvent: Option<int>)

  /** `is_day` */
  function IsDay(daily: Daily, now: int, wantEvent: bool): (r: DayAnswer)
    requires IsDayDefined(daily, now)
    ensures r.sunEvent.Some? <==> wantEvent
  {
    var day := DayIndex(daily, now);
    var isDay := SignsDiffer(now - daily.sunrise[day], now - daily.sunset[day]);
    DayAnswer(isDay, if wantEvent then Some(if isDay then daily.sunrise[day] else daily.sunset[day]) else None)
  }

  /** The day index is valid exactly when `now` is after the start of the first day. */
  lemma DayIndexValid(daily: Daily, now: int)
    requires DailyOk(daily)
    ensures 0 <= DayIndex(daily, now) <==> daily.time[0] < now
    ensures DayIndex(daily, now) < ForecastDays
  {
    ClosestIsLeast(daily.time, ForecastDays, now);
  }

  /** With days in order, the day index names the last day that started before `now`. */
  lemma DayIndexIsCurrentDay(daily: Daily, now: int)
    requires DailyOk(daily) && daily.time[0] < now
    ensures daily.time[DayIndex(daily, now)] < now
    ensures DayIndex(daily, now) + 1 < ForecastDays ==> now <= daily.time[DayIndex(daily, now) + 1]
  {
    ClosestIsLeast(daily.time, ForecastDays, now);
  }

  /** When sunrise is not after sunset, it is day exactly from sunrise (inclusive) to sunset (exclusive). */
  lemma IsDayBetween(daily: Daily, now: int, wantEvent: bool)
    requires IsDayDefined(daily, now)
    requires daily.sunrise[DayIndex(daily, now)] <= daily.sunset[DayIndex(daily, now)]
    ensures IsDay(daily, now, wantEvent).isDay
            <==> daily.sunrise[DayIndex(daily, now)] <= now < daily.sunset[DayIndex(daily, now)]
  {
  }

  /** The time written back is the sunrise by day and the sunset by night, and the day test does not depend on it. */
  lemma IsDaySunEvent(daily: Daily, now: int)
    requires IsDayDefined(daily, now)
    ensures IsDay(daily, now, true).isDay == IsDay(daily, now, false).isDay
    ensures IsDay(daily, now, false).sunEvent == None
    ensures IsDay(daily, now, true).sunEvent
            == Some(if IsDay(daily, now, true).isDay then daily.sunrise[DayIndex(daily, now)]
                    else daily.sunset[DayIndex(daily, now)])
  {
  }

  // ---------------------------------------------------------------------
  // measure_text
  // ---------------------------------------------------------------------

  /**
   * The part of a `GFXfont` that measuring needs: the character range it
   * covers, the `xAdvance` of each glyph (indexed by code minus `first`) and
   * the line advance `yAdvance`, all `uint8_t`.
   */
  datatype Font = Font(first: int, last: int, xAdvance: seq<int>, yAdvance: int)

  predicate FontOk(font: Font) {
    0 <= font.first <= font.last
    && |font.xAdvance| == font.last - font.first + 1
    && (forall i :: 0 <= i < |font.xAdvance| ==> 0 <= font.xAdvance[i] < 0x100)
    && 0 <= font.yAdvance < 0x100
  }

  /** The check measure_text makes before indexing the glyph table, as written. */
  predicate GlyphCheckAsWritten(font: Font, c: char) {
    c as int >= font.first || c as int <= font.last
  }

  /** The check it evidently intends: the character has a glyph. */
  predicate InFont(font: Font, c: char) {
    font.first <= c as int <= font.last
  }

  /** The check as written lets every character through, so it does not keep the glyph index in the table. */
  lemma GlyphCheckAsWrittenPassesAll(font: Font, c: char)
    requires FontOk(font)
    ensures GlyphCheckAsWritten(font, c)
  {
  }

  /** A concrete character the check as written lets through although the font has no glyph for it. */
  lemma GlyphCheckAsWrittenOutOfTable()
    ensures var font := Font(32, 126, seq(95, i => 8), 16);
            FontOk(font) && GlyphCheckAsWritten(font, '\t') && !InFont(font, '\t')
            && !(0 <= '\t' as int - font.first < |font.xAdvance|)
  {
  }

  /** The intended check is exactly what makes the glyph index fall inside the table. */
  lemma InFontIndexesTable(font: Font, c: char)
    requires FontOk(font)
    ensures InFont(font, c) <==> 0 <= c as int - font.first < |font.xAdvance|
  {
  }

  /** Every character other than a line break has a glyph. */
  predicate Printable(font: Font, s: string) {
    forall i :: 0 <= i < |s| ==> s[i] == '\n' || InFont(font, s[i])
  }

  function GlyphAdvance(font: Font, c: char): int
    requires FontOk(font) && InFont(font, c)
  {
    font.xAdvance[c as int - font.first]
  }

  /** The summed glyph advances of the characters s[a..b] that are not line breaks. */
  function Advance(font: Font, s: string, a: nat, b: nat): nat
    requires FontOk(font) && Printable(font, s) && a <= b <= |s|
    decreases b
  {
    if b == a then 0
    else Advance(font, s, a, b - 1) + (if s[b - 1] == '\n' then 0 else GlyphAdvance(font, s[b - 1]))
  }

  /** The number of line breaks among the first n characters of s. */
  function Newlines(s: string, n: nat): nat
    requires n <= |s|
  {
    if n == 0 then 0 else Newlines(s, n - 1) + (if s[n - 1] == '\n' then 1 else 0)
  }

  predicate NoNewline(s: string, a: int, b: int)
    requires 0 <= a && b <= |s|
  {
    forall i :: a <= i < b ==> s[i] != '\n'
  }

  /** The index of the last line break among the first n characters of s, or -1. */
  function LastNewline(s: string, n: nat): (k: int)
    requires n <= |s|
    ensures -1 <= k < n
    ensures k >= 0 ==> s[k] == '\n'
    ensures NoNewline(s, k + 1, n)
  {
    if n == 0 then -1 else if s[n - 1] == '\n' then n - 1 else LastNewline(s, n - 1)
  }

  function Max(a: int, b: int): int {
    if a < b then b else a
  }

  /**
   * The width of the first n characters of a text: the widest of its lines,
   * each line's width being its summed advances as a `uint16_t`.  A text
   * without a line break is one line; otherwise its width is the larger of
   * the width of everything before the last line break and the width of the
   * last line.
   */
  function Width(font: Font, s: string, n: nat): nat
    requires FontOk(font) && Printable(font, s) && n <= |s|
    decreases n
  {
    var k := LastNewline(s, n);
    if k < 0 then Short(Advance(font, s, 0, n))
    else Max(Width(font, s, k), Short(Advance(font, s, k + 1, n)))
  }

  function TextWidth(font: Font, s: string): nat
    requires FontOk(font) && Printable(font, s)
  {
    Width(font, s, |s|)
  }

  /** The height of a text: no lines for the empty text, otherwise one line advance per line. */
  function TextHeight(font: Font, s: string): nat {
    if s == [] then 0 else Short(font.yAdvance * (1 + Newlines(s, |s|)))
  }

  /** The empty text measures 0 by 0. */
  lemma EmptyText(font: Font)
    requires FontOk(font)
    ensures TextWidth(font, "") == 0 && TextHeight(font, "") == 0
  {
  }

  /** A text that does not overflow is one line advance high per line. */
  lemma TextHeightCountsLines(font: Font, s: string)
    requires s != [] && 0 <= font.yAdvance * (1 + Newlines(s, |s|)) < ShortLimit
    ensures TextHeight(font, s) == font.yAdvance * (1 + Newlines(s, |s|))
  {
  }

  /** A text with no line break is as wide as its summed advances. */
  lemma SingleLineWidth(font: Font, s: string)
    requires FontOk(font) && Printable(font, s) && NoNewline(s, 0, |s|)
    ensures TextWidth(font, s) == Short(Advance(font, s, 0, |s|))
  {
    LastNewlineIs(s, |s|, -1);
  }

  /** The last line break before n is the one that has none after it. */
  lemma {:induction false} LastNewlineIs(s: string, n: nat, k: int)
    requires n <= |s| && -1 <= k < n
    requires k >= 0 ==> s[k] == '\n'
    requires NoNewline(s, k + 1, n)
    ensures LastNewline(s, n) == k
  {
    if n > 0 && n - 1 != k {
      LastNewlineIs(s, n - 1, k);
    }
  }

  /**
   * Every line is at most as wide as the text; a line is a stretch between
   * two line breaks, or a line break and an end of the text.
   */
  lemma {:induction false} WidthCoversLines(font: Font, s: string, n: nat, a: nat, b: nat)
    requires FontOk(font) && Printable(font, s) && n <= |s|
    requires a <= b <= n
    requires a == 0 || s[a - 1] == '\n'
    requires b == n || s[b] == '\n'
    requires NoNewline(s, a, b)
    ensures Short(Advance(font, s, a, b)) <= Width(font, s, n)
    decreases n
  {
    var k := LastNewline(s, n);
    if k < 0 {
      assert a == 0 && b == n;
    } else if a > k {
      assert a == k + 1 && b == n;
    } else {
      assert b <= k;
      WidthCoversLines(font, s, k, a, b);
    }
  }

  /** Some line is exactly as wide as the text. */
  lemma {:induction false} WidthIsSomeLine(font: Font, s: string, n: nat) returns (a: nat, b: nat)
    requires FontOk(font) && Printable(font, s) && n <= |s|
    ensures a <= b <= n
    ensures a == 0 || s[a - 1] == '\n'
    ensures b == n || s[b] == '\n'
    ensures NoNewline(s, a, b)
    ensures Short(Advance(font, s, a, b)) == Width(font, s, n)
    decreases n
  {
    var k := LastNewline(s, n);
    if k < 0 {
      a, b := 0, n;
    } else if Width(font, s, k) <= Short(Advance(font, s, k + 1, n)) {
      a, b := k + 1, n;
    } else {
      a, b := WidthIsSomeLine(font, s, k);
    }
  }

  /** A `uint16_t` accumulator may be reduced at every step or only at the end. */
  lemma ShortAdd(a: int, b: int)
    ensures Short(Short(a) + b) == Short(a + b)
  {
    var q := a / ShortLimit;
    assert a == q * ShortLimit + Short(a);
    assert a + b == q * ShortLimit + (Short(a) + b);
  }

  /** Closing the line that starts at lineStart and runs to n completes the width of the first n characters. */
  lemma WidthAtBreak(font: Font, s: string, n: nat, lineStart: nat)
    requires FontOk(font) && Printable(font, s)
    requires lineStart <= n <= |s|
    requires lineStart == 0 || s[lineStart - 1] == '\n'
    requires NoNewline(s, lineStart, n)
    ensures Width(font, s, n)
            == Max(if lineStart == 0 then 0 else Width(font, s, lineStart - 1), Short(Advance(font, s, lineStart, n)))
  {
    LastNewlineIs(s, n, lineStart - 1);
  }

  /** The height of the first i characters, as measure_text accumulates it. */
  function HeightAt(font: Font, s: string, i: nat): nat
    requires i <= |s|
  {
    if s == [] then 0 else Short(font.yAdvance * (1 + Newlines(s, i)))
  }

  /** Each line break adds one line advance to the height, and nothing else does. */
  lemma HeightStep(font: Font, s: string, i: nat)
    requires i < |s|
    ensures HeightAt(font, s, i + 1) == if s[i] == '\n' then Short(HeightAt(font, s, i) + font.yAdvance) else HeightAt(font, s, i)
  {
    if s[i] == '\n' {
      ShortAdd(font.yAdvance * (1 + Newlines(s, i)), font.yAdvance);
      assert font.yAdvance * (1 + Newlines(s, i)) + font.yAdvance == font.yAdvance * (1 + Newlines(s, i + 1));
    }
  }

  /** Each glyph adds its advance to the width of the line it is on. */
  lemma LineStep(font: Font, s: string, lineStart: nat, i: nat)
    requires FontOk(font) && Printable(font, s) && lineStart <= i < |s| && s[i] != '\n'
    ensures Short(Advance(font, s, lineStart, i + 1)) == Short(Short(Advance(font, s, lineStart, i)) + GlyphAdvance(font, s[i]))
  {
    ShortAdd(Advance(font, s, lineStart, i), GlyphAdvance(font, s[i]));
  }

  /** `measure_text`: the width of the widest line and the height of all lines, in pixels. */
  method MeasureText(font: Font, s: string) returns (w: int, h: int)
    requires FontOk(font) && Printable(font, s)
    ensures w == TextWidth(font, s)
    ensures h == TextHeight(font, s)
  {
    w, h := 0, 0;
    if s != [] {
      h := font.yAdvance;
    }
    var lineWidth := 0;
    var lineStart := 0;
    var i := 0;
    while i < |s|
      invariant 0 <= lineStart <= i <= |s|
      invariant lineStart == 0 || s[lineStart - 1] == '\n'
      invariant NoNewline(s, lineStart, i)
      invariant lineWidth == Short(Advance(font, s, lineStart, i))
      invariant w == if lineStart == 0 then 0 else Width(font, s, lineStart - 1)
      invariant h == HeightAt(font, s, i)
    {
      HeightStep(font, s, i);
      if s[i] == '\n' {
        h := Short(h + font.yAdvance);
        WidthAtBreak(font, s, i, lineStart);
        w := Max(w, lineWidth);
        lineWidth := 0;
        lineStart := i + 1;
      } else {
        LineStep(font, s, lineStart, i);
        lineWidth := Short(lineWidth + GlyphAdvance(font, s[i]));
      }
      i := i + 1;
    }
    WidthAtBreak(font, s, i, lineStart);
    w := Max(w, lineWidth);
  }

  // ---------------------------------------------------------------------
  // widget_weather index arithmetic
  // ---------------------------------------------------------------------

  /** SCREEN_ROWS, the long side of the panel in pixels. */
  const ScreenRows: nat := 384
  /** COL_WIDTH of the weather widget. */
  const ColumnWidth: nat := 32
  /** HOURS_DISPLAYED: as many hour columns as fit in the widget. */
  const HoursDisplayed: nat := (ScreenRows - 6 - 1) / ColumnWidth

  /**
   * The hourly indices the weather widget's drawing loop reads: it starts at
   * the first hour not before `now` among the first 48 − HOURS_DISPLAYED,
   * and each pass reads the current hour and moves to the next, a pass that
   * meets a day/night change also using up one more column.  Whether pass k
   * meets such a change is `changes[k]`.
   */
  method WeatherHours(hourlyTime: seq<int>, now: int, changes: seq<bool>) returns (read: seq<nat>)
    requires |hourlyTime| == HourlyPoints && |changes| == HoursDisplayed
    ensures 0 < |read| <= HoursDisplayed
    ensures read[0] == Closest(hourlyTime, HourlyPoints - HoursDisplayed, now)
    ensures forall j :: 0 <= j < |read| ==> read[j] == read[0] + j
    ensures forall j :: 0 <= j < |read| ==> read[j] < HourlyPoints
  {
    var curHour := FindClosest(hourlyTime, HourlyPoints - HoursDisplayed, now);
    read := [];
    var i := 0;
    while i < HoursDisplayed
      invariant |read| <= i <= HoursDisplayed + 1
      invariant |read| <= HoursDisplayed
      invariant i > 0 ==> 0 < |read|
      invariant curHour == Closest(hourlyTime, HourlyPoints - HoursDisplayed, now) + |read|
      invariant curHour <= HourlyPoints - HoursDisplayed + |read|
      invariant |read| > 0 ==> read[0] == Closest(hourlyTime, HourlyPoints - HoursDisplayed, now)
      invariant forall j :: 0 <= j < |read| ==> read[j] == curHour - |read| + j
      invariant forall j :: 0 <= j < |read| ==> read[j] < HourlyPoints
    {
      read := read + [curHour];
      if changes[|read| - 1] {
        i := i + 1;
      }
      i := i + 1;
      curHour := curHour + 1;
    }
  }

  /** The first pass over the hours reads `cur_hour + i` for every displayed column, all inside the table. */
  lemma LabelPassInBounds(hourlyTime: seq<int>, now: int, i: nat)
    requires |hourlyTime| == HourlyPoints && i < HoursDisplayed
    ensures HoursDisplayed == 11
    ensures Closest(hourlyTime, HourlyPoints - HoursDisplayed, now) + i < HourlyPoints
  {
    ClosestIsLeast(hourlyTime, HourlyPoints - HoursDisplayed, now);
  }
}
