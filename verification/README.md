# epaper-dashboard, modelled in Dafny

This project models the decoding and drawing core of an ESP32 e-paper
weather dashboard and proves properties of that model.

**immjson** is a streaming, schema-driven JSON decoder. Its input arrives as
slices pulled from a read callback (`reader.slices`, consumed by index; an
empty slice is the end of the stream). Values are written straight into the
caller's memory at a cursor that a flat schema steers. The decoder is built
in layers, and each layer has a reference function and an imperative method:

- **Lexer.** `JsonLexer` holds the whitespace trim, single-byte and literal
  reads, the digit accumulator and the string chunk reader.
- **Values.** `JsonValues` holds strings with escapes, booleans, null,
  numbers (overflow-checked digits, fraction position, bounded exponent),
  the integer conversion with its range check, and the object and array
  punctuation.
- **Skipper.** `JsonSkip` holds the depth-bounded skippers.
- **Schema walker.** `JsonDeserialize` holds the walker: padding entries,
  the inline object markers, arrays filled through a reserve callback, and
  a cursor that moves past each value's slot.

The same steps appear twice in the model:

- `JsonMachine.JsonSource` is a class whose fields (remainder, slice index,
  string buffer, column and line) its methods update in place, loop for
  loop as in `components/immjson/immjson.c`.
- Every method is proved to return exactly what the reference function of
  the same name returns, and to leave the new state that function gives.

Properties of the reference functions are proved as lemmas:

- `JsonProperties`: lexer, strings and numbers.
- `JsonIntegers`: the integer encoding.
- `JsonSkipProperties`: the depth bound and the number dispatch.
- `JsonStructure`: keys and array brackets.
- `JsonWalk`: the schema walk.
- `JsonByteArrays`: whole arrays of one-byte integers.

`Dashboard` instantiates the decoder with the program's own schema:

- the reserve callbacks and array descriptions;
- `forecast_schema` and the layout it stores;
- the HTTP header split in `decode_weather`;
- the 32-entry temperature ring of `ringbuf_emplace`.

The smaller cores:

- `UlpRingBuf`: the power-of-two ring buffer of the low-power core, as a
  class with `start` and `count` fields. The capacity check and the ring
  invariant are proved for every power-of-two capacity, the slot ages for
  the 32-slot sample ring.
- `UlpCommon`: the 64-bit sample flag packing.
- `SensirionCrc`: the Sensirion CRC-8 (polynomial 0x31, initial value 0xFF).
- `Bitui`: the 1-bit-per-pixel framebuffer drawing. `Context` holds the
  framebuffer as an `array<bv8>`.
- `Gui`: the GUI's integer helpers. `Layout` is the layout cursor class;
  `find_closest`, `is_day` and `measure_text` are modelled as well.

The target is the ESP32: pointers, `int` and `long` are 32 bits wide,
`uintmax_t` is 64 bits and `UINTPTR_MAX` is 2^32 - 1. C integer widths,
wrap-around and truncation are written out where the source relies on them.

Behaviours of the code as written that are easy to misread are modelled
faithfully and pinned down by lemmas:

- A literal that mismatches drops the rest of its slice and goes on
  matching against the next slice, keeping its place in the literal. So
  after the failed "true" attempt `json_expect_bool` never reads a "false"
  at the head of the value as false: in the last slice it is refused, and
  the slices "false" and "true" read as true
  (JsonProperties.FalseAfterTrueAttempt, and the Findings below).
- A leading zero is a whole integer part: "01" reads as 0 and leaves "1"
  unread (JsonProperties.LeadingZero).
- `json_ignore_any` does not dispatch a value that starts with '9'
  (JsonSkipProperties.NineNotSkipped).
- Keys must come in schema order (JsonWalk.WalkSuffix).
- After a member whose key does not match is skipped, the walk reads ',' with no trim (components/immjson/immjson.c:458), so whitespace before that ',' ends the walk and the later keys are never decoded (JsonWalk.SpaceBeforeCommaEndsWalk).
- The hourly times are read as unsigned 64-bit integers into an `int64_t` field (Dashboard.ElementKinds).
- `bitui_hline` draws x1 up to x2 exclusive, and rows are addressed by
  `width`, not `stride`.
- The CRC-8 routine feeds the low byte of its word first. The documented
  value CRC8(0xBEEF) = 0x92 holds for the byte stream 0xBE, 0xEF, which the
  header wrapper passes as the word 0xEFBE; the word 0xBEEF itself gives
  0xCE (SensirionCrc.CrcOfBeefStream, SensirionCrc.CrcOfBeefWord).

Where the code's own comments and its behaviour disagree, the model follows
the code:

- The comment at components/immjson/immjson.c:235 says that leading zeros
  are not allowed, but "01" reads as 0 and leaves the "1" unread; it is not
  rejected.
- The header comment of components/bitui/bitui.c:20-31 draws x1 = 0 to
  x2 = 3 as four pixels, but `bitui_hline`'s end pixel is exclusive.

## Model

| member | source | states |
|---|---|---|
| SensirionCrc.BytesOf | components/sensirion_common/sensirion_common.c:13-14 | the outer loop sees exactly as many bytes as it runs passes |
| SensirionCrc.ShiftByte | components/sensirion_common/sensirion_common.c:15-20 | the inner loop leaves the register shifted eight times, the polynomial 0x31 XOR'ed in after each set MSB |
| SensirionCrc.CalculateCrc8 | components/sensirion_common/sensirion_common.c:3-24 | the routine returns the CRC of the word's byte stream, from the initial value 0xFF with no final XOR |
| SensirionCrc.RegisterFirst | components/sensirion_common/sensirion_common.c:13-14 | each pass feeds the low byte and then continues with the word shifted right by 8 |
| SensirionCrc.WordStreamOrder | components/sensirion_common/sensirion_common.c:13-14 | the word is consumed low byte first: `word & 0xff`, then `word >> 8` |
| SensirionCrc.CrcOfBeefStream | components/sensirion_common/sensirion_common.c:5 | the comment's CRC8(0xBEEF) = 0x92 holds for the bytes 0xBE, 0xEF, which the routine receives as the word 0xEFBE |
| SensirionCrc.CrcOfBeefWord | components/sensirion_common/sensirion_common.c:5-24 | the word 0xBEEF itself gives 0xCE, because the low byte is fed first |
| SensirionCrc.EightSteps | components/sensirion_common/sensirion_common.c:15-20 | eight inner steps are eight applications of the shift-and-XOR step |
| SensirionCrc.StepLinear | components/sensirion_common/sensirion_common.c:16-19 | the shift-and-XOR step is linear over GF(2) |
| SensirionCrc.StepInjective | components/sensirion_common/sensirion_common.c:16-19 | the step is one-to-one, since the polynomial has a constant term |
| SensirionCrc.ShiftedLinear | components/sensirion_common/sensirion_common.c:15-20 | any number of steps is linear |
| SensirionCrc.ShiftedInjective | components/sensirion_common/sensirion_common.c:15-20 | any number of steps is one-to-one |
| SensirionCrc.ZeroShifted | components/sensirion_common/sensirion_common.c:15-20 | a zero register stays zero |
| SensirionCrc.CheckByteZeroes | components/sensirion_common/sensirion_common.c:12-23 | feeding the CRC of a stream after the stream leaves the register at zero |
| SensirionCrc.WordCheckZeroes | components/sensirion_common/sensirion_common.c:3-24 | a word followed by its CRC byte checks to zero |
| SensirionCrc.AddByteInjective | components/sensirion_common/sensirion_common.c:14-20 | two passes give the same register only if register XOR byte agreed |
| SensirionCrc.SingleByteErrorDetected | components/sensirion_common/sensirion_common.c:3-24 | two 2-byte streams that differ in exactly one byte have different CRCs |
| SensirionCrc.RegisterOfPair | components/sensirion_common/sensirion_common.c:13-21 | a two-byte stream is two passes of the outer loop |
| UlpCommon.FlagsFrom | main/ulp/common.h:6-8 | for a timestamp within 48 bits, the low 48 bits are the timestamp and the high 16 bits are scd4x_err above sht4x_err |
| UlpCommon.FlagsTimestamp48 | main/ulp/common.h:10-12 | the corrected accessor returns a value within 48 bits |
| UlpCommon.Sht4xRoundTrip | main/ulp/common.h:6-16 | the SHT4x error byte packed by ulp_sample_flags_from is returned by ulp_sample_flags_sht4x |
| UlpCommon.Scd4xRoundTrip | main/ulp/common.h:6-20 | the SCD4x error byte packed is returned by ulp_sample_flags_scd4x |
| UlpCommon.ShtField | main/ulp/common.h:6-16 | bits 48-55 of the packed word are the SHT4x byte, on 64-bit words |
| UlpCommon.ScdField | main/ulp/common.h:6-20 | bits 56-63 of the packed word are the SCD4x byte, on 64-bit words |
| UlpCommon.NarrowWidened | main/ulp/common.h:14-20 | the `uint8_t` return of a byte widened to 64 bits gives the byte back |
| UlpCommon.Timestamp48RoundTrip | main/ulp/common.h:6-12 | the corrected accessor returns the 48-bit timestamp the flags were built from |
| UlpCommon.TimestampTruncated | main/ulp/common.h:10-12 | the accessor as written returns 0 for the timer value 0x100; the corrected one returns 0x100 |
| UlpCommon.WideTimestampCorruptsErrors | main/ulp/common.h:6-16 | a timer value of 2^48 is OR'ed into the error bytes and reads back as an SHT4x error of 1 |
| UlpRingBuf.CapacityCheck | main/ulp/ringbuf.h:12-13 | the static assertion of the header holds: the check of 2 yields 2, the sample ring's 32 yields 32, and 0 and 24 do not compile |
| UlpRingBuf.PowerOfTwoIff | main/ulp/ringbuf.h:12 | `cap != 0 && (cap & (cap - 1)) == 0` holds exactly when cap is 2 to the power k for some k from 0 to 15 |
| UlpRingBuf.CheckCap | main/ulp/ringbuf.h:12 | ringbuf_check_cap_power_of_2 yields the capacity itself exactly for the powers of two, and does not compile otherwise |
| UlpRingBuf.AgesWhileFilling | main/ulp/ringbuf.h:15-23 | for any capacity, one more entry with the same start makes the n-th newest the n+1-th newest |
| UlpRingBuf.PushKeepsRing | main/ulp/ringbuf.h:19-28 | on a ring of any power-of-two capacity a push keeps start a slot, count at most the capacity and start 0 until the ring is full, and returns a slot of the array |
| UlpRingBuf.PushWhileFilling | main/ulp/ringbuf.h:20-23 | for any power-of-two capacity, below the capacity a push returns the old count, counts one more and keeps start |
| UlpRingBuf.PushWhenFull | main/ulp/ringbuf.h:25-27 | for any power-of-two capacity, at the capacity a push returns the oldest slot and moves start to ringbuf_next of it |
| UlpRingBuf.NextWraps | main/ulp/ringbuf.h:17 | for any power-of-two capacity ringbuf_next gives i + 1, and 0 after the last slot |
| UlpRingBuf.PushedIsNewest | main/ulp/ringbuf.h:14-28 | on the 32-slot sample ring, after a push the slot it returned is ringbuf_newest |
| UlpRingBuf.PushAges | main/ulp/ringbuf.h:15-28 | on the sample ring a push makes the n-th newest entry the n+1-th newest |
| UlpRingBuf.NewestDistinct | main/ulp/ringbuf.h:15 | on the sample ring ringbuf_newest_nth names `count` distinct slots |
| UlpRingBuf.SampleRing.constructor | main/ulp/common.h:28 | the zeroed static ring: start 0, count 0 |
| UlpRingBuf.SampleRing.Push | main/ulp/ringbuf.h:19-28 | the in-place push writes start and count as the functional push says and returns its slot |
| UlpRingBuf.SampleRing.Emplace | main/ulp/ringbuf.h:14 | ringbuf_emplace and the store: the sample is in the slot pushed, which is the newest, and every other slot is unchanged |
| Bitui.Short | components/bitui/include/bitui.h:7-8 | a `uint16_t` conversion lands in 0 .. 65535 and keeps the values already in range |
| Bitui.PixelMask | components/bitui/bitui.c:56 | the mask of one pixel column has exactly one bit set |
| Bitui.ColorizedBits | components/bitui/bitui.c:4-8 | bitui_colorize gives every masked bit the colour and keeps every other bit |
| Bitui.ColorizedSingle | components/bitui/bitui.c:4-8 | the same, for a pixel named by its one-bit mask |
| Bitui.OnesShifts | components/bitui/bitui.c:32-45 | `0xff >> n` and `0xff << (8 - n)` cut to a byte are the pixels from column n on and the first n pixels |
| Bitui.ByteMaskBits | components/bitui/bitui.c:32 | `(0xff >> lo) ^ (0xff >> hi)` holds exactly the pixel columns lo .. hi - 1 |
| Bitui.ShiftedOnesBits | components/bitui/bitui.c:35 | bit r of `0xff >> n` is set exactly when n <= r |
| Bitui.RowMaskBits | components/bitui/bitui.c:10-49 | the pixels of byte b that a line over [x1, x2) covers are exactly those with x1 <= 8b + r < x2 |
| Bitui.RowMaskCases | components/bitui/bitui.c:19-48 | the masks bitui_hline computes (single byte, first byte, whole bytes, last byte when `x2 & 7` is non-zero) are the covered pixels of each byte, and no other byte is covered |
| Bitui.ColorizedNothing | components/bitui/bitui.c:44-47 | colorizing with an empty mask changes nothing, which is why the last byte is skipped when `x2 & 7` is zero |
| Bitui.ColorizedAll | components/bitui/bitui.c:39-42 | colorizing a whole byte is storing the fill byte 0xff or 0x00 |
| Bitui.HLineImage | components/bitui/bitui.c:10-49 | the framebuffer after a horizontal line has the length it had |
| Bitui.HLineDrawsExactly | components/bitui/bitui.c:10-49 | bitui_hline sets exactly the pixels [x1, x2) of row y to the colour and keeps every other pixel |
| Bitui.RowByteBits | components/bitui/bitui.c:10-49 | a bit of a drawn row byte is the colour exactly when its pixel is in [x1, x2), else the old bit |
| Bitui.VLineImage | components/bitui/bitui.c:51-62 | the framebuffer after a vertical line has the length it had |
| Bitui.ShiftedOne | components/bitui/bitui.c:56 | `1 << (7 - (x & 7))` is the mask of pixel column `x & 7` |
| Bitui.VLineDrawsExactly | components/bitui/bitui.c:51-62 | bitui_vline sets exactly the pixels of column x in rows y1 .. y2 (inclusive) and keeps every other pixel |
| Bitui.MaskBit | components/bitui/bitui.c:56 | the one-pixel mask covers only its own column |
| Bitui.EdgesImage | components/bitui/bitui.c:65-66 | the framebuffer after the two horizontal edges has the length it had |
| Bitui.RectImage | components/bitui/bitui.c:64-71 | the framebuffer after bitui_rect has the length it had |
| Bitui.RectDrawsOutline | components/bitui/bitui.c:64-71 | bitui_rect sets exactly the outline of a non-empty rectangle (top and bottom rows over [x, x + w), and columns x and x + w - 1 between them when h > 2) and keeps every other pixel |
| Bitui.EdgesDrawn | components/bitui/bitui.c:65-66 | the two horizontal edges set exactly rows y and y + h - 1 over [x, x + w) |
| Bitui.SpanIsImage | components/bitui/bitui.c:34-48 | the first byte, the filled bytes and the last byte written as the multi-byte branch writes them are the framebuffer HLineImage describes |
| Bitui.SpanByteIsImage | components/bitui/bitui.c:34-48 | one byte of the multi-byte branch is the byte HLineImage describes |
| Bitui.ByteIsImage | components/bitui/bitui.c:19-33 | the single-byte branch writes the one byte HLineImage changes |
| Bitui.Context.constructor | components/bitui/include/bitui.h:18-25 | a context holds the geometry, framebuffer and colour it was given |
| Bitui.Context.Colorize | components/bitui/bitui.c:4-8 | the byte at the offset becomes the colorized byte; no other byte changes |
| Bitui.Context.HLine | components/bitui/bitui.c:10-49 | the framebuffer becomes HLineImage of the old framebuffer |
| Bitui.Context.HLineSpan | components/bitui/bitui.c:34-48 | the multi-byte branch leaves HLineImage of the old framebuffer |
| Bitui.Context.FillBytes | components/bitui/bitui.c:39-42 | the fill loop sets bytes from .. to - 1 of the row to the fill byte, keeps every other byte, and stops at `to` |
| Bitui.Context.VLine | components/bitui/bitui.c:51-62 | the framebuffer becomes VLineImage of the old framebuffer |
| Bitui.Context.Rect | components/bitui/bitui.c:64-71 | the framebuffer becomes RectImage of the old framebuffer |
| Gui.AdvancedMovesMainAxis | components/gui/gui.c:33-36 | only the main-axis coordinate moves, by size plus gap, wrapping as a `uint16_t`; the other coordinate stays |
| Gui.PlacedEvenly | components/gui/gui.c:30-40 | while nothing wraps, the n-th of equally sized horizontal elements is n steps of size plus gap from the start, at the same height |
| Gui.Layout.constructor | components/gui/gui.c:22-28 | a layout starts with the direction, gap and cursor it is given and no elements |
| Gui.Layout.Element | components/gui/gui.c:30-40 | bitlayout_element returns the old cursor, moves the cursor past the element and counts one more element (as a `uint16_t`) |
| Gui.ClosestFromIsLeast | components/gui/gui.c:136-143 | the scan from i returns the least index from i on below count whose entry is not before the needle, or count |
| Gui.ClosestIsLeast | components/gui/gui.c:136-143 | find_closest's result is at most count, every entry before it is before the needle, and the entry at it (if below count) is not |
| Gui.FindClosest | components/gui/gui.c:136-143 | the loop returns Closest, with the same least-index guarantees |
| Gui.IsDay | components/gui/gui.c:145-166 | a sun event time is written exactly when the pointer is non-NULL |
| Gui.DayIndexValid | components/gui/gui.c:146-147 | `cur_day` is a valid index exactly when `now` is after the first day's start (the assertion), and it is below the number of days |
| Gui.DayIndexIsCurrentDay | components/gui/gui.c:146 | with days in order, `cur_day` is the last day that started before `now` |
| Gui.IsDayBetween | components/gui/gui.c:149-161 | when sunrise is not after sunset, it is day exactly from sunrise (inclusive) to sunset (exclusive) |
| Gui.IsDaySunEvent | components/gui/gui.c:161-165 | the time written back is the sunrise by day and the sunset by night, and the answer does not depend on whether it is asked for |
| Gui.GlyphCheckAsWrittenPassesAll | components/gui/gui.c:65 | the assertion `c >= first \|\| c <= last` holds for every character of a font with first <= last |
| Gui.GlyphCheckAsWrittenOutOfTable | components/gui/gui.c:65-66 | for the font 32 .. 126 the tab character (9) passes the assertion although it has no glyph |
| Gui.InFontIndexesTable | components/gui/gui.c:65-66 | the intended check `first <= c <= last` is exactly what puts the glyph index inside the table |
| Gui.LastNewline | components/gui/gui.c:56-63 | the index returned is a line break (or -1) with no line break after it before n |
| Gui.EmptyText | components/gui/gui.c:52-53 | the empty text measures 0 by 0 |
| Gui.TextHeightCountsLines | components/gui/gui.c:53-59 | a non-empty text that does not overflow is one line advance high per line |
| Gui.SingleLineWidth | components/gui/gui.c:55-70 | a text with no line break is as wide as its summed glyph advances, as a `uint16_t` |
| Gui.LastNewlineIs | components/gui/gui.c:56-63 | the last line break before n is the one with no line break after it |
| Gui.WidthCoversLines | components/gui/gui.c:58-70 | every line of the text is at most as wide as the measured width |
| Gui.WidthIsSomeLine | components/gui/gui.c:58-70 | some line of the text is exactly as wide as the measured width |
| Gui.ShortAdd | components/gui/gui.c:55-68 | reducing the `uint16_t` accumulator at every step or only at the end gives the same width |
| Gui.WidthAtBreak | components/gui/gui.c:58-70 | closing a line at a line break or at the end completes the width: the larger of the width so far and the line |
| Gui.HeightStep | components/gui/gui.c:58-59 | each line break adds one line advance to the height, and nothing else does |
| Gui.LineStep | components/gui/gui.c:66-68 | each glyph adds its `xAdvance` to the width of its line |
| Gui.MeasureText | components/gui/gui.c:51-72 | measure_text returns the width of the widest line and one line advance per line |
| Gui.WeatherHours | components/gui/gui.c:206-247 | the drawing loop reads consecutive hourly indices from the first hour not before `now` among the first 48 - HOURS_DISPLAYED, at most HOURS_DISPLAYED of them, all inside the table |
| Gui.LabelPassInBounds | components/gui/gui.c:172-215 | HOURS_DISPLAYED is 11, and the first pass's `cur_hour + i` stays inside the 48 hourly entries |
| Dashboard.HourlyReserveSlots | main/eink-dashboard.c:44-71 | the hourly reserve callbacks return element i of a 48-element array of 8-, 4- and 1-byte items, and NULL from 48 on |
| Dashboard.DailyReserveSlots | main/eink-dashboard.c:82-84 | the daily reserve callback returns element i of a 2-element array of 8-byte items, and NULL from 2 on |
| Dashboard.ArrayExitpoints | main/eink-dashboard.c:48-93 | decoding any of the four array kinds moves the cursor past the whole destination array (384, 192, 48 and 16 bytes), whatever the JSON holds |
| Dashboard.ElementKinds | main/eink-dashboard.c:48-93 | hourly times are unsigned 64-bit integers, weather codes unsigned 8-bit, daily times signed 64-bit, temperatures floats |
| Dashboard.ThirdDailyElementFails | main/eink-dashboard.c:82-93 | a daily array never gets a third element: at index 2 the decode fails and memory is unchanged |
| Dashboard.ForecastSchemaValid | main/eink-dashboard.c:95-109 | forecast_schema is a valid property list: every value fits its tag and the list ends with OBJECT_PROPERTIES_END() after twelve entries |
| Dashboard.ForecastSchemaKeys | main/eink-dashboard.c:95-109 | the schema has no padding and lists latitude, longitude, inline `hourly` (time, temperature_2m, weather_code), inline `daily` (time, sunrise, sunset) with their tags |
| Dashboard.EntryKey | main/eink-dashboard.c:95-107 | entry i of the schema is the key of the i-th listed tag and name |
| Dashboard.ForecastLayout | main/eink-dashboard.c:95-109 | the offsets the schema lays out are latitude at 0, longitude at 4, the hourly arrays at 8, 392, 584 and the daily arrays at 632, 648, 664, ending at 680, the layout of `struct Forecast` with updated_at at 680 |
| Dashboard.LayoutFollowsWalk | components/immjson/immjson.c:437-470 | every step of the object walk over a laid-out entry either stays on it (a skipped member) or moves to the next entry with the cursor at its laid-out offset, storing an entry that is not an inline object at the offset laid out for it and leaving the end offset unchanged |
| Dashboard.ForecastLaidOut | main/eink-dashboard.c:95-109 | every entry of forecast_schema is laid out: inline objects have inline descriptions, and every other value has a fixed width |
| Dashboard.WeatherCodesStored | main/eink-dashboard.c:48-71 | `weather_code` given as up to 48 literals below 256 is accepted, code k lands in byte k of the array, no other byte changes, and the cursor moves past all 48 bytes |
| Dashboard.WeatherCodesAccepted | main/eink-dashboard.c:48-71 | the same array leaves exactly the memory of storing the codes one byte apart |
| Dashboard.FindIsFirst | main/eink-dashboard.c:367 | memmem returns the first occurrence of the pattern, and NULL only when it does not occur |
| Dashboard.MemMem | main/eink-dashboard.c:367 | the scan returns the first occurrence, as Find defines it |
| Dashboard.BodyStartAfterHeader | main/eink-dashboard.c:366-369 | the body starts right after the first "\r\n\r\n" of the first slice, and without one there is no body |
| Dashboard.StampUpdated | main/eink-dashboard.c:392 | `updated_at = 1` writes the 8 bytes of the time_t at offset 680 and nothing else |
| Dashboard.DecodeWeather | main/eink-dashboard.c:359-398 | without a blank line in the first slice nothing is decoded and memory is unchanged; success implies a header end was found |
| Dashboard.DecodeWeatherParsesBody | main/eink-dashboard.c:359-398 | with the first blank line right after the header, decode_weather deserialises exactly the text after it with forecast_schema; on success the 8-byte updated_at at offset 680 holds 1 |
| Dashboard.DecodeWeatherInto | main/eink-dashboard.c:359-398 | the imperative decode through a JsonSource leaves the result and memory DecodeWeather gives |
| Dashboard.EmplacedIsNewest | main/eink-dashboard.c:479-484 | from a zeroed ring the slot handed out is in the ring and is the newest, at (start + count - 1) % 32; while filling slots are 0, 1, 2, ...; once full the oldest is overwritten |
| Dashboard.History.constructor | main/eink-dashboard.c:479-484 | a ring starts zeroed: count 0, start 0, 32 slots |
| Dashboard.History.Emplace | main/eink-dashboard.c:479-484 | ringbuf_emplace returns the slot Emplaced gives and updates count and start to match |
| Dashboard.History.Record | main/eink-dashboard.c:494-495 | storing through ringbuf_emplace writes exactly the emplaced slot and keeps the ring well formed |
| JsonTypes.WriteBytes | components/immjson/immjson.c:305-311 | the bytes are written at consecutive addresses from the cursor on, every other address keeps its byte, and no address outside the old map and the written range appears |
| JsonLexer.ReadSlice | components/immjson/immjson.c:4-7 | the next slice of the read callback becomes the remainder (empty once the callback has none left, and then no slice is left to read), and the column at the slice end grows by its length |
| JsonLexer.StringBufferAppend | components/immjson/immjson.c:15-28 | growth by exactly the appended length happens only when the buffer would overflow; the append succeeds exactly when the allocator grants that size (or no growth is needed and the pointer is usable); on success the content is the old content followed by the string, on failure it is unchanged, and the capacity bound is kept |
| JsonLexer.TrimLeftExpectChar | components/immjson/immjson.c:124-150 | the stream is only read forward and the buffer is untouched; success consumes input; a whitespace byte is never matched; on failure the byte left in front is neither whitespace nor the expected byte, or the stream has ended |
| JsonLexer.ReadExpectChar | components/immjson/immjson.c:152-164 | the byte at the head is examined: it is consumed with success exactly when it is the expected one (or READ_ANY was asked for) and left unread otherwise; an empty remainder reads the next slice, and with none left the read fails |
| JsonLexer.ReadExpected | components/immjson/immjson.c:30-50 | the stream is only read forward; success consumes input; it fails only once the read callback returns an empty slice, so failure always leaves an empty remainder (a mismatching slice is dropped and matching resumes on the next one) |
| JsonLexer.ReadDigitSeq | components/immjson/immjson.c:91-112 | the value stays within JsonUintmax and the count within uint8_t; a non-zero count leaves a byte that is not a digit in front |
| JsonLexer.DigitStepLemma | components/immjson/immjson.c:95-104 | one digit that does not overflow is consumed, multiplies the value by ten and adds the digit, and moves the count on modulo 256, and the rest of the loop continues from there |
| JsonLexer.NextStringBoundary | components/immjson/immjson.c:52-59 | the index returned holds '"' or '\\' and no earlier byte does; None exactly when the slice holds neither |
| JsonLexer.AppendThrough | components/immjson/immjson.c:64-78 | the chunk up to and including the delimiter is appended to the buffer and consumed on success; on failure the remainder is left as it was |
| JsonLexer.ReadStringChunk | components/immjson/immjson.c:61-89 | success consumes input and grows the buffer; lines are not counted |
| JsonMachine.JsonSource.constructor | main/eink-dashboard.c:359-364 | the source starts on its first slice, with nothing consumed from the read callback, an empty released buffer, and column and line at zero |
| JsonMachine.JsonSource.ReadSlice | components/immjson/immjson.c:4-7 | the new state of the source is exactly JsonLexer.ReadSlice of the old one |
| JsonMachine.JsonSource.Append | components/immjson/immjson.c:15-28 | result and new buffer are exactly StringBufferAppend's; nothing else of the source changes |
| JsonMachine.JsonSource.ReadExpected | components/immjson/immjson.c:30-50 | the loop over the literal, reading slices as it goes, computes exactly JsonLexer.ReadExpected |
| JsonMachine.JsonSource.NextStringBoundary | components/immjson/immjson.c:52-59 | the scanning loop returns exactly JsonLexer.NextStringBoundary |
| JsonMachine.JsonSource.ReadStringChunk | components/immjson/immjson.c:61-89 | result and new state are exactly JsonLexer.ReadStringChunk's |
| JsonMachine.JsonSource.AppendThrough | components/immjson/immjson.c:64-78 | result and new state are exactly JsonLexer.AppendThrough's |
| JsonMachine.JsonSource.ReadDigitSeq | components/immjson/immjson.c:91-112 | the digit loop, across slices, computes exactly JsonLexer.ReadDigitSeq's count, value and state |
| JsonMachine.JsonSource.TrimLeftExpectChar | components/immjson/immjson.c:124-150 | the whitespace loop computes exactly JsonLexer.TrimLeftExpectChar |
| JsonMachine.JsonSource.ReadExpectChar | components/immjson/immjson.c:152-164 | result, byte examined and new state are exactly JsonLexer.ReadExpectChar's |
| JsonMachine.TrimWhitespaceStep | components/immjson/immjson.c:127-142 | skipping one whitespace byte (counting a line for LF) does not change what the trim returns |
| JsonProperties.TrimWithinSlice | components/immjson/immjson.c:124-150 | within one slice the whitespace is skipped with one line per LF, and the first other byte is consumed exactly when it is the expected byte, otherwise left in front |
| JsonProperties.TrimAtEnd | components/immjson/immjson.c:144-149 | with only whitespace left and no slice to read, the trim fails with an empty remainder |
| JsonProperties.ReadSliceKeepsColumn | components/immjson/include/immjson.h:56-58 | json_source_column is the same before and after a slice is read once the current one is used up |
| JsonProperties.ReadExpectCharNextSlice | components/immjson/immjson.c:154-163 | with the current slice used up, the byte examined is the first of the next slice, consumed exactly when it is the expected one |
| JsonProperties.ReadExpectedSpelled | components/immjson/immjson.c:30-50 | a literal spelled at the head of the slice is consumed exactly |
| JsonProperties.ReadExpectedAcrossSlices | components/immjson/immjson.c:33-46 | a literal split across a slice boundary is matched and consumed up to its end in the next slice |
| JsonProperties.BoundaryAfter | components/immjson/immjson.c:52-59 | the first delimiter after a run without delimiters is found at the run's length |
| JsonProperties.DecimalGrows | components/immjson/immjson.c:101-103 | accumulating digits never decreases the value |
| JsonProperties.DigitsWithinSlice | components/immjson/immjson.c:91-112 | within one slice every digit up to the first other byte is read, that byte is left in front, the value is the decimal of the digits and the count wraps modulo 256 |
| JsonProperties.CountBelowLimit | components/immjson/include/immjson.h:67 | a digit count below 256 is kept as it is by the uint8_t counter |
| JsonProperties.CountWraps | components/immjson/include/immjson.h:67 | wrapping the counter at each step or once at the end gives the same count |
| JsonProperties.DigitsAtEnd | components/immjson/immjson.c:106-111 | a stream that ends in the middle of digits makes read_digit_seq fail |
| JsonProperties.DigitOverflow | components/immjson/immjson.c:101-111 | a digit that would overflow JsonUintmax makes read_digit_seq fail at that digit, leaving it unread |
| JsonProperties.DigitIsNotSeparator | components/immjson/immjson.c:114-122 | a byte taken for a digit is neither whitespace nor a sign |
| JsonValues.ExpectString | components/immjson/immjson.c:168-211 | the stream is only read forward; success consumes input and releases the string buffer (pointer, length and capacity reset) |
| JsonValues.StringContents | components/immjson/immjson.c:172-210 | the chunk loop reads forward without counting lines; success consumes input and releases the buffer |
| JsonValues.AfterChunk | components/immjson/immjson.c:176-207 | a chunk ending in '"' finishes the string and releases the buffer; a chunk ending in '\\' has its escape read, consuming input, before the loop goes on |
| JsonValues.ExpectBool | components/immjson/immjson.c:213-224 | the stream is only read forward and the buffer is untouched; success consumes input |
| JsonValues.ExpectNull | components/immjson/immjson.c:226-229 | the stream is only read forward and the buffer is untouched; success consumes input |
| JsonValues.ExpectNumber | components/immjson/immjson.c:231-272 | the stream is only read forward and the buffer is untouched; an accepted number has its digits within JsonUintmax, its exponent within int16_t and its point position within uint8_t |
| JsonValues.WholePart | components/immjson/immjson.c:235-239 | the integer part keeps the value within JsonUintmax and the count within uint8_t |
| JsonValues.NumberTail | components/immjson/immjson.c:241-271 | after the integer part, an accepted number is within the JsonNumber field ranges |
| JsonValues.FractionPart | components/immjson/immjson.c:241-248 | the digits after '.' extend the same value, which stays within JsonUintmax |
| JsonValues.ExponentPart | components/immjson/immjson.c:250-269 | an accepted exponent lies between -INT16_MAX and INT16_MAX |
| JsonValues.SignedExponent | components/immjson/immjson.c:252-266 | the optional sign and the digits give an exponent between -INT16_MAX and INT16_MAX |
| JsonValues.ExpectInteger | components/immjson/immjson.c:292-313 | the stream is only read forward; on success exactly (bitwidth-1)/8+1 bytes are stored |
| JsonValues.IntegerValue | components/immjson/immjson.c:295-311 | a converted number has exactly (bitwidth-1)/8+1 bytes |
| JsonValues.ExpectChar | components/immjson/include/immjson.h:87 | a signed char stores one byte |
| JsonValues.ExpectUChar | components/immjson/include/immjson.h:88 | an unsigned char stores one byte |
| JsonValues.ExpectShort | components/immjson/include/immjson.h:89 | a short stores two bytes |
| JsonValues.ExpectUShort | components/immjson/include/immjson.h:90 | an unsigned short stores two bytes |
| JsonValues.ExpectInt | components/immjson/include/immjson.h:91 | an int stores four bytes |
| JsonValues.ExpectUInt | components/immjson/include/immjson.h:92 | an unsigned int stores four bytes |
| JsonValues.ExpectLong | components/immjson/include/immjson.h:93 | a long stores four bytes (32-bit target) |
| JsonValues.ExpectULong | components/immjson/include/immjson.h:94 | an unsigned long stores four bytes (32-bit target) |
| JsonValues.BeginObject | components/immjson/immjson.c:315-317 | the stream is only read forward and the buffer is untouched |
| JsonValues.EndObject | components/immjson/immjson.c:319-321 | the stream is only read forward and the buffer is untouched |
| JsonValues.NextKey | components/immjson/immjson.c:323-329 | the stream is only read forward; a key is returned only when input was consumed |
| JsonValues.ExpectKey | components/immjson/include/immjson.h:121-124 | true if and only if json_next_key reads a key and that key is exactly the one expected; the source is left where json_next_key left it, and success consumes input |
| JsonValues.BeginArray | components/immjson/immjson.c:331-333 | the stream is only read forward and the buffer is untouched |
| JsonValues.ArrayNext | components/immjson/immjson.c:335-345 | the stream is only read forward and the buffer is untouched |
| JsonValues.ExpectObject | components/immjson/include/immjson.h:137 | the body runs exactly when json_begin_object succeeds; otherwise the state is what json_begin_object left |
| JsonMachine.JsonSource.ExpectString | components/immjson/immjson.c:168-211 | result, string handed out and new state are exactly JsonValues.ExpectString's |
| JsonMachine.JsonSource.StringContents | components/immjson/immjson.c:172-210 | the chunk loop computes exactly JsonValues.StringContents |
| JsonMachine.JsonSource.AfterChunk | components/immjson/immjson.c:176-207 | one pass of the loop computes exactly JsonValues.AfterChunk |
| JsonMachine.JsonSource.ExpectBool | components/immjson/immjson.c:213-224 | result, value and new state are exactly JsonValues.ExpectBool's |
| JsonMachine.JsonSource.ExpectNull | components/immjson/immjson.c:226-229 | result and new state are exactly JsonValues.ExpectNull's |
| JsonMachine.JsonSource.ExpectNumber | components/immjson/immjson.c:231-272 | result, number and new state are exactly JsonValues.ExpectNumber's |
| JsonMachine.JsonSource.WholePart | components/immjson/immjson.c:235-239 | exactly JsonValues.WholePart |
| JsonMachine.JsonSource.NumberTail | components/immjson/immjson.c:241-271 | exactly JsonValues.NumberTail |
| JsonMachine.JsonSource.FractionPart | components/immjson/immjson.c:241-248 | exactly JsonValues.FractionPart |
| JsonMachine.JsonSource.ExponentPart | components/immjson/immjson.c:250-269 | exactly JsonValues.ExponentPart |
| JsonMachine.JsonSource.SignedExponent | components/immjson/immjson.c:252-266 | exactly JsonValues.SignedExponent |
| JsonMachine.JsonSource.ExpectInteger | components/immjson/immjson.c:292-313 | result, stored bytes and new state are exactly JsonValues.ExpectInteger's |
| JsonMachine.ConvertInteger | components/immjson/immjson.c:295-311 | the conversion with its bit operations gives exactly JsonValues.IntegerValue, and no bytes when it refuses |
| JsonMachine.JsonSource.BeginObject | components/immjson/immjson.c:315-317 | exactly JsonValues.BeginObject |
| JsonMachine.JsonSource.EndObject | components/immjson/immjson.c:319-321 | exactly JsonValues.EndObject |
| JsonMachine.JsonSource.NextKey | components/immjson/immjson.c:323-329 | key and new state are exactly JsonValues.NextKey's |
| JsonMachine.JsonSource.ExpectKey | components/immjson/include/immjson.h:121-124 | exactly JsonValues.ExpectKey |
| JsonMachine.JsonSource.BeginArray | components/immjson/immjson.c:331-333 | exactly JsonValues.BeginArray |
| JsonMachine.JsonSource.ArrayNext | components/immjson/immjson.c:335-345 | exactly JsonValues.ArrayNext |
| JsonProperties.TrueAccepted | components/immjson/immjson.c:213-218 | "true" at the head of the slice is accepted as true and consumed exactly |
| JsonProperties.FalseAfterTrueAttempt | components/immjson/immjson.c:214-223 | a "false" at the head of the value, anywhere in the stream, is never read as false: in the last slice it is refused, and with no empty slice before the end the result is true or a failure |
| JsonProperties.ReadExpectedFailsAtEnd | components/immjson/immjson.c:30-50 | unless an empty slice comes before the end of the stream, a failing literal match has read the stream to its end |
| JsonProperties.FalseThenTrueSlicesReadTrue | components/immjson/immjson.c:30-50 | the slices "false" and "true" are read as true, because the "true" attempt keeps its place in "true" on the next slice |
| JsonProperties.IntendedBoolReadsLiteral | components/immjson/immjson.c:213-224 | with a literal match that stops at the mismatching byte, "true" and "false" after whitespace are read as the boolean they spell, and consumed |
| JsonProperties.FalseThenTrueSlicesReadFalse | components/immjson/immjson.c:213-224 | with that match the slices "false" and "true" give false from the first slice |
| JsonProperties.NullAccepted | components/immjson/immjson.c:226-229 | "null" after whitespace is accepted and consumed, in the same slice |
| JsonProperties.ClosingChunk | components/immjson/immjson.c:61-89 | the rest of a string up to its closing quote in the current slice is appended once, consumed, and the string handed out exactly when the allocator grants the growth |
| JsonProperties.PlainString | components/immjson/immjson.c:168-189 | a string without escapes in one slice is handed out without its quotes, the rest left unread, exactly when the allocator grants its length plus one; refused otherwise |
| JsonProperties.EscapeChunk | components/immjson/immjson.c:191-207 | a leading backslash is buffered, the escaped byte read and the pair replaced by the byte it stands for |
| JsonProperties.EscapedString | components/immjson/immjson.c:168-208 | a string that opens with an escape is handed out with the escape replaced by its byte, followed by the body |
| JsonProperties.UnicodeEscapeRefused | components/immjson/immjson.c:203 | a `\u` escape makes json_expect_string fail |
| JsonProperties.LeadingZero | components/immjson/immjson.c:235 | a leading '0' is the whole integer part: value 0 and the byte after it left unread |
| JsonProperties.FractionNeedsDigit | components/immjson/immjson.c:241-245 | a '.' not followed by a digit makes the number fail |
| JsonProperties.WholeDigits | components/immjson/immjson.c:235-239 | a non-zero integer part in one slice is read as its decimal value, its digit count kept, up to the first byte that is not a digit |
| JsonProperties.PlainTail | components/immjson/immjson.c:241-271 | with neither '.' nor 'e'/'E' next, the number is its integer part with point position and exponent 0 and nothing more consumed |
| JsonProperties.IntegerText | components/immjson/immjson.c:231-272 | an integer in one slice, with or without '-', is read as its decimal value and its sign, and the byte after it is left unread |
| JsonProperties.SignRead | components/immjson/immjson.c:232 | the sign is read exactly when '-' stands before the digits, and the digits are left in front |
| JsonProperties.ExponentBound | components/immjson/immjson.c:259-265 | the exponent digits are accepted exactly when their value is at most INT16_MAX, and then they are the exponent |
| JsonProperties.WholeText | components/immjson/immjson.c:235-239 | a whole integer part is read as its decimal value with its digit count, and the byte after it is left in front |
| JsonProperties.NoFraction | components/immjson/immjson.c:241-248 | with no '.' next the fraction step keeps the value and a point position of 0, consuming nothing |
| JsonProperties.FractionRead | components/immjson/immjson.c:241-248 | the digits after '.' are accumulated into the same value, which becomes value * 10^n + fraction, and the point position is their count n |
| JsonProperties.ExponentDispatch | components/immjson/immjson.c:250-269 | an exponent is read exactly after 'e' or 'E'; any other byte gives exponent 0 and is left unread |
| JsonProperties.SignedExponentRead | components/immjson/immjson.c:251-266 | after an optional '-' or '+' the digits are the exponent, negated after '-', accepted exactly when at most INT16_MAX |
| JsonProperties.FractionTail | components/immjson/immjson.c:241-271 | a fraction with no exponent gives the number with the fraction digits accumulated and their count as point position |
| JsonProperties.NumberAfterWhole | components/immjson/immjson.c:231-239 | after the optional '-' and the integer part, the number is what the fraction and exponent steps make of that value |
| JsonProperties.FractionText | components/immjson/immjson.c:231-272 | a number with a fraction, with or without '-', is accepted with value whole * 10^n + fraction and point position n |
| JsonProperties.FractionNumber | components/immjson/immjson.c:231-272 | the same number read as a JsonNumber, the byte after it left unread |
| JsonProperties.WholeNumberText | components/immjson/immjson.c:231-272 | an unsigned integer with no fraction or exponent is read as its decimal value with point position and exponent 0 |
| JsonStructure.StringAfterWhitespace | components/immjson/immjson.c:168-189 | a string without escapes after whitespace is accepted exactly when the allocator grants its length plus one, and is then handed out without its quotes, the buffer released again |
| JsonStructure.KeyString | components/immjson/immjson.c:326-327 | after an optional ',' the key string is read the same way |
| JsonStructure.KeyRead | components/immjson/immjson.c:323-329 | json_next_key on `,? "k" :` hands out k exactly when the allocator grants it and ':' follows; otherwise NULL, and the byte after the string is left unread when it is not ':' |
| JsonStructure.NoKey | components/immjson/immjson.c:323-329 | when no string follows the optional ',' (a '}', say) json_next_key returns NULL and leaves that byte unread |
| JsonStructure.ArrayOpened | components/immjson/immjson.c:331-333 | json_begin_array after '[' is true unless ']' follows, which is then consumed too; any other byte is left for the first item |
| JsonStructure.NotAnArray | components/immjson/immjson.c:331-333 | on any byte but '[' json_begin_array is false and leaves that byte unread |
| JsonStructure.ArrayNextCases | components/immjson/immjson.c:335-345 | json_array_next is true exactly after ','; a ']' is consumed with false, and any other byte is left unread with false |
| JsonIntegers.MaxValIs | components/immjson/immjson.c:295 | max_val is 2^bitwidth - 1, or 2^(bitwidth-1) - 1 for a signed target |
| JsonIntegers.Pow2Uintmax | components/immjson/include/immjson.h:62-66 | JsonUintmax holds exactly the values below 2^64 |
| JsonIntegers.LittleEndianValue | components/immjson/immjson.c:305-309 | storing n little-endian bytes keeps the value modulo 2^(8n) |
| JsonIntegers.FromLittleEndianBound | components/immjson/immjson.c:305-309 | n stored bytes hold a value below 2^(8n) |
| JsonIntegers.LittleEndianOfValue | components/immjson/immjson.c:305-309 | re-encoding the value of stored bytes gives the same bytes |
| JsonIntegers.IntegerAccepted | components/immjson/immjson.c:299-311 | a number is converted if and only if it has no fraction and no exponent, is not negative for an unsigned target, its magnitude is at most max_val (plus one when negative) and the store width is 1, 2, 4 or 8 bytes |
| JsonIntegers.AcceptedMagnitude | components/immjson/immjson.c:301-302 | a converted number is negative only for signed targets, and its magnitude fits the width (one more for negative numbers) |
| JsonIntegers.WidthCovers | components/immjson/immjson.c:305 | the store width covers the bit width |
| JsonIntegers.IntegerStored | components/immjson/immjson.c:303-311 | the stored bytes read back, unsigned, as the magnitude, with 2^(bitwidth-1) added for a negative number whose magnitude is below it |
| JsonIntegers.OrBitTop | components/immjson/immjson.c:303 | OR-ing bit k into a value of at most 2^k adds 2^k unless the value already is 2^k |
| JsonIntegers.IntegerValueIntended | components/immjson/immjson.c:299-311 | the two's-complement conversion accepts exactly the numbers the code accepts, with the same number of bytes |
| JsonIntegers.IntendedValue | components/immjson/immjson.c:299-311 | the intended conversion stores the number itself: read back signed it is the signed number, unsigned it is the magnitude |
| JsonIntegers.UnsignedByteStored | components/immjson/immjson.c:292-313 | a value below 256 read as a uint8_t is stored as that one byte |
| JsonIntegers.IntendedBytes | components/immjson/immjson.c:305-311 | the intended bytes read back, unsigned, as the magnitude, or for a negative number as 2^(8 * width) minus the magnitude, modulo 2^(8 * width) |
| JsonIntegers.NonNegativeAgree | components/immjson/immjson.c:303 | for numbers that are not negative both conversions store the same bytes |
| JsonIntegers.MinusOneAsInt8 | components/immjson/immjson.c:303 | "-1" into an int8_t is stored as 0x81 (-127) where 0xFF (-1) is intended |
| JsonIntegers.MinusZeroAsInt8 | components/immjson/immjson.c:303 | "-0" into an int8_t is stored as 0x80 (-128) |
| JsonIntegers.UnsignedByteRange | components/immjson/immjson.c:301-302 | 255 fits a uint8_t, 256 does not, and an unsigned target refuses "-1" |
| JsonIntegers.ThreeByteStoreRefused | components/immjson/immjson.c:305-311 | a 24-bit target needs a 3-byte store, which is refused for every number |
| JsonSkip.IgnoreAny | components/immjson/immjson.c:347-368 | the stream is only read forward; depth 0 always fails |
| JsonSkip.IgnoreValue | components/immjson/immjson.c:350-367 | the dispatch on the next byte only reads the stream forward |
| JsonSkip.SkipToKey | components/immjson/immjson.c:370-380 | the stream is only read forward |
| JsonSkip.SkipMember | components/immjson/immjson.c:373-377 | a pass that goes on to the next key has consumed input, so the loop ends |
| JsonSkip.IgnoreObject | components/immjson/immjson.c:382-389 | the stream is only read forward; depth 0 always fails |
| JsonSkip.ObjectMembers | components/immjson/immjson.c:385-388 | the stream is only read forward |
| JsonSkip.IgnoreArray | components/immjson/immjson.c:391-401 | the stream is only read forward; depth 0 always fails |
| JsonSkip.ArrayItems | components/immjson/immjson.c:394-400 | the stream is only read forward |
| JsonSkip.IgnoreItems | components/immjson/immjson.c:396-400 | the stream is only read forward |
| JsonMachine.JsonSource.IgnoreAny | components/immjson/immjson.c:347-368 | result and new state are exactly JsonSkip.IgnoreAny's |
| JsonMachine.JsonSource.IgnoreValue | components/immjson/immjson.c:350-367 | exactly JsonSkip.IgnoreValue |
| JsonMachine.JsonSource.SkipToKey | components/immjson/immjson.c:370-380 | the key loop computes exactly JsonSkip.SkipToKey |
| JsonMachine.JsonSource.SkipMember | components/immjson/immjson.c:373-377 | one pass computes exactly JsonSkip.SkipMember |
| JsonMachine.JsonSource.IgnoreObject | components/immjson/immjson.c:382-389 | exactly JsonSkip.IgnoreObject |
| JsonMachine.JsonSource.ObjectMembers | components/immjson/immjson.c:385-388 | exactly JsonSkip.ObjectMembers |
| JsonMachine.JsonSource.IgnoreArray | components/immjson/immjson.c:391-401 | exactly JsonSkip.IgnoreArray |
| JsonMachine.JsonSource.ArrayItems | components/immjson/immjson.c:394-400 | the do-while loop computes exactly JsonSkip.ArrayItems |
| JsonSkipProperties.NineNotSkipped | components/immjson/immjson.c:362 | a value starting with '9' is refused at every depth, and only the whitespace before it is consumed |
| JsonSkipProperties.OtherDigitSkipped | components/immjson/immjson.c:362-365 | the same kind of integer starting with '1' to '8' is skipped up to the byte after its digits |
| JsonSkipProperties.IntegerSkipped | components/immjson/immjson.c:362-365 | after the whitespace, such an integer is skipped up to the byte after its digits |
| JsonSkipProperties.NumberDispatch | components/immjson/immjson.c:353-365 | a value whose first byte is '0' to '8' is handed to json_expect_number |
| JsonSkipProperties.ArrayDispatch | components/immjson/immjson.c:347-394 | a value that starts with '[' goes to json_ignore_array, which consumes the '[' one level deeper again |
| JsonSkipProperties.NestedArrays | components/immjson/immjson.c:347-401 | n nested arrays are skipped exactly when max_depth is at least 2n, and then consumed exactly, so depth 16 skips at most 8 levels |
| JsonSkipProperties.ArrayBody | components/immjson/immjson.c:394-400 | after the '[' of n nested arrays the body is skipped exactly when the depth left plus 2 is at least 2n |
| JsonSkipProperties.Level | components/immjson/immjson.c:396-400 | inside one array, n nested arrays followed by its ']' are skipped exactly when the depth is at least 2n |
| JsonSkipProperties.PeekAfterWhitespace | components/immjson/immjson.c:349-352 | the trim before the dispatch consumes only the whitespace and leaves the byte peeked at in front |
| JsonSkipProperties.TrueSkipped | components/immjson/immjson.c:354 | "true" is skipped whole at any non-zero depth |
| JsonSkipProperties.FalseNotSkipped | components/immjson/immjson.c:354 | "false" in the last slice is not skipped, since json_expect_bool tries "true" first |
| JsonSkipProperties.NullSkipped | components/immjson/immjson.c:355 | "null" is skipped whole at any non-zero depth |
| JsonSkipProperties.StringSkipped | components/immjson/immjson.c:356 | a string without escapes is skipped exactly when the allocator grants its length plus one |
| JsonSkipProperties.ObjectDispatch | components/immjson/immjson.c:357-386 | a value that starts with '{' goes to json_ignore_object, which consumes the '{' one level down |
| JsonSkipProperties.NestedObjects | components/immjson/immjson.c:347-389 | n nested objects `{"a":{...}}` are skipped exactly when max_depth is at least 2n, and then consumed exactly |
| JsonSkipProperties.ObjectBody | components/immjson/immjson.c:382-389 | after the '{' of n nested objects the body is skipped exactly when the depth left plus 2 is at least 2n |
| JsonSkipProperties.ObjectLevel | components/immjson/immjson.c:370-388 | inside one object, a member holding n nested objects followed by its '}' is skipped exactly when the depth is at least 2n |
| JsonSkipProperties.MembersEnd | components/immjson/immjson.c:374-388 | with '}' next the key search with NULL succeeds at once and the '}' is then read |
| JsonSkipProperties.SkipFindsKey | components/immjson/immjson.c:370-375 | json_skip_to_key stops with true right after the ':' of the key it looks for |
| JsonSkipProperties.SkipRunsOut | components/immjson/immjson.c:373-374 | when no key is left the search returns true exactly when it looks for NULL, and the byte that ended it is left unread |
| JsonSkipProperties.SkipPassesMember | components/immjson/immjson.c:370-379 | another key has its value skipped and the search goes on after it, or fails when the value cannot be skipped |
| JsonSkipProperties.IntegerItemsSkipped | components/immjson/immjson.c:396-400 | integers separated by ',' and closed by ']' are skipped whole at any non-zero depth and refused at depth 0 |
| JsonSkipProperties.FlatIntegerArray | components/immjson/immjson.c:347-401 | an array of such integers is skipped exactly when max_depth is at least 3, and then consumed exactly |
| JsonSkipProperties.ItemsAfterBracket | components/immjson/immjson.c:394-400 | for such items the body after '[' is the item loop itself, no ']' coming first |
| JsonByteArrays.ByteItem | components/immjson/immjson.c:426-433 | a uint8_t item followed by ',' or ']' is stored as its one byte at the slot, and the ',' decides whether the loop goes on |
| JsonByteArrays.ByteTextStores | components/immjson/immjson.c:424-434 | decimal literals below 256 separated by ',' and closed by ']' store their values one slot after another |
| JsonByteArrays.ByteArrayStored | components/immjson/immjson.c:420-435 | `[v0,...,vn]` into a uint8_t array with enough slots succeeds, stores item k at Reserve(k) and consumes the ']' |
| JsonByteArrays.ByteArrayOverflows | components/immjson/immjson.c:420-435 | `[v0,...,vn]` with more items than the reserve callback has slots fails at the first item with no slot (the NULL of :426-427), and items 0 to capacity - 1 stay stored at their slots |
| JsonByteArrays.FillsBytesOverflow | components/immjson/immjson.c:424-434 | the loop from item i over items that fill every slot left, each followed by ',', fails at the item after them with all of them stored |
| JsonDeserialize.Deserialize | components/immjson/immjson.c:472-499 | the stream is only read forward; for strings, floats, booleans, integers and arrays the cursor moves past the slot by its fixed size (pointer, float, bool, (bitwidth-1)/8+1 bytes, or to the exitpoint) whether or not the value then parses |
| JsonDeserialize.ArrayAt | components/immjson/immjson.c:479-483 | the cursor is moved to the exitpoint of the description, the items are decoded from the old cursor on |
| JsonDeserialize.StoreValue | components/immjson/immjson.c:484-498 | the scalar cases move the cursor by the slot size; any other tag fails |
| JsonDeserialize.StoreString | components/immjson/immjson.c:484-486 | the cursor moves by a pointer; on success the string handed out is stored at the old cursor and nothing else changes, on failure memory is unchanged |
| JsonDeserialize.StoreNumber | components/immjson/immjson.c:487-489 | the cursor moves by a float; on success the parsed number is stored at the old cursor, on failure memory is unchanged |
| JsonDeserialize.StoreInteger | components/immjson/immjson.c:490-492 | the cursor moves by (bitwidth-1)/8+1; on success exactly the converted bytes are written from the old cursor on, on failure memory is unchanged |
| JsonDeserialize.StoreBool | components/immjson/immjson.c:493-495 | the cursor moves by one byte; on success that byte is 1 for true and 0 for false, on failure memory is unchanged |
| JsonDeserialize.DeserializeObject | components/immjson/immjson.c:437-440 | the stream is only read forward |
| JsonDeserialize.ObjectWalk | components/immjson/immjson.c:441-469 | the stream is only read forward |
| JsonDeserialize.ObjectStep | components/immjson/immjson.c:442-466 | a pass either ends the walk or moves on to the next property, or stays at the same property only after consuming input, so the loop terminates |
| JsonDeserialize.FinishObject | components/immjson/immjson.c:449-450 | the stream is only read forward |
| JsonDeserialize.ObjectKey | components/immjson/immjson.c:454-464 | as ObjectStep, for the key read of one property |
| JsonDeserialize.OtherKey | components/immjson/immjson.c:456-460 | skipping a value not named by the property and going on consumes input |
| JsonDeserialize.SkipMismatch | components/immjson/immjson.c:457-458 | the stream is only read forward; a ',' is only seen after a skipped value and after consuming input |
| JsonDeserialize.CloseObject | components/immjson/immjson.c:468-469 | closing the object leaves memory and cursor unchanged |
| JsonDeserialize.DeserializeArray | components/immjson/immjson.c:420-435 | the stream is only read forward and the base address of the items is unchanged |
| JsonDeserialize.DeserializeItems | components/immjson/immjson.c:424-434 | as DeserializeArray, for the do-while loop over the items |
| JsonMachine.Destination.constructor | components/immjson/immjson.c:472-473 | the destination memory is the one given |
| JsonMachine.JsonSource.Deserialize | components/immjson/immjson.c:472-499 | result, new state, memory and cursor are exactly JsonDeserialize.Deserialize's |
| JsonMachine.JsonSource.ArrayAt | components/immjson/immjson.c:479-483 | exactly JsonDeserialize.ArrayAt |
| JsonMachine.JsonSource.StoreValue | components/immjson/immjson.c:484-498 | exactly JsonDeserialize.StoreValue |
| JsonMachine.JsonSource.StoreString | components/immjson/immjson.c:484-486 | exactly JsonDeserialize.StoreString |
| JsonMachine.JsonSource.StoreNumber | components/immjson/immjson.c:487-489 | exactly JsonDeserialize.StoreNumber |
| JsonMachine.JsonSource.StoreInteger | components/immjson/immjson.c:490-492 | exactly JsonDeserialize.StoreInteger |
| JsonMachine.JsonSource.StoreBool | components/immjson/immjson.c:493-495 | exactly JsonDeserialize.StoreBool |
| JsonMachine.JsonSource.DeserializeObject | components/immjson/immjson.c:437-470 | exactly JsonDeserialize.DeserializeObject |
| JsonMachine.JsonSource.ObjectWalk | components/immjson/immjson.c:441-469 | the for loop over the properties computes exactly JsonDeserialize.ObjectWalk from property 0 |
| JsonMachine.JsonSource.ObjectStep | components/immjson/immjson.c:442-466 | one pass computes exactly JsonDeserialize.ObjectStep |
| JsonMachine.JsonSource.FinishObject | components/immjson/immjson.c:449-450 | exactly JsonDeserialize.FinishObject |
| JsonMachine.JsonSource.ObjectKey | components/immjson/immjson.c:454-464 | exactly JsonDeserialize.ObjectKey |
| JsonMachine.JsonSource.OtherKey | components/immjson/immjson.c:456-460 | exactly JsonDeserialize.OtherKey |
| JsonMachine.JsonSource.SkipMismatch | components/immjson/immjson.c:457-458 | exactly JsonDeserialize.SkipMismatch |
| JsonMachine.JsonSource.DeserializeArray | components/immjson/immjson.c:420-435 | exactly JsonDeserialize.DeserializeArray |
| JsonMachine.JsonSource.DeserializeItems | components/immjson/immjson.c:424-434 | the do-while loop computes exactly JsonDeserialize.DeserializeItems from item 0 |
| JsonWalk.EmptyArrayNoReserve | components/immjson/immjson.c:421-422 | "[]" succeeds without calling the reserve callback: memory and cursor unchanged, whatever its capacity |
| JsonWalk.StoredBytesAt | components/immjson/immjson.c:424-433 | storing one byte per slot at stride intervals leaves value k at slot k |
| JsonWalk.StoredBytesKeeps | components/immjson/immjson.c:424-433 | and leaves every byte outside the slots, the strings and the numbers as they were |
| JsonWalk.ItemThenBracket | components/immjson/immjson.c:426-434 | an item decoded and followed by ']' ends the array with success and the ']' consumed |
| JsonWalk.StoresBytesAccepted | components/immjson/immjson.c:424-434 | items that each store one byte, separated by ',' and closed by ']', are all accepted, item k stored at slot i + k, with the ']' consumed |
| JsonWalk.PaddingSkipped | components/immjson/immjson.c:443-445 | a run of padding entries reads no input and leaves memory alone: the walk goes on after the run with the cursor moved by the padding's total size |
| JsonWalk.TerminatorAtBrace | components/immjson/immjson.c:468-469 | OBJECT_PROPERTIES_END() at an optional ',' and the '}' accepts the object with the '}' consumed, memory and cursor unchanged |
| JsonWalk.FinishAtBrace | components/immjson/immjson.c:448-452 | at an inline end, an optional ',' and '}' close the inline object with success |
| JsonWalk.FinishOnOther | components/immjson/immjson.c:448-452 | any other byte fails it and is left unread |
| JsonWalk.FinishSkipsMember | components/immjson/immjson.c:448-452 | a remaining member has its value skipped, and closing goes on after it; a value that cannot be skipped leaves the '}' check to decide |
| JsonWalk.InlineBeginStops | components/immjson/immjson.c:438-439 | JSON_INLINE_OBJ_BEGIN succeeds right after '{', which is all it consumes |
| JsonWalk.ObjectNeedsBrace | components/immjson/immjson.c:438 | any byte but '{' after the whitespace fails the object with memory unchanged and that byte unread |
| JsonWalk.KeyRequired | components/immjson/immjson.c:454-455 | a named entry that meets the '}' instead of its key fails the walk with the '}' unread and memory unchanged: every key of the schema is required |
| JsonWalk.IntegerKeyStored | components/immjson/immjson.c:461-466 | `"k": <digits> x` for the integer entry "k" stores the literal's bytes, converted for the entry's width and signedness, at the cursor, moves the cursor past the slot and goes on with the next entry at x; a literal the conversion refuses fails the walk with memory unchanged |
| JsonWalk.UnknownKeyRetried | components/immjson/immjson.c:456-460 | `"j":true,` where the entry names another key skips the member and its ',' and tries the same entry again on what follows, memory and cursor unchanged |
| JsonWalk.SpaceBeforeCommaEndsWalk | components/immjson/immjson.c:456-460 | in `"j":true ,"k":true}` with the entry naming "k", the space before the ',' (read with no trim at :458) ends the walk: the object is accepted and "k" is never decoded, memory and cursor unchanged |
| JsonWalk.SuffixValid | components/immjson/include/immjson.h:217 | the properties from any index on still end with OBJECT_PROPERTIES_END() |
| JsonWalk.StepSuffix | components/immjson/immjson.c:442-466 | one pass at property i looks at no property but props[i] |
| JsonWalk.KeySuffix | components/immjson/immjson.c:454-464 | the key step at property i likewise |
| JsonWalk.WalkSuffix | components/immjson/immjson.c:441-469 | the walk from property i is the walk of the properties from any k <= i on: passed properties are never looked at again, so keys must come in schema order |
| JsonWalk.WalkFromEntry | components/immjson/immjson.c:441-469 | the walk from property i depends only on the properties from i on |

## Left out

- `json_expect_float`: the float conversion is floating point. A float slot receives the parsed JsonNumber, and the conversion, which ignores the exponent and indexes its table of powers without a bound, is not modelled.
- KIND_CUSTOM hooks are caller code that is not visible. They are a step that consumes no input, moves the cursor by a fixed amount and reports a given result.
- The allocator `alloc_str_fn` (realloc) is a capacity limit `heapLimit`: a request is granted exactly when the new capacity is at most the limit. The key strings that `json_next_key` hands out and the program never frees are not tracked.
- After a failed allocation the C code would copy through a NULL pointer on a later append that needs no growth. The model reports failure there.
- The read callback is the list `reader.slices`. TLS, the network and `read_from_tls` are not modelled; an empty slice ends the stream.
- A NULL property list and a read of the wrong member of the JsonValue union are undefined in C. The model reports failure.
- `char` is a Dafny `char`. The byte arithmetic the source does on it (`(unsigned char)(c - '0')`) is taken modulo 256.
- The JSON_REUSE_STRING_BUFFER variant is not modelled; the buffer is released after every string, as in the default build.
- Out-parameters written on a failing path (a partly filled JsonNumber) are not modelled; a failing number read returns no value. A failing array decode keeps the items it stored before the failure (JsonByteArrays.ByteArrayOverflows, for uint8_t items).
- `diagf` logging, ESP_LOG output, Wi-Fi, the display driver, the sensor drivers and the task scheduling are I/O and are not modelled.
- `render_text`, the `gui_render_*` widgets and `bitui_point`, `bitui_rrect` and the bitstream paste are drawing code outside the modelled helpers. `Gui.WeatherHours` and `Gui.LabelPassInBounds` model only the index arithmetic of `widget_weather`.
- Gui font glyph advances are an abstract table with a first and a last character.
- JsonDeserialize.DeserializeObject: its own contract states forward progress only. What the walk does is stated by the JsonWalk lemmas, by Dashboard.LayoutFollowsWalk (each step stores at the offset Dashboard.ForecastLayout lists) and by Dashboard.DecodeWeatherParsesBody.
- JsonDeserialize.ObjectWalk: its own contract states forward progress only. What the walk does is stated by the JsonWalk lemmas, by Dashboard.LayoutFollowsWalk (each step stores at the offset Dashboard.ForecastLayout lists) and by Dashboard.DecodeWeatherParsesBody.
- JsonDeserialize.ObjectStep: its own contract states forward progress only. What the walk does is stated by the JsonWalk lemmas, by Dashboard.LayoutFollowsWalk (each step stores at the offset Dashboard.ForecastLayout lists) and by Dashboard.DecodeWeatherParsesBody.
- JsonSkip.IgnoreAny: its own contract states forward progress and the depth-0 failure. What it skips is stated by the JsonSkipProperties lemmas (JsonSkipProperties.NestedObjects, JsonSkipProperties.FlatIntegerArray and the literal and string lemmas).
- JsonSkip.IgnoreObject: its own contract states forward progress and the depth-0 failure. What it skips is stated by the JsonSkipProperties lemmas (JsonSkipProperties.NestedObjects, JsonSkipProperties.FlatIntegerArray and the literal and string lemmas).
- JsonSkip.IgnoreArray: its own contract states forward progress and the depth-0 failure. What it skips is stated by the JsonSkipProperties lemmas (JsonSkipProperties.NestedObjects, JsonSkipProperties.FlatIntegerArray and the literal and string lemmas).
- JsonValues.ExpectNumber: its own contract states the field ranges only. The grammar is stated by the JsonProperties lemmas about number shapes (JsonProperties.IntegerText, JsonProperties.LeadingZero, JsonProperties.FractionNeedsDigit, JsonProperties.ExponentBound).
- JsonValues.ExpectNull: its own contract states forward progress only; what it accepts is stated by JsonProperties.NullAccepted.
- JsonValues.FractionPart: its own contract states the field ranges only; the digits it reads are stated by JsonProperties.NoFraction, JsonProperties.FractionRead, JsonProperties.ExponentDispatch and JsonProperties.SignedExponentRead.
- JsonValues.ExponentPart: its own contract states the field ranges only; the digits it reads are stated by JsonProperties.NoFraction, JsonProperties.FractionRead, JsonProperties.ExponentDispatch and JsonProperties.SignedExponentRead.
- JsonValues.SignedExponent: its own contract states the field ranges only; the digits it reads are stated by JsonProperties.NoFraction, JsonProperties.FractionRead, JsonProperties.ExponentDispatch and JsonProperties.SignedExponentRead.
- JsonValues.NextKey: its own contract states forward progress only; the key it hands out is stated by JsonStructure.KeyRead and JsonStructure.NoKey.
- JsonValues.BeginArray: its own contract states forward progress only; what it consumes is stated by JsonStructure.ArrayOpened, JsonStructure.NotAnArray and JsonStructure.ArrayNextCases.
- JsonValues.ArrayNext: its own contract states forward progress only; what it consumes is stated by JsonStructure.ArrayOpened, JsonStructure.NotAnArray and JsonStructure.ArrayNextCases.
- JsonSkip.IgnoreValue: its own contract states forward progress only; the dispatch and the key search are stated by JsonSkipProperties.PeekAfterWhitespace, JsonSkipProperties.TrueSkipped, JsonSkipProperties.NullSkipped, JsonSkipProperties.StringSkipped, JsonSkipProperties.ObjectDispatch, JsonSkipProperties.SkipFindsKey, JsonSkipProperties.SkipRunsOut and JsonSkipProperties.SkipPassesMember, for values within one slice.
- JsonSkip.SkipToKey: its own contract states forward progress only; the dispatch and the key search are stated by JsonSkipProperties.PeekAfterWhitespace, JsonSkipProperties.TrueSkipped, JsonSkipProperties.NullSkipped, JsonSkipProperties.StringSkipped, JsonSkipProperties.ObjectDispatch, JsonSkipProperties.SkipFindsKey, JsonSkipProperties.SkipRunsOut and JsonSkipProperties.SkipPassesMember, for values within one slice.
- JsonSkip.SkipMember: its own contract states forward progress only; the dispatch and the key search are stated by JsonSkipProperties.PeekAfterWhitespace, JsonSkipProperties.TrueSkipped, JsonSkipProperties.NullSkipped, JsonSkipProperties.StringSkipped, JsonSkipProperties.ObjectDispatch, JsonSkipProperties.SkipFindsKey, JsonSkipProperties.SkipRunsOut and JsonSkipProperties.SkipPassesMember, for values within one slice.
- JsonSkip.ArrayItems: its own contract states forward progress only; what it skips is stated for integer items by JsonSkipProperties.IntegerItemsSkipped, JsonSkipProperties.FlatIntegerArray and JsonSkipProperties.ItemsAfterBracket, and not for arrays of other values.
- JsonSkip.IgnoreItems: its own contract states forward progress only; what it skips is stated for integer items by JsonSkipProperties.IntegerItemsSkipped, JsonSkipProperties.FlatIntegerArray and JsonSkipProperties.ItemsAfterBracket, and not for arrays of other values.
- JsonDeserialize.ArrayAt: its own contract states forward progress and the cursor exit only; the last item step is stated for any kind by JsonWalk.ItemThenBracket, and the whole array for items storing one byte by JsonWalk.StoresBytesAccepted and JsonByteArrays.ByteArrayStored (success) and by JsonByteArrays.FillsBytesOverflow and JsonByteArrays.ByteArrayOverflows (more items than slots). A closed form for arrays of wider items is not stated.
- JsonDeserialize.DeserializeArray: its own contract states forward progress and the cursor exit only; the last item step is stated for any kind by JsonWalk.ItemThenBracket, and the whole array for items storing one byte by JsonWalk.StoresBytesAccepted and JsonByteArrays.ByteArrayStored (success) and by JsonByteArrays.FillsBytesOverflow and JsonByteArrays.ByteArrayOverflows (more items than slots). A closed form for arrays of wider items is not stated.
- JsonDeserialize.DeserializeItems: its own contract states forward progress and the cursor exit only; the last item step is stated for any kind by JsonWalk.ItemThenBracket, and the whole array for items storing one byte by JsonWalk.StoresBytesAccepted and JsonByteArrays.ByteArrayStored (success) and by JsonByteArrays.FillsBytesOverflow and JsonByteArrays.ByteArrayOverflows (more items than slots). A closed form for arrays of wider items is not stated.
- JsonDeserialize.FinishObject: its own contract states forward progress only; closing an inline object is stated by JsonWalk.FinishAtBrace, JsonWalk.FinishOnOther and JsonWalk.FinishSkipsMember.
- Bitui.Context.VLine: requires y2 below 65535. With y2 == 65535 the `uint16_t` counter of bitui_vline (components/bitui/bitui.c:59) wraps to 0 after 65535 and the loop never ends; with a row at least one byte wide that row lies past a framebuffer of at most 65536 bytes unless the width is 1, so only that one configuration could reach it.
- Bitui.Context.Valid: holds only for a framebuffer of at most 65536 bytes, because bitui_colorize (components/bitui/bitui.c:4) takes a `uint16_t` offset; larger framebuffers, whose offsets would wrap, are not modelled.
- UlpRingBuf.PushedIsNewest: stated for the 32-slot sample ring (SampleCap) only; for other power-of-two capacities only the ring invariant (UlpRingBuf.PushKeepsRing) and the wrap of `Next` are proved, since the bit-vector mask arithmetic with a symbolic capacity is not proved here.
- UlpRingBuf.PushAges: stated for the 32-slot sample ring (SampleCap) only; for other power-of-two capacities only the ring invariant (UlpRingBuf.PushKeepsRing) and the wrap of `Next` are proved, since the bit-vector mask arithmetic with a symbolic capacity is not proved here.
- UlpRingBuf.NewestDistinct: stated for the 32-slot sample ring (SampleCap) only; for other power-of-two capacities only the ring invariant (UlpRingBuf.PushKeepsRing) and the wrap of `Next` are proved, since the bit-vector mask arithmetic with a symbolic capacity is not proved here.
- Keys are compared as whole character sequences. `strcmp` in json_skip_to_key and deserialize_object (components/immjson/immjson.c:375, :456) and the loop of measure_text (components/gui/gui.c:55) stop at the first NUL, so a key or text holding an embedded NUL is not modelled.
- JsonValues.ExpectString: its own contract states the buffer release only. The accepted strings are stated by JsonProperties.PlainString, JsonProperties.EscapedString and JsonProperties.UnicodeEscapeRefused, for strings within one slice.

## Findings

| source | as written | input that shows it | evidently intended | confidence | as-written member | corrected member |
|---|---|---|---|---|---|---|
| components/immjson/immjson.c:303 | a negative number is stored as its magnitude with bit `bitwidth - 1` set (sign and magnitude) | "-1" read as an int8_t is stored as 0x81, which is -127 | two's complement, 0xFF for -1 | not executed | JsonIntegers.MinusOneAsInt8 | JsonIntegers.IntendedValue |
| main/ulp/common.h:10-12 | `ulp_sample_flags_timestamp` masks 48 bits but returns `uint8_t`, so only the low 8 bits survive | the timer value 0x100 reads back as 0 | the 48-bit timestamp is returned | not executed | UlpCommon.TimestampTruncated | UlpCommon.Timestamp48RoundTrip |
| components/immjson/immjson.c:213-224 | json_read_expected (:30-50) drops the rest of the slice at a mismatch and goes on matching against the next slice, so `json_expect_bool`'s "false" attempt starts where the "true" attempt ended | the slices "false" and "true" are read as true; "false" in the last slice is refused | the "false" attempt starts at the first byte of the value | not executed | JsonProperties.FalseThenTrueSlicesReadTrue | JsonProperties.IntendedBoolReadsLiteral |
| components/gui/gui.c:65 | the glyph assertion is `c >= first \|\| c <= last`, which every character passes | the tab character in a font covering 32 to 126 passes and indexes before the glyph table | `c >= first && c <= last` | not executed | Gui.GlyphCheckAsWrittenOutOfTable | Gui.InFontIndexesTable |

The decoder model keeps the integer conversion and the boolean reader as
written, since it models the code. JsonIntegers.NonNegativeAgree shows that both conversions store
the same bytes for every number that is not negative.
