/**
 * The application side of main/eink-dashboard.c that feeds the JSON
 * decoder: the reserve and describe callbacks of the forecast arrays, the
 * schema `forecast_schema` steering the decode into `struct Forecast`, the
 * search for the end of the HTTP header before the body is parsed, and the
 * sensor-history ring `ringbuf_emplace`.
 */
module Dashboard {
  import opened Wrappers
  import opened JsonTypes
  import opened JsonLexer
  import opened JsonDeserialize
  import JsonValues
  import JsonMachine
  import JsonProperties
  import JsonWalk
  import JsonByteArrays
  import Gui

  // ---------------------------------------------------------------------
  // Reserve callbacks
  // ---------------------------------------------------------------------

  /** static_reserve_hourly_uint64: one `uint64_t` per hour. */
  const ReserveHourlyUint64: ReserveFn := StaticReserve(8, Gui.HourlyPoints)
  /** static_reserve_float: one `float` per hour. */
  const ReserveFloat: ReserveFn := StaticReserve(FloatBytes, Gui.HourlyPoints)
  /** static_reserve_uint8: one `uint8_t` per hour. */
  const ReserveUint8: ReserveFn := StaticReserve(1, Gui.HourlyPoints)
  /** static_reserve_daily_int64: one `int64_t` per day. */
  const ReserveDailyInt64: ReserveFn := StaticReserve(8, Gui.ForecastDays)

  /** The hourly callbacks hand out element i of a 48-element array, and NULL from index 48 on. */
  lemma HourlyReserveSlots(cursor: int, i: nat)
    ensures Reserve(ReserveHourlyUint64, cursor, i) == if i < 48 then Some(cursor + 8 * i) else None
    ensures Reserve(ReserveFloat, cursor, i) == if i < 48 then Some(cursor + 4 * i) else None
    ensures Reserve(ReserveUint8, cursor, i) == if i < 48 then Some(cursor + i) else None
  {
  }

  /** The daily callback hands out element i of a 2-element array, and NULL from index 2 on. */
  lemma DailyReserveSlots(cursor: int, i: nat)
    ensures Reserve(ReserveDailyInt64, cursor, i) == if i < 2 then Some(cursor + 8 * i) else None
  {
  }

  // ---------------------------------------------------------------------
  // Describe callbacks
  // ---------------------------------------------------------------------

  /** array_describe_hourly_time: 48 unsigned 64-bit integers. */
  const DescribeHourlyTime: ArrayDescriber :=
    ArrayDescriber(8 * Gui.HourlyPoints, ReserveHourlyUint64, KindInteger, IntegerSpec(false, 64))
  /** array_describe_temperature: 48 floats (the item value is left zero). */
  const DescribeTemperature: ArrayDescriber :=
    ArrayDescriber(FloatBytes * Gui.HourlyPoints, ReserveFloat, KindDouble, NoValue)
  /** array_describe_weather_code: 48 unsigned 8-bit integers. */
  const DescribeWeatherCode: ArrayDescriber :=
    ArrayDescriber(Gui.HourlyPoints, ReserveUint8, KindInteger, IntegerSpec(false, 8))
  /** array_describe_daily_time, used for the daily `time`, `sunrise` and `sunset`: 2 signed 64-bit integers. */
  const DescribeDailyTime: ArrayDescriber :=
    ArrayDescriber(8 * Gui.ForecastDays, ReserveDailyInt64, KindInteger, IntegerSpec(true, 64))

  /**
   * Decoding an array property moves the cursor past the whole destination
   * array, however many elements the JSON array has and whether or not it
   * decodes.
   */
  lemma ArrayExitpoints(src: Source, mem: Memory, cursor: int)
    ensures Deserialize(src, mem, cursor, KindArray, ArrayDescribe(DescribeHourlyTime)).cursor == cursor + 384
    ensures Deserialize(src, mem, cursor, KindArray, ArrayDescribe(DescribeTemperature)).cursor == cursor + 192
    ensures Deserialize(src, mem, cursor, KindArray, ArrayDescribe(DescribeWeatherCode)).cursor == cursor + 48
    ensures Deserialize(src, mem, cursor, KindArray, ArrayDescribe(DescribeDailyTime)).cursor == cursor + 16
  {
  }

  /** The element kinds of the forecast arrays. */
  lemma ElementKinds()
    ensures DescribeHourlyTime.itemTag == KindInteger && DescribeHourlyTime.itemVal == IntegerSpec(false, 64)
    ensures DescribeWeatherCode.itemTag == KindInteger && DescribeWeatherCode.itemVal == IntegerSpec(false, 8)
    ensures DescribeDailyTime.itemTag == KindInteger && DescribeDailyTime.itemVal == IntegerSpec(true, 64)
    ensures DescribeTemperature.itemTag == KindDouble
  {
  }

  /** Byte k of the memory from `at` on holds value k. */
  predicate BytesAt(m: Memory, at: int, values: seq<Byte>) {
    forall k :: 0 <= k < |values| ==> ByteAt(m, at + k, values[k])
  }

  /** The memory holds byte v at address a. */
  predicate ByteAt(m: Memory, a: int, v: Byte) {
    a in m.bytes && m.bytes[a] == v
  }

  /** Every byte of `before` outside [lo, hi) is still there in `after`. */
  predicate BytesKept(before: Memory, after: Memory, lo: int, hi: int) {
    forall a :: a in before.bytes && (a < lo || hi <= a) ==> a in after.bytes && after.bytes[a] == before.bytes[a]
  }

  /**
   * `weather_code` given as up to 48 decimal literals below 256: the array
   * is accepted, code k is stored in byte k of the destination array, no
   * byte outside the codes written is touched, and the cursor moves past
   * all 48 bytes.
   */
  lemma WeatherCodesStored(src: Source, mem: Memory, cursor: int, ws: seq<char>, items: seq<seq<char>>, values: seq<Byte>, rest: seq<char>)
    requires items != [] && JsonByteArrays.ByteLiterals(items, values) && |items| <= Gui.HourlyPoints
    requires src.remainder == ws + ['['] + JsonProperties.Joined(items) + [']'] + rest && JsonProperties.AllWhitespace(ws)
    ensures var r := Deserialize(src, mem, cursor, KindArray, ArrayDescribe(DescribeWeatherCode));
            r.ok && r.src.remainder == rest && r.cursor == cursor + 48
            && BytesAt(r.mem, cursor, values) && BytesKept(mem, r.mem, cursor, cursor + |values|)
  {
    WeatherCodesAccepted(src, mem, cursor, ws, items, values, rest);
    ConsecutiveBytes(mem, cursor, values);
  }

  /** Bytes stored with stride 1 lie one after the other, and nothing else changes. */
  lemma ConsecutiveBytes(mem: Memory, at: int, values: seq<Byte>)
    ensures var m := JsonWalk.StoredBytes(mem, at, 1, values);
            BytesAt(m, at, values) && BytesKept(mem, m, at, at + |values|)
  {
    JsonWalk.StoredBytesKeeps(mem, at, 1, values);
    var m := JsonWalk.StoredBytes(mem, at, 1, values);
    assert at + 1 * |values| == at + |values|;
    forall k | 0 <= k < |values| ensures ByteAt(m, at + k, values[k]) {
      StoredByteAt(mem, at, values, k);
    }
  }

  lemma StoredByteAt(mem: Memory, at: int, values: seq<Byte>, k: int)
    requires 0 <= k < |values|
    ensures var m := JsonWalk.StoredBytes(mem, at, 1, values);
            at + k in m.bytes && m.bytes[at + k] == values[k]
  {
    JsonWalk.StoredBytesAt(mem, at, 1, values);
    assert at + 1 * k == at + k;
  }

  /** The same decode, with the memory it leaves stated as the bytes stored one after the other. */
  lemma WeatherCodesAccepted(src: Source, mem: Memory, cursor: int, ws: seq<char>, items: seq<seq<char>>, values: seq<Byte>, rest: seq<char>)
    requires items != [] && JsonByteArrays.ByteLiterals(items, values) && |items| <= Gui.HourlyPoints
    requires src.remainder == ws + ['['] + JsonProperties.Joined(items) + [']'] + rest && JsonProperties.AllWhitespace(ws)
    ensures var r := Deserialize(src, mem, cursor, KindArray, ArrayDescribe(DescribeWeatherCode));
            r.ok && r.src.remainder == rest && r.cursor == cursor + 48 && r.mem == JsonWalk.StoredBytes(mem, cursor, 1, values)
  {
    var desc := Describe(DescribeWeatherCode, cursor);
    JsonByteArrays.ByteArrayStored(src, mem, cursor, desc, ws, items, values, rest);
    assert Deserialize(src, mem, cursor, KindArray, ArrayDescribe(DescribeWeatherCode)) == ArrayAt(src, mem, cursor, DescribeWeatherCode);
  }

  /**
   * A daily array never gets a third element: once two elements and a
   * comma have been read, the reserve callback returns NULL and the decode
   * fails, leaving the memory as the first two elements left it.
   */
  lemma ThirdDailyElementFails(src: Source, mem: Memory, out: int)
    ensures !DeserializeItems(src, mem, out, Describe(DescribeDailyTime, out), 2).ok
    ensures DeserializeItems(src, mem, out, Describe(DescribeDailyTime, out), 2).mem == mem
  {
  }

  // ---------------------------------------------------------------------
  // forecast_schema
  // ---------------------------------------------------------------------

  const ForecastSchema: seq<Property> := [
    Entry(SchemaKeyOf(KindDouble, "latitude"), NoValue),
    Entry(SchemaKeyOf(KindDouble, "longitude"), NoValue),
    Entry(SchemaKeyOf(KindObject, "hourly"), ObjDesc(InlineBegin)),
    Entry(SchemaKeyOf(KindArray, "time"), ArrayDescribe(DescribeHourlyTime)),
    Entry(SchemaKeyOf(KindArray, "temperature_2m"), ArrayDescribe(DescribeTemperature)),
    Entry(SchemaKeyOf(KindArray, "weather_code"), ArrayDescribe(DescribeWeatherCode)),
    Entry(SchemaKeyOf(KindObject, ""), ObjDesc(InlineEnd)),
    Entry(SchemaKeyOf(KindObject, "daily"), ObjDesc(InlineBegin)),
    Entry(SchemaKeyOf(KindArray, "time"), ArrayDescribe(DescribeDailyTime)),
    Entry(SchemaKeyOf(KindArray, "sunrise"), ArrayDescribe(DescribeDailyTime)),
    Entry(SchemaKeyOf(KindArray, "sunset"), ArrayDescribe(DescribeDailyTime)),
    Entry(SchemaKeyOf(KindObject, ""), ObjDesc(InlineEnd)),
    PropertiesEnd
  ]

  /** The JSON keys of the schema's entries, in order ("" for the inline-end markers). */
  const SchemaNames: seq<seq<char>> :=
    ["latitude", "longitude", "hourly", "time", "temperature_2m", "weather_code", "",
     "daily", "time", "sunrise", "sunset", ""]

  /** The tags of the schema's entries, in order. */
  const SchemaTags: seq<int> :=
    [KindDouble, KindDouble, KindObject, KindArray, KindArray, KindArray, KindObject,
     KindObject, KindArray, KindArray, KindArray, KindObject]

  /** The schema is well formed: every entry's value fits its tag, and the list ends with the terminator after twelve entries. */
  lemma ForecastSchemaValid()
    ensures ValidProperties(ForecastSchema)
    ensures |ForecastSchema| == |SchemaNames| + 1 && IsEnd(ForecastSchema[|SchemaNames|])
  {
    forall i | 0 <= i < |SchemaNames| ensures ValidValue(Tag(ForecastSchema[i].key), ForecastSchema[i].val) {
      EntryKey(i);
      EntryValue(i);
    }
    assert forall p :: p in ForecastSchema && p.Entry? ==> ValidValue(Tag(p.key), p.val);
  }

  /** The value of entry i fits its tag. */
  lemma EntryValue(i: nat)
    requires i < |SchemaNames|
    ensures ForecastSchema[i].Entry? && ValidValue(SchemaTags[i], ForecastSchema[i].val)
  {
    assert ValidValue(KindArray, ArrayDescribe(DescribeHourlyTime));
    assert ValidValue(KindArray, ArrayDescribe(DescribeWeatherCode));
    assert ValidValue(KindArray, ArrayDescribe(DescribeDailyTime));
    EntryKey(i);
  }

  /**
   * The schema has no padding entries and lists latitude, longitude, an
   * inline `hourly` object with time, temperature_2m and weather_code,
   * then an inline `daily` object with time, sunrise and sunset.
   */
  lemma ForecastSchemaKeys()
    ensures forall i :: 0 <= i < |SchemaNames| ==>
      ForecastSchema[i].Entry? && KeyName(ForecastSchema[i].key) == SchemaNames[i] && Tag(ForecastSchema[i].key) == SchemaTags[i]
  {
    forall i | 0 <= i < |SchemaNames|
      ensures ForecastSchema[i].Entry? && KeyName(ForecastSchema[i].key) == SchemaNames[i] && Tag(ForecastSchema[i].key) == SchemaTags[i]
    {
      EntryKey(i);
    }
  }

  /** Entry i of the schema, spelled out. */
  lemma EntryKey(i: nat)
    requires i < |SchemaNames|
    ensures ForecastSchema[i].Entry? && ForecastSchema[i].key == SchemaKeyOf(SchemaTags[i], SchemaNames[i])
  {
    if i < 6 {
      if i < 3 {
        assert i == 0 || i == 1 || i == 2;
      } else {
        assert i == 3 || i == 4 || i == 5;
      }
    } else if i < 9 {
      assert i == 6 || i == 7 || i == 8;
    } else {
      assert i == 9 || i == 10 || i == 11;
    }
  }

  /**
   * The offsets from the start of the destination at which a walk over the
   * property list stores the entries that hold a value, given that each
   * such entry moves the cursor by its FixedWidth and padding by its size;
   * object markers store nothing and do not move the cursor.
   */
  function StoreOffsets(props: seq<Property>, i: nat, at: int): seq<int>
    decreases |props| - i
  {
    if i >= |props| then []
    else match props[i]
      case NullKey(padding) =>
        if padding == UintptrMax then [] else StoreOffsets(props, i + 1, at + padding)
      case Entry(key, val) =>
        if Tag(key) == KindObject then StoreOffsets(props, i + 1, at)
        else [at] + StoreOffsets(props, i + 1, at + Width(key, val))
  }

  /** The bytes an entry that holds a value moves the cursor by. */
  function Width(key: SchemaKey, val: JsonValue): nat {
    var width := FixedWidth(Tag(key), val);
    if width.Some? then width.value else 0
  }

  /** Where the cursor stands once every entry of the property list from i on has been stored. */
  function EndOffset(props: seq<Property>, i: nat, at: int): int
    decreases |props| - i
  {
    if i >= |props| then at
    else match props[i]
      case NullKey(padding) => if padding == UintptrMax then at else EndOffset(props, i + 1, at + padding)
      case Entry(key, val) =>
        if Tag(key) == KindObject then EndOffset(props, i + 1, at)
        else EndOffset(props, i + 1, at + Width(key, val))
  }

  /**
   * An entry whose move of the cursor the layout functions know: padding,
   * an inline object marker, or a value of a fixed width.
   */
  predicate LaidOut(p: Property) {
    match p
    case NullKey(_) => true
    case Entry(key, val) =>
      if Tag(key) == KindObject then (val.ObjDesc? && !val.desc.Properties?) || val == NoValue
      else FixedWidth(Tag(key), val).Some?
  }

  /** The bytes a laid-out entry moves the cursor by. */
  function Advance(p: Property): int {
    match p
    case NullKey(padding) => padding
    case Entry(key, val) => if Tag(key) == KindObject then 0 else Width(key, val)
  }

  /**
   * The layout functions follow the walk of json_deserialize_object: a pass
   * that stays at property i leaves the cursor where it was, and a pass
   * that moves on to i + 1 leaves the offsets still to come and the end
   * offset as they were computed from i, the entry at i having been stored
   * at the old cursor when it holds a value.
   */
  lemma LayoutFollowsWalk(src: Source, mem: Memory, cursor: int, props: seq<Property>, i: nat)
    requires ValidProperties(props) && i < |props| && LaidOut(props[i])
    ensures var r := ObjectStep(src, mem, cursor, props, i);
            r.WalkOn? ==>
              (r.i == i && r.cursor == cursor)
              || (r.i == i + 1
                  && EndOffset(props, i + 1, r.cursor) == EndOffset(props, i, cursor)
                  && StoreOffsets(props, i, cursor)
                     == (if props[i].Entry? && Tag(props[i].key) != KindObject then [cursor] else [])
                        + StoreOffsets(props, i + 1, r.cursor))
  {
    var r := ObjectStep(src, mem, cursor, props, i);
    StepCursor(src, mem, cursor, props, i);
    if r.WalkOn? && r.i == i + 1 {
      OffsetsStep(props, i, cursor);
    }
  }

  /** A pass of the walk over a laid-out entry moves the cursor by the entry's advance, or not at all when it stays. */
  lemma StepCursor(src: Source, mem: Memory, cursor: int, props: seq<Property>, i: nat)
    requires ValidProperties(props) && i < |props| && LaidOut(props[i])
    ensures var r := ObjectStep(src, mem, cursor, props, i);
            r.WalkOn? ==>
              (r.i == i && r.cursor == cursor)
              || (r.i == i + 1 && r.cursor == cursor + Advance(props[i])
                  && !(props[i].NullKey? && props[i].paddingBytes == UintptrMax))
  {
    if props[i].Entry? && !(Tag(props[i].key) == KindObject && IsInlineEnd(props[i].val)) {
      KeyCursor(src, mem, cursor, props, i);
    }
  }

  /** The key read of a laid-out entry: the value it stores moves the cursor by the entry's advance. */
  lemma KeyCursor(src: Source, mem: Memory, cursor: int, props: seq<Property>, i: nat)
    requires ValidProperties(props) && i < |props| && LaidOut(props[i]) && props[i].Entry?
    ensures var r := ObjectKey(src, mem, cursor, props, i);
            r.WalkOn? ==> (r.i == i && r.cursor == cursor) || (r.i == i + 1 && r.cursor == cursor + Advance(props[i]))
  {
    var k := JsonValues.NextKey(src);
    if k.key.Some? && k.key.value == KeyName(props[i].key) {
      assert props[i] in props;
      var v := Deserialize(k.src, mem, cursor, Tag(props[i].key), props[i].val);
      ValueCursor(k.src, mem, cursor, props[i], v);
      assert ObjectKey(src, mem, cursor, props, i) == if !v.ok then WalkDone(v) else WalkOn(v.src, v.mem, v.cursor, i + 1);
    }
  }

  /** The value of a laid-out entry, once stored, leaves the cursor moved by the entry's advance. */
  lemma ValueCursor(src: Source, mem: Memory, cursor: int, p: Property, v: Walk)
    requires p.Entry? && LaidOut(p) && ValidValue(Tag(p.key), p.val)
    requires v == Deserialize(src, mem, cursor, Tag(p.key), p.val)
    ensures v.ok ==> v.cursor == cursor + Advance(p)
  {
    if Tag(p.key) == KindObject && p.val.ObjDesc? {
      assert v == DeserializeObject(src, mem, cursor, p.val.desc);
    }
  }

  /** The layout functions at a laid-out entry: its offset, then the offsets from the next entry on. */
  lemma OffsetsStep(props: seq<Property>, i: nat, cursor: int)
    requires i < |props| && !(props[i].NullKey? && props[i].paddingBytes == UintptrMax)
    ensures EndOffset(props, i + 1, cursor + Advance(props[i])) == EndOffset(props, i, cursor)
    ensures StoreOffsets(props, i, cursor)
            == (if props[i].Entry? && Tag(props[i].key) != KindObject then [cursor] else [])
               + StoreOffsets(props, i + 1, cursor + Advance(props[i]))
  {
  }

  /**
   * The schema stores latitude at 0, longitude at 4, the hourly arrays at
   * 8, 392 and 584 and the daily arrays at 632, 648 and 664, and ends at
   * 680: the offsets of the members of `struct Forecast` on the target,
   * whose `updated_at` follows at 680; no padding entry is needed.
   */
  lemma ForecastLayout()
    ensures StoreOffsets(ForecastSchema, 0, 0) == [0, 4, 8, 392, 584, 632, 648, 664]
    ensures EndOffset(ForecastSchema, 0, 0) == UpdatedAtOffset
  {
    var p := ForecastSchema;
    assert StoreOffsets(p, 12, 680) == [] && EndOffset(p, 12, 680) == 680;
    assert StoreOffsets(p, 11, 680) == [] && EndOffset(p, 11, 680) == 680;
    assert StoreOffsets(p, 10, 664) == [664] && EndOffset(p, 10, 664) == 680;
    assert StoreOffsets(p, 9, 648) == [648, 664] && EndOffset(p, 9, 648) == 680;
    assert StoreOffsets(p, 8, 632) == [632, 648, 664] && EndOffset(p, 8, 632) == 680;
    assert StoreOffsets(p, 7, 632) == [632, 648, 664] && EndOffset(p, 7, 632) == 680;
    assert StoreOffsets(p, 6, 632) == [632, 648, 664] && EndOffset(p, 6, 632) == 680;
    assert StoreOffsets(p, 5, 584) == [584, 632, 648, 664] && EndOffset(p, 5, 584) == 680;
    assert StoreOffsets(p, 4, 392) == [392, 584, 632, 648, 664] && EndOffset(p, 4, 392) == 680;
    assert StoreOffsets(p, 3, 8) == [8, 392, 584, 632, 648, 664] && EndOffset(p, 3, 8) == 680;
    assert StoreOffsets(p, 2, 8) == [8, 392, 584, 632, 648, 664] && EndOffset(p, 2, 8) == 680;
    assert StoreOffsets(p, 1, 4) == [4, 8, 392, 584, 632, 648, 664] && EndOffset(p, 1, 4) == 680;
  }

  /** Every entry of forecast_schema moves the cursor as the layout functions say. */
  lemma ForecastLaidOut()
    ensures forall i :: 0 <= i < |ForecastSchema| ==> LaidOut(ForecastSchema[i])
  {
    var p := ForecastSchema;
    assert LaidOut(p[0]) && LaidOut(p[1]) && LaidOut(p[2]) && LaidOut(p[3]);
    assert LaidOut(p[4]) && LaidOut(p[5]) && LaidOut(p[6]) && LaidOut(p[7]);
    assert LaidOut(p[8]) && LaidOut(p[9]) && LaidOut(p[10]) && LaidOut(p[11]) && LaidOut(p[12]);
  }

  /** offsetof(struct Forecast, updated_at) */
  const UpdatedAtOffset: nat := 680
  /** sizeof(time_t) */
  const TimeBytes: nat := 8

  // ---------------------------------------------------------------------
  // The end of the HTTP header
  // ---------------------------------------------------------------------

  const HttpHeadEnd: seq<char> := "\r\n\r\n"

  /** pat occurs in s at index j. */
  predicate OccursAt(s: seq<char>, pat: seq<char>, j: int) {
    0 <= j && j + |pat| <= |s| && s[j..j + |pat|] == pat
  }

  /** The first index from k on at which pat occurs in s. */
  function FindFrom(s: seq<char>, pat: seq<char>, k: nat): (r: Option<nat>)
    ensures r.Some? ==> k <= r.value && OccursAt(s, pat, r.value)
    decreases |s| - k
  {
    if k + |pat| > |s| then None
    else if OccursAt(s, pat, k) then Some(k)
    else FindFrom(s, pat, k + 1)
  }

  /** memmem */
  function Find(s: seq<char>, pat: seq<char>): Option<nat> {
    FindFrom(s, pat, 0)
  }

  lemma {:induction false} FindFromIsFirst(s: seq<char>, pat: seq<char>, k: nat)
    requires forall j :: 0 <= j < k ==> !OccursAt(s, pat, j)
    ensures FindFrom(s, pat, k).Some? ==> var i := FindFrom(s, pat, k).value;
              OccursAt(s, pat, i) && forall j :: 0 <= j < i ==> !OccursAt(s, pat, j)
    ensures FindFrom(s, pat, k).None? ==> forall j :: !OccursAt(s, pat, j)
    decreases |s| - k
  {
    if k + |pat| <= |s| && !OccursAt(s, pat, k) {
      FindFromIsFirst(s, pat, k + 1);
    }
  }

  /** Find returns the first occurrence of the pattern, and None only when there is none. */
  lemma FindIsFirst(s: seq<char>, pat: seq<char>)
    ensures Find(s, pat).Some? ==> var i := Find(s, pat).value;
              OccursAt(s, pat, i) && forall j :: 0 <= j < i ==> !OccursAt(s, pat, j)
    ensures Find(s, pat).None? ==> forall j :: !OccursAt(s, pat, j)
  {
    FindFromIsFirst(s, pat, 0);
  }

  /** A scan for the first occurrence of pat in s, as memmem does it. */
  method MemMem(s: seq<char>, pat: seq<char>) returns (r: Option<nat>)
    ensures r == Find(s, pat)
    ensures r.Some? ==> OccursAt(s, pat, r.value)
  {
    var k := 0;
    r := None;
    while k + |pat| <= |s|
      invariant FindFrom(s, pat, k) == Find(s, pat)
      decreases |s| - k
    {
      if s[k..k + |pat|] == pat {
        assert OccursAt(s, pat, k);
        return Some(k);
      }
      k := k + 1;
    }
  }

  /** Where decode_weather starts parsing in the first slice: right after the first blank line, if any. */
  function BodyStart(first: seq<char>): Option<nat> {
    match Find(first, HttpHeadEnd)
    case None => None
    case Some(k) => Some(k + |HttpHeadEnd|)
  }

  /** The body starts right after the first "\r\n\r\n", and no earlier blank line precedes it. */
  lemma BodyStartAfterHeader(first: seq<char>)
    ensures BodyStart(first).Some? ==> var b := BodyStart(first).value;
              4 <= b <= |first| && first[b - 4..b] == HttpHeadEnd
              && forall j :: 0 <= j < b - 4 ==> !OccursAt(first, HttpHeadEnd, j)
    ensures BodyStart(first).None? ==> forall j :: !OccursAt(first, HttpHeadEnd, j)
  {
    FindIsFirst(first, HttpHeadEnd);
  }

  // ---------------------------------------------------------------------
  // decode_weather
  // ---------------------------------------------------------------------

  /** The source decode_weather sets up: `body` left of the first slice, the rest from the read callback. */
  function BodySource(body: seq<char>, reader: Reader, heapLimit: nat): Source {
    Source(body, reader, 0, ReleasedBuffer(heapLimit), 0, 0)
  }

  /** `g_forecast.updated_at = 1`: the time_t at offset 680 of the forecast at `forecast`. */
  function StampUpdated(mem: Memory, forecast: int): (r: Memory)
    ensures forall a :: forecast + UpdatedAtOffset <= a < forecast + UpdatedAtOffset + TimeBytes ==>
              a in r.bytes && r.bytes[a] == if a == forecast + UpdatedAtOffset then 1 else 0
    ensures forall a :: a in mem.bytes && !(forecast + UpdatedAtOffset <= a < forecast + UpdatedAtOffset + TimeBytes) ==>
              a in r.bytes && r.bytes[a] == mem.bytes[a]
    ensures r.strings == mem.strings && r.numbers == mem.numbers
  {
    var stamp := JsonValues.LittleEndian(1, TimeBytes);
    assert stamp == [1, 0, 0, 0, 0, 0, 0, 0];
    mem.(bytes := WriteBytes(mem.bytes, forecast + UpdatedAtOffset, stamp))
  }

  /**
   * decode_weather, given the first slice the TLS read returns and the
   * slices it returns afterwards: without a blank line in the first slice
   * nothing is decoded; otherwise the body after it is deserialised into
   * the forecast at `forecast` with forecast_schema, and on success the
   * update time is set.  `ok` is whether the forecast was decoded.
   */
  function DecodeWeather(first: seq<char>, reader: Reader, heapLimit: nat, mem: Memory, forecast: int): (r: (bool, Memory))
    ensures BodyStart(first).None? ==> r == (false, mem)
    ensures r.0 ==> BodyStart(first).Some?
  {
    match BodyStart(first)
    case None => (false, mem)
    case Some(b) =>
      ForecastSchemaValid();
      var w := DeserializeObject(BodySource(first[b..], reader, heapLimit), mem, forecast, Properties(ForecastSchema));
      if w.ok then (true, StampUpdated(w.mem, forecast)) else (false, w.mem)
  }

  /**
   * A response whose header ends at the first blank line: decode_weather
   * deserialises exactly the text after it, and on success stamps the
   * update time, the 8-byte time_t at offset 680 then holding 1.
   */
  lemma DecodeWeatherParsesBody(head: seq<char>, body: seq<char>, reader: Reader, heapLimit: nat, mem: Memory, forecast: int)
    requires forall j :: !OccursAt(head + "\r\n\r", HttpHeadEnd, j)
    ensures ValidProperties(ForecastSchema)
    ensures var w := DeserializeObject(BodySource(body, reader, heapLimit), mem, forecast, Properties(ForecastSchema));
            var r := DecodeWeather(head + HttpHeadEnd + body, reader, heapLimit, mem, forecast);
            r == (w.ok, if w.ok then StampUpdated(w.mem, forecast) else w.mem)
            && (r.0 ==> forecast + UpdatedAtOffset in r.1.bytes && r.1.bytes[forecast + UpdatedAtOffset] == 1
                        && forall a :: forecast + UpdatedAtOffset < a < forecast + UpdatedAtOffset + TimeBytes ==> a in r.1.bytes && r.1.bytes[a] == 0)
  {
    ForecastSchemaValid();
    HeaderEnds(head, body);
  }

  /** Without an earlier blank line, the body starts right after the one that follows the head. */
  lemma HeaderEnds(head: seq<char>, body: seq<char>)
    requires forall j :: !OccursAt(head + "\r\n\r", HttpHeadEnd, j)
    ensures var s := head + HttpHeadEnd + body;
            BodyStart(s) == Some(|head| + |HttpHeadEnd|) && s[|head| + |HttpHeadEnd|..] == body
  {
    var s := head + HttpHeadEnd + body;
    var n := |head|;
    assert s[n..n + 4] == HttpHeadEnd;
    forall j | 0 <= j < n ensures !OccursAt(s, HttpHeadEnd, j) {
      assert !OccursAt(head + "\r\n\r", HttpHeadEnd, j);
    }
    FindIsFirst(s, HttpHeadEnd);
    assert OccursAt(s, HttpHeadEnd, n);
    var i := Find(s, HttpHeadEnd).value;
    assert i == n;
    assert s[n + 4..] == body;
  }

  /** decode_weather over a JsonSource and the forecast memory. */
  method DecodeWeatherInto(first: seq<char>, reader: Reader, heapLimit: nat, dest: JsonMachine.Destination, forecast: int)
    returns (ok: bool)
    modifies dest
    ensures (ok, dest.mem) == DecodeWeather(first, reader, heapLimit, old(dest.mem), forecast)
  {
    var head := MemMem(first, HttpHeadEnd);
    if head.None? {
      return false;
    }
    var src := new JsonMachine.JsonSource(first[head.value + |HttpHeadEnd|..], reader, heapLimit);
    ForecastSchemaValid();
    var out;
    ok, out := src.DeserializeObject(dest, forecast, Properties(ForecastSchema));
    if ok {
      dest.mem := StampUpdated(dest.mem, forecast);
    }
  }

  // ---------------------------------------------------------------------
  // ringbuf_emplace
  // ---------------------------------------------------------------------

  /** The capacity ringbuf_emplace hard-codes. */
  const HistoryCap: nat := 32

  /** The slot ringbuf_emplace hands out and the new (count, start). */
  function Emplaced(count: nat, start: nat): (nat, nat, nat) {
    if count < HistoryCap then (count, count + 1, start) else (start, count, (start + 1) % HistoryCap)
  }

  predicate HistoryOk(count: nat, start: nat) {
    count <= HistoryCap && start < HistoryCap && (count < HistoryCap ==> start == 0)
  }

  /**
   * From a zeroed ring, the slot handed out is always in the ring, and it
   * is the newest element of the new ring, at `(start + count - 1) % 32`;
   * while filling, the slots are 0, 1, 2, ... and once full the oldest
   * element is overwritten.
   */
  lemma EmplacedIsNewest(count: nat, start: nat)
    requires HistoryOk(count, start)
    ensures var (slot, count', start') := Emplaced(count, start);
            HistoryOk(count', start') && slot < HistoryCap
            && slot == (start' + count' - 1) % HistoryCap
            && (count < HistoryCap ==> slot == count)
            && (count == HistoryCap ==> slot == start && count' == HistoryCap)
  {
  }

  /**
   * A ring of sensor readings; `count` and `start` as the code uses them.
   * The code's ring holds `float` samples; the ring only stores and
   * returns them, so each one is an opaque sample here, written as an int.
   */
  class History {
    var items: array<int>
    var count: nat
    var start: nat

    constructor ()
      ensures fresh(items) && items.Length == HistoryCap
      ensures count == 0 && start == 0
    {
      items := new int[HistoryCap];
      count, start := 0, 0;
    }

    /** `ringbuf_emplace`: the index of the slot for the next reading. */
    method Emplace() returns (slot: nat)
      modifies this
      ensures (slot, count, start) == Emplaced(old(count), old(start))
      ensures items == old(items)
    {
      if count < HistoryCap {
        slot := count;
        count := count + 1;
      } else {
        slot := start;
        start := (start + 1) % HistoryCap;
      }
    }

    /** `*ringbuf_emplace(buf) = value` */
    method Record(value: int)
      requires items.Length == HistoryCap && HistoryOk(count, start)
      modifies this, items
      ensures HistoryOk(count, start) && items == old(items)
      ensures (count, start) == (Emplaced(old(count), old(start)).1, Emplaced(old(count), old(start)).2)
      ensures items[..] == old(items[..])[Emplaced(old(count), old(start)).0 := value]
    {
      EmplacedIsNewest(count, start);
      var slot := Emplace();
      items[slot] := value;
    }
  }
}
