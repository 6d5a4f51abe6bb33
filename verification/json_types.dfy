/**
 * Data model of the immjson header (components/immjson/include/immjson.h)
 * as built for the ESP32 target: pointers and `size_t` are 4 bytes wide,
 * `int` and `long` 32 bits, `JsonUintmax` (`uintmax_t`) 64 bits.
 *
 * Bytes of the JSON text are modelled as `char`s whose code is below 256.
 */
module JsonTypes {
  import opened Wrappers

  /** One byte of the caller's destination memory. */
  type Byte = x: int | 0 <= x < 256

  const PointerBytes: nat := 4                       // sizeof(void *)
  const FloatBytes: nat := 4                         // sizeof(float)
  const BoolBytes: nat := 1                          // sizeof(bool)
  const UintptrMax: nat := 0xFFFF_FFFF               // UINTPTR_MAX
  const UintmaxBits: nat := 64                       // 8 * sizeof(JsonUintmax)
  const UintmaxLimit: nat := 0x1_0000_0000_0000_0000 // 2^64, first value JsonUintmax cannot hold
  const DigitCountLimit: nat := 256                  // JsonUintmaxSize is uint8_t
  const ExponentMax: nat := 32767                    // JSON_EXPECT_NUMBER_EXPONENT_MAX = INT16_MAX

  /** Bit widths the typed wrappers pass to json_expect_integer. */
  const CharBits: nat := 8
  const ShortBits: nat := 16
  const IntBits: nat := 32
  const LongBits: nat := 32

  /** READ_ANY: json_read_expect_char accepts any byte when asked for NUL. */
  const ReadAny: char := '\0'

  /**
   * JsonStringBuffer.  `content` is ptr[0 .. len]; `ptrNull` says that
   * `ptr` is NULL.  The allocator callback is modelled by `heapLimit`: a
   * request to grow to a capacity of at most `heapLimit` bytes is granted,
   * any larger request fails and returns NULL.
   */
  datatype StringBuffer = StringBuffer(content: seq<char>, capacity: nat, ptrNull: bool, heapLimit: nat)

  /** The buffer never holds more bytes than its capacity. */
  predicate BufferOk(b: StringBuffer) {
    |b.content| <= b.capacity
  }

  /** The buffer as json_expect_string leaves it after handing its string out. */
  function ReleasedBuffer(heapLimit: nat): StringBuffer {
    StringBuffer([], 0, true, heapLimit)
  }

  /**
   * The read callback of a JsonSource, modelled by the fixed sequence of
   * slices it returns, one per call.
   */
  datatype Reader = Reader(slices: seq<seq<char>>)

  /**
   * JsonSource.  `next` is the index in `reader.slices` of the slice the
   * next call returns; past the end the callback returns the empty slice,
   * which is how the source signals the end of the stream.
   */
  datatype Source = Source(
    remainder: seq<char>,
    reader: Reader,
    next: nat,
    buffer: StringBuffer,
    columnAtSliceEnd: int,
    line: nat)

  /** json_source_column: the column of the first unread byte. */
  function SourceColumn(s: Source): int {
    s.columnAtSliceEnd - |s.remainder|
  }

  /**
   * JsonNumber: `digits` holds every digit of the integer and fraction part,
   * the last `pointPos` of them after the decimal point.
   */
  datatype JsonNumber = JsonNumber(digits: nat, exponent: int, pointPos: nat, negative: bool)

  /** The ranges of the JsonNumber fields (uintmax_t, int16_t, uint8_t). */
  predicate NumberInRange(n: JsonNumber) {
    n.digits < UintmaxLimit && -(ExponentMax as int) <= n.exponent <= ExponentMax && n.pointPos < DigitCountLimit
  }

  const ZeroNumber: JsonNumber := JsonNumber(0, 0, 0, false)

  /* Schemas */

  const SchemaTagBytes: nat := 1
  const KindCustom: int := 1
  const KindObject: int := 2
  const KindArray: int := 3
  const KindString: int := 4
  const KindDouble: int := 5
  const KindInteger: int := 6
  const KindBool: int := 7

  /**
   * A custom deserialiser hook.  Hooks are code the library cannot see; a
   * hook is modelled as a step that consumes no input, moves the cursor by
   * `advance` bytes and reports `succeeds`.
   */
  datatype CustomHook = CustomHook(succeeds: bool, advance: nat)

  /**
   * An array_reserve_fn.  Every reserve callback of the program has the
   * same shape: slot `i` is `cursor + stride * i` while `i < capacity`,
   * NULL afterwards.
   */
  datatype ReserveFn = StaticReserve(stride: nat, capacity: nat)

  /** Calls a reserve callback; None stands for NULL. */
  function Reserve(f: ReserveFn, cursor: int, i: nat): (r: Option<int>)
    ensures r.Some? <==> i < f.capacity
    ensures r.Some? ==> r.value == cursor + f.stride * i
  {
    if i < f.capacity then Some(cursor + f.stride * i) else None
  }

  /**
   * JsonValue.  The source stores one of these in a C union; which member
   * is read depends on the tag.  `NoValue` is a union that no member was
   * written to (string, float and bool properties).
   */
  datatype JsonValue =
    | NoValue
    | CustomFn(hook: CustomHook)
    | ObjDesc(desc: ObjectDescriptor)
    | ArrayDescribe(describe: ArrayDescriber)
    | IntegerSpec(isSigned: bool, bitwidth: nat)

  /** obj_desc: JSON_INLINE_OBJ_BEGIN, JSON_INLINE_OBJ_END (NULL) or a property list. */
  datatype ObjectDescriptor = InlineBegin | InlineEnd | Properties(props: seq<Property>)

  /** A schema key: its first byte is the tag, the JSON key follows. */
  type SchemaKey = k: seq<char> | |k| >= SchemaTagBytes witness ['\U{1}']

  /**
   * JsonObjectProperty: a key/value pair, or (key == NULL) a padding
   * record whose `paddingBytes` moves the cursor; padding UINTPTR_MAX ends
   * the list.
   */
  datatype Property = Entry(key: SchemaKey, val: JsonValue) | NullKey(paddingBytes: nat)

  /** OBJECT_PROPERTIES_END() */
  const PropertiesEnd: Property := NullKey(UintptrMax)

  predicate IsEnd(p: Property) {
    p.NullKey? && p.paddingBytes == UintptrMax
  }

  /** The schema tag of a key/value entry: the first byte of its key. */
  function Tag(key: SchemaKey): int {
    key[0] as int
  }

  /** The JSON key of an entry: its key string after the tag byte. */
  function KeyName(key: SchemaKey): seq<char> {
    key[SchemaTagBytes..]
  }

  /**
   * A key literal as the schema macros build it, e.g.
   * `JSON_SCHEMA_DOUBLE "latitude"`: the tag byte followed by the name.
   */
  function SchemaKeyOf(tag: int, name: seq<char>): (k: SchemaKey)
    requires 0 <= tag < 256
    ensures Tag(k) == tag && KeyName(k) == name
  {
    [tag as char] + name
  }

  /**
   * An array_describe callback: given the cursor it returns an
   * ArrayDescription whose exitpoint is `exitBytes` past the cursor.
   */
  datatype ArrayDescriber = ArrayDescriber(exitBytes: nat, reserve: ReserveFn, itemTag: int, itemVal: JsonValue)

  /** JsonArrayDescription */
  datatype ArrayDescription = ArrayDescription(exitpoint: int, reserve: ReserveFn, itemTag: int, itemVal: JsonValue)

  function Describe(d: ArrayDescriber, cursor: int): (r: ArrayDescription)
    ensures r.exitpoint == cursor + d.exitBytes
    ensures r.reserve == d.reserve && r.itemTag == d.itemTag && r.itemVal == d.itemVal
  {
    ArrayDescription(cursor + d.exitBytes, d.reserve, d.itemTag, d.itemVal)
  }

  /**
   * The destination memory the deserialiser writes through its cursor.
   * Integers and booleans are stored as bytes; a string slot receives the
   * string whose pointer the source stores there; a float slot receives the
   * parsed number that the source converts to a float.
   */
  datatype Memory = Memory(bytes: map<int, Byte>, strings: map<int, seq<char>>, numbers: map<int, JsonNumber>)

  /** Writes `bs` at consecutive addresses from `at` on. */
  function WriteBytes(m: map<int, Byte>, at: int, bs: seq<Byte>): (r: map<int, Byte>)
    ensures forall a :: at <= a < at + |bs| ==> a in r && r[a] == bs[a - at]
    ensures forall a :: a in m && !(at <= a < at + |bs|) ==> a in r && r[a] == m[a]
    ensures forall a :: a in r ==> a in m || at <= a < at + |bs|
    decreases |bs|
  {
    if bs == [] then m
    else WriteBytes(m[at := bs[0]], at + 1, bs[1..])
  }
}
