/**
 * The decoder state of components/immjson/immjson.c as the source keeps
 * it: a `JsonSource` whose fields the primitives update in place, and the
 * caller's memory the deserialiser writes through its cursor.  Every
 * method follows the loops of the C function it is named after and is
 * proved to compute the reference function of the same name in
 * JsonLexer, JsonValues, JsonSkip or JsonDeserialize: its result and the
 * new state of the source are exactly the reference function's.
 */
module JsonMachine {
  import opened Wrappers
  import opened JsonTypes
  import opened JsonLexer
  import opened JsonValues
  import opened JsonSkip
  import opened JsonDeserialize

  /** The caller's memory that decoded values are stored in. */
  class Destination {
    var mem: Memory

    constructor (mem: Memory)
      ensures this.mem == mem
    {
      this.mem := mem;
    }
  }

  /**
   * JsonSource with its embedded JsonStringBuffer.  The read callback
   * returns `reader.slices[next]` and then moves `next` on; the allocator grants
   * every request for at most `heapLimit` bytes.
   */
  class JsonSource {
    var remainder: seq<char>
    const reader: Reader
    var next: nat
    /** string_buffer.ptr[0 .. len] */
    var content: seq<char>
    var capacity: nat
    /** string_buffer.ptr == NULL */
    var ptrNull: bool
    const heapLimit: nat
    var columnAtSliceEnd: int
    var line: nat

    function Buffer(): StringBuffer
      reads this
    {
      StringBuffer(content, capacity, ptrNull, heapLimit)
    }

    function State(): Source
      reads this
    {
      Source(remainder, reader, next, Buffer(), columnAtSliceEnd, line)
    }

    /** How many more slices the read callback returns. */
    function Unread(): nat
      reads this
    {
      if next < |reader.slices| then |reader.slices| - next else 0
    }

    /** The initialiser of decode_weather: the first slice is read, nothing is counted yet and the buffer is empty. */
    constructor (first: seq<char>, reader: Reader, heapLimit: nat)
      ensures State() == Source(first, reader, 0, StringBuffer([], 0, true, heapLimit), 0, 0)
    {
      remainder := first;
      this.reader := reader;
      next := 0;
      content := [];
      capacity := 0;
      ptrNull := true;
      this.heapLimit := heapLimit;
      columnAtSliceEnd := 0;
      line := 0;
    }

    /** READ_SLICE(): the slice the read callback returns, its length added to the column at the slice end. */
    method ReadSlice()
      modifies this
      ensures State() == JsonLexer.ReadSlice(old(State()))
    {
      if next < |reader.slices| {
        remainder := reader.slices[next];
        next := next + 1;
      } else {
        remainder := [];
      }
      columnAtSliceEnd := columnAtSliceEnd + |remainder|;
    }

    /** string_buffer_append */
    method Append(str: seq<char>) returns (ok: bool)
      modifies this
      ensures (ok, Buffer()) == StringBufferAppend(old(Buffer()), str)
      ensures State() == old(State()).(buffer := Buffer())
    {
      if |content| + |str| > capacity {
        capacity := capacity + |str|;
        ptrNull := capacity > heapLimit;
        if ptrNull {
          return false;
        }
      } else if ptrNull && |str| > 0 {
        return false;
      }
      content := content + str;
      return true;
    }

    /** json_read_expected */
    method ReadExpected(expected: seq<char>) returns (ok: bool)
      requires |expected| > 0
      modifies this
      ensures Step(ok, State()) == JsonLexer.ReadExpected(old(State()), expected)
    {
      ghost var goal := JsonLexer.ReadExpected(State(), expected);
      var k := 0;
      while true
        invariant k < |expected|
        invariant JsonLexer.ReadExpected(State(), expected[k..]) == goal
        decreases Unread()
      {
        ghost var unread := Unread();
        while remainder != []
          invariant Unread() == unread
          invariant k < |expected|
          invariant JsonLexer.ReadExpected(State(), expected[k..]) == goal
          decreases |remainder|
        {
          if expected[k] != remainder[0] {
            break;
          }
          remainder := remainder[1..];
          k := k + 1;
          if k == |expected| {
            return true;
          }
          assert expected[k - 1..][1..] == expected[k..];
        }
        ReadSlice();
        if remainder == [] {
          break;
        }
      }
      return false;
    }

    /** next_string_boundary */
    static method NextStringBoundary(slice: seq<char>) returns (r: Option<nat>)
      ensures r == JsonLexer.NextStringBoundary(slice)
    {
      var head := 0;
      while head < |slice|
        invariant head <= |slice|
        invariant JsonLexer.NextStringBoundary(slice) == Shifted(JsonLexer.NextStringBoundary(slice[head..]), head)
      {
        if slice[head] == '"' || slice[head] == '\\' {
          return Some(head);
        }
        assert slice[head..][1..] == slice[head + 1..];
        head := head + 1;
      }
      return None;
    }

    /** json_read_string_chunk */
    method ReadStringChunk() returns (ok: bool)
      modifies this
      ensures Step(ok, State()) == JsonLexer.ReadStringChunk(old(State()))
    {
      ghost var goal := JsonLexer.ReadStringChunk(State());
      while true
        invariant JsonLexer.ReadStringChunk(State()) == goal
        decreases Unread()
      {
        var delimiter := NextStringBoundary(remainder);
        if delimiter.Some? {
          ok := AppendThrough(delimiter.value);
          return;
        }
        var appended := Append(remainder);
        if !appended {
          break;
        }
        ReadSlice();
        if remainder == [] {
          break;
        }
      }
      return false;
    }

    /** json_read_string_chunk once the delimiter is at index `d` of the current slice. */
    method AppendThrough(d: nat) returns (ok: bool)
      requires d < |remainder|
      modifies this
      ensures Step(ok, State()) == JsonLexer.AppendThrough(old(State()), d)
    {
      ok := Append(remainder[..d + 1]);
      if ok {
        remainder := remainder[d + 1..];
      }
    }

    /** read_digit_seq: `value` is `*out` on entry, `out` its final value. */
    method ReadDigitSeq(value: nat) returns (count: nat, out: nat)
      requires value < UintmaxLimit
      modifies this
      ensures DigitStep(count, out, State()) == JsonLexer.ReadDigitSeq(old(State()), value, 0)
    {
      ghost var goal := JsonLexer.ReadDigitSeq(State(), value, 0);
      count, out := 0, value;
      while true
        invariant out < UintmaxLimit && count < DigitCountLimit
        invariant JsonLexer.ReadDigitSeq(State(), out, count) == goal
        decreases Unread()
      {
        ghost var unread := Unread();
        while remainder != []
          invariant Unread() == unread
          invariant out < UintmaxLimit && count < DigitCountLimit
          invariant JsonLexer.ReadDigitSeq(State(), out, count) == goal
          decreases |remainder|
        {
          var digit := DigitOf(remainder[0]);
          if digit > 9 {
            return count, out;
          }
          if out * 10 + digit >= UintmaxLimit {
            return 0, out;
          }
          ghost var before := State();
          ghost var (value0, counted) := (out, count);
          out := out * 10 + digit;
          count := (count + 1) % DigitCountLimit;
          remainder := remainder[1..];
          DigitStepLemma(before, State(), value0, counted, out, count);
        }
        ReadSlice();
        if remainder == [] {
          break;
        }
      }
      return 0, out;
    }

    /** json_trim_left_expect_char */
    method TrimLeftExpectChar(c: char) returns (ok: bool)
      modifies this
      ensures Step(ok, State()) == JsonLexer.TrimLeftExpectChar(old(State()), c)
    {
      ghost var goal := JsonLexer.TrimLeftExpectChar(State(), c);
      while true
        invariant JsonLexer.TrimLeftExpectChar(State(), c) == goal
        decreases Unread()
      {
        ghost var unread := Unread();
        while remainder != []
          invariant Unread() == unread
          invariant JsonLexer.TrimLeftExpectChar(State(), c) == goal
          decreases |remainder|
        {
          var cur := remainder[0];
          if !IsWhitespace(cur) {
            if cur == c {
              remainder := remainder[1..];
              return true;
            }
            return false;
          }
          ghost var before := State();
          if cur == '\n' {
            line := line + 1;
            columnAtSliceEnd := |remainder|;
          }
          remainder := remainder[1..];
          TrimWhitespaceStep(before, State(), c);
        }
        ReadSlice();
        if remainder == [] {
          break;
        }
      }
      return false;
    }

    /** json_read_expect_char; `got` is the byte examined, which the source reads back as `remainder.head[-1]`. */
    method ReadExpectChar(expected: char) returns (ok: bool, got: char)
      modifies this
      ensures CharStep(ok, got, State()) == JsonLexer.ReadExpectChar(old(State()), expected)
    {
      if remainder == [] {
        ReadSlice();
        if remainder == [] {
          return false, ReadAny;
        }
      }
      got := remainder[0];
      ok := expected == ReadAny || remainder[0] == expected;
      if ok {
        remainder := remainder[1..];
      }
    }

    /* Values */

    /** json_expect_string; `str` is what `*out` points to on success. */
    method ExpectString() returns (ok: bool, str: seq<char>)
      modifies this
      ensures StringStep(ok, str, State()) == JsonValues.ExpectString(old(State()))
    {
      ok := TrimLeftExpectChar('"');
      if !ok {
        return false, [];
      }
      content := [];
      ok, str := StringContents();
    }

    /** The loop of json_expect_string, after the opening quote. */
    method StringContents() returns (ok: bool, str: seq<char>)
      modifies this
      ensures StringStep(ok, str, State()) == JsonValues.StringContents(old(State()))
    {
      ghost var spec := JsonValues.StringContents(State());
      while true
        invariant JsonValues.StringContents(State()) == spec
        decreases Unread(), |remainder|
      {
        var chunk := ReadStringChunk();
        if !chunk {
          break;
        }
        var done;
        done, ok, str := AfterChunk();
        if done {
          return;
        }
      }
      return false, [];
    }

    /** The body of json_expect_string's loop after a successful json_read_string_chunk; `done` when it returns. */
    method AfterChunk() returns (done: bool, ok: bool, str: seq<char>)
      requires |content| > 0
      modifies this
      ensures (if done then Finished(StringStep(ok, str, State())) else Pending(State()))
              == JsonValues.AfterChunk(old(State()))
    {
      var len := |content|;
      if content[len - 1] == '"' {
        str := content[..len - 1];
        content, capacity, ptrNull := [], 0, true;
        return true, true, str;
      }
      var escaped, cur := ReadExpectChar(ReadAny);
      if !escaped {
        return true, false, [];
      }
      var unescaped := Unescape(cur);
      if unescaped.None? {
        return true, false, [];
      }
      content := content[..len - 1] + [unescaped.value];
      return false, false, [];
    }

    /** json_expect_bool; `value` is what `*out` is set to on success. */
    method ExpectBool() returns (ok: bool, value: bool)
      modifies this
      ensures BoolStep(ok, value, State()) == JsonValues.ExpectBool(old(State()))
    {
      var _ := TrimLeftExpectChar(' ');
      ok := ReadExpected("true");
      if ok {
        return true, true;
      }
      ok := ReadExpected("false");
      return ok, false;
    }

    /** json_expect_null */
    method ExpectNull() returns (ok: bool)
      modifies this
      ensures Step(ok, State()) == JsonValues.ExpectNull(old(State()))
    {
      var _ := TrimLeftExpectChar(' ');
      ok := ReadExpected("null");
    }

    /** json_expect_number; `num` is `*out` on success. */
    method ExpectNumber() returns (ok: bool, num: JsonNumber)
      modifies this
      ensures NumberStep(ok, num, State()) == JsonValues.ExpectNumber(old(State()))
    {
      var negative := TrimLeftExpectChar('-');
      var count, digits := WholePart();
      if count == 0 {
        return false, ZeroNumber;
      }
      ok, num := NumberTail(digits, negative);
    }

    /** The integer part of json_expect_number: returns the digit count and the value. */
    method WholePart() returns (count: nat, digits: nat)
      modifies this
      ensures DigitStep(count, digits, State()) == JsonValues.WholePart(old(State()))
    {
      var zero, _ := ReadExpectChar('0');
      if zero {
        return 1, 0;
      }
      count, digits := ReadDigitSeq(0);
    }

    /** json_expect_number after the integer part. */
    method NumberTail(digits: nat, negative: bool) returns (ok: bool, num: JsonNumber)
      requires digits < UintmaxLimit
      modifies this
      ensures NumberStep(ok, num, State()) == JsonValues.NumberTail(old(State()), digits, negative)
    {
      var fraction, pointPos, allDigits := FractionPart(digits);
      if !fraction {
        return false, ZeroNumber;
      }
      var exponentOk, exponent := ExponentPart();
      if !exponentOk {
        return false, ZeroNumber;
      }
      return true, JsonNumber(allDigits, exponent, pointPos, negative);
    }

    /** The fraction part of json_expect_number: returns whether it is acceptable, point_pos and the digits. */
    method FractionPart(digits: nat) returns (ok: bool, pointPos: nat, allDigits: nat)
      requires digits < UintmaxLimit
      modifies this
      ensures (ok, DigitStep(pointPos, allDigits, State())) == JsonValues.FractionPart(old(State()), digits)
    {
      var dot, _ := ReadExpectChar('.');
      if !dot {
        return true, 0, digits;
      }
      pointPos, allDigits := ReadDigitSeq(digits);
      ok := pointPos != 0;
    }

    /** The exponent part of json_expect_number. */
    method ExponentPart() returns (ok: bool, exponent: int)
      modifies this
      ensures ExponentStep(ok, exponent, State()) == JsonValues.ExponentPart(old(State()))
    {
      var e, _ := ReadExpectChar('e');
      if !e {
        var upper, _ := ReadExpectChar('E');
        e := upper;
      }
      if !e {
        return true, 0;
      }
      ok, exponent := SignedExponent();
    }

    /** The exponent after 'e' or 'E'. */
    method SignedExponent() returns (ok: bool, exponent: int)
      modifies this
      ensures ExponentStep(ok, exponent, State()) == JsonValues.SignedExponent(old(State()))
    {
      var expNegative, _ := ReadExpectChar('-');
      if !expNegative {
        var _, _ := ReadExpectChar('+');
      }
      var count, value := ReadDigitSeq(0);
      if count == 0 || value > ExponentMax {
        return false, 0;
      }
      exponent := if expNegative then -(value as int) else value;
      ok := true;
    }

    /** json_expect_integer; `bytes` are what it stores at `out`, least significant first. */
    method ExpectInteger(isSigned: bool, bitwidth: nat) returns (ok: bool, bytes: seq<Byte>)
      requires 1 <= bitwidth <= UintmaxBits
      modifies this
      ensures IntegerStep(ok, bytes, State()) == JsonValues.ExpectInteger(old(State()), isSigned, bitwidth)
    {
      var num;
      ok, num := ExpectNumber();
      if !ok {
        return false, [];
      }
      ok, bytes := ConvertInteger(num, isSigned, bitwidth);
    }

    /* Structure */

    /** json_begin_object */
    method BeginObject() returns (ok: bool)
      modifies this
      ensures Step(ok, State()) == JsonValues.BeginObject(old(State()))
    {
      ok := TrimLeftExpectChar('{');
    }

    /** json_end_object */
    method EndObject() returns (ok: bool)
      modifies this
      ensures Step(ok, State()) == JsonValues.EndObject(old(State()))
    {
      ok := TrimLeftExpectChar('}');
    }

    /** json_next_key; None for NULL. */
    method NextKey() returns (key: Option<seq<char>>)
      modifies this
      ensures KeyStep(key, State()) == JsonValues.NextKey(old(State()))
    {
      var _ := TrimLeftExpectChar(',');
      var ok, str := ExpectString();
      if !ok {
        return None;
      }
      var colon := TrimLeftExpectChar(':');
      return if colon then Some(str) else None;
    }

    /** json_expect_key */
    method ExpectKey(expected: seq<char>) returns (ok: bool)
      modifies this
      ensures Step(ok, State()) == JsonValues.ExpectKey(old(State()), expected)
    {
      var key := NextKey();
      return key.Some? && key.value == expected;
    }

    /** json_begin_array */
    method BeginArray() returns (ok: bool)
      modifies this
      ensures Step(ok, State()) == JsonValues.BeginArray(old(State()))
    {
      ok := TrimLeftExpectChar('[');
      if ok {
        var close := TrimLeftExpectChar(']');
        ok := !close;
      }
    }

    /** json_array_next */
    method ArrayNext() returns (ok: bool)
      modifies this
      ensures Step(ok, State()) == JsonValues.ArrayNext(old(State()))
    {
      ok := TrimLeftExpectChar(',');
      if ok {
        return true;
      }
      if remainder != [] && remainder[0] == ']' {
        remainder := remainder[1..];
      }
      return false;
    }

    /* Skipping */

    /** json_ignore_any */
    method IgnoreAny(maxDepth: nat) returns (ok: bool)
      modifies this
      ensures Step(ok, State()) == JsonSkip.IgnoreAny(old(State()), maxDepth)
      decreases maxDepth, 0
    {
      if maxDepth == 0 {
        return false;
      }
      var _ := TrimLeftExpectChar(' ');
      ok := IgnoreValue(maxDepth - 1);
    }

    /** The switch of json_ignore_any. */
    method IgnoreValue(depth: nat) returns (ok: bool)
      modifies this
      ensures Step(ok, State()) == JsonSkip.IgnoreValue(old(State()), depth)
      decreases depth, 5
    {
      if remainder == [] {
        return false;
      }
      var cur := remainder[0];
      if cur == 't' || cur == 'f' {
        var b, _ := ExpectBool();
        ok := b;
      } else if cur == 'n' {
        ok := ExpectNull();
      } else if cur == '"' {
        var str, _ := ExpectString();
        ok := str;
      } else if cur == '{' {
        ok := IgnoreObject(depth);
      } else if cur == '[' {
        ok := IgnoreArray(depth);
      } else if StartsNumberToIgnore(cur) {
        var num, _ := ExpectNumber();
        ok := num;
      } else {
        ok := false;
      }
    }

    /** json_skip_to_key; `key` is None for NULL. */
    method SkipToKey(maxDepth: nat, key: Option<seq<char>>) returns (ok: bool)
      modifies this
      ensures Step(ok, State()) == JsonSkip.SkipToKey(old(State()), maxDepth, key)
      decreases maxDepth, 2
    {
      ghost var goal := JsonSkip.SkipToKey(State(), maxDepth, key);
      while true
        invariant JsonSkip.SkipToKey(State(), maxDepth, key) == goal
        decreases Unread(), |remainder|
      {
        var done;
        done, ok := SkipMember(maxDepth, key);
        if done {
          return;
        }
      }
    }

    /** One pass of json_skip_to_key's loop; `done` when the loop returns `ok`. */
    method SkipMember(maxDepth: nat, key: Option<seq<char>>) returns (done: bool, ok: bool)
      modifies this
      ensures (if done then SkipDone(Step(ok, State())) else SkipOn(State()))
              == JsonSkip.SkipMember(old(State()), maxDepth, key)
      decreases maxDepth, 1
    {
      var current := NextKey();
      if current.None? {
        return true, key.None?;
      }
      if key.Some? && key.value == current.value {
        return true, true;
      }
      var skipped := IgnoreAny(maxDepth);
      return !skipped, false;
    }

    /** json_ignore_object */
    method IgnoreObject(maxDepth: nat) returns (ok: bool)
      modifies this
      ensures Step(ok, State()) == JsonSkip.IgnoreObject(old(State()), maxDepth)
      decreases maxDepth, 4
    {
      if maxDepth == 0 {
        return false;
      }
      ok := TrimLeftExpectChar('{');
      if !ok {
        return false;
      }
      ok := ObjectMembers(maxDepth - 1);
    }

    /** json_ignore_object after the opening brace. */
    method ObjectMembers(depth: nat) returns (ok: bool)
      modifies this
      ensures Step(ok, State()) == JsonSkip.ObjectMembers(old(State()), depth)
      decreases depth, 3
    {
      var empty := TrimLeftExpectChar('}');
      if empty {
        return true;
      }
      ok := SkipToKey(depth, None);
      if !ok {
        return false;
      }
      var close, _ := ReadExpectChar('}');
      ok := close;
    }

    /** json_ignore_array */
    method IgnoreArray(maxDepth: nat) returns (ok: bool)
      modifies this
      ensures Step(ok, State()) == JsonSkip.IgnoreArray(old(State()), maxDepth)
      decreases maxDepth, 4
    {
      if maxDepth == 0 {
        return false;
      }
      ok := TrimLeftExpectChar('[');
      if !ok {
        return false;
      }
      ok := ArrayItems(maxDepth - 1);
    }

    /** json_ignore_array after the opening bracket, with its do-while loop. */
    method ArrayItems(depth: nat) returns (ok: bool)
      modifies this
      ensures Step(ok, State()) == JsonSkip.ArrayItems(old(State()), depth)
      decreases depth, 3
    {
      var empty := TrimLeftExpectChar(']');
      if empty {
        return true;
      }
      ghost var goal := IgnoreItems(State(), depth);
      while true
        invariant IgnoreItems(State(), depth) == goal
        decreases Unread(), |remainder|
      {
        var item := IgnoreAny(depth);
        if !item {
          return false;
        }
        var comma := TrimLeftExpectChar(',');
        if !comma {
          break;
        }
      }
      var close, _ := ReadExpectChar(']');
      ok := close;
    }

    /* Deserialisation */

    /** json_deserialize; `out` is the new value of `*out`, the cursor. */
    method Deserialize(dest: Destination, cursor: int, tag: int, val: JsonValue) returns (ok: bool, out: int)
      requires ValidValue(tag, val)
      modifies this, dest
      ensures Walk(ok, State(), dest.mem, out) == JsonDeserialize.Deserialize(old(State()), old(dest.mem), cursor, tag, val)
      decreases val, 0
    {
      if tag == KindCustom {
        if val.CustomFn? {
          return val.hook.succeeds, cursor + val.hook.advance;
        }
        return false, cursor;
      }
      if tag == KindObject {
        if val.ObjDesc? {
          ok, out := DeserializeObject(dest, cursor, val.desc);
          return;
        }
        return false, cursor;
      }
      if tag == KindArray {
        if val.ArrayDescribe? {
          ok, out := ArrayAt(dest, cursor, val.describe);
          return;
        }
        return false, cursor;
      }
      ok, out := StoreValue(dest, cursor, tag, val);
    }

    /** The KIND_ARRAY case of json_deserialize. */
    method ArrayAt(dest: Destination, cursor: int, d: ArrayDescriber) returns (ok: bool, out: int)
      requires ValidValue(d.itemTag, d.itemVal)
      modifies this, dest
      ensures Walk(ok, State(), dest.mem, out) == JsonDeserialize.ArrayAt(old(State()), old(dest.mem), cursor, d)
      decreases d.itemVal, 4
    {
      var desc := Describe(d, cursor);
      out := desc.exitpoint;
      ok := DeserializeArray(dest, cursor, desc);
    }

    /** The scalar cases of json_deserialize. */
    method StoreValue(dest: Destination, cursor: int, tag: int, val: JsonValue) returns (ok: bool, out: int)
      requires tag == KindInteger && val.IntegerSpec? ==> 1 <= val.bitwidth <= UintmaxBits
      modifies this, dest
      ensures Walk(ok, State(), dest.mem, out) == JsonDeserialize.StoreValue(old(State()), old(dest.mem), cursor, tag, val)
    {
      if tag == KindString {
        ok, out := StoreString(dest, cursor);
      } else if tag == KindDouble {
        ok, out := StoreNumber(dest, cursor);
      } else if tag == KindInteger && val.IntegerSpec? {
        ok, out := StoreInteger(dest, cursor, val.isSigned, val.bitwidth);
      } else if tag == KindBool {
        ok, out := StoreBool(dest, cursor);
      } else {
        ok, out := false, cursor;
      }
    }

    /** KIND_STRING */
    method StoreString(dest: Destination, cursor: int) returns (ok: bool, out: int)
      modifies this, dest
      ensures Walk(ok, State(), dest.mem, out) == JsonDeserialize.StoreString(old(State()), old(dest.mem), cursor)
    {
      out := cursor + PointerBytes;
      var str;
      ok, str := ExpectString();
      if ok {
        dest.mem := dest.mem.(strings := dest.mem.strings[cursor := str]);
      }
    }

    /** KIND_DOUBLE */
    method StoreNumber(dest: Destination, cursor: int) returns (ok: bool, out: int)
      modifies this, dest
      ensures Walk(ok, State(), dest.mem, out) == JsonDeserialize.StoreNumber(old(State()), old(dest.mem), cursor)
    {
      out := cursor + FloatBytes;
      var num;
      ok, num := ExpectNumber();
      if ok {
        dest.mem := dest.mem.(numbers := dest.mem.numbers[cursor := num]);
      }
    }

    /** KIND_INTEGER */
    method StoreInteger(dest: Destination, cursor: int, isSigned: bool, bitwidth: nat) returns (ok: bool, out: int)
      requires 1 <= bitwidth <= UintmaxBits
      modifies this, dest
      ensures Walk(ok, State(), dest.mem, out) == JsonDeserialize.StoreInteger(old(State()), old(dest.mem), cursor, isSigned, bitwidth)
    {
      out := cursor + IntegerBytes(bitwidth);
      var bytes;
      ok, bytes := ExpectInteger(isSigned, bitwidth);
      if ok {
        dest.mem := dest.mem.(bytes := WriteBytes(dest.mem.bytes, cursor, bytes));
      }
    }

    /** KIND_BOOL */
    method StoreBool(dest: Destination, cursor: int) returns (ok: bool, out: int)
      modifies this, dest
      ensures Walk(ok, State(), dest.mem, out) == JsonDeserialize.StoreBool(old(State()), old(dest.mem), cursor)
    {
      out := cursor + BoolBytes;
      var value;
      ok, value := ExpectBool();
      if ok {
        dest.mem := dest.mem.(bytes := dest.mem.bytes[cursor := if value then 1 else 0]);
      }
    }

    /** json_deserialize_object; `out` is the new value of `*out`. */
    method DeserializeObject(dest: Destination, cursor: int, desc: ObjectDescriptor) returns (ok: bool, out: int)
      requires desc.Properties? ==> ValidProperties(desc.props)
      modifies this, dest
      ensures Walk(ok, State(), dest.mem, out) == JsonDeserialize.DeserializeObject(old(State()), old(dest.mem), cursor, desc)
      decreases desc, 2
    {
      var begin := BeginObject();
      if !begin {
        return false, cursor;
      }
      if !desc.Properties? {
        return desc.InlineBegin?, cursor;
      }
      ok, out := ObjectWalk(dest, cursor, desc.props);
    }

    /** The loop of json_deserialize_object. */
    method ObjectWalk(dest: Destination, cursor: int, props: seq<Property>) returns (ok: bool, out: int)
      requires ValidProperties(props)
      modifies this, dest
      ensures Walk(ok, State(), dest.mem, out) == JsonDeserialize.ObjectWalk(old(State()), old(dest.mem), cursor, props, 0)
      decreases Properties(props), 1
    {
      ghost var goal := JsonDeserialize.ObjectWalk(State(), dest.mem, cursor, props, 0);
      out := cursor;
      var i := 0;
      while true
        invariant i < |props|
        invariant JsonDeserialize.ObjectWalk(State(), dest.mem, out, props, i) == goal
        decreases |props| - i, Unread(), |remainder|
      {
        var done;
        done, ok, out, i := ObjectStep(dest, out, props, i);
        if done {
          return;
        }
      }
    }

    /** One pass of the loop of json_deserialize_object; `done` when it returns `ok`, else `next` is the new `i`. */
    method ObjectStep(dest: Destination, cursor: int, props: seq<Property>, i: nat)
      returns (done: bool, ok: bool, out: int, next: nat)
      requires ValidProperties(props) && i < |props|
      modifies this, dest
      ensures (if done then WalkDone(Walk(ok, State(), dest.mem, out)) else WalkOn(State(), dest.mem, out, next))
              == JsonDeserialize.ObjectStep(old(State()), old(dest.mem), cursor, props, i)
      decreases Properties(props), 0, 1
    {
      match props[i]
      case NullKey(padding) =>
        if padding == UintptrMax {
          ok := FinishObject();
          return true, ok, cursor, i;
        }
        return false, false, cursor + padding, i + 1;
      case Entry(key, val) =>
        if Tag(key) == KindObject && IsInlineEnd(val) {
          ok := FinishObject();
          return !ok, false, cursor, i + 1;
        }
        done, ok, out, next := ObjectKey(dest, cursor, props, i);
    }

    /** json_skip_to_key(src, 16, NULL) followed by json_end_object. */
    method FinishObject() returns (ok: bool)
      modifies this
      ensures Step(ok, State()) == JsonDeserialize.FinishObject(old(State()))
    {
      var _ := SkipToKey(SkipDepth, None);
      ok := EndObject();
    }

    /** One key read for the property `props[i]`. */
    method ObjectKey(dest: Destination, cursor: int, props: seq<Property>, i: nat)
      returns (done: bool, ok: bool, out: int, next: nat)
      requires ValidProperties(props) && i < |props| && props[i].Entry?
      modifies this, dest
      ensures (if done then WalkDone(Walk(ok, State(), dest.mem, out)) else WalkOn(State(), dest.mem, out, next))
              == JsonDeserialize.ObjectKey(old(State()), old(dest.mem), cursor, props, i)
      decreases Properties(props), 0, 0
    {
      var key := NextKey();
      if key.None? {
        return true, false, cursor, i;
      }
      if key.value != KeyName(props[i].key) {
        done, ok := OtherKey();
        return done, ok, cursor, i;
      }
      assert props[i] in props;
      ok, out := Deserialize(dest, cursor, Tag(props[i].key), props[i].val);
      return !ok, ok, out, i + 1;
    }

    /** A key the property does not name: its value is skipped, and the object closed unless a ',' follows. */
    method OtherKey() returns (done: bool, ok: bool)
      modifies this
      ensures (if done then SkipDone(Step(ok, State())) else SkipOn(State())) == JsonDeserialize.OtherKey(old(State()))
    {
      var skipped, comma := SkipMismatch();
      if !skipped {
        return true, false;
      }
      if !comma {
        ok := FinishObject();
        return true, ok;
      }
      return false, false;
    }

    /** json_ignore_any(src, 16) followed by json_read_expect_char(src, ','). */
    method SkipMismatch() returns (skipped: bool, comma: bool)
      modifies this
      ensures Mismatch(skipped, comma, State()) == JsonDeserialize.SkipMismatch(old(State()))
    {
      skipped := IgnoreAny(SkipDepth);
      if !skipped {
        return false, false;
      }
      var got;
      comma, got := ReadExpectChar(',');
    }

    /** json_deserialize_array */
    method DeserializeArray(dest: Destination, out: int, desc: ArrayDescription) returns (ok: bool)
      requires ValidValue(desc.itemTag, desc.itemVal)
      modifies this, dest
      ensures Walk(ok, State(), dest.mem, out) == JsonDeserialize.DeserializeArray(old(State()), old(dest.mem), out, desc)
      decreases desc.itemVal, 3
    {
      var open := TrimLeftExpectChar('[');
      if !open {
        return false;
      }
      var close := TrimLeftExpectChar(']');
      if close {
        return true;
      }
      ok := DeserializeItems(dest, out, desc);
    }

    /** The do-while loop of json_deserialize_array. */
    method DeserializeItems(dest: Destination, out: int, desc: ArrayDescription) returns (ok: bool)
      requires ValidValue(desc.itemTag, desc.itemVal)
      modifies this, dest
      ensures Walk(ok, State(), dest.mem, out) == JsonDeserialize.DeserializeItems(old(State()), old(dest.mem), out, desc, 0)
      decreases desc.itemVal, 2
    {
      ghost var goal := JsonDeserialize.DeserializeItems(State(), dest.mem, out, desc, 0);
      var i := 0;
      while true
        invariant JsonDeserialize.DeserializeItems(State(), dest.mem, out, desc, i) == goal
        decreases Unread(), |remainder|
      {
        var slot := Reserve(desc.reserve, out, i);
        if slot.None? {
          return false;
        }
        var item, _ := Deserialize(dest, slot.value, desc.itemTag, desc.itemVal);
        if !item {
          return false;
        }
        var comma := TrimLeftExpectChar(',');
        if !comma {
          break;
        }
        i := i + 1;
      }
      var got;
      ok, got := ReadExpectChar(']');
    }
  }

  /** The conversion of json_expect_integer once the number is read; `ok` with the stored bytes. */
  method ConvertInteger(num: JsonNumber, isSigned: bool, bitwidth: nat) returns (ok: bool, bytes: seq<Byte>)
    requires 1 <= bitwidth <= UintmaxBits
    ensures (if ok then Some(bytes) else None) == JsonValues.IntegerValue(num, isSigned, bitwidth)
    ensures !ok ==> bytes == []
  {
    var maxVal := MaxVal(isSigned, bitwidth);
    if num.pointPos != 0 || num.exponent != 0 {
      return false, [];
    }
    if num.digits > (maxVal + if num.negative then 1 else 0) % UintmaxLimit {
      return false, [];
    }
    if !isSigned && num.negative {
      return false, [];
    }
    var digits := if isSigned && num.negative then OrBit(num.digits, bitwidth - 1) else num.digits;
    var width := IntegerBytes(bitwidth);
    if width == 1 || width == 2 || width == 4 || width == 8 {
      return true, LittleEndian(digits % Pow2(8 * width), width);
    }
    return false, [];
  }

  /** One whitespace byte of json_trim_left_expect_char. */
  lemma TrimWhitespaceStep(s: Source, t: Source, c: char)
    requires s.remainder != [] && IsWhitespace(s.remainder[0])
    requires t == (if s.remainder[0] == '\n' then s.(line := s.line + 1, columnAtSliceEnd := |s.remainder|) else s)
                    .(remainder := s.remainder[1..])
    ensures JsonLexer.TrimLeftExpectChar(s, c) == JsonLexer.TrimLeftExpectChar(t, c)
  {
  }

  /** An index into a suffix starting at `offset`, as an index into the whole. */
  function Shifted(r: Option<nat>, offset: nat): Option<nat> {
    match r
    case None => None
    case Some(d) => Some(d + offset)
  }
}
