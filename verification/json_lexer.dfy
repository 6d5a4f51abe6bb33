/**
 * Reference semantics of the tokenising primitives of
 * components/immjson/immjson.c: the read callback, the string buffer,
 * whitespace trimming, single-byte and literal matching, digit sequences
 * and string chunks.  Each function returns the new state of the source;
 * the class in json_source.dfy is proved to compute exactly these.
 *
 * Every loop of the source that pulls slices becomes a recursion on the
 * position in the stream: either a byte of the current slice is consumed
 * or a further slice is read.
 */
module JsonLexer {
  import opened Wrappers
  import opened JsonTypes

  /** The outcome of a primitive that reports success or failure. */
  datatype Step = Step(ok: bool, src: Source)

  /** json_read_expect_char's outcome; `got` is the byte it examined (remainder.head[-1] after a success). */
  datatype CharStep = CharStep(ok: bool, got: char, src: Source)

  /** read_digit_seq's outcome: the digit count it returns (0 for failure) and the accumulated value. */
  datatype DigitStep = DigitStep(count: nat, value: nat, src: Source)

  /** The number of slices the read callback has still to return. */
  function Unread(s: Source): nat {
    if s.next < |s.reader.slices| then |s.reader.slices| - s.next else 0
  }

  /**
   * `t` is no earlier in the stream than `s`: fewer slices are left, or as
   * many and no more bytes of the current one.
   */
  predicate AtOrAfter(s: Source, t: Source) {
    Unread(t) < Unread(s) || (Unread(t) == Unread(s) && |t.remainder| <= |s.remainder|)
  }

  /** `t` is strictly later in the stream than `s`. */
  predicate After(s: Source, t: Source) {
    Unread(t) < Unread(s) || (Unread(t) == Unread(s) && |t.remainder| < |s.remainder|)
  }

  /**
   * What every primitive keeps: the callbacks, the invariant of the string
   * buffer, and a position in the stream that never moves back.
   */
  predicate Advances(s: Source, t: Source) {
    t.reader == s.reader && t.buffer.heapLimit == s.buffer.heapLimit
    && AtOrAfter(s, t)
    && (BufferOk(s.buffer) ==> BufferOk(t.buffer))
  }

  /** json_is_whitespace */
  predicate IsWhitespace(c: char) {
    c == ' ' || c == '\t' || c == '\n' || c == '\r'
  }

  /** The value `(unsigned char)(c - '0')` that read_digit_seq compares with 9. */
  function DigitOf(c: char): nat {
    ((c as int) - ('0' as int)) % 256
  }

  predicate IsStringDelimiter(c: char) {
    c == '"' || c == '\\'
  }

  /**
   * READ_SLICE(): the next slice of the read callback becomes the current
   * slice and its length is added to the column at the slice end.
   */
  function ReadSlice(s: Source): (r: Source)
    ensures r.reader == s.reader && r.buffer == s.buffer && r.line == s.line && r.next >= s.next
    ensures s.next < |s.reader.slices| ==> r.remainder == s.reader.slices[s.next] && Unread(r) + 1 == Unread(s)
    ensures s.next >= |s.reader.slices| ==> r.remainder == [] && Unread(r) == 0
    ensures r.columnAtSliceEnd == s.columnAtSliceEnd + |r.remainder|
  {
    if s.next < |s.reader.slices| then
      s.(remainder := s.reader.slices[s.next], next := s.next + 1,
         columnAtSliceEnd := s.columnAtSliceEnd + |s.reader.slices[s.next]|)
    else
      s.(remainder := [])
  }

  /**
   * string_buffer_append: grows the capacity by exactly the appended length
   * when the bytes do not fit (the allocator sees the old and the grown
   * capacity), then copies the bytes.  A refused allocation leaves the
   * grown capacity and a NULL pointer behind.  Copying a non-empty string
   * through a NULL pointer (possible only after such a refusal) is reported
   * as a failure.
   */
  function StringBufferAppend(b: StringBuffer, str: seq<char>): (r: (bool, StringBuffer))
    ensures r.1.heapLimit == b.heapLimit
    ensures BufferOk(b) ==> BufferOk(r.1)
    ensures r.0 ==> r.1.content == b.content + str
    ensures !r.0 ==> r.1.content == b.content
    ensures r.1.capacity == if |b.content| + |str| > b.capacity then b.capacity + |str| else b.capacity
    ensures r.0 <==> if |b.content| + |str| > b.capacity then b.capacity + |str| <= b.heapLimit
                     else !b.ptrNull || |str| == 0
  {
    if |b.content| + |str| > b.capacity then
      var grown := b.capacity + |str|;
      if grown <= b.heapLimit then (true, StringBuffer(b.content + str, grown, false, b.heapLimit))
      else (false, b.(capacity := grown, ptrNull := true))
    else if b.ptrNull && |str| > 0 then (false, b)
    else (true, b.(content := b.content + str))
  }

  /**
   * json_trim_left_expect_char: skips whitespace (counting lines and
   * resetting the column at each newline), then consumes `c` if it is the
   * first other byte.  On failure the remainder starts at that byte, or is
   * empty at the end of the stream.
   */
  function TrimLeftExpectChar(s: Source, c: char): (r: Step)
    ensures Advances(s, r.src) && r.src.buffer == s.buffer && r.src.line >= s.line
    ensures r.ok ==> After(s, r.src)
    ensures IsWhitespace(c) ==> !r.ok
    ensures !r.ok ==> r.src.remainder == [] || (!IsWhitespace(r.src.remainder[0]) && r.src.remainder[0] != c)
    decreases Unread(s), |s.remainder|
  {
    if s.remainder == [] then
      var p := ReadSlice(s);
      if p.remainder == [] then Step(false, p) else TrimLeftExpectChar(p, c)
    else
      var cur := s.remainder[0];
      if !IsWhitespace(cur) then
        if cur == c then Step(true, s.(remainder := s.remainder[1..])) else Step(false, s)
      else
        var t := if cur == '\n' then s.(line := s.line + 1, columnAtSliceEnd := |s.remainder|) else s;
        TrimLeftExpectChar(t.(remainder := s.remainder[1..]), c)
  }

  /**
   * json_read_expect_char: reads one more slice if the remainder is empty,
   * then consumes the next byte if it is `expected` (any byte for READ_ANY).
   * Whitespace is not skipped.
   */
  function ReadExpectChar(s: Source, expected: char): (r: CharStep)
    ensures Advances(s, r.src) && r.src.buffer == s.buffer && r.src.line == s.line
    ensures r.ok ==> After(s, r.src)
    ensures r.ok ==> expected == ReadAny || r.got == expected
    ensures s.remainder != [] ==>
              r.got == s.remainder[0] && r.ok == (expected == ReadAny || s.remainder[0] == expected)
              && r.src == (if r.ok then s.(remainder := s.remainder[1..]) else s)
    ensures s.remainder == [] && s.next >= |s.reader.slices| ==> !r.ok && r.src.remainder == []
  {
    var t := if s.remainder == [] then ReadSlice(s) else s;
    if t.remainder == [] then CharStep(false, ReadAny, t)
    else if expected == ReadAny || t.remainder[0] == expected then
      CharStep(true, t.remainder[0], t.(remainder := t.remainder[1..]))
    else CharStep(false, t.remainder[0], t)
  }

  /**
   * json_read_expected: matches the literal byte by byte, across slices.
   * A mismatching byte makes it drop the rest of the current slice and go
   * on matching the rest of the literal against the next slice; it fails
   * only when the read callback returns an empty slice.
   */
  function ReadExpected(s: Source, expected: seq<char>): (r: Step)
    requires |expected| > 0
    ensures Advances(s, r.src) && r.src.buffer == s.buffer && r.src.line == s.line
    ensures r.ok ==> After(s, r.src)
    ensures !r.ok ==> r.src.remainder == []
    decreases Unread(s), |s.remainder|
  {
    if s.remainder != [] && s.remainder[0] == expected[0] then
      if |expected| == 1 then Step(true, s.(remainder := s.remainder[1..]))
      else ReadExpected(s.(remainder := s.remainder[1..]), expected[1..])
    else
      var p := ReadSlice(s);
      if p.remainder == [] then Step(false, p) else ReadExpected(p, expected)
  }

  /**
   * read_digit_seq: accumulates decimal digits into `value` across slices.
   * It stops at the first other byte and returns the digit count, kept in
   * a uint8_t; it returns 0 when the value would overflow JsonUintmax (the
   * remainder then starts at the digit that overflowed) and when the
   * stream ends.
   */
  function ReadDigitSeq(s: Source, value: nat, count: nat): (r: DigitStep)
    requires value < UintmaxLimit && count < DigitCountLimit
    ensures Advances(s, r.src) && r.src.buffer == s.buffer && r.src.line == s.line
    ensures r.value < UintmaxLimit && r.count < DigitCountLimit
    ensures r.count != 0 ==> r.src.remainder != [] && DigitOf(r.src.remainder[0]) > 9
    decreases Unread(s), |s.remainder|
  {
    if s.remainder == [] then
      var p := ReadSlice(s);
      if p.remainder == [] then DigitStep(0, value, p) else ReadDigitSeq(p, value, count)
    else
      var digit := DigitOf(s.remainder[0]);
      if digit > 9 then DigitStep(count, value, s)
      else if value * 10 + digit >= UintmaxLimit then DigitStep(0, value, s)
      else ReadDigitSeq(s.(remainder := s.remainder[1..]), value * 10 + digit, (count + 1) % DigitCountLimit)
  }

  /** One digit of read_digit_seq that does not overflow. */
  lemma DigitStepLemma(s: Source, t: Source, value: nat, count: nat, value': nat, count': nat)
    requires value < UintmaxLimit && count < DigitCountLimit
    requires s.remainder != [] && DigitOf(s.remainder[0]) <= 9
    requires value' == value * 10 + DigitOf(s.remainder[0]) < UintmaxLimit
    requires count' == (count + 1) % DigitCountLimit
    requires t == s.(remainder := s.remainder[1..])
    ensures ReadDigitSeq(s, value, count) == ReadDigitSeq(t, value', count')
  {
  }

  /** next_string_boundary: the index of the first '"' or '\\', if any. */
  function NextStringBoundary(slice: seq<char>): (r: Option<nat>)
    ensures r.Some? ==> r.value < |slice| && IsStringDelimiter(slice[r.value])
    ensures r.Some? ==> forall k :: 0 <= k < r.value ==> !IsStringDelimiter(slice[k])
    ensures r.None? ==> forall k :: 0 <= k < |slice| ==> !IsStringDelimiter(slice[k])
  {
    if slice == [] then None
    else if IsStringDelimiter(slice[0]) then Some(0)
    else match NextStringBoundary(slice[1..])
      case None => None
      case Some(d) => Some(d + 1)
  }

  /**
   * json_read_string_chunk once the delimiter is at index `d` of the
   * current slice: appends the slice up to and including it and, if the
   * buffer accepted the bytes, consumes them.
   */
  function AppendThrough(s: Source, d: nat): (r: Step)
    requires d < |s.remainder|
    ensures Advances(s, r.src) && r.src.line == s.line
    ensures r.ok ==> After(s, r.src) && r.src.buffer.content == s.buffer.content + s.remainder[..d + 1]
    ensures !r.ok ==> r.src.remainder == s.remainder
  {
    var (ok, b) := StringBufferAppend(s.buffer, s.remainder[..d + 1]);
    if ok then Step(true, s.(buffer := b, remainder := s.remainder[d + 1..]))
    else Step(false, s.(buffer := b))
  }

  /**
   * json_read_string_chunk: appends bytes to the string buffer up to and
   * including the next '"' or '\\', across slices.  On success the
   * remainder starts after that delimiter; a refused allocation leaves the
   * current slice unread; the end of the stream is a failure.
   */
  function ReadStringChunk(s: Source): (r: Step)
    ensures Advances(s, r.src) && r.src.line == s.line
    ensures r.ok ==> After(s, r.src)
    ensures r.ok ==> |r.src.buffer.content| > |s.buffer.content|
                     && IsStringDelimiter(r.src.buffer.content[|r.src.buffer.content| - 1])
    decreases Unread(s), |s.remainder|
  {
    match NextStringBoundary(s.remainder)
    case Some(d) => AppendThrough(s, d)
    case None =>
      var (ok, b) := StringBufferAppend(s.buffer, s.remainder);
      if !ok then Step(false, s.(buffer := b))
      else
        var p := ReadSlice(s.(buffer := b));
        if p.remainder == [] then Step(false, p) else ReadStringChunk(p)
  }
}
