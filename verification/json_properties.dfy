/**
 * Properties of the reference semantics of components/immjson/immjson.c:
 * what the primitives do on concrete shapes of input, the quirks of the
 * code as written, the integer encoding and the depth bound of the
 * skippers.
 */
module JsonProperties {
  import opened Wrappers
  import opened JsonTypes
  import opened JsonLexer
  import opened JsonValues
  import opened JsonSkip
  import opened JsonDeserialize

  /* Whitespace */

  predicate AllWhitespace(ws: seq<char>) {
    forall k :: 0 <= k < |ws| ==> IsWhitespace(ws[k])
  }

  function CountNewlines(ws: seq<char>): nat {
    if ws == [] then 0 else (if ws[0] == '\n' then 1 else 0) + CountNewlines(ws[1..])
  }

  /**
   * Within one slice, json_trim_left_expect_char skips the whitespace,
   * counting one line per LF, and then consumes the first other byte
   * exactly when it is `c`; otherwise that byte is left unread.
   */
  lemma {:induction false} TrimWithinSlice(s: Source, ws: seq<char>, x: char, rest: seq<char>, c: char)
    requires s.remainder == ws + [x] + rest && AllWhitespace(ws) && !IsWhitespace(x)
    ensures var r := TrimLeftExpectChar(s, c);
            r.ok == (x == c) && r.src.remainder == (if x == c then rest else [x] + rest)
            && r.src.line == s.line + CountNewlines(ws) && r.src.next == s.next
    decreases |ws|
  {
    if ws == [] {
      assert s.remainder == [x] + rest;
      assert s.remainder[1..] == rest;
    } else {
      var t := if ws[0] == '\n' then s.(line := s.line + 1, columnAtSliceEnd := |s.remainder|) else s;
      assert s.remainder[1..] == ws[1..] + [x] + rest;
      TrimWithinSlice(t.(remainder := s.remainder[1..]), ws[1..], x, rest, c);
    }
  }

  /** At the end of the stream nothing but whitespace is left: the trim fails with an empty remainder. */
  lemma {:induction false} TrimAtEnd(s: Source, c: char)
    requires AllWhitespace(s.remainder) && s.next >= |s.reader.slices|
    ensures var r := TrimLeftExpectChar(s, c);
            !r.ok && r.src.remainder == [] && r.src.line == s.line + CountNewlines(s.remainder)
    decreases |s.remainder|
  {
    if s.remainder != [] {
      var t := if s.remainder[0] == '\n' then s.(line := s.line + 1, columnAtSliceEnd := |s.remainder|) else s;
      TrimAtEnd(t.(remainder := s.remainder[1..]), c);
    }
  }

  /** Reading a slice once the current one is used up leaves the column where it was. */
  lemma ReadSliceKeepsColumn(s: Source)
    requires s.remainder == []
    ensures SourceColumn(ReadSlice(s)) == SourceColumn(s)
  {
  }

  /**
   * With the current slice used up, json_read_expect_char reads the next
   * slice and examines its first byte, consuming it exactly when it is
   * the byte expected.
   */
  lemma ReadExpectCharNextSlice(s: Source, expected: char, x: char, rest: seq<char>)
    requires s.remainder == [] && s.next < |s.reader.slices| && s.reader.slices[s.next] == [x] + rest
    ensures var r := ReadExpectChar(s, expected);
            r.got == x && r.ok == (expected == ReadAny || x == expected)
            && r.src.remainder == (if r.ok then rest else [x] + rest) && r.src.next == s.next + 1
  {
    var p := ReadSlice(s);
    assert p.remainder == [x] + rest && p.remainder[1..] == rest;
  }

  /* Literals */

  /** json_read_expected consumes exactly the literal when the current slice spells it. */
  lemma {:induction false} ReadExpectedSpelled(s: Source, lit: seq<char>, rest: seq<char>)
    requires |lit| > 0 && s.remainder == lit + rest
    ensures ReadExpected(s, lit) == Step(true, s.(remainder := rest))
    decreases |lit|
  {
    assert s.remainder[0] == lit[0];
    assert s.remainder[1..] == lit[1..] + rest;
    if |lit| > 1 {
      ReadExpectedSpelled(s.(remainder := s.remainder[1..]), lit[1..], rest);
    }
  }

  /**
   * A literal split between the end of the current slice and the start of
   * the next one is matched too.
   */
  lemma {:induction false} ReadExpectedAcrossSlices(s: Source, lit: seq<char>, k: nat, rest: seq<char>)
    requires k < |lit| && s.remainder == lit[..k]
    requires s.next < |s.reader.slices| && s.reader.slices[s.next] == lit[k..] + rest
    ensures var r := ReadExpected(s, lit);
            r.ok && r.src.remainder == rest && r.src.next == s.next + 1
    decreases k
  {
    if k == 0 {
      var p := ReadSlice(s);
      assert p.remainder == lit + rest;
      ReadExpectedSpelled(p, lit, rest);
    } else {
      assert s.remainder[0] == lit[0];
      assert s.remainder[1..] == lit[1..][..k - 1];
      assert lit[k..] == lit[1..][k - 1..];
      ReadExpectedAcrossSlices(s.(remainder := s.remainder[1..]), lit[1..], k - 1, rest);
    }
  }

  /** json_expect_bool accepts "true" at the start of the current slice. */
  lemma TrueAccepted(s: Source, rest: seq<char>)
    requires s.remainder == "true" + rest
    ensures var r := ExpectBool(s);
            r.ok && r.value && r.src.remainder == rest
  {
    TrimWithinSlice(s, [], 't', "rue" + rest, ' ');
    assert s.remainder == [] + ['t'] + ("rue" + rest);
    ReadExpectedSpelled(s, "true", rest);
  }

  /** Every slice the read callback has still to return holds at least one byte. */
  predicate SlicesFilled(s: Source) {
    forall k :: s.next <= k < |s.reader.slices| ==> s.reader.slices[k] != []
  }

  /**
   * Unless the read callback returns an empty slice before the end of the
   * stream, a json_read_expected that fails has read the stream to its end.
   */
  lemma {:induction false} ReadExpectedFailsAtEnd(s: Source, lit: seq<char>)
    requires |lit| > 0 && SlicesFilled(s)
    ensures var r := ReadExpected(s, lit);
            !r.ok ==> r.src.remainder == [] && r.src.next >= |r.src.reader.slices|
    decreases Unread(s), |s.remainder|
  {
    if s.remainder != [] && s.remainder[0] == lit[0] {
      if |lit| > 1 {
        ReadExpectedFailsAtEnd(s.(remainder := s.remainder[1..]), lit[1..]);
      }
    } else {
      var p := ReadSlice(s);
      if p.remainder != [] {
        ReadExpectedFailsAtEnd(p, lit);
      }
    }
  }

  /**
   * A "false" at the head of the value, wherever it is in the stream, is
   * never read as false: the "true" attempt of json_expect_bool drops the
   * rest of the slice at the 'f' and goes on matching "true" against the
   * slices that follow.  So a "false" in the last slice is refused, and
   * when no empty slice comes before the end of the stream the result is
   * either true or a failure.
   */
  lemma FalseAfterTrueAttempt(s: Source, ws: seq<char>, rest: seq<char>)
    requires s.remainder == ws + "false" + rest && AllWhitespace(ws)
    ensures var r := ExpectBool(s);
            (s.next >= |s.reader.slices| ==> !r.ok)
            && (SlicesFilled(s) ==> (r.ok ==> r.value))
  {
    assert s.remainder == ws + ['f'] + ("alse" + rest);
    TrimWithinSlice(s, ws, 'f', "alse" + rest, ' ');
    var t := TrimLeftExpectChar(s, ' ').src;
    var yes := ReadExpected(t, "true");
    if s.next >= |s.reader.slices| {
      assert !yes.ok && yes.src.remainder == [] && yes.src.next >= |yes.src.reader.slices|;
    }
    if SlicesFilled(s) && !yes.ok {
      assert SlicesFilled(t);
      ReadExpectedFailsAtEnd(t, "true");
    }
  }

  /**
   * The counterexample: the slices "false" and "true" are read as true,
   * because the "true" attempt keeps its place in "true" when it moves on
   * to the next slice.
   */
  lemma FalseThenTrueSlicesReadTrue(buffer: StringBuffer)
    ensures var r := ExpectBool(Source([], Reader(["false", "true"]), 0, buffer, 0, 0));
            r.ok && r.value && r.src.remainder == [] && r.src.next == 2
  {
    var s := Source([], Reader(["false", "true"]), 0, buffer, 0, 0);
    var first := ReadSlice(s);
    assert first.remainder == [] + ['f'] + "alse";
    TrimWithinSlice(first, [], 'f', "alse", ' ');
    var t := TrimLeftExpectChar(s, ' ').src;
    assert t == first;
    var second := ReadSlice(t);
    assert second.remainder == "true" + [];
    ReadExpectedSpelled(second, "true", []);
  }

  /* The literal reader json_expect_bool evidently needs */

  /**
   * json_read_expected as json_expect_bool needs it: the literal is matched
   * byte by byte across slices, and a mismatching byte ends the match with
   * that byte left unread, so that the next literal is tried from it.
   */
  function ReadLiteral(s: Source, lit: seq<char>): (r: Step)
    requires |lit| > 0
    ensures Advances(s, r.src) && r.src.buffer == s.buffer
    ensures r.ok ==> After(s, r.src)
    ensures s.remainder != [] && s.remainder[0] != lit[0] ==> r == Step(false, s)
    decreases Unread(s), |s.remainder|
  {
    if s.remainder == [] then
      var p := ReadSlice(s);
      if p.remainder == [] then Step(false, p) else ReadLiteral(p, lit)
    else if s.remainder[0] != lit[0] then Step(false, s)
    else if |lit| == 1 then Step(true, s.(remainder := s.remainder[1..]))
    else ReadLiteral(s.(remainder := s.remainder[1..]), lit[1..])
  }

  /** json_expect_bool with both literals tried from the first byte of the value. */
  function IntendedExpectBool(s: Source): (r: BoolStep)
    ensures Advances(s, r.src) && r.src.buffer == s.buffer
    ensures r.ok ==> After(s, r.src)
  {
    var t := TrimLeftExpectChar(s, ' ').src;
    var yes := ReadLiteral(t, "true");
    if yes.ok then BoolStep(true, true, yes.src)
    else
      var no := ReadLiteral(yes.src, "false");
      BoolStep(no.ok, false, no.src)
  }

  /** ReadLiteral consumes exactly the literal when the current slice spells it. */
  lemma {:induction false} ReadLiteralSpelled(s: Source, lit: seq<char>, rest: seq<char>)
    requires |lit| > 0 && s.remainder == lit + rest
    ensures ReadLiteral(s, lit) == Step(true, s.(remainder := rest))
    decreases |lit|
  {
    assert s.remainder[0] == lit[0];
    if |lit| > 1 {
      assert s.remainder[1..] == lit[1..] + rest;
      ReadLiteralSpelled(s.(remainder := s.remainder[1..]), lit[1..], rest);
    } else {
      assert s.remainder[1..] == rest;
    }
  }

  /**
   * The intended property: "true" and "false" after whitespace are read as
   * the boolean they spell, and consumed, wherever they are in the stream.
   */
  lemma IntendedBoolReadsLiteral(s: Source, ws: seq<char>, b: bool, rest: seq<char>)
    requires s.remainder == ws + (if b then "true" else "false") + rest && AllWhitespace(ws)
    ensures var r := IntendedExpectBool(s);
            r.ok && r.value == b && r.src.remainder == rest && r.src.next == s.next
  {
    var lit := if b then "true" else "false";
    assert s.remainder == ws + [lit[0]] + (lit[1..] + rest);
    TrimWithinSlice(s, ws, lit[0], lit[1..] + rest, ' ');
    var t := TrimLeftExpectChar(s, ' ').src;
    assert t.remainder == lit + rest;
    if b {
      ReadLiteralSpelled(t, "true", rest);
    } else {
      ReadLiteralSpelled(t, "false", rest);
    }
  }

  /** On the slices "false" and "true" the intended reader gives false, from the first slice. */
  lemma FalseThenTrueSlicesReadFalse(buffer: StringBuffer)
    ensures var r := IntendedExpectBool(Source([], Reader(["false", "true"]), 0, buffer, 0, 0));
            r.ok && !r.value && r.src.remainder == [] && r.src.next == 1
  {
    var s := Source([], Reader(["false", "true"]), 0, buffer, 0, 0);
    var first := ReadSlice(s);
    assert first.remainder == [] + ['f'] + "alse";
    TrimWithinSlice(first, [], 'f', "alse", ' ');
    var t := TrimLeftExpectChar(s, ' ').src;
    assert t == first && t.remainder == "false" + [];
    ReadLiteralSpelled(t, "false", []);
  }

  /** json_expect_null accepts "null" after whitespace and consumes it. */
  lemma NullAccepted(s: Source, ws: seq<char>, rest: seq<char>)
    requires s.remainder == ws + "null" + rest && AllWhitespace(ws)
    ensures var r := ExpectNull(s);
            r.ok && r.src.remainder == rest && r.src.next == s.next
  {
    assert s.remainder == ws + ['n'] + ("ull" + rest);
    TrimWithinSlice(s, ws, 'n', "ull" + rest, ' ');
    var t := TrimLeftExpectChar(s, ' ').src;
    assert t.remainder == "null" + rest;
    ReadExpectedSpelled(t, "null", rest);
  }

  /* Strings */

  predicate NoDelimiter(body: seq<char>) {
    forall k :: 0 <= k < |body| ==> !IsStringDelimiter(body[k])
  }

  /** The first delimiter of `body + [d] + rest` is `d` when the body has none. */
  lemma BoundaryAfter(body: seq<char>, d: char, rest: seq<char>)
    requires NoDelimiter(body) && IsStringDelimiter(d)
    ensures JsonLexer.NextStringBoundary(body + [d] + rest) == Some(|body|)
  {
    assert (body + [d] + rest)[|body|] == d;
  }

  /**
   * The rest of a string, up to its closing quote in the current slice,
   * appended to what the buffer holds: the buffer grows once and the
   * string is handed out when the allocator grants the growth.
   */
  lemma ClosingChunk(s: Source, body: seq<char>, rest: seq<char>)
    requires s.remainder == body + ['"'] + rest && NoDelimiter(body)
    requires |s.buffer.content| + |body| + 1 > s.buffer.capacity
    ensures var r := StringContents(s);
            r.ok == (s.buffer.capacity + |body| + 1 <= s.buffer.heapLimit)
            && (r.ok ==> r.str == s.buffer.content + body && r.src.remainder == rest)
  {
    BoundaryAfter(body, '"', rest);
    assert s.remainder[..|body| + 1] == body + ['"'];
    assert s.remainder[|body| + 1..] == rest;
    var c := ReadStringChunk(s);
    if c.ok {
      assert c.src.buffer.content == s.buffer.content + body + ['"'];
    }
  }

  /**
   * A string without escapes, in one slice, read into the released buffer:
   * it is accepted and handed out without its quotes when the allocator
   * grants its length plus the closing quote, and refused otherwise.
   */
  lemma PlainString(s: Source, body: seq<char>, rest: seq<char>)
    requires s.remainder == ['"'] + body + ['"'] + rest && NoDelimiter(body)
    requires s.buffer == ReleasedBuffer(s.buffer.heapLimit)
    ensures var r := ExpectString(s);
            r.ok == (|body| + 1 <= s.buffer.heapLimit)
            && (r.ok ==> r.str == body && r.src.remainder == rest)
  {
    assert s.remainder == [] + ['"'] + (body + ['"'] + rest);
    TrimWithinSlice(s, [], '"', body + ['"'] + rest, '"');
    var t := TrimLeftExpectChar(s, '"').src;
    ClosingChunk(t.(buffer := t.buffer.(content := [])), body, rest);
  }

  /**
   * A backslash at the start of the string contents: the chunk up to it is
   * buffered (the buffer grows to one byte), then the escaped byte is read
   * and the pair replaced by the byte it stands for.
   */
  lemma EscapeChunk(s: Source, e: char, more: seq<char>)
    requires s.remainder == ['\\', e] + more && Unescape(e).Some?
    requires s.buffer == StringBuffer([], 0, true, s.buffer.heapLimit) && 1 <= s.buffer.heapLimit
    ensures var c := ReadStringChunk(s);
            c.ok && AfterChunk(c.src).Pending?
            && AfterChunk(c.src).src.remainder == more
            && AfterChunk(c.src).src.buffer == StringBuffer([Unescape(e).value], 1, false, s.buffer.heapLimit)
  {
    assert s.remainder == [] + ['\\'] + ([e] + more);
    BoundaryAfter([], '\\', [e] + more);
    assert s.remainder[1..] == [e] + more;
  }

  /**
   * An escape sequence at the start of a string is replaced by the byte it
   * stands for; the buffer then grows a second time for the rest.
   */
  lemma EscapedString(s: Source, e: char, body: seq<char>, rest: seq<char>)
    requires s.remainder == ['"', '\\', e] + body + ['"'] + rest && NoDelimiter(body) && Unescape(e).Some?
    requires s.buffer == ReleasedBuffer(s.buffer.heapLimit) && |body| + 2 <= s.buffer.heapLimit
    ensures var r := ExpectString(s);
            r.ok && r.str == [Unescape(e).value] + body && r.src.remainder == rest
  {
    assert s.remainder == [] + ['"'] + (['\\', e] + (body + ['"'] + rest));
    TrimWithinSlice(s, [], '"', ['\\', e] + (body + ['"'] + rest), '"');
    var t := TrimLeftExpectChar(s, '"').src;
    EscapeChunk(t.(buffer := t.buffer.(content := [])), e, body + ['"'] + rest);
    var a := AfterChunk(ReadStringChunk(t.(buffer := t.buffer.(content := []))).src);
    ClosingChunk(a.src, body, rest);
  }

  /** `\u` escapes are not supported: the string is refused. */
  lemma UnicodeEscapeRefused(s: Source, rest: seq<char>)
    requires s.remainder == ['"', '\\', 'u'] + rest
    requires s.buffer == ReleasedBuffer(s.buffer.heapLimit) && 1 <= s.buffer.heapLimit
    ensures !ExpectString(s).ok
  {
    assert s.remainder == [] + ['"'] + (['\\', 'u'] + rest);
    TrimWithinSlice(s, [], '"', ['\\', 'u'] + rest, '"');
    var t := TrimLeftExpectChar(s, '"').src;
    UnicodeChunk(t.(buffer := t.buffer.(content := [])), rest);
  }

  /** The chunk before `\u` is read, and the escape then ends the string with failure. */
  lemma UnicodeChunk(s: Source, rest: seq<char>)
    requires s.remainder == ['\\', 'u'] + rest
    requires s.buffer == StringBuffer([], 0, true, s.buffer.heapLimit) && 1 <= s.buffer.heapLimit
    ensures var c := ReadStringChunk(s);
            c.ok && AfterChunk(c.src).Finished? && !AfterChunk(c.src).step.ok
  {
    assert s.remainder == [] + ['\\'] + (['u'] + rest);
    BoundaryAfter([], '\\', ['u'] + rest);
    assert s.remainder[..1] == ['\\'] && s.remainder[1..] == ['u'] + rest;
    var c := AppendThrough(s, 0);
    assert c.ok && c.src.remainder == ['u'] + rest && c.src.buffer.content == ['\\'];
    var e := ReadExpectChar(c.src, ReadAny);
    assert e.ok && e.got == 'u';
  }

  /* Numbers */

  predicate AllDigits(ds: seq<char>) {
    forall k :: 0 <= k < |ds| ==> DigitOf(ds[k]) <= 9
  }

  /** The value read_digit_seq accumulates from `value` over the digits `ds`. */
  function Decimal(value: nat, ds: seq<char>): nat
    decreases |ds|
  {
    if ds == [] then value else Decimal(value * 10 + DigitOf(ds[0]), ds[1..])
  }

  lemma {:induction false} DecimalGrows(value: nat, ds: seq<char>)
    ensures Decimal(value, ds) >= value
    decreases |ds|
  {
    if ds != [] {
      DecimalGrows(value * 10 + DigitOf(ds[0]), ds[1..]);
    }
  }

  function Pow10(n: nat): (r: nat)
    ensures r >= 1
  {
    if n == 0 then 1 else 10 * Pow10(n - 1)
  }

  /** Accumulating digits onto `value` shifts it left by one decimal place per digit. */
  lemma {:induction false} DecimalShifts(value: nat, ds: seq<char>)
    ensures Decimal(value, ds) == value * Pow10(|ds|) + Decimal(0, ds)
    decreases |ds|
  {
    if ds != [] {
      var d := DigitOf(ds[0]);
      var p := Pow10(|ds| - 1);
      DecimalShifts(value * 10 + d, ds[1..]);
      DecimalShifts(d, ds[1..]);
      assert Decimal(0, ds) == Decimal(d, ds[1..]);
      assert (value * 10 + d) * p == value * (10 * p) + d * p;
    }
  }

  /** The digits of an integer as json_expect_number reads it: no leading zero, within UINTMAX_MAX. */
  predicate IntegerLiteral(digits: seq<char>) {
    digits != [] && digits[0] != '0' && AllDigits(digits)
    && Decimal(0, digits) < UintmaxLimit && |digits| < DigitCountLimit
  }

  /** The integer part json_expect_number accepts: a lone '0' or an integer literal. */
  predicate WholeLiteral(digits: seq<char>) {
    digits == ['0'] || IntegerLiteral(digits)
  }

  /**
   * Within one slice, read_digit_seq reads every digit up to the first
   * other byte, which it leaves unread, when the value fits in
   * JsonUintmax; its count wraps at 256.
   */
  lemma {:induction false} DigitsWithinSlice(s: Source, value: nat, count: nat, ds: seq<char>, x: char, rest: seq<char>)
    requires value < UintmaxLimit && count < DigitCountLimit
    requires s.remainder == ds + [x] + rest && AllDigits(ds) && DigitOf(x) > 9
    requires Decimal(value, ds) < UintmaxLimit
    ensures ReadDigitSeq(s, value, count)
            == DigitStep(CountByte(count + |ds|), Decimal(value, ds), s.(remainder := [x] + rest))
    decreases |ds|
  {
    if ds == [] {
      assert s.remainder == [x] + rest;
    } else {
      var digit := DigitOf(ds[0]);
      var v := value * 10 + digit;
      var c := (count + 1) % DigitCountLimit;
      var t := s.(remainder := s.remainder[1..]);
      assert s.remainder[0] == ds[0] && digit <= 9;
      assert Decimal(value, ds) == Decimal(v, ds[1..]);
      DecimalGrows(v, ds[1..]);
      DigitStepLemma(s, t, value, count, v, c);
      assert t.remainder == ds[1..] + [x] + rest;
      assert AllDigits(ds[1..]) by {
        forall k | 0 <= k < |ds[1..]| ensures DigitOf(ds[1..][k]) <= 9 { assert ds[1..][k] == ds[k + 1]; }
      }
      DigitsWithinSlice(t, v, c, ds[1..], x, rest);
      CountWraps(count, |ds| - 1);
    }
  }

  /** A digit count as the uint8_t read_digit_seq keeps it in. */
  function CountByte(n: nat): (r: nat)
    ensures r < DigitCountLimit
  {
    n % DigitCountLimit
  }

  lemma CountBelowLimit(n: nat)
    requires n < DigitCountLimit
    ensures CountByte(n) == n
  {
  }

  lemma CountWraps(count: nat, n: nat)
    ensures CountByte(CountByte(count + 1) + n) == CountByte(count + 1 + n)
  {
  }

  /** A stream that ends in the middle of a digit sequence makes read_digit_seq fail. */
  lemma {:induction false} DigitsAtEnd(s: Source, value: nat, count: nat)
    requires value < UintmaxLimit && count < DigitCountLimit
    requires AllDigits(s.remainder) && Decimal(value, s.remainder) < UintmaxLimit
    requires s.next >= |s.reader.slices|
    ensures ReadDigitSeq(s, value, count).count == 0
    decreases |s.remainder|
  {
    if s.remainder != [] {
      var ds := s.remainder;
      var v := value * 10 + DigitOf(ds[0]);
      var c := (count + 1) % DigitCountLimit;
      var t := s.(remainder := ds[1..]);
      assert DigitOf(ds[0]) <= 9;
      assert Decimal(value, ds) == Decimal(v, ds[1..]);
      DecimalGrows(v, ds[1..]);
      DigitStepLemma(s, t, value, count, v, c);
      assert AllDigits(ds[1..]) by {
        forall k | 0 <= k < |ds[1..]| ensures DigitOf(ds[1..][k]) <= 9 { assert ds[1..][k] == ds[k + 1]; }
      }
      DigitsAtEnd(t, v, c);
    }
  }

  /** A digit that would overflow JsonUintmax makes read_digit_seq fail, at that digit. */
  lemma DigitOverflow(s: Source, value: nat, count: nat)
    requires value < UintmaxLimit && count < DigitCountLimit
    requires s.remainder != [] && DigitOf(s.remainder[0]) <= 9
    requires value * 10 + DigitOf(s.remainder[0]) >= UintmaxLimit
    ensures ReadDigitSeq(s, value, count) == DigitStep(0, value, s)
  {
  }

  /**
   * A leading '0' is the whole integer part: "01" reads as 0 and leaves
   * the "1" unread.
   */
  lemma LeadingZero(s: Source, rest: seq<char>)
    requires s.remainder == ['0'] + rest
    ensures WholePart(s) == DigitStep(1, 0, s.(remainder := rest))
  {
  }

  /** A '.' must be followed by a digit. */
  lemma FractionNeedsDigit(s: Source, digits: nat, x: char, rest: seq<char>)
    requires digits < UintmaxLimit && s.remainder == ['.', x] + rest && DigitOf(x) > 9
    ensures !FractionPart(s, digits).0
  {
    var dot := ReadExpectChar(s, '.');
    assert dot.src.remainder == [] + [x] + rest;
    DigitsWithinSlice(dot.src, digits, 0, [], x, rest);
  }

  /** A byte read_digit_seq takes for a digit is neither whitespace nor a sign. */
  lemma DigitIsNotSeparator(c: char)
    requires DigitOf(c) <= 9
    ensures !IsWhitespace(c) && c != '-' && c != '+'
  {
  }

  /** The decimal point and the structural bytes are not digits to read_digit_seq. */
  lemma SeparatorsAreNotDigits()
    ensures DigitOf('.') > 9 && DigitOf(',') > 9 && DigitOf(']') > 9 && DigitOf('}') > 9
  {
  }

  /** A non-zero integer part in one slice is read up to the first byte that is not a digit. */
  lemma WholeDigits(s: Source, ds: seq<char>, x: char, rest: seq<char>)
    requires s.remainder == ds + [x] + rest && ds != [] && ds[0] != '0' && AllDigits(ds)
    requires Decimal(0, ds) < UintmaxLimit && |ds| < DigitCountLimit && DigitOf(x) > 9
    ensures WholePart(s) == DigitStep(|ds|, Decimal(0, ds), s.(remainder := [x] + rest))
  {
    assert s.remainder[0] == ds[0];
    var zero := ReadExpectChar(s, '0');
    assert !zero.ok && zero.src == s;
    assert WholePart(s) == ReadDigitSeq(s, 0, 0);
    var none: nat := 0;
    DigitsWithinSlice(s, 0, none, ds, x, rest);
    CountBelowLimit(none + |ds|);
  }

  /** With neither '.' nor an exponent marker next, the number ends with its integer part. */
  lemma PlainTail(s: Source, digits: nat, negative: bool, x: char, rest: seq<char>)
    requires digits < UintmaxLimit && s.remainder == [x] + rest
    requires x != '.' && x != 'e' && x != 'E'
    ensures NumberTail(s, digits, negative) == NumberStep(true, JsonNumber(digits, 0, 0, negative), s)
  {
  }

  /**
   * An integer without fraction and exponent, in one slice: its digits
   * and its sign are read, and the byte after the digits is left unread.
   */
  lemma IntegerText(s: Source, negative: bool, ds: seq<char>, x: char, rest: seq<char>)
    requires s.remainder == if negative then ['-'] + (ds + [x] + rest) else ds + [x] + rest
    requires ds != [] && ds[0] != '0' && AllDigits(ds) && Decimal(0, ds) < UintmaxLimit && |ds| < DigitCountLimit
    requires DigitOf(x) > 9 && x != '.' && x != 'e' && x != 'E'
    ensures var r := ExpectNumber(s);
            r.ok && r.num == JsonNumber(Decimal(0, ds), 0, 0, negative) && r.src.remainder == [x] + rest
  {
    assert DigitOf(ds[0]) <= 9;
    SignRead(s, negative, ds + [x] + rest);
    var minus := TrimLeftExpectChar(s, '-');
    WholeDigits(minus.src, ds, x, rest);
    PlainTail(minus.src.(remainder := [x] + rest), Decimal(0, ds), minus.ok, x, rest);
  }

  /** The optional '-' of json_expect_number, directly before a digit. */
  lemma SignRead(s: Source, negative: bool, digits: seq<char>)
    requires s.remainder == if negative then ['-'] + digits else digits
    requires digits != [] && DigitOf(digits[0]) <= 9
    ensures TrimLeftExpectChar(s, '-').ok == negative
    ensures TrimLeftExpectChar(s, '-').src.remainder == digits
  {
    var none: seq<char> := [];
    DigitIsNotSeparator(digits[0]);
    if negative {
      assert s.remainder == none + ['-'] + digits;
      TrimWithinSlice(s, none, '-', digits, '-');
    } else {
      assert s.remainder == none + [digits[0]] + digits[1..];
      TrimWithinSlice(s, none, digits[0], digits[1..], '-');
    }
  }

  /**
   * The digits after 'e' or 'E' form the exponent, which is accepted
   * exactly when it is at most INT16_MAX.
   */
  lemma ExponentBound(s: Source, ds: seq<char>, x: char, rest: seq<char>)
    requires s.remainder == ds + [x] + rest && ds != [] && AllDigits(ds) && DigitOf(x) > 9
    requires Decimal(0, ds) < UintmaxLimit && |ds| < DigitCountLimit
    ensures SignedExponent(s).ok == (Decimal(0, ds) <= ExponentMax)
    ensures SignedExponent(s).ok ==> SignedExponent(s).exponent == Decimal(0, ds)
  {
    assert DigitOf(ds[0]) <= 9 && s.remainder[0] == ds[0];
    DigitIsNotSeparator(ds[0]);
    assert ReadExpectChar(s, '-').src == s;
    assert ReadExpectChar(s, '+').src == s;
    var none: nat := 0;
    DigitsWithinSlice(s, 0, none, ds, x, rest);
    CountBelowLimit(none + |ds|);
  }

  /** The integer part of json_expect_number, whichever form it takes, read up to the byte after it. */
  lemma WholeText(s: Source, ds: seq<char>, y: char, rest: seq<char>)
    requires WholeLiteral(ds) && s.remainder == ds + [y] + rest && DigitOf(y) > 9
    ensures WholePart(s) == DigitStep(|ds|, Decimal(0, ds), s.(remainder := [y] + rest))
  {
    if ds == ['0'] {
      LeadingZero(s, [y] + rest);
    } else {
      WholeDigits(s, ds, y, rest);
    }
  }

  /** Without a '.', point_pos is 0 and the digits are kept. */
  lemma NoFraction(s: Source, digits: nat, x: char, rest: seq<char>)
    requires digits < UintmaxLimit && s.remainder == [x] + rest && x != '.'
    ensures FractionPart(s, digits) == (true, DigitStep(0, digits, s))
  {
  }

  /**
   * After a '.', the fraction digits are accumulated into the same
   * digits, which become digits * 10^|fs| + fs, and point_pos is their
   * number.
   */
  lemma FractionRead(s: Source, digits: nat, fs: seq<char>, x: char, rest: seq<char>)
    requires digits < UintmaxLimit && s.remainder == ['.'] + fs + [x] + rest
    requires fs != [] && AllDigits(fs) && |fs| < DigitCountLimit && DigitOf(x) > 9
    requires Decimal(digits, fs) < UintmaxLimit
    ensures FractionPart(s, digits) == (true, DigitStep(|fs|, Decimal(digits, fs), s.(remainder := [x] + rest)))
    ensures Decimal(digits, fs) == digits * Pow10(|fs|) + Decimal(0, fs)
  {
    FractionDigits(s, digits, fs, x, rest);
    DecimalShifts(digits, fs);
  }

  /** The first half of FractionRead: what json_expect_number reads after the '.'. */
  lemma FractionDigits(s: Source, digits: nat, fs: seq<char>, x: char, rest: seq<char>)
    requires digits < UintmaxLimit && s.remainder == ['.'] + fs + [x] + rest
    requires fs != [] && AllDigits(fs) && |fs| < DigitCountLimit && DigitOf(x) > 9
    requires Decimal(digits, fs) < UintmaxLimit
    ensures FractionPart(s, digits) == (true, DigitStep(|fs|, Decimal(digits, fs), s.(remainder := [x] + rest)))
  {
    var dot := ReadExpectChar(s, '.');
    assert dot.src == s.(remainder := fs + [x] + rest);
    var none: nat := 0;
    DigitsWithinSlice(dot.src, digits, none, fs, x, rest);
    CountBelowLimit(none + |fs|);
  }

  /** The exponent part starts only at 'e' or 'E'; otherwise the exponent is 0 and nothing is read. */
  lemma ExponentDispatch(s: Source, x: char, rest: seq<char>)
    requires s.remainder == [x] + rest
    ensures ExponentPart(s) == if x == 'e' || x == 'E' then SignedExponent(s.(remainder := rest)) else ExponentStep(true, 0, s)
  {
    assert s.remainder[1..] == rest;
  }

  /**
   * The exponent after 'e' or 'E', with no sign, '-' or '+': its digits
   * are accepted when their value is at most INT16_MAX, and the exponent
   * is negated after '-' alone.
   */
  lemma SignedExponentRead(s: Source, sign: seq<char>, ds: seq<char>, x: char, rest: seq<char>)
    requires sign == [] || sign == ['-'] || sign == ['+']
    requires s.remainder == sign + (ds + [x] + rest) && ds != [] && AllDigits(ds) && DigitOf(x) > 9
    requires Decimal(0, ds) < UintmaxLimit && |ds| < DigitCountLimit
    ensures var r := SignedExponent(s);
            r.ok == (Decimal(0, ds) <= ExponentMax) && r.src.remainder == [x] + rest
            && (r.ok ==> r.exponent == if sign == ['-'] then -(Decimal(0, ds) as int) else Decimal(0, ds))
  {
    assert DigitOf(ds[0]) <= 9;
    DigitIsNotSeparator(ds[0]);
    var t := s.(remainder := ds + [x] + rest);
    var expMinus := ReadExpectChar(s, '-');
    if sign == [] {
      assert s.remainder[0] == ds[0] && s == t;
      assert ReadExpectChar(expMinus.src, '+').src == t;
    } else {
      assert s.remainder[1..] == ds + [x] + rest;
      if sign == ['-'] {
        assert expMinus.ok && expMinus.src == t;
      } else {
        assert !expMinus.ok && expMinus.src == s;
        assert ReadExpectChar(s, '+').src == t;
      }
    }
    var none: nat := 0;
    DigitsWithinSlice(t, 0, none, ds, x, rest);
    CountBelowLimit(none + |ds|);
  }

  /** After the integer part: a fraction and no exponent. */
  lemma FractionTail(w: Source, digits: nat, negative: bool, fs: seq<char>, x: char, rest: seq<char>)
    requires digits < UintmaxLimit && w.remainder == ['.'] + (fs + [x] + rest)
    requires fs != [] && AllDigits(fs) && |fs| < DigitCountLimit && DigitOf(x) > 9 && x != 'e' && x != 'E'
    requires Decimal(digits, fs) < UintmaxLimit
    ensures NumberTail(w, digits, negative)
            == NumberStep(true, JsonNumber(Decimal(digits, fs), 0, |fs|, negative), w.(remainder := [x] + rest))
  {
    FractionRead(w, digits, fs, x, rest);
    ExponentDispatch(w.(remainder := [x] + rest), x, rest);
  }

  /**
   * A number with a fraction and no exponent, in one slice: point_pos is
   * the number of fraction digits, and the digits hold the integer part
   * shifted by that many decimal places plus the fraction digits.
   */
  lemma FractionText(s: Source, negative: bool, ds: seq<char>, fs: seq<char>, x: char, rest: seq<char>)
    requires s.remainder == if negative then ['-'] + (ds + ['.'] + (fs + [x] + rest)) else ds + ['.'] + (fs + [x] + rest)
    requires WholeLiteral(ds) && fs != [] && AllDigits(fs) && |fs| < DigitCountLimit
    requires Decimal(Decimal(0, ds), fs) < UintmaxLimit
    requires DigitOf(x) > 9 && x != 'e' && x != 'E'
    ensures var r := ExpectNumber(s);
            r.ok && r.num == JsonNumber(Decimal(Decimal(0, ds), fs), 0, |fs|, negative) && r.src.remainder == [x] + rest
    ensures Decimal(Decimal(0, ds), fs) == Decimal(0, ds) * Pow10(|fs|) + Decimal(0, fs)
  {
    FractionNumber(s, negative, ds, fs, x, rest);
    DecimalShifts(Decimal(0, ds), fs);
  }

  /** After a sign and an integer part in one slice, json_expect_number goes on with the rest. */
  lemma NumberAfterWhole(s: Source, negative: bool, ds: seq<char>, y: char, rest: seq<char>)
    requires s.remainder == if negative then ['-'] + (ds + [y] + rest) else ds + [y] + rest
    requires WholeLiteral(ds) && DigitOf(y) > 9
    ensures Decimal(0, ds) < UintmaxLimit
    ensures var m := TrimLeftExpectChar(s, '-').src;
            ExpectNumber(s) == NumberTail(m.(remainder := [y] + rest), Decimal(0, ds), negative)
  {
    assert DigitOf(ds[0]) <= 9;
    SignRead(s, negative, ds + [y] + rest);
    var minus := TrimLeftExpectChar(s, '-');
    WholeText(minus.src, ds, y, rest);
  }

  /** The first half of FractionText. */
  lemma FractionNumber(s: Source, negative: bool, ds: seq<char>, fs: seq<char>, x: char, rest: seq<char>)
    requires s.remainder == if negative then ['-'] + (ds + ['.'] + (fs + [x] + rest)) else ds + ['.'] + (fs + [x] + rest)
    requires WholeLiteral(ds) && fs != [] && AllDigits(fs) && |fs| < DigitCountLimit
    requires Decimal(Decimal(0, ds), fs) < UintmaxLimit
    requires DigitOf(x) > 9 && x != 'e' && x != 'E'
    ensures var r := ExpectNumber(s);
            r.ok && r.num == JsonNumber(Decimal(Decimal(0, ds), fs), 0, |fs|, negative) && r.src.remainder == [x] + rest
  {
    SeparatorsAreNotDigits();
    NumberAfterWhole(s, negative, ds, '.', fs + [x] + rest);
    var w := TrimLeftExpectChar(s, '-').src.(remainder := ['.'] + (fs + [x] + rest));
    FractionTail(w, Decimal(0, ds), negative, fs, x, rest);
  }

  /* Item lists */

  /** The items joined with ',' between them. */
  function Joined(items: seq<seq<char>>): seq<char>
    requires items != []
    decreases |items|
  {
    if |items| == 1 then items[0] else items[0] + [','] + Joined(items[1..])
  }

  /** The joined items start with the first byte of the first item. */
  lemma JoinedStarts(items: seq<seq<char>>)
    requires items != [] && items[0] != []
    ensures Joined(items) != [] && Joined(items)[0] == items[0][0]
  {
  }

  /**
   * A whole number without sign, fraction or exponent, in one slice: its
   * value is read and the byte after its digits is left unread.
   */
  lemma WholeNumberText(s: Source, ds: seq<char>, x: char, rest: seq<char>)
    requires s.remainder == ds + [x] + rest && WholeLiteral(ds)
    requires DigitOf(x) > 9 && x != '.' && x != 'e' && x != 'E'
    ensures var r := ExpectNumber(s);
            r.ok && r.num == JsonNumber(Decimal(0, ds), 0, 0, false) && r.src.remainder == [x] + rest
  {
    NumberAfterWhole(s, false, ds, x, rest);
    var w := TrimLeftExpectChar(s, '-').src.(remainder := [x] + rest);
    PlainTail(w, Decimal(0, ds), false, x, rest);
  }
}
