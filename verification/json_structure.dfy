/**
 * What the structural helpers of components/immjson/immjson.c
 * (json_next_key, json_begin_array, json_array_next) do on concrete
 * shapes of input within one slice, stated about the reference semantics
 * in JsonValues.
 */
module JsonStructure {
  import opened Wrappers
  import opened JsonTypes
  import opened JsonLexer
  import opened JsonValues
  import opened JsonProperties

  /** What may come before a key: whitespace, or whitespace, a ',' and whitespace. */
  function Lead(ws1: seq<char>, comma: bool, ws2: seq<char>): seq<char> {
    if comma then ws1 + [','] + ws2 else ws1
  }

  /**
   * A string without escapes after whitespace, in one slice, read into the
   * released buffer: accepted when the allocator grants its length plus
   * the closing quote, and the buffer released again.
   */
  lemma StringAfterWhitespace(s: Source, ws: seq<char>, body: seq<char>, rest: seq<char>)
    requires s.remainder == ws + ['"'] + body + ['"'] + rest && AllWhitespace(ws) && NoDelimiter(body)
    requires s.buffer == ReleasedBuffer(s.buffer.heapLimit)
    ensures var r := ExpectString(s);
            r.ok == (|body| + 1 <= s.buffer.heapLimit)
            && (r.ok ==> r.str == body && r.src.remainder == rest && r.src.buffer == s.buffer)
  {
    assert s.remainder == ws + ['"'] + (body + ['"'] + rest);
    TrimWithinSlice(s, ws, '"', body + ['"'] + rest, '"');
    var t := TrimLeftExpectChar(s, '"').src;
    ClosingChunk(t.(buffer := t.buffer.(content := [])), body, rest);
  }

  /** The key itself: after the lead, a string and whitespace. */
  lemma KeyString(s: Source, comma: bool, ws1: seq<char>, ws2: seq<char>, body: seq<char>, tail: seq<char>)
    requires s.remainder == Lead(ws1, comma, ws2) + ['"'] + body + ['"'] + tail
    requires AllWhitespace(ws1) && AllWhitespace(ws2) && NoDelimiter(body)
    requires s.buffer == ReleasedBuffer(s.buffer.heapLimit)
    ensures var k := ExpectString(TrimLeftExpectChar(s, ',').src);
            k.ok == (|body| + 1 <= s.buffer.heapLimit)
            && (k.ok ==> k.str == body && k.src.remainder == tail && k.src.buffer == s.buffer)
  {
    var after := body + ['"'] + tail;
    if comma {
      assert s.remainder == ws1 + [','] + (ws2 + ['"'] + after);
      CommaThenString(s, ws1, ws2, body, tail);
    } else {
      assert s.remainder == ws1 + ['"'] + after;
      BareString(s, ws1, body, tail);
    }
  }

  lemma CommaThenString(s: Source, ws1: seq<char>, ws2: seq<char>, body: seq<char>, tail: seq<char>)
    requires s.remainder == ws1 + [','] + (ws2 + ['"'] + (body + ['"'] + tail))
    requires AllWhitespace(ws1) && AllWhitespace(ws2) && NoDelimiter(body)
    requires s.buffer == ReleasedBuffer(s.buffer.heapLimit)
    ensures var k := ExpectString(TrimLeftExpectChar(s, ',').src);
            k.ok == (|body| + 1 <= s.buffer.heapLimit)
            && (k.ok ==> k.str == body && k.src.remainder == tail && k.src.buffer == s.buffer)
  {
    TrimWithinSlice(s, ws1, ',', ws2 + ['"'] + (body + ['"'] + tail), ',');
    var t := TrimLeftExpectChar(s, ',').src;
    assert t.remainder == ws2 + ['"'] + body + ['"'] + tail;
    StringAfterWhitespace(t, ws2, body, tail);
  }

  lemma BareString(s: Source, ws1: seq<char>, body: seq<char>, tail: seq<char>)
    requires s.remainder == ws1 + ['"'] + (body + ['"'] + tail)
    requires AllWhitespace(ws1) && NoDelimiter(body)
    requires s.buffer == ReleasedBuffer(s.buffer.heapLimit)
    ensures var k := ExpectString(TrimLeftExpectChar(s, ',').src);
            k.ok == (|body| + 1 <= s.buffer.heapLimit)
            && (k.ok ==> k.str == body && k.src.remainder == tail && k.src.buffer == s.buffer)
  {
    TrimWithinSlice(s, ws1, '"', body + ['"'] + tail, ',');
    var t := TrimLeftExpectChar(s, ',').src;
    var none: seq<char> := [];
    assert t.remainder == none + ['"'] + body + ['"'] + tail;
    StringAfterWhitespace(t, none, body, tail);
  }

  /**
   * json_next_key on `,? "key" :` in one slice: the key is handed out when
   * the allocator grants it and a ':' follows it; otherwise NULL.  When the
   * string was read, whatever follows is left as the value (after the ':')
   * or unread (any other byte).
   */
  lemma KeyRead(s: Source, comma: bool, ws1: seq<char>, ws2: seq<char>, body: seq<char>, ws3: seq<char>, y: char, rest: seq<char>)
    requires s.remainder == Lead(ws1, comma, ws2) + ['"'] + body + ['"'] + ws3 + [y] + rest
    requires AllWhitespace(ws1) && AllWhitespace(ws2) && AllWhitespace(ws3) && !IsWhitespace(y) && NoDelimiter(body)
    requires s.buffer == ReleasedBuffer(s.buffer.heapLimit)
    ensures var r := NextKey(s);
            r.key == (if |body| + 1 <= s.buffer.heapLimit && y == ':' then Some(body) else None)
            && (|body| + 1 <= s.buffer.heapLimit ==>
                  r.src.remainder == (if y == ':' then rest else [y] + rest) && r.src.buffer == s.buffer)
  {
    var tail := ws3 + [y] + rest;
    assert s.remainder == Lead(ws1, comma, ws2) + ['"'] + body + ['"'] + tail;
    KeyString(s, comma, ws1, ws2, body, tail);
    var k := ExpectString(TrimLeftExpectChar(s, ',').src);
    if k.ok {
      TrimWithinSlice(k.src, ws3, y, rest, ':');
    }
  }

  /**
   * json_next_key where no string follows (a '}', say): NULL, with that
   * byte left unread after the optional ',' and the buffer untouched.
   */
  lemma NoKey(s: Source, comma: bool, ws1: seq<char>, ws2: seq<char>, x: char, rest: seq<char>)
    requires s.remainder == Lead(ws1, comma, ws2) + [x] + rest
    requires AllWhitespace(ws1) && AllWhitespace(ws2) && !IsWhitespace(x) && x != ',' && x != '"'
    ensures var r := NextKey(s);
            r.key.None? && r.src.remainder == [x] + rest && r.src.buffer == s.buffer
  {
    var t := TrimLeftExpectChar(s, ',').src;
    if comma {
      assert s.remainder == ws1 + [','] + (ws2 + [x] + rest);
      TrimWithinSlice(s, ws1, ',', ws2 + [x] + rest, ',');
      assert t.remainder == ws2 + [x] + rest;
      TrimWithinSlice(t, ws2, x, rest, '"');
    } else {
      TrimWithinSlice(s, ws1, x, rest, ',');
      var none: seq<char> := [];
      assert t.remainder == none + [x] + rest;
      TrimWithinSlice(t, none, x, rest, '"');
    }
    assert !TrimLeftExpectChar(t, '"').ok;
  }

  /**
   * json_begin_array on '[' in one slice: true unless the next significant
   * byte is ']', which is then consumed too; any other byte is left for
   * the first item.
   */
  lemma ArrayOpened(s: Source, ws1: seq<char>, ws2: seq<char>, y: char, rest: seq<char>)
    requires s.remainder == ws1 + ['['] + ws2 + [y] + rest
    requires AllWhitespace(ws1) && AllWhitespace(ws2) && !IsWhitespace(y)
    ensures var r := BeginArray(s);
            r.ok == (y != ']') && r.src.remainder == (if y == ']' then rest else [y] + rest)
  {
    assert s.remainder == ws1 + ['['] + (ws2 + [y] + rest);
    TrimWithinSlice(s, ws1, '[', ws2 + [y] + rest, '[');
    TrimWithinSlice(TrimLeftExpectChar(s, '[').src, ws2, y, rest, ']');
  }

  /** json_begin_array on any other byte: false, with that byte left unread. */
  lemma NotAnArray(s: Source, ws: seq<char>, x: char, rest: seq<char>)
    requires s.remainder == ws + [x] + rest && AllWhitespace(ws) && !IsWhitespace(x) && x != '['
    ensures var r := BeginArray(s);
            !r.ok && r.src.remainder == [x] + rest
  {
    TrimWithinSlice(s, ws, x, rest, '[');
  }

  /**
   * json_array_next in one slice: true exactly after a ','; a ']' is
   * consumed with false, and any other byte is left unread with false.
   */
  lemma ArrayNextCases(s: Source, ws: seq<char>, x: char, rest: seq<char>)
    requires s.remainder == ws + [x] + rest && AllWhitespace(ws) && !IsWhitespace(x)
    ensures var r := ArrayNext(s);
            r.ok == (x == ',') && r.src.remainder == (if x == ',' || x == ']' then rest else [x] + rest)
  {
    TrimWithinSlice(s, ws, x, rest, ',');
    var t := TrimLeftExpectChar(s, ',').src;
    if x != ',' {
      assert t.remainder == [x] + rest && t.remainder[1..] == rest;
    }
  }
}
