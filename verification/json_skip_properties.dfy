/**
 * Properties of the depth-bounded skippers of components/immjson/immjson.c
 * (json_ignore_any, json_ignore_object, json_ignore_array), stated about
 * the reference semantics in JsonSkip.
 */
module JsonSkipProperties {
  import opened Wrappers
  import opened JsonTypes
  import opened JsonLexer
  import opened JsonValues
  import opened JsonSkip
  import opened JsonProperties
  import opened JsonStructure

  /**
   * A value that starts with '9' is refused by json_ignore_any, at any
   * depth, and nothing after the leading whitespace is consumed.
   */
  lemma NineNotSkipped(s: Source, maxDepth: nat, ws: seq<char>, rest: seq<char>)
    requires s.remainder == ws + ['9'] + rest && AllWhitespace(ws)
    ensures var r := IgnoreAny(s, maxDepth);
            !r.ok && (maxDepth > 0 ==> r.src.remainder == ['9'] + rest)
  {
    if maxDepth > 0 {
      TrimWithinSlice(s, ws, '9', rest, ' ');
    }
  }

  /** The same integer with a leading '1' to '8' is skipped, up to the byte after its digits. */
  lemma OtherDigitSkipped(s: Source, maxDepth: nat, ws: seq<char>, digits: seq<char>, x: char, rest: seq<char>)
    requires IntegerLiteral(digits) && DigitOf(digits[0]) < 9
    requires s.remainder == ws + (digits + [x] + rest) && AllWhitespace(ws) && maxDepth > 0
    requires DigitOf(x) > 9 && x != '.' && x != 'e' && x != 'E'
    ensures var r := IgnoreAny(s, maxDepth);
            r.ok && r.src.remainder == [x] + rest
  {
    var t := TrimLeftExpectChar(s, ' ').src;
    assert t.remainder == digits + [x] + rest by {
      DigitIsNotSeparator(digits[0]);
      assert s.remainder == ws + [digits[0]] + (digits[1..] + [x] + rest);
      TrimWithinSlice(s, ws, digits[0], digits[1..] + [x] + rest, ' ');
    }
    IntegerSkipped(t, maxDepth - 1, digits, x, rest);
  }

  /** After the whitespace: the integer is handed to json_expect_number, which reads all its digits. */
  lemma IntegerSkipped(t: Source, depth: nat, digits: seq<char>, x: char, rest: seq<char>)
    requires IntegerLiteral(digits) && DigitOf(digits[0]) < 9 && t.remainder == digits + [x] + rest
    requires DigitOf(x) > 9 && x != '.' && x != 'e' && x != 'E'
    ensures var r := IgnoreValue(t, depth);
            r.ok && r.src.remainder == [x] + rest
  {
    NumberDispatch(t, depth);
    IntegerText(t, false, digits, x, rest);
  }

  /** json_ignore_any hands a value that starts with '0' to '8' to json_expect_number. */
  lemma NumberDispatch(t: Source, depth: nat)
    requires t.remainder != [] && DigitOf(t.remainder[0]) < 9
    ensures IgnoreValue(t, depth) == Step(ExpectNumber(t).ok, ExpectNumber(t).src)
  {
    var c := t.remainder[0];
    assert c != 't' && c != 'f' && c != 'n' && c != '"' && c != '{' && c != '[';
    assert StartsNumberToIgnore(c);
  }

  /** `n` arrays nested in each other, the innermost empty: "[]", "[[]]", ... */
  function Nest(n: nat): (r: seq<char>)
    requires n >= 1
    ensures |r| == 2 * n && r[0] == '['
  {
    if n == 1 then ['[', ']'] else ['['] + Nest(n - 1) + [']']
  }

  /**
   * Every level of nesting costs two units of depth: `n` nested arrays
   * are skipped exactly when `maxDepth` is at least `2 * n`, so the depth
   * 16 the deserialiser passes skips at most 8 levels.
   */
  lemma {:induction false} NestedArrays(s: Source, maxDepth: nat, n: nat, rest: seq<char>)
    requires n >= 1 && s.remainder == Nest(n) + rest
    ensures var r := IgnoreAny(s, maxDepth);
            r.ok == (maxDepth >= 2 * n) && (r.ok ==> r.src.remainder == rest)
    decreases n, 1
  {
    var inner := Nest(n)[1..] + rest;
    assert s.remainder == ['['] + inner;
    if maxDepth > 0 {
      ArrayDispatch(s, maxDepth, inner);
      if maxDepth > 1 {
        ArrayBody(s.(remainder := inner), maxDepth - 2, n, rest);
      }
    }
  }

  /** What follows the '[' of `n` nested arrays: the arrays inside it, then its ']'. */
  lemma {:induction false} ArrayBody(s: Source, depth: nat, n: nat, rest: seq<char>)
    requires n >= 1 && s.remainder == Nest(n)[1..] + rest
    ensures var r := ArrayItems(s, depth);
            r.ok == (depth + 2 >= 2 * n) && (r.ok ==> r.src.remainder == rest)
    decreases n, 0
  {
    if n == 1 {
      var none: seq<char> := [];
      assert s.remainder == none + [']'] + rest;
      TrimWithinSlice(s, none, ']', rest, ']');
    } else {
      assert s.remainder == Nest(n - 1) + [']'] + rest;
      Level(s, depth, n - 1, rest);
    }
  }

  /** json_ignore_any hands a value that starts with '[' to json_ignore_array, which consumes the '['. */
  lemma ArrayDispatch(s: Source, maxDepth: nat, inner: seq<char>)
    requires s.remainder == ['['] + inner && maxDepth > 0
    ensures IgnoreAny(s, maxDepth) == IgnoreArray(s, maxDepth - 1)
    ensures maxDepth > 1 ==> IgnoreArray(s, maxDepth - 1) == ArrayItems(s.(remainder := inner), maxDepth - 2)
  {
    assert TrimLeftExpectChar(s, ' ') == Step(false, s);
    assert TrimLeftExpectChar(s, '[') == Step(true, s.(remainder := inner));
  }

  /** Inside one array: the n nested arrays it holds, then its ']'. */
  lemma {:induction false} Level(s: Source, depth: nat, n: nat, rest: seq<char>)
    requires n >= 1 && s.remainder == Nest(n) + [']'] + rest
    ensures var r := ArrayItems(s, depth);
            r.ok == (depth >= 2 * n) && (r.ok ==> r.src.remainder == rest)
    decreases n, 2
  {
    var close := TrimLeftExpectChar(s, ']');
    LevelOpened(s, depth, n, rest);
    NestedArrays(close.src, depth, n, [']'] + rest);
    LastItemCloses(close.src, depth, rest);
  }

  /** A nested array, not ']', comes first: the item loop starts on it. */
  lemma LevelOpened(s: Source, depth: nat, n: nat, rest: seq<char>)
    requires n >= 1 && s.remainder == Nest(n) + [']'] + rest
    ensures var close := TrimLeftExpectChar(s, ']');
            close.src.remainder == Nest(n) + [']'] + rest && ArrayItems(s, depth) == IgnoreItems(close.src, depth)
  {
    var none: seq<char> := [];
    var after := [']'] + rest;
    assert s.remainder == none + ['['] + (Nest(n)[1..] + after);
    TrimWithinSlice(s, none, '[', Nest(n)[1..] + after, ']');
  }

  /** One item followed directly by ']': the loop ends with the item's result, the ']' consumed. */
  lemma LastItemCloses(t: Source, depth: nat, rest: seq<char>)
    requires var item := IgnoreAny(t, depth); item.ok ==> item.src.remainder == [']'] + rest
    ensures var item := IgnoreAny(t, depth);
            var r := IgnoreItems(t, depth);
            r.ok == item.ok && (r.ok ==> r.src.remainder == rest)
  {
    var item := IgnoreAny(t, depth);
    if item.ok {
      var none: seq<char> := [];
      TrimWithinSlice(item.src, none, ']', rest, ',');
      var comma := TrimLeftExpectChar(item.src, ',');
      var end := ReadExpectChar(comma.src, ']');
      assert IgnoreItems(t, depth) == Step(end.ok, end.src);
    }
  }

  /* Literals */

  /** The whitespace json_ignore_any trims before it peeks. */
  lemma PeekAfterWhitespace(s: Source, ws: seq<char>, x: char, rest: seq<char>)
    requires s.remainder == ws + [x] + rest && AllWhitespace(ws) && !IsWhitespace(x)
    ensures var t := TrimLeftExpectChar(s, ' ').src;
            t.remainder == [x] + rest && t.next == s.next && t.buffer == s.buffer
  {
    TrimWithinSlice(s, ws, x, rest, ' ');
  }

  /** "true" is skipped by json_ignore_any at any non-zero depth. */
  lemma TrueSkipped(s: Source, maxDepth: nat, ws: seq<char>, rest: seq<char>)
    requires s.remainder == ws + "true" + rest && AllWhitespace(ws) && maxDepth > 0
    ensures var r := IgnoreAny(s, maxDepth);
            r.ok && r.src.remainder == rest && r.src.buffer == s.buffer
  {
    assert s.remainder == ws + ['t'] + ("rue" + rest);
    PeekAfterWhitespace(s, ws, 't', "rue" + rest);
    var t := TrimLeftExpectChar(s, ' ').src;
    assert t.remainder == "true" + rest;
    TrueAccepted(t, rest);
  }

  /**
   * "false" in the last slice of the stream is refused by json_ignore_any,
   * because json_expect_bool drops it while trying "true".
   */
  lemma FalseNotSkipped(s: Source, maxDepth: nat, ws: seq<char>, rest: seq<char>)
    requires s.remainder == ws + "false" + rest && AllWhitespace(ws) && s.next >= |s.reader.slices|
    ensures !IgnoreAny(s, maxDepth).ok
  {
    if maxDepth > 0 {
      assert s.remainder == ws + ['f'] + ("alse" + rest);
      PeekAfterWhitespace(s, ws, 'f', "alse" + rest);
      var t := TrimLeftExpectChar(s, ' ').src;
      assert t.remainder == "false" + rest;
      assert t.remainder == [] + "false" + rest;
      FalseAfterTrueAttempt(t, [], rest);
    }
  }

  /** "null" is skipped by json_ignore_any at any non-zero depth. */
  lemma NullSkipped(s: Source, maxDepth: nat, ws: seq<char>, rest: seq<char>)
    requires s.remainder == ws + "null" + rest && AllWhitespace(ws) && maxDepth > 0
    ensures var r := IgnoreAny(s, maxDepth);
            r.ok && r.src.remainder == rest
  {
    assert s.remainder == ws + ['n'] + ("ull" + rest);
    PeekAfterWhitespace(s, ws, 'n', "ull" + rest);
    var t := TrimLeftExpectChar(s, ' ').src;
    var none: seq<char> := [];
    assert t.remainder == none + "null" + rest;
    NullAccepted(t, none, rest);
  }

  /**
   * A string without escapes is skipped by json_ignore_any, at any
   * non-zero depth, exactly when the allocator grants its length plus the
   * closing quote.
   */
  lemma StringSkipped(s: Source, maxDepth: nat, ws: seq<char>, body: seq<char>, rest: seq<char>)
    requires s.remainder == ws + ['"'] + body + ['"'] + rest && AllWhitespace(ws) && NoDelimiter(body)
    requires s.buffer == ReleasedBuffer(s.buffer.heapLimit) && maxDepth > 0
    ensures var r := IgnoreAny(s, maxDepth);
            r.ok == (|body| + 1 <= s.buffer.heapLimit) && (r.ok ==> r.src.remainder == rest)
  {
    assert s.remainder == ws + ['"'] + (body + ['"'] + rest);
    PeekAfterWhitespace(s, ws, '"', body + ['"'] + rest);
    var t := TrimLeftExpectChar(s, ' ').src;
    assert t.remainder == ['"'] + body + ['"'] + rest;
    PlainString(t, body, rest);
    var str := ExpectString(t);
    assert IgnoreValue(t, maxDepth - 1) == Step(str.ok, str.src);
  }

  /* Key search */

  /**
   * json_skip_to_key stops at the key it seeks, positioned at its value,
   * with the buffer released.
   */
  lemma SkipFindsKey(s: Source, maxDepth: nat, comma: bool, ws1: seq<char>, ws2: seq<char>, body: seq<char>, ws3: seq<char>, rest: seq<char>)
    requires s.remainder == Lead(ws1, comma, ws2) + ['"'] + body + ['"'] + ws3 + [':'] + rest
    requires AllWhitespace(ws1) && AllWhitespace(ws2) && AllWhitespace(ws3) && NoDelimiter(body)
    requires s.buffer == ReleasedBuffer(s.buffer.heapLimit) && |body| + 1 <= s.buffer.heapLimit
    ensures var r := SkipToKey(s, maxDepth, Some(body));
            r.ok && r.src.remainder == rest && r.src.buffer == s.buffer
  {
    KeyRead(s, comma, ws1, ws2, body, ws3, ':', rest);
  }

  /**
   * Where no further key can be read, json_skip_to_key succeeds exactly
   * when no key is sought (the end of the members of an object), leaving
   * the byte that stopped it unread.
   */
  lemma SkipRunsOut(s: Source, maxDepth: nat, key: Option<seq<char>>, comma: bool, ws1: seq<char>, ws2: seq<char>, x: char, rest: seq<char>)
    requires s.remainder == Lead(ws1, comma, ws2) + [x] + rest
    requires AllWhitespace(ws1) && AllWhitespace(ws2) && !IsWhitespace(x) && x != ',' && x != '"'
    ensures var r := SkipToKey(s, maxDepth, key);
            r.ok == key.None? && r.src.remainder == [x] + rest && r.src.buffer == s.buffer
  {
    NoKey(s, comma, ws1, ws2, x, rest);
  }

  /**
   * Another key: json_skip_to_key skips its value and goes on after it;
   * a value that cannot be skipped ends the search with a failure.
   */
  lemma SkipPassesMember(s: Source, maxDepth: nat, key: Option<seq<char>>, comma: bool, ws1: seq<char>, ws2: seq<char>, body: seq<char>, ws3: seq<char>, rest: seq<char>)
    requires s.remainder == Lead(ws1, comma, ws2) + ['"'] + body + ['"'] + ws3 + [':'] + rest
    requires AllWhitespace(ws1) && AllWhitespace(ws2) && AllWhitespace(ws3) && NoDelimiter(body)
    requires s.buffer == ReleasedBuffer(s.buffer.heapLimit) && |body| + 1 <= s.buffer.heapLimit
    requires key != Some(body)
    ensures var k := NextKey(s);
            var v := IgnoreAny(k.src, maxDepth);
            k.src.remainder == rest && k.src.buffer == s.buffer
            && SkipToKey(s, maxDepth, key) == if v.ok then SkipToKey(v.src, maxDepth, key) else Step(false, v.src)
  {
    KeyRead(s, comma, ws1, ws2, body, ws3, ':', rest);
  }

  /* Objects */

  /** `n` objects nested in each other under the key "a", the innermost empty: "{}", "{\"a\":{}}", ... */
  function ObjectNest(n: nat): (r: seq<char>)
    requires n >= 1
    ensures |r| == 6 * n - 4 && r[0] == '{'
  {
    if n == 1 then ['{', '}'] else ['{', '"', 'a', '"', ':'] + ObjectNest(n - 1) + ['}']
  }

  /** json_ignore_any hands a value that starts with '{' to json_ignore_object, which consumes the '{'. */
  lemma ObjectDispatch(s: Source, maxDepth: nat, inner: seq<char>)
    requires s.remainder == ['{'] + inner && maxDepth > 0
    ensures IgnoreAny(s, maxDepth) == IgnoreObject(s, maxDepth - 1)
    ensures maxDepth > 1 ==> IgnoreObject(s, maxDepth - 1) == ObjectMembers(s.(remainder := inner), maxDepth - 2)
  {
    assert TrimLeftExpectChar(s, ' ') == Step(false, s);
    assert TrimLeftExpectChar(s, '{') == Step(true, s.(remainder := inner));
  }

  /**
   * Objects cost depth like arrays: `n` nested objects are skipped exactly
   * when `maxDepth` is at least `2 * n`, leaving the buffer released.
   */
  lemma {:induction false} NestedObjects(s: Source, maxDepth: nat, n: nat, rest: seq<char>)
    requires n >= 1 && s.remainder == ObjectNest(n) + rest
    requires s.buffer == ReleasedBuffer(s.buffer.heapLimit) && 2 <= s.buffer.heapLimit
    ensures var r := IgnoreAny(s, maxDepth);
            r.ok == (maxDepth >= 2 * n) && (r.ok ==> r.src.remainder == rest && r.src.buffer == s.buffer)
    decreases n, 1
  {
    var inner := ObjectNest(n)[1..] + rest;
    assert s.remainder == ['{'] + inner;
    if maxDepth > 0 {
      ObjectDispatch(s, maxDepth, inner);
      if maxDepth > 1 {
        ObjectBody(s.(remainder := inner), maxDepth - 2, n, rest);
      }
    }
  }

  /** What follows the '{' of `n` nested objects: the member holding the objects inside it, then its '}'. */
  lemma {:induction false} ObjectBody(s: Source, depth: nat, n: nat, rest: seq<char>)
    requires n >= 1 && s.remainder == ObjectNest(n)[1..] + rest
    requires s.buffer == ReleasedBuffer(s.buffer.heapLimit) && 2 <= s.buffer.heapLimit
    ensures var r := ObjectMembers(s, depth);
            r.ok == (depth + 2 >= 2 * n) && (r.ok ==> r.src.remainder == rest && r.src.buffer == s.buffer)
    decreases n, 0
  {
    var none: seq<char> := [];
    if n == 1 {
      assert s.remainder == none + ['}'] + rest;
      TrimWithinSlice(s, none, '}', rest, '}');
    } else {
      assert s.remainder == ['"', 'a', '"', ':'] + ObjectNest(n - 1) + ['}'] + rest;
      ObjectLevel(s, depth, n - 1, rest);
    }
  }

  /** Inside one object: the key "a", the n nested objects it holds, then the '}'. */
  lemma {:induction false} ObjectLevel(s: Source, depth: nat, n: nat, rest: seq<char>)
    requires n >= 1 && s.remainder == ['"', 'a', '"', ':'] + ObjectNest(n) + ['}'] + rest
    requires s.buffer == ReleasedBuffer(s.buffer.heapLimit) && 2 <= s.buffer.heapLimit
    ensures var r := ObjectMembers(s, depth);
            r.ok == (depth >= 2 * n) && (r.ok ==> r.src.remainder == rest && r.src.buffer == s.buffer)
    decreases n, 2
  {
    var after := ['}'] + rest;
    KeyedMember(s, depth, ObjectNest(n) + after);
    var k := NextKey(s);
    NestedObjects(k.src, depth, n, after);
    var v := IgnoreAny(k.src, depth);
    if v.ok {
      assert SkipToKey(s, depth, None) == SkipToKey(v.src, depth, None);
      MembersEnd(v.src, depth, rest);
    }
  }

  /**
   * A member `"a":` in front of a value, with no '}' first: the key is read
   * and the value handed to json_ignore_any.
   */
  lemma KeyedMember(s: Source, depth: nat, value: seq<char>)
    requires s.remainder == ['"', 'a', '"', ':'] + value
    requires s.buffer == ReleasedBuffer(s.buffer.heapLimit) && 2 <= s.buffer.heapLimit
    ensures TrimLeftExpectChar(s, '}') == Step(false, s)
    ensures var k := NextKey(s);
            var v := IgnoreAny(k.src, depth);
            k.src.remainder == value && k.src.buffer == s.buffer
            && SkipMember(s, depth, None) == if v.ok then SkipOn(v.src) else SkipDone(Step(false, v.src))
  {
    var none: seq<char> := [];
    assert s.remainder == none + ['"'] + (['a', '"', ':'] + value);
    TrimWithinSlice(s, none, '"', ['a', '"', ':'] + value, '}');
    KeyA(s, value);
  }

  /** json_next_key on `"a":`: the key "a", positioned at the value. */
  lemma KeyA(s: Source, value: seq<char>)
    requires s.remainder == ['"', 'a', '"', ':'] + value
    requires s.buffer == ReleasedBuffer(s.buffer.heapLimit) && 2 <= s.buffer.heapLimit
    ensures var k := NextKey(s);
            k.key == Some(['a']) && k.src.remainder == value && k.src.buffer == s.buffer
  {
    var none: seq<char> := [];
    assert s.remainder == Lead(none, false, none) + ['"'] + ['a'] + ['"'] + none + [':'] + value;
    KeyRead(s, false, none, none, ['a'], none, ':', value);
  }

  /** After the last member, json_skip_to_key finds no key and the '}' closes the object. */
  lemma MembersEnd(s: Source, depth: nat, rest: seq<char>)
    requires s.remainder == ['}'] + rest
    ensures var members := SkipToKey(s, depth, None);
            var end := ReadExpectChar(members.src, '}');
            members.ok && end.ok && end.src.remainder == rest && end.src.buffer == s.buffer
  {
    var none: seq<char> := [];
    assert s.remainder == Lead(none, false, none) + ['}'] + rest;
    NoKey(s, false, none, none, '}', rest);
    assert SkipMember(s, depth, None) == SkipDone(Step(true, NextKey(s).src));
  }

  /* Arrays of integers */

  /** The integers json_ignore_any hands to json_expect_number: not starting with '9'. */
  predicate SkippableIntegers(items: seq<seq<char>>) {
    items != [] && forall k :: 0 <= k < |items| ==> IntegerLiteral(items[k]) && DigitOf(items[k][0]) < 9
  }

  /**
   * The item loop of json_ignore_array over integers separated by ','
   * and closed by ']': skipped whole at any non-zero depth, and refused
   * at depth 0.
   */
  lemma {:induction false} IntegerItemsSkipped(s: Source, depth: nat, items: seq<seq<char>>, rest: seq<char>)
    requires SkippableIntegers(items) && s.remainder == Joined(items) + [']'] + rest
    ensures var r := IgnoreItems(s, depth);
            r.ok == (depth > 0) && (r.ok ==> r.src.remainder == rest)
    decreases |items|
  {
    if depth > 0 {
      var item := FirstIntegerSkipped(s, depth, items, rest);
      var none: seq<char> := [];
      if |items| == 1 {
        TrimWithinSlice(item.src, none, ']', rest, ',');
      } else {
        var tail := Joined(items[1..]) + [']'] + rest;
        TrimWithinSlice(item.src, none, ',', tail, ',');
        IntegerItemsSkipped(TrimLeftExpectChar(item.src, ',').src, depth, items[1..], rest);
      }
    }
  }

  /** json_ignore_any on the first integer of the items: skipped up to the ',' or ']' after it. */
  lemma FirstIntegerSkipped(s: Source, depth: nat, items: seq<seq<char>>, rest: seq<char>) returns (item: Step)
    requires SkippableIntegers(items) && s.remainder == Joined(items) + [']'] + rest && depth > 0
    ensures item == IgnoreAny(s, depth) && item.ok
    ensures |items| == 1 ==> item.src.remainder == [']'] + rest
    ensures |items| > 1 ==> item.src.remainder == [','] + (Joined(items[1..]) + [']'] + rest)
                            && SkippableIntegers(items[1..])
  {
    var none: seq<char> := [];
    var first := items[0];
    assert IntegerLiteral(first) && DigitOf(first[0]) < 9;
    SeparatorsAreNotDigits();
    var x := if |items| == 1 then ']' else ',';
    var tail := if |items| == 1 then rest else Joined(items[1..]) + [']'] + rest;
    assert s.remainder == none + (first + [x] + tail);
    OtherDigitSkipped(s, depth, none, first, x, tail);
    item := IgnoreAny(s, depth);
    if |items| > 1 {
      assert SkippableIntegers(items[1..]) by {
        forall k | 0 <= k < |items[1..]|
          ensures IntegerLiteral(items[1..][k]) && DigitOf(items[1..][k][0]) < 9
        {
          assert items[1..][k] == items[k + 1];
        }
      }
    }
  }

  /**
   * A flat array of integers costs three units of depth: one for
   * json_ignore_any on the array, one for json_ignore_array and one for
   * json_ignore_any on each item.
   */
  lemma FlatIntegerArray(s: Source, maxDepth: nat, items: seq<seq<char>>, rest: seq<char>)
    requires SkippableIntegers(items) && s.remainder == ['['] + Joined(items) + [']'] + rest
    ensures var r := IgnoreAny(s, maxDepth);
            r.ok == (maxDepth >= 3) && (r.ok ==> r.src.remainder == rest)
  {
    var inner := Joined(items) + [']'] + rest;
    assert s.remainder == ['['] + inner;
    if maxDepth > 0 {
      ArrayDispatch(s, maxDepth, inner);
      if maxDepth > 1 {
        FlatItems(s.(remainder := inner), maxDepth - 2, items, rest);
      }
    }
  }

  /** The body of a flat integer array after its '[': skipped whole exactly at a non-zero depth. */
  lemma FlatItems(t: Source, depth: nat, items: seq<seq<char>>, rest: seq<char>)
    requires SkippableIntegers(items) && t.remainder == Joined(items) + [']'] + rest
    ensures var r := ArrayItems(t, depth);
            r.ok == (depth > 0) && (r.ok ==> r.src.remainder == rest)
  {
    ItemsAfterBracket(t, depth, items, rest);
    IntegerItemsSkipped(t, depth, items, rest);
  }

  /** A first item that is a digit is not the ']' of an empty array. */
  lemma ItemsAfterBracket(t: Source, depth: nat, items: seq<seq<char>>, rest: seq<char>)
    requires SkippableIntegers(items) && t.remainder == Joined(items) + [']'] + rest
    ensures ArrayItems(t, depth) == IgnoreItems(t, depth)
  {
    var none: seq<char> := [];
    var first := items[0];
    assert IntegerLiteral(first);
    JoinedStarts(items);
    DigitIsNotSeparator(first[0]);
    assert t.remainder == none + [first[0]] + t.remainder[1..];
    TrimWithinSlice(t, none, first[0], t.remainder[1..], ']');
    assert TrimLeftExpectChar(t, ']') == Step(false, t);
  }
}
