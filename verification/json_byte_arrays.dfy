/**
 * json_deserialize_array of components/immjson/immjson.c on arrays of
 * uint8_t written as decimal literals: every item is stored as one byte
 * at the slot the reserve callback returns for it.
 */
module JsonByteArrays {
  import opened Wrappers
  import opened JsonTypes
  import opened JsonLexer
  import opened JsonValues
  import opened JsonDeserialize
  import opened JsonProperties
  import opened JsonWalk
  import JsonIntegers

  /** Each item is the decimal literal, without sign, fraction or exponent, of the byte at its index. */
  predicate ByteLiterals(items: seq<seq<char>>, values: seq<Byte>) {
    |items| == |values| && forall k :: 0 <= k < |items| ==> WholeLiteral(items[k]) && values[k] == Decimal(0, items[k])
  }

  /** The literals after the first spell the values after the first. */
  lemma ByteLiteralsStep(items: seq<seq<char>>, values: seq<Byte>)
    requires items != [] && ByteLiterals(items, values)
    ensures WholeLiteral(items[0]) && values[0] == Decimal(0, items[0]) && ByteLiterals(items[1..], values[1..])
  {
    var more := items[1..];
    forall k | 0 <= k < |more| ensures WholeLiteral(more[k]) && values[1..][k] == Decimal(0, more[k]) {
      assert more[k] == items[k + 1];
    }
  }

  /** One uint8_t item followed by ',' or ']': stored as one byte at the slot. */
  lemma ByteItem(src: Source, mem: Memory, slot: int, tag: int, val: JsonValue, first: seq<char>, v: Byte, x: char, tail: seq<char>)
    requires tag == KindInteger && val == IntegerSpec(false, CharBits)
    requires src.remainder == first + [x] + tail && WholeLiteral(first) && v == Decimal(0, first)
    requires x == ',' || x == ']'
    ensures ValidValue(tag, val)
    ensures var item := Deserialize(src, mem, slot, tag, val);
            var comma := TrimLeftExpectChar(item.src, ',');
            item.ok && item.mem == mem.(bytes := mem.bytes[slot := v])
            && comma.ok == (x == ',') && comma.src.remainder == (if x == ',' then tail else [x] + tail)
  {
    ByteStored(src, mem, slot, first, x, tail);
    WriteOneByte(mem.bytes, slot, v);
    CommaOrBracket(Deserialize(src, mem, slot, KindInteger, IntegerSpec(false, CharBits)).src, x, tail);
  }

  /** The item itself: the one byte at the slot, with the separator left unread. */
  lemma ByteStored(src: Source, mem: Memory, slot: int, first: seq<char>, x: char, tail: seq<char>)
    requires src.remainder == first + [x] + tail && WholeLiteral(first) && Decimal(0, first) < 256
    requires x == ',' || x == ']'
    ensures ValidValue(KindInteger, IntegerSpec(false, CharBits))
    ensures var item := Deserialize(src, mem, slot, KindInteger, IntegerSpec(false, CharBits));
            item.ok && item.mem == mem.(bytes := WriteBytes(mem.bytes, slot, [Decimal(0, first) as Byte]))
            && item.src.remainder == [x] + tail
  {
    var spec := IntegerSpec(false, CharBits);
    assert Deserialize(src, mem, slot, KindInteger, spec) == StoreInteger(src, mem, slot, false, CharBits);
    IntegerSlotStored(src, mem, slot, first, x, tail);
  }

  /** StoreInteger of the literal as a uint8_t. */
  lemma IntegerSlotStored(src: Source, mem: Memory, slot: int, first: seq<char>, x: char, tail: seq<char>)
    requires src.remainder == first + [x] + tail && WholeLiteral(first) && Decimal(0, first) < 256
    requires x == ',' || x == ']'
    ensures var stored := StoreInteger(src, mem, slot, false, CharBits);
            stored.ok && stored.mem == mem.(bytes := WriteBytes(mem.bytes, slot, [Decimal(0, first) as Byte]))
            && stored.src.remainder == [x] + tail
  {
    ByteInteger(src, first, x, tail);
  }

  /** The separator after an item: a ',' is consumed with true, a ']' left unread with false. */
  lemma CommaOrBracket(s: Source, x: char, tail: seq<char>)
    requires s.remainder == [x] + tail && (x == ',' || x == ']')
    ensures var comma := TrimLeftExpectChar(s, ',');
            comma.ok == (x == ',') && comma.src.remainder == (if x == ',' then tail else [x] + tail)
  {
    var none: seq<char> := [];
    assert s.remainder == none + [x] + tail;
    TrimWithinSlice(s, none, x, tail, ',');
  }

  /** json_expect_integer into a uint8_t on a literal below 256: its one byte. */
  lemma ByteInteger(src: Source, first: seq<char>, x: char, tail: seq<char>)
    requires src.remainder == first + [x] + tail && WholeLiteral(first) && Decimal(0, first) < 256
    requires x == ',' || x == ']'
    ensures var i := ExpectInteger(src, false, CharBits);
            i.ok && i.bytes == [Decimal(0, first) as Byte] && i.src.remainder == [x] + tail
  {
    SeparatorsAreNotDigits();
    WholeNumberText(src, first, x, tail);
    JsonIntegers.UnsignedByteStored(Decimal(0, first) as Byte);
  }

  /** The text of several items: the first, a ',' and the others. */
  lemma JoinedStep(items: seq<seq<char>>, rest: seq<char>)
    requires |items| > 1
    ensures Joined(items) + [']'] + rest == items[0] + [','] + (Joined(items[1..]) + [']'] + rest)
  {
  }

  /** A last uint8_t item, followed by ']', stores its byte. */
  lemma StoresLastByte(src: Source, mem: Memory, at: int, desc: ArrayDescription, first: seq<char>, v: Byte, rest: seq<char>)
    requires desc.itemTag == KindInteger && desc.itemVal == IntegerSpec(false, CharBits)
    requires src.remainder == first + [']'] + rest && WholeLiteral(first) && v == Decimal(0, first)
    ensures ValidValue(desc.itemTag, desc.itemVal)
    ensures StoresBytes(src, mem, at, desc, [v], rest)
  {
    ByteItem(src, mem, at, desc.itemTag, desc.itemVal, first, v, ']', rest);
  }

  /**
   * A uint8_t item followed by ',': the items after the ',' start with the
   * text after it, and when they store the other values the whole list
   * stores all of them.
   */
  lemma StoresMoreBytes(src: Source, mem: Memory, at: int, desc: ArrayDescription, first: seq<char>, values: seq<Byte>, tail: seq<char>, rest: seq<char>,
                        after: Source, stored: Memory, next: int)
    requires desc.itemTag == KindInteger && desc.itemVal == IntegerSpec(false, CharBits)
    requires src.remainder == first + [','] + tail && WholeLiteral(first) && |values| > 1 && values[0] == Decimal(0, first)
    requires after == TrimLeftExpectChar(Deserialize(src, mem, at, desc.itemTag, desc.itemVal).src, ',').src
    requires stored == mem.(bytes := mem.bytes[at := values[0]]) && next == at + desc.reserve.stride
    ensures after.remainder == tail
    ensures StoresBytes(after, stored, next, desc, values[1..], rest) ==> StoresBytes(src, mem, at, desc, values, rest)
  {
    ByteItem(src, mem, at, desc.itemTag, desc.itemVal, first, values[0], ',', tail);
    if StoresBytes(after, stored, next, desc, values[1..], rest) {
      StoresBytesCons(src, mem, at, desc, values, rest, after, stored, next);
    }
  }

  /** An item that stores the first value and is followed by ',' and items that store the others. */
  lemma StoresBytesCons(src: Source, mem: Memory, at: int, desc: ArrayDescription, values: seq<Byte>, rest: seq<char>, after: Source, stored: Memory, next: int)
    requires ValidValue(desc.itemTag, desc.itemVal) && |values| > 1
    requires var item := Deserialize(src, mem, at, desc.itemTag, desc.itemVal);
             item.ok && item.mem == stored && stored == mem.(bytes := mem.bytes[at := values[0]])
             && TrimLeftExpectChar(item.src, ',').ok && TrimLeftExpectChar(item.src, ',').src == after
    requires next == at + desc.reserve.stride && StoresBytes(after, stored, next, desc, values[1..], rest)
    ensures StoresBytes(src, mem, at, desc, values, rest)
  {
  }

  /** uint8_t literals separated by ',' and closed by ']' store their values. */
  lemma {:induction false} ByteTextStores(src: Source, mem: Memory, at: int, desc: ArrayDescription, items: seq<seq<char>>, values: seq<Byte>, rest: seq<char>)
    requires desc.itemTag == KindInteger && desc.itemVal == IntegerSpec(false, CharBits)
    requires items != [] && ByteLiterals(items, values)
    requires src.remainder == Joined(items) + [']'] + rest
    ensures ValidValue(desc.itemTag, desc.itemVal)
    ensures StoresBytes(src, mem, at, desc, values, rest)
    decreases |items|
  {
    ByteLiteralsStep(items, values);
    if |items| == 1 {
      assert src.remainder == items[0] + [']'] + rest;
      assert values == [values[0]];
      StoresLastByte(src, mem, at, desc, items[0], values[0], rest);
    } else {
      var tail := Joined(items[1..]) + [']'] + rest;
      JoinedStep(items, rest);
      var after := TrimLeftExpectChar(Deserialize(src, mem, at, desc.itemTag, desc.itemVal).src, ',').src;
      var stored := mem.(bytes := mem.bytes[at := values[0]]);
      var next := at + desc.reserve.stride;
      StoresMoreBytes(src, mem, at, desc, items[0], values, tail, rest, after, stored, next);
      ByteTextStores(after, stored, next, desc, items[1..], values[1..], rest);
    }
  }

  /**
   * A uint8_t array "[v0,...,vn]" with a slot for every item: the array is
   * accepted and item k is stored at the slot the reserve callback returns
   * for k.
   */
  lemma ByteArrayStored(src: Source, mem: Memory, out: int, desc: ArrayDescription, ws: seq<char>, items: seq<seq<char>>, values: seq<Byte>, rest: seq<char>)
    requires desc.itemTag == KindInteger && desc.itemVal == IntegerSpec(false, CharBits)
    requires items != [] && ByteLiterals(items, values) && |items| <= desc.reserve.capacity
    requires src.remainder == ws + ['['] + Joined(items) + [']'] + rest && AllWhitespace(ws)
    ensures ValidValue(desc.itemTag, desc.itemVal)
    ensures var r := DeserializeArray(src, mem, out, desc);
            r.ok && r.src.remainder == rest && r.mem == StoredBytes(mem, out, desc.reserve.stride, values)
  {
    BytesOpened(src, ws, items, values, rest);
    var open := TrimLeftExpectChar(src, '[');
    assert DeserializeArray(src, mem, out, desc) == DeserializeItems(open.src, mem, out, desc, 0);
    ByteTextStores(open.src, mem, out, desc, items, values, rest);
    StoresBytesAccepted(open.src, mem, out, desc, 0, out, values, rest);
  }

  /**
   * A uint8_t array "[v0,...,vn]" with more items than slots: the array
   * fails at the first item the reserve callback has no slot for, and the
   * items before it stay stored at their slots.
   */
  lemma ByteArrayOverflows(src: Source, mem: Memory, out: int, desc: ArrayDescription, ws: seq<char>, items: seq<seq<char>>, values: seq<Byte>, rest: seq<char>)
    requires desc.itemTag == KindInteger && desc.itemVal == IntegerSpec(false, CharBits)
    requires ByteLiterals(items, values) && desc.reserve.capacity < |items|
    requires src.remainder == ws + ['['] + Joined(items) + [']'] + rest && AllWhitespace(ws)
    ensures ValidValue(desc.itemTag, desc.itemVal)
    ensures var r := DeserializeArray(src, mem, out, desc);
            !r.ok && r.mem == StoredBytes(mem, out, desc.reserve.stride, values[..desc.reserve.capacity])
  {
    BytesOpened(src, ws, items, values, rest);
    var open := TrimLeftExpectChar(src, '[');
    assert DeserializeArray(src, mem, out, desc) == DeserializeItems(open.src, mem, out, desc, 0);
    FirstItemsFill(open.src, mem, out, desc, items, values, rest, desc.reserve.capacity);
    FillsBytesOverflow(open.src, mem, out, desc, 0, out, values[..desc.reserve.capacity]);
  }

  /** The first c of more than c uint8_t literals are each followed by ',', and fill c slots. */
  lemma FirstItemsFill(src: Source, mem: Memory, at: int, desc: ArrayDescription, items: seq<seq<char>>, values: seq<Byte>, rest: seq<char>, c: nat)
    requires desc.itemTag == KindInteger && desc.itemVal == IntegerSpec(false, CharBits)
    requires ByteLiterals(items, values) && c < |items|
    requires src.remainder == Joined(items) + [']'] + rest
    ensures ValidValue(desc.itemTag, desc.itemVal)
    ensures FillsBytes(src, mem, at, desc, values[..c])
  {
    if c > 0 {
      JoinedSplit(items, c);
      ByteLiteralsPrefix(items, values, c);
      ByteTextFills(src, mem, at, desc, items[..c], values[..c], Joined(items[c..]) + [']'] + rest);
    } else {
      assert values[..c] == [];
    }
  }

  /** The joined items, split after the first c of them. */
  lemma {:induction false} JoinedSplit(items: seq<seq<char>>, c: nat)
    requires 0 < c < |items|
    ensures Joined(items) == Joined(items[..c]) + [','] + Joined(items[c..])
    decreases c
  {
    if c > 1 {
      JoinedSplit(items[1..], c - 1);
      assert items[1..][..c - 1] == items[..c][1..];
      assert items[1..][c - 1..] == items[c..];
    }
  }

  /** The first c literals spell the first c values. */
  lemma ByteLiteralsPrefix(items: seq<seq<char>>, values: seq<Byte>, c: nat)
    requires ByteLiterals(items, values) && c <= |items|
    ensures ByteLiterals(items[..c], values[..c])
  {
    forall k | 0 <= k < c ensures WholeLiteral(items[..c][k]) && values[..c][k] == Decimal(0, items[..c][k]) {
      assert items[..c][k] == items[k];
    }
  }

  /**
   * From `src` on, items decode one after the other into the values, each
   * stored as one byte at its slot (the first at `at`, then `stride`
   * apart), and each followed by ','.
   */
  predicate FillsBytes(src: Source, mem: Memory, at: int, desc: ArrayDescription, values: seq<Byte>)
    requires ValidValue(desc.itemTag, desc.itemVal)
    decreases |values|
  {
    values == [] ||
    var item := Deserialize(src, mem, at, desc.itemTag, desc.itemVal);
    var comma := TrimLeftExpectChar(item.src, ',');
    item.ok && item.mem == mem.(bytes := mem.bytes[at := values[0]])
    && comma.ok && FillsBytes(comma.src, item.mem, at + desc.reserve.stride, desc, values[1..])
  }

  /**
   * The loop of json_deserialize_array from item i on, over items that
   * fill every slot left and are each followed by ',': it fails at the
   * item after them, which has no slot, with all of them stored.
   */
  lemma {:induction false} FillsBytesOverflow(src: Source, mem: Memory, out: int, desc: ArrayDescription, i: nat, at: int, values: seq<Byte>)
    requires ValidValue(desc.itemTag, desc.itemVal) && i + |values| == desc.reserve.capacity
    requires at == out + desc.reserve.stride * i
    requires FillsBytes(src, mem, at, desc, values)
    ensures var r := DeserializeItems(src, mem, out, desc, i);
            !r.ok && r.mem == StoredBytes(mem, at, desc.reserve.stride, values)
    decreases |values|
  {
    if values == [] {
      ReserveNullFails(src, mem, out, desc, i);
    } else {
      var item, after := NextFilled(src, mem, at, desc, values);
      SlotAfter(out, desc.reserve.stride, i, at);
      FillsBytesOverflow(after, item.mem, out, desc, i + 1, at + desc.reserve.stride, values[1..]);
      OverflowAfterComma(src, mem, out, desc, i, at, values, item, after);
    }
  }

  /** What FillsBytes says of its first item. */
  lemma NextFilled(src: Source, mem: Memory, at: int, desc: ArrayDescription, values: seq<Byte>) returns (item: Walk, after: Source)
    requires ValidValue(desc.itemTag, desc.itemVal) && FillsBytes(src, mem, at, desc, values) && values != []
    ensures item == Deserialize(src, mem, at, desc.itemTag, desc.itemVal)
    ensures item.ok && item.mem == mem.(bytes := mem.bytes[at := values[0]]) && TrimLeftExpectChar(item.src, ',') == Step(true, after)
    ensures FillsBytes(after, item.mem, at + desc.reserve.stride, desc, values[1..])
  {
    item := Deserialize(src, mem, at, desc.itemTag, desc.itemVal);
    after := TrimLeftExpectChar(item.src, ',').src;
  }

  /**
   * An item stored at its slot and followed by ',', with the loop failing
   * from the next item on after storing the other values: the loop from
   * item i fails with this item stored too.
   */
  lemma OverflowAfterComma(src: Source, mem: Memory, out: int, desc: ArrayDescription, i: nat, at: int,
                           values: seq<Byte>, item: Walk, after: Source)
    requires ValidValue(desc.itemTag, desc.itemVal) && i < desc.reserve.capacity && values != []
    requires at == out + desc.reserve.stride * i
    requires item == Deserialize(src, mem, at, desc.itemTag, desc.itemVal)
    requires item.ok && item.mem == mem.(bytes := mem.bytes[at := values[0]]) && TrimLeftExpectChar(item.src, ',') == Step(true, after)
    requires var r := DeserializeItems(after, item.mem, out, desc, i + 1);
             !r.ok && r.mem == StoredBytes(item.mem, at + desc.reserve.stride, desc.reserve.stride, values[1..])
    ensures var r := DeserializeItems(src, mem, out, desc, i);
            !r.ok && r.mem == StoredBytes(mem, at, desc.reserve.stride, values)
  {
    ItemThenComma(src, mem, out, desc, i, at, item, after);
    StoredBytesStep(mem, at, desc.reserve.stride, values);
  }

  /** uint8_t literals, each followed by ',', fill their slots with their values. */
  lemma {:induction false} ByteTextFills(src: Source, mem: Memory, at: int, desc: ArrayDescription, items: seq<seq<char>>, values: seq<Byte>, more: seq<char>)
    requires desc.itemTag == KindInteger && desc.itemVal == IntegerSpec(false, CharBits)
    requires items != [] && ByteLiterals(items, values)
    requires src.remainder == Joined(items) + [','] + more
    ensures ValidValue(desc.itemTag, desc.itemVal)
    ensures FillsBytes(src, mem, at, desc, values)
    decreases |items|
  {
    assert ValidValue(desc.itemTag, desc.itemVal);
    var after := TrimLeftExpectChar(Deserialize(src, mem, at, desc.itemTag, desc.itemVal).src, ',').src;
    var stored := mem.(bytes := mem.bytes[at := values[0]]);
    var next := at + desc.reserve.stride;
    ByteLiteralsStep(items, values);
    var tail := JoinedThenComma(items, more);
    FillsMoreBytes(src, mem, at, desc, items[0], values, tail, after, stored, next);
    if |items| > 1 {
      ByteTextFills(after, stored, next, desc, items[1..], values[1..], more);
    }
  }

  /** An item that stores the first value and is followed by ',', and items after it that fill the next slots. */
  lemma FillsBytesCons(src: Source, mem: Memory, at: int, desc: ArrayDescription, values: seq<Byte>, after: Source, stored: Memory, next: int)
    requires ValidValue(desc.itemTag, desc.itemVal) && values != []
    requires var item := Deserialize(src, mem, at, desc.itemTag, desc.itemVal);
             item.ok && item.mem == stored && stored == mem.(bytes := mem.bytes[at := values[0]])
             && TrimLeftExpectChar(item.src, ',') == Step(true, after)
    requires next == at + desc.reserve.stride && FillsBytes(after, stored, next, desc, values[1..])
    ensures FillsBytes(src, mem, at, desc, values)
  {
  }

  /** The text of items each followed by ',': the first item, its ',' and what follows. */
  lemma JoinedThenComma(items: seq<seq<char>>, more: seq<char>) returns (tail: seq<char>)
    requires items != []
    ensures Joined(items) + [','] + more == items[0] + [','] + tail
    ensures tail == if |items| == 1 then more else Joined(items[1..]) + [','] + more
  {
    tail := if |items| == 1 then more else Joined(items[1..]) + [','] + more;
  }

  /**
   * A uint8_t item followed by ',': the items after the ',' start with the
   * text after it, and when they fill the next slots with the other values
   * (none left included) the whole list fills the slots from `at` on.
   */
  lemma FillsMoreBytes(src: Source, mem: Memory, at: int, desc: ArrayDescription, first: seq<char>, values: seq<Byte>, tail: seq<char>,
                       after: Source, stored: Memory, next: int)
    requires desc.itemTag == KindInteger && desc.itemVal == IntegerSpec(false, CharBits)
    requires src.remainder == first + [','] + tail && WholeLiteral(first) && values != [] && values[0] == Decimal(0, first)
    requires after == TrimLeftExpectChar(Deserialize(src, mem, at, desc.itemTag, desc.itemVal).src, ',').src
    requires stored == mem.(bytes := mem.bytes[at := values[0]]) && next == at + desc.reserve.stride
    ensures after.remainder == tail
    ensures FillsBytes(after, stored, next, desc, values[1..]) ==> FillsBytes(src, mem, at, desc, values)
    ensures |values| == 1 ==> FillsBytes(src, mem, at, desc, values)
  {
    ByteItem(src, mem, at, desc.itemTag, desc.itemVal, first, values[0], ',', tail);
    if FillsBytes(after, stored, next, desc, values[1..]) {
      FillsBytesCons(src, mem, at, desc, values, after, stored, next);
    }
    if |values| == 1 {
      assert values[1..] == [];
      assert FillsBytes(after, stored, next, desc, values[1..]);
      FillsBytesCons(src, mem, at, desc, values, after, stored, next);
    }
  }

  /** The '[' of a byte array is consumed, and the first digit is not a ']'. */
  lemma BytesOpened(src: Source, ws: seq<char>, items: seq<seq<char>>, values: seq<Byte>, rest: seq<char>)
    requires items != [] && ByteLiterals(items, values)
    requires src.remainder == ws + ['['] + Joined(items) + [']'] + rest && AllWhitespace(ws)
    ensures var open := TrimLeftExpectChar(src, '[');
            open.ok && open.src.remainder == Joined(items) + [']'] + rest
            && TrimLeftExpectChar(open.src, ']') == Step(false, open.src)
  {
    var inner := Joined(items) + [']'] + rest;
    assert src.remainder == ws + ['['] + inner;
    TrimWithinSlice(src, ws, '[', inner, '[');
    var open := TrimLeftExpectChar(src, '[');
    var none: seq<char> := [];
    var first := items[0];
    assert WholeLiteral(first);
    JoinedStarts(items);
    assert DigitOf(first[0]) <= 9;
    DigitIsNotSeparator(first[0]);
    assert open.src.remainder == none + [first[0]] + inner[1..];
    TrimWithinSlice(open.src, none, first[0], inner[1..], ']');
  }
}
