/**
 * Properties of the schema walk of components/immjson/immjson.c
 * (json_deserialize_object and json_deserialize_array), stated about the
 * reference semantics in JsonDeserialize.
 */
module JsonWalk {
  import opened Wrappers
  import opened JsonTypes
  import opened JsonLexer
  import opened JsonValues
  import opened JsonSkip
  import opened JsonDeserialize
  import opened JsonProperties
  import opened JsonStructure
  import opened JsonSkipProperties

  /* Arrays */

  /**
   * "[]" is accepted without a call to the reserve callback: memory and
   * cursor are unchanged whatever its capacity, zero included.
   */
  lemma EmptyArrayNoReserve(src: Source, mem: Memory, out: int, desc: ArrayDescription, rest: seq<char>)
    requires ValidValue(desc.itemTag, desc.itemVal)
    requires src.remainder == ['[', ']'] + rest
    ensures DeserializeArray(src, mem, out, desc) == Walk(true, src.(remainder := rest), mem, out)
  {
    var none: seq<char> := [];
    assert src.remainder == none + ['['] + ([']'] + rest);
    TrimWithinSlice(src, none, '[', [']'] + rest, '[');
    var open := TrimLeftExpectChar(src, '[');
    assert open.src.remainder == none + [']'] + rest;
    TrimWithinSlice(open.src, none, ']', rest, ']');
  }

  /**
   * A NULL slot for item i fails the array with memory unchanged, so
   * item i is never written.
   */
  lemma ReserveNullFails(src: Source, mem: Memory, out: int, desc: ArrayDescription, i: nat)
    requires ValidValue(desc.itemTag, desc.itemVal)
    requires Reserve(desc.reserve, out, i).None?
    ensures DeserializeItems(src, mem, out, desc, i) == Walk(false, src, mem, out)
  {
  }

  /**
   * Item i is decoded at the slot the reserve callback returns for i: a
   * failing item fails the array with what it wrote; otherwise the loop
   * goes on with its memory after a ',' and ends at anything else, which
   * must be the ']'.
   */
  lemma ItemAtSlot(src: Source, mem: Memory, out: int, desc: ArrayDescription, i: nat, slot: int, item: Walk)
    requires ValidValue(desc.itemTag, desc.itemVal)
    requires i < desc.reserve.capacity && slot == out + desc.reserve.stride * i
    requires item == Deserialize(src, mem, slot, desc.itemTag, desc.itemVal)
    ensures var comma := TrimLeftExpectChar(item.src, ',');
            var end := ReadExpectChar(comma.src, ']');
            DeserializeItems(src, mem, out, desc, i)
            == if !item.ok then Walk(false, item.src, item.mem, out)
               else if comma.ok then DeserializeItems(comma.src, item.mem, out, desc, i + 1)
               else Walk(end.ok, end.src, item.mem, out)
  {
    assert Reserve(desc.reserve, out, i) == Some(slot);
  }

  /* Slots of one byte each */

  /** The memory after the values are stored one byte each, from the slot at `at` on, `stride` apart. */
  function StoredBytes(mem: Memory, at: int, stride: nat, values: seq<Byte>): Memory
    decreases |values|
  {
    if values == [] then mem
    else StoredBytes(mem.(bytes := mem.bytes[at := values[0]]), at + stride, stride, values[1..])
  }

  /** A one-byte store is a single map update. */
  lemma WriteOneByte(m: map<int, Byte>, at: int, v: Byte)
    ensures WriteBytes(m, at, [v]) == m[at := v]
  {
    assert WriteBytes(m, at, [v]) == WriteBytes(m[at := v], at + 1, []);
  }

  /** The slot of value k + 1 from `at` is the slot of value k from `at + stride`. */
  lemma NextSlot(at: int, stride: nat, k: nat)
    ensures at + stride + stride * k == at + stride * (k + 1)
  {
  }

  /** The slot after item k's. */
  lemma SlotAfter(out: int, stride: nat, k: nat, at: int)
    requires at == out + stride * k
    ensures at + stride == out + stride * (k + 1)
  {
  }

  /** With slots at least a byte apart, value k is at the k-th slot from `at`. */
  lemma {:induction false} StoredBytesAt(mem: Memory, at: int, stride: nat, values: seq<Byte>)
    requires stride >= 1
    ensures var m := StoredBytes(mem, at, stride, values);
            forall k :: 0 <= k < |values| ==> at + stride * k in m.bytes && m.bytes[at + stride * k] == values[k]
    decreases |values|
  {
    if values != [] {
      var next := mem.(bytes := mem.bytes[at := values[0]]);
      StoredBytesAt(next, at + stride, stride, values[1..]);
      StoredBytesKeeps(next, at + stride, stride, values[1..]);
      var m := StoredBytes(mem, at, stride, values);
      forall k | 0 <= k < |values|
        ensures at + stride * k in m.bytes && m.bytes[at + stride * k] == values[k]
      {
        if k > 0 {
          NextSlot(at, stride, k - 1);
          assert values[k] == values[1..][k - 1];
        }
      }
    }
  }

  /** Every byte outside the slots is kept, and so are the strings and numbers. */
  lemma {:induction false} StoredBytesKeeps(mem: Memory, at: int, stride: nat, values: seq<Byte>)
    requires stride >= 1
    ensures var m := StoredBytes(mem, at, stride, values);
            (forall a :: a in mem.bytes && (a < at || at + stride * |values| <= a) ==> a in m.bytes && m.bytes[a] == mem.bytes[a])
            && m.strings == mem.strings && m.numbers == mem.numbers
    decreases |values|
  {
    if values != [] {
      var next := mem.(bytes := mem.bytes[at := values[0]]);
      StoredBytesKeeps(next, at + stride, stride, values[1..]);
      NextSlot(at, stride, |values| - 1);
    }
  }

  /** An item accepted and followed by ',': the loop goes on with item i + 1. */
  lemma ItemThenComma(src: Source, mem: Memory, out: int, desc: ArrayDescription, i: nat, slot: int, item: Walk, after: Source)
    requires ValidValue(desc.itemTag, desc.itemVal) && i < desc.reserve.capacity && slot == out + desc.reserve.stride * i
    requires item == Deserialize(src, mem, slot, desc.itemTag, desc.itemVal)
    requires item.ok && TrimLeftExpectChar(item.src, ',') == Step(true, after)
    ensures DeserializeItems(src, mem, out, desc, i) == DeserializeItems(after, item.mem, out, desc, i + 1)
  {
    ItemAtSlot(src, mem, out, desc, i, slot, item);
  }

  /** An item accepted and followed by ']': the array is accepted with the item's memory. */
  lemma ItemThenBracket(src: Source, mem: Memory, out: int, desc: ArrayDescription, i: nat, slot: int, m: Memory, rest: seq<char>)
    requires ValidValue(desc.itemTag, desc.itemVal) && i < desc.reserve.capacity && slot == out + desc.reserve.stride * i
    requires var item := Deserialize(src, mem, slot, desc.itemTag, desc.itemVal);
             var comma := TrimLeftExpectChar(item.src, ',');
             item.ok && item.mem == m && !comma.ok && comma.src.remainder == [']'] + rest
    ensures var r := DeserializeItems(src, mem, out, desc, i);
            r.ok && r.src.remainder == rest && r.mem == m
  {
    ItemAtSlot(src, mem, out, desc, i, slot, Deserialize(src, mem, slot, desc.itemTag, desc.itemVal));
  }

  /** Storing the first value, then the rest from the next slot on. */
  lemma StoredBytesStep(mem: Memory, at: int, stride: nat, values: seq<Byte>)
    requires values != []
    ensures StoredBytes(mem, at, stride, values) == StoredBytes(mem.(bytes := mem.bytes[at := values[0]]), at + stride, stride, values[1..])
  {
  }

  /**
   * From `src` on, the items decode one after the other into the values,
   * each stored as one byte at its slot (the first at `at`, then `stride`
   * apart); a ',' follows every item but the last, which is followed by
   * ']' and then `rest`.
   */
  predicate StoresBytes(src: Source, mem: Memory, at: int, desc: ArrayDescription, values: seq<Byte>, rest: seq<char>)
    requires ValidValue(desc.itemTag, desc.itemVal)
    decreases |values|
  {
    values != [] &&
    var item := Deserialize(src, mem, at, desc.itemTag, desc.itemVal);
    var comma := TrimLeftExpectChar(item.src, ',');
    item.ok && item.mem == mem.(bytes := mem.bytes[at := values[0]])
    && if |values| == 1 then !comma.ok && comma.src.remainder == [']'] + rest
       else comma.ok && StoresBytes(comma.src, item.mem, at + desc.reserve.stride, desc, values[1..], rest)
  }

  /**
   * The loop of json_deserialize_array over items that store those bytes,
   * each with a slot: the array is accepted after the ']', with every
   * value at its slot.  `at` is the slot of item i.
   */
  lemma {:induction false} StoresBytesAccepted(src: Source, mem: Memory, out: int, desc: ArrayDescription, i: nat, at: int, values: seq<Byte>, rest: seq<char>)
    requires ValidValue(desc.itemTag, desc.itemVal) && i + |values| <= desc.reserve.capacity
    requires at == out + desc.reserve.stride * i
    requires StoresBytes(src, mem, at, desc, values, rest)
    ensures var r := DeserializeItems(src, mem, out, desc, i);
            r.ok && r.src.remainder == rest && r.mem == StoredBytes(mem, at, desc.reserve.stride, values)
    decreases |values|
  {
    if |values| == 1 {
      LastItemStored(src, mem, out, desc, i, at, values, rest);
    } else {
      var item, after := NextItem(src, mem, out, desc, i, at, values, rest);
      StoresBytesAccepted(after, item.mem, out, desc, i + 1, at + desc.reserve.stride, values[1..], rest);
      MoreItemsStored(src, mem, out, desc, i, at, values, rest, item, after);
    }
  }

  /** The first of several items: decoded, followed by ',', and the rest stored from the next slot. */
  lemma NextItem(src: Source, mem: Memory, out: int, desc: ArrayDescription, i: nat, at: int, values: seq<Byte>, rest: seq<char>)
      returns (item: Walk, after: Source)
    requires ValidValue(desc.itemTag, desc.itemVal) && i + |values| <= desc.reserve.capacity
    requires at == out + desc.reserve.stride * i
    requires StoresBytes(src, mem, at, desc, values, rest) && |values| > 1
    ensures item == Deserialize(src, mem, at, desc.itemTag, desc.itemVal)
    ensures item.ok && item.mem == mem.(bytes := mem.bytes[at := values[0]]) && TrimLeftExpectChar(item.src, ',') == Step(true, after)
    ensures i + 1 + |values[1..]| <= desc.reserve.capacity && at + desc.reserve.stride == out + desc.reserve.stride * (i + 1)
    ensures StoresBytes(after, item.mem, at + desc.reserve.stride, desc, values[1..], rest)
  {
    item := Deserialize(src, mem, at, desc.itemTag, desc.itemVal);
    after := TrimLeftExpectChar(item.src, ',').src;
    FirstItemStored(src, mem, at, desc, values, rest, item, after, mem.(bytes := mem.bytes[at := values[0]]));
    SlotAfter(out, desc.reserve.stride, i, at);
  }

  /** The last item: followed by ']', it ends the array. */
  lemma LastItemStored(src: Source, mem: Memory, out: int, desc: ArrayDescription, i: nat, at: int, values: seq<Byte>, rest: seq<char>)
    requires ValidValue(desc.itemTag, desc.itemVal) && i + |values| <= desc.reserve.capacity
    requires at == out + desc.reserve.stride * i
    requires StoresBytes(src, mem, at, desc, values, rest) && |values| == 1
    ensures var r := DeserializeItems(src, mem, out, desc, i);
            r.ok && r.src.remainder == rest && r.mem == StoredBytes(mem, at, desc.reserve.stride, values)
  {
    var item := Deserialize(src, mem, at, desc.itemTag, desc.itemVal);
    StoredBytesStep(mem, at, desc.reserve.stride, values);
    ItemThenBracket(src, mem, out, desc, i, at, item.mem, rest);
    assert values[1..] == [];
  }

  /**
   * An item stored at its slot and followed by ',', with the rest of the
   * array stored from the next slot on: the array from item i is stored.
   */
  lemma MoreItemsStored(src: Source, mem: Memory, out: int, desc: ArrayDescription, i: nat, at: int, values: seq<Byte>, rest: seq<char>,
                        item: Walk, after: Source)
    requires ValidValue(desc.itemTag, desc.itemVal) && i < desc.reserve.capacity && |values| > 1
    requires at == out + desc.reserve.stride * i
    requires item == Deserialize(src, mem, at, desc.itemTag, desc.itemVal)
    requires item.ok && item.mem == mem.(bytes := mem.bytes[at := values[0]]) && TrimLeftExpectChar(item.src, ',') == Step(true, after)
    requires var r := DeserializeItems(after, item.mem, out, desc, i + 1);
             r.ok && r.src.remainder == rest && r.mem == StoredBytes(item.mem, at + desc.reserve.stride, desc.reserve.stride, values[1..])
    ensures var r := DeserializeItems(src, mem, out, desc, i);
            r.ok && r.src.remainder == rest && r.mem == StoredBytes(mem, at, desc.reserve.stride, values)
  {
    StoredBytesStep(mem, at, desc.reserve.stride, values);
    ItemThenComma(src, mem, out, desc, i, at, item, after);
  }

  /** What StoresBytes says of an item followed by ','. */
  lemma FirstItemStored(src: Source, mem: Memory, at: int, desc: ArrayDescription, values: seq<Byte>, rest: seq<char>,
                        item: Walk, after: Source, m: Memory)
    requires ValidValue(desc.itemTag, desc.itemVal)
    requires StoresBytes(src, mem, at, desc, values, rest) && |values| > 1
    requires item == Deserialize(src, mem, at, desc.itemTag, desc.itemVal)
    requires after == TrimLeftExpectChar(item.src, ',').src && m == mem.(bytes := mem.bytes[at := values[0]])
    ensures item.ok && item.mem == m && TrimLeftExpectChar(item.src, ',') == Step(true, after)
    ensures StoresBytes(after, m, at + desc.reserve.stride, desc, values[1..], rest)
  {
  }

  /* Objects */

  /** A padding entry moves the cursor by its size and consumes no input. */
  lemma PaddingStep(src: Source, mem: Memory, cursor: int, props: seq<Property>, i: nat)
    requires ValidProperties(props) && i < |props|
    requires props[i].NullKey? && props[i].paddingBytes != UintptrMax
    ensures ObjectStep(src, mem, cursor, props, i) == WalkOn(src, mem, cursor + props[i].paddingBytes, i + 1)
  {
  }

  /** OBJECT_PROPERTIES_END() ends the walk: the keys left are skipped and '}' closes the object. */
  lemma TerminatorCloses(src: Source, mem: Memory, cursor: int, props: seq<Property>, i: nat)
    requires ValidProperties(props) && i < |props| && IsEnd(props[i])
    ensures ObjectWalk(src, mem, cursor, props, i)
            == Walk(EndObject(SkipToKey(src, SkipDepth, None).src).ok, EndObject(SkipToKey(src, SkipDepth, None).src).src, mem, cursor)
  {
  }

  /**
   * The end of an inline object at its '}': accepted, and the '}' consumed;
   * a ',' before the '}' is accepted too, since json_next_key reads past one.
   */
  lemma FinishAtBrace(src: Source, comma: bool, ws1: seq<char>, ws2: seq<char>, rest: seq<char>)
    requires src.remainder == Lead(ws1, comma, ws2) + ['}'] + rest && AllWhitespace(ws1) && AllWhitespace(ws2)
    ensures var r := FinishObject(src);
            r.ok && r.src.remainder == rest
  {
    SkipRunsOut(src, SkipDepth, None, comma, ws1, ws2, '}', rest);
    var skipped := SkipToKey(src, SkipDepth, None);
    var none: seq<char> := [];
    assert skipped.src.remainder == none + ['}'] + rest;
    TrimWithinSlice(skipped.src, none, '}', rest, '}');
  }

  /** Neither a key nor a '}' at the end of an inline object: it fails, with that byte left unread. */
  lemma FinishOnOther(src: Source, comma: bool, ws1: seq<char>, ws2: seq<char>, x: char, rest: seq<char>)
    requires src.remainder == Lead(ws1, comma, ws2) + [x] + rest && AllWhitespace(ws1) && AllWhitespace(ws2)
    requires !IsWhitespace(x) && x != ',' && x != '"' && x != '}'
    ensures var r := FinishObject(src);
            !r.ok && r.src.remainder == [x] + rest
  {
    SkipRunsOut(src, SkipDepth, None, comma, ws1, ws2, x, rest);
    var skipped := SkipToKey(src, SkipDepth, None);
    var none: seq<char> := [];
    assert skipped.src.remainder == none + [x] + rest;
    TrimWithinSlice(skipped.src, none, x, rest, '}');
  }

  /**
   * A key left in an inline object: its value is skipped and the end is
   * looked for after it; when the value cannot be skipped the '}' is still
   * expected where the skip stopped, the skip's failure being ignored.
   */
  lemma FinishSkipsMember(src: Source, comma: bool, ws1: seq<char>, ws2: seq<char>, body: seq<char>, ws3: seq<char>, rest: seq<char>)
    requires src.remainder == Lead(ws1, comma, ws2) + ['"'] + body + ['"'] + ws3 + [':'] + rest
    requires AllWhitespace(ws1) && AllWhitespace(ws2) && AllWhitespace(ws3) && NoDelimiter(body)
    requires src.buffer == ReleasedBuffer(src.buffer.heapLimit) && |body| + 1 <= src.buffer.heapLimit
    ensures var v := IgnoreAny(NextKey(src).src, SkipDepth);
            NextKey(src).src.remainder == rest
            && FinishObject(src) == if v.ok then FinishObject(v.src) else EndObject(v.src)
  {
    SkipPassesMember(src, SkipDepth, None, comma, ws1, ws2, body, ws3, rest);
  }

  /**
   * JSON_INLINE_OBJ_BEGIN succeeds right after the '{', which is all it
   * consumes: the properties that follow in the enclosing list are read
   * inside the object.
   */
  lemma InlineBeginStops(src: Source, mem: Memory, cursor: int, ws: seq<char>, rest: seq<char>)
    requires src.remainder == ws + ['{'] + rest && AllWhitespace(ws)
    ensures var r := DeserializeObject(src, mem, cursor, InlineBegin);
            r.ok && r.src.remainder == rest && r.mem == mem && r.cursor == cursor
  {
    TrimWithinSlice(src, ws, '{', rest, '{');
  }

  /** A property list needs the '{': anything else fails with memory unchanged. */
  lemma ObjectNeedsBrace(src: Source, mem: Memory, cursor: int, desc: ObjectDescriptor, ws: seq<char>, x: char, rest: seq<char>)
    requires desc.Properties? ==> ValidProperties(desc.props)
    requires src.remainder == ws + [x] + rest && AllWhitespace(ws) && !IsWhitespace(x) && x != '{'
    ensures var r := DeserializeObject(src, mem, cursor, desc);
            !r.ok && r.mem == mem && r.src.remainder == [x] + rest
  {
    TrimWithinSlice(src, ws, x, rest, '{');
  }

  /** A named entry with no key left to read fails the whole walk, with memory unchanged. */
  lemma MissingKeyFails(src: Source, mem: Memory, cursor: int, props: seq<Property>, i: nat)
    requires ValidProperties(props) && i < |props| && props[i].Entry?
    requires !(Tag(props[i].key) == KindObject && IsInlineEnd(props[i].val))
    requires NextKey(src).key.None?
    ensures ObjectWalk(src, mem, cursor, props, i) == Walk(false, NextKey(src).src, mem, cursor)
  {
    assert ObjectStep(src, mem, cursor, props, i) == ObjectKey(src, mem, cursor, props, i);
  }

  /**
   * A key the entry does not name has its value skipped; with a ','
   * directly after it the same entry is tried on the next key, without a
   * ',' the object is closed and the walk ends, memory unchanged.
   */
  lemma OtherKeyRetries(src: Source, mem: Memory, cursor: int, props: seq<Property>, i: nat)
    requires ValidProperties(props) && i < |props| && props[i].Entry?
    requires !(Tag(props[i].key) == KindObject && IsInlineEnd(props[i].val))
    requires NextKey(src).key.Some? && NextKey(src).key.value != KeyName(props[i].key)
    ensures var skipped := SkipMismatch(NextKey(src).src);
            var r := ObjectStep(src, mem, cursor, props, i);
            (skipped.skipped && skipped.comma ==> r == WalkOn(skipped.src, mem, cursor, i))
            && (skipped.skipped && !skipped.comma ==>
                  r == WalkDone(Walk(FinishObject(skipped.src).ok, FinishObject(skipped.src).src, mem, cursor)))
            && (!skipped.skipped ==> r == WalkDone(Walk(false, skipped.src, mem, cursor)))
  {
  }

  /** The key an entry names is decoded at the cursor, and the walk moves on to the next entry. */
  lemma MatchingKeyDecodes(src: Source, mem: Memory, cursor: int, props: seq<Property>, i: nat)
    requires ValidProperties(props) && i < |props| && props[i].Entry?
    requires !(Tag(props[i].key) == KindObject && IsInlineEnd(props[i].val))
    requires NextKey(src).key == Some(KeyName(props[i].key))
    ensures props[i] in props
    ensures var v := Deserialize(NextKey(src).src, mem, cursor, Tag(props[i].key), props[i].val);
            ObjectStep(src, mem, cursor, props, i) == if v.ok then WalkOn(v.src, v.mem, v.cursor, i + 1) else WalkDone(v)
  {
  }

  /** Entries i up to j are all padding, none of them the terminator. */
  predicate PaddingRun(props: seq<Property>, i: nat, j: nat) {
    i <= j <= |props| && forall k :: i <= k < j ==> props[k].NullKey? && props[k].paddingBytes != UintptrMax
  }

  /** The bytes the padding entries i up to j move the cursor by. */
  function PaddingTotal(props: seq<Property>, i: nat, j: nat): nat
    requires PaddingRun(props, i, j)
    decreases j - i
  {
    if i == j then 0 else props[i].paddingBytes + PaddingTotal(props, i + 1, j)
  }

  /**
   * A run of padding entries is passed over without reading input or
   * touching memory: the walk goes on at the entry after the run with the
   * cursor moved by the padding's total size.
   */
  lemma {:induction false} PaddingSkipped(src: Source, mem: Memory, cursor: int, props: seq<Property>, i: nat, j: nat)
    requires ValidProperties(props) && PaddingRun(props, i, j) && j < |props|
    ensures ObjectWalk(src, mem, cursor, props, i) == ObjectWalk(src, mem, cursor + PaddingTotal(props, i, j), props, j)
    decreases j - i
  {
    if i < j {
      PaddingStep(src, mem, cursor, props, i);
      PaddingSkipped(src, mem, cursor + props[i].paddingBytes, props, i + 1, j);
    }
  }

  /**
   * OBJECT_PROPERTIES_END() at the '}' of the object: accepted with the
   * '}' consumed, memory and cursor unchanged.
   */
  lemma TerminatorAtBrace(src: Source, mem: Memory, cursor: int, props: seq<Property>, i: nat,
                          comma: bool, ws1: seq<char>, ws2: seq<char>, rest: seq<char>)
    requires ValidProperties(props) && i < |props| && IsEnd(props[i])
    requires src.remainder == Lead(ws1, comma, ws2) + ['}'] + rest && AllWhitespace(ws1) && AllWhitespace(ws2)
    ensures var r := ObjectWalk(src, mem, cursor, props, i);
            r.ok && r.src.remainder == rest && r.mem == mem && r.cursor == cursor
  {
    TerminatorCloses(src, mem, cursor, props, i);
    FinishAtBrace(src, comma, ws1, ws2, rest);
  }

  /**
   * Every key the schema names is required: an object that closes where a
   * named entry expects its key fails the walk at the '}', which is left
   * unread, with memory unchanged.
   */
  lemma KeyRequired(src: Source, mem: Memory, cursor: int, props: seq<Property>, i: nat,
                    comma: bool, ws1: seq<char>, ws2: seq<char>, rest: seq<char>)
    requires ValidProperties(props) && i < |props| && props[i].Entry?
    requires !(Tag(props[i].key) == KindObject && IsInlineEnd(props[i].val))
    requires src.remainder == Lead(ws1, comma, ws2) + ['}'] + rest && AllWhitespace(ws1) && AllWhitespace(ws2)
    ensures var r := ObjectWalk(src, mem, cursor, props, i);
            !r.ok && r.src.remainder == ['}'] + rest && r.mem == mem
  {
    NoKey(src, comma, ws1, ws2, '}', rest);
    MissingKeyFails(src, mem, cursor, props, i);
  }

  /**
   * `"k": <digits> x` where entry i is the integer entry for "k": the
   * literal's bytes, as json_expect_integer converts them for the entry's
   * width and signedness, are stored at the cursor, which moves past the
   * slot, and the walk goes on with entry i + 1 at `x`; a literal the
   * conversion refuses fails the walk with memory unchanged.
   */
  lemma IntegerKeyStored(src: Source, mem: Memory, cursor: int, props: seq<Property>, i: nat,
                         comma: bool, ws1: seq<char>, ws2: seq<char>, digits: seq<char>, x: char, rest: seq<char>)
    requires ValidProperties(props) && i < |props| && props[i].Entry?
    requires Tag(props[i].key) == KindInteger && props[i].val.IntegerSpec?
    requires src.remainder == Lead(ws1, comma, ws2) + ['"'] + KeyName(props[i].key) + ['"', ':'] + digits + [x] + rest
    requires AllWhitespace(ws1) && AllWhitespace(ws2) && NoDelimiter(KeyName(props[i].key))
    requires src.buffer == ReleasedBuffer(src.buffer.heapLimit) && |KeyName(props[i].key)| + 1 <= src.buffer.heapLimit
    requires WholeLiteral(digits) && DigitOf(x) > 9 && x != '.' && x != 'e' && x != 'E'
    ensures props[i] in props && 1 <= props[i].val.bitwidth <= UintmaxBits
    ensures var spec := props[i].val;
            var stored := IntegerValue(JsonNumber(Decimal(0, digits), 0, 0, false), spec.isSigned, spec.bitwidth);
            var r := ObjectStep(src, mem, cursor, props, i);
            if stored.Some? then
              r.WalkOn? && r.i == i + 1 && r.src.remainder == [x] + rest
              && r.mem == mem.(bytes := WriteBytes(mem.bytes, cursor, stored.value)) && r.cursor == cursor + IntegerBytes(spec.bitwidth)
            else r.WalkDone? && !r.walk.ok && r.walk.mem == mem
  {
    assert props[i] in props;
    var t := KeyThenValue(src, comma, ws1, ws2, KeyName(props[i].key), digits + [x] + rest);
    MatchingKeyDecodes(src, mem, cursor, props, i);
    IntegerWritten(t, mem, cursor, props[i].val, digits, x, rest);
  }

  /** A key without escapes read with its ':', the value after it left. */
  lemma KeyThenValue(src: Source, comma: bool, ws1: seq<char>, ws2: seq<char>, body: seq<char>, value: seq<char>) returns (t: Source)
    requires src.remainder == Lead(ws1, comma, ws2) + ['"'] + body + ['"', ':'] + value
    requires AllWhitespace(ws1) && AllWhitespace(ws2) && NoDelimiter(body)
    requires src.buffer == ReleasedBuffer(src.buffer.heapLimit) && |body| + 1 <= src.buffer.heapLimit
    ensures NextKey(src).key == Some(body) && NextKey(src).src == t
    ensures t.remainder == value && t.buffer == src.buffer
  {
    var none: seq<char> := [];
    assert src.remainder == Lead(ws1, comma, ws2) + ['"'] + body + ['"'] + none + [':'] + value;
    KeyRead(src, comma, ws1, ws2, body, none, ':', value);
    t := NextKey(src).src;
  }

  /** An integer entry's value: stored at the cursor as json_expect_integer converts it. */
  lemma IntegerWritten(t: Source, mem: Memory, cursor: int, spec: JsonValue, digits: seq<char>, x: char, rest: seq<char>)
    requires spec.IntegerSpec? && 1 <= spec.bitwidth <= UintmaxBits
    requires t.remainder == digits + [x] + rest && WholeLiteral(digits) && DigitOf(x) > 9 && x != '.' && x != 'e' && x != 'E'
    ensures var stored := IntegerValue(JsonNumber(Decimal(0, digits), 0, 0, false), spec.isSigned, spec.bitwidth);
            var v := Deserialize(t, mem, cursor, KindInteger, spec);
            v.ok == stored.Some? && v.cursor == cursor + IntegerBytes(spec.bitwidth)
            && (stored.Some? ==> v.src.remainder == [x] + rest && v.mem == mem.(bytes := WriteBytes(mem.bytes, cursor, stored.value)))
            && (stored.None? ==> v.mem == mem)
  {
    assert Deserialize(t, mem, cursor, KindInteger, spec) == StoreInteger(t, mem, cursor, spec.isSigned, spec.bitwidth);
    WholeNumberText(t, digits, x, rest);
  }

  /** A member `"k":true` read as a key and a skipped value, the text after "true" left. */
  lemma TrueMemberSkipped(src: Source, comma: bool, ws1: seq<char>, ws2: seq<char>, body: seq<char>, after: seq<char>) returns (t: Source)
    requires src.remainder == Lead(ws1, comma, ws2) + ['"'] + body + ['"', ':'] + "true" + after
    requires AllWhitespace(ws1) && AllWhitespace(ws2) && NoDelimiter(body)
    requires src.buffer == ReleasedBuffer(src.buffer.heapLimit) && |body| + 1 <= src.buffer.heapLimit
    ensures NextKey(src).key == Some(body) && IgnoreAny(NextKey(src).src, SkipDepth) == Step(true, t)
    ensures t.remainder == after && t.buffer == src.buffer
  {
    assert src.remainder == Lead(ws1, comma, ws2) + ['"'] + body + ['"', ':'] + ("true" + after);
    var k := KeyThenValue(src, comma, ws1, ws2, body, "true" + after);
    var none: seq<char> := [];
    assert k.remainder == none + "true" + after;
    TrueSkipped(k, SkipDepth, none, after);
    t := IgnoreAny(k, SkipDepth).src;
  }

  /**
   * `"k":true,` where entry i names another key: the value is skipped with
   * the ',' after it, and entry i is tried again on what follows, memory
   * and cursor unchanged.
   */
  lemma UnknownKeyRetried(src: Source, mem: Memory, cursor: int, props: seq<Property>, i: nat,
                          comma: bool, ws1: seq<char>, ws2: seq<char>, body: seq<char>, tail: seq<char>)
    requires ValidProperties(props) && i < |props| && props[i].Entry?
    requires !(Tag(props[i].key) == KindObject && IsInlineEnd(props[i].val))
    requires src.remainder == Lead(ws1, comma, ws2) + ['"'] + body + ['"', ':'] + "true" + [','] + tail
    requires AllWhitespace(ws1) && AllWhitespace(ws2) && NoDelimiter(body) && body != KeyName(props[i].key)
    requires src.buffer == ReleasedBuffer(src.buffer.heapLimit) && |body| + 1 <= src.buffer.heapLimit
    ensures var r := ObjectStep(src, mem, cursor, props, i);
            r.WalkOn? && r.i == i && r.mem == mem && r.cursor == cursor && r.src.remainder == tail
  {
    var t := TrueMemberSkipped(src, comma, ws1, ws2, body, [','] + tail);
    OtherKeyRetries(src, mem, cursor, props, i);
  }

  /** Whitespace where a ',' is read without a trim: refused, nothing consumed. */
  lemma WhitespaceIsNoComma(t: Source, ws: seq<char>, tail: seq<char>)
    requires t.remainder == ws + tail && AllWhitespace(ws) && ws != []
    ensures var c := ReadExpectChar(t, ',');
            !c.ok && c.src == t
  {
    assert t.remainder[0] == ws[0];
  }

  /** The object's end after ` ,"m":true}`: the member is skipped and the '}' accepted. */
  lemma TrueMemberThenBrace(m: Source, ws: seq<char>, key: seq<char>, value: seq<char>, rest: seq<char>)
    requires m.remainder == ws + [','] + (['"'] + key + ['"', ':'] + value) && value == "true" + ['}'] + rest
    requires AllWhitespace(ws) && NoDelimiter(key)
    requires m.buffer == ReleasedBuffer(m.buffer.heapLimit) && |key| + 1 <= m.buffer.heapLimit
    ensures var r := FinishObject(m);
            r.ok && r.src.remainder == rest
  {
    var none: seq<char> := [];
    MemberAfterComma(m.remainder, ws, key, value);
    FinishSkipsMember(m, true, ws, none, key, none, value);
    TrueThenBrace(NextKey(m).src, rest);
  }

  /** The text of `ws , "key": value` in the shape the member lemmas take. */
  lemma MemberAfterComma(text: seq<char>, ws: seq<char>, key: seq<char>, value: seq<char>)
    requires text == ws + [','] + (['"'] + key + ['"', ':'] + value)
    ensures text == Lead(ws, true, []) + ['"'] + key + ['"'] + [] + [':'] + value
  {
  }

  /** "true}" after a key: the value is skipped and the '}' ends the object. */
  lemma TrueThenBrace(n: Source, rest: seq<char>)
    requires n.remainder == "true" + ['}'] + rest
    ensures var v := IgnoreAny(n, SkipDepth);
            v.ok && FinishObject(v.src).ok && FinishObject(v.src).src.remainder == rest
  {
    var none: seq<char> := [];
    TrueSkipped(n, SkipDepth, none, ['}'] + rest);
    FinishAtBrace(IgnoreAny(n, SkipDepth).src, false, none, none, rest);
  }

  /**
   * The ',' after a skipped value is read with no whitespace trimmed: in
   * `"k":true ,"m":true}` with entry i naming "m", the space ends the
   * walk, the rest of the object is skipped and the object accepted, and
   * "m" is never decoded: memory and cursor are unchanged.
   */
  lemma SpaceBeforeCommaEndsWalk(src: Source, mem: Memory, cursor: int, props: seq<Property>, i: nat,
                                 comma: bool, ws1: seq<char>, ws2: seq<char>, body: seq<char>, ws3: seq<char>, rest: seq<char>)
    requires ValidProperties(props) && i < |props| && props[i].Entry?
    requires !(Tag(props[i].key) == KindObject && IsInlineEnd(props[i].val))
    requires src.remainder == Lead(ws1, comma, ws2) + ['"'] + body + ['"', ':'] + "true"
                              + ws3 + [',', '"'] + KeyName(props[i].key) + ['"', ':'] + "true" + ['}'] + rest
    requires AllWhitespace(ws1) && AllWhitespace(ws2) && AllWhitespace(ws3) && ws3 != []
    requires NoDelimiter(body) && NoDelimiter(KeyName(props[i].key)) && body != KeyName(props[i].key)
    requires src.buffer == ReleasedBuffer(src.buffer.heapLimit)
    requires |body| + 1 <= src.buffer.heapLimit && |KeyName(props[i].key)| + 1 <= src.buffer.heapLimit
    ensures var r := ObjectWalk(src, mem, cursor, props, i);
            r.ok && r.src.remainder == rest && r.mem == mem && r.cursor == cursor
  {
    var key := KeyName(props[i].key);
    var value := "true" + ['}'] + rest;
    var member := ['"'] + key + ['"', ':'] + value;
    var after := ws3 + [','] + member;
    SpacedMemberText(src.remainder, Lead(ws1, comma, ws2), body, ws3, key, rest, value, member, after);
    var t := TrueMemberSkipped(src, comma, ws1, ws2, body, after);
    SpaceThenMember(t, ws3, key, value, member, rest);
    SkippedThenNoComma(src, mem, cursor, props, i, t);
  }

  /** ` ,"m":true}` after a skipped value: no ',' is read, and the object's end is accepted. */
  lemma SpaceThenMember(t: Source, ws: seq<char>, key: seq<char>, value: seq<char>, member: seq<char>, rest: seq<char>)
    requires t.remainder == ws + [','] + member && member == ['"'] + key + ['"', ':'] + value && value == "true" + ['}'] + rest
    requires AllWhitespace(ws) && ws != [] && NoDelimiter(key)
    requires t.buffer == ReleasedBuffer(t.buffer.heapLimit) && |key| + 1 <= t.buffer.heapLimit
    ensures !ReadExpectChar(t, ',').ok && ReadExpectChar(t, ',').src == t
    ensures FinishObject(t).ok && FinishObject(t).src.remainder == rest
  {
    WhitespaceIsNoComma(t, ws, [','] + member);
    TrueMemberThenBrace(t, ws, key, value, rest);
  }

  /** The text of two `"key":true` members, the second after ` ,`, split at the ends of the first value and of the ','. */
  lemma SpacedMemberText(text: seq<char>, lead: seq<char>, body: seq<char>, ws: seq<char>, key: seq<char>, rest: seq<char>,
                         value: seq<char>, member: seq<char>, after: seq<char>)
    requires text == lead + ['"'] + body + ['"', ':'] + "true" + ws + [',', '"'] + key + ['"', ':'] + "true" + ['}'] + rest
    requires value == "true" + ['}'] + rest && member == ['"'] + key + ['"', ':'] + value && after == ws + [','] + member
    ensures text == lead + ['"'] + body + ['"', ':'] + "true" + after
  {
  }

  /**
   * A key entry i does not name, whose value is skipped up to `t` where no
   * ',' follows: the walk ends with the end of the object looked for from
   * `t`, memory and cursor unchanged.
   */
  lemma SkippedThenNoComma(src: Source, mem: Memory, cursor: int, props: seq<Property>, i: nat, t: Source)
    requires ValidProperties(props) && i < |props| && props[i].Entry?
    requires !(Tag(props[i].key) == KindObject && IsInlineEnd(props[i].val))
    requires NextKey(src).key.Some? && NextKey(src).key.value != KeyName(props[i].key)
    requires IgnoreAny(NextKey(src).src, SkipDepth) == Step(true, t)
    requires !ReadExpectChar(t, ',').ok && ReadExpectChar(t, ',').src == t
    ensures ObjectWalk(src, mem, cursor, props, i) == Walk(FinishObject(t).ok, FinishObject(t).src, mem, cursor)
  {
    OtherKeyRetries(src, mem, cursor, props, i);
  }

  /* Schema order */

  /** The entries of a valid list from `k` on form a valid list. */
  lemma SuffixValid(props: seq<Property>, k: nat)
    requires ValidProperties(props) && k < |props|
    ensures ValidProperties(props[k..])
  {
    assert props[k..][|props[k..]| - 1] == props[|props| - 1];
    forall p | p in props[k..] && p.Entry? ensures ValidValue(Tag(p.key), p.val) {
      assert p in props;
    }
  }

  /** A step's progress with the entry index moved up by `k`. */
  function Shift(r: WalkProgress, k: nat): WalkProgress {
    match r
    case WalkDone(w) => r
    case WalkOn(s, m, c, j) => WalkOn(s, m, c, j + k)
  }

  /** One step at entry i looks at no entry other than props[i]. */
  lemma StepSuffix(src: Source, mem: Memory, cursor: int, props: seq<Property>, i: nat, k: nat)
    requires ValidProperties(props) && k <= i < |props|
    ensures ValidProperties(props[k..])
    ensures ObjectStep(src, mem, cursor, props, i) == Shift(ObjectStep(src, mem, cursor, props[k..], i - k), k)
  {
    SuffixValid(props, k);
    var rest := props[k..];
    assert rest[i - k] == props[i];
    match props[i]
    case NullKey(_) =>
    case Entry(key, val) =>
      if !(Tag(key) == KindObject && IsInlineEnd(val)) {
        KeySuffix(src, mem, cursor, props, i, k);
      }
  }

  /** The key step of entry i, likewise. */
  lemma KeySuffix(src: Source, mem: Memory, cursor: int, props: seq<Property>, i: nat, k: nat)
    requires ValidProperties(props) && k <= i < |props| && props[i].Entry?
    requires ValidProperties(props[k..])
    ensures ObjectKey(src, mem, cursor, props, i) == Shift(ObjectKey(src, mem, cursor, props[k..], i - k), k)
  {
    assert props[k..][i - k] == props[i];
    SameEntryKey(src, mem, cursor, props, i, props[k..], i - k);
  }

  /** The key step reads only the entry it is at: two lists with the same entry there take the same step. */
  lemma SameEntryKey(src: Source, mem: Memory, cursor: int, props: seq<Property>, i: nat, qs: seq<Property>, j: nat)
    requires ValidProperties(props) && i < |props| && props[i].Entry?
    requires ValidProperties(qs) && j <= i && j < |qs| && qs[j] == props[i]
    ensures ObjectKey(src, mem, cursor, props, i) == Shift(ObjectKey(src, mem, cursor, qs, j), i - j)
  {
    var p := props[i];
    var next := NextKey(src);
    if next.key.Some? && next.key.value == KeyName(p.key) {
      var v := Deserialize(next.src, mem, cursor, Tag(p.key), p.val);
      assert ObjectKey(src, mem, cursor, props, i) == if v.ok then WalkOn(v.src, v.mem, v.cursor, i + 1) else WalkDone(v);
      assert ObjectKey(src, mem, cursor, qs, j) == if v.ok then WalkOn(v.src, v.mem, v.cursor, j + 1) else WalkDone(v);
    }
  }

  /**
   * The walk from entry i is the walk of the entries from k <= i on:
   * the entries the walk has passed are never looked at again, so a key
   * that comes after the key of a later entry is not decoded.
   */
  lemma {:induction false} WalkSuffix(src: Source, mem: Memory, cursor: int, props: seq<Property>, i: nat, k: nat)
    requires ValidProperties(props) && k <= i < |props|
    ensures ValidProperties(props[k..])
    ensures ObjectWalk(src, mem, cursor, props, i) == ObjectWalk(src, mem, cursor, props[k..], i - k)
    decreases |props| - i, Unread(src), |src.remainder|
  {
    StepSuffix(src, mem, cursor, props, i, k);
    var rest := props[k..];
    match ObjectStep(src, mem, cursor, props, i)
    case WalkDone(w) =>
      assert ObjectStep(src, mem, cursor, rest, i - k) == WalkDone(w);
    case WalkOn(t, m, c, j) =>
      assert ObjectStep(src, mem, cursor, rest, i - k) == WalkOn(t, m, c, j - k);
      WalkSuffix(t, m, c, props, j, k);
      assert ObjectWalk(src, mem, cursor, rest, i - k) == ObjectWalk(t, m, c, rest, j - k);
  }

  /** In particular the walk from entry i depends only on the entries from i on. */
  lemma WalkFromEntry(src: Source, mem: Memory, cursor: int, props: seq<Property>, i: nat)
    requires ValidProperties(props) && i < |props|
    ensures ValidProperties(props[i..])
    ensures ObjectWalk(src, mem, cursor, props, i) == ObjectWalk(src, mem, cursor, props[i..], 0)
  {
    WalkSuffix(src, mem, cursor, props, i, i);
  }
}
