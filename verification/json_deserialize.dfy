/**
 * Reference semantics of the schema-driven deserialiser of
 * components/immjson/immjson.c: json_deserialize, json_deserialize_object
 * and json_deserialize_array.  The walk carries the destination memory
 * and the write cursor (`*out` in the source).
 */
module JsonDeserialize {
  import opened Wrappers
  import opened JsonTypes
  import opened JsonLexer
  import opened JsonValues
  import opened JsonSkip

  /** The outcome of a schema step: result, source, memory and write cursor. */
  datatype Walk = Walk(ok: bool, src: Source, mem: Memory, cursor: int)

  /** The depth json_deserialize_object passes when it skips values. */
  const SkipDepth: nat := 16

  /**
   * What the source asserts of a schema: every integer property has a bit
   * width between 1 and 64, and every property list ends with
   * OBJECT_PROPERTIES_END().
   */
  predicate ValidValue(tag: int, val: JsonValue)
    decreases val, 1
  {
    (tag == KindInteger && val.IntegerSpec? ==> 1 <= val.bitwidth <= UintmaxBits)
    && match val
       case ObjDesc(desc) => desc.Properties? ==> ValidProperties(desc.props)
       case ArrayDescribe(d) => ValidValue(d.itemTag, d.itemVal)
       case _ => true
  }

  predicate ValidProperties(props: seq<Property>)
    decreases props, 0
  {
    |props| > 0 && IsEnd(props[|props| - 1])
    && forall p :: p in props && p.Entry? ==> ValidValue(Tag(p.key), p.val)
  }

  /** `p->val.obj_desc == JSON_INLINE_OBJ_END`: NULL, written explicitly or left zero. */
  predicate IsInlineEnd(val: JsonValue) {
    val == ObjDesc(InlineEnd) || val == NoValue
  }

  /**
   * The number of bytes json_deserialize moves the cursor by before it
   * parses a value of a kind other than an object, whether or not the
   * parse then succeeds; None where the move depends on the value.
   */
  function FixedWidth(tag: int, val: JsonValue): Option<nat> {
    if tag == KindString then Some(PointerBytes)
    else if tag == KindDouble then Some(FloatBytes)
    else if tag == KindBool then Some(BoolBytes)
    else if tag == KindInteger && val.IntegerSpec? && val.bitwidth >= 1 then Some(IntegerBytes(val.bitwidth))
    else if tag == KindArray && val.ArrayDescribe? then Some(val.describe.exitBytes)
    else None
  }

  /**
   * json_deserialize: dispatches on the tag.  Strings, floats, integers and
   * booleans are written at the cursor, which first moves past the slot;
   * an array moves the cursor to the exitpoint of its description.
   */
  function Deserialize(src: Source, mem: Memory, cursor: int, tag: int, val: JsonValue): (r: Walk)
    requires ValidValue(tag, val)
    ensures Advances(src, r.src)
    ensures FixedWidth(tag, val).Some? ==> r.cursor == cursor + FixedWidth(tag, val).value
    decreases val, 0
  {
    if tag == KindCustom then
      if val.CustomFn? then Walk(val.hook.succeeds, src, mem, cursor + val.hook.advance)
      else Walk(false, src, mem, cursor)
    else if tag == KindObject then
      if val.ObjDesc? then DeserializeObject(src, mem, cursor, val.desc)
      else Walk(false, src, mem, cursor)
    else if tag == KindArray then
      if val.ArrayDescribe? then ArrayAt(src, mem, cursor, val.describe)
      else Walk(false, src, mem, cursor)
    else StoreValue(src, mem, cursor, tag, val)
  }

  /** The KIND_ARRAY case of json_deserialize: the cursor moves to the exitpoint, the items go from the old cursor on. */
  function ArrayAt(src: Source, mem: Memory, cursor: int, d: ArrayDescriber): (r: Walk)
    requires ValidValue(d.itemTag, d.itemVal)
    ensures Advances(src, r.src) && r.cursor == cursor + d.exitBytes
    decreases d.itemVal, 4
  {
    var desc := Describe(d, cursor);
    var a := DeserializeArray(src, mem, cursor, desc);
    Walk(a.ok, a.src, a.mem, desc.exitpoint)
  }

  /** The cases of json_deserialize that store one scalar at the cursor; any other tag fails. */
  function StoreValue(src: Source, mem: Memory, cursor: int, tag: int, val: JsonValue): (r: Walk)
    requires tag == KindInteger && val.IntegerSpec? ==> 1 <= val.bitwidth <= UintmaxBits
    ensures Advances(src, r.src)
    ensures tag != KindArray && FixedWidth(tag, val).Some? ==> r.cursor == cursor + FixedWidth(tag, val).value
  {
    if tag == KindString then StoreString(src, mem, cursor)
    else if tag == KindDouble then StoreNumber(src, mem, cursor)
    else if tag == KindInteger then
      if val.IntegerSpec? then StoreInteger(src, mem, cursor, val.isSigned, val.bitwidth)
      else Walk(false, src, mem, cursor)
    else if tag == KindBool then StoreBool(src, mem, cursor)
    else Walk(false, src, mem, cursor)
  }

  /** KIND_STRING: the string json_expect_string hands out is stored in the pointer slot. */
  function StoreString(src: Source, mem: Memory, cursor: int): (r: Walk)
    ensures Advances(src, r.src) && r.cursor == cursor + PointerBytes
    ensures r.ok ==> r.mem == mem.(strings := mem.strings[cursor := ExpectString(src).str])
    ensures !r.ok ==> r.mem == mem
  {
    var str := ExpectString(src);
    var m := if str.ok then mem.(strings := mem.strings[cursor := str.str]) else mem;
    Walk(str.ok, str.src, m, cursor + PointerBytes)
  }

  /** KIND_DOUBLE: the number json_expect_float converts is stored in the float slot. */
  function StoreNumber(src: Source, mem: Memory, cursor: int): (r: Walk)
    ensures Advances(src, r.src) && r.cursor == cursor + FloatBytes
    ensures r.ok ==> r.mem == mem.(numbers := mem.numbers[cursor := ExpectNumber(src).num])
    ensures !r.ok ==> r.mem == mem
  {
    var n := ExpectNumber(src);
    var m := if n.ok then mem.(numbers := mem.numbers[cursor := n.num]) else mem;
    Walk(n.ok, n.src, m, cursor + FloatBytes)
  }

  /** KIND_INTEGER: the bytes json_expect_integer stores, from the cursor on. */
  function StoreInteger(src: Source, mem: Memory, cursor: int, isSigned: bool, bitwidth: nat): (r: Walk)
    requires 1 <= bitwidth <= UintmaxBits
    ensures Advances(src, r.src) && r.cursor == cursor + IntegerBytes(bitwidth)
    ensures r.ok ==> r.mem == mem.(bytes := WriteBytes(mem.bytes, cursor, ExpectInteger(src, isSigned, bitwidth).bytes))
    ensures !r.ok ==> r.mem == mem
  {
    var i := ExpectInteger(src, isSigned, bitwidth);
    var m := if i.ok then mem.(bytes := WriteBytes(mem.bytes, cursor, i.bytes)) else mem;
    Walk(i.ok, i.src, m, cursor + IntegerBytes(bitwidth))
  }

  /** KIND_BOOL: one byte, 1 for true and 0 for false. */
  function StoreBool(src: Source, mem: Memory, cursor: int): (r: Walk)
    ensures Advances(src, r.src) && r.cursor == cursor + BoolBytes
    ensures r.ok ==> r.mem == mem.(bytes := mem.bytes[cursor := if ExpectBool(src).value then 1 else 0])
    ensures !r.ok ==> r.mem == mem
  {
    var b := ExpectBool(src);
    var m := if b.ok then mem.(bytes := mem.bytes[cursor := if b.value then 1 else 0]) else mem;
    Walk(b.ok, b.src, m, cursor + BoolBytes)
  }

  /**
   * json_deserialize_object: expects '{'; JSON_INLINE_OBJ_BEGIN stops
   * there (the following properties of the enclosing list are read inside
   * the object), a property list is walked.  A NULL list is dereferenced
   * by the source; the model reports failure.
   */
  function DeserializeObject(src: Source, mem: Memory, cursor: int, desc: ObjectDescriptor): (r: Walk)
    requires desc.Properties? ==> ValidProperties(desc.props)
    ensures Advances(src, r.src)
    decreases desc, 2
  {
    var begin := BeginObject(src);
    if !begin.ok then Walk(false, begin.src, mem, cursor)
    else match desc
      case InlineBegin => Walk(true, begin.src, mem, cursor)
      case InlineEnd => Walk(false, begin.src, mem, cursor)
      case Properties(props) => ObjectWalk(begin.src, mem, cursor, props, 0)
  }

  /** What one pass of json_deserialize_object's loop leaves: a result, or the state and property index for the next pass. */
  datatype WalkProgress = WalkDone(walk: Walk) | WalkOn(src: Source, mem: Memory, cursor: int, i: nat)

  /** One pass may stay at property i only if it consumed input. */
  predicate Progresses(src: Source, i: nat, r: WalkProgress) {
    r.WalkOn? ==> Advances(src, r.src) && (r.i == i + 1 || (r.i == i && After(src, r.src)))
  }

  /** The loop of json_deserialize_object from property `i` on. */
  function ObjectWalk(src: Source, mem: Memory, cursor: int, props: seq<Property>, i: nat): (r: Walk)
    requires ValidProperties(props) && i < |props|
    ensures Advances(src, r.src)
    decreases Properties(props), 1, |props| - i, Unread(src), |src.remainder|
  {
    match ObjectStep(src, mem, cursor, props, i)
    case WalkDone(w) => w
    case WalkOn(t, m, c, j) => ObjectWalk(t, m, c, props, j)
  }

  /**
   * One pass of the loop of json_deserialize_object at property `i`.
   * Padding moves the cursor; the terminator closes the object; an inline
   * end skips the remaining keys of the inline object and closes it;
   * otherwise one key is read.
   */
  function ObjectStep(src: Source, mem: Memory, cursor: int, props: seq<Property>, i: nat): (r: WalkProgress)
    requires ValidProperties(props) && i < |props|
    ensures r.WalkDone? ==> Advances(src, r.walk.src)
    ensures Progresses(src, i, r) && (r.WalkOn? ==> r.i < |props|)
    decreases Properties(props), 0, 1
  {
    match props[i]
    case NullKey(padding) =>
      if padding == UintptrMax then WalkDone(CloseObject(src, mem, cursor))
      else WalkOn(src, mem, cursor + padding, i + 1)
    case Entry(key, val) =>
      if Tag(key) == KindObject && IsInlineEnd(val) then
        var end := FinishObject(src);
        if !end.ok then WalkDone(Walk(false, end.src, mem, cursor)) else WalkOn(end.src, mem, cursor, i + 1)
      else ObjectKey(src, mem, cursor, props, i)
  }

  /** The end of an inline object: skips the keys left, ignoring the result, and expects '}'. */
  function FinishObject(src: Source): (r: Step)
    ensures Advances(src, r.src)
  {
    var skipped := SkipToKey(src, SkipDepth, None);
    EndObject(skipped.src)
  }

  /**
   * One key read by the loop of json_deserialize_object for the property
   * `props[i]`: the property's key is decoded into the cursor; any other
   * key has its value skipped and the same property is tried again after a
   * ',' that must follow directly, the object being closed when it does not.
   */
  function ObjectKey(src: Source, mem: Memory, cursor: int, props: seq<Property>, i: nat): (r: WalkProgress)
    requires ValidProperties(props) && i < |props| && props[i].Entry?
    ensures r.WalkDone? ==> Advances(src, r.walk.src)
    ensures Progresses(src, i, r) && (r.WalkOn? ==> r.i < |props|)
    decreases Properties(props), 0, 0
  {
    var key := props[i].key;
    assert props[i] in props && i + 1 < |props|;
    var k := NextKey(src);
    if k.key.None? then WalkDone(Walk(false, k.src, mem, cursor))
    else if k.key.value != KeyName(key) then
      match OtherKey(k.src)
      case SkipDone(step) => WalkDone(Walk(step.ok, step.src, mem, cursor))
      case SkipOn(t) => WalkOn(t, mem, cursor, i)
    else
      var v := Deserialize(k.src, mem, cursor, Tag(key), props[i].val);
      if !v.ok then WalkDone(v)
      else WalkOn(v.src, v.mem, v.cursor, i + 1)
  }

  /**
   * A key the property does not name: its value is skipped, and unless a
   * ',' follows directly the object is closed, which ends the walk.
   */
  function OtherKey(src: Source): (r: SkipProgress)
    ensures r.SkipDone? ==> Advances(src, r.step.src)
    ensures r.SkipOn? ==> Advances(src, r.src) && After(src, r.src)
  {
    var skipped := SkipMismatch(src);
    if !skipped.skipped then SkipDone(Step(false, skipped.src))
    else if !skipped.comma then SkipDone(FinishObject(skipped.src))
    else SkipOn(skipped.src)
  }

  /** The value of a key the property does not name, skipped; then whether a ',' follows directly. */
  datatype Mismatch = Mismatch(skipped: bool, comma: bool, src: Source)

  function SkipMismatch(src: Source): (r: Mismatch)
    ensures Advances(src, r.src)
    ensures r.comma ==> r.skipped && After(src, r.src)
  {
    var skipped := IgnoreAny(src, SkipDepth);
    if !skipped.ok then Mismatch(false, false, skipped.src)
    else
      var comma := ReadExpectChar(skipped.src, ',');
      Mismatch(true, comma.ok, comma.src)
  }

  /** The end of json_deserialize_object: skips the keys left, ignoring the result, and expects '}'. */
  function CloseObject(src: Source, mem: Memory, cursor: int): (r: Walk)
    ensures Advances(src, r.src) && r.mem == mem && r.cursor == cursor
  {
    var end := FinishObject(src);
    Walk(end.ok, end.src, mem, cursor)
  }

  /**
   * json_deserialize_array: expects '[', accepts an empty array, otherwise
   * decodes items into the slots the reserve callback returns for indices
   * 0, 1, ... while they are separated by ','; a NULL slot fails.
   */
  function DeserializeArray(src: Source, mem: Memory, out: int, desc: ArrayDescription): (r: Walk)
    requires ValidValue(desc.itemTag, desc.itemVal)
    ensures Advances(src, r.src) && r.cursor == out
    decreases desc.itemVal, 3
  {
    var open := TrimLeftExpectChar(src, '[');
    if !open.ok then Walk(false, open.src, mem, out)
    else
      var close := TrimLeftExpectChar(open.src, ']');
      if close.ok then Walk(true, close.src, mem, out)
      else DeserializeItems(close.src, mem, out, desc, 0)
  }

  /** The do-while loop of json_deserialize_array from item `i` on. */
  function DeserializeItems(src: Source, mem: Memory, out: int, desc: ArrayDescription, i: nat): (r: Walk)
    requires ValidValue(desc.itemTag, desc.itemVal)
    ensures Advances(src, r.src) && r.cursor == out
    decreases desc.itemVal, 2, Unread(src), |src.remainder|
  {
    match Reserve(desc.reserve, out, i)
    case None => Walk(false, src, mem, out)
    case Some(slot) =>
      var item := Deserialize(src, mem, slot, desc.itemTag, desc.itemVal);
      if !item.ok then Walk(false, item.src, item.mem, out)
      else
        var comma := TrimLeftExpectChar(item.src, ',');
        if comma.ok then DeserializeItems(comma.src, item.mem, out, desc, i + 1)
        else
          var end := ReadExpectChar(comma.src, ']');
          Walk(end.ok, end.src, item.mem, out)
  }
}
