/**
 * Reference semantics of the skipping routines of
 * components/immjson/immjson.c: json_ignore_any, json_ignore_object,
 * json_ignore_array and json_skip_to_key.  `maxDepth` is decremented on
 * entry to json_ignore_any and again on entry to the object and array
 * skippers, so every level of nesting costs two units.
 */
module JsonSkip {
  import opened Wrappers
  import opened JsonTypes
  import opened JsonLexer
  import opened JsonValues

  /**
   * The bytes json_ignore_any hands to json_expect_number: '-' and the
   * bytes with `(unsigned char)(c - '0') < 9`, i.e. '0' to '8'.
   */
  predicate StartsNumberToIgnore(c: char) {
    c == '-' || ((c as int) - ('0' as int)) % 256 < 9
  }

  /**
   * json_ignore_any: fails at depth 0; otherwise trims whitespace and skips
   * the value that starts at the next byte, one level deeper.
   */
  function IgnoreAny(s: Source, maxDepth: nat): (r: Step)
    ensures Advances(s, r.src)
    ensures maxDepth == 0 ==> !r.ok
    decreases maxDepth, 0, 0
  {
    if maxDepth == 0 then Step(false, s)
    else IgnoreValue(TrimLeftExpectChar(s, ' ').src, maxDepth - 1)
  }

  /**
   * The switch of json_ignore_any: peeks the next byte and skips the value
   * it starts; the end of the stream and any other byte are failures.
   */
  function IgnoreValue(t: Source, depth: nat): (r: Step)
    ensures Advances(t, r.src)
    decreases depth, 3, 0
  {
    if t.remainder == [] then Step(false, t)
    else
      var cur := t.remainder[0];
      if cur == 't' || cur == 'f' then
        var b := ExpectBool(t);
        Step(b.ok, b.src)
      else if cur == 'n' then ExpectNull(t)
      else if cur == '"' then
        var str := ExpectString(t);
        Step(str.ok, str.src)
      else if cur == '{' then IgnoreObject(t, depth)
      else if cur == '[' then IgnoreArray(t, depth)
      else if StartsNumberToIgnore(cur) then
        var n := ExpectNumber(t);
        Step(n.ok, n.src)
      else Step(false, t)
  }

  /** What one pass of json_skip_to_key's loop leaves: a result, or the source for the next pass. */
  datatype SkipProgress = SkipDone(step: Step) | SkipOn(src: Source)

  /**
   * json_skip_to_key: reads keys and skips their values until the key
   * `key` is read (true) or no further key can be read (true exactly when
   * no key was sought); a value that cannot be skipped is a failure.
   */
  function SkipToKey(s: Source, maxDepth: nat, key: Option<seq<char>>): (r: Step)
    ensures Advances(s, r.src)
    decreases maxDepth, 1, Unread(s), |s.remainder|, 1
  {
    match SkipMember(s, maxDepth, key)
    case SkipDone(step) => step
    case SkipOn(t) => SkipToKey(t, maxDepth, key)
  }

  /** One pass of json_skip_to_key's loop: one key, and its value unless the key is the one sought. */
  function SkipMember(s: Source, maxDepth: nat, key: Option<seq<char>>): (r: SkipProgress)
    ensures r.SkipDone? ==> Advances(s, r.step.src)
    ensures r.SkipOn? ==> Advances(s, r.src) && After(s, r.src)
    decreases maxDepth, 1, Unread(s), |s.remainder|, 0
  {
    var k := NextKey(s);
    if k.key.None? then SkipDone(Step(key.None?, k.src))
    else if key.Some? && key.value == k.key.value then SkipDone(Step(true, k.src))
    else
      var v := IgnoreAny(k.src, maxDepth);
      if !v.ok then SkipDone(Step(false, v.src)) else SkipOn(v.src)
  }

  /** json_ignore_object: fails at depth 0, then needs '{' and skips the members one level deeper. */
  function IgnoreObject(s: Source, maxDepth: nat): (r: Step)
    ensures Advances(s, r.src)
    ensures maxDepth == 0 ==> !r.ok
    decreases maxDepth, 2, 0
  {
    if maxDepth == 0 then Step(false, s)
    else
      var open := TrimLeftExpectChar(s, '{');
      if !open.ok then open else ObjectMembers(open.src, maxDepth - 1)
  }

  /**
   * json_ignore_object after the opening brace: an immediate '}' closes an
   * empty object; otherwise every member is skipped and '}' must follow
   * the last one directly.
   */
  function ObjectMembers(s: Source, depth: nat): (r: Step)
    ensures Advances(s, r.src)
    decreases depth, 2, 0
  {
    var close := TrimLeftExpectChar(s, '}');
    if close.ok then close
    else
      var members := SkipToKey(close.src, depth, None);
      if !members.ok then members
      else
        var end := ReadExpectChar(members.src, '}');
        Step(end.ok, end.src)
  }

  /** json_ignore_array: fails at depth 0, then needs '[' and skips the items one level deeper. */
  function IgnoreArray(s: Source, maxDepth: nat): (r: Step)
    ensures Advances(s, r.src)
    ensures maxDepth == 0 ==> !r.ok
    decreases maxDepth, 2, 0
  {
    if maxDepth == 0 then Step(false, s)
    else
      var open := TrimLeftExpectChar(s, '[');
      if !open.ok then open else ArrayItems(open.src, maxDepth - 1)
  }

  /** json_ignore_array after the opening bracket: an immediate ']' closes an empty array. */
  function ArrayItems(s: Source, depth: nat): (r: Step)
    ensures Advances(s, r.src)
    decreases depth, 2, 0
  {
    var close := TrimLeftExpectChar(s, ']');
    if close.ok then close else IgnoreItems(close.src, depth)
  }

  /** The do-while loop of json_ignore_array: values separated by ',' and a final ']'. */
  function IgnoreItems(s: Source, maxDepth: nat): (r: Step)
    ensures Advances(s, r.src)
    decreases maxDepth, 1, Unread(s), |s.remainder|
  {
    var item := IgnoreAny(s, maxDepth);
    if !item.ok then item
    else
      var comma := TrimLeftExpectChar(item.src, ',');
      if comma.ok then IgnoreItems(comma.src, maxDepth)
      else
        var end := ReadExpectChar(comma.src, ']');
        Step(end.ok, end.src)
  }
}
