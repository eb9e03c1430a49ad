/** The decoded value tree, standing in for the `serde_json::Value` the
    decoder builds: integers, strings, lists and string-keyed dictionaries. */
module Values {

  datatype Value =
    | Int(n: int)
    | Str(s: string)
    | List(items: seq<Value>)
    | Dict(entries: map<string, Value>)
}

/** The recursive-descent bencode decoder of src/parser/parser.rs, as pure
    functions. Every helper takes the remaining input and returns the decoded
    value with what is left of the input; `None` is a panic of the source. */
module Decoder {

  import opened Wrappers
  import opened Text
  import opened Numerals
  import opened Values

  /** `decode_bencoded_number`: skip the marker, read up to the first `e`,
      parse as i64, and continue after the `e`. */
  function DecodeNumber(s: string): (r: Option<(Value, string)>)
    ensures r.Some? ==> r.value.0.Int? && MinI64 <= r.value.0.n <= MaxI64
    ensures r.Some? ==> 'e' in s && |r.value.1| < |s|
  {
    match Find(s, 'e')
    case None => None
    case Some(k) =>
      if k < 1 then None  // the slice [1..k] would start after its end
      else
        match ParseI64(s[1..k])
        case None => None
        case Some(n) => Some((Int(n), s[k + 1..]))
  }

  /** `decode_bencoded_string`: the text before the first `:` is parsed as
      an i64 length, and that many characters after the colon are taken. A
      negative length, cast to `usize`, gives a slice out of range. */
  function DecodeString(s: string): (r: Option<(Value, string)>)
    ensures r.Some? ==> r.value.0.Str? && ':' in s && |r.value.1| < |s|
  {
    match Find(s, ':')
    case None => None
    case Some(k) =>
      match ParseI64(s[..k])
      case None => None
      case Some(n) =>
        if n < 0 || k + 1 + n > |s| then None
        else Some((Str(s[k + 1..k + 1 + n]), s[k + 1 + n..]))
  }

  /** `decode_bencoded_val`: the first character picks the helper. Success
      means the input began with a marker of the kind returned and that the
      remainder is shorter than the input; a dictionary leaves nothing. */
  function DecodeVal(s: string): (r: Option<(Value, string)>)
    ensures r.Some? ==> |s| > 0 && |r.value.1| < |s|
    ensures r.Some? ==>
              || (IsDigit(s[0]) && r.value.0.Str?)
              || (s[0] == 'i' && r.value.0.Int?)
              || (s[0] == 'l' && r.value.0.List?)
              || (s[0] == 'd' && r.value.0.Dict? && r.value.1 == "")
    decreases |s|, 2
  {
    if |s| == 0 then None
    else if IsDigit(s[0]) then DecodeString(s)
    else if s[0] == 'i' then DecodeNumber(s)
    else if s[0] == 'l' then DecodeList(s)
    else if s[0] == 'd' then DecodeDict(s)
    else None
  }

  /** `decode_bencoded_list`: the elements after the marker, up to and
      including the closing `e`. */
  function DecodeList(s: string): (r: Option<(Value, string)>)
    ensures r.Some? ==> r.value.0.List? && |r.value.1| < |s|
    decreases |s|, 1
  {
    if |s| == 0 then None
    else
      match ListItems(s[1..])
      case None => None
      case Some((items, rest)) =>
        Some((List(items), rest))
  }

  /** What the list loop makes of a list body: elements in wire order, each
      decoded from the previous one's remainder, until an `e`, which is
      consumed. Running out of input first makes `&remaining[1..]` panic. */
  function ListItems(r: string): (res: Option<(seq<Value>, string)>)
    ensures res.Some? ==> |res.value.1| < |r|
    decreases |r|, 3
  {
    if |r| == 0 then None
    else if r[0] == 'e' then Some(([], r[1..]))
    else
      match DecodeVal(r)
      case None => None
      case Some((v, r')) =>
        match ListItems(r')
        case None => None
        case Some((vs, rest)) =>
          Some(([v] + vs, rest))
  }

  /** `decode_bencoded_dict`: the entries after the marker. The closing `e`
      is never consumed and the remainder handed back is always empty. */
  function DecodeDict(s: string): (r: Option<(Value, string)>)
    ensures r.Some? ==> r.value.0.Dict? && r.value.1 == ""
    decreases |s|, 1
  {
    if |s| == 0 then None
    else
      match DictEntries(s[1..])
      case None => None
      case Some(m) => Some((Dict(m), ""))
  }

  /** What the dictionary loop makes of a dictionary body: key/value pairs
      until an `e` or the end of the input, each key read with the string
      rule and each value with the general rule; a later pair wins. */
  function DictEntries(r: string): (res: Option<map<string, Value>>)
    decreases |r|, 3
  {
    if |r| == 0 || r[0] == 'e' then Some(map[])
    else
      match DecodeString(r)
      case None => None
      case Some((key, r')) =>
        match DecodeVal(r')
        case None => None
        case Some((v, r'')) =>
          match DictEntries(r'')
          case None => None
          case Some(m) => Some(map[key.s := v] + m)
  }

  /** `decode_bencoded_value`: the first value; any remainder is dropped.
      Success means the input began with a marker of the kind returned. */
  function DecodeValue(s: string): (r: Option<Value>)
    ensures r.Some? ==> |s| > 0
    ensures r.Some? ==>
              || (IsDigit(s[0]) && r.value.Str?)
              || (s[0] == 'i' && r.value.Int?)
              || (s[0] == 'l' && r.value.List?)
              || (s[0] == 'd' && r.value.Dict?)
  {
    match DecodeVal(s)
    case None => None
    case Some((v, _)) => Some(v)
  }

  /** Elements decoded so far, put in front of those still to come. */
  function PrependItems(vs: seq<Value>, o: Option<(seq<Value>, string)>): Option<(seq<Value>, string)>
  {
    match o
    case None => None
    case Some((ws, rest)) => Some((vs + ws, rest))
  }

  /** Entries inserted so far, overwritten by those still to come. */
  function MergeEntries(m: map<string, Value>, o: Option<map<string, Value>>): Option<map<string, Value>>
  {
    match o
    case None => None
    case Some(m') => Some(m + m')
  }

  lemma PrependNothing(o: Option<(seq<Value>, string)>)
    ensures PrependItems([], o) == o
  {
    if o.Some? {
      assert [] + o.value.0 == o.value.0;
    }
  }

  lemma PrependTwice(vs: seq<Value>, ws: seq<Value>, o: Option<(seq<Value>, string)>)
    ensures PrependItems(vs, PrependItems(ws, o)) == PrependItems(vs + ws, o)
  {
    if o.Some? {
      assert vs + (ws + o.value.0) == (vs + ws) + o.value.0;
    }
  }

  lemma MergeNothing(o: Option<map<string, Value>>)
    ensures MergeEntries(map[], o) == o
  {
    if o.Some? {
      assert map[] + o.value == o.value;
    }
  }

  lemma MergeTwice(m: map<string, Value>, k: string, v: Value, o: Option<map<string, Value>>)
    ensures MergeEntries(m, MergeEntries(map[k := v], o)) == MergeEntries(m[k := v], o)
  {
    if o.Some? {
      assert m + (map[k := v] + o.value) == m[k := v] + o.value;
    }
  }

  lemma MergeAssociative(m: map<string, Value>, m': map<string, Value>, o: Option<map<string, Value>>)
    ensures MergeEntries(m, MergeEntries(m', o)) == MergeEntries(m + m', o)
  {
    if o.Some? {
      assert m + (m' + o.value) == (m + m') + o.value;
    }
  }
}
