/** The decoder of src/parser/parser.rs in its own imperative form: the list
    and dictionary helpers run a `while` loop that reassigns `remaining` and
    grows `result`, and call back into the dispatch. Each method is proved to
    compute the function of the same name in module Decoder. */
module Parser {

  import opened Wrappers
  import opened Text
  import opened Numerals
  import opened Values
  import Decoder

  /** `decode_bencoded_val`: dispatch on the first character. */
  method DecodeVal(s: string) returns (r: Option<(Value, string)>)
    ensures r == Decoder.DecodeVal(s)
    decreases |s|, 1
  {
    if |s| == 0 {
      r := None;
    } else if IsDigit(s[0]) {
      r := Decoder.DecodeString(s);
    } else if s[0] == 'i' {
      r := Decoder.DecodeNumber(s);
    } else if s[0] == 'l' {
      r := DecodeList(s);
    } else if s[0] == 'd' {
      r := DecodeDict(s);
    } else {
      r := None;
    }
  }

  /** `decode_bencoded_list`. */
  method DecodeList(s: string) returns (r: Option<(Value, string)>)
    ensures r == Decoder.DecodeList(s)
    decreases |s|, 0
  {
    if |s| == 0 {
      return None;
    }
    var result: seq<Value> := [];
    var remaining := s[1..];
    Decoder.PrependNothing(Decoder.ListItems(remaining));
    while |remaining| > 0 && remaining[0] != 'e'
      invariant |remaining| < |s|
      invariant Decoder.ListItems(s[1..]) == Decoder.PrependItems(result, Decoder.ListItems(remaining))
      decreases |remaining|
    {
      var decoded := DecodeVal(remaining);
      if decoded.None? {
        return None;
      }
      var (v, rem) := decoded.value;
      assert Decoder.ListItems(remaining) == Decoder.PrependItems([v], Decoder.ListItems(rem));
      Decoder.PrependTwice(result, [v], Decoder.ListItems(rem));
      remaining := rem;
      result := result + [v];
    }
    if |remaining| == 0 {
      return None;
    }
    assert result + [] == result;
    remaining := remaining[1..];
    r := Some((List(result), remaining));
  }

  /** `decode_bencoded_dict`. */
  method DecodeDict(s: string) returns (r: Option<(Value, string)>)
    ensures r == Decoder.DecodeDict(s)
    decreases |s|, 0
  {
    if |s| == 0 {
      return None;
    }
    var result: map<string, Value> := map[];
    var remaining := s[1..];
    Decoder.MergeNothing(Decoder.DictEntries(remaining));
    while |remaining| > 0 && remaining[0] != 'e'
      invariant |remaining| < |s|
      invariant Decoder.DictEntries(s[1..]) == Decoder.MergeEntries(result, Decoder.DictEntries(remaining))
      decreases |remaining|
    {
      var key := Decoder.DecodeString(remaining);
      if key.None? {
        return None;
      }
      var value := DecodeVal(key.value.1);
      if value.None? {
        return None;
      }
      var k, v, rem := key.value.0.s, value.value.0, value.value.1;
      assert Decoder.DictEntries(remaining) == Decoder.MergeEntries(map[k := v], Decoder.DictEntries(rem));
      Decoder.MergeTwice(result, k, v, Decoder.DictEntries(rem));
      result := result[k := v];
      remaining := rem;
    }
    assert result + map[] == result;
    r := Some((Dict(result), ""));
  }

  /** `decode_bencoded_value`: the first value, ignoring the remainder. */
  method DecodeValue(s: string) returns (r: Option<Value>)
    ensures r == Decoder.DecodeValue(s)
  {
    var decoded := DecodeVal(s);
    if decoded.None? {
      return None;
    }
    var (v, _) := decoded.value;
    r := Some(v);
  }
}
