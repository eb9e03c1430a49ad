/** The unit tests of src/parser/parser.rs, and the quirks of the decoder
    that they do not show, as facts about concrete inputs. */
module ParserTests {

  import opened Wrappers
  import opened Numerals
  import opened Values
  import opened Decoder
  import opened DecoderProperties

  // Building blocks: small encodings whose decoding is known.

  lemma StrPiece(w: string, lit: string)
    requires |w| <= MaxI64 && lit == EncodeString(w)
    ensures Decodes(lit, Str(w))
  {
    StringDecodes(w);
  }

  lemma IntPiece(n: int, lit: string)
    requires MinI64 <= n <= MaxI64 && lit == EncodeInt(n)
    ensures Decodes(lit, Int(n))
  {
    IntDecodes(n);
  }

  lemma ListOfTwo(p1: string, v1: Value, p2: string, v2: Value)
    requires Decodes(p1, v1) && Decodes(p2, v2)
    ensures Decodes("l" + p1 + p2 + "e", List([v1, v2]))
  {
    var ps, vs := [p1, p2], [v1, v2];
    ConcatTwo(p1, p2);
    ElementsTwo(p1, v1, p2, v2);
    ListDecodes(ps, vs);
    SameConcat("l", Concat(ps), p1, p2, "e");
  }

  lemma ListOfThree(p1: string, v1: Value, p2: string, v2: Value, p3: string, v3: Value)
    requires Decodes(p1, v1) && Decodes(p2, v2) && Decodes(p3, v3)
    ensures Decodes("l" + p1 + p2 + p3 + "e", List([v1, v2, v3]))
  {
    var ps, vs := [p1, p2, p3], [v1, v2, v3];
    ConcatThree(p1, p2, p3);
    ElementsThree(p1, v1, p2, v2, p3, v3);
    ListDecodes(ps, vs);
    SameConcat3("l", Concat(ps), p1, p2, p3, "e");
  }

  lemma SameConcat(a: string, m: string, x: string, y: string, z: string)
    requires m == x + y
    ensures a + m + z == a + x + y + z
  {
  }

  lemma SameConcat2(a: string, m: string, x: string, y: string, z: string, t: string)
    requires m == x + y
    ensures a + m + z + t == a + x + y + z + t
    ensures a + m == a + x + y
  {
  }

  lemma SameConcat3(a: string, m: string, x: string, y: string, w: string, z: string)
    requires m == x + y + w
    ensures a + m + z == a + x + y + w + z
  {
  }

  lemma SameConcat4(a: string, m: string, x: string, y: string, w: string, u: string, z: string, t: string)
    requires m == x + y + w + u
    ensures a + m + z + t == a + x + y + w + u + z + t
    ensures z == t == "" ==> a + m == a + x + y + w + u
  {
    if z == t == "" {
      assert a + m + z + t == a + m;
      assert a + x + y + w + u + z + t == a + x + y + w + u;
    }
  }

  lemma SameConcat6(a: string, m: string, x1: string, x2: string, x3: string, x4: string,
                    x5: string, x6: string, z: string, t: string)
    requires m == x1 + x2 + x3 + x4 + x5 + x6
    ensures a + m + z + t == a + x1 + x2 + x3 + x4 + x5 + x6 + z + t
  {
  }

  lemma ConcatTwo(p1: string, p2: string)
    ensures Concat([p1, p2]) == p1 + p2
  {
    assert [p1, p2][1..] == [p2] && Concat([p2]) == p2 + "";
  }

  lemma ConcatThree(p1: string, p2: string, p3: string)
    ensures Concat([p1, p2, p3]) == p1 + p2 + p3
  {
    assert [p1, p2, p3][1..] == [p2, p3];
    ConcatTwo(p2, p3);
  }

  lemma ElementsTwo(p1: string, v1: Value, p2: string, v2: Value)
    requires Decodes(p1, v1) && Decodes(p2, v2)
    ensures forall i :: 0 <= i < 2 ==> Decodes([p1, p2][i], [v1, v2][i])
  {
    forall i | 0 <= i < 2
      ensures Decodes([p1, p2][i], [v1, v2][i])
    {
      if i == 0 { assert [p1, p2][i] == p1; } else { assert [p1, p2][i] == p2; }
    }
  }

  lemma ElementsThree(p1: string, v1: Value, p2: string, v2: Value, p3: string, v3: Value)
    requires Decodes(p1, v1) && Decodes(p2, v2) && Decodes(p3, v3)
    ensures forall i :: 0 <= i < 3 ==> Decodes([p1, p2, p3][i], [v1, v2, v3][i])
  {
    forall i | 0 <= i < 3
      ensures Decodes([p1, p2, p3][i], [v1, v2, v3][i])
    {
      if i == 0 {
        assert [p1, p2, p3][i] == p1;
      } else if i == 1 {
        assert [p1, p2, p3][i] == p2;
      } else {
        assert [p1, p2, p3][i] == p3;
      }
    }
  }

  lemma DictOfTwo(k1: string, p1: string, v1: Value, k2: string, p2: string, v2: Value, rest: string)
    requires |k1| <= MaxI64 && |k2| <= MaxI64
    requires Decodes(p1, v1) && Decodes(p2, v2)
    ensures DecodeVal("d" + EncodeString(k1) + p1 + EncodeString(k2) + p2 + "e" + rest)
         == Some((Dict(map[k1 := v1][k2 := v2]), ""))
  {
    var ks, ps, vs := [k1, k2], [p1, p2], [v1, v2];
    TwoPairs(k1, p1, v1, k2, p2, v2);
    ElementsTwo(p1, v1, p2, v2);
    DictDecodes(ks, ps, vs, rest);
    SameConcat4("d", Pairs(ks, ps), EncodeString(k1), p1, EncodeString(k2), p2, "e", rest);
  }

  /** The sequence form of two key/value pairs. */
  lemma TwoPairs(k1: string, p1: string, v1: Value, k2: string, p2: string, v2: Value)
    requires |k1| <= MaxI64 && |k2| <= MaxI64
    ensures forall i :: 0 <= i < 2 ==> |[k1, k2][i]| <= MaxI64
    ensures Pairs([k1, k2], [p1, p2]) == EncodeString(k1) + p1 + EncodeString(k2) + p2
    ensures Inserted([k1, k2], [v1, v2]) == map[k1 := v1][k2 := v2]
  {
    var ks, ps, vs := [k1, k2], [p1, p2], [v1, v2];
    assert ks[1..] == [k2] && ps[1..] == [p2] && vs[1..] == [v2];
    assert Pairs([k2], [p2]) == EncodeString(k2) + p2 + "";
    assert Inserted([k2], [v2]) == map[k2 := v2] + map[];
  }

  /** A dictionary of three pairs, each key inserted in turn. */
  lemma DictOfThree(k1: string, p1: string, v1: Value, k2: string, p2: string, v2: Value,
                    k3: string, p3: string, v3: Value, rest: string)
    requires |k1| <= MaxI64 && |k2| <= MaxI64 && |k3| <= MaxI64
    requires Decodes(p1, v1) && Decodes(p2, v2) && Decodes(p3, v3)
    ensures DecodeVal("d" + EncodeString(k1) + p1 + EncodeString(k2) + p2 + EncodeString(k3) + p3 + "e" + rest)
         == Some((Dict(map[k1 := v1][k2 := v2][k3 := v3]), ""))
  {
    var ks, ps, vs := [k1, k2, k3], [p1, p2, p3], [v1, v2, v3];
    ThreePairs(k1, p1, v1, k2, p2, v2, k3, p3, v3);
    ElementsThree(p1, v1, p2, v2, p3, v3);
    DictDecodes(ks, ps, vs, rest);
    SameConcat6("d", Pairs(ks, ps), EncodeString(k1), p1, EncodeString(k2), p2, EncodeString(k3), p3, "e", rest);
  }

  /** The sequence form of three key/value pairs. */
  lemma ThreePairs(k1: string, p1: string, v1: Value, k2: string, p2: string, v2: Value,
                   k3: string, p3: string, v3: Value)
    requires |k1| <= MaxI64 && |k2| <= MaxI64 && |k3| <= MaxI64
    ensures forall i :: 0 <= i < 3 ==> |[k1, k2, k3][i]| <= MaxI64
    ensures Pairs([k1, k2, k3], [p1, p2, p3])
         == EncodeString(k1) + p1 + EncodeString(k2) + p2 + EncodeString(k3) + p3
    ensures Inserted([k1, k2, k3], [v1, v2, v3]) == map[k1 := v1][k2 := v2][k3 := v3]
  {
    var ks, ps, vs := [k1, k2, k3], [p1, p2, p3], [v1, v2, v3];
    assert ks[1..] == [k2, k3] && ps[1..] == [p2, p3] && vs[1..] == [v2, v3];
    TwoPairs(k2, p2, v2, k3, p3, v3);
  }

  /** A dictionary whose only value is a dictionary. */
  lemma DictOfDict(k: string, t: string)
    requires |k| <= MaxI64
    requires |t| > 0 && t[0] == 'd' && DecodeVal(t).Some?
    ensures DecodeVal("d" + EncodeString(k) + t) == Some((Dict(map[k := DecodeVal(t).value.0]), ""))
  {
    var s := "d" + EncodeString(k) + t;
    assert s[0] == 'd';
    assert s[1..] == EncodeString(k) + t;
    DictValueIsDict(k, t);
  }

  /** A dictionary of one pair, closed or left open at the end of the input. */
  lemma DictOfOne(k: string, p: string, v: Value, rest: string)
    requires |k| <= MaxI64 && Decodes(p, v)
    ensures DecodeVal("d" + EncodeString(k) + p + "e" + rest) == Some((Dict(map[k := v]), ""))
    ensures DecodeVal("d" + EncodeString(k) + p) == Some((Dict(map[k := v]), ""))
  {
    var ks, ps, vs := [k], [p], [v];
    forall i | 0 <= i < 1
      ensures |ks[i]| <= MaxI64 && Decodes(ps[i], vs[i])
    {
    }
    assert Pairs(ks, ps) == EncodeString(k) + p + Pairs([], []);
    assert Pairs(ks, ps) == EncodeString(k) + p;
    assert Inserted(ks, vs) == map[k := v] + map[] == map[k := v];
    DictDecodes(ks, ps, vs, rest);
    DictUnterminatedAccepted(ks, ps, vs);
    SameConcat2("d", Pairs(ks, ps), EncodeString(k), p, "e", rest);
  }

  // The unit tests of src/parser/parser.rs.

  lemma TestDecodeInt()
    ensures DecodeValue("i3e") == Some(Int(3))
  {
    IntPiece(3, "i3e");
    DecodeValueIgnoresTrailing("i3e", Int(3), "");
    assert "i3e" + "" == "i3e";
  }

  lemma TestDecodeNegativeInt()
    ensures DecodeValue("i-3e") == Some(Int(-3))
  {
    IntPiece(-3, "i-3e");
    DecodeValueIgnoresTrailing("i-3e", Int(-3), "");
    assert "i-3e" + "" == "i-3e";
  }

  lemma TestDecodeString()
    ensures DecodeValue("5:hello") == Some(Str("hello"))
  {
    StrPiece("hello", "5:hello");
    DecodeValueIgnoresTrailing("5:hello", Str("hello"), "");
    assert "5:hello" + "" == "5:hello";
  }

  lemma TestDecodeList()
    ensures DecodeValue("l5:helloi52ee") == Some(List([Str("hello"), Int(52)]))
  {
    StrPiece("hello", "5:hello");
    IntPiece(52, "i52e");
    ListOfTwo("5:hello", Str("hello"), "i52e", Int(52));
    assert "l" + "5:hello" + "i52e" + "e" == "l5:helloi52ee";
    DecodeValueIgnoresTrailing("l5:helloi52ee", List([Str("hello"), Int(52)]), "");
    assert "l5:helloi52ee" + "" == "l5:helloi52ee";
  }

  lemma TestDecodeEmptyList()
    ensures DecodeValue("le") == Some(List([]))
  {
    EmptyListDecodes();
    DecodeValueIgnoresTrailing("le", List([]), "");
    assert "le" + "" == "le";
  }

  lemma TestDecodeSimpleDict()
    ensures DecodeValue("d3:foo3:bar5:helloi52ee") == Some(Dict(map["foo" := Str("bar"), "hello" := Int(52)]))
  {
    StrPiece("bar", "3:bar");
    IntPiece(52, "i52e");
    DictOfTwo("foo", "3:bar", Str("bar"), "hello", "i52e", Int(52), "");
    SimpleDictText();
  }

  lemma SimpleDictText()
    ensures "d" + EncodeString("foo") + "3:bar" + EncodeString("hello") + "i52e" + "e" + ""
         == "d3:foo3:bar5:helloi52ee"
  {
    assert EncodeString("foo") == "3:foo" && EncodeString("hello") == "5:hello";
    assert "d" + "3:foo" == "d3:foo";
    assert "d3:foo" + "3:bar" == "d3:foo3:bar";
    assert "d3:foo3:bar" + "5:hello" == "d3:foo3:bar5:hello";
    assert "d3:foo3:bar5:hello" + "i52e" == "d3:foo3:bar5:helloi52e";
    assert "d3:foo3:bar5:helloi52e" + "e" == "d3:foo3:bar5:helloi52ee";
  }

  lemma TestDecodeEmptyDict()
    ensures DecodeValue("de") == Some(Dict(map[]))
  {
    EmptyDictDecodes("");
    assert "de" + "" == "de";
  }

  lemma ItemList()
    ensures Decodes("l5:item15:item2i3ee", List([Str("item1"), Str("item2"), Int(3)]))
  {
    StrPiece("item1", "5:item1");
    StrPiece("item2", "5:item2");
    IntPiece(3, "i3e");
    ListOfThree("5:item1", Str("item1"), "5:item2", Str("item2"), "i3e", Int(3));
    ItemListText();
  }

  lemma ItemListText()
    ensures "l" + "5:item1" + "5:item2" + "i3e" + "e" == "l5:item15:item2i3ee"
  {
    assert "l" + "5:item1" == "l5:item1";
    assert "l5:item1" + "5:item2" == "l5:item15:item2";
    assert "l5:item15:item2" + "i3e" == "l5:item15:item2i3e";
  }

  lemma InnerDict()
    ensures DecodeVal("d4:key16:value14:key2i42e8:list_keyl5:item15:item2i3eeee")
         == Some((Dict(map["key1" := Str("value1"), "key2" := Int(42),
                           "list_key" := List([Str("item1"), Str("item2"), Int(3)])]), ""))
  {
    StrPiece("value1", "6:value1");
    IntPiece(42, "i42e");
    ItemList();
    DictOfThree("key1", "6:value1", Str("value1"), "key2", "i42e", Int(42),
                "list_key", "l5:item15:item2i3ee", List([Str("item1"), Str("item2"), Int(3)]), "e");
    InnerDictText();
  }

  lemma TestDecodeNestedDict()
    ensures DecodeValue("d10:inner_dictd4:key16:value14:key2i42e8:list_keyl5:item15:item2i3eeee")
         == Some(Dict(map["inner_dict" := Dict(map["key1" := Str("value1"), "key2" := Int(42),
                           "list_key" := List([Str("item1"), Str("item2"), Int(3)])])]))
  {
    var t := "d4:key16:value14:key2i42e8:list_keyl5:item15:item2i3eeee";
    InnerDict();
    DictOfDict("inner_dict", t);
    NestedDictText();
  }

  // Behaviour the unit tests leave implicit.

  /** The i64 parser accepts a leading zero, a negative zero and a plus sign. */
  lemma LeadingZeroAccepted()
    ensures DecodeValue("i03e") == Some(Int(3))
  {
    ParsesLeadingZero();
    IntText("03", 3, "i03e");
  }

  lemma NegativeZeroAccepted()
    ensures DecodeValue("i-0e") == Some(Int(0))
  {
    ParsesNegativeZero();
    IntText("-0", 0, "i-0e");
  }

  lemma PlusSignAccepted()
    ensures DecodeValue("i+3e") == Some(Int(3))
  {
    ParsesPlusSign();
    IntText("+3", 3, "i+3e");
  }

  lemma ParsesLeadingZero()
    ensures ParseI64("03") == Some(3)
  {
    ParseSigned("", "03");
    assert "" + "03" == "03";
  }

  lemma ParsesNegativeZero()
    ensures ParseI64("-0") == Some(0)
  {
    ParseSigned("-", "0");
    assert "-" + "0" == "-0";
  }

  lemma ParsesPlusSign()
    ensures ParseI64("+3") == Some(3)
  {
    Parses3();
    PlusThree();
    ParsePlusSign("3");
  }

  lemma PlusThree()
    ensures "+" + "3" == "+3"
  {
  }

  lemma Parses3()
    ensures ParseI64("3") == Some(3)
  {
    ParseSigned("", "3");
    assert "" + "3" == "3";
  }

  /** An integer literal as a whole input. */
  lemma IntText(body: string, n: int, lit: string)
    requires 'e' !in body && ParseI64(body) == Some(n)
    requires lit == "i" + body + "e"
    ensures DecodeValue(lit) == Some(Int(n))
  {
    DecodeIntLiteral(body, "");
    assert lit + "" == lit;
  }

  /** Integer errors: no body, no terminator, a lone sign. */
  lemma BadIntegers()
    ensures DecodeValue("ie") == None
    ensures DecodeValue("i3") == None
    ensures DecodeValue("i-e") == None
  {
    DecodeIntBadNumeral("", "");
    assert "i" + "" + "e" + "" == "ie";
    DecodeIntUnterminated("i3");
    DecodeIntBadNumeral("-", "");
    assert "i" + "-" + "e" + "" == "i-e";
  }

  /** String errors: a length longer than the input, a missing colon. */
  lemma BadStrings()
    ensures DecodeValue("5:hi") == None
    ensures DecodeValue("5hello") == None
  {
    DecodeStrTooShort("5", "hi");
    assert "5" + ":" + "hi" == "5:hi";
    DecodeStrNoColon("5hello");
  }

  /** Nothing to decode, or an unknown marker. */
  lemma UnknownMarkers()
    ensures DecodeValue("") == None
    ensures DecodeValue("x") == None
    ensures DecodeValue("-3:abc") == None
    ensures DecodeValue("e") == None
  {
    DecodeUnknownMarker("");
    DecodeUnknownMarker("x");
    DecodeUnknownMarker("-3:abc");
    DecodeUnknownMarker("e");
  }

  /** The top level ignores what follows the first value. */
  lemma TrailingDataIgnored()
    ensures DecodeValue("i3eabc") == Some(Int(3))
  {
    IntPiece(3, "i3e");
    DecodeValueIgnoresTrailing("i3e", Int(3), "abc");
    assert "i3e" + "abc" == "i3eabc";
  }

  /** A list holding a dictionary is rejected. */
  lemma ListOfDictFails()
    ensures DecodeValue("ld1:ai1eee") == None
  {
    DictInList();
    ListWithDictFails([], [], "d1:ai1eee");
    ListOfDictText();
  }

  lemma ListOfDictText()
    ensures "l" + Concat([]) + "d1:ai1eee" == "ld1:ai1eee"
  {
    assert Concat([]) == "";
    assert "l" + "" + "d1:ai1eee" == "l" + "d1:ai1eee";
  }

  lemma DictInList()
    ensures DecodeVal("d1:ai1eee") == Some((Dict(map["a" := Int(1)]), ""))
  {
    IntPiece(1, "i1e");
    DictOfOne("a", "i1e", Int(1), "e");
    assert EncodeString("a") == "1:a";
    assert "d" + "1:a" == "d1:a";
    assert "d1:a" + "i1e" == "d1:ai1e";
    assert "d1:ai1e" + "e" == "d1:ai1ee";
    assert "d1:ai1ee" + "e" == "d1:ai1eee";
  }

  lemma InnerOfDropped()
    ensures DecodeVal("d1:bi1ee1:ci2ee") == Some((Dict(map["b" := Int(1)]), ""))
  {
    IntPiece(1, "i1e");
    DictOfOne("b", "i1e", Int(1), "1:ci2ee");
    assert EncodeString("b") == "1:b";
    assert "d" + "1:b" == "d1:b";
    assert "d1:b" + "i1e" == "d1:bi1e";
    assert "d1:bi1e" + "e" == "d1:bi1ee";
    assert "d1:bi1ee" + "1:ci2ee" == "d1:bi1ee1:ci2ee";
  }

  /** A dictionary inside a dictionary ends the outer one: the pair after
      it is dropped. */
  lemma DictAfterNestedDictDropped()
    ensures DecodeValue("d1:ad1:bi1ee1:ci2ee") == Some(Dict(map["a" := Dict(map["b" := Int(1)])]))
  {
    InnerOfDropped();
    DictOfDict("a", "d1:bi1ee1:ci2ee");
    assert EncodeString("a") == "1:a";
    DroppedText();
  }

  lemma DroppedText()
    ensures "d" + "1:a" + "d1:bi1ee1:ci2ee" == "d1:ad1:bi1ee1:ci2ee"
  {
    assert "d" + "1:a" == "d1:a";
  }

  /** A dictionary is accepted without its closing `e`. */
  lemma OpenDictAccepted()
    ensures DecodeValue("d3:foo3:bar") == Some(Dict(map["foo" := Str("bar")]))
  {
    StrPiece("bar", "3:bar");
    DictOfOne("foo", "3:bar", Str("bar"), "");
    assert EncodeString("foo") == "3:foo";
    assert "d" + "3:foo" + "3:bar" == "d3:foo3:bar";
  }

  /** A repeated key keeps the value of its last occurrence. */
  lemma DuplicateKeyLastWins()
    ensures DecodeValue("d3:foo3:bar3:fooi1ee") == Some(Dict(map["foo" := Int(1)]))
  {
    StrPiece("bar", "3:bar");
    IntPiece(1, "i1e");
    DictOfTwo("foo", "3:bar", Str("bar"), "foo", "i1e", Int(1), "");
    DuplicateKeyText();
    assert map["foo" := Str("bar")]["foo" := Int(1)] == map["foo" := Int(1)];
  }

  lemma DuplicateKeyText()
    ensures "d" + EncodeString("foo") + "3:bar" + EncodeString("foo") + "i1e" + "e" + "" == "d3:foo3:bar3:fooi1ee"
  {
    assert EncodeString("foo") == "3:foo";
    assert "d" + "3:foo" == "d3:foo";
    assert "d3:foo" + "3:bar" == "d3:foo3:bar";
    assert "d3:foo3:bar" + "3:foo" == "d3:foo3:bar3:foo";
    assert "d3:foo3:bar3:foo" + "i1e" == "d3:foo3:bar3:fooi1e";
  }

  /** Keys are read with the string rule, not the dispatch: `-0:` is the
      empty key inside a dictionary, although it is no value on its own. */
  lemma NonCanonicalKeyAccepted()
    ensures DecodeValue("d-0:i1ee") == Some(Dict(map["" := Int(1)]))
    ensures DecodeValue("-0:") == None
  {
    MinusZeroEntries();
    DictOfBody("-0:" + ("i1e" + "e"), map["" := Int(1)]);
    MinusZeroText();
    MinusZeroAlone();
  }

  lemma MinusZeroText()
    ensures "d" + ("-0:" + ("i1e" + "e")) == "d-0:i1ee"
  {
  }

  lemma MinusZeroAlone()
    ensures DecodeVal("-0:") == None
  {
    assert "-0:"[0] == '-';
  }

  lemma DictOfBody(r: string, m: map<string, Value>)
    requires DictEntries(r) == Some(m)
    ensures DecodeVal("d" + r) == Some((Dict(m), ""))
  {
    var s := "d" + r;
    assert s[0] == 'd' && s[1..] == r;
  }

  lemma MinusZeroEntries()
    ensures DictEntries("-0:" + ("i1e" + "e")) == Some(map["" := Int(1)])
  {
    MinusZeroKey();
    MinusZeroValue();
    DictEntriesKeyStep("-0:", "", "i1e", Int(1), "e");
    assert DictEntries("e") == Some(map[]);
    assert map["" := Int(1)] + map[] == map["" := Int(1)];
  }

  lemma MinusZeroValue()
    ensures DecodeVal("i1e" + "e") == Some((Int(1), "e"))
  {
    IntPiece(1, "i1e");
  }

  lemma MinusZeroKey()
    ensures DecodeString("-0:" + ("i1e" + "e")) == Some((Str(""), "i1e" + "e"))
  {
    var s := "-0:" + ("i1e" + "e");
    assert s == "-0:i1ee";
    Text.FindIsFirst(s, ':', 2);
    assert s[..2] == "-0";
    ParsesNegativeZero();
    assert s[3..3] == "" && s[3..] == "i1e" + "e";
  }

  /** A dictionary key must be a string. */
  lemma NonStringKeyFails()
    ensures DecodeValue("di1e0:e") == None
  {
    IntegerKey();
    BadKey("i1e0:e");
    IntegerKeyText();
  }

  lemma IntegerKeyText()
    ensures "d" + "i1e0:e" == "di1e0:e"
  {
  }

  lemma IntegerKey()
    ensures DecodeString("i1e0:e") == None
  {
    assert "i1e0:e"[..4] == "i1e0";
    Text.FindIsFirst("i1e0:e", ':', 4);
    assert ParseI64("i1e0") == None;
  }

  lemma BadKey(r: string)
    requires |r| > 0 && r[0] != 'e' && DecodeString(r) == None
    ensures DecodeVal("d" + r) == None
  {
    var s := "d" + r;
    assert s[0] == 'd' && s[1..] == r;
    assert DictEntries(r) == None;
    assert DecodeDict(s) == None;
  }

  // The wire text of the nested test, assembled piece by piece.

  lemma InnerDictText()
    ensures "d" + EncodeString("key1") + "6:value1" + EncodeString("key2") + "i42e"
              + EncodeString("list_key") + "l5:item15:item2i3ee" + "e" + "e"
         == "d4:key16:value14:key2i42e8:list_keyl5:item15:item2i3eeee"
  {
    assert EncodeString("key1") == "4:key1" && EncodeString("key2") == "4:key2";
    assert EncodeString("list_key") == "8:list_key";
    InnerDictFirstPairs();
    InnerDictLastPair();
    Regroup5("d4:key16:value14:key2i42e", "8:list_key", "l5:item15:item2i3ee", "e", "e");
    InnerDictHalves();
  }

  lemma Regroup5(x: string, a: string, b: string, c: string, d: string)
    ensures x + a + b + c + d == x + (a + b + c + d)
  {
  }

  lemma InnerDictFirstPairs()
    ensures "d" + "4:key1" + "6:value1" + "4:key2" + "i42e" == "d4:key16:value14:key2i42e"
  {
    assert "d" + "4:key1" == "d4:key1";
    assert "d4:key1" + "6:value1" == "d4:key16:value1";
    assert "d4:key16:value1" + "4:key2" == "d4:key16:value14:key2";
  }

  lemma InnerDictLastPair()
    ensures "8:list_key" + "l5:item15:item2i3ee" + "e" + "e" == "8:list_keyl5:item15:item2i3eeee"
  {
    assert "8:list_key" + "l5:item15:item2i3ee" == "8:list_keyl5:item15:item2i3ee";
  }
  lemma NestedDictText()
    ensures "d" + EncodeString("inner_dict") + "d4:key16:value14:key2i42e8:list_keyl5:item15:item2i3eeee"
         == "d10:inner_dictd4:key16:value14:key2i42e8:list_keyl5:item15:item2i3eeee"
  {
    var a, t1, t2 := "d10:inner_dict", "d4:key16:value14:key2i42e", "8:list_keyl5:item15:item2i3eeee";
    assert EncodeString("inner_dict") == "10:inner_dict";
    assert "d" + "10:inner_dict" == a;
    InnerDictHalves();
    Text.Regroup3(a, t1, t2);
    OuterFirstHalf();
    OuterSecondHalf();
  }

  lemma InnerDictHalves()
    ensures "d4:key16:value14:key2i42e" + "8:list_keyl5:item15:item2i3eeee"
         == "d4:key16:value14:key2i42e8:list_keyl5:item15:item2i3eeee"
  {
  }

  lemma OuterFirstHalf()
    ensures "d10:inner_dict" + "d4:key16:value14:key2i42e" == "d10:inner_dictd4:key16:value14:key2i42e"
  {
  }

  lemma OuterSecondHalf()
    ensures "d10:inner_dictd4:key16:value14:key2i42e" + "8:list_keyl5:item15:item2i3eeee"
         == "d10:inner_dictd4:key16:value14:key2i42e8:list_keyl5:item15:item2i3eeee"
  {
  }
}
