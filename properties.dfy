/** What the decoder of src/parser/parser.rs promises, stated over the
    functions of module Decoder (and so, through their contracts, over the
    methods of module Parser). */
module DecoderProperties {

  import opened Wrappers
  import opened Text
  import opened Numerals
  import opened Values
  import opened Decoder

  /** `p` is a self-delimiting encoding of `v`: whatever follows it is left
      untouched as the remainder. */
  ghost predicate Decodes(p: string, v: Value)
  {
    forall rest: string :: DecodeVal(p + rest) == Some((v, rest))
  }

  /** Canonical `<length>:<text>` encoding of a string. */
  function EncodeString(w: string): string
  {
    NatToString(|w|) + ":" + w
  }

  /** Canonical `i<decimal>e` encoding of an integer. */
  function EncodeInt(n: int): string
  {
    "i" + IntToString(n) + "e"
  }

  function Concat(ps: seq<string>): string
  {
    if |ps| == 0 then "" else ps[0] + Concat(ps[1..])
  }

  /** Key/value pairs on the wire: each key in canonical form, then its value. */
  function Pairs(ks: seq<string>, ps: seq<string>): string
    requires |ks| == |ps|
  {
    if |ks| == 0 then "" else EncodeString(ks[0]) + ps[0] + Pairs(ks[1..], ps[1..])
  }

  /** No later pair has the same key as pair `i`. */
  ghost predicate LastOccurrence(ks: seq<string>, i: int)
    requires 0 <= i < |ks|
  {
    forall j :: i < j < |ks| ==> ks[j] != ks[i]
  }

  /** The map obtained by inserting the pairs in order, as the dictionary
      loop does with `Map::insert`. */
  function Inserted(ks: seq<string>, vs: seq<Value>): map<string, Value>
    requires |ks| == |vs|
  {
    if |ks| == 0 then map[] else map[ks[0] := vs[0]] + Inserted(ks[1..], vs[1..])
  }

  /** Inserting pairs in order binds exactly the keys given, each to the
      value of its last occurrence: a repeated key overwrites. */
  lemma {:induction false} InsertedLastWins(ks: seq<string>, vs: seq<Value>)
    requires |ks| == |vs|
    ensures forall k :: k in Inserted(ks, vs) <==> k in ks
    ensures forall i :: 0 <= i < |ks| && LastOccurrence(ks, i) ==> Inserted(ks, vs)[ks[i]] == vs[i]
    decreases |ks|
  {
    if |ks| > 0 {
      InsertedLastWins(ks[1..], vs[1..]);
      forall i | 1 <= i < |ks| && LastOccurrence(ks, i)
        ensures Inserted(ks, vs)[ks[i]] == vs[i]
      {
        assert ks[1..][i - 1] == ks[i] && vs[1..][i - 1] == vs[i];
        assert LastOccurrence(ks[1..], i - 1);
      }
      if LastOccurrence(ks, 0) {
        assert ks[0] !in ks[1..];
      }
    }
  }

  // ---------------------------------------------------------------- integers

  // Progress: every successful step consumes a non-empty prefix, so the
  // remainder it hands back is a strictly shorter suffix of its input.

  lemma NumberProgress(s: string)
    ensures DecodeNumber(s).Some? ==> IsProperSuffix(DecodeNumber(s).value.1, s)
  {
  }

  lemma StringProgress(s: string)
    ensures DecodeString(s).Some? ==> IsProperSuffix(DecodeString(s).value.1, s)
  {
  }

  lemma {:induction false} ValProgress(s: string)
    ensures DecodeVal(s).Some? ==> IsProperSuffix(DecodeVal(s).value.1, s)
    decreases |s|, 2
  {
    if |s| > 0 {
      if IsDigit(s[0]) {
        StringProgress(s);
      } else if s[0] == 'i' {
        NumberProgress(s);
      } else if s[0] == 'l' {
        ListProgress(s);
      }
    }
  }

  lemma {:induction false} ListProgress(s: string)
    ensures DecodeList(s).Some? ==> IsProperSuffix(DecodeList(s).value.1, s)
    decreases |s|, 1
  {
    if |s| > 0 {
      ItemsProgress(s[1..]);
      if ListItems(s[1..]).Some? {
        SuffixTransitive(ListItems(s[1..]).value.1, s[1..], s);
      }
    }
  }

  lemma {:induction false} ItemsProgress(r: string)
    ensures ListItems(r).Some? ==> IsProperSuffix(ListItems(r).value.1, r)
    decreases |r|, 3
  {
    if |r| > 0 && r[0] != 'e' {
      ValProgress(r);
      if DecodeVal(r).Some? {
        var r' := DecodeVal(r).value.1;
        ItemsProgress(r');
        if ListItems(r').Some? {
          SuffixTransitive(ListItems(r').value.1, r', r);
        }
      }
    }
  }

  /** `i<body>e` with no `e` in `body` decodes to the i64 that `body` parses as,
      and the decoder resumes right after the `e`. */
  lemma DecodeIntLiteral(body: string, rest: string)
    requires 'e' !in body
    requires ParseI64(body).Some?
    ensures DecodeVal("i" + body + "e" + rest) == Some((Int(ParseI64(body).value), rest))
  {
    NumberLiteral(body, rest);
    assert ("i" + body + "e" + rest)[0] == 'i';
  }

  /** The integer rule itself on such a literal. */
  lemma NumberLiteral(body: string, rest: string)
    requires 'e' !in body
    requires ParseI64(body).Some?
    ensures DecodeNumber("i" + body + "e" + rest) == Some((Int(ParseI64(body).value), rest))
  {
    var s := "i" + body + "e" + rest;
    assert s[..|body| + 1] == "i" + body;
    FindIsFirst(s, 'e', |body| + 1);
    assert s[1..|body| + 1] == body;
    assert s[|body| + 2..] == rest;
  }

  /** Conversely, every integer the decoder returns came from such a
      literal: the character before the remainder is an `e`, and what lies
      between the marker and it has no `e` and parses as the integer. */
  lemma DecodeIntIsLiteral(s: string, v: Value, rest: string)
    requires |s| > 0 && s[0] == 'i'
    requires DecodeVal(s) == Some((v, rest))
    ensures v.Int? && |rest| + 2 <= |s|
    ensures var e := |s| - |rest| - 1;
            s[e] == 'e' && s[e + 1..] == rest && 'e' !in s[1..e] && ParseI64(s[1..e]) == Some(v.n)
  {
    assert DecodeNumber(s) == Some((v, rest));
    var k := Find(s, 'e').value;
    assert rest == s[k + 1..];
    assert 'e' !in s[1..k] by {
      assert s[1..k] == s[..k][1..];
    }
  }

  /** An integer with no terminating `e` is an error. */
  lemma DecodeIntUnterminated(s: string)
    requires |s| > 0 && s[0] == 'i' && 'e' !in s
    ensures DecodeVal(s) == None
  {
  }

  /** An integer whose digits do not parse as i64 is an error. */
  lemma DecodeIntBadNumeral(body: string, rest: string)
    requires 'e' !in body
    requires ParseI64(body) == None
    ensures DecodeVal("i" + body + "e" + rest) == None
  {
    var s := "i" + body + "e" + rest;
    assert s[..|body| + 1] == "i" + body;
    FindIsFirst(s, 'e', |body| + 1);
    assert s[1..|body| + 1] == body;
  }

  /** Every 64-bit integer, canonically encoded, decodes back to itself. */
  lemma IntDecodes(n: int)
    requires MinI64 <= n <= MaxI64
    ensures Decodes(EncodeInt(n), Int(n))
  {
    ParseIntToString(n);
    var d := IntToString(n);
    assert 'e' !in d by {
      assert forall i :: 0 <= i < |d| ==> d[i] == '-' || IsDigit(d[i]);
    }
    forall rest: string
      ensures DecodeVal(EncodeInt(n) + rest) == Some((Int(n), rest))
    {
      assert EncodeInt(n) + rest == "i" + d + "e" + rest;
      DecodeIntLiteral(d, rest);
    }
  }

  // ----------------------------------------------------------------- strings

  /** `<d>:<w>` where `d` has no colon and parses as `|w|` yields `w`; the
      decoder resumes right after it. */
  lemma DecodeStringLiteral(d: string, w: string, rest: string)
    requires ':' !in d
    requires ParseI64(d) == Some(|w|)
    ensures DecodeString(d + ":" + w + rest) == Some((Str(w), rest))
  {
    var s := d + ":" + w + rest;
    assert s[..|d|] == d;
    FindIsFirst(s, ':', |d|);
    assert s[|d| + 1..|d| + 1 + |w|] == w;
    assert s[|d| + 1 + |w|..] == rest;
  }

  /** The same through the dispatch, when the length starts with a digit. */
  lemma DecodeStrLiteral(d: string, w: string, rest: string)
    requires ':' !in d
    requires ParseI64(d) == Some(|w|)
    requires IsDigit(d[0])
    ensures DecodeVal(d + ":" + w + rest) == Some((Str(w), rest))
  {
    DecodeStringLiteral(d, w, rest);
  }

  /** Conversely, every string the decoder returns came from such a
      literal: the text before the colon has no colon and parses as the
      string's length, and the string is what follows the colon. */
  lemma DecodeStrIsLiteral(s: string, v: Value, rest: string)
    requires |s| > 0 && IsDigit(s[0])
    requires DecodeVal(s) == Some((v, rest))
    ensures v.Str? && |v.s| + |rest| < |s|
    ensures var c := |s| - |rest| - |v.s| - 1;
            && s[c] == ':' && s[c + 1..|s| - |rest|] == v.s && s[|s| - |rest|..] == rest
            && ':' !in s[..c] && ParseI64(s[..c]) == Some(|v.s|)
  {
    StringIsLiteral(s, v, rest);
  }

  lemma StringIsLiteral(s: string, v: Value, rest: string)
    requires DecodeString(s) == Some((v, rest))
    ensures v.Str? && |v.s| + |rest| < |s|
    ensures var c := |s| - |rest| - |v.s| - 1;
            && s[c] == ':' && s[c + 1..|s| - |rest|] == v.s && s[|s| - |rest|..] == rest
            && ':' !in s[..c] && ParseI64(s[..c]) == Some(|v.s|)
  {
    var k := Find(s, ':').value;
    var n := ParseI64(s[..k]).value;
    assert 0 <= n && k + 1 + n <= |s|;
    assert v == Str(s[k + 1..k + 1 + n]) && rest == s[k + 1 + n..];
    assert |v.s| == n && |rest| == |s| - k - 1 - n;
  }

  /** A string with no `:` is an error. */
  lemma DecodeStrNoColon(s: string)
    requires |s| > 0 && IsDigit(s[0]) && ':' !in s
    ensures DecodeVal(s) == None
  {
  }

  /** A string whose length does not parse as i64 is an error. */
  lemma DecodeStrBadLength(d: string, t: string)
    requires ':' !in d && |d| > 0 && IsDigit(d[0])
    requires ParseI64(d) == None
    ensures DecodeVal(d + ":" + t) == None
  {
    var s := d + ":" + t;
    assert s[..|d|] == d;
    FindIsFirst(s, ':', |d|);
  }

  /** A string whose declared length exceeds what follows the colon is an error. */
  lemma DecodeStrTooShort(d: string, t: string)
    requires ':' !in d && |d| > 0 && IsDigit(d[0])
    requires ParseI64(d).Some? && ParseI64(d).value > |t|
    ensures DecodeVal(d + ":" + t) == None
  {
    var s := d + ":" + t;
    assert s[..|d|] == d;
    FindIsFirst(s, ':', |d|);
  }

  lemma StringLiteralDecodes(w: string, rest: string)
    requires |w| <= MaxI64
    ensures DecodeString(EncodeString(w) + rest) == Some((Str(w), rest))
  {
    var d := NatToString(|w|);
    ParseIntToString(|w|);
    assert ':' !in d by {
      assert forall i :: 0 <= i < |d| ==> IsDigit(d[i]);
    }
    assert EncodeString(w) + rest == d + ":" + w + rest;
    DecodeStringLiteral(d, w, rest);
  }

  /** Every string of representable length, canonically encoded, decodes back. */
  lemma StringDecodes(w: string)
    requires |w| <= MaxI64
    ensures Decodes(EncodeString(w), Str(w))
  {
    forall rest: string
      ensures DecodeVal(EncodeString(w) + rest) == Some((Str(w), rest))
    {
      StringLiteralDecodes(w, rest);
    }
  }

  // ---------------------------------------------------------------- dispatch

  /** The first character decides: empty input, or any character other than
      a digit, `i`, `l` or `d`, is an error. */
  lemma DecodeUnknownMarker(s: string)
    requires |s| == 0 || !(IsDigit(s[0]) || s[0] == 'i' || s[0] == 'l' || s[0] == 'd')
    ensures DecodeVal(s) == None
  {
  }

  /** A self-delimiting encoding is non-empty and starts with a marker. */
  lemma DecodesStartsWithMarker(p: string, v: Value, y: string)
    requires Decodes(p, v)
    ensures |p| > 0 && (p + y)[0] == p[0] && p[0] != 'e'
    ensures !v.Dict?
  {
    assert DecodeVal(p + "") == Some((v, ""));
    assert p + "" == p;
    assert DecodeVal(p + "e") == Some((v, "e"));
  }

  // ------------------------------------------------------------------- lists

  /** List elements are decoded in wire order, each from the previous one's
      remainder, and then the list loop goes on with what follows. */
  lemma {:induction false} ListItemsOfPieces(ps: seq<string>, vs: seq<Value>, tail: string)
    requires |ps| == |vs|
    requires forall i :: 0 <= i < |ps| ==> Decodes(ps[i], vs[i])
    ensures ListItems(Concat(ps) + tail) == PrependItems(vs, ListItems(tail))
    decreases |ps|
  {
    if |ps| == 0 {
      assert Concat(ps) + tail == tail;
      PrependNothing(ListItems(tail));
    } else {
      var y := Concat(ps[1..]) + tail;
      assert Concat(ps) + tail == ps[0] + y;
      DecodesStartsWithMarker(ps[0], vs[0], y);
      assert DecodeVal(ps[0] + y) == Some((vs[0], y));
      assert ListItems(ps[0] + y) == PrependItems([vs[0]], ListItems(y));
      forall i | 0 <= i < |ps| - 1
        ensures Decodes(ps[1..][i], vs[1..][i])
      {
        assert ps[1..][i] == ps[i + 1] && vs[1..][i] == vs[i + 1];
      }
      ListItemsOfPieces(ps[1..], vs[1..], tail);
      PrependTwice([vs[0]], vs[1..], ListItems(tail));
      assert [vs[0]] + vs[1..] == vs;
    }
  }

  /** The list loop stops at an `e` and consumes it. */
  lemma ListItemsAtEnd(rest: string)
    ensures ListItems("e" + rest) == Some(([], rest))
  {
    assert ("e" + rest)[1..] == rest;
  }

  /** `l<e1>...<en>e` decodes to the list of the elements; the closing `e`
      is consumed and the decoder resumes right after it. */
  lemma ListLiteral(ps: seq<string>, vs: seq<Value>, rest: string)
    requires |ps| == |vs|
    requires forall i :: 0 <= i < |ps| ==> Decodes(ps[i], vs[i])
    ensures DecodeVal("l" + Concat(ps) + "e" + rest) == Some((List(vs), rest))
  {
    ListItemsOfPieces(ps, vs, "e" + rest);
    ListItemsAtEnd(rest);
    assert vs + [] == vs;
    ListOfItems(Concat(ps), vs, rest);
  }

  /** A list body whose items are `vs`, followed by the closing `e`. */
  lemma ListOfItems(body: string, vs: seq<Value>, rest: string)
    requires ListItems(body + ("e" + rest)) == Some((vs, rest))
    ensures DecodeVal("l" + body + "e" + rest) == Some((List(vs), rest))
  {
    Regroup4("l", body, "e", rest);
    DropMarker("l", body + ("e" + rest));
    var s := "l" + (body + ("e" + rest));
    assert DecodeList(s) == Some((List(vs), rest));
  }

  /** So a list of self-delimiting elements is self-delimiting. */
  lemma ListDecodes(ps: seq<string>, vs: seq<Value>)
    requires |ps| == |vs|
    requires forall i :: 0 <= i < |ps| ==> Decodes(ps[i], vs[i])
    ensures Decodes("l" + Concat(ps) + "e", List(vs))
  {
    forall rest: string
      ensures DecodeVal("l" + Concat(ps) + "e" + rest) == Some((List(vs), rest))
    {
      ListLiteral(ps, vs, rest);
    }
  }

  /** `le` is the empty list. */
  lemma EmptyListDecodes()
    ensures Decodes("le", List([]))
  {
    forall rest: string
      ensures DecodeVal("le" + rest) == Some((List([]), rest))
    {
      var s := "le" + rest;
      assert s[1..] == "e" + rest;
      ListItemsAtEnd(rest);
    }
  }

  /** A list whose input runs out before its closing `e` is an error. */
  lemma ListUnterminated(ps: seq<string>, vs: seq<Value>)
    requires |ps| == |vs|
    requires forall i :: 0 <= i < |ps| ==> Decodes(ps[i], vs[i])
    ensures DecodeVal("l" + Concat(ps)) == None
  {
    var s := "l" + Concat(ps);
    assert s[1..] == Concat(ps) + "";
    ListItemsOfPieces(ps, vs, "");
  }

  /** A list that reaches a dictionary element is an error: the dictionary
      hands back an empty remainder and the list finds no closing `e`. */
  lemma ListWithDictFails(ps: seq<string>, vs: seq<Value>, t: string)
    requires |ps| == |vs|
    requires forall i :: 0 <= i < |ps| ==> Decodes(ps[i], vs[i])
    requires |t| > 0 && t[0] == 'd' && DecodeVal(t).Some?
    ensures DecodeVal("l" + Concat(ps) + t) == None
  {
    ListItemsOfPieces(ps, vs, t);
    ListItemsAtDict(t);
    ListWithoutItems(Concat(ps), t);
  }

  lemma ListWithoutItems(body: string, t: string)
    requires ListItems(body + t) == None
    ensures DecodeVal("l" + body + t) == None
  {
    Regroup3("l", body, t);
    DropMarker("l", body + t);
  }

  /** An element that is a dictionary leaves the list loop nothing to read. */
  lemma ListItemsAtDict(t: string)
    requires |t| > 0 && t[0] == 'd' && DecodeVal(t).Some?
    ensures ListItems(t) == None
  {
    assert DecodeVal(t).value.1 == "";
  }

  // ------------------------------------------------------------ dictionaries

  /** One pass of the dictionary loop for any key text `kp` the string rule
      accepts. The key does not go through the dispatch, so `kp` need not
      start with a digit: `+3:foo`, `-0:` and `03:abc` are keys as well. */
  lemma DictEntriesKeyStep(kp: string, k: string, p: string, v: Value, y: string)
    requires |kp| > 0 && kp[0] != 'e'
    requires DecodeString(kp + (p + y)) == Some((Str(k), p + y))
    requires DecodeVal(p + y) == Some((v, y))
    ensures DictEntries(kp + (p + y)) == MergeEntries(map[k := v], DictEntries(y))
  {
    var r := kp + (p + y);
    assert |r| > 0 && r[0] == kp[0];
  }

  /** One pass of the dictionary loop: a canonical key, then a value that
      leaves `y`, add one binding to what the loop makes of `y`. */
  lemma DictEntriesStep(k: string, p: string, v: Value, y: string)
    requires |k| <= MaxI64
    requires DecodeVal(p + y) == Some((v, y))
    ensures DictEntries(EncodeString(k) + p + y) == MergeEntries(map[k := v], DictEntries(y))
  {
    var r := EncodeString(k) + p + y;
    assert r == EncodeString(k) + (p + y);
    StringLiteralDecodes(k, p + y);
    assert IsDigit(EncodeString(k)[0]) by {
      assert EncodeString(k)[0] == NatToString(|k|)[0];
    }
    DictEntriesKeyStep(EncodeString(k), k, p, v, y);
  }

  /** Dictionary pairs are decoded in wire order, keys with the string rule
      and values with the general rule, and inserted one after the other. */
  lemma {:induction false} DictEntriesOfPairs(ks: seq<string>, ps: seq<string>, vs: seq<Value>, tail: string)
    requires |ks| == |ps| == |vs|
    requires forall i :: 0 <= i < |ks| ==> |ks[i]| <= MaxI64
    requires forall i :: 0 <= i < |ps| ==> Decodes(ps[i], vs[i])
    ensures DictEntries(Pairs(ks, ps) + tail) == MergeEntries(Inserted(ks, vs), DictEntries(tail))
    decreases |ks|
  {
    if |ks| == 0 {
      assert Pairs(ks, ps) + tail == tail;
      MergeNothing(DictEntries(tail));
    } else {
      var y := Pairs(ks[1..], ps[1..]) + tail;
      assert Pairs(ks, ps) + tail == EncodeString(ks[0]) + ps[0] + y;
      assert DecodeVal(ps[0] + y) == Some((vs[0], y));
      DictEntriesStep(ks[0], ps[0], vs[0], y);
      forall i | 0 <= i < |ks| - 1
        ensures |ks[1..][i]| <= MaxI64 && Decodes(ps[1..][i], vs[1..][i])
      {
        assert ks[1..][i] == ks[i + 1] && ps[1..][i] == ps[i + 1] && vs[1..][i] == vs[i + 1];
      }
      DictEntriesOfPairs(ks[1..], ps[1..], vs[1..], tail);
      MergeAssociative(map[ks[0] := vs[0]], Inserted(ks[1..], vs[1..]), DictEntries(tail));
    }
  }

  /** `d<k1><v1>...<kn><vn>e` decodes to the map of the pairs inserted in
      order, so a repeated key keeps its last value; the remainder handed
      back is empty whatever followed. */
  lemma DictDecodes(ks: seq<string>, ps: seq<string>, vs: seq<Value>, rest: string)
    requires |ks| == |ps| == |vs|
    requires forall i :: 0 <= i < |ks| ==> |ks[i]| <= MaxI64
    requires forall i :: 0 <= i < |ps| ==> Decodes(ps[i], vs[i])
    ensures DecodeVal("d" + Pairs(ks, ps) + "e" + rest) == Some((Dict(Inserted(ks, vs)), ""))
  {
    var s := "d" + Pairs(ks, ps) + "e" + rest;
    assert s[0] == 'd';
    assert s[1..] == Pairs(ks, ps) + ("e" + rest);
    DictEntriesOfPairs(ks, ps, vs, "e" + rest);
    assert DictEntries("e" + rest) == Some(map[]);
    assert Inserted(ks, vs) + map[] == Inserted(ks, vs);
    assert DecodeDict(s) == Some((Dict(Inserted(ks, vs)), ""));
  }

  /** `de` is the empty dictionary. */
  lemma EmptyDictDecodes(rest: string)
    ensures DecodeVal("de" + rest) == Some((Dict(map[]), ""))
  {
    var s := "de" + rest;
    assert s[0] == 'd';
    assert s[1..] == "e" + rest;
    assert DictEntries(s[1..]) == Some(map[]);
    assert DecodeDict(s) == Some((Dict(map[]), ""));
  }

  /** A dictionary is accepted even when the input ends before its `e`. */
  lemma DictUnterminatedAccepted(ks: seq<string>, ps: seq<string>, vs: seq<Value>)
    requires |ks| == |ps| == |vs|
    requires forall i :: 0 <= i < |ks| ==> |ks[i]| <= MaxI64
    requires forall i :: 0 <= i < |ps| ==> Decodes(ps[i], vs[i])
    ensures DecodeVal("d" + Pairs(ks, ps)) == Some((Dict(Inserted(ks, vs)), ""))
  {
    var s := "d" + Pairs(ks, ps);
    assert s[0] == 'd';
    assert s[1..] == Pairs(ks, ps) + "";
    DictEntriesOfPairs(ks, ps, vs, "");
    assert Inserted(ks, vs) + map[] == Inserted(ks, vs);
    assert DecodeDict(s) == Some((Dict(Inserted(ks, vs)), ""));
  }

  /** Inserting one more pair at the end overrides what came before. */
  lemma {:induction false} InsertedSnoc(ks: seq<string>, vs: seq<Value>, k: string, v: Value)
    requires |ks| == |vs|
    ensures Inserted(ks + [k], vs + [v]) == Inserted(ks, vs) + map[k := v]
    decreases |ks|
  {
    if |ks| > 0 {
      assert (ks + [k])[1..] == ks[1..] + [k] && (vs + [v])[1..] == vs[1..] + [v];
      InsertedSnoc(ks[1..], vs[1..], k, v);
      assert map[ks[0] := vs[0]] + (Inserted(ks[1..], vs[1..]) + map[k := v])
          == (map[ks[0] := vs[0]] + Inserted(ks[1..], vs[1..])) + map[k := v];
    } else {
      assert ks + [k] == [k] && vs + [v] == [v];
    }
  }

  lemma DictValueIsDict(k: string, t: string)
    requires |k| <= MaxI64
    requires |t| > 0 && t[0] == 'd' && DecodeVal(t).Some?
    ensures DictEntries(EncodeString(k) + t) == Some(map[k := DecodeVal(t).value.0])
  {
    var inner := DecodeVal(t).value.0;
    assert t + "" == t && EncodeString(k) + t + "" == EncodeString(k) + t;
    DictEntriesStep(k, t, inner, "");
    assert map[k := inner] + map[] == map[k := inner];
  }

  /** A value that is itself a dictionary ends the enclosing dictionary too:
      its empty remainder stops the outer loop, and whatever followed the
      inner dictionary is dropped. */
  lemma NestedDictEndsOuter(ks: seq<string>, ps: seq<string>, vs: seq<Value>, k: string, t: string)
    requires |ks| == |ps| == |vs|
    requires forall i :: 0 <= i < |ks| ==> |ks[i]| <= MaxI64
    requires forall i :: 0 <= i < |ps| ==> Decodes(ps[i], vs[i])
    requires |k| <= MaxI64
    requires |t| > 0 && t[0] == 'd' && DecodeVal(t).Some?
    ensures DecodeVal("d" + Pairs(ks, ps) + EncodeString(k) + t)
         == Some((Dict(Inserted(ks + [k], vs + [DecodeVal(t).value.0])), ""))
  {
    var s := "d" + Pairs(ks, ps) + EncodeString(k) + t;
    var y := EncodeString(k) + t;
    var inner := DecodeVal(t).value.0;
    assert s[0] == 'd';
    assert s[1..] == Pairs(ks, ps) + y;
    DictEntriesOfPairs(ks, ps, vs, y);
    DictValueIsDict(k, t);
    assert DictEntries(s[1..]) == Some(Inserted(ks, vs) + map[k := inner]);
    InsertedSnoc(ks, vs, k, inner);
  }

  // --------------------------------------------------------------- top level

  /** The top level returns the first value and ignores whatever follows. */
  lemma DecodeValueIgnoresTrailing(p: string, v: Value, rest: string)
    requires Decodes(p, v)
    ensures DecodeValue(p + rest) == Some(v)
  {
    assert DecodeVal(p + rest) == Some((v, rest));
  }
}
