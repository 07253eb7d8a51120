/**
 * What the decoder makes of the encoder's output: the byte-exact framing of
 * each kind of value, and decode(Marshal(v)) == v for every value the encoder
 * can express, with the reader left exactly after the value.
 */
module RespRoundTrip {
  import opened Wire
  import opened Resp

  /**
   * The values Marshal writes and Parse reads back unchanged: a known tag
   * other than "integer", zero in every field the tag does not use, and no
   * LF inside a simple string or error (the decoder stops at the first LF).
   */
  predicate Canonical(v: Value) {
    || ((v.typ == StringTyp || v.typ == ErrorTyp)
        && LF !in v.str && v.num == 0 && v.bulk == [] && v.elements == [])
    || (v.typ == BulkTyp && v.str == [] && v.num == 0 && v.elements == [])
    || (v.typ == NullTyp && v.str == [] && v.num == 0 && v.bulk == [] && v.elements == [])
    || (v.typ == ArrayTyp && v.str == [] && v.num == 0 && v.bulk == []
        && AllCanonical(v.elements))
  }

  predicate AllCanonical(items: seq<Value>) {
    |items| == 0 || (Canonical(items[0]) && AllCanonical(items[1..]))
  }

  /** The bytes m stand in s from position i on. */
  predicate At(s: Bytes, i: nat, m: Bytes) {
    i + |m| <= |s| && s[i..i + |m|] == m
  }

  lemma AtSplit(s: Bytes, i: nat, a: Bytes, b: Bytes)
    requires At(s, i, a + b)
    ensures At(s, i, a) && At(s, i + |a|, b)
  {
    assert s[i..i + |a|] == (a + b)[..|a|];
    assert s[i + |a|..i + |a| + |b|] == (a + b)[|a|..];
  }

  /** The first LF at or after i is the one at k. */
  lemma LineEndFrom(s: Bytes, i: nat, k: nat)
    requires i <= k < |s| && s[k] == LF
    requires forall p :: i <= p < k ==> s[p] != LF
    ensures LineEnd(s, i) == Some(k + 1)
  {
  }

  /** A length line: digits d that read as n, then CR LF; it ends right after its LF. */
  lemma LengthLine(s: Bytes, i: nat, d: Bytes, n: int)
    requires AllDigits(d) && ParseInt(d) == Some(n)
    requires At(s, i, d) && At(s, i + |d|, CRLF)
    ensures ParseLength(s, i) == Ok(Length(n, i + |d| + 2))
  {
    var k := i + |d|;
    assert s[k] == CR && s[k + 1] == LF by {
      assert s[k..k + 2][0] == s[k] && s[k..k + 2][1] == s[k + 1];
    }
    forall p | i <= p < k + 1
      ensures s[p] != LF
    {
      if p < k {
        assert s[p] == s[i..k][p - i];
        assert IsDigit(d[p - i]);
      }
    }
    LineEndFrom(s, i, k + 1);
  }

  /**
   * A simple string or error line: the payload is everything before the last
   * two bytes of the line, whatever the byte before LF is.
   */
  lemma LinePayload(s: Bytes, i: nat, typ: byte, t: Bytes, c: byte)
    requires typ == STRING || typ == ERROR
    requires At(s, i, t) && At(s, i + |t|, [c, LF]) && LF !in t && c != LF
    ensures ParseValue(s, i, typ) ==
            Ok(Parsed(Value(if typ == STRING then StringTyp else ErrorTyp, t, 0, [], []), i + |t| + 2))
  {
    var k := i + |t|;
    assert s[k] == c && s[k + 1] == LF by {
      assert s[k..k + 2][0] == s[k] && s[k..k + 2][1] == s[k + 1];
    }
    forall p | i <= p < k + 1
      ensures s[p] != LF
    {
      if p < k {
        assert s[p] == t[p - i];
      }
    }
    LineEndFrom(s, i, k + 1);
  }

  /**
   * An integer line: the payload before the last two bytes of the line reads
   * as the number strconv.Atoi gives; a payload Atoi rejects is InvalidInteger.
   */
  lemma IntegerLine(s: Bytes, i: nat, t: Bytes, c: byte)
    requires At(s, i, t) && At(s, i + |t|, [c, LF]) && LF !in t && c != LF
    ensures ParseInt(t).Some? ==>
              ParseValue(s, i, INTEGER) == Ok(Parsed(Value(IntegerTyp, [], ParseInt(t).value, [], []), i + |t| + 2))
    ensures ParseInt(t).None? ==> ParseValue(s, i, INTEGER) == Err(InvalidInteger)
  {
    var k := i + |t|;
    assert s[k] == c && s[k + 1] == LF by {
      assert s[k..k + 2][0] == s[k] && s[k..k + 2][1] == s[k + 1];
    }
    forall p | i <= p < k + 1
      ensures s[p] != LF
    {
      if p < k {
        assert s[p] == t[p - i];
      }
    }
    LineEndFrom(s, i, k + 1);
  }

  /**
   * Bulk strings are binary safe: after the length line, exactly length bytes
   * are kept verbatim (CR and LF included) and the two bytes after them are
   * consumed without being looked at.
   */
  lemma BulkPayload(s: Bytes, i: nat, d: Bytes, b: Bytes)
    requires AllDigits(d) && ParseInt(d) == Some(|b|)
    requires At(s, i, d + CRLF + b) && i + |d| + 2 + |b| + 2 <= |s|
    ensures ParseBulk(s, i) == Ok(Parsed(Value(BulkTyp, [], 0, b, []), i + |d| + 2 + |b| + 2))
  {
    AtSplit(s, i, d + CRLF, b);
    AtSplit(s, i, d, CRLF);
    LengthLine(s, i, d, |b|);
    BulkBody(s, i, i + |d| + 2, b);
  }

  lemma BulkBody(s: Bytes, i: nat, j: nat, b: Bytes)
    requires i <= |s| && ParseLength(s, i) == Ok(Length(|b|, j))
    requires j + |b| + 2 <= |s| && s[j..j + |b|] == b
    ensures ParseBulk(s, i) == Ok(Parsed(Value(BulkTyp, [], 0, b, []), j + |b| + 2))
  {
  }

  /** The null bulk string "$-1\r\n" decodes to the null value. */
  lemma NullAt(s: Bytes, i: nat)
    requires At(s, i, [BULK, MINUS_SIGN, 49, CR, LF])
    ensures Parse(s, i) == Ok(Parsed(Value(NullTyp, [], 0, [], []), i + 5))
  {
    var m: Bytes := [BULK, MINUS_SIGN, 49, CR, LF];
    forall p | 0 <= p < 5
      ensures s[i + p] == m[p]
    {
      assert s[i..i + 5][p] == s[i + p];
    }
    LineEndFrom(s, i + 1, i + 4);
    assert s[i + 1] == m[1] && s[i + 2] == m[2] && s[i + 3] == m[3];
    assert Decimal(1) == [49];
    assert s[i + 1..i + 3] == [MINUS_SIGN] + Decimal(1);
    ParseIntDecimal(1);
  }

  /** The type byte at i selects the reader for what follows it. */
  lemma Dispatch(s: Bytes, i: nat)
    requires i < |s|
    ensures s[i] == STRING || s[i] == ERROR || s[i] == INTEGER ==> Parse(s, i) == ParseValue(s, i + 1, s[i])
    ensures s[i] == BULK ==> Parse(s, i) == ParseBulk(s, i + 1)
    ensures s[i] == ARRAY ==> Parse(s, i) == ParseArray(s, i + 1)
  {
  }

  /** Where the parts of a simple string or error that Marshal wrote at i stand. */
  lemma LineFrame(v: Value, s: Bytes, i: nat)
    requires (v.typ == StringTyp || v.typ == ErrorTyp) && At(s, i, Marshal(v))
    ensures i < |s| && s[i] == (if v.typ == StringTyp then STRING else ERROR)
    ensures At(s, i + 1, v.str) && At(s, i + 1 + |v.str|, [CR, LF])
    ensures |Marshal(v)| == 1 + |v.str| + 2
  {
    var typ := if v.typ == StringTyp then STRING else ERROR;
    assert Marshal(v) == [typ] + v.str + CRLF;
    AtSplit(s, i, [typ] + v.str, CRLF);
    AtSplit(s, i, [typ], v.str);
    assert s[i..i + 1][0] == s[i];
  }

  /** A simple string or error that Marshal wrote at i decodes back. */
  lemma ParseMarshalLine(v: Value, s: Bytes, i: nat)
    requires v.typ == StringTyp || v.typ == ErrorTyp
    requires Canonical(v) && At(s, i, Marshal(v))
    ensures Parse(s, i) == Ok(Parsed(v, i + |Marshal(v)|))
  {
    LineFrame(v, s, i);
    Dispatch(s, i);
    LinePayload(s, i + 1, s[i], v.str, CR);
    assert v == Value(v.typ, v.str, 0, [], []);
  }

  /** Where the parts of a bulk string that Marshal wrote at i stand. */
  lemma BulkFrame(v: Value, s: Bytes, i: nat)
    requires v.typ == BulkTyp && At(s, i, Marshal(v))
    ensures i < |s| && s[i] == BULK
    ensures At(s, i + 1, Decimal(|v.bulk|) + CRLF + v.bulk)
    ensures At(s, i + |Marshal(v)| - 2, CRLF)
    ensures |Marshal(v)| == 1 + |Decimal(|v.bulk|)| + 2 + |v.bulk| + 2 && i + |Marshal(v)| <= |s|
  {
    var rest := Decimal(|v.bulk|) + CRLF + v.bulk;
    assert Marshal(v) == [BULK] + rest + CRLF;
    AtSplit(s, i, [BULK] + rest, CRLF);
    AtSplit(s, i, [BULK], rest);
    assert s[i..i + 1][0] == s[i];
  }

  /** A bulk string that Marshal wrote at i decodes back. */
  lemma ParseMarshalBulk(v: Value, s: Bytes, i: nat)
    requires v.typ == BulkTyp
    requires Canonical(v) && At(s, i, Marshal(v))
    ensures Parse(s, i) == Ok(Parsed(v, i + |Marshal(v)|))
  {
    BulkFrame(v, s, i);
    Dispatch(s, i);
    ParseIntDecimal(|v.bulk|);
    BulkPayload(s, i + 1, Decimal(|v.bulk|), v.bulk);
    assert v == Value(BulkTyp, [], 0, v.bulk, []);
  }

  /** Decoding at i the bytes Marshal wrote there gives back v and stops right after them. */
  lemma {:induction false} ParseMarshal(v: Value, s: Bytes, i: nat)
    requires Canonical(v) && At(s, i, Marshal(v))
    ensures Parse(s, i) == Ok(Parsed(v, i + |Marshal(v)|))
    decreases v, 2
  {
    if v.typ == StringTyp || v.typ == ErrorTyp {
      ParseMarshalLine(v, s, i);
    } else if v.typ == BulkTyp {
      ParseMarshalBulk(v, s, i);
    } else if v.typ == NullTyp {
      NullAt(s, i);
    } else {
      ParseMarshalArray(v, s, i);
    }
  }

  /** Where the parts of an array that Marshal wrote at i stand. */
  lemma ArrayFrame(v: Value, s: Bytes, i: nat)
    requires v.typ == ArrayTyp && At(s, i, Marshal(v))
    ensures i < |s| && s[i] == ARRAY
    ensures At(s, i + 1, Decimal(|v.elements|)) && At(s, i + 1 + |Decimal(|v.elements|)|, CRLF)
    ensures At(s, i + 1 + |Decimal(|v.elements|)| + 2, MarshalAll(v.elements))
    ensures |Marshal(v)| == 1 + |Decimal(|v.elements|)| + 2 + |MarshalAll(v.elements)|
  {
    var d := Decimal(|v.elements|);
    assert Marshal(v) == [ARRAY] + d + CRLF + MarshalAll(v.elements);
    AtSplit(s, i, [ARRAY] + d + CRLF, MarshalAll(v.elements));
    AtSplit(s, i, [ARRAY] + d, CRLF);
    AtSplit(s, i, [ARRAY], d);
    assert s[i..i + 1][0] == s[i];
  }

  /** An array that Marshal wrote at i decodes back, element by element. */
  lemma {:induction false} ParseMarshalArray(v: Value, s: Bytes, i: nat)
    requires v.typ == ArrayTyp
    requires Canonical(v) && At(s, i, Marshal(v))
    ensures Parse(s, i) == Ok(Parsed(v, i + |Marshal(v)|))
    decreases v, 1
  {
    var items := v.elements;
    var j, k := i + 1 + |Decimal(|items|)| + 2, i + |Marshal(v)|;
    assert v == Value(ArrayTyp, [], 0, [], items) && AllCanonical(items) by {
      CanonicalArray(v);
    }
    assert i < |s| && s[i] == ARRAY && j <= |s| by {
      ArrayItemsAt(v, s, i);
    }
    assert ParseLength(s, i + 1) == Ok(Length(|items|, j)) by {
      ArrayLength(v, s, i);
    }
    assert ParseItems(s, j, |items|, []) == Ok(ParsedItems(items, k)) by {
      ArrayTail(v, s, i);
    }
    ArrayDecoded(v, s, i, j, k);
  }

  /** The elements of an array that Marshal wrote at i decode back, ending where the encoding ends. */
  lemma ArrayTail(v: Value, s: Bytes, i: nat)
    requires v.typ == ArrayTyp && AllCanonical(v.elements) && At(s, i, Marshal(v))
    requires i + 1 + |Decimal(|v.elements|)| + 2 <= |s|
    ensures ParseItems(s, i + 1 + |Decimal(|v.elements|)| + 2, |v.elements|, []) ==
            Ok(ParsedItems(v.elements, i + |Marshal(v)|))
    decreases v, 0
  {
    ArrayItemsAt(v, s, i);
    ItemsMarshal(v.elements, s, i + 1 + |Decimal(|v.elements|)| + 2);
  }

  /** Where the element encodings of an array that Marshal wrote at i stand. */
  lemma ArrayItemsAt(v: Value, s: Bytes, i: nat)
    requires v.typ == ArrayTyp && At(s, i, Marshal(v))
    ensures i < |s| && s[i] == ARRAY
    ensures At(s, i + 1 + |Decimal(|v.elements|)| + 2, MarshalAll(v.elements))
    ensures i + |Marshal(v)| == i + 1 + |Decimal(|v.elements|)| + 2 + |MarshalAll(v.elements)|
  {
    ArrayFrame(v, s, i);
  }

  /** The array values the round trip covers carry nothing but their elements. */
  lemma CanonicalArray(v: Value)
    requires v.typ == ArrayTyp && Canonical(v)
    ensures v == Value(ArrayTyp, [], 0, [], v.elements) && AllCanonical(v.elements)
  {
  }

  /** The count line of an array that Marshal wrote at i reads as its number of elements. */
  lemma ArrayLength(v: Value, s: Bytes, i: nat)
    requires v.typ == ArrayTyp && At(s, i, Marshal(v))
    ensures i + 1 <= |s|
    ensures ParseLength(s, i + 1) == Ok(Length(|v.elements|, i + 1 + |Decimal(|v.elements|)| + 2))
  {
    ArrayFrame(v, s, i);
    ParseIntDecimal(|v.elements|);
    LengthLine(s, i + 1, Decimal(|v.elements|), |v.elements|);
  }

  /** An array prefix, a count line and that many decoded elements make the array value. */
  lemma ArrayDecoded(v: Value, s: Bytes, i: nat, j: nat, k: nat)
    requires v == Value(ArrayTyp, [], 0, [], v.elements)
    requires i < |s| && s[i] == ARRAY && ParseLength(s, i + 1) == Ok(Length(|v.elements|, j))
    requires j <= |s| && ParseItems(s, j, |v.elements|, []) == Ok(ParsedItems(v.elements, k))
    ensures Parse(s, i) == Ok(Parsed(v, k))
  {
  }

  /** The encodings of items, decoded as the elements of an array, give back the items. */
  lemma ItemsMarshal(items: seq<Value>, s: Bytes, i: nat)
    requires AllCanonical(items) && At(s, i, MarshalAll(items))
    ensures i <= |s|
    ensures ParseItems(s, i, |items|, []) == Ok(ParsedItems(items, i + |MarshalAll(items)|))
    decreases items, 3
  {
    ParseItemsMarshal(items, s, i, []);
    assert [] + items == items;
  }

  /** Decoding the concatenated encodings of items gives back each of them, in order. */
  lemma {:induction false} ParseItemsMarshal(items: seq<Value>, s: Bytes, i: nat, acc: seq<Value>)
    requires AllCanonical(items) && At(s, i, MarshalAll(items))
    ensures ParseItems(s, i, |items|, acc) == Ok(ParsedItems(acc + items, i + |MarshalAll(items)|))
    decreases items, 2
  {
    if |items| == 0 {
      assert acc + items == acc;
    } else {
      var j := ItemsCons(items, s, i, acc);
      ItemsMarshalStep(items, s, i, j, acc, i + |MarshalAll(items)|);
    }
  }

  /** The first item decoded up to j, then the others by ParseItemsMarshal. */
  lemma {:induction false} ItemsMarshalStep(items: seq<Value>, s: Bytes, i: nat, j: nat, acc: seq<Value>, k: nat)
    requires |items| > 0 && i <= |s| && j <= |s|
    requires AllCanonical(items[1..]) && At(s, j, MarshalAll(items[1..]))
    requires j + |MarshalAll(items[1..])| == k
    requires ParseItems(s, i, |items|, acc) == ParseItems(s, j, |items| - 1, acc + [items[0]])
    ensures ParseItems(s, i, |items|, acc) == Ok(ParsedItems(acc + items, k))
    decreases items, 1
  {
    ParseItemsMarshal(items[1..], s, j, acc + [items[0]]);
    ConsAppend(acc, items);
    ItemsThen(s, i, j, |items|, acc, items[0], ParsedItems(acc + items, k));
  }

  /** One element decoded, then the rest: the outcome of the rest is the outcome of the whole. */
  lemma ItemsThen(s: Bytes, i: nat, j: nat, n: nat, acc: seq<Value>, head: Value, rest: ParsedItems)
    requires i <= |s| && j <= |s| && n > 0
    requires ParseItems(s, i, n, acc) == ParseItems(s, j, n - 1, acc + [head])
    requires ParseItems(s, j, n - 1, acc + [head]) == Ok(rest)
    ensures ParseItems(s, i, n, acc) == Ok(rest)
  {
  }

  lemma ConsAppend<T>(acc: seq<T>, items: seq<T>)
    requires |items| > 0
    ensures acc + [items[0]] + items[1..] == acc + items
  {
    assert items == [items[0]] + items[1..];
  }

  /**
   * The first of the items decodes back and leaves the others to decode,
   * from the position j where its encoding ends.
   */
  lemma ItemsCons(items: seq<Value>, s: Bytes, i: nat, acc: seq<Value>) returns (j: nat)
    requires |items| > 0 && AllCanonical(items) && At(s, i, MarshalAll(items))
    ensures AllCanonical(items[1..]) && At(s, j, MarshalAll(items[1..])) && j <= |s|
    ensures j + |MarshalAll(items[1..])| == i + |MarshalAll(items)|
    ensures ParseItems(s, i, |items|, acc) == ParseItems(s, j, |items| - 1, acc + [items[0]])
    decreases items, 0
  {
    j := i + |Marshal(items[0])|;
    MarshalAllAt(s, i, items);
    assert Parse(s, i) == Ok(Parsed(items[0], j)) by { ParseMarshal(items[0], s, i); }
    ItemsAfterRead(s, i, |items|, acc, Ok(items[0]), j);
  }

  /** The encodings of a non-empty list of items: the first item's, then the others'. */
  lemma MarshalAllAt(s: Bytes, i: nat, items: seq<Value>)
    requires |items| > 0 && At(s, i, MarshalAll(items))
    ensures At(s, i, Marshal(items[0]))
    ensures At(s, i + |Marshal(items[0])|, MarshalAll(items[1..]))
    ensures |MarshalAll(items)| == |Marshal(items[0])| + |MarshalAll(items[1..])|
  {
    var a, b := Marshal(items[0]), MarshalAll(items[1..]);
    assert MarshalAll(items) == a + b;
    AtSplit(s, i, a, b);
  }

  /** decode(Marshal(v)) == v, whatever bytes follow the encoding on the stream. */
  lemma RoundTrip(v: Value, rest: Bytes)
    requires Canonical(v)
    ensures Parse(Marshal(v) + rest, 0) == Ok(Parsed(v, |Marshal(v)|))
  {
    var s := Marshal(v) + rest;
    assert s[0..|Marshal(v)|] == Marshal(v);
    ParseMarshal(v, s, 0);
  }

  /** The reader over a connection that delivers Marshal(v) returns v and consumes exactly those bytes. */
  method ReadMarshalled(v: Value, rest: Bytes) returns (r: Result<Value>, consumed: nat)
    requires Canonical(v)
    ensures r == Ok(v) && consumed == |Marshal(v)|
  {
    var reader := new NewResp(Marshal(v) + rest);
    r := reader.Read();
    consumed := reader.pos;
    RoundTrip(v, rest);
  }

  /** An integer value is written as no bytes, and nothing decodes from those. */
  lemma MarshalEmpty(v: Value)
    ensures v.typ == IntegerTyp ==> Marshal(v) == [] && Parse(Marshal(v), 0) == Err(EndOfStream)
  {
  }

  /** The null bulk string is written the same whatever the record's other fields hold. */
  lemma MarshalNullFields(v: Value, w: Value)
    requires v.typ == NullTyp && w.typ == NullTyp
    ensures Marshal(v) == Marshal(w) == [BULK, MINUS_SIGN, 49, CR, LF]
  {
  }

  /** The declared length of a bulk string is the byte count of its payload. */
  lemma BulkDeclaredLength(v: Value)
    requires v.typ == BulkTyp
    ensures exists d :: Marshal(v) == [BULK] + d + CRLF + v.bulk + CRLF && ParseInt(d) == Some(|v.bulk|)
  {
    ParseIntDecimal(|v.bulk|);
    assert Marshal(v) == [BULK] + Decimal(|v.bulk|) + CRLF + v.bulk + CRLF;
  }

  /** The null bulk string and the empty bulk string are different values with different encodings. */
  lemma NullIsNotEmptyBulk()
    ensures Value(NullTyp, [], 0, [], []) != Value(BulkTyp, [], 0, [], [])
    ensures Marshal(Value(NullTyp, [], 0, [], [])) != Marshal(Value(BulkTyp, [], 0, [], []))
  {
    assert Marshal(Value(BulkTyp, [], 0, [], []))[1] != MINUS_SIGN;
  }

  /** The type byte decides the tag of whatever is decoded; any other byte is an error. */
  lemma ParsePrefix(s: Bytes, i: nat)
    requires i < |s|
    ensures Parse(s, i).Ok? ==> s[i] in {STRING, ERROR, INTEGER, BULK, ARRAY}
    ensures s[i] !in {STRING, ERROR, INTEGER, BULK, ARRAY} ==> Parse(s, i) == Err(UnknownType)
    ensures Parse(s, i).Ok? ==>
              var typ := Parse(s, i).value.value.typ;
              (s[i] == STRING ==> typ == StringTyp) &&
              (s[i] == ERROR ==> typ == ErrorTyp) &&
              (s[i] == INTEGER ==> typ == IntegerTyp) &&
              (s[i] == BULK ==> typ == BulkTyp || typ == NullTyp) &&
              (s[i] == ARRAY ==> typ == ArrayTyp)
  {
  }
}
