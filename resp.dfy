/**
 * The RESP codec of resp.go: the Value record, the encoder (Marshal and its
 * helpers) and the recursive-descent decoder (NewResp.Read and its helpers).
 *
 * The decoder is given twice: as functions over a byte sequence and an
 * absolute cursor (Parse, ParseValue, ParseBulk, ParseArray, ParseItems),
 * which say what is decoded and where the cursor ends, and as the class
 * NewResp whose methods advance a cursor over the connection's bytes the way
 * the Go methods advance the stream, each proved to agree with its function.
 */
module Resp {
  import opened Wire

  // Type prefixes on the wire.
  const STRING: byte := 43   // '+'
  const ERROR: byte := 45    // '-'
  const INTEGER: byte := 58  // ':'
  const BULK: byte := 36     // '$'
  const ARRAY: byte := 42    // '*'

  /**
   * The tag held in Value.typ: the six strings the code assigns or tests,
   * and any other string (Go's zero Value{} has the empty one).
   */
  datatype Typ = StringTyp | ErrorTyp | IntegerTyp | BulkTyp | NullTyp | ArrayTyp | OtherTyp(name: OtherName)

  /** A tag string other than the six the code assigns or tests. */
  type OtherName = t: string | t !in {"string", "error", "integer", "bulk", "null", "array"} witness ""

  /** The Go record: a tag and one field per kind of payload. */
  datatype Value = Value(typ: Typ, str: Bytes, num: int, bulk: Bytes, elements: seq<Value>)

  /** Go's zero Value{}. */
  const ZERO_VALUE := Value(OtherTyp(""), [], 0, [], [])

  /** The decoder's failures; the last three stand for inputs on which the Go code panics. */
  datatype Error =
    | EndOfStream     // the stream ends before the value does
    | InvalidInteger  // strconv.Atoi rejects a length or an integer payload
    | UnknownType     // a type prefix other than + - : $ *
    | LineTooShort    // a line of fewer than two bytes: slicing off "CRLF" panics
    | InvalidLength   // a bulk length below -1 or an array length below 0: make panics

  datatype Result<T> = Ok(value: T) | Err(error: Error)

  // ---------------------------------------------------------------------------
  // Encoder
  // ---------------------------------------------------------------------------

  /**
   * The wire form of v: empty exactly for the tags the encoder has no case
   * for, an integer among them.
   */
  function Marshal(v: Value): (r: Bytes)
    ensures |r| == 0 <==> v.typ.IntegerTyp? || v.typ.OtherTyp?
    decreases v, 1
  {
    if v.typ == ArrayTyp then MarshalArray(v)
    else if v.typ == BulkTyp then MarshalBulk(v)
    else if v.typ == StringTyp then MarshalString(v)
    else if v.typ == NullTyp then MarshalNull(v)
    else if v.typ == ErrorTyp then MarshalError(v)
    else []
  }

  function MarshalString(v: Value): Bytes {
    [STRING] + v.str + CRLF
  }

  function MarshalBulk(v: Value): Bytes {
    [BULK] + Decimal(|v.bulk|) + CRLF + v.bulk + CRLF
  }

  function MarshalArray(v: Value): Bytes
    decreases v, 0
  {
    [ARRAY] + Decimal(|v.elements|) + CRLF + MarshalAll(v.elements)
  }

  /** The elements' wire forms concatenated in index order. */
  function MarshalAll(items: seq<Value>): Bytes
    decreases items
  {
    if |items| == 0 then [] else Marshal(items[0]) + MarshalAll(items[1..])
  }

  function MarshalError(v: Value): Bytes {
    [ERROR] + v.str + CRLF
  }

  function MarshalNull(v: Value): Bytes {
    [BULK, MINUS_SIGN, 49, CR, LF]  // "$-1\r\n"
  }

  /** A non-empty encoding is a whole frame: it ends with a line feed. */
  lemma {:induction false} MarshalEndsWithLf(v: Value)
    requires Marshal(v) != []
    ensures Marshal(v)[|Marshal(v)| - 1] == LF
    decreases v, 1
  {
    if v.typ == ArrayTyp && MarshalAll(v.elements) != [] {
      MarshalAllEndsWithLf(v.elements);
    }
  }

  lemma {:induction false} MarshalAllEndsWithLf(items: seq<Value>)
    requires MarshalAll(items) != []
    ensures MarshalAll(items)[|MarshalAll(items)| - 1] == LF
    decreases items, 0
  {
    if MarshalAll(items[1..]) != [] {
      MarshalAllEndsWithLf(items[1..]);
    } else {
      MarshalEndsWithLf(items[0]);
    }
  }

  /** Appending the element encodings one at a time, as the loop in marshalArray does. */
  lemma {:induction false} MarshalAllSnoc(items: seq<Value>, x: Value)
    ensures MarshalAll(items + [x]) == MarshalAll(items) + Marshal(x)
  {
    if |items| == 0 {
      assert [x][1..] == [];
    } else {
      assert (items + [x])[1..] == items[1..] + [x];
      MarshalAllSnoc(items[1..], x);
    }
  }

  /**
   * The encoder as the Go code runs it: a fresh byte slice grown by appends,
   * with a loop over the elements of an array.
   */
  method MarshalBytes(v: Value) returns (bytes: Bytes)
    ensures bytes == Marshal(v)
    decreases v
  {
    if v.typ == ArrayTyp {
      bytes := [ARRAY] + Decimal(|v.elements|) + CRLF;
      var i := 0;
      while i < |v.elements|
        invariant 0 <= i <= |v.elements|
        invariant bytes == [ARRAY] + Decimal(|v.elements|) + CRLF + MarshalAll(v.elements[..i])
      {
        var item := MarshalBytes(v.elements[i]);
        MarshalAllSnoc(v.elements[..i], v.elements[i]);
        assert v.elements[..i + 1] == v.elements[..i] + [v.elements[i]];
        bytes := bytes + item;
        i := i + 1;
      }
      assert v.elements[..i] == v.elements;
    } else if v.typ == BulkTyp {
      bytes := [BULK] + Decimal(|v.bulk|) + CRLF + v.bulk + CRLF;
    } else if v.typ == StringTyp {
      bytes := [STRING] + v.str + CRLF;
    } else if v.typ == NullTyp {
      bytes := [BULK, MINUS_SIGN, 49, CR, LF];
    } else if v.typ == ErrorTyp {
      bytes := [ERROR] + v.str + CRLF;
    } else {
      bytes := [];
    }
  }

  // ---------------------------------------------------------------------------
  // Decoder, as functions of the input bytes and the cursor
  // ---------------------------------------------------------------------------

  datatype Parsed = Parsed(value: Value, next: nat)
  datatype ParsedItems = ParsedItems(values: seq<Value>, next: nat)
  datatype Length = Length(n: int, next: nat)

  /** One value starting at the type prefix at s[i]. */
  function Parse(s: Bytes, i: nat): (r: Result<Parsed>)
    requires i <= |s|
    ensures r.Ok? ==> i < r.value.next <= |s|
    decreases |s| - i, 0
  {
    if i == |s| then Err(EndOfStream)
    else
      var typ := s[i];
      if typ == STRING || typ == ERROR || typ == INTEGER then ParseValue(s, i + 1, typ)
      else if typ == BULK then ParseBulk(s, i + 1)
      else if typ == ARRAY then ParseArray(s, i + 1)
      else Err(UnknownType)
  }

  /** readValue: the line up to LF with its last two bytes removed, as a simple string, error or integer. */
  function ParseValue(s: Bytes, i: nat, typ: byte): (r: Result<Parsed>)
    requires i <= |s|
    ensures r.Ok? ==> i + 2 <= r.value.next <= |s|
    ensures r.Ok? ==> typ == STRING || typ == ERROR || typ == INTEGER
  {
    match LineEnd(s, i)
    case None => Err(EndOfStream)
    case Some(j) =>
      if j - i < 2 then Err(LineTooShort)
      else
        var payload := s[i..j - 2];
        if typ == STRING then Ok(Parsed(Value(StringTyp, payload, 0, [], []), j))
        else if typ == ERROR then Ok(Parsed(Value(ErrorTyp, payload, 0, [], []), j))
        else if typ == INTEGER then
          match ParseInt(payload)
          case None => Err(InvalidInteger)
          case Some(n) => Ok(Parsed(Value(IntegerTyp, [], n, [], []), j))
        else Err(UnknownType)
  }

  /** A simple value that decodes takes exactly one line: the cursor stops just past its LF. */
  lemma ValueLine(s: Bytes, i: nat, typ: byte)
    requires i <= |s| && ParseValue(s, i, typ).Ok?
    ensures LineEnd(s, i) == Some(ParseValue(s, i, typ).value.next)
  {
  }

  /** Any other tag is refused once a line of at least two bytes has been read. */
  lemma ValueUnknownTag(s: Bytes, i: nat, typ: byte)
    requires i <= |s| && typ != STRING && typ != ERROR && typ != INTEGER
    requires LineEnd(s, i).Some? && LineEnd(s, i).value - i >= 2
    ensures ParseValue(s, i, typ) == Err(UnknownType)
  {
  }

  /** The length line of a bulk string or an array: a decimal followed by two bytes and LF. */
  function ParseLength(s: Bytes, i: nat): (r: Result<Length>)
    requires i <= |s|
    ensures r.Ok? ==> i + 2 <= r.value.next <= |s|
  {
    match LineEnd(s, i)
    case None => Err(EndOfStream)
    case Some(j) =>
      if j - i < 2 then Err(LineTooShort)
      else
        match ParseInt(s[i..j - 2])
        case None => Err(InvalidInteger)
        case Some(n) => Ok(Length(n, j))
  }

  /** readBulk: length -1 is the null value; otherwise length bytes kept and two more skipped. */
  function ParseBulk(s: Bytes, i: nat): (r: Result<Parsed>)
    requires i <= |s|
    ensures r.Ok? ==> i + 2 <= r.value.next <= |s|
  {
    match ParseLength(s, i)
    case Err(e) => Err(e)
    case Ok(Length(n, j)) =>
      if n == -1 then Ok(Parsed(Value(NullTyp, [], 0, [], []), j))
      else if n < -1 then Err(InvalidLength)
      else if j + n + 2 > |s| then Err(EndOfStream)
      else Ok(Parsed(Value(BulkTyp, [], 0, s[j..j + n], []), j + n + 2))
  }

  /** readArray: a count, then that many values, each decoded by Parse. */
  function ParseArray(s: Bytes, i: nat): (r: Result<Parsed>)
    requires i <= |s|
    ensures r.Ok? ==> i + 2 <= r.value.next <= |s|
    decreases |s| - i, 0
  {
    match ParseLength(s, i)
    case Err(e) => Err(e)
    case Ok(Length(n, j)) =>
      if n < 0 then Err(InvalidLength)
      else
        ArrayOf(ParseItems(s, j, n, []))
  }

  /** An array that decodes consumes its whole count line before its elements. */
  lemma ArrayAfterCount(s: Bytes, i: nat)
    requires i <= |s| && ParseArray(s, i).Ok?
    ensures ParseLength(s, i).Ok? && ParseLength(s, i).value.next <= ParseArray(s, i).value.next
  {
  }

  /** The array value made of decoded elements. */
  function ArrayOf(r: Result<ParsedItems>): Result<Parsed> {
    match r
    case Err(e) => Err(e)
    case Ok(ParsedItems(items, k)) => Ok(Parsed(Value(ArrayTyp, [], 0, [], items), k))
  }

  /** n more values after the ones already in acc; the first failing element fails the whole array. */
  function ParseItems(s: Bytes, i: nat, n: nat, acc: seq<Value>): (r: Result<ParsedItems>)
    requires i <= |s|
    ensures r.Ok? ==> i <= r.value.next <= |s|
    decreases |s| - i, 1, n
  {
    if n == 0 then Ok(ParsedItems(acc, i))
    else
      match Parse(s, i)
      case Err(e) => Err(e)
      case Ok(Parsed(v, j)) => ParseItems(s, j, n - 1, acc + [v])
  }

  /** The method's result and cursor are those the decoding function gives. */
  predicate Agrees(r: Result<Value>, pos: nat, spec: Result<Parsed>) {
    match spec
    case Ok(Parsed(v, j)) => r == Ok(v) && pos == j
    case Err(e) => r == Err(e)
  }

  /**
   * One element of an array: what the reader returned for it either fails
   * the remaining elements or leaves one fewer to decode.
   */
  lemma ItemsAfterRead(s: Bytes, i: nat, n: nat, acc: seq<Value>, r: Result<Value>, j: nat)
    requires i <= |s| && n > 0 && Agrees(r, j, Parse(s, i))
    ensures r.Err? ==> ParseItems(s, i, n, acc) == Err(r.error)
    ensures r.Ok? ==> j <= |s| && ParseItems(s, i, n, acc) == ParseItems(s, j, n - 1, acc + [r.value])
  {
  }

  /** After a count line of n >= 0, an array is its n elements. */
  lemma ArrayItems(s: Bytes, i: nat, n: nat, j: nat)
    requires i <= |s| && ParseLength(s, i) == Ok(Length(n, j))
    ensures ParseArray(s, i) == ArrayOf(ParseItems(s, j, n, []))
  {
  }

  /** The elements decoded come after the ones already held, exactly n of them. */
  lemma {:induction false} ParseItemsCount(s: Bytes, i: nat, n: nat, acc: seq<Value>)
    requires i <= |s|
    ensures ParseItems(s, i, n, acc).Ok? ==>
              |ParseItems(s, i, n, acc).value.values| == |acc| + n &&
              ParseItems(s, i, n, acc).value.values[..|acc|] == acc
    decreases n
  {
    if n > 0 && Parse(s, i).Ok? {
      var v, j := Parse(s, i).value.value, Parse(s, i).value.next;
      ParseItemsCount(s, j, n - 1, acc + [v]);
      var r := ParseItems(s, j, n - 1, acc + [v]);
      if r.Ok? {
        assert r.value.values[..|acc|] == r.value.values[..|acc| + 1][..|acc|];
      }
    }
  }

  /** A decoded array holds exactly as many elements as its length line declares. */
  lemma ArrayCount(s: Bytes, i: nat)
    requires i <= |s|
    ensures ParseArray(s, i).Ok? ==>
              && ParseLength(s, i).Ok?
              && |ParseArray(s, i).value.value.elements| == ParseLength(s, i).value.n
  {
    if ParseLength(s, i).Ok? && ParseLength(s, i).value.n >= 0 {
      ParseItemsCount(s, ParseLength(s, i).value.next, ParseLength(s, i).value.n, []);
    }
  }

  // ---------------------------------------------------------------------------
  // Decoder, as the stateful reader
  // ---------------------------------------------------------------------------

  /** A reader over the bytes a connection delivers; pos is how many have been consumed. */
  class NewResp {
    const conn: Bytes
    var pos: nat

    ghost predicate Valid()
      reads this
    {
      pos <= |conn|
    }

    constructor (conn: Bytes)
      ensures this.conn == conn && pos == 0 && Valid()
    {
      this.conn := conn;
      pos := 0;
    }

    /** Read: one type byte, then the reader that byte selects. */
    method Read() returns (r: Result<Value>)
      requires Valid()
      modifies this
      ensures Valid() && old(pos) <= pos
      ensures Agrees(r, pos, Parse(conn, old(pos)))
      decreases |conn| - pos, 1
    {
      if pos == |conn| {
        return Err(EndOfStream);
      }
      var typ := conn[pos];
      pos := pos + 1;
      if typ == STRING {
        r := ReadString();
      } else if typ == ERROR {
        r := ReadError();
      } else if typ == INTEGER {
        r := ReadInteger();
      } else if typ == BULK {
        r := ReadBulk();
      } else if typ == ARRAY {
        r := ReadArray();
      } else {
        r := Err(UnknownType);
      }
    }

    method ReadString() returns (r: Result<Value>)
      requires Valid()
      modifies this
      ensures Valid() && old(pos) <= pos
      ensures Agrees(r, pos, ParseValue(conn, old(pos), STRING))
    {
      r := ReadValue(STRING);
    }

    method ReadError() returns (r: Result<Value>)
      requires Valid()
      modifies this
      ensures Valid() && old(pos) <= pos
      ensures Agrees(r, pos, ParseValue(conn, old(pos), ERROR))
    {
      r := ReadValue(ERROR);
    }

    method ReadInteger() returns (r: Result<Value>)
      requires Valid()
      modifies this
      ensures Valid() && old(pos) <= pos
      ensures Agrees(r, pos, ParseValue(conn, old(pos), INTEGER))
    {
      r := ReadValue(INTEGER);
    }

    /** The bytes up to and including the next LF; at the end of the stream, an error. */
    method ReadLine() returns (r: Result<Bytes>)
      requires Valid()
      modifies this
      ensures Valid() && old(pos) <= pos
      ensures match LineEnd(conn, old(pos))
              case None => r == Err(EndOfStream)
              case Some(j) => r == Ok(conn[old(pos)..j]) && pos == j
    {
      var end := LineEnd(conn, pos);
      if end.None? {
        pos := |conn|;
        return Err(EndOfStream);
      }
      r := Ok(conn[pos..end.value]);
      pos := end.value;
    }

    /** The length line that starts a bulk string or an array, as readBulk and readArray both read it. */
    method ReadLength() returns (r: Result<int>)
      requires Valid()
      modifies this
      ensures Valid() && old(pos) <= pos
      ensures match ParseLength(conn, old(pos))
              case Ok(Length(n, j)) => r == Ok(n) && pos == j
              case Err(e) => r == Err(e)
    {
      var line := ReadLine();
      if line.Err? {
        return Err(line.error);
      }
      var lengthStr := line.value;
      if |lengthStr| < 2 {
        return Err(LineTooShort);
      }
      assert lengthStr[..|lengthStr| - 2] == conn[old(pos)..pos - 2];
      var length := ParseInt(lengthStr[..|lengthStr| - 2]);
      if length.None? {
        return Err(InvalidInteger);
      }
      r := Ok(length.value);
    }

    method ReadBulk() returns (r: Result<Value>)
      requires Valid()
      modifies this
      ensures Valid() && old(pos) <= pos
      ensures Agrees(r, pos, ParseBulk(conn, old(pos)))
    {
      var length := ReadLength();
      if length.Err? {
        return Err(length.error);
      }
      if length.value == -1 {
        return Ok(Value(NullTyp, [], 0, [], []));
      }
      if length.value < -1 {
        return Err(InvalidLength);
      }
      var n := length.value;
      if pos + n + 2 > |conn| {
        pos := |conn|;
        return Err(EndOfStream);
      }
      var bulkData := conn[pos..pos + n + 2];
      assert bulkData[..n] == conn[pos..pos + n];
      pos := pos + n + 2;
      r := Ok(Value(BulkTyp, [], 0, bulkData[..n], []));
    }

    /** readArray: a count line, then a fresh array of that many slots filled by ReadElements. */
    method ReadArray() returns (r: Result<Value>)
      requires Valid()
      modifies this
      ensures Valid() && old(pos) <= pos
      ensures Agrees(r, pos, ParseArray(conn, old(pos)))
      decreases |conn| - pos, 0
    {
      var length := ReadLength();
      if length.Err? {
        return Err(length.error);
      }
      if length.value < 0 {
        return Err(InvalidLength);
      }
      var n: nat := length.value;
      ArrayItems(conn, old(pos), n, pos);
      var values := new Value[n](_ => ZERO_VALUE);
      var filled := ReadElements(values);
      if filled.Err? {
        return Err(filled.error);
      }
      r := Ok(Value(ArrayTyp, [], 0, [], values[..]));
    }

    /** The loop of readArray: one Read per slot, in index order; the first failure stops it. */
    method ReadElements(values: array<Value>) returns (r: Result<seq<Value>>)
      requires Valid()
      modifies this, values
      ensures Valid() && old(pos) <= pos
      ensures match ParseItems(conn, old(pos), values.Length, [])
              case Ok(ParsedItems(items, j)) => r == Ok(items) && values[..] == items && pos == j
              case Err(e) => r == Err(e)
      decreases |conn| - pos, 2
    {
      ghost var items: seq<Value> := [];
      var i := 0;
      while i < values.Length
        invariant Valid() && old(pos) <= pos
        invariant 0 <= i <= values.Length && |items| == i
        invariant forall k :: 0 <= k < i ==> values[k] == items[k]
        invariant ParseItems(conn, old(pos), values.Length, []) ==
                  ParseItems(conn, pos, values.Length - i, items)
      {
        ghost var before := pos;
        var value := Read();
        ItemsAfterRead(conn, before, values.Length - i, items, value, pos);
        if value.Err? {
          return Err(value.error);
        }
        values[i] := value.value;
        items := items + [value.value];
        i := i + 1;
      }
      assert values[..] == items;
      r := Ok(values[..]);
    }

    /** readValue: a simple string, error or integer from the next line. */
    method ReadValue(typ: byte) returns (r: Result<Value>)
      requires Valid()
      modifies this
      ensures Valid() && old(pos) <= pos
      ensures Agrees(r, pos, ParseValue(conn, old(pos), typ))
    {
      var line := ReadLine();
      if line.Err? {
        return Err(line.error);
      }
      var valueBytes := line.value;
      if |valueBytes| < 2 {
        return Err(LineTooShort);
      }
      var valueStr := valueBytes[..|valueBytes| - 2];
      assert valueStr == conn[old(pos)..pos - 2];
      if typ == STRING {
        r := Ok(Value(StringTyp, valueStr, 0, [], []));
      } else if typ == ERROR {
        r := Ok(Value(ErrorTyp, valueStr, 0, [], []));
      } else if typ == INTEGER {
        var num := ParseInt(valueStr);
        if num.None? {
          return Err(InvalidInteger);
        }
        r := Ok(Value(IntegerTyp, [], num.value, [], []));
      } else {
        r := Err(UnknownType);
      }
    }
  }
}
