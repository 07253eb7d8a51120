# RESP codec and PING server, modelled in Dafny

This is a small Go server that speaks RESP, the Redis serialization protocol.
The project models two of its parts.

- **The codec in `resp.go`.**
  - The `Value` record is the datatype `Resp.Value`. Its tag is the enum `Resp.Typ`.
  - The encoder `Marshal` and its helpers are functions: `Resp.Marshal` dispatches on the tag to `MarshalString`, `MarshalBulk`, `MarshalArray`, `MarshalError` and `MarshalNull`, and `MarshalAll` concatenates an array's element encodings. It is also written as `Resp.MarshalBytes`, a method that grows a fresh byte sequence by appends, the way the Go code does.
  - The decoder `NewResp.Read` and its helpers are given twice:
    - as functions over the connection's bytes and an absolute cursor, which return the decoded value and where the cursor stops (`Resp.Parse`, `ParseValue`, `ParseLength`, `ParseBulk`, `ParseArray`, `ParseItems`);
    - as the class `Resp.NewResp`, whose methods advance a cursor `pos` over the bytes. Each method is proved to agree with its function (predicate `Agrees`): the same value or the same error, and on success the same final cursor. After an error the cursor is left unspecified.
  - `readArray` fills a freshly allocated array in a loop, as the Go code fills its slice.
  - Module `RespRoundTrip` proves the byte-exact framing and the round trip: decoding what `Marshal` wrote gives the value back and stops right after it.
- **Command recognition in `main.go`.**
  - `processCommand` and the loop of `handleConnection` are the class `Server.Session`. It holds the buffered bytes and everything written to the client.
  - Its methods are proved equal to the functions `Respond`, `Step` and `Serve`. Those functions are proved to:
    - recognise exactly the PING shape;
    - write only whole replies;
    - never leave a CR LF in the buffer.

Module `Wire` holds the byte type and the decimal numerals: `strconv.Itoa` becomes `Decimal`, and `strconv.Atoi` becomes `ParseInt`.

How the Go code's behaviour is stated:
- **Panics.** On three kinds of input the Go code panics instead of returning an error. Here each returns an explicit error:
  - a length line shorter than two bytes, where `lengthStr[:n-2]` panics: `LineTooShort`;
  - a bulk length below -1: `InvalidLength`. For -2, `make([]byte, 0)` succeeds, `io.ReadFull` reads nothing, and `bulkData[:length]` panics (resp.go:170). Below -2, `make([]byte, length+2)` itself panics (resp.go:163);
  - a negative array length, where `make([]Value, length)` panics: `InvalidLength`.
  
  A line of fewer than two bytes read by `readValue` (the line "\n") is `LineTooShort` too.
- **The integer asymmetry.** `Marshal` has no `"integer"` case, so an integer value encodes to no bytes. `RespRoundTrip.MarshalEmpty` states this. The round trip is proved for the values `Marshal` can express, as defined by `RespRoundTrip.Canonical`:
  - strings and errors with no LF inside;
  - bulk strings;
  - the null value;
  - arrays of these.
  
  In each case the fields the tag does not use must be zero.
- **Where the code differs from the protocol's usual description.** The model follows the code in each case:
  - an `"integer"` value is not encoded at all (`RespRoundTrip.MarshalEmpty`);
  - the two bytes after a bulk payload are consumed without being checked to be CR LF (`Resp.ParseBulk`);
  - there is no limit on bulk length, array count or nesting depth, so no "limit exceeded" error;
  - an integer or length may carry a leading `+`, as `strconv.Atoi` allows;
  - the unknown command error is a fixed text that does not name the command;
  - the reply depends on how the transport cuts the bytes into reads (`Server.ReplyDependsOnChunking`);
  - the code checks only that `parts[2]` is `PING`, never the declared bulk length; `Server.PingRequest` states that exact shape.
- **Length lines.** The code reads a length with a raw `conn.Read` into a 32-byte buffer and drops the last two bytes of whatever arrived. The model reads "the line up to and including LF" there, which is the framing that `n-2` assumes.

## Model

| member | source | states |
|---|---|---|
| Wire.DecimalDigits | resp.go:60 | `strconv.Itoa` of a non-negative length is a non-empty run of decimal digits |
| Wire.DigitsValueDecimal | resp.go:60 | the digits written for n have the value n (Itoa and digit-value are inverse) |
| Wire.Decimal | resp.go:60 | `strconv.Itoa` of a non-negative length or count (also resp.go:72); its digits and their value are stated by `DecimalDigits` and `DigitsValueDecimal` |
| Wire.ParseInt | resp.go:153 | `strconv.Atoi`, as used for every length and integer read (also resp.go:184 and resp.go:218): an optional sign, then at least one digit; `ParseIntDecimal` and `IntegerLine` state what it reads |
| Wire.ParseIntDecimal | resp.go:153 | `strconv.Atoi(strconv.Itoa(n)) == n` for n >= 0, and a leading minus reads back as -n |
| Wire.LineEnd | resp.go:205 | reading up to LF: the result is just past the first LF at or after the cursor, with no LF before it; None exactly when no LF follows |
| Resp.Marshal | resp.go:30-45 | the encoding is empty exactly for tags without a case, "integer" among them; every tag the switch names writes at least one byte |
| Resp.MarshalString | resp.go:47-54 | `+`, the text, CR LF; the bytes are stated by `RespRoundTrip.LineFrame` |
| Resp.MarshalBulk | resp.go:56-65 | `$`, the decimal length, CR LF, the payload, CR LF; the bytes are stated by `RespRoundTrip.BulkFrame` |
| Resp.MarshalArray | resp.go:67-79 | `*`, the decimal count, CR LF, the elements' encodings; the bytes are stated by `RespRoundTrip.ArrayFrame` |
| Resp.MarshalAll | resp.go:75-77 | the elements' encodings in index order; `Resp.MarshalAllSnoc` states the loop step |
| Resp.MarshalError | resp.go:81-88 | `-`, the text, CR LF; the bytes are stated by `RespRoundTrip.LineFrame` |
| Resp.MarshalNull | resp.go:90-93 | the five bytes `$-1\r\n`, whatever the value's other fields hold; stated by `RespRoundTrip.MarshalNullFields` |
| Resp.MarshalEndsWithLf | resp.go:47-93 | every non-empty encoding ends with LF, an array's too, even when its last elements encode to nothing |
| Resp.MarshalAllSnoc | resp.go:75-77 | appending one element's encoding after the others' is the encoding of the longer element list, in index order |
| Resp.MarshalBytes | resp.go:30-93 | the append-based encoder, including marshalArray's loop, yields exactly `Marshal(v)` for every tag (empty for "integer" and unknown tags) |
| Resp.Parse | resp.go:101-125 | a successful read consumes the type byte and more, and never runs past the input |
| Resp.ParseValue | resp.go:205-224 | a successful simple read consumes at least the two bytes dropped as CR LF and stays inside the input; only the `+`, `-` and `:` tags succeed, any other tag fails |
| Resp.ValueUnknownTag | resp.go:210-224 | any other tag is refused: after a line of at least two bytes the error is `UnknownType` |
| Resp.ValueLine | resp.go:205-210 | a simple read that succeeds consumes exactly one line: the cursor stops just past the first LF |
| Resp.ParseLength | resp.go:147-156 | a successful length read consumes at least the two bytes dropped as CR LF and stays inside the input |
| Resp.ParseBulk | resp.go:143-171 | a successful bulk read consumes at least the length line's two ending bytes and stays inside the input |
| Resp.ParseArray | resp.go:174-199 | a successful array read consumes at least two bytes and stays inside the input |
| Resp.ArrayAfterCount | resp.go:178-189 | an array that decodes consumes its whole count line before its elements |
| Resp.ParseItems | resp.go:190-196 | decoding the elements moves the cursor forward and never past the input |
| Resp.ParseItemsCount | resp.go:189-196 | a successful element loop returns exactly n more values, after the ones already held |
| Resp.ArrayCount | resp.go:184-198 | a decoded array holds exactly as many elements as its length line declares |
| Resp.NewResp.constructor | resp.go:96-98 | a reader starts at the first byte of the connection |
| Resp.NewResp.Read | resp.go:101-125 | reads one type byte and dispatches on it: result and final cursor equal `Parse`; an unknown byte is `UnknownType`, an exhausted stream `EndOfStream` |
| Resp.NewResp.ReadString | resp.go:128-130 | equals `ParseValue` with the `+` prefix |
| Resp.NewResp.ReadError | resp.go:133-135 | equals `ParseValue` with the `-` prefix |
| Resp.NewResp.ReadInteger | resp.go:138-140 | equals `ParseValue` with the `:` prefix |
| Resp.NewResp.ReadLine | resp.go:204-208 | returns the bytes up to and including the next LF and moves past them; without an LF, `EndOfStream` |
| Resp.NewResp.ReadLength | resp.go:147-156 | the length line as `ParseLength` reads it: too short is `LineTooShort`, not a decimal is `InvalidInteger`, otherwise the number and the cursor after the LF |
| Resp.NewResp.ReadBulk | resp.go:143-171 | equals `ParseBulk`: -1 is the null value, below -1 is `InvalidLength`, otherwise `length` bytes are kept and `length+2` consumed |
| Resp.NewResp.ReadArray | resp.go:174-199 | equals `ParseArray`: a negative count is `InvalidLength`; otherwise a fresh array of `length` slots is filled and returned as the array value |
| Resp.NewResp.ReadElements | resp.go:190-196 | equals `ParseItems` from the cursor: one Read per slot in index order, the array ends up holding exactly the decoded elements, and the first failing element's error is returned |
| Resp.NewResp.ReadValue | resp.go:202-226 | equals `ParseValue`: the payload is the line minus its last two bytes, an integer that does not parse is `InvalidInteger` |
| RespRoundTrip.LengthLine | resp.go:153 | a length line of digits and CR LF reads as its number and ends right after its LF |
| RespRoundTrip.LinePayload | resp.go:205-216 | a simple string or error payload is the line with its last two bytes removed, whatever the byte before LF is |
| RespRoundTrip.IntegerLine | resp.go:210-222 | an integer line is read as `strconv.Atoi` of the line minus its last two bytes, ending after the LF; a payload Atoi rejects is `InvalidInteger` |
| RespRoundTrip.BulkPayload | resp.go:162-170 | bulk strings are binary safe: after the length line exactly `length` bytes are kept verbatim, CR and LF included, and `length+2` are consumed |
| RespRoundTrip.NullAt | resp.go:158-159 | `$-1\r\n` decodes to the null value and consumes five bytes |
| RespRoundTrip.LineFrame | resp.go:48-54 | the encoding of a simple string or error is its prefix, its text, then CR LF |
| RespRoundTrip.BulkFrame | resp.go:57-65 | the encoding of a bulk string is `$`, its decimal length, CR LF, the payload, then a closing CR LF as its last two bytes |
| RespRoundTrip.ArrayFrame | resp.go:68-79 | the encoding of an array is `*`, its decimal count, CR LF, then every element's encoding in index order |
| RespRoundTrip.ArrayLength | resp.go:69-73 | the count line the encoder writes reads back as the number of elements |
| RespRoundTrip.ParseMarshalLine | resp.go:202-216 | a simple string or error written by the encoder decodes back to itself |
| RespRoundTrip.ParseMarshalBulk | resp.go:143-171 | a bulk string written by the encoder decodes back to itself |
| RespRoundTrip.ParseMarshalArray | resp.go:174-199 | an array written by the encoder decodes back to itself, element by element |
| RespRoundTrip.ParseItemsMarshal | resp.go:190-196 | the concatenated encodings of a list decode back to that list, in order, ending right after them |
| RespRoundTrip.ItemsMarshal | resp.go:190-196 | the element loop over an encoded element list returns that list |
| RespRoundTrip.ParseMarshal | resp.go:30-45 | decode(Marshal(v)) == v for every value the encoder can express, and the cursor stops right after the encoding |
| RespRoundTrip.RoundTrip | resp.go:101-125 | decode(Marshal(v) + anything) == v, consuming exactly the encoding |
| RespRoundTrip.ReadMarshalled | resp.go:101-125 | the reader over a connection carrying Marshal(v) returns v and consumes exactly those bytes |
| RespRoundTrip.MarshalEmpty | resp.go:42-43 | an "integer" value falls to the default case and is written as no bytes, and nothing decodes from that |
| RespRoundTrip.MarshalNullFields | resp.go:91-93 | the null value is written as `$-1\r\n` whatever the other fields hold |
| RespRoundTrip.BulkDeclaredLength | resp.go:57-65 | the declared bulk length is the byte count of the payload |
| RespRoundTrip.NullIsNotEmptyBulk | resp.go:158-159 | null and the empty bulk string are different values with different encodings |
| RespRoundTrip.ParsePrefix | resp.go:109-124 | only `+ - : $ *` decode; any other byte is `UnknownType`; the byte decides the decoded tag |
| Server.FirstCrlf | main.go:65 | `strings.Contains(command, "\r\n")`: None exactly when there is no CR LF; otherwise the first one |
| Server.Split | main.go:67 | `strings.Split` on CR LF: at least one part, so the `len(parts) > 0` guard always passes; the parts hold no CR LF and join back to the input; exactly one part when there is no CR LF |
| Server.SplitJoin | main.go:67 | Split and Join are inverse on parts that hold no CR LF |
| Server.Respond | main.go:61-83 | no reply exactly while there is no CR LF; otherwise either `+PONG\r\n` or the unknown command error |
| Server.RespondPing | main.go:70-72 | the reply is `+PONG\r\n` exactly when the buffer is `*1`, CR LF, one line, CR LF, `PING`, then nothing or CR LF and anything |
| Server.RespondUnknown | main.go:75-77 | every other buffer with a CR LF gets `-ERR unknown command\r\n` |
| Server.PingCommandEncoding | main.go:70 | the PING command clients send, `*1\r\n$4\r\nPING\r\n`, is the encoder's output for a one-element array of the bulk string "PING" |
| Server.PingCommandReply | main.go:70-72 | that command is answered `+PONG\r\n` |
| Server.Step | main.go:53-56 | after a chunk, either the buffer grew by the chunk and nothing was written, or the buffer is empty and exactly one reply was written; the buffer never holds a CR LF afterwards |
| Server.ServeWritesReplies | main.go:72-77 | the handler only appends to what it has written, and what it writes is a run of whole replies |
| Server.ServeBufferHasNoCrlf | main.go:65-78 | whatever completes a line is answered and dropped, so the buffer never holds a CR LF |
| Server.ServeSinceReset | main.go:47-78 | the buffer left over is exactly what was received since the last reply: with no reply yet, the old buffer and every chunk taken in; otherwise the chunks after the read that was answered last, where that read comes before the first error or empty read and nothing is written after it |
| Server.ServeKeepsAll | main.go:53-56 | while nothing has been written, the buffer is every chunk received, in order |
| Server.Serve | main.go:40-57 | the read loop only appends to what has been written, never takes it back |
| Server.ReplyDependsOnChunking | main.go:41-56 | the same bytes get `+PONG` in one read but two errors when cut after `*1\r\n$4` |
| Server.Session.constructor | main.go:37 | a connection starts with an empty buffer and nothing written |
| Server.Session.ProcessCommand | main.go:61-83 | per `Respond` on the old buffer: no change without a reply, otherwise the reply appended and the buffer cleared |
| Server.Session.HandleConnection | main.go:40-57 | the state after the read loop equals `Serve`: each chunk is appended then processed, and an error or empty read stops the loop unprocessed |

## Left out

- `main` (main.go:11-30): listening, accepting and one goroutine per connection are network plumbing and concurrency.
- Logging with `fmt.Println` is left out. Writes to the client are an appended byte sequence. Write errors are not modelled.
- The connection is an ideal byte sequence. Three Go transport behaviours are not modelled:
  - the 32-byte raw `conn.Read` of a length line, which can return part of a line or more than one line (resp.go:144-147 and resp.go:175-178);
  - the bytes a fresh `bufio.Reader` buffers and then discards (resp.go:204);
  - the chunking of `io.ReadFull`.
- Exact Go error values are not modelled. The messages of `errors.New`, `io.EOF` and `*strconv.NumError` become the five `Resp.Error` cases.
- `strconv.Atoi` is modelled as an optional sign followed by at least one digit, over unbounded integers. Go's platform-width `int`, the range error on overflow and `make`'s limits on huge lengths are not modelled.
- `Value.typ` is a Go string. It is modelled as `Resp.Typ`: the six tags the code uses, plus `OtherTyp` for any other string. The `array` field is named `elements`, because `array` is a reserved word in Dafny.
- Where the cursor stands after an error is left unspecified. Every caller discards the reader after an error.
- The 1024-byte read buffer in `handleConnection` is left out. Each element of `results` is what one `conn.Read` returned, of any length.
- Resp.NewResp.ReadLength: the bulk and array length reads are one shared method, where the Go code writes the same lines twice (resp.go:144-156 and resp.go:175-187).
- Resp.NewResp.ReadElements: the loop of `readArray` is a method of its own, which fills the array `ReadArray` allocates. The Go code writes both in one function.
