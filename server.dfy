/**
 * The connection handler of main.go: bytes read from a client accumulate in
 * a buffer; whenever the buffer holds a CR LF it is split on CR LF, answered
 * with "+PONG" when it looks like a one-element PING array and with an error
 * otherwise, and cleared.
 *
 * The decision is given as functions (FirstCrlf, Split, Join, Respond, Step,
 * Serve) and the handler as the class Session, whose methods change the
 * buffer and the bytes written the way the Go functions do and are proved to
 * agree with those functions.
 */
module Server {
  import opened Wire
  import opened Resp

  const STAR_ONE: Bytes := [42, 49]                      // "*1"
  const PING: Bytes := [80, 73, 78, 71]                  // "PING"
  const PONG_REPLY: Bytes := [43, 80, 79, 78, 71, 13, 10]  // "+PONG\r\n"
  /** "-ERR unknown command\r\n" */
  const UNKNOWN_REPLY: Bytes :=
    [45, 69, 82, 82, 32, 117, 110, 107, 110, 111, 119, 110, 32,
     99, 111, 109, 109, 97, 110, 100, 13, 10]
  /** "*1\r\n$4\r\nPING\r\n", the PING command as clients send it. */
  const PING_COMMAND: Bytes := [42, 49, 13, 10, 36, 52, 13, 10, 80, 73, 78, 71, 13, 10]

  // ---------------------------------------------------------------------------
  // strings.Contains, strings.Index and strings.Split with the separator "\r\n"
  // ---------------------------------------------------------------------------

  /** A CR LF pair starts at k. */
  predicate CrlfAt(s: Bytes, k: int) {
    0 <= k && k + 1 < |s| && s[k] == CR && s[k + 1] == LF
  }

  ghost predicate HasCrlf(s: Bytes) {
    exists k :: CrlfAt(s, k)
  }

  /** The first CR LF at or after i. */
  function FirstCrlfFrom(s: Bytes, i: nat): (r: Option<nat>)
    requires i <= |s|
    ensures r.Some? ==> i <= r.value && CrlfAt(s, r.value)
    ensures r.Some? ==> forall k :: i <= k < r.value ==> !CrlfAt(s, k)
    ensures r.None? ==> forall k :: i <= k ==> !CrlfAt(s, k)
    decreases |s| - i
  {
    if i + 1 >= |s| then None
    else if s[i] == CR && s[i + 1] == LF then Some(i)
    else FirstCrlfFrom(s, i + 1)
  }

  /** strings.Index(s, "\r\n"), with "not found" as None; strings.Contains is FirstCrlf(s).Some?. */
  function FirstCrlf(s: Bytes): (r: Option<nat>)
    ensures r.None? <==> !HasCrlf(s)
    ensures r.Some? ==> CrlfAt(s, r.value) && forall k :: 0 <= k < r.value ==> !CrlfAt(s, k)
  {
    FirstCrlfFrom(s, 0)
  }

  /** The parts joined back with CR LF between them (strings.Join). */
  function Join(parts: seq<Bytes>): Bytes
    requires |parts| >= 1
  {
    if |parts| == 1 then parts[0] else parts[0] + CRLF + Join(parts[1..])
  }

  /**
   * strings.Split(s, "\r\n"): the pieces between CR LF pairs, left to right.
   * The pieces hold no CR LF and join back to s; there is exactly one piece
   * when s holds no CR LF.
   */
  function Split(s: Bytes): (parts: seq<Bytes>)
    ensures |parts| >= 1 && Join(parts) == s
    ensures forall j :: 0 <= j < |parts| ==> !HasCrlf(parts[j])
    ensures |parts| == 1 <==> !HasCrlf(s)
    decreases |s|
  {
    match FirstCrlf(s)
    case None => [s]
    case Some(k) =>
      var head, rest := s[..k], Split(s[k + 2..]);
      assert !HasCrlf(head) by {
        forall j | CrlfAt(head, j) ensures false {
          assert CrlfAt(s, j);
        }
      }
      assert ([head] + rest)[1..] == rest;
      assert head + CRLF + s[k + 2..] == s;
      [head] + rest
  }

  /** A first piece free of CR LF is split off exactly at the CR LF that follows it. */
  lemma SplitCons(p: Bytes, r: Bytes)
    requires !HasCrlf(p)
    ensures Split(p + CRLF + r) == [p] + Split(r)
  {
    var s := p + CRLF + r;
    assert FirstCrlf(s) == Some(|p|) by {
      assert CrlfAt(s, |p|);
      forall k | 0 <= k < |p| ensures !CrlfAt(s, k) {
        if k + 1 < |p| {
          assert !CrlfAt(p, k);
        }
      }
    }
    assert s[..|p|] == p && s[|p| + 2..] == r;
  }

  /** Split and Join are inverse on pieces that hold no CR LF. */
  lemma {:induction false} SplitJoin(parts: seq<Bytes>)
    requires |parts| >= 1 && forall j :: 0 <= j < |parts| ==> !HasCrlf(parts[j])
    ensures Split(Join(parts)) == parts
  {
    if |parts| == 1 {
      assert Split(parts[0]) == [parts[0]];
    } else {
      SplitJoin(parts[1..]);
      SplitCons(parts[0], Join(parts[1..]));
    }
  }

  // ---------------------------------------------------------------------------
  // processCommand
  // ---------------------------------------------------------------------------

  /**
   * The reply processCommand writes for the buffered bytes, if any: none
   * while no CR LF has arrived; "+PONG\r\n" when the first piece is "*1",
   * there are more than two pieces and the third is "PING"; the unknown
   * command error otherwise.
   */
  function Respond(command: Bytes): (r: Option<Bytes>)
    ensures r.None? <==> !HasCrlf(command)
    ensures r.Some? ==> r.value == PONG_REPLY || r.value == UNKNOWN_REPLY
  {
    if FirstCrlf(command).Some? then
      var parts := Split(command);
      if |parts| > 0 then
        if parts[0] == STAR_ONE && |parts| > 2 && parts[2] == PING then Some(PONG_REPLY)
        else Some(UNKNOWN_REPLY)
      else None
    else None
  }

  /**
   * What the PING test accepts, stated without Split: "*1", CR LF, any line,
   * CR LF, "PING", and then either nothing or a CR LF and anything.
   */
  ghost predicate PingRequest(command: Bytes) {
    exists line, rest ::
      && !HasCrlf(line)
      && (rest == [] || CRLF <= rest)
      && command == STAR_ONE + CRLF + line + CRLF + PING + rest
  }

  lemma NoCrlfInConstants()
    ensures !HasCrlf(STAR_ONE) && !HasCrlf(PING)
  {
    assert forall k :: !CrlfAt(STAR_ONE, k);
    assert forall k :: !CrlfAt(PING, k);
  }

  /** processCommand answers "+PONG" exactly for the commands PingRequest describes. */
  lemma RespondPing(command: Bytes)
    ensures Respond(command) == Some(PONG_REPLY) <==> PingRequest(command)
  {
    if Respond(command) == Some(PONG_REPLY) {
      PongIsPing(command);
    }
    if PingRequest(command) {
      PingIsPong(command);
    }
  }

  lemma PongIsPing(command: Bytes)
    requires Respond(command) == Some(PONG_REPLY)
    ensures PingRequest(command)
  {
    var parts := Split(command);
    assert |parts| > 2 && parts[0] == STAR_ONE && parts[2] == PING;
    var line, tail := parts[1], parts[2..];
    JoinFront(parts);
    var rest: Bytes;
    if |tail| == 1 {
      rest := [];
      assert Join(tail) == PING + rest;
    } else {
      rest := CRLF + Join(tail[1..]);
      assert Join(tail) == PING + rest;
      assert CRLF <= rest;
    }
    assert command == STAR_ONE + CRLF + line + CRLF + PING + rest;
  }

  /** The first two pieces, then the others. */
  lemma JoinFront(parts: seq<Bytes>)
    requires |parts| > 2
    ensures Join(parts) == parts[0] + CRLF + parts[1] + CRLF + Join(parts[2..])
  {
    var t := parts[1..];
    assert t[0] == parts[1] && t[1..] == parts[2..];
    assert Join(t) == parts[1] + CRLF + Join(parts[2..]);
    assert Join(parts) == parts[0] + CRLF + Join(t);
    Regroup5(parts[0], CRLF, parts[1], CRLF, Join(parts[2..]));
  }

  lemma Regroup5(a: Bytes, b: Bytes, c: Bytes, d: Bytes, e: Bytes)
    ensures a + b + (c + d + e) == a + b + c + d + e
  {
  }

  lemma PingIsPong(command: Bytes)
    requires PingRequest(command)
    ensures Respond(command) == Some(PONG_REPLY)
  {
    NoCrlfInConstants();
    var line, rest :| && !HasCrlf(line) && (rest == [] || CRLF <= rest)
                      && command == STAR_ONE + CRLF + line + CRLF + PING + rest;
    SplitFront(STAR_ONE, line, PING, rest);
    PieceThenLine(PING, rest);
    assert CrlfAt(command, |STAR_ONE|);
  }

  /** Two pieces free of CR LF, each followed by CR LF, come first in the split. */
  lemma SplitFront(a: Bytes, b: Bytes, c: Bytes, d: Bytes)
    requires !HasCrlf(a) && !HasCrlf(b)
    ensures Split(a + CRLF + b + CRLF + c + d) == [a, b] + Split(c + d)
  {
    var x := b + CRLF + (c + d);
    Regroup(a, b, c, d);
    SplitCons(a, x);
    SplitCons(b, c + d);
    TwoInFront(a, b, Split(c + d));
  }

  lemma Regroup(a: Bytes, b: Bytes, c: Bytes, d: Bytes)
    ensures a + CRLF + b + CRLF + c + d == a + CRLF + (b + CRLF + (c + d))
  {
  }

  lemma TwoInFront<T>(a: T, b: T, t: seq<T>)
    ensures [a] + ([b] + t) == [a, b] + t
  {
  }

  /** A piece free of CR LF followed by nothing or by a CR LF is the first piece of the split. */
  lemma PieceThenLine(p: Bytes, rest: Bytes)
    requires !HasCrlf(p) && (rest == [] || CRLF <= rest)
    ensures Split(p + rest)[0] == p
  {
    if rest == [] {
      assert p + rest == p;
      assert Join(Split(p)) == p;
    } else {
      var after := rest[2..];
      assert p + rest == p + CRLF + after;
      SplitCons(p, after);
    }
  }

  /** Once a CR LF has arrived, every buffer that is not a PING gets the unknown command error. */
  lemma RespondUnknown(command: Bytes)
    requires HasCrlf(command) && !PingRequest(command)
    ensures Respond(command) == Some(UNKNOWN_REPLY)
  {
    RespondPing(command);
  }

  /** The command a client sends for PING is the encoder's output for a one-element array of the bulk string "PING". */
  lemma PingCommandEncoding()
    ensures Marshal(Value(ArrayTyp, [], 0, [], [Value(BulkTyp, [], 0, PING, [])])) == PING_COMMAND
  {
    var item := Value(BulkTyp, [], 0, PING, []);
    assert Decimal(1) == [49];
    assert Decimal(4) == [52];
    assert Marshal(item) == [36, 52, 13, 10] + PING + CRLF;
    assert MarshalAll([item]) == Marshal(item) + MarshalAll([]);
  }

  /** That command is answered "+PONG". */
  lemma PingCommandReply()
    ensures Respond(PING_COMMAND) == Some(PONG_REPLY)
  {
    var line: Bytes := [36, 52];
    assert !HasCrlf(line) by {
      assert forall k :: !CrlfAt(line, k);
    }
    assert PING_COMMAND == STAR_ONE + CRLF + line + CRLF + PING + CRLF;
    assert CRLF <= CRLF;
    RespondPing(PING_COMMAND);
  }

  // ---------------------------------------------------------------------------
  // handleConnection, as a function of what the connection delivers
  // ---------------------------------------------------------------------------

  /** One result of conn.Read: some bytes (none means the client closed) or an error. */
  datatype ReadResult = Chunk(data: Bytes) | ReadError

  /** The handler's state: the buffered bytes and everything written to the client so far. */
  datatype State = State(buffer: Bytes, written: Bytes)

  /** One read's bytes appended to the buffer, then processCommand. */
  function Step(st: State, data: Bytes): (r: State)
    ensures !HasCrlf(r.buffer)
    ensures || (r.buffer == st.buffer + data && r.written == st.written)
            || (r.buffer == [] && (r.written == st.written + PONG_REPLY || r.written == st.written + UNKNOWN_REPLY))
  {
    var command := st.buffer + data;
    match Respond(command)
    case None => State(command, st.written)
    case Some(reply) => State([], st.written + reply)
  }

  /** The handler's state after the reads, up to the first error or empty read. */
  function Serve(st: State, results: seq<ReadResult>): (r: State)
    ensures st.written <= r.written
    decreases |results|
  {
    if |results| == 0 then st
    else match results[0]
      case ReadError => st
      case Chunk(data) => if |data| == 0 then st else Serve(Step(st, data), results[1..])
  }

  /** The bytes the handler takes in: the chunks up to the first error or empty read. */
  function Received(results: seq<ReadResult>): Bytes
    decreases |results|
  {
    if |results| == 0 then []
    else match results[0]
      case ReadError => []
      case Chunk(data) => if |data| == 0 then [] else data + Received(results[1..])
  }

  /** Everything the handler writes is a run of whole replies, "+PONG\r\n" or the error. */
  predicate Replies(w: Bytes)
    decreases |w|
  {
    || w == []
    || (PONG_REPLY <= w && Replies(w[|PONG_REPLY|..]))
    || (UNKNOWN_REPLY <= w && Replies(w[|UNKNOWN_REPLY|..]))
  }

  lemma {:induction false} RepliesAppend(w: Bytes, reply: Bytes)
    requires Replies(w) && (reply == PONG_REPLY || reply == UNKNOWN_REPLY)
    ensures Replies(w + reply)
    decreases |w|
  {
    if w == [] {
      WholeReply(reply);
      assert [] + reply == reply;
    } else if PONG_REPLY <= w && Replies(w[|PONG_REPLY|..]) {
      RepliesAppend(w[|PONG_REPLY|..], reply);
      PrefixAppend(PONG_REPLY, w, reply);
    } else {
      RepliesAppend(w[|UNKNOWN_REPLY|..], reply);
      PrefixAppend(UNKNOWN_REPLY, w, reply);
    }
  }

  lemma WholeReply(reply: Bytes)
    requires reply == PONG_REPLY || reply == UNKNOWN_REPLY
    ensures Replies(reply)
  {
    assert reply[|reply|..] == [];
    assert Replies([]);
  }

  lemma PrefixAppend(p: Bytes, w: Bytes, x: Bytes)
    requires p <= w
    ensures p <= w + x && (w + x)[|p|..] == w[|p|..] + x
  {
    assert (w + x)[..|p|] == w[..|p|];
  }

  /** The handler only ever appends whole replies to what it has written. */
  lemma {:induction false} ServeWritesReplies(st: State, results: seq<ReadResult>)
    requires Replies(st.written)
    ensures st.written <= Serve(st, results).written && Replies(Serve(st, results).written)
    decreases |results|
  {
    if |results| > 0 && results[0].Chunk? && |results[0].data| > 0 {
      var next := Step(st, results[0].data);
      if next.written != st.written {
        RepliesAppend(st.written, next.written[|st.written|..]);
      }
      ServeWritesReplies(next, results[1..]);
    }
  }

  /**
   * After a non-empty read the buffer never holds a CR LF: whatever completes
   * a line is answered and dropped.
   */
  lemma {:induction false} ServeBufferHasNoCrlf(st: State, results: seq<ReadResult>)
    requires !HasCrlf(st.buffer)
    ensures !HasCrlf(Serve(st, results).buffer)
    decreases |results|
  {
    if |results| > 0 && results[0].Chunk? && |results[0].data| > 0 {
      ServeBufferHasNoCrlf(Step(st, results[0].data), results[1..]);
    }
  }

  /** How many reads the handler takes in: those before the first error or empty read. */
  function Taken(results: seq<ReadResult>): (n: nat)
    ensures n <= |results|
    decreases |results|
  {
    if |results| == 0 then 0
    else match results[0]
      case ReadError => 0
      case Chunk(data) => if |data| == 0 then 0 else 1 + Taken(results[1..])
  }

  /**
   * The last reset happens after the first m reads: with m == 0 there was
   * none and the buffer is the old buffer and everything received; otherwise
   * the buffer was emptied by a reply to read m - 1 and holds exactly the
   * chunks received after it. Either way nothing is written after the m-th read.
   */
  predicate SinceReset(st: State, results: seq<ReadResult>, m: nat)
    requires m <= |results|
  {
    && Serve(st, results[..m]).written == Serve(st, results).written
    && if m == 0 then Serve(st, results).buffer == st.buffer + Received(results)
       else Serve(st, results[..m]).buffer == [] && Serve(st, results).buffer == Received(results[m..])
  }

  /** The buffer holds the chunks received since the last reply, and nothing else. */
  lemma {:induction false} ServeSinceReset(st: State, results: seq<ReadResult>)
    ensures exists m: nat :: m <= Taken(results) && SinceReset(st, results, m)
    decreases |results|
  {
    if |results| > 0 && results[0].Chunk? && |results[0].data| > 0 {
      var data, rest := results[0].data, results[1..];
      var next := Step(st, data);
      ServeSinceReset(next, rest);
      var m': nat :| m' <= Taken(rest) && SinceReset(next, rest, m');
      ServeCons(st, results, m');
      if m' > 0 {
        assert SinceReset(st, results, m' + 1);
      } else if next.buffer == [] {
        assert rest[..0] == [];
        assert SinceReset(st, results, 1);
      } else {
        assert results[..0] == [];
        assert st.buffer + Received(results) == (st.buffer + data) + Received(rest);
        assert SinceReset(st, results, 0);
      }
    } else {
      assert results[..0] == [];
      assert st.buffer + Received(results) == st.buffer + [];
      assert SinceReset(st, results, 0);
    }
  }

  /** Serving a first chunk and then the next m reads is serving m + 1 reads. */
  lemma ServeCons(st: State, results: seq<ReadResult>, m: nat)
    requires |results| > 0 && results[0].Chunk? && |results[0].data| > 0 && m < |results|
    ensures Serve(st, results) == Serve(Step(st, results[0].data), results[1..])
    ensures Received(results) == results[0].data + Received(results[1..])
    ensures Serve(st, results[..m + 1]) == Serve(Step(st, results[0].data), results[1..][..m])
    ensures results[m + 1..] == results[1..][m..]
  {
    assert results[..m + 1][0] == results[0];
    assert results[..m + 1][1..] == results[1..][..m];
  }

  /** While nothing is written, the buffer holds every byte received. */
  lemma {:induction false} ServeKeepsAll(st: State, results: seq<ReadResult>)
    requires Serve(st, results).written == st.written
    ensures Serve(st, results).buffer == st.buffer + Received(results)
    decreases |results|
  {
    if |results| > 0 && results[0].Chunk? && |results[0].data| > 0 {
      var data := results[0].data;
      var next := Step(st, data);
      assert next.written == st.written;
      ServeKeepsAll(next, results[1..]);
      assert st.buffer + Received(results) == (st.buffer + data) + Received(results[1..]);
    } else {
      assert Received(results) == [];
    }
  }

  /**
   * The reply depends on how the bytes are cut into reads: PING_COMMAND in
   * one read is answered "+PONG", but cut after "*1\r\n$4" it is answered
   * with two errors, since a CR LF in the first read already counts as a
   * complete command.
   */
  lemma ReplyDependsOnChunking()
    ensures Serve(State([], []), [Chunk(PING_COMMAND)]).written == PONG_REPLY
    ensures Serve(State([], []), [Chunk(PING_COMMAND[..6]), Chunk(PING_COMMAND[6..])]).written
            == UNKNOWN_REPLY + UNKNOWN_REPLY
  {
    assert Serve(State([], []), [Chunk(PING_COMMAND)]).written == PONG_REPLY by { OneRead(); }
    TwoReads(PING_COMMAND[..6], PING_COMMAND[6..]);
  }

  lemma OneRead()
    ensures Serve(State([], []), [Chunk(PING_COMMAND)]).written == PONG_REPLY
  {
    PingCommandReply();
    ServeOne(State([], []), PING_COMMAND);
    StepReply(State([], []), PING_COMMAND, PONG_REPLY);
    EmptyAppend(PONG_REPLY);
  }

  lemma TwoReads(first: Bytes, second: Bytes)
    requires first == [42, 49, 13, 10, 36, 52] && second == [13, 10, 80, 73, 78, 71, 13, 10]
    ensures Serve(State([], []), [Chunk(first), Chunk(second)]).written == UNKNOWN_REPLY + UNKNOWN_REPLY
  {
    ServeTwo(State([], []), first, second);
    FirstHalfReply(first);
    StepReply(State([], []), first, UNKNOWN_REPLY);
    EmptyAppend(UNKNOWN_REPLY);
    SecondHalfReply(second);
    StepReply(State([], UNKNOWN_REPLY), second, UNKNOWN_REPLY);
  }

  lemma EmptyAppend(x: Bytes)
    ensures [] + x == x
  {
  }

  lemma ServeOne(st: State, a: Bytes)
    requires |a| > 0
    ensures Serve(st, [Chunk(a)]) == Step(st, a)
  {
    assert [Chunk(a)][1..] == [];
  }

  lemma ServeTwo(st: State, a: Bytes, b: Bytes)
    requires |a| > 0 && |b| > 0
    ensures Serve(st, [Chunk(a), Chunk(b)]) == Step(Step(st, a), b)
  {
    assert [Chunk(a), Chunk(b)][1..] == [Chunk(b)];
    ServeOne(Step(st, a), b);
  }

  /** From an empty buffer, a read whose bytes get a reply leaves the buffer empty and the reply written. */
  lemma StepReply(st: State, data: Bytes, reply: Bytes)
    requires st.buffer == [] && Respond(data) == Some(reply)
    ensures Step(st, data) == State([], st.written + reply)
  {
    assert st.buffer + data == data;
  }

  /** "*1\r\n$4" holds a CR LF but only two pieces: the unknown command error. */
  lemma FirstHalfReply(first: Bytes)
    requires first == [42, 49, 13, 10, 36, 52]
    ensures Respond(first) == Some(UNKNOWN_REPLY)
  {
    var line: Bytes := [36, 52];
    assert !HasCrlf(line) by {
      assert forall k :: !CrlfAt(line, k);
    }
    NoCrlfInConstants();
    assert first == STAR_ONE + CRLF + line;
    SplitCons(STAR_ONE, line);
    assert Split(line) == [line];
    assert CrlfAt(first, 2);
  }

  /** "\r\nPING\r\n" starts with an empty piece: the unknown command error. */
  lemma SecondHalfReply(second: Bytes)
    requires second == [13, 10, 80, 73, 78, 71, 13, 10]
    ensures Respond(second) == Some(UNKNOWN_REPLY)
  {
    var empty: Bytes := [];
    assert !HasCrlf(empty);
    assert second == empty + CRLF + second[2..];
    SplitCons(empty, second[2..]);
    assert CrlfAt(second, 0);
  }

  // ---------------------------------------------------------------------------
  // handleConnection and processCommand, as the Go code runs them
  // ---------------------------------------------------------------------------

  /** One client connection: the accumulated bytes and what has been sent back. */
  class Session {
    var buffer: Bytes
    var written: Bytes

    constructor ()
      ensures buffer == [] && written == []
    {
      buffer := [];
      written := [];
    }

    /** processCommand: answer and clear the buffer once it holds a CR LF. */
    method ProcessCommand()
      modifies this
      ensures match Respond(old(buffer))
              case None => buffer == old(buffer) && written == old(written)
              case Some(reply) => buffer == [] && written == old(written) + reply
      ensures !HasCrlf(buffer)
    {
      var command := buffer;
      if FirstCrlf(command).Some? {
        var parts := Split(command);
        if |parts| > 0 {
          if parts[0] == STAR_ONE && |parts| > 2 && parts[2] == PING {
            written := written + PONG_REPLY;
            buffer := [];
          } else {
            written := written + UNKNOWN_REPLY;
            buffer := [];
          }
        }
      }
    }

    /**
     * handleConnection over the results conn.Read returns: stop at an error
     * or an empty read, otherwise append the bytes and process the buffer.
     */
    method HandleConnection(results: seq<ReadResult>)
      modifies this
      ensures State(buffer, written) == Serve(State(old(buffer), old(written)), results)
    {
      var i := 0;
      while i < |results|
        invariant 0 <= i <= |results|
        invariant Serve(State(old(buffer), old(written)), results) == Serve(State(buffer, written), results[i..])
      {
        assert results[i..][1..] == results[i + 1..];
        var result := results[i];
        if result.ReadError? {
          return;
        }
        if |result.data| == 0 {
          return;
        }
        buffer := buffer + result.data;
        ProcessCommand();
        i := i + 1;
      }
    }
  }
}
