/** HttpParser over a buffer, and the receive loop that keeps the bytes the parser could not use yet. */
module HttpReceiving {
  import opened Bytes
  import opened Wrappers
  import opened HttpParsing

  const CRLF: seq<Byte> := [CR, LF]

  // How a document answers a write: it takes some of the bytes, or is not ready, or fails.
  datatype DocWrite = Wrote(n: nat) | NotReady | Broken

  // Its answer number i of those given in advance, and afterwards all bytes: one at least, and no
  // more than it is offered.
  function DocAnswer(document: seq<DocWrite>, i: nat, available: nat): (w: DocWrite)
    requires available > 0
    ensures w.Wrote? ==> 1 <= w.n <= available
    ensures !w.Wrote? ==> w in document
  {
    if i >= |document| then Wrote(available)
    else match document[i]
      case Wrote(n) => Wrote(if n == 0 then 1 else if n > available then available else n)
      case w => w
  }

  method FindNewline(buffer: array<Byte>, start: nat, len: nat) returns (pos: nat)
    requires start <= len <= buffer.Length
    ensures start <= pos <= len && (pos < len ==> buffer[pos] == LF)
    ensures forall i :: start <= i < pos ==> buffer[i] != LF
  {
    pos := start;
    while pos < len && buffer[pos] != LF
      invariant start <= pos <= len && forall i :: start <= i < pos ==> buffer[i] != LF
    {
      pos := pos + 1;
    }
  }

  class HttpParser {
    const cb: Callbacks
    var state: State
    var chunked: bool
    var dataSize: Size
    // What the callbacks were told, and what the document was given.
    var events: seq<Event>
    var doc: seq<Byte>

    ghost function View(): Parser
      reads this
    {
      Parser(state, chunked, dataSize, events, doc)
    }

    constructor (cb: Callbacks)
      ensures View() == RESET && this.cb == cb
    {
      this.cb := cb;
      state, chunked, dataSize, events, doc := Leader, false, SIZE_UNKNOWN, [], [];
    }

    method ProcessHeaderLine(line: seq<Byte>) returns (result: Result, error: Error)
      requires state == Headers && line != []
      modifies this
      ensures (View(), result, error) == LineStep(cb, old(View()), line)
    {
      var colon := 0;
      while colon < |line| && line[colon] != 0 && line[colon] != 58
        invariant 0 <= colon <= |line| && FindColon(line, 0) == FindColon(line, colon)
        invariant View() == old(View())
      {
        colon := colon + 1;
      }
      if colon == |line| || line[colon] == 0 { return Complete, HeProtocol; }
      var value := colon + 1;
      while value < |line| && IsSpace(line[value])
        invariant colon < value <= |line| && SkipSpaces(line, colon + 1) == SkipSpaces(line, value)
        invariant View() == old(View())
      {
        value := value + 1;
      }
      var nameText, valueText := line[..colon], line[value..];
      if SameText(nameText, "Content-Length") {
        var n := cb.scanLength(valueText);
        if n.None? { return Complete, HeProtocol; }
        dataSize := n.value;
      } else if SameText(nameText, "Transfer-Encoding") {
        if SameText(valueText, "chunked") {
          chunked := true;
        } else if SameText(valueText, "identity") {
          chunked := false;
        } else {
          return Complete, HeProtocol;
        }
      }
      events := events + [Header(nameText, valueText)];
      return Continue, HeNone;
    }

    // After the headers the loop is left if the notification took the document stream over; else
    // as the machine does.
    method ProcessLine(line: seq<Byte>, takesOver: bool) returns (result: Result, error: Error)
      requires state != Data
      modifies this
      ensures result == Block <==> old(state) == Headers && line == [] && error == HeNone && takesOver
      ensures (View(), if result == Block then Continue else result, error) == LineStep(cb, old(View()), line)
      ensures result == Block ==> state == if chunked then ChunkSize else Data
    {
      match state {
        case Leader =>
          state := Headers;
          events := events + [LeaderLine(line)];
          error := cb.leader(line);
          return if error == HeNone then Continue else Complete, error;
        case Headers =>
          if line != [] {
            result, error := ProcessHeaderLine(line);
            return;
          }
          state := if chunked then ChunkSize else Data;
          events := events + [HeadersDone(chunked, dataSize)];
          var (err, n) := cb.headersDone(chunked, dataSize);
          dataSize := n;
          if err != HeNone { return Complete, err; }
          return if takesOver then Block else Continue, err;
        case ChunkSize =>
          if line == [] { return Complete, HeProtocol; }
          var (v, e) := StrToUl16(line);
          dataSize := v;
          if e != |line| { return Complete, HeProtocol; }
          state := if dataSize == 0 then Trailers else Data;
        case ChunkTerm =>
          if line != [] { return Complete, HeProtocol; }
          state := if chunked then ChunkSize else Data;
        case Trailers =>
          if line == [] { return Complete, HeNone; }
        case Data =>
      }
      return Continue, HeNone;
    }

    // One line of the buffer, up to the newline at pos.
    method TakeLine(buffer: array<Byte>, from: nat, pos: nat, takesOver: bool) returns (result: Result, error: Error)
      requires state != Data && from <= pos < buffer.Length && buffer[pos] == LF
      requires forall i :: from <= i < pos ==> buffer[i] != LF
      modifies this
      ensures Feed(cb, Settle(old(View())), buffer[from..pos + 1]) ==
              if result == Complete then Machine(View(), [], Some(error), []) else Settle(View())
      ensures result == Block ==> takesOver && HeldBy(View(), []) && error == HeNone
    {
      hide Feed, Settle, LineStep, TrimRight;
      OneLine(cb, View(), buffer[from..pos]);
      assert buffer[from..pos + 1] == buffer[from..pos] + [LF];
      result, error := ProcessLine(TrimRight(buffer[from..pos]), takesOver);
    }

    // Body bytes of the buffer, as many as the document takes.
    method TakeBody(buffer: array<Byte>, from: nat, available: nat, document: seq<DocWrite>, asked: nat)
      returns (w: DocWrite)
      requires state == Data && dataSize != 0 && 0 < available && from + available <= buffer.Length
      requires dataSize == SIZE_UNKNOWN || available <= dataSize
      modifies this
      ensures w == DocAnswer(document, asked, available)
      ensures w.Wrote? ==> Feed(cb, Settle(old(View())), buffer[from..from + w.n]) == Settle(View())
      ensures !w.Wrote? ==> View() == old(View())
    {
      hide Feed, Settle, TakeBytes;
      w := DocAnswer(document, asked, available);
      if w.Wrote? {
        ghost var v, taken := View(), buffer[from..from + w.n];
        SettledBody(v);
        FeedBody(cb, Settle(v), taken);
        doc := doc + buffer[from..from + w.n];
        if dataSize != SIZE_UNKNOWN {
          dataSize := dataSize - w.n;
        }
        TakenIs(v, View(), taken);
      }
    }

    // Uses up as much of the buffer as forms whole lines and body bytes, unless the document holds
    // it up or breaks. Wherever it stops, the parser is where the bytes it used take the
    // byte-at-a-time machine.
    method Process(buffer: array<Byte>, len: nat, document: seq<DocWrite>, takesOver: bool)
      returns (result: Result, processed: nat, error: Error, broken: bool, asked: nat)
      requires len <= buffer.Length
      modifies this
      ensures processed <= len
      ensures broken ==> result == Complete && error == HeStream && Broken in document
      ensures result == Block ==> takesOver || NotReady in document
      ensures result == Complete && !broken ==>
                Feed(cb, Settle(old(View())), buffer[..len]) == Machine(View(), [], Some(error), buffer[processed..len])
      ensures result != Complete || broken ==>
                Feed(cb, Settle(old(View())), buffer[..processed]) == Settle(View())
      ensures result == Continue ==> Waiting(View(), buffer[processed..len])
      ensures result == Block ==> HeldBy(View(), buffer[processed..len])
      ensures Waiting(old(View()), buffer[..len]) ==>
                result == Continue && !broken && processed == 0 && View() == old(View())
    {
      hide Feed, Settle;
      processed, error, broken, asked := 0, HeNone, false, 0;
      ghost var start, all := Settle(View()), buffer[..len];
      FeedNothing(cb, start);
      while true
        invariant processed <= len && !broken
        invariant Feed(cb, start, all[..processed]) == Settle(View())
        invariant Waiting(old(View()), all) ==> processed == 0 && View() == old(View())
        decreases len - processed, if state == Data && dataSize == 0 then 1 else 0
      {
        ghost var v := View();
        Slices(buffer[..], len, processed, len);
        if state != Data {
          var pos := FindNewline(buffer, processed, len);
          if pos >= len {
            break;
          }
          FedOn(cb, start, all, processed, pos + 1);
          Slices(buffer[..], len, processed, pos + 1);
          result, error := TakeLine(buffer, processed, pos, takesOver);
          processed := pos + 1;
          if result == Complete {
            FinishedWith(cb, start, all, processed);
          }
          if result != Continue {
            return;
          }
        } else if dataSize == 0 {
          BodyEnded(v);
          if chunked {
            state := ChunkTerm;
          } else {
            FinishedWith(cb, start, all, processed);
            return Complete, processed, HeNone, false, asked;
          }
        } else {
          var available := len - processed;
          if available == 0 {
            break;
          }
          if dataSize != SIZE_UNKNOWN && available > dataSize {
            available := dataSize;
          }
          var w := TakeBody(buffer, processed, available, document, asked);
          asked := asked + 1;
          if w.NotReady? {
            return Block, processed, HeNone, false, asked;
          }
          if w.Broken? {
            return Complete, processed, HeStream, true, asked;
          }
          FedOn(cb, start, all, processed, processed + w.n);
          Slices(buffer[..], len, processed, processed + w.n);
          processed := processed + w.n;
        }
      }
      return Continue, processed, HeNone, false, asked;
    }
  }

  // What the parser leaves when it wants more: nothing in a body, else a line without its end.
  ghost predicate Waiting(p: Parser, left: seq<Byte>) {
    && (p.state == Data ==> p.size != 0 && left == [])
    && forall i :: 0 <= i < |left| ==> left[i] != LF
  }

  // Then the machine, too, is where the parser is.
  lemma WaitingIs(cb: Callbacks, p: Parser, left: seq<Byte>)
    requires Waiting(p, left)
    ensures Feed(cb, Settle(p), left) == Machine(p, left, None, [])
  {
    assert [] + left == left;
    if p.state != Data { FeedLine(cb, Settle(p), left); }
  }

  // What it leaves when it is held up: body bytes the document would not take, or anything at all
  // behind headers after which the document stream was taken over.
  ghost predicate HeldBy(p: Parser, left: seq<Byte>) {
    || (p.state == Data && p.size != 0 && left != [])
    || (p.state == Data && !p.chunked)
    || (p.state == ChunkSize && p.chunked)
  }

  lemma FeedNothing(cb: Callbacks, m: Machine)
    ensures Feed(cb, m, []) == m
  {}

  lemma StartSettled(cb: Callbacks)
    ensures Settle(RESET) == START && Waiting(RESET, []) && NeverFull(cb, [])
  {}

  lemma BodyEnded(p: Parser)
    requires p.state == Data && p.size == 0
    ensures Settle(p) == if p.chunked then Settle(p.(state := ChunkTerm)) else Machine(p, [], Some(HeNone), [])
  {}

  lemma SettledBody(p: Parser)
    requires p.state == Data && p.size != 0
    ensures Settle(p) == Machine(p, [], None, [])
  {}

  lemma Slices(b: seq<Byte>, len: nat, i: nat, j: nat)
    requires i <= j <= len <= |b|
    ensures b[..len][i..j] == b[i..j] && b[..len][..i] == b[..i] && b[..len][..j] == b[..j]
    ensures b[..len][j..] == b[j..len] && b[..len][i..] == b[i..len]
  {}

  lemma FedOn(cb: Callbacks, m: Machine, s: seq<Byte>, i: nat, j: nat)
    requires i <= j <= |s|
    ensures Feed(cb, m, s[..j]) == Feed(cb, Feed(cb, m, s[..i]), s[i..j])
  {
    assert s[..j] == s[..i] + s[i..j];
    FeedJoin(cb, m, s[..i], s[i..j]);
  }

  // The bytes after the message are left over.
  lemma FinishedWith(cb: Callbacks, m: Machine, s: seq<Byte>, i: nat)
    requires i <= |s| && Feed(cb, m, s[..i]).done.Some? && Feed(cb, m, s[..i]).rest == []
    ensures Feed(cb, m, s) == Feed(cb, m, s[..i]).(rest := s[i..])
  {
    FedOn(cb, m, s, i, |s|);
    assert s[..|s|] == s && s[i..|s|] == s[i..];
    FeedRest(cb, Feed(cb, m, s[..i]), s[i..]);
    assert [] + s[i..] == s[i..];
  }

  lemma OneLine(cb: Callbacks, p: Parser, text: seq<Byte>)
    requires p.state != Data && forall i :: 0 <= i < |text| ==> text[i] != LF
    ensures var (q, r, err) := LineStep(cb, p, TrimRight(text));
            Feed(cb, Settle(p), text + [LF]) == if r == Complete then Machine(q, [], Some(err), []) else Settle(q)
  {
    hide LineStep, TrimRight, Feed, Settle;
    assert text + [LF] + [] == text + [LF];
    LineAtFront(cb, p, text, [], text + [LF]);
    FeedNothing(cb, Settle(LineStep(cb, p, TrimRight(text)).0));
  }

  lemma TakenIs(p: Parser, q: Parser, s: seq<Byte>)
    requires p.state == Data && (p.size == SIZE_UNKNOWN || |s| <= p.size)
    requires q == p.(doc := p.doc + s, size := if p.size == SIZE_UNKNOWN then p.size else p.size - |s|)
    ensures q == TakeBytes(p, s)
  {}

  lemma LineAtFront(cb: Callbacks, p: Parser, line: seq<Byte>, after: seq<Byte>, rest: seq<Byte>)
    requires p.state != Data && rest == line + [LF] + after
    requires forall i :: 0 <= i < |line| ==> line[i] != LF
    ensures var (q, r, err) := LineStep(cb, p, TrimRight(line));
            Feed(cb, Settle(p), rest) == if r == Complete then Machine(q, [], Some(err), after)
                                         else Feed(cb, Settle(q), after)
  {
    hide LineStep, TrimRight;
    var (q, r, err) := LineStep(cb, p, TrimRight(line));
    FeedJoin(cb, Settle(p), line, [LF] + after);
    assert line + ([LF] + after) == rest;
    FeedLine(cb, Settle(p), line);
    FeedFirst(cb, Machine(p, line, None, []), [LF] + after);
    assert ([LF] + after)[1..] == after;
    assert [] + line == line;
    if r == Complete {
      FeedRest(cb, Machine(q, [], Some(err), []), after);
    }
  }

  lemma BodyAtFront(cb: Callbacks, p: Parser, s: seq<Byte>, after: seq<Byte>, rest: seq<Byte>)
    requires p.state == Data && p.size != 0 && s != [] && rest == s + after
    requires p.size == SIZE_UNKNOWN || |s| <= p.size
    ensures Feed(cb, Settle(p), rest) == Feed(cb, Settle(TakeBytes(p, s)), after)
  {
    FeedJoin(cb, Settle(p), s, after);
    FeedBody(cb, Settle(p), s);
  }

  lemma BlankLine(cb: Callbacks, p: Parser, after: seq<Byte>)
    requires p.state != Data
    ensures var (q, r, err) := LineStep(cb, p, []);
            Feed(cb, Settle(p), CRLF + after) == if r == Complete then Machine(q, [], Some(err), after)
                                                 else Feed(cb, Settle(q), after)
  {
    hide LineStep;
    assert TrimRight([CR]) == [] by { assert [CR][..0] == []; }
    LineAtFront(cb, p, [CR], after, CRLF + after);
  }

  lemma HeaderLine(cb: Callbacks, p: Parser, line: seq<Byte>, after: seq<Byte>)
    requires p.state != Data && forall k :: 0 <= k < |line| ==> line[k] != LF
    ensures var (q, r, err) := LineStep(cb, p, TrimRight(line + [CR]));
      Feed(cb, Settle(p), line + CRLF + after) ==
        if r == Complete then Machine(q, [], Some(err), after) else Feed(cb, Settle(q), after)
  {
    hide LineStep, TrimRight, Feed, Settle;
    assert line + CRLF + after == (line + [CR]) + [LF] + after;
    LineAtFront(cb, p, line + [CR], after, line + CRLF + after);
  }

  lemma LeaderStep(cb: Callbacks, line: seq<Byte>)
    requires cb.leader(line) == HeNone
    ensures LineStep(cb, RESET, line) == (RESET.(state := Headers, events := [LeaderLine(line)]), Continue, HeNone)
  {
    assert RESET.events + [LeaderLine(line)] == [LeaderLine(line)];
  }

  // ----- the receive loop

  const BUFFER_SIZE := 32 * 1024
  const MAX_READ_COUNT := 20

  datatype Read = Got(data: seq<Byte>) | Blocked | Eos | Failed(code: nat)

  // The network's answer number i of those given in advance, at most the room there is; afterwards
  // it blocks.
  function NetAnswer(net: seq<Read>, i: nat, room: nat): (r: Read)
    ensures r.Got? ==> |r.data| <= room
  {
    if i >= |net| then Blocked
    else match net[i]
      case Got(d) => Got(if |d| > room then d[..room] else d)
      case r => r
  }

  // The last answer, the rooms being those of the reads so far.
  function LastAnswer(net: seq<Read>, rooms: seq<nat>): Read
    requires rooms != []
  {
    NetAnswer(net, |rooms| - 1, rooms[|rooms| - 1])
  }

  // All bytes these reads brought.
  function Brought(net: seq<Read>, rooms: seq<nat>): seq<Byte> {
    if rooms == [] then []
    else
      var r := LastAnswer(net, rooms);
      Brought(net, rooms[..|rooms| - 1]) + if r.Got? then r.data else []
  }

  lemma BroughtNone(net: seq<Read>)
    ensures Brought(net, []) == []
  {}

  lemma BroughtNext(net: seq<Read>, rooms: seq<nat>, room: nat)
    ensures var r := NetAnswer(net, |rooms|, room);
      LastAnswer(net, rooms + [room]) == r
      && Brought(net, rooms + [room]) == Brought(net, rooms) + if r.Got? then r.data else []
  {
    hide NetAnswer;
    assert (rooms + [room])[..|rooms|] == rooms;
  }

  datatype Outcome =
    | MoreLater               // the loop gave up for now
    | HeldUp                  // the document is not ready, or its stream was taken over
    | Parsed(error: Error)    // the parser reached its verdict
    | Broke                   // the document failed
    | Closed(error: Error)    // the stream ended
    | Lost(code: nat)         // the network failed
    | Overflow                // a line longer than the buffer

  // HandleStreamClose after a clean end: a body without a length may end so, nothing else may.
  function CloseError(p: Parser): Error {
    if p.state == Data && p.size == SIZE_UNKNOWN then HeNone else HeDisconnected
  }

  /** Only a body that has no length may end with the stream. */
  lemma CloseIs(p: Parser)
    ensures p.state in {Leader, Headers, ChunkSize, ChunkTerm, Trailers} ==> CloseError(p) == HeDisconnected
    ensures p.state == Data ==> CloseError(p) == if p.size == 0xFFFF_FFFF_FFFF_FFFF then HeNone else HeDisconnected
  {}

  lemma Limits()
    ensures BUFFER_SIZE == 32768 && MAX_READ_COUNT == 20
  {}

  // Before the last byte no line filled the buffer.
  ghost predicate NeverFull(cb: Callbacks, x: seq<Byte>) {
    forall n :: 0 <= n < |x| ==> |Feed(cb, START, x[..n]).line| < BUFFER_SIZE
  }

  class HttpBase {
    const parser: HttpParser
    const buffer: array<Byte>
    var len: nat
    // Everything ever read from the network.
    ghost var fed: seq<Byte>

    ghost predicate Shape()
      reads this
    {
      buffer.Length == BUFFER_SIZE && len <= BUFFER_SIZE
    }

    // The kept bytes are the last ones read, and the parser is where the others take the machine.
    ghost predicate Valid()
      reads this, parser, buffer
    {
      && Shape() && len <= |fed| && buffer[..len] == fed[|fed| - len..]
      && Feed(parser.cb, START, fed[..|fed| - len]) == Settle(parser.View())
      && NeverFull(parser.cb, fed)
    }

    // All that can be used is used up.
    ghost predicate Settled()
      reads this, parser, buffer
    {
      Valid() && Waiting(parser.View(), buffer[..len])
    }

    ghost predicate Held()
      reads this, parser, buffer
    {
      Valid() && HeldBy(parser.View(), buffer[..len])
    }

    // The parser has its verdict, and these bytes are left over.
    ghost predicate Done(error: Error)
      reads this, parser, buffer
    {
      && Shape() && NeverFull(parser.cb, fed)
      && Feed(parser.cb, START, fed) == Machine(parser.View(), [], Some(error), buffer[..len])
    }

    // A final result on the stream x: the verdict, a line that does not fit, or a clean end of the
    // stream with everything used that could be.
    ghost predicate Ended(x: seq<Byte>, error: Error)
      reads this, parser, buffer
    {
      && fed <= x
      && (|| Done(error)
          || (error == HeOverflow && Settled() && len == BUFFER_SIZE)
          || (fed == x && Settled() && len < BUFFER_SIZE && error == CloseError(parser.View())))
    }

    constructor (cb: Callbacks)
      ensures Settled() && fed == [] && parser.cb == cb && fresh(parser) && fresh(buffer)
    {
      hide Feed, Settle, Waiting, NeverFull;
      parser := new HttpParser(cb);
      buffer := new Byte[BUFFER_SIZE](i => 0);
      len, fed := 0, [];
      new;
      FeedNothing(cb, START);
      StartSettled(cb);
      assert buffer[..0] == [] && fed[..0] == [];
    }

    // memmove: the unprocessed bytes come to the front.
    method Keep(processed: nat)
      requires Shape() && processed <= len
      modifies `len, buffer
      ensures Shape() && buffer[..len] == old(buffer[processed..len])
    {
      len := len - processed;
      for i := 0 to len
        invariant len == old(len) - processed
        invariant forall j :: 0 <= j < i ==> buffer[j] == old(buffer[processed + j])
        invariant forall j :: i <= j < buffer.Length ==> buffer[j] == old(buffer[j])
      {
        buffer[i] := buffer[processed + i];
      }
    }

    method Append(data: seq<Byte>)
      requires Shape() && |data| <= BUFFER_SIZE - len
      modifies `len, buffer
      ensures Shape() && buffer[..len] == old(buffer[..len]) + data
    {
      for i := 0 to |data|
        invariant len == old(len) && buffer[..len] == old(buffer[..len])
        invariant forall j :: 0 <= j < i ==> buffer[len + j] == data[j]
      {
        buffer[len + i] := data[i];
      }
      len := len + |data|;
    }

    // Process and keep: the step that every turn of the loop ends with.
    method Digest(document: seq<DocWrite>, takesOver: bool)
      returns (result: Result, error: Error, broken: bool, asked: nat)
      requires Valid()
      modifies `len, buffer, parser
      ensures result == Complete && !broken ==> Done(error)
      ensures result != Complete || broken ==> Valid()
      ensures result == Continue ==> Settled()
      ensures result == Block ==> Held() && (takesOver || NotReady in document)
      ensures broken ==> Broken in document
      ensures old(Settled()) ==> result == Continue && len == old(len) && !broken
    {
      hide Feed, Settle, Waiting, HeldBy, NeverFull;
      ghost var cb, kept, before := parser.cb, buffer[..len], fed[..|fed| - len];
      assert fed == before + kept;
      FeedJoin(cb, START, before, kept);
      var processed;
      result, processed, error, broken, asked := parser.Process(buffer, len, document, takesOver);
      FeedJoin(cb, START, before, kept[..processed]);
      assert buffer[..processed] == kept[..processed];
      assert fed[..|fed| - (len - processed)] == before + kept[..processed];
      Keep(processed);
      assert buffer[..len] == kept[processed..] == fed[|fed| - len..];
    }

    // Bytes from the network go behind the kept ones.
    method Take(d: seq<Byte>)
      requires Valid() && |d| <= BUFFER_SIZE - len
      modifies `len, `fed, buffer
      ensures Valid() && fed == old(fed) + d && len == old(len) + |d|
      ensures old(buffer[..len]) <= buffer[..len]
    {
      hide Feed, Settle, NeverFull;
      StillNotFull(parser.cb, parser.View(), fed, len, d);
      assert (fed + d)[..|fed| - len] == fed[..|fed| - len];
      Append(d);
      fed := fed + d;
    }

    // A read into the room that is left.
    method Receive(net: seq<Read>, count: nat) returns (r: Read)
      requires Valid() && len < BUFFER_SIZE
      modifies `len, `fed, buffer
      ensures Valid() && r == NetAnswer(net, count, BUFFER_SIZE - old(len))
      ensures fed == old(fed) + if r.Got? then r.data else []
      ensures !r.Got? ==> len == old(len) && (old(Settled()) ==> Settled()) && (old(Held()) ==> Held())
    {
      hide Feed, Settle, Waiting, HeldBy, NeverFull, NetAnswer;
      r := NetAnswer(net, count, BUFFER_SIZE - len);
      if r.Got? {
        Take(r.data);
      } else {
        assert fed + [] == fed;
      }
    }

    lemma EndedNow(e: Error)
      ensures Done(e) ==> Ended(fed, e)
      ensures Settled() && len == BUFFER_SIZE ==> Ended(fed, HeOverflow)
      ensures Settled() && len < BUFFER_SIZE && e == CloseError(parser.View()) ==> Ended(fed, e)
    {
      hide Feed, Settle, Waiting, NeverFull;
    }

    // The close asks for no more of the parser than its state and the size left.
    lemma CloseAsked()
      ensures CloseError(Parser(parser.state, parser.chunked, parser.dataSize, [], [])) == CloseError(parser.View())
    {}

    lemma StillValid()
      ensures Settled() || Held() ==> Valid()
      ensures Valid() ==> len <= BUFFER_SIZE
    {
      hide Feed, Settle, Waiting, HeldBy, NeverFull;
    }

    // The answers of the network and of the document are given in advance; `takesOver` tells that the
    // notification after the headers takes the document stream over. A room per read is returned.
    method DoReceiveLoop(net: seq<Read>, document: seq<DocWrite>, takesOver: bool)
      returns (out: Outcome, ghost rooms: seq<nat>)
      requires Settled() || Held()
      modifies this, buffer, parser
      ensures fed == old(fed) + Brought(net, rooms)
      ensures out == MoreLater ==>
                Settled() && (|rooms| >= 20 || (rooms != [] && LastAnswer(net, rooms) == Blocked))
      ensures out == HeldUp ==> Held() && (takesOver || NotReady in document)
      ensures out == Broke ==> Valid() && Broken in document
      ensures out.Closed? ==> rooms != [] && LastAnswer(net, rooms) == Eos
      ensures out.Lost? ==> rooms != [] && LastAnswer(net, rooms) == Failed(out.code)
      ensures out.Parsed? ==> Done(out.error)
      ensures out.Closed? || out.Lost? ==> Settled() || Held()
      ensures (out.Closed? || out.Lost?) && old(Settled()) ==> Settled()
      ensures out.Closed? ==> len < BUFFER_SIZE && out.error == CloseError(parser.View())
      ensures out == Overflow ==> Settled() && len == 32768 && |Feed(parser.cb, START, fed).line| == 32768
      ensures old(Settled() && len == BUFFER_SIZE) ==> out == Overflow && fed == old(fed)
      ensures out.Parsed? || (out.Closed? && Settled()) ==> Ended(fed, out.error)
      ensures out == Overflow ==> Ended(fed, HeOverflow)
    {
      hide *;
      var loopCount, requiresMore, count, asked := 0, false, 0, 0;
      rooms := [];
      BroughtNone(net);
      Limits();
      StillValid();
      assert old(fed) + [] == old(fed);
      while true
        invariant Valid() && loopCount <= MAX_READ_COUNT && count == |rooms|
        invariant fed == old(fed) + Brought(net, rooms)
        invariant 0 <= asked <= |document| && loopCount <= count + 1
        invariant requiresMore ==> Settled()
        invariant !requiresMore ==> (Settled() || Held()) && (old(Settled()) ==> Settled()) && loopCount == 0
        invariant old(Settled() && len == BUFFER_SIZE) ==>
                    Settled() && len == BUFFER_SIZE && rooms == [] && loopCount <= 1
        decreases MAX_READ_COUNT - loopCount
      {
        StillValid();
        if len < BUFFER_SIZE {
          BroughtNext(net, rooms, BUFFER_SIZE - len);
          rooms := rooms + [BUFFER_SIZE - len];
          var r := Receive(net, count);
          count := count + 1;
          if r.Blocked? {
            if requiresMore { return MoreLater, rooms; }
          } else if r.Eos? {
            var error := CloseError(Parser(parser.state, parser.chunked, parser.dataSize, [], []));
            CloseAsked();
            EndedNow(error);
            return Closed(error), rooms;
          } else if r.Failed? {
            return Lost(r.code), rooms;
          }
        } else if requiresMore {
          FullNow();
          EndedNow(HeOverflow);
          return Overflow, rooms;
        }
        var result, error, broken, used := Digest(document[asked..], takesOver);
        asked := if asked + used <= |document| then asked + used else |document|;
        if broken { return Broke, rooms; }
        if result == Complete {
          EndedNow(error);
          return Parsed(error), rooms;
        }
        if result == Block { return HeldUp, rooms; }
        requiresMore := true;
        loopCount := loopCount + 1;
        if loopCount > MAX_READ_COUNT { return MoreLater, rooms; }
      }
    }

    // A full buffer that waits is one line.
    lemma FullNow()
      requires Settled() && len == BUFFER_SIZE
      ensures |Feed(parser.cb, START, fed).line| == BUFFER_SIZE
    {
      hide Feed, Settle, NeverFull;
      WaitingIs(parser.cb, parser.View(), buffer[..len]);
      KeptIsFed(this);
      FullLine(parser.View(), buffer[..len]);
    }
  }

  lemma FullLine(p: Parser, left: seq<Byte>)
    requires Waiting(p, left) && left != []
    ensures p.state != Data
  {}

  // The whole of the bytes read take the machine where the kept bytes take it from the parser.
  lemma KeptIsFed(r: HttpBase)
    requires r.Valid()
    ensures Feed(r.parser.cb, START, r.fed) == Feed(r.parser.cb, Settle(r.parser.View()), r.buffer[..r.len])
  {
    hide Feed, Settle, NeverFull;
    var n := |r.fed| - r.len;
    FeedJoin(r.parser.cb, START, r.fed[..n], r.fed[n..]);
    assert r.fed == r.fed[..n] + r.fed[n..];
  }

  lemma {:induction false} LineLength(cb: Callbacks, m: Machine, s: seq<Byte>)
    ensures |Feed(cb, m, s).line| <= |m.line| + |s|
    decreases |s|
  {
    hide LineStep, TrimRight;
    if s != [] {
      LineLength(cb, m, s[..|s| - 1]);
    }
  }

  lemma StillNotFull(cb: Callbacks, p: Parser, x: seq<Byte>, len: nat, d: seq<Byte>)
    requires NeverFull(cb, x) && len <= |x| && len + |d| <= BUFFER_SIZE
    requires Feed(cb, START, x[..|x| - len]) == Settle(p)
    ensures NeverFull(cb, x + d)
  {
    hide Feed;
    var c, y := |x| - len, x + d;
    forall n | 0 <= n < |y| ensures |Feed(cb, START, y[..n]).line| < BUFFER_SIZE {
      if n < |x| {
        assert y[..n] == x[..n];
      } else {
        assert y[..n] == x[..c] + y[c..n];
        FeedJoin(cb, START, x[..c], y[c..n]);
        LineLength(cb, Settle(p), y[c..n]);
      }
    }
  }

  // ----- how the bytes were cut up does not matter

  // Two receivers given the same bytes are on the same way, also while documents hold them up;
  // when both have used what they can, they agree on everything: events, document, framing
  // state, and the bytes of the line they are in the middle of.
  lemma SameBytesSameState(a: HttpBase, b: HttpBase)
    requires a.Valid() && b.Valid() && a.parser.cb == b.parser.cb && a.fed == b.fed
    ensures Feed(a.parser.cb, Settle(a.parser.View()), a.buffer[..a.len])
         == Feed(b.parser.cb, Settle(b.parser.View()), b.buffer[..b.len])
    ensures a.Settled() && b.Settled() ==>
              a.parser.View() == b.parser.View() && a.buffer[..a.len] == b.buffer[..b.len]
  {
    hide Feed, Settle;
    KeptIsFed(a);
    KeptIsFed(b);
    if a.Settled() && b.Settled() {
      WaitingIs(a.parser.cb, a.parser.View(), a.buffer[..a.len]);
      WaitingIs(b.parser.cb, b.parser.View(), b.buffer[..b.len]);
    }
  }

  // A verdict, once reached, stays what it is whatever follows.
  lemma VerdictFinal(cb: Callbacks, s: seq<Byte>, t: seq<Byte>)
    requires Feed(cb, START, s).done.Some?
    ensures Feed(cb, START, s + t) == Feed(cb, START, s).(rest := Feed(cb, START, s).rest + t)
  {
    FeedJoin(cb, START, s, t);
    FeedRest(cb, Feed(cb, START, s), t);
  }

  // Two receivers that have read different amounts of one stream and reached their verdicts have
  // reached the same one, in the same state, and both leave what comes after the message.
  lemma SameStreamSameResult(a: HttpBase, b: HttpBase, e: Error, f: Error, x: seq<Byte>)
    requires a.parser.cb == b.parser.cb && a.Done(e) && b.Done(f) && a.fed <= x && b.fed <= x
    ensures e == f && a.parser.View() == b.parser.View()
    ensures a.buffer[..a.len] + x[|a.fed|..] == b.buffer[..b.len] + x[|b.fed|..]
  {
    hide Feed;
    assert x == a.fed + x[|a.fed|..] && x == b.fed + x[|b.fed|..];
    VerdictFinal(a.parser.cb, a.fed, x[|a.fed|..]);
    VerdictFinal(b.parser.cb, b.fed, x[|b.fed|..]);
  }

  // A receiver that has used all it can and has no verdict has read less of the stream than any
  // that has one.
  lemma VerdictIsReached(a: HttpBase, b: HttpBase, e: Error, x: seq<Byte>)
    requires a.parser.cb == b.parser.cb && a.Done(e) && b.Settled() && a.fed <= x && b.fed <= x
    ensures |b.fed| < |a.fed|
  {
    hide Feed, Settle;
    KeptIsFed(b);
    WaitingIs(b.parser.cb, b.parser.View(), b.buffer[..b.len]);
    if |a.fed| <= |b.fed| {
      assert b.fed == a.fed + b.fed[|a.fed|..];
      VerdictFinal(a.parser.cb, a.fed, b.fed[|a.fed|..]);
    }
  }

  // ----- final results

  // Two final results on one stream are the same, however it was cut up: the error, the events,
  // the document and the framing state.
  lemma SameEnding(a: HttpBase, b: HttpBase, e: Error, f: Error, x: seq<Byte>)
    requires a.parser.cb == b.parser.cb && a.Ended(x, e) && b.Ended(x, f)
    ensures e == f && a.parser.View() == b.parser.View()
  {
    hide Feed, Settle, NeverFull;
    EndedIs(a, x, e);
    EndedIs(b, x, f);
    if a.Done(e) && b.Done(f) {
      SameStreamSameResult(a, b, e, f, x);
    } else if a.Done(e) {
      VerdictIsReached(a, b, e, x);
      NotFullBefore(a.parser.cb, a.fed, b.fed, x);
    } else if b.Done(f) {
      VerdictIsReached(b, a, f, x);
      NotFullBefore(b.parser.cb, b.fed, a.fed, x);
    } else {
      NotFullBefore(a.parser.cb, a.fed, b.fed, x);
      NotFullBefore(b.parser.cb, b.fed, a.fed, x);
      assert |a.fed| == |b.fed| && a.fed == b.fed;
      SameBytesSameState(a, b);
    }
  }

  // A receiver that waits is where the machine is; its line is what it keeps.
  lemma EndedIs(r: HttpBase, x: seq<Byte>, e: Error)
    requires r.Ended(x, e)
    ensures NeverFull(r.parser.cb, r.fed)
    ensures r.Settled() ==>
              Feed(r.parser.cb, START, r.fed) == Machine(r.parser.View(), r.buffer[..r.len], None, [])
  {
    hide Feed, Settle, NeverFull;
    if r.Settled() {
      KeptIsFed(r);
      WaitingIs(r.parser.cb, r.parser.View(), r.buffer[..r.len]);
    }
  }

  lemma NotFullBefore(cb: Callbacks, s: seq<Byte>, t: seq<Byte>, x: seq<Byte>)
    requires NeverFull(cb, s) && s <= x && t <= x
    ensures |t| < |s| ==> |Feed(cb, START, t).line| < BUFFER_SIZE
  {
    hide Feed;
    if |t| < |s| { assert s[..|t|] == t; }
  }

  // A line of the stream that reaches the size of the buffer stops every receiver: none reads past
  // that point or comes to a verdict there, and one that is not held up there is full, so that its
  // next call overflows.
  lemma LongLineStops(r: HttpBase, e: Error, x: seq<Byte>, n: nat)
    requires (r.Valid() || r.Done(e)) && r.fed <= x && n <= |x|
    requires |Feed(r.parser.cb, START, x[..n]).line| >= BUFFER_SIZE
    ensures |r.fed| <= n
    ensures |r.fed| == n ==> !r.Done(e) && (r.Settled() ==> r.len == BUFFER_SIZE)
  {
    hide Feed, Settle, NeverFull;
    NotFullBefore(r.parser.cb, r.fed, x[..n], x);
    if |r.fed| == n {
      assert x[..n] == r.fed;
      if r.Settled() {
        KeptIsFed(r);
        WaitingIs(r.parser.cb, r.parser.View(), r.buffer[..r.len]);
      }
    }
  }

  // ----- the end of the stream while the document holds the receiver up

  // What the machine comes to when the stream ends after s: its verdict, or the close.
  ghost function EndAfter(cb: Callbacks, m: Machine, s: seq<Byte>): (Error, seq<Byte>) {
    var t := Feed(cb, m, s);
    (if t.done.Some? then t.done.value else CloseError(t.p), t.p.doc)
  }

  function FirstNewline(s: seq<Byte>): (i: nat)
    ensures i <= |s| && (i < |s| ==> s[i] == LF)
    ensures forall k :: 0 <= k < i ==> s[k] != LF
    decreases |s|
  {
    if s == [] || s[0] == LF then 0 else 1 + FirstNewline(s[1..])
  }

  // No blank line ends these trailers.
  predicate OpenTrailers(s: seq<Byte>)
    decreases |s|
  {
    var i := FirstNewline(s);
    i < |s| ==> TrimRight(s[..i]) != [] && OpenTrailers(s[i + 1..])
  }

  // Kept bytes that an end of the stream may as well drop: no body byte, and behind the headers of
  // a chunked body at most a size and nothing after it, or the last size and trailers not ended.
  predicate Droppable(p: Parser, left: seq<Byte>) {
    if p.state == Data then p.size != 0 && left == [] else
    var i := FirstNewline(left);
    i < |left| ==>
      var line, rest := TrimRight(left[..i]), left[i + 1..];
      var (v, e) := StrToUl16(line);
      line != [] && e == |line| && if v == 0 then OpenTrailers(rest) else v != SIZE_UNKNOWN && rest == []
  }

  lemma {:induction false} DocGrows(cb: Callbacks, m: Machine, s: seq<Byte>)
    ensures m.p.doc <= Feed(cb, m, s).p.doc
    decreases |s|
  {
    if s != [] {
      DocGrows(cb, m, s[..|s| - 1]);
      ByteKeepsDoc(cb, Feed(cb, m, s[..|s| - 1]), s[|s| - 1]);
    }
  }

  lemma ByteKeepsDoc(cb: Callbacks, m: Machine, b: Byte)
    ensures m.p.doc <= ByteStep(cb, m, b).p.doc
  {
    hide StrToUl16, TrimRight, FindColon, SameText, SkipSpaces;
  }

  // A body that still wants bytes and gets some has a longer document.
  lemma BodyByteCounts(cb: Callbacks, p: Parser, left: seq<Byte>)
    requires p.state == Data && p.size != 0 && left != []
    ensures |Feed(cb, Settle(p), left).p.doc| > |p.doc|
  {
    hide Feed;
    BodyAtFront(cb, p, left[..1], left[1..], left);
    DocGrows(cb, Settle(TakeBytes(p, left[..1])), left[1..]);
  }

  lemma {:induction false} TrailersEnd(cb: Callbacks, p: Parser, left: seq<Byte>)
    requires p.state == Trailers
    ensures EndAfter(cb, Settle(p), left).0 == if OpenTrailers(left) then HeDisconnected else HeNone
    ensures EndAfter(cb, Settle(p), left).1 == p.doc
    decreases |left|
  {
    hide Feed, TrimRight;
    var i := FirstNewline(left);
    if i == |left| {
      WaitingIs(cb, p, left);
    } else {
      assert left == left[..i] + [LF] + left[i + 1..];
      LineAtFront(cb, p, left[..i], left[i + 1..], left);
      if TrimRight(left[..i]) != [] {
        TrailersEnd(cb, p, left[i + 1..]);
      }
    }
  }

  lemma SizesEnd(cb: Callbacks, p: Parser, left: seq<Byte>)
    requires p.state == ChunkSize
    ensures EndAfter(cb, Settle(p), left) == (HeDisconnected, p.doc) <==> Droppable(p, left)
  {
    hide Feed, TrimRight, StrToUl16, OpenTrailers;
    var i := FirstNewline(left);
    if i == |left| {
      WaitingIs(cb, p, left);
    } else {
      var line, rest := TrimRight(left[..i]), left[i + 1..];
      assert left == left[..i] + [LF] + rest;
      LineAtFront(cb, p, left[..i], rest, left);
      var (v, e) := StrToUl16(line);
      if line != [] && e == |line| {
        var q := p.(size := v, state := if v == 0 then Trailers else Data);
        if v == 0 {
          TrailersEnd(cb, q, rest);
        } else if rest != [] {
          BodyByteCounts(cb, q, rest);
        } else {
          FeedNothing(cb, Settle(q));
        }
      }
    }
  }

  // The result of a close while held up is what the kept bytes would have made it, exactly when
  // they are droppable.
  lemma HeldEnd(cb: Callbacks, p: Parser, left: seq<Byte>)
    requires HeldBy(p, left)
    ensures EndAfter(cb, Settle(p), left) == (CloseError(p), p.doc) <==> Droppable(p, left)
  {
    hide Feed, TrimRight, StrToUl16, OpenTrailers;
    if p.state == ChunkSize {
      SizesEnd(cb, p, left);
    } else if p.size != 0 {
      if left == [] {
        FeedNothing(cb, Settle(p));
      } else {
        BodyByteCounts(cb, p, left);
      }
    } else {
      BodyEnded(p);
      FeedRest(cb, Settle(p), left);
    }
  }

  // A receiver r that meets the end of the stream while held up gives the result and the document
  // that any receiver a which is not held up gives on the same stream, if and only if the bytes it
  // keeps are droppable: no body byte among them, and no verdict.
  lemma HeldCloseExactly(r: HttpBase, a: HttpBase, e: Error)
    requires r.parser.cb == a.parser.cb && r.Held() && r.len < BUFFER_SIZE && a.Ended(r.fed, e)
    ensures e == CloseError(r.parser.View()) && a.parser.doc == r.parser.doc
            <==> Droppable(r.parser.View(), r.buffer[..r.len])
  {
    hide Feed, Settle, NeverFull, HeldBy, Droppable;
    var cb, p, left := r.parser.cb, r.parser.View(), r.buffer[..r.len];
    HeldEnd(cb, p, left);
    KeptIsFed(r);
    EndedIs(a, r.fed, e);
    NotFullBefore(cb, r.fed, a.fed, r.fed);
    SettledLine(p);
    LineLength(cb, Settle(p), left);
    if a.Done(e) {
      var t := r.fed[|a.fed|..];
      assert r.fed == a.fed + t;
      VerdictFinal(cb, a.fed, t);
    } else {
      assert Feed(cb, START, a.fed) == Machine(a.parser.View(), a.buffer[..a.len], None, []);
      assert |a.fed| == |r.fed| && a.fed == r.fed;
      assert a.parser.View().doc == a.parser.doc;
    }
  }

  lemma SettledLine(p: Parser)
    ensures Settle(p).line == []
  {}

  // Two streams on which it is not: a leader, a blank line, and one body byte the document was not
  // ready for. Without a length the close reports success with the byte missing; with a length of
  // one it reports a broken connection where the message is complete.
  lemma HeldCloseLoses(cb: Callbacks, leader: seq<Byte>, n: Size)
    requires forall k :: 0 <= k < |leader| ==> leader[k] != LF
    requires cb.leader(TrimRight(leader + [CR])) == HeNone && cb.headersDone(false, SIZE_UNKNOWN) == (HeNone, n)
    requires n == SIZE_UNKNOWN || n == 1
    ensures var head := leader + CRLF + (CRLF + []);
      var p := Feed(cb, START, head).p;
      && Feed(cb, START, head) == Settle(p) && HeldBy(p, [65]) && p.doc == []
      && EndAfter(cb, START, head + [65]) == (HeNone, [65])
      && CloseError(p) == if n == 1 then HeDisconnected else HeNone
  {
    hide TrimRight, Feed, LineStep;
    var head, text := leader + CRLF + (CRLF + []), TrimRight(leader + [CR]);
    StartSettled(cb);
    HeaderLine(cb, RESET, leader, CRLF + []);
    LeaderStep(cb, text);
    var q := RESET.(state := Headers, events := [LeaderLine(text)]);
    BlankLine(cb, q, []);
    NoLengthStep(cb, q, n);
    var p := LineStep(cb, q, []).0;
    FeedNothing(cb, Settle(p));
    FeedJoin(cb, START, head, [65]);
    FeedBody(cb, Settle(p), [65]);
    assert [] + [65] == [65];
  }

  lemma NoLengthStep(cb: Callbacks, q: Parser, n: Size)
    requires q.state == Headers && !q.chunked && cb.headersDone(false, q.size) == (HeNone, n)
    ensures var (p, r, err) := LineStep(cb, q, []);
      r == Continue && p.state == Data && !p.chunked && p.size == n && p.doc == q.doc
  {}
}
