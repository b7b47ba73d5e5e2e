/** The chunk encoder of flush_data, and its round trip through the parser. */
module HttpSending {
  import opened Arith
  import opened Bytes
  import opened Wrappers
  import opened HttpParsing
  import opened HttpReceiving

  const CHUNK_DIGITS := 8
  // The empty chunk and the empty trailers: "0", a line end, a line end.
  const LAST: seq<Byte> := [48, CR, LF, CR, LF]

  // ----- hexadecimal lengths

  function HexChar(d: nat): (b: Byte)
    requires d < 16
    ensures HexDigit(b) == Some(d)
  {
    if d < 10 then 48 + d else 87 + d
  }

  // n in lower-case hexadecimal, with k digits.
  function HexDigits(n: nat, k: nat): (s: seq<Byte>)
    ensures |s| == k
    ensures forall i :: 0 <= i < k ==> HexDigit(s[i]).Some?
  {
    if k == 0 then [] else HexDigits(n / 16, k - 1) + [HexChar(n % 16)]
  }

  ghost function Pow16(k: nat): (r: nat)
    ensures r >= 1
  {
    if k == 0 then 1 else 16 * Pow16(k - 1)
  }

  lemma {:induction false} HexFromLeft(n: nat, k: nat)
    requires k >= 1
    ensures HexDigits(n, k) == [HexChar(n / Pow16(k - 1) % 16)] + HexDigits(n, k - 1)
  {
    if k == 1 {
      assert n / 1 == n;
      assert HexDigits(n / 16, 0) == [];
    } else {
      HexFromLeft(n / 16, k - 1);
      DivDiv(n, 16, Pow16(k - 2));
      assert HexDigits(n, k - 1) == HexDigits(n / 16, k - 2) + [HexChar(n % 16)];
    }
  }

  lemma TopDigit(n: nat, b: nat)
    requires b >= 1
    ensures n % (16 * b) == (n / b % 16) * b + n % b
  {
    var q, r := n / b, n % b;
    var s, t := q / 16, q % 16;
    assert n == b * (16 * s + t) + r;
    assert b * (16 * s + t) + r == (16 * b) * s + (t * b + r);
    MulMono(b, t, 15);
    ModUnique(n, 16 * b, s, t * b + r);
  }

  lemma Shifted(v: nat, d: nat, b: nat)
    ensures (v * 16 + d) * b == v * (16 * b) + d * b
  {}

  // Reading the top digit of k moves it from the number still to come into the value so far.
  lemma DigitMoves(v: nat, n: nat, k: nat, d: nat)
    requires k >= 1 && d == n / Pow16(k - 1) % 16
    ensures (v * 16 + d) * Pow16(k - 1) + n % Pow16(k - 1) == v * Pow16(k) + n % Pow16(k)
  {
    var b := Pow16(k - 1);
    TopDigit(n, b);
    Shifted(v, d, b);
  }

  lemma HexRunStops(s: seq<Byte>, v: nat)
    ensures HexRun(s, |s|, v) == (v, |s|)
  {}

  lemma HexRunStep(s: seq<Byte>, i: nat, v: nat, d: nat)
    requires i < |s| && d < 16 && s[i] == HexChar(d)
    ensures HexRun(s, i, v) == HexRun(s, i + 1, v * 16 + d)
  {}

  lemma NoDigits(v: nat, n: nat)
    ensures v * Pow16(0) + n % Pow16(0) == v
  {}

  lemma {:induction false} HexRunBack(s: seq<Byte>, i: nat, v: nat, n: nat, k: nat)
    requires i + k == |s| && s[i..] == HexDigits(n, k)
    ensures HexRun(s, i, v) == (v * Pow16(k) + n % Pow16(k), |s|)
    decreases k
  {
    hide Pow16, HexDigits, HexRun;
    if k == 0 {
      NoDigits(v, n);
      HexRunStops(s, v);
    } else {
      var d := n / Pow16(k - 1) % 16;
      HexFromLeft(n, k);
      assert s[i] == s[i..][0] == HexChar(d);
      DigitMoves(v, n, k, d);
      HexRunStep(s, i, v, d);
      assert s[i + 1..] == s[i..][1..] == HexDigits(n, k - 1);
      HexRunBack(s, i + 1, v * 16 + d, n, k - 1);
    }
  }

  lemma Pow16Of8()
    ensures Pow16(8) == 0x1_0000_0000
  {
    assert Pow16(4) == 0x1_0000;
  }

  // A number that is nothing but hexadecimal digits has no space, sign or prefix before it.
  lemma PlainDigits(s: seq<Byte>)
    requires |s| >= 2 && HexDigit(s[0]).Some? && HexDigit(s[1]).Some? && HexRun(s, 0, 0).0 <= SIZE_UNKNOWN
    ensures StrToUl16(s) == if HexRun(s, 0, 0).1 == 0 then (0, 0) else HexRun(s, 0, 0)
  {
    hide HexRun;
    assert SkipSpaces(s, 0) == 0;
  }

  // strtoul reads back what sprintf wrote.
  lemma ChunkSizeBack(n: nat)
    requires n < 0x1_0000_0000
    ensures StrToUl16(HexDigits(n, CHUNK_DIGITS)) == (n, CHUNK_DIGITS)
  {
    hide StrToUl16, HexDigits, HexRun;
    Pow16Of8();
    var s := HexDigits(n, CHUNK_DIGITS);
    assert s[0..] == s;
    HexRunBack(s, 0, 0, n, CHUNK_DIGITS);
    PlainDigits(s);
  }

  /** Digit i of the eight has the weight 16^(7 - i), and the ten digits are followed by "a" to "f". */
  lemma {:induction false} DigitIs(n: nat, k: nat, i: nat)
    requires i < k
    ensures HexDigits(n, k)[i] == "0123456789abcdef"[n / Pow16(k - 1 - i) % 16] as int
    decreases k
  {
    hide Pow16;
    HexFromLeft(n, k);
    if i == 0 {
      CharIs(n / Pow16(k - 1) % 16);
    } else {
      DigitIs(n, k - 1, i - 1);
    }
  }

  lemma CharIs(d: nat)
    requires d < 16
    ensures HexChar(d) == "0123456789abcdef"[d] as int
  {}

  // ----- what goes over the wire

  ghost function Chunk(c: seq<Byte>): seq<Byte> {
    HexDigits(|c|, CHUNK_DIGITS) + CRLF + c + CRLF
  }

  /** A chunk byte by byte: eight digits of the length, a line end, the data, a line end. */
  lemma ChunkIs(c: seq<Byte>)
    requires |c| < 0x1_0000_0000
    ensures var s, n := Chunk(c), |c|;
      && |s| == n + 12
      && (forall i :: 0 <= i < 8 ==> s[i] == "0123456789abcdef"[n / Pow16(7 - i) % 16] as int)
      && s[8] == '\r' as int && s[9] == '\n' as int && s[10..10 + n] == c
      && s[10 + n] == '\r' as int && s[11 + n] == '\n' as int
  {
    hide HexDigits, Pow16;
    forall i | 0 <= i < 8
      ensures Chunk(c)[i] == "0123456789abcdef"[|c| / Pow16(7 - i) % 16] as int
    {
      DigitIs(|c|, 8, i);
    }
  }

  lemma LastIs()
    ensures LAST == Ascii("0\r\n\r\n")
  {}

  ghost function Chunks(cs: seq<seq<Byte>>): seq<Byte> {
    if cs == [] then [] else Chunks(cs[..|cs| - 1]) + Chunk(cs[|cs| - 1])
  }

  ghost function Body(cs: seq<seq<Byte>>, ended: bool): seq<Byte> {
    Chunks(cs) + if ended then LAST else []
  }

  ghost function Concat(cs: seq<seq<Byte>>): seq<Byte> {
    if cs == [] then [] else Concat(cs[..|cs| - 1]) + cs[|cs| - 1]
  }

  // ----- the parser on chunks

  // Between chunks: a size line is next.
  ghost predicate AtChunk(p: Parser) {
    p.state == ChunkSize && p.chunked
  }

  lemma TrimHex(s: seq<Byte>)
    requires s != [] && HexDigit(s[|s| - 1]).Some?
    ensures TrimRight(s + [CR]) == s
  {
    assert (s + [CR])[..|s|] == s;
  }

  lemma SizeLine(cb: Callbacks, p: Parser, line: seq<Byte>, n: nat, after: seq<Byte>)
    requires AtChunk(p) && line != [] && HexDigit(line[|line| - 1]).Some?
    requires forall i :: 0 <= i < |line| ==> HexDigit(line[i]).Some?
    requires StrToUl16(line) == (n, |line|)
    ensures Feed(cb, Settle(p), line + CRLF + after)
         == Feed(cb, Settle(p.(size := n, state := if n == 0 then Trailers else Data)), after)
  {
    TrimHex(line);
    LineAtFront(cb, p, line + [CR], after, line + CRLF + after);
  }

  // A chunk with something in it goes to the document, and the parser is ready for the next.
  lemma FeedChunk(cb: Callbacks, p: Parser, c: seq<Byte>, after: seq<Byte>)
    requires AtChunk(p) && 0 < |c| < 0x1_0000_0000
    ensures Feed(cb, Settle(p), Chunk(c) + after) == Feed(cb, Settle(p.(size := 0, doc := p.doc + c)), after)
  {
    hide Feed, HexDigits, StrToUl16;
    ChunkSizeBack(|c|);
    var line := HexDigits(|c|, CHUNK_DIGITS);
    var q := p.(size := |c|, state := Data);
    assert Chunk(c) + after == line + CRLF + (c + (CRLF + after));
    SizeLine(cb, p, line, |c|, c + (CRLF + after));
    BodyAtFront(cb, q, c, CRLF + after, c + (CRLF + after));
    var r := p.(size := 0, doc := p.doc + c, state := ChunkTerm);
    assert Settle(TakeBytes(q, c)) == Settle(r);
    BlankLine(cb, r, after);
  }

  // An empty chunk reads as the end of the document.
  lemma FeedEmptyChunk(cb: Callbacks, p: Parser, after: seq<Byte>)
    requires AtChunk(p)
    ensures Feed(cb, Settle(p), Chunk([]) + after) == Machine(p.(size := 0, state := Trailers), [], Some(HeNone), after)
  {
    hide Feed, HexDigits, StrToUl16;
    ChunkSizeBack(0);
    var line := HexDigits(0, CHUNK_DIGITS);
    assert Chunk([]) + after == line + CRLF + (CRLF + after);
    SizeLine(cb, p, line, 0, CRLF + after);
    BlankLine(cb, p.(size := 0, state := Trailers), after);
  }

  lemma FeedLast(cb: Callbacks, p: Parser)
    requires AtChunk(p)
    ensures Feed(cb, Settle(p), LAST) == Machine(p.(size := 0, state := Trailers), [], Some(HeNone), [])
  {
    hide Feed;
    assert LAST == [48] + CRLF + (CRLF + []);
    SizeLine(cb, p, [48], 0, CRLF + []);
    BlankLine(cb, p.(size := 0, state := Trailers), []);
  }

  ghost predicate Sized(cs: seq<seq<Byte>>) {
    forall i :: 0 <= i < |cs| ==> |cs[i]| < 0x1_0000_0000
  }

  ghost predicate NoneEmpty(cs: seq<seq<Byte>>) {
    forall i :: 0 <= i < |cs| ==> cs[i] != []
  }

  lemma {:induction false} FeedChunks(cb: Callbacks, p: Parser, cs: seq<seq<Byte>>, after: seq<Byte>)
    requires AtChunk(p) && Sized(cs) && NoneEmpty(cs)
    ensures Feed(cb, Settle(p), Chunks(cs) + after)
         == Feed(cb, Settle(p.(size := if cs == [] then p.size else 0, doc := p.doc + Concat(cs))), after)
    decreases |cs|
  {
    hide Feed, Settle, Chunk;
    if cs == [] {
      assert Chunks(cs) + after == after && p.doc + [] == p.doc;
    } else {
      var n := |cs| - 1;
      var ds, c := cs[..n], cs[n];
      assert Chunks(cs) + after == Chunks(ds) + (Chunk(c) + after);
      FeedChunks(cb, p, ds, Chunk(c) + after);
      var q := p.(size := if ds == [] then p.size else 0, doc := p.doc + Concat(ds));
      FeedChunk(cb, q, c, after);
      assert p.doc + Concat(ds) + c == p.doc + Concat(cs);
    }
  }

  lemma AllBack(cb: Callbacks, p: Parser, cs: seq<seq<Byte>>)
    requires AtChunk(p) && Sized(cs) && NoneEmpty(cs)
    ensures var m := Feed(cb, Settle(p), Body(cs, true));
            m.done == Some(HeNone) && m.p.doc == p.doc + Concat(cs) && m.rest == []
  {
    hide Feed, Chunks, Concat, Settle;
    FeedChunks(cb, p, cs, LAST);
    FeedLast(cb, p.(size := if cs == [] then p.size else 0, doc := p.doc + Concat(cs)));
  }

  // The first empty chunk ends the document, and the terminator at least is left over.
  lemma CutShort(cb: Callbacks, p: Parser, cs: seq<seq<Byte>>)
    requires AtChunk(p) && Sized(cs) && !NoneEmpty(cs)
    ensures Feed(cb, Settle(p), Body(cs, true)).rest != []
    ensures Feed(cb, Settle(p), Body(cs, true)).done == Some(HeNone)
  {
    hide Feed, Chunk, Concat, Settle;
    var i := FirstEmpty(cs);
    var ds, es, rest := cs[..i], cs[..i + 1], cs[i + 1..];
    ChunksJoin(es, rest);
    assert es + rest == cs && es[..i] == ds;
    var after := Chunks(rest) + LAST;
    assert Chunks(es) == Chunks(ds) + Chunk([]);
    assert Body(cs, true) == Chunks(ds) + (Chunk([]) + after);
    hide Chunks;
    FeedChunks(cb, p, ds, Chunk([]) + after);
    FeedEmptyChunk(cb, p.(size := if ds == [] then p.size else 0, doc := p.doc + Concat(ds)), after);
  }

  // The parser gets back exactly the document, finished without error and with nothing
  // left over, if and only if no read of the document came back empty.
  lemma ChunkedRoundTrip(cb: Callbacks, p: Parser, cs: seq<seq<Byte>>)
    requires AtChunk(p) && Sized(cs)
    ensures var m := Feed(cb, Machine(p, [], None, []), Body(cs, true));
            (m.done == Some(HeNone) && m.p.doc == p.doc + Concat(cs) && m.rest == []) <==> NoneEmpty(cs)
  {
    hide Feed, Body, Concat, NoneEmpty;
    assert Settle(p) == Machine(p, [], None, []);
    if NoneEmpty(cs) { AllBack(cb, p, cs); } else { CutShort(cb, p, cs); }
  }

  lemma FirstEmpty(cs: seq<seq<Byte>>) returns (i: nat)
    requires !NoneEmpty(cs)
    ensures i < |cs| && cs[i] == [] && NoneEmpty(cs[..i])
  {
    i := 0;
    while cs[i] != []
      invariant i < |cs| && NoneEmpty(cs[..i]) && exists j :: i <= j < |cs| && cs[j] == []
      decreases |cs| - i
    {
      i := i + 1;
    }
  }

  lemma {:induction false} ChunksJoin(a: seq<seq<Byte>>, b: seq<seq<Byte>>)
    ensures Chunks(a + b) == Chunks(a) + Chunks(b)
    decreases |b|
  {
    hide Chunk;
    if b == [] {
      assert a + b == a;
    } else {
      var n := |b| - 1;
      assert (a + b)[..|a + b| - 1] == a + b[..n];
      ChunksJoin(a, b[..n]);
    }
  }

  // ----- the sender

  function Overwrite(b: seq<Byte>, at: nat, d: seq<Byte>): (r: seq<Byte>)
    requires at + |d| <= |b|
    ensures |r| == |b|
  {
    b[..at] + d + b[at + |d|..]
  }

  lemma OverwriteAt(b: seq<Byte>, at: nat, d: seq<Byte>, i: nat)
    requires at + |d| <= |b| && i < |b|
    ensures Overwrite(b, at, d)[i] == if at <= i < at + |d| then d[i - at] else b[i]
  {}

  // Byte i of the chunk that carries c.
  ghost function ChunkByte(c: seq<Byte>, i: nat): Byte
    requires i < CHUNK_DIGITS + 4 + |c|
  {
    if i < CHUNK_DIGITS then HexDigits(|c|, CHUNK_DIGITS)[i]
    else if i < CHUNK_DIGITS + 2 then CRLF[i - CHUNK_DIGITS]
    else if i < CHUNK_DIGITS + 2 + |c| then c[i - CHUNK_DIGITS - 2]
    else CRLF[i - CHUNK_DIGITS - 2 - |c|]
  }

  lemma ChunkAt(c: seq<Byte>)
    ensures |Chunk(c)| == CHUNK_DIGITS + 4 + |c|
    ensures forall i :: 0 <= i < |Chunk(c)| ==> Chunk(c)[i] == ChunkByte(c, i)
  {
    hide HexDigits;
  }

  // Data first, then the length before it and the two line ends.
  function WriteFrame(b: seq<Byte>, at: nat, data: seq<Byte>): (r: seq<Byte>)
    requires at + CHUNK_DIGITS + 4 + |data| <= |b|
    ensures |r| == |b|
  {
    var b1 := Overwrite(b, at + CHUNK_DIGITS + 2, data);
    var b2 := Overwrite(b1, at, HexDigits(|data|, CHUNK_DIGITS));
    var b3 := Overwrite(b2, at + CHUNK_DIGITS, CRLF);
    Overwrite(b3, at + CHUNK_DIGITS + 2 + |data|, CRLF)
  }

  lemma WriteFrameAt(b: seq<Byte>, at: nat, data: seq<Byte>, i: nat)
    requires at + CHUNK_DIGITS + 4 + |data| <= |b| && i < at + CHUNK_DIGITS + 4 + |data|
    ensures WriteFrame(b, at, data)[i] == if i < at then b[i] else ChunkByte(data, i - at)
  {
    hide Overwrite, HexDigits;
    var h := HexDigits(|data|, CHUNK_DIGITS);
    var b1 := Overwrite(b, at + CHUNK_DIGITS + 2, data);
    var b2 := Overwrite(b1, at, h);
    var b3 := Overwrite(b2, at + CHUNK_DIGITS, CRLF);
    OverwriteAt(b, at + CHUNK_DIGITS + 2, data, i);
    OverwriteAt(b1, at, h, i);
    OverwriteAt(b2, at + CHUNK_DIGITS, CRLF, i);
    OverwriteAt(b3, at + CHUNK_DIGITS + 2 + |data|, CRLF, i);
  }

  // The chunk in place.
  lemma FramedInPlace(b: seq<Byte>, at: nat, data: seq<Byte>)
    requires at + CHUNK_DIGITS + 4 + |data| <= |b|
    ensures WriteFrame(b, at, data)[..at + CHUNK_DIGITS + 4 + |data|] == b[..at] + Chunk(data)
  {
    hide WriteFrame, ChunkByte, Chunk;
    ChunkAt(data);
    var r, t := WriteFrame(b, at, data), b[..at] + Chunk(data);
    forall i | 0 <= i < |t| ensures r[i] == t[i] {
      WriteFrameAt(b, at, data, i);
    }
  }

  datatype DocRead = Taken(data: seq<Byte>) | DocBlocked | DocEnd | DocError

  datatype NetWrite = Written(n: nat) | NetBlocked | NetError

  datatype Status = Stalled | Finished | DocumentFailed | StreamFailed

  // The document's answer number i of those given in advance, at most `room` bytes; afterwards it
  // blocks.
  function DocumentAnswer(document: seq<DocRead>, i: nat, room: nat): (r: DocRead)
    ensures r.Taken? ==> |r.data| <= room
    ensures i >= |document| ==> r == DocBlocked
  {
    if i >= |document| then DocBlocked
    else match document[i]
      case Taken(d) => Taken(if |d| > room then d[..room] else d)
      case r => r
  }

  // And the network's, at most the `len` bytes it is offered; afterwards it blocks.
  function NetworkAnswer(network: seq<NetWrite>, i: nat, len: nat): (w: NetWrite)
    ensures w.Written? ==> w.n <= len && i < |network|
  {
    if i >= |network| then NetBlocked
    else match network[i]
      case Written(n) => Written(if n > len then len else n)
      case w => w
  }

  // The last answers, given the room of every read and the bytes offered with every write.
  function LastRead(document: seq<DocRead>, rooms: seq<nat>): DocRead
    requires rooms != []
  {
    DocumentAnswer(document, |rooms| - 1, rooms[|rooms| - 1])
  }

  function LastWrite(network: seq<NetWrite>, lens: seq<nat>): NetWrite
    requires lens != []
  {
    NetworkAnswer(network, |lens| - 1, lens[|lens| - 1])
  }

  // The data these reads brought, and how many bytes the writes took.
  function Reads(document: seq<DocRead>, rooms: seq<nat>): seq<seq<Byte>> {
    if rooms == [] then []
    else
      var r := LastRead(document, rooms);
      Reads(document, rooms[..|rooms| - 1]) + if r.Taken? then [r.data] else []
  }

  function Took(network: seq<NetWrite>, lens: seq<nat>): nat {
    if lens == [] then 0
    else
      var w := LastWrite(network, lens);
      Took(network, lens[..|lens| - 1]) + if w.Written? then w.n else 0
  }

  lemma NothingYet(document: seq<DocRead>, network: seq<NetWrite>)
    ensures Reads(document, []) == [] && Took(network, []) == 0
  {}

  lemma ReadNext(document: seq<DocRead>, rooms: seq<nat>, room: nat)
    ensures var r := DocumentAnswer(document, |rooms|, room);
      LastRead(document, rooms + [room]) == r
      && Reads(document, rooms + [room]) == Reads(document, rooms) + if r.Taken? then [r.data] else []
  {
    hide DocumentAnswer;
    assert (rooms + [room])[..|rooms|] == rooms;
  }

  lemma WriteNext(network: seq<NetWrite>, lens: seq<nat>, len: nat)
    ensures var w := NetworkAnswer(network, |lens|, len);
      LastWrite(network, lens + [len]) == w
      && Took(network, lens + [len]) == Took(network, lens) + if w.Written? then w.n else 0
  {
    hide NetworkAnswer;
    assert (lens + [len])[..|lens|] == lens;
  }

  // The sending half of HttpBase, past its headers, with a chunked document.
  class ChunkSender {
    const buffer: array<Byte>
    var len: nat
    var chunkData: bool
    // The header bytes queued before the document, the document's reads so far,
    // and what the network has taken.
    ghost const head: seq<Byte>
    ghost var taken: seq<seq<Byte>>
    ghost var sent: seq<Byte>

    ghost predicate Shape()
      reads this
    {
      buffer.Length == BUFFER_SIZE && len <= BUFFER_SIZE
    }

    // Sent and buffered bytes together are the headers and the encoded reads.
    ghost predicate Valid()
      reads this, buffer
    {
      && Shape() && Small(taken)
      && sent + buffer[..len] == head + Body(taken, !chunkData)
    }

    ghost predicate Small(cs: seq<seq<Byte>>) {
      forall i :: 0 <= i < |cs| ==> |cs[i]| < BUFFER_SIZE
    }

    constructor (queued: seq<Byte>)
      requires |queued| <= BUFFER_SIZE
      ensures Valid() && taken == [] && sent == [] && chunkData && head == queued
    {
      buffer := new Byte[BUFFER_SIZE](i requires 0 <= i => if i < |queued| then queued[i] else 0);
      len, chunkData, head, taken, sent := |queued|, true, queued, [], [];
      new;
      assert buffer[..len] == queued;
    }

    // Copies bytes into the buffer from `at` on.
    method Put(at: nat, data: seq<Byte>)
      requires Shape() && at + |data| <= BUFFER_SIZE
      modifies buffer
      ensures buffer[..] == Overwrite(old(buffer[..]), at, data)
    {
      for i := 0 to |data|
        invariant forall j :: 0 <= j < buffer.Length && !(at <= j < at + i) ==> buffer[j] == old(buffer[j])
        invariant forall j :: 0 <= j < i ==> buffer[at + j] == data[j]
      {
        buffer[at + i] := data[i];
      }
    }

    // A read of the document, framed in place: the data goes in first, past the room
    // kept for its length, then the length and the two line ends around it.
    method QueueChunk(data: seq<Byte>)
      requires Valid() && chunkData && |data| < BUFFER_SIZE && len + CHUNK_DIGITS + 4 + |data| <= BUFFER_SIZE
      modifies `len, `taken, buffer
      ensures Valid() && taken == old(taken) + [data]
      ensures len > 0
    {
      hide HexDigits, Overwrite, Chunk, Body;
      ghost var before, all, was := buffer[..len], buffer[..], taken;
      var offset := len + CHUNK_DIGITS + 2;
      Put(offset, data);
      Put(len, HexDigits(|data|, CHUNK_DIGITS));
      Put(len + CHUNK_DIGITS, CRLF);
      Put(offset + |data|, CRLF);
      FramedInPlace(all, len, data);
      ghost var now := buffer[..];
      len := offset + |data| + 2;
      assert buffer[..len] == now[..len];
      taken := taken + [data];
      BodyGrows(was, data);
      assert sent + buffer[..len] == (sent + before) + Chunk(data);
    }

    lemma BodyGrows(cs: seq<seq<Byte>>, c: seq<Byte>)
      ensures head + Body(cs + [c], false) == (head + Body(cs, false)) + Chunk(c)
    {
      assert (cs + [c])[..|cs|] == cs;
    }

    method QueueLast()
      requires Valid() && chunkData && len + |LAST| <= BUFFER_SIZE
      modifies `len, `chunkData, buffer
      ensures Valid() && !chunkData && len > 0
    {
      hide Overwrite, Body, ChunkSender.Small;
      ghost var before, all := buffer[..len], buffer[..];
      Put(len, LAST);
      LastInPlace(all, len);
      ghost var now := buffer[..];
      len := len + |LAST|;
      assert buffer[..len] == now[..len];
      chunkData := false;
      BodyEnds(taken);
      assert sent + buffer[..len] == (sent + before) + LAST;
    }

    lemma BodyEnds(cs: seq<seq<Byte>>)
      ensures head + Body(cs, true) == (head + Body(cs, false)) + LAST
    {}

    lemma LastInPlace(b: seq<Byte>, at: nat)
      requires at + |LAST| <= |b|
      ensures Overwrite(b, at, LAST)[..at + |LAST|] == b[..at] + LAST
    {}

    lemma AllSent()
      requires Valid() && !chunkData && len == 0
      ensures sent == head + Body(taken, true)
    {
      hide Body;
      assert buffer[..0] == [];
    }

    lemma Limits()
      ensures BUFFER_SIZE == 32768 && CHUNK_DIGITS == 8 && |LAST| == 5
      ensures Valid() ==> len <= BUFFER_SIZE == buffer.Length
    {
      hide Body;
    }

    // The network took n bytes; the rest moves to the front.
    method Shift(n: nat)
      requires Valid() && n <= len
      modifies `len, `sent, buffer
      ensures Valid() && len == old(len) - n && sent == old(sent) + old(buffer[..n]) && |sent| == |old(sent)| + n
    {
      hide Body, ChunkSender.Small;
      ghost var before, was := buffer[..len], sent;
      TakenOff(was, before, n);
      assert buffer[..n] == before[..n] && buffer[n..len] == before[n..];
      sent := sent + buffer[..n];
      len := len - n;
      MoveDown(n);
      assert buffer[..len] == before[n..];
    }

    lemma TakenOff(a: seq<Byte>, s: seq<Byte>, n: nat)
      requires n <= |s|
      ensures (a + s[..n]) + s[n..] == a + s
    {
      assert s[..n] + s[n..] == s;
    }

    // memmove: the bytes from n on come to the front.
    method MoveDown(n: nat)
      requires Shape() && len + n <= BUFFER_SIZE
      modifies buffer
      ensures buffer[..len] == old(buffer[n..n + len])
    {
      for i := 0 to len
        invariant buffer[..i] == old(buffer[n..n + i])
        invariant forall j :: i <= j < buffer.Length ==> buffer[j] == old(buffer[j])
      {
        buffer[i] := buffer[n + i];
      }
    }

    // flush_data. The answers of the document and of the network are given in advance; the room of
    // every read and the bytes offered with every write are returned.
    method FlushData(document: seq<DocRead>, network: seq<NetWrite>)
      returns (status: Status, ghost rooms: seq<nat>, ghost lens: seq<nat>)
      requires Valid()
      modifies this, buffer
      ensures Valid() && old(sent) <= sent
      ensures taken == old(taken) + Reads(document, rooms) && |sent| == |old(sent)| + Took(network, lens)
      ensures status == Finished ==> sent == head + Body(taken, true)
      ensures status == Finished && old(chunkData) ==> rooms != [] && LastRead(document, rooms) == DocEnd
      ensures status == Stalled ==>
                || (lens != [] && LastWrite(network, lens) == NetBlocked)
                || (len == 0 && rooms != [] && LastRead(document, rooms) == DocBlocked)
      ensures status == DocumentFailed ==> rooms != [] && LastRead(document, rooms) == DocError
      ensures status == StreamFailed ==> lens != [] && LastWrite(network, lens) == NetError
    {
      hide *;
      Limits();
      var asked, writes := 0, 0;
      rooms, lens := [], [];
      NothingYet(document, network);
      assert old(taken) + [] == old(taken);
      var sendRequired := len >= BUFFER_SIZE;
      while true
        invariant Valid() && old(sent) <= sent && asked == |rooms| && writes == |lens|
        invariant taken == old(taken) + Reads(document, rooms) && |sent| == |old(sent)| + Took(network, lens)
        invariant !chunkData && old(chunkData) ==> rooms != [] && LastRead(document, rooms) == DocEnd
        invariant sendRequired ==> len > 0
        decreases if chunkData then 1 else 0, if asked < |document| then |document| - asked else 0, |network| - writes
      {
        Limits();
        if !sendRequired {
          var reserve := if chunkData then len + CHUNK_DIGITS + 4 else len;
          if reserve >= BUFFER_SIZE {
            sendRequired := true;
          } else {
            // a document that has ended says so again
            var r := DocEnd;
            if chunkData {
              r := DocumentAnswer(document, asked, BUFFER_SIZE - reserve);
              ReadNext(document, rooms, BUFFER_SIZE - reserve);
              rooms, asked := rooms + [BUFFER_SIZE - reserve], asked + 1;
            }
            match r {
              case Taken(data) =>
                QueueChunk(data);
              case DocBlocked =>
                sendRequired := true;
              case DocEnd =>
                if chunkData {
                  QueueLast();
                } else if len == 0 {
                  AllSent();
                  return Finished, rooms, lens;
                }
                sendRequired := true;
              case DocError =>
                return DocumentFailed, rooms, lens;
            }
          }
        }
        if len == 0 { return Stalled, rooms, lens; }
        var w := NetworkAnswer(network, writes, len);
        WriteNext(network, lens, len);
        lens, writes := lens + [len], writes + 1;
        match w {
          case Written(n) =>
            Shift(n);
            sendRequired := false;
          case NetBlocked =>
            if sendRequired { return Stalled, rooms, lens; }
          case NetError =>
            return StreamFailed, rooms, lens;
        }
      }
    }
  }

  // Once the sender has finished, what the network got after the headers parses back to
  // the document, however its reads and the network's writes were interleaved.
  lemma SentParsesBack(s: ChunkSender, cb: Callbacks, p: Parser)
    requires s.Valid() && s.sent == s.head + Body(s.taken, true) && NoneEmpty(s.taken) && AtChunk(p)
    ensures |s.head| <= |s.sent|
    ensures var m := Feed(cb, Machine(p, [], None, []), s.sent[|s.head|..]);
            m.done == Some(HeNone) && m.p.doc == p.doc + Concat(s.taken) && m.rest == []
  {
    assert s.sent[|s.head|..] == Body(s.taken, true);
    ChunkedRoundTrip(cb, p, s.taken);
  }

  // ----- from the sender's document to the receiver's

  // A header block that announces a chunked body: after it the parser is at a size line.
  ghost predicate Announces(cb: Callbacks, head: seq<Byte>) {
    var m := Feed(cb, START, head);
    m == Settle(m.p) && AtChunk(m.p) && m.p.doc == []
  }

  // A receiver that has read what a finished sender sent, in whatever pieces, and is not held up by
  // its document, has reached the verdict that the message is complete, holds exactly the
  // concatenated reads and has nothing left over, if and only if no read was empty.
  lemma DocumentArrives(s: ChunkSender, r: HttpBase, e: Error)
    requires s.Valid() && s.sent == s.head + Body(s.taken, true) && Announces(r.parser.cb, s.head)
    requires r.fed == s.sent && (r.Settled() || r.Done(e))
    ensures r.Done(e)
    ensures e == HeNone && r.parser.doc == Concat(s.taken) && r.buffer[..r.len] == [] <==> NoneEmpty(s.taken)
  {
    hide Feed, Body, Concat, NoneEmpty, AtChunk;
    var cb := r.parser.cb;
    var m := Feed(cb, START, s.head);
    FeedJoin(cb, START, s.head, Body(s.taken, true));
    SizedReads(s);
    assert m.p.doc + Concat(s.taken) == Concat(s.taken);
    AtChunkSettles(m.p);
    ChunkedRoundTrip(cb, m.p, s.taken);
    EndsDone(cb, m.p, s.taken);
    if r.Settled() {
      KeptIsFed(r);
      WaitingIs(cb, r.parser.View(), r.buffer[..r.len]);
    }
  }

  lemma SizedReads(s: ChunkSender)
    requires s.Valid()
    ensures Sized(s.taken)
  {}

  lemma AtChunkSettles(p: Parser)
    requires AtChunk(p)
    ensures Settle(p) == Machine(p, [], None, [])
  {}

  // Whatever the reads, the parser comes to a verdict without error.
  lemma EndsDone(cb: Callbacks, p: Parser, cs: seq<seq<Byte>>)
    requires AtChunk(p) && Sized(cs)
    ensures Feed(cb, Settle(p), Body(cs, true)).done == Some(HeNone)
  {
    hide Feed, Chunk, Concat, Settle;
    if NoneEmpty(cs) {
      hide *;
      AllBack(cb, p, cs);
    } else {
      CutShort(cb, p, cs);
    }
  }

  const ENCODING := Ascii("Transfer-Encoding")
  const CHUNKED := Ascii("chunked")

  // The header line that announces chunks, without its line end.
  const ENCODING_LINE := ENCODING + [58, SPACE] + CHUNKED

  lemma {:induction false} ColonAfter(name: seq<Byte>, rest: seq<Byte>, i: nat)
    requires i <= |name| && forall k :: 0 <= k < |name| ==> name[k] != 58 && name[k] != 0
    ensures FindColon(name + [58] + rest, i) == Some(|name|)
    decreases |name| - i
  {
    var s := name + [58] + rest;
    if i < |name| {
      assert s[i] == name[i];
      ColonAfter(name, rest, i + 1);
    } else {
      assert s[i] == 58;
    }
  }

  lemma PlainNames()
    ensures |ENCODING| == 17 && |CHUNKED| == 7
    ensures forall k :: 0 <= k < |ENCODING| ==> ENCODING[k] != 58 && ENCODING[k] != 0 && ENCODING[k] != LF
    ensures forall k :: 0 <= k < |CHUNKED| ==> CHUNKED[k] != LF && !IsSpace(CHUNKED[k])
  {}

  lemma EncodingStep(cb: Callbacks, p: Parser)
    requires p.state == Headers
    ensures LineStep(cb, p, ENCODING_LINE) ==
            (p.(chunked := true, events := p.events + [Header(ENCODING, CHUNKED)]), Continue, HeNone)
    ensures ENCODING_LINE != [] && TrimRight(ENCODING_LINE + [CR]) == ENCODING_LINE
    ensures forall k :: 0 <= k < |ENCODING_LINE| ==> ENCODING_LINE[k] != LF
  {
    PlainNames();
    hide Ascii, LowerAll;
    var line := ENCODING_LINE;
    assert line == ENCODING + [58] + ([SPACE] + CHUNKED);
    ColonAfter(ENCODING, [SPACE] + CHUNKED, 0);
    assert line[..17] == ENCODING && line[19..] == CHUNKED;
    assert line[18] == SPACE && line[19] == CHUNKED[0];
    assert SkipSpaces(line, 18) == 19;
    LengthsDiffer(ENCODING);
    assert (line + [CR])[..|line|] == line;
    assert line[|line| - 1] == CHUNKED[6];
  }

  lemma LengthsDiffer(name: seq<Byte>)
    requires |name| == 17
    ensures !SameText(name, "Content-Length")
  {}

  // An accepted leader, the header line, and the blank line announce a chunked body.
  lemma ChunkedHeaders(cb: Callbacks, leader: seq<Byte>)
    requires forall k :: 0 <= k < |leader| ==> leader[k] != LF
    requires cb.leader(TrimRight(leader + [CR])) == HeNone && cb.headersDone(true, SIZE_UNKNOWN).0 == HeNone
    ensures Announces(cb, leader + CRLF + (ENCODING_LINE + CRLF + (CRLF + [])))
  {
    hide TrimRight, Feed, LineStep, AtChunk, ENCODING, CHUNKED, ENCODING_LINE;
    var rest := ENCODING_LINE + CRLF + (CRLF + []);
    HeaderLine(cb, RESET, leader, rest);
    LeaderStep(cb, TrimRight(leader + [CR]));
    var p := RESET.(state := Headers, events := [LeaderLine(TrimRight(leader + [CR]))]);
    EncodingStep(cb, p);
    HeaderLine(cb, p, ENCODING_LINE, CRLF + []);
    var q := p.(chunked := true, events := p.events + [Header(ENCODING, CHUNKED)]);
    BlankLine(cb, q, []);
    LastStep(cb, q);
    FeedNothing(cb, Settle(LineStep(cb, q, []).0));
  }

  lemma LastStep(cb: Callbacks, p: Parser)
    requires p.state == Headers && p.chunked && p.doc == [] && cb.headersDone(true, p.size).0 == HeNone
    ensures var (q, r, err) := LineStep(cb, p, []);
      r == Continue && AtChunk(q) && q.doc == [] && Settle(q) == Machine(q, [], None, [])
  {}
}
