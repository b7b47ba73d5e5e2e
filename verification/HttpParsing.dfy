/** The HTTP parser: a line-and-body machine, fed through a buffer that keeps what it could not use yet. */
module HttpParsing {
  import opened Bytes
  import opened Wrappers

  // ST_COMPLETE is left to the caller, who sets it after the last result.
  datatype State = Leader | Headers | ChunkSize | ChunkTerm | Trailers | Data

  datatype Error = HeNone | HeProtocol | HeOverflow | HeDisconnected | HeStream | HeOther(code: nat)

  // PR_BLOCK is for the code around the machine, which is never held up.
  datatype Result = Continue | Block | Complete

  datatype Event =
    | LeaderLine(line: seq<Byte>)
    | Header(name: seq<Byte>, value: seq<Byte>)
    | HeadersDone(chunked: bool, size: Size)

  // A size_t, whose largest value stands for a size not known.
  type Size = n: nat | n <= 0xFFFF_FFFF_FFFF_FFFF
  const SIZE_UNKNOWN: Size := 0xFFFF_FFFF_FFFF_FFFF

  // What the parser asks of the code around it: judging the leader, scanning a
  // content length, and the notification after the last header, which may set the size.
  datatype Callbacks = Callbacks(
    leader: seq<Byte> -> Error,
    scanLength: seq<Byte> -> Option<Size>,
    headersDone: (bool, Size) -> (Error, Size))

  // ----- scanning

  function TrimRight(line: seq<Byte>): (t: seq<Byte>)
    ensures t <= line
  {
    if line != [] && IsSpace(line[|line| - 1]) then TrimRight(line[..|line| - 1]) else line
  }

  function SkipSpaces(s: seq<Byte>, i: nat): (j: nat)
    requires i <= |s|
    ensures i <= j <= |s|
    decreases |s| - i
  {
    if i < |s| && IsSpace(s[i]) then SkipSpaces(s, i + 1) else i
  }

  // The first colon; the search gives up at a zero byte.
  function FindColon(s: seq<Byte>, i: nat): (r: Option<nat>)
    requires i <= |s|
    ensures r.Some? ==> i <= r.value < |s| && s[r.value] == 58
    decreases |s| - i
  {
    if i == |s| || s[i] == 0 then None
    else if s[i] == 58 then Some(i)
    else FindColon(s, i + 1)
  }

  predicate SameText(a: seq<Byte>, b: string) {
    LowerAll(a) == LowerAll(Ascii(b))
  }

  function HexDigit(b: Byte): (r: Option<nat>)
    ensures r.Some? ==> r.value < 16
  {
    if 48 <= b <= 57 then Some(b - 48)
    else if 97 <= b <= 102 then Some(b - 87)
    else if 65 <= b <= 70 then Some(b - 55)
    else None
  }

  // The digits from i on: the value they add to v, and where they end.
  function HexRun(s: seq<Byte>, i: nat, v: nat): (r: (nat, nat))
    requires i <= |s|
    ensures i <= r.1 <= |s|
    decreases |s| - i
  {
    if i < |s| && HexDigit(s[i]).Some? then HexRun(s, i + 1, v * 16 + HexDigit(s[i]).value) else (v, i)
  }

  // strtoul(s, &end, 16): the value and where it stopped (0 if there is no number). A number too
  // large gives the largest unsigned long, whatever its sign; a minus sign negates any other.
  function StrToUl16(s: seq<Byte>): (r: (Size, nat))
    ensures r.1 <= |s|
  {
    var a := SkipSpaces(s, 0);
    var b := if a < |s| && (s[a] == 43 || s[a] == 45) then a + 1 else a;
    var c := if b + 2 < |s| && s[b] == 48 && (s[b + 1] == 120 || s[b + 1] == 88) && HexDigit(s[b + 2]).Some?
             then b + 2 else b;
    var (v, e) := HexRun(s, c, 0);
    if e == c then (0, 0)
    else if v > SIZE_UNKNOWN then (SIZE_UNKNOWN, e)
    else if b > a && s[a] == 45 && v > 0 then (SIZE_UNKNOWN + 1 - v, e)
    else (v, e)
  }

  // ----- the machine

  datatype Parser = Parser(state: State, chunked: bool, size: Size, events: seq<Event>, doc: seq<Byte>)

  const RESET := Parser(Leader, false, SIZE_UNKNOWN, [], [])

  // One header line, split at the colon.
  function HeaderStep(cb: Callbacks, p: Parser, line: seq<Byte>): (Parser, Result, Error) {
    match FindColon(line, 0)
    case None => (p, Complete, HeProtocol)
    case Some(c) =>
      var name, value := line[..c], line[SkipSpaces(line, c + 1)..];
      var q := p.(events := p.events + [Header(name, value)]);
      if SameText(name, "Content-Length") then
        match cb.scanLength(value)
        case None => (p, Complete, HeProtocol)
        case Some(n) => (q.(size := n), Continue, HeNone)
      else if SameText(name, "Transfer-Encoding") then
        if SameText(value, "chunked") then (q.(chunked := true), Continue, HeNone)
        else if SameText(value, "identity") then (q.(chunked := false), Continue, HeNone)
        else (p, Complete, HeProtocol)
      else (q, Continue, HeNone)
  }

  function LineStep(cb: Callbacks, p: Parser, line: seq<Byte>): (Parser, Result, Error)
    requires p.state != Data
  {
    match p.state
    case Leader =>
      var err := cb.leader(line);
      var q := p.(state := Headers, events := p.events + [LeaderLine(line)]);
      (q, if err == HeNone then Continue else Complete, err)
    case Headers =>
      if line != [] then HeaderStep(cb, p, line) else
      var (err, n) := cb.headersDone(p.chunked, p.size);
      var q := p.(state := if p.chunked then ChunkSize else Data, size := n,
                  events := p.events + [HeadersDone(p.chunked, p.size)]);
      (q, if err == HeNone then Continue else Complete, err)
    case ChunkSize =>
      if line == [] then (p, Complete, HeProtocol) else
      var (v, e) := StrToUl16(line);
      if e != |line| then (p.(size := v), Complete, HeProtocol)
      else (p.(size := v, state := if v == 0 then Trailers else Data), Continue, HeNone)
    case ChunkTerm =>
      if line != [] then (p, Complete, HeProtocol)
      else (p.(state := if p.chunked then ChunkSize else Data), Continue, HeNone)
    case Trailers =>
      if line == [] then (p, Complete, HeNone) else (p, Continue, HeNone)
  }

  // A machine that takes one byte at a time: the parser, the line begun but not ended,
  // and once the parser is finished its verdict and the bytes after it.
  datatype Machine = Machine(p: Parser, line: seq<Byte>, done: Option<Error>, rest: seq<Byte>)

  const START := Machine(RESET, [], None, [])

  // After a body has been read to its end: on to the chunk's line end, or finished.
  function Settle(p: Parser): Machine {
    if p.state == Data && p.size == 0 then
      if p.chunked then Machine(p.(state := ChunkTerm), [], None, []) else Machine(p, [], Some(HeNone), [])
    else Machine(p, [], None, [])
  }

  function EndLine(cb: Callbacks, p: Parser, line: seq<Byte>): Machine
    requires p.state != Data
  {
    var (q, r, err) := LineStep(cb, p, TrimRight(line));
    if r == Complete then Machine(q, [], Some(err), []) else Settle(q)
  }

  function TakeByte(p: Parser, b: Byte): Parser {
    p.(doc := p.doc + [b], size := if p.size == SIZE_UNKNOWN || p.size == 0 then p.size else p.size - 1)
  }

  function ByteStep(cb: Callbacks, m: Machine, b: Byte): Machine {
    if m.done.Some? then m.(rest := m.rest + [b])
    else if m.p.state == Data then Settle(TakeByte(m.p, b))
    else if b == LF then EndLine(cb, m.p, m.line)
    else m.(line := m.line + [b])
  }

  ghost function Feed(cb: Callbacks, m: Machine, s: seq<Byte>): Machine {
    if s == [] then m else ByteStep(cb, Feed(cb, m, s[..|s| - 1]), s[|s| - 1])
  }

  // The machine's own state does not depend on how its input is cut up.
  lemma {:induction false} FeedJoin(cb: Callbacks, m: Machine, a: seq<Byte>, b: seq<Byte>)
    ensures Feed(cb, m, a + b) == Feed(cb, Feed(cb, m, a), b)
    decreases |b|
  {
    if b == [] {
      assert a + b == a;
    } else {
      var n := |b| - 1;
      assert (a + b)[..|a + b| - 1] == a + b[..n];
      FeedJoin(cb, m, a, b[..n]);
    }
  }

  lemma FeedFirst(cb: Callbacks, m: Machine, s: seq<Byte>)
    requires s != []
    ensures Feed(cb, m, s) == Feed(cb, ByteStep(cb, m, s[0]), s[1..])
  {
    assert [s[0]] + s[1..] == s;
    FeedJoin(cb, m, [s[0]], s[1..]);
    assert [s[0]][..0] == [];
    assert Feed(cb, m, [s[0]]) == ByteStep(cb, Feed(cb, m, []), s[0]);
  }

  // A line without its end only grows.
  lemma {:induction false} FeedLine(cb: Callbacks, m: Machine, s: seq<Byte>)
    requires m.done.None? && m.p.state != Data
    requires forall i :: 0 <= i < |s| ==> s[i] != LF
    ensures Feed(cb, m, s) == m.(line := m.line + s)
    decreases |s|
  {
    if s != [] {
      var n := |s| - 1;
      FeedLine(cb, m, s[..n]);
      assert m.line + s[..n] + [s[n]] == m.line + s;
    } else {
      assert m.line + s == m.line;
    }
  }

  lemma {:induction false} FeedRest(cb: Callbacks, m: Machine, s: seq<Byte>)
    requires m.done.Some?
    ensures Feed(cb, m, s) == m.(rest := m.rest + s)
    decreases |s|
  {
    if s != [] {
      var n := |s| - 1;
      FeedRest(cb, m, s[..n]);
      assert m.rest + s[..n] + [s[n]] == m.rest + s;
    } else {
      assert m.rest + s == m.rest;
    }
  }

  function TakeBytes(p: Parser, s: seq<Byte>): Parser {
    p.(doc := p.doc + s, size := if p.size == SIZE_UNKNOWN || p.size < |s| then p.size else p.size - |s|)
  }

  lemma TakeOneMore(p: Parser, s: seq<Byte>, b: Byte)
    requires p.size == SIZE_UNKNOWN || |s| < p.size
    ensures TakeByte(TakeBytes(p, s), b) == TakeBytes(p, s + [b])
  {
    assert p.doc + s + [b] == p.doc + (s + [b]);
  }

  lemma TakeNone(p: Parser)
    ensures TakeBytes(p, []) == p
  {
    assert p.doc + [] == p.doc;
  }

  // Body bytes go through in bulk, as long as they do not reach past the body's end.
  lemma {:induction false} FeedBody(cb: Callbacks, m: Machine, s: seq<Byte>)
    requires m == Machine(m.p, [], None, []) && m.p.state == Data && m.p.size != 0 && s != []
    requires m.p.size == SIZE_UNKNOWN || |s| <= m.p.size
    ensures Feed(cb, m, s) == Settle(TakeBytes(m.p, s))
    decreases |s|
  {
    hide TakeByte;
    var n := |s| - 1;
    var t, b := s[..n], s[n];
    assert t + [b] == s;
    TakeOneMore(m.p, t, b);
    if n == 0 {
      TakeNone(m.p);
    } else {
      FeedBody(cb, m, t);
    }
    assert Feed(cb, m, t) == Machine(TakeBytes(m.p, t), [], None, []);
  }
}
