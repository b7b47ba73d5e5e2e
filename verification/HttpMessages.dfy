/** Whole messages: what the header fields make of the bytes that follow them. */
module HttpMessages {
  import opened Bytes
  import opened Wrappers
  import opened HttpParsing
  import opened HttpReceiving
  import opened HttpSending

  // ----- text

  // The same but for the case of the letters.
  predicate Caseless(a: seq<Byte>, b: string) {
    && |a| == |b|
    && forall i :: 0 <= i < |a| ==>
         || a[i] == b[i] as int
         || ('a' <= b[i] <= 'z' && a[i] == b[i] as int - 32)
         || ('A' <= b[i] <= 'Z' && a[i] == b[i] as int + 32)
  }

  lemma SameTextIs(a: seq<Byte>, b: string)
    requires forall i :: 0 <= i < |b| ==> b[i] < 128 as char
    ensures SameText(a, b) <==> Caseless(a, b)
  {
    var s, t := LowerAll(a), LowerAll(Ascii(b));
    if |a| == |b| {
      forall i | 0 <= i < |a|
        ensures s[i] == t[i] <==> (|| a[i] == b[i] as int
                                   || ('a' <= b[i] <= 'z' && a[i] == b[i] as int - 32)
                                   || ('A' <= b[i] <= 'Z' && a[i] == b[i] as int + 32))
      {
        assert s[i] == Lower(a[i]) && t[i] == Lower(b[i] as int);
      }
    }
  }

  // White space within a line.
  predicate Spaces(s: seq<Byte>) {
    forall i :: 0 <= i < |s| ==> IsSpace(s[i]) && s[i] != LF
  }

  predicate OneLiner(s: seq<Byte>) {
    forall i :: 0 <= i < |s| ==> s[i] != LF
  }

  lemma {:induction false} TrimSpaces(s: seq<Byte>, t: seq<Byte>)
    requires Spaces(t)
    ensures TrimRight(s + t) == TrimRight(s)
    decreases |t|
  {
    if t == [] {
      assert s + t == s;
    } else {
      assert (s + t)[..|s + t| - 1] == s + t[..|t| - 1];
      TrimSpaces(s, t[..|t| - 1]);
    }
  }

  lemma {:induction false} SkipsTo(s: seq<Byte>, i: nat, j: nat)
    requires i <= j <= |s| && (j < |s| ==> !IsSpace(s[j]))
    requires forall k :: i <= k < j ==> IsSpace(s[k])
    ensures SkipSpaces(s, i) == j
    decreases j - i
  {
    if i < j { SkipsTo(s, i + 1, j); }
  }

  // ----- header fields

  // A header line up to its line feed: the name, a colon, white space, the value, white space.
  datatype Field = Field(name: seq<Byte>, gap: seq<Byte>, value: seq<Byte>, trail: seq<Byte>) {
    predicate Formed() {
      && (forall i :: 0 <= i < |name| ==> name[i] != 58 && name[i] != 0 && name[i] != LF)
      && Spaces(gap) && Spaces(trail) && OneLiner(value)
      && (value != [] ==> !IsSpace(value[0]) && !IsSpace(value[|value| - 1]))
    }

    function Line(): seq<Byte> {
      name + [58] + gap + value + trail
    }

    predicate Length() {
      Caseless(name, "Content-Length")
    }

    predicate Encoding() {
      Caseless(name, "Transfer-Encoding")
    }

    // A length that is no number, or an encoding that is not known.
    predicate Bad(cb: Callbacks) {
      || (Length() && cb.scanLength(value).None?)
      || (Encoding() && !Caseless(value, "chunked") && !Caseless(value, "identity"))
    }
  }

  // The part of the line that is looked at.
  function Shown(f: Field): seq<Byte> {
    f.name + [58] + if f.value == [] then [] else f.gap + f.value
  }

  lemma ShownIs(f: Field)
    requires f.Formed()
    ensures TrimRight(f.Line()) == Shown(f) && OneLiner(f.Line())
  {
    hide TrimRight, IsSpace;
    LineFed(f);
    var bare, shown := f.name + [58], Shown(f);
    if f.value == [] {
      assert f.Line() == bare + (f.gap + f.trail);
      TrimSpaces(bare, f.gap + f.trail);
      assert shown == bare;
    } else {
      assert f.Line() == shown + f.trail;
      TrimSpaces(shown, f.trail);
    }
    ShownStays(f);
  }

  lemma LineFed(f: Field)
    requires f.Formed()
    ensures OneLiner(f.Line())
  {
    hide IsSpace;
  }

  lemma ShownStays(f: Field)
    requires f.Formed()
    ensures TrimRight(Shown(f)) == Shown(f)
  {
    hide IsSpace, TrimRight;
    var shown := Shown(f);
    assert shown[|shown| - 1] == if f.value == [] then 58 else f.value[|f.value| - 1];
    ColonIsNoSpace();
    Untrimmed(shown);
  }

  lemma ColonIsNoSpace()
    ensures !IsSpace(58)
  {}

  lemma Untrimmed(line: seq<Byte>)
    requires line == [] || !IsSpace(line[|line| - 1])
    ensures TrimRight(line) == line
  {}

  lemma ShownSplits(f: Field)
    requires f.Formed()
    ensures var line, c := Shown(f), |f.name|;
      && line != [] && c < |line| && FindColon(line, 0) == Some(c)
      && line[..c] == f.name && line[SkipSpaces(line, c + 1)..] == f.value
  {
    hide IsSpace, FindColon, SkipSpaces;
    var line, gap := Shown(f), if f.value == [] then [] else f.gap;
    assert line == f.name + [58] + (gap + f.value);
    ColonAfter(f.name, gap + f.value, 0);
    GapSkipped(line, |f.name| + 1, gap, f.value);
  }

  lemma GapSkipped(line: seq<Byte>, i: nat, gap: seq<Byte>, value: seq<Byte>)
    requires i <= |line| && line[i..] == gap + value && Spaces(gap) && (value != [] ==> !IsSpace(value[0]))
    ensures line[SkipSpaces(line, i)..] == value
  {
    hide IsSpace, SkipSpaces;
    var v := i + |gap|;
    forall k | i <= k < v
      ensures IsSpace(line[k])
    {
      assert line[k] == line[i..][k - i] == gap[k - i];
    }
    assert line[v..] == line[i..][|gap|..] == value;
    if v < |line| { assert line[v] == line[v..][0]; }
    SkipsTo(line, i, v);
  }

  // What a field makes of the framing so far.
  function SizeWith(cb: Callbacks, f: Field, size: Size): Size {
    if f.Length() && cb.scanLength(f.value).Some? then cb.scanLength(f.value).value else size
  }

  predicate ChunkedWith(f: Field, chunked: bool) {
    if f.Encoding() then Caseless(f.value, "chunked") else chunked
  }

  lemma Names(f: Field)
    ensures SameText(f.name, "Content-Length") <==> f.Length()
    ensures SameText(f.name, "Transfer-Encoding") <==> f.Encoding()
    ensures SameText(f.value, "chunked") <==> Caseless(f.value, "chunked")
    ensures SameText(f.value, "identity") <==> Caseless(f.value, "identity")
    ensures !(f.Length() && f.Encoding()) && !(Caseless(f.value, "chunked") && Caseless(f.value, "identity"))
  {
    SameTextIs(f.name, "Content-Length");
    SameTextIs(f.name, "Transfer-Encoding");
    SameTextIs(f.value, "chunked");
    SameTextIs(f.value, "identity");
    Lengths();
  }

  lemma Lengths()
    ensures |"Content-Length"| == 14 && |"Transfer-Encoding"| == 17 && |"chunked"| == 7 && |"identity"| == 8
  {}

  function WithField(cb: Callbacks, p: Parser, f: Field): Parser {
    p.(size := SizeWith(cb, f, p.size), chunked := ChunkedWith(f, p.chunked),
       events := p.events + [Header(f.name, f.value)])
  }

  lemma FieldStep(cb: Callbacks, p: Parser, f: Field)
    requires p.state == Headers && f.Formed()
    ensures LineStep(cb, p, TrimRight(f.Line())) ==
      if f.Bad(cb) then (p, Complete, HeProtocol)
      else (WithField(cb, p, f), Continue, HeNone)
  {
    hide SameText, Caseless, TrimRight, FindColon, SkipSpaces, Shown;
    ShownIs(f);
    ShownSplits(f);
    Names(f);
  }

  // ----- heads

  // All fields well formed, and none bad.
  predicate Good(cb: Callbacks, fields: seq<Field>) {
    forall i :: 0 <= i < |fields| ==> fields[i].Formed() && !fields[i].Bad(cb)
  }

  function Lines(fields: seq<Field>): seq<Byte> {
    if fields == [] then [] else fields[0].Line() + [LF] + Lines(fields[1..])
  }

  // The leader, the fields, and a line with nothing but white space.
  function Head(leader: seq<Byte>, fields: seq<Field>, blank: seq<Byte>): seq<Byte> {
    leader + [LF] + Lines(fields) + blank + [LF]
  }

  function SizeAfter(cb: Callbacks, fields: seq<Field>, size: Size): Size {
    if fields == [] then size else SizeAfter(cb, fields[1..], SizeWith(cb, fields[0], size))
  }

  predicate ChunkedAfter(fields: seq<Field>, chunked: bool) {
    if fields == [] then chunked else ChunkedAfter(fields[1..], ChunkedWith(fields[0], chunked))
  }

  function Told(fields: seq<Field>): (events: seq<Event>)
    ensures |events| == |fields|
  {
    seq(|fields|, i requires 0 <= i < |fields| => Header(fields[i].name, fields[i].value))
  }

  /** Without a length the size stays what it is, at the start not known. */
  lemma {:induction false} NoLength(cb: Callbacks, fields: seq<Field>, size: Size)
    requires forall j :: 0 <= j < |fields| ==> !fields[j].Length()
    ensures SizeAfter(cb, fields, size) == size
    decreases |fields|
  {
    hide Field.Length;
    if fields != [] { NoLength(cb, fields[1..], size); }
  }

  /** The last length counts. */
  lemma {:induction false} LastLength(cb: Callbacks, fields: seq<Field>, i: nat, size: Size)
    requires i < |fields| && fields[i].Length() && !fields[i].Bad(cb)
    requires forall j :: i < j < |fields| ==> !fields[j].Length()
    ensures cb.scanLength(fields[i].value) == Some(SizeAfter(cb, fields, size))
    decreases |fields|
  {
    hide Field.Length, Field.Encoding;
    var rest := fields[1..];
    assert forall j :: 0 <= j < |rest| ==> rest[j] == fields[j + 1];
    if i == 0 {
      NoLength(cb, rest, SizeWith(cb, fields[0], size));
    } else {
      LastLength(cb, rest, i - 1, SizeWith(cb, fields[0], size));
    }
  }

  /** Without an encoding nothing is chunked that was not. */
  lemma {:induction false} NoEncoding(fields: seq<Field>, chunked: bool)
    requires forall j :: 0 <= j < |fields| ==> !fields[j].Encoding()
    ensures ChunkedAfter(fields, chunked) == chunked
    decreases |fields|
  {
    hide Field.Encoding;
    if fields != [] { NoEncoding(fields[1..], chunked); }
  }

  /** The last encoding counts. */
  lemma {:induction false} LastEncoding(fields: seq<Field>, i: nat, chunked: bool)
    requires i < |fields| && fields[i].Encoding()
    requires forall j :: i < j < |fields| ==> !fields[j].Encoding()
    ensures ChunkedAfter(fields, chunked) <==> Caseless(fields[i].value, "chunked")
    decreases |fields|
  {
    hide Field.Encoding, Caseless;
    var rest := fields[1..];
    assert forall j :: 0 <= j < |rest| ==> rest[j] == fields[j + 1];
    if i == 0 {
      NoEncoding(rest, ChunkedWith(fields[0], chunked));
    } else {
      LastEncoding(rest, i - 1, ChunkedWith(fields[0], chunked));
    }
  }

  function WithFields(cb: Callbacks, p: Parser, fields: seq<Field>): Parser {
    p.(size := SizeAfter(cb, fields, p.size), chunked := ChunkedAfter(fields, p.chunked),
       events := p.events + Told(fields))
  }

  lemma {:induction false} LinesRead(cb: Callbacks, p: Parser, fields: seq<Field>, after: seq<Byte>)
    requires p.state == Headers && Good(cb, fields)
    ensures Feed(cb, Settle(p), Lines(fields) + after) == Feed(cb, Settle(WithFields(cb, p, fields)), after)
    decreases |fields|
  {
    hide Feed, Settle, LineStep, TrimRight, Field.Line, Field.Formed, Field.Bad, WithFields;
    WithNext(cb, p, fields);
    if fields == [] {
      assert Lines(fields) + after == after;
    } else {
      var f, rest := fields[0], fields[1..];
      FieldStep(cb, p, f);
      ShownIs(f);
      assert Lines(fields) + after == f.Line() + [LF] + (Lines(rest) + after);
      LineAtFront(cb, p, f.Line(), Lines(rest) + after, Lines(fields) + after);
      LinesRead(cb, WithField(cb, p, f), rest, after);
    }
  }

  lemma WithNext(cb: Callbacks, p: Parser, fields: seq<Field>)
    ensures WithFields(cb, p, fields) ==
            if fields == [] then p else WithFields(cb, WithField(cb, p, fields[0]), fields[1..])
  {
    hide SizeWith, ChunkedWith;
    if fields == [] {
      assert p.events + Told([]) == p.events;
    } else {
      var e := Header(fields[0].name, fields[0].value);
      assert Told(fields) == [e] + Told(fields[1..]);
      assert p.events + [e] + Told(fields[1..]) == p.events + Told(fields);
    }
  }

  // The parser after the leader line, and after the fields.
  function AfterFields(cb: Callbacks, leader: seq<Byte>, fields: seq<Field>): Parser {
    Parser(Headers, ChunkedAfter(fields, false), SizeAfter(cb, fields, SIZE_UNKNOWN),
           [LeaderLine(TrimRight(leader))] + Told(fields), [])
  }

  lemma LeaderAndLines(cb: Callbacks, leader: seq<Byte>, fields: seq<Field>, after: seq<Byte>)
    requires OneLiner(leader) && cb.leader(TrimRight(leader)) == HeNone && Good(cb, fields)
    ensures Feed(cb, START, leader + [LF] + Lines(fields) + after)
         == Feed(cb, Settle(AfterFields(cb, leader, fields)), after)
  {
    hide Feed, LineStep, TrimRight, Good;
    var line := TrimRight(leader);
    StartSettled(cb);
    LeaderStep(cb, line);
    assert leader + [LF] + Lines(fields) + after == leader + [LF] + (Lines(fields) + after);
    LineAtFront(cb, RESET, leader, Lines(fields) + after, leader + [LF] + (Lines(fields) + after));
    LinesRead(cb, RESET.(state := Headers, events := [LeaderLine(line)]), fields, after);
  }

  // After the blank line.
  function AfterHead(cb: Callbacks, leader: seq<Byte>, fields: seq<Field>): Parser {
    var p := AfterFields(cb, leader, fields);
    p.(state := if p.chunked then ChunkSize else Data, size := cb.headersDone(p.chunked, p.size).1,
       events := p.events + [HeadersDone(p.chunked, p.size)])
  }

  lemma BlankStep(cb: Callbacks, leader: seq<Byte>, fields: seq<Field>, blank: seq<Byte>)
    requires Spaces(blank)
    ensures var p := AfterFields(cb, leader, fields);
      var err := cb.headersDone(p.chunked, p.size).0;
      LineStep(cb, p, TrimRight(blank))
      == (AfterHead(cb, leader, fields), if err == HeNone then Continue else Complete, err)
  {
    hide TrimRight;
    TrimSpaces([], blank);
    assert [] + blank == blank;
    assert TrimRight([]) == [] by { hide *; NothingTrimmed(); }
  }

  lemma NothingTrimmed()
    ensures TrimRight([]) == []
  {}

  /** A whole head: the parser is told the leader, every field and the end of the headers, in this
      order; the last length and the last encoding decide the framing; and what the notification
      makes of the size is the size the body is read with. */
  lemma HeadRead(cb: Callbacks, leader: seq<Byte>, fields: seq<Field>, blank: seq<Byte>, after: seq<Byte>)
    requires OneLiner(leader) && cb.leader(TrimRight(leader)) == HeNone && Good(cb, fields) && Spaces(blank)
    ensures var chunked, size := ChunkedAfter(fields, false), SizeAfter(cb, fields, SIZE_UNKNOWN);
      var (err, n) := cb.headersDone(chunked, size);
      var p := Parser(if chunked then ChunkSize else Data, chunked, n,
                      [LeaderLine(TrimRight(leader))] + Told(fields) + [HeadersDone(chunked, size)], []);
      Feed(cb, START, Head(leader, fields, blank) + after) ==
        if err == HeNone then Feed(cb, Settle(p), after) else Machine(p, [], Some(err), after)
  {
    hide Feed, LineStep, TrimRight, Good, Settle, Lines;
    var p := AfterFields(cb, leader, fields);
    assert Head(leader, fields, blank) + after == leader + [LF] + Lines(fields) + (blank + [LF] + after);
    LeaderAndLines(cb, leader, fields, blank + [LF] + after);
    BlankStep(cb, leader, fields, blank);
    LineAtFront(cb, p, blank, after, blank + [LF] + after);
  }

  // ----- bodies

  // A head that is taken in full and is followed by a body of n bytes, or by all there is.
  ghost predicate Plain(cb: Callbacks, leader: seq<Byte>, fields: seq<Field>, blank: seq<Byte>, n: Size) {
    && OneLiner(leader) && cb.leader(TrimRight(leader)) == HeNone && Good(cb, fields) && Spaces(blank)
    && !ChunkedAfter(fields, false)
    && cb.headersDone(false, SizeAfter(cb, fields, SIZE_UNKNOWN)) == (HeNone, n)
  }

  lemma PlainHead(cb: Callbacks, leader: seq<Byte>, fields: seq<Field>, blank: seq<Byte>, n: Size, after: seq<Byte>)
      returns (p: Parser)
    requires Plain(cb, leader, fields, blank, n)
    ensures p.state == Data && !p.chunked && p.size == n && p.doc == []
    ensures Feed(cb, START, Head(leader, fields, blank) + after) == Feed(cb, Settle(p), after)
  {
    hide Feed, TrimRight, Good, Settle, Head;
    HeadRead(cb, leader, fields, blank, after);
    var size := SizeAfter(cb, fields, SIZE_UNKNOWN);
    p := Parser(Data, false, n, [LeaderLine(TrimRight(leader))] + Told(fields) + [HeadersDone(false, size)], []);
  }

  /** A body of known size: once that many bytes are there the message is complete, they are the
      document, and the bytes after them are left over. */
  lemma SizedMessage(cb: Callbacks, leader: seq<Byte>, fields: seq<Field>, blank: seq<Byte>,
                     body: seq<Byte>, tail: seq<Byte>)
    requires |body| < SIZE_UNKNOWN && Plain(cb, leader, fields, blank, |body|)
    ensures var m := Feed(cb, START, Head(leader, fields, blank) + body + tail);
      m.done == Some(HeNone) && m.p.doc == body && m.rest == tail
  {
    hide Feed, Plain, Head;
    var head := Head(leader, fields, blank);
    assert head + body + tail == head + (body + tail);
    var p := PlainHead(cb, leader, fields, blank, |body|, body + tail);
    if body != [] {
      BodyAtFront(cb, p, body, tail, body + tail);
      assert [] + body == body;
    } else {
      assert body + tail == tail;
    }
    var q := TakeBytes(p, body);
    assert q.doc == body && q.size == 0;
    BodyEnded(q);
    FeedRest(cb, Settle(q), tail);
    assert [] + tail == tail;
  }

  /** Fewer bytes than that, or any number where the size is not known: they are the document so far,
      and the parser wants more. */
  lemma PartialMessage(cb: Callbacks, leader: seq<Byte>, fields: seq<Field>, blank: seq<Byte>,
                       n: Size, body: seq<Byte>)
    requires Plain(cb, leader, fields, blank, n) && (|body| < n || n == SIZE_UNKNOWN)
    ensures var m := Feed(cb, START, Head(leader, fields, blank) + body);
      && m.done == None && m.p.doc == body && m.line == []
      && m.p.state == Data && m.p.size == if n == SIZE_UNKNOWN then n else n - |body|
  {
    hide Feed, Plain, Head;
    var p := PlainHead(cb, leader, fields, blank, n, body);
    if body != [] {
      FeedBody(cb, Settle(p), body);
      assert [] + body == body;
    } else {
      FeedNothing(cb, Settle(p));
    }
  }

  /** What the source's own callbacks make of it: a length that the notification keeps, under any
      capitalisation of its name and among any other fields, is the number of bytes of the document. */
  lemma ContentLength(cb: Callbacks, leader: seq<Byte>, fields: seq<Field>, i: nat, blank: seq<Byte>,
                      body: seq<Byte>, tail: seq<Byte>)
    requires OneLiner(leader) && cb.leader(TrimRight(leader)) == HeNone && Good(cb, fields) && Spaces(blank)
    requires i < |fields| && Caseless(fields[i].name, "Content-Length")
    requires |body| < SIZE_UNKNOWN && cb.scanLength(fields[i].value) == Some(|body|)
    requires cb.headersDone(false, |body|) == (HeNone, |body|)
    requires forall j :: i < j < |fields| ==> !Caseless(fields[j].name, "Content-Length")
    requires forall j :: 0 <= j < |fields| && Caseless(fields[j].name, "Transfer-Encoding")
                         ==> Caseless(fields[j].value, "identity")
    ensures var m := Feed(cb, START, Head(leader, fields, blank) + body + tail);
      m.done == Some(HeNone) && m.p.doc == body && m.rest == tail
  {
    hide Feed, Head, Caseless, TrimRight, SizeAfter, ChunkedAfter, Good;
    assert fields[i].Length() && !fields[i].Bad(cb) by { hide *; GoodAt(cb, fields, i); }
    LastLength(cb, fields, i, SIZE_UNKNOWN);
    AllIdentity(cb, fields);
    SizedMessage(cb, leader, fields, blank, body, tail);
  }

  lemma GoodAt(cb: Callbacks, fields: seq<Field>, i: nat)
    requires Good(cb, fields) && i < |fields| && Caseless(fields[i].name, "Content-Length")
    ensures fields[i].Length() && !fields[i].Bad(cb)
  {}

  lemma {:induction false} AllIdentity(cb: Callbacks, fields: seq<Field>)
    requires forall j :: 0 <= j < |fields| && fields[j].Encoding() ==> Caseless(fields[j].value, "identity")
    ensures !ChunkedAfter(fields, false)
    decreases |fields|
  {
    hide Caseless;
    if fields != [] {
      Names(fields[0]);
      AllIdentity(cb, fields[1..]);
    }
  }

  /** With a chunked encoding last, the parser is at the first chunk, whatever lengths were given. */
  lemma ChunkedHead(cb: Callbacks, leader: seq<Byte>, fields: seq<Field>, blank: seq<Byte>)
    requires OneLiner(leader) && cb.leader(TrimRight(leader)) == HeNone && Good(cb, fields) && Spaces(blank)
    requires ChunkedAfter(fields, false) && cb.headersDone(true, SizeAfter(cb, fields, SIZE_UNKNOWN)).0 == HeNone
    ensures Announces(cb, Head(leader, fields, blank))
  {
    hide Feed, TrimRight, Good, Head;
    HeadRead(cb, leader, fields, blank, []);
    var head := Head(leader, fields, blank);
    assert head + [] == head;
    var size := SizeAfter(cb, fields, SIZE_UNKNOWN);
    FeedNothing(cb, Settle(Feed(cb, START, head).p));
    FeedNothing(cb, Settle(Parser(ChunkSize, true, cb.headersDone(true, size).1,
                                  [LeaderLine(TrimRight(leader))] + Told(fields) + [HeadersDone(true, size)], [])));
  }

  // ----- heads that are refused

  /** A leader that is refused ends the message with the error it was refused with. */
  lemma LeaderRefused(cb: Callbacks, leader: seq<Byte>, tail: seq<Byte>)
    requires OneLiner(leader) && cb.leader(TrimRight(leader)) != HeNone
    ensures var m := Feed(cb, START, leader + [LF] + tail);
      m.done == Some(cb.leader(TrimRight(leader))) && m.rest == tail && m.p.doc == []
  {
    hide Feed, TrimRight;
    StartSettled(cb);
    LineAtFront(cb, RESET, leader, tail, leader + [LF] + tail);
  }

  // The fields before it are good, and then there is this line.
  ghost predicate Before(cb: Callbacks, leader: seq<Byte>, fields: seq<Field>, line: seq<Byte>) {
    OneLiner(leader) && cb.leader(TrimRight(leader)) == HeNone && Good(cb, fields) && OneLiner(line)
  }

  lemma LineRefused(cb: Callbacks, leader: seq<Byte>, fields: seq<Field>, line: seq<Byte>, tail: seq<Byte>)
    requires Before(cb, leader, fields, line)
    requires var (q, r, err) := LineStep(cb, AfterFields(cb, leader, fields), TrimRight(line));
      q == AfterFields(cb, leader, fields) && r == Complete && err == HeProtocol
    ensures var m := Feed(cb, START, leader + [LF] + Lines(fields) + line + [LF] + tail);
      m.done == Some(HeProtocol) && m.rest == tail && m.p.doc == []
  {
    hide Feed, TrimRight, Good, Lines, LineStep;
    var p := AfterFields(cb, leader, fields);
    assert leader + [LF] + Lines(fields) + line + [LF] + tail == leader + [LF] + Lines(fields) + (line + [LF] + tail);
    LeaderAndLines(cb, leader, fields, line + [LF] + tail);
    LineAtFront(cb, p, line, tail, line + [LF] + tail);
  }

  /** A length that is no number and an encoding that is neither chunked nor identity are protocol
      errors; the bytes after the line are left over. */
  lemma FieldRefused(cb: Callbacks, leader: seq<Byte>, fields: seq<Field>, f: Field, tail: seq<Byte>)
    requires Before(cb, leader, fields, f.Line()) && f.Formed()
    requires
      || (Caseless(f.name, "Content-Length") && cb.scanLength(f.value) == None)
      || (&& Caseless(f.name, "Transfer-Encoding")
          && !Caseless(f.value, "chunked") && !Caseless(f.value, "identity"))
    ensures var m := Feed(cb, START, leader + [LF] + Lines(fields) + f.Line() + [LF] + tail);
      m.done == Some(HeProtocol) && m.rest == tail && m.p.doc == []
  {
    hide Feed, TrimRight, LineStep, Caseless, Lines, Field.Line, Before;
    FieldStep(cb, AfterFields(cb, leader, fields), f);
    LineRefused(cb, leader, fields, f.Line(), tail);
  }

  /** So is a line that is not blank and has no colon, or none before a zero byte. */
  lemma NoColonRefused(cb: Callbacks, leader: seq<Byte>, fields: seq<Field>, line: seq<Byte>, tail: seq<Byte>)
    requires Before(cb, leader, fields, line) && !Spaces(line)
    requires forall i :: 0 <= i < |line| && line[i] == 58 ==> exists k :: 0 <= k < i && line[k] == 0
    ensures var m := Feed(cb, START, leader + [LF] + Lines(fields) + line + [LF] + tail);
      m.done == Some(HeProtocol) && m.rest == tail && m.p.doc == []
  {
    hide Feed, TrimRight, FindColon, SkipSpaces, SameText, Lines, Good;
    TrimmedNotEmpty(line);
    ColonNotFound(TrimRight(line), 0);
    LineRefused(cb, leader, fields, line, tail);
  }

  lemma {:induction false} TrimmedNotEmpty(line: seq<Byte>)
    requires OneLiner(line) && !Spaces(line)
    ensures TrimRight(line) != []
    decreases |line|
  {
    if IsSpace(line[|line| - 1]) { TrimmedNotEmpty(line[..|line| - 1]); }
  }

  lemma {:induction false} ColonNotFound(s: seq<Byte>, i: nat)
    requires i <= |s| && forall k :: 0 <= k < i ==> s[k] != 0
    requires forall j :: i <= j < |s| && s[j] == 58 ==> exists k :: 0 <= k < j && s[k] == 0
    ensures FindColon(s, i) == None
    decreases |s| - i
  {
    if i < |s| && s[i] != 0 { ColonNotFound(s, i + 1); }
  }

  // ----- chunks

  // A size line, then whatever follows.
  lemma SizeLineRead(cb: Callbacks, p: Parser, line: seq<Byte>, trail: seq<Byte>, tail: seq<Byte>)
    requires AtChunk(p) && OneLiner(line) && Spaces(trail)
    requires line == [] || !IsSpace(line[|line| - 1])
    ensures var m, (v, e) := Feed(cb, Settle(p), line + trail + [LF] + tail), StrToUl16(line);
      if line == [] || e != |line| then m.done == Some(HeProtocol) && m.rest == tail && m.p.doc == p.doc
      else m == Feed(cb, Settle(p.(size := v, state := if v == 0 then Trailers else Data)), tail)
  {
    hide Feed, StrToUl16, TrimRight;
    TrimSpaces(line, trail);
    assert TrimRight(line) == line by { hide *; Untrimmed(line); }
    LineAtFront(cb, p, line + trail, tail, line + trail + [LF] + tail);
  }

  /** After a chunk's data anything but a blank line is a protocol error. */
  lemma NoTerminator(cb: Callbacks, p: Parser, line: seq<Byte>, tail: seq<Byte>)
    requires p.state == ChunkTerm && OneLiner(line) && !Spaces(line)
    ensures var m := Feed(cb, Settle(p), line + [LF] + tail);
      m.done == Some(HeProtocol) && m.rest == tail && m.p.doc == p.doc
  {
    hide Feed, TrimRight;
    TrimmedNotEmpty(line);
    LineAtFront(cb, p, line, tail, line + [LF] + tail);
  }

  function TrailerLines(lines: seq<seq<Byte>>): seq<Byte> {
    if lines == [] then [] else lines[0] + [LF] + TrailerLines(lines[1..])
  }

  /** After the last chunk any lines that are not blank are passed over, and a blank line completes
      the message. */
  lemma {:induction false} TrailersPassed(cb: Callbacks, p: Parser, lines: seq<seq<Byte>>,
                                          blank: seq<Byte>, tail: seq<Byte>)
    requires p.state == Trailers && Spaces(blank)
    requires forall i :: 0 <= i < |lines| ==> OneLiner(lines[i]) && !Spaces(lines[i])
    ensures Feed(cb, Settle(p), TrailerLines(lines) + blank + [LF] + tail) == Machine(p, [], Some(HeNone), tail)
    decreases |lines|
  {
    hide Feed, TrimRight;
    var all := TrailerLines(lines) + blank + [LF] + tail;
    if lines == [] {
      assert all == blank + [LF] + tail;
      TrimSpaces([], blank);
      assert [] + blank == blank;
      assert TrimRight([]) == [] by { hide *; NothingTrimmed(); }
      LineAtFront(cb, p, blank, tail, all);
    } else {
      var rest := TrailerLines(lines[1..]) + blank + [LF] + tail;
      assert all == lines[0] + [LF] + rest;
      TrimmedNotEmpty(lines[0]);
      LineAtFront(cb, p, lines[0], rest, all);
      TrailersPassed(cb, p, lines[1..], blank, tail);
    }
  }

  // ----- the receiver

  /** A receiver that has read a whole message with a body of known size, in whatever pieces and with
      whatever after it, and is not held up by its document, has reached the verdict that the message
      is complete, and holds exactly its body and leaves exactly what came after it. */
  lemma MessageArrives(r: HttpBase, e: Error, leader: seq<Byte>, fields: seq<Field>, blank: seq<Byte>,
                       body: seq<Byte>, tail: seq<Byte>)
    requires |body| < SIZE_UNKNOWN && Plain(r.parser.cb, leader, fields, blank, |body|)
    requires r.fed == Head(leader, fields, blank) + body + tail && (r.Settled() || r.Done(e))
    ensures r.Done(HeNone) && (r.Done(e) ==> e == HeNone)
    ensures r.parser.doc == body && r.buffer[..r.len] == tail
  {
    hide Feed, Plain, Head, NeverFull, Settle;
    var cb := r.parser.cb;
    SizedMessage(cb, leader, fields, blank, body, tail);
    if r.Settled() {
      KeptIsFed(r);
      WaitingIs(cb, r.parser.View(), r.buffer[..r.len]);
    }
    assert r.parser.View().doc == r.parser.doc;
  }

  /** A stream that ends within a body, or after one that has no length: the bytes that came are the
      document; the missing ones are a broken connection, and where no length was given the message
      is complete. */
  lemma StreamEnds(r: HttpBase, e: Error, leader: seq<Byte>, fields: seq<Field>, blank: seq<Byte>,
                   n: Size, body: seq<Byte>)
    requires Plain(r.parser.cb, leader, fields, blank, n) && (|body| < n || n == SIZE_UNKNOWN)
    requires r.fed == Head(leader, fields, blank) + body && r.Ended(r.fed, e)
    ensures r.parser.doc == body && e == if n == SIZE_UNKNOWN then HeNone else HeDisconnected
  {
    hide Feed, Plain, Head, NeverFull, Settle;
    PartialMessage(r.parser.cb, leader, fields, blank, n, body);
    EndedIs(r, r.fed, e);
    assert r.parser.View().doc == r.parser.doc;
  }

  // ----- a stream that ends within the head

  predicate Proper(s: seq<Byte>, x: seq<Byte>) {
    s <= x && |s| < |x|
  }

  lemma {:induction false} CutLines(cb: Callbacks, p: Parser, fields: seq<Field>, blank: seq<Byte>, s: seq<Byte>)
    requires p.state == Headers && Good(cb, fields) && Spaces(blank) && Proper(s, Lines(fields) + blank + [LF])
    ensures var m := Feed(cb, Settle(p), s); m.done == None && m.p.state == Headers && m.p.doc == p.doc
    decreases |fields|
  {
    hide Feed, LineStep, TrimRight, Field.Line, Field.Formed, Field.Bad, SizeWith, ChunkedWith;
    if fields == [] {
      assert s == blank[..|s|];
      FeedLine(cb, Settle(p), s);
    } else {
      var f, rest := fields[0], fields[1..];
      var line := f.Line();
      ShownIs(f);
      assert Lines(fields) + blank + [LF] == line + [LF] + (Lines(rest) + blank + [LF]);
      if |s| <= |line| {
        assert s == line[..|s|];
        FeedLine(cb, Settle(p), s);
      } else {
        var after := s[|line| + 1..];
        assert s == line + [LF] + after;
        FieldStep(cb, p, f);
        LineAtFront(cb, p, line, after, s);
        CutLines(cb, WithField(cb, p, f), rest, blank, after);
      }
    }
  }

  lemma CutHead(cb: Callbacks, leader: seq<Byte>, fields: seq<Field>, blank: seq<Byte>, s: seq<Byte>)
    requires OneLiner(leader) && cb.leader(TrimRight(leader)) == HeNone && Good(cb, fields) && Spaces(blank)
    requires Proper(s, Head(leader, fields, blank))
    ensures var m := Feed(cb, START, s); m.done == None && m.p.state in {Leader, Headers} && m.p.doc == []
  {
    hide Feed, LineStep, TrimRight, Good, Lines;
    StartSettled(cb);
    var lines := Lines(fields) + blank + [LF];
    assert Head(leader, fields, blank) == leader + [LF] + lines;
    if |s| <= |leader| {
      assert s == leader[..|s|];
      FeedLine(cb, START, s);
    } else {
      var line, after := TrimRight(leader), s[|leader| + 1..];
      assert s == leader + [LF] + after;
      LeaderStep(cb, line);
      LineAtFront(cb, RESET, leader, after, s);
      CutLines(cb, RESET.(state := Headers, events := [LeaderLine(line)]), fields, blank, after);
    }
  }

  /** Within a head a stream that ends is a broken connection, unless a line too long for the buffer
      ended it before, and there is no document. */
  lemma HeadEnds(r: HttpBase, e: Error, leader: seq<Byte>, fields: seq<Field>, blank: seq<Byte>)
    requires OneLiner(leader) && r.parser.cb.leader(TrimRight(leader)) == HeNone
    requires Good(r.parser.cb, fields) && Spaces(blank)
    requires Proper(r.fed, Head(leader, fields, blank)) && r.Ended(r.fed, e)
    ensures r.parser.doc == [] && e == if r.len == BUFFER_SIZE then HeOverflow else HeDisconnected
  {
    hide Feed, NeverFull, Settle, Head, Good, TrimRight;
    CutHead(r.parser.cb, leader, fields, blank, r.fed);
    EndedIs(r, r.fed, e);
    assert r.parser.View().doc == r.parser.doc;
  }

  // ----- the numbers before the chunks

  /** The sixteen digits, in either case. */
  lemma HexDigitIs(b: Byte, v: nat)
    ensures HexDigit(b) == Some(v) <==>
      v < 16 && (b == "0123456789abcdef"[v] as int || b == "0123456789ABCDEF"[v] as int)
  {}

  predicate IsHex(b: Byte) {
    HexDigit(b).Some?
  }

  predicate AllHex(s: seq<Byte>) {
    forall i :: 0 <= i < |s| ==> IsHex(s[i])
  }

  // The number the digits write to base sixteen, each digit in its place.
  ghost function HexNumber(ds: seq<Byte>): nat
    requires AllHex(ds)
  {
    if ds == [] then 0 else HexDigit(ds[0]).value * Pow16(|ds| - 1) + HexNumber(ds[1..])
  }

  // The digits ds stand in s from i on, and no digit follows.
  ghost predicate DigitsFrom(s: seq<Byte>, i: nat, ds: seq<Byte>) {
    && i + |ds| <= |s| && (forall k :: 0 <= k < |ds| ==> s[i + k] == ds[k])
    && (i + |ds| < |s| ==> !IsHex(s[i + |ds|]))
  }

  lemma {:induction false} HexRunIs(s: seq<Byte>, i: nat, ds: seq<Byte>, v: nat)
    requires DigitsFrom(s, i, ds) && AllHex(ds)
    ensures HexRun(s, i, v) == (v * Pow16(|ds|) + HexNumber(ds), i + |ds|)
    decreases |ds|
  {
    hide HexDigit, Pow16;
    if ds == [] {
      NoDigits(v, 0);
    } else {
      var d, rest := HexDigit(ds[0]).value, ds[1..];
      assert s[i + 0] == ds[0];
      assert forall k :: 0 <= k < |rest| ==> s[i + 1 + k] == rest[k] by {
        assert forall k :: 0 <= k < |rest| ==> rest[k] == ds[k + 1] == s[i + (k + 1)];
      }
      HexRunIs(s, i + 1, rest, v * 16 + d);
      Shifted(v, d, Pow16(|ds| - 1));
      Pow16Next(|ds|);
    }
  }

  lemma Pow16Next(k: nat)
    requires k > 0
    ensures Pow16(k) == 16 * Pow16(k - 1)
  {}

  predicate IsSign(s: seq<Byte>) {
    s == [] || s == [43] || s == [45]
  }

  predicate IsPrefix(s: seq<Byte>) {
    s == [] || s == [48, 120] || s == [48, 88]
  }

  // The prefix "0x", and then the digits: which of the two comes first.
  lemma PrefixSeen(prefix: seq<Byte>, ds: seq<Byte>, rest: seq<Byte>)
    requires IsPrefix(prefix) && ds != [] && AllHex(ds) && (rest == [] || !IsHex(rest[0]))
    requires prefix == [] && ds == [48] && |rest| > 1 && rest[0] in {120, 88} ==> !IsHex(rest[1])
    ensures var u := prefix + ds + rest;
      && |prefix| == (if prefix == [] then 0 else 2) && IsHex(u[0])
      && (2 < |u| && u[0] == 48 && (u[1] == 120 || u[1] == 88) && IsHex(u[2]) <==> prefix != [])
  {
    var u := prefix + ds + rest;
    if prefix == [] {
      assert u[0] == ds[0];
      if |u| > 1 { assert u[1] == if |ds| > 1 then ds[1] else rest[0]; }
      if |u| > 2 && |ds| == 1 { assert u[2] == rest[1]; }
    } else {
      assert u[2] == ds[0] && u[0] == prefix[0] && u[1] == prefix[1];
    }
  }

  // White space and a sign: where the rest begins.
  lemma SignSeen(spaces: seq<Byte>, sign: seq<Byte>, u: seq<Byte>)
    requires (forall i :: 0 <= i < |spaces| ==> IsSpace(spaces[i])) && IsSign(sign) && u != [] && IsHex(u[0])
    ensures var s, a := spaces + sign + u, |spaces|;
      var b := a + |sign|;
      && SkipSpaces(s, 0) == a && |s| == b + |u| && |sign| == (if sign == [] then 0 else 1)
      && s[b] == u[0] && (|u| > 1 ==> s[b + 1] == u[1]) && (|u| > 2 ==> s[b + 2] == u[2])
      && (s[a] == 43 || s[a] == 45 <==> sign != []) && (s[a] == 45 <==> sign == [45])
  {
    hide SkipSpaces;
    var s, a := spaces + sign + u, |spaces|;
    forall i | 0 <= i < a
      ensures IsSpace(s[i])
    {
      assert s[i] == spaces[i];
    }
    assert s[a..] == sign + u;
    assert s[a] == if sign == [] then u[0] else sign[0];
    SkipsTo(s, 0, a);
  }

  lemma NumberPlace(front: seq<Byte>, ds: seq<Byte>, rest: seq<Byte>)
    requires rest == [] || !IsHex(rest[0])
    ensures DigitsFrom(front + ds + rest, |front|, ds)
  {}

  // Behind white space the sign ends at b, and behind it the prefix at c.
  ghost predicate DigitsAt(s: seq<Byte>, minus: bool, b: nat, c: nat) {
    var a := SkipSpaces(s, 0);
    && a < |s| && b == (if s[a] == 43 || s[a] == 45 then a + 1 else a) && minus == (s[a] == 45)
    && c == if b + 2 < |s| && s[b] == 48 && (s[b + 1] == 120 || s[b + 1] == 88) && IsHex(s[b + 2]) then b + 2 else b
  }

  lemma DigitsBegin(spaces: seq<Byte>, sign: seq<Byte>, prefix: seq<Byte>, ds: seq<Byte>, rest: seq<Byte>)
    requires (forall i :: 0 <= i < |spaces| ==> IsSpace(spaces[i])) && IsSign(sign) && IsPrefix(prefix)
    requires ds != [] && AllHex(ds) && (rest == [] || !IsHex(rest[0]))
    requires prefix == [] && ds == [48] && |rest| > 1 && rest[0] in {120, 88} ==> !IsHex(rest[1])
    ensures var b := |spaces| + |sign|;
      DigitsAt(spaces + sign + (prefix + ds + rest), sign == [45], b, b + |prefix|)
  {
    hide SkipSpaces, IsHex, AllHex, IsSign, IsPrefix, IsSpace;
    PrefixSeen(prefix, ds, rest);
    SignSeen(spaces, sign, prefix + ds + rest);
  }

  // The reading from where the digits begin.
  lemma NumberFrom(s: seq<Byte>, minus: bool, b: nat, c: nat, e: nat, v: nat)
    requires b <= c < e <= |s| && HexRun(s, c, 0) == (v, e) && DigitsAt(s, minus, b, c)
    ensures StrToUl16(s) == (if v >= 0x1_0000_0000_0000_0000 then 0xFFFF_FFFF_FFFF_FFFF
                             else if minus && v > 0 then 0x1_0000_0000_0000_0000 - v else v, e)
  {
    hide HexRun, SkipSpaces, HexDigit;
  }

  /** White space, a sign and the prefix are optional; a number too large gives the largest; a minus
      sign negates any other, modulo 2^64; and the reading stops behind the digits. */
  lemma NumberRead(spaces: seq<Byte>, sign: seq<Byte>, prefix: seq<Byte>, ds: seq<Byte>, rest: seq<Byte>)
    requires (forall i :: 0 <= i < |spaces| ==> IsSpace(spaces[i])) && IsSign(sign) && IsPrefix(prefix)
    requires ds != [] && AllHex(ds) && (rest == [] || !IsHex(rest[0]))
    requires prefix == [] && ds == [48] && |rest| > 1 && rest[0] in {120, 88} ==> !IsHex(rest[1])
    ensures var front, v := spaces + sign + prefix + ds, HexNumber(ds);
      StrToUl16(front + rest) == (if v >= 0x1_0000_0000_0000_0000 then 0xFFFF_FFFF_FFFF_FFFF
                                  else if sign == [45] && v > 0 then 0x1_0000_0000_0000_0000 - v
                                  else v, |front|)
  {
    hide *;
    var front := spaces + sign + prefix;
    assert front + ds + rest == spaces + sign + (prefix + ds + rest);
    DigitsBegin(spaces, sign, prefix, ds, rest);
    NumberPlace(front, ds, rest);
    NumberHere(front + ds + rest, sign == [45], |spaces| + |sign|, |front|, ds);
  }

  lemma DigitsFit(s: seq<Byte>, c: nat, ds: seq<Byte>)
    requires DigitsFrom(s, c, ds)
    ensures c + |ds| <= |s|
  {}

  lemma NumberHere(s: seq<Byte>, minus: bool, b: nat, c: nat, ds: seq<Byte>)
    requires b <= c && DigitsAt(s, minus, b, c) && DigitsFrom(s, c, ds) && ds != [] && AllHex(ds)
    ensures var v := HexNumber(ds);
      StrToUl16(s) == (if v >= 0x1_0000_0000_0000_0000 then 0xFFFF_FFFF_FFFF_FFFF
                       else if minus && v > 0 then 0x1_0000_0000_0000_0000 - v else v, c + |ds|)
  {
    hide *;
    HexRunIs(s, c, ds, 0);
    assert c + |ds| <= |s| by { hide *; DigitsFit(s, c, ds); }
    NumberFrom(s, minus, b, c, c + |ds|, HexNumber(ds));
  }

  /** Without a digit there is no number, and nothing is passed over. */
  lemma NoNumberRead(spaces: seq<Byte>, sign: seq<Byte>, rest: seq<Byte>)
    requires (forall i :: 0 <= i < |spaces| ==> IsSpace(spaces[i])) && IsSign(sign)
    requires rest == [] || (!IsHex(rest[0]) && (sign == [] ==> !IsSpace(rest[0]) && rest[0] != 43 && rest[0] != 45))
    ensures StrToUl16(spaces + sign + rest) == (0, 0)
  {
    hide SkipSpaces;
    var s, a := spaces + sign + rest, |spaces|;
    forall i | 0 <= i < a
      ensures IsSpace(s[i])
    {
      assert s[i] == spaces[i];
    }
    if a < |s| { assert s[a] == (sign + rest)[0]; }
    if a + |sign| < |s| { assert s[a + |sign|] == rest[0]; }
    SkipsTo(s, 0, a);
  }

  // ----- chunked messages

  // A chunk as any sender may write it: the size and white space, a line feed, the data, white space
  // and a line feed.
  datatype Piece = Piece(line: seq<Byte>, trail: seq<Byte>, data: seq<Byte>, end: seq<Byte>) {
    predicate Formed() {
      && SizeIs(line, |data|) && Spaces(trail) && 0 < |data| < SIZE_UNKNOWN && Spaces(end)
    }

    function Text(): seq<Byte> {
      line + trail + [LF] + data + end + [LF]
    }
  }

  // The line is a number and nothing else.
  predicate SizeIs(line: seq<Byte>, n: nat) {
    line != [] && OneLiner(line) && !IsSpace(line[|line| - 1]) && StrToUl16(line) == (n, |line|)
  }

  function Pieces(ps: seq<Piece>): seq<Byte> {
    if ps == [] then [] else ps[0].Text() + Pieces(ps[1..])
  }

  function Document(ps: seq<Piece>): seq<Byte> {
    if ps == [] then [] else ps[0].data + Document(ps[1..])
  }

  /** A size line that is no number, or not from its first character to its last, is refused. */
  lemma SizeRefused(cb: Callbacks, p: Parser, line: seq<Byte>, trail: seq<Byte>, tail: seq<Byte>)
    requires AtChunk(p) && OneLiner(line) && Spaces(trail) && (line == [] || !IsSpace(line[|line| - 1]))
    requires line == [] || StrToUl16(line).1 != |line|
    ensures var m := Feed(cb, Settle(p), line + trail + [LF] + tail);
      m.done == Some(HeProtocol) && m.rest == tail && m.p.doc == p.doc
  {
    hide Feed, StrToUl16;
    SizeLineRead(cb, p, line, trail, tail);
  }

  lemma PieceRead(cb: Callbacks, p: Parser, c: Piece, after: seq<Byte>)
    requires AtChunk(p) && c.Formed()
    ensures Feed(cb, Settle(p), c.Text() + after) == Feed(cb, Settle(p.(size := 0, doc := p.doc + c.data)), after)
  {
    hide Feed, StrToUl16, TrimRight;
    var rest := c.end + [LF] + after;
    assert c.Text() + after == c.line + c.trail + [LF] + (c.data + rest);
    SizeLineRead(cb, p, c.line, c.trail, c.data + rest);
    var q := p.(size := |c.data|, state := Data);
    BodyAtFront(cb, q, c.data, rest, c.data + rest);
    var r := p.(size := 0, doc := p.doc + c.data, state := ChunkTerm);
    assert Settle(TakeBytes(q, c.data)) == Settle(r);
    TrimSpaces([], c.end);
    assert [] + c.end == c.end;
    assert TrimRight([]) == [] by { hide *; NothingTrimmed(); }
    LineAtFront(cb, r, c.end, after, rest);
  }

  lemma {:induction false} PiecesRead(cb: Callbacks, p: Parser, ps: seq<Piece>, after: seq<Byte>)
    requires AtChunk(p) && forall i :: 0 <= i < |ps| ==> ps[i].Formed()
    ensures Feed(cb, Settle(p), Pieces(ps) + after)
         == Feed(cb, Settle(p.(size := if ps == [] then p.size else 0, doc := p.doc + Document(ps))), after)
    decreases |ps|
  {
    hide Feed, Settle, Piece.Text, Piece.Formed;
    if ps == [] {
      assert Pieces(ps) + after == after && p.doc + [] == p.doc;
    } else {
      assert Pieces(ps) + after == ps[0].Text() + (Pieces(ps[1..]) + after);
      PieceRead(cb, p, ps[0], Pieces(ps[1..]) + after);
      PiecesRead(cb, p.(size := 0, doc := p.doc + ps[0].data), ps[1..], after);
      assert p.doc + ps[0].data + Document(ps[1..]) == p.doc + Document(ps);
    }
  }

  // The pieces, a size of zero, trailers, and a blank line.
  function ChunkedBody(ps: seq<Piece>, zero: seq<Byte>, trail: seq<Byte>,
                       trailers: seq<seq<Byte>>, blank: seq<Byte>): seq<Byte> {
    Pieces(ps) + (zero + trail + [LF] + (TrailerLines(trailers) + blank + [LF]))
  }

  predicate Ends(zero: seq<Byte>, trail: seq<Byte>, trailers: seq<seq<Byte>>, blank: seq<Byte>) {
    && SizeIs(zero, 0) && Spaces(trail) && Spaces(blank)
    && forall i :: 0 <= i < |trailers| ==> OneLiner(trailers[i]) && !Spaces(trailers[i])
  }

  /** A chunked message as any sender may write it: the document is the data of its chunks in order,
      the message is complete at the blank line after the trailers, and the rest is left over. */
  lemma ChunkedMessage(cb: Callbacks, head: seq<Byte>, ps: seq<Piece>, zero: seq<Byte>, trail: seq<Byte>,
                       trailers: seq<seq<Byte>>, blank: seq<Byte>, tail: seq<Byte>)
    requires Announces(cb, head) && (forall i :: 0 <= i < |ps| ==> ps[i].Formed()) && Ends(zero, trail, trailers, blank)
    ensures var m := Feed(cb, START, head + ChunkedBody(ps, zero, trail, trailers, blank) + tail);
      m.done == Some(HeNone) && m.p.doc == Document(ps) && m.rest == tail
  {
    hide Feed, Settle, StrToUl16, Pieces, Document, TrailerLines, Piece.Formed;
    var p := Feed(cb, START, head).p;
    var last := TrailerLines(trailers) + blank + [LF] + tail;
    var after := zero + trail + [LF] + last;
    assert head + ChunkedBody(ps, zero, trail, trailers, blank) + tail == head + (Pieces(ps) + after);
    FeedJoin(cb, START, head, Pieces(ps) + after);
    PiecesRead(cb, p, ps, after);
    var q := p.(size := if ps == [] then p.size else 0, doc := p.doc + Document(ps));
    SizeLineRead(cb, q, zero, trail, last);
    TrailersPassed(cb, q.(size := 0, state := Trailers), trailers, blank, tail);
    assert [] + Document(ps) == Document(ps);
  }

  /** So does a receiver of such a message, in whatever pieces it comes. */
  lemma ChunksArrive(r: HttpBase, e: Error, head: seq<Byte>, ps: seq<Piece>, zero: seq<Byte>, trail: seq<Byte>,
                     trailers: seq<seq<Byte>>, blank: seq<Byte>, tail: seq<Byte>)
    requires Announces(r.parser.cb, head)
    requires (forall i :: 0 <= i < |ps| ==> ps[i].Formed()) && Ends(zero, trail, trailers, blank)
    requires r.fed == head + ChunkedBody(ps, zero, trail, trailers, blank) + tail && (r.Settled() || r.Done(e))
    ensures r.Done(HeNone) && (r.Done(e) ==> e == HeNone)
    ensures r.parser.doc == Document(ps) && r.buffer[..r.len] == tail
  {
    hide Feed, NeverFull, Settle, ChunkedBody, Announces, Ends, Piece.Formed, Document;
    var cb := r.parser.cb;
    ChunkedMessage(cb, head, ps, zero, trail, trailers, blank, tail);
    if r.Settled() {
      KeptIsFed(r);
      WaitingIs(cb, r.parser.View(), r.buffer[..r.len]);
    }
    assert r.parser.View().doc == r.parser.doc;
  }
}
