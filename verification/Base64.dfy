// Base64 as in WebRtc_AMP_Port/webrtc/base/base64.cc (sections 3.5 and 4 of RFC 4648).
// Shifts and masks of bytes appear as quotients and remainders by powers of two.
module Base64 {

  import Arith
  import opened Bytes

  const PAD: Byte := 61

  type Sextet = x: int | 0 <= x < 64

  // ---- the two tables ----

  datatype Class = Digit(value: Sextet) | Padding | Space | Illegal

  /** DecodeTable. */
  function Classify(b: Byte): Class {
    if 65 <= b <= 90 then Digit(b - 65)
    else if 97 <= b <= 122 then Digit(b - 97 + 26)
    else if 48 <= b <= 57 then Digit(b - 48 + 52)
    else if b == 43 then Digit(62)
    else if b == 47 then Digit(63)
    else if b == PAD then Padding
    else if 9 <= b <= 13 || b == 32 then Space
    else Illegal
  }

  /** Base64Table. */
  function Letter(x: Sextet): Byte {
    if x < 26 then x + 65
    else if x < 52 then x - 26 + 97
    else if x < 62 then x - 52 + 48
    else if x == 62 then 43
    else 47
  }

  lemma TablesAgree(b: Byte, x: Sextet)
    ensures Classify(b) == Digit(x) <==> Letter(x) == b
  {}

  /** The alphabet, in the order of the values. */
  lemma Alphabet(x: Sextet)
    ensures Letter(x) == ("ABCDEFGHIJKLMNOPQRSTUVWXYZ" + "abcdefghijklmnopqrstuvwxyz" + "0123456789+/")[x] as int
  {
    if x < 26 {
      Upper(x);
    } else if x < 52 {
      Small(x);
    }
  }

  lemma Upper(x: Sextet)
    requires x < 26
    ensures Letter(x) == "ABCDEFGHIJKLMNOPQRSTUVWXYZ"[x] as int
  {}

  lemma Small(x: Sextet)
    requires 26 <= x < 52
    ensures Letter(x) == "abcdefghijklmnopqrstuvwxyz"[x - 26] as int
  {}

  /** The other characters: one for padding, those of the C locale for white space, the rest illegal. */
  lemma OtherClasses(b: Byte)
    ensures Classify(b) == Padding <==> b == '=' as int
    ensures Classify(b) == Space <==> b in {9, 10, 11, 12, 13, 32}
  {}

  // ---- encoding ----

  function Letters(q: seq<Sextet>): (r: seq<Byte>)
    ensures |r| == |q|
  {
    seq(|q|, i requires 0 <= i < |q| => Letter(q[i]))
  }

  // The pieces of bytes that go into letters, each already in its place in the sextet.
  function Top6(b: Byte): (x: int) ensures 0 <= x < 64 { b / 4 }
  function Low2(b: Byte): (x: int) ensures 0 <= x <= 48 { b % 4 * 16 }
  function Top4(b: Byte): (x: int) ensures 0 <= x <= 15 { b / 16 }
  function Low4(b: Byte): (x: int) ensures 0 <= x <= 60 { b % 16 * 4 }
  function Top2(b: Byte): (x: int) ensures 0 <= x <= 3 { b / 64 }
  function Low6(b: Byte): (x: int) ensures 0 <= x < 64 { b % 64 }

  function Quad(a: Byte, b: Byte, c: Byte): (q: seq<Sextet>)
    ensures |q| == 4
  {
    [Top6(a), Low2(a) + Top4(b), Low4(b) + Top2(c), Low6(c)]
  }

  /** The four values are the digits to base 64 of the number the three bytes write to base 256. */
  lemma SameNumber(a: Byte, b: Byte, c: Byte)
    ensures var q: seq<int> := Quad(a, b, c);
      ((q[0] * 64 + q[1]) * 64 + q[2]) * 64 + q[3] == (a * 256 + b) * 256 + c
  {
    assert a == 4 * (a / 4) + a % 4 && b == 16 * (b / 16) + b % 16 && c == 64 * (c / 64) + c % 64;
  }

  function Pads(n: nat): (r: seq<Byte>)
    ensures |r| == n
  {
    seq(n, i => PAD)
  }

  /** The four characters for the first one, two or three bytes. */
  function Group(data: seq<Byte>): (r: seq<Byte>)
    requires |data| > 0
    ensures |r| == 4
  {
    if |data| == 1 then Letters(Quad(data[0], 0, 0)[..2]) + Pads(2)
    else if |data| == 2 then Letters(Quad(data[0], data[1], 0)[..3]) + Pads(1)
    else Letters(Quad(data[0], data[1], data[2]))
  }

  /** Three bytes to four letters; one or two bytes left over make two or three letters and padding. */
  function Encoded(data: seq<Byte>): (r: seq<Byte>)
    ensures |r| == 4 * Groups(|data|)
  {
    if |data| == 0 then []
    else if |data| <= 3 then Group(data)
    else GroupsNext(|data|); Group(data) + Encoded(data[3..])
  }

  function Groups(n: nat): nat {
    (n + 2) / 3
  }

  lemma GroupsNext(n: nat)
    requires n >= 3
    ensures Groups(n) == 1 + Groups(n - 3)
  {}

  method EncodeFromArray(data: seq<Byte>) returns (result: array<Byte>)
    ensures result[..] == Encoded(data) && fresh(result)
  {
    hide Top6, Low2, Top4, Low4, Top2, Low6, Letter, Group, Encoded, Groups;
    NothingEncoded();
    result := new Byte[4 * Groups(|data|)](_ => 0);
    var i, d := 0, 0;
    assert data[0..] == data;
    while i < |data|
      invariant 0 <= i <= |data| && 0 <= d <= result.Length
      invariant Encoded(data) == result[..d] + Encoded(data[i..])
    {
      ghost var rest, done := data[i..], result[..d];
      EncodedStep(data, i);
      i := EncodeGroup(data, i, result, d);
      assert result[..d + 4] == done + Group(rest);
      d := d + 4;
    }
  }

  lemma NothingEncoded()
    ensures Encoded([]) == []
  {}

  lemma EncodedStep(data: seq<Byte>, i: nat)
    requires i < |data|
    ensures Encoded(data[i..]) == Group(data[i..]) + Encoded(data[if i + 3 <= |data| then i + 3 else |data|..])
  {
    hide Group;
    if i + 3 < |data| {
      assert data[i..][3..] == data[i + 3..];
    }
  }

  // One turn of the encoding loop.
  method EncodeGroup(data: seq<Byte>, start: nat, result: array<Byte>, at: nat) returns (i: nat)
    requires start < |data| && at + 4 <= result.Length
    modifies result
    ensures i == if start + 3 <= |data| then start + 3 else |data|
    ensures result[..at] == old(result[..at]) && result[at..at + 4] == Group(data[start..])
  {
    hide Top6, Low2, Top4, Low4, Top2, Low6, Letter;
    i := start;
    ghost var second, third := if i + 1 < |data| then data[i + 1] else 0, if i + 2 < |data| then data[i + 2] else 0;
    ghost var q: seq<Sextet> := Quad(data[i], second, third);
    if i + 1 == |data| || i + 2 == |data| { ZeroPieces(); }
    var d := at;
    result[d] := Letter(Top6(data[i]));
    d := d + 1;
    var c := Low2(data[i]);
    i := i + 1;
    if i < |data| {
      c := c + Top4(data[i]);
    }
    result[d] := Letter(c);
    d := d + 1;
    if i < |data| {
      c := Low4(data[i]);
      i := i + 1;
      if i < |data| {
        c := c + Top2(data[i]);
      }
      result[d] := Letter(c);
    } else {
      result[d] := PAD;
    }
    d := d + 1;
    if i < |data| {
      result[d] := Letter(Low6(data[i]));
      i := i + 1;
    } else {
      result[d] := PAD;
    }
  }

  lemma ZeroPieces()
    ensures Top4(0) == 0 && Top2(0) == 0
  {}

  // ---- decoding: flags ----

  datatype Parse = ParseStrict | ParseWhite | ParseAny
  datatype Padded = PadYes | PadAny | PadNo
  datatype Term = TermBuffer | TermChar | TermAny
  datatype Flags = Flags(parse: Parse, pad: Padded, term: Term)

  const STRICT := Flags(ParseStrict, PadYes, TermBuffer)

  // ---- decoding: up to four letters ----

  /** The loop of GetNextQuantum: where it reads, the letters taken, and the padding after them. */
  datatype Scan = Scan(pos: nat, letters: seq<Sextet>, pads: nat, padStart: nat, stopped: bool)

  function Look(flags: Flags, s: Scan, b: Byte): (r: Scan)
    requires !s.stopped
    ensures r.stopped ==> r == s.(stopped := true)
    ensures !r.stopped ==> r.pos == s.pos + 1
    ensures flags.parse.ParseAny? ==> !r.stopped
  {
    var any := flags.parse.ParseAny?;
    var on, stop := s.(pos := s.pos + 1), s.(stopped := true);
    match Classify(b)
    case Illegal => if any then on else stop
    case Space => if flags.parse.ParseStrict? then stop else on
    case Padding =>
      if flags.pad.PadNo? || |s.letters| < 2 || |s.letters| + s.pads >= 4 then (if any then on else stop)
      else on.(pads := s.pads + 1, padStart := if s.pads == 0 then s.pos else s.padStart)
    case Digit(x) =>
      if s.pads > 0 && !any then stop
      else on.(letters := s.letters + [x], pads := 0)
  }

  function ScanOn(flags: Flags, data: seq<Byte>, s: Scan): (r: Scan)
    requires s.pos <= |data|
    ensures s.pos <= r.pos <= |data|
    decreases |data| - s.pos, !s.stopped
  {
    if |s.letters| < 4 && s.pos < |data| && !s.stopped then ScanOn(flags, data, Look(flags, s, data[s.pos])) else s
  }

  function Start(pos: nat): Scan {
    Scan(pos, [], 0, 0, false)
  }

  /** What one call hands back: the letters, whether they and the padding make four, and where to go on. */
  datatype Quantum = Quantum(letters: seq<Sextet>, padded: bool, pos: nat)

  function Finish(s: Scan): Quantum {
    var padded := |s.letters| + s.pads == 4;
    Quantum(s.letters, padded, if !padded && s.pads > 0 then s.padStart else s.pos)
  }

  function NextQuantum(flags: Flags, data: seq<Byte>, pos: nat): Quantum
    requires pos <= |data|
  {
    Finish(ScanOn(flags, data, Start(pos)))
  }

  // ---- the letters alone ----

  function Sextets(data: seq<Byte>): seq<Sextet>
    decreases |data|
  {
    if data == [] then []
    else
      var rest := Sextets(data[..|data| - 1]);
      var c := Classify(data[|data| - 1]);
      if c.Digit? then rest + [c.value] else rest
  }

  lemma SextetsNext(data: seq<Byte>, i: nat, j: nat)
    requires i <= j < |data|
    ensures var c := Classify(data[j]);
      Sextets(data[i..j + 1]) == Sextets(data[i..j]) + if c.Digit? then [c.value] else []
  {
    assert data[i..j + 1][..j - i] == data[i..j];
  }

  lemma {:induction false} SextetsJoin(x: seq<Byte>, y: seq<Byte>)
    ensures Sextets(x + y) == Sextets(x) + Sextets(y)
    decreases |y|
  {
    if y == [] {
      assert x + y == x;
    } else {
      var z := y[..|y| - 1];
      assert (x + y)[..|x + y| - 1] == x + z;
      SextetsJoin(x, z);
    }
  }

  // A scan under way: the letters are those read, with no letter after the first pad.
  ghost predicate Faithful(data: seq<Byte>, start: nat, s: Scan) {
    && start <= s.pos <= |data| && |s.letters| <= 4
    && s.letters == Sextets(data[start..s.pos])
    && (s.pads > 0 ==> start <= s.padStart <= s.pos && Sextets(data[s.padStart..s.pos]) == [])
    && (|s.letters| < 2 ==> s.pads == 0) && |s.letters| + s.pads <= 4
  }

  lemma LookFaithful(flags: Flags, data: seq<Byte>, start: nat, s: Scan)
    requires Faithful(data, start, s) && |s.letters| < 4 && s.pos < |data| && !s.stopped
    ensures Faithful(data, start, Look(flags, s, data[s.pos]))
  {
    SextetsNext(data, start, s.pos);
    if s.pads > 0 {
      SextetsNext(data, s.padStart, s.pos);
    } else {
      SextetsNext(data, s.pos, s.pos);
    }
  }

  lemma {:induction false} ScanFaithful(flags: Flags, data: seq<Byte>, start: nat, s: Scan)
    requires Faithful(data, start, s)
    ensures Faithful(data, start, ScanOn(flags, data, s))
    ensures flags.parse.ParseAny? && !s.stopped ==>
      var r := ScanOn(flags, data, s); |r.letters| == 4 || r.pos == |data|
    ensures var r := ScanOn(flags, data, s); |r.letters| == 4 || r.pos == |data| || r.stopped
    decreases |data| - s.pos, !s.stopped
  {
    hide Faithful, Look;
    if |s.letters| < 4 && s.pos < |data| && !s.stopped {
      LookFaithful(flags, data, start, s);
      ScanFaithful(flags, data, start, Look(flags, s, data[s.pos]));
    } else {
      assert |s.letters| <= 4 by { hide *; FourAtMost(data, start, s); }
    }
  }

  lemma FourAtMost(data: seq<Byte>, start: nat, s: Scan)
    requires Faithful(data, start, s)
    ensures |s.letters| <= 4
  {}

  /** Whatever the flags, the letters handed back are the base64 letters among the characters passed over. */
  lemma QuantumLetters(flags: Flags, data: seq<Byte>, pos: nat)
    requires pos <= |data|
    ensures var q := NextQuantum(flags, data, pos);
      && pos <= q.pos <= |data| && |q.letters| <= 4 && q.letters == Sextets(data[pos..q.pos])
      && (|q.letters| == 4 ==> q.pos >= pos + 4)
      && (flags.parse.ParseAny? && |q.letters| < 4 ==> Sextets(data[q.pos..]) == [])
  {
    hide ScanOn, Sextets;
    assert data[pos..pos] == [] && data[|data|..] == [];
    NoSextets();
    ScanFaithful(flags, data, pos, Start(pos));
    var s := ScanOn(flags, data, Start(pos));
    var q := Finish(s);
    SextetsLength(data[pos..s.pos]);
    if q.pos != s.pos {
      SextetsSplit(data, pos, s.padStart, s.pos);
      SextetsSplit(data, s.padStart, s.pos, |data|);
    }
    assert data[q.pos..] == data[q.pos..|data|];
  }

  lemma NoSextets()
    ensures Sextets([]) == []
  {}

  lemma SextetsSplit(data: seq<Byte>, i: nat, j: nat, k: nat)
    requires i <= j <= k <= |data|
    ensures Sextets(data[i..k]) == Sextets(data[i..j]) + Sextets(data[j..k])
  {
    hide Sextets;
    assert data[i..k] == data[i..j] + data[j..k];
    SextetsJoin(data[i..j], data[j..k]);
  }

  lemma {:induction false} SextetsLength(data: seq<Byte>)
    ensures |Sextets(data)| <= |data|
    decreases |data|
  {
    if data != [] { SextetsLength(data[..|data| - 1]); }
  }

  method GetNextQuantum(flags: Flags, data: seq<Byte>, pos: nat) returns (q: Quantum)
    requires pos <= |data|
    ensures q == NextQuantum(flags, data, pos)
  {
    var letters: seq<Sextet>, pads: nat, padStart: nat, at: nat := [], 0, 0, pos;
    var any := flags.parse.ParseAny?;
    while |letters| < 4 && at < |data|
      invariant at <= |data|
      invariant ScanOn(flags, data, Scan(at, letters, pads, padStart, false)) == ScanOn(flags, data, Start(pos))
    {
      var c := Classify(data[at]);
      if c.Illegal? || (flags.pad.PadNo? && c.Padding?) {
        if !any { break; }
      } else if c.Space? {
        if flags.parse.ParseStrict? { break; }
      } else if c.Padding? {
        if |letters| < 2 {
          if !any { break; }
        } else if |letters| + pads >= 4 {
          if !any { break; }
        } else {
          pads := pads + 1;
          if pads == 1 { padStart := at; }
        }
      } else {
        if pads > 0 {
          if !any { break; }
          pads := 0;
        }
        letters := letters + [c.value];
      }
      at := at + 1;
    }
    assert Finish(Scan(at, letters, pads, padStart, false)) == Finish(ScanOn(flags, data, Start(pos)));
    if |letters| + pads == 4 {
      q := Quantum(letters, true, at);
    } else {
      if pads > 0 { at := padStart; }
      q := Quantum(letters, false, at);
    }
  }

  // ---- decoding: letters to bytes ----

  // The three bytes of four letters.
  function Byte0(a: Sextet, b: Sextet): (r: Byte) { a * 4 + b / 16 }
  function Byte1(b: Sextet, c: Sextet): (r: Byte) { b % 16 * 16 + c / 4 }
  function Byte2(c: Sextet, d: Sextet): (r: Byte) { c % 4 * 64 + d }

  // The bytes a group of up to four letters holds in full.
  function GroupBytes(q: seq<Sextet>): (r: seq<Byte>)
    requires |q| <= 4
  {
    (if |q| >= 2 then [Byte0(q[0], q[1])] else [])
    + (if |q| >= 3 then [Byte1(q[1], q[2])] else [])
    + (if |q| >= 4 then [Byte2(q[2], q[3])] else [])
  }

  // The bits of a short group that no byte takes, as the source leaves them in its last byte.
  function Unused(q: seq<Sextet>): Byte
    requires |q| <= 4
  {
    match |q| case 1 => Byte0(q[0], 0) case 2 => Byte1(q[1], 0) case 3 => Byte2(q[2], 0) case _ => 0
  }

  /** The bytes a string of letters stands for, in groups of four. */
  function BytesOf(q: seq<Sextet>): seq<Byte> {
    if |q| < 4 then GroupBytes(q) else GroupBytes(q[..4]) + BytesOf(q[4..])
  }

  datatype Decoding = Decoding(success: bool, bytes: seq<Byte>, used: nat)

  function DecodeFrom(flags: Flags, data: seq<Byte>, pos: nat): (r: Decoding)
    requires pos <= |data|
    decreases |data| - pos
  {
    if pos == |data| then Decoding(true, [], pos)
    else
      QuantumLetters(flags, data, pos);
      var q := NextQuantum(flags, data, pos);
      if |q.letters| == 4 then
        var rest := DecodeFrom(flags, data, q.pos);
        Decoding(rest.success, GroupBytes(q.letters) + rest.bytes, rest.used)
      else
        var ok := (flags.term.TermAny? || Unused(q.letters) == 0) && (!flags.pad.PadYes? || q.padded)
          && (!flags.term.TermBuffer? || q.pos == |data|);
        Decoding(ok, GroupBytes(q.letters), q.pos)
  }

  function Decoded(flags: Flags, data: seq<Byte>): Decoding {
    DecodeFrom(flags, data, 0)
  }

  method DecodeFromArray(data: seq<Byte>, flags: Flags) returns (success: bool, result: seq<Byte>, used: nat)
    ensures Decoding(success, result, used) == Decoded(flags, data)
  {
    hide NextQuantum, GroupBytes, Unused;
    success, result := true, [];
    var pos: nat := 0;
    while pos < |data|
      invariant pos <= |data| && success
      invariant var rest := DecodeFrom(flags, data, pos);
        Decoded(flags, data) == Decoding(rest.success, result + rest.bytes, rest.used)
      decreases |data| - pos
    {
      QuantumLetters(flags, data, pos);
      var q := GetNextQuantum(flags, data, pos);
      pos := q.pos;
      var bytes, c := TakeBytes(q.letters);
      result := result + bytes;
      if |q.letters| < 4 {
        if !flags.term.TermAny? && c != 0 {
          success := false;
        }
        if flags.pad.PadYes? && !q.padded {
          success := false;
        }
        break;
      }
    }
    if flags.term.TermBuffer? && pos != |data| {
      success := false;
    }
    used := pos;
  }

  // The bytes of one group, and what is left in the last one.
  method TakeBytes(letters: seq<Sextet>) returns (result: seq<Byte>, c: Byte)
    requires |letters| <= 4
    ensures result == GroupBytes(letters) && c == Unused(letters)
  {
    hide Byte0, Byte1, Byte2;
    ZeroByte();
    var qbuf := letters + seq(4 - |letters|, i => 0);
    result := [];
    c := Byte0(qbuf[0], qbuf[1]);
    if |letters| >= 2 {
      result := result + [c];
      c := Byte1(qbuf[1], qbuf[2]);
      if |letters| >= 3 {
        result := result + [c];
        c := Byte2(qbuf[2], qbuf[3]);
        if |letters| >= 4 {
          result := result + [c];
          c := 0;
        }
      }
    }
  }

  lemma ZeroByte()
    ensures Byte0(0, 0) == 0
  {}

  // ---- what decoding means, whatever the flags ----

  /** The bytes decoded are those of the base64 letters among the characters used. */
  lemma {:induction false} UsedLetters(flags: Flags, data: seq<Byte>, pos: nat)
    requires pos <= |data|
    ensures var r := DecodeFrom(flags, data, pos);
      pos <= r.used <= |data| && r.bytes == BytesOf(Sextets(data[pos..r.used]))
    ensures flags.parse.ParseAny? ==> Sextets(data[DecodeFrom(flags, data, pos).used..]) == []
    decreases |data| - pos
  {
    hide NextQuantum, GroupBytes, Unused, Sextets;
    if pos == |data| {
      assert data[pos..pos] == [] && data[pos..] == [];
      NoLetters();
    } else {
      QuantumLetters(flags, data, pos);
      var q := NextQuantum(flags, data, pos);
      if |q.letters| == 4 {
        UsedLetters(flags, data, q.pos);
        var r := DecodeFrom(flags, data, pos);
        assert data[pos..r.used] == data[pos..q.pos] + data[q.pos..r.used];
        SextetsJoin(data[pos..q.pos], data[q.pos..r.used]);
        BytesNext(q.letters, Sextets(data[q.pos..r.used]));
      }
    }
  }

  lemma NoLetters()
    ensures Sextets([]) == [] && BytesOf([]) == []
  {}

  lemma BytesNext(q: seq<Sextet>, rest: seq<Sextet>)
    requires |q| == 4
    ensures BytesOf(q + rest) == GroupBytes(q) + BytesOf(rest)
  {
    hide GroupBytes;
    assert (q + rest)[..4] == q && (q + rest)[4..] == rest;
  }

  /** Parsing any character: the bytes depend only on the base64 letters of the text, in order. */
  lemma AnyIgnoresTheRest(flags: Flags, data: seq<Byte>)
    requires flags.parse.ParseAny?
    ensures Decoded(flags, data).bytes == BytesOf(Sextets(data))
  {
    hide DecodeFrom, BytesOf, Sextets;
    UsedLetters(flags, data, 0);
    var u := Decoded(flags, data).used;
    assert data == data[..u] + data[u..] && data[0..u] == data[..u];
    SextetsJoin(data[..u], data[u..]);
    assert Sextets(data[..u]) + [] == Sextets(data[..u]);
  }

  // ---- decoding what was encoded ----

  lemma FirstBack(a: Byte, b: Byte)
    ensures Byte0(Top6(a), Low2(a) + Top4(b)) == a
  {
    Arith.ModUnique(Low2(a) + Top4(b), 16, a % 4, b / 16);
    assert a == 4 * (a / 4) + a % 4;
  }

  lemma SecondBack(a: Byte, b: Byte, c: Byte)
    ensures Byte1(Low2(a) + Top4(b), Low4(b) + Top2(c)) == b
  {
    Arith.ModUnique(Low2(a) + Top4(b), 16, a % 4, b / 16);
    Arith.ModUnique(Low4(b) + Top2(c), 4, b % 16, c / 64);
    assert b == 16 * (b / 16) + b % 16;
  }

  lemma ThirdBack(b: Byte, c: Byte)
    ensures Byte2(Low4(b) + Top2(c), Low6(c)) == c
  {
    Arith.ModUnique(Low4(b) + Top2(c), 4, b % 16, c / 64);
    assert c == 64 * (c / 64) + c % 64;
  }

  lemma Bits01(a: Sextet, b: Sextet, c: Sextet)
    ensures Top6(Byte0(a, b)) == a && Low2(Byte0(a, b)) + Top4(Byte1(b, c)) == b
  {
    assert Byte0(a, b) % 4 == b / 16;
    assert Byte1(b, c) / 16 == b % 16;
  }

  lemma Bits23(b: Sextet, c: Sextet, d: Sextet)
    ensures Low4(Byte1(b, c)) + Top2(Byte2(c, d)) == c && Low6(Byte2(c, d)) == d
  {
    assert Byte1(b, c) % 16 == c / 4;
    assert Byte2(c, d) / 64 == c % 4;
  }

  lemma SextetsBack(a: Sextet, b: Sextet, c: Sextet, d: Sextet)
    ensures Quad(Byte0(a, b), Byte1(b, c), Byte2(c, d)) == [a, b, c, d]
  {
    hide Top6, Low2, Top4, Low4, Top2, Low6, Byte0, Byte1, Byte2;
    Bits01(a, b, c);
    Bits23(b, c, d);
  }

  lemma ScanStep(flags: Flags, data: seq<Byte>, s: Scan)
    requires s.pos < |data| && |s.letters| < 4 && !s.stopped
    ensures ScanOn(flags, data, s) == ScanOn(flags, data, Look(flags, s, data[s.pos]))
  {}

  lemma ScanEnds(flags: Flags, data: seq<Byte>, s: Scan)
    requires s.pos <= |data| && (|s.letters| == 4 || s.pos == |data|)
    ensures ScanOn(flags, data, s) == s
  {}

  // Reading a letter that belongs to the group.
  lemma LookLetter(flags: Flags, data: seq<Byte>, s: Scan, x: Sextet)
    requires s.pos < |data| && data[s.pos] == Letter(x) && |s.letters| < 4 && s.pads == 0 && !s.stopped
    ensures ScanOn(flags, data, s) == ScanOn(flags, data, s.(pos := s.pos + 1, letters := s.letters + [x]))
  {
    hide Classify, Letter, ScanOn;
    TablesAgree(data[s.pos], x);
    ScanStep(flags, data, s);
  }

  lemma LookPad(flags: Flags, data: seq<Byte>, s: Scan)
    requires s.pos < |data| && data[s.pos] == PAD && 2 <= |s.letters| && |s.letters| + s.pads < 4 && !s.stopped
    requires !flags.pad.PadNo?
    ensures ScanOn(flags, data, s) ==
            ScanOn(flags, data, s.(pos := s.pos + 1, pads := s.pads + 1,
                                   padStart := if s.pads == 0 then s.pos else s.padStart))
  {
    hide Classify, ScanOn;
    PadIsPadding();
    ScanStep(flags, data, s);
  }

  lemma PadIsPadding()
    ensures Classify(PAD) == Padding
  {}

  lemma {:induction false} LettersRead(flags: Flags, data: seq<Byte>, pos: nat, q: seq<Sextet>, n: nat)
    requires n <= |q| <= 4 && pos + |q| <= |data| && data[pos..pos + |q|] == Letters(q)
    ensures ScanOn(flags, data, Start(pos)) == ScanOn(flags, data, Scan(pos + n, q[..n], 0, 0, false))
    decreases n
  {
    hide Letter, Look, ScanOn;
    if n > 0 {
      LettersRead(flags, data, pos, q, n - 1);
      assert data[pos + n - 1] == data[pos..pos + |q|][n - 1];
      LookLetter(flags, data, Scan(pos + n - 1, q[..n - 1], 0, 0, false), q[n - 1]);
      assert q[..n - 1] + [q[n - 1]] == q[..n];
    } else {
      assert q[..0] == [];
    }
  }

  lemma PadsRead(flags: Flags, data: seq<Byte>, at: nat, q: seq<Sextet>)
    requires 2 <= |q| <= 4 && at <= |data|
    requires |q| == 4 || (data[at..] == Pads(4 - |q|) && !flags.pad.PadNo?)
    ensures Finish(ScanOn(flags, data, Scan(at, q, 0, 0, false))) == Quantum(q, true, at + 4 - |q|)
  {
    hide Look, ScanOn;
    var s := Scan(at, q, 0, 0, false);
    if |q| == 4 {
      ScanEnds(flags, data, s);
    } else {
      assert data[at] == data[at..][0] && (|q| == 2 ==> data[at + 1] == data[at..][1]);
      LookPad(flags, data, s);
      if |q| == 2 {
        LookPad(flags, data, Scan(at + 1, q, 1, at, false));
        ScanEnds(flags, data, Scan(at + 2, q, 2, at, false));
      } else {
        ScanEnds(flags, data, Scan(at + 1, q, 1, at, false));
      }
    }
  }

  // A group as the encoder writes it: n letters and 4 - n pads, the last when padded.
  lemma GroupRead(flags: Flags, data: seq<Byte>, pos: nat, q: seq<Sextet>)
    requires 2 <= |q| <= 4 && pos + 4 <= |data| && data[pos..pos + 4] == Letters(q) + Pads(4 - |q|)
    requires |q| == 4 || (pos + 4 == |data| && !flags.pad.PadNo?)
    ensures NextQuantum(flags, data, pos) == Quantum(q, true, pos + 4)
  {
    hide Letter, ScanOn, Finish;
    var g, n := data[pos..pos + 4], |q|;
    assert data[pos..pos + n] == g[..n] == Letters(q);
    if n < 4 {
      assert data[pos + n..] == g[n..] == Pads(4 - n);
    }
    LettersRead(flags, data, pos, q, n);
    assert q[..n] == q;
    PadsRead(flags, data, pos + n, q);
  }

  // The letters of the first group.
  function GroupLetters(x: seq<Byte>): (q: seq<Sextet>)
    requires |x| > 0
    ensures |q| == if |x| < 3 then |x| + 1 else 4
  {
    if |x| == 1 then Quad(x[0], 0, 0)[..2]
    else if |x| == 2 then Quad(x[0], x[1], 0)[..3]
    else Quad(x[0], x[1], x[2])
  }

  lemma GroupOf(x: seq<Byte>)
    requires |x| > 0
    ensures Group(x) == Letters(GroupLetters(x)) + Pads(4 - |GroupLetters(x)|)
    ensures GroupBytes(GroupLetters(x)) == x[..if |x| < 3 then |x| else 3]
    ensures |x| < 3 ==> Unused(GroupLetters(x)) == 0
  {
    hide Top6, Low2, Top4, Low4, Top2, Low6, Byte0, Byte1, Byte2;
    var b, c := if |x| >= 2 then x[1] else 0, if |x| >= 3 then x[2] else 0;
    FirstBack(x[0], b);
    SecondBack(x[0], b, c);
    ThirdBack(b, c);
    NothingLeft(x[0]);
    NothingLeft(b);
    ZeroPieces();
  }

  lemma NothingLeft(b: Byte)
    ensures Byte1(Low2(b), 0) == 0 && Byte2(Low4(b), 0) == 0
  {
    WholeMultiple(b % 4, 16);
    WholeMultiple(b % 16, 4);
  }

  lemma WholeMultiple(x: int, n: int)
    requires n >= 1
    ensures x * n % n == 0
  {
    Arith.ModUnique(x * n, n, x, 0);
  }

  /** Any text the encoder writes is decoded back, whatever the flags that allow padding. */
  lemma {:induction false} DecodeEncoded(flags: Flags, data: seq<Byte>, pos: nat, x: seq<Byte>)
    requires pos <= |data| && data[pos..] == Encoded(x) && !flags.pad.PadNo?
    ensures DecodeFrom(flags, data, pos) == Decoding(true, x, |data|)
    decreases |x|
  {
    hide Group, GroupLetters, GroupBytes, Unused, NextQuantum;
    if x != [] {
      var n := if |x| < 3 then |x| else 3;
      assert x[0..] == x;
      EncodedStep(x, 0);
      GroupOf(x);
      var q := GroupLetters(x);
      assert data[pos..] == Group(x) + Encoded(x[n..]);
      assert data[pos..pos + 4] == data[pos..][..4] == Group(x);
      assert data[pos + 4..] == data[pos..][4..] == Encoded(x[n..]);
      GroupRead(flags, data, pos, q);
      if |x| >= 3 {
        DecodeEncoded(flags, data, pos + 4, x[3..]);
        assert x == x[..3] + x[3..];
      }
    }
  }

  lemma RoundTrip(flags: Flags, x: seq<Byte>)
    requires !flags.pad.PadNo?
    ensures Decoded(flags, Encoded(x)) == Decoding(true, x, |Encoded(x)|)
  {
    DecodeEncoded(flags, Encoded(x), 0, x);
  }

  // ---- the strict decoder takes nothing else ----

  // Read strictly, the characters so far are letters and then pads.
  ghost predicate Tight(data: seq<Byte>, start: nat, s: Scan) {
    && start <= s.pos <= |data| && |s.letters| + s.pads <= 4 && (s.pads > 0 ==> |s.letters| >= 2)
    && data[start..s.pos] == Letters(s.letters) + Pads(s.pads)
  }

  lemma LookTight(data: seq<Byte>, start: nat, s: Scan)
    requires Tight(data, start, s) && |s.letters| < 4 && s.pos < |data| && !s.stopped
    ensures Tight(data, start, Look(STRICT, s, data[s.pos]))
  {
    hide Classify, Letter;
    var b := data[s.pos];
    var r := Look(STRICT, s, b);
    assert data[start..s.pos + 1] == data[start..s.pos] + [b];
    if !r.stopped {
      if Classify(b).Digit? {
        TablesAgree(b, Classify(b).value);
      } else {
        OnlyPadIsPadding(b);
      }
    }
  }

  lemma OnlyPadIsPadding(b: Byte)
    ensures Classify(b) == Padding <==> b == PAD
  {}

  lemma {:induction false} ScanTight(data: seq<Byte>, start: nat, s: Scan)
    requires Tight(data, start, s)
    ensures Tight(data, start, ScanOn(STRICT, data, s))
    decreases |data| - s.pos, !s.stopped
  {
    hide Look;
    if |s.letters| < 4 && s.pos < |data| && !s.stopped {
      LookTight(data, start, s);
      ScanTight(data, start, Look(STRICT, s, data[s.pos]));
    }
  }

  // A padded group, read strictly, is four characters: letters, at least two, and then pads.
  lemma TightQuantum(data: seq<Byte>, pos: nat)
    requires pos <= |data|
    ensures var q := NextQuantum(STRICT, data, pos);
      q.padded ==> 2 <= |q.letters| <= 4 && pos + 4 == q.pos <= |data|
                   && data[pos..q.pos] == Letters(q.letters) + Pads(4 - |q.letters|)
  {
    hide ScanOn;
    assert data[pos..pos] == [] == Letters([]) + Pads(0);
    ScanTight(data, pos, Start(pos));
  }

  lemma PaddedFour(flags: Flags, data: seq<Byte>, pos: nat)
    requires pos <= |data|
    ensures |NextQuantum(flags, data, pos).letters| == 4 ==> NextQuantum(flags, data, pos).padded
  {
    hide ScanOn;
    assert data[pos..pos] == [];
    ScanFaithful(flags, data, pos, Start(pos));
  }

  // Letters with no unused bits are those the encoder writes for the bytes they hold.
  lemma CanonicalGroup(q: seq<Sextet>)
    requires 2 <= |q| <= 4 && Unused(q) == 0
    ensures GroupBytes(q) != [] && |GroupBytes(q)| <= 3 && GroupLetters(GroupBytes(q)) == q
    ensures |GroupBytes(q)| == |q| - 1
  {
    hide Top6, Low2, Top4, Low4, Top2, Low6, Byte0, Byte1, Byte2;
    var c, d := if |q| >= 3 then q[2] else 0, if |q| >= 4 then q[3] else 0;
    ZeroPieces();
    ZeroByte();
    SextetsBack(q[0], q[1], c, d);
  }

  lemma {:induction false} StrictFrom(data: seq<Byte>, pos: nat)
    requires pos <= |data| && DecodeFrom(STRICT, data, pos).success
    ensures data[pos..] == Encoded(DecodeFrom(STRICT, data, pos).bytes)
    decreases |data| - pos
  {
    hide NextQuantum, GroupBytes, Unused, GroupLetters, Group;
    if pos < |data| {
      QuantumLetters(STRICT, data, pos);
      PaddedFour(STRICT, data, pos);
      TightQuantum(data, pos);
      var q := NextQuantum(STRICT, data, pos);
      var x := GroupBytes(q.letters);
      FullGroup(q.letters);
      CanonicalGroup(q.letters);
      GroupOf(x);
      assert data[pos..] == data[pos..q.pos] + data[q.pos..];
      if |q.letters| == 4 {
        StrictFrom(data, q.pos);
        var y := DecodeFrom(STRICT, data, q.pos).bytes;
        EncodedGroup(x, y);
      } else {
        assert data[q.pos..] == [];
      }
    }
  }

  lemma FullGroup(q: seq<Sextet>)
    ensures |q| == 4 ==> Unused(q) == 0
  {}

  lemma EncodedGroup(x: seq<Byte>, y: seq<Byte>)
    requires |x| == 3
    ensures Encoded(x + y) == Group(x) + Encoded(y)
  {
    assert (x + y)[3..] == y;
    if y == [] { assert x + y == x; }
  }

  /** The strict decoder accepts a text exactly when it is the encoding of the bytes returned. */
  lemma StrictExactly(data: seq<Byte>)
    ensures Decoded(STRICT, data).success <==> data == Encoded(Decoded(STRICT, data).bytes)
  {
    hide DecodeFrom, Encoded;
    assert data[0..] == data;
    if Decoded(STRICT, data).success {
      StrictFrom(data, 0);
    } else if data == Encoded(Decoded(STRICT, data).bytes) {
      DecodeEncoded(STRICT, data, 0, Decoded(STRICT, data).bytes);
    }
  }
}
