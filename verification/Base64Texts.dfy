/** Which texts the base64 decoder accepts, under which flags. */
module Base64Texts {
  import opened Bytes
  import opened Base64

  // ---- white space ----

  // The same flags with white space let pass, and without.
  function Loose(f: Flags): Flags {
    f.(parse := ParseWhite)
  }

  function Tightened(f: Flags): Flags {
    f.(parse := ParseStrict)
  }

  const WHITE := Flags(ParseWhite, PadYes, TermBuffer)

  /** The text without its white space. */
  function Squeezed(data: seq<Byte>): (r: seq<Byte>)
    ensures |r| <= |data|
    decreases |data|
  {
    if data == [] then []
    else
      var rest, b := Squeezed(data[..|data| - 1]), data[|data| - 1];
      if Classify(b).Space? then rest else rest + [b]
  }

  lemma {:induction false} SqueezedJoin(x: seq<Byte>, y: seq<Byte>)
    ensures Squeezed(x + y) == Squeezed(x) + Squeezed(y)
    decreases |y|
  {
    if y == [] {
      assert x + y == x;
    } else {
      assert (x + y)[..|x + y| - 1] == x + y[..|y| - 1];
      SqueezedJoin(x, y[..|y| - 1]);
    }
  }

  // Where position j of the text is without the white space.
  function At(data: seq<Byte>, j: nat): nat
    requires j <= |data|
  {
    |Squeezed(data[..j])|
  }

  lemma AtNext(data: seq<Byte>, j: nat)
    requires j < |data|
    ensures if Classify(data[j]).Space? then At(data, j + 1) == At(data, j)
            else At(data, j + 1) == At(data, j) + 1 <= |Squeezed(data)| && Squeezed(data)[At(data, j)] == data[j]
  {
    var x, y := data[..j + 1], data[j + 1..];
    assert x[..j] == data[..j];
    assert data == x + y;
    SqueezedJoin(x, y);
  }

  lemma AtEnd(data: seq<Byte>)
    ensures At(data, |data|) == |Squeezed(data)|
  {
    assert data[..|data|] == data;
  }

  // Nothing but white space is left from there on.
  lemma {:induction false} OnlySpace(data: seq<Byte>, j: nat)
    requires j < |data| && At(data, j) == |Squeezed(data)|
    ensures Classify(data[|data| - 1]).Space?
    decreases |data| - j
  {
    AtNext(data, j);
    if j + 1 < |data| { OnlySpace(data, j + 1); }
  }

  // Reading with white space and reading strictly without it, side by side.
  ghost predicate SideBySide(data: seq<Byte>, s: Scan, t: Scan) {
    && s.pos <= |data| && t.pos == At(data, s.pos)
    && s.letters == t.letters && s.pads == t.pads && s.stopped == t.stopped
    && (s.pads > 0 ==> s.padStart < |data| && !Classify(data[s.padStart]).Space? && t.padStart == At(data, s.padStart))
    && (s.stopped ==> s.pos < |data| && !Classify(data[s.pos]).Space?)
    && (|s.letters| == 4 ==> s.pads == 0 && s.pos > 0 && Classify(data[s.pos - 1]).Digit?)
  }

  lemma LookBoth(f: Flags, data: seq<Byte>, s: Scan, t: Scan)
    requires SideBySide(data, s, t) && |s.letters| < 4 && s.pos < |data| && !s.stopped
    ensures t.pos <= |Squeezed(data)|
    ensures var r := Look(Loose(f), s, data[s.pos]);
      if Classify(data[s.pos]).Space? then SideBySide(data, r, t)
      else t.pos < |Squeezed(data)| && SideBySide(data, r, Look(Tightened(f), t, Squeezed(data)[t.pos]))
  {
    hide At, Squeezed, Classify;
    AtNext(data, s.pos);
    AtBound(data, s.pos);
  }

  lemma AtBound(data: seq<Byte>, j: nat)
    requires j <= |data|
    ensures At(data, j) <= |Squeezed(data)|
  {
    assert data == data[..j] + data[j..];
    SqueezedJoin(data[..j], data[j..]);
  }

  lemma {:induction false} ScanBoth(f: Flags, data: seq<Byte>, s: Scan, t: Scan)
    requires SideBySide(data, s, t) && t.pos <= |Squeezed(data)|
    ensures SideBySide(data, ScanOn(Loose(f), data, s), ScanOn(Tightened(f), Squeezed(data), t))
    decreases |data| - s.pos, !s.stopped
  {
    hide At, Squeezed, Classify, Look;
    if |s.letters| < 4 && s.pos < |data| && !s.stopped {
      LookBoth(f, data, s, t);
      var r := Look(Loose(f), s, data[s.pos]);
      if Classify(data[s.pos]).Space? {
        ScanBoth(f, data, r, t);
      } else {
        ScanBoth(f, data, r, Look(Tightened(f), t, Squeezed(data)[t.pos]));
      }
    } else {
      AtEnd(data);
    }
  }

  // Positions at the end, or not at white space, are at the end on both sides or on neither.
  lemma EndBoth(data: seq<Byte>, j: nat)
    requires j <= |data| && (j < |data| ==> !Classify(data[j]).Space?)
    ensures j == |data| <==> At(data, j) == |Squeezed(data)|
  {
    hide At, Squeezed, Classify;
    AtEnd(data);
    if j < |data| {
      AtNext(data, j);
      AtBound(data, j);
    }
  }

  // What one call hands back on either side.
  lemma QuantumBoth(f: Flags, data: seq<Byte>, pos: nat)
    requires pos <= |data| && At(data, pos) <= |Squeezed(data)|
    ensures var q, r := NextQuantum(Loose(f), data, pos), NextQuantum(Tightened(f), Squeezed(data), At(data, pos));
      && q.letters == r.letters && q.padded == r.padded && q.pos <= |data| && r.pos == At(data, q.pos)
      && (|q.letters| == 4 ==> q.pos > 0 && Classify(data[q.pos - 1]).Digit?)
      && (|q.letters| < 4 ==> (q.pos == |data| <==> r.pos == |Squeezed(data)|))
      && (q.padded && |q.letters| < 4 ==> 2 <= |q.letters|)
  {
    hide At, Squeezed, Classify, ScanOn;
    var s, t := ScanOn(Loose(f), data, Start(pos)), ScanOn(Tightened(f), Squeezed(data), Start(At(data, pos)));
    ScanBoth(f, data, Start(pos), Start(At(data, pos)));
    assert data[pos..pos] == [];
    ScanFaithful(Loose(f), data, pos, Start(pos));
    var q := Finish(s);
    if |q.letters| < 4 { EndBoth(data, q.pos); }
  }

  // The text from pos on does not go on with white space after its last full group.
  ghost predicate TailTaken(data: seq<Byte>, pos: nat, bytes: seq<Byte>) {
    pos >= |data| || !Classify(data[|data| - 1]).Space? || |bytes| % 3 != 0
  }

  lemma {:induction false} DecodeBoth(f: Flags, data: seq<Byte>, pos: nat)
    requires pos <= |data| && At(data, pos) <= |Squeezed(data)|
    ensures var w, u := DecodeFrom(Loose(f), data, pos), DecodeFrom(Tightened(f), Squeezed(data), At(data, pos));
      && w.bytes == u.bytes && w.used <= |data| && u.used == At(data, w.used)
      && (w.success <==> u.success && (f.pad.PadYes? ==> TailTaken(data, pos, u.bytes)))
    decreases |data| - pos
  {
    hide At, Squeezed, Classify, NextQuantum, Unused, GroupBytes;
    AtEnd(data);
    if pos < |data| {
      QuantumLetters(Loose(f), data, pos);
      QuantumBoth(f, data, pos);
      var q := NextQuantum(Loose(f), data, pos);
      GroupSize(q.letters);
      if At(data, pos) == |Squeezed(data)| {
        OnlySpace(data, pos);
        NoneToRead(Tightened(f), Squeezed(data));
      } else {
        QuantumLetters(Tightened(f), Squeezed(data), At(data, pos));
        if |q.letters| == 4 {
          DecodeBoth(f, data, q.pos);
          DigitIsNoSpace(data[q.pos - 1]);
        }
      }
    }
  }

  lemma GroupSize(q: seq<Sextet>)
    requires |q| <= 4
    ensures |GroupBytes(q)| == if |q| < 2 then 0 else |q| - 1
  {}

  lemma NoneToRead(f: Flags, data: seq<Byte>)
    ensures NextQuantum(f, data, |data|) == Quantum([], false, |data|) && Unused([]) == 0
  {}

  lemma DigitIsNoSpace(b: Byte)
    requires Classify(b).Digit?
    ensures !Classify(b).Space?
  {}

  /** White space let pass, under any other flags: bytes, position and verdict are those of the text
      without its white space, read strictly, but for one case. Where padding is required, white space
      after a last group without padding is refused. */
  lemma WhiteIsSqueezed(f: Flags, data: seq<Byte>)
    ensures var w, u := Decoded(Loose(f), data), Decoded(Tightened(f), Squeezed(data));
      && w.bytes == u.bytes && w.used <= |data| && u.used == |Squeezed(data[..w.used])|
      && (w.success <==> u.success && (f.pad.PadYes? && data != [] && |u.bytes| % 3 == 0
                                       ==> Classify(data[|data| - 1]) != Space))
  {
    hide DecodeFrom, Squeezed, Classify;
    NothingSqueezed();
    assert data[..0] == [];
    DecodeBoth(f, data, 0);
  }

  /** With white space allowed, padding required and the buffer to be used up, a text is accepted
      exactly when without its white space it is the encoding of the bytes returned, and it does not
      end in white space after a last group without padding. */
  lemma WhiteExactly(data: seq<Byte>)
    ensures var bytes := Decoded(WHITE, data).bytes;
      Decoded(WHITE, data).success <==>
        Squeezed(data) == Encoded(bytes)
        && (data == [] || !Classify(data[|data| - 1]).Space? || |bytes| % 3 != 0)
  {
    hide Decoded, Encoded, Squeezed, Classify;
    WhiteIsSqueezed(STRICT, data);
    StrictExactly(Squeezed(data));
  }

  lemma NothingSqueezed()
    ensures Squeezed([]) == []
  {}

  // ---- the verdict in closed form: strict parsing ----

  predicate IsLetter(b: Byte) {
    Classify(b).Digit?
  }

  // Exactly the first n characters from pos on are letters, exactly the next k are pads.
  ghost predicate Shaped(data: seq<Byte>, pos: nat, n: nat, k: nat) {
    && pos <= n && n + k <= |data|
    && (forall i :: pos <= i < n ==> IsLetter(data[i]))
    && (n < |data| ==> !IsLetter(data[n]))
    && (forall i :: n <= i < n + k ==> data[i] == PAD)
    && (n + k < |data| ==> data[n + k] != PAD)
  }

  // The bits of the last letter that no byte takes are zero, when r letters are left over.
  predicate BitsZero(r: nat, last: Sextet) {
    match r case 1 => last == 0 case 2 => last % 16 == 0 case 3 => last % 4 == 0 case _ => true
  }

  // How many of k pads a group of r letters takes.
  function Taken(f: Flags, r: nat, k: nat): nat
    requires r < 4
  {
    if f.pad.PadNo? || r < 2 then 0 else if k < 4 - r then k else 4 - r
  }

  // Nothing more is taken from here, read strictly.
  lemma StopsHere(f: Flags, data: seq<Byte>, s: Scan)
    requires f.parse.ParseStrict? && s.pos <= |data| && |s.letters| < 4 && !s.stopped
    requires s.pos < |data| ==>
      if IsLetter(data[s.pos]) then s.pads > 0
      else data[s.pos] == PAD ==> f.pad.PadNo? || |s.letters| < 2 || |s.letters| + s.pads >= 4
    ensures Finish(ScanOn(f, data, s)) == Finish(s)
  {
    if s.pos < |data| {
      ScanStep(f, data, s);
      OnlyPadIsPadding(data[s.pos]);
      ScanHeld(f, data, s.(stopped := true));
    }
  }

  lemma ScanHeld(f: Flags, data: seq<Byte>, s: Scan)
    requires s.pos <= |data| && s.stopped
    ensures ScanOn(f, data, s) == s
  {}

  // After the letters of a group that is not full.
  lemma PadsTaken(f: Flags, data: seq<Byte>, n: nat, k: nat, q: seq<Sextet>)
    requires f.parse.ParseStrict? && |q| < 4 && Shaped(data, n, n, k)
    ensures var t := Taken(f, |q|, k);
      Finish(ScanOn(f, data, Scan(n, q, 0, 0, false)))
      == Quantum(q, |q| + t == 4, if |q| + t == 4 then n + t else n)
  {
    hide ScanOn, Classify;
    PadIsPadding();
    var s, t := Scan(n, q, 0, 0, false), Taken(f, |q|, k);
    if t == 0 {
      StopsHere(f, data, s);
    } else {
      LookPad(f, data, s);
      if t == 1 {
        StopsHere(f, data, Scan(n + 1, q, 1, n, false));
      } else {
        LookPad(f, data, Scan(n + 1, q, 1, n, false));
        StopsHere(f, data, Scan(n + 2, q, 2, n, false));
      }
    }
  }

  lemma {:induction false} AllLetters(d: seq<Byte>)
    requires forall i :: 0 <= i < |d| ==> IsLetter(d[i])
    ensures Letters(Sextets(d)) == d
    ensures d != [] ==> |Sextets(d)| == |d| && Sextets(d)[|d| - 1] == Classify(d[|d| - 1]).value
    decreases |d|
  {
    hide Classify, Letter;
    if d != [] {
      AllLetters(d[..|d| - 1]);
      TablesAgree(d[|d| - 1], Classify(d[|d| - 1]).value);
    }
  }

  lemma {:induction false} OnlyPads(d: seq<Byte>)
    requires forall i :: 0 <= i < |d| ==> d[i] == PAD
    ensures Sextets(d) == []
    decreases |d|
  {
    if d != [] { OnlyPads(d[..|d| - 1]); }
  }

  // One call of the strict reader: four letters, or those left over and their pads.
  lemma StrictQuantum(f: Flags, data: seq<Byte>, pos: nat, n: nat, k: nat)
    requires f.parse.ParseStrict? && Shaped(data, pos, n, k)
    ensures var q := NextQuantum(f, data, pos);
      if n - pos >= 4 then q == Quantum(Sextets(data[pos..pos + 4]), true, pos + 4) && |q.letters| == 4
      else
        var t := Taken(f, n - pos, k);
        && q == Quantum(Sextets(data[pos..n]), n - pos + t == 4, if n - pos + t == 4 then n + t else n)
        && |q.letters| == n - pos && (pos < n ==> q.letters[n - pos - 1] == Classify(data[n - 1]).value)
  {
    hide ScanOn, Finish, Classify, Letter, Sextets;
    var m := if n - pos >= 4 then 4 else n - pos;
    var d := data[pos..pos + m];
    AllLetters(d);
    var q := Sextets(d);
    LettersRead(f, data, pos, q, m);
    assert q[..m] == q;
    if m == 4 {
      ScanEnds(f, data, Scan(pos + 4, q, 0, 0, false));
      FourLetters(pos + 4, q);
    } else {
      PadsTaken(f, data, n, k, q);
    }
  }

  lemma FourLetters(pos: nat, q: seq<Sextet>)
    requires |q| == 4
    ensures Finish(Scan(pos, q, 0, 0, false)) == Quantum(q, true, pos)
  {}

  // The verdict and the position, from pos on.
  ghost predicate Verdict(f: Flags, data: seq<Byte>, pos: nat, n: nat, k: nat, d: Decoding)
    requires Shaped(data, pos, n, k)
  {
    var r := (n - pos) % 4;
    var t := Taken(f, r, k);
    && d.used == (if r + t == 4 then n + t else n)
    && (d.success <==>
        || (r == 0 && n == |data|)
        || (&& (f.term.TermAny? || r == 0 || BitsZero(r, Classify(data[n - 1]).value))
            && (f.pad.PadYes? ==> r + t == 4)
            && (f.term.TermBuffer? ==> d.used == |data|)))
  }

  lemma UnusedBits(q: seq<Sextet>)
    requires |q| < 4
    ensures Unused(q) == 0 <==> q == [] || BitsZero(|q|, q[|q| - 1])
  {
    if |q| == 2 {
      TimesZero(q[1] % 16, 16);
    } else if |q| == 3 {
      TimesZero(q[2] % 4, 64);
    }
  }

  lemma TimesZero(x: nat, y: nat)
    requires y > 0
    ensures x * y == 0 <==> x == 0
  {}

  lemma {:induction false} VerdictFrom(f: Flags, data: seq<Byte>, pos: nat, n: nat, k: nat)
    requires f.parse.ParseStrict? && Shaped(data, pos, n, k)
    ensures Verdict(f, data, pos, n, k, DecodeFrom(f, data, pos))
    decreases |data| - pos
  {
    hide NextQuantum, Classify, Sextets, GroupBytes, Unused, BitsZero;
    if pos < |data| {
      QuantumLetters(f, data, pos);
      StrictQuantum(f, data, pos, n, k);
      if n - pos >= 4 {
        VerdictFrom(f, data, pos + 4, n, k);
      } else {
        UnusedBits(NextQuantum(f, data, pos).letters);
      }
    }
  }

  /** Read strictly, under every pad and term flag: with n letters in front and k pads after them, the
      bytes are those of the letters; the r letters left over of groups of four take pads only where
      the flags allow any and only a whole group of them; and the text is accepted exactly when
      nothing is left over, or the unused bits are zero (or any end will do), the group is complete
      (where that is required) and no character is left (where that is required). */
  lemma StrictVerdict(f: Flags, data: seq<Byte>, n: nat, k: nat)
    requires f.parse.ParseStrict? && Shaped(data, 0, n, k)
    ensures Verdict(f, data, 0, n, k, Decoded(f, data))
    ensures Decoded(f, data).bytes == BytesOf(Sextets(data[..n]))
  {
    hide DecodeFrom, Sextets, BytesOf, Classify, BitsZero;
    VerdictFrom(f, data, 0, n, k);
    UsedLetters(f, data, 0);
    var u := Decoded(f, data).used;
    assert data[0..u] == data[..n] + data[n..u];
    SextetsJoin(data[..n], data[n..u]);
    OnlyPads(data[n..u]);
    assert Sextets(data[..n]) + [] == Sextets(data[..n]);
  }

  // ---- the texts accepted where padding may be left out, or must be ----

  /** The letters of the encoding, without padding. */
  function LettersOf(x: seq<Byte>): (q: seq<Sextet>)
    decreases |x|
  {
    if x == [] then [] else GroupLetters(x) + LettersOf(if |x| < 3 then [] else x[3..])
  }

  function Bare(x: seq<Byte>): seq<Byte> {
    Letters(LettersOf(x))
  }

  lemma {:induction false} BarePadded(x: seq<Byte>)
    ensures Encoded(x) == Bare(x) + Pads((3 - |x| % 3) % 3)
    decreases |x|
  {
    hide Group, GroupLetters, Letters, Encoded, LettersOf;
    if x == [] {
      NothingEncoded();
      NothingBare();
    } else {
      assert x[0..] == x;
      EncodedStep(x, 0);
      GroupOf(x);
      if |x| >= 3 {
        BarePadded(x[3..]);
        BareNext(x);
      } else {
        ShortLetters(x);
        NothingEncoded();
        assert x[|x|..] == [];
      }
    }
  }

  lemma NothingBare()
    ensures Bare([]) + Pads(0) == []
  {}

  lemma BareNext(x: seq<Byte>)
    requires |x| >= 3
    ensures Bare(x) == Letters(GroupLetters(x)) + Bare(x[3..]) && Pads(4 - |GroupLetters(x)|) == []
  {
    hide GroupLetters, Letter;
    LettersJoin(GroupLetters(x), LettersOf(x[3..]));
  }

  lemma LettersJoin(p: seq<Sextet>, q: seq<Sextet>)
    ensures Letters(p + q) == Letters(p) + Letters(q)
  {
    hide Letter;
  }

  lemma ShortLetters(x: seq<Byte>)
    requires 0 < |x| < 3
    ensures LettersOf(x) == GroupLetters(x)
  {
    hide GroupLetters;
    assert LettersOf([]) == [];
    assert GroupLetters(x) + [] == GroupLetters(x);
  }

  // No bit is lost in these letters.
  ghost predicate NoBitLost(q: seq<Sextet>) {
    |q| % 4 == 0 || BitsZero(|q| % 4, q[|q| - 1])
  }

  lemma NoBitNext(q: seq<Sextet>, rest: seq<Sextet>)
    requires |q| == 4
    ensures NoBitLost(q + rest) <==> NoBitLost(rest)
  {
    hide BitsZero;
  }

  lemma {:induction false} LettersBack(x: seq<Byte>)
    ensures BytesOf(LettersOf(x)) == x && NoBitLost(LettersOf(x)) && |LettersOf(x)| % 4 != 1
    decreases |x|
  {
    hide GroupBytes, GroupLetters, Unused, NoBitLost, BytesOf;
    NoBitInNone();
    NoLetters();
    if |x| >= 3 {
      LettersBack(x[3..]);
      LettersBackNext(GroupLetters(x), LettersOf(x[3..]), x);
    } else if x != [] {
      ShortLetters(x);
      GroupOf(x);
      ShortGroup(GroupLetters(x));
    }
  }

  lemma LettersBackNext(g: seq<Sextet>, rest: seq<Sextet>, x: seq<Byte>)
    requires |x| >= 3 && g == GroupLetters(x) && BytesOf(rest) == x[3..] && NoBitLost(rest) && |rest| % 4 != 1
    ensures BytesOf(g + rest) == x && NoBitLost(g + rest) && |g + rest| % 4 != 1
  {
    hide GroupBytes, GroupLetters, Unused, NoBitLost, BytesOf;
    GroupOf(x);
    BytesNext(g, rest);
    NoBitNext(g, rest);
  }

  lemma NoBitInNone()
    ensures NoBitLost([])
  {}

  lemma ShortGroup(q: seq<Sextet>)
    requires 0 < |q| < 4
    ensures Unused(q) == 0 <==> NoBitLost(q)
    ensures BytesOf(q) == GroupBytes(q)
  {
    hide Unused, BitsZero, GroupBytes;
    UnusedBits(q);
  }

  lemma {:induction false} BytesBack(q: seq<Sextet>)
    requires NoBitLost(q) && |q| % 4 != 1
    ensures LettersOf(BytesOf(q)) == q
    decreases |q|
  {
    hide GroupBytes, GroupLetters, Unused, NoBitLost;
    if |q| >= 4 {
      var g, rest := q[..4], q[4..];
      assert q == g + rest;
      NoBitNext(g, rest);
      FullGroup(g);
      CanonicalGroup(g);
      BytesBack(rest);
      JoinedLetters(GroupBytes(g), BytesOf(rest));
    } else if q != [] {
      ShortGroup(q);
      CanonicalGroup(q);
    } else {
      NoLetters();
    }
  }

  lemma JoinedLetters(x: seq<Byte>, y: seq<Byte>)
    requires |x| == 3
    ensures LettersOf(x + y) == GroupLetters(x) + LettersOf(y)
  {
    assert (x + y)[3..] == y;
    assert GroupLetters(x + y) == GroupLetters(x);
  }

  // A single letter left over holds no byte.
  lemma {:induction false} OneOver(q: seq<Sextet>)
    requires |q| % 4 == 1
    ensures BytesOf(q) == BytesOf(q[..|q| - 1])
    decreases |q|
  {
    if |q| >= 4 {
      OneOver(q[4..]);
      assert q[..|q| - 1][..4] == q[..4] && q[..|q| - 1][4..] == q[4..][..|q[4..]| - 1];
    }
  }

  lemma LettersDiffer(p: seq<Sextet>, q: seq<Sextet>)
    requires Letters(p) == Letters(q)
    ensures p == q
  {
    hide Letter, Classify;
    forall i | 0 <= i < |p|
      ensures p[i] == q[i]
    {
      assert Letters(p)[i] == Letter(p[i]) && Letters(q)[i] == Letter(q[i]);
      TablesAgree(Letter(p[i]), p[i]);
      TablesAgree(Letter(p[i]), q[i]);
    }
  }

  const FIRST: seq<Byte> := Ascii("A")

  // The unpadded encoding, or with one letter more that has no bit set.
  ghost predicate BareOrOneMore(text: seq<Byte>, bytes: seq<Byte>) {
    text == Bare(bytes) || (|bytes| % 3 == 0 && text == Bare(bytes) + FIRST)
  }

  lemma {:induction false} BytesLength(q: seq<Sextet>)
    ensures |BytesOf(q)| == |q| / 4 * 3 + if |q| % 4 < 2 then 0 else |q| % 4 - 1
    decreases |q|
  {
    if |q| >= 4 { BytesLength(q[4..]); }
  }

  lemma WholeGroups(x: seq<Byte>)
    ensures |LettersOf(x)| % 4 == 0 <==> |x| % 3 == 0
  {
    hide LettersOf, BytesOf, NoBitLost;
    LettersBack(x);
    BytesLength(LettersOf(x));
  }

  /** No bit is lost in the letters exactly when they are those of their bytes, or one more that is zero. */
  lemma BareExactly(q: seq<Sextet>)
    ensures NoBitLost(q) <==> BareOrOneMore(Letters(q), BytesOf(q))
  {
    hide LettersOf, BytesOf, NoBitLost, Letter;
    if |q| % 4 != 1 {
      NotOneOver(q);
    } else {
      OneLetterOver(q[..|q| - 1], q[|q| - 1]);
      assert q == q[..|q| - 1] + [q[|q| - 1]];
    }
  }

  lemma OneLetterOver(p: seq<Sextet>, last: Sextet)
    requires |p| % 4 == 0
    ensures var q := p + [last]; NoBitLost(q) <==> BareOrOneMore(Letters(q), BytesOf(q))
  {
    hide LettersOf, BytesOf, NoBitLost, Letter;
    var q := p + [last];
    assert q[..|q| - 1] == p;
    OneOver(q);
    NoneOver(p);
    BytesBack(p);
    BytesLength(p);
    assert Letters(q) == Letters(p) + [Letter(last)];
    assert |Letters(q)| != |Bare(BytesOf(q))|;
    FirstLetter(last);
    assert Letters(q)[|p|] == Letter(last) && (Letters(p) + FIRST)[|p|] == 65;
    OneBits(q);
  }

  lemma NotOneOver(q: seq<Sextet>)
    requires |q| % 4 != 1
    ensures NoBitLost(q) <==> BareOrOneMore(Letters(q), BytesOf(q))
  {
    hide LettersOf, BytesOf, NoBitLost, Letter;
    var x := BytesOf(q);
    LettersBack(x);
    WholeGroups(x);
    if NoBitLost(q) { BytesBack(q); }
    if Letters(q) == Bare(x) { LettersDiffer(q, LettersOf(x)); }
    assert Letters(q) == Bare(x) + FIRST ==> |q| == |LettersOf(x)| + 1;
  }

  lemma NoneOver(q: seq<Sextet>)
    requires |q| % 4 == 0
    ensures NoBitLost(q)
  {}

  lemma OneBits(q: seq<Sextet>)
    requires |q| % 4 == 1
    ensures NoBitLost(q) <==> q[|q| - 1] == 0
  {}

  lemma FirstLetter(x: Sextet)
    ensures FIRST == [65] && (Letter(x) == 65 <==> x == 0)
  {}

  // ---- exactly these texts ----

  const STRICT_ANY := Flags(ParseStrict, PadAny, TermBuffer)
  const STRICT_BARE := Flags(ParseStrict, PadNo, TermBuffer)

  function LeadingLetters(data: seq<Byte>): (n: nat)
    ensures n <= |data| && (forall i :: 0 <= i < n ==> IsLetter(data[i])) && (n < |data| ==> !IsLetter(data[n]))
  {
    if data == [] || !IsLetter(data[0]) then 0 else 1 + LeadingLetters(data[1..])
  }

  function LeadingPads(data: seq<Byte>): (k: nat)
    ensures k <= |data| && (forall i :: 0 <= i < k ==> data[i] == PAD) && (k < |data| ==> data[k] != PAD)
  {
    if data == [] || data[0] != PAD then 0 else 1 + LeadingPads(data[1..])
  }

  lemma ShapedOn(q: seq<Sextet>, k: nat)
    ensures var data := Letters(q) + Pads(k);
      && |data| == |q| + k && data[..|q|] == Letters(q) && Shaped(data, 0, |q|, k)
      && (q != [] ==> Classify(data[|q| - 1]) == Digit(q[|q| - 1]))
  {
    hide Letter, Classify;
    var data := Letters(q) + Pads(k);
    forall i | 0 <= i < |q|
      ensures Classify(data[i]) == Digit(q[i])
    {
      assert data[i] == Letter(q[i]);
      TablesAgree(data[i], q[i]);
    }
    PadIsPadding();
  }

  // The letters of a text that is letters and then k pads.
  lemma VerdictOn(f: Flags, q: seq<Sextet>, k: nat)
    requires f.parse.ParseStrict? && f.term.TermBuffer?
    ensures var d := Decoded(f, Letters(q) + Pads(k));
      && d.bytes == BytesOf(q)
      && (d.success <==> NoBitLost(q) && (k > 0 ==> k == Taken(f, |q| % 4, k) == 4 - |q| % 4)
                         && (f.pad.PadYes? ==> (|q| + k) % 4 == 0))
  {
    hide *;
    var data := Letters(q) + Pads(k);
    ShapedOn(q, k);
    StrictVerdict(f, data, |q|, k);
    SextetsOf(q);
    VerdictMeans(f, data, q, k, Decoded(f, data));
  }

  lemma VerdictMeans(f: Flags, data: seq<Byte>, q: seq<Sextet>, k: nat, d: Decoding)
    requires f.term.TermBuffer? && |data| == |q| + k && Shaped(data, 0, |q|, k) && Verdict(f, data, 0, |q|, k, d)
    requires q != [] ==> Classify(data[|q| - 1]) == Digit(q[|q| - 1])
    ensures d.success <==> NoBitLost(q) && (k > 0 ==> k == Taken(f, |q| % 4, k) == 4 - |q| % 4)
                           && (f.pad.PadYes? ==> (|q| + k) % 4 == 0)
  {
    hide Classify, BitsZero, Shaped, Taken;
    TakenWhole(f, |q|, k);
  }

  // All k pads behind n letters are taken, if any are there, only as the rest of a group.
  lemma TakenWhole(f: Flags, n: nat, k: nat)
    ensures var r := n % 4;
      var t := Taken(f, r, k);
      && (n + k == (if r + t == 4 then n + t else n) <==> k > 0 ==> k == t == 4 - r)
      && (k == 0 || k == t == 4 - r ==> ((n + k) % 4 == 0 <==> (r == 0 && k == 0) || r + t == 4))
  {}

  lemma {:induction false} SextetsOf(q: seq<Sextet>)
    ensures Sextets(Letters(q)) == q
    decreases |q|
  {
    hide Letter, Classify;
    if q != [] {
      var p := q[..|q| - 1];
      SextetsOf(p);
      assert Letters(q)[..|q| - 1] == Letters(p);
      TablesAgree(Letter(q[|q| - 1]), q[|q| - 1]);
    }
  }

  // What is accepted to the last character is letters and then pads.
  lemma AcceptedShape(f: Flags, data: seq<Byte>) returns (q: seq<Sextet>, k: nat)
    requires f.parse.ParseStrict? && f.term.TermBuffer? && Decoded(f, data).success
    ensures data == Letters(q) + Pads(k)
  {
    hide Decoded, Sextets, BytesOf, Classify, BitsZero, Letter;
    var n := LeadingLetters(data);
    var m := LeadingPads(data[n..]);
    ShapeOf(data, n, m);
    StrictVerdict(f, data, n, m);
    AllLetters(data[..n]);
    q, k := Sextets(data[..n]), |data| - n;
    assert data == data[..n] + data[n..];
  }

  lemma ShapeOf(data: seq<Byte>, n: nat, m: nat)
    requires n == LeadingLetters(data) && m == LeadingPads(data[n..])
    ensures Shaped(data, 0, n, m)
  {
    hide Classify, LeadingLetters, LeadingPads;
    forall i | n <= i < n + m
      ensures data[i] == PAD
    {
      assert data[n..][i - n] == data[i];
    }
    assert n + m < |data| ==> data[n..][m] == data[n + m];
  }

  lemma BareAccepted(f: Flags, data: seq<Byte>, x: seq<Byte>)
    requires f.parse.ParseStrict? && f.term.TermBuffer? && !f.pad.PadYes? && BareOrOneMore(data, x)
    ensures Decoded(f, data).success
  {
    hide Decoded, LettersOf, NoBitLost, BytesOf, Letter;
    var q := LettersOf(x);
    LettersBack(x);
    WholeGroups(x);
    if data == Bare(x) {
      VerdictOn(f, q, 0);
      assert Letters(q) + Pads(0) == data;
    } else {
      VerdictOn(f, q + [0], 0);
      OneBits(q + [0]);
      FirstLetter(0);
      assert Letters(q + [0]) + Pads(0) == data;
    }
  }

  /** Padding optional, everything read: a text is accepted exactly when it is the encoding of the bytes
      returned, or that without its padding, or, for whole groups of bytes, with an "A" after it. */
  lemma PadAnyExactly(data: seq<Byte>)
    ensures var d := Decoded(STRICT_ANY, data);
      d.success <==> data == Encoded(d.bytes) || BareOrOneMore(data, d.bytes)
  {
    hide Decoded, Encoded, BareOrOneMore, NoBitLost, BytesOf;
    var x := Decoded(STRICT_ANY, data).bytes;
    if Decoded(STRICT_ANY, data).success {
      var q, k := AcceptedShape(STRICT_ANY, data);
      VerdictOn(STRICT_ANY, q, k);
      if k == 0 {
        BareExactly(q);
        assert Letters(q) + Pads(0) == Letters(q);
      } else {
        BytesBack(q);
        BytesLength(q);
        BarePadded(x);
      }
    } else if data == Encoded(x) {
      RoundTrip(STRICT_ANY, x);
    } else if BareOrOneMore(data, x) {
      BareAccepted(STRICT_ANY, data, x);
    }
  }

  /** Padding not allowed, everything read: only the encoding without padding, or, for whole groups of
      bytes, with an "A" after it. */
  lemma PadNoExactly(data: seq<Byte>)
    ensures var d := Decoded(STRICT_BARE, data); d.success <==> BareOrOneMore(data, d.bytes)
  {
    hide Decoded, Encoded, BareOrOneMore, NoBitLost, BytesOf;
    var x := Decoded(STRICT_BARE, data).bytes;
    if Decoded(STRICT_BARE, data).success {
      var q, k := AcceptedShape(STRICT_BARE, data);
      VerdictOn(STRICT_BARE, q, k);
      BareExactly(q);
      assert Letters(q) + Pads(0) == Letters(q);
    } else if BareOrOneMore(data, x) {
      BareAccepted(STRICT_BARE, data, x);
    }
  }

  // ---- the verdict in closed form: any character let pass ----

  function Count(data: seq<Byte>, b: Byte): nat {
    multiset(data)[b]
  }

  lemma CountNext(data: seq<Byte>, b: Byte)
    requires data != []
    ensures Count(data, b) == (if data[0] == b then 1 else 0) + Count(data[1..], b)
  {
    assert data == [data[0]] + data[1..];
  }

  ghost predicate NoLetterIn(data: seq<Byte>, i: nat) {
    forall j :: i <= j < |data| ==> !IsLetter(data[j])
  }

  // Past the last letter: the pads are counted, as many as the group takes.
  lemma {:induction false} AnyAfter(f: Flags, data: seq<Byte>, s: Scan, c: nat)
    requires f.parse.ParseAny? && s.pos <= |data| && !s.stopped && |s.letters| < 4 && NoLetterIn(data, s.pos)
    requires s.pads == Taken(f, |s.letters|, c) && (s.pads > 0 ==> s.padStart < |data|)
    ensures var q, t := Finish(ScanOn(f, data, s)), Taken(f, |s.letters|, c + Count(data[s.pos..], PAD));
      && q.letters == s.letters && q.padded == (|s.letters| + t == 4)
      && (q.pos == |data| <==> q.padded || t == 0) && q.pos <= |data|
    decreases |data| - s.pos
  {
    hide Count, Classify, ScanOn;
    if s.pos < |data| {
      ScanStep(f, data, s);
      OnlyPadIsPadding(data[s.pos]);
      CountNext(data[s.pos..], PAD);
      assert data[s.pos..][1..] == data[s.pos + 1..];
      var b := if data[s.pos] == PAD then 1 else 0;
      AnyAfter(f, data, Look(f, s, data[s.pos]), c + b);
    } else {
      ScanEnds(f, data, s);
      NoneCounted(data[s.pos..]);
    }
  }

  lemma NoneCounted(data: seq<Byte>)
    requires data == []
    ensures Count(data, PAD) == 0
  {}

  lemma SextetsFirst(data: seq<Byte>, i: nat)
    requires i < |data|
    ensures Sextets(data[i..]) == (if IsLetter(data[i]) then [Classify(data[i]).value] else []) + Sextets(data[i + 1..])
  {
    hide Classify;
    var x := [data[i]];
    assert data[i..] == x + data[i + 1..] && x[..0] == [];
    SextetsJoin(x, data[i + 1..]);
  }

  // Up to the last letter, which ends before m.
  lemma {:induction false} AnyBefore(f: Flags, data: seq<Byte>, s: Scan, m: nat)
    requires f.parse.ParseAny? && s.pos <= m <= |data| && !s.stopped && NoLetterIn(data, m)
    requires (s.pos < m ==> IsLetter(data[m - 1])) && (s.pos == m ==> s.pads == 0)
    requires |s.letters + Sextets(data[s.pos..])| < 4
    ensures var q, all := Finish(ScanOn(f, data, s)), s.letters + Sextets(data[s.pos..]);
      var t := Taken(f, |all|, Count(data[m..], PAD));
      && q.letters == all && q.padded == (|all| + t == 4) && (q.pos == |data| <==> q.padded || t == 0)
    decreases |data| - s.pos
  {
    hide Count, Classify, ScanOn, Finish, Sextets;
    if s.pos < m {
      SextetsFirst(data, s.pos);
      ScanStep(f, data, s);
      AnyBefore(f, data, Look(f, s, data[s.pos]), m);
    } else {
      AllRead(data, m);
      assert s.letters + [] == s.letters;
      AnyAfter(f, data, s, 0);
    }
  }

  lemma {:induction false} AllRead(data: seq<Byte>, m: nat)
    requires m <= |data| && NoLetterIn(data, m)
    ensures Sextets(data[m..]) == []
    decreases |data| - m
  {
    if m < |data| {
      SextetsFirst(data, m);
      AllRead(data, m + 1);
    }
  }

  lemma {:induction false} LastIsLetter(f: Flags, data: seq<Byte>, s: Scan)
    requires s.pos <= |data| && |s.letters| < 4
    ensures var r := ScanOn(f, data, s); |r.letters| == 4 ==> r.pos > 0 && IsLetter(data[r.pos - 1])
    decreases |data| - s.pos, !s.stopped
  {
    hide Classify;
    if s.pos < |data| && !s.stopped {
      var n := Look(f, s, data[s.pos]);
      ScanStep(f, data, s);
      if |n.letters| == 4 {
        ScanEnds(f, data, n);
      } else {
        LastIsLetter(f, data, n);
      }
    }
  }

  lemma AnyQuantum(f: Flags, data: seq<Byte>, pos: nat, m: nat)
    requires f.parse.ParseAny? && pos <= m <= |data| && NoLetterIn(data, m) && (pos < m ==> IsLetter(data[m - 1]))
    ensures var q, all := NextQuantum(f, data, pos), Sextets(data[pos..]);
      if |all| >= 4 then |q.letters| == 4 && pos < q.pos <= m && all == q.letters + Sextets(data[q.pos..])
      else
        var t := Taken(f, |all|, Count(data[m..], PAD));
        && q.letters == all && q.padded == (|all| + t == 4) && (q.pos == |data| <==> q.padded || t == 0)
  {
    hide Count, Classify, ScanOn, Sextets;
    var all := Sextets(data[pos..]);
    if |all| < 4 {
      assert [] + all == all;
      AnyBefore(f, data, Start(pos), m);
    } else {
      QuantumLetters(f, data, pos);
      LastIsLetter(f, data, Start(pos));
      PaddedFour(f, data, pos);
      var q := NextQuantum(f, data, pos);
      assert data[pos..] == data[pos..q.pos] + data[q.pos..];
      SextetsJoin(data[pos..q.pos], data[q.pos..]);
      assert q.letters + [] == q.letters;
      assert |q.letters| == 4 && q.pos > 0 && IsLetter(data[q.pos - 1]);
    }
  }

  // The verdict, from pos on.
  ghost predicate AnyVerdictIs(f: Flags, data: seq<Byte>, q: seq<Sextet>, m: nat, d: Decoding)
    requires m <= |data|
  {
    var r, k := |q| % 4, Count(data[m..], PAD);
    d.success <==>
      || (r == 0 && m == |data|)
      || (&& (f.term.TermAny? || NoBitLost(q))
          && (f.pad.PadYes? ==> 2 <= r && r + k >= 4)
          && (f.term.TermBuffer? ==> f.pad.PadNo? || r != 2 || k != 1))
  }

  lemma {:induction false} AnyFrom(f: Flags, data: seq<Byte>, pos: nat, m: nat)
    requires f.parse.ParseAny? && pos <= m <= |data| && NoLetterIn(data, m) && (pos < m ==> IsLetter(data[m - 1]))
    ensures AnyVerdictIs(f, data, Sextets(data[pos..]), m, DecodeFrom(f, data, pos))
    decreases |data| - pos
  {
    hide NextQuantum, Classify, Sextets, GroupBytes, Unused, NoBitLost, Count;
    var all := Sextets(data[pos..]);
    if pos < |data| {
      QuantumLetters(f, data, pos);
      AnyQuantum(f, data, pos, m);
      var q := NextQuantum(f, data, pos);
      if |all| >= 4 {
        AnyFrom(f, data, q.pos, m);
        NoBitNext(q.letters, Sextets(data[q.pos..]));
      } else if all != [] {
        ShortGroup(all);
      } else {
        NoneOver(all);
        NoneUnused();
        if pos < m { LetterThere(data, pos, m); }
      }
    } else {
      assert data[pos..] == [];
      NoSextets();
    }
  }

  lemma LetterThere(data: seq<Byte>, pos: nat, m: nat)
    requires pos < m <= |data| && IsLetter(data[m - 1])
    ensures Sextets(data[pos..]) != []
  {
    hide Sextets, Classify;
    assert data[pos..] == data[pos..m - 1] + data[m - 1..];
    SextetsJoin(data[pos..m - 1], data[m - 1..]);
    SextetsFirst(data, m - 1);
  }

  lemma NoneUnused()
    ensures Unused([]) == 0
  {}

  /** Any character let pass, under every pad and term flag: with r letters left over of groups of four
      and k pads after the last letter, the text is accepted exactly when it ends in a full group, or no
      bit is lost (or any end will do), the group and its pads make four (where that is required), and
      the pads are not one short of the two a group of two letters takes (where all must be used). */
  lemma AnyVerdict(f: Flags, data: seq<Byte>, m: nat)
    requires f.parse.ParseAny? && m <= |data| && NoLetterIn(data, m) && (0 < m ==> IsLetter(data[m - 1]))
    ensures AnyVerdictIs(f, data, Sextets(data), m, Decoded(f, data))
    ensures Decoded(f, data).bytes == BytesOf(Sextets(data))
  {
    hide DecodeFrom, Sextets, BytesOf, Classify, AnyVerdictIs, NoLetterIn;
    assert data[0..] == data;
    AnyFrom(f, data, 0, m);
    AnyIgnoresTheRest(f, data);
  }
}
