/** Packet framing over a byte stream: a two-byte big-endian length before each packet. */
module TcpFraming {
  import opened Bytes

  type Packet = seq<Byte>

  const MAX_PACKET_SIZE := 64 * 1024
  const PACKET_LEN_SIZE := 2
  const BUF_SIZE := MAX_PACKET_SIZE + PACKET_LEN_SIZE
  // The largest packet whose length fits the prefix.
  const MAX_PREFIX := 65535

  // HostToNetwork16 of the length cut down to sixteen bits.
  function Header(n: nat): (h: seq<Byte>)
    ensures |h| == PACKET_LEN_SIZE
  {
    [n % 65536 / 256, n % 256]
  }

  function GetBE16(b: seq<Byte>): nat
    requires |b| >= PACKET_LEN_SIZE
  {
    (b[0] as int) * 256 + b[1] as int
  }

  lemma HeaderBack(n: nat)
    requires n <= MAX_PREFIX
    ensures GetBE16(Header(n)) == n
  {}

  lemma HeaderUnique(h: seq<Byte>)
    requires |h| == PACKET_LEN_SIZE
    ensures GetBE16(h) <= MAX_PREFIX && Header(GetBE16(h)) == h
  {
    var n := GetBE16(h);
    assert n / 256 == h[0] && n % 256 == h[1];
  }

  function Frame(p: Packet): seq<Byte> {
    Header(|p|) + p
  }

  /** A frame byte by byte: the high and the low byte of the length, and the packet. */
  lemma FrameIs(p: Packet)
    requires |p| <= 65535
    ensures var f := Frame(p); |f| == 2 + |p| && f[0] == |p| / 256 && f[1] == |p| % 256 && f[2..] == p
  {}

  // The stream that carries ps.
  ghost function Wire(ps: seq<Packet>): seq<Byte> {
    if ps == [] then [] else Wire(ps[..|ps| - 1]) + Frame(ps[|ps| - 1])
  }

  ghost predicate Small(ps: seq<Packet>) {
    forall i :: 0 <= i < |ps| ==> |ps[i]| <= MAX_PREFIX
  }

  // Not yet a whole frame.
  predicate Partial(b: seq<Byte>) {
    |b| < PACKET_LEN_SIZE || |b| < PACKET_LEN_SIZE + GetBE16(b)
  }

  lemma {:induction false} WireJoin(ps: seq<Packet>, qs: seq<Packet>)
    ensures Wire(ps + qs) == Wire(ps) + Wire(qs)
    decreases |qs|
  {
    if qs == [] {
      assert ps + qs == ps;
    } else {
      var n := |qs| - 1;
      assert (ps + qs)[..|ps + qs| - 1] == ps + qs[..n];
      WireJoin(ps, qs[..n]);
    }
  }

  lemma EmptyWire()
    ensures Wire([]) == []
  {}

  lemma WireOne(p: Packet)
    ensures Wire([p]) == Frame(p)
  {
    assert [p][..0] == [];
    assert Wire([p]) == Wire([]) + Frame(p);
  }

  lemma WireFirst(ps: seq<Packet>)
    requires ps != []
    ensures Wire(ps) == Frame(ps[0]) + Wire(ps[1..])
  {
    WireOne(ps[0]);
    WireJoin([ps[0]], ps[1..]);
    assert [ps[0]] + ps[1..] == ps;
  }

  // A frame at the front of a stream can be read in one way only.
  lemma FirstFrame(p: Packet, rest: seq<Byte>, stream: seq<Byte>)
    requires |p| <= MAX_PREFIX && stream == Frame(p) + rest
    ensures |stream| >= PACKET_LEN_SIZE + |p| && GetBE16(stream) == |p|
    ensures stream[PACKET_LEN_SIZE..PACKET_LEN_SIZE + |p|] == p && stream[PACKET_LEN_SIZE + |p|..] == rest
  {
    HeaderBack(|p|);
  }

  // The framing is prefix-free: whatever has been read off part of a stream of
  // packets, with less than a frame left over, is the start of those packets.
  lemma {:induction false} PrefixFree(got: seq<Packet>, rest: seq<Byte>, ps: seq<Packet>, more: seq<Byte>)
    requires Small(got) && Small(ps) && Partial(rest)
    requires Wire(got) + rest + more == Wire(ps)
    ensures got <= ps
    decreases |got|
  {
    hide Frame, GetBE16;
    if got != [] {
      WireFirst(got);
      var tail := Wire(got[1..]) + rest + more;
      assert Wire(got) + rest + more == Frame(got[0]) + tail;
      FirstFrame(got[0], tail, Wire(ps));
      if ps != [] {
        WireFirst(ps);
        FirstFrame(ps[0], Wire(ps[1..]), Wire(ps));
        PrefixFree(got[1..], rest, ps[1..], more);
        assert got == [got[0]] + got[1..] && ps == [ps[0]] + ps[1..];
      }
    }
  }

  // Nothing in flight, nothing missing.
  lemma {:induction false} AllRead(got: seq<Packet>, rest: seq<Byte>, ps: seq<Packet>)
    requires Small(got) && Small(ps) && Partial(rest)
    requires Wire(got) + rest == Wire(ps)
    ensures got == ps && rest == []
    decreases |ps|
  {
    PrefixFree(got, rest, ps, []);
    assert Wire(got) + rest + [] == Wire(got) + rest;
    if |got| < |ps| {
      var qs := ps[|got|..];
      assert ps == got + qs;
      WireJoin(got, qs);
      assert (Wire(got) + rest)[|Wire(got)|..] == rest && (Wire(got) + Wire(qs))[|Wire(got)|..] == Wire(qs);
      WireFirst(qs);
      FirstFrame(qs[0], Wire(qs[1..]), rest);
    }
  }

  // A stream that starts with a whole frame, taken apart.
  lemma FrontFrame(b: seq<Byte>, p: Packet)
    requires |b| >= PACKET_LEN_SIZE && |b| >= PACKET_LEN_SIZE + GetBE16(b)
    requires p == b[PACKET_LEN_SIZE..PACKET_LEN_SIZE + GetBE16(b)]
    ensures |p| == GetBE16(b) <= MAX_PREFIX && b == Frame(p) + b[PACKET_LEN_SIZE + |p|..]
  {
    HeaderUnique(b[..PACKET_LEN_SIZE]);
    assert b == b[..PACKET_LEN_SIZE] + b[PACKET_LEN_SIZE..];
  }

  lemma SignalOne(ps: seq<Packet>, p: Packet, b: seq<Byte>)
    requires |b| >= PACKET_LEN_SIZE + |p| && b == Frame(p) + b[PACKET_LEN_SIZE + |p|..]
    ensures Wire(ps + [p]) + b[PACKET_LEN_SIZE + |p|..] == Wire(ps) + b
  {
    WireJoin(ps, [p]);
    WireOne(p);
  }

  lemma PrefixOnly(b: seq<Byte>)
    requires |b| >= PACKET_LEN_SIZE
    ensures GetBE16(b) == GetBE16(b[..PACKET_LEN_SIZE])
  {}

  lemma NoneSmall()
    ensures Small([])
  {}

  lemma OneSmall(ps: seq<Packet>, p: Packet)
    requires Small(ps) && |p| <= MAX_PREFIX
    ensures Small(ps + [p])
  {}

  // ----- the sizes the check in Send admits

  // Of the packets the size check admits, the prefix carries the length of those up to 65535 bytes,
  // and the assertion of the second append holds for the same ones.
  lemma PrefixCarries(p: Packet)
    requires |p| <= BUF_SIZE
    ensures GetBE16(Frame(p)) == |p| <==> |p| <= MAX_PREFIX
    ensures PACKET_LEN_SIZE + |p| < BUF_SIZE <==> |p| <= MAX_PREFIX
    ensures MAX_PREFIX == 65535 && BUF_SIZE == 65538
  {
    var h := Header(|p|);
    assert Frame(p)[0] == h[0] && Frame(p)[1] == h[1];
    HeaderUnique(h);
    if |p| <= MAX_PREFIX { HeaderBack(|p|); }
  }

  lemma WrappedPrefix(p: Packet)
    requires |p| == MAX_PREFIX + 1
    ensures |Frame(p)| == PACKET_LEN_SIZE + |p| && GetBE16(Frame(p)) == 0
  {
    assert Header(|p|) == [0, 0];
  }

  // The least of the others: its frame begins with a frame of no bytes, which the receiver signals.
  lemma EmptyPacketFirst(p: Packet, got: seq<Packet>, rest: seq<Byte>)
    requires |p| == MAX_PREFIX + 1
    requires Small(got) && Partial(rest) && Wire(got) + rest == Frame(p)
    ensures got != [] && got[0] == []
  {
    hide Wire, Frame, Header;
    WrappedPrefix(p);
    EmptyWire();
    assert [] + rest == rest;
    if got != [] {
      WireFirst(got);
      var tail := Wire(got[1..]) + rest;
      assert Frame(p) == Frame(got[0]) + tail;
      FirstFrame(got[0], tail, Frame(p));
    }
  }

  // Any bytes can be taken apart: whole frames, and less than a frame left.
  lemma {:induction false} TakenApart(b: seq<Byte>) returns (got: seq<Packet>, rest: seq<Byte>)
    ensures Small(got) && Partial(rest) && Wire(got) + rest == b
    decreases |b|
  {
    EmptyWire();
    if Partial(b) {
      got, rest := [], b;
    } else {
      var p := b[PACKET_LEN_SIZE..PACKET_LEN_SIZE + GetBE16(b)];
      FrontFrame(b, p);
      var ps;
      ps, rest := TakenApart(b[PACKET_LEN_SIZE + |p|..]);
      got := [p] + ps;
      WireFirst(got);
      assert got[1..] == ps;
      assert Frame(p) + (Wire(ps) + rest) == Frame(p) + Wire(ps) + rest;
    }
  }

  // ----- one end of the connection

  class AsyncTCPSocket {
    const inbuf: array<Byte>
    const outbuf: array<Byte>
    var inpos: nat
    var outpos: nat

    ghost predicate Valid()
      reads this
    {
      && inbuf.Length == outbuf.Length == BUF_SIZE && inbuf != outbuf
      && inpos <= BUF_SIZE && outpos <= BUF_SIZE
    }

    // Bytes waiting for the network, and bytes waiting to be a whole frame.
    ghost function Unsent(): seq<Byte>
      requires Valid()
      reads this, outbuf
    {
      outbuf[..outpos]
    }

    ghost function Unread(): seq<Byte>
      requires Valid()
      reads this, inbuf
    {
      inbuf[..inpos]
    }

    constructor ()
      ensures Valid() && Unsent() == [] && Unread() == [] && fresh(inbuf) && fresh(outbuf)
    {
      inbuf := new Byte[BUF_SIZE](i => 0);
      outbuf := new Byte[BUF_SIZE](i => 0);
      inpos, outpos := 0, 0;
    }

    // Hands the buffer to the network, which takes the first res bytes of it: none if res <= 0,
    // and none that count if it claims more than it was given.
    method FlushOutBuffer(res: int) returns (r: int, sent: seq<Byte>)
      requires Valid()
      modifies `outpos, outbuf
      ensures Valid() && r == if res <= |old(Unsent())| then res else -1
      ensures sent == old(Unsent())[..if 0 <= res <= |old(Unsent())| then res else 0]
      ensures sent + Unsent() == old(Unsent())
    {
      sent := [];
      if res <= 0 { return res, sent; }
      if res > outpos { return -1, sent; }
      sent := outbuf[..res];
      outpos := outpos - res;
      if outpos > 0 {
        for i := 0 to outpos
          invariant outpos == old(outpos) - res
          invariant forall j :: 0 <= j < i ==> outbuf[j] == old(outbuf[res + j])
          invariant forall j :: i <= j < outbuf.Length ==> outbuf[j] == old(outbuf[j])
        {
          outbuf[i] := outbuf[res + i];
        }
      }
      return res, sent;
    }

    method AppendToOutBuffer(pv: seq<Byte>)
      requires Valid() && outpos + |pv| < BUF_SIZE
      modifies `outpos, outbuf
      ensures Valid() && Unsent() == old(Unsent()) + pv
    {
      for i := 0 to |pv|
        invariant outpos == old(outpos)
        invariant outbuf[..outpos] == old(outbuf[..outpos])
        invariant forall j :: 0 <= j < i ==> outbuf[outpos + j] == pv[j]
      {
        outbuf[outpos + i] := pv[i];
      }
      outpos := outpos + |pv|;
    }

    // res is what the network answers if it is asked. A packet is kept if any of it went out;
    // otherwise none of it did. `stopped` tells that the assertion of AppendToOutBuffer failed.
    method Send(pv: Packet, res: int) returns (r: int, sent: seq<Byte>, stopped: bool)
      requires Valid()
      modifies `outpos, outbuf
      ensures Valid()
      ensures stopped <==> old(Unsent()) == [] && MAX_PREFIX < |pv| <= BUF_SIZE
      ensures stopped ==> sent == [] && Unsent() == Header(|pv|)
      ensures |pv| > BUF_SIZE ==> r == -1 && sent == [] && Unsent() == old(Unsent())
      ensures |pv| <= BUF_SIZE && !stopped ==>
                var (s, u) := SendStep(old(Unsent()), pv, res);
                sent == s && Unsent() == u
                && r == if old(Unsent()) != [] || Goes(res, PACKET_LEN_SIZE + |pv|) then |pv|
                        else if res <= 0 then res else -1
      ensures old(Unsent()) != [] && |pv| <= BUF_SIZE ==> r == |pv| && sent == [] && Unsent() == old(Unsent())
      ensures old(Unsent()) == [] && |pv| <= MAX_PREFIX && 0 < res <= 2 + |pv| ==>
                r == |pv| && |sent| == res && sent + Unsent() == Frame(pv)
      ensures old(Unsent()) == [] && |pv| <= MAX_PREFIX && !(0 < res <= 2 + |pv|) ==>
                r == (if res <= 0 then res else -1) && sent == [] && Unsent() == []
    {
      sent, stopped := [], false;
      if |pv| > BUF_SIZE { return -1, sent, stopped; }
      if outpos != 0 { return |pv|, sent, stopped; }
      AppendToOutBuffer(Header(|pv|));
      if outpos + |pv| >= BUF_SIZE {
        return -1, sent, true;
      }
      AppendToOutBuffer(pv);
      assert Unsent() == Frame(pv);
      r, sent := FlushOutBuffer(res);
      if r <= 0 {
        outpos := 0;
        return r, sent, stopped;
      }
      r := |pv|;
    }

    method OnWriteEvent(res: int) returns (sent: seq<Byte>, ready: bool)
      requires Valid()
      modifies `outpos, outbuf
      ensures Valid()
      ensures (sent, Unsent()) == WriteStep(old(Unsent()), res)
      ensures sent + Unsent() == old(Unsent()) && |sent| == if 0 < res <= |old(Unsent())| then res else 0
      ensures ready <==> Unsent() == []
    {
      sent := [];
      if outpos > 0 {
        var r;
        r, sent := FlushOutBuffer(res);
      }
      ready := outpos == 0;
    }

    // Signals every whole frame at the front of the buffer and keeps what is left.
    method ProcessInput() returns (signalled: seq<Packet>)
      requires Valid()
      modifies `inpos, inbuf
      ensures Valid() && Partial(Unread()) && Small(signalled)
      ensures Wire(signalled) + Unread() == old(Unread())
    {
      hide Wire, Frame, GetBE16, Small;
      signalled := [];
      EmptyWire();
      NoneSmall();
      while true
        invariant Valid() && Small(signalled)
        invariant Wire(signalled) + Unread() == old(Unread())
        decreases inpos
      {
        if inpos < PACKET_LEN_SIZE { return; }
        ghost var b := Unread();
        assert b[..PACKET_LEN_SIZE] == inbuf[..PACKET_LEN_SIZE];
        PrefixOnly(b);
        var pktLen := GetBE16(inbuf[..PACKET_LEN_SIZE]);
        if inpos < PACKET_LEN_SIZE + pktLen { return; }
        var p := inbuf[PACKET_LEN_SIZE..PACKET_LEN_SIZE + pktLen];
        assert p == b[PACKET_LEN_SIZE..PACKET_LEN_SIZE + pktLen];
        FrontFrame(b, p);
        SignalOne(signalled, p, b);
        OneSmall(signalled, p);
        signalled := signalled + [p];
        Shift(PACKET_LEN_SIZE + pktLen);
      }
    }

    // A frame of n bytes is done with.
    method Shift(n: nat)
      requires Valid() && n <= inpos
      modifies `inpos, inbuf
      ensures Valid() && inpos == old(inpos) - n && Unread() == old(Unread())[n..]
    {
      ghost var left := Unread()[n..];
      inpos := inpos - n;
      assert left == inbuf[n..n + inpos];
      if inpos > 0 { MoveDown(n); }
    }

    // The memmove: the bytes after the frame come to the front.
    method MoveDown(from: nat)
      requires Valid() && inpos + from <= BUF_SIZE
      modifies inbuf
      ensures inbuf[..inpos] == old(inbuf[from..from + inpos])
    {
      for i := 0 to inpos
        invariant forall j :: 0 <= j < i ==> inbuf[j] == old(inbuf[from + j])
        invariant forall j :: i <= j < inbuf.Length ==> inbuf[j] == old(inbuf[j])
      {
        inbuf[i] := inbuf[from + i];
      }
    }

    // data is what the network hands over, at most the room there is, unless receiving failed.
    method OnReadEvent(data: seq<Byte>, failed: bool) returns (signalled: seq<Packet>, overflow: bool)
      requires Valid() && Partial(Unread()) && |data| <= BUF_SIZE - inpos
      modifies `inpos, inbuf
      ensures Valid() && Partial(Unread()) && Small(signalled)
      ensures failed ==> signalled == [] && Unread() == old(Unread())
      ensures !failed ==> Wire(signalled) + Unread() == old(Unread()) + data
      ensures !overflow
    {
      signalled, overflow := [], false;
      if failed { return; }
      for i := 0 to |data|
        invariant inpos == old(inpos)
        invariant inbuf[..inpos] == old(inbuf[..inpos])
        invariant forall j :: 0 <= j < i ==> inbuf[inpos + j] == data[j]
      {
        inbuf[inpos + i] := data[i];
      }
      inpos := inpos + |data|;
      assert Unread() == old(Unread()) + data;
      signalled := ProcessInput();
      PartialFits(Unread());
      // the branch that would discard a full buffer is never taken
      overflow := inpos >= BUF_SIZE;
    }
  }

  // Less than a frame always leaves room in the buffer.
  lemma PartialFits(b: seq<Byte>)
    requires Partial(b)
    ensures |b| < BUF_SIZE - 1
  {
    if |b| >= PACKET_LEN_SIZE { HeaderUnique(b[..PACKET_LEN_SIZE]); }
  }

  // ----- what one call does to the buffer and the wire

  // The network's answer res to n bytes offered means that res of them went out.
  predicate Goes(res: int, n: nat) {
    0 < res <= n
  }

  ghost function SendStep(out: seq<Byte>, p: Packet, res: int): (seq<Byte>, seq<Byte>) {
    if out == [] && Goes(res, |Frame(p)|) then (Frame(p)[..res], Frame(p)[res..]) else ([], out)
  }

  ghost function WriteStep(out: seq<Byte>, res: int): (seq<Byte>, seq<Byte>) {
    if Goes(res, |out|) then (out[..res], out[res..]) else ([], out)
  }

  // ----- both ends and the network between them

  datatype Event =
    | Offer(p: Packet, res: int)   // the application sends p; the network takes res bytes
    | Writable(res: int)           // the network has room for res more bytes
    | Deliver(n: nat)              // the receiver reads the next n bytes

  datatype Link = Link(
    out: seq<Byte>,          // sender's buffer
    wire: seq<Byte>,         // all bytes the network ever took
    read: nat,               // how many of them the receiver has read
    inb: seq<Byte>,          // receiver's buffer
    kept: seq<Packet>,       // packets offered and not dropped
    signalled: seq<Packet>)  // packets the receiver has signalled

  const START := Link([], [], 0, [], [], [])

  ghost predicate Enabled(s: Link, e: Event) {
    match e
    case Offer(_, _) => true
    case Writable(_) => true
    case Deliver(n) => n <= |s.wire| - s.read && n <= BUF_SIZE - |s.inb|
  }

  // A packet over the size check changes nothing. Those between the prefix and the check run as in
  // a build without assertions, their bytes kept though they do not all fit. A receive step
  // signals some packets and leaves less than a frame.
  ghost predicate Step(s: Link, e: Event, t: Link) {
    && Enabled(s, e)
    && match e
       case Offer(p, res) =>
         if |p| > BUF_SIZE then t == s else
         var (sent, out) := SendStep(s.out, p, res);
         t == s.(out := out, wire := s.wire + sent,
                 kept := if s.out == [] && Goes(res, |Frame(p)|) then s.kept + [p] else s.kept)
       case Writable(res) =>
         var (sent, out) := WriteStep(s.out, res);
         t == s.(out := out, wire := s.wire + sent)
       case Deliver(n) =>
         && s.read + n <= |s.wire|
         && s.signalled <= t.signalled
         && var now := t.signalled[|s.signalled|..];
            && Small(now) && Partial(t.inb)
            && Wire(now) + t.inb == s.inb + s.wire[s.read..s.read + n]
            && t == s.(read := s.read + n, inb := t.inb, signalled := t.signalled)
  }

  // A run: consecutive states joined by events, from the start.
  ghost predicate Run(states: seq<Link>, events: seq<Event>) {
    && |states| == |events| + 1
    && states[0] == START
    && forall i :: 0 <= i < |events| ==> Step(states[i], events[i], states[i + 1])
  }

  ghost predicate Inv(s: Link) {
    && Small(s.signalled) && Partial(s.inb)
    && s.wire + s.out == Wire(s.kept)
    && s.read <= |s.wire|
    && Wire(s.signalled) + s.inb == s.wire[..s.read]
  }

  lemma SentOn(wire: seq<Byte>, out: seq<Byte>, sent: seq<Byte>, left: seq<Byte>, read: nat)
    requires sent + left == out && read <= |wire|
    ensures (wire + sent) + left == wire + out
    ensures (wire + sent)[..read] == wire[..read]
  {}

  lemma OfferKeeps(s: Link, e: Event, t: Link)
    requires Inv(s) && Step(s, e, t) && e.Offer?
    ensures Inv(t)
  {
    hide Wire, Frame;
    if |e.p| > BUF_SIZE { return; }
    var (sent, out) := SendStep(s.out, e.p, e.res);
    if s.out == [] && Goes(e.res, |Frame(e.p)|) {
      assert |Frame(e.p)| == PACKET_LEN_SIZE + |e.p| by { FrameLength(e.p); }
      assert Frame(e.p)[..e.res] + Frame(e.p)[e.res..] == Frame(e.p);
      SentOn(s.wire, Frame(e.p), sent, out, s.read);
      WireJoin(s.kept, [e.p]);
      WireOne(e.p);
    } else {
      SentOn(s.wire, s.out, sent, out, s.read);
    }
  }

  lemma FrameLength(p: Packet)
    ensures |Frame(p)| == PACKET_LEN_SIZE + |p|
  {}

  lemma WritableKeeps(s: Link, e: Event, t: Link)
    requires Inv(s) && Step(s, e, t) && e.Writable?
    ensures Inv(t)
  {
    hide Wire;
    var (sent, out) := WriteStep(s.out, e.res);
    SentOn(s.wire, s.out, sent, out, s.read);
  }

  lemma DeliverKeeps(s: Link, e: Event, t: Link)
    requires Inv(s) && Step(s, e, t) && e.Deliver?
    ensures Inv(t)
  {
    hide Wire;
    var now := t.signalled[|s.signalled|..];
    assert t.signalled == s.signalled + now;
    WireJoin(s.signalled, now);
    var n := e.n;
    assert s.wire[..s.read] + s.wire[s.read..s.read + n] == s.wire[..s.read + n];
    assert Wire(t.signalled) + t.inb == Wire(s.signalled) + (Wire(now) + t.inb);
    assert Wire(s.signalled) + (s.inb + s.wire[s.read..s.read + n])
        == (Wire(s.signalled) + s.inb) + s.wire[s.read..s.read + n];
  }

  lemma {:induction false} RunInv(states: seq<Link>, events: seq<Event>, i: nat)
    requires Run(states, events) && i < |states|
    ensures Inv(states[i])
  {
    if i > 0 {
      RunInv(states, events, i - 1);
      var s, e, t := states[i - 1], events[i - 1], states[i];
      assert Step(s, e, t);
      match e
      case Offer(_, _) => OfferKeeps(s, e, t);
      case Writable(_) => WritableKeeps(s, e, t);
      case Deliver(_) => DeliverKeeps(s, e, t);
    }
  }

  // Everything sent has been read.
  ghost predicate Drained(s: Link) {
    s.out == [] && s.read == |s.wire|
  }

  // In every run, whatever the network takes and however it cuts the stream up, the receiver's
  // buffer is never full. While the kept packets fit the prefix, it has signalled a prefix of
  // them, unaltered and in order; and once all is read it has signalled exactly the kept packets
  // if and only if they all fit the prefix.
  lemma EndToEnd(states: seq<Link>, events: seq<Event>, i: nat)
    requires Run(states, events) && i < |states|
    ensures var s := states[i];
            && |s.inb| < BUF_SIZE
            && (Small(s.kept) ==> s.signalled <= s.kept)
            && (Drained(s) ==> (s.signalled == s.kept && s.inb == [] <==> Small(s.kept)))
  {
    RunInv(states, events, i);
    var s := states[i];
    PartialFits(s.inb);
    var more := s.wire[s.read..] + s.out;
    assert s.wire == s.wire[..s.read] + s.wire[s.read..];
    assert Wire(s.signalled) + s.inb + more == Wire(s.kept);
    if Small(s.kept) {
      PrefixFree(s.signalled, s.inb, s.kept, more);
      if Drained(s) {
        assert more == [];
        AllRead(s.signalled, s.inb, s.kept);
      }
    }
  }

  // A run that keeps p alone, sends it whole, and reads it in two pieces.
  lemma LoneRun(p: Packet) returns (states: seq<Link>, events: seq<Event>)
    requires |p| <= BUF_SIZE
    ensures Run(states, events) && |states| == 4
    ensures Drained(states[3]) && states[3].kept == [p]
  {
    hide Wire, Frame, Run, Step;
    FrameLength(p);
    EmptyWire();
    var f := Frame(p);
    var n := if |f| <= BUF_SIZE then |f| else BUF_SIZE;
    var a, x := TakenApart(f[..n]);
    PartialFits(x);
    var b, y := TakenApart(x + f[n..]);
    var s1 := START.(wire := f, kept := [p]);
    var s2 := s1.(read := n, inb := x, signalled := a);
    var s3 := s2.(read := |f|, inb := y, signalled := a + b);
    var e1, e2, e3 := Offer(p, |f|), Deliver(n), Deliver(|f| - n);
    OfferWhole(p);
    assert [] + f[0..n] == f[..n] && [] + a == a;
    DeliverStep(s1, n, a, x);
    DeliverStep(s2, |f| - n, b, y);
    states, events := [START, s1, s2, s3], [e1, e2, e3];
    ThreeSteps(s1, s2, s3, e1, e2, e3);
  }

  lemma OfferWhole(p: Packet)
    requires |p| <= BUF_SIZE
    ensures Step(START, Offer(p, |Frame(p)|), START.(wire := Frame(p), kept := [p]))
  {
    hide Wire, Frame;
    FrameLength(p);
    var f := Frame(p);
    assert f[..|f|] == f && f[|f|..] == [] && [] + f == f && [] + [p] == [p];
  }

  lemma ThreeSteps(s1: Link, s2: Link, s3: Link, e1: Event, e2: Event, e3: Event)
    requires Step(START, e1, s1) && Step(s1, e2, s2) && Step(s2, e3, s3)
    ensures Run([START, s1, s2, s3], [e1, e2, e3])
  {
    hide Step;
  }

  lemma DeliverStep(s: Link, n: nat, now: seq<Packet>, left: seq<Byte>)
    requires Enabled(s, Deliver(n)) && s.read + n <= |s.wire| && Small(now) && Partial(left)
    requires Wire(now) + left == s.inb + s.wire[s.read..s.read + n]
    ensures Step(s, Deliver(n), s.(read := s.read + n, inb := left, signalled := s.signalled + now))
  {
    hide Wire;
    assert (s.signalled + now)[|s.signalled|..] == now;
  }

  // A packet the size check admits arrives intact in every run that carries it alone, if and only
  // if it has at most 65535 bytes.
  lemma IntactExactly(p: Packet)
    requires |p| <= BUF_SIZE
    ensures (forall states: seq<Link>, events: seq<Event>, i: nat ::
               Run(states, events) && i < |states| && Drained(states[i]) && states[i].kept == [p] ==>
                 states[i].signalled == [p])
            <==> |p| <= MAX_PREFIX
  {
    hide Run, Wire;
    if |p| <= MAX_PREFIX {
      forall states: seq<Link>, events: seq<Event>, i: nat
        | Run(states, events) && i < |states| && Drained(states[i]) && states[i].kept == [p]
        ensures states[i].signalled == [p]
      {
        EndToEnd(states, events, i);
      }
    } else {
      var states, events := LoneRun(p);
      RunInv(states, events, 3);
      assert !Small([p]) by { assert [p][0] == p; }
    }
  }

  // ----- the code of both ends takes these steps

  class Connection {
    const sender: AsyncTCPSocket
    const receiver: AsyncTCPSocket
    ghost var link: Link

    ghost predicate Valid()
      reads this, sender, sender.outbuf, receiver, receiver.inbuf
    {
      && sender != receiver && sender.Valid() && receiver.Valid() && sender.outbuf != receiver.inbuf
      && link.out == sender.Unsent() && link.inb == receiver.Unread()
      && Partial(link.inb) && link.read <= |link.wire|
    }

    constructor ()
      ensures Valid() && link == START
    {
      sender := new AsyncTCPSocket();
      receiver := new AsyncTCPSocket();
      link := START;
    }

    method Offer(p: Packet, res: int) returns (stopped: bool)
      requires Valid()
      modifies this, sender, sender.outbuf
      ensures stopped <==> old(link.out) == [] && MAX_PREFIX < |p| <= BUF_SIZE
      ensures !stopped ==> Valid() && Step(old(link), Event.Offer(p, res), link)
    {
      hide Frame;
      ghost var s := link;
      var r, sent;
      r, sent, stopped := sender.Send(p, res);
      if !stopped && |p| <= BUF_SIZE {
        link := s.(out := sender.Unsent(), wire := s.wire + sent,
                   kept := if s.out == [] && Goes(res, |Frame(p)|) then s.kept + [p] else s.kept);
      }
    }

    method Writable(res: int)
      requires Valid()
      modifies this, sender, sender.outbuf
      ensures Valid() && Step(old(link), Event.Writable(res), link)
    {
      ghost var s := link;
      var sent, ready := sender.OnWriteEvent(res);
      link := s.(out := sender.Unsent(), wire := s.wire + sent);
    }

    // The receiver reads the next n bytes of the wire, which are `data`.
    method Deliver(n: nat, data: seq<Byte>) returns (signalled: seq<Packet>)
      requires Valid() && Enabled(link, Event.Deliver(n))
      requires link.read + n <= |link.wire| && data == link.wire[link.read..link.read + n]
      modifies this, receiver, receiver.inbuf
      ensures Valid() && Step(old(link), Event.Deliver(n), link)
      ensures link.signalled == old(link.signalled) + signalled
    {
      hide Wire;
      ghost var s := link;
      var overflow;
      signalled, overflow := receiver.OnReadEvent(data, false);
      DeliverStep(s, n, signalled, receiver.Unread());
      link := s.(read := s.read + n, inb := receiver.Unread(), signalled := s.signalled + signalled);
    }
  }
}
