// The growing byte buffer of WebRtc_AMP_Port/webrtc/base/bytebuffer.cc: typed values in
// either byte order over a first-in first-out store with versioned read positions.
module ByteBuffers {

  import Arith
  import opened Bytes
  import opened Wrappers

  const DEFAULT_SIZE: nat := 4096

  // ---- numbers as bytes ----

  datatype Order = Network | Host

  function Pow256(n: nat): (p: nat)
    ensures p >= 1
  {
    if n == 0 then 1 else 256 * Pow256(n - 1)
  }

  /** The `n` low bytes of `v`, most significant first or last. */
  function Fixed(big: bool, n: nat, v: nat): (r: seq<Byte>)
    ensures |r| == n
    decreases n
  {
    if n == 0 then []
    else if big then Fixed(big, n - 1, v / 256) + [v % 256]
    else [v % 256] + Fixed(big, n - 1, v / 256)
  }

  function Value(big: bool, s: seq<Byte>): (v: nat)
    decreases |s|
  {
    if s == [] then 0
    else if big then 256 * Value(big, s[..|s| - 1]) + s[|s| - 1]
    else s[0] + 256 * Value(big, s[1..])
  }

  lemma SplitModulus(v: nat, p: nat)
    requires p >= 1
    ensures v % (256 * p) == 256 * (v / 256 % p) + v % 256
  {
    var q, r := v / 256 / p, v / 256 % p;
    assert v / 256 == p * q + r;
    assert v == 256 * (p * q + r) + v % 256;
    Regroup(p, q);
    Arith.ModUnique(v, 256 * p, q, 256 * r + v % 256);
  }

  lemma Regroup(p: nat, q: nat)
    ensures 256 * (p * q) == (256 * p) * q
  {}

  /** Reading the bytes of a number gives it back, reduced to its width. */
  lemma {:induction false} NumberBack(big: bool, n: nat, v: nat)
    ensures Value(big, Fixed(big, n, v)) == v % Pow256(n)
    decreases n
  {
    if n > 0 {
      NumberBack(big, n - 1, v / 256);
      SplitModulus(v, Pow256(n - 1));
      var s := Fixed(big, n, v);
      var rest := Fixed(big, n - 1, v / 256);
      if big {
        assert s[..|s| - 1] == rest && s[|s| - 1] == v % 256;
      } else {
        assert s[1..] == rest && s[0] == v % 256;
      }
    }
  }

  // The bytes of v, most significant first, as many as s has; and least significant first.
  ghost predicate MostFirst(v: nat, s: seq<Byte>) {
    forall k :: 0 <= k < |s| ==> s[k] == v / Pow256(|s| - 1 - k) % 256
  }

  ghost predicate LeastFirst(v: nat, s: seq<Byte>) {
    forall k :: 0 <= k < |s| ==> s[k] == v / Pow256(k) % 256
  }

  lemma {:induction false} FixedMost(n: nat, v: nat)
    ensures MostFirst(v, Fixed(true, n, v))
    decreases n
  {
    if n > 0 {
      FixedMost(n - 1, v / 256);
      var b, s := Fixed(true, n - 1, v / 256), Fixed(true, n, v);
      forall k | 0 <= k < n ensures s[k] == v / Pow256(n - 1 - k) % 256 {
        if k < n - 1 {
          assert s[k] == b[k];
          Arith.DivDiv(v, 256, Pow256(n - 2 - k));
        }
      }
    }
  }

  lemma {:induction false} FixedLeast(n: nat, v: nat)
    ensures LeastFirst(v, Fixed(false, n, v))
    decreases n
  {
    if n > 0 {
      FixedLeast(n - 1, v / 256);
      var l, s := Fixed(false, n - 1, v / 256), Fixed(false, n, v);
      forall k | 0 <= k < n ensures s[k] == v / Pow256(k) % 256 {
        if k > 0 {
          assert s[k] == l[k - 1];
          Arith.DivDiv(v, 256, Pow256(k - 1));
        }
      }
    }
  }

  lemma {:induction false} MostBack(s: seq<Byte>)
    ensures Value(true, s) < Pow256(|s|) && MostFirst(Value(true, s), s)
    decreases |s|
  {
    if s != [] {
      var n, v, t := |s|, Value(true, s), s[..|s| - 1];
      MostBack(t);
      LowestByte(v, Value(true, t), s[n - 1]);
      forall k | 0 <= k < n ensures s[k] == v / Pow256(n - 1 - k) % 256 {
        if k < n - 1 {
          assert t[k] == s[k];
          Arith.DivDiv(v, 256, Pow256(n - 2 - k));
        }
      }
    }
  }

  lemma {:induction false} LeastBack(s: seq<Byte>)
    ensures Value(false, s) < Pow256(|s|) && LeastFirst(Value(false, s), s)
    decreases |s|
  {
    if s != [] {
      var n, v, t := |s|, Value(false, s), s[1..];
      LeastBack(t);
      LowestByte(v, Value(false, t), s[0]);
      forall k | 0 <= k < n ensures s[k] == v / Pow256(k) % 256 {
        if k > 0 {
          assert t[k - 1] == s[k];
          Arith.DivDiv(v, 256, Pow256(k - 1));
        }
      }
    }
  }

  lemma LowestByte(v: nat, u: nat, b: Byte)
    requires v == 256 * u + b
    ensures v / 256 == u && v % 256 == b
  {}

  // ---- the store ----

  datatype Position = Position(start: nat, version: nat)

  /** Capacity, read offset, everything stored since the last move, and the count of moves. */
  datatype Fifo = Fifo(size: nat, start: nat, past: seq<Byte>, version: nat) {

    predicate Ok() {
      start <= |past| <= size
    }

    function Contents(): seq<Byte>
      requires Ok()
    {
      past[start..]
    }

    function Resize(n: nat): (r: Fifo)
      requires Ok()
      ensures r.Ok() && r.version == version + 1 && r.start == 0 && r.size >= n && r.size >= size
      ensures r.Contents() == if n < |Contents()| then Contents()[..n] else Contents()
    {
      var kept := if n < |Contents()| then Contents()[..n] else Contents();
      Fifo(if n <= size then size else if n >= 3 * size / 2 then n else 3 * size / 2, 0, kept, version + 1)
    }

    function Write(data: seq<Byte>): (r: Fifo)
      requires Ok()
      ensures r.Ok() && r.Contents() == Contents() + data && r.version >= version
      ensures r.version == version ==> r == this.(past := past + data)
    {
      var need := |Contents()| + |data|;
      var room := if need > size - start then Resize(need) else this;
      room.(past := room.past + data)
    }

    function Skip(n: nat): (r: Fifo)
      requires Ok()
      ensures r.Ok() && r.Contents() == if n > |Contents()| then Contents() else Contents()[n..]
    {
      if n > |Contents()| then this else this.(start := start + n)
    }

    function Mark(): Position {
      Position(start, version)
    }

    // A position the buffer handed out lies within what it still stores, while the version stays.
    predicate Issued(p: Position) {
      p.version == version ==> p.start <= |past|
    }

    function Restore(p: Position): (r: Fifo)
      requires Ok() && Issued(p)
      ensures r.Ok()
    {
      if p.version != version then this else this.(start := p.start)
    }

    function Clear(): (r: Fifo)
      ensures r.Ok() && r.Contents() == []
    {
      Fifo(size, 0, [], version + 1)
    }
  }

  datatype Op = Write(data: seq<Byte>) | Skip(n: nat) | Resize(n: nat) | Restore(to: Position) | Clear

  function Step(f: Fifo, op: Op): (r: Fifo)
    requires f.Ok()
    ensures r.Ok()
  {
    match op
    case Write(data) => f.Write(data)
    case Skip(n) => f.Skip(n)
    case Resize(n) => f.Resize(n)
    case Restore(to) => if f.Issued(to) then f.Restore(to) else f
    case Clear => f.Clear()
  }

  function Run(f: Fifo, ops: seq<Op>): (r: Fifo)
    requires f.Ok()
    ensures r.Ok()
    decreases |ops|
  {
    if ops == [] then f else Run(Step(f, ops[0]), ops[1..])
  }

  function Written(ops: seq<Op>): seq<Byte> {
    if ops == [] then [] else Stored(ops[0]) + Written(ops[1..])
  }

  /** The bytes handed out by the reads of a run. */
  function Got(f: Fifo, ops: seq<Op>): seq<Byte>
    requires f.Ok()
    decreases |ops|
  {
    if ops == [] then []
    else
      Handed(f, ops[0]) + Got(Step(f, ops[0]), ops[1..])
  }

  // Reads and writes, and resizes that keep everything.
  predicate Orderly(f: Fifo, ops: seq<Op>)
    requires f.Ok()
    decreases |ops|
  {
    ops == [] ||
    ((ops[0].Write? || ops[0].Skip? || (ops[0].Resize? && ops[0].n >= |f.Contents()|))
     && Orderly(Step(f, ops[0]), ops[1..]))
  }

  /** A write that fits behind the unread bytes neither moves nor drops anything, so that positions stay
      good; neither does a read. */
  lemma RoomKeepsVersion(f: Fifo, data: seq<Byte>, n: nat)
    requires f.Ok()
    ensures f.Write(data).version == f.version <==> |f.Contents()| + |data| <= f.size - f.start
    ensures f.Skip(n).version == f.version && f.Skip(n).past == f.past
    ensures f.Write(data).version > f.version ==> f.Write(data).start == 0 && f.Write(data).version == f.version + 1
    ensures var need := |f.Contents()| + |data|;
      f.Write(data).size == if need <= f.size then f.size else if need >= 3 * f.size / 2 then need else 3 * f.size / 2
  {}

  /** First in, first out, across growth and compaction: what is read and what is left is what was
      there and what was written. */
  lemma {:induction false} FirstInFirstOut(f: Fifo, ops: seq<Op>)
    requires f.Ok() && Orderly(f, ops)
    ensures Got(f, ops) + Run(f, ops).Contents() == f.Contents() + Written(ops)
    decreases |ops|
  {
    hide Step;
    if ops != [] {
      var op, g := ops[0], Step(f, ops[0]);
      StepKeeps(f, op);
      FirstInFirstOut(g, ops[1..]);
      Reassociate(Handed(f, op), g.Contents(), f.Contents(), Stored(op), Written(ops[1..]),
                  Got(g, ops[1..]), Run(g, ops[1..]).Contents());
    }
  }

  // The bytes one operation hands out, and those it stores.
  function Handed(f: Fifo, op: Op): seq<Byte>
    requires f.Ok()
  {
    if op.Skip? && op.n <= |f.Contents()| then f.Contents()[..op.n] else []
  }

  function Stored(op: Op): seq<Byte> {
    if op.Write? then op.data else []
  }

  lemma StepKeeps(f: Fifo, op: Op)
    requires f.Ok() && (op.Write? || op.Skip? || (op.Resize? && op.n >= |f.Contents()|))
    ensures Handed(f, op) + Step(f, op).Contents() == f.Contents() + Stored(op)
  {
    hide Fifo.Contents, Fifo.Write, Fifo.Skip, Fifo.Resize;
    var c, g := f.Contents(), Step(f, op);
    if op.Skip? && op.n <= |c| { assert c[..op.n] + c[op.n..] == c; }
  }

  lemma Reassociate(t: seq<Byte>, c: seq<Byte>, d: seq<Byte>, w: seq<Byte>, ws: seq<Byte>, got: seq<Byte>,
                    left: seq<Byte>)
    requires t + c == d + w && got + left == c + ws
    ensures (t + got) + left == d + (w + ws)
  {
    assert (t + got) + left == t + (got + left) == t + (c + ws) == (t + c) + ws == (d + w) + ws;
  }

  // While the version stays, the store only grows, by what is written.
  lemma {:induction false} PastGrows(f: Fifo, ops: seq<Op>)
    requires f.Ok()
    ensures Run(f, ops).version >= f.version
    ensures Run(f, ops).version == f.version ==> Run(f, ops).past == f.past + Written(ops)
    decreases |ops|
  {
    hide Step;
    if ops != [] {
      StepGrows(f, ops[0]);
      PastGrows(Step(f, ops[0]), ops[1..]);
      if ops[0].Write? {
        assert f.past + ops[0].data + Written(ops[1..]) == f.past + (ops[0].data + Written(ops[1..]));
      } else {
        assert Written(ops) == Written(ops[1..]);
      }
    } else {
      assert f.past + [] == f.past;
    }
  }

  lemma StepGrows(f: Fifo, op: Op)
    requires f.Ok()
    ensures Step(f, op).version >= f.version
    ensures Step(f, op).version == f.version ==> Step(f, op).past == f.past + if op.Write? then op.data else []
  {
    assert f.past + [] == f.past;
  }

  /** A read position whose version still matches is within bounds, and restores exactly the bytes
      unread when it was taken followed by everything written since. */
  lemma PositionKept(f: Fifo, ops: seq<Op>)
    requires f.Ok()
    ensures var g := Run(f, ops);
      g.Issued(f.Mark())
      && (g.version == f.version ==> g.Restore(f.Mark()).Contents() == f.Contents() + Written(ops))
      && (g.version != f.version ==> g.Restore(f.Mark()) == g)
  {
    PastGrows(f, ops);
  }

  // ---- typed values ----

  datatype Kind = UInt8 | UInt16 | UInt24 | UInt32 | UInt64 {
    function Width(): (n: nat)
      ensures 1 <= n <= 8
    {
      match this case UInt8 => 1 case UInt16 => 2 case UInt24 => 3 case UInt32 => 4 case UInt64 => 8
    }
  }

  lemma Widths()
    ensures UInt8.Width() == 1 && UInt16.Width() == 2 && UInt24.Width() == 3
    ensures UInt32.Width() == 4 && UInt64.Width() == 8
  {}

  datatype Item = Number(kind: Kind, value: nat) | Text(text: seq<Byte>) {
    function Wire(big: bool): seq<Byte> {
      match this case Number(k, v) => Fixed(big, k.Width(), v) case Text(t) => t
    }

    // What a reader of the item's type and length gets back.
    function Kept(): Item {
      match this case Number(k, v) => Number(k, v % Pow256(k.Width())) case Text(t) => this
    }

    function Length(): nat {
      match this case Number(k, v) => k.Width() case Text(t) => |t|
    }
  }

  function Wires(big: bool, items: seq<Item>): seq<Byte> {
    if items == [] then [] else items[0].Wire(big) + Wires(big, items[1..])
  }

  /** The items read from `s` by a reader that asks for the types and lengths of `like`, if enough bytes are there. */
  function ReadLike(big: bool, s: seq<Byte>, like: seq<Item>): Option<(seq<Item>, seq<Byte>)>
    decreases |like|
  {
    if like == [] then Some(([], s))
    else if like[0].Length() > |s| then None
    else
      var n := like[0].Length();
      var item := match like[0] case Number(k, _) => Number(k, Value(big, s[..n])) case Text(_) => Text(s[..n]);
      match ReadLike(big, s[n..], like[1..])
      case None => None
      case Some((items, rest)) => Some(([item] + items, rest))
  }

  function KeptAll(items: seq<Item>): seq<Item> {
    seq(|items|, i requires 0 <= i < |items| => items[i].Kept())
  }

  // One item at the front: it is read back, and the reader goes on after it.
  lemma FirstItemBack(big: bool, items: seq<Item>, tail: seq<Byte>)
    requires items != []
    ensures ReadLike(big, items[0].Wire(big) + tail, items) ==
            match ReadLike(big, tail, items[1..])
            case None => None
            case Some((rest, left)) => Some(([items[0].Kept()] + rest, left))
  {
    hide Fixed, Value, Pow256;
    var w := items[0].Wire(big);
    assert |w| == items[0].Length();
    assert (w + tail)[..|w|] == w && (w + tail)[|w|..] == tail;
    if items[0].Number? {
      NumberBack(big, items[0].kind.Width(), items[0].value);
    }
  }

  /** Any sequence of typed writes reads back in order, in both byte orders. */
  lemma {:induction false} ItemsBack(big: bool, items: seq<Item>, rest: seq<Byte>)
    ensures ReadLike(big, Wires(big, items) + rest, items) == Some((KeptAll(items), rest))
    decreases |items|
  {
    if items == [] {
      assert Wires(big, items) + rest == rest;
      assert KeptAll(items) == [];
    } else {
      hide ReadLike, KeptAll, Item.Wire, Item.Kept;
      var tail := Wires(big, items[1..]) + rest;
      assert Wires(big, items) + rest == items[0].Wire(big) + tail;
      FirstItemBack(big, items, tail);
      ItemsBack(big, items[1..], rest);
      KeptNext(items);
    }
  }

  lemma KeptNext(items: seq<Item>)
    requires items != []
    ensures KeptAll(items) == [items[0].Kept()] + KeptAll(items[1..])
  {
    hide Item.Kept;
  }

  lemma OneNumber(big: bool, s: seq<Byte>, kind: Kind)
    ensures ReadLike(big, s, [Number(kind, 0)]) ==
            if kind.Width() > |s| then None
            else Some(([Number(kind, Value(big, s[..kind.Width()]))], s[kind.Width()..]))
  {
    hide Value;
    if kind.Width() <= |s| {
      assert ReadLike(big, s[kind.Width()..], [Number(kind, 0)][1..]) == Some(([], s[kind.Width()..]));
      assert [Number(kind, Value(big, s[..kind.Width()]))] + [] == [Number(kind, Value(big, s[..kind.Width()]))];
    }
  }

  lemma WriteIs(f: Fifo, data: seq<Byte>)
    requires f.Ok()
    ensures var need := |f.Contents()| + |data|;
      var room := if need > f.size - f.start then f.Resize(need) else f;
      f.Write(data) == room.(past := room.past + data)
  {
    hide Fifo.Resize;
  }

  lemma UnreadIs(f: Fifo)
    requires f.Ok()
    ensures |f.Contents()| == |f.past| - f.start
  {}

  // What is written goes behind the bytes of the room made for it.
  lemma RoomIs(f: Fifo, room: Fifo, len: nat)
    requires f.Ok()
    requires var need := |f.Contents()| + len; room == if need > f.size - f.start then f.Resize(need) else f
    ensures forall data: seq<Byte> {:trigger f.Write(data)} :: |data| == len ==>
              f.Write(data) == Fifo(room.size, room.start, room.past + data, room.version)
  {
    hide Fifo.Resize, Fifo.Write, Fifo.Contents;
    forall data: seq<Byte> | |data| == len
      ensures f.Write(data) == Fifo(room.size, room.start, room.past + data, room.version)
    {
      WriteIs(f, data);
    }
  }

  lemma ResizeIs(f: Fifo, n: nat, kept: seq<Byte>)
    requires f.Ok() && kept == if n < |f.Contents()| then f.Contents()[..n] else f.Contents()[..|f.Contents()|]
    ensures var size := if n <= f.size then f.size else if n >= 3 * f.size / 2 then n else 3 * f.size / 2;
      f.Resize(n) == Fifo(size, 0, kept, f.version + 1)
  {
    assert f.Contents()[..|f.Contents()|] == f.Contents();
  }

  lemma SplitAt(s: seq<Byte>, i: nat, j: nat)
    requires i <= j <= |s|
    ensures s[..j] == s[..i] + s[i..j]
  {}

  lemma SliceOfPrefix(s: seq<Byte>, end: nat, start: nat, len: nat)
    requires start + len <= end <= |s|
    ensures s[..end][start..][..len] == s[start..start + len]
  {}

  // ---- the code ----

  method MoveDown(bytes: array<Byte>, start: nat, len: nat)
    requires start + len <= bytes.Length
    modifies bytes
    ensures bytes[..len] == old(bytes[start..start + len])
  {
    for i := 0 to len
      invariant bytes[..i] == old(bytes[start..start + i])
      invariant forall j :: i <= j < bytes.Length ==> bytes[j] == old(bytes[j])
    {
      bytes[i] := bytes[start + i];
    }
  }

  method Reallocate(bytes: array<Byte>, start: nat, len: nat, size: nat) returns (larger: array<Byte>)
    requires start + len <= bytes.Length && len <= size
    ensures fresh(larger) && larger.Length == size && larger[..len] == bytes[start..start + len]
  {
    larger := new Byte[size](_ => 0);
    for i := 0 to len
      invariant larger[..i] == bytes[start..start + i]
    {
      larger[i] := bytes[start + i];
    }
  }

  method Fill(bytes: array<Byte>, at: nat, val: seq<Byte>)
    requires at + |val| <= bytes.Length
    modifies bytes
    ensures bytes[..at] == old(bytes[..at]) && bytes[at..at + |val|] == val
  {
    for i := 0 to |val|
      invariant bytes[..at] == old(bytes[..at]) && bytes[at..at + i] == val[..i]
    {
      bytes[at + i] := val[i];
    }
  }

  class ByteBuffer {
    var bytes: array<Byte>
    var start: nat
    var end: nat
    var version: nat
    const order: Order
    const hostIsBig: bool

    ghost predicate Valid()
      reads this
    {
      start <= end <= bytes.Length
    }

    ghost function View(): (f: Fifo)
      requires Valid()
      reads this, bytes
      ensures f.Ok()
    {
      Fifo(bytes.Length, start, bytes[..end], version)
    }

    predicate Big() {
      order.Network? || hostIsBig
    }

    constructor (order: Order, hostIsBig: bool)
      ensures Valid() && fresh(bytes) && View() == Fifo(4096, 0, [], 0)
      ensures this.order == order && this.hostIsBig == hostIsBig
    {
      this.order, this.hostIsBig := order, hostIsBig;
      bytes := new Byte[DEFAULT_SIZE](_ => 0);
      start, end, version := 0, 0, 0;
    }

    constructor Holding(data: seq<Byte>, order: Order, hostIsBig: bool)
      ensures Valid() && fresh(bytes) && View() == Fifo(|data|, 0, data, 0)
      ensures this.order == order && this.hostIsBig == hostIsBig
    {
      this.order, this.hostIsBig := order, hostIsBig;
      var b := new Byte[|data|](i requires 0 <= i < |data| => data[i]);
      bytes, start, end, version := b, 0, |data|, 0;
      new;
      assert b[..|data|] == data;
    }

    method Resize(size: nat)
      requires Valid()
      modifies this, bytes
      ensures Valid() && View() == old(View()).Resize(size)
      ensures bytes == old(bytes) || fresh(bytes)
    {
      hide Fifo.Resize;
      var len := if end - start < size then end - start else size;
      ghost var kept := bytes[start..start + len];
      SliceOfPrefix(bytes[..], end, start, len);
      ResizeIs(View(), size, kept);
      if size <= bytes.Length {
        MoveDown(bytes, start, len);
      } else {
        var larger := if size >= 3 * bytes.Length / 2 then size else 3 * bytes.Length / 2;
        bytes := Reallocate(bytes, start, len, larger);
      }
      start, end, version := 0, len, version + 1;
      assert bytes[..end] == kept;
    }

    // Room for len more bytes, which the caller fills from the offset returned.
    method ReserveWriteBuffer(len: nat) returns (at: nat)
      requires Valid()
      modifies this, bytes
      ensures Valid() && at + len == end && start <= at
      ensures bytes == old(bytes) || fresh(bytes)
      ensures forall data: seq<Byte> {:trigger old(View()).Write(data)} :: |data| == len ==>
                old(View()).Write(data) == Fifo(bytes.Length, start, bytes[..at] + data, version)
    {
      hide Fifo.Resize, Fifo.Write, Fifo.Contents;
      ghost var f := View();
      UnreadIs(f);
      if end - start + len > bytes.Length - start {
        Resize(end - start + len);
      }
      ghost var room := View();
      UnreadIs(room);
      RoomIs(f, room, len);
      at := end;
      end := end + len;
      assert bytes[..at] == room.past;
    }

    method WriteBytes(val: seq<Byte>)
      requires Valid()
      modifies this, bytes
      ensures Valid() && View() == old(View()).Write(val)
      ensures bytes == old(bytes) || fresh(bytes)
    {
      hide Fifo.Write;
      var at := ReserveWriteBuffer(|val|);
      ghost var front := bytes[..at];
      Fill(bytes, at, val);
      SplitAt(bytes[..], at, end);
    }

    // WriteUInt8 to WriteUInt64 and WriteString.
    method WriteItem(item: Item)
      requires Valid()
      modifies this, bytes
      ensures Valid() && View() == old(View()).Write(item.Wire(Big()))
      ensures bytes == old(bytes) || fresh(bytes)
      ensures item.Number? ==>
                var c, d := old(View()).Contents(), View().Contents();
                && |d| == |c| + item.kind.Width() && d[..|c|] == c
                && (order.Network? ==> MostFirst(item.value, d[|c|..]))
                && (order.Host? ==>
                      if hostIsBig then MostFirst(item.value, d[|c|..]) else LeastFirst(item.value, d[|c|..]))
      ensures item.Text? ==> View().Contents() == old(View()).Contents() + item.text
    {
      ghost var c, w := View().Contents(), item.Wire(Big());
      if item.Number? {
        FixedMost(item.kind.Width(), item.value);
        FixedLeast(item.kind.Width(), item.value);
      }
      WriteBytes(item.Wire(Big()));
      assert (c + w)[..|c|] == c && (c + w)[|c|..] == w;
    }

    method ReadBytes(len: nat) returns (val: Option<seq<Byte>>)
      requires Valid()
      modifies `start
      ensures Valid() && View() == old(View()).Skip(len)
      ensures val == if len > |old(View()).Contents()| then None else Some(old(View()).Contents()[..len])
    {
      if len > end - start {
        return None;
      }
      val := Some(bytes[start..start + len]);
      SliceOfPrefix(bytes[..], end, start, len);
      assert bytes[..][..end] == bytes[..end] && bytes[..][start..start + len] == bytes[start..start + len];
      start := start + len;
    }

    // ReadUInt8 to ReadUInt64.
    method ReadNumber(kind: Kind) returns (val: Option<nat>)
      requires Valid()
      modifies `start
      ensures Valid() && View() == old(View()).Skip(kind.Width())
      ensures val == match ReadLike(Big(), old(View()).Contents(), [Number(kind, 0)])
                     case None => None
                     case Some((items, rest)) => Some(items[0].value)
      ensures val.None? <==> kind.Width() > |old(View()).Contents()|
      ensures val.Some? ==>
                var s := old(View()).Contents()[..kind.Width()];
                && val.value < Pow256(kind.Width())
                && (order.Network? ==> MostFirst(val.value, s))
                && (order.Host? ==> if hostIsBig then MostFirst(val.value, s) else LeastFirst(val.value, s))
    {
      ghost var s := View().Contents();
      var v := ReadBytes(kind.Width());
      if v.None? {
        return None;
      }
      OneNumber(Big(), s, kind);
      if Big() { MostBack(s[..kind.Width()]); } else { LeastBack(s[..kind.Width()]); }
      val := Some(Value(Big(), v.value));
    }

    method Consume(size: nat) returns (ok: bool)
      requires Valid()
      modifies `start
      ensures Valid() && View() == old(View()).Skip(size) && ok == (size <= |old(View()).Contents()|)
    {
      if size > end - start {
        return false;
      }
      start := start + size;
      return true;
    }

    method GetReadPosition() returns (p: Position)
      requires Valid()
      ensures p == View().Mark()
    {
      p := Position(start, version);
    }

    method SetReadPosition(p: Position) returns (ok: bool)
      requires Valid() && View().Issued(p)
      modifies `start
      ensures Valid() && View() == old(View()).Restore(p) && ok == (p.version == version)
    {
      if p.version != version {
        return false;
      }
      start := p.start;
      return true;
    }

    method Clear()
      requires Valid()
      modifies this, bytes
      ensures Valid() && View() == old(View()).Clear() && bytes == old(bytes)
    {
      Fill(bytes, 0, seq(bytes.Length, _ => 0));
      start, end, version := 0, 0, version + 1;
    }
  }
}
