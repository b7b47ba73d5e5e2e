// The lock states and the accounting of WebRtc_AMP_Port/webrtc/base/diskcache.cc. What the file
// system answers, and which idle entry an eviction picks, are parameters.
module DiskCaches {

  /** The name of a resource. */
  datatype Id = Id(name: string)

  datatype LockState = Unlocked | Locked | Unlocking

  datatype Entry = Entry(lockState: LockState, accessors: nat, size: nat, streams: nat) {
    predicate Idle() {
      lockState.Unlocked? && accessors == 0
    }

    // Locked by a writer, or being read.
    predicate Taken() {
      lockState.Locked? || (lockState.Unlocked? && accessors > 0)
    }
  }

  // Which entry the scan of the map settles on, and whether all files of an entry could be erased.
  type Scan = map<Id, Entry> -> Id
  type Erased = Id -> bool

  const FRESH := Entry(Unlocked, 0, 0, 0)

  // An open stream adapter.
  datatype Adapter = Adapter(id: Id, writing: bool)

  // ---- sums over a map ----

  ghost function Total(m: map<Id, nat>): nat
    decreases |m|
  {
    if |m| == 0 then 0 else m[Pick(m)] + Total(m - {Pick(m)})
  }

  ghost function Pick(m: map<Id, nat>): (k: Id)
    requires |m| > 0
    ensures k in m
  {
    var k :| k in m;
    k
  }

  lemma {:induction false} TotalTake(m: map<Id, nat>, k: Id)
    requires k in m
    ensures Total(m) == m[k] + Total(m - {k})
    decreases |m|
  {
    var j := Pick(m);
    if j != k {
      TotalTake(m - {j}, k);
      TotalTake(m - {k}, j);
      assert m - {j} - {k} == m - {k} - {j};
    }
  }

  lemma TotalSet(m: map<Id, nat>, k: Id, v: nat)
    ensures Total(m[k := v]) == Total(m) - (if k in m then m[k] else 0) + v
  {
    TotalTake(m[k := v], k);
    assert m[k := v] - {k} == m - {k};
    if k in m {
      TotalTake(m, k);
    } else {
      assert m - {k} == m;
    }
  }

  function Sizes(m: map<Id, Entry>): map<Id, nat> {
    map k | k in m :: m[k].size
  }

  function Accessors(m: map<Id, Entry>): map<Id, nat> {
    map k | k in m :: m[k].accessors
  }

  lemma SetEntry(m: map<Id, Entry>, k: Id, e: Entry)
    ensures Total(Sizes(m[k := e])) == Total(Sizes(m)) - (if k in m then m[k].size else 0) + e.size
    ensures Total(Accessors(m[k := e])) == Total(Accessors(m)) - (if k in m then m[k].accessors else 0) + e.accessors
  {
    hide Total;
    TotalSet(Sizes(m), k, e.size);
    TotalSet(Accessors(m), k, e.accessors);
    assert Sizes(m[k := e]) == Sizes(m)[k := e.size];
    assert Accessors(m[k := e]) == Accessors(m)[k := e.accessors];
  }

  lemma DropEntry(m: map<Id, Entry>, k: Id)
    requires k in m
    ensures Total(Sizes(m - {k})) == Total(Sizes(m)) - m[k].size
    ensures Total(Accessors(m - {k})) == Total(Accessors(m)) - m[k].accessors
  {
    hide Total;
    TotalTake(Sizes(m), k);
    TotalTake(Accessors(m), k);
    assert Sizes(m - {k}) == Sizes(m) - {k};
    assert Accessors(m - {k}) == Accessors(m) - {k};
  }

  ghost function Holders(open: map<nat, Adapter>, id: Id): set<nat> {
    set h | h in open && open[h].id == id
  }

  lemma HoldersAdd(open: map<nat, Adapter>, h: nat, a: Adapter, id: Id)
    requires h !in open
    ensures |Holders(open[h := a], id)| == |Holders(open, id)| + if a.id == id then 1 else 0
  {
    if a.id == id {
      assert Holders(open[h := a], id) == Holders(open, id) + {h};
    } else {
      assert Holders(open[h := a], id) == Holders(open, id);
    }
  }

  lemma HoldersDrop(open: map<nat, Adapter>, h: nat, id: Id)
    requires h in open
    ensures |Holders(open - {h}, id)| == |Holders(open, id)| - if open[h].id == id then 1 else 0
  {
    if open[h].id == id {
      assert Holders(open, id) == Holders(open - {h}, id) + {h};
    } else {
      assert Holders(open - {h}, id) == Holders(open, id);
    }
  }

  // ---- what every operation keeps ----

  /** The entries, the two totals, and the adapters handed out and not yet closed. */
  datatype State = State(entries: map<Id, Entry>, totalSize: int, totalAccessors: int, open: map<nat, Adapter>) {

    // An entry's accessors are the adapters open on it; writers hold locked or unlocking entries
    // and readers unlocked ones; an unlocking entry waits for someone.
    ghost predicate Coherent(id: Id)
      requires id in entries
    {
      entries[id].accessors == |Holders(open, id)| && (entries[id].lockState.Unlocking? ==> entries[id].accessors > 0)
    }

    ghost predicate Ok() {
      && totalSize == Total(Sizes(entries))
      && totalAccessors == Total(Accessors(entries)) == |open|
      && (forall id :: id in entries ==> Coherent(id))
      && (forall h :: h in open ==> open[h].id in entries)
      && (forall h :: h in open ==> (open[h].writing <==> !entries[open[h].id].lockState.Unlocked?))
    }

    // GetOrCreateEntry, creating.
    function Entered(id: Id): (s: State)
      ensures id in s.entries
    {
      if id in entries then this else this.(entries := entries[id := FRESH])
    }

    // An entry replaced, its size accounted for.
    function Put(id: Id, e: Entry): State
      requires id in entries
    {
      this.(entries := entries[id := e], totalSize := totalSize - entries[id].size + e.size)
    }

    function Open(h: nat, a: Adapter): State {
      this.(open := open[h := a], totalAccessors := totalAccessors + 1)
    }

    function Close(h: nat): State {
      this.(open := open - {h}, totalAccessors := totalAccessors - 1)
    }

    // An entry replaced without touching its adapters.
    lemma Replaced(id: Id, e: Entry)
      requires Ok()
      requires id in entries ==>
                 e.accessors == entries[id].accessors && (e.lockState.Unlocked? <==> entries[id].lockState.Unlocked?)
      requires id !in entries ==> e.accessors == 0
      requires e.lockState.Unlocking? ==> e.accessors > 0
      ensures var size := if id in entries then entries[id].size else 0;
        this.(entries := entries[id := e], totalSize := totalSize - size + e.size).Ok()
    {
      hide Total, Sizes, Accessors;
      SetEntry(entries, id, e);
      if id !in entries { NoHolders(id); }
    }

    // The lock of an entry nobody uses may change.
    lemma Relocked(id: Id, e: Entry)
      requires Ok() && id in entries && entries[id].accessors == e.accessors == 0 && e.size == entries[id].size
      requires !e.lockState.Unlocking?
      ensures this.(entries := entries[id := e]).Ok()
    {
      hide Total, Sizes, Accessors;
      SetEntry(entries, id, e);
      NobodyHolds(id);
    }

    lemma NoHolders(id: Id)
      requires Ok() && id !in entries
      ensures Holders(open, id) == {}
    {}

    lemma NobodyHolds(id: Id)
      requires Ok() && id in entries && entries[id].accessors == 0
      ensures Holders(open, id) == {} && forall h :: h in open ==> open[h].id != id
    {
      assert Coherent(id);
      forall h | h in open ensures open[h].id != id {
        assert h !in Holders(open, id);
      }
    }

    // An idle entry may go.
    lemma Dropped(id: Id)
      requires Ok() && id in entries && entries[id].Idle()
      ensures this.(entries := entries - {id}, totalSize := totalSize - entries[id].size).Ok()
    {
      hide Total, Sizes, Accessors;
      DropEntry(entries, id);
      NobodyHolds(id);
    }

    // An adapter opens on an entry in the matching state.
    lemma Opened(h: nat, a: Adapter, e: Entry)
      requires Ok() && h !in open && a.id in entries
      requires e.lockState == entries[a.id].lockState && e.accessors == entries[a.id].accessors + 1
      requires a.writing <==> !e.lockState.Unlocked?
      ensures State(entries[a.id := e], totalSize - entries[a.id].size + e.size, totalAccessors + 1, open[h := a]).Ok()
    {
      hide Total, Sizes, Accessors, Holders;
      SetEntry(entries, a.id, e);
      forall id | id in entries
        ensures |Holders(open[h := a], id)| == |Holders(open, id)| + if a.id == id then 1 else 0
      {
        HoldersAdd(open, h, a, id);
      }
    }

    // An adapter closes; the last one on an unlocking entry unlocks it.
    lemma Closed(h: nat, e: Entry)
      requires Ok() && h in open && open[h].id in entries
      requires var was := entries[open[h].id];
        e.accessors == was.accessors - 1
        && e.lockState == if was.lockState.Unlocking? && e.accessors == 0 then Unlocked else was.lockState
      ensures var id := open[h].id;
        State(entries[id := e], totalSize - entries[id].size + e.size, totalAccessors - 1, open - {h}).Ok()
    {
      hide Total, Sizes, Accessors, Holders;
      SetEntry(entries, open[h].id, e);
      forall id | id in entries
        ensures |Holders(open - {h}, id)| == |Holders(open, id)| - if open[h].id == id then 1 else 0
      {
        HoldersDrop(open, h, id);
      }
      var size := totalSize - entries[open[h].id].size + e.size;
      var left := State(entries[open[h].id := e], size, totalAccessors - 1, open - {h});
      assert left.Coherent(open[h].id);
      if e.accessors == 0 {
        forall k | k in open - {h} ensures open[k].id != open[h].id {
          NoneLeft(open - {h}, open[h].id, k);
        }
      }
      assert |open - {h}| == |open| - 1;
    }

    lemma NoneLeft(open: map<nat, Adapter>, id: Id, k: nat)
      requires |Holders(open, id)| == 0 && k in open
      ensures open[k].id != id
    {
      assert k !in Holders(open, id);
    }

    // The entry of an open adapter is there, and counts it.
    lemma HolderFound(h: nat)
      requires Ok() && h in open
      ensures open[h].id in entries && entries[open[h].id].accessors > 0 && totalAccessors > 0
    {
      hide Total, Sizes, Accessors;
      assert Coherent(open[h].id) && h in Holders(open, open[h].id);
      assert |open| > 0 by { assert h in open; }
    }

    /** No entry has an open reader and an open writer together; a locked entry has no readers,
        an unlocked one no writers; and an adapter's entry is there for it to release. */
    lemma Exclusion(h: nat, k: nat)
      requires Ok() && h in open && k in open && open[h].id == open[k].id
      ensures open[h].writing == open[k].writing
      ensures open[h].id in entries && (open[h].writing <==> !entries[open[h].id].lockState.Unlocked?)
    {
      hide Total, Sizes, Accessors, Holders;
    }
  }

  // ---- eviction ----

  predicate AnyIdle(m: map<Id, Entry>) {
    exists id :: id in m && m[id].Idle()
  }

  // Which entry the scan of the map settles on: some entry, as long as there is one.
  ghost predicate Settles(scan: Scan) {
    forall m: map<Id, Entry> :: m != map[] ==> scan(m) in m
  }

  datatype Eviction = Eviction(entries: map<Id, Entry>, totalSize: int, ok: bool)

  /** CheckLimit: while over the limit, delete the idle entry the scan settles on. An entry whose
      files cannot all be erased is gone, but ends the loop; so does an entry that is not idle. */
  function Evict(m: map<Id, Entry>, total: int, limit: int, scan: Scan, erased: Erased): Eviction
    decreases |m|
  {
    if total <= limit then Eviction(m, total, true)
    else if !AnyIdle(m) then Eviction(m, total, false)
    else
      var id := scan(m);
      if id !in m || !m[id].Idle() then Eviction(m, total, false)
      else if !erased(id) then Eviction(m - {id}, total - m[id].size, false)
      else EvictLess(m, id); Evict(m - {id}, total - m[id].size, limit, scan, erased)
  }

  lemma EvictLess(m: map<Id, Entry>, id: Id)
    requires id in m
    ensures |m - {id}| < |m|
  {
    assert (m - {id}).Keys == m.Keys - {id};
  }

  // Entries in use are untouched, and none is made.
  ghost predicate OnlyEvicts(m: map<Id, Entry>, n: map<Id, Entry>) {
    (forall id :: id in m && !m[id].Idle() ==> id in n)
    && (forall id :: id in n ==> id in m && n[id] == m[id])
  }

  lemma {:induction false} EvictOnly(m: map<Id, Entry>, total: int, limit: int, scan: Scan, erased: Erased)
    ensures OnlyEvicts(m, Evict(m, total, limit, scan, erased).entries)
    ensures Evict(m, total, limit, scan, erased).ok ==> Evict(m, total, limit, scan, erased).totalSize <= limit
    decreases |m|
  {
    if total > limit && AnyIdle(m) {
      var id := scan(m);
      if id in m && m[id].Idle() && erased(id) {
        EvictLess(m, id);
        EvictOnly(m - {id}, total - m[id].size, limit, scan, erased);
      }
    }
  }

  /** And no more are evicted than it takes: with one of those that went it would be over the limit. */
  lemma {:induction false} EvictNoMore(m: map<Id, Entry>, total: int, limit: int, scan: Scan, erased: Erased)
    ensures var v := Evict(m, total, limit, scan, erased);
      v.entries != m ==> exists id :: id in m && id !in v.entries && v.totalSize + m[id].size > limit
    decreases |m|
  {
    hide AnyIdle;
    if total > limit {
      EvictTurn(m, total, limit, scan, erased);
      var id := scan(m);
      if AnyIdle(m) && id in m && m[id].Idle() {
        var left, size := m - {id}, total - m[id].size;
        if erased(id) {
          var v := Evict(left, size, limit, scan, erased);
          EvictOnly(left, size, limit, scan, erased);
          EvictNoMore(left, size, limit, scan, erased);
          KeptTotal(left, size, limit, scan, erased);
          assert id !in v.entries;
        }
      }
    }
  }

  lemma KeptTotal(m: map<Id, Entry>, total: int, limit: int, scan: Scan, erased: Erased)
    ensures var v := Evict(m, total, limit, scan, erased); v.entries == m ==> v.totalSize == total
  {
    hide AnyIdle;
    if total > limit {
      EvictTurn(m, total, limit, scan, erased);
      if scan(m) in m { EvictOnly(m - {scan(m)}, total - m[scan(m)].size, limit, scan, erased); }
    }
  }

  lemma SomeSettled(m: map<Id, Entry>, scan: Scan)
    requires Settles(scan) && AnyIdle(m)
    ensures scan(m) in m
  {}

  // One turn of the loop.
  lemma EvictTurn(m: map<Id, Entry>, total: int, limit: int, scan: Scan, erased: Erased)
    requires total > limit
    ensures var v := Evict(m, total, limit, scan, erased);
      if AnyIdle(m) && scan(m) in m && m[scan(m)].Idle() then
        var left, size := m - {scan(m)}, total - m[scan(m)].size;
        |left| < |m|
        && v == if erased(scan(m)) then Evict(left, size, limit, scan, erased) else Eviction(left, size, false)
      else v == Eviction(m, total, false)
  {
    if scan(m) in m { EvictLess(m, scan(m)); }
  }

  // Why eviction may fail: over the limit and nothing idle is left, unless some file stays or the
  // scan misses the idle entries.
  ghost predicate NoneToEvict(scan: Scan, erased: Erased, total: int, limit: int, left: map<Id, Entry>) {
    PicksIdle(scan) && (forall k :: erased(k)) ==> total > limit && !AnyIdle(left)
  }

  lemma {:induction false} EvictFails(m: map<Id, Entry>, total: int, limit: int, scan: Scan, erased: Erased)
    requires !Evict(m, total, limit, scan, erased).ok
    ensures var v := Evict(m, total, limit, scan, erased); NoneToEvict(scan, erased, v.totalSize, limit, v.entries)
    decreases |m|
  {
    hide AnyIdle;
    if PicksIdle(scan) && (forall k :: erased(k)) && AnyIdle(m) {
      EvictLess(m, scan(m));
      EvictFails(m - {scan(m)}, total - m[scan(m)].size, limit, scan, erased);
    }
  }

  lemma EvictFacts(m: map<Id, Entry>, total: int, limit: int, scan: Scan, erased: Erased)
    ensures var v := Evict(m, total, limit, scan, erased);
      OnlyEvicts(m, v.entries)
      && (v.ok ==> v.totalSize <= limit)
      && (!v.ok ==> NoneToEvict(scan, erased, v.totalSize, limit, v.entries))
      && (total <= limit ==> v == Eviction(m, total, true))
  {
    hide Evict, OnlyEvicts, NoneToEvict;
    EvictOnly(m, total, limit, scan, erased);
    if !Evict(m, total, limit, scan, erased).ok { EvictFails(m, total, limit, scan, erased); }
    if total <= limit { NothingToEvict(m, total, limit, scan, erased); }
  }

  // Other entries are left as they were, but for idle ones evicted.
  ghost predicate OthersKept(m: map<Id, Entry>, n: map<Id, Entry>, id: Id) {
    (forall k :: k in m && k != id && !m[k].Idle() ==> k in n)
    && (forall k :: k in n && k != id ==> k in m && n[k] == m[k])
  }

  lemma OthersKeptOn(m: map<Id, Entry>, n: map<Id, Entry>, id: Id, e: Entry, f: Entry)
    requires OnlyEvicts(m[id := e], n)
    ensures OthersKept(m, n, id) && OthersKept(m, n[id := f], id)
  {}

  lemma Unevicted(m: map<Id, Entry>)
    ensures OnlyEvicts(m, m)
  {}

  lemma EvictedOne(m: map<Id, Entry>, n: map<Id, Entry>, id: Id)
    requires OnlyEvicts(m, n)
    ensures id in n ==> id in m && n[id] == m[id]
    ensures id in m && !m[id].Idle() ==> id in n
  {}

  // What all idle entries take up together.
  ghost function IdleSize(m: map<Id, Entry>): nat {
    Total(Sizes(IdleOf(m)))
  }

  function IdleOf(m: map<Id, Entry>): map<Id, Entry> {
    map k | k in m && m[k].Idle() :: m[k]
  }

  lemma IdleDrop(m: map<Id, Entry>, id: Id)
    requires id in m && m[id].Idle()
    ensures IdleSize(m - {id}) == IdleSize(m) - m[id].size
  {
    hide Total;
    assert IdleOf(m - {id}) == IdleOf(m) - {id};
    DropEntry(IdleOf(m), id);
  }

  lemma NoneIdle(m: map<Id, Entry>)
    requires !AnyIdle(m)
    ensures IdleSize(m) == 0
  {
    assert IdleOf(m) == map[];
    assert Sizes(IdleOf(m)) == map[];
  }

  // Evicting every idle entry would not be enough: the limit is not met.
  lemma {:induction false} NeverEnough(m: map<Id, Entry>, total: int, limit: int, scan: Scan, erased: Erased)
    requires total - IdleSize(m) > limit
    ensures !Evict(m, total, limit, scan, erased).ok
    decreases |m|
  {
    hide IdleSize;
    assert total > limit by { hide *; IdleNat(m); }
    if AnyIdle(m) {
      var id := scan(m);
      if id in m && m[id].Idle() && erased(id) {
        EvictLess(m, id);
        IdleDrop(m, id);
        NeverEnough(m - {id}, total - m[id].size, limit, scan, erased);
      }
    }
  }

  lemma IdleNat(m: map<Id, Entry>)
    ensures IdleSize(m) >= 0
  {}

  // The scan settles on an idle entry whenever there is one.
  ghost predicate PicksIdle(scan: Scan) {
    forall m: map<Id, Entry> :: AnyIdle(m) ==> scan(m) in m && m[scan(m)].Idle()
  }

  // It would be enough: the limit is met, or what is left over is in use.
  lemma {:induction false} EnoughExactly(m: map<Id, Entry>, total: int, limit: int, scan: Scan)
    requires PicksIdle(scan)
    ensures Evict(m, total, limit, scan, AllErased).ok <==> total <= limit || total - IdleSize(m) <= limit
    decreases |m|
  {
    hide IdleSize;
    IdleNat(m);
    if total > limit {
      if AnyIdle(m) {
        var id := scan(m);
        EvictLess(m, id);
        IdleDrop(m, id);
        IdleNat(m - {id});
        EnoughExactly(m - {id}, total - m[id].size, limit, scan);
      } else {
        NoneIdle(m);
      }
    }
  }

  function AllErased(id: Id): bool {
    true
  }

  // ---- the operations on the state ----

  // An entry after one of its adapters closes: a writer's bytes count, and the last writer on an
  // unlocking entry leaves it unlocked.
  function Released(e: Entry, fileSize: nat): Entry
    requires e.accessors > 0
  {
    match e.lockState
    case Unlocked => e.(accessors := e.accessors - 1)
    case Locked => e.(accessors := e.accessors - 1, size := e.size + fileSize)
    case Unlocking =>
      Entry(if e.accessors == 1 then Unlocked else Unlocking, e.accessors - 1, e.size + fileSize, e.streams)
  }

  /** Every writer's bytes count, the last one's on an unlocking entry too, and no reader's. */
  lemma ReleasedIs(e: Entry, fileSize: nat)
    requires e.accessors > 0
    ensures Released(e, fileSize) ==
      Entry(if e.lockState == Unlocking && e.accessors == 1 then Unlocked else e.lockState,
            e.accessors - 1, e.size + (if e.lockState == Unlocked then 0 else fileSize), e.streams)
  {}

  /** What a cache is set up with: its limit, and how its scan settles. */
  datatype Setup = Setup(limit: int, scan: Scan) {

    function Evicted(s: State, erased: Erased): (State, bool) {
      var v := Evict(s.entries, s.totalSize, limit, scan, erased);
      (s.(entries := v.entries, totalSize := v.totalSize), v.ok)
    }

    function Lock(s: State, id: Id, erased: Erased): (State, bool) {
      var t := s.Entered(id);
      if t.entries[id].Taken() then (t, false)
      else
        var (u, room) := Evicted(t, erased);
        if room && id in u.entries then (u.Put(id, u.entries[id].(lockState := Locked)), true) else (u, room)
    }

    function Write(s: State, id: Id, index: nat, h: nat, fileOpens: bool, fileSize: nat): (State, bool)
      requires id in s.entries
    {
      var e := s.entries[id];
      if !e.lockState.Locked? || !fileOpens then (s, false)
      else
        var cut := if fileSize < e.size then fileSize else e.size;
        var streams := if e.streams > index then e.streams else index + 1;
        (s.Put(id, Entry(Locked, e.accessors + 1, e.size - cut, streams)).Open(h, Adapter(id, true)), true)
    }

    function Unlock(s: State, id: Id, erased: Erased): (State, bool)
      requires id in s.entries
    {
      var e := s.entries[id];
      if !e.lockState.Locked? then (s, false)
      else if e.accessors > 0 then (s.Put(id, e.(lockState := Unlocking)), true)
      else (Evicted(s.Put(id, e.(lockState := Unlocked)), erased).0, true)
    }

    function Read(s: State, id: Id, index: nat, h: nat, fileOpens: bool): (State, bool)
      requires id in s.entries
    {
      var e := s.entries[id];
      if !e.lockState.Unlocked? || index >= e.streams || !fileOpens then (s, false)
      else (s.Put(id, e.(accessors := e.accessors + 1)).Open(h, Adapter(id, false)), true)
    }

    function Delete(s: State, id: Id, erased: Erased): (State, bool) {
      if id !in s.entries then (s, true)
      else if !s.entries[id].Idle() then (s, false)
      else (s.(entries := s.entries - {id}, totalSize := s.totalSize - s.entries[id].size), erased(id))
    }

    function Release(s: State, h: nat, fileSize: nat, erased: Erased): State
      requires h in s.open && s.open[h].id in s.entries && s.entries[s.open[h].id].accessors > 0
    {
      var id := s.open[h].id;
      var e := s.entries[id];
      var t := s.Put(id, Released(e, fileSize)).Close(h);
      if e.lockState.Unlocking? && e.accessors == 1 then Evicted(t, erased).0 else t
    }

    /** A release before any eviction: the entry without the adapter, the total with its bytes; and
        eviction follows only when it unlocked the entry. */
    lemma ReleaseIs(s: State, h: nat, fileSize: nat, erased: Erased)
      requires Enabled(s, Op.Release(h, fileSize, erased))
      ensures var id := s.open[h].id;
        var e := s.entries[id];
        var bytes := if e.lockState == Unlocked then 0 else fileSize;
        var last := e.lockState == Unlocking && e.accessors == 1;
        var f := Entry(if last then Unlocked else e.lockState, e.accessors - 1, e.size + bytes, e.streams);
        var t := State(s.entries[id := f], s.totalSize + bytes, s.totalAccessors - 1, s.open - {h});
        Release(s, h, fileSize, erased) == if last then Evicted(t, erased).0 else t
    {
      hide Evicted;
    }

    lemma EvictedIs(s: State, erased: Erased)
      ensures var v := Evict(s.entries, s.totalSize, limit, scan, erased);
        Evicted(s, erased) == (State(v.entries, v.totalSize, s.totalAccessors, s.open), v.ok)
    {
      hide Evict;
    }

    lemma EvictedWithin(s: State, erased: Erased)
      requires s.totalSize <= limit
      ensures Evicted(s, erased) == (s, true)
    {}

    lemma {:induction false} EvictOk(s: State, erased: Erased)
      requires s.Ok()
      ensures Evicted(s, erased).0.Ok()
      decreases |s.entries|
    {
      hide State.Ok;
      if s.totalSize > limit && AnyIdle(s.entries) {
        var id := scan(s.entries);
        if id in s.entries && s.entries[id].Idle() {
          s.Dropped(id);
          if erased(id) {
            EvictLess(s.entries, id);
            EvictOk(s.(entries := s.entries - {id}, totalSize := s.totalSize - s.entries[id].size), erased);
          }
        }
      }
    }

    lemma EnteredOk(s: State, id: Id)
      requires s.Ok()
      ensures s.Entered(id).Ok()
    {
      hide State.Ok;
      if id !in s.entries { s.Replaced(id, FRESH); }
    }

    lemma LockOk(s: State, id: Id, erased: Erased)
      requires s.Ok()
      ensures Lock(s, id, erased).0.Ok()
    {
      hide State.Ok, Evict;
      EnteredOk(s, id);
      var t := s.Entered(id);
      EvictOk(t, erased);
      EvictOnly(t.entries, t.totalSize, limit, scan, erased);
      var u := Evicted(t, erased).0;
      if !t.entries[id].Taken() && id in u.entries {
        var e := u.entries[id].(lockState := Locked);
        if e.accessors > 0 { u.Replaced(id, e); } else { u.Relocked(id, e); }
      }
    }

    lemma WriteOk(s: State, id: Id, index: nat, h: nat, fileOpens: bool, fileSize: nat)
      requires s.Ok() && id in s.entries && h !in s.open
      ensures Write(s, id, index, h, fileOpens, fileSize).0.Ok()
    {
      hide State.Ok;
      var r := Write(s, id, index, h, fileOpens, fileSize);
      if r.1 { s.Opened(h, Adapter(id, true), r.0.entries[id]); }
    }

    lemma UnlockOk(s: State, id: Id, erased: Erased)
      requires s.Ok() && id in s.entries
      ensures Unlock(s, id, erased).0.Ok()
    {
      hide State.Ok, Evict;
      var e := s.entries[id];
      if e.lockState.Locked? {
        if e.accessors > 0 {
          s.Replaced(id, e.(lockState := Unlocking));
        } else {
          s.Relocked(id, e.(lockState := Unlocked));
          EvictOk(s.Put(id, e.(lockState := Unlocked)), erased);
        }
      }
    }

    lemma ReadOk(s: State, id: Id, index: nat, h: nat, fileOpens: bool)
      requires s.Ok() && id in s.entries && h !in s.open
      ensures Read(s, id, index, h, fileOpens).0.Ok()
    {
      hide State.Ok;
      var r := Read(s, id, index, h, fileOpens);
      if r.1 { s.Opened(h, Adapter(id, false), r.0.entries[id]); }
    }

    lemma DeleteOk(s: State, id: Id, erased: Erased)
      requires s.Ok()
      ensures Delete(s, id, erased).0.Ok()
    {
      hide State.Ok;
      if id in s.entries && s.entries[id].Idle() { s.Dropped(id); }
    }

    lemma ReleaseOk(s: State, h: nat, fileSize: nat, erased: Erased)
      requires s.Ok() && h in s.open
      ensures s.open[h].id in s.entries && s.entries[s.open[h].id].accessors > 0
      ensures Release(s, h, fileSize, erased).Ok()
    {
      hide State.Ok, Evict;
      s.HolderFound(h);
      var id := s.open[h].id;
      var e := Released(s.entries[id], fileSize);
      s.Closed(h, e);
      EvictOk(s.Put(id, e).Close(h), erased);
    }
  }

  // ---- runs ----

  datatype Op =
    | Lock(id: Id, erased: Erased)
    | Write(id: Id, index: nat, h: nat, fileOpens: bool, fileSize: nat)
    | Unlock(id: Id, erased: Erased)
    | Read(id: Id, index: nat, h: nat, fileOpens: bool)
    | Delete(id: Id, erased: Erased)
    | Release(h: nat, fileSize: nat, erased: Erased)

  // Entries other than those to be locked or deleted must exist, and a new adapter is new.
  predicate Enabled(s: State, op: Op) {
    match op
    case Lock(_, _) => true
    case Delete(_, _) => true
    case Write(id, _, h, _, _) => id in s.entries && h !in s.open
    case Unlock(id, _) => id in s.entries
    case Read(id, _, h, _) => id in s.entries && h !in s.open
    case Release(h, _, _) => h in s.open && s.open[h].id in s.entries && s.entries[s.open[h].id].accessors > 0
  }

  function Next(c: Setup, s: State, op: Op): State
    requires Enabled(s, op)
  {
    match op
    case Lock(id, erased) => c.Lock(s, id, erased).0
    case Write(id, index, h, fileOpens, fileSize) => c.Write(s, id, index, h, fileOpens, fileSize).0
    case Unlock(id, erased) => c.Unlock(s, id, erased).0
    case Read(id, index, h, fileOpens) => c.Read(s, id, index, h, fileOpens).0
    case Delete(id, erased) => c.Delete(s, id, erased).0
    case Release(h, fileSize, erased) => c.Release(s, h, fileSize, erased)
  }

  const EMPTY := State(map[], 0, 0, map[])

  /** The state after a sequence of calls, leaving out those a caller may not make. */
  function Run(c: Setup, s: State, ops: seq<Op>): State
    decreases |ops|
  {
    if ops == [] then s
    else Run(c, if Enabled(s, ops[0]) then Next(c, s, ops[0]) else s, ops[1..])
  }

  lemma NextOk(c: Setup, s: State, op: Op)
    requires s.Ok() && Enabled(s, op)
    ensures Next(c, s, op).Ok()
  {
    hide State.Ok, Setup.Lock, Setup.Write, Setup.Unlock, Setup.Read, Setup.Delete, Setup.Release;
    match op
    case Lock(id, erased) => c.LockOk(s, id, erased);
    case Write(id, index, h, fileOpens, fileSize) => c.WriteOk(s, id, index, h, fileOpens, fileSize);
    case Unlock(id, erased) => c.UnlockOk(s, id, erased);
    case Read(id, index, h, fileOpens) => c.ReadOk(s, id, index, h, fileOpens);
    case Delete(id, erased) => c.DeleteOk(s, id, erased);
    case Release(h, fileSize, erased) => c.ReleaseOk(s, h, fileSize, erased);
  }

  lemma {:induction false} RunOk(c: Setup, s: State, ops: seq<Op>)
    requires s.Ok()
    ensures Run(c, s, ops).Ok()
    decreases |ops|
  {
    hide State.Ok, Next, Enabled;
    if ops != [] {
      if Enabled(s, ops[0]) {
        NextOk(c, s, ops[0]);
        RunOk(c, Next(c, s, ops[0]), ops[1..]);
      } else {
        RunOk(c, s, ops[1..]);
      }
    }
  }

  lemma EmptyOk()
    ensures EMPTY.Ok()
  {
    assert Sizes(EMPTY.entries) == map[] && Accessors(EMPTY.entries) == map[];
  }

  /** Over every run from an empty cache: the totals are the sums over the entries, an entry's
      accessors are the adapters open on it, no entry has an open reader and an open writer
      together, and any open adapter may be released and finds its entry. */
  lemma Runs(c: Setup, ops: seq<Op>, h: nat, k: nat)
    ensures var s := Run(c, EMPTY, ops);
      && s.totalSize == Total(Sizes(s.entries)) && s.totalAccessors == Total(Accessors(s.entries)) == |s.open|
      && (forall id :: id in s.entries ==> s.entries[id].accessors == |Holders(s.open, id)|)
      && (h in s.open && k in s.open && s.open[h].id == s.open[k].id ==> s.open[h].writing == s.open[k].writing)
      && (forall size, erased: Erased :: h in s.open ==> Enabled(s, Release(h, size, erased)))
  {
    hide State.Ok, Run, Holders;
    EmptyOk();
    RunOk(c, EMPTY, ops);
    Sound(Run(c, EMPTY, ops), h, k);
  }

  lemma Sound(s: State, h: nat, k: nat)
    requires s.Ok()
    ensures s.totalSize == Total(Sizes(s.entries)) && s.totalAccessors == Total(Accessors(s.entries)) == |s.open|
    ensures forall id :: id in s.entries ==> s.entries[id].accessors == |Holders(s.open, id)|
    ensures h in s.open && k in s.open && s.open[h].id == s.open[k].id ==> s.open[h].writing == s.open[k].writing
    ensures forall size, erased: Erased :: h in s.open ==> Enabled(s, Release(h, size, erased))
  {
    hide Total, Sizes, Accessors, Holders;
    assert forall id :: id in s.entries ==> s.Coherent(id);
    if h in s.open {
      s.HolderFound(h);
      if k in s.open && s.open[h].id == s.open[k].id { s.Exclusion(h, k); }
    }
  }

  // ---- what a granted lock is worth ----

  // Locked, if granted.
  predicate Held(r: (State, bool), id: Id) {
    r.1 ==> id in r.0.entries && r.0.entries[id].lockState.Locked?
  }

  // A scan that settles on id as long as it is idle, and then on any other idle entry.
  ghost function Against(id: Id): (scan: Scan)
    ensures Settles(scan) && PicksIdle(scan)
    ensures forall m: map<Id, Entry> :: id in m && m[id].Idle() ==> scan(m) == id
  {
    m => AgainstOn(id, m)
  }

  ghost function AgainstOn(id: Id, m: map<Id, Entry>): (k: Id)
    ensures m != map[] ==> k in m
    ensures AnyIdle(m) ==> k in m && m[k].Idle()
    ensures id in m && m[id].Idle() ==> k == id
  {
    if id in m && m[id].Idle() then id
    else if AnyIdle(m) then var k :| k in m && m[k].Idle(); k
    else if m != map[] then var k :| k in m; k
    else id
  }

  // Evicting for the lock's sake evicts the entry to be locked.
  lemma LostTo(s: State, limit: int, id: Id)
    requires s.totalSize > limit && (id !in s.entries || s.entries[id].Idle())
    requires s.totalSize - IdleSize(s.entries) <= limit
    ensures var r := Setup(limit, Against(id)).Lock(s, id, AllErased); r.1 && id !in r.0.entries
  {
    hide IdleSize, Evict, Against, AnyIdle, Settles, PicksIdle;
    var scan, t := Against(id), s.Entered(id);
    EnteredIdle(s, id);
    EnoughExactly(t.entries, t.totalSize, limit, scan);
    SomeIdle(t.entries, id);
    FirstToGo(t.entries, t.totalSize, limit, scan, id);
  }

  lemma SomeIdle(m: map<Id, Entry>, id: Id)
    requires id in m && m[id].Idle()
    ensures AnyIdle(m)
  {}

  lemma FirstToGo(m: map<Id, Entry>, total: int, limit: int, scan: Scan, id: Id)
    requires total > limit && id in m && m[id].Idle() && AnyIdle(m) && scan(m) == id
    ensures id !in Evict(m, total, limit, scan, AllErased).entries
  {
    hide Evict;
    EvictTurn(m, total, limit, scan, AllErased);
    EvictOnly(m - {id}, total - m[id].size, limit, scan, AllErased);
  }

  lemma EnteredIdle(s: State, id: Id)
    ensures IdleSize(s.Entered(id).entries) == IdleSize(s.entries) && s.Entered(id).totalSize == s.totalSize
  {
    if id !in s.entries {
      hide Total;
      var m, n := s.entries, s.Entered(id).entries;
      assert IdleOf(n) == IdleOf(m)[id := FRESH];
      SetEntry(IdleOf(m), id, FRESH);
    }
  }

  lemma KeptBy(c: Setup, s: State, id: Id, erased: Erased)
    requires s.totalSize <= c.limit || (id in s.entries && !s.entries[id].Idle())
          || s.totalSize - IdleSize(s.entries) > c.limit
    ensures Held(c.Lock(s, id, erased), id)
  {
    hide IdleSize;
    var t := s.Entered(id);
    EnteredIdle(s, id);
    hide Evict;
    EvictOnly(t.entries, t.totalSize, c.limit, c.scan, erased);
    if s.totalSize <= c.limit {
      NothingToEvict(t.entries, t.totalSize, c.limit, c.scan, erased);
    } else if id !in s.entries || s.entries[id].Idle() {
      NeverEnough(t.entries, t.totalSize, c.limit, c.scan, erased);
    }
  }

  lemma NothingToEvict(m: map<Id, Entry>, total: int, limit: int, scan: Scan, erased: Erased)
    requires total <= limit
    ensures Evict(m, total, limit, scan, erased) == Eviction(m, total, true)
  {}

  /** Every lock that is granted leaves its entry there and locked, whatever the scan settles on and
      whatever files go, exactly when the cache is within its limit, or the entry is in use, or even
      evicting all idle entries would leave it over the limit. */
  lemma LockHeldExactly(s: State, limit: int, id: Id)
    ensures (forall scan: Scan, erased: Erased ::
               Settles(scan) ==> Held(Setup(limit, scan).Lock(s, id, erased), id))
            <==> s.totalSize <= limit || (id in s.entries && !s.entries[id].Idle())
                 || s.totalSize - IdleSize(s.entries) > limit
  {
    hide Setup.Lock, IdleSize, Settles;
    if s.totalSize <= limit || (id in s.entries && !s.entries[id].Idle()) || s.totalSize - IdleSize(s.entries) > limit {
      forall scan: Scan, erased: Erased | Settles(scan)
        ensures Held(Setup(limit, scan).Lock(s, id, erased), id)
      {
        KeptBy(Setup(limit, scan), s, id, erased);
      }
    } else {
      LostTo(s, limit, id);
      assert !Held(Setup(limit, Against(id)).Lock(s, id, AllErased), id);
    }
  }

  // A scan that settles on id as long as it is there.
  ghost function Stubborn(id: Id): (scan: Scan)
    ensures Settles(scan) && forall m: map<Id, Entry> :: id in m ==> scan(m) == id
  {
    m => if id in m then id else AgainstOn(id, m)
  }

  /** One such case: two idle entries of 6 units against a limit of 10, the scan settling on the one
      to be locked. */
  lemma LockLost()
    ensures var a, b := Id("a"), Id("b");
      var s := State(map[a := Entry(Unlocked, 0, 6, 1), b := Entry(Unlocked, 0, 6, 1)], 12, 0, map[]);
      Setup(10, Stubborn(a)).Lock(s, a, AllErased) ==
        (State(map[b := Entry(Unlocked, 0, 6, 1)], 6, 0, map[]), true)
  {
    var a, b := Id("a"), Id("b");
    var e := Entry(Unlocked, 0, 6, 1);
    var m := map[a := e, b := e];
    assert a != b && AnyIdle(m) by { assert "a"[0] != "b"[0]; assert m[a].Idle(); }
    assert m - {a} == map[b := e];
    NothingToEvict(map[b := e], 6, 10, Stubborn(a), AllErased);
  }

  lemma RunStep(c: Setup, s: State, op: Op, rest: seq<Op>)
    requires Enabled(s, op)
    ensures Run(c, s, [op] + rest) == Run(c, Next(c, s, op), rest)
  {
    hide Next;
    assert ([op] + rest)[1..] == rest;
  }

  lemma RunNothing(c: Setup, s: State)
    ensures Run(c, s, []) == s
  {}

  // A new entry is locked, written and released: it holds the bytes and stays locked.
  lemma Filled(c: Setup, s: State, id: Id, h: nat, size: nat, rest: seq<Op>)
    requires id !in s.entries && h !in s.open && s.totalSize <= c.limit
    ensures Run(c, s, [Lock(id, AllErased)] + ([Write(id, 0, h, true, 0)] + ([Release(h, size, AllErased)] + rest)))
         == Run(c, s.(entries := s.entries[id := Entry(Locked, 0, size, 1)], totalSize := s.totalSize + size), rest)
  {
    hide Run, Evict;
    var t := s.(entries := s.entries[id := Entry(Locked, 0, 0, 0)]);
    c.EvictedWithin(s.Entered(id), AllErased);
    RunStep(c, s, Lock(id, AllErased), [Write(id, 0, h, true, 0)] + ([Release(h, size, AllErased)] + rest));
    assert Next(c, s, Lock(id, AllErased)) == t;
    RunStep(c, t, Write(id, 0, h, true, 0), [Release(h, size, AllErased)] + rest);
    var u := Next(c, t, Write(id, 0, h, true, 0));
    assert u.entries == s.entries[id := Entry(Locked, 1, 0, 1)] && u.totalSize == s.totalSize;
    RunStep(c, u, Release(h, size, AllErased), rest);
    assert u.open - {h} == s.open;
    assert u.entries[id := Entry(Locked, 0, size, 1)] == s.entries[id := Entry(Locked, 0, size, 1)];
  }

  /** And the cache gets into that state: a is filled and read while b is filled, so that the scan
      settles on a busy entry and nothing is evicted; then the reader closes. */
  lemma LockLostReached()
    ensures var a, b := Id("a"), Id("b");
      var ops := [Lock(a, AllErased)] + ([Write(a, 0, 1, true, 0)] + ([Release(1, 6, AllErased)] +
                 ([Unlock(a, AllErased)] + ([Read(a, 0, 2, true)] +
                 ([Lock(b, AllErased)] + ([Write(b, 0, 3, true, 0)] + ([Release(3, 6, AllErased)] +
                 ([Unlock(b, AllErased)] + ([Release(2, 0, AllErased)] + [])))))))));
      Run(Setup(10, Stubborn(a)), EMPTY, ops) ==
        State(map[a := Entry(Unlocked, 0, 6, 1), b := Entry(Unlocked, 0, 6, 1)], 12, 0, map[])
  {
    hide Run, Evict, Stubborn, Settles;
    var a, b, c := Id("a"), Id("b"), Setup(10, Stubborn(Id("a")));
    var e := Entry(Unlocked, 0, 6, 1);
    assert a != b by { assert "a"[0] != "b"[0]; }
    var last := [Unlock(b, AllErased)] + ([Release(2, 0, AllErased)] + []);
    var fillB := [Lock(b, AllErased)] + ([Write(b, 0, 3, true, 0)] + ([Release(3, 6, AllErased)] + last));
    var s1 := State(map[a := e.(lockState := Locked)], 6, 0, map[]);
    Filled(c, EMPTY, a, 1, 6, [Unlock(a, AllErased)] + ([Read(a, 0, 2, true)] + fillB));
    assert EMPTY.entries[a := Entry(Locked, 0, 6, 1)] == s1.entries;
    var s2 := State(map[a := e], 6, 0, map[]);
    RunStep(c, s1, Unlock(a, AllErased), [Read(a, 0, 2, true)] + fillB);
    assert s1.entries[a := e] == s2.entries;
    c.EvictedWithin(s2, AllErased);
    var s3 := State(map[a := e.(accessors := 1)], 6, 1, map[2 := Adapter(a, false)]);
    RunStep(c, s2, Read(a, 0, 2, true), fillB);
    assert s2.entries[a := e.(accessors := 1)] == s3.entries && s2.open[2 := Adapter(a, false)] == s3.open;
    var s4 := s3.(entries := s3.entries[b := e.(lockState := Locked)], totalSize := 12);
    Filled(c, s3, b, 3, 6, last);
    var s5 := s4.(entries := s4.entries[b := e]);
    RunStep(c, s4, Unlock(b, AllErased), [Release(2, 0, AllErased)] + []);
    assert s4.Put(b, e) == s5;
    BusyScan(s5.entries, 12, 10, c.scan, a);
    RunStep(c, s5, Release(2, 0, AllErased), []);
    assert s5.open - {2} == map[];
    assert s5.entries[a := e] == map[a := e, b := e];
    RunNothing(c, State(map[a := e, b := e], 12, 0, map[]));
  }

  lemma BusyScan(m: map<Id, Entry>, total: int, limit: int, scan: Scan, id: Id)
    requires total > limit && id in m && !m[id].Idle() && scan(m) == id
    ensures Evict(m, total, limit, scan, AllErased) == Eviction(m, total, false)
  {}

  // ---- the code ----

  class DiskCache {
    const maxCache: nat
    var entries: map<Id, Entry>
    var totalSize: nat
    var totalAccessors: nat
    // Which entry the scan of the map settles on.
    const oldest: Scan
    ghost var open: map<nat, Adapter>

    ghost function View(): State
      reads this
    {
      State(entries, totalSize, totalAccessors, open)
    }

    ghost predicate Valid()
      reads this
    {
      View().Ok() && Settles(oldest)
    }

    function Config(): Setup {
      Setup(maxCache, oldest)
    }

    constructor (maxCache: nat, oldest: Scan)
      requires Settles(oldest)
      ensures Valid() && View() == EMPTY && Config() == Setup(maxCache, oldest)
    {
      hide State.Ok;
      EmptyOk();
      this.maxCache, this.oldest := maxCache, oldest;
      entries, totalSize, totalAccessors, open := map[], 0, 0, map[];
    }

    method DeleteResource(id: Id, erased: Erased) returns (ok: bool)
      requires Valid()
      modifies `entries, `totalSize
      ensures Valid() && OnlyEvicts(old(entries), entries)
      ensures (View(), ok) == Config().Delete(old(View()), id, erased)
      ensures entries == if id in old(entries) && old(entries)[id].Idle() then old(entries) - {id} else old(entries)
      ensures totalSize == old(totalSize)
                           - if id in old(entries) && old(entries)[id].Idle() then old(entries)[id].size else 0
      ensures id !in old(entries) ==> ok
      ensures id in old(entries) ==> ok == (old(entries)[id].Idle() && erased(id))
    {
      hide State.Ok;
      if id !in entries {
        return true;
      }
      var entry := entries[id];
      if !entry.lockState.Unlocked? || entry.accessors > 0 {
        return false;
      }
      View().Dropped(id);
      EntrySize(id);
      totalSize := totalSize - entry.size;
      entries := entries - {id};
      return erased(id);
    }

    lemma EntrySize(id: Id)
      requires Valid() && id in entries
      ensures entries[id].size <= totalSize
    {
      hide Total;
      TotalTake(Sizes(entries), id);
    }

    method CheckLimit(erased: Erased) returns (ok: bool)
      requires Valid()
      modifies `entries, `totalSize
      ensures Valid() && OnlyEvicts(old(entries), entries)
      ensures (View(), ok) == Config().Evicted(old(View()), erased)
      ensures ok ==> totalSize <= maxCache
      ensures !ok ==> NoneToEvict(oldest, erased, totalSize, maxCache, entries)
      ensures old(totalSize) <= maxCache ==> ok && View() == old(View())
    {
      hide State.Ok, Evict, OnlyEvicts, PicksIdle, Settles, Entry.Idle, Setup.Delete, Setup.Evicted, NoneToEvict;
      ghost var m, total := entries, totalSize;
      ghost var v := Evict(entries, totalSize, maxCache, oldest, erased);
      Config().EvictedIs(View(), erased);
      ok := true;
      while totalSize > maxCache
        invariant Valid() && open == old(open) && totalAccessors == old(totalAccessors)
        invariant Evict(entries, totalSize, maxCache, oldest, erased) == v
        decreases |entries|
      {
        EvictTurn(entries, totalSize, maxCache, oldest, erased);
        if !exists id | id in entries :: entries[id].Idle() {
          ok := false;
          break;
        }
        SomeSettled(entries, oldest);
        var deleted := DeleteResource(oldest(entries), erased);
        if !deleted {
          ok := false;
          break;
        }
      }
      if ok { NothingToEvict(entries, totalSize, maxCache, oldest, erased); }
      assert v == Eviction(entries, totalSize, ok);
      EvictFacts(m, total, maxCache, oldest, erased);
    }

    method LockResource(id: Id, erased: Erased) returns (ok: bool)
      requires Valid()
      modifies `entries, `totalSize
      ensures Valid() && OthersKept(old(entries), entries, id)
      ensures (View(), ok) == Config().Lock(old(View()), id, erased)
      ensures id in entries ==>
                var was := if id in old(entries) then old(entries)[id] else FRESH;
                entries[id] == if ok then was.(lockState := Locked) else was
      ensures ok && old(totalSize) <= maxCache ==> id in entries
      ensures id in old(entries) && old(entries)[id].Taken() ==> !ok && View() == old(View())
      ensures old(totalSize) <= maxCache ==>
                ok == !(id in old(entries) && old(entries)[id].Taken()) && totalSize == old(totalSize)
      ensures ok ==> totalSize <= maxCache
      ensures !ok && !(id in old(entries) && old(entries)[id].Taken()) ==>
                NoneToEvict(oldest, erased, totalSize, maxCache, entries)
    {
      hide State.Ok, Evict, Setup.Evicted, OthersKept, OnlyEvicts, NoneToEvict;
      ghost var m, t := entries, View().Entered(id);
      if id !in entries {
        View().Replaced(id, FRESH);
        entries := entries[id := FRESH];
      }
      assert View() == t && entries == m[id := entries[id]];
      Unevicted(entries);
      OthersKeptOn(m, entries, id, entries[id], entries[id]);
      var entry := entries[id];
      if entry.lockState.Locked? {
        return false;
      }
      if entry.lockState.Unlocked? && entry.accessors > 0 {
        return false;
      }
      if totalSize > maxCache {
        var room := CheckLimit(erased);
        OthersKeptOn(m, entries, id, entry, entry.(lockState := Locked));
        EvictedOne(t.entries, entries, id);
        if !room {
          return false;
        }
      } else {
        Config().EvictedWithin(t, erased);
        OthersKeptOn(m, entries, id, entry, entry.(lockState := Locked));
      }
      assert (View(), true) == Config().Evicted(t, erased);
      if id in entries {
        ghost var u := View();
        if entry.lockState.Unlocking? {
          u.Replaced(id, entry.(lockState := Locked));
        } else {
          u.Relocked(id, entry.(lockState := Locked));
        }
        entries := entries[id := entry.(lockState := Locked)];
        assert View() == u.Put(id, entry.(lockState := Locked));
      }
      return true;
    }

    method WriteResource(id: Id, index: nat, ghost h: nat, fileOpens: bool, fileSize: nat) returns (ok: bool)
      requires Valid() && id in entries && h !in open
      modifies this
      ensures Valid() && OthersKept(old(entries), entries, id)
      ensures (View(), ok) == Config().Write(old(View()), id, index, h, fileOpens, fileSize)
      ensures ok == (old(entries)[id].lockState.Locked? && fileOpens)
      ensures open == if ok then old(open)[h := Adapter(id, true)] else old(open)
      ensures !ok ==> View() == old(View())
      ensures ok ==>
                var was := old(entries)[id];
                var cut := if fileSize < was.size then fileSize else was.size;
                && entries == old(entries)[id := Entry(Locked, was.accessors + 1, was.size - cut,
                                                       if was.streams > index then was.streams else index + 1)]
                && totalSize == old(totalSize) - cut && totalAccessors == old(totalAccessors) + 1
    {
      hide State.Ok;
      var entry := entries[id];
      if !entry.lockState.Locked? {
        return false;
      }
      var previous := if fileSize > entry.size then entry.size else fileSize;
      if !fileOpens {
        return false;
      }
      EntrySize(id);
      entry := entry.(streams := if index + 1 > entry.streams then index + 1 else entry.streams,
                      size := entry.size - previous, accessors := entry.accessors + 1);
      View().Opened(h, Adapter(id, true), entry);
      totalSize := totalSize - previous;
      totalAccessors := totalAccessors + 1;
      entries := entries[id := entry];
      open := open[h := Adapter(id, true)];
      return true;
    }

    method UnlockResource(id: Id, erased: Erased) returns (ok: bool)
      requires Valid() && id in entries
      modifies `entries, `totalSize
      ensures Valid() && OthersKept(old(entries), entries, id)
      ensures (View(), ok) == Config().Unlock(old(View()), id, erased)
      ensures ok == old(entries)[id].lockState.Locked?
      ensures !ok ==> View() == old(View())
      ensures ok && old(entries)[id].accessors > 0 ==>
                entries == old(entries)[id := old(entries)[id].(lockState := Unlocking)] && totalSize == old(totalSize)
      ensures ok && old(entries)[id].accessors == 0 && id in entries ==>
                entries[id] == old(entries)[id].(lockState := Unlocked)
      ensures ok && old(totalSize) <= maxCache ==> id in entries && totalSize == old(totalSize)
      ensures ok && old(entries)[id].accessors == 0 && totalSize > maxCache ==>
                NoneToEvict(oldest, erased, totalSize, maxCache, entries)
    {
      hide State.Ok, NoneToEvict;
      var entry := entries[id];
      if !entry.lockState.Locked? {
        return false;
      }
      if entry.accessors > 0 {
        View().Replaced(id, entry.(lockState := Unlocking));
        entries := entries[id := entry.(lockState := Unlocking)];
      } else {
        View().Relocked(id, entry.(lockState := Unlocked));
        entries := entries[id := entry.(lockState := Unlocked)];
        var room := CheckLimit(erased);
      }
      return true;
    }

    method ReadResource(id: Id, index: nat, ghost h: nat, fileOpens: bool) returns (ok: bool)
      requires Valid() && id in entries && h !in open
      modifies this
      ensures Valid() && OthersKept(old(entries), entries, id)
      ensures (View(), ok) == Config().Read(old(View()), id, index, h, fileOpens)
      ensures ok == (old(entries)[id].lockState.Unlocked? && index < old(entries)[id].streams && fileOpens)
      ensures open == if ok then old(open)[h := Adapter(id, false)] else old(open)
      ensures totalSize == old(totalSize) && (!ok ==> View() == old(View()))
      ensures ok ==> totalAccessors == old(totalAccessors) + 1
                     && entries == old(entries)[id := old(entries)[id].(accessors := old(entries)[id].accessors + 1)]
    {
      hide State.Ok;
      var entry := entries[id];
      if !entry.lockState.Unlocked? {
        return false;
      }
      if index >= entry.streams {
        return false;
      }
      if !fileOpens {
        return false;
      }
      View().Opened(h, Adapter(id, false), entry.(accessors := entry.accessors + 1));
      totalAccessors := totalAccessors + 1;
      entries := entries[id := entry.(accessors := entry.accessors + 1)];
      open := open[h := Adapter(id, false)];
      return true;
    }

    // What the destructor of an open adapter does; its entry is always found.
    method ReleaseResource(id: Id, ghost h: nat, fileSize: nat, erased: Erased)
      requires Valid() && h in open && open[h].id == id
      modifies this
      ensures Valid() && open == old(open) - {h} && OthersKept(old(entries), entries, id)
      ensures Enabled(old(View()), Release(h, fileSize, erased))
      ensures View() == Config().Release(old(View()), h, fileSize, erased)
      ensures id in old(entries) && totalAccessors == old(totalAccessors) - 1
      ensures id in entries ==>
                var was := old(entries)[id];
                var left := if was.lockState.Unlocking? && was.accessors == 1 then Unlocked else was.lockState;
                var bytes := if was.lockState.Unlocked? then 0 else fileSize;
                entries[id] == Entry(left, was.accessors - 1, was.size + bytes, was.streams)
      ensures !old(entries)[id].lockState.Unlocking? || old(entries)[id].accessors > 1
              || old(totalSize) + fileSize <= maxCache ==>
                id in entries
                && totalSize == old(totalSize) + if old(entries)[id].lockState.Unlocked? then 0 else fileSize
    {
      hide State.Ok, Evict, Setup.Evicted;
      View().HolderFound(h);
      ghost var s, t := View(), View().Put(id, Released(entries[id], fileSize)).Close(h);
      var entry := entries[id];
      entry := entry.(accessors := entry.accessors - 1);
      var added := 0;
      var last := false;
      if !entry.lockState.Unlocked? {
        added := fileSize;
        entry := entry.(size := entry.size + added);
        if entry.lockState.Unlocking? && entry.accessors == 0 {
          entry := entry.(lockState := Unlocked);
          last := true;
        }
      }
      View().Closed(h, entry);
      totalAccessors := totalAccessors - 1;
      totalSize := totalSize + added;
      entries := entries[id := entry];
      open := open - {h};
      assert View() == t;
      if last {
        var _ := CheckLimit(erased);
      }
    }
  }
}
