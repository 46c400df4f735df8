/** The registry of active clients, keyed by client address: one record per
    address, kept in the order the addresses were first inserted (the order of
    a Python dict), bounded by MAX_CONNECTIONS through oldest-first eviction,
    aged out after CONNECTION_TIMEOUT seconds of silence, and projected into
    the monitor's snapshot. */
module Connections {
  import opened Text
  import opened Interfaces

  const CONNECTION_TIMEOUT := 30
  const MAX_CONNECTIONS := 100
  /** How many records a new address evicts when the registry is full. */
  const EVICT_BATCH := 10
  /** The video shown for a client that has not reported one ("not playing"). */
  const NOT_PLAYING := "未播放"
  const NO_PORT := "N/A"
  const MONITOR_PAGE := "/monitor"
  const MONITOR_DATA := "/monitor-data"

  /** One client's record; position, duration and bandwidths are client telemetry. */
  datatype Conn = Conn(
    serverIp: string,
    clientPort: string,
    iface: string,
    lastSeen: int,
    video: string,
    position: real,
    duration: real,
    bandwidthDown: real,
    bandwidthUp: real,
    connectedAt: string)

  datatype Entry = Entry(addr: string, info: Conn)

  predicate DistinctAddrs(s: seq<Entry>)
  {
    forall i, j :: 0 <= i < j < |s| ==> s[i].addr != s[j].addr
  }

  /** The position of address `a`, or -1 when it is not tracked. */
  function Find(s: seq<Entry>, a: string): (r: int)
    ensures -1 <= r < |s|
    ensures r >= 0 ==> s[r].addr == a
    ensures r < 0 <==> forall i :: 0 <= i < |s| ==> s[i].addr != a
  {
    if s == [] then -1
    else if s[0].addr == a then 0
    else
      var k := Find(s[1..], a);
      if k < 0 then -1 else k + 1
  }

  /** The first position at which `e` occurs. */
  function Pos(s: seq<Entry>, e: Entry): (k: nat)
    requires e in s
    ensures k < |s| && s[k] == e
    ensures forall i :: 0 <= i < k ==> s[i] != e
  {
    if s[0] == e then 0 else 1 + Pos(s[1..], e)
  }

  /** `s` with the entries of `gone` deleted and the others kept in order. */
  function Without(s: seq<Entry>, gone: set<Entry>): (r: seq<Entry>)
    ensures |r| <= |s|
  {
    if s == [] then []
    else (if s[0] in gone then [] else [s[0]]) + Without(s[1..], gone)
  }

  /** What `Without` keeps: the entries of `s` not in `gone`. */
  lemma {:induction false} WithoutMember(s: seq<Entry>, gone: set<Entry>, e: Entry)
    ensures e in Without(s, gone) <==> e in s && e !in gone
  {
    if s != [] {
      WithoutMember(s[1..], gone, e);
      assert s == [s[0]] + s[1..];
    }
  }

  function RemoveAt(s: seq<Entry>, k: nat): seq<Entry>
    requires k < |s|
  {
    s[..k] + s[k + 1..]
  }

  /** The first position holding the smallest `last_seen`: the head of the
      registry stably sorted by `last_seen`. */
  function OldestIndex(s: seq<Entry>): (k: nat)
    requires |s| > 0
    ensures k < |s|
  {
    if |s| == 1 then 0
    else
      var k := OldestIndex(s[..|s| - 1]);
      if s[|s| - 1].info.lastSeen < s[k].info.lastSeen then |s| - 1 else k
  }

  /** `OldestIndex` picks a smallest `last_seen`, and the first one. */
  lemma {:induction false} OldestIndexIsOldest(s: seq<Entry>, i: nat)
    requires i < |s|
    ensures s[OldestIndex(s)].info.lastSeen <= s[i].info.lastSeen
    ensures i < OldestIndex(s) ==> s[OldestIndex(s)].info.lastSeen < s[i].info.lastSeen
  {
    if |s| > 1 {
      var p := s[..|s| - 1];
      var k := OldestIndex(p);
      if i < |s| - 1 {
        OldestIndexIsOldest(p, i);
      } else {
        OldestIndexIsOldest(p, k);
      }
    }
  }

  /** The registry after deleting the first `n` entries of its stable sort by
      `last_seen`: the first oldest entry goes, then the rest are thinned alike. */
  function EvictOldest(s: seq<Entry>, n: nat): seq<Entry>
  {
    if n == 0 || s == [] then s
    else EvictOldest(RemoveAt(s, OldestIndex(s)), n - 1)
  }

  /** The entries `EvictOldest(s, n)` deletes. */
  function Evicted(s: seq<Entry>, n: nat): set<Entry>
  {
    if n == 0 || s == [] then {}
    else {s[OldestIndex(s)]} + Evicted(RemoveAt(s, OldestIndex(s)), n - 1)
  }

  function Members(s: seq<Entry>): set<Entry>
  {
    set e | e in s
  }

  /** `cleanup_oldest_connections(count)`: only a full registry is touched. */
  function Cleanup(s: seq<Entry>, count: nat): seq<Entry>
  {
    if |s| >= MAX_CONNECTIONS then EvictOldest(s, count) else s
  }

  /** Inactive entries: silent for more than CONNECTION_TIMEOUT seconds. */
  function Stale(s: seq<Entry>, now: int): set<Entry>
  {
    set e | e in s && now - e.info.lastSeen > CONNECTION_TIMEOUT
  }

  /** The host part of the `Host` header: the text before the first ':'. */
  function ServerHost(host: string): (r: string)
    ensures r <= host && ':' !in r
    ensures |r| < |host| ==> host[|r|] == ':'
  {
    SplitFirst(host, ':');
    Split(host, ':')[0]
  }

  function PortText(port: Option<string>): string
  {
    if port.Some? then port.value else NO_PORT
  }

  /** The record a new address starts with. */
  function NewConn(serverIp: string, clientPort: string, iface: string, now: int, connectedAt: string): Conn
  {
    Conn(serverIp, clientPort, iface, now, NOT_PLAYING, 0.0, 0.0, 0.0, 0.0, connectedAt)
  }

  // ---------------------------------------------------------------------------
  // Facts about deleting entries

  lemma {:induction false} WithoutNothing(s: seq<Entry>)
    ensures Without(s, {}) == s
  {
    if s != [] {
      WithoutNothing(s[1..]);
    }
  }

  lemma {:induction false} WithoutDistinct(s: seq<Entry>, gone: set<Entry>)
    requires DistinctAddrs(s)
    ensures DistinctAddrs(Without(s, gone))
  {
    if s != [] {
      WithoutDistinct(s[1..], gone);
      var w := Without(s[1..], gone);
      forall e | e in w ensures e.addr != s[0].addr {
        WithoutMember(s[1..], gone, e);
        var j :| 0 <= j < |s[1..]| && s[1..][j] == e;
        assert s[j + 1] == e;
      }
    }
  }

  lemma {:induction false} WithoutTwice(s: seq<Entry>, a: set<Entry>, b: set<Entry>)
    ensures Without(Without(s, a), b) == Without(s, a + b)
  {
    if s != [] {
      WithoutTwice(s[1..], a, b);
      var w1 := Without(s[1..], a);
      if s[0] in a {
        assert Without(s, a) == w1;
        assert Without(s, a + b) == Without(s[1..], a + b);
      } else {
        assert Without(s, a) == [s[0]] + w1;
        assert ([s[0]] + w1)[1..] == w1;
        if s[0] in b {
          assert Without([s[0]] + w1, b) == Without(w1, b);
          assert Without(s, a + b) == Without(s[1..], a + b);
        } else {
          assert Without([s[0]] + w1, b) == [s[0]] + Without(w1, b);
          assert Without(s, a + b) == [s[0]] + Without(s[1..], a + b);
        }
      }
    }
  }

  lemma {:induction false} FindWithout(s: seq<Entry>, gone: set<Entry>, a: string)
    requires Find(s, a) < 0
    ensures Find(Without(s, gone), a) < 0
  {
    if s != [] {
      FindWithout(s[1..], gone, a);
      assert s[0].addr != a;
    }
  }

  lemma {:induction false} RemoveAtIsWithout(t: seq<Entry>, k: nat)
    requires DistinctAddrs(t) && k < |t|
    ensures RemoveAt(t, k) == Without(t, {t[k]})
  {
    if k == 0 {
      assert RemoveAt(t, k) == t[1..];
      assert forall i :: 0 <= i < |t[1..]| ==> t[1..][i] != t[0];
      WithoutNone(t[1..], {t[0]});
    } else {
      assert DistinctAddrs(t[1..]);
      RemoveAtIsWithout(t[1..], k - 1);
      assert RemoveAt(t, k) == [t[0]] + RemoveAt(t[1..], k - 1);
      assert t[1..][k - 1] == t[k];
    }
  }

  lemma {:induction false} WithoutNone(s: seq<Entry>, gone: set<Entry>)
    requires forall i :: 0 <= i < |s| ==> s[i] !in gone
    ensures Without(s, gone) == s
  {
    if s != [] {
      WithoutNone(s[1..], gone);
    }
  }

  /** Deleting entries keeps the relative order of the others. */
  lemma {:induction false} WithoutOrder(s: seq<Entry>, gone: set<Entry>, w: seq<Entry>, x: Entry, y: Entry)
    requires w == Without(s, gone) && x in w && y in w && Pos(w, x) < Pos(w, y)
    ensures x in s && y in s && Pos(s, x) < Pos(s, y)
  {
    var w1 := Without(s[1..], gone);
    if s[0] in gone {
      assert w == w1;
      WithoutMember(s, gone, x);
      WithoutMember(s, gone, y);
      WithoutOrder(s[1..], gone, w1, x, y);
    } else {
      assert w == [s[0]] + w1;
      if s[0] == x {
        WithoutMember(s[1..], gone, y);
      } else {
        assert s[0] != y;
        assert Pos(w, x) == 1 + Pos(w1, x);
        assert Pos(w, y) == 1 + Pos(w1, y);
        WithoutOrder(s[1..], gone, w1, x, y);
      }
    }
  }

  // ---------------------------------------------------------------------------
  // Capacity eviction

  /** Evicting `n` removes `min(n, |s|)` entries. */
  lemma {:induction false} EvictSize(s: seq<Entry>, n: nat)
    ensures |EvictOldest(s, n)| == if n < |s| then |s| - n else 0
  {
    if n > 0 && s != [] {
      EvictSize(RemoveAt(s, OldestIndex(s)), n - 1);
    }
  }

  lemma InRemoveAt(t: seq<Entry>, k: nat, e: Entry)
    requires k < |t| && e in RemoveAt(t, k)
    ensures e in t
  {
    var j :| 0 <= j < |RemoveAt(t, k)| && RemoveAt(t, k)[j] == e;
    if j < k { assert t[j] == e; } else { assert t[j + 1] == e; }
  }

  /** With distinct addresses, deleting position `k` deletes that entry. */
  lemma RemoveAtDrops(t: seq<Entry>, k: nat, e: Entry)
    requires DistinctAddrs(t) && k < |t| && e in RemoveAt(t, k)
    ensures e in t && e != t[k]
  {
    var j :| 0 <= j < |RemoveAt(t, k)| && RemoveAt(t, k)[j] == e;
    if j < k { assert t[j] == e; } else { assert t[j + 1] == e; }
  }

  lemma RemoveAtDistinct(t: seq<Entry>, k: nat)
    requires DistinctAddrs(t) && k < |t|
    ensures DistinctAddrs(RemoveAt(t, k))
  {
    var r := RemoveAt(t, k);
    forall i, j | 0 <= i < j < |r| ensures r[i].addr != r[j].addr {
      var i' := if i < k then i else i + 1;
      var j' := if j < k then j else j + 1;
      assert r[i] == t[i'] && r[j] == t[j'];
    }
  }

  /** Deleting one position keeps the relative order of the others. */
  lemma RemoveAtOrder(t: seq<Entry>, k: nat, x: Entry, y: Entry)
    requires DistinctAddrs(t) && k < |t|
    requires x in RemoveAt(t, k) && y in RemoveAt(t, k) && Pos(RemoveAt(t, k), x) < Pos(RemoveAt(t, k), y)
    ensures x in t && y in t && Pos(t, x) < Pos(t, y)
  {
    RemoveAtIsWithout(t, k);
    WithoutOrder(t, {t[k]}, RemoveAt(t, k), x, y);
  }

  /** Eviction keeps the addresses distinct. */
  lemma {:induction false} EvictDistinct(s: seq<Entry>, n: nat)
    requires DistinctAddrs(s)
    ensures DistinctAddrs(EvictOldest(s, n))
  {
    if n > 0 && s != [] {
      RemoveAtDistinct(s, OldestIndex(s));
      EvictDistinct(RemoveAt(s, OldestIndex(s)), n - 1);
    }
  }

  /** Eviction deletes exactly the entries of `Evicted`; the kept entries
      stay unchanged and in their order. */
  lemma {:induction false} EvictIsWithout(s: seq<Entry>, n: nat)
    requires DistinctAddrs(s)
    ensures EvictOldest(s, n) == Without(s, Evicted(s, n))
  {
    if n == 0 || s == [] {
      WithoutNothing(s);
    } else {
      var k := OldestIndex(s);
      var rest := RemoveAt(s, k);
      RemoveAtDistinct(s, k);
      EvictIsWithout(rest, n - 1);
      EvictStep(s, n, rest);
    }
  }

  /** One eviction step: if evicting `n - 1` after the oldest entry deletes
      `later`, evicting `n` deletes the oldest entry and `later`. */
  lemma EvictStep(s: seq<Entry>, n: nat, rest: seq<Entry>)
    requires DistinctAddrs(s) && n > 0 && s != [] && rest == RemoveAt(s, OldestIndex(s))
    requires EvictOldest(rest, n - 1) == Without(rest, Evicted(rest, n - 1))
    ensures EvictOldest(s, n) == Without(s, Evicted(s, n))
  {
    var k := OldestIndex(s);
    RemoveAtIsWithout(s, k);
    WithoutTwice(s, {s[k]}, Evicted(rest, n - 1));
  }

  /** A kept entry was in the registry. */
  lemma {:induction false} EvictKeeps(s: seq<Entry>, n: nat, e: Entry)
    requires e in EvictOldest(s, n)
    ensures e in s
  {
    if n > 0 && s != [] {
      var k := OldestIndex(s);
      EvictKeeps(RemoveAt(s, k), n - 1, e);
      InRemoveAt(s, k, e);
    }
  }

  /** An evicted entry was in the registry. */
  lemma {:induction false} EvictedFromRegistry(s: seq<Entry>, n: nat, r: Entry)
    requires r in Evicted(s, n)
    ensures r in s
  {
    var k := OldestIndex(s);
    if r != s[k] {
      EvictedFromRegistry(RemoveAt(s, k), n - 1, r);
      InRemoveAt(s, k, r);
    }
  }

  /** Every evicted entry is at least as old as every kept one. */
  lemma {:induction false} EvictOldestFirst(s: seq<Entry>, n: nat, r: Entry, e: Entry)
    requires r in Evicted(s, n) && e in EvictOldest(s, n)
    ensures r.info.lastSeen <= e.info.lastSeen
  {
    var k := OldestIndex(s);
    var rest := RemoveAt(s, k);
    EvictKeeps(rest, n - 1, e);
    if r == s[k] {
      InRemoveAt(s, k, e);
      var j :| 0 <= j < |s| && s[j] == e;
      OldestIndexIsOldest(s, j);
    } else {
      EvictOldestFirst(rest, n - 1, r, e);
    }
  }

  /** The entry `OldestIndex` picks comes before every other entry as old as it. */
  lemma OldestBeforeTies(t: seq<Entry>, e: Entry)
    requires DistinctAddrs(t) && t != [] && e in RemoveAt(t, OldestIndex(t))
    requires e.info.lastSeen == t[OldestIndex(t)].info.lastSeen
    ensures e in t && Pos(t, t[OldestIndex(t)]) < Pos(t, e)
  {
    RemoveAtDrops(t, OldestIndex(t), e);
    OldestIndexIsOldest(t, Pos(t, e));
  }

  /** Among entries equally old, eviction follows insertion order (the sort
      is stable): an evicted entry as old as a kept one was inserted first. */
  lemma {:induction false} EvictStable(s: seq<Entry>, n: nat, r: Entry, e: Entry)
    requires DistinctAddrs(s)
    requires r in Evicted(s, n) && e in EvictOldest(s, n) && r.info.lastSeen == e.info.lastSeen
    ensures r in s && e in s && Pos(s, r) < Pos(s, e)
  {
    var k := OldestIndex(s);
    var rest := RemoveAt(s, k);
    EvictKeeps(rest, n - 1, e);
    if r == s[k] {
      OldestBeforeTies(s, e);
    } else {
      RemoveAtDistinct(s, k);
      EvictStable(rest, n - 1, r, e);
      RemoveAtOrder(s, k, r, e);
    }
  }

  /** With at most MAX_CONNECTIONS entries, the cleanup before an insertion
      leaves room for the new one: 100 entries become 90. */
  lemma CleanupMakesRoom(s: seq<Entry>)
    requires |s| <= MAX_CONNECTIONS
    ensures |s| < MAX_CONNECTIONS ==> Cleanup(s, EVICT_BATCH) == s
    ensures |Cleanup(s, EVICT_BATCH)| < MAX_CONNECTIONS
    ensures |s| == MAX_CONNECTIONS ==> |Cleanup(s, EVICT_BATCH)| == 90
  {
    EvictSize(s, EVICT_BATCH);
  }

  // ---------------------------------------------------------------------------
  // Inactivity expiry

  /** The stale entries of `s`, in registry order. */
  function StaleList(s: seq<Entry>, now: int): seq<Entry>
  {
    if s == [] then []
    else
      var last := s[|s| - 1];
      StaleList(s[..|s| - 1], now) + if now - last.info.lastSeen > CONNECTION_TIMEOUT then [last] else []
  }

  lemma {:induction false} StaleListMember(s: seq<Entry>, now: int, e: Entry)
    ensures e in StaleList(s, now) <==> e in s && now - e.info.lastSeen > CONNECTION_TIMEOUT
  {
    if s != [] {
      StaleListMember(s[..|s| - 1], now, e);
      assert s == s[..|s| - 1] + [s[|s| - 1]];
    }
  }

  /** The listed stale entries have distinct addresses. */
  lemma {:induction false} StaleListDistinct(s: seq<Entry>, now: int)
    requires DistinctAddrs(s)
    ensures DistinctAddrs(StaleList(s, now))
  {
    if s != [] {
      var p := s[..|s| - 1];
      var last := s[|s| - 1];
      StaleListDistinct(p, now);
      forall e | e in StaleList(p, now) ensures e.addr != last.addr {
        StaleListMember(p, now, e);
        var i :| 0 <= i < |p| && p[i] == e;
        assert s[i] == e;
      }
    }
  }

  lemma StaleListIsStale(s: seq<Entry>, now: int)
    ensures Members(StaleList(s, now)) == Stale(s, now)
  {
    forall e ensures e in Members(StaleList(s, now)) <==> e in Stale(s, now) {
      StaleListMember(s, now, e);
    }
  }

  lemma MembersSnoc(q: seq<Entry>, x: Entry)
    ensures Members(q + [x]) == Members(q) + {x}
  {
    forall e ensures e in Members(q + [x]) <==> e in Members(q) + {x} {
      if e in q + [x] && e != x {
        var i :| 0 <= i < |q + [x]| && (q + [x])[i] == e;
        assert q[i] == e;
      }
    }
  }

  lemma MembersPrefix(q: seq<Entry>, j: nat)
    requires j < |q|
    ensures Members(q[..j + 1]) == Members(q[..j]) + {q[j]}
  {
    assert q[..j + 1] == q[..j] + [q[j]];
    MembersSnoc(q[..j], q[j]);
  }

  /** In a list with distinct addresses, the `j`-th entry is not among the earlier ones. */
  lemma NotYetDeleted(q: seq<Entry>, j: nat)
    requires DistinctAddrs(q) && j < |q|
    ensures q[j] !in Members(q[..j])
  {
  }

  /** After expiry exactly the entries heard from within CONNECTION_TIMEOUT
      seconds remain, each unchanged. */
  lemma ExpiryKeepsExactly(s: seq<Entry>, now: int, e: Entry)
    ensures e in Without(s, Stale(s, now)) <==> e in s && now - e.info.lastSeen <= CONNECTION_TIMEOUT
  {
    WithoutMember(s, Stale(s, now), e);
  }

  /** Deleting one more entry, found by its address, from the registry `w`
      already thinned by `done`. */
  lemma DeleteStep(s: seq<Entry>, done: set<Entry>, w: seq<Entry>, x: Entry)
    requires w == Without(s, done)
    requires DistinctAddrs(s) && x in s && x !in done
    ensures Find(w, x.addr) >= 0
    ensures RemoveAt(w, Find(w, x.addr)) == Without(s, done + {x})
  {
    WithoutDistinct(s, done);
    WithoutMember(s, done, x);
    var p := Pos(w, x);
    var k := Find(w, x.addr);
    assert w[p].addr == x.addr;
    assert k == p;
    RemoveAtIsWithout(w, k);
    WithoutTwice(s, done, {x});
  }

  // ---------------------------------------------------------------------------
  // The registry

  /** One row of the monitor's `connections` list. */
  datatype View = View(
    clientIp: string,
    clientPort: string,
    serverIp: string,
    iface: string,
    video: string,
    position: real,
    duration: real,
    bandwidthDown: real,
    bandwidthUp: real,
    lastSeen: int)

  function ViewOf(e: Entry): View
  {
    View(e.addr, e.info.clientPort, e.info.serverIp, e.info.iface, e.info.video,
         e.info.position, e.info.duration, e.info.bandwidthDown, e.info.bandwidthUp,
         e.info.lastSeen)
  }

  /** The `/monitor-data` reply when the caller is admitted. */
  datatype MonitorReply =
    | Denied                                   // 401: credentials configured and not matched
    | Report(activeCount: nat, totalClients: nat, connections: seq<View>)

  class Registry {
    var entries: seq<Entry>

    ghost predicate Valid()
      reads this
    {
      DistinctAddrs(entries) && |entries| <= MAX_CONNECTIONS
    }

    constructor ()
      ensures Valid() && entries == []
    {
      entries := [];
    }

    /** `cleanup_oldest_connections(count)`. */
    method CleanupOldest(count: nat)
      requires Valid()
      modifies this
      ensures Valid()
      ensures entries == Cleanup(old(entries), count)
    {
      if |entries| >= MAX_CONNECTIONS {
        ghost var s := entries;
        var victims := if count < |entries| then count else |entries|;
        EvictSize(s, count);
        EvictSize(s, victims);
        var i := 0;
        while i < victims
          invariant 0 <= i <= victims
          invariant |entries| == |s| - i
          invariant EvictOldest(entries, victims - i) == Cleanup(s, count)
        {
          var k := OldestIndex(entries);
          entries := RemoveAt(entries, k);
          i := i + 1;
        }
        EvictDistinct(s, count);
      }
    }

    /** `track_connection`, run before every request. */
    method Track(path: string, addr: string, port: Option<string>, host: string, now: int,
                 connectedAt: string, cache: InterfaceCache, nics: seq<Nic>)
      requires Valid()
      modifies this, cache
      ensures Valid()
      ensures path == MONITOR_PAGE || path == MONITOR_DATA ==>
                entries == old(entries) && cache.names == old(cache.names) && cache.lastUpdate == old(cache.lastUpdate)
      ensures path != MONITOR_PAGE && path != MONITOR_DATA && Find(old(entries), addr) >= 0 ==>
                var i := Find(old(entries), addr);
                && entries == old(entries)[i := Entry(addr, old(entries)[i].info.(lastSeen := now, clientPort := PortText(port)))]
                && cache.names == old(cache.names) && cache.lastUpdate == old(cache.lastUpdate)
      ensures path != MONITOR_PAGE && path != MONITOR_DATA && Find(old(entries), addr) < 0 ==>
                var serverIp := ServerHost(host);
                var name := NameIn(Refreshed(old(cache.names), old(cache.lastUpdate), now, nics), serverIp);
                && entries == Cleanup(old(entries), EVICT_BATCH) + [Entry(addr, NewConn(serverIp, PortText(port), name, now, connectedAt))]
                && cache.names == Refreshed(old(cache.names), old(cache.lastUpdate), now, nics)
                && cache.lastUpdate == (if now - old(cache.lastUpdate) > INTERFACE_CACHE_EXPIRE then now else old(cache.lastUpdate))
    {
      if path == MONITOR_PAGE || path == MONITOR_DATA {
        return;
      }
      var clientPort := PortText(port);
      var serverIp := ServerHost(host);
      ghost var s := entries;
      if Find(entries, addr) < 0 && |entries| >= MAX_CONNECTIONS {
        CleanupOldest(EVICT_BATCH);
        EvictIsWithout(s, EVICT_BATCH);
        FindWithout(s, Evicted(s, EVICT_BATCH), addr);
      }
      CleanupMakesRoom(s);
      var i := Find(entries, addr);
      if i < 0 {
        // The second capacity check inside the lock can no longer fire.
        assert |entries| < MAX_CONNECTIONS;
        var name := cache.Lookup(serverIp, now, nics);
        entries := entries + [Entry(addr, NewConn(serverIp, clientPort, name, now, connectedAt))];
      } else {
        assert entries == s;
        entries := entries[i := Entry(addr, entries[i].info.(lastSeen := now, clientPort := clientPort))];
      }
    }

    /** `update_status`: merge the client's report; unknown clients are ignored. */
    method UpdateStatus(addr: string, video: Option<string>, position: Option<real>,
                        duration: Option<real>, now: int) returns (success: bool)
      requires Valid()
      modifies this
      ensures Valid() && success
      ensures Find(old(entries), addr) < 0 ==> entries == old(entries)
      ensures Find(old(entries), addr) >= 0 ==>
                var i := Find(old(entries), addr);
                entries == old(entries)[i := Entry(addr, old(entries)[i].info.(
                  video := if video.Some? then video.value else NOT_PLAYING,
                  position := if position.Some? then position.value else 0.0,
                  duration := if duration.Some? then duration.value else 0.0,
                  lastSeen := now))]
    {
      var i := Find(entries, addr);
      if i >= 0 {
        var info := entries[i].info;
        var v := if video.Some? then video.value else NOT_PLAYING;
        var p := if position.Some? then position.value else 0.0;
        var d := if duration.Some? then duration.value else 0.0;
        entries := entries[i := Entry(addr, info.(video := v, position := p, duration := d, lastSeen := now))];
      }
      success := true;
    }

    /** The first pass of the inactivity sweep: the stale entries, in registry order. */
    method CollectStale(now: int) returns (expired: seq<Entry>)
      ensures expired == StaleList(entries, now)
    {
      expired := [];
      var i := 0;
      while i < |entries|
        invariant 0 <= i <= |entries|
        invariant expired == StaleList(entries[..i], now)
      {
        assert entries[..i + 1][..i] == entries[..i];
        if now - entries[i].info.lastSeen > CONNECTION_TIMEOUT {
          expired := expired + [entries[i]];
        }
        i := i + 1;
      }
      assert entries[..i] == entries;
    }

    /** The second pass: delete the listed entries by address, one by one. */
    method DeleteEach(expired: seq<Entry>)
      requires Valid() && DistinctAddrs(expired)
      requires forall j :: 0 <= j < |expired| ==> expired[j] in entries
      modifies this
      ensures Valid()
      ensures entries == Without(old(entries), Members(expired))
    {
      ghost var s := entries;
      ghost var deleted: set<Entry> := {};
      var remaining := entries;
      var j := 0;
      WithoutNothing(s);
      while j < |expired|
        invariant 0 <= j <= |expired|
        invariant deleted == Members(expired[..j])
        invariant remaining == Without(s, deleted)
      {
        var k := Find(remaining, expired[j].addr);
        NotYetDeleted(expired, j);
        DeleteStep(s, deleted, remaining, expired[j]);
        MembersPrefix(expired, j);
        remaining := RemoveAt(remaining, k);
        deleted := deleted + {expired[j]};
        j := j + 1;
      }
      assert expired[..j] == expired;
      WithoutDistinct(s, Members(expired));
      entries := remaining;
    }

    /** The inactivity sweep of the maintenance cycle: list the stale
        entries, then delete them by address. */
    method ExpireInactive(now: int)
      requires Valid()
      modifies this
      ensures Valid()
      ensures entries == Without(old(entries), Stale(old(entries), now))
    {
      var expired := CollectStale(now);
      StaleListDistinct(entries, now);
      forall j | 0 <= j < |expired| ensures expired[j] in entries {
        StaleListMember(entries, now, expired[j]);
      }
      StaleListIsStale(entries, now);
      DeleteEach(expired);
    }

    /** The `connections` projection of `/monitor-data`, in registry order. */
    method Snapshot() returns (views: seq<View>)
      requires Valid()
      ensures |views| == |entries|
      ensures forall i :: 0 <= i < |views| ==> views[i] == ViewOf(entries[i])
      ensures forall i, j :: 0 <= i < j < |views| ==> views[i].clientIp != views[j].clientIp
    {
      views := [];
      var i := 0;
      while i < |entries|
        invariant 0 <= i <= |entries|
        invariant |views| == i
        invariant forall k :: 0 <= k < i ==> views[k] == ViewOf(entries[k])
      {
        views := views + [ViewOf(entries[i])];
        i := i + 1;
      }
    }

    /** `/monitor-data`: the optional operator credentials, then the snapshot. */
    method MonitorData(username: string, password: string, auth: Option<(string, string)>)
      returns (reply: MonitorReply)
      requires Valid()
      ensures username != "" && password != "" && auth != Some((username, password)) ==> reply == Denied
      ensures !(username != "" && password != "" && auth != Some((username, password))) ==>
                && reply.Report?
                && reply.activeCount == reply.totalClients == |entries|
                && |reply.connections| == |entries|
                && forall i :: 0 <= i < |entries| ==> reply.connections[i] == ViewOf(entries[i])
    {
      if username != "" && password != "" && auth != Some((username, password)) {
        return Denied;
      }
      var views := Snapshot();
      reply := Report(|views|, |views|, views);
    }
  }
}
