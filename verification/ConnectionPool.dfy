/** Persistent connections: sockets with the same pool key take streams from, and return them to, one list, and
    `nb_active` counts the streams the pool has opened. */
module ConnectionPool {
  import opened Options

  /** A `php_stream`; no two opened streams share a number. */
  type Stream = nat

  type SockId = nat

  /** `ConnectionPool`: streams are prepended and taken from the tail. */
  datatype Pool = Pool(list: seq<Stream>, nbActive: int)

  datatype Sock = Sock(key: string, persistent: bool, stream: Maybe<Stream>, atomic: bool, watching: bool)

  type Pools = map<string, Pool>

  type Socks = map<SockId, Sock>

  /** Where a live stream is: idle in the pool of a key, or held by a socket. */
  datatype Place = Idle(key: string) | HeldBy(sock: SockId)

  predicate Distinct(s: seq<Stream>) {
    forall i, j | 0 <= i < j < |s| :: s[i] != s[j]
  }

  predicate Holds(k: Sock, key: string) {
    k.persistent && k.key == key && k.stream.Just?
  }

  /** The sockets that hold a stream of the pool `key`. */
  function Holders(socks: Socks, key: string): set<SockId> {
    set s | s in socks && Holds(socks[s], key)
  }

  /** Conservation: `nb_active` is what is idle plus what is held, and within the limit if there is one. */
  ghost predicate Counted(pools: Pools, socks: Socks, limit: int) {
    && (forall k | k in pools ::
          pools[k].nbActive == |pools[k].list| + |Holders(socks, k)| && (limit > 0 ==> pools[k].nbActive <= limit))
    && (forall s | s in socks && socks[s].persistent && socks[s].stream.Just? :: socks[s].key in pools)
  }

  /** Exclusive ownership. `place` has one entry per live stream: a stream is in a list, and once, or held by a
      socket, exactly if that is its place. */
  ghost predicate Placed(pools: Pools, socks: Socks, place: map<Stream, Place>) {
    && (forall k | k in pools :: Distinct(pools[k].list))
    && (forall k, x | k in pools && x in pools[k].list :: x in place && place[x] == Idle(k))
    && (forall s | s in socks && socks[s].stream.Just? ::
          socks[s].stream.value in place && place[socks[s].stream.value] == HeldBy(s))
    && (forall x | x in place && place[x].Idle? :: place[x].key in pools && x in pools[place[x].key].list)
    && (forall x | x in place && place[x].HeldBy? :: place[x].sock in socks && socks[place[x].sock].stream == Just(x))
  }

  /** No idle stream has a server session with WATCHes. */
  ghost predicate Tidy(place: map<Stream, Place>, watches: set<Stream>) {
    forall x | x in place && place[x].Idle? :: x !in watches
  }

  // ---- what one call does to the pool of its socket ----

  /** The pools after the socket gives its stream up. */
  function Dropped(pools: Pools, k: Sock, force: bool): Pools
    requires Holds(k, k.key) ==> k.key in pools
  {
    if !Holds(k, k.key) then pools
    else
      var p := pools[k.key];
      pools[k.key := if force || !k.atomic then Pool(p.list, p.nbActive - 1)
                     else Pool([k.stream.value] + p.list, p.nbActive)]
  }

  /** A connecting socket looks at the oldest idle stream: alive, it is taken; dead, the pool forgets it. */
  function Probed(p: Pool, alive: bool): Pool
    requires p.list != []
  {
    Pool(p.list[..|p.list| - 1], if alive then p.nbActive else p.nbActive - 1)
  }

  function Oldest(p: Pool): Stream
    requires p.list != []
  {
    p.list[|p.list| - 1]
  }

  function PoolOf(pools: Pools, key: string): Pool {
    if key in pools then pools[key] else Pool([], 0)
  }

  function Disconnected(k: Sock, resetMode: bool): Sock {
    k.(stream := Nothing, atomic := resetMode || k.atomic, watching := false)
  }

  /** The stream a persistent socket gets when it connects, if any, and what its pool is then. `next` is the stream
      that would be opened. */
  function Negotiate(p: Pool, freshly: bool, alive: bool, accepts: bool, limit: int, next: Stream)
    : (Maybe<Stream>, Pool)
  {
    if !freshly && p.list != [] && alive then (Just(Oldest(p)), Probed(p, true))
    else
      var q := if !freshly && p.list != [] then Probed(p, false) else p;
      if (limit > 0 && q.nbActive >= limit) || !accepts then (Nothing, q)
      else (Just(next), Pool(q.list, q.nbActive + 1))
  }

  /** The stream any socket gets when it connects, and the pools then. */
  function Leased(pools: Pools, k: Sock, freshly: bool, alive: bool, accepts: bool, limit: int, next: Stream)
    : (Maybe<Stream>, Pools)
  {
    if k.persistent then
      var (x, p) := Negotiate(PoolOf(pools, k.key), freshly, alive, accepts, limit, next);
      (x, pools[k.key := p])
    else (if accepts then Just(next) else Nothing, pools)
  }

  lemma LeasedIs(pools: Pools, k: Sock, freshly: bool, alive: bool, accepts: bool, limit: int, next: Stream)
    ensures var (x, now) := Leased(pools, k, freshly, alive, accepts, limit, next);
            var p := PoolOf(pools, k.key);
            && (k.persistent && !freshly && alive && p.list != [] ==>
                  x == Just(p.list[|p.list| - 1]) && k.key in now && now[k.key].list == p.list[..|p.list| - 1])
            && (accepts && (!k.persistent || limit <= 0 || p.nbActive < limit) ==> x.Just?)
            && (x.Just? ==> accepts || (k.persistent && !freshly && alive))
            && (k.persistent && p.nbActive < limit && x.Nothing? ==> PoolOf(now, k.key).nbActive < limit)
  {
  }

  /** The idle lists only lose streams, the oldest ones. */
  predicate Shrunk(before: Pools, after: Pools) {
    forall key | key in before ::
      && key in after
      && |after[key].list| <= |before[key].list|
      && after[key].list == before[key].list[..|after[key].list|]
  }

  lemma ShrunkTrans(a: Pools, b: Pools, c: Pools)
    requires Shrunk(a, b) && Shrunk(b, c)
    ensures Shrunk(a, c)
  {
    forall key | key in a
      ensures key in c && |c[key].list| <= |a[key].list| && c[key].list == a[key].list[..|c[key].list|]
    {
      assert c[key].list == b[key].list[..|c[key].list|];
    }
  }

  lemma ShrunkRefl(a: Pools)
    ensures Shrunk(a, a)
  {
  }

  lemma ConnectingShrinks(pools: Pools, k: Sock, freshly: bool, alive: bool, accepts: bool, limit: int, next: Stream)
    ensures Shrunk(pools, Leased(pools, k, freshly, alive, accepts, limit, next).1)
  {
  }

  lemma ClosingShrinks(pools: Pools, k: Sock)
    requires Holds(k, k.key) ==> k.key in pools
    ensures Shrunk(pools, Dropped(pools, k, true))
  {
  }

  /** Released one after the other, streams come back in the order of their release, after those already idle. */
  function Taken(p: Pool, n: nat): (r: seq<Stream>)
    requires n <= |p.list|
    ensures |r| == n
    decreases n
  {
    if n == 0 then [] else [Oldest(p)] + Taken(Probed(p, true), n - 1)
  }

  function ReleasedAll(p: Pool, xs: seq<Stream>): (q: Pool)
    ensures |q.list| == |p.list| + |xs|
    decreases |xs|
  {
    if xs == [] then p else ReleasedAll(Pool([xs[0]] + p.list, p.nbActive), xs[1..])
  }

  lemma {:induction false} TakenFromTheTail(p: Pool, x: Stream, n: nat)
    requires n <= |p.list|
    ensures Taken(Pool([x] + p.list, p.nbActive), n) == Taken(p, n)
    ensures Taken(Pool([x] + p.list, p.nbActive), |p.list| + 1) == Taken(p, |p.list|) + [x]
    decreases |p.list|, n
  {
    var q := Pool([x] + p.list, p.nbActive);
    if p.list != [] {
      assert Probed(q, true).list == [x] + Probed(p, true).list;
      if n > 0 {
        TakenFromTheTail(Probed(p, true), x, n - 1);
      } else {
        TakenFromTheTail(Probed(p, true), x, 0);
      }
      assert Taken(q, |p.list| + 1) == [Oldest(q)] + Taken(Probed(q, true), |p.list|);
    } else {
      assert Taken(q, 1) == [x] + Taken(Probed(q, true), 0);
    }
  }

  lemma {:induction false} FirstReleasedFirstTaken(p: Pool, xs: seq<Stream>)
    ensures Taken(ReleasedAll(p, xs), |p.list| + |xs|) == Taken(p, |p.list|) + xs
    decreases |xs|
  {
    if xs != [] {
      FirstReleasedFirstTaken(Pool([xs[0]] + p.list, p.nbActive), xs[1..]);
      TakenFromTheTail(p, xs[0], 0);
      assert xs == [xs[0]] + xs[1..];
    }
  }

  // ---- one change at a time ----

  lemma DistinctPrepend(x: Stream, s: seq<Stream>)
    requires Distinct(s) && x !in s
    ensures Distinct([x] + s)
    ensures forall y :: y in [x] + s <==> y == x || y in s
  {
  }

  lemma DistinctInit(s: seq<Stream>)
    requires Distinct(s) && s != []
    ensures var init := s[..|s| - 1];
            Distinct(init) && forall y :: y in init <==> y in s && y != s[|s| - 1]
  {
  }

  /** Only the socket's own pool has one holder more or less when its stream changes. */
  lemma HoldersAfter(socks: Socks, s: SockId, k: Sock, key: string)
    ensures var after := Holders(socks[s := k], key);
            |after| == |Holders(socks, key)| - (if s in Holders(socks, key) then 1 else 0)
                       + (if Holds(k, key) then 1 else 0)
  {
    var before, after := Holders(socks, key), Holders(socks[s := k], key);
    forall t ensures t in after <==> if t == s then Holds(k, key) else t in before {
    }
    if Holds(k, key) {
      assert after == before + {s};
      assert before + {s} == (before - {s}) + {s};
    } else {
      assert after == before - {s};
    }
  }

  function Held(k: Sock): nat {
    if Holds(k, k.key) then 1 else 0
  }

  /** A change to one pool and one socket keeps every count if the pool's own balance is kept. */
  lemma CountedAfter(pools: Pools, socks: Socks, limit: int, s: SockId, k: Sock, p: Pool)
    requires Counted(pools, socks, limit)
    requires s in socks && socks[s].key == k.key && socks[s].persistent && k.persistent && k.key in pools
    requires var was := pools[k.key];
             p.nbActive - |p.list| - Held(k) == was.nbActive - |was.list| - Held(socks[s])
    requires limit > 0 ==> p.nbActive <= limit
    ensures Counted(pools[k.key := p], socks[s := k], limit)
  {
    forall key | key in pools
      ensures |Holders(socks[s := k], key)|
           == |Holders(socks, key)| + if key == k.key then Held(k) - Held(socks[s]) else 0
    {
      HoldersAfter(socks, s, k, key);
    }
  }

  /** A socket of no pool, or one that holds as much as before. */
  lemma CountedSocket(pools: Pools, socks: Socks, limit: int, s: SockId, k: Sock)
    requires Counted(pools, socks, limit)
    requires if s in socks
             then
               && k.key == socks[s].key && k.persistent == socks[s].persistent
               && (!k.persistent || Held(k) == Held(socks[s]))
             else Held(k) == 0
    ensures Counted(pools, socks[s := k], limit)
  {
    forall key | key in pools ensures |Holders(socks[s := k], key)| == |Holders(socks, key)| {
      HoldersAfter(socks, s, k, key);
    }
  }

  lemma CountedPool(pools: Pools, socks: Socks, limit: int, key: string, p: Pool)
    requires Counted(pools, socks, limit)
    requires limit > 0 ==> p.nbActive <= limit
    requires var was := PoolOf(pools, key);
             p.nbActive - |p.list| == was.nbActive - |was.list|
    ensures Counted(pools[key := p], socks, limit)
  {
    if key !in pools {
      assert Holders(socks, key) == {};
    }
  }

  lemma PlacedClose(pools: Pools, socks: Socks, place: map<Stream, Place>, s: SockId, gone: Sock)
    requires Placed(pools, socks, place)
    requires s in socks && socks[s].stream.Just? && gone.stream.Nothing?
    ensures Placed(pools, socks[s := gone], place - {socks[s].stream.value})
  {
    hide Distinct;
  }

  lemma PlacedRecount(pools: Pools, socks: Socks, place: map<Stream, Place>, key: string, n: int)
    requires Placed(pools, socks, place) && key in pools
    ensures Placed(pools[key := Pool(pools[key].list, n)], socks, place)
  {
    hide Distinct;
  }

  lemma PlacedRelease(pools: Pools, socks: Socks, place: map<Stream, Place>, s: SockId, gone: Sock, n: int)
    requires Placed(pools, socks, place)
    requires s in socks && socks[s].stream.Just? && gone.stream.Nothing? && gone.key in pools
    ensures var x := socks[s].stream.value;
            Placed(pools[gone.key := Pool([x] + pools[gone.key].list, n)], socks[s := gone], place[x := Idle(gone.key)])
  {
    var x := socks[s].stream.value;
    PlacedClose(pools, socks, place, s, gone);
    hide Placed;
    PlacedIdle(pools, socks[s := gone], place - {x}, gone.key, x, n);
    assert (place - {x})[x := Idle(gone.key)] == place[x := Idle(gone.key)];
  }

  lemma PlacedIdle(pools: Pools, socks: Socks, place: map<Stream, Place>, key: string, x: Stream, n: int)
    requires Placed(pools, socks, place) && key in pools && x !in place
    ensures Placed(pools[key := Pool([x] + pools[key].list, n)], socks, place[x := Idle(key)])
  {
    DistinctPrepend(x, pools[key].list);
    hide Distinct;
  }

  lemma PlacedForget(pools: Pools, socks: Socks, place: map<Stream, Place>, key: string, n: int)
    requires Placed(pools, socks, place)
    requires key in pools && pools[key].list != []
    ensures var p := pools[key];
            Placed(pools[key := Pool(p.list[..|p.list| - 1], n)], socks, place - {Oldest(p)})
  {
    var p := pools[key];
    var init, left := p.list[..|p.list| - 1], place - {Oldest(p)};
    DistinctInit(p.list);
    hide Distinct;
    assert Oldest(p) in p.list;
    assert place[Oldest(p)] == Idle(key);
    var after := pools[key := Pool(init, n)];
    forall k, x | k in after && x in after[k].list ensures x in left && left[x] == Idle(k) {
      assert x in pools[k].list && place[x] == Idle(k);
      if k == key {
        assert x in init;
      }
      assert x != Oldest(p);
    }
    forall x | x in left && left[x].Idle? ensures left[x].key in after && x in after[left[x].key].list {
      assert x in place && place[x].Idle? && x in pools[place[x].key].list;
      assert place[x].key == key ==> x in init;
    }
  }

  lemma PlacedHold(pools: Pools, socks: Socks, place: map<Stream, Place>, s: SockId, x: Stream)
    requires Placed(pools, socks, place)
    requires s in socks && socks[s].stream.Nothing? && x !in place
    ensures Placed(pools, socks[s := socks[s].(stream := Just(x))], place[x := HeldBy(s)])
  {
    hide Distinct;
  }

  /** A socket that changes in anything but its stream. */
  lemma PlacedRelabel(pools: Pools, socks: Socks, place: map<Stream, Place>, s: SockId, k: Sock)
    requires Placed(pools, socks, place)
    requires k.stream == if s in socks then socks[s].stream else Nothing
    ensures Placed(pools, socks[s := k], place)
  {
    hide Distinct;
  }

  lemma PlacedNewPool(pools: Pools, socks: Socks, place: map<Stream, Place>, key: string)
    requires Placed(pools, socks, place) && key !in pools
    ensures Placed(pools[key := Pool([], 0)], socks, place)
  {
  }

  /** WATCHes belong to streams that exist, and a socket that says it watches holds a stream. The server may have
      dropped the watches while the flag stays: WATCH, MULTI, DISCARD leaves it so. `stray` are the streams whose
      WATCHes their holder may not know of: nobody read the reply, or the holder has changed. */
  ghost predicate Marked(
      socks: Socks, place: map<Stream, Place>, watches: set<Stream>, stray: set<Stream>, next: nat)
  {
    && (forall x | x in place :: x < next)
    && (forall x | x in watches :: x < next)
    && (forall s | s in socks && socks[s].watching :: socks[s].stream.Just?)
    && (forall s | s in socks && socks[s].stream.Just? && socks[s].stream.value in watches ::
          socks[s].watching || socks[s].stream.value in stray)
    && (forall x | x in place && place[x].Idle? && x in watches :: x in stray)
  }

  /** The session with its WATCHes is gone with its stream. */
  lemma MarkedClose(
      socks: Socks, place: map<Stream, Place>, watches: set<Stream>, stray: set<Stream>, next: nat,
      s: SockId, gone: Sock)
    requires Marked(socks, place, watches, stray, next)
    requires s in socks && socks[s].stream.Just? && gone.stream.Nothing? && !gone.watching
    ensures var left := place - {socks[s].stream.value};
            && Marked(socks[s := gone], left, watches, stray, next)
            && (Tidy(place, watches) ==> Tidy(left, watches))
  {
  }

  /** Giving a stream back is the one way to pool a session with WATCHes: it happens exactly if the server has some. */
  lemma MarkedRelease(
      socks: Socks, place: map<Stream, Place>, watches: set<Stream>, stray: set<Stream>, next: nat,
      s: SockId, gone: Sock)
    requires Marked(socks, place, watches, stray, next)
    requires s in socks && socks[s].stream.Just? && gone.stream.Nothing? && !gone.watching
    requires socks[s].stream.value in place
    ensures var idle := place[socks[s].stream.value := Idle(gone.key)];
            && Marked(socks[s := gone], idle, watches, stray + {socks[s].stream.value} * watches, next)
            && (Tidy(place, watches) ==>
                  (Tidy(idle, watches) <==> socks[s].stream.value !in watches))
  {
    var x := socks[s].stream.value;
    var idle := place[x := Idle(gone.key)];
    assert idle[x].Idle?;
  }

  /** A stream nobody holds, new or idle, goes to a socket. */
  lemma MarkedHold(
      socks: Socks, place: map<Stream, Place>, watches: set<Stream>, stray: set<Stream>, next: nat,
      s: SockId, x: Stream)
    requires Marked(socks, place, watches, stray, next)
    requires s in socks && socks[s].stream.Nothing? && (x == next || (x in place && place[x].Idle?))
    ensures var held := place[x := HeldBy(s)];
            var after := socks[s := socks[s].(stream := Just(x))];
            && Marked(after, held, watches, stray, if x == next then next + 1 else next)
            && (Tidy(place, watches) ==> Tidy(held, watches))
  {
  }

  /** A socket whose stream stays; `w` are the watched streams then. A watch that comes without the flag has strayed. */
  lemma MarkedRelabel(
      pools: Pools, socks: Socks, place: map<Stream, Place>, watches: set<Stream>, stray: set<Stream>, next: nat,
      s: SockId, k: Sock, w: set<Stream>)
    requires Marked(socks, place, watches, stray, next) && Placed(pools, socks, place)
    requires k.stream == if s in socks then socks[s].stream else Nothing
    requires if k.stream.Nothing? then w == watches && !k.watching
             else w == watches + {k.stream.value} || w == watches - {k.stream.value}
    ensures Marked(socks[s := k], place, w, Strayed(stray, k, w), next)
    ensures Tidy(place, watches) ==> Tidy(place, w)
  {
    hide Distinct;
  }

  function Strayed(stray: set<Stream>, k: Sock, w: set<Stream>): set<Stream> {
    if k.stream.Nothing? then stray
    else if k.stream.value in w && !k.watching then stray + {k.stream.value}
    else stray - {k.stream.value}
  }

  // ---- what the invariants say at one point ----

  lemma HolderHasPool(pools: Pools, socks: Socks, place: map<Stream, Place>, limit: int, s: SockId)
    requires Counted(pools, socks, limit) && Placed(pools, socks, place) && s in socks && socks[s].stream.Just?
    ensures socks[s].persistent ==> socks[s].key in pools && (limit > 0 ==> pools[socks[s].key].nbActive <= limit)
    ensures socks[s].stream.value in place
  {
  }

  lemma OldestIsIdle(pools: Pools, socks: Socks, place: map<Stream, Place>, limit: int, key: string)
    requires Counted(pools, socks, limit) && Placed(pools, socks, place) && key in pools && pools[key].list != []
    ensures Oldest(pools[key]) in place && place[Oldest(pools[key])] == Idle(key)
    ensures limit > 0 ==> pools[key].nbActive <= limit
  {
    assert Oldest(pools[key]) in pools[key].list;
  }

  lemma NextIsNew(
      socks: Socks, place: map<Stream, Place>, watches: set<Stream>, stray: set<Stream>, next: nat)
    requires Marked(socks, place, watches, stray, next)
    ensures next !in place && forall x | x in place :: x < next
  {
  }

  lemma NoStreamNoWatch(
      socks: Socks, place: map<Stream, Place>, watches: set<Stream>, stray: set<Stream>, next: nat,
      s: SockId)
    requires Marked(socks, place, watches, stray, next) && s in socks && socks[s].stream.Nothing?
    ensures !socks[s].watching
  {
  }

  lemma MarkedForget(
      socks: Socks, place: map<Stream, Place>, watches: set<Stream>, stray: set<Stream>, next: nat,
      x: Stream)
    requires Marked(socks, place, watches, stray, next)
    ensures Marked(socks, place - {x}, watches, stray, next)
    ensures Tidy(place, watches) ==> Tidy(place - {x}, watches)
  {
  }

  lemma CountedWithout(pools: Pools, socks: Socks, limit: int, s: SockId)
    requires Counted(pools, socks, limit) && s in socks && socks[s].stream.Nothing?
    ensures Counted(pools, socks - {s}, limit)
  {
    forall key | key in pools ensures Holders(socks - {s}, key) == Holders(socks, key) {
    }
  }

  lemma PlacedWithout(pools: Pools, socks: Socks, place: map<Stream, Place>, s: SockId)
    requires Placed(pools, socks, place) && s in socks && socks[s].stream.Nothing?
    ensures Placed(pools, socks - {s}, place)
  {
    hide Distinct;
  }

  lemma MarkedWithout(
      socks: Socks, place: map<Stream, Place>, watches: set<Stream>, stray: set<Stream>, next: nat,
      s: SockId)
    requires Marked(socks, place, watches, stray, next) && s in socks && socks[s].stream.Nothing?
    ensures Marked(socks - {s}, place, watches, stray, next)
    ensures Tidy(place, watches) <==> Tidy(place, watches)
  {
    var left := socks - {s};
    forall t | t in socks && socks[t].stream.Just? ensures t in left && left[t] == socks[t] {
    }
  }

  /** What exclusive ownership means for two holders of one stream: they are one and the same. */
  lemma NoSharing(pools: Pools, socks: Socks, place: map<Stream, Place>, x: Stream)
    requires Placed(pools, socks, place)
    ensures forall s, t | s in socks && t in socks && socks[s].stream == Just(x) && socks[t].stream == Just(x) :: s == t
    ensures forall s, key | s in socks && key in pools && socks[s].stream == Just(x) :: x !in pools[key].list
    ensures forall k, m | k in pools && m in pools && x in pools[k].list && x in pools[m].list :: k == m
    ensures forall key | key in pools && x in pools[key].list :: multiset(pools[key].list)[x] == 1
  {
    forall key | key in pools && x in pools[key].list ensures multiset(pools[key].list)[x] == 1 {
      OnceIfDistinct(pools[key].list, x);
    }
    hide Distinct;
    forall s, t | s in socks && t in socks && socks[s].stream == Just(x) && socks[t].stream == Just(x) ensures s == t {
      assert place[x] == HeldBy(s) && place[x] == HeldBy(t);
    }
    forall k, m | k in pools && m in pools && x in pools[k].list && x in pools[m].list ensures k == m {
      assert place[x] == Idle(k) && place[x] == Idle(m);
    }
    forall s, key | s in socks && key in pools && socks[s].stream == Just(x) ensures x !in pools[key].list {
      assert place[x] == HeldBy(s);
    }
  }

  lemma {:induction false} OnceIfDistinct(s: seq<Stream>, x: Stream)
    requires Distinct(s)
    ensures multiset(s)[x] == if x in s then 1 else 0
  {
    if s != [] {
      assert s == [s[0]] + s[1..];
      OnceIfDistinct(s[1..], x);
    }
  }

  function Streams(socks: Socks, ss: seq<SockId>): (xs: seq<Stream>)
    requires forall s | s in ss :: s in socks && socks[s].stream.Just?
    ensures |xs| == |ss|
  {
    seq(|ss|, i requires 0 <= i < |ss| => socks[ss[i]].stream.value)
  }

  /** How one retry goes: no connection, or one that is at its end; a handshake that is refused; or all is well. */
  datatype Try = Down | Refuses | Answers

  /** The first retry that gets through decides. */
  predicate GetsThrough(tries: seq<Try>) {
    tries != [] && if tries[0].Down? then GetsThrough(tries[1..]) else tries[0].Answers?
  }

  /** The calls that reach the pool. */
  datatype PoolCall =
    | New(s: SockId, key: string, persistent: bool)
    | Connecting(s: SockId, freshly: bool, alive: bool, accepts: bool)
    | Commands(s: SockId, atomic: bool, watching: bool, watched: bool)
    | Lost(s: SockId, multi: bool, tries: seq<Try>)
    | Reconnecting(s: SockId, reachable: bool)
    | Closing(s: SockId)
    | Destroying(s: SockId)

  /** One PHP process: its persistent list of pools and the sockets in it. `watches` is the set of streams whose
      server session has keys watched. */
  class Process {
    const limit: int
    var pools: Pools
    var socks: Socks
    var nextStream: nat
    ghost var place: map<Stream, Place>
    ghost var watches: set<Stream>
    ghost var stray: set<Stream>

    constructor (limit: int)
      ensures Valid() && Clean() && stray == {} && pools == map[] && socks == map[] && this.limit == limit
    {
      this.limit, this.pools, this.socks, this.nextStream := limit, map[], map[], 0;
      this.place, this.watches, this.stray := map[], {}, {};
    }

    ghost predicate Valid()
      reads this
    {
      Counted(pools, socks, limit) && Placed(pools, socks, place) && Marked(socks, place, watches, stray, nextStream)
    }

    ghost predicate Clean()
      reads this
    {
      Tidy(place, watches)
    }

    /** A socket whose unforced disconnect hands a watched session on. */
    ghost predicate Leaks(s: SockId)
      requires s in socks
      reads this
    {
      socks[s].persistent && socks[s].atomic && socks[s].stream.Just? && socks[s].stream.value in watches
    }

    /** What a caller can see of that: the flag. */
    predicate MayLeak(s: SockId)
      requires s in socks
      reads this
    {
      socks[s].persistent && socks[s].atomic && socks[s].watching
    }

    lemma LeaksIsFlagged(s: SockId)
      requires Valid() && s in socks && Leaks(s)
      ensures MayLeak(s) || socks[s].stream.value in stray
    {
    }

    method NewSocket(s: SockId, key: string, persistent: bool)
      requires Valid() && s !in socks
      modifies this`socks
      ensures Valid() && socks == old(socks)[s := Sock(key, persistent, Nothing, true, false)]
      ensures old(Clean()) ==> Clean()
    {
      hide Counted, Placed, Marked, Tidy;
      var k := Sock(key, persistent, Nothing, true, false);
      CountedSocket(pools, socks, limit, s, k);
      PlacedRelabel(pools, socks, place, s, k);
      MarkedRelabel(pools, socks, place, watches, stray, nextStream, s, k, watches);
      socks := socks[s := k];
    }

    /** Mode and flag as the commands of a socket leave them; `watched` says whether its server session has watches
        then. The server may have fewer than the flag says, and more if the reply to a WATCH was never read. */
    method SetMode(s: SockId, atomic: bool, watching: bool, ghost watched: bool)
      requires Valid() && s in socks && (watching || watched ==> socks[s].stream.Just?)
      modifies this`socks, this`watches, this`stray
      ensures Valid() && socks == old(socks)[s := old(socks[s]).(atomic := atomic, watching := watching)]
      ensures socks[s].stream.Just? ==>
                var x := socks[s].stream.value;
                watches == if watched then old(watches) + {x} else old(watches) - {x}
      ensures stray == Strayed(old(stray), socks[s], watches)
      ensures old(Clean()) ==> Clean()
    {
      hide Counted, Placed, Marked, Tidy;
      var k := socks[s].(atomic := atomic, watching := watching);
      ghost var w := if k.stream.Nothing? then watches
                     else if watched then watches + {k.stream.value} else watches - {k.stream.value};
      CountedSocket(pools, socks, limit, s, k);
      PlacedRelabel(pools, socks, place, s, k);
      MarkedRelabel(pools, socks, place, watches, stray, nextStream, s, k, w);
      watches, stray := w, Strayed(stray, k, w);
      socks := socks[s := k];
    }

    /** `redis_sock_get_connection_pool`: found, or created empty. */
    method GetPool(key: string) returns (p: Pool)
      requires Valid()
      modifies this`pools
      ensures Valid() && p == PoolOf(old(pools), key)
      ensures pools == old(pools)[key := p]
    {
      hide Counted, Placed, Marked;
      if key !in pools {
        CountedPool(pools, socks, limit, key, Pool([], 0));
        PlacedNewPool(pools, socks, place, key);
        pools := pools[key := Pool([], 0)];
      }
      p := pools[key];
    }

    /** `redis_sock_disconnect`: the stream is closed, or handed to the head of the pool's list if nobody forces
        the close and the socket is ATOMIC. */
    method Disconnect(s: SockId, force: bool, resetMode: bool)
      requires Valid() && s in socks
      modifies this`pools, this`socks, this`place, this`stray
      ensures Valid()
      ensures old(Clean()) ==> (Clean() <==> !(old(Leaks(s)) && !force))
      ensures stray == if old(Leaks(s)) && !force then old(stray) + {old(socks[s]).stream.value} else old(stray)
      ensures socks == old(socks)[s := Disconnected(old(socks[s]), resetMode)]
      ensures pools == Dropped(old(pools), old(socks[s]), force)
      ensures var k := old(socks[s]);
              place == if k.stream.Nothing? then old(place)
                       else if k.persistent && !force && k.atomic then old(place)[k.stream.value := Idle(k.key)]
                       else old(place) - {k.stream.value}
    {
      hide Counted, Placed, Marked, Tidy;
      var k := socks[s];
      var gone := Disconnected(k, resetMode);
      if k.stream.Just? {
        HolderHasPool(pools, socks, place, limit, s);
      }
      if k.stream.Nothing? {
        CountedSocket(pools, socks, limit, s, gone);
        PlacedRelabel(pools, socks, place, s, gone);
        NoStreamNoWatch(socks, place, watches, stray, nextStream, s);
        MarkedRelabel(pools, socks, place, watches, stray, nextStream, s, gone, watches);
      } else if k.persistent && !force && k.atomic {
        var p := Pool([k.stream.value] + pools[k.key].list, pools[k.key].nbActive);
        CountedAfter(pools, socks, limit, s, gone, p);
        PlacedRelease(pools, socks, place, s, gone, p.nbActive);
        MarkedRelease(socks, place, watches, stray, nextStream, s, gone);
        pools := pools[k.key := p];
        place := place[k.stream.value := Idle(k.key)];
        stray := stray + {k.stream.value} * watches;
      } else {
        PlacedClose(pools, socks, place, s, gone);
        MarkedClose(socks, place, watches, stray, nextStream, s, gone);
        place := place - {k.stream.value};
        if k.persistent {
          var p := Pool(pools[k.key].list, pools[k.key].nbActive - 1);
          CountedAfter(pools, socks, limit, s, gone, p);
          PlacedRecount(pools, socks[s := gone], place, k.key, p.nbActive);
          pools := pools[k.key := p];
        } else {
          CountedSocket(pools, socks, limit, s, gone);
        }
      }
      socks := socks[s := gone];
    }

    /** The liveness probe succeeded. */
    method TakeOldest(s: SockId, p: Pool)
      requires Valid() && s in socks && socks[s].stream.Nothing? && socks[s].persistent
      requires socks[s].key in pools && p == pools[socks[s].key] && p.list != []
      modifies this`pools, this`socks, this`place
      ensures Valid() && (old(Clean()) ==> Clean())
      ensures pools == old(pools)[old(socks[s]).key := Probed(p, true)]
      ensures socks == old(socks)[s := old(socks[s]).(stream := Just(Oldest(p)))]
      ensures Oldest(p) in old(place) && place == old(place)[Oldest(p) := HeldBy(s)]
    {
      hide Counted, Placed, Marked, Tidy;
      var k := socks[s];
      var x := Oldest(p);
      PlacedForget(pools, socks, place, k.key, p.nbActive);
      OldestIsIdle(pools, socks, place, limit, k.key);
      CountedAfter(pools, socks, limit, s, k.(stream := Just(x)), Probed(p, true));
      pools := pools[k.key := Probed(p, true)];
      PlacedHold(pools, socks, place - {x}, s, x);
      NextIsNew(socks, place, watches, stray, nextStream);
      MarkedHold(socks, place, watches, stray, nextStream, s, x);
      assert (place - {x})[x := HeldBy(s)] == place[x := HeldBy(s)];
      socks := socks[s := k.(stream := Just(x))];
      place := place[x := HeldBy(s)];
    }

    /** The liveness probe failed and closed the stream. */
    method ForgetOldest(key: string, p: Pool)
      requires Valid() && key in pools && p == pools[key] && p.list != []
      modifies this`pools, this`place
      ensures Valid() && (old(Clean()) ==> Clean())
      ensures pools == old(pools)[key := Probed(p, false)]
      ensures place == old(place) - {Oldest(p)}
    {
      hide Counted, Placed, Marked, Tidy;
      PlacedForget(pools, socks, place, key, p.nbActive - 1);
      OldestIsIdle(pools, socks, place, limit, key);
      CountedPool(pools, socks, limit, key, Probed(p, false));
      MarkedForget(socks, place, watches, stray, nextStream, Oldest(p));
      place := place - {Oldest(p)};
      pools := pools[key := Probed(p, false)];
    }

    /** A new stream for the socket, counted in its pool. */
    method Open(s: SockId)
      requires Valid() && s in socks && socks[s].stream.Nothing?
      requires var k := socks[s];
               k.persistent ==> k.key in pools && (limit > 0 ==> pools[k.key].nbActive < limit)
      modifies this`pools, this`socks, this`place, this`nextStream
      ensures Valid() && (old(Clean()) ==> Clean())
      ensures var k := old(socks[s]);
              pools == if !k.persistent then old(pools)
                       else old(pools)[k.key := Pool(old(pools)[k.key].list, old(pools)[k.key].nbActive + 1)]
      ensures socks == old(socks)[s := old(socks[s]).(stream := Just(old(nextStream)))]
      ensures place == old(place)[old(nextStream) := HeldBy(s)] && nextStream == old(nextStream) + 1
    {
      hide Counted, Placed, Marked, Tidy;
      var k := socks[s];
      var holding := k.(stream := Just(nextStream));
      NextIsNew(socks, place, watches, stray, nextStream);
      PlacedHold(pools, socks, place, s, nextStream);
      MarkedHold(socks, place, watches, stray, nextStream, s, nextStream);
      place := place[nextStream := HeldBy(s)];
      if k.persistent {
        var p := Pool(pools[k.key].list, pools[k.key].nbActive + 1);
        CountedAfter(pools, socks, limit, s, holding, p);
        PlacedRecount(pools, socks[s := holding], place, k.key, p.nbActive);
        pools := pools[k.key := p];
      } else {
        CountedSocket(pools, socks, limit, s, holding);
      }
      socks := socks[s := holding];
      nextStream := nextStream + 1;
    }

    /** The part of `redis_sock_connect_impl` after the socket has let go of its stream. */
    method Obtain(s: SockId, freshly: bool, alive: bool, accepts: bool) returns (ok: bool)
      requires Valid() && s in socks && socks[s].stream.Nothing?
      modifies this`pools, this`socks, this`place, this`nextStream
      ensures Valid() && (old(Clean()) ==> Clean())
      ensures var k := old(socks[s]);
              var (x, p) := Leased(old(pools), k, freshly, alive, accepts, limit, old(nextStream));
              && ok == x.Just?
              && pools == p
              && socks == old(socks)[s := k.(stream := x)]
      ensures place.Keys <= old(place.Keys) + {old(nextStream)} && old(nextStream) <= nextStream <= old(nextStream) + 1
    {
      hide Counted, Placed, Marked, Tidy;
      var k := socks[s];
      if k.persistent {
        var p := GetPool(k.key);
        if !freshly && p.list != [] {
          if alive {
            TakeOldest(s, p);
            return true;
          }
          ForgetOldest(k.key, p);
          p := Probed(p, false);
        }
        if limit > 0 && p.nbActive >= limit {
          return false;
        }
      }
      if !accepts {
        return false;
      }
      Open(s);
      return true;
    }

    /** The limit does not stop this socket: there is none, or it is not reached, or reached with the socket's own
        stream. */
    predicate Room(s: SockId)
      requires s in socks
      reads this
    {
      var k := socks[s];
      !k.persistent || limit <= 0 || PoolOf(pools, k.key).nbActive < limit || k.stream.Just?
    }

    /** `redis_sock_connect_impl`. `alive` is the outcome of the liveness probe of a pooled stream, `accepts` that
        of opening a new one. */
    method Connect(s: SockId, freshly: bool, alive: bool, accepts: bool) returns (ok: bool)
      requires Valid() && s in socks
      modifies this`pools, this`socks, this`place, this`nextStream, this`stray
      ensures Valid()
      ensures var k := old(socks[s]);
              var free := if k.stream.Just? then Disconnected(k, true) else k;
              var before := Dropped(old(pools), k, false);
              var (x, p) := Leased(before, free, freshly, alive, accepts, limit, old(nextStream));
              && ok == x.Just?
              && pools == p
              && socks == old(socks)[s := free.(stream := x)]
      ensures place.Keys <= old(place.Keys) + {old(nextStream)} && old(nextStream) <= nextStream <= old(nextStream) + 1
      ensures !old(Leaks(s)) ==> (old(Clean()) ==> Clean()) && stray == old(stray)
      // a live idle stream is reused, the oldest; without one, a new stream is opened if there is room and an answer
      ensures var k, idle := old(socks[s]), old(PoolOf(pools, socks[s].key).list);
              k.stream.Nothing? && k.persistent && !freshly && alive && idle != [] ==>
                ok && socks[s].stream == Just(idle[|idle| - 1]) && pools[k.key].list == idle[..|idle| - 1]
      ensures old(socks[s].stream).Nothing? && accepts && old(Room(s)) ==> ok
      ensures old(socks[s].stream).Nothing? && old(Room(s)) ==> Room(s)
      ensures ok ==> accepts || (old(socks[s].persistent) && !freshly && alive)
    {
      hide Counted, Placed, Marked, Tidy, Leased;
      if socks[s].stream.Just? {
        HolderHasPool(pools, socks, place, limit, s);
        Disconnect(s, false, true);
      }
      LeasedIs(pools, socks[s], freshly, alive, accepts, limit, nextStream);
      ok := Obtain(s, freshly, alive, accepts);
    }

    /** `redis_sock_reconnect`: a new stream, never a borrowed one. A server that is `reachable` lets it succeed. */
    method Reconnect(s: SockId, reachable: bool) returns (ok: bool)
      requires Valid() && s in socks
      modifies this`pools, this`socks, this`place, this`nextStream, this`stray
      ensures Valid() && (old(Clean()) ==> Clean()) && stray == old(stray)
      ensures socks.Keys == old(socks.Keys)
      ensures ok <==> socks[s].stream.Just?
      ensures var k := old(socks[s]); socks[s] == Sock(k.key, k.persistent, socks[s].stream, true, false)
      ensures ok ==> socks[s].stream == Just(old(nextStream))
      ensures reachable && old(Room(s)) ==> ok
      ensures forall key | key in old(pools) :: key in pools && pools[key].list == old(pools)[key].list
      ensures forall t | t in old(socks) && t != s :: socks[t] == old(socks)[t]
    {
      hide Counted, Placed, Marked, Tidy;
      if socks[s].stream.Just? {
        HolderHasPool(pools, socks, place, limit, s);
      }
      Disconnect(s, true, true);
      var accepts: bool := *;
      ok := Connect(s, true, false, accepts || reachable);
      var handshake: bool := *;
      if !ok || !(handshake || reachable) {
        Disconnect(s, true, true);
        ok := false;
      }
    }

    /** Any forced disconnect: the stream is gone for good. */
    method Close(s: SockId, resetMode: bool)
      requires Valid() && s in socks
      modifies this`pools, this`socks, this`place, this`stray
      ensures Valid() && (old(Clean()) ==> Clean()) && stray == old(stray)
      ensures socks == old(socks)[s := Disconnected(old(socks[s]), resetMode)]
      ensures place.Keys == old(place.Keys) - if old(socks[s]).stream.Just? then {old(socks[s]).stream.value} else {}
      ensures Shrunk(old(pools), pools)
      ensures old(Room(s)) ==> Room(s)
    {
      hide Counted, Placed, Marked, Tidy, Shrunk;
      if socks[s].stream.Just? {
        HolderHasPool(pools, socks, place, limit, s);
      }
      ClosingShrinks(pools, socks[s]);
      Disconnect(s, true, resetMode);
    }

    /** Any connect of a socket without a stream: only streams that were idle or never seen are taken. */
    method Redial(s: SockId, reachable: bool) returns (ok: bool)
      requires Valid() && s in socks && socks[s].stream.Nothing? && !socks[s].watching
      modifies this`pools, this`socks, this`place, this`nextStream, this`stray
      ensures Valid() && (old(Clean()) ==> Clean()) && stray == old(stray)
      ensures socks.Keys == old(socks.Keys) && forall t | t in socks && t != s :: socks[t] == old(socks)[t]
      ensures socks[s].stream.Just? == ok && !socks[s].watching
      ensures socks[s].persistent == old(socks[s].persistent) && socks[s].key == old(socks[s].key)
      ensures socks[s].atomic == old(socks[s].atomic) && nextStream <= old(nextStream) + 1
      ensures place.Keys <= old(place.Keys) + {old(nextStream)} && nextStream >= old(nextStream)
      ensures Shrunk(old(pools), pools)
      ensures reachable && old(Room(s)) ==> ok
      ensures old(Room(s)) ==> Room(s)
    {
      hide Counted, Placed, Marked, Tidy, Shrunk;
      var alive: bool, accepts: bool := *, *;
      accepts := accepts || reachable;
      ConnectingShrinks(pools, socks[s], false, alive, accepts, limit, nextStream);
      ok := Connect(s, false, alive, accepts);
    }

    /** The stream that is at its end is closed, and another one taken or opened. */
    method Retry(s: SockId, reachable: bool) returns (ok: bool)
      requires Valid() && s in socks && !socks[s].watching
      modifies this`pools, this`socks, this`place, this`nextStream, this`stray
      ensures Valid() && (old(Clean()) ==> Clean()) && stray == old(stray)
      ensures socks.Keys == old(socks.Keys) && forall t | t in socks && t != s :: socks[t] == old(socks)[t]
      ensures socks[s].stream.Just? == ok && !socks[s].watching
      ensures socks[s].persistent == old(socks[s].persistent) && socks[s].key == old(socks[s].key)
      ensures socks[s].atomic == old(socks[s].atomic) && nextStream <= old(nextStream) + 1
      ensures var lost := if old(socks[s]).stream.Just? then {old(socks[s]).stream.value} else {};
              place.Keys <= (old(place.Keys) - lost) + {old(nextStream)} && nextStream >= old(nextStream)
      ensures Shrunk(old(pools), pools)
      ensures reachable && old(Room(s)) ==> ok
      ensures old(Room(s)) ==> Room(s)
    {
      hide Counted, Placed, Marked, Tidy, Shrunk;
      ShrunkRefl(pools);
      ghost var now := pools;
      if socks[s].stream.Just? {
        HolderHasPool(pools, socks, place, limit, s);
        Close(s, false);
        ShrunkTrans(old(pools), now, pools);
        now := pools;
      }
      ok := Redial(s, reachable);
      ShrunkTrans(old(pools), now, pools);
    }

    /** `redis_check_eof` at the end of a stream, with the retries it has and how they go. `multi` says that the mode
        is MULTI. A retry may borrow from the pool. */
    method ReplaceLost(s: SockId, multi: bool, tries: seq<Try>) returns (ok: bool)
      requires Valid() && s in socks && socks[s].stream.Just?
      modifies this`pools, this`socks, this`place, this`nextStream, this`stray
      ensures Valid() && (old(Clean()) ==> Clean()) && stray == old(stray)
      ensures socks.Keys == old(socks.Keys)
      ensures ok <==> socks[s].stream.Just?
      ensures ok <==> !multi && !old(socks[s].watching) && GetsThrough(tries)
      ensures !socks[s].watching && socks[s].atomic == (!ok || old(socks[s].atomic))
      ensures socks[s].persistent == old(socks[s].persistent) && socks[s].key == old(socks[s].key)
      ensures old(socks[s].stream.value) !in place
      ensures old(nextStream) <= nextStream <= old(nextStream) + |tries|
      ensures Shrunk(old(pools), pools)
      ensures forall t | t in old(socks) && t != s :: socks[t] == old(socks)[t]
    {
      hide Counted, Placed, Marked, Tidy, Shrunk;
      HolderHasPool(pools, socks, place, limit, s);
      NextIsNew(socks, place, watches, stray, nextStream);
      ShrunkRefl(pools);
      if !multi && !socks[s].watching {
        var i := 0;
        assert tries[0..] == tries;
        while i < |tries|
          invariant Valid() && (old(Clean()) ==> Clean()) && stray == old(stray)
          invariant socks.Keys == old(socks.Keys) && !socks[s].watching
          invariant socks[s].persistent == old(socks[s].persistent) && socks[s].key == old(socks[s].key)
          invariant i == 0 ==> socks[s].stream == old(socks[s].stream)
          invariant i <= |tries| && GetsThrough(tries[i..]) == GetsThrough(tries)
          invariant Room(s) && socks[s].atomic == old(socks[s].atomic)
          invariant old(nextStream) <= nextStream <= old(nextStream) + i
          invariant socks[s].stream == old(socks[s].stream) || old(socks[s].stream.value) !in place
          invariant old(socks[s].stream.value) < old(nextStream)
          invariant Shrunk(old(pools), pools)
          invariant forall t | t in old(socks) && t != s :: socks[t] == old(socks)[t]
        {
          ghost var now := pools;
          assert tries[i..][1..] == tries[i + 1..];
          ok := Retry(s, !tries[i].Down?);
          ShrunkTrans(old(pools), now, pools);
          if !tries[i].Down? {
            if tries[i].Answers? {
              return true;
            }
            break;
          }
          i := i + 1;
        }
      }
      ghost var now := pools;
      Close(s, true);
      ShrunkTrans(old(pools), now, pools);
      ok := false;
    }

    /** Sockets that let go of their streams, one after the other. */
    method ReleaseAll(ss: seq<SockId>, key: string)
      requires Valid() && key in pools && (forall i, j | 0 <= i < j < |ss| :: ss[i] != ss[j])
      requires forall s | s in ss :: s in socks && Holds(socks[s], key) && socks[s].atomic
      modifies this`pools, this`socks, this`place, this`stray
      ensures Valid() && key in pools && pools[key] == ReleasedAll(old(pools)[key], Streams(old(socks), ss))
      ensures forall s | s in old(socks) && s !in ss :: s in socks && socks[s] == old(socks)[s]
    {
      hide Counted, Placed, Marked, Tidy;
      assert Streams(socks, ss)[0..] == Streams(socks, ss);
      for i := 0 to |ss|
        invariant Valid() && key in pools
        invariant forall s | s in old(socks) && s !in ss[..i] :: s in socks && socks[s] == old(socks)[s]
        invariant ReleasedAll(pools[key], Streams(old(socks), ss)[i..])
               == ReleasedAll(old(pools)[key], Streams(old(socks), ss))
      {
        assert ss[i] in ss && ss[i] !in ss[..i];
        ghost var xs := Streams(old(socks), ss)[i..];
        assert xs[0] == socks[ss[i]].stream.value && xs[1..] == Streams(old(socks), ss)[i + 1..];
        assert ss[..i + 1] == ss[..i] + [ss[i]];
        Disconnect(ss[i], false, true);
      }
    }

    /** Sockets that connect, one after the other, finding idle streams alive. */
    method TakeAll(ss: seq<SockId>, key: string)
      requires Valid() && key in pools && |ss| <= |pools[key].list|
      requires forall i, j | 0 <= i < j < |ss| :: ss[i] != ss[j]
      requires forall s | s in ss ::
                 s in socks && socks[s].stream.Nothing? && socks[s].persistent && socks[s].key == key
      modifies this`pools, this`socks, this`place, this`nextStream, this`stray
      ensures Valid() && key in pools
      ensures forall i | 0 <= i < |ss| ::
                ss[i] in socks && socks[ss[i]].stream == Just(Taken(old(pools)[key], |ss|)[i])
    {
      hide Counted, Placed, Marked, Tidy;
      ghost var p := pools[key];
      for i := 0 to |ss|
        invariant Valid() && key in pools && |ss| - i <= |pools[key].list|
        invariant forall s | s in ss && s !in ss[..i] :: s in socks && socks[s] == old(socks)[s]
        invariant |Taken(p, |ss|)| == |ss| && Taken(p, |ss|)[i..] == Taken(pools[key], |ss| - i)
        invariant forall j | 0 <= j < i :: ss[j] in socks && socks[ss[j]].stream == Just(Taken(p, |ss|)[j])
      {
        assert ss[i] in ss && ss[i] !in ss[..i];
        assert Taken(p, |ss|)[i..][1..] == Taken(p, |ss|)[i + 1..];
        assert ss[..i + 1] == ss[..i] + [ss[i]];
        var _ := Connect(ss[i], false, true, false);
      }
    }

    /** First in, first out: released in one order, streams are taken in that order. */
    method ReleaseThenTake(releasing: seq<SockId>, taking: seq<SockId>, key: string)
      requires Valid() && key in pools && pools[key].list == [] && |taking| == |releasing|
      requires forall i, j | 0 <= i < j < |releasing| :: releasing[i] != releasing[j] && taking[i] != taking[j]
      requires forall s | s in releasing :: s in socks && Holds(socks[s], key) && socks[s].atomic
      requires forall s | s in taking ::
                 s in socks && socks[s].stream.Nothing? && socks[s].persistent && socks[s].key == key
      modifies this`pools, this`socks, this`place, this`nextStream, this`stray
      ensures Valid()
      ensures forall i | 0 <= i < |taking| ::
                taking[i] in socks && socks[taking[i]].stream == old(socks)[releasing[i]].stream
    {
      hide Counted, Placed, Marked, Tidy;
      FirstReleasedFirstTaken(pools[key], Streams(socks, releasing));
      ReleaseAll(releasing, key);
      TakeAll(taking, key);
    }

    /** `free_redis_object` and a second `connect` on an object: the socket is let go without force. */
    method Destroy(s: SockId)
      requires Valid() && s in socks
      modifies this`pools, this`socks, this`place, this`stray
      ensures Valid() && socks == old(socks) - {s}
      ensures old(Clean()) ==> (Clean() <==> !old(Leaks(s)))
      ensures !old(Leaks(s)) ==> stray == old(stray)
    {
      hide Counted, Placed, Marked, Tidy;
      Disconnect(s, false, true);
      CountedWithout(pools, socks, limit, s);
      PlacedWithout(pools, socks, place, s);
      MarkedWithout(socks, place, watches, stray, nextStream, s);
      socks := socks - {s};
    }

    /** WATCH, MULTI, DISCARD: the flag stays, but the session is handed on without watches. */
    method DiscardThenDestroy(s: SockId) returns (flagged: bool)
      requires Valid() && Clean() && s in socks && socks[s].stream.Just? && socks[s].persistent
      modifies this`pools, this`socks, this`place, this`watches, this`stray
      ensures Valid() && Clean() && flagged
    {
      SetMode(s, true, true, true);
      SetMode(s, false, true, true);
      SetMode(s, true, true, false);
      flagged := MayLeak(s);
      Destroy(s);
    }

    /** WATCH in a pipeline whose flush had to reconnect: nobody reads the reply, the flag stays clear, and the session
        is handed on with its watches. */
    method FlushThenDestroy(s: SockId, tries: seq<Try>) returns (reconnected: bool, flagged: bool)
      requires Valid() && Clean() && s in socks && socks[s].stream.Just? && socks[s].persistent && !socks[s].watching
      modifies this
      ensures Valid() && !flagged && (Clean() <==> !reconnected) && (reconnected <==> GetsThrough(tries))
    {
      reconnected := ReplaceLost(s, false, tries);
      flagged := false;
      if reconnected {
        SetMode(s, true, false, true);
        flagged := MayLeak(s);
        Destroy(s);
      }
    }

    /** Any run of any number of sockets, streams failing as they like. `leaked` says whether a socket was let go
        without force while its server session had watches, `flagged` whether one was whose flag was set, and `strayed`
        whether commands left a server session with watches and the flag clear. */
    method Run(calls: seq<PoolCall>) returns (flagged: bool, ghost leaked: bool, ghost strayed: bool)
      requires Valid() && Clean() && stray == {}
      modifies this
      ensures Valid() && (!leaked ==> Clean()) && (leaked ==> flagged || strayed)
      // no flag without a WATCH that was acknowledged, no stray watch without one that was not
      ensures flagged && old(Unwatched()) ==> exists c | c in calls :: c.Commands? && c.watching
      ensures strayed ==> exists c | c in calls :: c.Commands? && c.watched && !c.watching
    {
      hide Counted, Placed, Marked, Tidy, Process.Valid, Process.Clean;
      flagged, leaked, strayed := false, false, false;
      for i := 0 to |calls|
        invariant Valid() && (!leaked ==> Clean()) && (leaked ==> flagged || strayed)
        invariant !leaked && !strayed ==> stray == {}
        invariant old(Unwatched()) && !(exists c | c in calls :: c.Commands? && c.watching) ==> Unwatched() && !flagged
        invariant strayed ==> exists c | c in calls :: c.Commands? && c.watched && !c.watching
      {
        var c := calls[i];
        assert c in calls;
        var ok: bool;
        match c
        case New(s, key, persistent) =>
          if s !in socks {
            NewSocket(s, key, persistent);
          }
        case Connecting(s, freshly, alive, accepts) =>
          if s in socks {
            flagged, leaked := Observe(s, flagged, leaked, strayed);
            ok := Connect(s, freshly, alive, accepts);
          }
        case Commands(s, atomic, watching, watched) =>
          if s in socks {
            ghost var has := watched && socks[s].stream.Just?;
            var flag := watching && socks[s].stream.Just?;
            SetMode(s, atomic, flag, has);
            strayed := strayed || (has && !flag);
          }
        case Lost(s, multi, tries) =>
          if s in socks && socks[s].stream.Just? {
            ok := ReplaceLost(s, multi, tries);
          }
        case Reconnecting(s, reachable) =>
          if s in socks {
            ok := Reconnect(s, reachable);
          }
        case Closing(s) =>
          if s in socks {
            Close(s, true);
          }
        case Destroying(s) =>
          if s in socks {
            flagged, leaked := Observe(s, flagged, leaked, strayed);
            Destroy(s);
          }
      }
    }

    ghost predicate Unwatched()
      reads this`socks
    {
      forall s | s in socks :: !socks[s].watching
    }

    /** What an unforced disconnect of this socket will add to the record. */
    method Observe(s: SockId, flagged: bool, ghost leaked: bool, ghost strayed: bool)
      returns (flagged': bool, ghost leaked': bool)
      requires Valid() && s in socks && (leaked ==> flagged || strayed) && (!leaked && !strayed ==> stray == {})
      ensures flagged' == (flagged || MayLeak(s)) && leaked' == (leaked || Leaks(s))
      ensures leaked' ==> flagged' || strayed
    {
      hide Counted, Placed, Marked;
      if Leaks(s) {
        LeaksIsFlagged(s);
      }
      flagged', leaked' := flagged || MayLeak(s), leaked || Leaks(s);
    }
  }
}
