/** cluster_library.c: the persistent slot cache, made from one mapped cluster and put back into another in random
    order. */
module SlotCache {
  import opened Options
  import opened ClusterNodes
  import opened SlotMap
  import opened ReplyTrees
  import opened Shuffle
  import opened Cluster

  const HOST_NAME_MAX := 64

  // ---- making the cache ----

  /** The cached masters of the nodes filed under the first n keys. */
  ghost function Snapshot(at: map<string, ClusterNode>, keys: seq<string>, n: nat): seq<CachedMaster>
    requires n <= |keys|
    reads at.Values
  {
    if n == 0 then []
    else
      var k := keys[n - 1];
      var init := Snapshot(at, keys, n - 1);
      if k !in at || !at[k].Valid() || at[k].slave then init
      else init + [CachedMaster(at[k].host, at[k].ranges, at[k].Addresses())]
  }

  method Addresses(n: ClusterNode) returns (hosts: seq<Host>)
    requires n.Valid()
    ensures hosts == n.Addresses()
  {
    hosts := [];
    var replicas := n.Replicas();
    for i := 0 to |replicas|
      invariant hosts == n.Addresses()[..i]
    {
      hosts := hosts + [replicas[i].host];
    }
  }

  /** `cluster_cache_create` */
  method CacheCreate(nodes: Ordered<ClusterNode>) returns (cc: seq<CachedMaster>)
    requires forall i | 0 <= i < |nodes.keys| :: nodes.keys[i] in nodes.at && nodes.at[nodes.keys[i]].Valid()
    ensures cc == Snapshot(nodes.at, nodes.keys, |nodes.keys|)
  {
    cc := [];
    for i := 0 to |nodes.keys|
      invariant cc == Snapshot(nodes.at, nodes.keys, i)
    {
      var n := nodes.at[nodes.keys[i]];
      if n.slave {
        continue;
      }
      var slaves := Addresses(n);
      cc := cc + [CachedMaster(n.host, n.ranges, slaves)];
    }
  }

  /** The filed nodes are masters and as cached, one by one. */
  ghost predicate Alike(at: map<string, ClusterNode>, keys: seq<string>, cc: seq<CachedMaster>)
    reads at.Values
  {
    && |keys| == |cc|
    && forall i | 0 <= i < |keys| ::
         && keys[i] in at && at[keys[i]].Valid() && !at[keys[i]].slave
         && cc[i] == CachedMaster(at[keys[i]].host, at[keys[i]].ranges, at[keys[i]].Addresses())
  }

  lemma LastOfPrefix<T>(s: seq<T>, n: nat)
    requires 0 < n <= |s|
    ensures s[..n] == s[..n - 1] + [s[n - 1]]
  {
  }

  lemma SnapshotNext(at: map<string, ClusterNode>, keys: seq<string>, cc: seq<CachedMaster>, n: nat)
    requires Alike(at, keys, cc) && n <= |keys|
    ensures |cc| == |keys|
    ensures Snapshot(at, keys, n) == if n == 0 then [] else Snapshot(at, keys, n - 1) + [cc[n - 1]]
  {
  }

  lemma {:induction false} SnapshotOf(at: map<string, ClusterNode>, keys: seq<string>, cc: seq<CachedMaster>, n: nat)
    requires Alike(at, keys, cc) && n <= |keys| == |cc|
    ensures Snapshot(at, keys, n) == cc[..n]
    decreases n
  {
    SnapshotNext(at, keys, cc, n);
    hide *;
    if n > 0 {
      SnapshotOf(at, keys, cc, n - 1);
      LastOfPrefix(cc, n);
    }
  }

  lemma NodesAreValid(c: RedisCluster)
    requires c.Valid()
    ensures forall i | 0 <= i < |c.nodes.keys| ::
              c.nodes.keys[i] in c.nodes.at && c.nodes.at[c.nodes.keys[i]].Valid()
  {
    forall i | 0 <= i < |c.nodes.keys| ensures c.nodes.keys[i] in c.nodes.at {
      assert c.nodes.keys[i] in c.nodes.keys;
    }
  }

  /** A mapped cluster is cached as its entries say. */
  lemma CacheOfMapped(c: RedisCluster, es: seq<Entry>)
    requires c.Valid() && c.Mapped(es)
    ensures Snapshot(c.nodes.at, c.nodes.keys, |c.nodes.keys|) == CacheOf(es)
  {
    var at, keys := c.nodes.at, c.nodes.keys;
    forall i | 0 <= i < |keys|
      ensures keys[i] in at && at[keys[i]].Valid() && !at[keys[i]].slave
      ensures CacheOf(es)[i] == CachedMaster(at[keys[i]].host, at[keys[i]].ranges, at[keys[i]].Addresses())
    {
      assert Masters(es)[i] in Masters(es);
    }
    SnapshotOf(at, keys, CacheOf(es), |keys|);
    assert CacheOf(es)[..|keys|] == CacheOf(es);
  }

  // ---- putting it back ----

  predicate Sane(cm: CachedMaster) {
    && cm.slots != []
    && (forall r | r in cm.slots :: r.low <= r.high < SLOTS)
    && |Key(cm.host)| < HOST_NAME_MAX
  }

  /** The node is the cached master. */
  ghost predicate Restored(n: ClusterNode, cm: CachedMaster)
    reads n
  {
    && n.Valid() && !n.slave
    && n.host == cm.host && n.ranges == cm.slots && n.Addresses() == cm.slaves
    && cm.slots != [] && n.slot == cm.slots[0].low
  }

  /** `cached_master_clone` and the replicas */
  method CloneMaster(cm: CachedMaster) returns (node: ClusterNode)
    requires Sane(cm)
    ensures fresh(node) && Restored(node, cm)
  {
    node := new ClusterNode(cm.host, cm.slots[0].low, false);
    for i := 0 to |cm.slots|
      invariant fresh(node) && node.Valid() && node.slaves.Nothing? && !node.slave && node.slot == cm.slots[0].low
      invariant node.ranges == cm.slots[..i]
    {
      node.ranges := node.ranges + [cm.slots[i]];
    }
    AttachCached(node, cm.slaves);
  }

  method AttachCached(node: ClusterNode, slaves: seq<Host>)
    requires node.Valid() && node.slaves.Nothing?
    modifies node`slaves
    ensures node.Valid() && node.Addresses() == slaves
    ensures forall n | n in node.Replicas() :: fresh(n) && n.slave && n.slot == 0
  {
    for i := 0 to |slaves|
      invariant node.Valid() && forall n | n in node.Replicas() :: fresh(n) && n.slave && n.slot == 0
      invariant node.Valid() && node.Addresses() == slaves[..i]
    {
      var slave := new ClusterNode(slaves[i], 0, true);
      node.AddSlave(slave);
    }
  }

  method HookUp(c: RedisCluster, cm: CachedMaster, node: ClusterNode)
    requires c.Valid() && Sane(cm) && node in c.world
    modifies c.master
    ensures c.Valid()
    ensures forall s | 0 <= s < SLOTS :: c.master[s] == if Serves(cm, s) then node else old(c.master[s])
  {
    for j := 0 to |cm.slots|
      invariant c.Valid()
      invariant forall s | 0 <= s < SLOTS ::
                  c.master[s] == if Serves(cm.(slots := cm.slots[..j]), s) then node else old(c.master[s])
    {
      ghost var before := c.master[..];
      assert cm.slots[j] in cm.slots;
      c.FillSlots(node, cm.slots[j]);
      forall s | 0 <= s < SLOTS
        ensures Serves(cm.(slots := cm.slots[..j + 1]), s)
           <==> Covers(cm.slots[j], s) || Serves(cm.(slots := cm.slots[..j]), s)
      {
        assert cm.slots[..j + 1] == cm.slots[..j] + [cm.slots[j]];
      }
    }
    assert cm.slots[..|cm.slots|] == cm.slots;
  }

  ghost predicate Usable(cc: seq<CachedMaster>) {
    && (forall m | m in cc :: Sane(m))
    && forall i, j | 0 <= i < j < |cc| :: cc[i].host != cc[j].host
  }

  /** The cached masters at these places are back in the table of nodes. */
  ghost predicate Back(at: map<string, ClusterNode>, cc: seq<CachedMaster>, done: seq<int>)
    reads at.Values
  {
    forall i | i in done ::
      0 <= i < |cc| && Key(cc[i].host) in at && Restored(at[Key(cc[i].host)], cc[i])
  }

  /** And their slots point to them, the last one put back winning; the others are as before. */
  ghost predicate Hooked(
      at: map<string, ClusterNode>, cc: seq<CachedMaster>, done: seq<int>, before: seq<ClusterNode?>,
      now: seq<ClusterNode?>)
    requires forall i | i in done :: 0 <= i < |cc|
  {
    && |before| == |now| == SLOTS
    && forall s | 0 <= s < SLOTS ::
         var h := CachedOwner(cc, done, s);
         if h.Nothing? then now[s] == before[s] else Key(h.value) in at && now[s] == at[Key(h.value)]
  }

  /** Nothing else was filed. */
  ghost predicate Only(
      before: map<string, ClusterNode>, at: map<string, ClusterNode>, cc: seq<CachedMaster>, done: seq<int>)
  {
    forall k | k in at && k !in before :: exists i | 0 <= i < |cc| :: i in done && k == Key(cc[i].host)
  }

  lemma OnlyMore(
      before: map<string, ClusterNode>, at: map<string, ClusterNode>, more: map<string, ClusterNode>, node: ClusterNode,
      cc: seq<CachedMaster>, done: seq<int>, i: int)
    requires 0 <= i < |cc| && Only(before, at, cc, done) && more == at[Key(cc[i].host) := node]
    ensures Only(before, more, cc, done + [i])
  {
    forall k | k in more && k !in before ensures exists j | 0 <= j < |cc| :: j in done + [i] && k == Key(cc[j].host) {
      if k in at {
        var j :| 0 <= j < |cc| && j in done && k == Key(cc[j].host);
        assert j in done + [i];
      } else {
        assert i in done + [i];
      }
    }
  }

  lemma HookedMore(
      at: map<string, ClusterNode>, more: map<string, ClusterNode>, node: ClusterNode, cc: seq<CachedMaster>,
      done: seq<int>, i: int, before: seq<ClusterNode?>, now: seq<ClusterNode?>, next: seq<ClusterNode?>)
    requires 0 <= i < |cc| && i !in done && forall j | j in done :: 0 <= j < |cc|
    requires Usable(cc) && Hooked(at, cc, done, before, now) && |next| == SLOTS
    requires more == at[Key(cc[i].host) := node]
    requires forall s | 0 <= s < SLOTS :: next[s] == if Serves(cc[i], s) then node else now[s]
    ensures forall j | j in done + [i] :: 0 <= j < |cc|
    ensures Hooked(more, cc, done + [i], before, next)
  {
    assert Init(done + [i]) == done && Last(done + [i]) == i;
    forall s | 0 <= s < SLOTS
      ensures var h := CachedOwner(cc, done + [i], s);
              if h.Nothing? then next[s] == before[s] else Key(h.value) in more && next[s] == more[Key(h.value)]
    {
      var h := CachedOwner(cc, done, s);
      CachedOwnerServes(cc, done, s);
      if h.Just? {
        var j :| j in done && Serves(cc[j], s) && cc[j].host == h.value;
        KeyInjective(cc[i].host, cc[j].host);
      }
    }
  }

  lemma BackMore(
      at: map<string, ClusterNode>, more: map<string, ClusterNode>, node: ClusterNode, cc: seq<CachedMaster>,
      done: seq<int>, i: int)
    requires 0 <= i < |cc| && i !in done
    requires Usable(cc) && Back(at, cc, done) && Restored(node, cc[i])
    requires more == at[Key(cc[i].host) := node]
    ensures Back(more, cc, done + [i])
  {
    hide Restored;
    forall j | j in done + [i]
      ensures 0 <= j < |cc| && Key(cc[j].host) in more && Restored(more[Key(cc[j].host)], cc[j])
    {
      if j != i {
        assert j in done;
        KeyInjective(cc[i].host, cc[j].host);
      }
    }
  }

  lemma BackNone(at: map<string, ClusterNode>, cc: seq<CachedMaster>, before: seq<ClusterNode?>)
    requires |before| == SLOTS
    ensures Back(at, cc, []) && Hooked(at, cc, [], before, before) && Only(at, at, cc, [])
  {
  }

  lemma NextIsNew(order: seq<int>, n: nat, i: nat)
    requires Permutes(order, n) && i < n
    ensures |order| == n && order[i] !in order[..i] && 0 <= order[i] < n
    ensures forall j | j in order[..i] :: 0 <= j < n
  {
    PermutesMembers(order, n);
    IdentityOnce(n, order[i]);
    forall j | j in order[..i] ensures 0 <= j < n {
      assert j in order;
    }
    assert order == order[..i] + [order[i]] + order[i + 1..];
    assert order[i] in order;
  }

  /** One master of the cache, filed and hooked up. */
  method RestoreMaster(c: RedisCluster, cm: CachedMaster) returns (node: ClusterNode)
    requires c.Valid() && Sane(cm)
    modifies c`nodes, c`world, c.master
    ensures c.Valid() && fresh(node) && Restored(node, cm)
    ensures c.world == old(c.world) + {node} && c.nodes == old(c.nodes).Put(Key(cm.host), node)
    ensures forall s | 0 <= s < SLOTS :: c.master[s] == if Serves(cm, s) then node else old(c.master[s])
  {
    node := CloneMaster(cm);
    c.File(node);
    HookUp(c, cm, node);
  }

  method RestoreNext(
      c: RedisCluster, cc: seq<CachedMaster>, ghost done: seq<int>, i: int, ghost before: seq<ClusterNode?>,
      ghost filed: map<string, ClusterNode>)
    requires c.Valid() && Usable(cc) && 0 <= i < |cc| && i !in done && forall j | j in done :: 0 <= j < |cc|
    requires Back(c.nodes.at, cc, done) && Hooked(c.nodes.at, cc, done, before, c.master[..])
    requires Only(filed, c.nodes.at, cc, done)
    modifies c`nodes, c`world, c.master
    ensures c.Valid() && forall j | j in done + [i] :: 0 <= j < |cc|
    ensures Back(c.nodes.at, cc, done + [i]) && Hooked(c.nodes.at, cc, done + [i], before, c.master[..])
    ensures Only(filed, c.nodes.at, cc, done + [i])
  {
    ghost var at, now := c.nodes.at, c.master[..];
    assert Sane(cc[i]);
    hide Restored, Hooked, Usable, Back, Serves, Only;
    var node := RestoreMaster(c, cc[i]);
    OnlyMore(filed, at, c.nodes.at, node, cc, done, i);
    BackMore(at, c.nodes.at, node, cc, done, i);
    HookedMore(at, c.nodes.at, node, cc, done, i, before, now, c.master[..]);
  }

  predicate Within(done: seq<int>, n: nat) {
    forall i | i in done :: 0 <= i < n
  }

  /** One turn of the loop over the shuffled masters. */
  method RestoreAt(
      c: RedisCluster, cc: seq<CachedMaster>, ghost order: seq<int>, i: nat, m: int, ghost before: seq<ClusterNode?>,
      ghost filed: map<string, ClusterNode>)
    requires c.Valid() && Usable(cc) && Permutes(order, |cc|) && i < |order| == |cc| && order[i] == m
    requires forall j | j in order[..i] :: 0 <= j < |cc|
    requires Back(c.nodes.at, cc, order[..i]) && Hooked(c.nodes.at, cc, order[..i], before, c.master[..])
    requires Only(filed, c.nodes.at, cc, order[..i])
    modifies c`nodes, c`world, c.master
    ensures c.Valid() && Within(order[..i + 1], |cc|)
    ensures Back(c.nodes.at, cc, order[..i + 1]) && Hooked(c.nodes.at, cc, order[..i + 1], before, c.master[..])
    ensures Only(filed, c.nodes.at, cc, order[..i + 1])
  {
    hide Restored, Hooked, Usable, Back, Permutes, Serves, Only;
    NextIsNew(order, |cc|, i);
    RestoreNext(c, cc, order[..i], m, before, filed);
    assert order[..i + 1] == order[..i] + [m];
  }

  /** `cluster_init_cache` */
  method InitCache(c: RedisCluster, cc: seq<CachedMaster>, draws: seq<nat>)
    requires c.Valid() && Usable(cc) && Draws(draws, |cc|)
    modifies c`nodes, c`world, c.master
    ensures c.Valid()
    ensures var order := Shuffled(Identity(|cc|), |cc|, draws);
            && Permutes(order, |cc|)
            && (forall i | i in order :: 0 <= i < |cc|)
            && Back(c.nodes.at, cc, order)
            && Hooked(c.nodes.at, cc, order, old(c.master[..]), c.master[..])
            && Only(old(c.nodes.at), c.nodes.at, cc, order)
  {
    var map_ := RandomOrder(|cc|, draws);
    ghost var order := map_[..];
    PermutesMembers(order, |cc|);
    hide Restored, Hooked, Usable, Back, Permutes, Shuffled, Serves, Only;
    BackNone(c.nodes.at, cc, c.master[..]);
    for i := 0 to |cc|
      invariant c.Valid() && map_[..] == order
      invariant forall j | j in order[..i] :: 0 <= j < |cc|
      invariant Back(c.nodes.at, cc, order[..i])
      invariant Hooked(c.nodes.at, cc, order[..i], old(c.master[..]), c.master[..])
      invariant Only(old(c.nodes.at), c.nodes.at, cc, order[..i])
    {
      RestoreAt(c, cc, order, i, map_[i], old(c.master[..]), old(c.nodes.at));
    }
    assert order[..|cc|] == order;
  }

  // ---- the round trip ----

  /** The masters of a mapping from ranges that fit can be cached. */
  lemma CacheIsUsable(es: seq<Entry>)
    requires forall e | e in es :: e.range.low <= e.range.high < SLOTS && |Key(e.host)| < HOST_NAME_MAX
    ensures Usable(CacheOf(es))
  {
    MastersNamed(es);
    forall m | m in CacheOf(es) ensures Sane(m) {
      var i :| 0 <= i < |Masters(es)| && CacheOf(es)[i] == m;
      RangesInBounds(es, Masters(es)[i]);
    }
  }

  lemma {:induction false} RangesInBounds(es: seq<Entry>, h: Host)
    requires h in Masters(es)
    requires forall e | e in es :: e.range.low <= e.range.high < SLOTS && |Key(e.host)| < HOST_NAME_MAX
    ensures RangesOf(es, h) != [] && |Key(h)| < HOST_NAME_MAX
    ensures forall r | r in RangesOf(es, h) :: r.low <= r.high < SLOTS
  {
    if h in Masters(Init(es)) {
      RangesInBounds(Init(es), h);
    } else {
      NoRanges(Init(es), h);
    }
  }

  /** An empty cluster filled from the cache. */
  method FromCache(cc: seq<CachedMaster>, draws: seq<nat>) returns (d: RedisCluster)
    requires Usable(cc) && Draws(draws, |cc|)
    ensures fresh(d) && d.Valid()
    ensures var order := Shuffled(Identity(|cc|), |cc|, draws);
            && Permutes(order, |cc|)
            && (forall i | i in order :: 0 <= i < |cc|)
            && Back(d.nodes.at, cc, order)
            && Hooked(d.nodes.at, cc, order, Nulls(), d.master[..])
            && Only(map[], d.nodes.at, cc, order)
  {
    d := new RedisCluster();
    assert d.master[..] == Nulls();
    InitCache(d, cc, draws);
  }

  lemma SameSlot(d: RedisCluster, es: seq<Entry>, order: seq<int>, s: nat)
    requires d.Valid() && s < SLOTS && Uncontested(es) && Permutes(order, |Masters(es)|)
    requires forall i | i in order :: 0 <= i < |CacheOf(es)|
    requires Back(d.nodes.at, CacheOf(es), order)
    requires Hooked(d.nodes.at, CacheOf(es), order, Nulls(), d.master[..])
    ensures d.Table()[s] == Owner(es, s)
  {
    var cc := CacheOf(es);
    CacheAgrees(es, order, s);
    CachedOwnerServes(cc, order, s);
    if Owner(es, s).Just? {
      var i :| i in order && Serves(cc[i], s) && cc[i].host == Owner(es, s).value;
      assert Restored(d.nodes.at[Key(cc[i].host)], cc[i]);
    }
  }

  lemma SameNode(
      before: map<string, ClusterNode>, after: map<string, ClusterNode>, es: seq<Entry>, order: seq<int>, h: Host)
    requires h in Masters(es) && Permutes(order, |Masters(es)|)
    requires Key(h) in before && Describes(es, h, before[Key(h)])
    requires Back(after, CacheOf(es), order)
    ensures Key(h) in after
    ensures var n, m := before[Key(h)], after[Key(h)];
            n.Valid() && m.Valid() && m.host == n.host == h && m.ranges == n.ranges && m.Addresses() == n.Addresses()
  {
    var i :| 0 <= i < |Masters(es)| && Masters(es)[i] == h;
    PermutesMembers(order, |Masters(es)|);
    assert i in order && CacheOf(es)[i].host == h;
    assert Restored(after[Key(h)], CacheOf(es)[i]);
  }

  /** The same masters with the same ranges and replicas, in the same order. */
  ghost predicate SameNodes(before: map<string, ClusterNode>, after: map<string, ClusterNode>, hosts: seq<Host>)
    reads before.Values, after.Values
  {
    forall h | h in hosts ::
      var k := Key(h);
      && k in before && k in after
      && before[k].Valid() && after[k].Valid()
      && after[k].host == before[k].host == h
      && after[k].ranges == before[k].ranges
      && after[k].Addresses() == before[k].Addresses()
  }

  /** Tables with the same keys list them once each. */
  lemma SameKeysListed(a: Ordered<ClusterNode>, b: Ordered<ClusterNode>)
    requires a.Coherent() && b.Coherent() && a.at.Keys == b.at.Keys
    ensures multiset(a.keys) == multiset(b.keys)
  {
    forall k ensures multiset(a.keys)[k] == multiset(b.keys)[k] {
      ListedOnce(a.keys, k);
      ListedOnce(b.keys, k);
      assert k in a.at <==> k in b.at;
    }
  }

  lemma {:induction false} ListedOnce(keys: seq<string>, k: string)
    requires forall i, j | 0 <= i < j < |keys| :: keys[i] != keys[j]
    ensures multiset(keys)[k] == if k in keys then 1 else 0
  {
    if keys != [] {
      assert keys == [keys[0]] + keys[1..];
      ListedOnce(keys[1..], k);
    }
  }

  predicate NamesMaster(es: seq<Entry>, k: string) {
    exists i | 0 <= i < |Masters(es)| :: k == Key(Masters(es)[i])
  }

  lemma RestoredKey(at: map<string, ClusterNode>, es: seq<Entry>, order: seq<int>, k: string)
    requires Permutes(order, |Masters(es)|) && Back(at, CacheOf(es), order) && Only(map[], at, CacheOf(es), order)
    ensures k in at <==> NamesMaster(es, k)
  {
    PermutesMembers(order, |Masters(es)|);
    hide Restored;
    if k in at {
      var i :| 0 <= i < |CacheOf(es)| && i in order && k == Key(CacheOf(es)[i].host);
      assert k == Key(Masters(es)[i]);
    }
    if NamesMaster(es, k) {
      var i :| 0 <= i < |Masters(es)| && k == Key(Masters(es)[i]);
      assert i in order && CacheOf(es)[i].host == Masters(es)[i];
    }
  }

  lemma MappedKey(keys: seq<string>, es: seq<Entry>, k: string)
    requires Names(keys, Masters(es))
    ensures k in keys <==> NamesMaster(es, k)
  {
  }

  lemma SameKeys(c: RedisCluster, d: RedisCluster, es: seq<Entry>, order: seq<int>)
    requires c.Valid() && c.Mapped(es) && d.Valid() && Permutes(order, |Masters(es)|)
    requires Back(d.nodes.at, CacheOf(es), order) && Only(map[], d.nodes.at, CacheOf(es), order)
    ensures multiset(d.nodes.keys) == multiset(c.nodes.keys)
  {
    hide Back, Only, Names, NamesMaster, Permutes, Describes;
    forall k ensures k in d.nodes.at <==> k in c.nodes.at {
      RestoredKey(d.nodes.at, es, order, k);
      MappedKey(c.nodes.keys, es, k);
    }
    assert d.nodes.at.Keys == c.nodes.at.Keys;
    SameKeysListed(d.nodes, c.nodes);
  }

  lemma RestoredAlike(c: RedisCluster, d: RedisCluster, es: seq<Entry>, order: seq<int>)
    requires c.Valid() && c.Mapped(es) && d.Valid() && Uncontested(es) && Permutes(order, |Masters(es)|)
    requires forall s | 0 <= s < SLOTS :: c.Table()[s] == Owner(es, s)
    requires forall i | i in order :: 0 <= i < |CacheOf(es)|
    requires Back(d.nodes.at, CacheOf(es), order)
    requires Hooked(d.nodes.at, CacheOf(es), order, Nulls(), d.master[..])
    requires Only(map[], d.nodes.at, CacheOf(es), order)
    ensures d.Table() == c.Table() && SameNodes(c.nodes.at, d.nodes.at, Masters(es))
    ensures multiset(d.nodes.keys) == multiset(c.nodes.keys)
  {
    SameKeys(c, d, es, order);
    hide Restored, Hooked, Back, Usable, Permutes, Describes, Filed, Names, CacheOf, Owner, FirstOf, RangesOf;
    hide Uncontested;
    forall s | 0 <= s < SLOTS ensures d.Table()[s] == Owner(es, s) {
      SameSlot(d, es, order, s);
    }
    forall h | h in Masters(es)
      ensures var k := Key(h);
              && k in c.nodes.at && k in d.nodes.at
              && c.nodes.at[k].Valid() && d.nodes.at[k].Valid()
              && d.nodes.at[k].host == c.nodes.at[k].host == h
              && d.nodes.at[k].ranges == c.nodes.at[k].ranges
              && d.nodes.at[k].Addresses() == c.nodes.at[k].Addresses()
    {
      SameNode(c.nodes.at, d.nodes.at, es, order, h);
    }
  }

  /** A cluster mapped from nothing, its cache, and an empty cluster made from that: whatever the shuffle, every slot
      has the same master address, and every master the same ranges and replicas in order. */
  method CacheRoundTrip(c: RedisCluster, ghost es: seq<Entry>, draws: seq<nat>) returns (d: RedisCluster)
    requires c.Valid() && c.Mapped(es) && Uncontested(es) && Draws(draws, |Masters(es)|)
    requires forall e | e in es :: e.range.low <= e.range.high < SLOTS && |Key(e.host)| < HOST_NAME_MAX
    requires forall s | 0 <= s < SLOTS :: c.Table()[s] == Owner(es, s)
    ensures fresh(d) && d.Valid() && d.Table() == c.Table() && SameNodes(c.nodes.at, d.nodes.at, Masters(es))
    ensures multiset(d.nodes.keys) == multiset(c.nodes.keys)
  {
    hide Restored, Hooked, Back, Usable, Permutes, Shuffled, Describes, Filed, Names, Owner, FirstOf, RangesOf;
    hide Uncontested, SameNodes, Snapshot, Only;
    NodesAreValid(c);
    var cc := CacheCreate(c.nodes);
    CacheOfMapped(c, es);
    CacheIsUsable(es);
    d := FromCache(cc, draws);
    RestoredAlike(c, d, es, Shuffled(Identity(|cc|), |cc|, draws));
  }

  /** What a mapping that started from an empty table makes of it. */
  lemma TableOfMapped(c: RedisCluster, es: seq<Entry>, s: nat)
    requires c.Valid() && c.Mapped(es) && Points(es, c.nodes.at, Nulls(), c.master[..]) && s < SLOTS
    ensures c.Table()[s] == Owner(es, s)
  {
    OwnerCovers(es, s);
    MastersNamed(es);
    hide Owner, Masters;
    if Owner(es, s).Just? {
      DescribesHost(es, Owner(es, s).value, c.nodes.at[Key(Owner(es, s).value)]);
    }
  }

  lemma {:induction false} EntriesInBounds(rs: seq<ClusterReply>)
    requires AllValid(rs)
    ensures |Entries(rs)| == |rs| && forall e | e in Entries(rs) :: e.range.low <= e.range.high < SLOTS
  {
    if rs != [] {
      var init := rs[..|rs| - 1];
      EntriesInBounds(init);
      assert Parse(rs[|rs| - 1]).Just?;
    }
  }

  lemma {:induction false} FewerMasters(es: seq<Entry>)
    ensures |Masters(es)| <= |es|
  {
    if es != [] {
      FewerMasters(Init(es));
    }
  }

  /** From a CLUSTER SLOTS reply to the cluster restored from its cache: an empty table, a reply whose masters claim
      no slot twice, and both clusters serve every slot as the last entry that covers it says. */
  method MapAndRestore(c: RedisCluster, reply: seq<ClusterReply>, draws: seq<nat>) returns (ok: bool, d: RedisCluster)
    requires c.Valid() && c.master[..] == Nulls() && Draws(draws, |reply|)
    requires Uncontested(Effective(reply)) && forall e | e in Effective(reply) :: |Key(e.host)| < HOST_NAME_MAX
    modifies c`nodes, c`world, c.master
    ensures c.Valid() && d.Valid() && (ok <==> AllValid(reply))
    ensures ok ==> var es := Entries(reply);
                   && (forall s | 0 <= s < SLOTS :: c.Table()[s] == Owner(es, s))
                   && d.Table() == c.Table()
                   && SameNodes(c.nodes.at, d.nodes.at, Masters(es))
                   && multiset(d.nodes.keys) == multiset(c.nodes.keys)
  {
    hide Owner, RangesOf, FirstOf, Describes, Masters, Names, Filed, Entries, Parse, Points, SameNodes, Uncontested;
    hide RedisCluster.Mapped;
    ok := c.MapSlots(reply);
    if !ok {
      d := new RedisCluster();
      return;
    }
    ghost var es := Entries(reply);
    EffectiveAll(reply);
    EntriesInBounds(reply);
    FewerMasters(es);
    forall s | 0 <= s < SLOTS ensures c.Table()[s] == Owner(es, s) {
      TableOfMapped(c, es, s);
    }
    d := CacheRoundTrip(c, es, draws);
  }
}
