/** The nodes of a cluster (cluster_library.h) and the table that keeps them by `host:port`. */
module ClusterNodes {
  import opened Decimal
  import opened Options

  const SLOTS := 16384

  /** sizeof redir_host */
  const HOST_BUFFER := 255

  datatype RedirType = RedirNone | RedirMoved | RedirAsk

  datatype Host = Host(addr: string, port: nat)

  datatype SlotRange = SlotRange(low: nat, high: nat)

  predicate Covers(r: SlotRange, slot: nat) {
    r.low <= slot <= r.high
  }

  /** The key of `c->nodes` and `c->seeds`. */
  function Key(h: Host): string {
    h.addr + ":" + Print(h.port)
  }

  /** The last colon of a key is the one before its port. */
  lemma NoColonAfter(a: string, d: string)
    requires AllDigits(d)
    ensures (a + ":" + d)[|a|] == ':' && forall i | |a| < i <= |a| + |d| :: (a + ":" + d)[i] != ':'
  {
    var s := a + ":" + d;
    forall i | |a| < i <= |a| + |d| ensures s[i] != ':' {
      assert s[i] == d[i - |a| - 1];
    }
  }

  lemma LastColon(d: string, e: string, a: string, b: string)
    requires AllDigits(d) && AllDigits(e) && a + ":" + d == b + ":" + e
    ensures a == b && d == e
  {
    NoColonAfter(a, d);
    NoColonAfter(b, e);
    assert |a| == |b|;
    assert (a + ":" + d)[..|a|] == a && (b + ":" + e)[..|b|] == b;
    assert (a + ":" + d)[|a| + 1..] == d && (b + ":" + e)[|b| + 1..] == e;
  }

  /** Addresses may hold colons, but a port never does: two nodes never share a key. */
  lemma KeyInjective(g: Host, h: Host)
    ensures Key(g) == Key(h) <==> g == h
  {
    if Key(g) == Key(h) {
      LastColon(Print(g.port), Print(h.port), g.addr, h.addr);
      DecRoundTrip(g.port);
      DecRoundTrip(h.port);
    }
  }

  // ---- PHP hash tables ----

  /** A table with string keys that remembers the order of insertion. */
  datatype Ordered<V> = Ordered(keys: seq<string>, at: map<string, V>)
  {
    ghost predicate Coherent() {
      && (forall k :: k in keys <==> k in at)
      && forall i, j | 0 <= i < j < |keys| :: keys[i] != keys[j]
    }

    /** `zend_hash_str_update_ptr`: a known key keeps its place. */
    function Put(k: string, v: V): Ordered<V> {
      Ordered(if k in at then keys else keys + [k], at[k := v])
    }
  }

  function Empty<V>(): Ordered<V> {
    Ordered([], map[])
  }

  /** A table with integer keys; `next` is `nNextFreeElement`. */
  datatype Indexed<V> = Indexed(at: map<nat, V>, next: nat)
  {
    /** Filled without gaps from 1 on. */
    ghost predicate FromOne() {
      next >= 1 && forall i :: i in at <==> 1 <= i < next
    }

    lemma {:induction false} Count()
      requires FromOne()
      ensures |at| == next - 1
      decreases next
    {
      if next > 1 {
        var rest := Indexed(map i | i in at && i != next - 1 :: at[i], next - 1);
        rest.Count();
        assert at.Keys == rest.at.Keys + {next - 1};
        assert |at.Keys| == |rest.at.Keys| + 1;
      } else {
        assert at == map[];
      }
    }

    function Elements(): (s: seq<V>)
      requires FromOne()
      ensures |s| == next - 1 && forall i | 0 <= i < |s| :: s[i] == at[i + 1]
    {
      seq(next - 1, i requires 0 <= i < next - 1 => at[i + 1])
    }
  }

  function Hosts(nodes: seq<ClusterNode>): (s: seq<Host>)
    ensures |s| == |nodes| && forall i | 0 <= i < |s| :: s[i] == nodes[i].host
  {
    seq(|nodes|, i requires 0 <= i < |nodes| => nodes[i].host)
  }

  /** `redisClusterNode`; the socket is its address. */
  class ClusterNode {
    const host: Host
    var slot: nat
    var slave: bool
    var ranges: seq<SlotRange>
    var slaves: Maybe<Indexed<ClusterNode>>

    /** `cluster_node_create` */
    constructor (host: Host, slot: nat, slave: bool)
      ensures this.host == host && this.slot == slot && this.slave == slave && ranges == [] && slaves == Nothing
    {
      this.host, this.slot, this.slave, this.ranges, this.slaves := host, slot, slave, [], Nothing;
    }

    ghost predicate Valid()
      reads this`slaves
    {
      slaves.Just? ==> slaves.value.FromOne()
    }

    /** Replicas in the order of their index. */
    function Replicas(): (s: seq<ClusterNode>)
      requires Valid()
      reads this`slaves
    {
      if slaves.Just? then slaves.value.Elements() else []
    }

    function Addresses(): (s: seq<Host>)
      requires Valid()
      reads this`slaves
      ensures |s| == |Replicas()| && forall i | 0 <= i < |s| :: s[i] == Replicas()[i].host
    {
      Hosts(Replicas())
    }

    /** `cluster_node_add_slave` */
    method AddSlave(node: ClusterNode)
      requires Valid()
      modifies this`slaves
      ensures Valid() && slaves.Just?
      ensures Replicas() == old(Replicas()) + [node]
      ensures Addresses() == old(Addresses()) + [node.host]
    {
      var table: Indexed<ClusterNode>;
      var index;
      if slaves.Nothing? {
        table, index := Indexed(map[], 1), 1;
      } else {
        table, index := slaves.value, slaves.value.next;
      }
      slaves := Just(Indexed(table.at[index := node], index + 1));
      assert Replicas() == old(Replicas()) + [node];
    }
  }
}
