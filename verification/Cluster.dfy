/** cluster_library.c: the slot table, the nodes and what redirections do to them. */
module Cluster {
  import opened Options
  import opened ClusterNodes
  import opened ReplyTrees
  import opened SlotMap
  import opened Shuffle

  // ---- one more entry ----

  lemma OneMore(es: seq<Entry>, e: Entry)
    ensures Last(es + [e]) == e && Init(es + [e]) == es
    ensures Masters(es + [e]) == if e.host in Masters(es) then Masters(es) else Masters(es) + [e.host]
    ensures forall s: nat :: Owner(es + [e], s) == if Covers(e.range, s) then Just(e.host) else Owner(es, s)
    ensures forall h :: RangesOf(es + [e], h) == if h == e.host then RangesOf(es, h) + [e.range] else RangesOf(es, h)
    ensures forall h | h in Masters(es) :: h in Masters(es + [e]) && FirstOf(es + [e], h) == FirstOf(es, h)
    ensures e.host in Masters(es + [e]) && (e.host !in Masters(es) ==> FirstOf(es + [e], e.host) == e)
  {
    assert Init(es + [e]) == es;
  }

  /** The node stands for master h of these entries. */
  ghost predicate Describes(es: seq<Entry>, h: Host, n: ClusterNode)
    requires h in Masters(es)
    reads n
  {
    && n.Valid()
    && n.host == h && !n.slave
    && n.slot == FirstOf(es, h).range.low
    && n.ranges == RangesOf(es, h)
    && n.Addresses() == FirstOf(es, h).replicas
  }

  lemma DescribesMore(es: seq<Entry>, e: Entry, h: Host, n: ClusterNode)
    requires h in Masters(es) && Describes(es, h, n) && h != e.host
    ensures h in Masters(es + [e]) && Describes(es + [e], h, n)
  {
    OneMore(es, e);
  }

  lemma DescribesHost(es: seq<Entry>, h: Host, n: ClusterNode)
    requires h in Masters(es) && Describes(es, h, n)
    ensures n.Valid() && n.host == h
  {
  }

  /** The node for the master of one more entry, before the range is added. */
  ghost predicate Expects(es: seq<Entry>, e: Entry, n: ClusterNode)
    reads n
  {
    && n.Valid()
    && n.host == e.host && !n.slave
    && e.host in Masters(es + [e])
    && n.slot == FirstOf(es + [e], e.host).range.low
    && n.ranges == RangesOf(es, e.host)
    && n.Addresses() == FirstOf(es + [e], e.host).replicas
  }

  lemma ExpectsKnown(es: seq<Entry>, e: Entry, n: ClusterNode)
    requires e.host in Masters(es) && Describes(es, e.host, n)
    ensures Expects(es, e, n)
  {
    OneMore(es, e);
  }

  lemma ExpectsNew(es: seq<Entry>, e: Entry, n: ClusterNode)
    requires e.host !in Masters(es)
    requires n.Valid() && n.host == e.host && !n.slave && n.slot == e.range.low && n.ranges == []
    requires n.Addresses() == e.replicas
    ensures Expects(es, e, n)
  {
    OneMore(es, e);
    NoRanges(es, e.host);
  }

  lemma {:induction false} NoRanges(es: seq<Entry>, h: Host)
    requires h !in Masters(es)
    ensures RangesOf(es, h) == []
  {
    if es != [] {
      NoRanges(Init(es), h);
    }
  }

  /** Every node is filed under its own address. */
  ghost predicate Filed(nodes: Ordered<ClusterNode>, world: set<ClusterNode>) {
    nodes.Coherent() && forall k | k in nodes.at :: nodes.at[k] in world && Key(nodes.at[k].host) == k
  }

  lemma FiledPut(nodes: Ordered<ClusterNode>, world: set<ClusterNode>, n: ClusterNode)
    requires Filed(nodes, world)
    ensures Filed(nodes.Put(Key(n.host), n), world + {n})
  {
  }

  lemma FiledMore(nodes: Ordered<ClusterNode>, world: set<ClusterNode>, more: set<ClusterNode>)
    requires Filed(nodes, world) && world <= more
    ensures Filed(nodes, more)
  {
  }

  ghost predicate Names(keys: seq<string>, hosts: seq<Host>) {
    |keys| == |hosts| && forall i | 0 <= i < |keys| :: keys[i] == Key(hosts[i])
  }

  lemma NamesIff(keys: seq<string>, hosts: seq<Host>, h: Host)
    requires Names(keys, hosts)
    ensures Key(h) in keys <==> h in hosts
  {
    if Key(h) in keys {
      var i :| 0 <= i < |keys| && keys[i] == Key(h);
      KeyInjective(hosts[i], h);
    }
  }

  lemma NamesMore(nodes: Ordered<ClusterNode>, world: set<ClusterNode>, n: ClusterNode, es: seq<Entry>, e: Entry)
    requires Filed(nodes, world) && Names(nodes.keys, Masters(es)) && n.host == e.host
    ensures Names(nodes.Put(Key(e.host), n).keys, Masters(es + [e]))
    ensures Key(e.host) in nodes.at ==> Masters(es + [e]) == Masters(es)
  {
    OneMore(es, e);
    NamesIff(nodes.keys, Masters(es), e.host);
  }

  /** Every covered slot points to the node of the last entry that covers it, the others where they did. */
  ghost predicate Points(
      es: seq<Entry>, at: map<string, ClusterNode>, before: seq<ClusterNode?>, now: seq<ClusterNode?>)
  {
    && |before| == |now| == SLOTS
    && (forall s | 0 <= s < SLOTS && Owner(es, s).Nothing? :: now[s] == before[s])
    && (forall s | 0 <= s < SLOTS && Owner(es, s).Just? ::
          Key(Owner(es, s).value) in at && now[s] == at[Key(Owner(es, s).value)])
  }

  lemma PointsMore(
      es: seq<Entry>, e: Entry, at: map<string, ClusterNode>, more: map<string, ClusterNode>,
      before: seq<ClusterNode?>, now: seq<ClusterNode?>, next: seq<ClusterNode?>)
    requires Points(es, at, before, now) && |next| == SLOTS
    requires forall k | k in at :: k in more && more[k] == at[k]
    requires Key(e.host) in more
    requires forall s | 0 <= s < SLOTS :: next[s] == if Covers(e.range, s) then more[Key(e.host)] else now[s]
    ensures Points(es + [e], more, before, next)
  {
    OneMore(es, e);
    hide Owner;
  }

  function Nulls(): seq<ClusterNode?> {
    seq(SLOTS, _ => null)
  }

  /** The seed whose answer maps the cluster: the first with a valid one. */
  function Usable(answers: seq<Maybe<seq<ClusterReply>>>): (n: nat)
    ensures n <= |answers|
    ensures n < |answers| ==> answers[n].Just? && AllValid(answers[n].value)
    ensures forall i | 0 <= i < n :: answers[i].Just? ==> !AllValid(answers[i].value)
  {
    if answers == [] || (answers[0].Just? && AllValid(answers[0].value)) then 0 else 1 + Usable(answers[1..])
  }

  /** An invalid answer came before: whatever was mapped is gone. */
  predicate Spoilt(answers: seq<Maybe<seq<ClusterReply>>>, n: nat)
    requires n <= |answers|
  {
    exists i | 0 <= i < n :: answers[i].Just?
  }

  /** What a node that took the command answers: `late` if the time is up after it. */
  datatype Hop =
    | Garbled
    | Answered(down: bool)
    | MovedTo(slot: nat, host: Host, answers: seq<Maybe<seq<ClusterReply>>>, late: bool)
    | AskTo(slot: nat, host: Host, late: bool)

  predicate IsRedirect(h: Hop) {
    h.MovedTo? || h.AskTo?
  }

  /** The table after the first n hops: MOVED is learnt, ASK is not. */
  function Fold(t: seq<Maybe<Host>>, hops: seq<Hop>, n: nat): (r: seq<Maybe<Host>>)
    requires |t| == SLOTS && n <= |hops| && forall h | h in hops :: IsRedirect(h) ==> h.slot < SLOTS
    ensures |r| == SLOTS
  {
    if n == 0 then t
    else
      var before := Fold(t, hops, n - 1);
      Learnt(before, hops[n - 1])
  }

  /** Whether REDIR_ASK is set after the first n answers: the last redirection decides. */
  function AskFlag(asking: bool, hops: seq<Hop>, n: nat): bool
    requires n <= |hops|
  {
    if n == 0 then asking
    else if IsRedirect(hops[n - 1]) then hops[n - 1].AskTo? else AskFlag(asking, hops, n - 1)
  }

  /** `REDIS_FAILOVER_NONE` to `REDIS_FAILOVER_DISTRIBUTE_SLAVES` */
  datatype Routing = MasterOnly | OnError | Distribute | DistributeSlaves

  /** The setting only matters to commands that are readonly. */
  function RoutingOf(readonly: bool, failover: Routing): Routing {
    if readonly then failover else MasterOnly
  }

  /** The command goes to its own node first. */
  predicate Direct(routing: Routing) {
    routing.MasterOnly? || routing.OnError?
  }

  /** One delivery of the command: who was sent ASKING, whether that failed, who was offered the command, in order, and
      whether the last of them took it. */
  datatype Effort = Effort(asked: Maybe<Host>, barred: bool, tried: seq<Host>, took: bool)

  /** An ASK is honoured: the command went right behind ASKING. */
  predicate Honours(e: Effort) {
    e.asked.Just? && !e.barred ==> e.tried != [] && e.tried[0] == e.asked.value
  }

  /** The node a round starts with, and whether it gets ASKING. */
  datatype Attempt = Attempt(to: Host, asking: bool)

  predicate Fits(at: Attempt, e: Effort, direct: bool) {
    && e.asked == (if at.asking then Just(at.to) else Nothing)
    && (e.barred ==> at.asking && e.tried == [])
    && (e.took ==> e.tried != [])
    && (direct && !e.barred ==> e.tried != [] && e.tried[0] == at.to)
  }

  /** Where hop i begins: at the announced node with ASKING after ASK, else at the master of the slot. */
  function AttemptAt(t: seq<Maybe<Host>>, slot: nat, asking: bool, hops: seq<Hop>, i: nat): Attempt
    requires |t| == SLOTS && slot < SLOTS && t[slot].Just? && i <= |hops|
    requires forall h | h in hops :: IsRedirect(h) ==> h.slot < SLOTS
  {
    if i > 0 && hops[i - 1].AskTo? then Attempt(hops[i - 1].host, true)
    else
      FoldServes(t, slot, hops, i);
      Attempt(Fold(t, hops, i)[slot].value, i == 0 && asking)
  }

  lemma FlagNext(asking: bool, hops: seq<Hop>, n: nat)
    requires n < |hops|
    ensures AskFlag(asking, hops, n + 1)
       <==> if IsRedirect(hops[n]) then hops[n].AskTo? else AskFlag(asking, hops, n)
  {
  }

  lemma {:induction false} FoldServes(t: seq<Maybe<Host>>, slot: nat, hops: seq<Hop>, n: nat)
    requires |t| == SLOTS && slot < SLOTS && t[slot].Just? && n <= |hops|
    requires forall h | h in hops :: IsRedirect(h) ==> h.slot < SLOTS
    ensures Fold(t, hops, n)[slot].Just?
  {
    if n > 0 {
      FoldServes(t, slot, hops, n - 1);
    }
  }

  /** A slot that no MOVED named keeps its master. */
  lemma {:induction false} FoldUntouched(t: seq<Maybe<Host>>, hops: seq<Hop>, n: nat, slot: nat)
    requires |t| == SLOTS && slot < SLOTS && n <= |hops| && forall h | h in hops :: IsRedirect(h) ==> h.slot < SLOTS
    requires forall i | 0 <= i < n :: hops[i].MovedTo? ==> hops[i].slot != slot
    ensures Fold(t, hops, n)[slot] == t[slot]
  {
    if n > 0 {
      FoldUntouched(t, hops, n - 1, slot);
    }
  }

  /** Any other goes to the last MOVED that named it. */
  lemma {:induction false} FoldIsLastMoved(t: seq<Maybe<Host>>, hops: seq<Hop>, n: nat, i: nat)
    requires |t| == SLOTS && i < n <= |hops| && forall h | h in hops :: IsRedirect(h) ==> h.slot < SLOTS
    requires hops[i].MovedTo? && forall j | i < j < n :: hops[j].MovedTo? ==> hops[j].slot != hops[i].slot
    ensures Fold(t, hops, n)[hops[i].slot] == Just(hops[i].host)
  {
    if i < n - 1 {
      FoldIsLastMoved(t, hops, n - 1, i);
    }
  }

  /** What one hop teaches the table. */
  function Learnt(table: seq<Maybe<Host>>, hop: Hop): seq<Maybe<Host>>
    requires |table| == SLOTS && (IsRedirect(hop) ==> hop.slot < SLOTS)
  {
    if hop.MovedTo? then table[hop.slot := Just(hop.host)] else table
  }

  /** How a round ends: with a result, with a redirection to follow, or with one that comes too late. */
  datatype Verdict = Over(r: int) | Follow | TooLate

  function Result(v: Verdict): int {
    if v.Over? then v.r else -1
  }

  /** Whatever happens on the way: a command that is not distributed follows every ASK. */
  lemma DirectHonours(q: Request, followed: nat, sent: seq<Effort>, table: seq<Maybe<Host>>, i: nat)
    requires q.Sound() && q.direct && q.Told(followed, sent, table) && i < |sent|
    ensures Honours(sent[i])
    ensures i > 0 && q.hops[i - 1].AskTo? ==> sent[i].asked == Just(q.hops[i - 1].host)
  {
    assert Fits(AttemptAt(q.t, q.slot, q.asking, q.hops, i), sent[i], true);
  }

  /** A request, the table it started with and whether REDIR_ASK was set. */
  datatype Request = Request(
    t: seq<Maybe<Host>>, slot: nat, asking: bool, hops: seq<Hop>, multi: bool, direct: bool)
  {
    predicate Sound() {
      |t| == SLOTS && slot < SLOTS && t[slot].Just? && forall h | h in hops :: IsRedirect(h) ==> h.slot < SLOTS
    }

    /** After n redirections: what was sent, what the table is and what comes next. */
    predicate Course(n: nat, sent: seq<Effort>, table: seq<Maybe<Host>>, next: Attempt)
      requires Sound()
    {
      && |sent| == n <= |hops|
      && (forall i | 0 <= i < n :: Fits(AttemptAt(t, slot, asking, hops, i), sent[i], direct))
      && table == Fold(t, hops, n)
      && next == AttemptAt(t, slot, asking, hops, n)
    }

    /** What was sent and what the table is, once `followed` redirections took effect. */
    predicate Told(followed: nat, sent: seq<Effort>, table: seq<Maybe<Host>>)
      requires Sound()
    {
      && followed <= |hops| && |sent| <= |hops| + 1
      && table == Fold(t, hops, followed)
      && forall i | 0 <= i < |sent| :: Fits(AttemptAt(t, slot, asking, hops, i), sent[i], direct)
    }

    /** The first n answers were redirections that came in time and could be followed. */
    predicate InTime(n: nat, sent: seq<Effort>) {
      && |sent| == n <= |hops| && (multi ==> n == 0)
      && forall i | 0 <= i < n :: sent[i].took && IsRedirect(hops[i]) && !hops[i].late
    }

    /** How many answers were read. */
    function Heard(sent: seq<Effort>): nat
      requires sent != []
    {
      if sent[|sent| - 1].took && |sent| <= |hops| then |sent| else |sent| - 1
    }

    /** How a request ends. Every round but the last was answered by a redirection in time; the last may have been
        followed too. The result is 0 exactly if a node answered and the cluster was not down, and REDIR_ASK stays set
        exactly if the request failed and the last redirection, if there was none the flag, was ASK. */
    predicate Ends(r: int, followed: nat, sent: seq<Effort>, redirType: RedirType) {
      && sent != [] && |sent| <= |hops| + 1
      && |sent| - 1 <= followed <= Heard(sent)
      && (forall i | 0 <= i < |sent| - 1 :: sent[i].took && IsRedirect(hops[i]) && !hops[i].late)
      && (followed == |sent| ==> IsRedirect(hops[followed - 1]))
      && (multi ==> followed == 0)
      && (r == 0 || r == -1)
      && (r == 0 <==> Heard(sent) == |sent| && hops[|sent| - 1] == Answered(false))
      && (r == 0 ==> redirType == RedirNone)
      && (redirType == RedirAsk <==> r != 0 && AskFlag(asking, hops, Heard(sent)))
    }

    lemma CourseStarts(next: Attempt)
      requires Sound() && next == Attempt(t[slot].value, asking)
      ensures Course(0, [], t, next)
    {
    }

    lemma CourseMore(n: nat, sent: seq<Effort>, table: seq<Maybe<Host>>, next: Attempt, e: Effort)
      requires Sound() && Course(n, sent, table, next) && Fits(next, e, direct)
      requires n < |hops| && IsRedirect(hops[n])
      ensures var hop := hops[n];
              var after := Learnt(table, hop);
              && after[slot].Just?
              && Course(n + 1, sent + [e], after,
                        if hop.MovedTo? then Attempt(after[slot].value, false) else Attempt(hop.host, true))
    {
      FoldServes(t, slot, hops, n + 1);
    }

    lemma CourseTold(n: nat, sent: seq<Effort>, table: seq<Maybe<Host>>, next: Attempt, e: Effort)
      requires Sound() && Course(n, sent, table, next) && Fits(next, e, direct)
      ensures Told(n, sent + [e], table)
      ensures n < |hops| && IsRedirect(hops[n]) ==> Told(n + 1, sent + [e], Learnt(table, hops[n]))
      ensures table[slot].Just?
    {
      FoldServes(t, slot, hops, n);
    }

    /** No node took the command, or none answered, or the answer ends the request. */
    lemma EndsNow(r: int, n: nat, sent: seq<Effort>, e: Effort, redirType: RedirType)
      requires InTime(n, sent) && (r == 0 || r == -1)
      requires r == 0 <==> e.took && n < |hops| && hops[n] == Answered(false)
      requires if r == 0 then redirType == RedirNone
               else redirType == RedirAsk <==> AskFlag(asking, hops, if e.took && n < |hops| then n + 1 else n)
      ensures n == |sent| && Ends(r, n, sent + [e], redirType)
    {
    }

    lemma EndsLate(n: nat, sent: seq<Effort>, e: Effort, redirType: RedirType)
      requires InTime(n, sent) && n < |hops| && e.took && IsRedirect(hops[n]) && !multi
      requires redirType == RedirAsk <==> AskFlag(asking, hops, n + 1)
      ensures n == |sent| && Ends(-1, n + 1, sent + [e], redirType)
      ensures !hops[n].late ==> InTime(n + 1, sent + [e])
    {
    }
  }

  /** Some of these nodes names the address as a replica. */
  ghost predicate Replica(world: set<ClusterNode>, h: Host)
    reads world`slaves
  {
    exists n | n in world :: n.Valid() && h in n.Addresses()
  }

  /** The only way to a failover: some MOVED announces what was known as a replica. */
  ghost predicate Foreseen(hops: seq<Hop>, world: set<ClusterNode>)
    reads world`slaves
  {
    exists h | h in hops :: h.MovedTo? && Replica(world, h.host)
  }

  lemma ReplicaAdd(world: set<ClusterNode>, node: ClusterNode)
    requires node.slaves.Nothing? || node in world
    ensures forall h | Replica(world + {node}, h) :: Replica(world, h)
  {
  }

  predicate Kept(before: map<string, ClusterNode>, after: map<string, ClusterNode>) {
    forall k | k in before :: k in after && after[k] == before[k]
  }

  lemma KeptTrans(a: map<string, ClusterNode>, b: map<string, ClusterNode>, c: map<string, ClusterNode>)
    requires Kept(a, b) && Kept(b, c)
    ensures Kept(a, c)
  {
  }

  lemma KeptSame(a: map<string, ClusterNode>)
    ensures Kept(a, a)
  {
  }

  class RedisCluster {
    const master: array<ClusterNode?>
    var nodes: Ordered<ClusterNode>
    var redirType: RedirType
    var redirHost: Host
    var redirSlot: nat
    var cmdSlot: nat
    var cmdSock: ClusterNode?
    ghost var world: set<ClusterNode>

    constructor ()
      ensures Valid() && fresh(master) && nodes == Empty() && forall s | 0 <= s < SLOTS :: master[s] == null
    {
      master := new ClusterNode?[SLOTS](_ => null);
      nodes := Empty();
      redirType, redirHost, redirSlot := RedirNone, Host("", 0), 0;
      cmdSlot, cmdSock := 0, null;
      world := {};
    }

    ghost predicate Valid()
      reads this`nodes, this`world, master, world
    {
      && master.Length == SLOTS
      && Filed(nodes, world)
      && (forall s | 0 <= s < SLOTS && master[s] != null :: master[s] in world)
      && (forall n | n in world :: n.Valid())
    }

    /** The table of nodes is that of these entries, in their order. */
    ghost predicate Mapped(es: seq<Entry>)
      reads this, nodes.at.Values
    {
      && Names(nodes.keys, Masters(es))
      && (forall h | h in Masters(es) :: Key(h) in nodes.at && Describes(es, h, nodes.at[Key(h)]))
    }

    // ---- CLUSTER SLOTS ----

    static method AttachReplicas(node: ClusterNode, rs: seq<ClusterReply>, low: nat)
      requires node.Valid() && node.slaves.Nothing?
      modifies node`slaves
      ensures node.Valid() && node.Addresses() == ParseHosts(rs)
      ensures forall n | n in node.Replicas() :: fresh(n) && n.slave && n.slot == low
    {
      var j := 0;
      while j < |rs|
        invariant node.Valid() && forall n | n in node.Replicas() :: fresh(n) && n.slave && n.slot == low
        invariant 0 <= j <= |rs| && node.Valid() && node.Addresses() == ParseHosts(rs[..j])
      {
        var r := rs[j];
        assert rs[..j + 1][..j] == rs[..j];
        j := j + 1;
        if !ValidInner(r) {
          continue;
        }
        if !ValidPort(r.element[1].integer) || !ValidHost(r.element[0].str.value) {
          continue;
        }
        var slave := new ClusterNode(Host(r.element[0].str.value, r.element[1].integer), low, true);
        node.AddSlave(slave);
      }
      assert rs[..|rs|] == rs;
    }

    method FillSlots(node: ClusterNode, range: SlotRange)
      requires Valid() && node in world && range.low <= range.high < SLOTS
      modifies master
      ensures Valid()
      ensures forall s | 0 <= s < SLOTS :: master[s] == if Covers(range, s) then node else old(master[s])
    {
      var j := range.low;
      while j <= range.high
        invariant range.low <= j <= range.high + 1
        invariant forall s | 0 <= s < SLOTS :: master[s] == if range.low <= s < j then node else old(master[s])
      {
        master[j] := node;
        j := j + 1;
      }
    }

    lemma KnownIff(es: seq<Entry>, h: Host)
      requires Valid() && Mapped(es)
      ensures Key(h) in nodes.at <==> h in Masters(es)
      ensures Key(h) in nodes.at ==> nodes.at[Key(h)] in world
    {
      NamesIff(nodes.keys, Masters(es), h);
    }

    /** The node of a valid element: the one known by its address, or a new one with its replicas. */
    method NodeFor(ghost es: seq<Entry>, r: ClusterReply, e: Entry) returns (node: ClusterNode)
      requires Valid() && Mapped(es) && Parse(r) == Just(e)
      modifies this`nodes, this`world
      ensures Valid() && world >= old(world) && fresh(world - old(world)) && node in world
      ensures Names(nodes.keys, Masters(es + [e]))
      ensures nodes == if Key(e.host) in old(nodes).at then old(nodes) else old(nodes).Put(Key(e.host), node)
      ensures Key(e.host) in nodes.at && nodes.at[Key(e.host)] == node
      ensures Key(e.host) !in old(nodes).at ==> fresh(node)
      ensures node.host == e.host && Expects(es, e, node)
    {
      hide RangesOf, FirstOf, Describes, Expects, Names, Filed, Masters;
      KnownIff(es, e.host);
      var key := Key(e.host);
      if key in nodes.at {
        node := nodes.at[key];
        ExpectsKnown(es, e, node);
        NamesMore(nodes, world, node, es, e);
        assert nodes.Put(key, node).keys == nodes.keys;
      } else {
        node := new ClusterNode(e.host, e.range.low, false);
        AttachReplicas(node, r.element[3..], e.range.low);
        ExpectsNew(es, e, node);
        FiledPut(nodes, world, node);
        NamesMore(nodes, world, node, es, e);
        nodes := nodes.Put(key, node);
        world := world + {node};
      }
    }

    static method AddRange(ghost es: seq<Entry>, e: Entry, node: ClusterNode)
      requires Expects(es, e, node)
      modifies node`ranges
      ensures node.Valid() && e.host in Masters(es + [e]) && Describes(es + [e], e.host, node)
    {
      OneMore(es, e);
      node.ranges := node.ranges + [e.range];
    }

    /** One valid element of the reply. */
    method MapEntry(ghost es: seq<Entry>, r: ClusterReply, e: Entry)
      requires Valid() && Mapped(es) && Parse(r) == Just(e)
      modifies this`nodes, this`world, master, nodes.at.Values
      ensures Valid() && Mapped(es + [e]) && Key(e.host) in nodes.at
      ensures forall k | k in old(nodes.at) :: k in nodes.at && nodes.at[k] == old(nodes.at)[k]
      ensures forall k | k in nodes.at :: k in old(nodes.at) || fresh(nodes.at[k])
      ensures world >= old(world) && fresh(world - old(world))
      ensures forall s | 0 <= s < SLOTS ::
                master[s] == if Covers(e.range, s) then nodes.at[Key(e.host)] else old(master[s])
    {
      hide Owner, RangesOf, FirstOf, Describes, Expects, Masters, Names, Filed;
      var node := NodeFor(es, r, e);
      forall h | h in Masters(es) && h != e.host
        ensures Key(h) in nodes.at && nodes.at[Key(h)] != node && Describes(es, h, nodes.at[Key(h)])
      {
        KeyInjective(h, e.host);
        DescribesHost(es, h, nodes.at[Key(h)]);
      }
      FillSlots(node, e.range);
      AddRange(es, e, node);
      OneMore(es, e);
      forall h | h in Masters(es + [e])
        ensures Key(h) in nodes.at && Describes(es + [e], h, nodes.at[Key(h)])
      {
        KeyInjective(h, e.host);
        if h != e.host {
          assert h in Masters(es);
          DescribesMore(es, e, h, nodes.at[Key(h)]);
        }
      }
    }

    /** One turn of the loop over the reply. */
    method MapNext(ghost before: seq<ClusterNode?>, ghost es: seq<Entry>, r: ClusterReply, e: Entry)
      requires Valid() && Mapped(es) && Points(es, nodes.at, before, master[..]) && Parse(r) == Just(e)
      modifies this`nodes, this`world, master, nodes.at.Values
      ensures Valid() && world >= old(world) && fresh(world - old(world))
      ensures Mapped(es + [e]) && Points(es + [e], nodes.at, before, master[..])
      ensures nodes.at.Values <= old(nodes.at.Values) + set k | k in nodes.at && fresh(nodes.at[k]) :: nodes.at[k]
    {
      hide Owner, RangesOf, FirstOf, Describes, Masters, Names, Filed, Entries, Parse, Points;
      ghost var at, table := nodes.at, master[..];
      MapEntry(es, r, e);
      PointsMore(es, e, at, nodes.at, before, table, master[..]);
    }

    method CleanNodes()
      requires Valid()
      modifies this`nodes
      ensures Valid() && nodes == Empty() && Mapped([]) && Points([], nodes.at, master[..], master[..])
    {
      nodes := Empty();
    }

    /** A slot goes to the address in the last element that spans it. */
    lemma ServedAsSent(reply: seq<ClusterReply>, before: seq<ClusterNode?>, i: nat, s: nat)
      requires Valid() && AllValid(reply) && Mapped(Entries(reply))
      requires Points(Entries(reply), nodes.at, before, master[..])
      requires i < |reply| && s < SLOTS && Spans(reply[i], s) && forall j | i < j < |reply| :: !Spans(reply[j], s)
      ensures master[s] != null && NamesHost(reply[i], master[s].host)
    {
      var es := Entries(reply);
      LastElementOwns(reply, s, i);
      OwnerCovers(es, s);
      MastersNamed(es);
      hide Owner, Masters, Entries, Spans, NamesHost;
      DescribesHost(es, Owner(es, s).value, nodes.at[Key(Owner(es, s).value)]);
    }

    /** `cluster_map_slots`. The entries before the first invalid one have taken effect even if it fails. */
    method MapSlots(reply: seq<ClusterReply>) returns (ok: bool)
      requires Valid()
      modifies this`nodes, this`world, master
      ensures Valid() && world >= old(world) && fresh(world - old(world))
      ensures ok <==> AllValid(reply)
      ensures Mapped(Effective(reply)) && Points(Effective(reply), nodes.at, old(master[..]), master[..])
      ensures fresh(nodes.at.Values)
      ensures ok ==> forall i, s | 0 <= i < |reply| && 0 <= s < SLOTS && Spans(reply[i], s)
                && (forall j | i < j < |reply| :: !Spans(reply[j], s)) ::
                master[s] != null && NamesHost(reply[i], master[s].host)
    {
      hide Owner, RangesOf, FirstOf, Describes, Masters, Names, Filed, Parse, Points, Spans, NamesHost;
      hide RedisCluster.Mapped, RedisCluster.Valid;
      CleanNodes();
      ghost var es := [];
      assert reply[..0] == [];
      for i := 0 to |reply|
        invariant i <= ValidCount(reply)
        invariant es == Entries(reply[..i])
        invariant Valid() && world >= old(world) && fresh(world - old(world))
        invariant Mapped(es) && Points(es, nodes.at, old(master[..]), master[..])
        invariant fresh(nodes.at.Values)
      {
        var e := Parse(reply[i]);
        if e.Nothing? {
          return false;
        }
        EntriesMore(reply, i);
        MapNext(old(master[..]), es, reply[i], e.value);
        es := es + [e.value];
      }
      EffectiveAll(reply);
      assert reply[..|reply|] == reply;
      forall i, s | 0 <= i < |reply| && 0 <= s < SLOTS && Spans(reply[i], s)
        && (forall j | i < j < |reply| :: !Spans(reply[j], s))
        ensures master[s] != null && NamesHost(reply[i], master[s].host)
      {
        ServedAsSent(reply, old(master[..]), i, s);
      }
      return true;
    }

    /** `cluster_map_keyspace`: the seeds are asked in turn, `answers` has the reply of each that gave one. */
    method MapKeyspace(answers: seq<Maybe<seq<ClusterReply>>>) returns (ok: bool)
      requires Valid()
      modifies this`nodes, this`world, master
      ensures Valid() && world >= old(world) && fresh(world - old(world))
      ensures ok <==> Usable(answers) < |answers|
      ensures ok ==> var es := Entries(answers[Usable(answers)].value);
                     && Mapped(es)
                     && Points(es, nodes.at, if Spoilt(answers, Usable(answers)) then Nulls() else old(master[..]),
                               master[..])
      ensures !ok && Spoilt(answers, |answers|) ==> master[..] == Nulls()
      ensures !ok && !Spoilt(answers, |answers|) ==>
                master[..] == old(master[..]) && nodes == old(nodes) && world == old(world)
    {
      hide Owner, RangesOf, FirstOf, Describes, Masters, Names, Filed, Entries, Parse, Points, RedisCluster.Mapped;
      var i := 0;
      while i < |answers|
        invariant i <= Usable(answers) && i <= |answers|
        invariant Valid() && world >= old(world) && fresh(world - old(world))
        invariant master[..] == if Spoilt(answers, i) then Nulls() else old(master[..])
        invariant !Spoilt(answers, i) ==> nodes == old(nodes) && world == old(world)
      {
        if answers[i].Just? {
          var mapped := MapSlots(answers[i].value);
          EffectiveAll(answers[i].value);
          if mapped {
            return true;
          }
          Clear();
        }
        i := i + 1;
      }
      return false;
    }

    method Clear()
      requires Valid()
      modifies master
      ensures Valid() && master[..] == Nulls()
    {
      var s := 0;
      while s < SLOTS
        invariant 0 <= s <= SLOTS && forall t | 0 <= t < s :: master[t] == null
        invariant forall t | s <= t < SLOTS :: master[t] == old(master[t])
      {
        master[s] := null;
        s := s + 1;
      }
    }

    // ---- redirections ----

    /** Which address serves each slot. */
    function Table(): (t: seq<Maybe<Host>>)
      requires master.Length == SLOTS
      reads master
      ensures |t| == SLOTS
    {
      seq(SLOTS, s requires 0 <= s < SLOTS reads master => if master[s] == null then Nothing else Just(master[s].host))
    }

    /** The announced master is a stranger: neither the owner of the slot nor filed. */
    ghost predicate Stranger()
      requires Valid() && redirSlot < SLOTS
      reads this`nodes, this`world, this`redirSlot, this`redirHost, master, world
    {
      master[redirSlot] != null && master[redirSlot].host != redirHost && Key(redirHost) !in nodes.at
    }

    /** A stranger that is a replica of the owner: a failover. */
    ghost predicate Failover()
      requires Valid() && redirSlot < SLOTS
      reads this`nodes, this`world, this`redirSlot, this`redirHost, master, world
    {
      Stranger() && redirHost in master[redirSlot].Addresses()
    }

    /** A stranger, and the owner has no replicas at all. */
    ghost predicate Incomplete()
      requires Valid() && redirSlot < SLOTS
      reads this`nodes, this`world, this`redirSlot, this`redirHost, master, world
    {
      Stranger() && master[redirSlot].slaves.Nothing?
    }

    /** `cluster_find_node`, for an address that is filed. */
    method Find(h: Host) returns (node: ClusterNode)
      requires Valid() && Key(h) in nodes.at
      ensures node == nodes.at[Key(h)] && node in world && node.host == h && node.Valid()
    {
      node := nodes.at[Key(h)];
      KeyInjective(node.host, h);
    }

    method File(node: ClusterNode)
      requires Valid() && node.Valid()
      modifies this`nodes, this`world
      ensures Valid() && world == old(world) + {node} && nodes == old(nodes).Put(Key(node.host), node)
    {
      FiledPut(nodes, world, node);
      hide Filed;
      nodes := nodes.Put(Key(node.host), node);
      world := world + {node};
    }

    lemma FailoverIsReplica()
      requires Valid() && redirSlot < SLOTS
      ensures Failover() ==> Replica(world, redirHost)
    {
    }

    static method IsReplica(prev: ClusterNode, h: Host) returns (found: bool)
      requires prev.Valid()
      ensures found <==> h in prev.Addresses()
    {
      var replicas := prev.Replicas();
      for i := 0 to |replicas|
        invariant h !in prev.Addresses()[..i]
      {
        if replicas[i].host == h {
          assert prev.Addresses()[i] == h;
          return true;
        }
        assert prev.Addresses()[..i + 1] == prev.Addresses()[..i] + [prev.Addresses()[i]];
      }
      assert prev.Addresses()[..|replicas|] == prev.Addresses();
      return false;
    }

    /** The slot gets this node, which is a master from now on. */
    method Adopt(node: ClusterNode)
      requires Valid() && redirSlot < SLOTS && node.host == redirHost && node.Valid()
      modifies this`world, master, node`slot, node`slave
      ensures Valid() && world == old(world) + {node} && node.slot == redirSlot && !node.slave
      ensures master[..] == old(master[..])[redirSlot := node]
      ensures Table() == old(Table())[redirSlot := Just(redirHost)]
      ensures node.slaves == old(node.slaves)
    {
      hide Filed;
      FiledMore(nodes, world, world + {node});
      world := world + {node};
      master[redirSlot] := node;
      node.slot := redirSlot;
      node.slave := false;
    }

    /** `cluster_update_slot`. The node made for a slot that nobody served is not filed. */
    method UpdateSlot(answers: seq<Maybe<seq<ClusterReply>>>) returns (ok: bool, remapped: bool)
      requires Valid() && redirSlot < SLOTS
      modifies this`nodes, this`world, master, world
      ensures Valid() && world >= old(world) && fresh(world - old(world))
      ensures remapped == old(Failover())
      ensures remapped ==> (ok <==> Usable(answers) < |answers|)
      ensures !remapped ==> (ok <==> !old(Incomplete()))
      ensures old(Incomplete()) ==> nodes == old(nodes) && master[..] == old(master[..]) && Incomplete()
      ensures !remapped && ok ==>
                && Table() == old(Table())[redirSlot := Just(redirHost)]
                && (forall s | 0 <= s < SLOTS && s != redirSlot :: master[s] == old(master[s]))
                && master[redirSlot] != null
                && (old(master[redirSlot] == null || master[redirSlot].host != redirHost) ==>
                      master[redirSlot].slot == redirSlot && !master[redirSlot].slave)
                && nodes == (if old(Stranger()) then old(nodes).Put(Key(redirHost), master[redirSlot]) else old(nodes))
      ensures !remapped ==> forall h | Replica(world, h) :: old(Replica(world, h))
    {
      hide Filed, Points, Spoilt, Nulls, Entries, Replica, RedisCluster.Mapped;
      var slot, key := redirSlot, Key(redirHost);
      var node: ClusterNode;
      if master[slot] != null {
        if master[slot].host == redirHost {
          return true, false;
        }
        if key in nodes.at {
          node := Find(redirHost);
        } else {
          var prev: ClusterNode := master[slot];
          if prev.slaves.Nothing? {
            return false, false;
          }
          var failover := IsReplica(prev, redirHost);
          if failover {
            ok := MapKeyspace(answers);
            return ok, true;
          }
          node := new ClusterNode(redirHost, slot, false);
          ReplicaAdd(world, node);
          File(node);
        }
      } else if key in nodes.at {
        node := Find(redirHost);
      } else {
        node := new ClusterNode(redirHost, slot, false);
      }
      ReplicaAdd(world, node);
      Adopt(node);
      return true, false;
    }

    /** `cluster_get_asking_node`: filed if unknown, but no slot points to it. */
    method AskingNode() returns (node: ClusterNode)
      requires Valid()
      modifies this`nodes, this`world
      ensures Valid() && world >= old(world) && fresh(world - old(world)) && node in world && node.host == redirHost
      ensures IsFiled(node)
      ensures forall h | Replica(world, h) :: old(Replica(world, h))
      ensures nodes == if Key(redirHost) in old(nodes.at) then old(nodes) else old(nodes).Put(Key(redirHost), node)
      ensures Key(redirHost) !in old(nodes.at) ==> fresh(node) && node.slot == redirSlot && !node.slave
    {
      hide Filed, Replica;
      if Key(redirHost) in nodes.at {
        node := Find(redirHost);
      } else {
        node := new ClusterNode(redirHost, redirSlot, false);
        ReplicaAdd(world, node);
        File(node);
      }
    }

    /** The redirection is taken up and the table learns it, unless a failover makes the client map it anew. */
    method Moved(slot: nat, to: nat, host: Host, answers: seq<Maybe<seq<ClusterReply>>>)
      returns (ok: bool, remapped: bool)
      requires Valid() && slot < SLOTS && to < SLOTS
      modifies this, master, world
      ensures Valid() && world >= old(world) && fresh(world - old(world))
      ensures redirType == RedirMoved && redirSlot == to && (ok ==> cmdSock == master[slot])
      ensures !remapped && !ok ==> Incomplete()
      ensures !remapped && ok ==> Table() == old(Table())[to := Just(host)]
      ensures !remapped && !ok ==> Table() == old(Table())
      ensures Kept(old(nodes.at), nodes.at) || remapped
      ensures remapped ==> old(Replica(world, host))
      ensures !remapped ==> forall h | Replica(world, h) :: old(Replica(world, h))
    {
      hide Filed, Replica, RedisCluster.Failover, RedisCluster.Incomplete;
      redirType, redirSlot, redirHost := RedirMoved, to, host;
      FailoverIsReplica();
      ok, remapped := UpdateSlot(answers);
      cmdSock := master[slot];
    }

    method Asked(to: nat, host: Host)
      requires Valid() && to < SLOTS
      modifies this
      ensures Valid() && world >= old(world) && fresh(world - old(world))
      ensures cmdSock != null && cmdSock.host == host && IsFiled(cmdSock) && redirType == RedirAsk
      ensures Kept(old(nodes.at), nodes.at)
      ensures forall h | Replica(world, h) :: old(Replica(world, h))
    {
      hide Filed, Replica;
      redirType, redirSlot, redirHost := RedirAsk, to, host;
      cmdSock := AskingNode();
    }

    /** One round of the request loop, after a node took the command. */
    method Round(slot: nat, hop: Hop, multi: bool, ghost hops: seq<Hop>) returns (v: Verdict, failover: bool)
      requires hop in hops
      requires Valid() && slot < SLOTS && cmdSock != null && (IsRedirect(hop) ==> hop.slot < SLOTS)
      modifies this, master, world
      ensures Valid() && world >= old(world) && fresh(world - old(world))
      ensures v.Over? ==> (v.r == 0 || v.r == -1) && (v.r == 0 <==> hop == Answered(false))
      ensures !v.Over? ==> IsRedirect(hop) && !multi
      ensures v.Follow? ==> !hop.late && cmdSock != null
      ensures v.TooLate? && !failover && old(Table()[slot]).Just? ==> hop.late
      ensures v.Over? && hop.MovedTo? && !multi && !failover ==> redirSlot < SLOTS && Incomplete()
      ensures redirType == FlagAfter(hop, v, old(redirType))
      ensures !failover ==> Table() == if v.Over? then old(Table()) else Learnt(old(Table()), hop)
      ensures !failover && v.Follow? ==>
                if hop.MovedTo? then Just(cmdSock.host) == Table()[slot] else cmdSock.host == hop.host
      ensures !failover ==> Kept(old(nodes.at), nodes.at) && (Foreseen(hops, world) ==> old(Foreseen(hops, world)))
      ensures failover ==> old(Foreseen(hops, world))
    {
      hide Filed, Replica, RedisCluster.Incomplete;
      failover := false;
      match hop
      case Garbled => v := Over(-1);
      case Answered(down) =>
        if down {
          v := Over(-1);
        } else {
          redirType := RedirNone;
          v := Over(0);
        }
      case MovedTo(to, host, answers, late) =>
        if multi {
          redirType, redirSlot, redirHost := RedirMoved, to, host;
          v := Over(-1);
        } else {
          var ok;
          ok, failover := Moved(slot, to, host, answers);
          assert ok && !failover && old(Table()[slot]).Just? ==> Table()[slot].Just?;
          v := if !ok then Over(-1) else if cmdSock == null || late then TooLate else Follow;
        }
      case AskTo(to, host, late) =>
        if multi {
          redirType, redirSlot, redirHost := RedirAsk, to, host;
          v := Over(-1);
        } else {
          Asked(to, host);
          v := if late then TooLate else Follow;
        }
    }

    /** The node the next round starts with. */
    function Standing(): Attempt
      requires cmdSock != null
      reads this
    {
      Attempt(cmdSock.host, redirType == RedirAsk)
    }

    /** A request that goes on after `followed` redirections. */
    ghost predicate Going(
        q: Request, followed: nat, sent: seq<Effort>, remapped: bool, filed: map<string, ClusterNode>, foreseen: bool)
      requires q.Sound() && master.Length == SLOTS
      reads this, master, world
    {
      && cmdSock != null && q.InTime(followed, sent)
      && (redirType == RedirAsk <==> AskFlag(q.asking, q.hops, followed))
      && (remapped ==> foreseen)
      && (!remapped ==>
            && q.Course(followed, sent, Table(), Standing())
            && Kept(filed, nodes.at)
            && (Foreseen(q.hops, world) ==> foreseen))
    }

    /** A request that is over. Without a remap, the last redirection was followed only if it came late, and a timely
        MOVED outside MULTI was not followed only for want of replicas to judge it by. */
    ghost predicate Gone(
        q: Request, r: int, followed: nat, sent: seq<Effort>, remapped: bool, filed: map<string, ClusterNode>,
        foreseen: bool)
      requires q.Sound() && Valid()
      reads this, master, world
    {
      && q.Ends(r, followed, sent, redirType)
      && (remapped ==> foreseen)
      && (!remapped ==>
            && q.Told(followed, sent, Table())
            && Kept(filed, nodes.at)
            && (followed == |sent| ==> q.hops[followed - 1].late)
            && (followed < q.Heard(sent) && q.hops[followed].MovedTo? && !q.multi ==>
                  redirSlot < SLOTS && Incomplete()))
    }

    lemma GoingStarts(q: Request)
      requires Valid() && q.Sound() && cmdSock != null && Table() == q.t && q.t[q.slot] == Just(cmdSock.host)
      requires q.asking == (redirType == RedirAsk)
      ensures Going(q, 0, [], false, nodes.at, Foreseen(q.hops, world))
    {
      q.CourseStarts(Standing());
      KeptSame(nodes.at);
    }

    /** A request whose command has just been delivered, or not, as `e` says. */
    ghost predicate Delivered(
        q: Request, followed: nat, sent: seq<Effort>, remapped: bool, filed: map<string, ClusterNode>, foreseen: bool,
        next: Attempt, e: Effort)
      requires q.Sound() && master.Length == SLOTS
      reads this, master, world
    {
      && cmdSock != null && q.InTime(followed, sent)
      && (redirType == RedirAsk <==> AskFlag(q.asking, q.hops, followed))
      && (remapped ==> foreseen)
      && (!remapped ==>
            && q.Course(followed, sent, Table(), next) && Fits(next, e, q.direct)
            && Kept(filed, nodes.at)
            && (Foreseen(q.hops, world) ==> foreseen))
    }

    /** No node took the command, or no answer is left: the one to come is lost. */
    lemma GoneUnheard(
        q: Request, followed: nat, sent: seq<Effort>, remapped: bool, filed: map<string, ClusterNode>, foreseen: bool,
        next: Attempt, e: Effort)
      requires Valid() && q.Sound() && Delivered(q, followed, sent, remapped, filed, foreseen, next, e)
      requires !e.took || followed == |q.hops|
      ensures Gone(q, -1, followed, sent + [e], remapped, filed, foreseen)
    {
      hide Fold, AttemptAt, AskFlag, Fits, Request.Ends, Request.InTime, Request.Course, Request.Told;
      q.EndsNow(-1, followed, sent, e, redirType);
      if !remapped {
        q.CourseTold(followed, sent, Table(), next, e);
      }
    }

    /** The flag after an answer. */
    function FlagAfter(hop: Hop, v: Verdict, before: RedirType): RedirType {
      if IsRedirect(hop) then (if hop.AskTo? then RedirAsk else RedirMoved)
      else if v == Over(0) then RedirNone else before
    }

    lemma ThenGoing(
        q: Request, followed: nat, sent: seq<Effort>, remapped: bool, filed: map<string, ClusterNode>, foreseen: bool,
        table: seq<Maybe<Host>>, next: Attempt, e: Effort)
      requires q.Sound() && master.Length == SLOTS && cmdSock != null
      requires q.InTime(followed, sent) && e.took && followed < |q.hops|
      requires var hop := q.hops[followed];
               IsRedirect(hop) && !hop.late && !q.multi && redirType == (if hop.AskTo? then RedirAsk else RedirMoved)
      requires remapped ==> foreseen
      requires !remapped ==>
                 var hop := q.hops[followed];
                 && q.Course(followed, sent, table, next) && Fits(next, e, q.direct)
                 && Table() == Learnt(table, hop)
                 && (if hop.MovedTo? then Just(cmdSock.host) == Table()[q.slot] else cmdSock.host == hop.host)
                 && Kept(filed, nodes.at) && (Foreseen(q.hops, world) ==> foreseen)
      ensures Going(q, followed + 1, sent + [e], remapped, filed, foreseen)
    {
      hide Fold, AttemptAt, AskFlag, Fits, Kept, Foreseen, Learnt, RedisCluster.Table;
      hide Request.Ends, Request.InTime, Request.Course;
      FlagNext(q.asking, q.hops, followed);
      q.EndsLate(followed, sent, e, redirType);
      if !remapped {
        q.CourseMore(followed, sent, table, next, e);
      }
    }

    lemma ThenGone(
        q: Request, v: Verdict, followed: nat, sent: seq<Effort>, remapped: bool, filed: map<string, ClusterNode>,
        foreseen: bool, table: seq<Maybe<Host>>, next: Attempt, e: Effort, before: RedirType)
      requires Valid() && q.Sound() && !v.Follow? && q.InTime(followed, sent) && e.took && followed < |q.hops|
      requires before == RedirAsk <==> AskFlag(q.asking, q.hops, followed)
      requires redirType == FlagAfter(q.hops[followed], v, before)
      requires var hop := q.hops[followed];
               if v.Over? then (v.r == 0 || v.r == -1) && (v.r == 0 <==> hop == Answered(false))
               else IsRedirect(hop) && !q.multi
      requires remapped ==> foreseen
      requires !remapped ==>
                 var hop := q.hops[followed];
                 && q.Course(followed, sent, table, next) && Fits(next, e, q.direct)
                 && Table() == (if v.Over? then table else Learnt(table, hop))
                 && Kept(filed, nodes.at)
                 && (v.TooLate? ==> hop.late)
                 && (v.Over? && hop.MovedTo? && !q.multi ==> redirSlot < SLOTS && Incomplete())
      ensures Gone(q, Result(v), if v.Over? then followed else followed + 1, sent + [e], remapped, filed, foreseen)
    {
      hide Fold, AttemptAt, AskFlag, Fits, Kept, Foreseen, Learnt, RedisCluster.Table, RedisCluster.Incomplete;
      hide Request.Ends, Request.InTime, Request.Course, Request.Told;
      FlagNext(q.asking, q.hops, followed);
      if v.Over? {
        q.EndsNow(v.r, followed, sent, e, redirType);
      } else {
        q.EndsLate(followed, sent, e, redirType);
      }
      if !remapped {
        q.CourseTold(followed, sent, table, next, e);
      }
    }

    /** The answer to a delivered command. */
    method Heed(hops: seq<Hop>, slot: nat, multi: bool, followed: nat, sent: seq<Effort>, remapped: bool, e: Effort,
                ghost q: Request, ghost filed: map<string, ClusterNode>, ghost foreseen: bool, ghost next: Attempt)
      returns (v: Verdict, remapped': bool)
      requires Valid() && q.Sound() && q.hops == hops && q.slot == slot && q.multi == multi
      requires Delivered(q, followed, sent, remapped, filed, foreseen, next, e) && e.took && followed < |hops|
      modifies this, master, world
      ensures Valid() && world >= old(world) && fresh(world - old(world))
      ensures v.Follow? ==> Going(q, followed + 1, sent + [e], remapped', filed, foreseen)
      ensures !v.Follow? ==>
                Gone(q, Result(v), if v.Over? then followed else followed + 1, sent + [e], remapped', filed, foreseen)
    {
      ghost var table, at, before := Table(), nodes.at, redirType;
      assert master.Length == SLOTS;
      hide Filed, Fold, AttemptAt, AskFlag, Kept, Foreseen, Learnt, Fits;
      hide Request.Ends, Request.InTime, Request.Course, Request.Told, RedisCluster.Table, RedisCluster.Incomplete;
      if !remapped {
        q.CourseTold(followed, sent, table, next, e);
      }
      var failover;
      v, failover := Round(slot, hops[followed], multi, hops);
      remapped' := remapped || failover;
      if !remapped' {
        KeptTrans(filed, at, nodes.at);
      }
      hide RedisCluster.Gone, RedisCluster.Going;
      if v.Follow? {
        ThenGoing(q, followed, sent, remapped', filed, foreseen, table, next, e);
      } else {
        ThenGone(q, v, followed, sent, remapped', filed, foreseen, table, next, e, before);
      }
    }

    /** One turn of the request loop. */
    method Turn(hops: seq<Hop>, slot: nat, multi: bool, routing: Routing, followed: nat, sent: seq<Effort>,
                remapped: bool, ghost q: Request, ghost filed: map<string, ClusterNode>, ghost foreseen: bool)
      returns (v: Verdict, followed': nat, sent': seq<Effort>, remapped': bool)
      requires Valid() && q.Sound()
      requires q.hops == hops && q.slot == slot && q.multi == multi && q.direct == Direct(routing)
      requires followed <= |hops| && Going(q, followed, sent, remapped, filed, foreseen)
      modifies this, master, world
      ensures Valid() && world >= old(world) && fresh(world - old(world))
      ensures v.Follow? ==> Going(q, followed', sent', remapped', filed, foreseen)
      ensures followed <= followed' <= |hops| && (v.Follow? ==> followed < followed')
      ensures !v.Follow? ==> Gone(q, Result(v), followed', sent', remapped', filed, foreseen)
    {
      hide Filed, Fold, AttemptAt, AskFlag, Kept, Foreseen, Learnt, Fits;
      hide Request.Ends, Request.InTime, Request.Course, Request.Told, RedisCluster.Table, RedisCluster.Incomplete;
      ghost var next := Standing();
      var e := SockWrite(routing);
      sent', remapped', followed' := sent + [e], remapped, followed;
      assert Delivered(q, followed, sent, remapped, filed, foreseen, next, e);
      hide RedisCluster.Delivered, RedisCluster.Going, RedisCluster.Gone;
      if !e.took || followed == |hops| {
        GoneUnheard(q, followed, sent, remapped, filed, foreseen, next, e);
        v := Over(-1);
        return;
      }
      v, remapped' := Heed(hops, slot, multi, followed, sent, remapped, e, q, filed, foreseen, next);
      followed' := if v.Over? then followed else followed + 1;
    }

    /** The request loop. */
    method Pursue(hops: seq<Hop>, slot: nat, multi: bool, routing: Routing, ghost q: Request)
      returns (r: int, sent: seq<Effort>, followed: nat, remapped: bool)
      requires Valid() && q.Sound()
      requires q.hops == hops && q.slot == slot && q.multi == multi && q.direct == Direct(routing)
      requires cmdSock != null && Table() == q.t && q.t[slot] == Just(cmdSock.host)
      requires q.asking == (redirType == RedirAsk)
      modifies this, master, world
      ensures Valid() && world >= old(world) && fresh(world - old(world))
      ensures Gone(q, r, followed, sent, remapped, old(nodes.at), old(Foreseen(hops, world)))
    {
      ghost var filed, foreseen := nodes.at, Foreseen(hops, world);
      sent, followed, remapped := [], 0, false;
      GoingStarts(q);
      assert master.Length == SLOTS;
      hide RedisCluster.Going, RedisCluster.Gone, Foreseen, RedisCluster.Table, Filed;
      var v := Follow;
      while v.Follow?
        invariant Valid() && world >= old(world) && fresh(world - old(world)) && followed <= |hops|
        invariant v.Follow? ==> Going(q, followed, sent, remapped, filed, foreseen)
        invariant !v.Follow? ==> Gone(q, Result(v), followed, sent, remapped, filed, foreseen)
        decreases |hops| - followed, v.Follow?
      {
        v, followed, sent, remapped :=
          Turn(hops, slot, multi, routing, followed, sent, remapped, q, filed, foreseen);
      }
      r := Result(v);
    }

    /** `cluster_send_command`. `hops` are the answers of the nodes that take the command, `sent` says for each round
        who was tried, `followed` counts the redirections that took effect; `remapped` says that a failover made the
        client map the cluster again. */
    method SendCommand(slot: nat, hops: seq<Hop>, multi: bool, readonly: bool, failover: Routing)
      returns (r: int, sent: seq<Effort>, followed: nat, remapped: bool)
      requires Valid() && slot < SLOTS && forall h | h in hops :: IsRedirect(h) ==> h.slot < SLOTS
      modifies this, master, world
      ensures Valid() && world >= old(world) && fresh(world - old(world))
      ensures old(master[slot]) == null ==>
                && r == -1 && sent == [] && followed == 0 && !remapped && redirType == old(redirType)
                && master[..] == old(master[..]) && nodes == old(nodes)
      ensures old(master[slot]) != null ==>
                var q := Request(old(Table()), slot, old(redirType == RedirAsk), hops, multi,
                                 Direct(RoutingOf(readonly, failover)));
                q.Sound() && Gone(q, r, followed, sent, remapped, old(nodes.at), old(Foreseen(hops, world)))
    {
      if master[slot] == null {
        return -1, [], 0, false;
      }
      hide Filed, Foreseen, RedisCluster.Gone;
      cmdSlot, cmdSock := slot, master[slot];
      var routing := RoutingOf(readonly, failover);
      ghost var q := Request(Table(), slot, redirType == RedirAsk, hops, multi, Direct(routing));
      r, sent, followed, remapped := Pursue(hops, slot, multi, routing, q);
    }

    // ---- delivery ----

    /** Who may take a command that is distributed. */
    ghost function Shard(routing: Routing): seq<Host>
      requires Valid() && cmdSlot < SLOTS && master[cmdSlot] != null
      reads this`cmdSlot, this`nodes, this`world, master, world
    {
      (if routing.Distribute? then [master[cmdSlot].host] else []) + master[cmdSlot].Addresses()
    }

    lemma InShard(routing: Routing, i: int)
      requires Valid() && Served() && 0 <= i <= |master[cmdSlot].Replicas()| && (i == 0 ==> routing.Distribute?)
      ensures SlotSock(cmdSlot, i) != null && SlotSock(cmdSlot, i).host in Shard(routing)
    {
      if i > 0 {
        assert master[cmdSlot].Addresses()[i - 1] == SlotSock(cmdSlot, i).host;
      }
    }

    lemma PlaceInShard(routing: Routing, h: Host) returns (i: int)
      requires Valid() && Served() && h in Shard(routing)
      ensures 0 <= i <= |master[cmdSlot].Replicas()| && (i == 0 ==> routing.Distribute?)
      ensures SlotSock(cmdSlot, i) != null && SlotSock(cmdSlot, i).host == h
    {
      if routing.Distribute? && h == master[cmdSlot].host {
        i := 0;
      } else {
        var j :| 0 <= j < |master[cmdSlot].Addresses()| && master[cmdSlot].Addresses()[j] == h;
        i := j + 1;
      }
    }

    lemma ShardSize(routing: Routing)
      requires Valid() && Served()
      ensures |Shard(routing)| == |master[cmdSlot].Replicas()| + if routing.Distribute? then 1 else 0
    {
    }

    /** The slot of the command has a master. */
    predicate Served()
      requires master.Length == SLOTS
      reads this`cmdSlot, master
    {
      cmdSlot < SLOTS && master[cmdSlot] != null
    }

    /** All filed masters but this one are among these. */
    ghost predicate OthersIn(own: ClusterNode, tried: seq<Host>)
      reads this`nodes, nodes.at.Values
    {
      forall k | k in nodes.keys && k in nodes.at && nodes.at[k] != own && !nodes.at[k].slave ::
        nodes.at[k].host in tried
    }

    predicate IsFiled(node: ClusterNode)
      reads this`nodes
    {
      Key(node.host) in nodes.at && nodes.at[Key(node.host)] == node
    }

    /** The node of the command, as after ASK, is filed and none of those the command is distributed to. */
    ghost predicate Elsewhere(routing: Routing)
      requires Valid() && cmdSock != null
      reads this, master, world
    {
      IsFiled(cmdSock) && (Served() ==> cmdSock.host !in Shard(routing))
    }

    /** `cluster_sock_write`: the node of the command or, if the command is distributed, a random one of its shard;
        then any other node. A distributed command leaves the node that was sent ASKING alone. */
    method SockWrite(routing: Routing) returns (e: Effort)
      requires Valid() && cmdSock != null
      modifies this`cmdSlot, this`cmdSock
      ensures Valid() && cmdSock != null
      ensures Fits(old(Standing()), e, Direct(routing))
      ensures e.took ==> cmdSock.host == Last(e.tried)
      ensures Direct(routing) ==> Honours(e)
      ensures !e.took && !e.barred ==>
                && OthersIn(old(cmdSock), e.tried)
                && (!routing.MasterOnly? && old(Served()) ==> forall h | h in old(Shard(routing)) :: h in e.tried)
      ensures !Direct(routing) && old(Served()) && old(Shard(routing)) != [] && !e.barred ==>
                e.tried != [] && e.tried[0] in old(Shard(routing))
      ensures old(Standing().asking && Elsewhere(routing)) && !e.barred ==> (Honours(e) <==> Direct(routing))
    {
      hide Filed, RedisCluster.Shard;
      var asked := if redirType == RedirAsk then Just(cmdSock.host) else Nothing;
      if asked.Just? {
        var ok: bool := *;
        if !ok {
          return Effort(asked, true, [], false);
        }
      }
      var took, tried := Offer(routing);
      return Effort(asked, false, tried, took);
    }

    /** The command itself, after ASKING if that had to be sent. */
    method Offer(routing: Routing) returns (took: bool, tried: seq<Host>)
      requires Valid() && cmdSock != null
      modifies this`cmdSlot, this`cmdSock
      ensures Valid() && cmdSock != null
      ensures took ==> tried != [] && cmdSock.host == Last(tried)
      ensures Direct(routing) ==> tried != [] && tried[0] == old(cmdSock.host)
      ensures !Direct(routing) && old(Served()) && old(Shard(routing)) != [] ==>
                tried != [] && tried[0] in old(Shard(routing))
      ensures !Direct(routing) && old(Elsewhere(routing)) ==> tried == [] || tried[0] != old(cmdSock.host)
      ensures !took ==>
                && OthersIn(old(cmdSock), tried)
                && (!routing.MasterOnly? && old(Served()) ==> forall h | h in old(Shard(routing)) :: h in tried)
    {
      hide Filed, RedisCluster.Shard;
      var own := cmdSock;
      tried, took := [], false;
      if Direct(routing) {
        tried := [own.host];
        took := *;
      }
      if !took && !routing.MasterOnly? && Served() {
        var more;
        took, more := Distributed(routing);
        tried := tried + more;
      }
      if !took {
        var more;
        took, more := FallBack(own);
        tried := tried + more;
      }
    }

    /** The call of `cluster_dist_write`; chance decides who takes the command. */
    method Distributed(routing: Routing) returns (took: bool, tried: seq<Host>)
      requires Valid() && Served() && cmdSock != null && !routing.MasterOnly?
      modifies this`cmdSock
      ensures Valid() && cmdSock != null && (!took ==> cmdSock == old(cmdSock))
      ensures took ==> tried != [] && cmdSock.host == Last(tried)
      ensures old(Shard(routing)) != [] ==> tried != []
      ensures tried != [] ==> tried[0] in old(Shard(routing))
      ensures !took ==> forall h | h in old(Shard(routing)) :: h in tried
    {
      hide Filed, Shuffled, Sought, RedisCluster.SlotSock, RedisCluster.Shard;
      var count := NodeCount();
      var draws := Random(count);
      var takes := Outcomes(count);
      var indices;
      took, indices := DistWrite(!routing.Distribute?, draws, takes);
      SoughtAre(count, draws, !routing.Distribute?);
      tried := HostsAt(indices);
      if tried != [] {
        assert indices[0] in Sought(Shuffled(Identity(count), count, draws), !routing.Distribute?);
        InShard(routing, indices[0]);
      }
      ShardSize(routing);
      if !took {
        forall h | h in old(Shard(routing)) ensures h in tried {
          var i := PlaceInShard(routing, h);
          assert i in indices;
          var j :| 0 <= j < |indices| && indices[j] == i;
          assert tried[j] == h;
        }
      }
    }

    /** The addresses of nodes of the shard. */
    method HostsAt(indices: seq<int>) returns (hosts: seq<Host>)
      requires Valid() && Served() && forall i | 0 <= i < |indices| :: SlotSock(cmdSlot, indices[i]) != null
      ensures |hosts| == |indices| && forall i | 0 <= i < |hosts| :: hosts[i] == SlotSock(cmdSlot, indices[i]).host
    {
      hide Filed, RedisCluster.SlotSock;
      hosts := [];
      for i := 0 to |indices|
        invariant |hosts| == i && forall j | 0 <= j < i :: hosts[j] == SlotSock(cmdSlot, indices[j]).host
      {
        hosts := hosts + [SlotSock(cmdSlot, indices[i]).host];
      }
    }

    /** The rest of `cluster_sock_write`: every filed master but the one that failed. */
    method FallBack(own: ClusterNode) returns (took: bool, tried: seq<Host>)
      requires Valid()
      modifies this`cmdSlot, this`cmdSock
      ensures Valid()
      ensures took ==> tried != [] && cmdSock != null && cmdSock.host == Last(tried)
      ensures !took ==> cmdSock == old(cmdSock) && cmdSlot == old(cmdSlot)
      ensures IsFiled(own) ==> own.host !in tried
      ensures !took ==> OthersIn(own, tried)
    {
      tried := [];
      for i := 0 to |nodes.keys|
        invariant IsFiled(own) ==> own.host !in tried
        invariant forall j | 0 <= j < i ::
                    var node := nodes.at[nodes.keys[j]];
                    node != own && !node.slave ==> node.host in tried
      {
        var node := nodes.at[nodes.keys[i]];
        if node == own || node.slave {
          continue;
        }
        tried := tried + [node.host];
        took := *;
        if took {
          cmdSlot, cmdSock := node.slot, node;
          return;
        }
      }
      took := false;
    }

    // ---- replicas ----

    /** `cluster_slot_sock`: the master for 0, else the replica with this index. */
    function SlotSock(slot: nat, i: int): (n: ClusterNode?)
      requires Valid() && slot < SLOTS && master[slot] != null
      reads this`nodes, this`world, master, world
      ensures i == 0 ==> n == master[slot]
      ensures 1 <= i <= |master[slot].Replicas()| ==> n == master[slot].Replicas()[i - 1]
      ensures n == null <==> i < 0 || i > |master[slot].Replicas()|
    {
      if i == 0 then master[slot]
      else if master[slot].slaves.Nothing? || i < 0 || i !in master[slot].slaves.value.at then null
      else master[slot].slaves.value.at[i]
    }

    /** The master of the slot of the command and its replicas. */
    method NodeCount() returns (count: nat)
      requires Valid() && cmdSlot < SLOTS && master[cmdSlot] != null
      ensures count == |master[cmdSlot].Replicas()| + 1
    {
      count := 1;
      if master[cmdSlot].slaves.Just? {
        master[cmdSlot].slaves.value.Count();
        count := count + |master[cmdSlot].slaves.value.at|;
      }
    }

    /** `cluster_dist_write`. `takes[i]` says whether node i would take the whole payload; `tried` are the indices
        tried, in order. */
    method DistWrite(nomaster: bool, draws: seq<nat>, takes: seq<bool>) returns (ok: bool, tried: seq<int>)
      requires Valid() && cmdSlot < SLOTS && master[cmdSlot] != null
      requires |takes| == |master[cmdSlot].Replicas()| + 1 && Draws(draws, |takes|)
      modifies this`cmdSock
      ensures Valid()
      ensures var sought := Sought(Shuffled(Identity(|takes|), |takes|, draws), nomaster);
              OneTook(sought, takes, ok, tried)
      ensures !ok ==> cmdSock == old(cmdSock)
      ensures ok ==> tried != [] && cmdSock == SlotSock(cmdSlot, Last(tried))
    {
      hide Shuffled, Sought, Filed, RedisCluster.SlotSock;
      var count := NodeCount();
      var order := RandomOrder(count, draws);
      ghost var shuffled := order[..];
      tried := [];
      assert Sought(shuffled[..0], nomaster) == [] by {
        SoughtNext(shuffled, 0, nomaster);
      }
      for i := 0 to count
        invariant order[..] == shuffled
        invariant tried == Sought(shuffled[..i], nomaster)
        invariant forall j | 0 <= j < |tried| :: 0 <= tried[j] < count && !takes[tried[j]]
        invariant cmdSock == old(cmdSock)
      {
        SoughtNext(shuffled, i, nomaster);
        SoughtPrefix(shuffled, i + 1, nomaster);
        assert order[i] == shuffled[i];
        if nomaster && order[i] == 0 {
          continue;
        }
        var sock := SlotSock(cmdSlot, order[i]);
        tried := tried + [order[i]];
        if takes[order[i]] {
          cmdSock := sock;
          return true, tried;
        }
      }
      assert shuffled[..count] == shuffled;
      return false, tried;
    }
  }

  /** Nodes are tried as sought, up to the first that takes the payload; without one, all of them in vain. */
  ghost predicate OneTook(sought: seq<int>, takes: seq<bool>, ok: bool, tried: seq<int>) {
    && tried <= sought
    && (!ok ==> tried == sought)
    && (ok ==> tried != [])
    && forall i | 0 <= i < |tried| :: 0 <= tried[i] < |takes| && (takes[tried[i]] <==> ok && i == |tried| - 1)
  }

  /** `rand()` */
  method Random(n: nat) returns (draws: seq<nat>)
    ensures Draws(draws, n)
  {
    draws := [];
    for i := 0 to n + 1
      invariant |draws| == i && forall k | 1 < k < i :: draws[k] < k
    {
      var r: int := *;
      draws := draws + [if 0 <= r < i then r else 0];
    }
  }

  /** Who of n nodes is alive, connects and takes the whole command. */
  method Outcomes(n: nat) returns (takes: seq<bool>)
    ensures |takes| == n
  {
    takes := [];
    for i := 0 to n
      invariant |takes| == i
    {
      var ok: bool := *;
      takes := takes + [ok];
    }
  }

  method RandomOrder(n: nat, draws: seq<nat>) returns (order: array<int>)
    requires Draws(draws, n)
    ensures fresh(order) && order.Length == n && order[..] == Shuffled(Identity(n), n, draws)
    ensures forall i | 0 <= i < n :: 0 <= order[i] < n
  {
    order := new int[n](i => i);
    assert order[..] == Identity(n);
    FyShuffle(order, draws);
    PermutesMembers(order[..], n);
    forall i | 0 <= i < n ensures 0 <= order[i] < n {
      assert order[..][i] in order[..];
    }
  }

  lemma SoughtNext(order: seq<int>, i: nat, nomaster: bool)
    requires i <= |order|
    ensures i == 0 ==> Sought(order[..i], nomaster) == []
    ensures i < |order| ==>
              Sought(order[..i + 1], nomaster)
              == Sought(order[..i], nomaster) + if nomaster && order[i] == 0 then [] else [order[i]]
  {
    if i < |order| {
      assert Init(order[..i + 1]) == order[..i];
    }
  }

  /** The indices worth trying. */
  function Sought(order: seq<int>, nomaster: bool): seq<int> {
    if order == [] then []
    else
      var init := Sought(Init(order), nomaster);
      if nomaster && Last(order) == 0 then init else init + [Last(order)]
  }

  lemma {:induction false} SoughtPrefix(order: seq<int>, i: nat, nomaster: bool)
    requires i <= |order|
    ensures Sought(order[..i], nomaster) <= Sought(order, nomaster)
    decreases |order| - i
  {
    if i < |order| {
      SoughtPrefix(order, i + 1, nomaster);
      assert Init(order[..i + 1]) == order[..i];
    } else {
      assert order[..i] == order;
    }
  }

  /** Each eligible node is sought once: every replica, and the master unless excluded. */
  lemma {:induction false} SoughtOnce(order: seq<int>, nomaster: bool, x: int)
    ensures multiset(Sought(order, nomaster))[x] == if nomaster && x == 0 then 0 else multiset(order)[x]
  {
    if order != [] {
      SoughtOnce(Init(order), nomaster, x);
      assert order == Init(order) + [Last(order)];
    }
  }

  lemma EveryNodeOnce(n: nat, draws: seq<nat>, nomaster: bool, x: int)
    requires Draws(draws, n)
    ensures multiset(Sought(Shuffled(Identity(n), n, draws), nomaster))[x]
         == if 0 <= x < n && !(nomaster && x == 0) then 1 else 0
  {
    SoughtOnce(Shuffled(Identity(n), n, draws), nomaster, x);
    IdentityOnce(n, x);
  }

  /** What is sought: the eligible indices, and no others. */
  lemma SoughtAre(n: nat, draws: seq<nat>, nomaster: bool)
    requires Draws(draws, n)
    ensures var sought := Sought(Shuffled(Identity(n), n, draws), nomaster);
            && (forall i | i in sought :: 0 <= i < n && !(nomaster && i == 0))
            && (n > (if nomaster then 1 else 0) ==> sought != [])
            && (forall i | 0 <= i < n && !(nomaster && i == 0) :: i in sought)
  {
    var sought := Sought(Shuffled(Identity(n), n, draws), nomaster);
    forall i | i in sought ensures 0 <= i < n && !(nomaster && i == 0) {
      EveryNodeOnce(n, draws, nomaster, i);
    }
    forall i | 0 <= i < n && !(nomaster && i == 0) ensures i in sought {
      EveryNodeOnce(n, draws, nomaster, i);
    }
    if n > (if nomaster then 1 else 0) {
      assert n - 1 in sought;
    }
  }
}
