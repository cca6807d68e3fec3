/** What a CLUSTER SLOTS reply means, and what a slot cache made of that means. */
module SlotMap {
  import opened Options
  import opened ClusterNodes
  import opened ReplyTrees
  import opened Shuffle

  /** A valid element of the reply: a slot range, its master and the master's usable replicas. */
  datatype Entry = Entry(range: SlotRange, host: Host, replicas: seq<Host>)

  /** `cluster_validate_slots_outer` */
  predicate ValidOuter(r: ClusterReply) {
    r.ReplyMulti? && |r.element| >= 3 && r.element[0].ReplyInt? && r.element[1].ReplyInt?
  }

  /** `cluster_validate_slots_inner` */
  predicate ValidInner(r: ClusterReply) {
    && r.ReplyMulti? && |r.element| >= 2
    && r.element[0].ReplyBulk? && r.element[0].str.Just? && r.element[0].str.value != "" && r.element[1].ReplyInt?
  }

  /** Negative integers of the reply are huge here. */
  predicate ValidRange(low: nat, high: nat) {
    low <= high && low < SLOTS && high < SLOTS
  }

  predicate ValidPort(port: nat) {
    port <= 65535
  }

  predicate ValidHost(addr: string) {
    0 < |addr| < HOST_BUFFER && '\0' !in addr
  }

  function ParseHost(r: ClusterReply): (h: Maybe<Host>) {
    if ValidInner(r) && ValidPort(r.element[1].integer) && ValidHost(r.element[0].str.value)
    then Just(Host(r.element[0].str.value, r.element[1].integer))
    else Nothing
  }

  function ParseHosts(rs: seq<ClusterReply>): seq<Host> {
    if rs == [] then []
    else
      var init, h := ParseHosts(rs[..|rs| - 1]), ParseHost(rs[|rs| - 1]);
      if h.Just? then init + [h.value] else init
  }

  function Parse(r: ClusterReply): Maybe<Entry> {
    if !ValidOuter(r) || ParseHost(r.element[2]).Nothing? || !ValidRange(r.element[0].integer, r.element[1].integer)
    then Nothing
    else Just(Entry(SlotRange(r.element[0].integer, r.element[1].integer), ParseHost(r.element[2]).value,
                    ParseHosts(r.element[3..])))
  }

  predicate AllValid(rs: seq<ClusterReply>) {
    forall r | r in rs :: Parse(r).Just?
  }

  function Entries(rs: seq<ClusterReply>): (es: seq<Entry>)
    requires AllValid(rs)
  {
    if rs == [] then [] else Entries(rs[..|rs| - 1]) + [Parse(rs[|rs| - 1]).value]
  }

  // ---- what a server sends ----

  /** A node in a reply: address, port, and whatever newer servers add. */
  function HostReply(h: Host, more: seq<ClusterReply>): (r: ClusterReply)
    ensures r.ReplyMulti? && r.elements == |r.element|
  {
    ReplyMulti(2 + |more|, [ReplyBulk(|h.addr|, Just(h.addr)), ReplyInt(h.port)] + more)
  }

  function HostReplies(hs: seq<Host>, more: seq<ClusterReply>): (rs: seq<ClusterReply>)
    ensures |rs| == |hs|
  {
    seq(|hs|, i requires 0 <= i < |hs| => HostReply(hs[i], more))
  }

  /** First slot, last slot, master, replicas. */
  function EntryReply(e: Entry, more: seq<ClusterReply>): (r: ClusterReply)
    ensures r.ReplyMulti? && r.elements == |r.element|
  {
    ReplyMulti(3 + |e.replicas|,
               [ReplyInt(e.range.low), ReplyInt(e.range.high), HostReply(e.host, more)] + HostReplies(e.replicas, more))
  }

  predicate ValidNode(h: Host) {
    h.addr != "" && |h.addr| < 255 && '\0' !in h.addr && h.port < 65536
  }

  predicate ValidEntry(e: Entry) {
    e.range.low <= e.range.high < 16384 && ValidNode(e.host) && forall h | h in e.replicas :: ValidNode(h)
  }

  lemma HostRoundTrip(h: Host, more: seq<ClusterReply>)
    ensures ParseHost(HostReply(h, more)) == if ValidNode(h) then Just(h) else Nothing
  {
  }

  lemma {:induction false} HostsRoundTrip(hs: seq<Host>, more: seq<ClusterReply>)
    requires forall h | h in hs :: ValidNode(h)
    ensures ParseHosts(HostReplies(hs, more)) == hs
  {
    if hs != [] {
      var init, h := hs[..|hs| - 1], hs[|hs| - 1];
      HostsRoundTrip(init, more);
      HostRoundTrip(h, more);
      assert HostReplies(hs, more)[..|hs| - 1] == HostReplies(init, more);
      assert hs == init + [h];
    }
  }

  /** An entry is read back exactly if it is valid. */
  lemma EntryRoundTrip(e: Entry, more: seq<ClusterReply>)
    requires forall h | h in e.replicas :: ValidNode(h)
    ensures Parse(EntryReply(e, more)) == if ValidEntry(e) then Just(e) else Nothing
  {
    var r := EntryReply(e, more);
    assert r.element[3..] == HostReplies(e.replicas, more);
    HostRoundTrip(e.host, more);
    HostsRoundTrip(e.replicas, more);
    hide HostReply, ParseHost, ParseHosts, HostReplies;
  }

  /** The element of a reply spans the slot: its first two numbers say so. */
  predicate Spans(r: ClusterReply, slot: nat) {
    ValidOuter(r) && r.element[0].integer <= slot <= r.element[1].integer
  }

  /** The third part of the element is this address. */
  predicate NamesHost(r: ClusterReply, h: Host) {
    && r.ReplyMulti? && |r.element| >= 3 && r.element[2].ReplyMulti? && |r.element[2].element| >= 2
    && r.element[2].element[0].ReplyBulk? && r.element[2].element[0].str == Just(h.addr)
    && r.element[2].element[1] == ReplyInt(h.port)
  }

  /** What is accepted is a valid entry, and it says what the element says. */
  lemma ParsedIsElement(r: ClusterReply, slot: nat)
    requires Parse(r).Just?
    ensures var e := Parse(r).value;
            && NamesHost(r, e.host) && ValidNode(e.host)
            && r.element[0] == ReplyInt(e.range.low) && r.element[1] == ReplyInt(e.range.high)
            && e.range.low <= e.range.high < 16384
            && (Spans(r, slot) <==> Covers(e.range, slot))
  {
  }

  lemma {:induction false} EntryAt(rs: seq<ClusterReply>, i: nat)
    requires AllValid(rs) && i < |rs|
    ensures |Entries(rs)| == |rs| && Parse(rs[i]).Just? && Entries(rs)[i] == Parse(rs[i]).value
  {
    assert rs[i] in rs;
    if i < |rs| - 1 {
      assert rs[..|rs| - 1][i] == rs[i];
      EntryAt(rs[..|rs| - 1], i);
    } else {
      EntriesLength(rs);
    }
  }

  lemma {:induction false} EntriesLength(rs: seq<ClusterReply>)
    requires AllValid(rs)
    ensures |Entries(rs)| == |rs|
  {
    if rs != [] {
      EntriesLength(rs[..|rs| - 1]);
    }
  }

  /** The last element that spans a slot names its master. */
  lemma LastElementOwns(rs: seq<ClusterReply>, slot: nat, i: nat)
    requires AllValid(rs) && i < |rs| && Spans(rs[i], slot) && forall j | i < j < |rs| :: !Spans(rs[j], slot)
    ensures Owner(Entries(rs), slot).Just? && NamesHost(rs[i], Owner(Entries(rs), slot).value)
  {
    var es := Entries(rs);
    EntryAt(rs, i);
    ParsedIsElement(rs[i], slot);
    forall j | i < j < |es| ensures !Covers(es[j].range, slot) {
      EntryAt(rs, j);
      ParsedIsElement(rs[j], slot);
    }
    hide Parse, Spans, NamesHost, Entries;
    OwnerIsTheLast(es, slot, i);
  }

  /** How many elements are read before the first invalid one. */
  function ValidCount(rs: seq<ClusterReply>): (n: nat)
    ensures n <= |rs| && AllValid(rs[..n])
    ensures n == |rs| || Parse(rs[n]).Nothing?
    ensures n == |rs| <==> AllValid(rs)
  {
    if rs == [] || Parse(rs[0]).Nothing? then 0
    else
      var n := ValidCount(rs[1..]);
      assert rs == [rs[0]] + rs[1..];
      assert rs[..n + 1] == [rs[0]] + rs[1..][..n];
      n + 1
  }

  /** The entries that take effect. */
  function Effective(rs: seq<ClusterReply>): seq<Entry> {
    Entries(rs[..ValidCount(rs)])
  }

  lemma EffectiveAll(rs: seq<ClusterReply>)
    ensures AllValid(rs) ==> Effective(rs) == Entries(rs)
  {
    assert rs[..|rs|] == rs;
  }

  lemma EntriesMore(rs: seq<ClusterReply>, i: nat)
    requires i < ValidCount(rs)
    ensures AllValid(rs[..i]) && AllValid(rs[..i + 1]) && Parse(rs[i]).Just?
    ensures Entries(rs[..i + 1]) == Entries(rs[..i]) + [Parse(rs[i]).value]
  {
    var done := rs[..ValidCount(rs)];
    assert rs[..i] == done[..i] && rs[..i + 1] == done[..i + 1];
    assert done[i] in done;
    assert rs[..i + 1][..i] == rs[..i];
  }

  // ---- the meaning of the entries ----

  function Last<T>(s: seq<T>): (x: T)
    requires s != []
    ensures x in s
  {
    s[|s| - 1]
  }

  function Init<T>(s: seq<T>): (r: seq<T>)
    requires s != []
    ensures |r| == |s| - 1 && forall x | x in r :: x in s
  {
    s[..|s| - 1]
  }

  /** The master of a slot: that of the last entry that covers it. */
  function Owner(es: seq<Entry>, slot: nat): Maybe<Host> {
    if es == [] then Nothing
    else if Covers(Last(es).range, slot) then Just(Last(es).host) else Owner(Init(es), slot)
  }

  /** The masters in the order they are first named. */
  function Masters(es: seq<Entry>): seq<Host> {
    if es == [] then []
    else
      var init := Masters(Init(es));
      if Last(es).host in init then init else init + [Last(es).host]
  }

  function RangesOf(es: seq<Entry>, h: Host): seq<SlotRange> {
    if es == [] then []
    else
      var init := RangesOf(Init(es), h);
      if Last(es).host == h then init + [Last(es).range] else init
  }

  /** The first entry of a master: its replicas and its lowest slot are taken from there. */
  function FirstOf(es: seq<Entry>, h: Host): (e: Entry)
    requires h in Masters(es)
    ensures e in es && e.host == h
  {
    if h in Masters(Init(es)) then FirstOf(Init(es), h) else Last(es)
  }

  lemma {:induction false} OwnerIsTheLast(es: seq<Entry>, slot: nat, i: nat)
    requires i < |es| && Covers(es[i].range, slot) && forall j | i < j < |es| :: !Covers(es[j].range, slot)
    ensures Owner(es, slot) == Just(es[i].host)
  {
    if i < |es| - 1 {
      OwnerIsTheLast(Init(es), slot, i);
    }
  }

  lemma {:induction false} OwnerCovers(es: seq<Entry>, slot: nat)
    ensures Owner(es, slot).Nothing? <==> forall e | e in es :: !Covers(e.range, slot)
    ensures Owner(es, slot).Just? ==>
              exists i | 0 <= i < |es| :: es[i].host == Owner(es, slot).value && Covers(es[i].range, slot)
  {
    if es != [] {
      OwnerCovers(Init(es), slot);
      assert es == Init(es) + [Last(es)];
    }
  }

  lemma {:induction false} MastersNamed(es: seq<Entry>)
    ensures forall h :: h in Masters(es) <==> exists i | 0 <= i < |es| :: es[i].host == h
    ensures forall i, j | 0 <= i < j < |Masters(es)| :: Masters(es)[i] != Masters(es)[j]
  {
    if es != [] {
      MastersNamed(Init(es));
    }
  }

  lemma {:induction false} FirstIsFirst(es: seq<Entry>, h: Host, i: nat)
    requires i < |es| && es[i].host == h && forall j | 0 <= j < i :: es[j].host != h
    ensures h in Masters(es) && FirstOf(es, h) == es[i]
  {
    MastersNamed(es);
    MastersNamed(Init(es));
    if i < |es| - 1 {
      FirstIsFirst(Init(es), h, i);
    }
  }

  lemma {:induction false} RangesAreEntries(es: seq<Entry>, h: Host, slot: nat)
    ensures (exists r | r in RangesOf(es, h) :: Covers(r, slot))
       <==> exists e | e in es :: e.host == h && Covers(e.range, slot)
  {
    if es != [] {
      RangesAreEntries(Init(es), h, slot);
      assert es == Init(es) + [Last(es)];
      assert forall r ::
        r in RangesOf(es, h) <==> r in RangesOf(Init(es), h) || (Last(es).host == h && r == Last(es).range);
    }
  }

  /** `klen >= sizeof(key)` is never the reason to give up: an accepted host and port always fit. */
  lemma KeysFit(h: Host)
    requires ValidHost(h.addr) && h.port <= 65535
    ensures |Key(h)| < 1024
  {
    Decimal.LongLength(h.port);
  }

  // ---- the persistent slot cache ----

  datatype CachedMaster = CachedMaster(host: Host, slots: seq<SlotRange>, slaves: seq<Host>)

  predicate Serves(m: CachedMaster, slot: nat) {
    exists r | r in m.slots :: Covers(r, slot)
  }

  /** What a cache of the mapped cluster holds. */
  function CacheOf(es: seq<Entry>): (cc: seq<CachedMaster>)
    ensures |cc| == |Masters(es)|
  {
    seq(|Masters(es)|, i requires 0 <= i < |Masters(es)| =>
      CachedMaster(Masters(es)[i], RangesOf(es, Masters(es)[i]), FirstOf(es, Masters(es)[i]).replicas))
  }

  /** The master of a slot after the cached masters were put back in this order. */
  function CachedOwner(cc: seq<CachedMaster>, order: seq<int>, slot: nat): Maybe<Host>
    requires forall i | i in order :: 0 <= i < |cc|
  {
    if order == [] then Nothing
    else if Serves(cc[Last(order)], slot) then Just(cc[Last(order)].host) else CachedOwner(cc, Init(order), slot)
  }

  /** Slots that different masters both claim. */
  ghost predicate Uncontested(es: seq<Entry>) {
    forall d, e, slot: nat | d in es && e in es && Covers(d.range, slot) && Covers(e.range, slot) :: d.host == e.host
  }

  lemma {:induction false} CachedOwnerServes(cc: seq<CachedMaster>, order: seq<int>, slot: nat)
    requires forall i | i in order :: 0 <= i < |cc|
    ensures var o := CachedOwner(cc, order, slot);
            && (o.Nothing? <==> forall i | i in order :: !Serves(cc[i], slot))
            && (o.Just? ==> exists i | i in order :: Serves(cc[i], slot) && cc[i].host == o.value)
  {
    if order != [] {
      CachedOwnerServes(cc, Init(order), slot);
      assert order == Init(order) + [Last(order)];
    }
  }

  lemma CacheServes(es: seq<Entry>, i: nat, slot: nat)
    requires i < |Masters(es)|
    ensures Serves(CacheOf(es)[i], slot) <==> exists e | e in es :: e.host == Masters(es)[i] && Covers(e.range, slot)
  {
    RangesAreEntries(es, Masters(es)[i], slot);
  }

  /** Uncontested slots keep their master whatever the shuffle does. */
  lemma CacheAgrees(es: seq<Entry>, order: seq<int>, slot: nat)
    requires Uncontested(es) && Permutes(order, |Masters(es)|)
    ensures forall i | i in order :: 0 <= i < |Masters(es)|
    ensures CachedOwner(CacheOf(es), order, slot) == Owner(es, slot)
  {
    var cc := CacheOf(es);
    PermutesMembers(order, |cc|);
    CachedOwnerServes(cc, order, slot);
    OwnerCovers(es, slot);
    MastersNamed(es);
    forall i | i in order ensures Serves(cc[i], slot) <==> Owner(es, slot) == Just(cc[i].host) {
      CacheServes(es, i, slot);
    }
    if Owner(es, slot).Just? {
      assert Owner(es, slot).value in Masters(es);
      var i :| 0 <= i < |Masters(es)| && Masters(es)[i] == Owner(es, slot).value;
      assert i in order && Serves(cc[i], slot);
    }
  }

  /** The shuffle that puts master i last. */
  function LastIs(n: nat, i: nat): seq<int>
    requires i < n
  {
    seq(n, k => if k == i then n - 1 else if k == n - 1 then i else k)
  }

  lemma LastIsPermutes(n: nat, i: nat)
    requires i < n
    ensures Permutes(LastIs(n, i), n)
  {
    var id := seq(n, k => k);
    assert LastIs(n, i) == id[i := id[n - 1]][n - 1 := id[i]];
  }

  /** A contested slot goes to either master, depending on the shuffle. */
  lemma CacheDisagrees(es: seq<Entry>, d: Entry, e: Entry, slot: nat) returns (order: seq<int>)
    requires d in es && e in es && Covers(d.range, slot) && Covers(e.range, slot) && d.host != e.host
    ensures Permutes(order, |Masters(es)|)
    ensures forall i | i in order :: 0 <= i < |Masters(es)|
    ensures CachedOwner(CacheOf(es), order, slot) != Owner(es, slot)
  {
    MastersNamed(es);
    var other := if Owner(es, slot) == Just(d.host) then e else d;
    assert other.host in Masters(es);
    var i :| 0 <= i < |Masters(es)| && Masters(es)[i] == other.host;
    order := LastIs(|Masters(es)|, i);
    LastIsPermutes(|Masters(es)|, i);
    PermutesMembers(order, |Masters(es)|);
    CacheServes(es, i, slot);
    assert Last(order) == i;
  }

  /** The cache keeps every slot's master under every shuffle exactly if no two masters claim one slot. */
  lemma CacheAgreesIffUncontested(es: seq<Entry>)
    ensures Uncontested(es) <==>
            forall order: seq<int>, slot: nat |
              Permutes(order, |Masters(es)|) && forall i | i in order :: 0 <= i < |Masters(es)| ::
              CachedOwner(CacheOf(es), order, slot) == Owner(es, slot)
  {
    if Uncontested(es) {
      forall order: seq<int>, slot: nat | Permutes(order, |Masters(es)|)
        ensures forall i | i in order :: 0 <= i < |Masters(es)|
        ensures CachedOwner(CacheOf(es), order, slot) == Owner(es, slot)
      {
        CacheAgrees(es, order, slot);
      }
    } else {
      var d, e, slot: nat :|
        d in es && e in es && Covers(d.range, slot) && Covers(e.range, slot) && d.host != e.host;
      var order := CacheDisagrees(es, d, e, slot);
    }
  }
}
