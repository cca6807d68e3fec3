/** cluster_library.c: hash slots of keys (section "Hash tags" of the Redis Cluster specification) and the lists of
    keys by slot that commands on many keys are made from. */
module KeyDistribution {
  import opened Options
  import opened Crc16
  import ClusterNodes

  type Slot = nat

  const SLOTS := ClusterNodes.SLOTS

  const OPEN: bv8 := 0x7b
  const CLOSE: bv8 := 0x7d

  // ---- hash slots ----

  /** The first place of c from `start` on, or the length. */
  function Find(s: Bytes, start: nat, c: bv8): (i: nat)
    requires start <= |s|
    ensures start <= i <= |s|
    ensures i < |s| ==> s[i] == c
    ensures forall k | start <= k < i :: s[k] != c
    decreases |s| - start
  {
    if start == |s| || s[start] == c then start else Find(s, start + 1, c)
  }

  /** The key has a non-empty hash tag. */
  predicate Tagged(key: Bytes) {
    var s := Find(key, 0, OPEN);
    s < |key| && s + 1 < Find(key, s + 1, CLOSE) < |key|
  }

  /** The part of a key that is hashed. */
  function HashPart(key: Bytes): Bytes {
    if Tagged(key) then
      var s := Find(key, 0, OPEN);
      key[s + 1..Find(key, s + 1, CLOSE)]
    else key
  }

  /** `& REDIS_CLUSTER_MOD` */
  function Mod(crc: bv16): (slot: Slot)
    ensures slot < SLOTS
  {
    ModIsRemainder(crc);
    (crc & 0x3fff) as int
  }

  lemma Split(crc: bv16)
    ensures crc as int == (crc >> 14) as int * 0x4000 + (crc & 0x3fff) as int
  {
  }

  lemma LowBits(crc: bv16)
    ensures (crc & 0x3fff) as int < 0x4000
  {
    assert crc & 0x3fff < 0x4000;
  }

  lemma ModIsRemainder(crc: bv16)
    ensures (crc & 0x3fff) as int == crc as int % SLOTS
  {
    Split(crc);
    LowBits(crc);
    DivMod((crc >> 14) as int, (crc & 0x3fff) as int);
  }

  lemma DivMod(q: nat, r: nat)
    requires r < SLOTS
    ensures (q * SLOTS + r) % SLOTS == r
  {
  }

  function HashSlot(key: Bytes): Slot {
    Mod(Crc(HashPart(key)))
  }

  lemma FindIs(s: Bytes, start: nat, c: bv8, i: nat)
    requires start <= i <= |s| && (forall k | start <= k < i :: s[k] != c) && (i < |s| ==> s[i] == c)
    ensures Find(s, start, c) == i
  {
  }

  /** `cluster_hash_key` */
  method HashKey(key: Bytes) returns (slot: Slot)
    ensures slot == HashSlot(key)
  {
    hide Crc, Mod, Remainder, Bits, Zeros;
    var s := 0;
    while s < |key|
      invariant 0 <= s <= |key| && forall k | 0 <= k < s :: key[k] != OPEN
    {
      if key[s] == OPEN {
        break;
      }
      s := s + 1;
    }
    FindIs(key, 0, OPEN, s);
    if s == |key| {
      var whole := Crc16.Crc16(key);
      return Mod(whole);
    }
    var e := s + 1;
    while e < |key|
      invariant s < e <= |key| && forall k | s < k < e :: key[k] != CLOSE
    {
      if key[e] == CLOSE {
        break;
      }
      e := e + 1;
    }
    FindIs(key, s + 1, CLOSE, e);
    var crc := Crc16.Crc16(if e == |key| || e == s + 1 then key else key[s + 1..e]);
    return Mod(crc);
  }

  // ---- keys with a prefix ----

  /** The part that a found '{' and the place of the next '}' select. */
  lemma PartIs(key: Bytes, s: nat, e: nat)
    requires s < e <= |key| && key[s] == OPEN && (forall k | 0 <= k < s :: key[k] != OPEN)
    requires (forall k | s < k < e :: key[k] != CLOSE) && (e < |key| ==> key[e] == CLOSE)
    ensures Tagged(key) <==> s + 1 < e < |key|
    ensures HashPart(key) == if s + 1 < e < |key| then key[s + 1..e] else key
  {
    FindIs(key, 0, OPEN, s);
    FindIs(key, s + 1, CLOSE, e);
  }

  /** The slot of a key without '{', */
  lemma SlotOfPlain(key: Bytes)
    requires forall k | 0 <= k < |key| :: key[k] as int != '{' as int
    ensures HashSlot(key) == Remainder(Bits(key) + Zeros(16)) as int % SLOTS
  {
    FindIs(key, 0, OPEN, |key|);
    CrcIsRemainder(key);
    ModIsRemainder(Crc(key));
    hide Crc, Remainder;
  }

  /** and of one whose first '{' is at s and whose next '}' is at e, if there is one. */
  lemma SlotOfTagged(key: Bytes, s: nat, e: nat)
    requires s < e <= |key| && key[s] as int == '{' as int && (forall k | 0 <= k < s :: key[k] as int != '{' as int)
    requires (forall k | s < k < e :: key[k] as int != '}' as int) && (e < |key| ==> key[e] as int == '}' as int)
    ensures var part := if s + 1 < e < |key| then key[s + 1..e] else key;
            HashSlot(key) == Remainder(Bits(part) + Zeros(16)) as int % SLOTS
  {
    PartIs(key, s, e);
    CrcIsRemainder(HashPart(key));
    ModIsRemainder(Crc(HashPart(key)));
    hide Crc, Remainder, HashPart;
  }

  /** Under a prefix without '{' a tagged key hashes as it would alone. */
  lemma PrefixKeepsTag(p: Bytes, key: Bytes)
    requires OPEN !in p && Tagged(key)
    ensures Tagged(p + key) && HashPart(p + key) == HashPart(key)
  {
    var s := Find(key, 0, OPEN);
    var e := Find(key, s + 1, CLOSE);
    var full := p + key;
    assert full[|p| + s + 1..|p| + e] == key[s + 1..e];
    forall k | 0 <= k < |p| + s ensures full[k] != OPEN {
      assert full[k] == if k < |p| then p[k] else key[k - |p|];
    }
    forall k | |p| + s < k < |p| + e ensures full[k] != CLOSE {
      assert full[k] == key[k - |p|];
    }
    hide Tagged, HashPart;
    PartIs(full, |p| + s, |p| + e);
    PartIs(key, s, e);
  }

  /** Under a prefix with a tag of its own every key hashes to that. */
  lemma PrefixOwnTag(p: Bytes, key: Bytes)
    requires Tagged(p)
    ensures Tagged(p + key) && HashPart(p + key) == HashPart(p)
  {
    var s := Find(p, 0, OPEN);
    var e := Find(p, s + 1, CLOSE);
    FindIs(p + key, 0, OPEN, s);
    FindIs(p + key, s + 1, CLOSE, e);
    assert (p + key)[s + 1..e] == p[s + 1..e];
  }

  /** Two keys with the same tag. */
  function Witness(first: bv8): Bytes {
    [first, OPEN, 0x74, CLOSE]
  }

  lemma WitnessTagged(first: bv8)
    requires first != OPEN && first != CLOSE
    ensures Tagged(Witness(first)) && HashPart(Witness(first)) == [0x74]
  {
    FindIs(Witness(first), 0, OPEN, 1);
    FindIs(Witness(first), 2, CLOSE, 3);
  }

  /** Under any other prefix, what stands before the tag matters: there "{}" stops the search, */
  lemma EmptyTagInPrefix(p: Bytes, key: Bytes)
    requires OPEN in p && !Tagged(p)
    requires var s := Find(p, 0, OPEN); s < |p| && Find(p, s + 1, CLOSE) < |p|
    ensures HashPart(p + key) == p + key
  {
    var s := Find(p, 0, OPEN);
    var e := Find(p, s + 1, CLOSE);
    PartIs(p + key, s, e);
  }

  /** or an open '{' makes the bytes up to the end of the tag the new one. */
  lemma OpenTagInPrefix(p: Bytes, first: bv8)
    requires first != OPEN && first != CLOSE
    requires var s := Find(p, 0, OPEN); s < |p| && Find(p, s + 1, CLOSE) == |p|
    ensures HashPart(p + Witness(first)) == p[Find(p, 0, OPEN) + 1..] + [first, OPEN, 0x74]
  {
    OpenTail(p, Find(p, 0, OPEN), first);
  }

  lemma OpenTail(p: Bytes, s: nat, first: bv8)
    requires first != OPEN && first != CLOSE
    requires s < |p| && p[s] == OPEN && forall k | 0 <= k < s :: p[k] != OPEN
    requires forall k | s < k < |p| :: p[k] != CLOSE
    ensures HashPart(p + Witness(first)) == p[s + 1..] + [first, OPEN, 0x74]
  {
    var full := p + Witness(first);
    var e := |p| + 3;
    assert full[|p|] == first && full[|p| + 1] == OPEN && full[|p| + 2] == 0x74 && full[e] == CLOSE;
    assert full[s + 1..e] == p[s + 1..] + [first, OPEN, 0x74];
    forall k | s < k < e ensures full[k] != CLOSE {
      if k < |p| {
        assert full[k] == p[k];
      } else {
        assert k == |p| || k == |p| + 1 || k == |p| + 2;
      }
    }
    hide Witness, HashPart, Tagged;
    PartIs(full, s, e);
  }

  lemma PrefixBreaksTags(p: Bytes)
    requires OPEN in p && !Tagged(p)
    ensures HashPart(p + Witness(0x78)) != HashPart(p + Witness(0x79))
  {
    var s := Find(p, 0, OPEN);
    if Find(p, s + 1, CLOSE) < |p| {
      EmptyTagInPrefix(p, Witness(0x78));
      EmptyTagInPrefix(p, Witness(0x79));
      assert (p + Witness(0x78))[|p|] != (p + Witness(0x79))[|p|];
    } else {
      OpenTagInPrefix(p, 0x78);
      OpenTagInPrefix(p, 0x79);
      var rest := p[s + 1..];
      assert (rest + [0x78, OPEN, 0x74])[|rest|] != (rest + [0x79, OPEN, 0x74])[|rest|];
    }
  }

  /** Keys that share a tag are hashed alike under a prefix exactly if that has no '{', or a tag of its own. */
  lemma TagsSurviveIff(p: Bytes)
    ensures (OPEN !in p || Tagged(p)) <==>
            forall k, l | Tagged(k) && Tagged(l) && HashPart(k) == HashPart(l) :: HashPart(p + k) == HashPart(p + l)
  {
    if OPEN !in p || Tagged(p) {
      forall k, l | Tagged(k) && Tagged(l) && HashPart(k) == HashPart(l) ensures HashPart(p + k) == HashPart(p + l) {
        if Tagged(p) {
          PrefixOwnTag(p, k);
          PrefixOwnTag(p, l);
        } else {
          PrefixKeepsTag(p, k);
          PrefixKeepsTag(p, l);
        }
      }
    } else {
      WitnessTagged(0x78);
      WitnessTagged(0x79);
      PrefixBreaksTags(p);
    }
  }

  /** So such keys end up in one list. */
  lemma SharedTagSharesSlot(prefix: Maybe<Bytes>, k: Bytes, l: Bytes)
    requires prefix.Just? ==> OPEN !in prefix.value || Tagged(prefix.value)
    requires Tagged(k) && Tagged(l) && HashPart(k) == HashPart(l)
    ensures HashSlot(Prefixed(prefix, k)) == HashSlot(Prefixed(prefix, l))
  {
    if prefix.Just? {
      TagsSurviveIff(prefix.value);
    }
  }

  // ---- lists of keys ----

  const KEYDIST_ALLOC := 8

  /** `clusterDistList` */
  class DistList {
    var keys: array<Bytes>
    var len: nat

    ghost predicate Valid()
      reads this
    {
      len <= keys.Length && keys.Length >= KEYDIST_ALLOC
    }

    ghost function Contents(): seq<Bytes>
      requires Valid()
      reads this, keys
    {
      keys[..len]
    }

    constructor ()
      ensures Valid() && fresh(keys) && Contents() == [] && keys.Length == KEYDIST_ALLOC
    {
      keys := new Bytes[KEYDIST_ALLOC](_ => []);
      len := 0;
    }

    /** `cluster_dl_add_key` */
    method Add(key: Bytes)
      requires Valid()
      modifies this, keys
      ensures Valid() && Contents() == old(Contents()) + [key]
      ensures if old(len) == old(keys.Length) then fresh(keys) && keys.Length == 2 * old(keys.Length)
              else keys == old(keys)
    {
      if len == keys.Length {
        var more := new Bytes[2 * keys.Length](i requires 0 <= i < 2 * keys.Length reads this, keys =>
          if i < keys.Length then keys[i] else []);
        keys := more;
      }
      keys[len] := key;
      len := len + 1;
    }
  }

  function Prefixed(prefix: Maybe<Bytes>, key: Bytes): Bytes {
    if prefix.Nothing? then key else prefix.value + key
  }

  /** The keys of one slot, in order. */
  function OfSlot(keys: seq<Bytes>, slot: Slot): seq<Bytes> {
    if keys == [] then []
    else
      var init, last := OfSlot(keys[..|keys| - 1], slot), keys[|keys| - 1];
      if HashSlot(last) == slot then init + [last] else init
  }

  lemma OfSlotMore(keys: seq<Bytes>, key: Bytes)
    ensures forall s ::
              OfSlot(keys + [key], s) == if HashSlot(key) == s then OfSlot(keys, s) + [key] else OfSlot(keys, s)
  {
    assert (keys + [key])[..|keys|] == keys;
  }

  /** The table of lists for one command. `accepted` are the keys added, with their prefix. */
  class Distribution {
    var lists: map<Slot, DistList>
    ghost var accepted: seq<Bytes>

    ghost predicate Valid()
      reads this, lists.Values, set s | s in lists :: lists[s].keys
    {
      && (forall s | s in lists :: lists[s].Valid() && lists[s].Contents() == OfSlot(accepted, s))
      && (forall s | s !in lists :: OfSlot(accepted, s) == [])
      && (forall s, t | s in lists && t in lists && s != t :: lists[s] != lists[t] && lists[s].keys != lists[t].keys)
    }

    constructor ()
      ensures Valid() && lists == map[] && accepted == []
    {
      lists, accepted := map[], [];
    }

    /** The list of a slot, created empty if there is none. */
    method ListOf(slot: Slot) returns (dl: DistList)
      requires Valid()
      modifies this`lists
      ensures Valid() && slot in lists && lists[slot] == dl
      ensures lists == if slot in old(lists) then old(lists) else old(lists)[slot := dl]
      ensures slot !in old(lists) ==> fresh(dl) && fresh(dl.keys)
    {
      hide OfSlot;
      if slot in lists {
        dl := lists[slot];
      } else {
        dl := new DistList();
        lists := lists[slot := dl];
      }
    }

    /** The key goes to the end of its list. */
    method AddTo(slot: Slot, full: Bytes)
      requires Valid() && slot in lists && HashSlot(full) == slot
      modifies this`accepted, lists[slot], lists[slot].keys
      ensures Valid() && accepted == old(accepted) + [full]
    {
      OfSlotMore(accepted, full);
      hide OfSlot, HashSlot;
      var dl := lists[slot];
      dl.Add(full);
      accepted := accepted + [full];
      forall s | s in lists ensures lists[s].Valid() && lists[s].Contents() == OfSlot(accepted, s) {
        if s != slot {
          assert lists[s] != dl && old(lists[s].keys) != old(dl.keys);
          assert lists[s].Contents() == old(lists[s].Contents());
        }
      }
    }

    method Insert(slot: Slot, full: Bytes)
      requires Valid() && HashSlot(full) == slot
      modifies this, lists.Values, set s | s in lists :: lists[s].keys
      ensures Valid() && accepted == old(accepted) + [full] && lists.Keys == old(lists.Keys) + {slot}
    {
      hide OfSlot, HashSlot;
      ghost var arrays := set s | s in lists :: lists[s].keys;
      assert slot in lists ==> lists[slot].keys in arrays;
      var dl := ListOf(slot);
      hide Distribution.Valid;
      AddTo(slot, full);
    }

    /** `cluster_dist_add_key`: `covered` are the slots that have a master. */
    method AddKey(prefix: Maybe<Bytes>, key: Bytes, covered: set<Slot>) returns (ok: bool)
      requires Valid()
      modifies this, lists.Values, set s | s in lists :: lists[s].keys
      ensures Valid()
      ensures ok <==> HashSlot(Prefixed(prefix, key)) in covered
      ensures accepted == old(accepted) + if ok then [Prefixed(prefix, key)] else []
      ensures lists.Keys == old(lists.Keys) + if ok then {HashSlot(Prefixed(prefix, key))} else {}
    {
      hide HashSlot, OfSlot, Prefixed, Distribution.Valid;
      var full := Prefixed(prefix, key);
      var slot := HashKey(full);
      ok := slot in covered;
      if ok {
        Insert(slot, full);
      }
    }
  }
}
