/** The two recursive readers of nested RESP2 replies: `redis_read_multibulk_recursive` builds PHP values as it
    reads; `cluster_multibulk_resp_recursive` builds a reply tree that `cluster_mbulk_variant_resp` converts
    later. They share no code above `redis_read_reply_type`. */
module ReplyTrees {
  import opened Decimal
  import opened Options
  import opened Resp
  import opened SockReader

  // ---- library.c: values while reading ----

  /** `redis_read_variant_line`: a value is produced even when the line cannot be read. */
  function ReadVariantLine(c: Conn, t: char, asString: bool): (r: (Conn, ZVal))
    ensures r.0.Follows(c)
  {
    var (c1, line) := Gets(c, 4096);
    match line
    case Nothing => (c1, ZFalse)
    case Just(text) =>
      if t == '-' then (AfterError(c1, text), ZFalse) else (c1, if asString then ZString(text) else ZTrue)
  }

  function ReadVariantBulk(c: Conn, size: int): (r: (Conn, ZVal))
    ensures r.0.Follows(c)
  {
    var (c1, body) := ReadBulk(c, size);
    (c1, if body.Just? then ZString(body.value) else ZFalse)
  }

  /** `acc` extended by the values of the next `n` replies: connection after, success, values. */
  function ReadValues(c: Conn, n: int, asString: bool, nullAsNull: bool, acc: seq<ZVal>): (r: (Conn, bool, seq<ZVal>))
    ensures r.0.Follows(c)
    decreases |c.input|, 0
  {
    if n <= 0 then (c, true, acc)
    else
      var (c1, header) := ReadReplyType(c);
      if header.Nothing? then (c1.Threw(), false, acc)
      else
        var (c2, value) := ReadValueBody(c1, header.value.0, header.value.1, asString, nullAsNull);
        ReadValues(c2, n - 1, asString, nullAsNull, acc + value)
  }

  /** What one reply adds: nothing for an unknown type byte, otherwise one value. */
  function ReadValueBody(c: Conn, t: char, info: int, asString: bool, nullAsNull: bool): (r: (Conn, seq<ZVal>))
    ensures r.0.Follows(c) && |r.1| <= 1
    decreases |c.input|, 1
  {
    match t
    case '-' => var (c1, v) := ReadVariantLine(c, t, asString); (c1, [v])
    case '+' => var (c1, v) := ReadVariantLine(c, t, asString); (c1, [v])
    case ':' => (c, [ZLong(info)])
    case '$' => var (c1, v) := ReadVariantBulk(c, info); (c1, [v])
    case '*' =>
      if info < 0 && nullAsNull then (c, [ZNull])
      else var (c1, _, elems) := ReadValues(c, info, asString, nullAsNull, []); (c1, [ZArray(elems)])
    case _ => (c, [])
  }

  /** The switch of `redis_read_multibulk_recursive`: what one reply adds to the array. */
  method AddReply(sock: StreamReader, t: char, info: int, statusStrings: bool, nullAsNull: bool)
    returns (add: seq<ZVal>)
    modifies sock
    ensures (sock.State(), add) == ReadValueBody(old(sock.State()), t, info, statusStrings, nullAsNull)
    decreases |sock.input|, 1
  {
    if t == '-' || t == '+' {
      var line := sock.Gets(4096);
      if line.Nothing? {
        return [ZFalse];
      }
      if t == '-' {
        sock.threw := sock.threw || ErrorThrows(line.value);
        return [ZFalse];
      }
      return [if statusStrings then ZString(line.value) else ZTrue];
    } else if t == ':' {
      return [ZLong(info)];
    } else if t == '$' {
      var bulk := sock.ReadBulkReply(info);
      return [if bulk.Just? then ZString(bulk.value) else ZFalse];
    } else if t == '*' {
      if info < 0 && nullAsNull {
        return [ZNull];
      }
      var sub := [];
      if info > 0 {
        var _, s := ReadMultibulkRecursive(sock, info, statusStrings, nullAsNull);
        sub := s;
      }
      return [ZArray(sub)];
    } else {
      return [];
    }
  }

  /** `redis_read_multibulk_recursive`; the result of a nested call is ignored, as in the source. */
  method ReadMultibulkRecursive(sock: StreamReader, elements: int, statusStrings: bool, nullAsNull: bool)
    returns (ok: bool, zRet: seq<ZVal>)
    modifies sock
    ensures (sock.State(), ok, zRet) == ReadValues(old(sock.State()), elements, statusStrings, nullAsNull, [])
    decreases |sock.input|, 0
  {
    hide ReadReplyType, ReadValueBody;
    zRet := [];
    var left := elements;
    while left > 0
      invariant |sock.input| <= |old(sock.input)|
      invariant ReadValues(sock.State(), left, statusStrings, nullAsNull, zRet)
             == ReadValues(old(sock.State()), elements, statusStrings, nullAsNull, [])
      decreases left
    {
      var header := sock.ReadReplyType();
      if header.Nothing? {
        sock.threw := true;
        return false, zRet;
      }
      var add := AddReply(sock, header.value.0, header.value.1, statusStrings, nullAsNull);
      zRet := zRet + add;
      left := left - 1;
    }
    return true, zRet;
  }

  // ---- cluster_library.c: a tree first, values later ----

  /** `clusterReply`: NULL strings and negative element counts are part of it. */
  datatype ClusterReply =
    | ReplyErr(str: Maybe<string>)
    | ReplyLine(str: Maybe<string>)
    | ReplyInt(integer: nat)
    | ReplyBulk(len: int, str: Maybe<string>)
    | ReplyMulti(elements: int, element: seq<ClusterReply>)

  /** The `size_t integer` field holds a long; `add_next_index_long` turns it back. */
  function AsSizeT(n: int): nat {
    n % ULONG_SPAN
  }

  function AsLong(u: nat): int {
    if u % ULONG_SPAN <= LONG_MAX then u % ULONG_SPAN else u % ULONG_SPAN - ULONG_SPAN
  }

  function ReadTree(c: Conn, n: nat, asString: bool, acc: seq<ClusterReply>): (r: (Conn, Maybe<seq<ClusterReply>>))
    ensures r.0.Follows(c)
    decreases |c.input|, 0
  {
    if n == 0 then (c, Just(acc))
    else
      var (c1, header) := ReadReplyType(c);
      if header.Nothing? then (c1, Nothing)
      else
        var (c2, node) := ReadTreeNode(c1, header.value.0, header.value.1, asString);
        if node.Nothing? then (c2, Nothing)
        else ReadTree(c2, n - 1, asString, acc + [node.value])
  }

  function ReadTreeNode(c: Conn, t: char, len: int, asString: bool): (r: (Conn, Maybe<ClusterReply>))
    ensures r.0.Follows(c)
    decreases |c.input|, 1
  {
    if t == '-' || t == '+' then
      var (c1, line) := Gets(c, 1024);
      if line.Nothing? then (c1, Nothing)
      else
        var str := if asString then line else Nothing;
        (c1, Just(if t == '-' then ReplyErr(str) else ReplyLine(str)))
    else if t == ':' then (c, Just(ReplyInt(AsSizeT(len))))
    else if t == '$' then
      if len < 0 then (c, Just(ReplyBulk(len, Nothing)))
      else
        var (c1, body) := ReadBulk(c, len);
        (c1, if body.Just? then Just(ReplyBulk(len, body)) else Nothing)
    else if t == '*' then
      if len <= 0 then (c, Just(ReplyMulti(len, [])))
      else
        var (c1, sub) := ReadTree(c, len, asString, []);
        (c1, if sub.Just? then Just(ReplyMulti(len, sub.value)) else Nothing)
    else (c, Nothing)
  }

  /** The switch of `cluster_multibulk_resp_recursive`: one node of the tree, or failure. */
  method FillReply(sock: StreamReader, t: char, len: int, statusStrings: bool) returns (r: Maybe<ClusterReply>)
    modifies sock
    ensures (sock.State(), r) == ReadTreeNode(old(sock.State()), t, len, statusStrings)
    decreases |sock.input|, 1
  {
    if t == '-' || t == '+' {
      var line := sock.Gets(1024);
      if line.Nothing? {
        return Nothing;
      }
      var str := if statusStrings then line else Nothing;
      return Just(if t == '-' then ReplyErr(str) else ReplyLine(str));
    } else if t == ':' {
      return Just(ReplyInt(AsSizeT(len)));
    } else if t == '$' {
      if len < 0 {
        return Just(ReplyBulk(len, Nothing));
      }
      var str := sock.ReadBulkReply(len);
      return if str.Just? then Just(ReplyBulk(len, str)) else Nothing;
    } else if t == '*' {
      if len <= 0 {
        return Just(ReplyMulti(len, []));
      }
      var sub := ClusterMultibulkRespRecursive(sock, len, statusStrings);
      return if sub.Just? then Just(ReplyMulti(len, sub.value)) else Nothing;
    } else {
      return Nothing;
    }
  }

  /** `cluster_multibulk_resp_recursive`; a failure frees the partial tree, so only success carries one. */
  method ClusterMultibulkRespRecursive(sock: StreamReader, elements: nat, statusStrings: bool)
    returns (r: Maybe<seq<ClusterReply>>)
    modifies sock
    ensures (sock.State(), r) == ReadTree(old(sock.State()), elements, statusStrings, [])
    decreases |sock.input|, 0
  {
    var element: seq<ClusterReply> := [];
    hide ReadReplyType, ReadTreeNode;
    for i := 0 to elements
      invariant |sock.input| <= |old(sock.input)|
      invariant ReadTree(sock.State(), elements - i, statusStrings, element)
             == ReadTree(old(sock.State()), elements, statusStrings, [])
    {
      var header := sock.ReadReplyType();
      if header.Nothing? {
        return Nothing;
      }
      var node := FillReply(sock, header.value.0, header.value.1, statusStrings);
      if node.Nothing? {
        return Nothing;
      }
      element := element + [node.value];
    }
    return Just(element);
  }

  /** `cluster_mbulk_variant_resp`: the value appended for one node of the tree. */
  function VariantValue(r: ClusterReply, nullAsNull: bool): ZVal {
    match r
    case ReplyInt(u) => ZLong(AsLong(u))
    case ReplyLine(str) => if str.Just? then ZString(str.value) else ZTrue
    case ReplyBulk(len, str) => if len > -1 && str.Just? then ZString(str.value) else ZNull
    case ReplyMulti(elements, element) =>
      if elements < 0 && nullAsNull then ZNull else ZArray(VariantValues(element, nullAsNull))
    case ReplyErr(_) => ZFalse
  }

  function VariantValues(rs: seq<ClusterReply>, nullAsNull: bool): seq<ZVal> {
    if rs == [] then [] else [VariantValue(rs[0], nullAsNull)] + VariantValues(rs[1..], nullAsNull)
  }

  // ---- both agree on everything a server can send ----

  /** The PHP value a reply stands for. The two readers differ only in `nullBulk`. */
  function Value(r: Reply, asString: bool, nullAsNull: bool, nullBulk: ZVal): ZVal {
    match r
    case Status(t) => if asString then ZString(t) else ZTrue
    case Error(_) => ZFalse
    case Integer(n) => ZLong(n)
    case Bulk(b) => ZString(b)
    case NullBulk => nullBulk
    case Array(es) => ZArray(Values(es, asString, nullAsNull, nullBulk))
    case NullArray => if nullAsNull then ZNull else ZArray([])
  }

  function Values(rs: seq<Reply>, asString: bool, nullAsNull: bool, nullBulk: ZVal): (z: seq<ZVal>)
    ensures |z| == |rs|
  {
    if rs == [] then []
    else [Value(rs[0], asString, nullAsNull, nullBulk)] + Values(rs[1..], asString, nullAsNull, nullBulk)
  }

  function TypeByte(r: Reply): char {
    match r
    case Status(_) => '+'
    case Error(_) => '-'
    case Integer(_) => ':'
    case Bulk(_) => '$'
    case NullBulk => '$'
    case Array(_) => '*'
    case NullArray => '*'
  }

  function HeaderNumber(r: Reply): int {
    match r
    case Status(_) => 0
    case Error(_) => 0
    case Integer(n) => n
    case Bulk(b) => |b|
    case Array(es) => |es|
    case _ => -1
  }

  /** What is left of a reply once `ReadReplyType` has taken its part. */
  function Remainder(r: Reply): string {
    match r
    case Status(t) => t + CRLF
    case Error(t) => t + CRLF
    case Bulk(b) => b + CRLF
    case Array(es) => EncodeAll(es)
    case _ => ""
  }

  lemma ReadReplyTypeOfEncoding(c: Conn, r: Reply, rest: string)
    requires c.open && c.input == Encode(r) + rest && Encodable(r, 4096)
    ensures var (c1, header) := ReadReplyType(c);
            header == Just((TypeByte(r), HeaderNumber(r)))
            && c1.open && c1.threw == c.threw && c1.input == Remainder(r) + rest
  {
    if r.Status? || r.Error? {
      assert c.input == [TypeByte(r)] + (Remainder(r) + rest);
      ReadLineType(c, TypeByte(r), Remainder(r) + rest);
    } else {
      assert Print(-1) == "-1";
      assert c.input == [TypeByte(r)] + Print(HeaderNumber(r)) + CRLF + (Remainder(r) + rest);
      ReadHeader(c, TypeByte(r), HeaderNumber(r), Remainder(r) + rest);
    }
  }

  predicate AllEncodable(rs: seq<Reply>, lineBuf: nat) {
    forall r | r in rs :: Encodable(r, lineBuf)
  }

  lemma {:induction false} ReadValuesOfEncoding(c: Conn, rs: seq<Reply>, rest: string, asString: bool,
                                                nullAsNull: bool, acc: seq<ZVal>)
    requires c.open && c.input == EncodeAll(rs) + rest
    requires AllEncodable(rs, 4096)
    ensures var r := ReadValues(c, |rs|, asString, nullAsNull, acc);
            r.0.input == rest && r.0.open && r.1 && r.2 == acc + Values(rs, asString, nullAsNull, ZFalse)
    decreases rs
  {
    hide ReadReplyType, ReadValueBody, ReadTreeNode, Encode;
    if rs == [] {
      assert EncodeAll(rs) + rest == rest;
    } else {
      var tail := EncodeAll(rs[1..]) + rest;
      assert c.input == Encode(rs[0]) + tail;
      ReadValueOfEncoding(c, rs[0], tail, asString, nullAsNull);
      var (c1, header) := ReadReplyType(c);
      var (c2, value) := ReadValueBody(c1, header.value.0, header.value.1, asString, nullAsNull);
      ReadValuesOfEncoding(c2, rs[1..], rest, asString, nullAsNull, acc + value);
    }
  }

  lemma {:induction false} ReadValueOfEncoding(c: Conn, r: Reply, rest: string, asString: bool, nullAsNull: bool)
    requires c.open && c.input == Encode(r) + rest
    requires Encodable(r, 4096)
    ensures var (c1, header) := ReadReplyType(c);
            header.Just? &&
            var (c2, value) := ReadValueBody(c1, header.value.0, header.value.1, asString, nullAsNull);
            c2.input == rest && c2.open && value == [Value(r, asString, nullAsNull, ZFalse)]
    decreases r
  {
    hide ReadReplyType, Gets, Encode;
    ReadReplyTypeOfEncoding(c, r, rest);
    var c1 := ReadReplyType(c).0;
    match r
    case Status(t) =>
      GetsLine(c1, t, rest, 4096);
    case Error(t) =>
      GetsLine(c1, t, rest, 4096);
    case Bulk(b) =>
      ReadBody(c1, b, rest);
    case Array(es) =>
      ReadValuesOfEncoding(c1, es, rest, asString, nullAsNull, []);
      assert [] + Values(es, asString, nullAsNull, ZFalse) == Values(es, asString, nullAsNull, ZFalse);
    case _ =>
      assert c1.input == rest;
  }

  lemma {:induction false} ReadTreeOfEncoding(c: Conn, rs: seq<Reply>, rest: string, asString: bool,
                                              nullAsNull: bool, acc: seq<ClusterReply>)
    requires c.open && c.input == EncodeAll(rs) + rest
    requires AllEncodable(rs, 1024)
    ensures var r := ReadTree(c, |rs|, asString, acc);
            r.0.input == rest && r.0.open && r.1.Just? && acc <= r.1.value
            && VariantValues(r.1.value[|acc|..], nullAsNull) == Values(rs, asString, nullAsNull, ZNull)
    decreases rs
  {
    hide ReadReplyType, ReadValueBody, ReadTreeNode, Encode;
    if rs == [] {
      assert EncodeAll(rs) + rest == rest;
    } else {
      var tail := EncodeAll(rs[1..]) + rest;
      assert c.input == Encode(rs[0]) + tail;
      ReadNodeOfEncoding(c, rs[0], tail, asString, nullAsNull);
      var (c1, header) := ReadReplyType(c);
      var (c2, node) := ReadTreeNode(c1, header.value.0, header.value.1, asString);
      ReadTreeOfEncoding(c2, rs[1..], rest, asString, nullAsNull, acc + [node.value]);
      var all := ReadTree(c2, |rs| - 1, asString, acc + [node.value]).1.value;
      assert all[|acc|] == node.value && all[|acc|..][1..] == all[|acc| + 1..];
    }
  }

  lemma {:induction false} ReadNodeOfEncoding(c: Conn, r: Reply, rest: string, asString: bool, nullAsNull: bool)
    requires c.open && c.input == Encode(r) + rest
    requires Encodable(r, 1024)
    ensures var (c1, header) := ReadReplyType(c);
            header.Just? &&
            var (c2, node) := ReadTreeNode(c1, header.value.0, header.value.1, asString);
            c2.input == rest && c2.open
            && node.Just? && VariantValue(node.value, nullAsNull) == Value(r, asString, nullAsNull, ZNull)
    decreases r
  {
    hide ReadReplyType, Gets, ReadBulk, Encode;
    SmallerBuffer(r);
    ReadReplyTypeOfEncoding(c, r, rest);
    var c1 := ReadReplyType(c).0;
    match r
    case Status(t) =>
      GetsLine(c1, t, rest, 1024);
    case Error(t) =>
      GetsLine(c1, t, rest, 1024);
    case Bulk(b) =>
      ReadBody(c1, b, rest);
    case Array(es) =>
      ReadTreeOfEncoding(c1, es, rest, asString, nullAsNull, []);
    case _ =>
      assert c1.input == rest;
  }

  lemma {:induction false} SmallerBuffer(r: Reply)
    requires Encodable(r, 1024)
    ensures Encodable(r, 4096)
  {
    if r.Array? {
      forall e | e in r.elems ensures Encodable(e, 4096) {
        SmallerBuffer(e);
      }
    }
  }

  /** The agreement: on the encoding of any replies both readers succeed, stop at the same byte with the same
      byte count, and hold the same values up to what a null bulk becomes. */
  lemma ReadersAgree(c: Conn, rs: seq<Reply>, rest: string, asString: bool, nullAsNull: bool)
    requires c.open && c.input == EncodeAll(rs) + rest
    requires AllEncodable(rs, 1024)
    ensures var (c1, ok, values) := ReadValues(c, |rs|, asString, nullAsNull, []);
            var (c2, tree) := ReadTree(c, |rs|, asString, []);
            && ok && tree.Just?
            && c1.input == rest && c2.input == rest
            && c1.rx == c.rx + |EncodeAll(rs)| && c2.rx == c1.rx
            && values == Values(rs, asString, nullAsNull, ZFalse)
            && VariantValues(tree.value, nullAsNull) == Values(rs, asString, nullAsNull, ZNull)
  {
    forall r | r in rs ensures Encodable(r, 4096) {
      SmallerBuffer(r);
    }
    ReadValuesOfEncoding(c, rs, rest, asString, nullAsNull, []);
    ReadTreeOfEncoding(c, rs, rest, asString, nullAsNull, []);
  }
}
