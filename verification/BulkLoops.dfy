/** Flat arrays are read twice in the source: `mbulk_resp_loop` copies every element through `redis_sock_read`
    and `redis_unpack`; `redis_mbulk_reply_loop` reads straight into a zend_string and skips the unpacking when
    no codec is configured. */
module BulkLoops {
  import opened Decimal
  import opened Options
  import opened Resp
  import opened SockReader

  // ---- redis_unpack ----

  datatype Unserialized = NotSerialized | Decoded(z: ZVal) | Rejected

  /** The serializer and compressor options; the codecs themselves are abstract. */
  datatype Codecs = Codecs(
    serializer: bool,
    compression: bool,
    packIgnoreNumbers: bool,
    signedPhpser: bool,
    numeric: string -> Maybe<ZVal>,
    serialize: ZVal -> string,
    compress: string -> Maybe<string>,
    uncompress: string -> Maybe<string>,
    unserialize: string -> Unserialized)

  function UnserializeOrCopy(o: Codecs, src: string): ZVal {
    match if o.serializer then o.unserialize(src) else NotSerialized
    case NotSerialized => ZString(src)
    case Decoded(z) => z
    case Rejected => ZFalse
  }

  function Unpack(o: Codecs, src: string): ZVal {
    if (o.serializer || o.compression) && o.packIgnoreNumbers && 0 < |src| < 512 && o.numeric(src).Just? then
      o.numeric(src).value
    else if src == "" then
      if o.serializer && o.signedPhpser then ZFalse else ZString("")
    else
      match if o.compression then o.uncompress(src) else Nothing
      case Just(buf) => UnserializeOrCopy(o, buf)
      case Nothing => UnserializeOrCopy(o, src)
  }

  /** What licenses the skip: without serializer and compressor unpacking is the identity. */
  lemma UnpackWithoutCodec(o: Codecs, src: string)
    ensures !o.serializer && !o.compression ==> Unpack(o, src) == ZString(src)
  {
  }

  /** `redis_pack`: numbers as they are if asked to, else serialized, else as text, and compressed if that works. */
  function Pack(o: Codecs, z: ZVal): string
    requires o.serializer || z.ZString? || z.ZLong?
  {
    if o.packIgnoreNumbers && z.ZLong? then Print(z.n)
    else
      var text := if o.serializer then o.serialize(z) else if z.ZString? then z.s else Print(z.n);
      var packed := if o.compression then o.compress(text) else Nothing;
      if packed.Just? then packed.value else text
  }

  /** The codecs undo each other, and an integer in decimal is numeric. */
  ghost predicate Inverse(o: Codecs) {
    && (forall z :: o.unserialize(o.serialize(z)) == Decoded(z) && o.serialize(z) != "")
    && (forall s | o.compress(s).Just? :: o.uncompress(o.compress(s).value) == Just(s) && o.compress(s).value != "")
    && (forall n | FitsLong(n) :: o.numeric(Print(n)) == Just(ZLong(n)))
  }

  /** The stored text is mistaken for nothing else: not for a number, and not for a compressed value it is not. */
  predicate Clear(o: Codecs, z: ZVal)
    requires o.serializer || z.ZString? || z.ZLong?
  {
    var text := Pack(o, z);
    && (o.packIgnoreNumbers && !z.ZLong? && |text| < 512 && (o.serializer || o.compression) ==>
          o.numeric(text).Nothing?)
    && (o.compression && text == (if o.serializer then o.serialize(z) else if z.ZString? then z.s else Print(z.n)) ==>
          o.uncompress(text).Nothing?)
  }

  /** A value comes back as it was stored, with any serializer and any compressor. Without a serializer it is text,
      except for a number that was not to be packed and passes through a compressor that leaves it alone. */
  lemma UnpackOfPacked(o: Codecs, z: ZVal)
    requires o.serializer || z.ZString? || z.ZLong?
    requires Inverse(o) && Clear(o, z) && (z.ZLong? ==> FitsLong(z.n))
    requires o.serializer && o.signedPhpser ==> Pack(o, z) != ""
    ensures Unpack(o, Pack(o, z))
         == if o.serializer || (z.ZLong? && o.packIgnoreNumbers && o.compression) || z.ZString? then z
            else ZString(Print(z.n))
  {
    if z.ZLong? {
      LongLength(z.n);
    }
  }

  // ---- one element ----

  /** `redis_sock_read`: NULL for null bulks, errors and malformed lines. */
  function ReadElement(c: Conn): (r: (Conn, Maybe<string>))
    ensures r.0.Follows(c)
    ensures c.threw ==> r.0.threw
    ensures c.input == "" || !c.open ==> r.0.threw
    ensures !r.0.threw ==> r.0.open && |r.0.input| < |c.input|
    ensures r.1.Just? ==> r.0.threw == c.threw
  {
    var (c1, line) := Gets(c, 4095);
    if line.Nothing? || line.value == "" then (c1, Nothing)
    else
      var s := line.value;
      match s[0]
      case '-' => (AfterError(c1, s[1..]), Nothing)
      case '$' =>
        var n := Strtol(s[1..]);
        if n.NoNumber? || !FitsLong(n.value) || n.value < -1 || n.value > INT_MAX then (c1, Nothing)
        else ReadBulk(c1, n.value)
      case '*' => if |s| > 2 && s[1..3] == "-1" then (c1, Nothing) else Verbatim(c1, s)
      case '+' => Verbatim(c1, s)
      case ':' => Verbatim(c1, s)
      case _ => (c1.Threw(), Nothing)
  }

  function Verbatim(c: Conn, s: string): (Conn, Maybe<string>) {
    if |s| > 1 then (c, Just(s)) else (c.Threw(), Nothing)
  }

  /** `redis_sock_read`. */
  method RedisSockRead(sock: StreamReader) returns (r: Maybe<string>)
    modifies sock
    ensures (sock.State(), r) == ReadElement(old(sock.State()))
  {
    var line := sock.Gets(4095);
    if line.Nothing? || line.value == "" {
      return Nothing;
    }
    var s := line.value;
    if s[0] == '-' {
      sock.threw := sock.threw || ErrorThrows(s[1..]);
      return Nothing;
    } else if s[0] == '$' {
      var n := Strtol(s[1..]);
      if n.NoNumber? || !FitsLong(n.value) || n.value < -1 || n.value > INT_MAX {
        return Nothing;
      }
      r := sock.ReadBulkReply(n.value);
      return;
    } else if s[0] == '*' && |s| > 2 && s[1..3] == "-1" {
      return Nothing;
    } else if s[0] == '*' || s[0] == '+' || s[0] == ':' {
      if |s| > 1 {
        return Just(s);
      }
    }
    sock.threw := true;
    return Nothing;
  }

  /** `redis_sock_read_bulk_zstr`: body and CRLF land in one buffer that is then trimmed. */
  method RedisSockReadBulkZstr(sock: StreamReader, bytes: int) returns (zstr: Maybe<string>)
    requires bytes != -1
    modifies sock
    ensures (sock.State(), zstr) == ReadBulk(old(sock.State()), bytes)
  {
    if bytes < 0 || bytes > INT_MAX - 2 {
      sock.threw := true;
      return Nothing;
    }
    var ok := sock.CheckEof();
    if !ok {
      return Nothing;
    }
    var nbytes := bytes + 2;
    var buf := "";
    while |buf| < nbytes
      invariant |buf| <= nbytes && |buf| <= |old(sock.input)|
      invariant buf == old(sock.input)[..|buf|]
      invariant sock.State() == old(sock.State()).Take(|buf|)
      decreases nbytes - |buf|
    {
      var got := sock.ReadRaw(nbytes - |buf|);
      if got == "" {
        break;
      }
      buf := buf + got;
    }
    if |buf| < nbytes {
      sock.threw := true;
      return Nothing;
    }
    assert buf[..bytes] == old(sock.input)[..bytes];
    return Just(buf[..bytes]);
  }

  /** `redis_sock_read_zstr`. */
  method RedisSockReadZstr(sock: StreamReader) returns (r: Maybe<string>)
    modifies sock
    ensures (sock.State(), r) == ReadElement(old(sock.State()))
  {
    var line := sock.Gets(4095);
    if line.Nothing? || line.value == "" {
      return Nothing;
    }
    var s := line.value;
    if s[0] == '-' {
      sock.threw := sock.threw || ErrorThrows(s[1..]);
      return Nothing;
    } else if s[0] == '$' {
      var n := Strtol(s[1..]);
      if n.NoNumber? || !FitsLong(n.value) || n.value < -1 || n.value > INT_MAX {
        return Nothing;
      }
      if n.value == -1 {
        return Nothing;
      }
      r := RedisSockReadBulkZstr(sock, n.value);
      return;
    } else if s[0] == '*' && |s| > 2 && s[1..3] == "-1" {
      return Nothing;
    } else if s[0] == '*' || s[0] == '+' || s[0] == ':' {
      if |s| > 1 {
        return Just(s);
      }
    }
    sock.threw := true;
    return Nothing;
  }

  // ---- what an element is ----

  /** A reply that can be an element of a flat array, and raises no exception. */
  predicate Flat(r: Reply) {
    match r
    case Status(t) => IsLine(t) && 0 < |t| <= 4000
    case Error(t) => IsLine(t) && |t| <= 4000 && !ErrorThrows(t)
    case Integer(n) => FitsLong(n)
    case Bulk(b) => |b| <= INT_MAX - 2
    case NullBulk => true
    case NullArray => true
    case Array(_) => false
  }

  /** A bulk is its body, a status or an integer its line with the type byte, and the others are missing. */
  function Text(r: Reply): Maybe<string> {
    match r
    case Bulk(b) => Just(b)
    case Status(t) => Just("+" + t)
    case Integer(n) => Just(":" + Print(n))
    case _ => Nothing
  }

  function Line(r: Reply): string
    requires !r.Array?
  {
    match r
    case Status(t) => "+" + t
    case Error(t) => "-" + t
    case Integer(n) => ":" + Print(n)
    case Bulk(b) => "$" + Print(|b|)
    case NullBulk => "$-1"
    case NullArray => "*-1"
  }

  lemma LineIs(r: Reply, rest: string)
    requires Flat(r)
    ensures IsLine(Line(r)) && 0 < |Line(r)| <= 4001
    ensures Encode(r) + rest == Line(r) + CRLF + ((if r.Bulk? then r.body + CRLF else "") + rest)
  {
    match r
    case Integer(n) => LongLength(n);
    case Bulk(b) => LongLength(|b|);
    case _ =>
  }

  lemma ReadFirstLine(c: Conn, r: Reply, rest: string)
    requires c.open && c.input == Encode(r) + rest && Flat(r)
    ensures 0 < |Line(r)|
    ensures Gets(c, 4095) == (c.Take(|Line(r)| + 2), Just(Line(r)))
    ensures c.Take(|Line(r)| + 2).input == (if r.Bulk? then r.body + CRLF else "") + rest
  {
    LineIs(r, rest);
    hide Encode, Line, Flat;
    GetsLine(c, Line(r), (if r.Bulk? then r.body + CRLF else "") + rest, 4095);
  }

  lemma ElementOfBulk(c: Conn, b: string, rest: string)
    requires c.open && c.input == Encode(Bulk(b)) + rest && |b| <= INT_MAX - 2
    ensures ReadElement(c) == (c.Take(|Encode(Bulk(b))|), Just(b))
    ensures c.Take(|Encode(Bulk(b))|).input == rest
  {
    var line := Line(Bulk(b));
    ReadFirstLine(c, Bulk(b), rest);
    assert line[0] == '$' && line[1..] == Print(|b|);
    StrtolWhole(|b|);
    ReadBody(c.Take(|line| + 2), b, rest);
    hide Gets, Strtol, Print;
    assert c.Take(|line| + 2).Take(|b| + 2) == c.Take(|Encode(Bulk(b))|);
  }

  lemma ElementOfNullBulk(c: Conn, rest: string)
    requires c.open && c.input == Encode(NullBulk) + rest
    ensures ReadElement(c) == (c.Take(|Encode(NullBulk)|), Nothing)
    ensures c.Take(|Encode(NullBulk)|).input == rest
  {
    ReadFirstLine(c, NullBulk, rest);
    StrtolWhole(-1);
    assert Dec(1) == "1";
    hide Gets, Strtol;
    assert Line(NullBulk)[1..] == Print(-1);
  }

  lemma ElementOfLine(c: Conn, r: Reply, rest: string)
    requires c.open && c.input == Encode(r) + rest && Flat(r) && !r.Bulk? && !r.NullBulk?
    ensures ReadElement(c) == (c.Take(|Encode(r)|), Text(r))
    ensures c.Take(|Encode(r)|).input == rest
  {
    ReadFirstLine(c, r, rest);
    if r.Integer? {
      LongLength(r.n);
    }
    hide Gets, Strtol, Print;
    var line := Line(r);
    assert r.Error? ==> line[1..] == r.text;
    assert r.NullArray? ==> line[1..3] == "-1";
  }

  /** Every such reply is read whole, and as what it is; an empty bulk is an empty string. */
  lemma ElementOfEncoding(c: Conn, r: Reply, rest: string)
    requires c.open && c.input == Encode(r) + rest && Flat(r)
    ensures ReadElement(c) == (c.Take(|Encode(r)|), Text(r))
    ensures c.Take(|Encode(r)|).input == rest
  {
    hide ReadElement;
    if r.Bulk? {
      ElementOfBulk(c, r.body, rest);
    } else if r.NullBulk? {
      ElementOfNullBulk(c, rest);
    } else {
      ElementOfLine(c, r, rest);
    }
  }

  /** An error that raises an exception is consumed too. */
  lemma ElementThatThrows(c: Conn, t: string, rest: string)
    requires c.open && c.input == Encode(Error(t)) + rest && IsLine(t) && |t| <= 4000 && ErrorThrows(t)
    ensures ReadElement(c) == (c.Take(|Encode(Error(t))|).Threw(), Nothing)
    ensures c.Take(|Encode(Error(t))|).input == rest
  {
    assert c.input == ("-" + t) + CRLF + rest;
    GetsLine(c, "-" + t, rest, 4095);
    hide Gets;
    assert ("-" + t)[1..] == t;
  }

  // ---- the loops ----

  datatype Unwrap = UnwrapNone | UnwrapKeys | UnwrapVals | UnwrapAll
  {
    predicate At(i: nat) {
      UnwrapAll? || (UnwrapKeys? && i % 2 == 0) || (UnwrapVals? && i % 2 != 0)
    }
  }

  /** `mbulk_resp_loop`: `acc` extended by `count` elements; an exception ends it without a value. */
  function RespLoop(c: Conn, count: nat, o: Codecs, acc: seq<ZVal>): (Conn, bool, seq<ZVal>)
    decreases count
  {
    if count == 0 then (c, true, acc)
    else
      var (c1, s) := ReadElement(c);
      if s.Just? then RespLoop(c1, count - 1, o, acc + [Unpack(o, s.value)])
      else if c1.threw then (c1, false, acc)
      else RespLoop(c1, count - 1, o, acc + [ZFalse])
  }

  /** `redis_mbulk_reply_loop` from element `i` on: a missing element is `false` even when it ends the loop. */
  function ReplyLoop(c: Conn, i: nat, count: nat, o: Codecs, mode: Unwrap, acc: seq<ZVal>): (Conn, bool, seq<ZVal>)
    decreases count - i
  {
    if i >= count then (c, true, acc)
    else
      var (c1, s) := ReadElement(c);
      if s.Just? then
        ReplyLoop(c1, i + 1, count, o, mode, acc + [if mode.At(i) then Unpack(o, s.value) else ZString(s.value)])
      else if c1.threw || !c1.open then (c1, false, acc + [ZFalse])
      else ReplyLoop(c1, i + 1, count, o, mode, acc + [ZFalse])
  }

  method MbulkRespLoop(sock: StreamReader, count: nat, o: Codecs) returns (ok: bool, z: seq<ZVal>)
    modifies sock
    ensures (sock.State(), ok, z) == RespLoop(old(sock.State()), count, o, [])
  {
    hide ReadElement, Unpack;
    z := [];
    var left := count;
    while left > 0
      invariant RespLoop(sock.State(), left, o, z) == RespLoop(old(sock.State()), count, o, [])
    {
      var line := RedisSockRead(sock);
      if line.Just? {
        z := z + [Unpack(o, line.value)];
      } else if sock.threw {
        return false, z;
      } else {
        z := z + [ZFalse];
      }
      left := left - 1;
    }
    return true, z;
  }

  method MbulkReplyLoop(sock: StreamReader, count: nat, o: Codecs, mode: Unwrap) returns (ok: bool, z: seq<ZVal>)
    modifies sock
    ensures (sock.State(), ok, z) == ReplyLoop(old(sock.State()), 0, count, o, mode, [])
  {
    hide ReadElement, Unpack;
    z := [];
    var repack := o.serializer || o.compression;
    for i := 0 to count
      invariant ReplyLoop(sock.State(), i, count, o, mode, z) == ReplyLoop(old(sock.State()), 0, count, o, mode, [])
    {
      var zstr := RedisSockReadZstr(sock);
      if zstr.Nothing? {
        z := z + [ZFalse];
        if sock.threw || !sock.open {
          return false, z;
        }
        continue;
      }
      UnpackWithoutCodec(o, zstr.value);
      z := z + [if mode.At(i) && repack then Unpack(o, zstr.value) else ZString(zstr.value)];
    }
    return true, z;
  }

  /** The refinement, on every byte stream: both loops read the same bytes, count them the same, and raise
      together. Without an exception they return the same array; with one, the zero-copy loop has appended
      `false` for the element that failed. */
  lemma {:induction false} ZeroCopyRefinesPlain(c: Conn, i: nat, count: nat, o: Codecs, acc: seq<ZVal>)
    requires i <= count && !c.threw && c.open
    ensures var (c1, ok1, z1) := RespLoop(c, count - i, o, acc);
            var (c2, ok2, z2) := ReplyLoop(c, i, count, o, UnwrapAll, acc);
            && c1 == c2 && ok1 == ok2 && ok1 == !c1.threw
            && z2 == z1 + (if ok1 then [] else [ZFalse])
            && c1.rx - c.rx == |c.input| - |c1.input|
    decreases count - i
  {
    hide Unpack, ReadElement;
    if i < count {
      var (c1, s) := ReadElement(c);
      if !c1.threw {
        ZeroCopyRefinesPlain(c1, i + 1, count, o, acc + [if s.Just? then Unpack(o, s.value) else ZFalse]);
      }
    }
  }

  /** `redis_mbulk_reply_loop` as a whole against the plain loop, for every way the stream is cut into reads. */
  method ZeroCopyLoop(sock: StreamReader, count: nat, o: Codecs) returns (ok: bool, z: seq<ZVal>)
    requires sock.open && !sock.threw
    modifies sock
    ensures var (c, plainOk, plain) := RespLoop(old(sock.State()), count, o, []);
            && sock.State() == c && ok == plainOk == !sock.threw
            && (ok ==> z == plain)
            && sock.rxBytes - old(sock.rxBytes) == |old(sock.input)| - |sock.input|
  {
    ZeroCopyRefinesPlain(sock.State(), 0, count, o, []);
    ok, z := MbulkReplyLoop(sock, count, o, UnwrapAll);
  }

  // ---- what the loops return ----

  /** Whether the value at this place is unserialized: keys stand at even places, values at odd ones. */
  predicate Decodes(mode: Unwrap, i: nat) {
    match mode
    case UnwrapNone => false
    case UnwrapKeys => i % 2 == 0
    case UnwrapVals => i % 2 == 1
    case UnwrapAll => true
  }

  function TextValue(text: Maybe<string>, o: Codecs, decode: bool): ZVal {
    match text
    case Nothing => ZFalse
    case Just(s) => if decode then Unpack(o, s) else ZString(s)
  }

  function ElementValue(r: Reply, o: Codecs, decode: bool): ZVal {
    TextValue(Text(r), o, decode)
  }

  /** The values of an array whose first element stands at place i. */
  function ElementValues(rs: seq<Reply>, i: nat, o: Codecs, mode: Unwrap): (z: seq<ZVal>)
    ensures |z| == |rs|
  {
    if rs == [] then [] else [ElementValue(rs[0], o, Decodes(mode, i))] + ElementValues(rs[1..], i + 1, o, mode)
  }

  predicate AllFlat(rs: seq<Reply>) {
    forall r | r in rs :: Flat(r)
  }

  lemma FirstElement(c: Conn, rs: seq<Reply>, rest: string)
    requires c.open && c.input == EncodeAll(rs) + rest && AllFlat(rs)
    ensures rs == [] ==> c.Take(|EncodeAll(rs)|) == c && c.input == rest
    ensures rs != [] ==>
              var c1 := c.Take(|Encode(rs[0])|);
              && ReadElement(c) == (c1, Text(rs[0]))
              && c1.open && c1.threw == c.threw && c1.input == EncodeAll(rs[1..]) + rest && AllFlat(rs[1..])
              && c1.Take(|EncodeAll(rs[1..])|) == c.Take(|EncodeAll(rs)|)
  {
    if rs != [] {
      var after := EncodeAll(rs[1..]) + rest;
      assert c.input == Encode(rs[0]) + after;
      ElementOfEncoding(c, rs[0], after);
    }
  }

  lemma RespLoopStep(c: Conn, c1: Conn, text: Maybe<string>, count: nat, o: Codecs, acc: seq<ZVal>)
    requires count > 0 && ReadElement(c) == (c1, text) && !c1.threw
    ensures RespLoop(c, count, o, acc) == RespLoop(c1, count - 1, o, acc + [TextValue(text, o, true)])
  {
    hide ReadElement, Unpack;
  }

  lemma ReplyLoopStep(
      c: Conn, c1: Conn, text: Maybe<string>, i: nat, count: nat, o: Codecs, mode: Unwrap, acc: seq<ZVal>)
    requires i < count && ReadElement(c) == (c1, text) && !c1.threw && c1.open
    ensures ReplyLoop(c, i, count, o, mode, acc)
         == ReplyLoop(c1, i + 1, count, o, mode, acc + [TextValue(text, o, Decodes(mode, i))])
  {
    hide ReadElement, Unpack;
  }

  lemma ValuesStep(rs: seq<Reply>, i: nat, o: Codecs, mode: Unwrap, acc: seq<ZVal>)
    ensures acc + ElementValues(rs, i, o, mode)
         == if rs == [] then acc
            else acc + [ElementValue(rs[0], o, Decodes(mode, i))] + ElementValues(rs[1..], i + 1, o, mode)
  {
  }

  lemma {:induction false} RespLoopOfEncoding(c: Conn, rs: seq<Reply>, rest: string, i: nat, o: Codecs, acc: seq<ZVal>)
    requires c.open && !c.threw && c.input == EncodeAll(rs) + rest && AllFlat(rs)
    ensures RespLoop(c, |rs|, o, acc)
         == (c.Take(|EncodeAll(rs)|), true, acc + ElementValues(rs, i, o, UnwrapAll))
    ensures c.Take(|EncodeAll(rs)|).input == rest
    decreases |rs|
  {
    FirstElement(c, rs, rest);
    ValuesStep(rs, i, o, UnwrapAll, acc);
    hide ReadElement, Unpack, Encode, EncodeAll, AllFlat, Text, TextValue, ElementValues;
    if rs != [] {
      var c1 := c.Take(|Encode(rs[0])|);
      RespLoopStep(c, c1, Text(rs[0]), |rs|, o, acc);
      hide RespLoop;
      RespLoopOfEncoding(c1, rs[1..], rest, i + 1, o, acc + [ElementValue(rs[0], o, true)]);
    }
  }

  lemma {:induction false} ReplyLoopOfEncoding(
      c: Conn, rs: seq<Reply>, rest: string, i: nat, count: nat, o: Codecs, mode: Unwrap, acc: seq<ZVal>)
    requires c.open && !c.threw && c.input == EncodeAll(rs) + rest && AllFlat(rs) && count == i + |rs|
    ensures ReplyLoop(c, i, count, o, mode, acc)
         == (c.Take(|EncodeAll(rs)|), true, acc + ElementValues(rs, i, o, mode))
    ensures c.Take(|EncodeAll(rs)|).input == rest
    decreases |rs|
  {
    FirstElement(c, rs, rest);
    ValuesStep(rs, i, o, mode, acc);
    hide ReadElement, Unpack, Encode, EncodeAll, AllFlat, Text, TextValue, ElementValues, Decodes;
    if rs != [] {
      var c1 := c.Take(|Encode(rs[0])|);
      ReplyLoopStep(c, c1, Text(rs[0]), i, count, o, mode, acc);
      hide ReplyLoop;
      ReplyLoopOfEncoding(c1, rs[1..], rest, i + 1, count, o, mode,
                          acc + [ElementValue(rs[0], o, Decodes(mode, i))]);
    }
  }

  /** Both loops on an array the server sent, whatever the chunks: exactly its bytes, and the value of every element. */
  method ReadArray(sock: StreamReader, ghost rs: seq<Reply>, ghost rest: string, count: nat, o: Codecs, mode: Unwrap,
                   zeroCopy: bool)
    returns (ok: bool, z: seq<ZVal>)
    requires sock.open && !sock.threw && sock.input == EncodeAll(rs) + rest && AllFlat(rs) && count == |rs|
    modifies sock
    ensures ok && !sock.threw && sock.open && sock.input == rest
    ensures sock.rxBytes == old(sock.rxBytes) + |EncodeAll(rs)|
    ensures z == ElementValues(rs, 0, o, if zeroCopy then mode else UnwrapAll)
  {
    if zeroCopy {
      ReplyLoopOfEncoding(sock.State(), rs, rest, 0, count, o, mode, []);
      ok, z := MbulkReplyLoop(sock, count, o, mode);
    } else {
      RespLoopOfEncoding(sock.State(), rs, rest, 0, o, []);
      ok, z := MbulkRespLoop(sock, count, o);
    }
  }
}
