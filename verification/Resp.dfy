/** The RESP2 wire format (sections "Simple strings" to "Bulk strings" of the Redis serialization
    protocol specification), and the socket primitives of library.h that both reply parsers share.
    A connection is the bytes the peer will still deliver; a peer that stops talking in the middle of a
    reply is the same as one whose bytes end there. */
module Resp {
  import opened Decimal
  import opened Options

  const CRLF := "\r\n"

  /** A reply as the server means it. */
  datatype Reply =
    | Status(text: string)
    | Error(text: string)
    | Integer(n: int)
    | Bulk(body: string)
    | NullBulk
    | Array(elems: seq<Reply>)
    | NullArray

  /** The PHP values a reply can turn into. */
  datatype ZVal = ZNull | ZFalse | ZTrue | ZLong(n: int) | ZString(s: string) | ZArray(a: seq<ZVal>)

  function Encode(r: Reply): (s: string)
    ensures |s| >= 1
  {
    match r
    case Status(t) => "+" + t + CRLF
    case Error(t) => "-" + t + CRLF
    case Integer(n) => ":" + Print(n) + CRLF
    case Bulk(b) => "$" + Print(|b|) + CRLF + b + CRLF
    case NullBulk => "$-1" + CRLF
    case Array(es) => "*" + Print(|es|) + CRLF + EncodeAll(es)
    case NullArray => "*-1" + CRLF
  }

  function EncodeAll(rs: seq<Reply>): string {
    if rs == [] then "" else Encode(rs[0]) + EncodeAll(rs[1..])
  }

  /** Replies that fit the buffers of a reader whose line buffer has `lineBuf` bytes. */
  predicate Encodable(r: Reply, lineBuf: nat) {
    match r
    case Status(t) => IsLine(t) && |t| + 3 <= lineBuf
    case Error(t) => IsLine(t) && |t| + 3 <= lineBuf
    case Integer(n) => FitsLong(n)
    case Bulk(b) => |b| <= INT_MAX - 2
    case Array(es) => |es| <= INT_MAX && forall e | e in es :: Encodable(e, lineBuf)
    case _ => true
  }

  predicate IsLine(t: string) {
    '\n' !in t
  }

  /** What a RedisSock knows about its stream while it reads.
      `input`: bytes still to come; `rx`: rxBytes; `open`: stream != NULL; `threw`: an exception is pending. */
  datatype Conn = Conn(input: string, rx: nat, open: bool, threw: bool)
  {
    function Take(n: nat): Conn
      requires n <= |input|
    {
      this.(input := input[n..], rx := rx + n)
    }

    /** `redis_sock_disconnect(.., 1, 1)` followed by an exception. */
    function Broken(): Conn {
      this.(open := false, threw := true)
    }

    function Threw(): Conn {
      this.(threw := true)
    }

    /** Everything this connection delivers is either read and counted, or still to come. */
    predicate Follows(old_: Conn) {
      rx + |input| == old_.rx + |old_.input| && |input| <= |old_.input|
    }
  }

  /** How many bytes `php_stream_get_line` hands out: through the first '\n', at most `max`. */
  function LineSpan(s: string, max: nat): (n: nat)
    ensures n <= |s| && n <= max
    ensures s != "" && max > 0 ==> n > 0
  {
    if s == "" || max == 0 then 0 else if s[0] == '\n' then 1 else 1 + LineSpan(s[1..], max - 1)
  }

  /** `redis_sock_gets`: one line without its CRLF; anything else closes the socket and throws. */
  function Gets(c: Conn, bufSize: nat): (r: (Conn, Maybe<string>))
    requires bufSize >= 3
    ensures r.0.Follows(c)
    ensures r.1.Just? ==> |r.0.input| < |c.input| && r.0.open && r.0.threw == c.threw
    ensures r.1.Nothing? ==> !r.0.open && r.0.threw
  {
    if !c.open || c.input == "" then (c.Broken(), Nothing)
    else
      var n := LineSpan(c.input, bufSize - 1);
      if n >= 2 && c.input[n - 2..n] == CRLF then (c.Take(n), Just(c.input[..n - 2]))
      else (c.Take(n).Broken(), Nothing)
  }

  /** `redis_read_reply_type`: the type byte and, for ':', '$' and '*', the number behind it. */
  function ReadReplyType(c: Conn): (r: (Conn, Maybe<(char, int)>))
    ensures r.0.Follows(c)
    ensures r.1.Just? ==> |r.0.input| < |c.input| && r.0.open && r.0.threw == c.threw
    ensures r.1.Just? && r.1.value.0 == '$' ==> -1 <= r.1.value.1 <= INT_MAX - 2
    ensures r.1.Just? && r.1.value.0 == '*' ==> -1 <= r.1.value.1 <= INT_MAX
    ensures r.1.Just? ==> FitsLong(r.1.value.1)
  {
    if !c.open || c.input == "" then (c.Broken(), Nothing)
    else
      var t := c.input[0];
      var c1 := c.Take(1);
      if t != ':' && t != '$' && t != '*' then (c1, Just((t, 0)))
      else
        var (c2, line) := Gets(c1, 255);
        if line.Nothing? then (c2, Nothing)
        else
          var num := Strtol(line.value);
          if num.NoNumber? || !FitsLong(num.value) then (c2, Nothing)
          else if t == '$' && !(-1 <= num.value <= INT_MAX - 2) then (c2.Threw(), Nothing)
          else if t == '*' && !(-1 <= num.value <= INT_MAX) then (c2.Threw(), Nothing)
          else (c2, Just((t, num.value)))
  }

  /** `redis_sock_read_bulk_reply`: `bytes` bytes and the two behind them, whatever those are. */
  function ReadBulk(c: Conn, bytes: int): (r: (Conn, Maybe<string>))
    ensures r.0.Follows(c)
    ensures r.1.Just? ==> r.0.open && |r.1.value| == bytes && r.0.threw == c.threw
    ensures r.1.Nothing? && bytes != -1 ==> r.0.threw
  {
    if bytes < -1 || bytes > INT_MAX - 2 then (c.Threw(), Nothing)
    else if bytes == -1 then (c, Nothing)
    else if !c.open || c.input == "" then (c.Broken(), Nothing)
    else if |c.input| < bytes + 2 then (c.Take(|c.input|).Threw(), Nothing)
    else (c.Take(bytes + 2), Just(c.input[..bytes]))
  }

  predicate HasPrefix(s: string, p: string) {
    |s| >= |p| && s[..|p|] == p
  }

  /** `redis_error_throw`: which error replies raise an exception instead of only setting `err`. */
  predicate ErrorThrows(text: string) {
    text != ""
    && !(HasPrefix(text, "ERR") && !HasPrefix(text, "ERR AUTH"))
    && !HasPrefix(text, "NOSCRIPT") && !HasPrefix(text, "NOQUORUM") && !HasPrefix(text, "NOGOODSLAVE")
    && !HasPrefix(text, "WRONGTYPE") && !HasPrefix(text, "BUSYGROUP") && !HasPrefix(text, "NOGROUP")
  }

  lemma PrefixOf(p: string, t: string)
    ensures HasPrefix(p + t, p)
  {
  }

  /** Which is to say: ERR is quiet but for ERR AUTH, */
  lemma ErrIsQuiet(t: string)
    ensures ErrorThrows("ERR" + t) <==> HasPrefix(t, " AUTH")
  {
    var text := "ERR" + t;
    PrefixOf("ERR", t);
    assert "ERR AUTH" == "ERR" + " AUTH";
    assert |t| >= 5 ==> text[..8] == "ERR" + t[..5] && text[3..8] == t[..5] && text[..8][3..] == text[3..8];
    assert "ERR AUTH"[3..] == " AUTH";
    assert text[0] == 'E';
  }

  /** so are six other kinds, */
  lemma QuietErrors(kind: string, t: string)
    requires kind == "NOSCRIPT" || kind == "NOQUORUM" || kind == "NOGOODSLAVE"
             || kind == "WRONGTYPE" || kind == "BUSYGROUP" || kind == "NOGROUP"
    ensures !ErrorThrows(kind + t)
  {
    PrefixOf(kind, t);
  }

  /** and anything else throws. */
  lemma OtherErrorsThrow(t: string)
    requires t != "" && !("ERR" <= t) && !("NOSCRIPT" <= t) && !("NOQUORUM" <= t) && !("NOGOODSLAVE" <= t)
    requires !("WRONGTYPE" <= t) && !("BUSYGROUP" <= t) && !("NOGROUP" <= t)
    ensures ErrorThrows(t)
  {
  }

  function AfterError(c: Conn, text: string): Conn {
    if ErrorThrows(text) then c.Threw() else c
  }

  // ---- reading what Encode wrote ----

  lemma {:induction false} LineSpanOfLine(t: string, rest: string, max: nat)
    requires IsLine(t) && |t| + 2 <= max
    ensures LineSpan(t + CRLF + rest, max) == |t| + 2
  {
    var s := t + CRLF + rest;
    if t == "" {
      assert s[1..] == "\n" + rest;
      assert LineSpan("\n" + rest, max - 1) == 1;
    } else {
      assert s[1..] == t[1..] + CRLF + rest;
      LineSpanOfLine(t[1..], rest, max - 1);
    }
  }

  lemma GetsLine(c: Conn, t: string, rest: string, bufSize: nat)
    requires c.open && c.input == t + CRLF + rest
    requires IsLine(t) && |t| + 3 <= bufSize
    ensures Gets(c, bufSize) == (c.Take(|t| + 2), Just(t))
    ensures c.Take(|t| + 2).input == rest
  {
    LineSpanOfLine(t, rest, bufSize - 1);
    assert c.input[|t|..|t| + 2] == CRLF;
    assert c.input[..|t|] == t;
  }

  /** A header written for ':', '$' or '*' is read back as that type and number. */
  lemma ReadHeader(c: Conn, t: char, n: int, rest: string)
    requires c.open && c.input == [t] + Print(n) + CRLF + rest
    requires t == ':' || t == '$' || t == '*'
    requires FitsLong(n)
    requires t == '$' ==> -1 <= n <= INT_MAX - 2
    requires t == '*' ==> -1 <= n <= INT_MAX
    ensures ReadReplyType(c) == (c.Take(|Print(n)| + 3), Just((t, n)))
    ensures c.Take(|Print(n)| + 3).input == rest
  {
    var text := Print(n);
    var c1 := c.Take(1);
    assert c1.input == text + CRLF + rest;
    LongLength(n);
    StrtolWhole(n);
    HeaderIs(c, c1, t, n, text, rest);
  }

  lemma HeaderIs(c: Conn, c1: Conn, t: char, n: int, text: string, rest: string)
    requires c.open && c.input != "" && c.input[0] == t && c1 == c.Take(1)
    requires c1.input == text + CRLF + rest && IsLine(text) && |text| <= 250
    requires t == ':' || t == '$' || t == '*'
    requires Strtol(text) == Number(n, |text|) && FitsLong(n)
    requires t == '$' ==> -1 <= n <= INT_MAX - 2
    requires t == '*' ==> -1 <= n <= INT_MAX
    ensures ReadReplyType(c) == (c.Take(|text| + 3), Just((t, n)))
    ensures c.Take(|text| + 3).input == rest
  {
    GetsLine(c1, text, rest, 255);
    assert c1.Take(|text| + 2) == c.Take(|text| + 3);
  }

  /** Lengths out of range are refused with an exception, and the line is gone. */
  lemma HeaderRefused(c: Conn, t: char, n: int, rest: string)
    requires c.open && c.input == [t] + Print(n) + CRLF + rest && FitsLong(n)
    requires (t == '$' && !(-1 <= n <= INT_MAX - 2)) || (t == '*' && !(-1 <= n <= INT_MAX))
    ensures ReadReplyType(c) == (c.Take(|Print(n)| + 3).Threw(), Nothing)
    ensures c.Take(|Print(n)| + 3).input == rest
  {
    hide Strtol, Gets;
    var text := Print(n);
    assert IsLine(text);
    hide Print;
    var c1 := c.Take(1);
    assert c1.input == text + CRLF + rest;
    LongLength(n);
    StrtolWhole(n);
    GetsLine(c1, text, rest, 255);
    assert c1.Take(|text| + 2) == c.Take(|text| + 3);
  }

  /** A line reply is recognised by its first byte; the text is left for `Gets`. */
  lemma ReadLineType(c: Conn, t: char, rest: string)
    requires c.open && c.input == [t] + rest
    requires t == '+' || t == '-'
    ensures ReadReplyType(c) == (c.Take(1), Just((t, 0)))
    ensures c.Take(1).input == rest
  {
  }

  lemma ReadBody(c: Conn, b: string, rest: string)
    requires c.open && c.input == b + CRLF + rest && |b| <= INT_MAX - 2
    ensures ReadBulk(c, |b|) == (c.Take(|b| + 2), Just(b))
    ensures c.Take(|b| + 2).input == rest
  {
    assert c.input[..|b|] == b;
  }
}
