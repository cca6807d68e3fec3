/** The reading half of a `RedisSock`: the stream helpers of library.h, whose byte counters are fields, and the
    reply readers built on them. `chunks` decides how many bytes each `php_stream_read` delivers. */
module SockReader {
  import opened Decimal
  import opened Options
  import opened Resp

  class StreamReader {
    var input: string
    var rxBytes: nat
    var open: bool
    var threw: bool
    var chunks: seq<nat>

    constructor (input: string, chunks: seq<nat>)
      ensures State() == Conn(input, 0, true, false) && this.chunks == chunks
    {
      this.input, this.rxBytes, this.open, this.threw, this.chunks := input, 0, true, false, chunks;
    }

    ghost function State(): Conn
      reads this
    {
      Conn(input, rxBytes, open, threw)
    }

    method Broken()
      modifies this`open, this`threw
      ensures State() == old(State()).Broken()
    {
      open, threw := false, true;
    }

    /** `redis_check_eof` without retries: an exhausted stream is closed and an exception thrown. */
    method CheckEof() returns (ok: bool)
      modifies this`open, this`threw
      ensures ok == old(open && input != "")
      ensures State() == if ok then old(State()) else old(State()).Broken()
    {
      ok := open && input != "";
      if !ok {
        Broken();
      }
    }

    /** `redis_sock_get_line`. */
    method GetLine(max: nat) returns (line: string)
      modifies this`input, this`rxBytes
      ensures line == old(input[..LineSpan(input, max)])
      ensures State() == old(State().Take(LineSpan(input, max)))
    {
      var n := 0;
      while n < |input| && n < max && (n == 0 || input[n - 1] != '\n')
        invariant n <= |input| && n <= max
        invariant n > 0 && input[n - 1] == '\n' ==> LineSpan(input, max) == n
        invariant n == 0 || input[n - 1] != '\n' ==> LineSpan(input, max) == n + LineSpan(input[n..], max - n)
      {
        n := n + 1;
        assert input[n - 1..][1..] == input[n..];
      }
      line := input[..n];
      input := input[n..];
      rxBytes := rxBytes + n;
    }

    /** `redis_sock_getc`; the caller has checked for EOF. */
    method Getc() returns (c: char)
      requires input != ""
      modifies this`input, this`rxBytes
      ensures c == old(input[0]) && State() == old(State().Take(1))
    {
      c := input[0];
      input := input[1..];
      rxBytes := rxBytes + 1;
    }

    /** `redis_sock_read_raw`: some non-empty prefix of what is left, at most `size` bytes. */
    method ReadRaw(size: nat) returns (got: string)
      requires size > 0
      modifies this`input, this`rxBytes, this`chunks
      ensures got <= old(input) && |got| <= size
      ensures old(input) != "" ==> got != ""
      ensures State() == old(State()).Take(|got|)
    {
      var want := if chunks == [] || chunks[0] == 0 then size else chunks[0];
      chunks := if chunks == [] then [] else chunks[1..];
      var n := if want < size then want else size;
      n := if n < |input| then n else |input|;
      got := input[..n];
      input := input[n..];
      rxBytes := rxBytes + n;
    }

    method Gets(bufSize: nat) returns (line: Maybe<string>)
      requires bufSize >= 3
      modifies this
      ensures (State(), line) == Resp.Gets(old(State()), bufSize)
    {
      var ok := CheckEof();
      if !ok {
        return Nothing;
      }
      var buf := GetLine(bufSize - 1);
      assert buf == old(input)[..|buf|];
      if |buf| < 2 || buf[|buf| - 2..] != CRLF {
        assert |buf| >= 2 ==> buf[|buf| - 2..] == old(input)[|buf| - 2..|buf|];
        Broken();
        return Nothing;
      }
      assert buf[..|buf| - 2] == old(input)[..|buf| - 2];
      assert buf[|buf| - 2..] == old(input)[|buf| - 2..|buf|];
      return Just(buf[..|buf| - 2]);
    }

    method ReadReplyType() returns (t: Maybe<(char, int)>)
      modifies this
      ensures (State(), t) == Resp.ReadReplyType(old(State()))
    {
      var ok := CheckEof();
      if !ok {
        return Nothing;
      }
      var c := Getc();
      if c != ':' && c != '$' && c != '*' {
        return Just((c, 0));
      }
      var line := Gets(255);
      if line.Nothing? {
        return Nothing;
      }
      var num := Strtol(line.value);
      if num.NoNumber? || !FitsLong(num.value) {
        return Nothing;
      }
      if (c == '$' && (num.value < -1 || num.value > INT_MAX - 2)) ||
         (c == '*' && (num.value < -1 || num.value > INT_MAX)) {
        threw := true;
        return Nothing;
      }
      return Just((c, num.value));
    }

    /** `redis_sock_read_bulk_reply`: gather the body and its CRLF from as many reads as it takes. */
    method ReadBulkReply(bytes: int) returns (reply: Maybe<string>)
      modifies this
      ensures (State(), reply) == ReadBulk(old(State()), bytes)
    {
      if bytes < -1 || bytes > INT_MAX - 2 {
        threw := true;
        return Nothing;
      }
      if bytes == -1 {
        return Nothing;
      }
      var ok := CheckEof();
      if !ok {
        return Nothing;
      }
      var nbytes := bytes + 2;
      var buf := "";
      while |buf| < nbytes
        invariant |buf| <= nbytes && |buf| <= |old(input)|
        invariant buf == old(input)[..|buf|]
        invariant State() == old(State()).Take(|buf|)
        decreases nbytes - |buf|
      {
        var got := ReadRaw(nbytes - |buf|);
        if got == "" {
          break;
        }
        buf := buf + got;
      }
      if |buf| < nbytes {
        threw := true;
        return Nothing;
      }
      assert buf[..bytes] == old(input)[..bytes];
      return Just(buf[..bytes]);
    }
  }
}
