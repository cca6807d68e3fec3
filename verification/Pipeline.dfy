/** Transactions inside a pipeline: MULTI and EXEC leave NULL callbacks in a flat queue, the commands go to the
    server in one write, and the reply loop parses the flat queue against the nested reply stream. */
module Pipeline {
  import opened Decimal
  import opened Options
  import opened Resp
  import opened SockReader
  import opened ReplyTrees
  import opened BulkLoops
  import opened Callbacks

  /** A command on the wire, with the answer the server will give once it executes it. */
  datatype Command = Plain(reply: Reply) | Multi | Exec(aborted: bool)

  // ---- the reply loop ----

  /** `int num = atol(inbuf + 1)`. */
  function ElementCount(line: string): int {
    if line == "" then 0
    else
      var n := Strtol(line[1..]);
      if n.NoNumber? then 0
      else AsInt(if n.value < LONG_MIN then LONG_MIN else if n.value > LONG_MAX then LONG_MAX else n.value)
  }

  function AsInt(n: int): int {
    var u := n % 0x1_0000_0000;
    if u <= INT_MAX then u else u - 0x1_0000_0000
  }

  /** How a command handler reads its reply in this model: one reply, one value appended. */
  datatype HandlerOptions = HandlerOptions(asString: bool, nullAsNull: bool)

  function Handle(c: Conn, h: HandlerOptions): (r: (Conn, seq<ZVal>))
    ensures r.0.Follows(c)
  {
    var (c1, _, z) := ReadValues(c, 1, h.asString, h.nullAsNull, []);
    (c1, z)
  }

  /** `redis_response_enqueued`, `n` times. */
  function ReadQueued(c: Conn, n: nat): (r: (Conn, bool))
    ensures r.0.Follows(c)
    decreases n
  {
    if n == 0 then (c, true)
    else
      var (c1, s) := ReadElement(c);
      if s.Just? && HasPrefix(s.value, "+QUEUED") then ReadQueued(c1, n - 1) else (c1, false)
  }

  /** One transaction of `n` commands: the +OK, the acknowledgements, and the array behind EXEC. */
  function ReadTransaction(c: Conn, n: nat, h: HandlerOptions): (r: (Conn, Maybe<ZVal>))
    ensures r.0.Follows(c)
  {
    var (c1, ok) := Gets(c, 254);
    if ok.Nothing? || !HasPrefix(ok.value, "+OK") then (c1, Nothing)
    else
      var (c2, queued) := ReadQueued(c1, n);
      if !queued then (c2, Nothing)
      else
        var (c3, line) := Gets(c2, 254);
        if line.Nothing? then (c3, Nothing)
        else
          var num := ElementCount(line.value);
          if num <= 0 then (c3, Just(ZArray([])))
          else
            var (c4, done, z) := ReadValues(c3, num, false, h.nullAsNull, []);
            (c4, if done then Just(ZArray(z)) else Nothing)
  }

  function Flush(c: Conn, queue: seq<FoldItem>, h: HandlerOptions, acc: seq<ZVal>): (r: (Conn, bool, seq<ZVal>))
    requires Paired(queue)
    ensures r.0.Follows(c)
    decreases |queue|
  {
    if queue == [] then (c, true, acc)
    else if queue[0].Handler? then
      var (c1, z) := Handle(c, h);
      assert Paired(queue[1..]);
      Flush(c1, queue[1..], h, acc + z)
    else
      var n := Closing(queue);
      var (c1, tx) := ReadTransaction(c, n, h);
      if tx.Nothing? then (c1, false, acc) else Flush(c1, queue[n + 2..], h, acc + [tx.value])
  }

  /** `redis_response_enqueued`. */
  method ResponseEnqueued(sock: StreamReader) returns (ok: bool)
    modifies sock
    ensures (sock.State(), ok) == ReadQueued(old(sock.State()), 1)
  {
    var resp := RedisSockRead(sock);
    return resp.Just? && HasPrefix(resp.value, "+QUEUED");
  }

  /** The part of the reply loop behind a NULL callback at `open`; `i` ends on the marker that closes it. */
  method ReplayTransaction(sock: StreamReader, queue: seq<FoldItem>, open: nat, h: HandlerOptions)
    returns (i: nat, z: Maybe<ZVal>)
    requires open < |queue| && queue[open].Marker? && Paired(queue[open..])
    modifies sock
    ensures (sock.State(), z) == ReadTransaction(old(sock.State()), Closing(queue[open..]), h)
    ensures z.Just? ==> i == open + 1 + Closing(queue[open..])
  {
    hide Gets, ReadElement, HasPrefix, ReadValues, ElementCount;
    i := open;
    var line := sock.Gets(254);
    if line.Nothing? || !HasPrefix(line.value, "+OK") {
      return i, Nothing;
    }
    ghost var n := Closing(queue[open..]);
    ghost var acked := ReadQueued(sock.State(), n);
    i := i + 1;
    while queue[i].Handler?
      invariant open + 1 <= i <= open + 1 + n
      invariant ReadQueued(sock.State(), open + 1 + n - i) == acked
      decreases |queue| - i
    {
      assert queue[open..][i - open] == queue[i];
      ghost var before := sock.State();
      var enqueued := ResponseEnqueued(sock);
      if !enqueued {
        return i, Nothing;
      }
      i := i + 1;
    }
    assert queue[open..][i - open] == queue[i];
    line := sock.Gets(254);
    if line.Nothing? {
      return i, Nothing;
    }
    var num := ElementCount(line.value);
    if num <= 0 {
      return i, Just(ZArray([]));
    }
    var done, sub := ReadMultibulkRecursive(sock, num, false, h.nullAsNull);
    return i, if done then Just(ZArray(sub)) else Nothing;
  }

  /** `redis_sock_read_multibulk_multi_reply_loop`. The inner scan has no bound of its own: it needs `Paired`. */
  method MultiReplyLoop(sock: StreamReader, queue: seq<FoldItem>, h: HandlerOptions) returns (ok: bool, zTab: seq<ZVal>)
    requires Paired(queue)
    modifies sock
    ensures var r := Flush(old(sock.State()), queue, h, []);
            sock.State() == r.0 && ok == r.1 && (ok ==> zTab == r.2)
  {
    hide ReadValues, ReadTransaction, Closing, Markers;
    zTab := [];
    var i := 0;
    assert queue[0..] == queue;
    while i < |queue|
      invariant i <= |queue| && Paired(queue[i..])
      invariant Flush(sock.State(), queue[i..], h, zTab) == Flush(old(sock.State()), queue, h, [])
    {
      ghost var left := queue[i..];
      if queue[i].Handler? {
        PairedTail(left);
        assert left[1..] == queue[i + 1..];
        var _, z := ReadMultibulkRecursive(sock, 1, h.asString, h.nullAsNull);
        zTab := zTab + z;
        i := i + 1;
        continue;
      }
      assert left[Closing(left) + 2..] == queue[i + Closing(left) + 2..];
      var close, z := ReplayTransaction(sock, queue, i, h);
      if z.Nothing? {
        return false, zTab;
      }
      i := close + 1;
      zTab := zTab + [z.value];
    }
    return true, zTab;
  }

  // ---- the calls before the flush ----

  /** The part of a RedisSock that pipelining calls touch. */
  datatype Pipe = Pipe(mode: Mode, queue: seq<FoldItem>, wire: seq<Command>)

  datatype Call = CallCommand(reply: Reply) | CallMulti | CallExec(aborted: bool)

  /** A command, `multi()` and the `exec()` that closes a transaction, in pipeline mode (redis.c). */
  function Enqueue(p: Pipe, call: Call): Pipe {
    match call
    case CallCommand(r) => p.(queue := p.queue + [Handler(NoEffect)], wire := p.wire + [Plain(r)])
    case CallMulti =>
      if p.mode.multi then p
      else Pipe(p.mode.(multi := true), p.queue + [Marker], p.wire + [Multi])
    case CallExec(aborted) =>
      Pipe(p.mode.(multi := false), p.queue + [Marker], p.wire + [Exec(aborted)])
  }

  function EnqueueAll(p: Pipe, calls: seq<Call>): Pipe
    decreases calls
  {
    if calls == [] then p else EnqueueAll(Enqueue(p, calls[0]), calls[1..])
  }

  /** `exec()` closes a transaction only inside one (otherwise it flushes), and none is left open. */
  predicate WellNested(calls: seq<Call>, inside: bool) {
    if calls == [] then !inside
    else match calls[0]
      case CallCommand(_) => WellNested(calls[1..], inside)
      case CallMulti => WellNested(calls[1..], true)
      case CallExec(_) => inside && WellNested(calls[1..], false)
  }

  function QueueOf(calls: seq<Call>, inside: bool): seq<FoldItem> {
    if calls == [] then []
    else match calls[0]
      case CallCommand(_) => [Handler(NoEffect)] + QueueOf(calls[1..], inside)
      case CallMulti => (if inside then [] else [Marker]) + QueueOf(calls[1..], true)
      case CallExec(_) => [Marker] + QueueOf(calls[1..], false)
  }

  function WireOf(calls: seq<Call>, inside: bool): seq<Command> {
    if calls == [] then []
    else match calls[0]
      case CallCommand(r) => [Plain(r)] + WireOf(calls[1..], inside)
      case CallMulti => (if inside then [] else [Multi]) + WireOf(calls[1..], true)
      case CallExec(a) => [Exec(a)] + WireOf(calls[1..], false)
  }

  /** Call by call or all at once: the queue and the wire grow by the same amounts. */
  lemma {:induction false} EnqueueAllIs(p: Pipe, calls: seq<Call>)
    requires WellNested(calls, p.mode.multi)
    ensures EnqueueAll(p, calls) == Pipe(p.mode.(multi := false), p.queue + QueueOf(calls, p.mode.multi),
                                         p.wire + WireOf(calls, p.mode.multi))
    decreases calls
  {
    hide QueueOf, WireOf;
    if calls == [] {
      QueueAndWireOfNone(p.mode.multi);
      assert p.queue + [] == p.queue && p.wire + [] == p.wire;
    } else {
      var p' := Enqueue(p, calls[0]);
      EnqueueAllIs(p', calls[1..]);
      EnqueueGrows(p, calls);
    }
  }

  lemma QueueAndWireOfNone(inside: bool)
    ensures QueueOf([], inside) == [] && WireOf([], inside) == []
  {
  }

  lemma EnqueueGrows(p: Pipe, calls: seq<Call>)
    requires calls != []
    ensures var p' := Enqueue(p, calls[0]);
            && p'.queue + QueueOf(calls[1..], p'.mode.multi) == p.queue + QueueOf(calls, p.mode.multi)
            && p'.wire + WireOf(calls[1..], p'.mode.multi) == p.wire + WireOf(calls, p.mode.multi)
  {
    var p' := Enqueue(p, calls[0]);
    var q, w := QueueOf(calls[1..], p'.mode.multi), WireOf(calls[1..], p'.mode.multi);
    match calls[0]
    case CallCommand(r) =>
      Assoc(p.queue, [Handler(NoEffect)], q);
      Assoc(p.wire, [Plain(r)], w);
    case CallMulti =>
      Assoc(p.queue, if p.mode.multi then [] else [Marker], q);
      Assoc(p.wire, if p.mode.multi then [] else [Multi], w);
      assert p.queue + [] == p.queue && p.wire + [] == p.wire;
    case CallExec(aborted) =>
      Assoc(p.queue, [Marker], q);
      Assoc(p.wire, [Exec(aborted)], w);
  }

  lemma Assoc<T>(a: seq<T>, b: seq<T>, c: seq<T>)
    ensures (a + b) + c == a + (b + c)
  {
  }

  lemma {:induction false} QueueOfParity(calls: seq<Call>, inside: bool)
    requires WellNested(calls, inside)
    ensures Markers(QueueOf(calls, inside)) % 2 == if inside then 1 else 0
  {
    if calls != [] {
      var inside' := if calls[0].CallMulti? then true else if calls[0].CallExec? then false else inside;
      var rest := QueueOf(calls[1..], inside');
      QueueOfParity(calls[1..], inside');
      MarkersAppend(if calls[0].CallCommand? then [Handler(NoEffect)] else [Marker], rest);
      assert inside && calls[0].CallMulti? ==> [] + rest == rest;
    }
  }

  // ---- the server ----

  /** What the server sends for a stream of commands, `queued` being the transaction it is in. */
  function Serve(wire: seq<Command>, inside: bool, queued: seq<Reply>): string {
    if wire == [] then ""
    else match wire[0]
      case Plain(r) =>
        if inside then "+QUEUED" + CRLF + Serve(wire[1..], true, queued + [r])
        else Encode(r) + Serve(wire[1..], false, [])
      case Multi => "+OK" + CRLF + Serve(wire[1..], true, [])
      case Exec(aborted) =>
        Encode(if aborted then NullArray else Array(queued)) + Serve(wire[1..], false, [])
  }

  /** What the application is promised: a value per plain command, an array per transaction. */
  function Expected(calls: seq<Call>, inside: bool, queued: seq<Reply>, h: HandlerOptions): seq<ZVal> {
    if calls == [] then []
    else match calls[0]
      case CallCommand(r) =>
        if inside then Expected(calls[1..], true, queued + [r], h)
        else [Value(r, h.asString, h.nullAsNull, ZFalse)] + Expected(calls[1..], false, [], h)
      case CallMulti => Expected(calls[1..], true, if inside then queued else [], h)
      case CallExec(aborted) =>
        [ZArray(if aborted then [] else Values(queued, false, h.nullAsNull, ZFalse))]
        + Expected(calls[1..], false, [], h)
  }

  predicate Readable(calls: seq<Call>) {
    |calls| <= INT_MAX && forall c | c in calls && c.CallCommand? :: Encodable(c.reply, 4096)
  }

  /** A transaction as the calls spell it: its commands' replies, how it ended, the calls behind its EXEC. */
  datatype Transaction = Transaction(body: seq<Reply>, aborted: bool, after: seq<Call>)

  function Split(calls: seq<Call>, queued: seq<Reply>): (t: Transaction)
    requires WellNested(calls, true)
    ensures WellNested(t.after, false) && |t.after| < |calls|
    ensures |queued| <= |t.body| <= |queued| + |calls|
    ensures Readable(calls) ==> Readable(t.after)
  {
    match calls[0]
    case CallCommand(r) => Split(calls[1..], queued + [r])
    case CallMulti => Split(calls[1..], queued)
    case CallExec(aborted) => Transaction(queued, aborted, calls[1..])
  }

  function Handlers(n: nat): seq<FoldItem> {
    seq(n, _ => Handler(NoEffect))
  }

  function Acknowledgements(n: nat): string {
    if n == 0 then "" else "+QUEUED" + CRLF + Acknowledgements(n - 1)
  }

  function ExecReply(t: Transaction): Reply {
    if t.aborted then NullArray else Array(t.body)
  }

  function TransactionValue(t: Transaction, h: HandlerOptions): ZVal {
    ZArray(if t.aborted then [] else Values(t.body, false, h.nullAsNull, ZFalse))
  }

  /** Queue, stream and promised values of the rest of a transaction all split at the same command. */
  lemma {:induction false} SplitQueue(calls: seq<Call>, queued: seq<Reply>)
    requires WellNested(calls, true)
    ensures var t := Split(calls, queued);
            QueueOf(calls, true) == Handlers(|t.body| - |queued|) + ([Marker] + QueueOf(t.after, false))
  {
    var t := Split(calls, queued);
    var rest := [Marker] + QueueOf(t.after, false);
    match calls[0]
    case CallCommand(r) =>
      var n := |t.body| - |queued|;
      SplitQueue(calls[1..], queued + [r]);
      assert [Handler(NoEffect)] + Handlers(n - 1) == Handlers(n);
      Assoc([Handler(NoEffect)], Handlers(n - 1), rest);
    case CallMulti =>
      SplitQueue(calls[1..], queued);
      assert [] + QueueOf(calls[1..], true) == QueueOf(calls[1..], true);
    case CallExec(_) =>
      assert Handlers(0) + rest == rest;
  }

  lemma ServeCons(cmd: Command, wire: seq<Command>, inside: bool, queued: seq<Reply>)
    ensures Serve([cmd] + wire, inside, queued) ==
      match cmd
      case Plain(r) =>
        if inside then "+QUEUED" + CRLF + Serve(wire, true, queued + [r]) else Encode(r) + Serve(wire, false, [])
      case Multi => "+OK" + CRLF + Serve(wire, true, [])
      case Exec(aborted) => Encode(if aborted then NullArray else Array(queued)) + Serve(wire, false, [])
  {
    assert ([cmd] + wire)[1..] == wire;
  }

  lemma {:induction false} SplitStream(calls: seq<Call>, queued: seq<Reply>)
    requires WellNested(calls, true)
    ensures var t := Split(calls, queued);
            Serve(WireOf(calls, true), true, queued) ==
              Acknowledgements(|t.body| - |queued|) + (Encode(ExecReply(t)) + Serve(WireOf(t.after, false), false, []))
  {
    hide Serve, Encode;
    match calls[0]
    case CallCommand(r) =>
      SplitStream(calls[1..], queued + [r]);
      ServeCons(Plain(r), WireOf(calls[1..], true), true, queued);
    case CallMulti =>
      SplitStream(calls[1..], queued);
      assert [] + WireOf(calls[1..], true) == WireOf(calls[1..], true);
    case CallExec(aborted) =>
      ServeCons(Exec(aborted), WireOf(calls[1..], false), true, queued);
      var t := Split(calls, queued);
      var tail := Encode(ExecReply(t)) + Serve(WireOf(t.after, false), false, []);
      assert "" + tail == tail;
  }

  lemma {:induction false} SplitExpected(calls: seq<Call>, queued: seq<Reply>, h: HandlerOptions)
    requires WellNested(calls, true)
    ensures var t := Split(calls, queued);
            Expected(calls, true, queued, h) == [TransactionValue(t, h)] + Expected(t.after, false, [], h)
  {
    hide Values;
    match calls[0]
    case CallCommand(r) => SplitExpected(calls[1..], queued + [r], h);
    case CallMulti => SplitExpected(calls[1..], queued, h);
    case CallExec(_) =>
  }

  lemma {:induction false} BodyEncodable(calls: seq<Call>, queued: seq<Reply>)
    requires WellNested(calls, true) && Readable(calls) && AllEncodable(queued, 4096)
    ensures AllEncodable(Split(calls, queued).body, 4096)
  {
    if calls[0].CallCommand? {
      BodyEncodable(calls[1..], queued + [calls[0].reply]);
    } else if calls[0].CallMulti? {
      BodyEncodable(calls[1..], queued);
    }
  }

  lemma ReadElementOfStatus(c: Conn, text: string, rest: string)
    requires c.open && c.input == "+" + text + CRLF + rest
    requires IsLine(text) && 0 < |text| <= 100
    ensures ReadElement(c) == (c.Take(|text| + 3), Just("+" + text))
    ensures c.Take(|text| + 3).input == rest
  {
    hide Gets;
    GetsLine(c, "+" + text, rest, 4095);
  }

  lemma {:induction false} ReadQueuedIs(c: Conn, n: nat, rest: string)
    requires c.open && c.input == Acknowledgements(n) + rest
    ensures var r := ReadQueued(c, n); r.1 && r.0.open && r.0.input == rest
    decreases n
  {
    hide ReadElement, Gets;
    if n > 0 {
      assert c.input == "+" + "QUEUED" + CRLF + (Acknowledgements(n - 1) + rest);
      ReadElementOfStatus(c, "QUEUED", Acknowledgements(n - 1) + rest);
      assert HasPrefix("+" + "QUEUED", "+QUEUED");
      ReadQueuedIs(c.Take(9), n - 1, rest);
    }
  }

  /** The array header behind EXEC, and its elements through `redis_read_multibulk_recursive`. */
  lemma ReadTransactionIs(c: Conn, t: Transaction, n: nat, h: HandlerOptions, rest: string)
    requires c.open && c.input == "+OK" + CRLF + (Acknowledgements(n) + (Encode(ExecReply(t)) + rest))
    requires AllEncodable(t.body, 4096) && |t.body| <= INT_MAX
    ensures var r := ReadTransaction(c, n, h);
            r.1 == Just(TransactionValue(t, h)) && r.0.open && r.0.input == rest
  {
    hide Gets, ReadQueued, ReadValues, Strtol, Encode;
    GetsLine(c, "+OK", Acknowledgements(n) + (Encode(ExecReply(t)) + rest), 254);
    assert HasPrefix("+OK", "+OK");
    var c1 := c.Take(5);
    ReadQueuedIs(c1, n, Encode(ExecReply(t)) + rest);
    var c2 := ReadQueued(c1, n).0;
    var num := if t.aborted then -1 else |t.body|;
    var elems := if t.aborted then "" else EncodeAll(t.body);
    ExecHeader(c2, t, num, elems, rest);
    if !t.aborted && num > 0 {
      ReadValuesOfEncoding(Gets(c2, 254).0, t.body, rest, false, h.nullAsNull, []);
      assert [] + Values(t.body, false, h.nullAsNull, ZFalse) == Values(t.body, false, h.nullAsNull, ZFalse);
    } else {
      assert elems + rest == rest;
    }
  }

  lemma ExecHeader(c: Conn, t: Transaction, num: int, elems: string, rest: string)
    requires c.open && c.input == Encode(ExecReply(t)) + rest && |t.body| <= INT_MAX
    requires num == if t.aborted then -1 else |t.body|
    requires elems == if t.aborted then "" else EncodeAll(t.body)
    ensures var r := Gets(c, 254);
            r.0.open && r.0.input == elems + rest && r.1.Just? && ElementCount(r.1.value) == num
  {
    hide Gets, Strtol;
    assert Print(-1) == "-1";
    var line := "*" + Print(num);
    assert c.input == line + CRLF + (elems + rest);
    LongLength(num);
    assert IsLine(line) && line[1..] == Print(num);
    hide Encode, EncodeAll, Print;
    GetsLine(c, line, elems + rest, 254);
    StrtolWhole(num);
  }

  lemma HandleIs(c: Conn, r: Reply, h: HandlerOptions, rest: string)
    requires c.open && c.input == Encode(r) + rest && Encodable(r, 4096)
    ensures var (c1, z) := Handle(c, h);
            c1.open && c1.input == rest && z == [Value(r, h.asString, h.nullAsNull, ZFalse)]
  {
    hide ReadValues, Encode, Encodable;
    assert EncodeAll([r]) == Encode(r) by {
      assert [r][1..] == [];
      assert Encode(r) + "" == Encode(r);
    }
    ReadValuesOfEncoding(c, [r], rest, h.asString, h.nullAsNull, []);
    assert [r][1..] == [];
  }

  /** For every well-nested sequence of calls, replaying the flat queue against the server's stream consumes
      exactly that stream and gives exactly the promised values. */
  lemma {:induction false} FlushIs(c: Conn, calls: seq<Call>, h: HandlerOptions, rest: string, acc: seq<ZVal>)
    requires WellNested(calls, false) && Readable(calls)
    requires c.open && c.input == Serve(WireOf(calls, false), false, []) + rest
    ensures Paired(QueueOf(calls, false))
    ensures var r := Flush(c, QueueOf(calls, false), h, acc);
            r.1 && r.0.open && r.0.input == rest && r.2 == acc + Expected(calls, false, [], h)
    decreases |calls|
  {
    hide Handle, ReadTransaction, Encode, Encodable, Serve, Markers, Closing, Flush, QueueOf, WireOf, Split;
    QueueOfParity(calls, false);
    if calls == [] {
      FlushNothing(c, h, acc);
      assert "" + rest == rest;
      assert acc + [] == acc;
    } else if calls[0].CallCommand? {
      FlushCommand(c, calls, h, rest, acc);
      var (c1, z) := Handle(c, h);
      FlushIs(c1, calls[1..], h, rest, acc + z);
      Assoc(acc, z, Expected(calls[1..], false, [], h));
    } else {
      var t := Split(calls[1..], []);
      var v := TransactionValue(t, h);
      FlushTransaction(c, calls, h, rest, acc);
      FlushIs(ReadTransaction(c, |t.body|, h).0, t.after, h, rest, acc + [v]);
      Assoc(acc, [v], Expected(t.after, false, [], h));
    }
  }

  lemma FlushNothing(c: Conn, h: HandlerOptions, acc: seq<ZVal>)
    ensures QueueOf([], false) == [] && Serve(WireOf([], false), false, []) == ""
    ensures Paired([]) && Flush(c, [], h, acc) == (c, true, acc)
  {
  }

  /** One step of the reply loop over a plain command. */
  lemma FlushCommand(c: Conn, calls: seq<Call>, h: HandlerOptions, rest: string, acc: seq<ZVal>)
    requires WellNested(calls, false) && Readable(calls) && calls != [] && calls[0].CallCommand?
    requires c.open && c.input == Serve(WireOf(calls, false), false, []) + rest
    requires Paired(QueueOf(calls, false))
    ensures var (c1, z) := Handle(c, h);
            && c1.open && c1.input == Serve(WireOf(calls[1..], false), false, []) + rest
            && z == [Value(calls[0].reply, h.asString, h.nullAsNull, ZFalse)]
            && Paired(QueueOf(calls[1..], false))
            && Flush(c, QueueOf(calls, false), h, acc) == Flush(c1, QueueOf(calls[1..], false), h, acc + z)
  {
    hide Handle, Encode, Encodable, Serve, Value;
    var r := calls[0].reply;
    var tail := Serve(WireOf(calls[1..], false), false, []) + rest;
    ServeCons(Plain(r), WireOf(calls[1..], false), false, []);
    assert c.input == Encode(r) + tail;
    HandleIs(c, r, h, tail);
    assert QueueOf(calls, false)[1..] == QueueOf(calls[1..], false);
  }

  /** One step of the reply loop over a whole transaction. */
  lemma FlushTransaction(c: Conn, calls: seq<Call>, h: HandlerOptions, rest: string, acc: seq<ZVal>)
    requires WellNested(calls, false) && Readable(calls) && calls != [] && calls[0].CallMulti?
    requires c.open && c.input == Serve(WireOf(calls, false), false, []) + rest
    requires Paired(QueueOf(calls, false))
    ensures var t := Split(calls[1..], []);
            var r := ReadTransaction(c, |t.body|, h);
            && r.0.open && r.0.input == Serve(WireOf(t.after, false), false, []) + rest
            && r.1 == Just(TransactionValue(t, h))
            && Expected(calls, false, [], h) == [TransactionValue(t, h)] + Expected(t.after, false, [], h)
            && Paired(QueueOf(t.after, false))
            && Flush(c, QueueOf(calls, false), h, acc)
               == Flush(r.0, QueueOf(t.after, false), h, acc + [TransactionValue(t, h)])
  {
    hide ReadTransaction, Encode, Encodable, Serve, Markers, Closing, Flush;
    var t := Split(calls[1..], []);
    var n := |t.body|;
    SplitQueue(calls[1..], []);
    SplitExpected(calls[1..], [], h);
    BodyEncodable(calls[1..], []);
    QueueOfParity(t.after, false);
    var tail := Serve(WireOf(t.after, false), false, []) + rest;
    StreamOfTransaction(calls, rest);
    ReadTransactionIs(c, t, n, h, tail);
    ClosingIs(QueueOf(calls, false), n, QueueOf(t.after, false));
    FlushMarker(c, QueueOf(calls, false), n, h, acc);
  }

  lemma StreamOfTransaction(calls: seq<Call>, rest: string)
    requires WellNested(calls, false) && calls != [] && calls[0].CallMulti?
    ensures var t := Split(calls[1..], []);
            Serve(WireOf(calls, false), false, []) + rest ==
              "+OK" + CRLF
              + (Acknowledgements(|t.body|)
                 + (Encode(ExecReply(t)) + (Serve(WireOf(t.after, false), false, []) + rest)))
  {
    hide Encode, Serve;
    SplitStream(calls[1..], []);
    ServeCons(Multi, WireOf(calls[1..], true), false, []);
  }

  lemma FlushMarker(c: Conn, queue: seq<FoldItem>, n: nat, h: HandlerOptions, acc: seq<ZVal>)
    requires queue != [] && queue[0].Marker? && Paired(queue) && n == Closing(queue)
    ensures n + 2 <= |queue|
    ensures var r := ReadTransaction(c, n, h);
            r.1.Just? ==> Flush(c, queue, h, acc) == Flush(r.0, queue[n + 2..], h, acc + [r.1.value])
  {
    hide ReadTransaction, Closing, Markers, Handle, Paired, Conn.Follows;
  }

  // ---- transactions that are refused ----

  /** Anything but +OK to MULTI, */
  lemma MultiRefused(c: Conn, line: string, n: nat, h: HandlerOptions, rest: string)
    requires c.open && c.input == line + CRLF + rest && IsLine(line) && |line| <= 250
    requires !("+OK" <= line)
    ensures ReadTransaction(c, n, h).1.Nothing?
  {
    GetsLine(c, line, rest, 254);
    hide Gets, ReadQueued, ReadValues;
  }

  /** or a status other than QUEUED or an error to one of its commands, */
  lemma {:induction false} CommandRefused(c: Conn, n: nat, acked: nat, r: Reply, rest: string)
    requires c.open && c.input == Acknowledgements(acked) + (Encode(r) + rest) && acked < n
    requires Flat(r) && (r.Error? || (r.Status? && !("QUEUED" <= r.text)))
    ensures !ReadQueued(c, n).1
    decreases acked
  {
    hide ReadElement, Gets, Flat;
    if acked > 0 {
      var rest' := Acknowledgements(acked - 1) + (Encode(r) + rest);
      assert c.input == "+" + "QUEUED" + CRLF + rest';
      ReadElementOfStatus(c, "QUEUED", rest');
      CommandRefused(c.Take(9), n - 1, acked - 1, r, rest);
    } else {
      ElementOfEncoding(c, r, rest);
      QueuedPrefix(r.text);
    }
  }

  lemma QueuedPrefix(t: string)
    ensures HasPrefix("+" + t, "+QUEUED") ==> "QUEUED" <= t
  {
    assert |t| >= 6 ==> ("+" + t)[..7][1..] == t[..6] && "+QUEUED"[1..] == "QUEUED";
  }

  /** fails the flush then and there. */
  lemma RefusalFails(
      c: Conn, queue: seq<FoldItem>, acked: nat, r: Reply, h: HandlerOptions, acc: seq<ZVal>, rest: string)
    requires queue != [] && queue[0].Marker? && Paired(queue) && acked < Closing(queue)
    requires c.open && c.input == "+OK" + CRLF + (Acknowledgements(acked) + (Encode(r) + rest))
    requires Flat(r) && (r.Error? || (r.Status? && !("QUEUED" <= r.text)))
    ensures !Flush(c, queue, h, acc).1
  {
    var n := Closing(queue);
    GetsLine(c, "+OK", Acknowledgements(acked) + (Encode(r) + rest), 254);
    CommandRefused(c.Take(5), n, acked, r, rest);
    hide Gets, ReadQueued, ReadValues, Handle, Closing, Paired;
    assert ReadTransaction(c, n, h).1.Nothing?;
    hide ReadTransaction;
  }

  lemma ClosingIs(queue: seq<FoldItem>, n: nat, rest: seq<FoldItem>)
    requires queue == [Marker] + (Handlers(n) + ([Marker] + rest)) && Paired(queue)
    ensures Closing(queue) == n && queue[n + 2..] == rest
  {
    assert queue[n + 1] == Marker;
    forall i | 1 <= i <= n ensures queue[i] == Handler(NoEffect) {
      assert (Handlers(n) + ([Marker] + rest))[i - 1] == Handlers(n)[i - 1];
    }
    assert queue[n + 2..] == rest;
  }

  /** From `pipeline()` to the flushing `exec()`: build queue and wire call by call, let the server answer the
      wire, replay the queue. The mode is back to PIPELINE, the parser stays inside the queue, every byte the
      server sent is consumed and counted, and the application gets what it was promised. */
  lemma PipelineRoundTrip(c: Conn, calls: seq<Call>, h: HandlerOptions, rest: string)
    requires WellNested(calls, false) && Readable(calls)
    requires c.open && c.input == Serve(EnqueueAll(Pipe(PIPELINE, [], []), calls).wire, false, []) + rest
    ensures var p := EnqueueAll(Pipe(PIPELINE, [], []), calls);
            && p.mode == PIPELINE && Paired(p.queue)
            && var (c1, ok, z) := Flush(c, p.queue, h, []);
               ok && c1.input == rest && c1.rx - c.rx == |c.input| - |rest| && z == Expected(calls, false, [], h)
  {
    hide Flush, Serve;
    EnqueueAllIs(Pipe(PIPELINE, [], []), calls);
    assert [] + QueueOf(calls, false) == QueueOf(calls, false);
    assert [] + WireOf(calls, false) == WireOf(calls, false);
    FlushIs(c, calls, h, rest, []);
    assert [] + Expected(calls, false, [], h) == Expected(calls, false, [], h);
  }
}
