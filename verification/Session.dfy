/** `RedisSock` as a state machine: status, mode bits, the watching and readonly flags, the callback queue and
    the pipeline buffer, against a network that may lose the session at almost any step. */
module Session {
  import opened Options
  import opened Network
  import opened Callbacks

  datatype Status = Failed | Disconnected | Connected | Authenticated | Ready

  datatype Attempt = Reconnected | StillDown | Refused

  /** The callback queued with a command; MULTI and EXEC are marked by NULL. */
  function CallbackOf(cmd: Cmd): FoldItem {
    match cmd
    case MultiCmd => Marker
    case ExecCmd => Marker
    case WatchCmd => Handler(SetWatch)
    case UnwatchCmd => Handler(ClearWatch)
    case _ => Handler(NoEffect)
  }

  /** The command that a reply handler was queued with. */
  function CommandOf(f: OnSuccess): Cmd {
    match f case SetWatch => WatchCmd case ClearWatch => UnwatchCmd case NoEffect => Payload
  }

  /** The commands that callbacks were queued with; the markers are for MULTI and EXEC in turn. */
  function Commands(items: seq<FoldItem>, inMulti: bool): (cmds: seq<Cmd>)
    ensures |cmds| == |items|
    ensures ReplicaPayload !in cmds && AuthCmd !in cmds && SelectCmd !in cmds
  {
    if items == [] then []
    else match items[0]
      case Handler(f) => [CommandOf(f)] + Commands(items[1..], inMulti)
      case Marker => [if inMulti then ExecCmd else MultiCmd] + Commands(items[1..], !inMulti)
  }

  lemma CommandOfOne(item: FoldItem, inMulti: bool)
    ensures Commands([item], inMulti)
         == [match item case Handler(f) => CommandOf(f) case Marker => if inMulti then ExecCmd else MultiCmd]
  {
    assert [item][1..] == [];
  }

  lemma {:induction false} CommandsAppend(items: seq<FoldItem>, inMulti: bool, item: FoldItem)
    ensures Commands(items + [item], inMulti) == Commands(items, inMulti) + Commands([item], inMulti == Paired(items))
  {
    if items == [] {
      assert items + [item] == [item];
    } else {
      assert (items + [item])[1..] == items[1..] + [item];
      CommandsAppend(items[1..], if items[0].Marker? then !inMulti else inMulti, item);
    }
  }

  /** A WATCH is among the commands. */
  lemma {:induction false} WatchAmong(items: seq<FoldItem>, inMulti: bool)
    ensures Handler(SetWatch) in items ==> WatchCmd in Commands(items, inMulti)
  {
    if items != [] {
      WatchAmong(items[1..], if items[0].Marker? then !inMulti else inMulti);
    }
  }

  /** A transaction begins with MULTI, goes on with the commands of the handlers and ends with EXEC. */
  lemma CommandsOfTransaction(items: seq<FoldItem>)
    requires items != [] && items[0].Marker? && Paired(items)
    ensures var (n, cmds) := (Closing(items), Commands(items, false));
            && cmds[0] == MultiCmd && cmds[n + 1] == ExecCmd && cmds[n + 2..] == Commands(items[n + 2..], false)
            && forall k | 1 <= k <= n :: cmds[k] == CommandOf(items[k].onSuccess)
  {
    var n := Closing(items);
    CommandsOfRun(items[1..], n, true);
    assert items[1..][n..] == items[n + 1..] && items[n + 1..][1..] == items[n + 2..];
    assert Commands(items, false)[1..] == Commands(items[1..], true);
    assert Commands(items, false)[1..][n..] == Commands(items, false)[n + 1..];
    assert Commands(items, false)[n + 1..][1..] == Commands(items, false)[n + 2..];
    forall k | 1 <= k <= n ensures Commands(items, false)[k] == CommandOf(items[k].onSuccess) {
      assert Commands(items, false)[1..][k - 1] == CommandOf(items[1..][k - 1].onSuccess);
    }
  }

  lemma {:induction false} CommandsOfRun(items: seq<FoldItem>, n: nat, inMulti: bool)
    requires n <= |items| && forall i | 0 <= i < n :: items[i].Handler?
    ensures Commands(items, inMulti)[n..] == Commands(items[n..], inMulti)
    ensures forall i | 0 <= i < n :: Commands(items, inMulti)[i] == CommandOf(items[i].onSuccess)
  {
    if n > 0 {
      CommandsOfRun(items[1..], n - 1, inMulti);
      var cmds := Commands(items, inMulti);
      assert cmds[1..] == Commands(items[1..], inMulti) && cmds[1..][n - 1..] == cmds[n..];
      assert items[1..][n - 1..] == items[n..];
      forall i | 0 <= i < n ensures cmds[i] == CommandOf(items[i].onSuccess) {
        if i > 0 {
          assert cmds[i] == cmds[1..][i - 1];
        }
      }
    } else {
      assert items[0..] == items && Commands(items, inMulti)[0..] == Commands(items, inMulti);
    }
  }

  /** A WATCH inside a transaction, which a server refuses. */
  predicate WatchInMulti(items: seq<FoldItem>, inMulti: bool) {
    items != [] &&
    if items[0].Marker? then WatchInMulti(items[1..], !inMulti)
    else (inMulti && items[0].onSuccess.SetWatch?) || WatchInMulti(items[1..], inMulti)
  }

  /** The watching flag after a flush in which every command is accepted: what happens inside a transaction has no
      effect on it. */
  function WatchingAfter(items: seq<FoldItem>, inMulti: bool, watching: bool): bool {
    if items == [] then watching
    else if items[0].Marker? then WatchingAfter(items[1..], !inMulti, watching)
    else WatchingAfter(items[1..], inMulti, if inMulti then watching else FlagAfter(items[0].onSuccess, watching))
  }

  function FlagAfter(f: OnSuccess, watching: bool): bool {
    match f case SetWatch => true case ClearWatch => false case NoEffect => watching
  }

  lemma {:induction false} RunInMulti(items: seq<FoldItem>, n: nat, watching: bool)
    requires n < |items| && (forall i | 0 <= i < n :: items[i].Handler?) && items[n].Marker?
    ensures WatchingAfter(items, true, watching) == WatchingAfter(items[n + 1..], false, watching)
    ensures WatchInMulti(items, true) <==>
              (exists i | 0 <= i < n :: items[i].onSuccess.SetWatch?) || WatchInMulti(items[n + 1..], false)
  {
    if n > 0 {
      var rest := items[1..];
      RunInMulti(rest, n - 1, watching);
      assert rest[n..] == items[n + 1..];
      assert forall i | 1 <= i < n :: items[i] == rest[i - 1];
      if exists i | 0 <= i < n - 1 :: rest[i].onSuccess.SetWatch? {
        var i :| 0 <= i < n - 1 && rest[i].onSuccess.SetWatch?;
        assert items[i + 1].onSuccess.SetWatch?;
      }
    }
  }

  /** What a whole transaction means for the flag. */
  lemma TransactionInFlush(items: seq<FoldItem>, watching: bool)
    requires items != [] && items[0].Marker? && Paired(items)
    ensures var n := Closing(items);
            && WatchingAfter(items, false, watching) == WatchingAfter(items[n + 2..], false, watching)
            && (WatchInMulti(items, false) <==>
                  (exists k | 1 <= k <= n :: items[k].onSuccess.SetWatch?) || WatchInMulti(items[n + 2..], false))
  {
    var n := Closing(items);
    var rest := items[1..];
    RunInMulti(rest, n, watching);
    assert rest[n + 1..] == items[n + 2..];
    if k :| 1 <= k <= n && items[k].onSuccess.SetWatch? {
      assert rest[k - 1].onSuccess.SetWatch?;
    }
  }

  /** A flush: its callbacks and the replies owed when it begins to read. `exact` says that these are in step, `sure`
      that besides nothing can go wrong, `flag` is the watching flag in the end then; with `late` callbacks from before
      the pipeline may be among them. */
  datatype Flush = Flush(queue: seq<FoldItem>, owed: seq<Cmd>, exact: bool, sure: bool, late: bool, flag: bool)

  class RedisSock {
    const net: Link
    const persistent: bool
    const hasAuth: bool
    const cluster: bool
    var selectDb: bool        // dbNumber != 0
    var maxRetries: nat
    var stream: TcpSession?
    var status: Status
    var mode: Mode
    var watching: bool
    var readonly: bool
    var queue: seq<FoldItem>
    var pipelineCmd: seq<Cmd>
    ghost var stale: nat      // callbacks that were in the queue when the transaction or pipeline began

    constructor (net: Link, persistent: bool, hasAuth: bool, cluster: bool, selectDb: bool, maxRetries: nat)
      requires net.log == []
      ensures Valid() && this.net == net && stream == null && this.cluster == cluster && this.persistent == persistent
      ensures status == Disconnected
    {
      this.net, this.persistent, this.hasAuth, this.cluster := net, persistent, hasAuth, cluster;
      this.selectDb, this.maxRetries := selectDb, maxRetries;
      stream, status, mode, watching, readonly, queue, pipelineCmd := null, Disconnected, ATOMIC, false, false, [], [];
      stale := 0;
    }

    ghost function Objects(): set<object>
      reads this
    {
      {this, net} + if stream == null then {} else {stream}
    }

    /** Holds at every step, also inside a call that is failing. */
    ghost predicate Inv()
      reads Objects()
    {
      Core() && Greeted()
    }

    /** A socket that says so has had its AUTH and its SELECT acknowledged on the session in use, if it needs them. */
    ghost predicate Greeted()
      reads this, stream
    {
      stream != null ==>
        && (hasAuth && (status.Authenticated? || status.Ready?) ==> stream.authAcked)
        && (selectDb && status.Ready? ==> stream.selectAcked)
    }

    ghost predicate Core()
      reads Objects()
    {
      && (stream == null <==> status.Failed? || status.Disconnected?)
      && (stream == null ==> !watching && !readonly && mode != MULTI)
      && (readonly ==> cluster && stream.readonlyAcked && (stream.inStep ==> stream.server.readonly))
      && Safe(net.log) && ReplicaPayload !in pipelineCmd
      && (cluster ==> mode == ATOMIC && Armed(net.log).Nothing?)
      && (Armed(net.log).Just? && stream != null ==> Armed(net.log).value == stream && (mode == MULTI || watching))
    }

    /** What the flags say about the server, as long as replies and commands are in step. */
    ghost predicate FlagsMatchServer()
      reads this, stream
    {
      stream != null && stream.inStep ==>
        (stream.server.inMulti <==> mode == MULTI) && (stream.server.watched ==> watching)
    }

    /** An odd number of NULL callbacks exactly in PIPELINE|MULTI, and none outside a pipeline. */
    ghost predicate QueueMatchesMode()
      reads this
    {
      && (Markers(queue) % 2 == 1 <==> mode == PIPELINE_MULTI)
      && (!mode.pipeline ==> Markers(queue) == 0)
    }

    /** Replies and commands are only in step when all replies have been read. */
    ghost predicate CaughtUp()
      reads this, stream
    {
      !cluster && stream != null && stream.inStep ==> stream.owed == [] && stream.elements == 0
    }

    /** The buffer is the commands of the callbacks behind the first n. */
    predicate PipedFrom(n: nat)
      requires n <= |queue|
      reads this`pipelineCmd, this`queue
    {
      pipelineCmd == Commands(queue[n..], false)
    }

    /** Behind the stale callbacks there is one for each command of the pipeline; outside one there is no command. */
    ghost predicate QueueMatchesPipeline()
      reads this
    {
      && (!mode.pipeline ==> pipelineCmd == [])
      && (mode.pipeline ==> stale <= |queue| && PipedFrom(stale) && (Paired(queue[stale..]) <==> !mode.multi))
    }

    /** In MULTI, behind the stale callbacks there is one for each command that the server has queued. */
    ghost predicate QueueMatchesServer()
      reads this, stream
    {
      mode == MULTI && stream != null && stream.inStep ==> |queue| == stale + stream.server.queued
    }

    ghost predicate Settled()
      reads Objects()
    {
      && QueueMatchesServer()
      && Inv() && FlagsMatchServer() && CaughtUp() && QueueMatchesMode() && QueueMatchesPipeline()
      && (mode != ATOMIC ==> status == Ready)
    }

    /** Holds between calls. */
    ghost predicate Valid()
      reads Objects()
    {
      Settled() && (Armed(net.log).Just? ==> status == Ready)
    }

    twostate predicate SameOrFresh()
      reads this
    {
      stream == null || stream == old(stream) || fresh(stream)
    }

    /** A session the socket has just opened, authenticated and selected by itself. */
    twostate predicate Reborn()
      reads Objects()
    {
      && stream != null && fresh(stream) && status == Ready
      && stream.inStep && !stream.server.inMulti && !stream.server.watched
      && stream.elements == 0 && stale == old(stale)
      && mode == old(mode) && !watching && !readonly && pipelineCmd == old(pipelineCmd)
      && (queue == old(queue) || (persistent && queue == []))
    }

    /** `redis_sock_disconnect` with force. */
    method Disconnect(resetMode: bool)
      modifies this`stream, this`mode, this`status, this`watching, this`readonly, this`queue
      ensures stream == null && status == Disconnected && !watching && !readonly
      ensures mode == if resetMode then ATOMIC else old(mode)
      ensures queue == if persistent && old(stream) != null then [] else old(queue)
    {
      hide Armed, Safe, Commands, Sends, Asked;
      if stream != null {
        if persistent {
          queue := [];
        }
        stream := null;
      }
      if resetMode {
        mode := ATOMIC;
      }
      status := Disconnected;
      watching := false;
      readonly := false;
    }

    /** `redis_sock_connect`. */
    method Connect() returns (ok: bool)
      requires stream == null
      modifies this`stream, this`status, net`connects
      ensures ok ==> stream != null && fresh(stream) && stream.New() && status == Connected
      ensures net.connects <= old(net.connects) + 1
      ensures !ok ==> stream == null && status == old(status) && !net.steady && net.connects == old(net.connects)
    {
      hide Armed, Safe, Commands, Sends, Asked;
      var s := net.Connect();
      if s == null {
        return false;
      }
      stream := s;
      status := Connected;
      return true;
    }

    /** `redis_check_eof`: alive, transparently replaced, or given up. It is replaced only outside MULTI and WATCH. */
    method CheckEof(noRetry: bool) returns (ok: bool)
      requires Inv()
      modifies Objects()
      ensures Inv() && net.losses <= old(net.losses)
      ensures Armed(net.log) == Armed(old(net.log))
      ensures maxRetries == 0 || noRetry ==> net.connects == old(net.connects)
      ensures Quiet(old(net.log), net.log)
      ensures ok ==> stream != null
      ensures ok && stream == old(stream) ==> unchanged(this) && unchanged(stream) && net.log == old(net.log)
      ensures ok && stream != old(stream) ==>
                Reborn() && stream.Synced() && !noRetry && old(mode != MULTI && !watching && stream != null)
                && net.losses < old(net.losses) && queue == (if persistent then [] else old(queue))
      ensures !ok ==> stream == null && (old(stream) != null ==> mode == ATOMIC && status == Status.Failed)
      ensures !ok ==> mode == old(mode) || mode == ATOMIC
      ensures !ok ==> (queue == old(queue) || queue == []) && pipelineCmd == old(pipelineCmd)
      ensures old(net.Calm() && stream != null) ==> ok && stream == old(stream)
      ensures maxRetries == old(maxRetries) && selectDb == old(selectDb) && stale == old(stale)
      ensures noRetry ==> net.log == old(net.log)
      // a connection lost once is replaced if there is a retry and nothing to lose with it
      ensures old(net.steady && net.losses == 1 && stream != null && maxRetries > 0 && mode != MULTI && !watching)
              && !noRetry ==>
                ok
      decreases net.losses, 0
    {
      hide Armed, Safe, Commands, Sends, Asked, RedisSock.PipedFrom;
      if stream == null || status == Status.Failed {
        return false;
      }
      var eof := net.Eof();
      if !eof {
        return true;
      }
      if !(mode == MULTI || watching) {
        var retry := 0;
        while !noRetry && retry < maxRetries
          invariant Idle() && mode == old(mode) && pipelineCmd == old(pipelineCmd)
          invariant maxRetries == old(maxRetries) && selectDb == old(selectDb) && stale == old(stale)
          invariant maxRetries == 0 || noRetry ==> net.connects == old(net.connects)
          invariant net.steady ==> net.losses + retry < old(net.losses)
          invariant Quiet(old(net.log), net.log)
          invariant net.losses < old(net.losses) && (noRetry ==> net.log == old(net.log))
          invariant if stream == old(stream) then queue == old(queue)
                    else queue == if persistent then [] else old(queue)
          invariant stream == null || stream == old(stream) || fresh(stream)
          decreases maxRetries - retry
        {
          var attempt := Attempt();
          if attempt.Reconnected? {
            return true;
          } else if attempt.Refused? {
            break;
          }
          retry := retry + 1;
        }
      }
      Disconnect(true);
      status := Status.Failed;
      return false;
    }

    /** `redis_check_eof` without retries. */
    method Probe() returns (ok: bool)
      requires Inv()
      modifies Objects()
      ensures Inv() && net.losses <= old(net.losses) && net.log == old(net.log) && net.connects == old(net.connects)
      ensures ok ==> stream != null && stream == old(stream) && unchanged(this) && unchanged(stream)
      ensures !ok ==> stream == null && (old(stream) != null ==> mode == ATOMIC && status == Status.Failed)
      ensures !ok ==> mode == old(mode) || mode == ATOMIC
      ensures !ok ==> (queue == old(queue) || queue == []) && pipelineCmd == old(pipelineCmd)
      ensures old(net.Calm() && stream != null) ==> ok
      ensures maxRetries == old(maxRetries) && selectDb == old(selectDb) && stale == old(stale)
      decreases net.losses, 1
    {
      hide Armed, Safe, Commands, Sends, Asked;
      ok := CheckEof(true);
    }

    ghost predicate ArmedHere()
      reads this, net
    {
      Armed(net.log).Just? && Armed(net.log).value == stream
    }

    /** The last thing to happen was that the application heard of its WATCH or MULTI. */
    ghost predicate ToldNow()
      reads this, net
    {
      net.log != [] && stream != null && net.log[|net.log| - 1] == Acked(stream, false)
    }

    /** Neither in MULTI nor watching, so nothing can be lost with the session. */
    ghost predicate Idle()
      reads Objects()
    {
      Inv() && !watching && mode != MULTI && Armed(net.log).Nothing?
    }

    /** One round of the retry loop of `redis_check_eof`. */
    method Attempt() returns (r: Attempt)
      requires Idle()
      modifies Objects()
      ensures Inv() && net.losses <= old(net.losses) && Armed(net.log).Nothing?
      ensures stream == null || fresh(stream)
      ensures old(net.Calm()) ==> r.Reconnected?
      ensures r.StillDown? && net.steady ==> net.losses < old(net.losses)
      ensures Quiet(old(net.log), net.log)
      ensures r.Reconnected? ==> Reborn() && stream.Synced()
      ensures r.Reconnected? && old(stream) != null ==> queue == (if persistent then [] else old(queue))
      ensures r.StillDown? ==>
                && Idle() && mode == old(mode) && pipelineCmd == old(pipelineCmd)
                && queue == (if persistent && old(stream) != null then [] else old(queue))
      ensures r.Refused? ==> (queue == old(queue) || queue == []) && pipelineCmd == old(pipelineCmd)
      ensures maxRetries == old(maxRetries) && selectDb == old(selectDb) && stale == old(stale)
      decreases net.losses, 5
    {
      hide Armed, Safe, Commands, Sends, Asked;
      if stream != null {
        Disconnect(false);
      }
      var connected := Connect();
      if !connected {
        return StillDown;
      }
      var eof := net.Eof();
      if eof {
        return StillDown;
      }
      r := Greet();
    }

    /** AUTH and SELECT on a stream that has just been opened. */
    method Greet() returns (r: Attempt)
      requires Idle() && stream != null && !readonly && status.Connected?
      requires stream.Synced() && !stream.server.inMulti && !stream.server.watched
      modifies Objects()
      ensures Inv() && net.losses <= old(net.losses) && Armed(net.log).Nothing?
      ensures old(net.Calm()) ==> r.Reconnected?
      ensures Quiet(old(net.log), net.log)
      ensures stream == null || stream == old(stream) || fresh(stream)
      ensures !r.StillDown?
      ensures r.Reconnected? ==>
                && stream != null && status == Ready && stream.Synced() && !stream.server.inMulti
                && !stream.server.watched && mode == old(mode) && !watching && !readonly
                && pipelineCmd == old(pipelineCmd)
                && queue == if stream == old(stream) || !persistent then old(queue) else []
      ensures r.Refused? ==> (queue == old(queue) || queue == []) && pipelineCmd == old(pipelineCmd)
      ensures maxRetries == old(maxRetries) && selectDb == old(selectDb) && stale == old(stale)
      decreases net.losses, 4
    {
      hide Armed, Safe, Commands, Sends, Asked;
      if hasAuth {
        var authed := Handshake(AuthCmd);
        if !authed {
          return Refused;
        }
      }
      status := Authenticated;
      if selectDb {
        var selected := Handshake(SelectCmd);
        if !selected {
          return Refused;
        }
      }
      status := Ready;
      return Reconnected;
    }

    /** A successful write leaves the socket as it was, or reborn, with `cmds` owed on top. */
    twostate predicate Sent(cmds: seq<Cmd>)
      reads Objects()
    {
      stream != null &&
      if stream == old(stream) then
        && unchanged(this)
        && stream.owed == old(stream.owed) + cmds && stream.server == old(stream.server)
        && stream.inStep == old(stream.inStep) && stream.elements == old(stream.elements)
        && stream.readonlyAcked == old(stream.readonlyAcked)
        && net.log == old(net.log) + [Wrote(cmds, stream, stream.readonlyAcked)]
      else
        Reborn() && stream.owed == cmds && old(mode != MULTI && !watching && stream != null)
        && queue == (if persistent then [] else old(queue))
    }

    /** `redis_sock_write`: an incomplete write gives the connection up. */
    method Write(cmds: seq<Cmd>) returns (ok: bool)
      requires Inv() && ReplicaPayload !in cmds
      modifies Objects()
      ensures Inv() && net.losses <= old(net.losses)
      ensures Armed(net.log) == Armed(old(net.log))
      ensures ok ==> Sent(cmds)
      ensures if Greets(cmds) then Quiet(old(net.log), net.log)
              else if ok then Once(old(net.log), net.log, cmds, stream)
              else AtMostOnce(old(net.log), net.log, cmds)
      ensures !ok ==>
                stream == null && (mode == old(mode) || mode == ATOMIC) && (old(stream) != null ==> mode == ATOMIC)
      ensures !ok ==> (queue == old(queue) || queue == []) && pipelineCmd == old(pipelineCmd)
      ensures old(net.Calm() && stream != null) ==> ok && stream == old(stream)
      ensures maxRetries == 0 ==> net.connects == old(net.connects)
      ensures old(net.steady && net.losses == 1 && stream != null && maxRetries > 0 && mode != MULTI && !watching) ==>
                ok
      ensures maxRetries == old(maxRetries) && selectDb == old(selectDb) && stale == old(stale)
      decreases net.losses, 2
    {
      hide Armed, Safe, Commands, Sends, Asked, Greets;
      var live := CheckEof(false);
      if !live {
        return false;
      }
      ok := PutOut(cmds);
    }

    /** The same on a stream that is not at its end. */
    method PutOut(cmds: seq<Cmd>) returns (ok: bool)
      requires Inv() && stream != null && ReplicaPayload !in cmds
      modifies Objects()
      ensures Inv() && net.losses == old(net.losses) && net.connects == old(net.connects)
      ensures Armed(net.log) == Armed(old(net.log))
      ensures ok ==>
                && stream == old(stream) && unchanged(this)
                && stream.owed == old(stream.owed) + cmds && stream.server == old(stream.server)
                && stream.inStep == old(stream.inStep) && stream.elements == old(stream.elements)
                && stream.readonlyAcked == old(stream.readonlyAcked)
      ensures if Greets(cmds) then Quiet(old(net.log), net.log) else Once(old(net.log), net.log, cmds, old(stream))
      ensures net.log == old(net.log) + [Wrote(cmds, old(stream), old(stream.readonlyAcked))]
      ensures !ok ==> stream == null && mode == ATOMIC && (queue == old(queue) || queue == [])
      ensures !ok ==> pipelineCmd == old(pipelineCmd) && !net.steady
      ensures maxRetries == old(maxRetries) && selectDb == old(selectDb) && stale == old(stale)
    {
      hide Armed, Safe, Commands, Sends, Asked, Greets;
      ok := net.Write(stream, cmds);
      if !ok {
        Disconnect(true);
        status := Status.Failed;
      }
    }

    /** In step, and the next reply is the one to this command. */
    ghost predicate Expects(cmd: Cmd)
      reads this, stream
    {
      stream != null && stream.inStep && stream.elements == 0 && stream.owed != [] && stream.owed[0] == cmd
    }

    /** `redis_sock_gets` and what the caller makes of the line: a lost line closes the socket. */
    method ReadReply(cmd: Cmd) returns (a: Answer)
      requires Inv() && (cmd.ResetCmd? ==> !cluster)
      modifies Objects()
      ensures Core() && (Inv() || (cmd.ResetCmd? && a.Yes?)) && net.losses <= old(net.losses)
      ensures net.log == old(net.log)
      ensures a.Lost? <==> stream == null
      ensures a.Lost? ==> (mode == old(mode) || mode == ATOMIC) && (old(stream) != null ==> mode == ATOMIC)
      ensures a.Lost? ==> (queue == old(queue) || queue == []) && pipelineCmd == old(pipelineCmd)
      ensures !a.Lost? ==>
                && stream == old(stream) && unchanged(this)
                && old(stream.owed) != [] && stream.owed == old(stream.owed)[1..]
      ensures (a.Yes? || a.No?) && old(Expects(cmd)) ==> stream.inStep
      ensures !a.Lost? && stream.inStep ==>
                && old(Expects(cmd))
                && stream.server == After(old(stream.server), cmd, a.Yes?)
                && (a.Yes? ==> MayAccept(old(stream.server), cmd))
                && stream.elements == if cmd.ExecCmd? && a.Yes? then old(stream.server.queued) else 0
      ensures a.Yes? ==>
                && (cmd.ReadonlyCmd? ==> stream.readonlyAcked)
                && (cmd.AuthCmd? ==> stream.authAcked) && (cmd.SelectCmd? ==> stream.selectAcked)
      ensures old(net.Calm() && Expects(cmd)) ==>
                !a.Lost? && stream.inStep && a == if MayAccept(old(stream.server), cmd) then Yes else No
      ensures a.Torn? ==> cmd.Payload? && stream != null && !stream.inStep
      ensures net.connects == old(net.connects)
      ensures maxRetries == old(maxRetries) && selectDb == old(selectDb) && stale == old(stale)
      decreases net.losses, 2
    {
      hide Armed, Safe, Commands, Sends, Asked, MayAccept, After;
      var live := Probe();
      if !live {
        return Lost;
      }
      a := TakeReply(cmd);
    }

    /** The same on a stream that is not at its end. */
    method TakeReply(cmd: Cmd) returns (a: Answer)
      requires Inv() && stream != null && (cmd.ResetCmd? ==> !cluster)
      modifies Objects()
      ensures Core() && (Inv() || (cmd.ResetCmd? && a.Yes?)) && net.losses <= old(net.losses)
      ensures net.log == old(net.log)
      ensures a.Lost? <==> stream == null
      ensures a.Lost? ==> status == Disconnected
      ensures a.Lost? ==> (mode == old(mode) || mode == ATOMIC) && (old(stream) != null ==> mode == ATOMIC)
      ensures a.Lost? ==> (queue == old(queue) || queue == []) && pipelineCmd == old(pipelineCmd)
      ensures !a.Lost? ==>
                && stream == old(stream) && unchanged(this)
                && old(stream.owed) != [] && stream.owed == old(stream.owed)[1..]
      ensures (a.Yes? || a.No?) && old(Expects(cmd)) ==> stream.inStep
      ensures !a.Lost? && stream.inStep ==>
                && old(Expects(cmd))
                && stream.server == After(old(stream.server), cmd, a.Yes?)
                && (a.Yes? ==> MayAccept(old(stream.server), cmd))
                && stream.elements == if cmd.ExecCmd? && a.Yes? then old(stream.server.queued) else 0
      ensures a.Yes? ==>
                && (cmd.ReadonlyCmd? ==> stream.readonlyAcked)
                && (cmd.AuthCmd? ==> stream.authAcked) && (cmd.SelectCmd? ==> stream.selectAcked)
      ensures old(net.Calm() && Expects(cmd)) ==>
                !a.Lost? && stream.inStep && a == if MayAccept(old(stream.server), cmd) then Yes else No
      ensures a.Torn? ==> cmd.Payload? && stream != null && !stream.inStep
      ensures net.connects == old(net.connects)
      ensures maxRetries == old(maxRetries) && selectDb == old(selectDb) && stale == old(stale)
      decreases net.losses, 1
    {
      hide Armed, Safe, Commands, Sends, Asked, MayAccept;
      a := net.Reply(stream, cmd);
      if a.Lost? {
        Disconnect(true);
      }
    }

    /** A handshake command on a session nothing is armed on. */
    method Handshake(cmd: Cmd) returns (ok: bool)
      requires cmd.AuthCmd? || cmd.SelectCmd?
      requires Inv() && stream != null && Armed(net.log).Nothing? && mode != MULTI && !watching && !readonly
      requires stream.Synced() && !stream.server.inMulti && !stream.server.watched
      modifies Objects()
      ensures Inv() && net.losses <= old(net.losses) && Armed(net.log).Nothing?
      ensures ok ==> stream != null && (stream == old(stream) || fresh(stream))
                     && stream.Synced() && !stream.server.inMulti && !stream.server.watched
                     && mode == old(mode) && !watching && !readonly && pipelineCmd == old(pipelineCmd)
                     && queue == (if stream == old(stream) || !persistent then old(queue) else [])
      ensures !ok ==> mode == old(mode) || mode == ATOMIC
      ensures !ok && stream != null ==>
                && (stream == old(stream) || fresh(stream)) && !watching && !readonly
                && mode == old(mode) && (stream.Synced() ==> !stream.server.inMulti && !stream.server.watched)
      ensures !ok ==> (queue == old(queue) || queue == []) && pipelineCmd == old(pipelineCmd)
      ensures ok ==> status == old(status) || status == Ready
      ensures ok ==> if cmd.AuthCmd? then stream.authAcked else stream.selectAcked
      ensures Quiet(old(net.log), net.log)
      ensures old(net.Calm()) ==> ok && stream == old(stream)
      ensures maxRetries == 0 ==> net.connects == old(net.connects)
      ensures maxRetries == old(maxRetries) && selectDb == old(selectDb) && stale == old(stale)
      decreases net.losses, 3
    {
      hide Armed, Safe, Commands, Sends, Asked;
      var sent := Write([cmd]);
      if !sent {
        return false;
      }
      var a := ReadReply(cmd);
      return a.Yes?;
    }

    // ---- the calls of the Redis object ----

    ghost method Fail()
      requires Settled()
      modifies net`log
      ensures Quiet(old(net.log), net.log)
      ensures Valid() && Armed(net.log).Nothing?
    {
      hide Armed, Safe, Commands, Sends, Asked;
      net.Record(Event.Failed);
    }

    /** A lost or torn reply is a failure of the connection; an error reply leaves everything as it was. */
    ghost method FailUnlessRefused(a: Answer)
      requires if a.No? then Valid() else Settled()
      modifies net`log
      ensures Quiet(old(net.log), net.log)
      ensures Valid() && (a.No? ==> net.log == old(net.log))
    {
      if !a.No? {
        Fail();
      }
    }

    /** `redis_sock_get`: every call starts with `redis_sock_server_open`. */
    method ServerOpen() returns (ok: bool)
      requires Valid()
      modifies Objects()
      ensures ok ==> Valid() && status == Ready
      ensures !ok ==> Settled()
      ensures old(status) == Ready ==> ok && unchanged(this) && unchanged(net) && unchanged(stream)
      ensures net.losses <= old(net.losses)
      ensures SameOrFresh()
      ensures mode == old(mode) && (pipelineCmd == old(pipelineCmd) || pipelineCmd == [])
      ensures watching ==> old(watching)
      ensures readonly ==> old(readonly) && stream == old(stream)
      ensures queue == old(queue) || queue == []
      ensures ok && old(status).Failed? ==> queue == []
      ensures ok && !old(status).Failed? && !persistent ==> queue == old(queue)
      ensures Armed(net.log) == Armed(old(net.log)) && Quiet(old(net.log), net.log)
      ensures old(net.Calm() && (stream == null || stream.Synced())) ==> ok && stream.Synced()
    {
      hide Armed, Safe, Commands, Sends, Asked;
      if status.Failed? {
        queue := [];
        pipelineCmd := [];
      }
      if status.Failed? || status.Disconnected? {
        var connected := Connect();
        if !connected {
          return false;
        }
        status := Connected;
      }
      ok := FinishHandshake();
    }

    /** The CONNECTED and AUTHENTICATED cases of `redis_sock_server_open`. */
    method FinishHandshake() returns (ok: bool)
      requires Valid() && stream != null
      modifies Objects()
      ensures ok ==> Valid() && status == Ready
      ensures !ok ==> Settled()
      ensures old(status) == Ready ==> ok && unchanged(this) && unchanged(net) && unchanged(stream)
      ensures net.losses <= old(net.losses)
      ensures SameOrFresh() && maxRetries == old(maxRetries)
      ensures maxRetries == 0 ==> net.connects == old(net.connects)
      ensures mode == old(mode) && (pipelineCmd == old(pipelineCmd) || pipelineCmd == [])
      ensures watching ==> old(watching)
      ensures readonly ==> old(readonly) && stream == old(stream)
      ensures queue == old(queue) || queue == []
      ensures ok && !persistent ==> queue == old(queue)
      ensures Armed(net.log) == Armed(old(net.log)) && Quiet(old(net.log), net.log)
      ensures old(net.Calm() && stream.Synced()) ==> ok && stream.Synced()
    {
      hide Armed, Safe, Commands, Sends, Asked;
      ok := true;
      if status.Connected? {
        ok := Advance(AuthCmd, hasAuth, Authenticated);
      }
      if ok && status.Authenticated? {
        ok := Advance(SelectCmd, selectDb, Ready);
      }
    }

    /** AUTH or SELECT, if it is needed, on a stream that is open but not ready. */
    method Advance(cmd: Cmd, needed: bool, next: Status) returns (ok: bool)
      requires Valid() && stream != null
      requires if cmd.AuthCmd? then status.Connected? && next == Authenticated && needed == hasAuth
               else cmd.SelectCmd? && status.Authenticated? && next == Ready && needed == selectDb
      modifies Objects()
      ensures Settled() && Armed(net.log).Nothing? && mode == ATOMIC && pipelineCmd == old(pipelineCmd)
      ensures ok ==> stream != null && status == next
      ensures net.losses <= old(net.losses) && Quiet(old(net.log), net.log)
      ensures readonly ==> old(readonly) && stream == old(stream)
      ensures SameOrFresh() && (watching ==> old(watching))
      ensures queue == old(queue) || queue == []
      ensures ok && !persistent ==> queue == old(queue)
      ensures old(net.Calm() && stream.Synced()) ==> ok && stream.Synced()
      ensures selectDb == old(selectDb) && maxRetries == old(maxRetries)
      ensures maxRetries == 0 ==> net.connects == old(net.connects)
    {
      hide Armed, Safe, Commands, Sends, Asked;
      ok := true;
      if needed {
        ok := OpenWith(cmd);
      }
      if ok {
        status := next;
      }
    }

    /** Its write and reply. */
    method OpenWith(cmd: Cmd) returns (ok: bool)
      requires cmd.AuthCmd? || cmd.SelectCmd?
      requires Valid() && stream != null && status != Ready
      modifies Objects()
      ensures Settled() && Armed(net.log).Nothing? && mode == ATOMIC && pipelineCmd == old(pipelineCmd)
      ensures ok ==> stream != null && (status == old(status) || status == Ready)
      ensures ok ==> if cmd.AuthCmd? then stream.authAcked else stream.selectAcked
      ensures net.losses <= old(net.losses) && Quiet(old(net.log), net.log)
      ensures readonly ==> old(readonly) && stream == old(stream)
      ensures SameOrFresh() && (watching ==> old(watching))
      ensures queue == old(queue) || queue == []
      ensures ok && !persistent ==> queue == old(queue)
      ensures old(net.Calm() && stream.Synced()) ==> ok && stream.Synced()
      ensures selectDb == old(selectDb) && maxRetries == old(maxRetries)
      ensures maxRetries == 0 ==> net.connects == old(net.connects)
    {
      hide Armed, Safe, Commands, Sends, Asked;
      ok := Write([cmd]);
      if ok {
        var a := ReadReply(cmd);
        ok := a.Yes?;
      }
    }

    /** What the answer to a command says about the server, the flags being still those from before it. */
    ghost predicate ServerAfter(cmd: Cmd, accepted: bool)
      requires stream != null
      reads this, stream
    {
      stream.inStep ==>
        var v := stream.server;
        if cmd.ExecCmd? || (cmd.DiscardCmd? && accepted) then
          !v.inMulti && (mode == MULTI ==> !v.watched) && (v.watched ==> watching)
        else if cmd.ResetCmd? && accepted then v == NEW_SERVER
        else if cmd.MultiCmd? && accepted then v.inMulti && v.queued == 0 && mode != MULTI && (v.watched ==> watching)
        else if cmd.WatchCmd? && accepted then !v.inMulti && v.watched && mode != MULTI
        else if cmd.UnwatchCmd? && accepted && mode != MULTI then !v.inMulti && !v.watched
        else (v.inMulti <==> mode == MULTI) && (v.watched ==> watching)
    }

    /** A command written outside a pipeline, and the first line of its reply. */
    method Roundtrip(cmd: Cmd) returns (a: Answer)
      requires Valid() && status == Ready && !mode.pipeline && cmd != ReplicaPayload && !cluster
      requires !Greets([cmd]) && (cmd.ExecCmd? ==> mode == MULTI)
      modifies Objects()
      ensures Core() && (Inv() || (cmd.ResetCmd? && a.Yes?))
      ensures Armed(net.log) == Armed(old(net.log)) && QueueMatchesMode()
      ensures if a.Lost? then AtMostOnce(old(net.log), net.log, [cmd])
              else Once(old(net.log), net.log, [cmd], stream)
      ensures net.losses <= old(net.losses)
      ensures a.Lost? <==> stream == null
      ensures a.Lost? ==> Settled()
      ensures !a.Lost? ==>
                && (stream == old(stream) || (fresh(stream) && old(mode) == ATOMIC))
                && mode == old(mode) && status == Ready && watching == old(watching) && pipelineCmd == old(pipelineCmd)
                && !readonly && (stream == old(stream) ==> queue == old(queue))
                && ServerAfter(cmd, a.Yes?)
                && (stream.inStep ==> stream.owed == [])
                && (stream.inStep ==>
                      stream.elements == if cmd.ExecCmd? && a.Yes? then old(stream.server.queued) else 0)
      ensures queue == old(queue) || queue == []
      ensures a.Torn? ==> cmd.Payload? && stream != null && !stream.inStep
      ensures cmd.ExecCmd? && stream != null && stream.inStep ==>
                stream.server.executed == old(stream.server.executed) + if a.Yes? then 1 else 0
      ensures (a.Yes? || a.No?) && old(stream.inStep) ==> stream.inStep
      ensures stream != null && stream.inStep && old(mode) == MULTI
              && (cmd.Payload? || cmd.WatchCmd? || cmd.UnwatchCmd? || a.No?) && !cmd.ExecCmd? ==>
                stream.server.queued == old(stream.server.queued) + if a.Yes? then 1 else 0
      ensures stream != null && stream == old(stream) && stream.inStep ==> old(stream.inStep)
      ensures stale == old(stale)
      ensures !a.Lost? && stream == old(stream) ==>
                net.log == old(net.log) + [Wrote([cmd], stream, old(stream.readonlyAcked))]
      ensures old(net.Calm() && stream.Synced()) ==>
                && stream == old(stream) && stream.inStep && queue == old(queue)
                && a == if MayAccept(old(stream.server), cmd) then Yes else No
    {
      hide Armed, Safe, Commands, Sends, Asked;
      var sent := Write([cmd]);
      if !sent {
        return Lost;
      }
      a := ReadAnswer(cmd);
    }

    /** The answer to the one command that is owed one. */
    method ReadAnswer(cmd: Cmd) returns (a: Answer)
      requires Inv() && stream != null && status == Ready && !mode.pipeline && !cluster && pipelineCmd == []
      requires QueueMatchesMode() && FlagsMatchServer() && (stream.inStep ==> Expects(cmd) && stream.owed == [cmd])
      modifies Objects()
      ensures Core() && (Inv() || (cmd.ResetCmd? && a.Yes?)) && net.log == old(net.log) && QueueMatchesMode()
      ensures net.losses <= old(net.losses)
      ensures a.Lost? <==> stream == null
      ensures a.Lost? ==> Settled()
      ensures !a.Lost? ==>
                && stream == old(stream) && unchanged(this) && ServerAfter(cmd, a.Yes?)
                && (stream.inStep ==> stream.owed == [])
                && (stream.inStep ==>
                      stream.elements == if cmd.ExecCmd? && a.Yes? then old(stream.server.queued) else 0)
      ensures queue == old(queue) || queue == []
      ensures a.Torn? ==> cmd.Payload? && stream != null && !stream.inStep
      ensures cmd.ExecCmd? && stream != null && stream.inStep && old(mode) == MULTI ==>
                stream.server.executed == old(stream.server.executed) + if a.Yes? then 1 else 0
      ensures (a.Yes? || a.No?) && old(stream.inStep) ==> stream.inStep
      ensures stream != null && stream.inStep && old(mode) == MULTI
              && (cmd.Payload? || cmd.WatchCmd? || cmd.UnwatchCmd? || a.No?) && !cmd.ExecCmd? ==>
                stream.server.queued == old(stream.server.queued) + if a.Yes? then 1 else 0
      ensures stream != null && stream == old(stream) && stream.inStep ==> old(stream.inStep)
      ensures stale == old(stale)
      ensures old(net.Calm() && stream.inStep) ==>
                stream == old(stream) && stream.inStep && a == if MayAccept(old(stream.server), cmd) then Yes else No
    {
      hide Armed, Safe, Commands, Sends, Asked;
      a := ReadReply(cmd);
    }

    /** A call that is not ok but leaves the session in step was refused, which ends no watch or transaction. */
    twostate predicate StillArmed(ok: bool)
      reads this, net, stream
    {
      !ok && stream != null && stream.inStep ==> Armed(net.log) == Armed(old(net.log))
    }

    /** `Redis::multi()`. */
    method Multi() returns (ok: bool)
      requires Valid() && !cluster
      modifies Objects()
      ensures Valid() && SameOrFresh()
      ensures ok ==> mode.multi && stream != null
      ensures ok && mode == MULTI && old(mode) == ATOMIC ==> ArmedHere() && ToldNow()
      ensures ok && old(mode.pipeline && !mode.multi) ==>
                queue == old(queue) + [Marker] && pipelineCmd == old(pipelineCmd) + [MultiCmd]
      ensures ok && old(mode.multi) ==> unchanged(this) && net.log == old(net.log)
      ensures StillArmed(ok)
      ensures if ok && mode == MULTI && old(mode) == ATOMIC then Once(old(net.log), net.log, [MultiCmd], stream)
              else if ok then Quiet(old(net.log), net.log)
              else AtMostOnce(old(net.log), net.log, [MultiCmd])
      ensures ok && mode == MULTI && old(mode) == ATOMIC ==> stale == |queue| && (queue == old(queue) || queue == [])
      ensures ok && mode == MULTI && stream.inStep ==> stream.server.inMulti
      ensures old(net.Calm() && (stream == null || stream.Synced())) ==> ok
    {
      hide Armed, Safe, Commands, Sends, Asked;
      var open := ServerOpen();
      if !open {
        Fail();
        return false;
      }
      if !mode.multi {
        if mode.pipeline {
          PipeMulti();
        } else {
          ok := SendMulti();
          return;
        }
      }
      return true;
    }

    /** MULTI into the buffer, */
    method PipeMulti()
      requires Valid() && !cluster && mode == PIPELINE
      modifies this`queue, this`pipelineCmd, this`mode
      ensures Valid() && mode == PIPELINE_MULTI
      ensures queue == old(queue) + [Marker] && pipelineCmd == old(pipelineCmd) + [MultiCmd]
    {
      hide Armed, Safe, Commands, Sends, Asked, RedisSock.PipedFrom;
      CommandOfOne(Marker, false);
      Enqueue(Marker, MultiCmd);
      mode := mode.(multi := true);
      assert Inv() && FlagsMatchServer();
    }

    /** and EXEC. */
    method PipeExec()
      requires Valid() && !cluster && mode == PIPELINE_MULTI
      modifies this`queue, this`pipelineCmd, this`mode
      ensures Valid() && mode == PIPELINE
      ensures queue == old(queue) + [Marker] && pipelineCmd == old(pipelineCmd) + [ExecCmd]
    {
      hide Armed, Safe, Commands, Sends, Asked, RedisSock.PipedFrom;
      CommandOfOne(Marker, true);
      Enqueue(Marker, ExecCmd);
      mode := mode.(multi := false);
      assert Inv() && FlagsMatchServer();
    }

    /** MULTI on the wire. */
    method SendMulti() returns (ok: bool)
      requires Valid() && !cluster && mode == ATOMIC && status == Ready
      modifies Objects()
      ensures Valid() && SameOrFresh() && StillArmed(ok)
      ensures if ok then Once(old(net.log), net.log, [MultiCmd], stream)
              else AtMostOnce(old(net.log), net.log, [MultiCmd])
      ensures ok ==> ToldNow()
      ensures ok ==> stale == |queue| && (queue == old(queue) || queue == [])
      ensures ok ==> mode == MULTI && stream != null && ArmedHere()
      ensures old(net.Calm() && stream.Synced()) ==> ok
    {
      hide Armed, Safe, Commands, Sends, Asked;
      var a := Roundtrip(MultiCmd);
      if !a.Yes? {
        FailUnlessRefused(a);
        return false;
      }
      mode := mode.(multi := true);
      stale := |queue|;
      AskedAfter(old(net.log), net.log, [MultiCmd], stream);
      net.Record(Acked(stream, false));
      return true;
    }

    /** One callback and one command more, both at the end. */
    method Enqueue(item: FoldItem, cmd: Cmd)
      requires stale <= |queue| && PipedFrom(stale) && [cmd] == Commands([item], !Paired(queue[stale..]))
      modifies this`queue, this`pipelineCmd
      ensures queue == old(queue) + [item] && pipelineCmd == old(pipelineCmd) + [cmd] && PipedFrom(stale)
      ensures Markers(queue) == old(Markers(queue)) + if item.Marker? then 1 else 0
      ensures Paired(queue[stale..]) <==> (old(Paired(queue[stale..])) <==> item.Handler?)
    {
      hide Armed, Safe, Sends, Asked;
      MarkersAppend(queue, [item]);
      MarkersAppend(queue[stale..], [item]);
      CommandsAppend(queue[stale..], false, item);
      queue := queue + [item];
      pipelineCmd := pipelineCmd + [cmd];
      assert queue[stale..] == old(queue)[stale..] + [item];
    }

    /** `Redis::pipeline()`. Callbacks that a lost MULTI left in the queue are freed only if the socket is FAILED. */
    method StartPipeline() returns (ok: bool)
      requires Valid() && !cluster
      modifies Objects()
      ensures Valid() && SameOrFresh()
      ensures ok ==> mode == PIPELINE && (queue == old(queue) || queue == [])
      ensures ok && !old(mode.pipeline) ==> stale == |queue| && pipelineCmd == []
      ensures ok && (old(status).Failed? || old(queue) == []) ==> queue == []
      ensures ok && !old(status).Failed? && !persistent ==> queue == old(queue)
      ensures Quiet(old(net.log), net.log)
      ensures old(status == Ready && !mode.multi) ==> ok
    {
      hide Armed, Safe;
      var open := ServerOpen();
      if !open {
        Fail();
        return false;
      }
      if mode.multi {
        return false;
      }
      if !mode.pipeline {
        stale := |queue|;
        assert queue[stale..] == [];
      }
      mode := mode.(pipeline := true);
      return true;
    }

    /** The success callback of `redis_boolean_response_impl`: `redis_set_watch` or `redis_clear_watch`. */
    method Succeed(f: OnSuccess, ghost late: bool)
      requires Inv() && stream != null && mode != MULTI && !cluster
      requires f.SetWatch? && !late ==> Asked(net.log, stream)
      modifies this`watching, net`log
      ensures Inv()
      ensures watching == FlagAfter(f, old(watching))
      ensures Quiet(old(net.log), net.log)
      ensures f.SetWatch? ==> ArmedHere() && net.log == old(net.log) + [Acked(stream, late)]
      ensures f.ClearWatch? ==> Armed(net.log).Nothing?
      ensures f.NoEffect? ==> net.log == old(net.log)
    {
      hide Armed, Safe, Commands, Sends, Asked;
      match f {
        case SetWatch =>
          watching := true;
          net.Record(Acked(stream, late));
        case ClearWatch =>
          watching := false;
          net.Record(Released);
        case NoEffect =>
      }
    }

    /** `redis_process_cmd` for WATCH, UNWATCH and commands without session state. */
    method ProcessCmd(cmd: Cmd) returns (ok: bool)
      requires Valid() && !cluster
      requires cmd.WatchCmd? || cmd.UnwatchCmd? || cmd.Payload?
      modifies Objects()
      ensures Valid() && SameOrFresh()
      ensures ok && cmd.WatchCmd? && old(mode) == ATOMIC ==> watching && ArmedHere() && ToldNow()
      ensures ok && cmd.UnwatchCmd? && old(mode) == ATOMIC ==> !watching && Armed(net.log).Nothing?
      ensures ok && mode.pipeline ==> queue == old(queue) + [CallbackOf(cmd)] && pipelineCmd == old(pipelineCmd) + [cmd]
      ensures ok && mode == MULTI ==> queue == old(queue) + [CallbackOf(cmd)]
      ensures ok && mode == MULTI && cmd.WatchCmd? ==> !stream.inStep
      ensures ok ==> mode == old(mode)
      ensures !ok && watching ==> old(watching)
      ensures StillArmed(ok)
      ensures if old(mode.pipeline) && ok then Quiet(old(net.log), net.log)
              else if ok then Once(old(net.log), net.log, [cmd], stream)
              else AtMostOnce(old(net.log), net.log, [cmd])
      ensures ok && old(mode) == ATOMIC && stream.inStep ==>
                (cmd.WatchCmd? ==> stream.server.watched) && (cmd.UnwatchCmd? ==> !stream.server.watched)
      ensures ok && old(status == Ready && stream.inStep) ==> stream.inStep
      ensures old(net.Calm() && (stream == null || stream.Synced()) && !(mode == MULTI && cmd.WatchCmd?)) ==> ok
    {
      hide Armed, Safe, Commands, Sends, Asked;
      var open := ServerOpen();
      if !open {
        Fail();
        return false;
      }
      if mode.pipeline {
        CommandOfOne(CallbackOf(cmd), mode.multi);
        Enqueue(CallbackOf(cmd), cmd);
        return true;
      }
      ok := Send(cmd);
    }

    /** The command on the wire, and what its reply says. */
    method Send(cmd: Cmd) returns (ok: bool)
      requires Valid() && !cluster && status == Ready && !mode.pipeline
      requires cmd.WatchCmd? || cmd.UnwatchCmd? || cmd.Payload?
      modifies Objects()
      ensures Valid() && SameOrFresh() && StillArmed(ok)
      ensures ok && cmd.WatchCmd? && old(mode) == ATOMIC ==> watching && ArmedHere() && ToldNow()
      ensures ok && cmd.UnwatchCmd? && old(mode) == ATOMIC ==> !watching && Armed(net.log).Nothing?
      ensures ok && mode == MULTI ==> queue == old(queue) + [CallbackOf(cmd)]
      ensures ok && mode == MULTI && cmd.WatchCmd? ==> !stream.inStep
      ensures ok ==> mode == old(mode)
      ensures !ok && watching ==> old(watching)
      ensures if ok then Once(old(net.log), net.log, [cmd], stream) else AtMostOnce(old(net.log), net.log, [cmd])
      ensures ok && mode == ATOMIC && stream.inStep ==>
                (cmd.WatchCmd? ==> stream.server.watched) && (cmd.UnwatchCmd? ==> !stream.server.watched)
      ensures ok && old(stream.inStep) ==> stream.inStep
      ensures old(net.Calm() && stream.Synced()) && !(old(mode) == MULTI && cmd.WatchCmd?) ==> ok
    {
      hide Armed, Safe, Commands, Sends, Asked;
      var a := Roundtrip(cmd);
      if !a.Yes? {
        FailUnlessRefused(a);
        return false;
      }
      if cmd.WatchCmd? {
        AskedAfter(old(net.log), net.log, [cmd], stream);
      }
      Accepted(cmd);
      return true;
    }

    /** The reply was positive: its callback takes effect now, or waits for EXEC. */
    method Accepted(cmd: Cmd)
      requires Inv() && stream != null && status == Ready && !mode.pipeline && !cluster && QueueMatchesMode()
      requires cmd.WatchCmd? || cmd.UnwatchCmd? || cmd.Payload?
      requires cmd.WatchCmd? ==> Asked(net.log, stream)
      requires mode == MULTI && stream.inStep ==> |queue| + 1 == stale + stream.server.queued
      requires ServerAfter(cmd, true) && CaughtUp() && pipelineCmd == []
      modifies this`watching, this`queue, net`log
      ensures Valid() && Quiet(old(net.log), net.log)
      ensures mode == ATOMIC && cmd.WatchCmd? ==>
                watching && ArmedHere() && net.log == old(net.log) + [Acked(stream, false)]
      ensures mode == ATOMIC && cmd.UnwatchCmd? ==> !watching && Armed(net.log).Nothing?
      ensures mode == MULTI ==> queue == old(queue) + [CallbackOf(cmd)] && watching == old(watching)
      ensures mode == MULTI && cmd.WatchCmd? ==> !stream.inStep
    {
      hide Armed, Safe, Commands, Sends, Asked;
      if mode == ATOMIC {
        Succeed(CallbackOf(cmd).onSuccess, false);
      } else {
        MarkersAppend(queue, [CallbackOf(cmd)]);
        queue := queue + [CallbackOf(cmd)];
      }
    }

    /** `Redis::discard()`. The server forgets its watches, the flag stays. */
    method Discard() returns (ok: bool)
      requires Valid() && !cluster
      modifies Objects()
      ensures Valid() && SameOrFresh()
      ensures ok ==> mode == ATOMIC && queue == [] && old(mode) != ATOMIC
      ensures ok && old(mode.pipeline) ==> pipelineCmd == [] && net.log == old(net.log) && stream == old(stream)
      ensures ok && old(mode) == MULTI ==>
                && Armed(net.log).Nothing? && stream == old(stream) && watching == old(watching)
                && (stream.inStep ==> !stream.server.watched)
      ensures StillArmed(ok)
      ensures if ok && old(mode) == MULTI then Once(old(net.log), net.log, [DiscardCmd], stream)
              else AtMostOnce(old(net.log), net.log, [DiscardCmd])
      ensures old(net.Calm() && stream != null && stream.Synced() && mode != ATOMIC) ==> ok
    {
      hide Armed, Safe, Commands, Sends, Asked, RedisSock.PipedFrom;
      var open := ServerOpen();
      if !open {
        Fail();
        return false;
      }
      if mode.pipeline {
        pipelineCmd := [];
      } else if mode.multi {
        var a := Roundtrip(DiscardCmd);
        if !a.Yes? {
          FailUnlessRefused(a);
          return false;
        }
        net.Record(Released);
      } else {
        return false;
      }
      queue := [];
      mode := ATOMIC;
      assert Inv() && QueueMatchesMode();
      assert FlagsMatchServer() && CaughtUp();
      return true;
    }

    /** `Redis::reset()`. */
    method Reset() returns (ok: bool)
      requires Valid() && !cluster
      modifies Objects()
      ensures Valid() && SameOrFresh()
      ensures ok ==> mode == ATOMIC && queue == [] && !watching && status == Connected && Armed(net.log).Nothing?
      ensures if ok then Once(old(net.log), net.log, [ResetCmd], stream)
              else AtMostOnce(old(net.log), net.log, [ResetCmd])
      ensures ok ==> !selectDb
      ensures old(net.Calm() && (stream == null || stream.Synced()) && !mode.pipeline) ==> ok
      ensures ok && stream.inStep ==> stream.server == NEW_SERVER
    {
      hide Armed, Safe, Commands, Sends, Asked;
      var open := ServerOpen();
      if !open {
        Fail();
        return false;
      }
      if mode.pipeline {
        return false;
      }
      var a := Roundtrip(ResetCmd);
      if !a.Yes? {
        FailUnlessRefused(a);
        return false;
      }
      StartOver();
      return true;
    }

    /** RESET was acknowledged. */
    method StartOver()
      requires Core() && stream != null && (stream.inStep ==> stream.server == NEW_SERVER) && !cluster
      requires CaughtUp() && pipelineCmd == []
      modifies this`queue, this`status, this`mode, this`selectDb, this`watching, net`log
      ensures !selectDb
      ensures Quiet(old(net.log), net.log) && stream == old(stream)
      ensures Valid() && mode == ATOMIC && queue == [] && !watching && status == Connected && Armed(net.log).Nothing?
    {
      hide Armed, Safe, Commands, Sends, Asked;
      queue := [];
      status := Connected;
      mode := ATOMIC;
      selectDb := false;
      watching := false;
      net.Record(Released);
    }

    // ---- exec() ----

    /** `Redis::exec()`: the end of a transaction, the EXEC of a pipelined one, or the flush of the pipeline. */
    method Exec() returns (ok: bool)
      requires Valid() && !cluster
      modifies Objects()
      ensures Valid() && SameOrFresh()
      ensures old(mode) != PIPELINE_MULTI || !ok ==> mode == ATOMIC
      ensures ok && old(mode) == PIPELINE_MULTI ==>
                mode == PIPELINE && queue == old(queue) + [Marker] && pipelineCmd == old(pipelineCmd) + [ExecCmd]
      ensures ok && old(mode) == MULTI ==>
                && net.log == old(net.log) + [Wrote([ExecCmd], old(stream), old(stream.readonlyAcked)), Released]
                && !watching
      ensures ok && old(mode == MULTI && stream.Synced()) ==>
                stream != null && (stream.Synced() <==> old(stale) == 0)
      // the array of a transaction is returned exactly if the server has executed it
      ensures old(mode) == MULTI && stream != null && stream.inStep ==>
                stream.server.executed == old(stream.server.executed) + if ok then 1 else 0
      ensures !ok && old(mode) == PIPELINE && stream != null ==> !stream.inStep
      ensures old(net.Calm() && mode == MULTI && stream.Synced()) ==> ok
      // the buffer is written, once, by the call that succeeds
      ensures ok && old(mode) == PIPELINE && old(pipelineCmd) != [] ==>
                Once(old(net.log), net.log, old(pipelineCmd), stream)
      ensures old(mode) == PIPELINE && old(pipelineCmd) == [] ==> ok && Quiet(old(net.log), net.log)
      ensures old(mode) == ATOMIC || old(mode) == PIPELINE_MULTI ==> Quiet(old(net.log), net.log)
      ensures !ok ==> AtMostOnce(old(net.log), net.log, if old(mode) == MULTI then [ExecCmd] else old(pipelineCmd))
      ensures ok && old(mode == PIPELINE && stale == 0 && stream.Synced()) ==>
                stream != null && (stream.Synced() <==> !Forgotten())
      ensures old(Unhindered()) ==>
                && ok && stream == old(stream) && stream.Synced()
                && watching == WatchingAfter(old(queue), false, old(watching))
      ensures old(mode) == PIPELINE ==> pipelineCmd == []
      ensures old(mode) != ATOMIC && mode == ATOMIC && ok ==> queue == []
      ensures old(mode) == ATOMIC ==> !ok
      ensures old(mode) == PIPELINE && Forgotten() ==>
                ok && !watching && stream.owed == old(pipelineCmd) && !stream.inStep
      ensures ok && old(mode) == PIPELINE && old(stream.owed) == [] && old(stale) == 0 ==>
                stream != null && (stream.owed != [] <==> Forgotten())
    {
      hide Armed, Safe, Commands, Sends, Asked, WatchInMulti, WatchingAfter, RedisSock.PipedFrom;
      var open := ServerOpen();
      if !open {
        Fail();
        return false;
      }
      if mode == PIPELINE_MULTI {
        PipeExec();
        return true;
      } else if mode == MULTI {
        ok := ExecTransaction();
      } else if mode == PIPELINE {
        ok := FlushPipeline();
      } else {
        return false;
      }
      if !ok {
        Fail();
      }
    }

    /** EXEC on the wire, its array read by the queued handlers. */
    method ExecTransaction() returns (ok: bool)
      requires Valid() && mode == MULTI
      modifies Objects()
      ensures SameOrFresh()
      ensures ok ==> net.log == old(net.log) + [Wrote([ExecCmd], old(stream), old(stream.readonlyAcked)), Released]
      ensures AtMostOnce(old(net.log), net.log, [ExecCmd])
      ensures Settled() && mode == ATOMIC
      ensures ok ==> !watching && queue == [] && Armed(net.log).Nothing?
      ensures ok && old(stream.Synced()) ==> stream != null && (stream.Synced() <==> old(stale) == 0)
      ensures stream != null && stream.inStep ==>
                stream.server.executed == old(stream.server.executed) + if ok then 1 else 0
      ensures old(net.Calm() && stream.Synced()) ==> ok
    {
      hide Armed, Safe, Commands, Sends, Asked;
      var a := Roundtrip(ExecCmd);
      if a.Lost? {
        return false;
      }
      ok := a.Yes?;
      if a.Yes? {
        ok := ReadArray();
      }
      queue := [];
      mode := mode.(multi := false);
      watching := false;
      net.Record(Released);
      assert Inv() && QueueMatchesMode();
      assert FlagsMatchServer() && CaughtUp();
    }

    /** The array of an EXEC, whatever its size: what no handler reads stays in the way of the next reply. */
    method ReadArray() returns (ok: bool)
      requires Inv() && stream != null && mode == MULTI
      modifies Objects()
      ensures net.losses <= old(net.losses)
      ensures Inv() && net.log == old(net.log) && pipelineCmd == old(pipelineCmd)
      ensures stream == old(stream) || stream == null
      ensures stream != null ==>
                && mode == MULTI && status == old(status) && stream.owed == old(stream.owed)
                && stream.server == old(stream.server) && (stream.inStep ==> old(stream.inStep) && stream.elements == 0)
                && watching == old(watching) && readonly == old(readonly)
      ensures stream == null ==> mode == ATOMIC
      ensures stream != null && stream.inStep ==> ok
      ensures ok ==> stream != null && stream.inStep == old(stream.inStep && |queue| == stream.elements)
      ensures old(net.Calm()) ==> ok
    {
      hide Armed, Safe, Commands, Sends, Asked;
      ok := ReadElements();
      if stream != null && stream.elements != 0 {
        net.Abandon(stream);
      }
    }

    /** Every queued handler reads one element. A lost one closes the socket and starves the rest. */
    method ReadElements() returns (ok: bool)
      requires Inv() && stream != null && mode == MULTI
      modifies Objects()
      ensures net.losses <= old(net.losses)
      ensures Inv() && net.log == old(net.log) && pipelineCmd == old(pipelineCmd)
      ensures stream == old(stream) || stream == null
      ensures stream != null ==>
                && mode == MULTI && status == old(status) && stream.owed == old(stream.owed)
                && stream.server == old(stream.server) && (stream.inStep ==> old(stream.inStep))
                && watching == old(watching) && readonly == old(readonly)
      ensures stream == null ==> mode == ATOMIC
      ensures stream != null && stream.inStep ==> ok
      ensures ok ==>
                && stream != null && stream.inStep == old(stream.inStep && |queue| <= stream.elements)
                && stream.elements == if old(stream.elements <= |queue|) then 0 else old(stream.elements - |queue|)
      ensures old(net.Calm()) ==> ok
    {
      hide Armed, Safe, Commands, Sends, Asked;
      ok := true;
      var i: nat := 0;
      while i < |queue|
        invariant old(net.Calm()) ==> ok
        invariant net.losses <= old(net.losses)
        invariant Inv() && net.log == old(net.log) && pipelineCmd == old(pipelineCmd)
        invariant stream == old(stream) || stream == null
        invariant stream != null ==>
                    && unchanged(this) && stream.owed == old(stream.owed) && i <= |queue|
                    && stream.server == old(stream.server) && (stream.inStep ==> old(stream.inStep))
                    && stream.readonlyAcked == old(stream.readonlyAcked)
        invariant stream == null ==> mode == ATOMIC
        invariant stream != null && stream.inStep ==> ok
        invariant ok ==>
                    && stream != null && stream.inStep == old(stream.inStep && i <= stream.elements)
                    && stream.elements == if old(stream.elements) <= i then 0 else old(stream.elements) - i
      {
        i := i + 1;
        var live := Probe();
        if !live {
          ok := false;
          continue;
        }
        var e := net.Element(stream);
        if e.Lost? {
          Disconnect(true);
        }
        ok := ok && (e.Yes? || e.No?);
      }
    }

    /** A flush that nothing keeps from succeeding: no losses, no stale callbacks, a session in step, and no WATCH
        inside a transaction. */
    ghost predicate Unhindered()
      reads Objects()
    {
      && net.Calm() && mode == PIPELINE && stale == 0
      && stream != null && stream.Synced() && !WatchInMulti(queue, false)
    }

    /** The whole buffer in one write, then one reply per callback. A persistent socket that had to reconnect for the
        write has no callbacks left: it succeeds, and every reply stays unread. A flush that reads all it has
        callbacks for leaves replies unread in that case only, and it does not succeed with stale callbacks. */
    method FlushPipeline() returns (ok: bool)
      requires Valid() && !cluster && mode == PIPELINE
      modifies Objects()
      ensures Settled() && mode == ATOMIC && queue == [] && pipelineCmd == []
      ensures ok ==> status == Ready
      ensures SameOrFresh()
      ensures if old(pipelineCmd) == [] then ok && Quiet(old(net.log), net.log)
              else if ok then Once(old(net.log), net.log, old(pipelineCmd), stream)
              else AtMostOnce(old(net.log), net.log, old(pipelineCmd))
      ensures !ok && stream != null ==> !stream.inStep
      ensures ok && old(stale == 0 && stream.Synced()) ==> (stream.Synced() <==> !Forgotten())
      ensures old(Unhindered()) ==>
                && ok && stream == old(stream) && stream.Synced()
                && watching == WatchingAfter(old(queue), false, old(watching))
      ensures Forgotten() ==>
                ok && !watching && Armed(net.log).Nothing? && stream.owed == old(pipelineCmd) && !stream.inStep
      ensures ok && old(stream.owed) == [] && old(stale) == 0 ==> (stream.owed != [] <==> Forgotten())
      ensures ok && old(stream.owed) == [] && old(pipelineCmd) != [] && !Forgotten() ==> old(stale) == 0
    {
      hide Armed, Safe, Commands, Sends, Asked, WatchInMulti;
      ok := true;
      if pipelineCmd != [] {
        ok := Deliver();
        pipelineCmd := [];
      } else {
        assert stale == 0 ==> queue[0..] == queue;
      }
      queue := [];
      mode := mode.(pipeline := false);
    }

    /** The write and the replies; with a reply unread, replies and commands are out of step. */
    method Deliver() returns (ok: bool)
      requires Valid() && !cluster && mode == PIPELINE && pipelineCmd != []
      modifies Objects()
      ensures Inv() && SameOrFresh() && pipelineCmd == old(pipelineCmd) && CaughtUp()
      ensures stream != null ==> mode == PIPELINE && status == Ready && CleanSoFar()
      ensures stream == null ==> mode == ATOMIC && !ok
      ensures if ok then Once(old(net.log), net.log, old(pipelineCmd), stream)
              else AtMostOnce(old(net.log), net.log, old(pipelineCmd))
      ensures !ok && stream != null ==> !stream.inStep
      ensures ok && old(stale == 0 && stream.Synced()) && !Forgotten() ==> stream.Synced()
      ensures old(Unhindered()) ==>
                && ok && stream == old(stream)
                && watching == WatchingAfter(old(queue), false, old(watching))
      ensures Forgotten() ==>
                ok && !watching && Armed(net.log).Nothing? && stream.owed == old(pipelineCmd) && !stream.inStep
      ensures ok && old(stream.owed) == [] && !Forgotten() ==>
                |old(queue)| <= |old(pipelineCmd)| && stream.owed == old(pipelineCmd)[|old(queue)|..]
    {
      hide Armed, Safe, Commands, Sends, Asked, WatchInMulti, WatchingAfter;
      ghost var late := stale > 0;
      ghost var log := net.log;
      assert !late ==> queue[0..] == queue;
      WatchAmong(queue, false);
      ok := Write(pipelineCmd);
      if ok {
        if WatchCmd in pipelineCmd {
          AskedAfter(log, net.log, pipelineCmd, stream);
        }
        ok := ReplyLoop(late);
      }
      if stream != null && stream.owed != [] {
        net.Abandon(stream);
      }
    }

    /** The commands went out on a session that took the place of the old one, and the callbacks are gone. */
    twostate predicate Forgotten()
      reads this
    {
      persistent && stream != null && stream != old(stream) && old(pipelineCmd) != []
    }

    /** Between two top-level replies of a flush: what has been read so far left no transaction open and no
        watch unnoticed. */
    ghost predicate CleanSoFar()
      reads this, stream
    {
      stream != null && stream.inStep ==>
        !stream.server.inMulti && stream.elements == 0 && (stream.server.watched ==> watching)
    }

    /** The reply to a piped command and what its handler makes of it; without a stream there is none. */
    method Handle(f: OnSuccess, ghost late: bool) returns (read: bool)
      requires Inv() && !cluster && CleanSoFar() && if stream == null then mode == ATOMIC else mode == PIPELINE
      requires stream != null && f.SetWatch? && !late ==> Asked(net.log, stream)
      modifies Objects()
      ensures net.losses <= old(net.losses)
      ensures Inv() && (stream == old(stream) || stream == null) && pipelineCmd == old(pipelineCmd)
      ensures queue == old(queue) || queue == []
      ensures Quiet(old(net.log), net.log)
      ensures stream != null ==> mode == PIPELINE && status == old(status) && CleanSoFar() && queue == old(queue)
      ensures stream == null ==> mode == ATOMIC && !read
      ensures read ==> old(stream.owed) != [] && stream.owed == old(stream.owed)[1..]
      ensures read && old(Expects(CommandOf(f))) ==> stream.inStep
      ensures stream != null && stream.inStep ==> read && old(stream.inStep)
      ensures read && stream.inStep && f.SetWatch? ==> (watching <==> old(watching) || stream.server.watched)
      ensures old(net.Calm() && Expects(CommandOf(f))) ==> read && watching == FlagAfter(f, old(watching))
    {
      hide Armed, Safe, Commands, Sends, Asked;
      var a := ReadReply(CommandOf(f));
      if a.Yes? {
        Succeed(f, late);
      }
      return a.Yes? || a.No?;
    }

    /** In front of callback i: the replies to those before have been read, all of them if `ok`. */
    ghost predicate Reading(i: nat, ok: bool, x: Flush)
      reads Objects()
    {
      && Inv() && !cluster && (queue == [] || queue == x.queue)
      && (if stream == null then mode == ATOMIC && !ok else mode == PIPELINE && CleanSoFar())
      && (queue != [] ==> i <= |queue| && Paired(queue[i..]))
      && (ok ==> queue == x.queue && i <= |queue| && i <= |x.owed| && stream.owed == x.owed[i..])
      && (!ok && stream != null ==> !stream.inStep)
      && (ok && x.exact ==> stream.inStep && stream.owed == Commands(queue[i..], false))
      && (stream != null && Handler(SetWatch) in x.queue && !x.late ==> Asked(net.log, stream))
      && (x.sure ==>
            && net.Calm() && x.exact && ok && !WatchInMulti(queue[i..], false)
            && WatchingAfter(queue[i..], false, watching) == x.flag)
    }

    /** The callback in turn, or the transaction that its marker begins. */
    method ReadNext(i: nat, ok: bool, ghost x: Flush)
      returns (ok': bool, i': nat, stop: bool)
      requires Reading(i, ok, x) && i < |queue|
      modifies Objects()
      ensures net.losses <= old(net.losses)
      ensures Inv() && (stream == old(stream) || stream == null) && pipelineCmd == old(pipelineCmd)
      ensures Quiet(old(net.log), net.log)
      ensures stream != null ==> mode == PIPELINE && status == old(status) && CleanSoFar()
      ensures stream == null ==> mode == ATOMIC && !ok'
      ensures stop && stream != null ==> !stream.inStep
      ensures if stop then !ok' && !x.sure else i < i' && Reading(i', ok', x)
    {
      stop := false;
      if queue[i].Handler? {
        ok' := NextHandler(i, ok, x);
        i' := i + 1;
      } else {
        ok', i', stop := NextTransaction(i, ok, x);
      }
    }

    method NextHandler(i: nat, ok: bool, ghost x: Flush) returns (ok': bool)
      requires Reading(i, ok, x) && i < |queue| && queue[i].Handler?
      modifies Objects()
      ensures net.losses <= old(net.losses)
      ensures Inv() && (stream == old(stream) || stream == null) && pipelineCmd == old(pipelineCmd)
      ensures Quiet(old(net.log), net.log)
      ensures stream != null ==> mode == PIPELINE && status == old(status) && CleanSoFar()
      ensures stream == null ==> mode == ATOMIC && !ok'
      ensures Reading(i + 1, ok', x)
    {
      hide Armed, Safe, Commands, Sends, Asked, Paired, WatchInMulti, WatchingAfter, Closing, Markers, FlagAfter;
      HandlerAhead(queue, i, watching);
      Suffix(x.owed, i, 1);
      ghost var log, s := net.log, stream;
      var read := Handle(queue[i].onSuccess, x.late);
      if s != null {
        AskedStays(log, net.log, s);
      }
      ok' := ok && read;
    }

    method NextTransaction(i: nat, ok: bool, ghost x: Flush) returns (ok': bool, i': nat, stop: bool)
      requires Reading(i, ok, x) && i < |queue| && queue[i].Marker?
      modifies Objects()
      ensures net.losses <= old(net.losses)
      ensures Inv() && (stream == old(stream) || stream == null) && pipelineCmd == old(pipelineCmd)
      ensures Quiet(old(net.log), net.log)
      ensures stream != null ==> mode == PIPELINE && status == old(status) && CleanSoFar()
      ensures stream == null ==> mode == ATOMIC && !ok'
      ensures stop && stream != null ==> !stream.inStep
      ensures if stop then !ok' && !x.sure else i < i' && Reading(i', ok', x)
    {
      hide Armed, Safe, Commands, Sends, Asked, Paired, WatchInMulti, WatchingAfter, Closing, Markers, FlagAfter;
      TransactionAhead(queue, i, watching);
      ghost var n := Closing(queue[i..]);
      Suffix(x.owed, i, n + 2);
      var done, close := ReplayTransaction(i);
      ok', i', stop := ok && done, close + 1, !done;
      if !done && stream != null {
        net.Abandon(stream);
      }
    }

    /** `redis_sock_read_multibulk_multi_reply_loop`: stays inside the queue because the markers are paired. */
    method ReplyLoop(ghost late: bool) returns (ok: bool)
      requires Inv() && !cluster && stream != null && mode == PIPELINE && Paired(queue) && CleanSoFar()
      requires Handler(SetWatch) in queue && !late ==> Asked(net.log, stream)
      modifies Objects()
      ensures net.losses <= old(net.losses)
      ensures Inv() && (stream == old(stream) || stream == null)
      ensures stream != null ==> mode == PIPELINE && status == old(status) && CleanSoFar()
      ensures stream == null ==> mode == ATOMIC && !ok
      ensures pipelineCmd == old(pipelineCmd) && Quiet(old(net.log), net.log)
      ensures ok ==> |old(queue)| <= |old(stream.owed)| && stream.owed == old(stream.owed)[|old(queue)|..]
      ensures !ok && stream != null ==> !stream.inStep
      ensures ok && old(Answering()) ==> stream.Synced()
      ensures old(net.Calm() && Answering() && !WatchInMulti(queue, false)) ==>
                ok && watching == WatchingAfter(old(queue), false, old(watching))
      ensures old(queue) == [] ==> ok && watching == old(watching) && net.log == old(net.log)
    {
      hide Armed, Safe, Commands, Sends, Asked, Paired, WatchInMulti, WatchingAfter, Closing, Markers, FlagAfter;
      ghost var exact := Answering();
      ghost var x := Flush(queue, stream.owed, exact, net.Calm() && exact && !WatchInMulti(queue, false), late,
                           WatchingAfter(queue, false, watching));
      assert queue[0..] == queue && stream.owed[0..] == stream.owed;
      ok := true;
      var i, stop := 0, false;
      while !stop && i < |queue|
        invariant (stream == old(stream) || stream == null) && pipelineCmd == old(pipelineCmd)
        invariant stream != null ==> status == old(status)
        invariant net.losses <= old(net.losses)
        invariant Quiet(old(net.log), net.log)
        invariant stop ==>
                    && !ok && x.queue != [] && !x.sure && Inv()
                    && (stream != null ==> !stream.inStep)
                    && if stream == null then mode == ATOMIC else mode == PIPELINE && CleanSoFar()
        invariant !stop ==> Reading(i, ok, x)
        invariant x.queue == [] ==> ok && queue == [] && watching == old(watching) && net.log == old(net.log)
        decreases if stop then 0 else 1, |x.queue| - i
      {
        ok, i, stop := ReadNext(i, ok, x);
      }
      NothingAhead(watching);
      assert ok ==> queue[i..] == [];
    }

    /** In step, and the replies owed are those that the callbacks wait for. */
    ghost predicate Answering()
      reads this, stream
    {
      stream != null && stream.inStep && stream.owed == Commands(queue, false)
    }

    /** The acknowledgements of n commands between two markers. */
    method ReadQueued(first: nat, ghost n: nat) returns (done: bool, i: nat)
      requires Inv() && stream != null && mode != MULTI
      requires stream.inStep ==> stream.server.inMulti && stream.elements == 0
      requires first + n < |queue| && queue[first + n].Marker? && forall k | first <= k < first + n :: queue[k].Handler?
      modifies Objects()
      ensures net.losses <= old(net.losses)
      ensures Inv() && (stream == old(stream) || stream == null) && net.log == old(net.log)
      ensures stream != null ==> mode == old(mode) && status == old(status)
      ensures stream == null ==> mode == ATOMIC
      ensures stream != null && stream.inStep ==> old(stream.inStep)
      ensures pipelineCmd == old(pipelineCmd) && (queue == old(queue) || queue == [])
      ensures done ==>
                && stream != null && unchanged(this) && i == first + n
                && (stream.inStep ==> stream.server.inMulti && stream.elements == 0)
                && n <= |old(stream.owed)| && stream.owed == old(stream.owed)[n..]
      ensures done && stream.inStep ==> stream.server.queued == old(stream.server.queued) + n
      ensures done && old(stream.inStep && Awaits(first, n)) ==> stream.inStep
      ensures old(net.Calm() && stream.inStep && Awaits(first, n))
              && (forall k | first <= k < first + n :: !old(queue)[k].onSuccess.SetWatch?) ==>
                done
    {
      hide Armed, Safe, Commands, Sends, Asked;
      i := first;
      done := false;
      ghost var awaited, owed := stream.inStep && Awaits(first, n), stream.owed;
      while queue[i].Handler?
        invariant net.losses <= old(net.losses)
        invariant Inv() && stream == old(stream) && stream != null && unchanged(this) && net.log == old(net.log)
        invariant first <= i <= first + n
        invariant i - first <= |owed| && stream.owed == owed[i - first..]
        invariant stream.inStep ==> stream.server.inMulti && stream.elements == 0
        invariant stream.inStep ==> stream.server.queued == old(stream.server.queued) + (i - first)
        invariant stream.inStep ==> old(stream.inStep)
        invariant awaited ==> stream.inStep
        decreases |queue| - i
      {
        assert awaited ==> owed[i - first..][0] == owed[i - first];
        var a := ReadReply(CommandOf(queue[i].onSuccess));
        if !a.Yes? {
          return;
        }
        i := i + 1;
      }
      done := true;
    }

    /** The next n replies are those to the commands of these callbacks. */
    ghost predicate Awaits(first: nat, n: nat)
      requires stream != null && first + n <= |queue| && forall k | first <= k < first + n :: queue[k].Handler?
      reads this, stream
    {
      n <= |stream.owed| && forall k | 0 <= k < n :: stream.owed[k] == CommandOf(queue[first + k].onSuccess)
    }

    lemma HandlerAhead(q: seq<FoldItem>, i: nat, watching: bool)
      requires i < |q| && Paired(q[i..]) && q[i].Handler?
      ensures Paired(q[i + 1..])
      ensures Commands(q[i..], false) == [CommandOf(q[i].onSuccess)] + Commands(q[i + 1..], false)
      ensures WatchInMulti(q[i..], false) == WatchInMulti(q[i + 1..], false)
      ensures WatchingAfter(q[i..], false, watching)
           == WatchingAfter(q[i + 1..], false, FlagAfter(q[i].onSuccess, watching))
    {
      assert q[i..][1..] == q[i + 1..];
    }

    lemma TransactionAhead(q: seq<FoldItem>, i: nat, watching: bool)
      requires i < |q| && Paired(q[i..]) && q[i].Marker?
      ensures var n := Closing(q[i..]);
              && i + n + 1 < |q| && q[i + n + 1].Marker? && Paired(q[i + n + 2..])
              && (forall k | i < k <= i + n :: q[k].Handler?)
              && Commands(q[i..], false)[n + 2..] == Commands(q[i + n + 2..], false)
              && WatchingAfter(q[i..], false, watching) == WatchingAfter(q[i + n + 2..], false, watching)
              && (!WatchInMulti(q[i..], false) ==>
                    && !WatchInMulti(q[i + n + 2..], false)
                    && forall k | i < k <= i + n :: !q[k].onSuccess.SetWatch?)
    {
      var rest := q[i..];
      var n := Closing(rest);
      CommandsOfTransaction(rest);
      TransactionInFlush(rest, watching);
      assert rest[n + 2..] == q[i + n + 2..];
      assert forall k | i < k <= i + n + 1 :: q[k] == rest[k - i];
    }

    lemma NothingAhead(watching: bool)
      ensures Commands([], false) == [] && WatchingAfter([], false, watching) == watching
    {
    }

    lemma Suffix<T>(s: seq<T>, i: nat, k: nat)
      ensures i + k <= |s| ==> s[i..][k..] == s[i + k..]
    {
    }

    /** One pipelined transaction: +OK, an acknowledgement per command, the array behind EXEC. */
    method ReplayTransaction(open: nat) returns (done: bool, i: nat)
      requires Inv() && mode != MULTI && open < |queue| && queue[open].Marker? && Paired(queue[open..]) && CleanSoFar()
      modifies Objects()
      ensures net.losses <= old(net.losses)
      ensures Inv() && (stream == old(stream) || stream == null) && net.log == old(net.log)
      ensures stream != null ==> mode == old(mode) && status == old(status)
      ensures stream == null ==> mode == ATOMIC || mode == old(mode)
      ensures old(stream) != null && stream == null ==> mode == ATOMIC
      ensures pipelineCmd == old(pipelineCmd) && (queue == old(queue) || queue == [])
      ensures done ==>
                && stream != null && CleanSoFar() && unchanged(this) && i == open + 1 + Closing(queue[open..])
                && i + 1 - open <= |old(stream.owed)| && stream.owed == old(stream.owed)[i + 1 - open..]
      ensures stream != null && stream.inStep ==> old(stream.inStep)
      ensures done && old(InFront(open)) ==> stream.inStep
      ensures old(net.Calm() && InFront(open) && !WatchInMulti(queue[open..], false)) ==> done
    {
      hide Armed, Safe, Commands, Sends, Asked, Paired, WatchInMulti, WatchingAfter, Closing, Markers, FlagAfter;
      i := open;
      done := false;
      ghost var n := Closing(queue[open..]);
      ghost var front := InFront(open);
      TransactionAhead(queue, open, watching);
      CommandsOfTransaction(queue[open..]);
      var a := ReadReply(MultiCmd);
      if !a.Yes? {
        return;
      }
      assert front ==> Awaits(open + 1, n);
      var queued;
      queued, i := ReadQueued(i + 1, n);
      if !queued {
        return;
      }
      done := ReadExec();
    }

    /** In step, and the replies owed are those that the callbacks from here on wait for. */
    ghost predicate InFront(i: nat)
      requires i <= |queue|
      reads this, stream
    {
      stream != null && stream.inStep && stream.owed == Commands(queue[i..], false)
    }

    /** The reply to the EXEC of a pipelined transaction, with its array. */
    method ReadExec() returns (done: bool)
      requires Inv() && stream != null && mode != MULTI
      requires stream.inStep ==> stream.server.inMulti && stream.elements == 0
      modifies Objects()
      ensures net.losses <= old(net.losses)
      ensures Inv() && (stream == old(stream) || stream == null) && net.log == old(net.log)
      ensures stream != null ==> mode == old(mode) && status == old(status)
      ensures stream == null ==> mode == ATOMIC
      ensures stream != null && stream.inStep ==> old(stream.inStep)
      ensures pipelineCmd == old(pipelineCmd) && (queue == old(queue) || queue == [])
      ensures done ==>
                && stream != null && CleanSoFar() && unchanged(this)
                && old(stream.owed) != [] && stream.owed == old(stream.owed)[1..]
      ensures done && old(Expects(ExecCmd)) ==> stream.inStep
      ensures old(net.Calm() && Expects(ExecCmd)) ==> done
    {
      hide Armed, Safe, Commands, Sends, Asked;
      var a := ReadReply(ExecCmd);
      if a.Lost? {
        return false;
      }
      if a.Yes? {
        var e := net.Elements(stream);
        if e.Lost? {
          Disconnect(true);
        }
        return e.Yes? || e.No?;
      }
      return true;
    }

    // ---- close() and reconnect() ----

    /** `Redis::close()`. In the middle of a pipelined transaction it leaves the mode ATOMIC but, on a
        non-persistent socket, the markers in the queue. */
    method Close() returns (ok: bool)
      requires Valid() && !cluster
      modifies Objects()
      ensures Inv() && FlagsMatchServer() && SameOrFresh()
      ensures old(net.Calm() && (stream == null || stream.Synced())) ==> ok
      ensures Quiet(old(net.log), net.log)
      ensures ok ==> stream == null && mode == ATOMIC && Armed(net.log).Nothing?
      ensures ok ==> (QueueMatchesMode() <==> persistent || old(Markers(queue)) == 0)
      ensures !old(mode.pipeline) ==> Valid()
      ensures !ok ==> Valid()
    {
      hide Armed, Safe, Commands, Sends, Asked, RedisSock.PipedFrom;
      var open := ServerOpen();
      if !open {
        Fail();
        return false;
      }
      Disconnect(true);
      net.Record(Released);
      return true;
    }

    /** `Redis::reconnect()`: a fresh session, nothing left of the old one; no retries during the handshake. */
    method Reconnect() returns (ok: bool)
      requires Valid() && !cluster
      modifies Objects()
      ensures Valid() && SameOrFresh()
      ensures ok ==> status == Ready && fresh(stream) && mode == ATOMIC && queue == [] && pipelineCmd == [] && !watching
      ensures !ok && old(status) != Disconnected ==> stream == null && status.Failed?
      ensures net.connects <= old(net.connects) + 1
      ensures old(status) == Disconnected ==> !ok && net.connects == old(net.connects)
      ensures old(net.Calm() && status != Disconnected) ==> ok
      ensures maxRetries == old(maxRetries) && Quiet(old(net.log), net.log)
    {
      hide Armed, Safe, Commands, Sends, Asked;
      if status.Disconnected? {
        Fail();
        return false;
      }
      LetGo();
      ok := OpenFresh();
      if !ok {
        Disconnect(true);
        status := Status.Failed;
        Fail();
      }
    }

    /** Nothing is left of the old session. */
    method LetGo()
      requires Valid() && !cluster
      modifies Objects()
      ensures Valid() && stream == null && mode == ATOMIC && queue == [] && pipelineCmd == [] && !watching
      ensures net.connects == old(net.connects)
      ensures net.losses == old(net.losses)
      ensures Quiet(old(net.log), net.log)
      ensures status == Disconnected && Armed(net.log).Nothing? && maxRetries == old(maxRetries)
    {
      hide Armed, Safe, Commands, Sends, Asked;
      Disconnect(true);
      net.Record(Released);
      queue := [];
      pipelineCmd := [];
    }

    /** The handshake of `redis_sock_reconnect`, which must not reconnect by itself. */
    method OpenFresh() returns (ok: bool)
      requires Valid() && stream == null
      modifies Objects()
      ensures ok ==> Valid() && status == Ready && fresh(stream)
      ensures !ok ==> Settled()
      ensures SameOrFresh() && mode == old(mode) && Armed(net.log) == Armed(old(net.log))
      ensures queue == old(queue) || queue == []
      ensures pipelineCmd == old(pipelineCmd) || pipelineCmd == []
      ensures net.connects <= old(net.connects) + 1
      ensures old(net.Calm()) ==> ok
      ensures watching ==> old(watching)
      ensures maxRetries == old(maxRetries) && Quiet(old(net.log), net.log)
    {
      hide Armed, Safe, Commands, Sends, Asked;
      var retries := maxRetries;
      maxRetries := 0;
      ok := Connect();
      if ok {
        ok := FinishHandshake();
      }
      maxRetries := retries;
    }

    // ---- replica sockets of a cluster ----

    /** `cluster_sock_live`. */
    method SockLive() returns (ok: bool)
      requires Valid() && cluster
      modifies Objects()
      ensures Valid() && SameOrFresh()
      ensures ok ==> stream != null && status == Ready
      ensures net.losses <= old(net.losses)
      ensures Quiet(old(net.log), net.log)
      ensures readonly ==> old(readonly) && stream == old(stream)
      ensures old(net.steady && net.losses == 1 && status == Ready && maxRetries > 0 && !watching) ==> ok
      ensures old(net.Calm() && (stream == null || stream.Synced())) ==> ok && stream.Synced()
    {
      hide Armed, Safe, Commands, Sends, Asked;
      ok := ServerOpen();
      if ok {
        ok := CheckEof(false);
      }
    }

    /** `cluster_send_direct`: the reply must start with '+'; a different reply is left unread behind its first byte. */
    method SendDirect(cmd: Cmd) returns (ok: bool)
      requires Valid() && cluster && cmd.ReadonlyCmd?
      modifies Objects()
      ensures net.losses <= old(net.losses)
      ensures Valid() && SameOrFresh()
      ensures ok ==> Once(old(net.log), net.log, [cmd], stream)
      ensures ok ==> stream != null && status == Ready && stream.readonlyAcked
                     && (stream.inStep ==> stream.server.readonly)
      ensures old(net.Calm() && (stream == null || stream.Synced())) ==> ok && stream.Synced()
    {
      hide Armed, Safe, Commands, Sends, Asked, RedisSock.PipedFrom;
      var live := SockLive();
      if !live {
        return false;
      }
      var full := net.Write(stream, [cmd]);
      if !full {
        return false;
      }
      live := Probe();
      if !live {
        return false;
      }
      var a := net.Reply(stream, cmd);
      assert Inv();
      if !a.Yes? {
        net.Abandon(stream);
        return false;
      }
      return true;
    }

    /** `cluster_send_readonly`. */
    method SendReadonly() returns (ok: bool)
      requires Valid() && cluster
      modifies Objects()
      ensures Valid() && SameOrFresh()
      ensures net.losses <= old(net.losses)
      ensures ok <==> readonly
      ensures ok ==> stream != null
      ensures if old(readonly) then Quiet(old(net.log), net.log) && stream == old(stream)
              else ok ==> Once(old(net.log), net.log, [ReadonlyCmd], stream)
      ensures old(net.Calm() && (stream == null || stream.Synced())) ==> ok && stream.Synced()
    {
      hide Armed, Safe, Commands, Sends, Asked;
      if readonly {
        return true;
      }
      ok := SendDirect(ReadonlyCmd);
      readonly := ok;
    }

    /** `cluster_send_replica_payload`: liveness once, then READONLY, then the command with no further check. */
    method SendReplicaPayload() returns (ok: bool)
      requires Valid() && cluster
      modifies Objects()
      ensures Valid() && SameOrFresh()
      ensures ok ==>
                && stream != null && readonly && stream.readonlyAcked
                && (stream.inStep ==> stream.server.readonly)
                && net.log != [] && net.log[|net.log| - 1] == Wrote([ReplicaPayload], stream, true)
      // once, and READONLY before it unless the session in use had acknowledged it already
      ensures ok ==>
                || (Once(old(net.log), net.log, [ReplicaPayload], stream) && old(readonly) && stream == old(stream))
                || Sends(net.log)
                == Sends(old(net.log)) + [Sending([ReadonlyCmd], stream), Sending([ReplicaPayload], stream)]
      ensures old(net.Calm() && (stream == null || stream.Synced())) ==> ok
    {
      hide Armed, Safe, Commands, Sends, Asked;
      ok := SockLive();
      if !ok {
        return;
      }
      ok := SendReadonly();
      if !ok {
        return;
      }
      ok := net.Write(stream, [ReplicaPayload]);
    }

    /** `cluster_send_payload`. */
    method SendPayload() returns (ok: bool)
      requires Valid() && cluster
      modifies Objects()
      ensures Valid() && SameOrFresh()
      ensures ok ==>
                && stream != null && net.log != []
                && net.log[|net.log| - 1] == Wrote([Payload], stream, stream.readonlyAcked)
                && Once(old(net.log), net.log, [Payload], stream)
      ensures old(net.Calm() && (stream == null || stream.Synced())) ==> ok
    {
      hide Armed, Safe, Commands, Sends, Asked;
      ok := SockLive();
      if ok {
        ok := net.Write(stream, [Payload]);
      }
    }

    /** The reply to a payload (`cluster_check_response`). */
    method CheckResponse(cmd: Cmd) returns (a: Answer)
      requires Valid() && cluster && (cmd.Payload? || cmd.ReplicaPayload?)
      modifies Objects()
      ensures Valid() && SameOrFresh()
      ensures a.Lost? <==> stream == null
      ensures !a.Lost? ==> stream == old(stream) && old(stream.owed) != [] && stream.owed == old(stream.owed)[1..]
    {
      hide Armed, Safe, Commands, Sends, Asked;
      a := ReadReply(cmd);
    }
  }

  datatype Call =
    | CallMulti | CallPipeline | CallExec | CallDiscard | CallReset | CallReconnect
    | CallCommand | CallWatch | CallUnwatch | CallClose
    | CallReplica | CallMaster | CallReply(replica: bool)

  predicate Fits(call: Call, cluster: bool) {
    cluster <==> call.CallReplica? || call.CallMaster? || call.CallReply?
  }

  /** Any script: whatever the application calls in whatever order, except close() in a pipeline, and whenever
      connections are lost, the socket stays valid and the log safe. */
  method RunScript(r: RedisSock, calls: seq<Call>)
    requires r.Valid() && forall c | c in calls :: Fits(c, r.cluster)
    modifies r.Objects()
    ensures r.Valid() && Safe(r.net.log)
  {
    for i := 0 to |calls|
      invariant r.Valid() && r.SameOrFresh()
    {
      assert Fits(calls[i], r.cluster);
      match calls[i] {
        case CallMulti => var _ := r.Multi();
        case CallPipeline => var _ := r.StartPipeline();
        case CallExec => var _ := r.Exec();
        case CallDiscard => var _ := r.Discard();
        case CallReset => var _ := r.Reset();
        case CallReconnect => var _ := r.Reconnect();
        case CallClose =>
          if !r.mode.pipeline {
            var _ := r.Close();
          }
        case CallCommand => var _ := r.ProcessCmd(Payload);
        case CallWatch => var _ := r.ProcessCmd(WatchCmd);
        case CallUnwatch => var _ := r.ProcessCmd(UnwatchCmd);
        case CallReplica => var _ := r.SendReplicaPayload();
        case CallMaster => var _ := r.SendPayload();
        case CallReply(replica) => var _ := r.CheckResponse(if replica then ReplicaPayload else Payload);
      }
    }
  }
}
