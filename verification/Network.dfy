/** The other end of a RedisSock: TCP sessions that can be lost at any time, the Redis server behind each of
    them, and the log of what was written and acknowledged where. */
module Network {
  import opened Options

  datatype Cmd =
    | AuthCmd | SelectCmd | MultiCmd | ExecCmd | DiscardCmd | WatchCmd | UnwatchCmd | ResetCmd | ReadonlyCmd
    | Payload           // any command without session state
    | ReplicaPayload    // a command distributed to a replica

  /** What a server keeps per session, and the number of transactions it has executed there. */
  datatype Server = Server(inMulti: bool, watched: bool, readonly: bool, queued: nat, executed: nat)

  const NEW_SERVER := Server(false, false, false, 0, 0)

  /** Whether the server may answer a command positively. */
  predicate MayAccept(v: Server, c: Cmd) {
    match c
    case MultiCmd => !v.inMulti
    case WatchCmd => !v.inMulti
    case ExecCmd => v.inMulti
    case DiscardCmd => v.inMulti
    case _ => true
  }

  function After(v: Server, c: Cmd, accepted: bool): Server {
    match c
    case ExecCmd =>
      if v.inMulti then Server(false, false, v.readonly, 0, if accepted then v.executed + 1 else v.executed) else v
    case ResetCmd => if accepted then NEW_SERVER else v
    case DiscardCmd => if accepted then Server(false, false, v.readonly, 0, v.executed) else v
    case MultiCmd => if accepted then v.(inMulti := true, queued := 0) else v
    case _ =>
      if !accepted then v
      else if v.inMulti then v.(queued := v.queued + 1)
      else match c
        case WatchCmd => v.(watched := true)
        case UnwatchCmd => v.(watched := false)
        case ReadonlyCmd => v.(readonly := true)
        case _ => v
  }

  /** One TCP session. The server's state is the one after the last reply the client has read; `owed` are the
      commands whose replies have not been read, and `elements` is what is left of the array of an EXEC. `inStep` is
      lost for good when a reply is torn or taken for the reply to another command. The client has read '+' for a
      READONLY on this session, for an AUTH and for a SELECT, the latter two since the last RESET. */
  class TcpSession {
    var server: Server
    var owed: seq<Cmd>
    var inStep: bool
    var elements: nat
    var readonlyAcked: bool
    var authAcked: bool
    var selectAcked: bool

    constructor ()
      ensures New()
    {
      server, owed, inStep, elements := NEW_SERVER, [], true, 0;
      readonlyAcked, authAcked, selectAcked := false, false, false;
    }

    ghost predicate New()
      reads this
    {
      server == NEW_SERVER && Synced() && !readonlyAcked && !authAcked && !selectAcked
    }

    ghost predicate Synced()
      reads this
    {
      inStep && owed == [] && elements == 0
    }
  }

  datatype Answer = Yes | No | Lost | Torn

  /** `Wrote`: bytes of these commands went out on this session. `Acked`: the application was told that WATCH
      or MULTI succeeded; `late` if by a flush with callbacks from before its pipeline. `Released`: it was told that
      the watch or transaction is over, or gave the connection up itself. `Failed`: a call lost the connection or a
      part of its replies and reported failure. A command that the server or the client refuses is none of these. */
  datatype Event =
    | Wrote(cmds: seq<Cmd>, on: TcpSession, readonlyAcked: bool)
    | Acked(session: TcpSession, late: bool)
    | Released
    | Failed

  /** The session an acknowledged WATCH or MULTI lives on, until it is over or a failure is reported. */
  ghost function Armed(log: seq<Event>): Maybe<TcpSession> {
    if log == [] then Nothing
    else match log[|log| - 1]
      case Wrote(_, _, _) => Armed(log[..|log| - 1])
      case Acked(s, _) => Just(s)
      case Released => Nothing
      case Failed => Nothing
  }

  ghost predicate Allowed(armed: Maybe<TcpSession>, e: Event) {
    match e
    case Wrote(cmds, s, acked) => (armed.Just? ==> armed.value == s) && (ReplicaPayload in cmds ==> acked)
    case Acked(s, _) => armed.Just? ==> armed.value == s
    case _ => true
  }

  ghost predicate Safe(log: seq<Event>) {
    log != [] ==>
      var (before, e) := (log[..|log| - 1], log[|log| - 1]);
      Safe(before) && Allowed(Armed(before), e) && (e.Acked? && !e.late ==> Asked(before, e.session))
  }

  /** What the application has written: everything but the handshakes of the socket. */
  datatype Sending = Sending(cmds: seq<Cmd>, on: TcpSession)

  predicate Greets(cmds: seq<Cmd>) {
    cmds == [AuthCmd] || cmds == [SelectCmd]
  }

  ghost function Sends(log: seq<Event>): seq<Sending> {
    if log == [] then []
    else
      var (rest, e) := (Sends(log[..|log| - 1]), log[|log| - 1]);
      if e.Wrote? && !Greets(e.cmds) then rest + [Sending(e.cmds, e.on)] else rest
  }

  /** A WATCH or MULTI has been written on this session. */
  ghost predicate Asked(log: seq<Event>, s: TcpSession) {
    exists i | 0 <= i < |Sends(log)| ::
      Sends(log)[i].on == s && (WatchCmd in Sends(log)[i].cmds || MultiCmd in Sends(log)[i].cmds)
  }

  /** The log has grown, but by nothing the application has written. */
  ghost predicate Quiet(before: seq<Event>, log: seq<Event>) {
    before <= log && Sends(log) == Sends(before)
  }

  /** Of what the application writes, exactly this was written, and once. */
  ghost predicate Once(before: seq<Event>, log: seq<Event>, cmds: seq<Cmd>, s: TcpSession?) {
    s != null && before <= log && Sends(log) == Sends(before) + [Sending(cmds, s)]
  }

  ghost predicate AtMostOnce(before: seq<Event>, log: seq<Event>, cmds: seq<Cmd>) {
    && before <= log && Sends(before) <= Sends(log) && |Sends(log)| <= |Sends(before)| + 1
    && (|Sends(log)| == |Sends(before)| + 1 ==> Sends(log)[|Sends(before)|].cmds == cmds)
  }

  /** Whether `what` has been acknowledged, after a further reply. */
  predicate Acknowledged(before: bool, what: Cmd, expected: Cmd, yes: bool) {
    if yes && expected.ResetCmd? then false else before || (yes && expected == what)
  }

  /** Connections can be lost whenever the network likes, `losses` times so that a probe finds them at their end. If
      the network is `steady`, that is all: connections are accepted, and no write or reply is lost. `connects` counts
      those that were accepted. */
  class Link {
    var losses: nat
    const steady: bool
    var connects: nat
    ghost var log: seq<Event>

    constructor (losses: nat, steady: bool)
      ensures log == [] && this.losses == losses && this.steady == steady
    {
      this.losses, this.steady, this.connects, this.log := losses, steady, 0, [];
    }

    predicate Calm()
      reads this`losses
    {
      steady && losses == 0
    }

    ghost method Record(e: Event)
      modifies this`log
      ensures log == old(log) + [e]
      ensures Armed(log) == if e.Wrote? then Armed(old(log)) else if e.Acked? then Just(e.session) else Nothing
      ensures Safe(log) <==>
                Safe(old(log)) && Allowed(Armed(old(log)), e) && (e.Acked? && !e.late ==> Asked(old(log), e.session))
      ensures if e.Wrote? && !Greets(e.cmds) then Once(old(log), log, e.cmds, e.on) else Quiet(old(log), log)
    {
      log := log + [e];
      assert log[..|log| - 1] == old(log);
    }

    /** `php_stream_eof`. */
    method Eof() returns (eof: bool)
      modifies this`losses
      ensures eof ==> losses == old(losses) - 1
      ensures !eof ==> losses == old(losses)
    {
      eof := *;
      eof := eof && losses > 0;
      if eof {
        losses := losses - 1;
      }
    }

    method Connect() returns (s: TcpSession?)
      modifies this`connects
      ensures s != null ==> fresh(s) && s.New()
      ensures connects == old(connects) + if s == null then 0 else 1
      ensures steady ==> s != null
    {
      var refused: bool := *;
      if refused && !steady {
        return null;
      }
      s := new TcpSession();
      connects := connects + 1;
    }

    /** `redis_sock_write_raw`: an incomplete write leaves the session unusable. */
    method Write(s: TcpSession, cmds: seq<Cmd>) returns (full: bool)
      requires Safe(log) && Allowed(Armed(log), Wrote(cmds, s, s.readonlyAcked))
      modifies this`log, s`owed, s`inStep
      ensures log == old(log) + [Wrote(cmds, s, s.readonlyAcked)]
      ensures Safe(log) && Armed(log) == Armed(old(log))
      ensures if Greets(cmds) then Quiet(old(log), log) else Once(old(log), log, cmds, s)
      ensures full ==> s.owed == old(s.owed) + cmds && s.inStep == old(s.inStep)
      ensures !full ==> !s.inStep && !steady
    {
      hide Safe, Armed, Sends, Asked;
      Record(Wrote(cmds, s, s.readonlyAcked));
      full := *;
      full := full || steady;
      if full {
        s.owed := s.owed + cmds;
      } else {
        s.inStep := false;
      }
    }

    /** The next reply line, taken by the client for the answer to `expected`. */
    method Reply(s: TcpSession, expected: Cmd) returns (a: Answer)
      modifies s
      ensures a.Torn? ==> expected.Payload?
      ensures a.Lost? || a.Torn? ==> !s.inStep
      ensures !a.Lost? ==> old(s.owed) != [] && s.owed == old(s.owed)[1..]
      ensures (a.Yes? || a.No?) && old(s.inStep && s.elements == 0 && s.owed != [] && s.owed[0] == expected) ==>
                s.inStep
      ensures s.inStep ==> old(s.inStep) && old(s.owed) != [] && old(s.owed)[0] == expected
                           && s.owed == old(s.owed)[1..]
                           && s.server == After(old(s.server), expected, a.Yes?)
                           && (a.Yes? ==> MayAccept(old(s.server), expected))
                           && old(s.elements) == 0
                           && s.elements == if expected.ExecCmd? && a.Yes? then old(s.server.queued) else 0
      ensures s.readonlyAcked == (old(s.readonlyAcked) || (expected.ReadonlyCmd? && a.Yes?))
      ensures s.authAcked == Acknowledged(old(s.authAcked), AuthCmd, expected, a.Yes?)
      ensures s.selectAcked == Acknowledged(old(s.selectAcked), SelectCmd, expected, a.Yes?)
      ensures steady && old(s.inStep && s.elements == 0) && old(s.owed) != [] && old(s.owed)[0] == expected ==>
                s.inStep && a == if MayAccept(old(s.server), expected) then Yes else No
    {
      hide After, MayAccept;
      var lost: bool, torn: bool, yes: bool := *, *, *;
      if s.owed == [] || (lost && !steady) {
        s.inStep := false;
        return Lost;
      }
      yes := Answered(s, expected);
      if expected.Payload? && torn && !steady {
        s.inStep := false;
        return Torn;
      }
      s.readonlyAcked := s.readonlyAcked || (expected.ReadonlyCmd? && yes);
      s.authAcked := Acknowledged(s.authAcked, AuthCmd, expected, yes);
      s.selectAcked := Acknowledged(s.selectAcked, SelectCmd, expected, yes);
      return if yes then Yes else No;
    }

    /** The server has dealt with the command whose reply is the next. */
    method Answered(s: TcpSession, expected: Cmd) returns (yes: bool)
      requires s.owed != []
      modifies s`owed, s`inStep, s`server, s`elements
      ensures s.owed == old(s.owed)[1..]
      ensures s.inStep == old(s.inStep && s.elements == 0 && s.owed[0] == expected)
      ensures s.inStep ==>
                && s.server == After(old(s.server), expected, yes)
                && (yes ==> MayAccept(old(s.server), expected))
                && (steady ==> yes == MayAccept(old(s.server), expected))
                && s.elements == if expected.ExecCmd? && yes then old(s.server.queued) else 0
    {
      var head := s.owed[0];
      s.owed := s.owed[1..];
      s.inStep := s.inStep && s.elements == 0 && head == expected;
      yes := *;
      if s.inStep {
        yes := (yes || steady) && MayAccept(s.server, head);
      }
      s.elements := if head.ExecCmd? && yes then s.server.queued else 0;
      s.server := After(s.server, head, yes);
    }

    /** One element of the array of an EXEC. */
    method Element(s: TcpSession) returns (a: Answer)
      modifies s`inStep, s`elements
      ensures a.Lost? || a.Torn? ==> !s.inStep && !steady
      ensures a.Yes? || a.No? ==> s.inStep == old(s.inStep && s.elements > 0)
      ensures s.elements == if old(s.elements) == 0 then 0 else old(s.elements) - 1
    {
      a := *;
      a := if steady then Yes else a;
      s.inStep := s.inStep && s.elements > 0 && (a.Yes? || a.No?);
      s.elements := if s.elements == 0 then 0 else s.elements - 1;
    }

    /** The rest of that array, as many elements as its header says. */
    method Elements(s: TcpSession) returns (a: Answer)
      modifies s`inStep, s`elements
      ensures a.Lost? || a.Torn? ==> !s.inStep && !steady
      ensures a.Yes? || a.No? ==> s.inStep == old(s.inStep) && s.elements == 0
    {
      a := Yes;
      while s.elements > 0 && (a.Yes? || a.No?)
        invariant a.Lost? || a.Torn? ==> !s.inStep && !steady
        invariant a.Yes? || a.No? ==> s.inStep == old(s.inStep)
        decreases s.elements
      {
        a := Element(s);
      }
    }

    /** The client stops reading in the middle of its replies. */
    method Abandon(s: TcpSession)
      modifies s`inStep
      ensures !s.inStep
    {
      s.inStep := false;
    }
  }

  // ---- what was written ----

  /** Nothing of the application, or just the one write. */
  lemma {:induction false} QuietIs(before: seq<Event>, log: seq<Event>, k: nat)
    requires Quiet(before, log) && |before| <= k < |log|
    ensures log[k].Wrote? ==> Greets(log[k].cmds)
    decreases |log|
  {
    var init := log[..|log| - 1];
    assert init[..|before|] == before && log[..|before|] == before;
    SendsGrow(init, |before|);
    if k < |init| {
      QuietIs(before, init, k);
    }
  }

  lemma {:induction false} SendsGrow(log: seq<Event>, n: nat)
    requires n <= |log|
    ensures Sends(log[..n]) <= Sends(log)
    decreases |log|
  {
    if n == |log| {
      assert log[..n] == log;
    } else {
      SendsGrow(log[..|log| - 1], n);
      assert log[..|log| - 1][..n] == log[..n];
    }
  }

  lemma {:induction false} OnceIs(before: seq<Event>, log: seq<Event>, cmds: seq<Cmd>, s: TcpSession) returns (k: nat)
    requires Once(before, log, cmds, s)
    ensures |before| <= k < |log| && log[k].Wrote? && log[k].cmds == cmds && log[k].on == s
    ensures forall m | |before| <= m < |log| && m != k && log[m].Wrote? :: Greets(log[m].cmds)
    decreases |log|
  {
    var init, e := log[..|log| - 1], log[|log| - 1];
    assert |log| == |before| ==> log == before;
    assert before <= init;
    if e.Wrote? && !Greets(e.cmds) {
      k := |log| - 1;
      assert Sends(log) == Sends(init) + [Sending(e.cmds, e.on)];
      assert Sends(init) == Sends(log)[..|Sends(before)|];
      forall m | |before| <= m < |init| && init[m].Wrote? ensures Greets(init[m].cmds) {
        QuietIs(before, init, m);
      }
    } else {
      k := OnceIs(before, init, cmds, s);
    }
  }

  lemma {:induction false} SentIsWritten(log: seq<Event>, i: nat) returns (k: nat)
    requires i < |Sends(log)|
    ensures k < |log| && log[k].Wrote? && log[k].cmds == Sends(log)[i].cmds && log[k].on == Sends(log)[i].on
    decreases |log|
  {
    var init := log[..|log| - 1];
    if i < |Sends(init)| {
      k := SentIsWritten(init, i);
    } else {
      k := |log| - 1;
    }
  }

  lemma AskedAfter(before: seq<Event>, log: seq<Event>, cmds: seq<Cmd>, s: TcpSession)
    requires Once(before, log, cmds, s) && (WatchCmd in cmds || MultiCmd in cmds)
    ensures Asked(log, s)
  {
    assert Sends(log)[|Sends(before)|] == Sending(cmds, s);
  }

  lemma AskedStays(before: seq<Event>, log: seq<Event>, s: TcpSession)
    requires Quiet(before, log)
    ensures Asked(before, s) ==> Asked(log, s)
  {
  }

  // ---- what a safe log means ----

  /** Nothing is acknowledged that was not asked for on the same session, but by a flush with callbacks from before. */
  lemma AckedWasAsked(log: seq<Event>, j: nat) returns (k: nat)
    requires Safe(log) && j < |log| && log[j].Acked? && !log[j].late
    ensures k < j && log[k].Wrote? && log[k].on == log[j].session
    ensures WatchCmd in log[k].cmds || MultiCmd in log[k].cmds
  {
    SafePrefix(log, j + 1);
    assert log[..j + 1][..j] == log[..j];
    var i :| 0 <= i < |Sends(log[..j])| && Sends(log[..j])[i].on == log[j].session
             && (WatchCmd in Sends(log[..j])[i].cmds || MultiCmd in Sends(log[..j])[i].cmds);
    k := SentIsWritten(log[..j], i);
  }

  lemma {:induction false} SafePrefix(log: seq<Event>, n: nat)
    requires Safe(log) && n <= |log|
    ensures Safe(log[..n])
    ensures n < |log| ==> Allowed(Armed(log[..n]), log[n])
    decreases |log|
  {
    if n == |log| {
      assert log[..n] == log;
    } else if n < |log| - 1 {
      var init := log[..|log| - 1];
      SafePrefix(init, n);
      assert init[..n] == log[..n];
    }
  }

  lemma {:induction false} ArmedStays(log: seq<Event>, i: nat, n: nat)
    requires i < n <= |log| && log[i].Acked?
    requires Safe(log)
    requires forall k | i < k < n :: !log[k].Failed? && !log[k].Released?
    ensures Armed(log[..n]) == Just(log[i].session)
    decreases n
  {
    assert log[..n][..n - 1] == log[..n - 1];
    if n > i + 1 {
      ArmedStays(log, i, n - 1);
      SafePrefix(log, n - 1);
    }
  }

  /** WATCH and MULTI are never silently lost: if one was acknowledged and since then no call reported failure
      and the application did not end it, everything written afterwards (EXEC in particular) went out on the
      session that acknowledged it. */
  lemma SameSession(log: seq<Event>, i: nat, j: nat)
    requires Safe(log) && i < j < |log|
    requires log[i].Acked? && log[j].Wrote?
    requires forall k | i < k < j :: !log[k].Failed? && !log[k].Released?
    ensures log[j].on == log[i].session
  {
    ArmedStays(log, i, j);
    SafePrefix(log, j);
  }

  /** Nothing distributed to a replica is ever written on a session that has not acknowledged READONLY. */
  lemma {:induction false} ReplicaWritesAreReadonly(log: seq<Event>, j: nat)
    requires Safe(log) && j < |log| && log[j].Wrote? && ReplicaPayload in log[j].cmds
    ensures log[j].readonlyAcked
  {
    SafePrefix(log, j);
  }
}
