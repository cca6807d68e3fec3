/** cluster_library.c: the lines "MOVED slot host:port" and "ASK slot host:port" (section "MOVED Redirection" of the
    Redis Cluster specification). */
module Redirection {
  import opened Decimal
  import opened Options
  import opened ClusterNodes

  const MOVED := "MOVED "
  const ASK := "ASK "

  /** `cluster_is_moved` and `cluster_is_ask` */
  predicate StartsWith(p: string, line: string) {
    |line| >= |p| && line[..|p|] == p
  }

  /** A C string ends at its first NUL. */
  function CString(s: string): (r: string)
    ensures '\0' !in r
    ensures '\0' !in s ==> r == s
  {
    if s == "" || s[0] == '\0' then "" else [s[0]] + CString(s[1..])
  }

  /** `strchr`: the first place of c, or the length. */
  function First(s: string, c: char): (i: nat)
    ensures i <= |s| && (forall k | 0 <= k < i :: s[k] != c) && (i < |s| ==> s[i] == c)
  {
    if s == "" || s[0] == c then 0 else 1 + First(s[1..], c)
  }

  /** `strrchr`: the last place of c, or the length. */
  function LastPlace(s: string, c: char): (i: nat)
    ensures i <= |s| && (i < |s| ==> s[i] == c && forall k | i < k < |s| :: s[k] != c) && (i == |s| ==> c !in s)
  {
    if s == "" then 0
    else
      var i := LastPlace(s[1..], c);
      assert s == [s[0]] + s[1..];
      if i < |s| - 1 then i + 1 else if s[0] == c then 0 else |s|
  }

  datatype Target = Target(slot: nat, host: Host)

  predicate InRange(n: Number, low: int, high: int) {
    n.Number? && FitsLong(n.value) && low <= n.value <= high
  }

  /** What stands behind "MOVED " or "ASK ". Text behind the digits of the slot or the port is ignored. */
  function Parse(msg: string): (t: Maybe<Target>)
    ensures t.Just? ==> t.value.slot < SLOTS && 1 <= t.value.host.port <= 65535 && |t.value.host.addr| < HOST_BUFFER
  {
    var space := First(msg, ' ');
    if space == |msg| then Nothing
    else
      var rest := msg[space + 1..];
      var colon := LastPlace(rest, ':');
      if colon == |rest| || colon >= HOST_BUFFER then Nothing
      else
        var slot, port := Strtol(msg[..space]), Strtol(rest[colon + 1..]);
        if !InRange(slot, 0, SLOTS - 1) || !InRange(port, 1, 65535) then Nothing
        else Just(Target(slot.value, Host(rest[..colon], port.value)))
  }

  /** Where a redirection sends a client, as the server prints it. */
  function Line(kind: string, t: Target): string {
    kind + Print(t.slot) + " " + Key(t.host)
  }

  lemma DecimalIsDigits(n: nat, c: char)
    requires !IsDigit(c)
    ensures c !in Print(n)
  {
  }

  /** The printed target is read back: colons and spaces in the address do no harm. */
  lemma TargetRoundTrip(t: Target)
    requires t.slot < SLOTS && 1 <= t.host.port <= 65535 && |t.host.addr| < HOST_BUFFER
    ensures Parse(Print(t.slot) + " " + Key(t.host)) == Just(t)
  {
    DecimalIsDigits(t.slot, ' ');
    DecimalIsDigits(t.host.port, ':');
    StrtolWhole(t.slot);
    StrtolWhole(t.host.port);
    hide Print, Parse, Strtol;
    ParseOfParts(Print(t.slot), t.host.addr, Print(t.host.port));
  }

  lemma ParseOfParts(a: string, addr: string, b: string)
    requires ' ' !in a && ':' !in b && |addr| < HOST_BUFFER
    ensures Parse(a + " " + (addr + ":" + b))
         == if InRange(Strtol(a), 0, SLOTS - 1) && InRange(Strtol(b), 1, 65535)
            then Just(Target(Strtol(a).value, Host(addr, Strtol(b).value))) else Nothing
  {
    var rest := addr + ":" + b;
    var msg := a + " " + rest;
    FirstIs(a, rest, ' ');
    LastIs(addr, b, ':');
    hide First, LastPlace, Strtol;
    assert msg[..|a|] == a && msg[|a| + 1..] == rest;
    assert rest[..|addr|] == addr && rest[|addr| + 1..] == b;
  }

  lemma {:induction false} FirstIs(a: string, b: string, c: char)
    requires c !in a
    ensures First(a + [c] + b, c) == |a|
  {
    if a != "" {
      assert (a + [c] + b)[1..] == a[1..] + [c] + b;
      FirstIs(a[1..], b, c);
    }
  }

  lemma {:induction false} LastIs(a: string, b: string, c: char)
    requires c !in b
    ensures LastPlace(a + [c] + b, c) == |a|
  {
    if a != "" {
      assert (a + [c] + b)[1..] == a[1..] + [c] + b;
      LastIs(a[1..], b, c);
    } else {
      assert ("" + [c] + b)[1..] == b;
    }
  }

  /** Only such lines are read: digits of the slot, a space, the address up to the last colon, digits of the port. */
  lemma ParsedIsLine(msg: string) returns (slotText: string, portText: string)
    requires Parse(msg).Just?
    ensures var t := Parse(msg).value;
            && msg == slotText + " " + t.host.addr + ":" + portText
            && ' ' !in slotText && ':' !in portText
            && Strtol(slotText).Number? && Strtol(slotText).value == t.slot
            && Strtol(portText).Number? && Strtol(portText).value == t.host.port
  {
    hide First, LastPlace, Strtol;
    var space := First(msg, ' ');
    var rest := msg[space + 1..];
    var colon := LastPlace(rest, ':');
    slotText, portText := msg[..space], rest[colon + 1..];
    assert rest == rest[..colon] + ":" + portText;
    assert msg == slotText + " " + rest;
  }

  /** The `redir_*` fields of a cluster. */
  class Redirections {
    var redirections: nat
    var redirType: RedirType
    var redirSlot: nat
    var redirHost: string
    var redirPort: nat

    constructor ()
      ensures redirections == 0 && redirType == RedirNone && redirSlot == 0 && redirHost == "" && redirPort == 0
    {
      redirections, redirType, redirSlot, redirHost, redirPort := 0, RedirNone, 0, "", 0;
    }

    /** `cluster_set_redirection`: a line that is rejected counts as a MOVED but leaves the target alone. */
    method SetRedirection(line: string, moved: bool) returns (ok: bool)
      requires StartsWith(if moved then MOVED else ASK, line)
      modifies this
      ensures redirections == old(redirections) + if moved then 1 else 0
      ensures var t := Parse(CString(line[if moved then |MOVED| else |ASK|..]));
              && ok == t.Just?
              && (ok ==>
                    && redirType == (if moved then RedirMoved else RedirAsk)
                    && t.value == Target(redirSlot, Host(redirHost, redirPort)))
      ensures !ok ==>
                && redirType == old(redirType) && redirSlot == old(redirSlot)
                && redirHost == old(redirHost) && redirPort == old(redirPort)
    {
      hide First, LastPlace, Strtol, CString;
      if moved {
        redirections := redirections + 1;
      }
      var msg := CString(line[if moved then |MOVED| else |ASK|..]);
      var space := First(msg, ' ');
      if space == |msg| {
        return false;
      }
      var host := msg[space + 1..];
      var colon := LastPlace(host, ':');
      if colon == |host| {
        return false;
      }
      if colon >= HOST_BUFFER {
        return false;
      }
      var slot := Strtol(msg[..space]);
      if !InRange(slot, 0, SLOTS - 1) {
        return false;
      }
      var port := Strtol(host[colon + 1..]);
      if !InRange(port, 1, 65535) {
        return false;
      }
      redirType := if moved then RedirMoved else RedirAsk;
      redirHost := host[..colon];
      redirSlot := slot.value;
      redirPort := port.value;
      return true;
    }

    /** What a server prints is what the client then holds. */
    method Announced(t: Target, moved: bool)
      requires t.slot < SLOTS && 1 <= t.host.port <= 65535 && |t.host.addr| < HOST_BUFFER && '\0' !in t.host.addr
      modifies this
      ensures redirType == (if moved then RedirMoved else RedirAsk)
      ensures Target(redirSlot, Host(redirHost, redirPort)) == t
    {
      var kind := if moved then MOVED else ASK;
      var line := Line(kind, t);
      var msg := Print(t.slot) + " " + Key(t.host);
      assert line == kind + msg;
      assert line[..|kind|] == kind && line[|kind|..] == msg;
      DecimalIsDigits(t.slot, '\0');
      DecimalIsDigits(t.host.port, '\0');
      assert CString(msg) == msg;
      TargetRoundTrip(t);
      var ok := SetRedirection(line, moved);
    }
  }
}
