/** redis.c and library.c: iterating with SCAN. The cursor has 64 bits and travels between calls in an int or, where
    that is too small, in a decimal string. */
module Scan {
  import opened Decimal
  import opened Options

  /** The iterator variable of the caller. */
  datatype Carrier = CNull | CInt(n: int) | CString(s: string)

  predicate IsCursor(c: int) {
    0 <= c < ULONG_SPAN
  }

  /** `strtoull(.., 10)`: saturates, and negates modulo 2^64. */
  function Strtoull(s: string): (c: nat)
    ensures IsCursor(c)
  {
    var n := Strtol(s);
    if n.NoNumber? then 0
    else if n.value >= ULONG_SPAN || n.value <= -ULONG_SPAN then ULONG_SPAN - 1
    else n.value % ULONG_SPAN
  }

  /** `redisSetScanCursor` */
  function SetCursor(cursor: nat): Carrier
    requires IsCursor(cursor)
  {
    if cursor > LONG_MAX then CString(Print(cursor)) else CInt(cursor)
  }

  /** `redisGetScanCursor`: the cursor, and whether the iteration is over. */
  function GetCursor(z: Carrier): (r: (nat, bool))
    ensures IsCursor(r.0)
  {
    match z
    case CNull => (0, false)
    case CString(s) => (Strtoull(s), s == "0")
    case CInt(n) => (n % ULONG_SPAN, n == 0)
  }

  /** Every cursor survives the carrier, and the iteration is over exactly at 0. */
  lemma CursorRoundTrip(cursor: nat)
    requires IsCursor(cursor)
    ensures GetCursor(SetCursor(cursor)) == (cursor, cursor == 0)
    ensures SetCursor(cursor).CInt? ==> FitsLong(SetCursor(cursor).n)
    ensures SetCursor(cursor).CString? ==> |SetCursor(cursor).s| < 21
  {
    if cursor > LONG_MAX {
      StrtolWhole(cursor);
      CursorLength(cursor);
      NotZero(cursor);
      hide Strtol, Print;
    }
  }

  /** A caller may as well pass any number as a string: it is taken modulo 2^64 down to -2^64, and cut above. Only "0"
      ends the iteration; an empty string starts it anew. */
  lemma StringCursor(n: int)
    ensures GetCursor(CString(Print(n)))
         == (if n >= ULONG_SPAN || n <= -ULONG_SPAN then ULONG_SPAN - 1 else if n < 0 then n + ULONG_SPAN else n,
             n == 0)
    ensures GetCursor(CString("")) == (0, false)
  {
    StrtolWhole(n);
    if n > 0 {
      NotZero(n);
    } else if n < 0 {
      assert Print(n)[0] == '-';
    } else {
      assert Print(0) == "0";
    }
    hide Print;
  }

  lemma NotZero(cursor: nat)
    requires cursor > 0
    ensures Print(cursor) != "0"
  {
    DecRoundTrip(cursor);
    assert "0"[..0] == "";
    assert DecVal("0") == 10 * DecVal("") + DigitValue('0');
  }

  lemma CursorLength(cursor: nat)
    requires IsCursor(cursor)
    ensures |Print(cursor)| < 21
  {
    assert Pow10(20) == 1_0000_0000_0000_0000_0000 by {
      assert Pow10(10) == 100_0000_0000;
      Pow10Sum(10, 10);
    }
    DecLength(cursor, 20);
  }

  /** What comes back for one SCAN command. */
  datatype Answer = Failed | Page(cursor: nat, batch: seq<string>)

  /** How many answers one call passes over: empty pages, if it is to retry and there is more. */
  function Skipped(answers: seq<Answer>, retry: bool): (k: nat)
    ensures k <= |answers|
    ensures forall i | 0 <= i < k :: retry && answers[i].Page? && answers[i].cursor != 0 && answers[i].batch == []
    ensures k < |answers| && answers[k].Page? && retry ==> answers[k].cursor == 0 || answers[k].batch != []
  {
    if answers == [] || answers[0].Failed? || !retry || answers[0].cursor == 0 || answers[0].batch != [] then 0
    else 1 + Skipped(answers[1..], retry)
  }

  /** The cursors asked for: the first, and then always the one of the answer before. */
  function Asked(first: nat, answers: seq<Answer>, n: nat): (s: seq<nat>)
    requires n <= |answers| && forall i | 0 <= i < n - 1 :: answers[i].Page?
    ensures |s| == n
  {
    seq(n, i requires 0 <= i < n => if i == 0 then first else answers[i - 1].cursor)
  }

  predicate Sane(answers: seq<Answer>) {
    forall a | a in answers && a.Page? :: IsCursor(a.cursor)
  }

  class Iterator {
    const retry: bool
    var it: Carrier

    constructor (retry: bool)
      ensures this.retry == retry && it == CNull
    {
      this.retry, this.it := retry, CNull;
    }

    /** `generic_scan_cmd`, one call. Without an answer left the command fails. `asked` are the cursors sent. */
    method Scan(answers: seq<Answer>) returns (r: Maybe<seq<string>>, asked: seq<nat>)
      requires Sane(answers)
      modifies this`it
      ensures old(GetCursor(it)).1 ==> r == Nothing && asked == [] && it == old(it)
      ensures !old(GetCursor(it)).1 ==>
                var k := Skipped(answers, retry);
                && asked == Asked(old(GetCursor(it)).0, answers + [Failed], k + 1)
                && (if k < |answers| && answers[k].Page?
                    then r == Just(answers[k].batch) && it == SetCursor(answers[k].cursor)
                    // a first call that fails ends the iteration
                    else r == Nothing && it == if old(it).CNull? then CInt(0) else old(it))
    {
      asked := [];
      var (cursor, completed) := GetCursor(it);
      if completed {
        return Nothing, asked;
      }
      if it.CNull? {
        it := CInt(0);
      }
      ghost var k, tape := Skipped(answers, retry), answers + [Failed];
      var i := 0;
      while true
        invariant 0 <= i <= k && asked == Asked(old(GetCursor(it)).0, tape, i)
        invariant cursor == if i == 0 then old(GetCursor(it)).0 else answers[i - 1].cursor
        invariant it == if old(it).CNull? then CInt(0) else old(it)
        decreases |answers| - i
      {
        asked := asked + [cursor];
        assert asked == Asked(old(GetCursor(it)).0, tape, i + 1);
        if i == |answers| || answers[i].Failed? {
          return Nothing, asked;
        }
        cursor := answers[i].cursor;
        var elements := answers[i].batch;
        if !(retry && cursor != 0 && |elements| == 0) {
          it := SetCursor(cursor);
          return Just(elements), asked;
        }
        SkippedMore(answers, retry, i);
        i := i + 1;
      }
    }

    /** The documented loop: call until false. `server(i, c)` is the answer to the command number i if it asks for
        the cursor c. An iteration starts at 0 and goes on with the cursor of the answer before; `n` is the answer
        with cursor 0. `sent` are the cursors of all commands, and they get exactly these answers. */
    method ScanAll(ghost server: (nat, nat) -> Answer, answers: seq<Answer>, ghost n: nat)
      returns (arrays: seq<seq<string>>, sent: seq<nat>)
      requires Sane(answers) && it == CNull && n < |answers| && answers[n].Page? && answers[n].cursor == 0
      requires forall i | 0 <= i < n :: answers[i].Page? && answers[i].cursor != 0
      requires Serves(server, answers, n)
      modifies this`it
      ensures Flatten(arrays) == Batches(answers[..n + 1]) && Proper(arrays, answers, n + 1, n, retry)
      ensures |sent| == n + 1 && forall i | 0 <= i <= n :: answers[i] == server(i, sent[i])
      ensures forall i | 0 <= i <= n :: sent[i] == if i == 0 then 0 else answers[i - 1].cursor
    {
      hide Batches, Flatten, Proper, SetCursor, GetCursor, Skipped, Asked, InStep, Serves;
      arrays, sent := [], [];
      var pos := 0;
      ProperStart(answers, n, retry);
      InStepStart(answers);
      while true
        invariant 0 <= pos <= n + 1 && Flatten(arrays) == Batches(answers[..pos])
        invariant it == if pos == 0 then CNull else SetCursor(answers[pos - 1].cursor)
        invariant Proper(arrays, answers, pos, n, retry)
        invariant InStep(sent, answers, pos)
        decreases n + 1 - pos
      {
        CursorNow(answers, pos);
        if pos <= n {
          NextPage(answers, pos, n, retry, arrays);
          NextSent(sent, answers, pos, Skipped(answers[pos..], retry), n);
        }
        var r, asked := Scan(answers[pos..]);
        if r.Nothing? {
          InStepIs(server, sent, answers, n);
          return;
        }
        arrays := arrays + [r.value];
        sent := sent + asked;
        pos := pos + |asked|;
      }
    }
  }

  /** The answers are those to 0 and then to the cursor of each answer before. */
  ghost predicate Serves(server: (nat, nat) -> Answer, answers: seq<Answer>, n: nat)
    requires n < |answers| && forall i | 0 <= i < n :: answers[i].Page?
  {
    answers[0] == server(0, 0) && forall i | 1 <= i <= n :: answers[i] == server(i, answers[i - 1].cursor)
  }

  /** The commands so far asked for 0 and then for the cursors of the answers. */
  predicate InStep(sent: seq<nat>, answers: seq<Answer>, pos: nat)
    requires pos <= |answers| && forall i | 0 <= i < pos :: answers[i].Page?
  {
    |sent| == pos && forall i | 0 <= i < pos :: sent[i] == if i == 0 then 0 else answers[i - 1].cursor
  }

  lemma InStepStart(answers: seq<Answer>)
    ensures InStep([], answers, 0)
  {
  }

  lemma InStepIs(server: (nat, nat) -> Answer, sent: seq<nat>, answers: seq<Answer>, n: nat)
    requires n < |answers| && forall i | 0 <= i <= n :: answers[i].Page?
    requires InStep(sent, answers, n + 1) && Serves(server, answers, n)
    ensures |sent| == n + 1 && forall i | 0 <= i <= n :: answers[i] == server(i, sent[i])
    ensures |sent| == n + 1 && forall i | 0 <= i <= n :: sent[i] == if i == 0 then 0 else answers[i - 1].cursor
  {
  }

  /** The cursors of one call continue those before. */
  lemma NextSent(sent: seq<nat>, answers: seq<Answer>, pos: nat, k: nat, n: nat)
    requires pos + k <= n < |answers| && forall i | 0 <= i <= n :: answers[i].Page?
    requires InStep(sent, answers, pos)
    ensures var first := if pos == 0 then 0 else answers[pos - 1].cursor;
            InStep(sent + Asked(first, answers[pos..] + [Failed], k + 1), answers, pos + k + 1)
  {
    var tape := answers[pos..] + [Failed];
    assert forall i | pos <= i <= n :: tape[i - pos] == answers[i];
  }

  /** With retries no array but the last is empty; without, there is one for each answer. */
  predicate Proper(arrays: seq<seq<string>>, answers: seq<Answer>, pos: nat, n: nat, retry: bool)
    requires pos <= n + 1 && n < |answers| && forall i | 0 <= i <= n :: answers[i].Page?
  {
    if retry then
      && (forall i | 0 <= i < |arrays| - 1 :: arrays[i] != [])
      && (pos <= n && arrays != [] ==> arrays[|arrays| - 1] != [])
      && (pos > n ==> arrays != [])
    else |arrays| == pos && forall i | 0 <= i < pos :: arrays[i] == answers[i].batch
  }

  lemma ProperStart(answers: seq<Answer>, n: nat, retry: bool)
    requires n < |answers| && forall i | 0 <= i <= n :: answers[i].Page?
    ensures Proper([], answers, 0, n, retry) && Flatten([]) == Batches(answers[..0])
  {
  }

  lemma CursorNow(answers: seq<Answer>, pos: nat)
    requires pos <= |answers| && (pos > 0 ==> answers[pos - 1].Page? && IsCursor(answers[pos - 1].cursor))
    ensures var z := if pos == 0 then CNull else SetCursor(answers[pos - 1].cursor);
            && (GetCursor(z).1 <==> pos > 0 && answers[pos - 1].cursor == 0)
            && GetCursor(z).0 == if pos == 0 then 0 else answers[pos - 1].cursor
  {
    if pos > 0 {
      CursorRoundTrip(answers[pos - 1].cursor);
    }
  }

  /** What the next call will find, and what its array adds. */
  lemma NextPage(answers: seq<Answer>, pos: nat, n: nat, retry: bool, arrays: seq<seq<string>>)
    requires pos <= n < |answers| && answers[n].Page? && answers[n].cursor == 0
    requires forall i | 0 <= i < n :: answers[i].Page? && answers[i].cursor != 0
    requires Proper(arrays, answers, pos, n, retry)
    ensures var k := Skipped(answers[pos..], retry);
            && pos + k <= n && answers[pos..][k] == answers[pos + k]
            && |Asked(0, answers[pos..] + [Failed], k + 1)| == k + 1
            && Proper(arrays + [answers[pos + k].batch], answers, pos + k + 1, n, retry)
            && Flatten(arrays + [answers[pos + k].batch]) == Flatten(arrays) + answers[pos + k].batch
            && Batches(answers[..pos + k + 1]) == Batches(answers[..pos]) + answers[pos + k].batch
  {
    hide Batches, Flatten, Skipped, Proper;
    var rest := answers[pos..];
    var k := Skipped(rest, retry);
    SkippedWithin(answers, pos, n, retry);
    BatchesOfSkipped(answers, pos, k);
    StillProper(answers, pos, n, retry, arrays, k);
    FlattenMore(arrays, answers[pos + k].batch);
  }

  lemma FlattenMore(arrays: seq<seq<string>>, batch: seq<string>)
    ensures Flatten(arrays + [batch]) == Flatten(arrays) + batch
  {
    assert (arrays + [batch])[..|arrays|] == arrays;
  }

  lemma SkippedWithin(answers: seq<Answer>, pos: nat, n: nat, retry: bool)
    requires pos <= n < |answers| && answers[n].Page? && answers[n].cursor == 0
    requires forall i | 0 <= i < n :: answers[i].Page? && answers[i].cursor != 0
    ensures var k := Skipped(answers[pos..], retry);
            && pos + k <= n && (!retry ==> k == 0)
            && (forall i | pos <= i < pos + k :: retry && answers[i].batch == [])
            && (retry && pos + k < n ==> answers[pos + k].batch != [])
  {
    var rest := answers[pos..];
    var k := Skipped(rest, retry);
    assert rest[n - pos] == answers[n];
    forall i | pos <= i < pos + k ensures retry && answers[i].batch == [] {
      assert rest[i - pos] == answers[i];
    }
    if pos + k < n {
      assert rest[k] == answers[pos + k];
    }
  }

  lemma StillProper(answers: seq<Answer>, pos: nat, n: nat, retry: bool, arrays: seq<seq<string>>, k: nat)
    requires pos + k <= n < |answers| && forall i | 0 <= i <= n :: answers[i].Page?
    requires Proper(arrays, answers, pos, n, retry)
    requires !retry ==> k == 0
    requires retry && pos + k < n ==> answers[pos + k].batch != []
    ensures Proper(arrays + [answers[pos + k].batch], answers, pos + k + 1, n, retry)
  {
  }

  lemma {:induction false} SkippedMore(answers: seq<Answer>, retry: bool, i: nat)
    requires i < |answers| && i <= Skipped(answers, retry)
    requires retry && answers[i].Page? && answers[i].cursor != 0 && answers[i].batch == []
    ensures i + 1 <= Skipped(answers, retry)
  {
    if i > 0 {
      SkippedMore(answers[1..], retry, i - 1);
    }
  }

  function Flatten(arrays: seq<seq<string>>): seq<string> {
    if arrays == [] then [] else Flatten(arrays[..|arrays| - 1]) + arrays[|arrays| - 1]
  }

  /** Everything the server found. */
  function Batches(answers: seq<Answer>): seq<string> {
    if answers == [] then []
    else
      var last := answers[|answers| - 1];
      Batches(answers[..|answers| - 1]) + if last.Page? then last.batch else []
  }

  lemma {:induction false} BatchesOfEmpty(answers: seq<Answer>, pos: nat, k: nat)
    requires pos + k <= |answers|
    requires forall i | pos <= i < pos + k :: answers[i].Page? && answers[i].batch == []
    ensures Batches(answers[..pos + k]) == Batches(answers[..pos])
  {
    if k > 0 {
      BatchesOfEmpty(answers, pos, k - 1);
      assert answers[..pos + k][..pos + k - 1] == answers[..pos + k - 1];
    }
  }

  lemma BatchesOfSkipped(answers: seq<Answer>, pos: nat, k: nat)
    requires pos + k < |answers| && answers[pos + k].Page?
    requires forall i | pos <= i < pos + k :: answers[i].Page? && answers[i].batch == []
    ensures Batches(answers[..pos + k + 1]) == Batches(answers[..pos]) + answers[pos + k].batch
  {
    BatchesOfEmpty(answers, pos, k);
    assert answers[..pos + k + 1][..pos + k] == answers[..pos + k];
  }
}
