/** The first shell (part1/shell.c): preprocess_line and process_line on
    top of the shared dispatch, and main's loop over the lines getline
    returns from standard input. */
module GetlineShell {
  import opened Wrappers
  import opened Tokenizer
  import opened Builtins
  import opened Dispatch
  import opened CStrings
  import opened Newline

  /** preprocess_line(line, &cmd): -1 when strdup fails; otherwise 0, with
      cmd set to the builtin named by the first token when there is one and
      left as it was when the line has no token or its first token is not a
      builtin. */
  method Preprocess(line: string, dupOk: bool, cmdIn: Option<Builtin>) returns (r: int, cmd: Option<Builtin>)
    ensures r == (if dupOk then 0 else -1)
    ensures cmd == if dupOk && FirstBuiltin(line).Some? then FirstBuiltin(line) else cmdIn
  {
    if !dupOk {
      return -1, cmdIn;
    }
    cmd := cmdIn;
    assert line[0..] == line;
    var token, next := Strtok(line, 0, Delims);
    if token.Some? {
      var b := CheckBuiltinCmd(token.value);
      if b.Some? {
        cmd := b;
      }
    }
    r := 0;
  }

  /** What process_line does with a line: when strdup fails nothing is
      dispatched but the children are still reaped; otherwise the line is
      handled and then reaped after, unless it was exit. */
  function LineEffect(line: string, os: OsReplies): LineOutcome {
    Finish(if os.dupOk then Handle(line, os) else LineOutcome([], None), os.waits)
  }

  /** The process ends in process_line only through the exit builtin, and
      then with status 0 after freeing the buffer; every other line ends
      with the reaping loop. */
  lemma LineEffectExit(line: string, os: OsReplies)
    ensures var out := LineEffect(line, os);
      && (out.exit.Some? <==> os.dupOk && FirstBuiltin(line) == Some(Exit))
      && (out.exit.Some? ==> out.exit.value == Termination(0, true) && out.effects == [])
      && (out.exit.None? ==> exists h :: out.effects == h + Reaping(os.waits) && |h| <= 1)
      && (!os.dupOk ==> out.effects == Reaping(os.waits))
  {
    OnePath(line, os);
    if !os.dupOk {
      assert LineEffect(line, os).effects == [] + Reaping(os.waits);
    } else if !Handle(line, os).exit.Some? {
      var h := Handle(line, os).effects;
      assert LineEffect(line, os).effects == h + Reaping(os.waits);
    }
  }

  /** process_line(line): copy the line, preprocess it, run the builtin's
      handler or handle_executable, and reap the children; the exit builtin
      ends the process before the reaping. */
  method ProcessLine(line: string, os: OsReplies) returns (out: LineOutcome)
    requires NoChildren in os.waits
    ensures out == LineEffect(line, os)
  {
    var r, cmd := Preprocess(line, os.dupOk, None);
    var h := LineOutcome([], None);
    if r >= 0 {
      h := Branch(line, cmd, os);
    }
    if h.exit.Some? {
      return h;
    }
    var reaped := Reap(os.waits);
    out := LineOutcome(h.effects + reaped, None);
  }

  /** What getline returns from the unread input s: the characters up to
      and including the first newline, or all of s when it holds none. */
  function NextChunk(s: string): (c: string)
    ensures c <= s && (s != [] ==> c != [])
    ensures forall i :: 0 <= i < |c| - 1 ==> c[i] != '\n'
    ensures |c| < |s| ==> c[|c| - 1] == '\n'
  {
    var k := RunLength(s, "\n");
    if k < |s| then s[..k + 1] else s
  }

  /** getline(&input_line, &len, stdin) reading s from position pos: the
      number of characters read, -1 at the end of the input, and the chunk. */
  method Getline(s: string, pos: nat) returns (n: int, chunk: string)
    requires pos <= |s|
    ensures n == (if pos == |s| then -1 else |chunk|)
    ensures chunk == NextChunk(s[pos..])
  {
    chunk := NextChunk(s[pos..]);
    n := if pos == |s| then -1 else |chunk|;
  }

  /** What main does with a chunk: a chunk of one character is skipped; a
      longer one loses its last character (a newline, except on a last line
      that has none) and is processed up to its first NUL. */
  function ChunkEffect(chunk: string, os: OsReplies): LineOutcome {
    var line := StripAsWritten(chunk);
    if line.None? then LineOutcome([], None) else LineEffect(CStr(line.value), os)
  }

  /** The body of main's loop for a chunk getline returned. */
  method ProcessChunk(chunk: string, os: OsReplies) returns (out: LineOutcome)
    requires NoChildren in os.waits
    ensures out == ChunkEffect(chunk, os)
  {
    var line := StripAsWritten(chunk);
    if line.None? {
      return LineOutcome([], None);
    }
    out := ProcessLine(CStr(line.value), os);
  }

  /** main on the unread input s, the chunk numbered i coming next: each
      chunk is handled as ChunkEffect says until one ends the process; at
      the end of the input the buffer is freed and main returns 0. os(i)
      is what the kernel answers while chunk i is processed. */
  function Session(s: string, os: nat -> OsReplies, i: nat): SessionEnd
    decreases |s|
  {
    if s == [] then SessionEnd([], Termination(0, true))
    else
      var c := NextChunk(s);
      var out := ChunkEffect(c, os(i));
      if out.exit.Some? then SessionEnd(out.effects, out.exit.value)
      else Then(out.effects, Session(s[|c|..], os, i + 1))
  }

  /** The first shell always ends with status 0 and the buffer freed: by
      reaching the end of the input or by the exit builtin. */
  lemma {:induction false} SessionEndsWithZero(s: string, os: nat -> OsReplies, i: nat)
    ensures Session(s, os, i).end == Termination(0, true)
    decreases |s|
  {
    if s != [] {
      var c := NextChunk(s);
      var line := StripAsWritten(c);
      if line.Some? {
        LineEffectExit(CStr(line.value), os(i));
      }
      SessionEndsWithZero(s[|c|..], os, i + 1);
    }
  }

  /** A typed line, ended by a newline, is processed as typed and the run
      goes on with the input after it; a lone newline is skipped. */
  lemma SessionOfTypedLine(l: string, rest: string, os: nat -> OsReplies, i: nat)
    requires '\n' !in l
    ensures var out := LineEffect(CStr(l), os(i));
      Session(l + "\n" + rest, os, i) ==
        if l == [] then Session(rest, os, i + 1)
        else if out.exit.Some? then SessionEnd(out.effects, out.exit.value)
        else Then(out.effects, Session(rest, os, i + 1))
  {
    var s := l + "\n" + rest;
    assert s == l + ("\n" + rest);
    RunLengthOfTokenThen(l, "\n" + rest, "\n");
    assert s[..|l| + 1] == l + "\n";
    assert s[|l| + 1..] == rest;
    if l != [] {
      StripTypedLine(l);
      StripAgreesOnNewline(l + "\n");
    } else {
      ThenNothing(Session(rest, os, i + 1));
    }
  }

  /** One chunk of the run, read at pos; the next one is read at next. */
  lemma SessionStep(s: string, pos: nat, next: nat, os: nat -> OsReplies, i: nat)
    requires pos < |s| && next == pos + |NextChunk(s[pos..])|
    ensures var out := ChunkEffect(NextChunk(s[pos..]), os(i));
      && next <= |s|
      && Session(s[pos..], os, i) ==
        if out.exit.Some? then SessionEnd(out.effects, out.exit.value)
        else Then(out.effects, Session(s[next..], os, i + 1))
  {
    var c := NextChunk(s[pos..]);
    assert s[pos..][|c|..] == s[next..];
  }

  /** main: read chunks with getline until it returns 0 or less, handling
      each; then free the buffer and return 0. */
  method Run(s: string, os: nat -> OsReplies) returns (effects: seq<Effect>, t: Termination)
    requires forall i :: NoChildren in os(i).waits
    ensures SessionEnd(effects, t) == Session(s, os, 0)
  {
    effects := [];
    var pos := 0;
    var i := 0;
    assert s[0..] == s;
    ThenNothing(Session(s, os, 0));
    while true
      invariant pos <= |s|
      invariant Session(s, os, 0) == Then(effects, Session(s[pos..], os, i))
      decreases |s| - pos
    {
      var n, chunk := Getline(s, pos);
      if n <= 0 {
        break;
      }
      var next := pos + n;
      SessionStep(s, pos, next, os, i);
      var out := ProcessChunk(chunk, os(i));
      if out.exit.Some? {
        return effects + out.effects, out.exit.value;
      }
      ThenThen(effects, out.effects, Session(s[next..], os, i + 1));
      effects := effects + out.effects;
      pos, i := next, i + 1;
    }
    t := Termination(0, true);
  }
}
