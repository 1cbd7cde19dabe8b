/** The second shell (part2/shell2.c): preprocess_line with its memory
    failures ending the process, process_line on top of the shared
    dispatch, and main's loop over the lines input returns. */
module MmapShell {
  import opened Wrappers
  import opened Tokenizer
  import opened Builtins
  import opened Dispatch
  import opened CStrings
  import opened Newline
  import opened LineReader

  /** preprocess_line(line, &cmd): a failed strdup releases the buffer and
      exits with 1; a failed munmap of the duplicate exits with 1 without
      releasing it; otherwise it returns 0, with cmd set to the builtin
      named by the first token when there is one and left as it was
      otherwise. */
  method Preprocess(line: string, dupOk: bool, unmapOk: bool, cmdIn: Option<Builtin>)
    returns (r: int, cmd: Option<Builtin>, exit: Option<Termination>)
    ensures exit == if !dupOk then Some(Termination(1, true))
      else if !unmapOk then Some(Termination(1, false)) else None
    ensures exit.None? ==> r == 0 && cmd == if FirstBuiltin(line).Some? then FirstBuiltin(line) else cmdIn
  {
    if !dupOk {
      return -1, cmdIn, Some(Termination(1, true));
    }
    cmd := cmdIn;
    assert line[0..] == line;
    var token, next := Strtok(line, 0, Delims);
    if token.Some? {
      var b := CheckBuiltinCmd(token.value);
      if b.Some? {
        cmd := b;
      }
    }
    if !unmapOk {
      return -1, cmd, Some(Termination(1, false));
    }
    r, exit := 0, None;
  }

  /** What process_line does with a line: a memory failure in
      preprocess_line ends the process at once; otherwise the line is
      handled and the children are reaped, unless it was exit. */
  function LineEffect(line: string, os: OsReplies): LineOutcome {
    if !os.dupOk then LineOutcome([], Some(Termination(1, true)))
    else if !os.unmapOk then LineOutcome([], Some(Termination(1, false)))
    else Finish(Handle(line, os), os.waits)
  }

  /** The process ends in process_line through a memory failure, with
      status 1, or through the exit builtin, with status 0; the buffer goes
      unreleased only when the duplicate cannot be unmapped. */
  lemma LineEffectExit(line: string, os: OsReplies)
    ensures var out := LineEffect(line, os);
      && (out.exit.Some? <==> !os.dupOk || !os.unmapOk || FirstBuiltin(line) == Some(Exit))
      && (out.exit.Some? ==> out.effects == [])
      && (out.exit.Some? ==> (out.exit.value.status == 0 <==> os.dupOk && os.unmapOk))
      && (out.exit.Some? ==> (out.exit.value.status == 0 || out.exit.value.status == 1))
      && (out.exit.Some? ==> (!out.exit.value.releasesBuffer <==> os.dupOk && !os.unmapOk))
      && (out.exit.None? ==> exists h :: out.effects == h + Reaping(os.waits) && |h| <= 1)
  {
    OnePath(line, os);
    if os.dupOk && os.unmapOk && !Handle(line, os).exit.Some? {
      var h := Handle(line, os).effects;
      assert LineEffect(line, os).effects == h + Reaping(os.waits);
    }
  }

  /** process_line(line): copy the line, preprocess it, run the builtin's
      handler or handle_executable, and reap the children. */
  method ProcessLine(line: string, os: OsReplies) returns (out: LineOutcome)
    requires NoChildren in os.waits
    ensures out == LineEffect(line, os)
  {
    var r, cmd, exit := Preprocess(line, os.dupOk, os.unmapOk, None);
    if exit.Some? {
      return LineOutcome([], exit);
    }
    var h := Branch(line, cmd, os);
    if h.exit.Some? {
      return h;
    }
    var reaped := Reap(os.waits);
    out := LineOutcome(h.effects + reaped, None);
  }

  /** main from a reader whose buffer has cap bytes, the call of input
      numbered i coming next: input ending the process ends the run with
      status 1; a result of 0 or less releases the buffer and returns 0;
      otherwise a result of 1 is skipped, and for a longer one byte n - 1
      is overwritten with NUL and the bytes before it are processed. os(i) is what the
      kernel answers while that line is processed. */
  function Session(cap: nat, replies: seq<ReadReply>, alloc: nat -> Grant, allocs: nat,
                   os: nat -> OsReplies, i: nat): SessionEnd
    requires cap % Increment == 0
    decreases Weight(replies)
  {
    var e := InputSpec(cap, replies, alloc, allocs);
    InputProperties(cap, replies, alloc, allocs);
    if e.stop == OutOfMemory then SessionEnd([], Termination(1, true))
    else if Returned(e) <= 0 then SessionEnd([], Termination(0, true))
    else
      var line := StripAsWritten(ToChars(e.content[..Returned(e)]));
      var next := Session(|e.content|, e.rest, alloc, e.allocs, os, i + 1);
      if line.None? then next
      else
        var out := LineEffect(line.value, os(i));
        if out.exit.Some? then SessionEnd(out.effects, out.exit.value)
        else Then(out.effects, next)
  }

  /** When every mmap, strdup and munmap of a line's duplicate succeeds,
      the second shell ends with status 0 and the buffer released. */
  lemma {:induction false} SessionWithoutFailures(cap: nat, replies: seq<ReadReply>, alloc: nat -> Grant,
                                                  allocs: nat, os: nat -> OsReplies, i: nat)
    requires cap % Increment == 0
    requires forall j :: !alloc(j).MapFailed?
    requires forall j :: os(j).dupOk && os(j).unmapOk
    ensures Session(cap, replies, alloc, allocs, os, i).end == Termination(0, true)
    decreases Weight(replies)
  {
    var e := InputSpec(cap, replies, alloc, allocs);
    InputProperties(cap, replies, alloc, allocs);
    InputOutOfMemory(cap, replies, alloc, allocs);
    if Returned(e) > 0 {
      var line := StripAsWritten(ToChars(e.content[..Returned(e)]));
      if line.Some? {
        LineEffectExit(line.value, os(i));
      }
      SessionWithoutFailures(|e.content|, e.rest, alloc, e.allocs, os, i + 1);
    }
  }

  /** The second shell ends with status 0 or 1, and with 0 only after
      releasing the buffer. */
  lemma {:induction false} SessionStatus(cap: nat, replies: seq<ReadReply>, alloc: nat -> Grant,
                                         allocs: nat, os: nat -> OsReplies, i: nat)
    requires cap % Increment == 0
    ensures var t := Session(cap, replies, alloc, allocs, os, i).end;
      (t.status == 0 || t.status == 1) && (t.status == 0 ==> t.releasesBuffer)
    decreases Weight(replies)
  {
    var e := InputSpec(cap, replies, alloc, allocs);
    InputProperties(cap, replies, alloc, allocs);
    if e.stop != OutOfMemory && Returned(e) > 0 {
      var line := StripAsWritten(ToChars(e.content[..Returned(e)]));
      if line.Some? {
        LineEffectExit(line.value, os(i));
      }
      SessionStatus(|e.content|, e.rest, alloc, e.allocs, os, i + 1);
    }
  }

  /** One call of input and what follows it, in the reader's state. */
  lemma SessionStep(cap: nat, replies: seq<ReadReply>, alloc: nat -> Grant, allocs: nat,
                    os: nat -> OsReplies, i: nat)
    requires cap % Increment == 0
    ensures var e := InputSpec(cap, replies, alloc, allocs); var n := Returned(e);
      && (e.stop != OutOfMemory && n > 0 ==>
            && |e.content| % Increment == 0 && n <= |e.content|
            && Weight(e.rest) < Weight(replies)
            && var line := StripAsWritten(ToChars(e.content[..n]));
               var next := Session(|e.content|, e.rest, alloc, e.allocs, os, i + 1);
               Session(cap, replies, alloc, allocs, os, i) ==
                 if line.None? then next
                 else
                   var out := LineEffect(line.value, os(i));
                   if out.exit.Some? then SessionEnd(out.effects, out.exit.value)
                   else Then(out.effects, next))
      && (e.stop != OutOfMemory && n <= 0 ==>
            Session(cap, replies, alloc, allocs, os, i) == SessionEnd([], Termination(0, true)))
      && (e.stop == OutOfMemory ==>
            Session(cap, replies, alloc, allocs, os, i) == SessionEnd([], Termination(1, true)))
  {
    InputProperties(cap, replies, alloc, allocs);
  }

  /** main: call input until it returns 0 or less; for a result n > 1 the
      first n - 1 bytes are processed as the line; then the buffer is
      released and main returns 0. */
  method Run(rd: Reader, os: nat -> OsReplies) returns (effects: seq<Effect>, t: Termination)
    requires rd.Valid()
    requires forall i :: NoChildren in os(i).waits
    modifies rd, rd.buf
    ensures SessionEnd(effects, t) == Session(old(rd.len), old(rd.replies), rd.alloc, old(rd.allocs), os, 0)
  {
    effects := [];
    var i := 0;
    while true
      invariant rd.Valid()
      invariant rd.buf == old(rd.buf) || fresh(rd.buf)
      invariant Session(old(rd.len), old(rd.replies), rd.alloc, old(rd.allocs), os, 0) ==
        Then(effects, Session(rd.len, rd.replies, rd.alloc, rd.allocs, os, i))
      decreases Weight(rd.replies)
    {
      SessionStep(rd.len, rd.replies, rd.alloc, rd.allocs, os, i);
      var r := rd.Input();
      if r.Exited? {
        return effects, Termination(r.status, true);
      }
      var n := r.n;
      if n <= 0 {
        break;
      }
      var line := StripAsWritten(ToChars(rd.buf[..n]));
      if line.Some? {
        var out := ProcessLine(line.value, os(i));
        if out.exit.Some? {
          return effects + out.effects, out.exit.value;
        }
        ThenThen(effects, out.effects, Session(rd.len, rd.replies, rd.alloc, rd.allocs, os, i + 1));
        effects := effects + out.effects;
      }
      i := i + 1;
    }
    t := Termination(0, true);
  }
}
