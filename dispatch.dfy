/** What both shells do with a line once it is read: the builtin/executable
    branch of process_line, handle_executable and the reaping loop. fork,
    exec, chdir and wait are effects; what the kernel answers them comes in
    as an OsReplies value. */
module Dispatch {
  import opened Wrappers
  import opened Tokenizer
  import opened Builtins

  /** _POSIX_ARG_MAX, the capacity of every argv. */
  const ArgMax: int := 4096
  /** DELIMS. */
  const Delims: string := " "

  /** One answer of wait(&exit_status): a child reaped, ECHILD, or another error. */
  datatype WaitReply = Reaped(status: int) | NoChildren | WaitFailed

  /** The kernel's answers while one line is processed: whether strdup,
      the munmap of the duplicate (mmap variant only), chdir and fork
      succeed, and what the successive wait calls return. */
  datatype OsReplies = OsReplies(dupOk: bool, unmapOk: bool, chdirOk: bool, forkOk: bool,
                                 waits: seq<WaitReply>)

  /** A request the shell makes of the kernel. Fork(argv) creates a child
      that calls execv(argv[0], argv). */
  datatype Effect = Chdir(path: string) | Fork(argv: seq<string>) | Wait(reply: WaitReply)

  /** The shell process ends with this status; releasesBuffer tells whether
      release_all_resources runs first. */
  datatype Termination = Termination(status: int, releasesBuffer: bool)

  /** Everything processing one line does, and whether the process ends. */
  datatype LineOutcome = LineOutcome(effects: seq<Effect>, exit: Option<Termination>)

  /** The builtin named by the first token of the line (what preprocess_line
      stores in *cmd_), if any. */
  function FirstBuiltin(line: string): Option<Builtin> {
    var ts := Tokens(line, Delims);
    if ts == [] then None else Lookup(ts[0])
  }

  /** How a line is handled: it has no token, it names a builtin (with the
      argc and argv tokenize leaves for the handler), it names an
      executable, or it has too many tokens to run. */
  datatype LineClass =
    | NoToken
    | BuiltinCall(cmd: Builtin, argc: int, argv: seq<string>)
    | External(argv: seq<string>)
    | TooManyTokens

  /** The class of a line, read off its tokens. A builtin still runs when
      tokenize fails: it then gets argc == -1 and the first ArgMax tokens. */
  function Classify(line: string): (c: LineClass)
    ensures c.NoToken? <==> Tokens(line, Delims) == []
    ensures c.BuiltinCall? <==> FirstBuiltin(line).Some?
    ensures c.BuiltinCall? ==>
      && c.cmd == FirstBuiltin(line).value
      && c.argv <= Tokens(line, Delims)
      && (c.argc == 2 ==> |c.argv| == 2)
      && (c.argc == -1 <==> |Tokens(line, Delims)| >= ArgMax)
      && (|Tokens(line, Delims)| < ArgMax ==> c.argc == |Tokens(line, Delims)| && c.argv == Tokens(line, Delims))
      && (|Tokens(line, Delims)| >= ArgMax ==> c.argv == Tokens(line, Delims)[..ArgMax])
    ensures c.External? ==> c.argv == Tokens(line, Delims) && 0 < |c.argv| < ArgMax
    ensures c.TooManyTokens? <==> FirstBuiltin(line).None? && |Tokens(line, Delims)| >= ArgMax
  {
    var ts := Tokens(line, Delims);
    if ts == [] then NoToken
    else match Lookup(ts[0])
      case Some(b) =>
        if |ts| < ArgMax then BuiltinCall(b, |ts|, ts) else BuiltinCall(b, -1, ts[..ArgMax])
      case None =>
        if |ts| < ArgMax then External(ts) else TooManyTokens
  }

  /** What the branch of process_line after a successful preprocess_line
      does: the cd handler behind its argument-count gate, the exit handler
      (release and exit(0)), one fork for an executable, and nothing for a
      line with too many tokens. A line with no token goes to
      handle_executable too, which forks a child with an empty argv. */
  function Handle(line: string, os: OsReplies): LineOutcome {
    match Classify(line)
    case NoToken => LineOutcome(if os.forkOk then [Fork([])] else [], None)
    case BuiltinCall(b, argc, argv) =>
      (match b
       case Cd =>
         var cd := HandleCd(argc, Args(argv), os.chdirOk);
         LineOutcome(if cd.chdir.Some? then [Chdir(cd.chdir.value)] else [], None)
       case Exit => LineOutcome([], Some(Termination(0, true))))
    case External(argv) => LineOutcome(if os.forkOk then [Fork(argv)] else [], None)
    case TooManyTokens => LineOutcome([], None)
  }

  /** The wait calls of the reaping loop: one per reply, up to and including
      the first ECHILD. */
  function Reaping(waits: seq<WaitReply>): seq<Effect> {
    if waits == [] then []
    else [Wait(waits[0])] + if waits[0] == NoChildren then [] else Reaping(waits[1..])
  }

  /** The reaping loop waits once per reply, in order, and stops at the
      first ECHILD and not before. */
  lemma {:induction false} ReapingStopsAtNoChildren(waits: seq<WaitReply>)
    ensures var es := Reaping(waits);
      && |es| <= |waits|
      && (forall i :: 0 <= i < |es| ==> es[i] == Wait(waits[i]))
      && (forall i :: 0 <= i < |es| - 1 ==> waits[i] != NoChildren)
      && (NoChildren in waits ==> 0 < |es| && es[|es| - 1] == Wait(NoChildren))
  {
    if waits != [] && waits[0] != NoChildren {
      ReapingStopsAtNoChildren(waits[1..]);
      assert NoChildren in waits ==> NoChildren in waits[1..];
    }
  }

  /** The cleanup label of process_line: unless the process has ended, all
      children are reaped. */
  function Finish(h: LineOutcome, waits: seq<WaitReply>): LineOutcome {
    if h.exit.Some? then h else LineOutcome(h.effects + Reaping(waits), None)
  }

  /** The reaping loop: wait until it fails with ECHILD; a reaped child or any
      other failure (which is reported) makes it wait again. The replies
      must contain an ECHILD, as the loop ends on nothing else. */
  method Reap(waits: seq<WaitReply>) returns (effects: seq<Effect>)
    requires NoChildren in waits
    ensures effects == Reaping(waits)
  {
    effects := [];
    var i := 0;
    while true
      invariant i < |waits| && NoChildren in waits[i..]
      invariant Reaping(waits) == effects + Reaping(waits[i..])
      decreases |waits| - i
    {
      var done;
      effects, done := WaitAt(waits, i, effects);
      if done {
        break;
      }
      i := i + 1;
    }
  }

  /** One turn of the reaping loop: the wait for reply i is recorded, and
      the loop is done when that reply is ECHILD. */
  method WaitAt(waits: seq<WaitReply>, i: nat, effects: seq<Effect>) returns (effects': seq<Effect>, done: bool)
    requires i < |waits| && NoChildren in waits[i..]
    requires Reaping(waits) == effects + Reaping(waits[i..])
    ensures done <==> waits[i] == NoChildren
    ensures done ==> effects' == Reaping(waits)
    ensures !done ==> i + 1 < |waits| && NoChildren in waits[i + 1..]
    ensures !done ==> Reaping(waits) == effects' + Reaping(waits[i + 1..])
  {
    var reply := waits[i];
    ReapingAt(waits, i);
    EffectsAssoc(effects, [Wait(reply)], if reply.NoChildren? then [] else Reaping(waits[i + 1..]));
    effects' := effects + [Wait(reply)];
    done := reply.NoChildren?;
    if done {
      assert effects' + [] == effects';
    }
  }

  /** Reaping from the reply numbered i, unfolded once. */
  lemma ReapingAt(waits: seq<WaitReply>, i: nat)
    requires i < |waits|
    ensures Reaping(waits[i..]) ==
      [Wait(waits[i])] + if waits[i] == NoChildren then [] else Reaping(waits[i + 1..])
    ensures NoChildren in waits[i..] && waits[i] != NoChildren ==> NoChildren in waits[i + 1..]
  {
    assert waits[i..] == [waits[i]] + waits[i + 1..];
  }

  lemma EffectsAssoc(a: seq<Effect>, b: seq<Effect>, c: seq<Effect>)
    ensures a + (b + c) == a + b + c
  {
  }

  /** The strings behind argv entries that are all non-NULL. */
  function Values(a: seq<Option<string>>): (r: seq<string>)
    requires forall i :: 0 <= i < |a| ==> a[i].Some?
    ensures |r| == |a| && forall i :: 0 <= i < |a| ==> a[i] == Some(r[i])
  {
    seq(|a|, i requires 0 <= i < |a| => a[i].value)
  }

  /** handle_executable as written: a tokenize failure returns -1 before any
      fork, a fork failure returns -1, and otherwise a child is created for
      the tokens, even when there are none (it then calls execv(NULL, argv)). */
  method HandleExecutableAsWritten(line: string, forkOk: bool) returns (r: int, child: Option<seq<string>>)
    ensures var ts := Tokens(line, Delims);
      && (|ts| >= ArgMax ==> r == -1 && child.None?)
      && (|ts| < ArgMax ==> r == (if forkOk then 0 else -1) && child == (if forkOk then Some(ts) else None))
  {
    var argv := new Option<string>[ArgMax];
    var argc := Tokenize(line, argv, Delims, ArgMax);
    if argc < 0 {
      return -1, None;
    }
    if !forkOk {
      return -1, None;
    }
    var args := Values(argv[..argc]);
    assert args == Tokens(line, Delims);
    child := Some(args);
    r := 0;
  }

  /** handle_executable with the missing case added: a line without a token
      creates no child. Otherwise as written. */
  method HandleExecutable(line: string, forkOk: bool) returns (r: int, child: Option<seq<string>>)
    ensures var ts := Tokens(line, Delims);
      && (ts == [] ==> r == 0 && child.None?)
      && (|ts| >= ArgMax ==> r == -1 && child.None?)
      && (0 < |ts| < ArgMax ==> r == (if forkOk then 0 else -1) && child == (if forkOk then Some(ts) else None))
  {
    var argv := new Option<string>[ArgMax];
    var argc := Tokenize(line, argv, Delims, ArgMax);
    if argc < 0 {
      return -1, None;
    }
    if argc == 0 {
      return 0, None;
    }
    if !forkOk {
      return -1, None;
    }
    var args := Values(argv[..argc]);
    assert args == Tokens(line, Delims);
    child := Some(args);
    r := 0;
  }

  /** A line of nothing but spaces makes the handle_executable as written
      fork a child with an empty argv. */
  method BlankLineSpawnsChild() returns (child: Option<seq<string>>)
    ensures child == Some([])
  {
    assert Tokens("  ", Delims) == [];
    var r;
    r, child := HandleExecutableAsWritten("  ", true);
  }

  /** The branch of process_line after preprocess_line has stored cmd: the
      handler runs with the tokenized argv when cmd is a builtin, and
      handle_executable runs otherwise. */
  method Branch(line: string, cmd: Option<Builtin>, os: OsReplies) returns (out: LineOutcome)
    requires cmd == FirstBuiltin(line)
    ensures out == Handle(line, os)
  {
    if cmd.Some? {
      var argv := new Option<string>[ArgMax];
      var argc := Tokenize(line, argv, Delims, ArgMax);
      match cmd.value {
        case Cd =>
          var cd := HandleCd(argc, argv[..], os.chdirOk);
          out := LineOutcome(if cd.chdir.Some? then [Chdir(cd.chdir.value)] else [], None);
        case Exit =>
          out := LineOutcome([], Some(Termination(0, true)));
      }
    } else {
      var r, child := HandleExecutableAsWritten(line, os.forkOk);
      out := LineOutcome(if child.Some? then [Fork(child.value)] else [], None);
    }
  }

  /** Exactly one of the two paths runs: a chdir or an exit only ever comes
      from a builtin, a fork only from a line whose first token is none. */
  lemma OnePath(line: string, os: OsReplies)
    ensures var h := Handle(line, os);
      && |h.effects| <= 1
      && (h.effects != [] && h.effects[0].Fork? ==> FirstBuiltin(line).None?)
      && (h.effects != [] && h.effects[0].Chdir? ==> FirstBuiltin(line) == Some(Cd))
      && (h.exit.Some? <==> FirstBuiltin(line) == Some(Exit))
  {
  }

  /** cd asks chdir for its argument exactly when the line is "cd" and one
      more token. */
  lemma CdNeedsOneArgument(line: string, os: OsReplies)
    ensures var h := Handle(line, os); var ts := Tokens(line, Delims);
      (h.effects != [] && h.effects[0].Chdir?) <==> |ts| == 2 && ts[0] == "cd"
    ensures var ts := Tokens(line, Delims);
      |ts| == 2 && ts[0] == "cd" ==> Handle(line, os).effects == [Chdir(ts[1])]
  {
  }

  /** A fork happens exactly for a line whose first token is not a builtin
      (or that has no token), with fewer than ArgMax tokens, when fork
      succeeds; the child gets the tokens as argv. */
  lemma ForkOnlyForExecutable(line: string, os: OsReplies)
    ensures var h := Handle(line, os); var ts := Tokens(line, Delims);
      (h.effects != [] && h.effects[0].Fork?) <==>
        (FirstBuiltin(line).None? && |ts| < ArgMax && os.forkOk)
    ensures var h := Handle(line, os);
      h.effects != [] && h.effects[0].Fork? ==> h.effects[0].argv == Tokens(line, Delims)
  {
  }

  /** A line with no token still reaches handle_executable: it forks a
      child with an empty argv when fork succeeds, and does nothing else. */
  lemma NoTokenSpawnsChild(line: string, os: OsReplies)
    requires Tokens(line, Delims) == []
    ensures Handle(line, os) == LineOutcome(if os.forkOk then [Fork([])] else [], None)
  {
  }

  /** The effects of a run and how the process ended. */
  datatype SessionEnd = SessionEnd(effects: seq<Effect>, end: Termination)

  /** The effects of a run, then those of its rest. */
  function Then(effects: seq<Effect>, rest: SessionEnd): SessionEnd {
    rest.(effects := effects + rest.effects)
  }

  lemma ThenThen(a: seq<Effect>, b: seq<Effect>, r: SessionEnd)
    ensures Then(a, Then(b, r)) == Then(a + b, r)
  {
    assert a + (b + r.effects) == a + b + r.effects;
  }

  lemma ThenNothing(r: SessionEnd)
    ensures Then([], r) == r
  {
    assert [] + r.effects == r.effects;
  }
}
