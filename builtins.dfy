/** The builtin registry shared by both shells: the commands[] table,
    check_builtin_cmd and the argument-count gate of handle_cd_cmd. */
module Builtins {
  import opened Wrappers

  /** The behaviour behind a registry entry (its handle_cmd pointer). */
  datatype Builtin = Cd | Exit

  /** One entry of commands[]. */
  datatype Command = Command(name: string, handler: Builtin)

  /** commands[], without its { NULL, NULL } sentinel. */
  const Commands: seq<Command> := [Command("cd", Cd), Command("exit", Exit)]

  /** The reserved name of a builtin. */
  function Name(b: Builtin): string {
    match b
    case Cd => "cd"
    case Exit => "exit"
  }

  /** The builtin whose reserved name is exactly name, if there is one. */
  function Lookup(name: string): (r: Option<Builtin>)
    ensures forall b :: r == Some(b) <==> Name(b) == name
  {
    if name == Name(Cd) then Some(Cd) else if name == Name(Exit) then Some(Exit) else None
  }

  /** check_builtin_cmd: a linear scan of commands[] by exact string match;
      NULL when no entry matches. */
  method CheckBuiltinCmd(input: string) returns (r: Option<Builtin>)
    ensures r == Lookup(input)
  {
    var i := 0;
    while i < |Commands|
      invariant 0 <= i <= |Commands|
      invariant forall j :: 0 <= j < i ==> Commands[j].name != input
    {
      if input == Commands[i].name {
        return Some(Commands[i].handler);
      }
      i := i + 1;
    }
    assert Commands[0].name != input && Commands[1].name != input;
    return None;
  }

  /** What handle_cd_cmd does: its result and the directory it asks chdir
      for, if it gets that far. */
  datatype CdOutcome = CdOutcome(status: int, chdir: Option<string>)

  /** handle_cd_cmd(argc, argv): anything but exactly one argument after the
      name is a usage error (-1) and chdir is not called; otherwise chdir is
      asked for argv[1] and its failure (chdirOk false) gives -1. */
  function HandleCd(argc: int, argv: seq<Option<string>>, chdirOk: bool): (r: CdOutcome)
    requires argc == 2 ==> |argv| >= 2 && argv[1].Some?
    ensures r.chdir.Some? <==> argc == 2
    ensures r.chdir.Some? ==> r.chdir.value == argv[1].value
    ensures r.status == 0 <==> argc == 2 && chdirOk
    ensures r.status == 0 || r.status == -1
  {
    if argc != 2 then CdOutcome(-1, None)
    else CdOutcome(if chdirOk then 0 else -1, Some(argv[1].value))
  }
}
