/** The argument handling of `main`: a mapping from the argument vector to
    the action the program takes. The home-directory default database path
    is a parameter; exits are result values. */
module Cli {

  /** What `main` does with its arguments. The three error outcomes print a
      message and exit with status 1. */
  datatype Command =
    | Usage
    | ListChats(dbPath: string)
    | ExtractChat(chatIdentifier: string, dbPath: string, debug: bool)
    | MissingIdentifier
    | UnknownCommand(command: string)

  const DebugFlag: string := "--debug"

  function Dispatch(argv: seq<string>, defaultDbPath: string): (c: Command)
    ensures c.Usage? <==> |argv| < 2
    ensures c.ListChats? <==> |argv| >= 2 && argv[1] == "list"
    ensures c.MissingIdentifier? <==> |argv| == 2 && argv[1] == "extract"
    ensures c.ExtractChat? <==> |argv| >= 3 && argv[1] == "extract"
    ensures c.UnknownCommand? <==> |argv| >= 2 && argv[1] != "list" && argv[1] != "extract"
    ensures c.ExtractChat? ==> c.chatIdentifier == argv[2] && (c.debug <==> DebugFlag in argv)
    ensures c.UnknownCommand? ==> c.command == argv[1]
  {
    if |argv| < 2 then Usage
    else
      var command := argv[1];
      if command == "list" then
        ListChats(if |argv| > 2 then argv[2] else defaultDbPath)
      else if command == "extract" then
        if |argv| < 3 then MissingIdentifier
        else ExtractChat(argv[2], if |argv| > 3 then argv[3] else defaultDbPath, DebugFlag in argv)
      else UnknownCommand(command)
  }

  /** The exit status `main` ends with when the action itself returns. */
  function ExitStatus(c: Command): (r: int)
    ensures r == 0 || r == 1
    ensures r == 0 <==> c.ListChats? || c.ExtractChat?
  {
    match c
    case ListChats(_) => 0
    case ExtractChat(_, _, _) => 0
    case _ => 1
  }

  /** Before the chosen action runs, `main` fails exactly when there is no
      command, the command is unknown, or `extract` lacks its chat
      identifier. (The actions themselves can still exit with status 1 when
      the database cannot be opened; that is not modelled.) */
  lemma ExitsWithErrorIff(argv: seq<string>, defaultDbPath: string)
    ensures ExitStatus(Dispatch(argv, defaultDbPath)) == 1 <==>
      |argv| < 2 || (argv[1] != "list" && argv[1] != "extract") || (argv[1] == "extract" && |argv| < 3)
  {
  }

  /** The database path is the argument right after the command (`list`) or
      after the identifier (`extract`), and the default only when that
      argument is absent. */
  lemma DbPathPosition(argv: seq<string>, defaultDbPath: string)
    ensures Dispatch(argv, defaultDbPath).ListChats? ==>
      Dispatch(argv, defaultDbPath).dbPath == (if |argv| > 2 then argv[2] else defaultDbPath)
    ensures Dispatch(argv, defaultDbPath).ExtractChat? ==>
      Dispatch(argv, defaultDbPath).dbPath == (if |argv| > 3 then argv[3] else defaultDbPath)
  {
  }

  /** `extract <id> --debug` takes `--debug` as the database path and also
      turns debug output on. */
  lemma DebugFlagTakenAsPath(argv: seq<string>, id: string, defaultDbPath: string)
    requires argv == ["extract_messages.py", "extract", id, "--debug"]
    ensures Dispatch(argv, defaultDbPath) == ExtractChat(id, "--debug", true)
  {
    assert argv[3] == DebugFlag;
  }

  /** `extract --debug` takes `--debug` as the chat identifier and still
      turns debug output on, with the default database path. */
  lemma DebugFlagTakenAsIdentifier(argv: seq<string>, defaultDbPath: string)
    requires argv == ["extract_messages.py", "extract", "--debug"]
    ensures Dispatch(argv, defaultDbPath) == ExtractChat("--debug", defaultDbPath, true)
  {
    assert argv[2] == DebugFlag;
  }

  /** With the flag after the path, identifier, path and debug are each in
      their place. */
  lemma DebugAfterPath(argv: seq<string>, id: string, db: string, defaultDbPath: string)
    requires argv == ["extract_messages.py", "extract", id, db, "--debug"]
    ensures Dispatch(argv, defaultDbPath) == ExtractChat(id, db, true)
  {
    assert argv[4] == DebugFlag;
  }
}
