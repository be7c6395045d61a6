/**
  The commands typed at the `(deet)` prompt and their parser
  (deet/src/debugger_command.rs). A command is recognised by its first
  token; each command has one or more spellings.
*/
module DebuggerCommands {
  import opened Options

  datatype DebuggerCommand =
    | Quit
    | Cont
    | Back
    | Break(arg: string)
    | Info(arg: string)
    | Run(args: seq<string>)
    | Disassemble

  /** The spellings of a command, its canonical keyword first. */
  function Names(c: DebuggerCommand): (names: seq<string>)
    ensures |names| > 0
  {
    match c
    case Quit => ["q", "quit"]
    case Run(_) => ["r", "run"]
    case Cont => ["c", "cont", "continue"]
    case Back => ["bt", "back", "backtrace"]
    case Break(_) => ["b", "break"]
    case Disassemble => ["disassemble"]
    case Info(_) => ["info"]
  }

  /** Every first token the parser recognises. */
  predicate IsKeyword(word: string) {
    word in {"q", "quit", "r", "run", "c", "cont", "continue", "bt", "back", "backtrace",
             "b", "break", "disassemble", "info"}
  }

  /** The keywords whose command carries the second token. */
  predicate TakesArgument(word: string) {
    word in {"b", "break", "info"}
  }

  /** The tokens after the keyword that a command carries. */
  function Arguments(c: DebuggerCommand): seq<string> {
    match c
    case Run(args) => args
    case Break(arg) => [arg]
    case Info(arg) => [arg]
    case _ => []
  }

  /** The canonical token list of a command: its first keyword, then its arguments. */
  function Tokens(c: DebuggerCommand): seq<string> {
    [Names(c)[0]] + Arguments(c)
  }

  /**
    `DebuggerCommand::from_tokens`. The first token must exist, and for
    `b`, `break` and `info` the second one too (the source indexes them).
    The command is the one named by the first token; `run` takes all the
    remaining tokens in order, `break` and `info` the second token only,
    the others ignore the rest; an unknown first token gives `None`.
  */
  function FromTokens(tokens: seq<string>): (r: Option<DebuggerCommand>)
    requires |tokens| > 0
    requires TakesArgument(tokens[0]) ==> |tokens| >= 2
    ensures r.Some? <==> IsKeyword(tokens[0])
    ensures r.Some? ==> tokens[0] in Names(r.value)
    ensures r.Some? && r.value.Run? ==> r.value.args == tokens[1..]
    ensures r.Some? && (r.value.Break? || r.value.Info?) ==> r.value.arg == tokens[1]
  {
    var head := tokens[0];
    if head == "q" || head == "quit" then Some(Quit)
    else if head == "r" || head == "run" then Some(Run(tokens[1..]))
    else if head == "c" || head == "cont" || head == "continue" then Some(Cont)
    else if head == "bt" || head == "back" || head == "backtrace" then Some(Back)
    else if head == "b" || head == "break" then Some(Break(tokens[1]))
    else if head == "disassemble" then Some(Disassemble)
    else if head == "info" then Some(Info(tokens[1]))
    else None
  }

  /** Parsing a command's canonical tokens gives the command back. */
  lemma FromTokensRoundTrip(c: DebuggerCommand)
    ensures TakesArgument(Tokens(c)[0]) ==> |Tokens(c)| >= 2
    ensures FromTokens(Tokens(c)) == Some(c)
  {
    assert Tokens(c)[1..] == Arguments(c);
  }

  /** The spellings of different commands never overlap, so the first token decides the command. */
  lemma NamesDistinguish(c: DebuggerCommand, d: DebuggerCommand, word: string)
    requires word in Names(c) && word in Names(d)
    ensures c.Quit? == d.Quit? && c.Cont? == d.Cont? && c.Back? == d.Back?
    ensures c.Break? == d.Break? && c.Info? == d.Info? && c.Run? == d.Run? && c.Disassemble? == d.Disassemble?
  {
  }

  /** Every spelling of a command parses like its canonical keyword, whatever follows it. */
  lemma {:induction false} AliasesAgree(c: DebuggerCommand, word: string, rest: seq<string>)
    requires word in Names(c)
    requires TakesArgument(word) ==> |rest| >= 1
    ensures TakesArgument(Names(c)[0]) ==> |rest| >= 1
    ensures FromTokens([word] + rest) == FromTokens([Names(c)[0]] + rest)
  {
    var tokens, canonical := [word] + rest, [Names(c)[0]] + rest;
    assert tokens[1..] == rest && canonical[1..] == rest;
    match c
    case Run(_) =>
    case Break(_) =>
    case Info(_) =>
    case _ =>
  }
}
