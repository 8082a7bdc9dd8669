/** Commands the parser has no rule for (`UnknownCommand`): they are taken
    to be user-defined aliases and expanded, an alias whose text is itself
    unknown being expanded again, at most `MaxRecursion` times. */
module UnknownCommands {
  import opened Wrappers
  import opened Execution

  /** `MAX_RECURSION`: how many expansions one command may go through. */
  const MaxRecursion: int := 100

  /** What the registry gives for a text that names an alias: Ex text to
      parse and run, or a handler a plugin registered. */
  datatype GoalCommand = Ex(command: string) | Call(handler: object)

  /** What the parser makes of a text: another unknown command, or a node it
      has a rule for. */
  datatype Parsed = UnknownNode | Concrete(command: Executable)

  /** A call into code outside the model, made once per resolution. */
  datatype Invocation = ExecuteCommand(command: Executable) | ExecuteHandler(handler: object)

  /** How a resolution ends when it does not throw. */
  datatype Resolution = Invoked(call: Invocation) | DepthReached

  /** The message of the exception thrown for a text that is not a command. */
  function NotAnEditorCommand(text: string): string
  {
    "E492: Not an editor command: " + text
  }

  /** `processPossiblyAliasCommand` without its side effects. `lookup` is
      the registry's `isAlias` and `getAliasCommand` together (None when the
      text is not an alias) and `parse` is `VimscriptParser.parseCommand`. */
  function Resolve(text: string, lookup: string -> Option<GoalCommand>, parse: string -> Option<Parsed>,
                   countdown: int): (r: Outcome<Resolution>)
    ensures lookup(text).None? ==> r == Threw(ExException(NotAnEditorCommand(text)))
    ensures lookup(text).Some? && countdown <= 0 ==> r == Normal(DepthReached)
    ensures r.Threw? ==> r.exception.ExException? || r.exception.InvalidCommandException?
    ensures r.Normal? && r.value.Invoked? && r.value.call.ExecuteCommand? ==>
      exists t :: parse(t) == Some(Concrete(r.value.call.command))
    ensures r.Normal? && r.value.Invoked? && r.value.call.ExecuteHandler? ==>
      exists t :: lookup(t) == Some(Call(r.value.call.handler))
    decreases if countdown > 0 then countdown else 0
  {
    match lookup(text)
    case None => Threw(ExException(NotAnEditorCommand(text)))
    case Some(goal) =>
      if countdown <= 0 then Normal(DepthReached)
      else
        match goal
        case Ex(command) =>
          if command == [] then Threw(InvalidCommandException(text))
          else (
            match parse(command)
            case None => Threw(ExException(NotAnEditorCommand(command)))
            case Some(UnknownNode) => Resolve(command, lookup, parse, countdown - 1)
            case Some(Concrete(node)) => Normal(Invoked(ExecuteCommand(node))))
        case Call(handler) => Normal(Invoked(ExecuteHandler(handler)))
  }

  /** An Ex alias with no text, or with text the parser rejects, throws
      while the countdown lasts. */
  lemma AliasTextRejected(text: string, lookup: string -> Option<GoalCommand>, parse: string -> Option<Parsed>, countdown: int)
    requires countdown > 0 && lookup(text).Some? && lookup(text).value.Ex?
    ensures var command := lookup(text).value.command;
      && (command == [] ==> Resolve(text, lookup, parse, countdown) == Threw(InvalidCommandException(text)))
      && (command != [] && parse(command).None? ==>
            Resolve(text, lookup, parse, countdown) == Threw(ExException(NotAnEditorCommand(command))))
  {
  }

  /** While the countdown lasts, a plugin alias runs exactly its own handler,
      and Ex text the parser turns into a concrete node runs exactly that
      node; Ex text the parser finds unknown is resolved one level down. */
  lemma AliasRunsItsTarget(text: string, lookup: string -> Option<GoalCommand>, parse: string -> Option<Parsed>, countdown: int)
    requires countdown > 0 && lookup(text).Some?
    ensures lookup(text).value.Call? ==>
      Resolve(text, lookup, parse, countdown) == Normal(Invoked(ExecuteHandler(lookup(text).value.handler)))
    ensures var goal := lookup(text).value;
      goal.Ex? && goal.command != [] && parse(goal.command).Some? && parse(goal.command).value.Concrete? ==>
        Resolve(text, lookup, parse, countdown) == Normal(Invoked(ExecuteCommand(parse(goal.command).value.command)))
    ensures var goal := lookup(text).value;
      goal.Ex? && goal.command != [] && parse(goal.command) == Some(UnknownNode) ==>
        Resolve(text, lookup, parse, countdown) == Resolve(goal.command, lookup, parse, countdown - 1)
  {
  }

  /** The result the command returns: Success once a command or handler
      ran, Error at the depth limit. */
  function ResultOf(r: Outcome<Resolution>): Outcome<ExecutionResult>
  {
    match r
    case Threw(e) => Threw(e)
    case Normal(DepthReached) => Normal(Error)
    case Normal(Invoked(_)) => Normal(Success)
  }

  /** The objects a resolution writes to: the node it runs, if any. */
  function Touched(r: Outcome<Resolution>): set<object>
  {
    if r.Normal? && r.value.Invoked? && r.value.call.ExecuteCommand? then {r.value.call.command} else {}
  }

  // ---------------------------------------------------------------------
  // An independent description: the chain of alias texts

  /** The text one expansion leads to, when the alias is Ex text the parser
      finds unknown. */
  function Next(text: string, lookup: string -> Option<GoalCommand>, parse: string -> Option<Parsed>): Option<string>
  {
    match lookup(text)
    case Some(Ex(command)) => if command != [] && parse(command) == Some(UnknownNode) then Some(command) else None
    case _ => None
  }

  /** The text reached after k expansions, if there are that many. */
  function Expand(text: string, lookup: string -> Option<GoalCommand>, parse: string -> Option<Parsed>, k: nat): Option<string>
    decreases k
  {
    if k == 0 then Some(text)
    else
      match Next(text, lookup, parse)
      case None => None
      case Some(next) => Expand(next, lookup, parse, k - 1)
  }

  /** One more expansion is one more step of `Next`. */
  lemma {:induction false} ExpandOneMore(text: string, lookup: string -> Option<GoalCommand>, parse: string -> Option<Parsed>, k: nat)
    ensures Expand(text, lookup, parse, k + 1) ==
      match Expand(text, lookup, parse, k)
      case None => None
      case Some(t) => Next(t, lookup, parse)
    decreases k
  {
    if k > 0 {
      match Next(text, lookup, parse)
      case None =>
      case Some(next) => ExpandOneMore(next, lookup, parse, k - 1);
    }
  }

  /** While the countdown lasts, resolving a text is resolving what it
      expands to with the countdown lowered by the number of expansions. */
  lemma {:induction false} ResolveFollowsChain(text: string, lookup: string -> Option<GoalCommand>, parse: string -> Option<Parsed>,
                                               countdown: int, k: nat)
    requires k <= countdown
    requires Expand(text, lookup, parse, k).Some?
    ensures Resolve(text, lookup, parse, countdown) == Resolve(Expand(text, lookup, parse, k).value, lookup, parse, countdown - k)
    decreases k
  {
    if k > 0 {
      var next := Next(text, lookup, parse).value;
      ResolveFollowsChain(next, lookup, parse, countdown - 1, k - 1);
    }
  }

  /** The depth limit is reached exactly when the alias chain is at least
      `countdown` expansions long and ends on an alias. */
  lemma {:induction false} DepthReachedExactly(text: string, lookup: string -> Option<GoalCommand>, parse: string -> Option<Parsed>,
                                               countdown: nat)
    ensures Resolve(text, lookup, parse, countdown) == Normal(DepthReached) <==>
      Expand(text, lookup, parse, countdown).Some? && lookup(Expand(text, lookup, parse, countdown).value).Some?
    decreases countdown
  {
    if countdown > 0 {
      match Next(text, lookup, parse)
      case None =>
      case Some(next) => DepthReachedExactly(next, lookup, parse, countdown - 1);
    }
  }

  /** More expansions than the countdown allows end at the depth limit:
      resolution never follows more than `countdown` aliases, cycles
      included. */
  lemma ChainLongerThanCountdown(text: string, lookup: string -> Option<GoalCommand>, parse: string -> Option<Parsed>,
                                 countdown: nat)
    requires Expand(text, lookup, parse, countdown + 1).Some?
    ensures Resolve(text, lookup, parse, countdown) == Normal(DepthReached)
  {
    ExpandOneMore(text, lookup, parse, countdown);
    DepthReachedExactly(text, lookup, parse, countdown);
  }

  /** An alias whose text is itself always ends at the depth limit. */
  lemma {:induction false} SelfReferenceReachesDepth(text: string, lookup: string -> Option<GoalCommand>, parse: string -> Option<Parsed>,
                                                     countdown: int)
    requires Next(text, lookup, parse) == Some(text)
    ensures Resolve(text, lookup, parse, countdown) == Normal(DepthReached)
    decreases if countdown > 0 then countdown else 0
  {
    if countdown > 0 {
      SelfReferenceReachesDepth(text, lookup, parse, countdown - 1);
    }
  }

  /** Two aliases that name each other end at the depth limit too. */
  lemma {:induction false} MutualReferenceReachesDepth(a: string, b: string, lookup: string -> Option<GoalCommand>,
                                                       parse: string -> Option<Parsed>, countdown: int)
    requires Next(a, lookup, parse) == Some(b) && Next(b, lookup, parse) == Some(a)
    ensures Resolve(a, lookup, parse, countdown) == Normal(DepthReached)
    ensures Resolve(b, lookup, parse, countdown) == Normal(DepthReached)
    decreases if countdown > 0 then countdown else 0
  {
    if countdown > 0 {
      MutualReferenceReachesDepth(a, b, lookup, parse, countdown - 1);
    }
  }

  // ---------------------------------------------------------------------
  // The command object

  /** An unknown command with its name and argument text. */
  class UnknownCommand {
    const name: string
    const argument: string
    var parent: object?

    constructor (name: string, argument: string)
      ensures this.name == name && this.argument == argument && parent == null
    {
      this.name := name;
      this.argument := argument;
      parent := null;
    }

    /** `processCommand`: resolve `"$name $argument"` with the full
        countdown. */
    method ProcessCommand(lookup: string -> Option<GoalCommand>, parse: string -> Option<Parsed>)
      returns (outcome: Outcome<ExecutionResult>, invocations: seq<Invocation>)
      modifies Touched(Resolve(name + " " + argument, lookup, parse, MaxRecursion))
      ensures var r := Resolve(name + " " + argument, lookup, parse, MaxRecursion);
        && outcome == ResultOf(r)
        && invocations == (if r.Normal? && r.value.Invoked? then [r.value.call] else [])
        && (r.Normal? && r.value.Invoked? && r.value.call.ExecuteCommand? ==> r.value.call.command.parent == parent)
    {
      outcome, invocations := ProcessPossiblyAliasCommand(name + " " + argument, lookup, parse, MaxRecursion);
    }

    /** `processPossiblyAliasCommand`: the node the alias chain ends on is
        linked to this command's parent and run once; the handler of a Call
        alias is run once. */
    method ProcessPossiblyAliasCommand(text: string, lookup: string -> Option<GoalCommand>, parse: string -> Option<Parsed>,
                                       aliasCountdown: int)
      returns (outcome: Outcome<ExecutionResult>, invocations: seq<Invocation>)
      modifies Touched(Resolve(text, lookup, parse, aliasCountdown))
      ensures var r := Resolve(text, lookup, parse, aliasCountdown);
        && outcome == ResultOf(r)
        && invocations == (if r.Normal? && r.value.Invoked? then [r.value.call] else [])
        && (r.Normal? && r.value.Invoked? && r.value.call.ExecuteCommand? ==> r.value.call.command.parent == parent)
      decreases if aliasCountdown > 0 then aliasCountdown else 0
    {
      var goal := lookup(text);
      if goal.Some? {
        if aliasCountdown > 0 {
          match goal.value
          case Ex(command) =>
            if command == [] {
              return Threw(InvalidCommandException(text)), [];
            }
            var parsedCommand := parse(command);
            if parsedCommand.None? {
              return Threw(ExException(NotAnEditorCommand(command))), [];
            }
            match parsedCommand.value {
              case UnknownNode =>
                outcome, invocations := ProcessPossiblyAliasCommand(command, lookup, parse, aliasCountdown - 1);
              case Concrete(node) =>
                node.parent := parent;
                return Normal(Success), [ExecuteCommand(node)];
            }
          case Call(handler) =>
            return Normal(Success), [ExecuteHandler(handler)];
        } else {
          return Normal(Error), [];
        }
      } else {
        return Threw(ExException(NotAnEditorCommand(text))), [];
      }
    }
  }
}
