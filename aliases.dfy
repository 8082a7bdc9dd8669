/** The user-defined command aliases (`CommandAlias`) and the registry that
    holds them (`CommandGroup`), as far as the `:command` implementation
    and alias resolution use them. */
module Aliases {
  import opened KotlinText

  /** A registered alias: the argument-count bounds given by `-nargs`
      (a maximum of -1 means unbounded), its name, and either the Ex text it
      expands to or the printed form of the handler a plugin registered. */
  datatype CommandAlias =
    | Ex(minimumNumberOfArguments: int, maximumNumberOfArguments: int, name: string, command: string)
    | Call(minimumNumberOfArguments: int, maximumNumberOfArguments: int, name: string, handler: string)

  /** The "Args" column of the listing: the `-nargs` value that yields these
      bounds, and the minimum itself for any other pair. */
  function NumberOfArguments(alias: CommandAlias): (r: string)
    ensures r != []
  {
    var (min, max) := (alias.minimumNumberOfArguments, alias.maximumNumberOfArguments);
    if min == 0 && max == 0 then "0"
    else if min == 0 && max == -1 then "*"
    else if min == 0 && max == 1 then "?"
    else if min == 1 && max == -1 then "+"
    else IntToString(min)
  }

  /** The "Definition" column of the listing. */
  function PrintValue(alias: CommandAlias): string
  {
    match alias
    case Ex(_, _, _, command) => command
    case Call(_, _, _, handler) => handler
  }

  /** No element occurs twice. */
  predicate Distinct(s: seq<string>)
  {
    forall i, j :: 0 <= i < j < |s| ==> s[i] != s[j]
  }

  /** `order` lists every key of the registry exactly once: the order in
      which the registry yields its entries. */
  predicate Enumerates(order: seq<string>, aliases: map<string, CommandAlias>)
  {
    && (forall k :: k in order ==> k in aliases)
    && (forall k :: k in aliases ==> k in order)
    && Distinct(order)
  }

  /** The alias registry: names mapped to aliases, and the reserved names
      no user command may take. */
  class CommandGroup {
    /** `BLACKLISTED_ALIASES`. */
    const reserved: set<string>
    var aliases: map<string, CommandAlias>

    constructor (reserved: set<string>)
      ensures this.reserved == reserved && aliases == map[]
    {
      this.reserved := reserved;
      aliases := map[];
    }

    /** `setAlias`: the name now maps to the alias, whether or not it was
        registered before; every other name keeps its alias. */
    method SetAlias(name: string, alias: CommandAlias)
      modifies this
      ensures aliases == old(aliases)[name := alias]
      ensures forall k :: k in old(aliases) && k != name ==> k in aliases && aliases[k] == old(aliases)[k]
    {
      aliases := aliases[name := alias];
    }
  }
}
