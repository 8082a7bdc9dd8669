/** The `:command` Ex command (`CmdCommand`): with no argument it lists the
    user-defined aliases; otherwise it parses `[!] [-nargs=N] Name text` and
    registers `Name` as an alias for `text`. */
module CmdCommands {
  import opened Wrappers
  import opened KotlinText
  import opened Execution
  import opened Aliases

  const OverridePrefix := "!"
  const ArgsPrefix := "-nargs"
  /** The literal part of the `-nargs` pattern, up to its value. */
  const NargsKey := "-nargs="
  const AnyNumberOfArguments := "*"
  const ZeroOrOneArguments := "?"
  const MoreThanZeroArguments := "+"

  /** The first line of every listing, with its line separator. */
  const ListingHeader := "Name        Args       Definition\n"
  const NameWidth := 12
  const ArgsWidth := 11

  /** The reasons an alias definition is refused, each shown as a message. */
  datatype Rejection =
    | InvalidNumberOfArguments   // E176
    | NotUppercase               // E183
    | ReservedName               // E841
    | AlreadyExists              // E174

  /** What the command leaves for the user: nothing, a listing written to
      the output panel, or an error message. */
  datatype Report = Silent | Output(text: string) | Message(reason: Rejection)

  // ---------------------------------------------------------------------
  // The `-nargs` pattern `(?>-nargs=((|[-])\d+|[?]|[+]|[*]))`

  /** The longest run of decimal digits at the front of s. */
  function LeadingDigits(s: string): (r: string)
    ensures StartsWith(s, r) && AllDigits(r)
    ensures |r| < |s| ==> !IsDigit(s[|r|])
  {
    if s != [] && IsDigit(s[0]) then [s[0]] + LeadingDigits(s[1..]) else []
  }

  /** What the group `((|[-])\d+|[?]|[+]|[*])` matches at the front of s:
      its alternatives are tried in order and `\d+` takes every digit. */
  function NargsValue(s: string): (r: Option<string>)
    ensures r.Some? ==> r.value != [] && StartsWith(s, r.value)
    ensures r.Some? ==> ' ' !in r.value
  {
    var digits := LeadingDigits(s);
    if digits != [] then Some(digits)
    else if |s| >= 2 && s[0] == '-' && IsDigit(s[1]) then
      assert s[1..][..|LeadingDigits(s[1..])|] == s[1..|LeadingDigits(s[1..])| + 1];
      Some("-" + LeadingDigits(s[1..]))
    else if s != [] && (s[0] == '?' || s[0] == '+' || s[0] == '*') then Some([s[0]])
    else None
  }

  /** The value of a match of the whole pattern that starts at position p. */
  function NargsValueAt(t: string, p: nat): (r: Option<string>)
    requires p <= |t|
    ensures r.Some? ==> p + |NargsKey| + |r.value| <= |t|
    ensures r.Some? ==> t[p..p + |NargsKey| + |r.value|] == NargsKey + r.value
  {
    if StartsWith(t[p..], NargsKey) then
      var v := NargsValue(t[p + |NargsKey|..]);
      if v.Some? then
        assert t[p..][..|NargsKey|] == t[p..p + |NargsKey|];
        assert t[p + |NargsKey|..][..|v.value|] == t[p + |NargsKey|..p + |NargsKey| + |v.value|];
        v
      else None
    else None
  }

  /** A match found by `Regex.find`: where it starts and what the value
      group holds; the whole match is `NargsKey + value`. */
  datatype NargsMatch = NargsMatch(start: nat, value: string)

  /** `Regex.find` from position p on: the leftmost match. */
  function FindNargsFrom(t: string, p: nat): (r: Option<NargsMatch>)
    requires p <= |t|
    ensures r.Some? ==> p <= r.value.start <= |t|
    decreases |t| - p
  {
    match NargsValueAt(t, p)
    case Some(v) => Some(NargsMatch(p, v))
    case None => if p == |t| then None else FindNargsFrom(t, p + 1)
  }

  /** A match that `FindNargsFrom` reports is a match of the pattern. */
  lemma {:induction false} FoundNargsMatches(t: string, p: nat)
    requires p <= |t|
    ensures var r := FindNargsFrom(t, p);
      r.Some? ==> NargsValueAt(t, r.value.start) == Some(r.value.value)
    decreases |t| - p
  {
    if NargsValueAt(t, p).None? && p < |t| {
      FoundNargsMatches(t, p + 1);
    }
  }

  /** No match of the pattern starts before the one reported. */
  lemma {:induction false} FoundNargsLeftmost(t: string, p: nat, q: nat)
    requires p <= q <= |t|
    requires FindNargsFrom(t, p).Some? ==> q < FindNargsFrom(t, p).value.start
    ensures NargsValueAt(t, q).None?
    decreases q - p
  {
    if q > p {
      FoundNargsLeftmost(t, p + 1, q);
    }
  }

  /** `Regex("(?>-nargs=...)").find(t)`: the leftmost match in t. */
  function FindNargs(t: string): Option<NargsMatch>
  {
    FindNargsFrom(t, 0)
  }

  /** With no match at any position from p on, nothing is found. */
  lemma {:induction false} NoNargsFound(t: string, p: nat)
    requires p <= |t|
    requires forall q :: p <= q <= |t| ==> NargsValueAt(t, q).None?
    ensures FindNargsFrom(t, p).None?
    decreases |t| - p
  {
    if p < |t| {
      NoNargsFound(t, p + 1);
    }
  }

  /** `-nargs=v` with a value the group refuses, and no `-nargs=` inside v,
      holds no match of the pattern anywhere. */
  lemma RefusedValueNotFound(v: string)
    requires NargsValue(v).None?
    requires forall i :: 0 <= i <= |v| ==> !StartsWith(v[i..], NargsKey)
    ensures FindNargs(NargsKey + v).None?
  {
    var t := NargsKey + v;
    forall q | 0 <= q <= |t|
      ensures NargsValueAt(t, q).None?
    {
      if q == 0 {
        assert t[0..] == t && t[..|NargsKey|] == NargsKey && t[|NargsKey|..] == v;
      } else if q < |NargsKey| {
        assert t[q..][0] == NargsKey[q] != '-';
      } else {
        assert t[q..] == v[q - |NargsKey|..];
      }
    }
    NoNargsFound(t, 0);
  }

  // ---------------------------------------------------------------------
  // Argument counts

  /** The bounds an alias accepts: a maximum of -1 means unbounded. */
  datatype ArgumentCount = ArgumentCount(min: int, max: int)

  /** The bounds a `-nargs` value stands for, or None when the value is
      refused: a number must be 0 or 1 and fit in an Int. */
  function ArgumentCounts(value: string): (r: Option<ArgumentCount>)
    ensures r.Some? ==> r.value.min in {0, 1} && (r.value.max == -1 || r.value.min <= r.value.max <= 1)
  {
    match ToIntOrNull(value)
    case None =>
      if value == AnyNumberOfArguments then Some(ArgumentCount(0, -1))
      else if value == ZeroOrOneArguments then Some(ArgumentCount(0, 1))
      else if value == MoreThanZeroArguments then Some(ArgumentCount(1, -1))
      else None
    case Some(n) =>
      if n > 1 || n < 0 then None else Some(ArgumentCount(n, n))
  }

  // ---------------------------------------------------------------------
  // What a definition asks for

  /** The outcome of parsing the argument of `:command`, before the
      registry is consulted. */
  datatype Plan =
    | ListAliases(filter: string)
    | Reject(reason: Rejection)
    | Store(overrideAlias: bool, name: string, counts: ArgumentCount, replacement: string)

  /** Parsing of the name and the replacement text, once `!` and `-nargs`
      are gone: the name is the text up to the first space. */
  function PlanName(overrideAlias: bool, counts: ArgumentCount, argument: string, reserved: set<string>): (r: Outcome<Plan>)
    ensures r.Threw? <==> UntilSpace(argument) == []
    ensures r.Threw? ==> r.exception == IndexOutOfBounds
    ensures r.Normal? && r.value.Reject? ==> r.value.reason in {NotUppercase, ReservedName}
    ensures r.Normal? && r.value.Store? ==>
      var name := r.value.name;
      && name == UntilSpace(argument) && IsUpperCase(name[0]) && name !in reserved
      && r.value.replacement != [] && IsTrimmed(r.value.replacement)
      && r.value.overrideAlias == overrideAlias && r.value.counts == counts
    ensures r.Normal? && r.value.ListAliases? ==>
      var name := r.value.filter;
      name == UntilSpace(argument) && IsUpperCase(name[0]) && name !in reserved
  {
    var alias := UntilSpace(argument);
    var rest := Trim(RemovePrefix(argument, alias));
    TrimIsTrimmed(RemovePrefix(argument, alias));
    if alias == [] then Threw(IndexOutOfBounds)
    else if !IsUpperCase(alias[0]) then Normal(Reject(NotUppercase))
    else if alias in reserved then Normal(Reject(ReservedName))
    else if rest == [] then Normal(ListAliases(alias))
    else Normal(Store(overrideAlias, alias, counts, rest))
  }

  /** Parsing after the `!` marker: the optional `-nargs` specifier, which
      is looked for only in the text before the first space. */
  function PlanAfterOverride(overrideAlias: bool, argument: string, reserved: set<string>): (r: Outcome<Plan>)
    ensures r.Threw? ==> r.exception == IndexOutOfBounds
    ensures r.Normal? && r.value.Store? ==>
      && r.value.overrideAlias == overrideAlias
      && r.value.name != [] && IsUpperCase(r.value.name[0]) && r.value.name !in reserved && ' ' !in r.value.name
      && r.value.replacement != [] && IsTrimmed(r.value.replacement)
    ensures r.Normal? && r.value.ListAliases? ==>
      r.value.filter != [] && IsUpperCase(r.value.filter[0]) && r.value.filter !in reserved
  {
    if StartsWith(argument, ArgsPrefix) then
      match FindNargs(UntilSpace(argument))
      case None => Normal(Reject(InvalidNumberOfArguments))
      case Some(m) =>
        PlanWithCounts(overrideAlias, m.value, Trim(Trim(RemovePrefix(argument, NargsKey + m.value))), reserved)
    else PlanName(overrideAlias, ArgumentCount(0, 0), Trim(argument), reserved)
  }

  /** The `-nargs` value decides the bounds, or refuses the definition;
      the text after the specifier is then parsed for the name. E176 comes
      from the value alone: the name step never gives that reason. */
  function PlanWithCounts(overrideAlias: bool, value: string, rest: string, reserved: set<string>): (r: Outcome<Plan>)
    ensures r == Normal(Reject(InvalidNumberOfArguments)) <==> ArgumentCounts(value).None?
    ensures r.Normal? && r.value.Store? ==>
      && ArgumentCounts(value).Some? && r.value.counts == ArgumentCounts(value).value
      && r.value.name == UntilSpace(rest) && r.value.overrideAlias == overrideAlias
    ensures ArgumentCounts(value).Some? ==> r == PlanName(overrideAlias, ArgumentCounts(value).value, rest, reserved)
  {
    match ArgumentCounts(value)
    case None => Normal(Reject(InvalidNumberOfArguments))
    case Some(counts) => PlanName(overrideAlias, counts, rest, reserved)
  }

  /** The whole parse of `addAlias`; it throws when the name is empty. */
  function AddAliasPlan(argument: string, reserved: set<string>): (r: Outcome<Plan>)
    ensures r.Threw? ==> r.exception == IndexOutOfBounds
    ensures r.Normal? && r.value.Store? ==>
      && r.value.overrideAlias == StartsWith(Trim(argument), OverridePrefix)
      && r.value.name != [] && IsUpperCase(r.value.name[0]) && r.value.name !in reserved && ' ' !in r.value.name
      && r.value.replacement != [] && IsTrimmed(r.value.replacement)
    ensures r.Normal? && r.value.ListAliases? ==>
      r.value.filter != [] && IsUpperCase(r.value.filter[0]) && r.value.filter !in reserved
  {
    var argument := Trim(argument);
    var overrideAlias := StartsWith(argument, OverridePrefix);
    PlanAfterOverride(overrideAlias, if overrideAlias then Trim(RemovePrefix(argument, OverridePrefix)) else argument, reserved)
  }

  // ---------------------------------------------------------------------
  // Listing

  /** One listing line: the name padded to 12 columns, the argument count
      padded to 11, then the definition. */
  function AliasLine(name: string, alias: CommandAlias): string
  {
    PadEnd(name, NameWidth) + PadEnd(NumberOfArguments(alias), ArgsWidth) + PrintValue(alias)
  }

  /** The keys the filter keeps, in iteration order: all of them when the
      filter is empty, else those that start with it. */
  function Matching(order: seq<string>, filter: string): (r: seq<string>)
    ensures forall k :: k in r <==> k in order && (filter == [] || StartsWith(k, filter))
  {
    if order == [] then []
    else (if filter == [] || StartsWith(order[0], filter) then [order[0]] else []) + Matching(order[1..], filter)
  }

  /** Keys listed once each stay listed once each. */
  lemma {:induction false} MatchingDistinct(order: seq<string>, filter: string)
    requires Distinct(order)
    ensures Distinct(Matching(order, filter))
  {
    if order != [] {
      MatchingDistinct(order[1..], filter);
      var tail := Matching(order[1..], filter);
      var r := Matching(order, filter);
      if filter == [] || StartsWith(order[0], filter) {
        assert r == [order[0]] + tail;
        forall i, j | 0 <= i < j < |r|
          ensures r[i] != r[j]
        {
          if i == 0 {
            assert r[j] == tail[j - 1] && tail[j - 1] in order[1..];
          } else {
            assert r[i] == tail[i - 1] && r[j] == tail[j - 1];
          }
        }
      }
    }
  }

  /** The line of every key, in the keys' order. */
  function Lines(aliases: map<string, CommandAlias>, keys: seq<string>): (r: seq<string>)
    requires forall k :: k in keys ==> k in aliases
    ensures |r| == |keys|
    ensures forall i :: 0 <= i < |keys| ==> r[i] == AliasLine(keys[i], aliases[keys[i]])
  {
    if keys == [] then [] else [AliasLine(keys[0], aliases[keys[0]])] + Lines(aliases, keys[1..])
  }

  /** The lines of `listAlias`, before they are joined. */
  function ListLines(aliases: map<string, CommandAlias>, order: seq<string>, filter: string): seq<string>
    requires Enumerates(order, aliases)
  {
    SortIgnoreCase(Lines(aliases, Matching(order, filter)))
  }

  /** The text `listAlias` writes to the output panel. */
  function Listing(aliases: map<string, CommandAlias>, order: seq<string>, filter: string): string
    requires Enumerates(order, aliases)
  {
    ListingHeader + Join(ListLines(aliases, order, filter), "\n")
  }

  // ---------------------------------------------------------------------
  // Effect on the registry

  /** What one run leaves behind: whether it succeeded, the registry, and
      what the user sees. */
  datatype Effect = Effect(succeeded: bool, aliases: map<string, CommandAlias>, report: Report)

  /** The effect of a parsed definition on a registry: it is stored unless
      the name is taken and `!` was not given. */
  function EffectOf(plan: Outcome<Plan>, aliases: map<string, CommandAlias>, order: seq<string>): Outcome<Effect>
    requires Enumerates(order, aliases)
  {
    match plan
    case Threw(e) => Threw(e)
    case Normal(Reject(reason)) => Normal(Effect(false, aliases, Message(reason)))
    case Normal(ListAliases(filter)) => Normal(Effect(true, aliases, Output(Listing(aliases, order, filter))))
    case Normal(Store(overrideAlias, name, counts, replacement)) =>
      if !overrideAlias && name in aliases then Normal(Effect(false, aliases, Message(AlreadyExists)))
      else Normal(Effect(true, aliases[name := Ex(counts.min, counts.max, name, replacement)], Silent))
  }

  /** `addAlias` against a registry. */
  function AddAliasEffect(argument: string, reserved: set<string>, aliases: map<string, CommandAlias>, order: seq<string>): Outcome<Effect>
    requires Enumerates(order, aliases)
  {
    EffectOf(AddAliasPlan(argument, reserved), aliases, order)
  }

  /** `processCommand`: a blank argument lists every alias. */
  function CommandEffect(argument: string, reserved: set<string>, aliases: map<string, CommandAlias>, order: seq<string>): Outcome<Effect>
    requires Enumerates(order, aliases)
  {
    if Trim(argument) == [] then Normal(Effect(true, aliases, Output(Listing(aliases, order, ""))))
    else AddAliasEffect(argument, reserved, aliases, order)
  }

  /** The execution result a successful or failed run reports. */
  function ResultOfSuccess(succeeded: bool): ExecutionResult
  {
    if succeeded then Success else Error
  }

  // ---------------------------------------------------------------------
  // Properties of the parse

  /** The `-nargs` specifier for the values `*`, `?` and `+`. */
  lemma SymbolicArgumentCounts()
    ensures ArgumentCounts(AnyNumberOfArguments) == Some(ArgumentCount(0, -1))
    ensures ArgumentCounts(ZeroOrOneArguments) == Some(ArgumentCount(0, 1))
    ensures ArgumentCounts(MoreThanZeroArguments) == Some(ArgumentCount(1, -1))
  {
  }

  /** A numeric `-nargs` value n gives the bounds (n, n) when n is 0 or 1
      and is refused otherwise. */
  lemma NumericArgumentCounts(n: int)
    requires IntMin <= n <= IntMax
    ensures ArgumentCounts(IntToString(n)) == if 0 <= n <= 1 then Some(ArgumentCount(n, n)) else None
  {
    IntToStringRoundTrip(n);
  }

  /** A digit string too large for an Int is refused. */
  lemma OverflowingArgumentCount(value: string)
    requires value != [] && AllDigits(value) && DecimalValue(value) > IntMax
    ensures ArgumentCounts(value) == None
  {
    assert IsDigit(value[0]);
  }

  /** The "Args" column of a listing shows a `-nargs` value that gives the
      alias's bounds back, for every pair of bounds `-nargs` can produce. */
  lemma ArgumentCountsRoundTrip(value: string, name: string, command: string)
    requires ArgumentCounts(value).Some?
    ensures var c := ArgumentCounts(value).value;
      ArgumentCounts(NumberOfArguments(Ex(c.min, c.max, name, command))) == Some(c)
  {
    var c := ArgumentCounts(value).value;
    if c.min == 1 && c.max == 1 {
      NumericArgumentCounts(1);
    } else if c.min == 0 && c.max == 0 {
      NumericArgumentCounts(0);
    }
  }

  /** A complete `-nargs=V` token is found at its start. */
  lemma NargsTokenFound(value: string)
    requires NargsValue(value) == Some(value)
    ensures FindNargs(NargsKey + value) == Some(NargsMatch(0, value))
  {
    var token := NargsKey + value;
    assert token[0..] == token;
    assert token[..|NargsKey|] == NargsKey;
    assert token[|NargsKey|..] == value;
  }

  /** Without `!`, the parse goes straight to the `-nargs` step. */
  lemma PlanWithoutOverride(argument: string, reserved: set<string>)
    requires Trim(argument) == argument && !StartsWith(argument, OverridePrefix)
    ensures AddAliasPlan(argument, reserved) == PlanAfterOverride(false, argument, reserved)
  {
  }

  /** A `-nargs` match at the start decides the bounds, or refuses. */
  lemma PlanAfterNargs(argument: string, value: string, rest: string, reserved: set<string>)
    requires StartsWith(argument, ArgsPrefix)
    requires FindNargs(UntilSpace(argument)) == Some(NargsMatch(0, value))
    requires Trim(Trim(RemovePrefix(argument, NargsKey + value))) == rest
    ensures PlanAfterOverride(false, argument, reserved) == PlanWithCounts(false, value, rest, reserved)
  {
  }

  /** `-nargs=V rest` splits at the space after the specifier. */
  lemma NargsTextSplits(argument: string, value: string, rest: string)
    requires argument == NargsKey + value + " " + rest
    requires NargsValue(value) == Some(value)
    ensures UntilSpace(argument) == NargsKey + value
    ensures RemovePrefix(argument, NargsKey + value) == " " + rest
  {
    var token := NargsKey + value;
    assert argument == token + " " + rest;
    assert ' ' !in token;
    SplitAtSpace(token, rest);
  }

  /** `-nargs=V rest` is trimmed and has no `!` in front. */
  lemma NargsTextTrimmed(argument: string, value: string, rest: string)
    requires argument == NargsKey + value + " " + rest
    requires rest != [] && IsTrimmed(rest)
    ensures StartsWith(argument, ArgsPrefix) && !StartsWith(argument, OverridePrefix) && Trim(argument) == argument
  {
    assert argument[..|ArgsPrefix|] == ArgsPrefix;
    assert argument[0] == '-' && OverridePrefix[0] == '!';
    assert argument[|argument| - 1] == rest[|rest| - 1];
    TrimmedUnchanged(argument);
  }

  /** How the text functions read `-nargs=V rest`. */
  lemma NargsTextFacts(argument: string, value: string, rest: string)
    requires argument == NargsKey + value + " " + rest
    requires NargsValue(value) == Some(value)
    requires rest != [] && IsTrimmed(rest)
    ensures StartsWith(argument, ArgsPrefix) && !StartsWith(argument, OverridePrefix) && Trim(argument) == argument
    ensures FindNargs(UntilSpace(argument)) == Some(NargsMatch(0, value))
    ensures Trim(Trim(RemovePrefix(argument, NargsKey + value))) == rest
  {
    NargsTextSplits(argument, value, rest);
    NargsTokenFound(value);
    TrimAfterSpace(rest);
    TrimmedUnchanged(rest);
    NargsTextTrimmed(argument, value, rest);
  }

  /** A `-nargs=V` specifier, a space and the rest of the text: the value
      V decides the bounds, or refuses the definition, and the rest is
      parsed for the name. */
  lemma NargsSpecifierParsed(argument: string, value: string, rest: string, reserved: set<string>)
    requires argument == NargsKey + value + " " + rest
    requires NargsValue(value) == Some(value)
    requires rest != [] && IsTrimmed(rest)
    ensures AddAliasPlan(argument, reserved) == PlanWithCounts(false, value, rest, reserved)
  {
    NargsTextFacts(argument, value, rest);
    PlanAfterNargs(argument, value, rest, reserved);
    PlanWithoutOverride(argument, reserved);
  }

  /** The name and the replacement read off `Name text`. */
  lemma NameAndReplacementParsed(overrideAlias: bool, counts: ArgumentCount, name: string, text: string, reserved: set<string>)
    requires name != [] && ' ' !in name && IsUpperCase(name[0]) && name !in reserved
    requires text != [] && IsTrimmed(text)
    ensures PlanName(overrideAlias, counts, name + " " + text, reserved) == Normal(Store(overrideAlias, name, counts, text))
  {
    SplitAtSpace(name, text);
    TrimAfterSpace(text);
  }

  /** A name that does not start with an uppercase letter is refused,
      whatever text follows it. */
  lemma LowercaseNameRefused(overrideAlias: bool, counts: ArgumentCount, name: string, text: string, reserved: set<string>)
    requires name != [] && ' ' !in name && !IsUpperCase(name[0])
    ensures PlanName(overrideAlias, counts, name + " " + text, reserved) == Normal(Reject(NotUppercase))
  {
    SplitAtSpace(name, text);
  }

  /** A reserved name is refused, whatever text follows it. */
  lemma ReservedNameRefused(overrideAlias: bool, counts: ArgumentCount, name: string, text: string, reserved: set<string>)
    requires name != [] && ' ' !in name && IsUpperCase(name[0]) && name in reserved
    ensures PlanName(overrideAlias, counts, name + " " + text, reserved) == Normal(Reject(ReservedName))
  {
    SplitAtSpace(name, text);
  }

  /** A valid name with no text after it asks for the aliases it prefixes. */
  lemma NameAloneLists(overrideAlias: bool, counts: ArgumentCount, name: string, reserved: set<string>)
    requires name != [] && ' ' !in name && IsUpperCase(name[0]) && name !in reserved
    ensures PlanName(overrideAlias, counts, name, reserved) == Normal(ListAliases(name))
  {
    UntilSpaceAppend(name, []);
    assert name + [] == name;
    assert RemovePrefix(name, name) == [];
    TrimmedUnchanged([]);
  }

  /** Without a `-nargs` specifier the bounds are (0, 0). */
  lemma NoNargsNoArguments(argument: string, reserved: set<string>)
    requires Trim(argument) == argument && !StartsWith(argument, OverridePrefix) && !StartsWith(argument, ArgsPrefix)
    ensures AddAliasPlan(argument, reserved) == PlanName(false, ArgumentCount(0, 0), argument, reserved)
  {
    PlanWithoutOverride(argument, reserved);
  }

  /** The parse with the override flag set, whatever it was. */
  function WithOverride(plan: Outcome<Plan>): (r: Outcome<Plan>)
    ensures r.Normal? && r.value.Store? ==> r.value.overrideAlias
  {
    if plan.Normal? && plan.value.Store? then Normal(plan.value.(overrideAlias := true)) else plan
  }

  lemma PlanNameFlag(counts: ArgumentCount, argument: string, reserved: set<string>)
    ensures PlanName(true, counts, argument, reserved) == WithOverride(PlanName(false, counts, argument, reserved))
  {
  }

  lemma PlanAfterOverrideFlag(argument: string, reserved: set<string>)
    ensures PlanAfterOverride(true, argument, reserved) == WithOverride(PlanAfterOverride(false, argument, reserved))
  {
    if StartsWith(argument, ArgsPrefix) {
      var m := FindNargs(UntilSpace(argument));
      if m.Some? && ArgumentCounts(m.value.value).Some? {
        PlanNameFlag(ArgumentCounts(m.value.value).value, Trim(Trim(RemovePrefix(argument, NargsKey + m.value.value))), reserved);
      }
    } else {
      PlanNameFlag(ArgumentCount(0, 0), Trim(argument), reserved);
    }
  }

  /** A leading `!` only sets the override flag: after it is stripped the
      rest is parsed as if it had stood alone. */
  lemma OverrideOnlySetsFlag(argument: string, rest: string, reserved: set<string>)
    requires Trim(argument) == OverridePrefix + rest
    requires !StartsWith(Trim(rest), OverridePrefix)
    ensures AddAliasPlan(argument, reserved) == WithOverride(AddAliasPlan(rest, reserved))
  {
    assert StartsWith(Trim(argument), OverridePrefix);
    assert RemovePrefix(Trim(argument), OverridePrefix) == rest;
    PlanAfterOverrideFlag(Trim(rest), reserved);
  }

  lemma EmptyTextThrows(overrideAlias: bool, reserved: set<string>)
    ensures PlanAfterOverride(overrideAlias, [], reserved) == Threw(IndexOutOfBounds)
  {
    assert Trim([]) == [];
    assert !StartsWith([], ArgsPrefix);
    assert UntilSpace([]) == [];
  }

  /** A name the parse cannot find makes `alias[0]` throw. */
  lemma EmptyNameThrows(argument: string, reserved: set<string>)
    requires Trim(argument) == OverridePrefix
    ensures AddAliasPlan(argument, reserved) == Threw(IndexOutOfBounds)
  {
    assert RemovePrefix(Trim(argument), OverridePrefix) == [];
    assert Trim([]) == [];
    EmptyTextThrows(true, reserved);
  }

  /** Whitespace around the argument does not change the parse. */
  lemma PlanIgnoresOuterWhitespace(argument: string, reserved: set<string>)
    ensures AddAliasPlan(Trim(argument), reserved) == AddAliasPlan(argument, reserved)
  {
    TrimIdempotent(argument);
  }

  /** `-nargs=V Name text` stores Name for text with the bounds V gives,
      or is refused when V is not a count the command accepts. */
  lemma DefinitionParsed(value: string, name: string, text: string, reserved: set<string>)
    requires NargsValue(value) == Some(value)
    requires name != [] && ' ' !in name && IsUpperCase(name[0]) && name !in reserved
    requires text != [] && IsTrimmed(text)
    ensures ArgumentCounts(value).None? ==>
      AddAliasPlan(NargsKey + value + " " + name + " " + text, reserved) == Normal(Reject(InvalidNumberOfArguments))
    ensures ArgumentCounts(value).Some? ==>
      AddAliasPlan(NargsKey + value + " " + name + " " + text, reserved)
        == Normal(Store(false, name, ArgumentCounts(value).value, text))
  {
    var afterName := name + " " + text;
    assert afterName[0] == name[0] && afterName[|afterName| - 1] == text[|text| - 1];
    assert IsTrimmed(afterName);
    var argument := NargsKey + value + " " + afterName;
    assert argument == NargsKey + value + " " + name + " " + text;
    NargsSpecifierParsed(argument, value, afterName, reserved);
    if ArgumentCounts(value).Some? {
      NameAndReplacementParsed(false, ArgumentCounts(value).value, name, text, reserved);
    }
  }

  /** A `-nargs=` specifier whose value the pattern does not accept is
      refused with E176, whatever follows it. */
  lemma MalformedNargsRefused(argument: string, v: string, reserved: set<string>)
    requires UntilSpace(Trim(argument)) == NargsKey + v
    requires NargsValue(v).None?
    requires forall i :: 0 <= i <= |v| ==> !StartsWith(v[i..], NargsKey)
    ensures AddAliasPlan(argument, reserved) == Normal(Reject(InvalidNumberOfArguments))
  {
    var a := Trim(argument);
    var t := NargsKey + v;
    assert a[..|t|] == t;
    assert a[0] == '-' && a[..|ArgsPrefix|] == t[..|ArgsPrefix|] == ArgsPrefix;
    assert !StartsWith(a, OverridePrefix) && StartsWith(a, ArgsPrefix);
    RefusedValueNotFound(v);
  }

  /** For example `:command -nargs=x Foo bar`. */
  lemma MalformedNargsExample(reserved: set<string>)
    ensures AddAliasPlan("-nargs=x Foo bar", reserved) == Normal(Reject(InvalidNumberOfArguments))
  {
    var v, rest := "x", "Foo bar";
    var argument := NargsKey + v + " " + rest;
    assert argument == "-nargs=x Foo bar";
    assert IsTrimmed(rest) by {
      assert rest[0] == 'F' && rest[|rest| - 1] == 'r';
    }
    assert NargsValue(v).None? by {
      assert LeadingDigits(v) == [];
    }
    NargsTextTrimmed(argument, v, rest);
    SplitAtSpace(NargsKey + v, rest);
    MalformedNargsRefused(argument, v, reserved);
  }

  /** A first word that starts with `-nargs` but holds no `-nargs=`, such
      as the bare `-nargs` of `:command -nargs Foo bar`, is refused with
      E176. */
  lemma BareNargsRefused(argument: string, word: string, reserved: set<string>)
    requires UntilSpace(Trim(argument)) == word && StartsWith(word, ArgsPrefix)
    requires forall i :: 0 <= i <= |word| ==> !StartsWith(word[i..], NargsKey)
    ensures AddAliasPlan(argument, reserved) == Normal(Reject(InvalidNumberOfArguments))
  {
    var a := Trim(argument);
    var t := word;
    assert a[..|t|] == t;
    assert a[0] == '-' && a[..|ArgsPrefix|] == t[..|ArgsPrefix|] == ArgsPrefix;
    assert !StartsWith(a, OverridePrefix) && StartsWith(a, ArgsPrefix);
    forall q | 0 <= q <= |t|
      ensures NargsValueAt(t, q).None?
    {
      assert !StartsWith(t[q..], NargsKey);
    }
    NoNargsFound(t, 0);
  }

  /** `! text`, with text trimmed and not itself marked, parses as text
      with the override flag set. */
  lemma OverrideMarkParsed(text: string, reserved: set<string>)
    requires text != [] && IsTrimmed(text) && !StartsWith(text, OverridePrefix)
    ensures AddAliasPlan(OverridePrefix + " " + text, reserved) == WithOverride(AddAliasPlan(text, reserved))
  {
    var argument := OverridePrefix + " " + text;
    assert argument == OverridePrefix + (" " + text);
    assert argument[0] == '!' && argument[|argument| - 1] == text[|text| - 1];
    TrimmedUnchanged(argument);
    TrimAfterSpace(text);
    OverrideOnlySetsFlag(argument, " " + text, reserved);
    PlanIgnoresOuterWhitespace(" " + text, reserved);
  }

  lemma DefinitionTextFacts(value: string, name: string, text: string)
    requires text != [] && IsTrimmed(text)
    ensures var inner := NargsKey + value + " " + name + " " + text;
      && inner != [] && IsTrimmed(inner) && !StartsWith(inner, OverridePrefix)
      && OverridePrefix + " " + NargsKey + value + " " + name + " " + text == OverridePrefix + " " + inner
  {
    var inner := NargsKey + value + " " + name + " " + text;
    assert inner[0] == '-' && inner[|inner| - 1] == text[|text| - 1];
  }

  /** `:command! -nargs=V Name text` stores Name for text with the bounds
      V gives, replacing an existing Name. */
  lemma OverridingDefinitionParsed(value: string, name: string, text: string, reserved: set<string>)
    requires NargsValue(value) == Some(value) && ArgumentCounts(value).Some?
    requires name != [] && ' ' !in name && IsUpperCase(name[0]) && name !in reserved
    requires text != [] && IsTrimmed(text)
    ensures AddAliasPlan(OverridePrefix + " " + NargsKey + value + " " + name + " " + text, reserved)
      == Normal(Store(true, name, ArgumentCounts(value).value, text))
  {
    var inner := NargsKey + value + " " + name + " " + text;
    DefinitionTextFacts(value, name, text);
    DefinitionParsed(value, name, text, reserved);
    OverrideMarkParsed(inner, reserved);
  }

  // ---------------------------------------------------------------------
  // Properties of the listing

  /** The listing holds one line for each alias whose name the filter keeps,
      and no other line, sorted case-insensitively. */
  lemma ListLinesExact(aliases: map<string, CommandAlias>, order: seq<string>, filter: string)
    requires Enumerates(order, aliases)
    ensures SortedIgnoreCase(ListLines(aliases, order, filter))
    ensures multiset(ListLines(aliases, order, filter)) == multiset(Lines(aliases, Matching(order, filter)))
    ensures Distinct(Matching(order, filter))
    ensures forall line :: line in ListLines(aliases, order, filter) <==>
      exists k :: k in aliases && (filter == [] || StartsWith(k, filter)) && line == AliasLine(k, aliases[k])
  {
    var keys := Matching(order, filter);
    var unsorted := Lines(aliases, keys);
    SortIgnoreCaseCorrect(unsorted);
    MatchingDistinct(order, filter);
    forall line
      ensures line in ListLines(aliases, order, filter) <==>
        exists k :: k in aliases && (filter == [] || StartsWith(k, filter)) && line == AliasLine(k, aliases[k])
    {
      calc {
        line in ListLines(aliases, order, filter);
        line in multiset(ListLines(aliases, order, filter));
        line in multiset(unsorted);
        line in unsorted;
      }
      if line in unsorted {
        var i :| 0 <= i < |unsorted| && unsorted[i] == line;
        assert keys[i] in keys;
      }
      if exists k :: k in aliases && (filter == [] || StartsWith(k, filter)) && line == AliasLine(k, aliases[k]) {
        var k :| k in aliases && (filter == [] || StartsWith(k, filter)) && line == AliasLine(k, aliases[k]);
        assert k in keys;
        var i :| 0 <= i < |keys| && keys[i] == k;
        assert unsorted[i] == line;
      }
    }
  }

  /** Three fields padded to 12 and 11 columns. */
  lemma PaddedColumns(first: string, second: string, third: string)
    requires |first| <= NameWidth && |second| <= ArgsWidth
    ensures var line := PadEnd(first, NameWidth) + PadEnd(second, ArgsWidth) + third;
      && |line| == NameWidth + ArgsWidth + |third|
      && line[..|first|] == first
      && (forall k :: |first| <= k < NameWidth ==> line[k] == ' ')
      && line[NameWidth..NameWidth + |second|] == second
      && (forall k :: NameWidth + |second| <= k < NameWidth + ArgsWidth ==> line[k] == ' ')
      && line[NameWidth + ArgsWidth..] == third
  {
    var a := PadEnd(first, NameWidth);
    var b := PadEnd(second, ArgsWidth);
    var line := a + b + third;
    assert line[..NameWidth] == a;
    assert line[NameWidth..NameWidth + ArgsWidth] == b;
    assert line[NameWidth + ArgsWidth..] == third;
    assert line[..|first|] == a[..|first|];
    assert line[NameWidth..NameWidth + |second|] == b[..|second|];
    forall k | |first| <= k < NameWidth
      ensures line[k] == ' '
    {
      assert line[k] == a[k];
    }
    forall k | NameWidth + |second| <= k < NameWidth + ArgsWidth
      ensures line[k] == ' '
    {
      assert line[k] == b[k - NameWidth];
    }
  }

  /** The columns of a listing line: the name, padded with spaces to column
      12 where the header's "Args" starts, the argument count, padded to
      column 23 where "Definition" starts, and the definition. */
  lemma AliasLineColumns(name: string, alias: CommandAlias)
    requires |name| <= NameWidth && |NumberOfArguments(alias)| <= ArgsWidth
    ensures var line := AliasLine(name, alias);
      var args := NumberOfArguments(alias);
      && |line| == NameWidth + ArgsWidth + |PrintValue(alias)|
      && line[..|name|] == name
      && (forall k :: |name| <= k < NameWidth ==> line[k] == ' ')
      && line[NameWidth..NameWidth + |args|] == args
      && (forall k :: NameWidth + |args| <= k < NameWidth + ArgsWidth ==> line[k] == ' ')
      && line[NameWidth + ArgsWidth..] == PrintValue(alias)
  {
    PaddedColumns(name, NumberOfArguments(alias), PrintValue(alias));
  }

  // ---------------------------------------------------------------------
  // Properties of the effect on the registry

  /** A blank argument lists every alias and changes nothing. */
  lemma BlankArgumentListsEverything(argument: string, reserved: set<string>, aliases: map<string, CommandAlias>, order: seq<string>)
    requires Enumerates(order, aliases)
    requires Trim(argument) == []
    ensures CommandEffect(argument, reserved, aliases, order) == Normal(Effect(true, aliases, Output(Listing(aliases, order, ""))))
    ensures forall line :: line in ListLines(aliases, order, "") <==> exists k :: k in aliases && line == AliasLine(k, aliases[k])
  {
    ListLinesExact(aliases, order, "");
  }

  /** Only a stored definition changes the registry, and then only at its
      name; a taken name without `!` is refused. */
  lemma StoreChangesOnlyItsName(plan: Outcome<Plan>, aliases: map<string, CommandAlias>, order: seq<string>)
    requires Enumerates(order, aliases)
    ensures var e := EffectOf(plan, aliases, order);
      && (e.Normal? && e.value.aliases != aliases ==> plan.Normal? && plan.value.Store? && e.value.succeeded)
      && (plan.Normal? && plan.value.Store? ==>
            var name := plan.value.name;
            if !plan.value.overrideAlias && name in aliases then
              e == Normal(Effect(false, aliases, Message(AlreadyExists)))
            else
              && e.Normal? && e.value.succeeded
              && name in e.value.aliases
              && e.value.aliases[name] == Ex(plan.value.counts.min, plan.value.counts.max, name, plan.value.replacement)
              && (forall k :: k != name ==> (k in e.value.aliases <==> k in aliases))
              && (forall k :: k != name && k in aliases ==> e.value.aliases[k] == aliases[k]))
  {
  }

  /** Storing the same definition twice with `!` leaves the registry as the
      first store left it. */
  lemma OverridingDefinitionIdempotent(plan: Outcome<Plan>, aliases: map<string, CommandAlias>,
                                       order: seq<string>, later: seq<string>)
    requires Enumerates(order, aliases)
    requires plan.Normal? && plan.value.Store? && plan.value.overrideAlias
    ensures var first := EffectOf(plan, aliases, order);
      && first.Normal? && first.value.succeeded
      && (Enumerates(later, first.value.aliases) ==>
            EffectOf(plan, first.value.aliases, later) == Normal(Effect(true, first.value.aliases, Silent)))
  {
    var p := plan.value;
    var updated := aliases[p.name := Ex(p.counts.min, p.counts.max, p.name, p.replacement)];
    assert updated[p.name := Ex(p.counts.min, p.counts.max, p.name, p.replacement)] == updated;
  }

  /** Without `!`, a second definition of the same name is refused and the
      registry keeps the first. */
  lemma RedefinitionWithoutOverrideRefused(plan: Outcome<Plan>, aliases: map<string, CommandAlias>,
                                           order: seq<string>, later: seq<string>)
    requires Enumerates(order, aliases)
    requires plan.Normal? && plan.value.Store? && !plan.value.overrideAlias
    ensures var first := EffectOf(plan, aliases, order);
      && first.Normal?
      && (Enumerates(later, first.value.aliases) ==>
            EffectOf(plan, first.value.aliases, later) == Normal(Effect(false, first.value.aliases, Message(AlreadyExists))))
  {
  }

  // ---------------------------------------------------------------------
  // The command object

  /** A `:command` invocation with its argument text. */
  class CmdCommand {
    const argument: string

    constructor (argument: string)
      ensures this.argument == argument
    {
      this.argument := argument;
    }

    /** `processCommand`: list the aliases when the argument is blank,
        otherwise define one; the registry ends as `CommandEffect` says. */
    method ProcessCommand(commands: CommandGroup, order: seq<string>) returns (outcome: Outcome<ExecutionResult>, report: Report)
      requires Enumerates(order, commands.aliases)
      modifies commands
      ensures var e := CommandEffect(argument, commands.reserved, old(commands.aliases), order);
        && (e.Threw? ==> outcome == Threw(e.exception) && report == Silent && commands.aliases == old(commands.aliases))
        && (e.Normal? ==> outcome == Normal(ResultOfSuccess(e.value.succeeded)) && report == e.value.report && commands.aliases == e.value.aliases)
    {
      if Trim(argument) == [] {
        var listing := ListAlias(commands, order, "");
        return Normal(Success), Output(listing);
      }
      var added;
      added, report := AddAlias(commands, order);
      match added
      case Threw(e) => outcome := Threw(e);
      case Normal(succeeded) => outcome := Normal(if succeeded then Success else Error);
    }

    /** `listAlias`: the text written to the output panel is the header and
        then, one per line, the line of every alias the filter keeps, in
        case-insensitive order. */
    method ListAlias(commands: CommandGroup, order: seq<string>, filter: string) returns (listing: string)
      requires Enumerates(order, commands.aliases)
      ensures listing == Listing(commands.aliases, order, filter)
      ensures exists lines ::
        && listing == ListingHeader + Join(lines, "\n")
        && SortedIgnoreCase(lines)
        && multiset(lines) == multiset(Lines(commands.aliases, Matching(order, filter)))
        && forall line :: line in lines <==>
             exists k :: k in commands.aliases && (filter == [] || StartsWith(k, filter)) && line == AliasLine(k, commands.aliases[k])
    {
      var keys := Matching(order, filter);
      var unsorted := Lines(commands.aliases, keys);
      var lines := SortIgnoreCase(unsorted);
      listing := ListingHeader + Join(lines, "\n");
      ListLinesExact(commands.aliases, order, filter);
    }

    /** `addAlias`, step by step as the argument text is consumed. */
    method AddAlias(commands: CommandGroup, order: seq<string>) returns (outcome: Outcome<bool>, report: Report)
      requires Enumerates(order, commands.aliases)
      modifies commands
      ensures var e := AddAliasEffect(this.argument, commands.reserved, old(commands.aliases), order);
        && (e.Threw? ==> outcome == Threw(e.exception) && report == Silent && commands.aliases == old(commands.aliases))
        && (e.Normal? ==> outcome == Normal(e.value.succeeded) && report == e.value.report && commands.aliases == e.value.aliases)
    {
      var argument := Trim(this.argument);

      var overrideAlias := StartsWith(argument, OverridePrefix);
      if overrideAlias {
        argument := Trim(RemovePrefix(argument, OverridePrefix));
      }

      ghost var afterOverride := argument;
      assert AddAliasPlan(this.argument, commands.reserved) == PlanAfterOverride(overrideAlias, afterOverride, commands.reserved);

      var hasArguments := StartsWith(argument, ArgsPrefix);
      var minNumberOfArgs := 0;
      var maxNumberOfArgs := 0;
      if hasArguments {
        var trimmedInput := UntilSpace(argument);
        var pattern := FindNargs(trimmedInput);
        if pattern.None? {
          assert PlanAfterOverride(overrideAlias, afterOverride, commands.reserved) == Normal(Reject(InvalidNumberOfArguments));
          return Normal(false), Message(InvalidNumberOfArguments);
        }
        var nargForTrim := NargsKey + pattern.value.value;
        var argumentValue := pattern.value.value;
        var argNum := ToIntOrNull(argumentValue);
        if argNum.None? {
          if argumentValue == AnyNumberOfArguments {
            minNumberOfArgs := 0;
            maxNumberOfArgs := -1;
          } else if argumentValue == ZeroOrOneArguments {
            maxNumberOfArgs := 1;
          } else if argumentValue == MoreThanZeroArguments {
            minNumberOfArgs := 1;
            maxNumberOfArgs := -1;
          } else {
            assert ArgumentCounts(argumentValue) == None;
            assert PlanAfterOverride(overrideAlias, afterOverride, commands.reserved) == Normal(Reject(InvalidNumberOfArguments));
            return Normal(false), Message(InvalidNumberOfArguments);
          }
        } else {
          if argNum.value > 1 || argNum.value < 0 {
            assert ArgumentCounts(argumentValue) == None;
            assert PlanAfterOverride(overrideAlias, afterOverride, commands.reserved) == Normal(Reject(InvalidNumberOfArguments));
            return Normal(false), Message(InvalidNumberOfArguments);
          }
          minNumberOfArgs := argNum.value;
          maxNumberOfArgs := argNum.value;
        }
        assert ArgumentCounts(argumentValue) == Some(ArgumentCount(minNumberOfArgs, maxNumberOfArgs));
        argument := Trim(RemovePrefix(argument, nargForTrim));
      }

      argument := Trim(argument);
      assert AddAliasPlan(this.argument, commands.reserved)
        == PlanName(overrideAlias, ArgumentCount(minNumberOfArgs, maxNumberOfArgs), argument, commands.reserved);
      outcome, report := DefineAlias(commands, order, overrideAlias, minNumberOfArgs, maxNumberOfArgs, argument);
    }

    /** The rest of `addAlias`: the name is the text up to the first space
        and the remainder, trimmed, is what it stands for. */
    method DefineAlias(commands: CommandGroup, order: seq<string>, overrideAlias: bool,
                       minNumberOfArgs: int, maxNumberOfArgs: int, text: string)
      returns (outcome: Outcome<bool>, report: Report)
      requires Enumerates(order, commands.aliases)
      modifies commands
      ensures var e := EffectOf(PlanName(overrideAlias, ArgumentCount(minNumberOfArgs, maxNumberOfArgs), text, commands.reserved),
                                old(commands.aliases), order);
        && (e.Threw? ==> outcome == Threw(e.exception) && report == Silent && commands.aliases == old(commands.aliases))
        && (e.Normal? ==> outcome == Normal(e.value.succeeded) && report == e.value.report && commands.aliases == e.value.aliases)
    {
      ghost var counts := ArgumentCount(minNumberOfArgs, maxNumberOfArgs);
      ghost var plan := PlanName(overrideAlias, counts, text, commands.reserved);
      var argument := text;
      var alias := UntilSpace(argument);
      argument := Trim(RemovePrefix(argument, alias));

      if alias == [] {
        assert plan == Threw(IndexOutOfBounds);
        return Threw(IndexOutOfBounds), Silent;
      }
      if !IsUpperCase(alias[0]) {
        assert plan == Normal(Reject(NotUppercase));
        return Normal(false), Message(NotUppercase);
      }
      if alias in commands.reserved {
        assert plan == Normal(Reject(ReservedName));
        return Normal(false), Message(ReservedName);
      }

      if argument == [] {
        assert plan == Normal(ListAliases(alias));
        var listing := ListAlias(commands, order, alias);
        return Normal(true), Output(listing);
      }

      assert plan == Normal(Store(overrideAlias, alias, counts, argument));
      if !overrideAlias && alias in commands.aliases {
        return Normal(false), Message(AlreadyExists);
      }

      commands.SetAlias(alias, Ex(minNumberOfArgs, maxNumberOfArgs, alias, argument));
      return Normal(true), Silent;
    }
  }
}
