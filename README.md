# IdeaVim Vimscript: `:command` aliases, alias resolution, `while` loops

This project models three pieces of IdeaVim's Vimscript interpreter and proves
properties of the models.

- **`:command`** (`CmdCommand`). With a blank argument it lists the
  user-defined command aliases. Otherwise it reads `[!] [-nargs=V] Name text`:
  - the `!` marker allows replacing an existing alias;
  - the `-nargs` value gives the bounds on the alias's argument count;
  - the name must start with an uppercase letter and must not be reserved.

  It then lists the aliases the name prefixes (when no text follows), or
  refuses the definition with a message, or stores `Ex(min, max, Name, text)`
  in the alias registry. The listing filters the registry by prefix, pads
  name and count to 12 and 11 columns, sorts the lines case-insensitively and
  writes them under a header.
- **Unknown commands** (`UnknownCommand`). A command the parser has no rule
  for is taken to be an alias:
  - Ex text is parsed and either run, or expanded again when it is itself
    unknown, at most 100 times (`MAX_RECURSION`);
  - a plugin handler is run;
  - a text that is not an alias throws `E492: Not an editor command`;
  - running out of the countdown returns `Error`.
- **`while`** (`WhileLoop.execute`). Every body statement is linked to the
  loop first. Then the condition is evaluated, and the statements run in
  order while each returns Success. `Break` ends the loop with Success,
  `Continue` starts the next iteration, and `Error` ends the loop with Error.

Layout:
- `kotlin_text.dfy` holds the Kotlin string operations the code relies on: `trim`,
  `startsWith`, `removePrefix`, `takeWhile`/`split(" ")[0]`, `padEnd`,
  `toIntOrNull`, `joinToString`, and a sort by
  `String.CASE_INSENSITIVE_ORDER`.
- `aliases.dfy` holds the alias value and the registry class.
- `execution.dfy` holds execution results, nodes with a `parent` field, and
  exceptions as values.
- Each of the three pieces has its own file.

How each piece is modelled:
- Each command is a class whose methods follow the Kotlin step by step, and
  each method is proved equal to a specification function.
  - `AddAliasPlan` and `EffectOf` specify `addAlias`.
  - `Resolve` specifies `processPossiblyAliasCommand`.
  - `Loop` specifies the `while`.
- Lemmas about these functions state what the code promises.
- An exception is a value (`Outcome.Threw`). This includes the
  `StringIndexOutOfBoundsException` raised by `alias[0]` when the name is
  empty (`:command !` alone, for example).
- As in the code, the reserved-name check is an exact, case-sensitive `in`
  test, and the name ends at the first ASCII space (`split(" ")`), not at any
  whitespace.
- A value `-nargs` cannot hold in an Int (`-nargs=99999999999`) is refused
  through the `else` branch that the source's comment calls unreachable;
  `OverflowingArgumentCount` shows it is reachable.

## Model

| member | source | states |
|---|---|---|
| `CmdCommands.CmdCommand.constructor` | src/main/java/com/maddyhome/idea/vim/vimscript/model/commands/CmdCommand.kt:36 | the command keeps its argument text |
| `CmdCommands.CmdCommand.ProcessCommand` | src/main/java/com/maddyhome/idea/vim/vimscript/model/commands/CmdCommand.kt:50-57 | a blank argument lists all aliases, anything else goes to `addAlias`; the result is Success exactly when that succeeded, exceptions propagate, and the registry ends as `CommandEffect` says |
| `CmdCommands.CmdCommand.ListAlias` | src/main/java/com/maddyhome/idea/vim/vimscript/model/commands/CmdCommand.kt:59-69 | the text written out is the header and then lines joined by newlines; those lines are sorted case-insensitively, are a permutation of the lines of the aliases the filter keeps, and a line is there exactly when it is the line of some alias whose name the filter keeps (every name for an empty filter, else the names starting with it) |
| `CmdCommands.CmdCommand.AddAlias` | src/main/java/com/maddyhome/idea/vim/vimscript/model/commands/CmdCommand.kt:71-131 | consuming `!` and `-nargs` step by step yields the outcome, message and registry that `AddAliasEffect` gives; each `-nargs` failure returns false with E176 and leaves the registry alone |
| `CmdCommands.CmdCommand.DefineAlias` | src/main/java/com/maddyhome/idea/vim/vimscript/model/commands/CmdCommand.kt:133-172 | name, reserved, empty-text and already-exists checks in source order, then `setAlias`; the registry changes only on that last path |
| `Aliases.CommandGroup.SetAlias` | src/main/java/com/maddyhome/idea/vim/vimscript/model/commands/CmdCommand.kt:170 | the name maps to the new alias whether or not it existed; every other name keeps its alias |
| `CmdCommands.LeadingDigits` | src/main/java/com/maddyhome/idea/vim/vimscript/model/commands/CmdCommand.kt:88 | `\d+` is greedy: a prefix of digits not followed by a digit |
| `CmdCommands.NargsValue` | src/main/java/com/maddyhome/idea/vim/vimscript/model/commands/CmdCommand.kt:88 | the value group matches a nonempty, space-free prefix of the text |
| `CmdCommands.NargsValueAt` | src/main/java/com/maddyhome/idea/vim/vimscript/model/commands/CmdCommand.kt:88-93 | a match at p spells `-nargs=` followed by the value group inside the text |
| `CmdCommands.FindNargsFrom` | src/main/java/com/maddyhome/idea/vim/vimscript/model/commands/CmdCommand.kt:88 | a reported match starts at or after the search position and within the text |
| `CmdCommands.FindNargs` | src/main/java/com/maddyhome/idea/vim/vimscript/model/commands/CmdCommand.kt:88 | `Regex(...).find(trimmedInput)`: the leftmost match from the start; `FoundNargsMatches`, `FoundNargsLeftmost` and `NoNargsFound` state its meaning |
| `CmdCommands.FoundNargsMatches` | src/main/java/com/maddyhome/idea/vim/vimscript/model/commands/CmdCommand.kt:88-93 | what `Regex.find` reports is a match of the pattern at the reported start |
| `CmdCommands.FoundNargsLeftmost` | src/main/java/com/maddyhome/idea/vim/vimscript/model/commands/CmdCommand.kt:88 | no match begins before the reported one, and none at all when nothing is reported |
| `CmdCommands.NargsTokenFound` | src/main/java/com/maddyhome/idea/vim/vimscript/model/commands/CmdCommand.kt:87-93 | a token `-nargs=V` is found at position 0 with value V |
| `CmdCommands.NoNargsFound` | src/main/java/com/maddyhome/idea/vim/vimscript/model/commands/CmdCommand.kt:88 | `find` reports nothing when no position holds a match |
| `CmdCommands.RefusedValueNotFound` | src/main/java/com/maddyhome/idea/vim/vimscript/model/commands/CmdCommand.kt:88 | `-nargs=v` with a value the group refuses (and no `-nargs=` inside v) holds no match anywhere |
| `CmdCommands.ArgumentCounts` | src/main/java/com/maddyhome/idea/vim/vimscript/model/commands/CmdCommand.kt:94-125 | accepted bounds always have minimum 0 or 1 and a maximum of -1 or at least the minimum and at most 1 |
| `CmdCommands.SymbolicArgumentCounts` | src/main/java/com/maddyhome/idea/vim/vimscript/model/commands/CmdCommand.kt:97-106 | `*` gives (0, -1), `?` gives (0, 1), `+` gives (1, -1) |
| `CmdCommands.NumericArgumentCounts` | src/main/java/com/maddyhome/idea/vim/vimscript/model/commands/CmdCommand.kt:116-124 | a number n gives (n, n) when 0 ≤ n ≤ 1 and is refused otherwise, negative numbers included |
| `CmdCommands.OverflowingArgumentCount` | src/main/java/com/maddyhome/idea/vim/vimscript/model/commands/CmdCommand.kt:94-114 | a digit string beyond Int's range is refused |
| `CmdCommands.ArgumentCountsRoundTrip` | src/main/java/com/maddyhome/idea/vim/vimscript/model/commands/CmdCommand.kt:65 | the "Args" column of a listed alias, read back as a `-nargs` value, gives the alias's bounds |
| `CmdCommands.PlanName` | src/main/java/com/maddyhome/idea/vim/vimscript/model/commands/CmdCommand.kt:137-158 | it throws exactly when the name is empty; it refuses only with E183 or E841; a stored or listed name is the text before the first space, starts uppercase and is not reserved; the stored replacement is nonempty and trimmed |
| `CmdCommands.PlanAfterOverride` | src/main/java/com/maddyhome/idea/vim/vimscript/model/commands/CmdCommand.kt:81-131 | after `!` only the name step can throw; a stored name is valid and space-free and the flag is the override flag |
| `CmdCommands.PlanWithCounts` | src/main/java/com/maddyhome/idea/vim/vimscript/model/commands/CmdCommand.kt:94-126 | the definition is refused with E176 if and only if the `-nargs` value is not accepted; a stored alias carries that value's bounds, the override flag and the name before the first space of the rest |
| `CmdCommands.AddAliasPlan` | src/main/java/com/maddyhome/idea/vim/vimscript/model/commands/CmdCommand.kt:72-158 | it throws only `IndexOutOfBounds`; a stored definition carries the override flag exactly when the trimmed argument starts with `!`, plus a valid name and a nonempty trimmed text |
| `CmdCommands.PlanWithoutOverride` | src/main/java/com/maddyhome/idea/vim/vimscript/model/commands/CmdCommand.kt:72-81 | a trimmed argument without `!` goes to the `-nargs` step unchanged and with the flag off |
| `CmdCommands.PlanAfterNargs` | src/main/java/com/maddyhome/idea/vim/vimscript/model/commands/CmdCommand.kt:84-126 | a `-nargs` match at the front decides the bounds from its value, and the rest, trimmed, goes to the name step |
| `CmdCommands.NoNargsNoArguments` | src/main/java/com/maddyhome/idea/vim/vimscript/model/commands/CmdCommand.kt:81-83 | without `-nargs` the bounds are (0, 0) |
| `CmdCommands.NargsTextSplits` | src/main/java/com/maddyhome/idea/vim/vimscript/model/commands/CmdCommand.kt:87-126 | in `-nargs=V rest` the text before the first space is the token, and removing the match leaves a space and the rest |
| `CmdCommands.NargsTextTrimmed` | src/main/java/com/maddyhome/idea/vim/vimscript/model/commands/CmdCommand.kt:72-81 | `-nargs=V rest` is already trimmed, has no `!` and starts with `-nargs` |
| `CmdCommands.NargsTextFacts` | src/main/java/com/maddyhome/idea/vim/vimscript/model/commands/CmdCommand.kt:81-126 | on `-nargs=V rest` the match is V at position 0 and what remains after the trims is the rest |
| `CmdCommands.NargsSpecifierParsed` | src/main/java/com/maddyhome/idea/vim/vimscript/model/commands/CmdCommand.kt:72-138 | `-nargs=V rest` parses as V's bounds (or refusal) applied to the rest |
| `CmdCommands.NameAndReplacementParsed` | src/main/java/com/maddyhome/idea/vim/vimscript/model/commands/CmdCommand.kt:137-158 | `Name text` with a valid name and trimmed text stores Name for text |
| `CmdCommands.LowercaseNameRefused` | src/main/java/com/maddyhome/idea/vim/vimscript/model/commands/CmdCommand.kt:141-144 | a name not starting with an uppercase letter is refused with E183, whatever follows |
| `CmdCommands.ReservedNameRefused` | src/main/java/com/maddyhome/idea/vim/vimscript/model/commands/CmdCommand.kt:146-149 | a reserved name is refused with E841, whatever follows |
| `CmdCommands.NameAloneLists` | src/main/java/com/maddyhome/idea/vim/vimscript/model/commands/CmdCommand.kt:151-158 | a valid name with no text lists the aliases it prefixes |
| `CmdCommands.WithOverride` | src/main/java/com/maddyhome/idea/vim/vimscript/model/commands/CmdCommand.kt:75-78 | the override flag is on for every stored definition |
| `CmdCommands.PlanNameFlag` | src/main/java/com/maddyhome/idea/vim/vimscript/model/commands/CmdCommand.kt:137-170 | the override flag changes nothing in the name step but the flag stored |
| `CmdCommands.PlanAfterOverrideFlag` | src/main/java/com/maddyhome/idea/vim/vimscript/model/commands/CmdCommand.kt:81-170 | nor in the `-nargs` step |
| `CmdCommands.OverrideOnlySetsFlag` | src/main/java/com/maddyhome/idea/vim/vimscript/model/commands/CmdCommand.kt:75-78 | a leading `!` is stripped and the rest is parsed as if it stood alone, with the override flag set |
| `CmdCommands.OverrideMarkParsed` | src/main/java/com/maddyhome/idea/vim/vimscript/model/commands/CmdCommand.kt:72-78 | `! text` parses as text with the override flag set |
| `CmdCommands.EmptyTextThrows` | src/main/java/com/maddyhome/idea/vim/vimscript/model/commands/CmdCommand.kt:137-141 | an empty text after `!` reaches `alias[0]` on an empty name and throws |
| `CmdCommands.EmptyNameThrows` | src/main/java/com/maddyhome/idea/vim/vimscript/model/commands/CmdCommand.kt:72-141 | an argument that trims to `!` throws at `alias[0]` |
| `CmdCommands.PlanIgnoresOuterWhitespace` | src/main/java/com/maddyhome/idea/vim/vimscript/model/commands/CmdCommand.kt:72 | whitespace around the argument does not change the parse |
| `CmdCommands.DefinitionParsed` | src/main/java/com/maddyhome/idea/vim/vimscript/model/commands/CmdCommand.kt:81-158 | `-nargs=V Name text` stores Name for text with V's bounds, or is refused with E176 |
| `CmdCommands.MalformedNargsRefused` | src/main/java/com/maddyhome/idea/vim/vimscript/model/commands/CmdCommand.kt:84-91 | a `-nargs=` specifier whose value the pattern does not accept is refused with E176, whatever follows it |
| `CmdCommands.MalformedNargsExample` | src/main/java/com/maddyhome/idea/vim/vimscript/model/commands/CmdCommand.kt:84-91 | `:command -nargs=x Foo bar` is refused with E176 |
| `CmdCommands.BareNargsRefused` | src/main/java/com/maddyhome/idea/vim/vimscript/model/commands/CmdCommand.kt:84-91 | a first word that starts with `-nargs` but holds no `-nargs=` (a bare `-nargs Foo bar`, say) is refused with E176 |
| `CmdCommands.OverridingDefinitionParsed` | src/main/java/com/maddyhome/idea/vim/vimscript/model/commands/CmdCommand.kt:72-158 | `! -nargs=V Name text` stores Name for text with V's bounds and the override flag |
| `CmdCommands.Matching` | src/main/java/com/maddyhome/idea/vim/vimscript/model/commands/CmdCommand.kt:62-63 | a key is kept exactly when the filter is empty or the key starts with it |
| `CmdCommands.MatchingDistinct` | src/main/java/com/maddyhome/idea/vim/vimscript/model/commands/CmdCommand.kt:61-63 | filtering a duplicate-free key list keeps it duplicate-free |
| `CmdCommands.Lines` | src/main/java/com/maddyhome/idea/vim/vimscript/model/commands/CmdCommand.kt:64-65 | one line per key, in the keys' order, each the line of that key's alias |
| `CmdCommands.AliasLine` | src/main/java/com/maddyhome/idea/vim/vimscript/model/commands/CmdCommand.kt:65 | one listing line: name padded to 12, argument count padded to 11, then the definition; `AliasLineColumns` states the columns |
| `CmdCommands.ListLines` | src/main/java/com/maddyhome/idea/vim/vimscript/model/commands/CmdCommand.kt:62-66 | filter, map, then `sortedWith(CASE_INSENSITIVE_ORDER)`; `ListLinesExact` states that the result is sorted, a permutation of the kept lines, and holds exactly the kept aliases' lines |
| `CmdCommands.Listing` | src/main/java/com/maddyhome/idea/vim/vimscript/model/commands/CmdCommand.kt:66-67 | the header, then the lines joined by `\n`; `CmdCommand.ListAlias` states its contents |
| `CmdCommands.EffectOf` | src/main/java/com/maddyhome/idea/vim/vimscript/model/commands/CmdCommand.kt:151-172 | the registry step after parsing: Reject reports its message, a name alone lists, and a store is refused with E174 for a taken name without `!`; `StoreChangesOnlyItsName`, `OverridingDefinitionIdempotent` and `RedefinitionWithoutOverrideRefused` state its effect |
| `CmdCommands.AddAliasEffect` | src/main/java/com/maddyhome/idea/vim/vimscript/model/commands/CmdCommand.kt:71-173 | `addAlias` as the parse followed by the registry step; `CmdCommand.AddAlias` is proved equal to it |
| `CmdCommands.CommandEffect` | src/main/java/com/maddyhome/idea/vim/vimscript/model/commands/CmdCommand.kt:50-57 | `processCommand`: a blank argument lists everything, else `addAlias`; `BlankArgumentListsEverything` and `CmdCommand.ProcessCommand` state it |
| `CmdCommands.ResultOfSuccess` | src/main/java/com/maddyhome/idea/vim/vimscript/model/commands/CmdCommand.kt:56 | `if (result) Success else Error` |
| `CmdCommands.ListLinesExact` | src/main/java/com/maddyhome/idea/vim/vimscript/model/commands/CmdCommand.kt:59-66 | the listing lines are sorted case-insensitively and are a permutation of the filtered lines; a line is listed exactly when some alias whose name the filter keeps has that line |
| `CmdCommands.PaddedColumns` | src/main/java/com/maddyhome/idea/vim/vimscript/model/commands/CmdCommand.kt:65 | padding puts the second field at column 12 and the third at column 23, with spaces between |
| `CmdCommands.AliasLineColumns` | src/main/java/com/maddyhome/idea/vim/vimscript/model/commands/CmdCommand.kt:65-67 | a listing line holds the name, spaces to column 12, the argument count, spaces to column 23, and the definition |
| `CmdCommands.BlankArgumentListsEverything` | src/main/java/com/maddyhome/idea/vim/vimscript/model/commands/CmdCommand.kt:51-56 | a blank argument succeeds, leaves the registry alone and lists every alias |
| `CmdCommands.StoreChangesOnlyItsName` | src/main/java/com/maddyhome/idea/vim/vimscript/model/commands/CmdCommand.kt:160-172 | only a successful store changes the registry; a taken name without `!` is refused with E174; otherwise the name maps to `Ex(min, max, name, text)` and every other key is unchanged |
| `CmdCommands.OverridingDefinitionIdempotent` | src/main/java/com/maddyhome/idea/vim/vimscript/model/commands/CmdCommand.kt:160-172 | storing the same definition twice with `!` succeeds both times and leaves what the first store left |
| `CmdCommands.RedefinitionWithoutOverrideRefused` | src/main/java/com/maddyhome/idea/vim/vimscript/model/commands/CmdCommand.kt:162-165 | without `!` the second definition of a name is refused and the registry keeps the first |
| `Aliases.NumberOfArguments` | src/main/java/com/maddyhome/idea/vim/vimscript/model/commands/CmdCommand.kt:65 | the "Args" column is never empty |
| `Aliases.PrintValue` | src/main/java/com/maddyhome/idea/vim/vimscript/model/commands/CmdCommand.kt:65 | the "Definition" column: an Ex alias shows its command text, a plugin alias the printed form of its handler (reconstructed, as CommandAlias.kt is not part of this model) |
| `KotlinText.SkipWhitespace` | src/main/java/com/maddyhome/idea/vim/vimscript/model/commands/CmdCommand.kt:72 | the index found follows only whitespace and holds none |
| `KotlinText.SkipWhitespaceBack` | src/main/java/com/maddyhome/idea/vim/vimscript/model/commands/CmdCommand.kt:72 | the end found precedes only whitespace and follows none |
| `KotlinText.SkipWhitespaceUnique` | src/main/java/com/maddyhome/idea/vim/vimscript/model/commands/CmdCommand.kt:72 | the start of the trimmed text is determined by those two facts |
| `KotlinText.SkipWhitespaceBackUnique` | src/main/java/com/maddyhome/idea/vim/vimscript/model/commands/CmdCommand.kt:72 | so is its end |
| `KotlinText.Trim` | src/main/java/com/maddyhome/idea/vim/vimscript/model/commands/CmdCommand.kt:72 | `trim()` as Kotlin computes it, the text between the first and the last non-whitespace character; `TrimRemovesOnlyOuterWhitespace`, `TrimIsTrimmed`, `TrimmedUnchanged` and `TrimIdempotent` state its meaning |
| `KotlinText.IsWhitespace` | src/main/java/com/maddyhome/idea/vim/vimscript/model/commands/CmdCommand.kt:72 | `Char.isWhitespace()`, the character set `trim()` removes: the JVM's whitespace and space separators |
| `KotlinText.TrimIsTrimmed` | src/main/java/com/maddyhome/idea/vim/vimscript/model/commands/CmdCommand.kt:72 | `trim()` returns a text with no whitespace at either end |
| `KotlinText.TrimRemovesOnlyOuterWhitespace` | src/main/java/com/maddyhome/idea/vim/vimscript/model/commands/CmdCommand.kt:72 | `trim()` returns a piece of the text, and only whitespace lies before and after it |
| `KotlinText.TrimmedUnchanged` | src/main/java/com/maddyhome/idea/vim/vimscript/model/commands/CmdCommand.kt:131 | a trimmed text is unchanged by `trim()` |
| `KotlinText.TrimStartAfterWhitespace` | src/main/java/com/maddyhome/idea/vim/vimscript/model/commands/CmdCommand.kt:77 | leading whitespace shifts where the trimmed text starts by its length |
| `KotlinText.TrimEndAfterWhitespace` | src/main/java/com/maddyhome/idea/vim/vimscript/model/commands/CmdCommand.kt:77 | and where it ends |
| `KotlinText.TrimSkipsLeadingWhitespace` | src/main/java/com/maddyhome/idea/vim/vimscript/model/commands/CmdCommand.kt:77 | `trim()` ignores any whitespace put in front |
| `KotlinText.TrimIdempotent` | src/main/java/com/maddyhome/idea/vim/vimscript/model/commands/CmdCommand.kt:131 | trimming twice is trimming once, so the extra `trim()` changes nothing |
| `KotlinText.RemovePrefix` | src/main/java/com/maddyhome/idea/vim/vimscript/model/commands/CmdCommand.kt:77 | the prefix and the result make up the text when the prefix is there; otherwise the text is unchanged |
| `KotlinText.StartsWith` | src/main/java/com/maddyhome/idea/vim/vimscript/model/commands/CmdCommand.kt:63 | `startsWith(prefix)`: the prefix fits and the text's first characters are it |
| `KotlinText.UntilSpace` | src/main/java/com/maddyhome/idea/vim/vimscript/model/commands/CmdCommand.kt:137 | the longest space-free prefix |
| `KotlinText.UntilSpaceAppend` | src/main/java/com/maddyhome/idea/vim/vimscript/model/commands/CmdCommand.kt:87 | a space-free front is kept whole |
| `KotlinText.SplitAtSpace` | src/main/java/com/maddyhome/idea/vim/vimscript/model/commands/CmdCommand.kt:137-138 | `word rest` splits into the word, then a space and the rest |
| `KotlinText.TrimAfterSpace` | src/main/java/com/maddyhome/idea/vim/vimscript/model/commands/CmdCommand.kt:138 | trimming a space and a trimmed text gives that text |
| `KotlinText.PadEnd` | src/main/java/com/maddyhome/idea/vim/vimscript/model/commands/CmdCommand.kt:65 | the text followed by spaces up to the width, never cut |
| `KotlinText.IsUpperCase` | src/main/java/com/maddyhome/idea/vim/vimscript/model/commands/CmdCommand.kt:141 | `alias[0].isUpperCase()`, for ASCII letters |
| `KotlinText.Join` | src/main/java/com/maddyhome/idea/vim/vimscript/model/commands/CmdCommand.kt:66 | `joinToString(separator)`: the elements with the separator between them and none at the ends |
| `KotlinText.ToIntOrNull` | src/main/java/com/maddyhome/idea/vim/vimscript/model/commands/CmdCommand.kt:94 | a number it returns fits in an Int; `IntToStringRoundTrip` gives the converse for every Int |
| `KotlinText.IntToString` | src/main/java/com/maddyhome/idea/vim/vimscript/model/commands/CmdCommand.kt:65 | decimal rendering with a minus sign for negatives, used for the reconstructed "Args" column; `IntToStringRoundTrip` states `toIntOrNull` reads it back |
| `KotlinText.IntToStringRoundTrip` | src/main/java/com/maddyhome/idea/vim/vimscript/model/commands/CmdCommand.kt:94 | every Int printed in decimal parses back to itself |
| `KotlinText.CompareIgnoreCase` | src/main/java/com/maddyhome/idea/vim/vimscript/model/commands/CmdCommand.kt:66 | `CASE_INSENSITIVE_ORDER`: the first position whose case-folded characters differ decides, else the shorter text comes first; `CompareAntisymmetric` and `CompareTransitive` state it is an order |
| `KotlinText.CompareAntisymmetric` | src/main/java/com/maddyhome/idea/vim/vimscript/model/commands/CmdCommand.kt:66 | the case-insensitive order is antisymmetric |
| `KotlinText.CompareTransitive` | src/main/java/com/maddyhome/idea/vim/vimscript/model/commands/CmdCommand.kt:66 | and transitive |
| `KotlinText.InsertIgnoreCaseElements` | src/main/java/com/maddyhome/idea/vim/vimscript/model/commands/CmdCommand.kt:66 | insertion adds exactly the one element |
| `KotlinText.InsertIgnoreCaseSorted` | src/main/java/com/maddyhome/idea/vim/vimscript/model/commands/CmdCommand.kt:66 | insertion into a sorted sequence keeps it sorted |
| `KotlinText.SortIgnoreCase` | src/main/java/com/maddyhome/idea/vim/vimscript/model/commands/CmdCommand.kt:66 | `sortedWith(CASE_INSENSITIVE_ORDER)` as an insertion sort; `SortIgnoreCaseCorrect` states it returns a sorted permutation |
| `KotlinText.SortIgnoreCaseCorrect` | src/main/java/com/maddyhome/idea/vim/vimscript/model/commands/CmdCommand.kt:66 | `sortedWith(CASE_INSENSITIVE_ORDER)` returns a sorted permutation |
| `UnknownCommands.UnknownCommand.constructor` | src/main/java/com/maddyhome/idea/vim/vimscript/model/commands/UnknownCommand.kt:37-38 | the command keeps its name and argument, with no parent yet |
| `UnknownCommands.UnknownCommand.ProcessCommand` | src/main/java/com/maddyhome/idea/vim/vimscript/model/commands/UnknownCommand.kt:45-47 | resolves `"$name $argument"` with the countdown at 100 |
| `UnknownCommands.UnknownCommand.ProcessPossiblyAliasCommand` | src/main/java/com/maddyhome/idea/vim/vimscript/model/commands/UnknownCommand.kt:49-81 | the result is what `Resolve` gives; the node reached is linked to this command's parent and is the only object written; exactly one command or handler is run, or none on a throw or at the depth limit |
| `UnknownCommands.Resolve` | src/main/java/com/maddyhome/idea/vim/vimscript/model/commands/UnknownCommand.kt:49-81 | a text that is not an alias throws E492 naming it, whatever the countdown; an alias at countdown ≤ 0 reaches the depth limit; only the two Ex exceptions are thrown; what runs was produced by the parser or registered as a handler |
| `UnknownCommands.NotAnEditorCommand` | src/main/java/com/maddyhome/idea/vim/vimscript/model/commands/UnknownCommand.kt:79 | the E492 message, `E492: Not an editor command: ` followed by the text |
| `UnknownCommands.ResultOf` | src/main/java/com/maddyhome/idea/vim/vimscript/model/commands/UnknownCommand.kt:62-77 | Success once a command or handler ran, Error at the depth limit, exceptions passed on; `UnknownCommand.ProcessPossiblyAliasCommand` returns it |
| `UnknownCommands.AliasTextRejected` | src/main/java/com/maddyhome/idea/vim/vimscript/model/commands/UnknownCommand.kt:55-59 | an Ex alias with empty text throws the invalid-command exception, and text the parser rejects throws E492 naming that text |
| `UnknownCommands.AliasRunsItsTarget` | src/main/java/com/maddyhome/idea/vim/vimscript/model/commands/UnknownCommand.kt:59-71 | while the countdown lasts, a plugin alias runs exactly its own handler, Ex text parsed to a concrete node runs exactly that node, and Ex text parsed as unknown is resolved with the countdown lowered by one |
| `UnknownCommands.ResolveFollowsChain` | src/main/java/com/maddyhome/idea/vim/vimscript/model/commands/UnknownCommand.kt:60-61 | resolving a text is resolving what it expands to k times, with the countdown lowered by k |
| `UnknownCommands.DepthReachedExactly` | src/main/java/com/maddyhome/idea/vim/vimscript/model/commands/UnknownCommand.kt:50-77 | the depth limit is reached if and only if the alias chain goes on for the whole countdown and ends on an alias |
| `UnknownCommands.ChainLongerThanCountdown` | src/main/java/com/maddyhome/idea/vim/vimscript/model/commands/UnknownCommand.kt:51-76 | a chain longer than the countdown ends at the depth limit, so no more than countdown aliases are followed |
| `UnknownCommands.SelfReferenceReachesDepth` | src/main/java/com/maddyhome/idea/vim/vimscript/model/commands/UnknownCommand.kt:60-76 | an alias that expands to itself ends at the depth limit |
| `UnknownCommands.MutualReferenceReachesDepth` | src/main/java/com/maddyhome/idea/vim/vimscript/model/commands/UnknownCommand.kt:60-76 | so do two aliases that expand to each other |
| `WhileLoops.WhileLoop.constructor` | src/main/java/com/maddyhome/idea/vim/vimscript/model/statements/loops/WhileLoop.kt:27-28 | the loop keeps its body, with no parent yet |
| `WhileLoops.WhileLoop.Execute` | src/main/java/com/maddyhome/idea/vim/vimscript/model/statements/loops/WhileLoop.kt:30-53 | every body statement ends linked to the loop, and the result, events and termination are those of `Loop` |
| `WhileLoops.WhileLoop.LinkBody` | src/main/java/com/maddyhome/idea/vim/vimscript/model/statements/loops/WhileLoop.kt:32 | every body statement's parent is the loop, before the condition is first evaluated |
| `WhileLoops.WhileLoop.RunLoop` | src/main/java/com/maddyhome/idea/vim/vimscript/model/statements/loops/WhileLoop.kt:31-52 | the `while` with its `var result` computes `Loop` |
| `WhileLoops.WhileLoop.Iterate` | src/main/java/com/maddyhome/idea/vim/vimscript/model/statements/loops/WhileLoop.kt:34-50 | one iteration either ends the loop as `Loop` does or continues it with Success |
| `WhileLoops.WhileLoop.RunStatements` | src/main/java/com/maddyhome/idea/vim/vimscript/model/statements/loops/WhileLoop.kt:35-41 | the `for` over the body with `break` computes `RunBody` |
| `WhileLoops.RunBody` | src/main/java/com/maddyhome/idea/vim/vimscript/model/statements/loops/WhileLoop.kt:35-41 | one pass over the body: statements from i on run while each returns Success; `BodyShortCircuits` and `SuccessfulBodyRunsAll` state its meaning |
| `WhileLoops.Loop` | src/main/java/com/maddyhome/idea/vim/vimscript/model/statements/loops/WhileLoop.kt:31-52 | the whole loop within `fuel` evaluations: the events in order, the result and whether it finished; `ResultIsSuccessOrError`, `BreakEndsLoop`, `ErrorEndsLoop`, `ContinueReevaluates` and `AllSuccessRunsBodyPerTrueEvaluation` state its meaning |
| `WhileLoops.BodyShortCircuits` | src/main/java/com/maddyhome/idea/vim/vimscript/model/statements/loops/WhileLoop.kt:35-41 | statements run in order, each only after all earlier ones succeeded; the pass carries Success only when all succeeded, else the result of the last that ran |
| `WhileLoops.ResultIsSuccessOrError` | src/main/java/com/maddyhome/idea/vim/vimscript/model/statements/loops/WhileLoop.kt:31-52 | the loop never returns Break or Continue |
| `WhileLoops.FalseConditionRunsNothing` | src/main/java/com/maddyhome/idea/vim/vimscript/model/statements/loops/WhileLoop.kt:31-52 | a condition false at once runs no statement and returns Success |
| `WhileLoops.StartsWithEvaluation` | src/main/java/com/maddyhome/idea/vim/vimscript/model/statements/loops/WhileLoop.kt:34 | every iteration begins by evaluating the condition |
| `WhileLoops.NothingRunsAfterNonSuccess` | src/main/java/com/maddyhome/idea/vim/vimscript/model/statements/loops/WhileLoop.kt:35-40 | after a statement that did not succeed, no statement of that iteration runs |
| `WhileLoops.BreakEndsLoop` | src/main/java/com/maddyhome/idea/vim/vimscript/model/statements/loops/WhileLoop.kt:42-44 | a Break is the last event, and the loop then ends on its own with Success |
| `WhileLoops.ErrorEndsLoop` | src/main/java/com/maddyhome/idea/vim/vimscript/model/statements/loops/WhileLoop.kt:48-49 | an Error is the last event and the result; the loop returns Error only then |
| `WhileLoops.ContinueReevaluates` | src/main/java/com/maddyhome/idea/vim/vimscript/model/statements/loops/WhileLoop.kt:45-47 | after a Continue the condition is evaluated next, unless the fuel ran out there |
| `WhileLoops.SuccessfulBodyRunsAll` | src/main/java/com/maddyhome/idea/vim/vimscript/model/statements/loops/WhileLoop.kt:35-41 | a pass in which every statement succeeds runs them all |
| `WhileLoops.SuccessfulIteration` | src/main/java/com/maddyhome/idea/vim/vimscript/model/statements/loops/WhileLoop.kt:34-47 | such an iteration adds one true evaluation and n statements to the rest of the loop |
| `WhileLoops.AllSuccessRunsBodyPerTrueEvaluation` | src/main/java/com/maddyhome/idea/vim/vimscript/model/statements/loops/WhileLoop.kt:34-51 | when every statement succeeds, the result is Success and the body runs once per true evaluation; the condition held at each of them, and a finished loop stopped at the first false one |

## Left out

- src/main/java/com/maddyhome/idea/vim/group/ChangeGroup.kt: editor glue with no self-contained logic; ChangeGroup.kt is not part of this model.
- CommandGroup.kt and CommandAlias.kt are not part of this model. Three pieces are reconstructed from how `:command` uses them:
  - the registry as a map (`listAliases`, `hasAlias`, `setAlias`);
  - `numberOfArguments` as the `-nargs` value of the bounds;
  - `printValue` as the text.
- Aliases.NumberOfArguments: its contract only says the column is nonempty; the rendering of bounds that `-nargs` cannot produce is a guess, since CommandAlias.kt is not part of this model.
- The registry's iteration order is unknown (CommandGroup.kt is not part of this model). `listAlias` takes it as a parameter, the sequence `order`, which enumerates every key once.
- `BLACKLISTED_ALIASES`: its contents are not shown, so it is the abstract set `reserved`.
- Messages and output (`showMessage`, `indicateError`, `ExOutputModel.output`) are returned values (`Report`), not side effects. The depth-limit message and `indicateError` are not modelled, only the `Error` result.
- `isUpperCase` and `CASE_INSENSITIVE_ORDER` are modelled for ASCII letters only. Unicode case mapping is not modelled.
- `isWhitespace` is the JVM set of whitespace and space characters, listed explicitly.
- CmdCommands.CmdCommand.ProcessCommand: the `editor == null` branch of `addAlias` (lines 152-156) is not modelled. `processCommand` always passes an editor, so the branch cannot be reached from it.
- The text of the `InvalidCommandException` message (`Msg.NOT_EX_CMD`) is not modelled; the exception carries the alias text it names.
- The parser (`VimscriptParser.parseCommand`), the registry lookup (`isAlias` plus `getAliasCommand`), the loop condition (`Expression.evaluate(...).asBoolean()`) and the statements' own `execute` are foreign calls. Each is an abstract function parameter, and each run of a command or handler is reported as an `Invocation`.
- WhileLoops.WhileLoop.Execute: the loop is bounded by `fuel` condition evaluations. A run that uses them all is reported as not finished, and what an always-true condition does beyond the bound is not modelled.
- The `Editor` and `DataContext` handles are dropped.
- KotlinText.SortIgnoreCase: Kotlin's `sortedWith` is stable, and the insertion sort keeps equal lines in their input order, but no lemma states this; lines that compare equal (names differing only in case, with the same columns after them) are ordered by `order`.
- Exceptions thrown by foreign calls are not modelled. The condition, each statement's `execute` (WhileLoop.kt:34-37), a parsed command's `execute` and a handler's `execute` (UnknownCommand.kt:64, 69) always return here. In the source such an exception propagates out of `execute` or `processCommand`. So `ResultIsSuccessOrError` and `ResultOf`'s Success after an invocation hold only while those calls return normally.
- Strings are sequences of Unicode scalar values, while Kotlin strings are UTF-16. `padEnd` (CmdCommand.kt:65) counts UTF-16 code units and `CASE_INSENSITIVE_ORDER` (CmdCommand.kt:66) compares them. So names with characters outside the Basic Multilingual Plane pad and sort differently here.
