# CommandBuilder: a verified model of a command registry and dispatcher

`CommandBuilder` (python/command_builder.py) keeps an ordered list of
registered commands. Each entry is a key, optional target types and a
handler. The key is a compiled regular expression or a literal command string.
`add_command` registers an entry unless its key is already taken.
`remove_command` drops every entry with a given key. `get` and `handle` answer
a command line with the first entry that accepts it. A pattern entry accepts a
command when its pattern matches and `type_check` converts the captured groups.
A literal entry accepts a command equal to its text. `__repr__` reports how
many commands are registered.

The model has five modules:

- `CommandTypes` (command_types.dfy): keys (`Pattern(id)` or `Literal(text)`),
  entries, the `ValueError` cases, and the two library services the class
  relies on. Both services are function-valued parameters. `Matcher` stands for
  `pattern.match(command).groups()`. `Converter` stands for converting one group
  to one target type, with three outcomes: it raises, it produces `None`, or it
  produces a value.
- `Conversion` (type_check.dfy): what `type_check` computes, as functions, and
  the lemmas about it.
- `Registry` (registry.dfy): the entry list as a value. It holds key lookup,
  removal by key, key uniqueness, the first-match scan of `get`, and what
  `handle` does with the scan's answer.
- `Describe` (describe.dfy): the text `__repr__` returns.
- `Dispatcher` (command_builder.dfy): the class `CommandBuilder`. Its
  `commands` field is a `seq<Entry>` that `AddCommand` and `RemoveCommand`
  reassign. `Get` and `TypeCheck` are loops proved against the functions of
  `Registry` and `Conversion`.

## Model

| member | source | states |
|---|---|---|
| `Dispatcher.CommandBuilder.constructor` | python/command_builder.py:5-6 | a new builder has no commands, and its keys are trivially unique |
| `Dispatcher.CommandBuilder.AddCommand` | python/command_builder.py:8-12 | returns true iff no entry has an equal key; then the entry is appended at the end, otherwise the list is unchanged; key uniqueness is preserved |
| `Dispatcher.CommandBuilder.RemoveCommand` | python/command_builder.py:14-18 | the new list is the old one without the entries under the key, in the old order; the result is true exactly when the key was absent, that is, when nothing was removed; key uniqueness is preserved |
| `Dispatcher.CommandBuilder.TypeCheck` | python/command_builder.py:51-95 | equals the `type_check` specification; with no target types, succeeds with `[]` iff there are no groups and otherwise fails with the group count; never yields more values than groups |
| `Dispatcher.CommandBuilder.Get` | python/command_builder.py:32-44 | the answer is that of the first entry, in insertion order, that accepts the command, or none |
| `Dispatcher.CommandBuilder.Handle` | python/command_builder.py:20-24 | reports a hit exactly when some entry accepts the command, and then calls that entry's handler with its arguments; a literal hit calls it with none (corrected, see Findings) |
| `Dispatcher.CommandBuilder.Repr` | python/command_builder.py:46-48 | the text carries the entry count as a numeral and says "commands" for every count except one (corrected, see Findings) |
| `Conversion.ConvertItem` | python/command_builder.py:85-93 | a group is dropped iff every target type produces None; otherwise the outcome is decided by the FIRST type whose conversion does not produce None (all earlier ones produced None): `Failed` with that type if it raised, `Kept` with its value otherwise |
| `Conversion.ConvertAll` | python/command_builder.py:85-95 | a successful result has at most as many values as there are groups; a failure is `ConversionFailed` for the FIRST group whose conversion raised, naming that group and the type that raised |
| `Conversion.NoFailureKeepsKeptInOrder` | python/command_builder.py:85-95 | when no group's conversion raises, the result is exactly the kept values in the order of the groups, with dropped groups left out |
| `Conversion.FailureAborts` | python/command_builder.py:82-88 | if any group's conversion raises, the whole conversion fails: no group is skipped past an error |
| `Conversion.FirstTypeDecides` | python/command_builder.py:87-93 | unless the first target type produces None, it alone decides the outcome; a raise is not retried with later types |
| `Conversion.AllKeptKeepsShape` | python/command_builder.py:85-95 | when every group converts, the result has one value per group, in the groups' order |
| `Conversion.EmptyTypesDropEverything` | python/command_builder.py:59-95 | an empty list of target types accepts any number of groups and yields no arguments |
| `Conversion.ArityNotChecked` | python/command_builder.py:59-95 | one always-succeeding target type accepts any number of groups: the type count is never compared with the group count |
| `Registry.Without` | python/command_builder.py:15 | the kept entries are exactly the old entries whose key differs; no entry under the key remains; something is removed when the key was present |
| `Registry.WithoutIsIdentityIffAbsent` | python/command_builder.py:15-16 | the filtered list equals the old list iff the key is absent |
| `Registry.WithoutDistributes` | python/command_builder.py:15 | filtering a concatenation filters each part, so the relative order of the kept entries is preserved |
| `Registry.RemoveUndoesAdd` | python/command_builder.py:8-17 | removing a key that was just added restores the previous list |
| `Registry.AddKeepsKeysUnique` | python/command_builder.py:9-10 | appending under a fresh key keeps keys pairwise distinct |
| `Registry.RemoveKeepsKeysUnique` | python/command_builder.py:15-17 | removal keeps keys pairwise distinct |
| `Registry.UniqueRemoveDropsOne` | python/command_builder.py:14-17 | with unique keys, removing a present key removes exactly one entry |
| `Registry.MissIffNothingHits` | python/command_builder.py:32-44 | the lookup returns nothing exactly when no entry accepts the command |
| `Registry.EarliestAnswerWins` | python/command_builder.py:33-42 | if entry i accepts and no earlier entry does, the lookup returns entry i's answer (the handler and converted arguments for a pattern, no argument list for a literal) |
| `Registry.HitHasEarliestSource` | python/command_builder.py:33-42 | every answer comes from an entry that accepts the command, and no earlier entry accepts it |
| `Registry.ConversionErrorFallsThrough` | python/command_builder.py:34-43 | a pattern that matches but whose groups fail `type_check` is passed over, and the search continues with the later entries |
| `Registry.AppendedEntriesComeLast` | python/command_builder.py:32-44 | entries appended later are consulted only when every earlier entry misses, so a registration never changes an existing answer |
| `Registry.Handled` | python/command_builder.py:20-24 | (corrected handle) never fails to unpack arguments; misses exactly when the lookup misses; calls the handler the lookup found |
| `Registry.DispatchRunsFirstAnswer` | python/command_builder.py:20-24 | (corrected handle) no handler runs iff no entry accepts the command; otherwise the found handler runs with the found arguments, or with none for a literal |
| `Registry.LiteralHitRaisesAsWritten` | python/command_builder.py:21-23 | as written, when the first answer is a literal entry, `handle` raises TypeError instead of calling the handler |
| `Registry.ExitCommandRaisesAsWritten` | python/command_builder.py:106 | the demo's `exit` literal raises as written; the corrected dispatch calls its handler with no arguments |
| `Describe.Decimal` | python/command_builder.py:47-48 | the count is written as a non-empty string of decimal digits without a leading zero |
| `Describe.DecimalRoundTrip` | python/command_builder.py:47-48 | reading the numeral back gives the count |
| `Describe.DescribeReportsCount` | python/command_builder.py:46-48 | the numeral right after the fixed prefix reads back as the number of commands |
| `Describe.DescribePlural` | python/command_builder.py:48 | (corrected) the text ends in "commands>" iff the count is not one |
| `Describe.AsWrittenPluralInverted` | python/command_builder.py:48 | as written, the text ends in "commands>" iff the count is exactly one |
| `Describe.AsWrittenMisplurals` | python/command_builder.py:48 | as written, one command reads "1 commands" and two read "2 command"; corrected, "1 command" and "2 commands" |

## Left out

- The interactive loop (python/command_builder.py:108-114) is console input and output and calls `sys.exit`; it is not part of this model. `Dispatcher.DemoRegistrations` replays the demo's six registrations (lines 100-106), with pattern, type and handler identifiers standing in for the compiled patterns, `str`/`int` and the lambdas, and shows that a lookup of `exit` reaches the literal when no pattern matches it.
- Regular-expression matching is the `Matcher` parameter. The model does not capture `None` entries in `match.groups()` for optional groups that did not take part; groups are plain strings.
- The concrete conversions (`int`, `float`, `bool`, `str`, other types and user callables, lines 61-83) are the `Converter` parameter. Each conversion only raises, produces `None`, or produces a value. The wrapping of every exception into ValueError is the `Raised` outcome.
- The text of the ValueError messages is not modelled, only what they report: the group count, or the group and target type that failed.
- Running a handler (`func(*params)`, the `_run` helper at lines 26-27) is not modelled. The model records which handler is called and with which arguments; the value the handler returns, and whatever it does, are not modelled.
- `__call__` (lines 29-30) only forwards to `handle` and is not modelled separately.
- A handler registered as `None` is not modelled. For such an entry `handle` tests `func is not None` and reports no hit; here handlers are identifiers and are never `None`.
- Key equality for compiled patterns (`re.Pattern.__eq__`) is equality of pattern identifiers. A literal key never equals a pattern key.
- Dispatcher.CommandBuilder.Handle: does not model the TypeError that the source raises for a literal hit; it follows the corrected dispatch (see Findings). `Registry.HandledAsWritten` models the code as written.
- Dispatcher.CommandBuilder.Repr: follows the corrected pluralisation (see Findings). `Describe.DescribeAsWritten` models the code as written.
- The repository's schema-synchronisation engine (column parsing, live introspection, schema diffing, applying DDL) is not part of this model. Its source is not among the files modelled.

## Findings

| source | as written | input that shows it | evidently intended | confidence | as-written member | corrected member |
|---|---|---|---|---|---|---|
| python/command_builder.py:48 | the plural "s" is added only when the count equals one | a builder with one command describes itself as "1 commands"; with two, as "2 command" | "s" for every count other than one | high; not executed | `Describe.DescribeAsWritten`, `Describe.AsWrittenPluralInverted`, `Describe.AsWrittenMisplurals` | `Describe.Describe`, `Describe.DescribePlural` |
| python/command_builder.py:21-23 | `handle` unpacks the argument list `get` returned, and for a literal entry that list is `None`, so unpacking raises TypeError | the demo's literal `exit` (line 106), with the command line `exit` | call the literal entry's handler with no arguments | high; not executed | `Registry.HandledAsWritten`, `Registry.LiteralHitRaisesAsWritten`, `Registry.ExitCommandRaisesAsWritten` | `Registry.Handled`, `Registry.DispatchRunsFirstAnswer` |
