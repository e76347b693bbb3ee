# libevent_http_serve: a verified model of its command line and its load balancer

The program has two parts worth proving things about, and this project models both.

**The command-line engine** (`src/shared/flags.c`), layer by layer:

- `Text`, `Underscore`, `Widths`, `ParseUint`, `ParseInt`: the number parsers, loops over 64-bit words that wrap
  around, proved against the unbounded value of the text. `Numbers` and `UnderscoreLaws` state what follows for a
  caller: exactness, round trips through every notation, underscores that change nothing. `Literals` says which texts
  are numbers, by characters and positions alone.
- `GrowArray`, `Buffers`: array flags on real buffers, one and several. `Flags`: flag types, user variables, the `set_flag` handlers.
- `Links`, `Registry`, `Teardown`: the linked records of commands and flags, built by create and add, released by
  destroy. Addresses are numbers and a block can be read or freed only while it is live.
- `Grammar`: the command line as a language. An `Item` is a positional or a flag occurrence in one of its spellings,
  `Write` renders it, `Meaning` says what a list of items does, and `Parse` is the left-to-right parse function that
  reads one whole argument at a time. `Letterwise` is the same function one letter at a time.
- `ArgList`, `Executor`: the mutable argument struct and the loop of `ppp_c_flags_execute` over its three states. Every
  step keeps the outcome that `Parse` predicts for the rest of the command line.
- `RoundTrip`, `CommandLine`: writing a script, a subcommand path with a list of items, and parsing it; parsing any
  command line, and the one script that it is. `Failures`: where and why the parser stops at anything else. `Spelling`:
  what a script means whatever its spelling, and what its array flags hold in the end.
- `Registered`: the command tree that walks along the registry's pointers find. `Scripts`: from a written script through
  execute to the handler, for any registry that can be built. `Limits`: the exact limits of these theorems. `Example`:
  the program's own four flags.

**Connection dispatch** (`src/shared/load_balancer.c`):

- `ConnQueue`: a worker's linked list of connections on the heap.
- `Dispatch`, `Schedules`: one acceptor and W workers as a system of small steps, with a lock and a wake-up mark per
  worker; invariants over every interleaving, progress, fairness.
- `Resources`: what init acquires and rolls back, and what destroy releases.

What is a parameter: the verify hooks (pure functions of the old and the new value), which allocations succeed (named
by the cursor position at which they are attempted), the choices of `rand`, the schedule, and which library calls fail.
Assumed of libevent: `event_active` marks the event pending whatever the worker is doing, an idle event loop clears the
mark and then runs the callback, and the yearly timer may run the callback at any idle moment.

Where the code does less than its comments or its evident intent, the model follows the code:

- `parse_int64` with bit size 1 reports no overflow below -1 (`ParseInt.ParseInt64`,
  `Numbers.ParseIntIsExact`, `Numbers.OneBitIff`).
- `push_args` copies bytes instead of pointers when it grows its buffer and does not keep the new capacity, so that the
  handler receives its arguments intact exactly up to 32 positionals (`Scripts.ExecuteScript`, `ArgList.ArgList.DeliveredIff`).
- A bool flag without a value ignores the refusal of its verify hook (`Limits.BareEqualsOneIff`,
  `Limits.BareEqualsOneCounterexample`).
- Flag names may contain `=`. Where one name continues another one with `=`, registration order decides what an argument
  means; where it continues `help`, help wins (`Limits.LongsReadBackIff`). Short names may be `=`, which is not read as a
  flag after another letter, and `-`, which is not read as a flag where it comes first
  (`RoundTrip.ShortArgumentIsReadIff`, `Limits.DashLetterCounterexample`).
- Destroying the balancer does not destroy its own mutex (`Resources.Balancer.Destroy`).

## Model

| member | source | states |
|---|---|---|
| Underscore.UnderscoreOk | src/shared/flags.c:1147-1211 | The one-pass automaton accepts exactly the texts in which every underscore directly follows a digit or the base prefix and directly precedes a digit. |
| Widths.MaxValueIsExact | src/shared/flags.c:1296-1491 | Every constant of the switch over the bit size is two to that size, less one. |
| ParseUint.AddDigit | src/shared/flags.c:1524-1547 | The cutoff test and the wrap-around test on 64-bit words report overflow exactly when the unbounded value exceeds the maximum, and otherwise the word holds that value. |
| ParseUint.OverflowsIffTooLarge | src/shared/flags.c:1494-1548 | For a text of allowed characters, some leading part overflows if and only if the whole value is above the maximum. |
| ParseUint.DigitLoop | src/shared/flags.c:1493-1559 | Overflow of a leading part comes first, then a bad character, then a misplaced underscore, then the unbounded value. |
| ParseUint.ParseUint64 | src/shared/flags.c:1213-1559 | For every text, base and bit size: code and output are those of the unbounded reading, with base and prefix detection, bad parameters and empty text. |
| Numbers.ParseUintIsExact | src/shared/flags.c:1213-1559 | A well-formed text gives its unbounded value if that is at most 2^bits-1, and otherwise overflow with 2^bits-1. |
| Numbers.MalformedIff | src/shared/flags.c:1500-1553 | A syntax error means exactly: a bad character with a number in range before it, or a misplaced underscore in a number in range. |
| ParseInt.NegationIsExact | src/shared/flags.c:1603-1626 | Casting a magnitude up to 2^63 to int64_t and negating it in two's complement gives the exact negative number. |
| ParseInt.CheckRange | src/shared/flags.c:1592-1628 | From the saturated magnitude, the range test gives the signed value or the nearest bound, except in one bit. |
| ParseInt.ParseInt64 | src/shared/flags.c:1561-1629 | For every text, base and bit size: the signed value, saturation at the bound on its side, or a syntax error, with the one-bit case as the code has it. |
| Numbers.OneBitIff | src/shared/flags.c:1592-1611 | For a well-formed text, the result is the specified one if and only if it is not a number below -1 in one bit. |
| ParseInt.OneBitCounterexample | src/shared/flags.c:1592-1611 | "-2" in one bit should overflow and is read as -1. |
| Numbers.ParseIntIsExact | src/shared/flags.h:205-215 | A well-formed text is read as its signed value if that is in range, and otherwise overflows to the nearest bound, for every bit size but the one-bit case. |
| Numbers.UintRoundTrip | src/shared/flags.c:1222-1559 | Every value in range, written in any base 2 to 36 or with any prefix for base 0, is read back. |
| Numbers.IntRoundTrip | src/shared/flags.c:1561-1629 | The same with a sign, for every value in the signed range. |
| UnderscoreLaws.DeletingUnderscoresKeepsTheNumber | src/shared/flags.c:1498-1553 | Deleting all underscores from a text accepted in base 0 keeps acceptance and value. |
| UnderscoreLaws.InsertingAnUnderscoreKeepsTheNumber | src/shared/flags.c:1147-1211 | Inserting one between digits, or between prefix and digit, keeps acceptance and value. |
| UnderscoreLaws.DeletingUnderscoresKeepsTheSignedNumber | src/shared/flags.c:1561-1629 | The same for parse_int64: deleting all underscores, but for texts that underflow in one bit. |
| UnderscoreLaws.InsertingAnUnderscoreKeepsTheSignedNumber | src/shared/flags.c:1561-1629 | And inserting one between digits, or between prefix and digit, of the magnitude. |
| Literals.DigitOfIs | src/shared/flags.c:1506-1523 | A character is a digit exactly if it is 0 to 9 or a letter, in either case, with the usual value. |
| Literals.IsDigitIff | src/shared/flags.c:1183-1188 | What the underscore rule takes for a digit is a digit of base 10, or of base 16 after 0x. |
| Literals.DenotedIsAccepted | src/shared/flags.c:1213-1559 | Every text that writes a number in range, in a base or after a prefix, with any leading zeros and letters in either case, is accepted with that number. |
| Literals.AcceptedIsDenoted | src/shared/flags.c:1213-1559 | With an explicit base nothing else is accepted. |
| Literals.StrippedIsDenoted | src/shared/flags.c:1222-1265 | Nor in base 0, once the underscores are deleted. |
| Literals.UnderscoreInWritten | src/shared/flags.c:1147-1211 | A written number takes an underscore before any digit but the first, and before the first one after a prefix with a letter. |
| Literals.AcceptedUnderscore | src/shared/flags.c:1500-1553 | An underscore of an accepted text stands before a digit and after a digit or prefix, and base 0 was asked for. |
| Literals.ZeroBitsAre64 | src/shared/flags.c:1266-1300 | Bit size 0 means 64 bits, for both parsers. |
| GrowArray.GrownCap | src/shared/flags.c:52-92 | The capacity asked for has room for one more, is never more than what can still be needed, and otherwise at least doubles. |
| GrowArray.GrownCapIs | src/shared/flags.c:52-92 | The first buffer has 64 places, a full one is doubled, a long default asks for more, and none has more than the remaining arguments can fill. |
| GrowArray.ArrayFlag.Grow | src/shared/flags.c:40-110 | Makes room for one element and keeps the ones that count, frees the old buffer only if it was grown, or changes nothing. |
| GrowArray.ArrayFlag.Set | src/shared/flags.c:644-669 | Succeeds exactly if parsing, verification and room allow; appends the value, or replaces the default with it; a failure changes nothing; a new buffer is fresh, and the one it replaces is freed only if it was owned; a buffer of capacity 0 is never written. |
| GrowArray.ArrayFlag.SetEach | src/shared/flags.c:40-110 | After any run of sets on real buffers, across all reallocations: the untouched default, or exactly the successful values in order, with the length within the capacity; memory is needed exactly where the buffer is full, and a default's buffer is never freed. |
| Buffers.SetEachAmong | src/shared/flags.c:52-107 | A run of sets on one of several array variables leaves the others as they are, and all grown buffers live and apart. |
| Buffers.DefaultsAreApart | src/shared/flags.c:52-107 | To begin with they are: the program's own buffers do not count as grown. |
| Buffers.ApartIsOk | src/shared/flags.c:1779-1812 | Variables whose buffers are apart meet what destroy relies on, so that each grown buffer is freed once. |
| GrowArray.RunAccumulates | src/shared/flags.c:44-47 | After any attempts the array is the untouched default, or exactly the successful values in order. |
| Spelling.PlayAccumulates | src/shared/flags.c:685-707 | Any flag uses and positionals make of an unshared array flag what its own uses make of it, whatever the others do. |
| Spelling.ArrayHoldsItsUses | src/shared/flags.c:40-110 | After any of them, also up to an error, an array flag has its untouched default or exactly the accepted values of its own uses in order. |
| Spelling.AllAreAccepted | src/shared/flags.c:644-669 | If its hook accepts everything, memory is there and nothing fails, these are all the values given for it, as parsed. |
| Scripts.CommandLineFillsArray | src/shared/flags.c:2467-2773 | The same after a whole written command line, successful or not, whichever allocations succeed. |
| Flags.SignedCastIsLossless | src/shared/flags.c:196-213 | Narrowing a parsed value to int8, int16, int32 or int64 loses nothing. |
| Flags.UnsignedCastIsLossless | src/shared/flags.c:324-341 | The same for the unsigned widths. |
| Flags.UintAtomIs | src/shared/flags.c:324-341 | For every text, an unsigned flag takes exactly the well-formed numbers of its width, and refuses everything else. |
| Flags.IntAtomIs | src/shared/flags.c:196-213 | The same for a signed flag. |
| Flags.BoolAtomIs | src/shared/flags.c:1631-1667 | A bool flag takes twelve texts, and refuses everything else. |
| Flags.DoSetFlag | src/shared/flags.c:161-187 | The handlers parse, verify and store as the specification of setting a flag says, or leave the store as it is. |
| Flags.ArraySetIsUse | src/shared/flags.c:685-707 | On an array variable, setting a flag is one use of the growable array. |
| Flags.SetFlagFrame | src/shared/flags.c:526-535 | Setting a flag changes neither the variable nor the set mark of another flag. |
| Flags.ShownValuesAreReadBack | src/shared/flags.c:161-213 | Any bool, number in range or string, written out, is parsed back by the handler of its type. |
| Links.LinkKeepsCommandsLinked | src/shared/flags.c:1875-1882 | Linking a new command after the last sibling, or as first child, keeps all sibling and child pointers right. |
| Links.LinkFlagKeepsFlagsLinked | src/shared/flags.c:2145-2158 | The same for a new flag. |
| Registry.CheckFlag | src/shared/flags.c:1671-1690 | A flag may be called anything that is not empty and has no quote or line break. |
| Registry.CheckCommand | src/shared/flags.c:1691-1713 | A command likewise, if it does not start with a dash. |
| Registry.RegistryCodes | src/shared/flags.h:47-57 | The error codes of the registry. |
| Registry.ClashIff | src/shared/flags.c:1985-2023 | The error for a flag tells whether the first flag in its way has its name, or only its letter. |
| Registry.Create | src/shared/flags.c:1715-1754 | An error for an illegal name or failed allocation, or a valid registry with one command. |
| Registry.Registry.LastChild | src/shared/flags.c:1831-1855 | The walk finds a duplicate sibling name if and only if there is one, and otherwise ends at the last sibling. |
| Registry.Registry.AddCommand | src/shared/flags.c:1815-1889 | The exact error; on failure nothing changes; on success one record is added, everything else but pointers is as before, and the registry is still valid. |
| Registry.Registry.LastFlag | src/shared/flags.c:1985-2023 | The walk reports the first clash of name or short name in registration order, and otherwise ends at the last flag. |
| Registry.Registry.AddFlag | src/shared/flags.c:1922-2164 | The exact error; on failure nothing changes; on success one flag is added at the end, names and short names stay unique, and help stays unregistered. |
| Registered.FlagListIsRegistered | src/shared/flags.c:2631-2646 | The walk along a command's flag pointers meets exactly the flags registered for it, oldest first. |
| Registered.ChildListIsRegistered | src/shared/flags.c:2500-2515 | The walk along a command's child and sibling pointers meets exactly its subcommands, oldest first. |
| Registered.FlagOrder | src/shared/flags.c:2145-2158 | After add_flag the new flag is last on its command's list, as the parser walks it, and every other list is as before. |
| Registered.CommandOrder | src/shared/flags.c:1875-1882 | After add_command the new command is last among its siblings, with nothing below it; every other command keeps its flags and the names and order of its subcommands. |
| Registered.RegisteredIsDistinct | src/shared/flags.c:1985-2023 | The flags the parser walks for a registered command have distinct names and short names, none of them help. |
| Registered.RegisteredReadsBackIff | src/shared/flags.c:1671-1690 | Every long occurrence of every flag of a registered command is read back if and only if no name continues another one, or help, with '='. |
| Registered.ChildIsFound | src/shared/flags.c:2500-2515 | A subcommand's name leads to that subcommand, whatever its siblings are. |
| Registered.EveryCommandIsReached | src/shared/flags.c:2500-2515 | The names from the root down to any command lead to that command. |
| Teardown.BelowSplits | src/shared/flags.c:1767-1777 | The younger siblings, the children and the command itself are disjoint and cover all that destroy reaches. |
| Teardown.Heap.DestroyFlags | src/shared/flags.c:1779-1812 | Frees every flag of the command once, and every array that was grown once, also when flags share it. |
| Teardown.Heap.Destroy | src/shared/flags.c:1767-1814 | Terminates, reads only live blocks, frees the command, its younger siblings, all below and their flags and grown arrays, each once, and nothing else. |
| Teardown.DestroyRoot | src/shared/flags.c:1767-1814 | Destroying the root leaves no command and no flag live; every grown array that a flag points to is freed and zeroed, and no other array is touched. |
| Registered.DestroyRegistry | src/shared/flags.c:1767-1889 | Every registry that create and add can build can be destroyed with that effect. |
| RoundTrip.AtMostOneLongMatch | src/shared/flags.c:2631-2646 | Among well-named flags at most one matches any long argument. |
| RoundTrip.LookupIgnoresOrder | src/shared/flags.c:2631-2646 | Lookup by name and by letter does not depend on the order of registration. |
| RoundTrip.ClusterIsReadIff | src/shared/flags.c:2688-2724 | The text after the dash, a cluster of bool flags with any tail, is read as that cluster and tail if and only if no letter after the first is '='. |
| RoundTrip.ShortArgumentIsReadIff | src/shared/flags.c:2467-2500 | A written short argument is read back if and only if no letter after the first is '=' and the first is not '-'. |
| Letterwise.ParseShortIsRead | src/shared/flags.c:2688-2727 | Setting cluster letters as they are met comes to the same as reading the whole argument first. |
| ArgList.ArgList.Push | src/shared/flags.c:2237-2275 | Needs memory exactly for the first positional and beyond the 32nd; keeps the first 32 right; beyond, only as many pointers survive as the count copied in bytes covers, and damage is permanent. |
| ArgList.ArgList.DeliveredIff | src/shared/flags.c:2246-2266 | The block holds exactly the positionals, with no write past its end, if and only if there are at most 32. |
| Executor.Executor.NextFlagsSetValue | src/shared/flags.c:2520-2564 | A bool flag is set to "1" whatever its handler says; any other takes the next argument or is an error. |
| Executor.Executor.NextFlagsSet | src/shared/flags.c:2565-2600 | The flag gets exactly the text after its name and separator, or the parse fails. |
| Executor.Executor.NextFlags | src/shared/flags.c:2601-2657 | A step in the long state keeps the predicted outcome and moves to a later argument, or stops with it. |
| Executor.Executor.NextShort | src/shared/flags.c:2658-2733 | A step in the short state keeps the predicted outcome and shortens the rest of the argument or moves on, or stops with it. |
| Executor.Executor.UnknownShort | src/shared/flags.c:2725-2732 | The pointer moved back by one is the whole original argument, and passes only if no letter of it has been consumed. |
| Executor.Executor.NextNone | src/shared/flags.c:2467-2519 | A step between arguments keeps the predicted outcome and enters a flag state or moves on, or stops with it. |
| Executor.Executor.Run | src/shared/flags.c:2747-2772 | The loop terminates in the outcome that the parse function gives. |
| Executor.Execute | src/shared/flags.c:2734-2773 | For every command tree, command line and environment: error code, flag values and handler call are those of the parse function, the code is 12 to 15 exactly if the parse fails and 0 otherwise, the handler is called at most once and after everything is consumed, and gets its arguments intact exactly up to 32. |
| Grammar.FlagFormIff | src/shared/flags.c:2467-2500 | An argument is a flag exactly if it starts with a dash and is not just one or two of them. |
| Grammar.ParserCodes | src/shared/flags.h:58-61 | The error codes of the parser. |
| CommandLine.ItemsThenRest | src/shared/flags.c:2467-2733 | Written items are parsed into what they mean from any argument on, up to the first error or to what follows them. |
| CommandLine.ItemsRoundTrip | src/shared/flags.c:2467-2733 | From any argument on, written items are parsed into what they mean. |
| CommandLine.CommandLineRoundTrip | src/shared/flags.c:2467-2773 | A subcommand path and items in any mix of spellings, written and parsed, give exactly their meaning, success or failure. |
| CommandLine.EveryParseIsAScript | src/shared/flags.c:2467-2773 | Every successful parse is the meaning of a valid path and list of items whose written form is the command line. |
| CommandLine.ScriptUnambiguous | src/shared/flags.c:2467-2773 | A command line is written by at most one valid path and list of items: each argument has exactly one role, as subcommand, positional, flag or value. |
| Failures.StopsAfterScript | src/shared/flags.c:2601-2733 | A script followed by a call for help, a bad help value, an unknown flag or letter, or a flag without its value stops there, whatever follows, with codes 13, 14 or 15 and the letters before it set. |
| Failures.EveryOutcomeIsExplained | src/shared/flags.c:2467-2773 | Every outcome of every command line is the meaning of a script it starts with, or the script is done and the parser has stopped at the next argument for one of these reasons. |
| Failures.ParseCodes | src/shared/flags.h:58-61 | A parse fails with code 12, 13, 14 or 15 and no other. |
| Spelling.MeaningIsEvents | src/shared/flags.c:2520-2600 | A command line means its flag uses and positionals, played in order, whichever allocations succeed: the same outcome in every detail. |
| Spelling.PlaySeparates | src/shared/flags.c:2520-2600 | As long as positionals find room, flags and positionals do not affect each other: flag values and errors are those of the flag uses alone, the positionals are all texts in order. |
| Spelling.EnoughRoom | src/shared/flags.c:2237-2275 | Where positionals find room, the only error is a refused value. |
| Spelling.SpellingIsIrrelevant | src/shared/flags.c:2520-2600 | Two command lines with the same flag uses and positionals, however spelled and interleaved, end the same way, unless one finds no room for its positionals: the same error code, flag values and, on success, positionals. |
| Spelling.ClusterIsSeparateFlags | src/shared/flags.c:2705-2717 | -abc does what -a -b -c does, success or failure, wherever memory can be had alike. |
| Registered.RegisteredRoundTrip | src/shared/flags.c:1815-2164 | The round trip holds for every command of every registry that can be built, as the parser walks it, if no flag name of the command continues another one, or help, with '='. |
| Scripts.ExecuteScript | src/shared/flags.c:2734-2773 | Executing a written script, whichever allocations succeed, sets its flags in order and calls the command's handler once with exactly its texts, intact if and only if there are at most 32; if a value, or memory for a positional, is refused there is an error and no call. |
| Scripts.ExecuteRegistered | src/shared/flags.c:1715-2164 | The same for every command of every registry that can be built. |
| Limits.LongReadsBackIff | src/shared/flags.c:2631-2646 | For any names: a written long occurrence is read back if and only if it does not look like help and no earlier flag matches it. |
| Limits.LongsReadBackIff | src/shared/flags.c:2631-2646 | All long occurrences of all flags are read back if and only if no name continues another one, or help, with '='. |
| Limits.EqualsInNameCounterexample | src/shared/flags.c:1671-1690 | With flags a and a=b, the bare flag --a=b is read as --a with value b. |
| Limits.DashLetterCounterexample | src/shared/flags.c:1671-1690 | With the letters '-' and 'x', the written cluster of both is read as the long flag x. |
| Limits.ThirtyThreeWords | src/shared/flags.c:2246-2266 | 33 plain words are 33 positionals, one more than can be delivered. |
| Limits.BareEqualsOneIff | src/shared/flags.c:2524-2529 | --b and --b=1 have the same effect if and only if the verify hook accepts true and an array flag has room; otherwise --b is done without effect and --b=1 is an error. |
| Limits.BareEqualsOneCounterexample | src/shared/flags.c:2524-2529 | With a bool flag that may only be false, --b succeeds and --b=1 fails. |
| Example.Register | src/example.c:97-153 | What main registers is, as the parser walks it, exactly the root command with the four flags in order, or an error if the name is illegal or an allocation fails. |
| Example.HandlerFindsUsableSettings | src/example.c:20-37 | Whatever the command line, if the program's handler runs it finds a known algorithm and 2 to 255 workers. |
| Example.WorkerOption | src/example.c:146-153 | N workers, in any notation and spelling: N is configured if it is from 2 to 255, and anything else is error 13. |
| Example.BalanceOption | src/example.c:136-144 | The balancing algorithm is 1 or 2, in any notation and spelling, and anything else is error 13. |
| Example.AddrOption | src/example.c:126-134 | The address, in any spelling, is any text that the address check takes, and anything else is error 13. |
| Example.SyncOption | src/example.c:117-123 | -s and --sync set the sync flag. |
| Example.ExecuteWorkerOption | src/example.c:155-165 | Execute then returns 0 and calls the handler once, or returns 13 and does not call it. |
| ConnQueue.Worker.Push | src/shared/load_balancer.c:199-214 | Walking to the tail terminates, appends to the sequence, keeps the list acyclic and rewrites no connection's fd or address. |
| ConnQueue.Worker.Pop | src/shared/load_balancer.c:20-27 | Takes the head off the sequence; the node is no longer in the list. |
| ConnQueue.Worker.OnEvent | src/shared/load_balancer.c:14-39 | Left alone, the drain loop serves the whole list in order, each connection with its own fd and address, and frees each node once. |
| Dispatch.NextIndexIsModulo | src/shared/load_balancer.c:181-185 | The round robin index, a uint8_t, counts modulo W without wrapping, for 1 to 255 workers. |
| Dispatch.WorkKeepsWorkerInv | src/shared/load_balancer.c:18-38 | A worker's step keeps mutual exclusion, order and wake-up for that worker. |
| Dispatch.AcceptKeepsWorkerInv | src/shared/load_balancer.c:200-217 | The acceptor's step keeps them for every worker. |
| Dispatch.StepKeepsInv | src/shared/load_balancer.c:14-217 | So does every step of the system. |
| Dispatch.EveryRunKeepsInv | src/shared/load_balancer.c:14-217 | The invariant holds after every schedule from the start. |
| Schedules.ExactlyOnceInOrder | src/shared/load_balancer.c:16-38 | In every reachable state, served, in hand and queued are together, in order, what was published to the worker; what it freed is what it served. |
| Schedules.PublishedOnce | src/shared/load_balancer.c:200-214 | A connection is among those published to its worker once, and to no other worker. |
| Schedules.NoLostWakeup | src/shared/load_balancer.c:200-217 | In every reachable state, a worker with a non-empty list is pending, draining, or about to be woken by the acceptor. |
| Schedules.QuietStepsDescend | src/shared/load_balancer.c:18-38 | Without new connections and timers, every step decreases a rank over lists, marks and program counters. |
| Schedules.QuietRunsAreShort | src/shared/load_balancer.c:18-38 | Hence every such schedule is at most as long as the rank of its first state. |
| Schedules.RestMeansAllServed | src/shared/load_balancer.c:14-217 | In every reachable state without enabled steps, all lists are empty and every published connection has been served and freed. |
| Schedules.Enabled | src/shared/load_balancer.c:14-217 | In every reachable state a connection is taken whenever the acceptor is free, and nothing but a lock ever holds anybody up. |
| Schedules.StartIsAtRest | src/shared/load_balancer.c:14-39 | Before the first connection nothing happens but timers. |
| Schedules.MarkIsSetAndCleared | src/shared/load_balancer.c:14-217 | A worker's wake-up mark is set by the activation that ends a publication to it, cleared when its event loop wakes it, and touched by nothing else. |
| Schedules.RandomFollowsChoices | src/shared/load_balancer.c:187-190 | With the random balance, each connection goes to the worker that its own rand() names, modulo W. |
| Schedules.RoundRobinTurns | src/shared/load_balancer.c:178-186 | Under round robin, connection k has gone to worker k mod W and the index is below W. |
| Schedules.RoundRobinIsFair | src/shared/load_balancer.c:178-186 | After any schedule, the totals of two workers differ by at most one. |
| Resources.Balancer.Rollback | src/shared/load_balancer.c:88-106 | After a failure, everything the worker has acquired is released, each once. |
| Resources.Balancer.WorkerInit | src/shared/load_balancer.c:46-107 | Succeeds exactly if all its calls do; then it owns its four resources, and otherwise nothing has changed. |
| Resources.Balancer.WorkerDestroy | src/shared/load_balancer.c:108-124 | Releases the four resources of a worker that is up, each once, and does nothing for one that is not. |
| Resources.Balancer.Init | src/shared/load_balancer.c:125-162 | For every worker count and every failing call: succeeds exactly if no call fails, and then owns every resource there is; otherwise leaves nothing acquired, released in an order that never takes a base from under its http server or event. |
| Resources.Balancer.Destroy | src/shared/load_balancer.c:163-173 | Releases everything but the balancer's own mutex, and a second call does nothing. |

## Left out

- GrowArray.ArrayFlag.Grow: the source copies as many elements as the new buffer holds, reading past the old one; the model copies the elements that count. Overflow of size_t in the capacity is not modelled.
- Flags.DoSetFlag: whether an array flag can make room is a parameter here; GrowArray says when it can. Null output pointers of the parsers are not modelled.
- Flags.ShownValuesAreReadBack: notations with an explicit base are left out, because the handlers always parse in base 0.
- Executor.Execute: the command tree is a value, as Registered.View reads it off the registry; flag lists are sequences; the positional block is a sequence of words. After a write past its end the rest of the C program is undefined, and the other claims are about the model only.
- Spelling.SpellingIsIrrelevant: the positionals of a command line that fails are not compared, and nobody receives them.
- CommandLine.CommandLineRoundTrip: for names that the parser can tell apart; Limits and RoundTrip say exactly which those are.
- Teardown.Heap.Destroy: the pointers that still lead to a destroyed command that was not the root are not modelled.
- Schedules.RestMeansAllServed: destroying the balancer while workers are active is not modelled; the code has no join protocol.
- Resources.Balancer.WorkerInit: the thread, which is detached, is not counted as a resource.
- Example.Register: the verify hooks, which main puts in after adding a flag, are given with it.
- Registry.Registry.AddFlag: the copy of the default value, kept for the usage output, is not modelled; float types count as types that do not exist.
- Executor.Executor.Run: the handler's return value, which execute stores for its caller, is not modelled; nor is the release of the block of positionals, which is freed after a handler has run, or when it cannot grow, and otherwise not at all.
- UnderscoreLaws.DeletingUnderscoresKeepsTheSignedNumber: texts below -1 in one bit, which are read as -1, are left out.
- Usage and help output, error strings, the version string and base_name: formatted output.
- Float flags: they rest on strtod and errno.
- The wrappers that take a strlen first, and the allocator hooks.
- src/shared/listener.c and src/shared/shared.c are not part of this model: sockets, and an address parser that rests on evutil_inet_pton.
- HTTP replies and evhttp_serve: serving is one step.
