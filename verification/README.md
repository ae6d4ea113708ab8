# Verification of GNU Make's algorithms and an IP checksum

A Dafny model of the algorithms at the heart of `source/gnu-make/src`, on its Unix branches, and of the
IP checksum in `source/marius/dhcp_bare.c`, with proofs of what they are for. `dafny verify dfyconfig.toml`
checks all of it.

The files follow the program:

| file | what it models |
|---|---|
| `jobserver.dfy` | the token protocol between all makes of a tree, as a transition system over interleaved steps |
| `scheduler.dfy` | the job scheduler of one make: chains of children and waiting jobs, slots and tokens |
| `arithmetic.dfy`, `probing.dfy`, `hash_table.dfy` | the open-addressing hash table and the number theory behind it |
| `filter.dfy` | `$(filter)` and `$(filter-out)` with their optional hash table |
| `command_argv.dfy`, `posix_fields.dfy`, `command_examples.dfy` | the splitting of command lines, its escape and re-parse, the comparison with POSIX, and lines worked out |
| `implicit_rules.dfy`, `implicit_search.dfy`, `implicit_examples.dfy` | pattern rules, derivations, the search for an implicit rule, and searches worked out |
| `expansion.dfy`, `expansion_text.dfy` | variable expansion into a growing buffer, and what each kind of reference stands for |
| `getopt.dfy`, `getopt_readings.dfy` | `getopt` in PERMUTE order, and what each way of writing options is read as |
| `dir_cache.dfy` | the lazily filled cache of directory contents |
| `auto_vars.dfy` | the lists of prerequisites in `$+`, `$^` and the variable for order-only ones |
| `abspath.dfy`, `abspath_laws.dfy` | `$(abspath)`, and names that have the same absolute name |
| `intcmp.dfy`, `env_switches.dfy` | `$(intcmp)`, and the quoting and splitting of MAKEFLAGS |
| `checksum.dfy` | the IP header checksum |

Code that changes state is modelled by classes and by methods over arrays. Each method is proved against a
function or predicate, and the lemmas beside it say what that means. The outside world is a parameter or a
nondeterministic choice: which child dies, whether a command starts, whether the load is too high, which files
exist, how directories read, what the wildcards of a word stand for.

## What the proofs found

Where the code does something else than its documentation or than one would expect, the model follows the code.

- A pattern rule without prerequisites can be given prerequisites of a rule that did not apply, since the list
  collected for that rule is not emptied (`ImplicitSearch.SearchInherits`, with the exact condition in
  `ImplicitSearch.Query.NothingInheritedExactlyWhen`).
- The manual has `%` match a nonempty substring, but behind a directory the stem can be empty
  (`ImplicitRules.EmptyStemBehindDirectory`).
- The name made for another target of a pattern rule can be put in the wrong place when a directory was set
  apart (`ImplicitRules.MisplacedTargets`, with the exact condition in `ImplicitRules.OtherTargetExactlyWhen`).
- The test at `source/gnu-make/src/expand.c:557` looks at the dollar sign and not at what follows it, so white
  space behind a dollar sign is the name of a variable like any other character
  (`ExpansionText.NameOfOneCharacter`).
- The directory cache can answer for another directory when two names change places between commands
  (`DirCache.OtherDirectoryAnswers`), and a name marked as impossible in a directory that cannot be found is
  forgotten at once (`DirCache.Cache.MarkAndAsk`).
- Reading the command line again after getopt has rearranged it can give other options
  (`Getopt.MisplacedFlag`, with the exact condition in `Getopt.Syntax.RereadExactlyWhen`). GNU Make itself asks
  for its arguments in order (line 2942 of main.c), so this concerns other callers.
- The fast path of the command splitter departs from POSIX in two places: a lone backslash at the end is
  dropped, and a continued blank right behind an empty quoted word joins it to the next word
  (`PosixFields.LoneBackslashIsLost`, `PosixFields.EmptyWordIsLost`; these are the only ones by
  `PosixFields.FastPathAgrees`).
- The comment at `source/gnu-make/src/job.c:3632` says that double quotes are handled, but they are among the
  shell characters: no line with one that is not itself quoted is split without the shell
  (`PosixFields.DoubleQuoteNeedsShell`; the simplest one is in `PosixFields.QuotedWordNeedsShell`).
- With a limit on the load more jobs can run than there are slots: jobs that waited for the load are started
  without a look at the slots, and the test at line 1800 of job.c is for equality
  (`Scheduler.FourJobsOnTwoSlots`, with the condition in `Scheduler.Make.NewJob`).
- Words quoted for MAKEFLAGS do not come back when the first is empty or begins with a line break, or when an
  empty one is not the last (`EnvironmentSwitches.RoundTripExactlyWhen`).
- The IP checksum depends on the byte order of the machine for data of odd length
  (`Checksum.ByteOrderMattersExactlyWhen`), and its sum wraps around for long data
  (`Checksum.WrapHarmlessExactlyWhen`). For an IP header neither happens.

## Model

| member | source | states |
|---|---|---|
| `Jobserver.JobsNeverExceedSlots` | source/gnu-make/src/job.c:1815-1859 | over every interleaving of every tree of makes, the ordinary jobs running plus the tokens left in the pool never exceed the slots of the top make |
| `Jobserver.TokensAreConserved` | source/gnu-make/src/job.c:1107-1126 | in every reachable state the tokens in the pool and those taken by all makes add up to one less than the slots |
| `Jobserver.TopMakeFindsAllTokens` | source/gnu-make/src/main.c:3797-3833 | when the top make holds no token any more, all descendants have exited and its final count of the pool is the number of slots |
| `Jobserver.SomeMakeCanProceed` | source/gnu-make/src/job.c:1839-1859 | no deadlock: while the top make has a job, some make can finish a job or exit |
| `Jobserver.EachMakeRunsItsOwnHistory` | source/gnu-make/src/job.c:1112-1126 | projected to one make, every run of the tree is a legal token history of the kind a single scheduler keeps, with the same token count |
| `Jobserver.RunKeepsInv` | source/gnu-make/src/main.c:2191-2209 | every reachable state is a tree of makes in which each count of tokens is the count of jobs and the sums over the makes balance |
| `Jobserver.EverySlotCanBeUsed` | source/gnu-make/src/job.c:1815-1859 | the bound is reached: for every number of jobs up to the slots there is a run in which one make runs that many |
| `Jobserver.MakeCanStart` | source/gnu-make/src/job.c:1839-1859 | a make can start a job when it holds no token yet or the pool has one, and counts it |
| `Scheduler.Make.FreeChild` | source/gnu-make/src/job.c:1107-1126 | freeing a counted job gives a token back unless it is the free one; the fatal error cannot be reached |
| `Scheduler.Make.ReapChild` | source/gnu-make/src/job.c:898-1083 | a child that died without an error that counts runs its next command if there is one, and is removed otherwise; make exits exactly for an error that is neither ignored nor of an optional target, without -k and not while waiting for unfinished jobs, with status 1 or 2 |
| `Scheduler.Make.ReapChildren` | source/gnu-make/src/job.c:635-1089 | slots and tokens stay exact counts while children die, restart or are removed; a blocking call removes a child; no child of another target appears; no command is made up, and while all goes well none is lost and make does not exit; it exits only without -k and not while waiting for unfinished jobs; it terminates, though a failed child may call die and that reaps again |
| `Scheduler.Make.StartWaitingJob` | source/gnu-make/src/job.c:1579-1648 | a job in hand is chained in front of the waiting ones only under a load limit with a slot in use, and otherwise joins the children in front, with a slot if it was forked, or is freed at once; which of these happens is determined by what the outside world does, and when nothing goes wrong the first command of the job runs |
| `Scheduler.Make.StartWaitingJobs` | source/gnu-make/src/job.c:2166-2189 | afterwards either no job waits or some slot is in use, so a make that waits has a child to wait for; the slots in use and the jobs waiting do not become more in all; in a calm world the waiting jobs are started in the order of their chain, or all stay as they were |
| `Scheduler.Make.AwaitToken` | source/gnu-make/src/job.c:1815-1855 | the wait ends with the free token or one from the pool, counted exactly once; the fatal error about sleeping without children cannot be reached |
| `Scheduler.Make.AwaitSlot` | source/gnu-make/src/job.c:1799-1801 | the wait for a job slot ends, with a slot free and the counts exact |
| `Scheduler.Make.NewJob` | source/gnu-make/src/job.c:1650-1955 | in every world the job is handed to start_job_command or put in front of those that wait, unless make exits. While nothing goes wrong make does not exit, and every command of every job is still to be run or was run exactly once; a serial make has then run just the lines of the recipe and has nothing outstanding, and otherwise the first line of the job runs, in a slot, or the job waits for the load. Between two calls every token is a job on one of the two chains, job_slots_used counts the children holding a slot and, without a load limit, stays within job_slots. With a load limit a call keeps the bound if the slots in use and the jobs waiting are together within it, and breaks it otherwise if the load is low and no child dies; in any case a call with a limit by -j makes them at most one more in all |
| `Scheduler.Make.Launch` | source/gnu-make/src/job.c:1943-1951 | the job counted joins the children with its first line running, or waits, exactly as the load decides when the world is calm; a serial make has nothing outstanding afterwards |
| `Scheduler.OnlyForOneFile` | source/gnu-make/src/job.c:1957-1985 | if only the number of commands run for one file has grown, what was run is that many commands for the file, in a row |
| `Scheduler.FourJobsOnTwoSlots` | source/gnu-make/src/job.c:1799-1801 | a history with a load limit in which four jobs end up running on two slots, those that waited started last in first out |
| `Scheduler.Make.AwaitFile` | source/gnu-make/src/job.c:1947-1951 | the wait of a serial make ends when the target has no child any more; children of no other target appear |
| `Scheduler.Make.Die` | source/gnu-make/src/main.c:3797-3874 | an exit with status 2 that is not nested in another returns every token of the make, including those of jobs that never ran; an exit that was not overtaken by the failure of a child has waited for every child with a slot |
| `Probing.OddStepHitsEverySlot` | source/gnu-make/src/hash.c:31-36 | an odd step modulo a power of two reaches every slot within as many probes as there are slots |
| `Probing.NextProbe` | source/gnu-make/src/hash.c:95-119 | the probe index may wrap around at 32 bits without leaving the probe sequence |
| `Probing.EverySlotProbedExactlyWhen` | source/gnu-make/src/hash.c:95-119 | with the probe index in 32 bits, every slot is probed exactly when the table has at most 2 to the 32 slots |
| `Probing.RoundUp2` | source/gnu-make/src/hash.c:341-356 | or-ing with the six shifts and adding one gives a power of two above the argument exactly when the argument is below 2 to the 63, at most twice the argument; otherwise it wraps around to 0 |
| `HashTables.SearchStops` | source/gnu-make/src/hash.c:95-119 | the probe loop ends within the size of the table exactly when there is a never-used slot or the key is in the table |
| `HashTables.InsertUpdates` | source/gnu-make/src/hash.c:139-161 | writing an item to the slot found for its key keeps every item on its own clear probe path and updates the finite map at that key only |
| `HashTables.DeleteUpdates` | source/gnu-make/src/hash.c:171-182 | a tombstone removes one key from the map and cuts no probe path |
| `HashTables.CountIsCardinality` | source/gnu-make/src/hash.c:144-150 | the count of full slots is the size of the map |
| `HashTables.HashTable.FindSlot` | source/gnu-make/src/hash.c:87-120 | finds the live item of the key, or else the first slot on its probe path that is free for it |
| `HashTables.HashTable.FindItem` | source/gnu-make/src/hash.c:122-127 | answers exactly what the finite map holds |
| `HashTables.HashTable.InsertAt` | source/gnu-make/src/hash.c:138-161 | the map is updated at the key, the counters stay exact, a never-used slot remains in tables of 16 and more, and the returned slot holds the item even after a rehash |
| `HashTables.HashTable.FewItemsCanGrow` | source/gnu-make/src/hash.c:154-158 | a table can take another item without outgrowing a 32-bit probe index while it has fewer than 15 times 2 to the 28 items |
| `HashTables.HashTable.Insert` | source/gnu-make/src/hash.c:129-136 | the map is updated at the key and the replaced item is returned |
| `HashTables.HashTable.DeleteAt` | source/gnu-make/src/hash.c:170-182 | removes exactly the item of a slot and leaves the never-used slots alone |
| `HashTables.HashTable.Delete` | source/gnu-make/src/hash.c:163-168 | removes exactly the item of a key |
| `HashTables.HashTable.Rehash` | source/gnu-make/src/hash.c:276-301 | keeps the map, doubles the table exactly when it is filled to capacity, and leaves no tombstone |
| `HashTables.HashTable.constructor` | source/gnu-make/src/hash.c:43-66 | an empty table whose size is a power of two above the one asked for |
| `HashTables.RoomAfterRehash` | source/gnu-make/src/hash.c:283-299 | after a rehash, whether it doubled or only purged, the free slots exceed the sixteenth of the table kept spare |
| `Filter.FilterWords` | source/gnu-make/src/function.c:995-1127 | filter and filter-out print the words that match some pattern, or none, in order with duplicates, whether or not the hash table is used |
| `Filter.HashWords` | source/gnu-make/src/function.c:1069-1082 | the table holds the last occurrence of every word and each occurrence is chained to the previous equal one; a table larger than the word count never fills up |
| `Filter.MarkChain` | source/gnu-make/src/function.c:1089-1101 | following the chain marks exactly the words equal to the pattern |
| `Filter.MatchesWithStem` | source/gnu-make/src/function.c:287-313 | a percent pattern matches exactly the strings made of prefix, some stem and suffix |
| `Filter.ChainSkipsNothing` | source/gnu-make/src/function.c:1076-1081 | no equal word lies strictly between an occurrence and the one it is chained to |
| `Filter.SelectedExactly` | source/gnu-make/src/function.c:995-1127 | a word is selected as often as it occurs when it matches some pattern, or none for filter-out, and otherwise never |
| `Filter.SelectedFromBoth` | source/gnu-make/src/function.c:1107-1120 | what is selected from two lists one after the other is selected from each, in order |
| `Filter.FilterSources` | source/gnu-make/doc/make.texi:7794-7804 | the example of the manual: of foo.c, bar.c, baz.s and ugh.h, those that match %.c or %.s are printed |
| `CommandArgv.Syntax.FastPath` | source/gnu-make/src/job.c:2922-3164 | the tokenizing loop computes the scan of the whole line, round by round |
| `CommandArgv.Syntax.NewLineSplits` | source/gnu-make/src/job.c:3400-3534 | splitting the escaped command line gives the words of the shell and of the flags and the text, and never needs the slow path |
| `CommandArgv.Syntax.Construct` | source/gnu-make/src/job.c:2701-3164 | a line that needs the shell becomes the words of shell and flags and the kept text, the rest being left in *restp; it is nothing when the kept text is empty and the shell has nothing to escape; the recursion is at most two deep, and any other line is split by the fast path |
| `CommandArgv.Syntax.KeptIsPrefix` | source/gnu-make/src/job.c:3400-3475 | the text given to the shell is the line up to the first newline without a backslash immediately before it, and the rest is what is left |
| `CommandArgv.Syntax.StaleRest` | source/gnu-make/src/job.c:3422-3427 | when the fast path has found an end of the command but then needs the shell, the slow path finds an end of its own to overwrite it |
| `CommandArgv.UnixIsWellFormed` | source/gnu-make/src/job.c:2802-2818 | the shell characters and built-in commands for Unix have the properties the proofs rely on |
| `CommandArgv.Syntax.FirstIsNoBuiltin` | source/gnu-make/src/job.c:3106-3154 | a line that is split without a shell does not begin with a command built into it |
| `CommandArgv.Syntax.AssignmentGoesSlow` | source/gnu-make/src/job.c:3007-3016 | a line that begins with an assignment goes to the shell |
| `CommandArgv.Syntax.PlainLineSplits` | source/gnu-make/src/job.c:3077-3164 | a line without quotes, backslashes, newlines and shell characters is split at its blanks, unless it begins with a builtin or an assignment |
| `CommandArgv.Syntax.QuotedLineSplits` | source/gnu-make/src/job.c:2940-2991 | words between apostrophes come back as they are, whatever they contain but for newlines |
| `CommandExamples.UnixTables` | source/gnu-make/src/job.c:2808 | the shell characters for Unix are those that quote, separate, redirect, expand, match and comment, and no others |
| `CommandExamples.SpecialBuiltins` | source/gnu-make/src/job.c:2809-2813 | the special builtins of section 2.14 of the Shell Command Language are among the commands that need the shell |
| `CommandExamples.OtherBuiltins` | source/gnu-make/src/job.c:2809-2813 | so are the builtins that depend on the state of the shell |
| `CommandExamples.RunEchoHome` | source/gnu-make/src/job.c:2992-2994 | echo $HOME is run as /bin/sh -c with the line as one argument |
| `CommandExamples.RunSpecial` | source/gnu-make/src/job.c:2992-2994 | so is every line with a shell character before any quote |
| `CommandExamples.RunAssignment` | source/gnu-make/src/job.c:3007-3013 | and every line that begins with an assignment |
| `CommandExamples.RunBuiltin` | source/gnu-make/src/job.c:3106-3154 | and every line that begins with a command built into the shell |
| `CommandExamples.RunCd` | source/gnu-make/src/job.c:3106-3154 | cd d is one of those |
| `CommandExamples.RunPlain` | source/gnu-make/src/job.c:3129-3164 | a plain line is run without a shell, as its words |
| `CommandExamples.RunTwoWords` | source/gnu-make/src/job.c:3077-3128 | two plain words are split at a space or a tab between them |
| `CommandExamples.RunTabbed` | source/gnu-make/src/job.c:3077-3128 | for instance /c and e at a tab |
| `CommandExamples.RunQuoted` | source/gnu-make/src/job.c:2940-2991 | words between apostrophes are run without a shell, as they are |
| `CommandExamples.RunOtherShell` | source/gnu-make/src/job.c:2906-2907 | another shell is always used, whatever the line |
| `CommandExamples.RunOtherFlags` | source/gnu-make/src/job.c:2916-2920 | so is the usual shell with flags other than -c and -ec |
| `CommandExamples.RunSeparated` | source/gnu-make/src/job.c:2911-2914 | and it is used for a plain line exactly when IFS has a character other than blanks and newlines |
| `PosixFields.FastPathAgrees` | source/gnu-make/src/job.c:2922-3164 | arguments found without a shell, or none, are the fields of sections 2.2 and 2.3 of the Shell Command Language if and only if the command has neither of two forms |
| `PosixFields.NoBackslashIsFaithful` | source/gnu-make/src/job.c:2992-3070 | a command without backslashes has neither form, so it is always split as the standard says |
| `PosixFields.EmptyWordIsLost` | source/gnu-make/src/job.c:2992-3070 | a command where an empty quoted word before a continued blank is lost, contrary to the standard |
| `PosixFields.LoneBackslashIsLost` | source/gnu-make/src/job.c:3001-3022 | a command where a backslash at the end is lost, contrary to the standard |
| `PosixFields.LoneBackslashIsNothing` | source/gnu-make/src/job.c:3001-3022 | a line of one backslash is no command at all, where the standard has one field |
| `PosixFields.DoubleQuoteNeedsShell` | source/gnu-make/src/job.c:2999-3042 | a line that is split without a shell has no double quote in its command but between apostrophes or behind a backslash, although a comment has double quotes handled |
| `PosixFields.ShellCharsNeedShell` | source/gnu-make/src/job.c:2992-2994 | a line that is split without a shell, or found empty, has no shell character at all in its command but between apostrophes or behind a backslash |
| `PosixFields.NewlineIsFound` | source/gnu-make/src/job.c:2969-2974 | what is left in *restp begins at the first newline outside quotes and not behind a backslash, and nothing is left only if there is none |
| `PosixFields.QuotedWordNeedsShell` | source/gnu-make/src/job.c:3631-3636 | a word in double quotes goes to the shell |
| `PosixFields.SplitIsTwoPasses` | source/gnu-make/src/job.c:2922-3164 | token recognition followed by quote removal is one pass over the text |
| `ImplicitRules.MatchExactly` | source/gnu-make/src/implicit.c:316-377 | the length arithmetic matches exactly the names made of the directory set apart, prefix, stem and suffix; the stem may be empty only behind a directory |
| `ImplicitRules.EmptyStemBehindDirectory` | source/gnu-make/src/implicit.c:320-349 | d/.o matches %.o with an empty stem while .o does not match, although the manual asks for a nonempty stem |
| `ImplicitRules.OtherTargetExactlyWhen` | source/gnu-make/src/implicit.c:1077-1115 | the name made for another target of the rule has its prefix inside the directory, where it is meant to be, exactly when no directory was set apart or the two commute |
| `ImplicitRules.PlainOtherTargetExactlyWhen` | source/gnu-make/src/implicit.c:1077-1115 | for another target without a slash that is when it begins with its % |
| `ImplicitRules.MisplacedTargets` | source/gnu-make/src/implicit.c:334-340 | two such targets made for d/x.a, one with a slash and one without, that end up in the wrong place |
| `ImplicitRules.StemTakesPlace` | source/gnu-make/src/implicit.c:526-560 | the text made of a prerequisite is the directory set apart, the text before its %, the stem and the text behind, so as a target of that pattern it has the same stem and directory |
| `ImplicitRules.ExplicitStays` | source/gnu-make/src/implicit.c:526-560 | a prerequisite without a % stays as it is |
| `ImplicitRules.Makefile.NoRuleRepeats` | source/gnu-make/src/implicit.c:509-511 | no rule that needed prerequisites occurs twice on a path of a sound derivation |
| `ImplicitRules.Makefile.SoundStays` | source/gnu-make/src/implicit.c:958-1003 | a sound derivation stays sound as the file database grows |
| `ImplicitRules.Makefile.AppliesStays` | source/gnu-make/src/implicit.c:736-852 | a rule whose prerequisites are all at hand keeps them at hand whatever an intervening search does to the database |
| `ImplicitSearch.Search.Consider` | source/gnu-make/src/implicit.c:293-377 | one target of one rule is recorded exactly when it matches and the rule is not cancelled, in use, or a non-terminal match-anything rule for an intermediate file |
| `ImplicitSearch.Search.Collect` | source/gnu-make/src/implicit.c:287-399 | the rules to try are exactly the candidates, and whether a specific rule matched is exact |
| `ImplicitSearch.SortByStem` | source/gnu-make/src/implicit.c:163-170 | the tries are permuted into order of stem length, then of definition |
| `ImplicitSearch.Search.Reject` | source/gnu-make/src/implicit.c:410-424 | non-terminal match-anything rules are taken back exactly when a specific rule matched |
| `ImplicitSearch.Search.TryPrereq` | source/gnu-make/src/implicit.c:734-905 | a prerequisite is accepted with its reason or with a sound derivation; without intermediate files, exactly when it is at hand; with them, also when a chain of rules is within reach, and one that is not found is ruled out unless the database knew it |
| `ImplicitSearch.Search.TryRule` | source/gnu-make/src/implicit.c:509-924 | in_use is restored, the prerequisites accepted are a justified prefix of those the rule names, and all of them if the rule applies |
| `ImplicitSearch.Search.Pass` | source/gnu-make/src/implicit.c:426-940 | one pass over the rules finds a sound derivation; without intermediate files it finds the first rule that applies directly, or none does |
| `ImplicitSearch.Search.PatternSearch` | source/gnu-make/src/implicit.c:186-1136 | the search terminates, restores every in_use flag and returns only sound derivations, the best directly applicable rule if there is one; it returns nothing only if no rule applies directly even under compatibility and no chain of any length is within reach, where at each link the first rule that can be chained is the one that leads on; every target it enters in the database has a sound derivation or is a byproduct of one |
| `ImplicitSearch.Search.TryImplicitRule` | source/gnu-make/src/implicit.c:40-66 | the file gets the prerequisites found in front of its own, the stem and the rule, or nothing changes |
| `ImplicitSearch.Search.Adopt` | source/gnu-make/src/implicit.c:950-1118 | intermediate files and other targets of the rule become targets of the database, each with its derivation recorded |
| `ImplicitSearch.Query.NothingInheritedExactlyWhen` | source/gnu-make/src/implicit.c:505-517 | when the best rule that applies has no prerequisites, it is given none exactly when the last rule with prerequisites that comes before it would not find even its first; otherwise it inherits them |
| `ImplicitSearch.SecondRuleInherits` | source/gnu-make/src/implicit.c:505-517 | when of the prerequisites a and b of a first rule only a exists, a second rule for the same target without prerequisites that is found gives it a |
| `ImplicitSearch.SearchInherits` | source/gnu-make/src/implicit.c:505-517 | a search that finds the second rule for m.o and lets it depend on a.x |
| `ImplicitExamples.SearchOneRule` | source/gnu-make/src/implicit.c:526-905 | a single rule is found for every target it matches whose one prerequisite, made with the stem, is a target, mentioned, exists, is found by VPATH or is at least known, and gives just that prerequisite |
| `ImplicitExamples.SearchObject` | source/gnu-make/src/implicit.c:526-560 | m.o by %.o: %.c, when m.c exists, depends on m.c |
| `ImplicitExamples.SearchBehindDirectory` | source/gnu-make/src/implicit.c:526-560 | d/libm.o by lib%.o: l%.c, when d/lm.c exists, depends on d/lm.c |
| `ImplicitExamples.TryObject` | source/gnu-make/src/implicit.c:1005-1062 | the file itself then has that prerequisite in front of its own, the stem d/m and the rule |
| `ImplicitExamples.SearchBetter` | source/gnu-make/src/implicit.c:163-170 | of two rules that apply the one with the shorter stem is found, and of equal ones the first |
| `ImplicitExamples.SearchShorterStem` | source/gnu-make/src/implicit.c:163-170 | for instance x%.o: %.y for xm.o, and not %.o: %.c |
| `ImplicitExamples.SearchDefinedFirst` | source/gnu-make/src/implicit.c:163-170 | and %.o: %.c for m.o, and not %.o: %.y behind it |
| `ImplicitExamples.SearchChain` | source/gnu-make/src/implicit.c:856-885 | m.o is found by %.o: %.c and %.c: %.y when only m.y exists |
| `ImplicitExamples.AnythingGivesWay` | source/gnu-make/src/implicit.c:410-424 | a rule for anything and everything may be tried beside a rule for something in particular exactly when it is terminal |
| `ImplicitExamples.AnythingAlone` | source/gnu-make/src/implicit.c:316-320 | alone it may be tried for an intermediate file exactly when it is terminal |
| `ImplicitExamples.CancelledOrInUse` | source/gnu-make/src/implicit.c:295-308 | a rule with prerequisites may be tried exactly when it has a recipe and is not in use |
| `Expansion.FatalExactlyWhen` | source/gnu-make/src/expand.c:192-205 | expansion is fatal exactly when a cycle of recursive variables or an unterminated reference can be reached in the reference graph |
| `Expansion.ExpansionExactlyMeaning` | source/gnu-make/src/expand.c:143-262 | expansion gives a text exactly when substituting references to some finite depth, without any flag, gives that text |
| `Expansion.ExpansionIsMeaning` | source/gnu-make/src/expand.c:192-251 | a finished expansion is the full substitution to the depth of the number of variables |
| `Expansion.VariableBuffer.Output` | source/gnu-make/src/expand.c:56-77 | the string is appended behind what was written, with room to spare and a zero at the end, reallocating if need be |
| `Expansion.Expander.RecursivelyExpand` | source/gnu-make/src/expand.c:143-262 | the value is expanded into a buffer of its own; the expanding flag and the current buffer are restored; a set flag is fatal |
| `Expansion.Expander.ExpandVariableOutput` | source/gnu-make/src/expand.c:268-295 | the value, expanded if the variable is recursive, is appended to the buffer |
| `Expansion.Expander.ExpandString` | source/gnu-make/src/expand.c:373-576 | the scanning loop appends the expansion of the text, with its terminating zero, or fails with the same error |
| `ExpansionText.DoublingIsUndone` | source/gnu-make/src/expand.c:414-419 | a text with every dollar sign doubled expands to the text |
| `ExpansionText.PairsAreUndoubled` | source/gnu-make/src/expand.c:414-419 | where dollar signs come only in pairs, expansion makes one of each pair and uses no variable |
| `ExpansionText.TextNameAndRest` | source/gnu-make/src/expand.c:401-554 | text without dollar signs, a name in parentheses or braces, and a rest expand to the text, what the variable stands for and the expansion of the rest; a failure comes from the first of these |
| `ExpansionText.NeverClosed` | source/gnu-make/src/expand.c:437-440 | a parenthesis or brace that is not closed is fatal |
| `ExpansionText.NameOfOneCharacter` | source/gnu-make/src/expand.c:556-564 | any other character behind a dollar sign is the name of a variable |
| `ExpansionText.LastDollar` | source/gnu-make/src/expand.c:414-419 | a dollar sign at the end stands for itself |
| `ExpansionText.VariableStandsFor` | source/gnu-make/src/expand.c:268-295 | an undefined variable stands for nothing, a simple one for its value as it is, a recursive one for the expansion of its value, unless that is going on already |
| `ExpansionText.ExpandNested` | source/gnu-make/doc/make.texi:5822-5837 | the example of the manual: a reference to a variable that refers to another and that to a third gives the value of the third; a simple value behind it is not searched for references |
| `ExpansionText.FlagsComeBack` | source/gnu-make/src/main.c:3403-3483 | words quoted for MAKEFLAGS, expanded as make expands a variable, and split come back as the words that are kept, whatever variables are defined |
| `Getopt.ExchangeBlocks` | source/gnu-make/src/getopt.c:295-372 | exchange turns the blocks A and B into B and A in place, both in their order, everything else untouched |
| `Getopt.ShorterBottom` | source/gnu-make/src/getopt.c:323-338 | swapping the shorter bottom block with the far end of the top block leaves an exchange with the same result |
| `Getopt.ShorterTop` | source/gnu-make/src/getopt.c:339-355 | swapping the shorter top block with the near end of the bottom block leaves an exchange with the same result |
| `Getopt.Syntax.EveryWordOnce` | source/gnu-make/src/getopt.c:528-603 | options and operands are a partition of the words of the command line |
| `Getopt.Getopt.Advance` | source/gnu-make/src/getopt.c:528-603 | either the next word with options is reached, the operands before it moved behind the options, or the run is finished |
| `Getopt.Getopt.FindLong` | source/gnu-make/src/getopt.c:634-668 | an exact long option name wins, otherwise an abbreviation must be unique |
| `Getopt.Getopt.DecodeLong` | source/gnu-make/src/getopt.c:620-751 | a long option is decoded as its syntax says and takes the next word exactly when it requires an argument that is not attached |
| `Getopt.Getopt.DecodeShort` | source/gnu-make/src/getopt.c:753-949 | one short option is decoded as its syntax says, and the word is passed when its letters are used up |
| `Getopt.Getopt.Next` | source/gnu-make/src/getopt.c:502-949 | one call reports the next option of a reading from left to right, or ends the run |
| `Getopt.Getopt.Run` | source/gnu-make/src/getopt.c:502-949 | over a whole run the options are those of a reading from left to right, and argv becomes a stable partition, options with their arguments and a first -- before the operands, with optind where these begin |
| `Getopt.Syntax.RereadExactlyWhen` | source/gnu-make/src/getopt.c:528-603 | the rearranged command line reads like the original and stays as it is exactly when its last word is not an option that would now find an operand for its argument, or there are no operands |
| `Getopt.MisplacedFlag` | source/gnu-make/src/getopt.c:903-934 | a line whose last option lacks its argument, and finds it when the rearranged line is read |
| `Getopt.Syntax.StarvedTakesAnOperand` | source/gnu-make/src/getopt.c:903-934 | an option without its argument at the end takes an operand when the rearranged line is read again |
| `GetoptReadings.LongArgumentEitherWay` | source/gnu-make/src/getopt.c:670-712 | the argument of a long option that requires one can be attached behind an equals sign or be the next word: the same options and operands are read, and the argument is reported without the equals sign |
| `GetoptReadings.AttachedToLong` | source/gnu-make/src/getopt.c:670-700 | an attached argument is what follows the first equals sign, and an option that takes none is told not to want it |
| `GetoptReadings.LongAlone` | source/gnu-make/src/getopt.c:701-716 | a long option without an argument lacks it exactly if it requires one, and takes no other word |
| `GetoptReadings.ShortArgumentEitherWay` | source/gnu-make/src/getopt.c:916-946 | the argument of an option letter that requires one can follow it in the word or be the next word |
| `GetoptReadings.AttachedToShort` | source/gnu-make/src/getopt.c:902-947 | the letters behind a letter that takes an argument are the argument |
| `GetoptReadings.LettersTogether` | source/gnu-make/src/getopt.c:753-949 | letters behind one that takes no argument, or is unknown, are read as if they had a dash of their own |
| `GetoptReadings.ShortAlone` | source/gnu-make/src/getopt.c:753-949 | an option letter alone takes no other word unless it requires an argument and there is one |
| `GetoptReadings.OperandsAndTerminator` | source/gnu-make/src/getopt.c:528-603 | a word without a dash, or a dash alone, is an operand, and behind a -- every word is one |
| `GetoptReadings.ResolveExactly` | source/gnu-make/src/getopt.c:640-668 | a name stands for the first option of exactly that name, or without one for the only option it abbreviates, and for none exactly when it abbreviates none |
| `GetoptReadings.ParseMixed` | source/gnu-make/src/getopt.c:502-949 | a line with an operand, two options with their arguments and a -- is reported and rearranged as it should be |
| `DirCache.Cache.FindDirectory` | source/gnu-make/src/dir.c:464-629 | a directory is up to date and linked to what the system says it is, unless its shared contents were brought up to date under another name while it came to mean something else; open_directories stays exact and below the limit |
| `DirCache.Cache.ReadOn` | source/gnu-make/src/dir.c:724-793 | the stream is read as far as the file, or to its end; the table then holds exactly what was read, and the stream is closed and uncounted at its end |
| `DirCache.Cache.ContentsFileExists` | source/gnu-make/src/dir.c:634-793 | for a non-empty name the answer is membership in the full listing and not being marked, however much has been read; marks are only lost, and only by names that are in the directory |
| `DirCache.Cache.DirFileExists` | source/gnu-make/src/dir.c:799-806 | the cache answers like the file system for every non-empty name that is not marked, unless the directory is misled, when it answers for the other directory; for the empty name it tells whether the directory has a table, which it has if it can be opened |
| `DirCache.Cache.FileExists` | source/gnu-make/src/dir.c:812-880 | the name is split at its last slash and the cache asked about the rest, which is empty for a name that ends in a slash |
| `DirCache.Cache.FileImpossible` | source/gnu-make/src/dir.c:886-977 | the name is marked, and the mark will be looked at exactly if the directory could be found; no other name gets a mark, and when no command has run since the directory was looked up no name loses one |
| `DirCache.Cache.FileImpossibleP` | source/gnu-make/src/dir.c:981-1070 | answers whether the name is marked |
| `DirCache.Cache.MarkAndAsk` | source/gnu-make/src/dir.c:953-977 | a mark is remembered until the next question exactly when there is a directory to keep it for; without one it is forgotten at once |
| `DirCache.ReadingTakesMarks` | source/gnu-make/src/dir.c:724-782 | reading on takes the mark from the names that are read and from no others |
| `DirCache.OtherDirectoryAnswers` | source/gnu-make/src/dir.c:484-497 | a history after which the cache denies a file that exists, because the contents were refreshed under another name |
| `DirCache.NameIsSplit` | source/gnu-make/src/dir.c:812-880 | every name is its directory, a slash and a file name without a slash |
| `AutomaticVariables.SetVariables` | source/gnu-make/src/commands.c:178-316 | the three variables are the names of the mentions listed separated by spaces, $^ being written over $+ in the same buffer, and the order-only flags end up as stated |
| `AutomaticVariables.Deps.ListedExactly` | source/gnu-make/src/commands.c:251-316 | $^ lists exactly the names with a mention that is not order-only and $\| exactly those with order-only mentions alone, each once and at its first mention |
| `AutomaticVariables.Deps.PlusExactly` | source/gnu-make/src/commands.c:202-229 | $+ lists exactly the mentions that are not order-only, also those that come again |
| `AutomaticVariables.MemberIsShown` | source/gnu-make/src/commands.c:208-220 | a member of an archive is shown without the archive |
| `AutomaticVariables.NameIsShown` | source/gnu-make/src/commands.c:208-220 | any other name is shown as it is |
| `AutomaticVariables.Deps.ListedInOrder` | source/gnu-make/src/commands.c:275-316 | the lists keep the order of the makefile |
| `AutomaticVariables.Deps.CaretFitsPlus` | source/gnu-make/src/commands.c:180-236 | $^ always fits the buffer sized for $+ |
| `AutomaticVariables.Deps.BarFits` | source/gnu-make/src/commands.c:180-243 | the order-only list always fits the buffer sized for the order-only mentions |
| `AutomaticVariables.Deps.FlagsMerge` | source/gnu-make/src/commands.c:257-272 | comparing a mention with the first of its name clears both flags exactly when they differ |
| `AutomaticVariables.HashDeps` | source/gnu-make/src/commands.c:251-273 | after the hashing loop the table holds the first mention of every name and each flag says whether an earlier, or for a first mention any, mention was normal |
| `AbsolutePaths.Abspath` | source/gnu-make/src/function.c:2054-2166 | the walk in one buffer gives the path of the stack of directories, and nothing exactly for an empty name, a missing starting directory or a name that gets too long on the way |
| `AbsolutePaths.AbsoluteIsCanonical` | source/gnu-make/src/function.c:2050-2052 | the result is absolute, has no empty, . or .. component, and is left as it is when made absolute again |
| `AbsolutePaths.BackUp` | source/gnu-make/src/function.c:2139-2145 | backing up from a path ends behind the slash of the directory above |
| `AbsolutePaths.GoDown` | source/gnu-make/src/function.c:2146-2157 | a component is appended exactly when the name made is shorter than the limit |
| `AbsolutePaths.PathReadsBack` | source/gnu-make/src/function.c:2120-2135 | the components of a canonical path are the stack it was made from |
| `AbsolutePathLaws.UpCancels` | source/gnu-make/src/function.c:2139-2156 | a directory and .. behind it cancel wherever they stand, provided that the name of the directory is not too long |
| `AbsolutePathLaws.UpAtRoot` | source/gnu-make/src/function.c:2139-2145 | at the root .. means to stay |
| `AbsolutePathLaws.DotStays` | source/gnu-make/src/function.c:2137-2138 | . means to stay wherever it stands |
| `AbsolutePathLaws.DoubledSlash` | source/gnu-make/src/function.c:2125-2127 | a slash more makes no difference |
| `AbsolutePathLaws.TrailingSlash` | source/gnu-make/src/function.c:2160-2163 | nor does a slash at the end |
| `AbsolutePathLaws.RelativeIsBelow` | source/gnu-make/src/function.c:2066-2092 | a relative name has the absolute name of the one below the starting directory |
| `IntegerCompare.IntCmp` | source/gnu-make/src/function.c:1313-1365 | fatal exactly for texts that are no numerals; otherwise the documented part is selected by the order of the integers, and two equal arguments alone print a canonical numeral of their value |
| `IntegerCompare.Compare` | source/gnu-make/src/function.c:1317-1331 | sign, then length, then digits decide as the order of the integers denoted, for any length |
| `IntegerCompare.ParseTextint` | source/gnu-make/src/function.c:1266-1296 | fatal exactly for texts that are no numerals; otherwise the sign and significant digits of the integer denoted are found |
| `IntegerCompare.LongerIsLarger` | source/gnu-make/src/function.c:1325-1327 | of two numbers without leading zeros the longer is the larger |
| `IntegerCompare.FirstDifference` | source/gnu-make/src/function.c:1328-1329 | for numbers of the same length the first different digit decides |
| `IntegerCompare.DenotesOnce` | source/gnu-make/src/function.c:1255-1265 | a text denotes at most one integer |
| `IntegerCompare.CanonicalOnce` | source/gnu-make/src/function.c:1333-1343 | an integer has one canonical numeral, so the text printed is determined |
| `IntegerCompare.CompareTenAndNine` | source/gnu-make/src/function.c:1351-1364 | +10 is greater than 9, 9 is equal to 9 and -10 is less: the third, second and first part are expanded, and the second serves when there is no third |
| `EnvironmentSwitches.QuoteForEnv` | source/gnu-make/src/main.c:3464-3483 | the quoted string is appended and takes at most twice the room |
| `EnvironmentSwitches.DecodeEnvSwitches` | source/gnu-make/src/main.c:3403-3456 | the copying loop splits and unquotes the value as the recursive reading does, within a buffer of its length and two, and gives the first word its dash |
| `EnvironmentSwitches.RoundTrip` | source/gnu-make/src/main.c:3403-3483 | words quoted, joined, expanded and split come back, but for white space in front and empty words that are not last, with a dash before the first if it needs one |
| `EnvironmentSwitches.RoundTripExactlyWhen` | source/gnu-make/src/main.c:3403-3483 | all words come back exactly when the first is not empty and does not begin with a line break, and no word before the last is empty |
| `EnvironmentSwitches.KeptExactly` | source/gnu-make/src/main.c:3440-3446 | all words come back exactly when none but the last is empty |
| `EnvironmentSwitches.JoinedUndoubles` | source/gnu-make/src/main.c:3464-3483 | expansion of the joined value turns every doubled dollar sign into one and nothing else |
| `EnvironmentSwitches.QuotedOne` | source/gnu-make/src/main.c:3464-3483 | a dollar sign is doubled, a blank or backslash gets a backslash, and any other character stays |
| `EnvironmentSwitches.DecodeLetters` | source/gnu-make/src/main.c:3403-3456 | letters and a definition with a quoted blank are split as they should be, and the letters get a dash |
| `Checksum.IpChecksum` | source/marius/dhcp_bare.c:85-95 | for every length that is an int the two loops compute the complement of the folded word sum modulo 2 to the 32, which for up to 128 kilobytes is that of the word sum itself |
| `Checksum.WrapHarmlessExactlyWhen` | source/marius/dhcp_bare.c:85-95 | wrapping around at 32 bits leaves the folded sum as it is exactly when what is lost folds to nothing and something positive is left of a positive sum |
| `Checksum.FoldIsRemainder` | source/marius/dhcp_bare.c:93 | folding ends at the 16-bit value congruent to the sum modulo 65535 that is positive when the sum is |
| `Checksum.VerifiesExactlyWhen` | source/marius/dhcp_bare.c:85-95 | data verifies exactly when its word sum is a positive multiple of 65535 |
| `Checksum.FilledHeaderVerifies` | source/marius/dhcp_bare.c:127-135 | a header whose checksum field was zero has checksum zero once the field is filled in |
| `Checksum.OnlyTheChecksumVerifies` | source/marius/dhcp_bare.c:127-135 | no other value of the field verifies, but for 65535 in place of 0 |
| `Checksum.ByteOrderMattersExactlyWhen` | source/marius/dhcp_bare.c:85-95 | a machine that stores the high byte first writes the same bytes of the checksum exactly when there is no odd byte at the end, or it is zero |
| `Checksum.CreateIpHeader` | source/marius/dhcp_bare.c:127-135 | the header written behind the Ethernet header has its fixed fields, verifies, and nothing else is touched |
| `Checksum.HeaderSays` | source/marius/dhcp_bare.c:127-135 | the header is of version 4, its length fields say 20 and 580 bytes, and it holds the time to live, the protocol UDP and the addresses |
| `Checksum.ExampleOfRfc1071` | source/marius/dhcp_bare.c:85-95 | the example of section 3 of RFC 1071 comes out as it does there, in both byte orders |

## Left out

- Process creation, signals, pipes, output synchronization, clocks and the load average: nondeterministic outcomes in the scheduler.
- All VMS, DOS, OS/2, Windows and AIX branches, case-insensitive file systems, and `.ONESHELL`.
- Scheduler.Make.NewJob: children of `$(shell)` and unknown children are not modelled, nor remote jobs except that they may be started in spite of the load.
- Scheduler.Make.AwaitToken: waits that end without a token are bounded by a parameter, which stands for the pool being served eventually.
- Jobserver.TopMakeFindsAllTokens: sub-makes are taken to exit cleanly; a make that is killed loses its tokens in the original too.
- HashTables.HashTable.InsertAt: the table may not outgrow 2 to the 32 slots, since the probe index has 32 bits; beyond that not every slot is probed (`Probing.EverySlotProbedExactlyWhen`). Statistics counters, `hash_load`, `hash_map`, `hash_dump`, `hash_free` and the quality of the hash functions are not modelled.
- HashTables.HashTable.Insert: the same limit of 2 to the 32 slots.
- HashTables.HashTable.Rehash: the same limit when the table is doubled.
- HashTables.HashTable.constructor: sizes below 2 to the 32 are asked for, for the same reason.
- Filter.FilterWords: words and patterns come already chopped, fewer than 15 times 2 to the 28 words, so that the table does not outgrow a 32-bit probe index; quoting of `%` is part of the chopping.
- Filter.HashWords: the same number of words.
- CommandArgv.Syntax.NewLineSplits: shells and flags made of words of other characters than backslashes and apostrophes, the flags without shell characters; a first word with an equals sign goes to the shell again.
- CommandArgv.Syntax.Construct: lines without `restp`, where newlines end nothing, are modelled but the text given to the shell is then stated without the newlines that get lost. A shell or flags with backslashes, apostrophes or shell characters that do not read back are split, but without a statement about the result.
- PosixFields.FastPathAgrees: parameter expansion, patterns, operators and double quotes are outside, since lines with their characters go to the shell.
- ImplicitSearch.Search.PatternSearch: second expansion, archive members, and the flags precious, intermediate, notintermediate, explicit and tried_implicit are not modelled; `file_exists_p` and `vpath_search` are parameters that do not change during a search. Completeness is stated for rules that apply directly and for chains in which the first rule that can be chained leads on at each link; when that rule fails, the second pass backtracks, and whether it then finds a chain depends on the names ruled out on the way, whose soundness depends on the rules in use at that moment. A name ruled out is remembered for the whole search, whereas the directory cache forgets a mark at once when there is no directory for it (`DirCache.Cache.MarkAndAsk`). Fields of a `struct file` for an intermediate file are the derivation returned.
- Expansion.Expander.ExpandString: references to literal names; nested references in names, substitution references, function calls, `+=` values and `$(call)` are not modelled, nor target-specific scopes.
- ExpansionText.TextNameAndRest: the name is literal here too, that is, it has no references, is no function call and no substitution reference.
- Getopt.Getopt.Run: the orders REQUIRE_ORDER and RETURN_IN_ORDER, in which nothing is moved, `-W` and `long_only` are not modelled; messages are outcomes.
- DirCache.Cache.DirFileExists: the file system is taken not to change while no command runs; wrap-around of the command counter and read errors are not modelled. The tables are finite maps, as the hash table is proved to be.
- AutomaticVariables.SetVariables: `$?`, `$<`, `$*`, `$@` and `$%` are not modelled; the static buffers are new ones of the size computed, and fewer than 15 times 2 to the 28 prerequisites are given.
- AbsolutePaths.Abspath: the starting directory is the path of a list of directories shorter than the limit, as `getcwd` gives it.
- AutomaticVariables.HashDeps: fewer than 15 times 2 to the 28 prerequisites.
- IntegerCompare.IntCmp: the expansion of the arguments and of the selected part is not modelled.
- Checksum.IpChecksum: the machine stores the low byte first; for the other order the result is a function without a method.
- `chop_commands`, `print_commands`, `allocate_ip`: they would add only easy members.
- The rest of GNU Make (reading makefiles, remaking targets, archives, printing) and the other programs of the repository.
