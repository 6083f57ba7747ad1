# SIEAdmin governors, modelled in Dafny

SIEAdmin is a set of small administration daemons for a shared Linux machine.
This project models their core:

- **System status.** `SystemStatus` reads the load averages out of the
  `uptime` line. It turns a batch `top` frame plus a `ps axo pid,user:20`
  listing into the busy processes, each with its full user name.
- **CPU priority scheduler.** `PrioritiyScheduler` groups the busy processes
  of the users who have a home directory. Under `user_fair_scheduler` it
  renices them so that every user gets a fair share of CPU. Under
  `none_scheduler` it resets every niceness to 0. It runs in a loop guarded
  by the load threshold and a SIGTERM flag, and restores all niceness to 0
  in a `finally` block.
- **Disk usage monitor.** `DiskUsageMonitor` parses a quota such as `20G`,
  measures each home directory with `du -s`, and kills the non-critical
  processes of every user over the quota.
- **Registration service.** `register` validates a registration form
  against the invited-students file and the registered-ids file. It then
  runs `useradd` and `chpasswd` and records the new id.
- **Helpers.** `build_rescaler` and `round_by` from `utils.py`.

Every external effect is modelled explicitly:

- The text of each command's output (`uptime`, `top`, `ps`, `du`, the files)
  is a parameter.
- Every command a daemon issues (`renice -n p -p pid`, `kill -9 pid`) is
  appended to a `log` of `Command` values. The text of each command line
  reads back to the same command.
- The SIGTERMs delivered during the one-second ticks are a sequence of
  booleans per pass of the loop.
- Whether each shell step of the registration succeeds is a `Shell` value.

Python's own data behaviour is written out:

- `dict` keeps insertion order (`Dicts.Dict`).
- `str.split`, `strip`, `rfind` and `int()` are modelled, and `float()` as an
  exact decimal.
- `round()` rounds half to even.
- The regular expressions become functions whose matches are characterised
  by lemmas.
- An exception is an `Err` of `Wrappers.Error`.

Modules and files:

- `wrappers.dfy` holds `Option`, `Result` and `Error`.
- `dicts.dfy` models insertion-ordered dictionaries.
- `text.dfy` holds the string operations.
- `commands.dfy` holds the shell commands and their command lines.
- `utils.dfy`, `system.dfy`, `cpu.dfy`, `disk.dfy` and `users.dfy` follow the
  source files of the same names.

The two governor daemons are `class`es whose methods update their flags and
their command logs in place. The pure parts are functions with lemmas.

A few ghost functions are second names for a function defined elsewhere:
`Disk.Counted` for `DuBlocks`, `Disk.RoundResult` for `RoundKills`,
`Cpu.Works` for `CycleWork` over the passes, and `Cpu.Restored` for
`Restore`. They are picked with `:|` and tied to the original by a lemma or
an `ensures`, so a proof about a loop can use them without unfolding the
text and pass functions. They add no behaviour and bound proof cost only.

## Model

| member | source | states |
|---|---|---|
| Utils.RescaleDegenerate | utils.py:15-17 | A one-point source range sends every input to 0, whatever the target range. |
| Utils.RescaleEndpoints | utils.py:18-19 | The two ends of the source range go to the two ends of the target range. |
| Utils.RescaleMonotone | utils.py:18-19 | For ordered ranges a larger input never gives a smaller output. |
| Utils.RescaleBounds | utils.py:13-19 | The source range is mapped into the target range. |
| Utils.RoundHalfEven | utils.py:33 | `round` gives an integer within one half of its argument, and on a tie the even one. |
| Utils.RoundHalfEvenUnique | utils.py:33 | No other integer has those two properties, so they define `round`. |
| Utils.RoundHalfEvenMonotone | utils.py:33 | Rounding never reverses the order of two values. |
| Utils.RoundByNearestMultiple | utils.py:23-33 | `round_by(x, step)` is an integer multiple of `step` within half a step of `x`. |
| Utils.RoundByNonNegative | utils.py:33 | A non-negative value with a positive step rounds to a non-negative multiple. |
| Utils.RoundByExamples | utils.py:26-31 | The documented results 165 → 150 and 175 → 200 hold; the tie 125 goes to the even quotient, giving 100. |
| Commands.RenderRoundTrip | cpu.py:66-70 | The command line of a renice or a kill reads back as that very command, so it names exactly its pid and priority. |
| Commands.ReniceRoundTrip | cpu.py:68 | `renice -n %d -p %d` reads back as the priority and pid it was built from. |
| Commands.KillRoundTrip | disk.py:65 | `kill -9 %d` reads back as the pid it was built from. |
| Commands.ReniceLine | cpu.py:68 | A renice line splits on blanks into its five words, the two numbers in their places. |
| Commands.KillLine | disk.py:65 | A kill line splits on blanks into its three words, the pid last. |
| Text.SplitOn | core/system.py:38 | `split('\n')` yields at least one piece, no piece holds the separator, and the pieces joined back are the input. |
| Text.SplitOnJoin | core/system.py:40 | Splitting a join of separator-free pieces gives back exactly those pieces. |
| Text.SplitWsShape | core/system.py:39 | `split(maxsplit=m)` yields at most m+1 non-empty words without leading white space. All but a maxsplit-limited last one are free of white space. That last one is a suffix of the input. |
| Text.SplitWsLayout | core/system.py:39-41 | For a text of n non-empty words without white space, separated by non-empty white space and with optional white space at both ends: `split()` gives exactly those words. With `maxsplit=m` and 0 <= m < n, it gives the first m words and then one field running from word m to the end of the text, inner and trailing white space included. |
| Text.SplitTwoWords | users.py:25 | Two words with white space between them and only white space after them split into exactly those two words. |
| Text.Strip | users.py:25 | `strip()` is the input with a run of white space removed from each end, and nothing else. The result has no white space at either end, so the runs removed are the whole leading and trailing white space. A string without white space is unchanged. |
| Text.RFind | core/system.py:38 | `rfind` gives an occurrence of the pattern with none after it, or -1 when there is none. |
| Text.FindFrom | core/system.py:29 | The search gives the first occurrence at or after the start, or -1 when there is none. |
| Text.NatToString | core/system.py:44 | `str(n)` is decimal digits without a leading zero. |
| Text.IntRoundTrip | core/system.py:44 | `int(str(n)) == n`, and `str(n)` holds no white space. |
| Dicts.PutAllAppend | users.py:25 | Inserting two runs of pairs is inserting their concatenation. |
| Dicts.FromPairsLastWins | users.py:25 | `dict(pairs)` has exactly the keys of the pairs, and a key's value is that of its last pair. |
| Dicts.FromPairsValues | core/system.py:41 | Every entry of `dict(pairs)` is one of the pairs. |
| Dicts.PutThree | cpu.py:59 | Three distinct keys inserted in turn are listed in insertion order with their values. |
| System.MakeProcessState | core/system.py:6-18 | A state is built exactly when there are twelve fields, the pid parses as an int, and CPU and MEM parse as floats. Otherwise the error is TypeError for a wrong field count and ValueError for a bad number. Each field lands in its attribute and the time field is dropped. |
| System.StripEscapesSubsequence | core/system.py:36-37 | Removing escape sequences only deletes characters: the output is a subsequence of the input. |
| System.StripEscapesNoEscape | core/system.py:37 | Text without ESC is unchanged. |
| System.StripEscapesPlainPrefix | core/system.py:37 | ESC-free text in front of the rest passes through, and only the rest is processed. |
| System.StripEscapesControlSequence | core/system.py:36 | A complete CSI sequence (parameters, intermediates, final byte) is removed. |
| System.StripEscapesLiterals | core/system.py:36 | `ESC ( B` and `ESC >` are removed. |
| System.LastFrame | core/system.py:38 | The slice is the suffix that begins at the last `top - ` header, with no later header. Without a header it is the last character only, because `rfind` gives -1. |
| System.FrameLinesOfFrame | core/system.py:38 | A frame of seven header lines, body lines and a final segment yields exactly the body lines. |
| System.MakeStatesSpec | core/system.py:39 | The states are built exactly when every line makes one, one state per line, in line order. |
| System.MakePairs | core/system.py:41 | Each successful pair is the `strip().split(maxsplit=1)` of its line, one per line. |
| System.MakePairsOk | core/system.py:41 | The pairs are built exactly when every line strips and splits into two fields; otherwise the error is ValueError. |
| System.ListingBodyOf | core/system.py:40 | Dropping the first and the last piece of a `ps` listing gives exactly its body lines. |
| System.ParsePsSpec | core/system.py:40-41 | The pid-to-user map exists exactly when every body line is a pair; otherwise the error is ValueError. Its keys are exactly the listed pids, and a pid listed twice keeps its last user. |
| System.SelectedSpec | core/system.py:43-50 | Exactly the states whose pid `ps` lists and whose CPU is at least 10 are kept, in their original order. A kept state occurs as often as in the input. |
| System.SelectedCount | core/system.py:43-50 | Each valid state occurs in the result as many times as in the input; any other state occurs 0 times. |
| System.CorrectUsers | core/system.py:51-52 | The in-place loop sets every state's user to the `ps` owner of its pid and changes nothing else. |
| System.KeepValid | core/system.py:43-52 | The filter followed by the user correction yields the kept, corrected states. |
| System.ProcessStates | core/system.py:33-53 | `process_states` on the two outputs is the snapshot, or the first exception it raises. |
| System.SnapshotStates | core/system.py:33-53 | Every state of a snapshot ran at 10% CPU or more, its pid is listed by `ps`, and its user is the `ps` owner of that pid. |
| System.KeptStates | core/system.py:43-52 | The same three facts for every kept state. |
| System.LoadFieldsOfUptime | core/system.py:29 | On an `uptime` line the lazy groups capture the three comma-separated fields. |
| System.SystemLoadOfUptime | core/system.py:27-30 | When the three fields are decimal numbers, `system_load` yields exactly those numbers, in order. |
| System.SystemLoadBadField | core/system.py:30 | A field that is not a number makes `system_load` raise ValueError. |
| System.LoadFieldsAbsent | core/system.py:30 | Without `load average: ` in the text, indexing the empty match list raises IndexError. |
| Cpu.LoadStats | cpu.py:35-44 | The loop builds the grouped processes and the per-user counts of the specification functions. |
| Cpu.LoadStatsSpec | cpu.py:35-44 | The users kept are exactly the home users owning a sampled process. Each keeps all its processes in sampling order, and its count is the length of that list. |
| Cpu.GroupedPositive | cpu.py:40-43 | Grouping a sample of busy processes keeps only busy processes. |
| Cpu.MinCount | cpu.py:52 | `min(cnts.values())` is one of the counts and no count is smaller. |
| Cpu.MaxPriority | cpu.py:60 | `max(priorities.values())` is one of the priorities and none is larger. |
| Cpu.FairPriorities | cpu.py:53-59 | The nested loops compute the raw priorities of the specification, or the exception they raise. |
| Cpu.PrioritizeUser | cpu.py:57-59 | The inner loop adds one raw priority per process of a user, or raises ZeroDivisionError at a process with no CPU time. |
| Cpu.RawPrioritiesPairs | cpu.py:51-59 | When every process used some CPU, the raw priorities are `dict` of all per-process pairs, user by user. Otherwise they raise ZeroDivisionError. |
| Cpu.ProcessWeightAtLeastOne | cpu.py:58 | `round_by(total / cpu, 100) or 1` is at least 1. |
| Cpu.ProcessWeightOfLargeShare | cpu.py:58 | A process with at least a fiftieth of its user's CPU weighs exactly 1. |
| Cpu.UserWeightSpec | cpu.py:52-55 | Each user weight is at least 1, and equals 1 exactly for the users with the fewest processes. |
| Cpu.RawPriorityAtLeastOne | cpu.py:55-59 | Every raw priority of a busy process is at least 1. |
| Cpu.NiceBounds | cpu.py:60-62 | Raw priorities between 1 and the maximum get a niceness between 0 and 19. |
| Cpu.NiceOfTop | cpu.py:60-62 | The largest raw priority gets niceness 19 when it exceeds 1. |
| Cpu.NiceFlat | cpu.py:60-62 | When the largest raw priority is 1 the rescaler is degenerate and every niceness is 0. |
| Cpu.NiceMonotone | cpu.py:60-62 | A larger raw priority never gets a smaller niceness. |
| Cpu.RenicesIndex | cpu.py:61-64 | The i-th renice is for the i-th pid of the dictionary, at its rescaled priority. |
| Cpu.RawPrioritiesKeys | cpu.py:53-59 | With at least one user and busy processes, the raw priorities exist and cover exactly the pids of the grouped processes. |
| Cpu.RawPrioritiesAtLeastOne | cpu.py:53-59 | Every raw priority is at least 1. |
| Cpu.FairActionsShape | cpu.py:51-64 | The scheduler renices each pid in dictionary order against the largest raw priority, and every raw priority lies between 1 and that maximum. |
| Cpu.FairActionsOncePerPid | cpu.py:46-64 | `user_fair_scheduler` renices every grouped pid exactly once and no other pid. |
| Cpu.RenicesPids | cpu.py:61-64 | The renices of a dictionary name each of its keys once and nothing else. |
| Cpu.RenicesBounds | cpu.py:60-64 | Every renice issued has a priority between 0 and 19. |
| Cpu.RenicesMonotone | cpu.py:60-64 | A pid with a larger raw priority is never reniced lower. |
| Cpu.RenicesTop | cpu.py:60-64 | The pids with the largest raw priority are reniced to 19 when it exceeds 1. |
| Cpu.RenicesFlat | cpu.py:60-64 | When every raw priority is 1, every pid is reniced to 0. |
| Cpu.FairActionsFailure | cpu.py:52 | `user_fair_scheduler` fails exactly when no user is left, with the ValueError of `min` over nothing. |
| Cpu.FairExample | cpu.py:46-64 | User A with two processes at 10% each and user B with one at 40%: A's pids go to 19 and B's to 0. |
| Cpu.ResetOfSpec | cpu.py:75-78 | The reset loops issue only `renice -n 0`, one for every listed process of the given users and none for any other pid. |
| Cpu.ResetActionsSpec | cpu.py:72-78 | `none_scheduler` resets exactly the pids of the grouped processes to 0. |
| Cpu.LoadedStats | cpu.py:35-44 | The loaded stats, when the sample parses, are well formed: the same users in both, each count the length of its list. |
| Cpu.LoadedStatsPositive | cpu.py:35-44 | Every process in loaded stats has positive CPU: `process_states` keeps only processes at 10% or more (core/system.py:43-50), so the division by `p.cpu` at cpu.py:58 cannot fail on loaded stats. |
| Cpu.LoadedFairFailure | cpu.py:46-58 | On stats that `load_stats` returns, `user_fair_scheduler` fails exactly when no user is left, and then with the ValueError of `min`. It never fails with ZeroDivisionError. |
| Cpu.TicksSpec | cpu.py:100-103 | The tick loop returns exactly when the flag is or gets set before a check, and afterwards the flag is set exactly when it was or a SIGTERM came. |
| Cpu.PriorityScheduler.constructor | cpu.py:22-27 | A new scheduler has the given threshold and interval, both flags clear and no commands issued. |
| Cpu.PriorityScheduler.Exit | cpu.py:29-33 | The SIGTERM handler sets the flag, and a second SIGTERM changes nothing. |
| Cpu.PriorityScheduler.Renice | cpu.py:66-70 | Issues exactly one `renice -n pri -p pid`. |
| Cpu.PriorityScheduler.UserFairScheduler | cpu.py:46-64 | Issues the fair renices, or raises before issuing any. |
| Cpu.PriorityScheduler.ReniceAll | cpu.py:63-64 | Issues one renice per dictionary entry, in dictionary order. |
| Cpu.PriorityScheduler.ResetProcesses | cpu.py:76-78 | Issues `renice -n 0` for each of one user's processes, in order. |
| Cpu.PriorityScheduler.NoneScheduler | cpu.py:72-78 | Issues the resets of `none_scheduler`, user by user. |
| Cpu.PriorityScheduler.RunCycle | cpu.py:90-99 | One pass reads the load, does nothing below the threshold, and otherwise loads the stats and runs the scheduler. It logs what the pass issues or returns the exception. |
| Cpu.PriorityScheduler.Sleep | cpu.py:100-103 | The tick loop follows `Ticks`: whether `run` returns and the flag afterwards. |
| Cpu.PriorityScheduler.Step | cpu.py:89-103 | One pass followed by its ticks either ends the loop as the loop function says, or leaves the rest of the loop to the later passes. |
| Cpu.PriorityScheduler.RunLoop | cpu.py:88-105 | The `try` block over the given passes: how it stopped, the flag, and the commands issued. |
| Cpu.PriorityScheduler.RestorePass | cpu.py:106-109 | The `finally` block reloads the stats and resets every niceness, or raises. |
| Cpu.PriorityScheduler.Run | cpu.py:80-111 | `run` ends as the run function says. It returns the outcome, logs every command issued and leaves the flag as that function gives it. `__exited` is set only when the restore pass completed. |
| Cpu.LoopFromStep | cpu.py:89-105 | An exception in a pass stops the loop with nothing more issued; otherwise the ticks decide whether the loop returns or goes on. |
| Cpu.LoopIdle | cpu.py:91-94 | When every pass finds the load below the threshold, no scheduler runs: nothing is issued and nothing raised. |
| Cpu.LoopNoTicks | cpu.py:100-103 | With `interval <= 0` the flag is never checked, so the loop never returns. |
| Cpu.LoopExitSet | cpu.py:100-102 | With the flag already set and at least one tick, the first pass that does not raise is the last. |
| Cpu.RunUnknownScheduler | cpu.py:84-87 | An unknown scheduler name raises before the `try`: nothing issued, flags unchanged. |
| Cpu.RunStops | cpu.py:88-111 | `run` finishes exactly when the `try` block ended. `__exited` is set exactly when the restore pass completed, and a failing restore pass issues nothing more. |
| Cpu.RunEndsWithRestore | cpu.py:106-110 | A finished `run` ends with `renice -n 0` for exactly the pids of the freshly loaded stats, after whatever the passes issued. |
| Disk.SearchFromSpec | disk.py:35 | The search finds nothing exactly when the pattern occurs nowhere from the start. Otherwise it finds the leftmost occurrence, whose digit run is fixed. |
| Disk.QuotaMatch | disk.py:35 | The first match is a non-empty run of digits and one unit letter. |
| Disk.ParseQuota | disk.py:35-41 | The stepwise computation in `__init__` gives the quota of the specification, or the IndexError. |
| Disk.QuotaBytesSpec | disk.py:35-41 | The quota parses exactly when the pattern occurs, and then is the number of the leftmost occurrence times the unit factor. Otherwise it raises IndexError. |
| Disk.QuotaRoundTrip | disk.py:35-41 | A number followed by a unit letter reads back as that number times 1, 1024 or 1024². |
| Disk.QuotaDefault | disk.py:23 | The default `20G` is 20971520 blocks. |
| Disk.QuotaMebibytes | disk.py:37-38 | `500m` is 512000 blocks. |
| Disk.QuotaFraction | disk.py:35 | `1.5G` is read as 5 GiB, because only the first integer directly before a unit letter counts. |
| Disk.QuotaWithoutUnit | disk.py:35 | A number without a unit letter raises IndexError. |
| Disk.NewMonitor | disk.py:23-44 | The monitor is created exactly when the quota parses, with that quota and interval and clear flags; otherwise the quota's error is raised. |
| Disk.DiskUsageMonitor.constructor | disk.py:41-44 | A new monitor has the given quota, interval, no flags set and no commands issued. |
| Disk.DiskUsageMonitor.Exit | disk.py:46-51 | The SIGTERM handler sets the flag, and a second SIGTERM changes nothing. |
| Disk.CriticalExamples | disk.py:53-60 | Critical names match whole and case-sensitively: `bash` is critical, `Bash`, `bash ` and `-bash` are not. |
| Disk.DiskUsageMonitor.KillProcess | disk.py:62-67 | Issues exactly one `kill -9 pid`. |
| Disk.DiskUsageMonitor.KillUser | disk.py:76-79 | Issues the kills of one user's non-critical processes, in listing order. |
| Disk.DiskUsageMonitor.KillIfOver | disk.py:72-79 | Skips a user within the quota; otherwise issues that user's kills. |
| Disk.DiskUsageMonitor.KillQuotaExceeded | disk.py:69-79 | Issues the kills of every over-quota user, in the usage dictionary's order. |
| Disk.KillsUpToSpec | disk.py:76-79 | For one user, only kills are issued, and exactly for the pids of that user's non-critical processes. |
| Disk.KillActionsSpec | disk.py:69-79 | A pid is killed exactly when it belongs to a non-critical process of a user whose usage is strictly above the quota. Nothing but kills is issued. |
| Disk.KillsUpToNoRepeat | disk.py:76-79 | With distinct pids, the kills issued for one user name no command twice. |
| Disk.KillActionsNoRepeat | disk.py:69-79 | With distinct pids, the whole kill pass issues no command twice. A process is listed once, has one owner, and each owner is measured once. |
| Disk.KillSpares | disk.py:69-79 | With distinct pids, a critical process and a process of a user within quota or unmeasured survive. |
| Disk.KillNothingWithinQuota | disk.py:72-74 | When every measured user is within the quota, nothing is killed. |
| Disk.DuBlocks | disk.py:90-91 | A `du` line that is not exactly two fields with an integer first raises ValueError. |
| Disk.DuBlocksRoundTrip | disk.py:90-91 | The `du -s` line of a home reads back as its block count. |
| Disk.DiskUsageMonitor.LoadUsage | disk.py:81-93 | The loop over `/home` computes the usage of the specification, or the ValueError. |
| Disk.DiskUsageMonitor.LoadHome | disk.py:87-92 | One entry: a hidden name is skipped, any other is measured and recorded. |
| Disk.UsageSpec | disk.py:81-93 | `load_usage` succeeds exactly when every non-hidden entry has a readable `du` line; otherwise it raises ValueError. The keys are exactly the non-hidden names, and each name holds the count of its last entry. |
| Disk.UsageUpToFails | disk.py:86-91 | Once an entry fails, `load_usage` raises what that entry raised. |
| Disk.DiskUsageMonitor.Check | disk.py:102-103 | One pass measures the homes and issues that pass's kills, or returns the exception. |
| Disk.DiskUsageMonitor.Sleep | disk.py:106-109 | The tick loop follows `Ticks`, as for the scheduler. |
| Disk.DiskUsageMonitor.Step | disk.py:101-109 | One pass followed by its ticks either ends the loop as the loop function says, or leaves the rest to the later passes. |
| Disk.DiskUsageMonitor.RunLoop | disk.py:100-111 | The `try` block over the given passes: how it stopped, the flag, and the commands issued. |
| Disk.DiskUsageMonitor.Run | disk.py:95-114 | `run` ends as the loop ends, with `__exited` set whenever the loop stopped. |
| Disk.LoopFromStep | disk.py:101-111 | An exception in a pass stops the loop; otherwise the ticks decide whether the loop returns or goes on. |
| Disk.RoundKillsSpec | disk.py:102-103 | Over the pass's given process list, a pass raises only the ValueError of an unreadable `du` line. Otherwise it kills exactly the pids of non-critical processes of over-quota users. |
| Disk.LoopFromJustified | disk.py:100-111 | Every command the loop issues is a kill justified by some pass. Over the passes' given process lists, the only exception that ends it is a ValueError. |
| Disk.LoopFromWithinQuota | disk.py:100-109 | When every pass finds every user within the quota, nothing is killed and nothing raised. |
| Disk.LoopFromReturns | disk.py:106-108 | The loop returns only once the flag is set, and never when `interval <= 0`. |
| Disk.LoopExitSet | disk.py:106-108 | With the flag already set and at least one tick, the first pass that does not raise is the last. |
| Users.PairOf | users.py:25 | A line gives a pair exactly when `strip().split()` yields two fields. |
| Users.ReadPairs | users.py:20-26 | Reading fails only with ValueError, and a successful read is a well-formed dictionary. |
| Users.ReadPairsMissing | users.py:22-23 | A missing file reads as the empty dictionary. |
| Users.ReadPairsSpec | users.py:24-25 | A file reads exactly when all its lines are pairs, and then it is `dict` of the pairs in line order. |
| Users.ReadPairsWords | users.py:37-43 | Every id and every value read is a non-empty word without white space. |
| Users.LinesConcat | users.py:24-25 | Iterating a file loses nothing: the lines put back together are the text. |
| Users.RecordLineRoundTrip | users.py:32-33 | The appended `id username` line is a complete line that reads back as that pair. |
| Users.ReadAppend | users.py:29-33 | Appending a complete pair line to a text that ends a line sets that pair in what it reads as. |
| Users.ReadAfterRecord | users.py:29-34 | After `write_processed`, the registered-ids file reads as the old dictionary with that id mapped to that username. |
| Users.StripAlnumSpec | users.py:56 | The anchored substitution removes the whole username when it matches and changes nothing otherwise. |
| Users.LegalUsernameSpec | users.py:56 | A username is accepted exactly when it is non-empty ASCII letters and digits. |
| Users.TrailingNewlineRejected | users.py:56 | `abc\n` passes the pattern, because `$` matches before a final newline, but is still rejected. |
| Users.MessagesDistinct | users.py:57-81 | The seven replies are non-empty and pairwise different, so a reply tells which case happened. |
| Users.ValidateSpec | users.py:56-65 | Each refusal message is returned exactly when the earlier checks pass and its own fails; there is no refusal exactly when all five checks pass. |
| Users.RegisterRejects | users.py:66-69 | A refused form gets its message and touches nothing. |
| Users.RegisterRead | users.py:48-81 | After both files are read, a refusal replies with its message and nothing else happens; otherwise the account is created. |
| Users.RegisterSuccessIff | users.py:70-81 | Success is reported exactly when both files read, all checks pass, and `useradd`, `chpasswd` and the append all succeed. |
| Users.RegisterFailsGenerically | users.py:70-79 | Once the checks pass, `useradd` runs first. Any failing step gets the generic retry message and records nothing. |
| Users.RegisterEffectsSafe | users.py:50-77 | `useradd` always gets the checked username, which is non-empty letters and digits, or the student id when the username is empty. The password is the confirmed one, and the recorded line pairs the invited id with the username. |
| Users.RefusedOnceRecorded | users.py:62-63 | A form whose student id is recorded is refused without effects, whatever else it carries. |
| Users.RegisterOnce | users.py:62-77 | After a successful registration, any later form with the same student id is refused without effects. |
| Users.RegisterExample | users.py:47-81 | An invited student with an empty username gets an account named after the student id. |
| Users.RegisterNameExample | users.py:64-65 | The same student giving another name is refused with the name-mismatch message. |

## Left out

- The shell: `os.popen`, `os.listdir` and file I/O are not executed. Their
  outputs are parameters, and `renice` and `kill` become entries of the
  command log. Whether a command itself succeeds is not modelled for the
  daemons, whose source ignores it.
- The daemon machinery (`core.daemon.Daemon`, pid files, `start`, `stop`,
  `restart`), `argparse` and `main` are outside the model; `core/daemon.py`
  is not part of this model.
- Logging calls and `ProcessState.__repr__` have no effect that the model
  keeps.
- `time.sleep` and real signal delivery: each tick's SIGTERM arrival is an
  input flag, and the loops run over a finite sequence of passes. A loop
  that has not stopped after the last pass ends in `Running`.
- `SystemStatus._process_states` (core/system.py:55-60) is not called by any
  modelled code. It also builds `ProcessState` from nine fields where twelve
  are required.
- disk.py:14 imports `system_status` from `core.system`, which defines no
  such name. The monitor does not parse `top` and `ps` itself: each pass
  of the disk loop is given its process list as an input (`Disk.Round`'s
  `processes`), standing for what `process_states` returns.
- Disk.RoundKillsSpec: over the given process list, so it does not cover
  the TypeError or ValueError that `process_states` itself raises on a bad
  `top` or `ps` line (core/system.py:39-41). It also does not apply the
  10%-CPU and `ps`-listed filter (core/system.py:43-50) to the kill
  candidates.
- Disk.LoopFromJustified: "only ValueError ends the loop" holds for the
  given process lists. The exceptions that `process_states` raises, and its
  10%-CPU and `ps` filter, are outside the model, as for
  Disk.RoundKillsSpec.
- Disk.DiskUsageMonitor.KillQuotaExceeded: takes one process snapshot per
  pass, where the source reads `process_states` afresh for each over-quota
  user.
- `getattr(self, scheduler)`: only `user_fair_scheduler` and
  `none_scheduler` are recognised. Other attribute names, such as
  `load_stats`, are treated as missing.
- Text.Float: parses an optional sign, digits and an optional fraction
  (`1.`, `.5` included) exactly, as a real. Exponents, underscores, `inf`,
  `nan` and binary floating-point rounding are not modelled.
- Text.Int: accepts an optional sign and ASCII digits. Underscores between
  digits are not modelled.
- White space is the set `str.isspace()` accepts, listed character by
  character; Unicode digits (which `int()` and `float()` also accept) and
  case folding are not modelled.
- File lines are split at `\n` only, as Python's text mode does after
  newline translation.
- The web layer: Flask routing, the HTML form page, a missing form field
  (KeyError) and the HTTP response are outside the model.
- The shell quoting of `echo "user:password" \| chpasswd`: the password is
  passed as a value, and what a quote inside it would do to the shell is not
  modelled.
- Exceptions are named by type (`ValueError`, `IndexError`, `TypeError`,
  `ZeroDivisionError`, `AttributeError`), not by message.
