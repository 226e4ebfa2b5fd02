# oswatcher sampler core, modelled in Dafny

oswatcher runs, once per interval, one shell command per measurement
*group* named in an inventory file. It appends each command's output to
an hourly log file `prefix/group/host-YYYY-MM-DD-HH-group.dat`, after
trying to delete all but the last `retention` names of the list it takes
of that group's directory. That list is filtered by `os.path.isfile` on
bare names, which looks in the working directory, not in the group's
directory; as written it is normally empty, so nothing is pruned (see
"## Left out"). At the end of each cycle it prints a
sorted report of the groups whose command wrote to standard error. The
loop that starts the cycles keeps a drift-free schedule: the next start
time (the *anchor*) advances by exactly one interval per cycle. It does
not depend on how late the loop woke up or how long a cycle took.

The model covers the sequential logic of `src/__init__.py`. Time, the
host name, directory listings, command output and the file system are
plain inputs.

| file | module | what it holds |
|---|---|---|
| `wrappers.dfy` | `Wrappers` | `Option` |
| `pytext.dfy` | `PyText` | The Python 2 `str` operations the code relies on: `isspace`, `strip`, `split(None, 1)`, `split('#', 1)[0]`, `'; '.join`, `s[:stop]`, `splitlines`, string `<`. |
| `inventory.dfy` | `Inventory` | The inventory loop of `main`: one line parsed into a `(group, command)` entry, and the map the loop builds. |
| `timestamp.dfy` | `Timestamp` | `timestamp()`: the `%Y-%m-%d-%H:%M` label of a broken-down time. |
| `layout.dfy` | `Layout` | `os.path.join`, the log file's name and path, `heartbeat`, and the body one run appends. |
| `archive.dfy` | `Archive` | The file system as an object whose state is a map from path to content. Also the pruning loop with best-effort `unlink`, and `worker`'s effect on the archive. |
| `dispatch.dfy` | `Dispatch` | `sorted(results)`, the filtered error report of `do_one_event_loop`, and what that function returns. |
| `scheduler.dfy` | `Scheduler` | `event_loop`: a `Ticker` object holding the anchor `clock`, one method per half-iteration, and the loop over a finite run of observed times. |

Times in `Scheduler` are integer microseconds, the resolution of
`datetime`. The margin `timedelta(minutes = interval * 0.10)` is taken as
exactly a tenth of the tick, which is 6 s per minute of interval.

The `--keep` option is documented as "hours of results to keep"
(`src/__init__.py:302`). Where the code does something else, the model
follows the code:
- **Pruning order.** Keeping hours suggests that the oldest files go. The
  code deletes `logs[:-retention]` in `os.listdir` order, which is
  unspecified and not sorted. `Archive.Doomed` and `Archive.PruneKeepsTail`
  are stated in listing order.
- **File count.** The code keeps the last `retention` listed names and then
  appends to the current hour's file, so even when the listed names are
  all the files of the directory, at least `retention` were listed and
  every delete succeeds, the directory holds `retention + 1` files when
  that hour's file is new. The code sets no limit at all otherwise:
  refused deletes, names missing from the list (which, through the
  `isfile` filter, is normally all of them) and a retention of 0 or below
  leave more files behind.
- **Retention of zero.** `logs[:-0]` is empty, so a retention of 0 deletes
  nothing. A negative retention deletes the *first* `-retention` names.
- **Failure containment.** A command that exits non-zero or writes to
  standard error is handled normally: `communicate` returns, and the worker
  returns `(group, err)`. A command that cannot be started (`Popen`
  raises) is meant to affect only its own group: `except Exception` writes
  the failure into the group's file (lines 152-154). But the worker then
  reads the unbound `err` at line 156 and raises. It also raises when `open(fn, 'a')` fails at line 128, which
  is outside that `try`: a group name containing `/` puts a `/` into the
  file name, so the file lies in a directory nothing creates
  (`Layout.NestedLogName`). A worker that raises makes `sorted(results)`
  raise in the parent (line 167), which ends `event_loop`. With the chunk
  size 8192 all groups form one pool task, so the groups after the raising
  one are not run in that cycle either.

## Model

| member | source | states |
|---|---|---|
| PyText.LeadingSpace | src/__init__.py:244-245 | The whitespace `lstrip` skips: a prefix of `isspace` characters, followed by a non-space or the end. |
| PyText.TrailingSpace | src/__init__.py:244 | The whitespace `rstrip` removes: a suffix of `isspace` characters, preceded by a non-space or the start. |
| PyText.SpaceBefore | src/__init__.py:244 | The run of whitespace just before an index is all whitespace, and it is maximal. |
| PyText.TokenLength | src/__init__.py:245 | The first token of `split(None, 1)` is a maximal run of non-space characters. |
| PyText.TrimStartSkips | src/__init__.py:244-245 | `lstrip` of whitespace followed by a non-space-led string gives that string. |
| PyText.TrimEndSkips | src/__init__.py:244 | `rstrip` of a string ending in a non-space followed by whitespace gives that string. |
| PyText.Strip | src/__init__.py:244 | `strip` leaves nothing, or a string that neither starts nor ends with whitespace; `StripAround` says exactly what it removes. |
| PyText.TokenStops | src/__init__.py:245 | A token ends exactly at the first whitespace character. |
| PyText.StripFromNonSpace | src/__init__.py:244 | A string that starts with a non-space is its `strip` followed by whitespace only. |
| PyText.StripAround | src/__init__.py:244 | `strip` removes exactly the whitespace around a string with non-space ends. |
| PyText.SplitOnce | src/__init__.py:245 | `split(None, 1)` gives at most two parts, each non-empty and starting with a non-space; the first has no whitespace at all. |
| PyText.SplitOnceTwo | src/__init__.py:245 | When `split(None, 1)` gives two parts, the string is: whitespace, a non-space token, non-empty whitespace, then a non-space-led rest. |
| PyText.SplitOnceOf | src/__init__.py:245 | Conversely, every string of that shape splits into exactly that token and that rest. |
| PyText.SplitOnceShort | src/__init__.py:245-247 | `split(None, 1)` gives fewer than two parts if and only if the stripped string has no inner whitespace. |
| PyText.SplitOnceOneToken | src/__init__.py:244-245 | When `split(None, 1)` gives one part, that part is the stripped string. |
| PyText.SplitOnceTwoInner | src/__init__.py:244-245 | When `split(None, 1)` gives two parts, the stripped string has inner whitespace. |
| PyText.Find | src/__init__.py:245 | `split('#', 1)[0]` cuts before the first `#`: no `#` occurs before the cut, and a `#` (or the end) is at the cut. |
| PyText.BeforeFirst | src/__init__.py:245 | `split('#', 1)[0]` is a prefix of the line without `#`, ending at the first `#` or at the end. |
| PyText.Join | src/__init__.py:248 | `'; '.join(parts)` starts with the first part followed by the separator when there are two or more; a single part is joined to itself, so the command is the second token as it stands. |
| PyText.SliceTo | src/__init__.py:104 | Python's `s[:stop]` is a prefix. Its length is `stop` clamped to the sequence for `stop >= 0`, and `len(s) + stop` clamped at 0 for `stop < 0`. |
| PyText.LineEnd | src/__init__.py:171 | The first line ends at the first `\n` or `\r`, or at the end. |
| PyText.SplitLines | src/__init__.py:171 | `splitlines` yields lines with no line breaks; `SplitLinesRoundTrip` says which lines. |
| PyText.Newlines | src/__init__.py:171 | An independent reference for line breaks: every `\r\n` and lone `\r` written as `\n`; the result has no `\r`, and text without `\r` is unchanged. |
| PyText.NewlinesAfterPlain | src/__init__.py:171 | Text without line breaks passes through that rewriting unchanged. |
| PyText.FirstLine | src/__init__.py:171 | When the text has a line break, `splitlines` yields the text before it and continues after the whole break (both characters of `\r\n`), and the rewriting gives that text, one `\n`, then the rest rewritten. |
| PyText.SplitLinesRoundTrip | src/__init__.py:171-172 | For every text, printing each line of `splitlines` gives the text with each `\r\n`, `\r` and `\n` written as `\n`, plus a final newline when it did not end with a line break. |
| PyText.BelowIrreflexive | src/__init__.py:167 | No string is below itself in Python 2 string order. |
| PyText.BelowTransitive | src/__init__.py:167 | Python 2 string order is transitive. |
| PyText.BelowTotal | src/__init__.py:167 | Any two distinct strings are ordered one way or the other. |
| PyText.BelowAsymmetric | src/__init__.py:167 | Python 2 string order is asymmetric. |
| PyText.Below | src/__init__.py:167 | Python 2 string `<`: never relates equal strings, and puts a proper prefix first. |
| Inventory.Tokens | src/__init__.py:243-246 | A line yields at most two stripped tokens, and none contains `#`. |
| Inventory.ParseLine | src/__init__.py:247-250 | A line yields an entry if and only if it has exactly two tokens; the group is the first and the command the second. |
| Inventory.ParseLineExactly | src/__init__.py:243-250 | A line yields `(g, c)` if and only if the text before its first `#` is: whitespace, a non-empty group token without whitespace, at least one whitespace character, a command with non-space ends, whitespace. Neither part contains `#`. |
| Inventory.ParseLineParts | src/__init__.py:243-249 | A line yields an entry if and only if `split(None, 1)` gives two parts; the entry is those parts, stripped. |
| Inventory.ParsedShape | src/__init__.py:243-249 | Every entry a line yields has the shape above. |
| Inventory.ShapedParses | src/__init__.py:243-249 | Every line of that shape yields that entry. |
| Inventory.IgnoredLines | src/__init__.py:243-247 | A line adds nothing if and only if its stripped text before `#` has no inner whitespace. These are the blank, comment-only and single-token lines. |
| Inventory.ReadInventory | src/__init__.py:240-251 | The loop builds the map obtained by storing each line's entry in order. |
| Inventory.CollectKeys | src/__init__.py:250 | A group is a key of the collected map if and only if some entry names it. |
| Inventory.CollectLastWins | src/__init__.py:250 | A group maps to the command of its last entry. |
| Inventory.InventoryKeys | src/__init__.py:241-250 | A group is in the inventory if and only if some line yields an entry for it. |
| Inventory.LastLineWins | src/__init__.py:250 | When several lines name a group, the inventory holds the command of the last of them. |
| Inventory.OtherGroupsUnaffected | src/__init__.py:250 | Reading one more line leaves the presence and command of every other group unchanged. |
| Timestamp.Digits | src/__init__.py:60-62 | A zero-padded field has the given width, consists of digits, and reads back as the number. |
| Timestamp.HourLabel | src/__init__.py:60-62 | The hour label `%Y-%m-%d-%H` is 13 characters with `-` at offsets 4, 7 and 10. |
| Timestamp.Format | src/__init__.py:58-63 | The label is 16 characters long. |
| Timestamp.HourFields | src/__init__.py:60-62 | The year, month, day and hour sit at fixed offsets behind `-` separators and read back as the fields. |
| Timestamp.SameHourLabel | src/__init__.py:60-62 | Two times have the same hour label if and only if they fall in the same hour of the same day. |
| Timestamp.FormatHour | src/__init__.py:58-63 | Dropping the last three characters of the label (`:MM`) leaves the hour label; those three are `:` and the minute. |
| Timestamp.FormatInjective | src/__init__.py:58-63 | Different minutes get different labels. |
| Layout.PathJoin | src/__init__.py:119-126 | `os.path.join` ends with its second argument, and an absolute second argument replaces the first. |
| Layout.JoinRelative | src/__init__.py:105-108 | A relative name is joined to the directory through at most one `/`. |
| Layout.LogName | src/__init__.py:119-126 | The file name starts with the host, ends with `.dat`, and its length is the host's, the hour label's and the group's plus six. |
| Layout.GroupDir | src/__init__.py:91-94 | The group's directory ends with the group name, and is the group name itself when that is absolute. |
| Layout.LogPath | src/__init__.py:119-126 | The hour's file path ends with the file name. |
| Layout.JoinInjective | src/__init__.py:105-108 | Joining one directory with names that are both relative (or both absolute) is one-to-one. |
| Layout.LogNameHour | src/__init__.py:121-125 | The file name's length is `|host| + |ts[:-3]| + |group| + 6`, and `ts[:-3]` sits right after the host and its `-`. |
| Layout.NameAbsolute | src/__init__.py:121-125 | The file name is absolute exactly when the host name is. |
| Layout.SameHourSameFile | src/__init__.py:58-63 | For one group, two times map to the same file if and only if they fall in the same hour. |
| Layout.PathOfGroup | src/__init__.py:91-94 | A relative group name appears right after the prefix and its separator, and the path's length grows with it. |
| Layout.DistinctGroupsDistinctFiles | src/__init__.py:91-94 | Different groups never share a file. This holds for non-empty relative group names and a relative host name. |
| Layout.NestedLogName | src/__init__.py:119-128 | A `/` in the group name appears in the file name too, at a known offset, so the file would lie in a subdirectory of the group's directory that nothing creates. |
| Layout.Heartbeat | src/__init__.py:80-86 | The banner is 12 characters longer than the label and the notice (one more when `others` is set) and ends with an empty line. |
| Layout.Underline | src/__init__.py:147 | The underline has one dash per character of the heading. |
| Layout.ErrorSection | src/__init__.py:143-149 | The error section is `2 * 14 + 5` characters longer than stderr, and ends with stderr and a newline. |
| Layout.Body | src/__init__.py:127-154 | Every body starts with the banner written with `others` false. |
| Layout.Banner | src/__init__.py:80-86 | The banner is `zzz ***<ts> (<notice>)` and an empty line, preceded by an empty line only when `others` is set. |
| Layout.BodyLayout | src/__init__.py:127-142 | The body starts with the banner with no blank line before it (`others` is false), then stdout and a newline when stdout is non-empty. It ends there if and only if stderr is empty. |
| Layout.BodyErrors | src/__init__.py:143-149 | When stderr is non-empty, the error section follows the output and closes the body. |
| Layout.ErrorSectionLayout | src/__init__.py:144-148 | The error section holds `Error Messages` after an empty line, underlined by exactly as many dashes as it has characters, then an empty line (`\n\n`) before stderr. |
| Layout.BodyOnFailure | src/__init__.py:152-154 | When the command cannot be started, the body is the banner, `*** Something went wrong` between line breaks, an empty line and the exception's text: its length is the banner's plus 28 plus the message's. |
| Archive.FileSystem.Unlink | src/__init__.py:109-115 | `unlink` fails, changing nothing, on a missing or refused path; otherwise it removes exactly that file. |
| Archive.FileSystem.Append | src/__init__.py:128 | Appending creates the file if it is missing and extends it; no other file changes. |
| Archive.Doomed | src/__init__.py:104 | `logs[:-retention]` is a prefix of the listing. A positive `r` selects `max(0, n - r)` names, so the last `min(n, r)` are never selected. `r == 0` selects nothing; a negative `r` selects the first `min(n, -r)`. |
| Archive.Goners | src/__init__.py:105-108 | Each selected name is joined to the group's directory, one path per name. |
| Archive.PruneHistory | src/__init__.py:104-115 | The loop leaves exactly the files of the specification function `AfterUnlinks`. It reports (`--- path`) exactly the paths of `Unlinked`, in order. |
| Archive.PruneStep | src/__init__.py:109-115 | One delete attempt consumes one path of the remaining work. |
| Archive.AfterUnlinksExactly | src/__init__.py:104-115 | A file survives pruning if and only if it was not selected or its delete was refused. Survivors keep their content. |
| Archive.UnlinkedExactly | src/__init__.py:109-111 | A path is reported as deleted if and only if it existed, was selected and was not refused. |
| Archive.GonerIndex | src/__init__.py:101-108 | For distinct plain names, a listed name's path is selected if and only if its index is below the cut. |
| Archive.PruneKeepsTail | src/__init__.py:101-115 | For distinct existing plain names, the listed files that survive are exactly those from the cut on, plus the refused ones: a name at or after the cut always survives, and a name before it survives only if its delete is refused. The deleted ones are exactly the rest. |
| Archive.Worker | src/__init__.py:88-156 | `worker` prunes, then, for a group name without `/`, appends banner and output to the hour's file; the new files are `WorkerFiles`. It returns `(group, err)` when the command ran, and nothing when the worker raises: for a group name with `/` (the open fails) or when the command could not be started. |
| Archive.WorkerFiles | src/__init__.py:101-154 | The files after a worker: for a group name without `/`, the hour's file exists and ends with this run's body; `WorkerEffect` gives the rest. |
| Archive.WorkerEffect | src/__init__.py:101-154 | For a group name without `/`, the hour's file ends with this run's body, after its old content when that survived pruning. Every other file, and for a name with `/` every file, is present exactly when it survived pruning, and is unchanged. |
| Dispatch.PrecedesTotal | src/__init__.py:167 | Python 2 tuple order on `(group, err)` is total. |
| Dispatch.PrecedesAsymmetric | src/__init__.py:167 | Tuple order is asymmetric and irreflexive. |
| Dispatch.NotAfterTransitive | src/__init__.py:167 | Tuple order is transitive. |
| Dispatch.NotAfterAntisymmetric | src/__init__.py:167 | Tuple order is antisymmetric. |
| Dispatch.InsertFront | src/__init__.py:167 | An element not after the head of an ordered sequence can be put in front. |
| Dispatch.Insert | src/__init__.py:167 | Insertion keeps the results ordered and adds exactly one copy of the new result. |
| Dispatch.Sort | src/__init__.py:167 | `sorted` returns an ordered permutation of the results. |
| Dispatch.SortedHeads | src/__init__.py:167 | Two ordered permutations of the same results start alike. |
| Dispatch.SortedTail | src/__init__.py:167 | Dropping the head of an ordered sequence keeps it ordered. |
| Dispatch.SortedUnique | src/__init__.py:167 | There is exactly one ordered permutation of a collection of results. |
| Dispatch.Indent | src/__init__.py:170-172 | Each printed line gets the four-space indent. |
| Dispatch.Block | src/__init__.py:169-172 | A failing group's block is `*** group`, the indented command, then one line per line of `err`, each starting with the four-space indent. |
| Dispatch.Report | src/__init__.py:167-172 | The report has at least two lines per failing group, and is empty exactly when no group fails. |
| Dispatch.QuietWhenNoneFail | src/__init__.py:168 | No group is failing exactly when every `err` is empty. |
| Dispatch.ErrorReport | src/__init__.py:167-172 | The report of the collected results is empty exactly when every `err` is empty; `ErrorReportGroups` says which groups it names. |
| Dispatch.ReportIndependentOfOrder | src/__init__.py:162-172 | The report depends only on which results arrived, not on the order `imap_unordered` delivered them in. |
| Dispatch.HeadersAppend | src/__init__.py:167-172 | The group headers of two concatenated reports are the headers of each, in order. |
| Dispatch.HeadersOfIndented | src/__init__.py:170-172 | Indented lines are never group headers. |
| Dispatch.BlockHeader | src/__init__.py:169-172 | A failing group's block has exactly one header, naming the group. |
| Dispatch.ReportHeaders | src/__init__.py:167-169 | The headers of the report are exactly the groups with non-empty `err`, in result order. |
| Dispatch.FailingMembers | src/__init__.py:168 | A group is listed as failing if and only if some result names it with non-empty `err`. |
| Dispatch.FailingAscending | src/__init__.py:167-168 | The failing groups of ordered results come in ascending name order. |
| Dispatch.ErrorReportGroups | src/__init__.py:167-172 | The report names, in ascending order, exactly the groups with non-empty `err`. |
| Dispatch.BlockLayout | src/__init__.py:169-172 | For every `err`, removing the indent from a block's error lines and printing them gives `err` with each line break written as `\n`, plus a final newline when it lacked one. |
| Dispatch.DoOneEventLoop | src/__init__.py:158-173 | A cycle prints its label, then the error report. It returns nothing, which the loop reads as "do not quit". |
| Scheduler.Tick | src/__init__.py:192 | The tick is a whole number of seconds: 60 per minute of interval. |
| Scheduler.Margin | src/__init__.py:193-195 | The margin is a tenth of the tick. |
| Scheduler.Overrun | src/__init__.py:200-203 | An overrun is reported if and only if the arrival is later than the anchor and by more than the margin. |
| Scheduler.Nap | src/__init__.py:214-218 | The nap is never negative, never wakes before the anchor, and is positive only to reach the anchor exactly. It is zero if and only if the anchor has passed. |
| Scheduler.OverrunExactly | src/__init__.py:193-203 | For a non-negative interval, an arrival is reported if and only if it is later than the anchor by more than `6 * interval` seconds. Early or slightly late arrivals are never reported. |
| Scheduler.Ticker.constructor | src/__init__.py:192-196 | Tick is the interval, margin a tenth of it, and the first anchor is five seconds after start-up. |
| Scheduler.Ticker.Arrive | src/__init__.py:199-205 | The lateness is measured against the anchor, and the anchor then advances by one tick whatever the time. After `k` iterations it stays `start + k * tick`. |
| Scheduler.Ticker.NapUntilNext | src/__init__.py:214-216 | The sleep is `max(0, clock - now)`. |
| Scheduler.EventLoop | src/__init__.py:197-218 | The loop never stops by cancellation: it runs every observed iteration. Iteration `k` is judged against anchor `boot + 5 s + k * tick`, independent of all observed times. It sleeps until the next anchor or not at all, and prints the cycle's report. |
| Scheduler.RunIteration | src/__init__.py:199-218 | One pass of the loop body: iteration `k` is judged against anchor `boot + 5 s + k * tick`, reports the cycle, never asks to quit, and sleeps until the next anchor. The anchor moves on by exactly one tick, and the earlier iterations are left as they were. |
| Scheduler.WakeAtAnchor | src/__init__.py:214-218 | After the nap, the loop wakes at the later of the next anchor and the end of the cycle, so lateness never shifts later anchors. |

## Left out

- Running the commands (`subprocess.Popen`, `communicate`). A run's outcome is an input: its stdout and stderr, or the text of the exception it raised.
- Archive.Worker: when the worker raises (an unbound `err` at line 156, or an `open` at line 128 that fails for a group name with `/`), the model returns `None` and does not model the exception itself. The file system has no directories, so the model takes it that nothing else has created the subdirectory such a name points into.
- Dispatch.DoOneEventLoop: takes the results of a cycle in which every worker returned. A worker that raises makes `sorted(results)` raise at line 167 and ends `event_loop`; the model does not follow that exception.
- The `multiprocessing` pool and `imap_unordered`. The report takes the collected results in any order, and `Dispatch.ReportIndependentOfOrder` shows the order does not matter. Concurrent appends are not modelled.
- The SIGALRM watchdog and the SIGUSR1 handler, which are signal handling. When the watchdog expires, its handler raises `IOError` (line 44) inside `do_one_event_loop`, which ends `event_loop`; `Scheduler.EventLoop` models only cycles that finish. The watchdog's local `overrun` assignment and its default period, fixed at 1799 s when the module loads, are not modelled.
- The `jitter` statistics. They are floating point and come from a module outside this source.
- Clocks and time zones. `time.time`, `datetime.now` and the epoch-to-calendar conversion are inputs: integer microseconds for the loop, a broken-down `DateTime` for the label. `time.sleep` is represented only by the nap it is given.
- `Scheduler.Margin`: the margin is exactly `6 * interval` seconds. The floating-point product `interval * 0.10` and `total_seconds()` are not modelled.
- Directory handling. `os.makedirs` is not modelled; for a group name with `/` the only consequence the model keeps is the failed `open` in `Archive.Worker`. `os.listdir` filtered by `os.path.isfile` is an input sequence of names. In the code that filter tests bare names against the working directory, not against `destdir`; the program never changes directory, so the list is normally empty, nothing is pruned, and a group's directory gains one file per hour without limit. The model does not reproduce that lookup: with the list as given, it states what pruning does.
- `os.uname()[1]` is an input host name.
- Path aliasing. `Archive.FileSystem` keys files by the path string as built, so `a/./b` and `a//b`, or group names `.` and `..`, name different keys though the system resolves them to one file.
- Reading the inventory file into lines. The lines are an input, and each may end with its newline, which is whitespace.
- `KeyboardInterrupt` re-raising in the worker and the pruning loop.
- The lines printed to stdout: the `inventory[...]` echo, the overrun notice, `show_inventory`. `Scheduler.EventLoop` records the overrun verdict and the lateness instead of printing.
- Option parsing, the PID file, the root check and `cleanup`, which are process plumbing.
- The group-subset filter in `main`. It pops from the dict while iterating over it and tests membership against the raw option string, so it has no clean behaviour to state.
- `Timestamp.Format`: requires a year from 1900 on, as Python 2's `strftime` does; other years are not modelled.
