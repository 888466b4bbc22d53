# areweasyncyet: the weekly sampler and the grep tally

`script.py` measures how far Synapse has moved from Twisted's
`inlineCallbacks` to native `async def`. It walks the history of the
`develop` branch from the newest commit to the oldest and keeps one
commit per step of a weekly cutoff. For each kept commit it checks out the
tree, runs `grep -r` for `inlineCallback` and for `async def`, and counts
the matching lines twice: in a total and per module. A line's module is
the first two `/`-separated segments of its path. The rows are then
written out as JSON.

The model has four modules:

- `Strings` (`strings.dfy`) models Python's one-character `str.split(sep, maxsplit)` and `sep.join`, and builds the module-key expression `"/".join(filename.split("/", 2)[:2])` from them.
- `Search` (`search.dfy`) models the aggregation half of `search`:
  - `SearchSpec` is the specification function;
  - `Aggregate` is the loop, proved equal to `SearchSpec`;
  - lemmas relate the result to the lines: the total, which keys appear, each key's count, and the sum of the counts.
- `Calendar` (`calendar.dfy`) models the clock as whole seconds on the local clock, counted from 1970-01-01 00:00, a Thursday. It also models the loop that steps back to the Monday midnight of the current week.
- `Sampler` (`sampler.dfy`) models the walk over the history:
  - `Selection` and `CutoffAfter` are the specification functions;
  - `WalkHistory` is the loop, proved against them;
  - `Run` models the script from the clock reading to the rows.

The `grep` output on a commit's tree is a function parameter
`Grep = (Commit, string) -> seq<string>`. A line without `:` makes the
unpacking `filename, match = line.split(":", 1)` raise. That aborts the
run. The model returns `Err(MissingColon(index))` there, and the error
propagates out of the walk.

Three consequences of the code that the model makes explicit:

- The module key keeps the file extension. Line 33 of `script.py` only splits and rejoins on `/`, so `synapse/server.py` is its own key (`ModuleKeyOfTopLevelFile`).
- Neither the newest commit nor the initial commit is forced into the output. A commit is kept only when it is strictly before the cutoff (line 45). `INITIAL_COMMIT` and `START_DATE` are defined at lines 10-11 and never read.
- One calendar week can give several samples. Line 47 moves the cutoff back exactly seven days from wherever it was, not to the week before the sampled commit. After a gap in the history, commits are kept one after another only until the cutoff, dropping a week per sample, has come down past them (`TwoSamplesInOneWeek`, `CutoffSteps`).

## Model

| member | source | states |
|---|---|---|
| Strings.IndexOf | script.py:32 | the position found is within the string, and holds the separator unless it is the end |
| Strings.IndexOfFirst | script.py:32 | no separator occurs before the position found, so the split is at the first occurrence |
| Strings.SplitShape | script.py:32-33 | `split(sep, maxsplit)` gives between 1 and `maxsplit + 1` pieces; no piece but the last holds the separator; the last holds none either when fewer than `maxsplit + 1` pieces came out |
| Strings.JoinSplit | script.py:32-33 | round trip: joining the pieces of `split` with the same separator gives back the original string, for every `maxsplit` |
| Strings.SplitAt | script.py:32-33 | splitting cuts at the first separator: the text before it, then the split of the rest with one split fewer |
| Strings.SplitNone | script.py:32-33 | a string without the separator splits into just itself |
| Strings.FirstSep | script.py:32 | a string holding the separator is the separator-free text before its first occurrence, that separator, and the rest |
| Strings.SplitOnce | script.py:32 | `line.split(":", 1)` gives two pieces exactly when the line holds `:`; they are the colon-free file name and the rest, and they rejoin to the line; otherwise the line is the only piece |
| Strings.Take | script.py:33 | `parts[:n]` is a prefix of `parts` of length `min(n, len(parts))` |
| Strings.ModuleKeyPrefix | script.py:33 | the module key is a prefix of the file name holding at most one `/`; it is the whole name when the name has at most one `/`; otherwise it stops just before the second `/` |
| Strings.ModuleKeyNoSlash | script.py:33 | a file name without `/` is its own key |
| Strings.ModuleKeyOneSlash | script.py:33 | a file name with exactly one `/` is its own key |
| Strings.ModuleKeyDropsTail | script.py:33 | for `top/sub/tail`, the key is `top/sub`, whatever the tail and its extension |
| Strings.ModuleKeyIdempotent | script.py:33 | the key of a key is the key itself |
| Strings.ModuleKeyOfTopLevelFile | script.py:33 | `synapse/server.py` keeps its extension in its key |
| Search.FirstMissingColon | script.py:30-32 | the index of the first grep line without `:`, or the number of lines when all have one |
| Search.SearchSpec | script.py:28-37 | `search` fails exactly when some line lacks `:`, and then it reports the first such line; on success the total is the number of lines |
| Search.Aggregate | script.py:28-37 | the counting loop returns exactly `SearchSpec` of the lines: the same failure on the first line without `:`, or the total and the per-module tally |
| Search.LineModuleOfMatch | script.py:32-33 | a line `filename:text` with a colon-free file name is counted under the key of that file name, whatever the text holds |
| Search.LineModuleOfUnsplittable | script.py:32 | a line is counted under no module exactly when it holds no `:` |
| Search.SumBump | script.py:35 | `by_module[module] += 1` on a `defaultdict(int)` raises the sum of the counts by one |
| Search.OccurrencesPositive | script.py:33-35 | a module's line count is positive exactly when some line falls under that module |
| Search.TallyCounts | script.py:33-35 | the tally has a key exactly when some line falls under it, and its value is the number of such lines |
| Search.TallySum | script.py:34-35 | when every line has `:`, the per-module counts add up to the number of lines |
| Search.SearchTotalIsSum | script.py:28-37 | on success, `total` equals the sum of the `by_module` counts |
| Search.SearchKeysFromLines | script.py:33-35 | every key of `by_module` counts at least one line, and is the key of some line |
| Search.SearchCountsLines | script.py:33-35 | each key's count is the number of its lines; a key absent from `by_module` is the key of no line |
| Search.SearchFailsAt | script.py:30-32 | when line `i` lacks `:` and every earlier line has one, `search` fails at `i` |
| Calendar.Weekday | script.py:16 | `weekday()` lies between 0 (Monday) and 6 |
| Calendar.Midnight | script.py:15 | `replace(hour=0, minute=0, second=0, microsecond=0)` gives a midnight on the same day, at most one day before the time |
| Calendar.WeekStart | script.py:15-17 | the start of a time's week is a Monday midnight at most one week before the time, and not after it |
| Calendar.WeekStartUnique | script.py:15-17 | that Monday midnight is unique: any Monday midnight within one week before a time is its week start |
| Calendar.WeekdayStepBack | script.py:16-17 | going back one day from a non-Monday midnight lowers the weekday by one |
| Calendar.StartOfWeek | script.py:15-17 | the loop ends on the Monday midnight of the current week, `Weekday(now)` days before today's midnight; on a Monday it does not move |
| Sampler.SelectionAppend | script.py:42-47 | walking two stretches of history in turn is walking the second from the cutoff the first left, for both the samples and the cutoff |
| Sampler.SelectionSnoc | script.py:44-47 | the next commit is sampled exactly when its time is strictly before the current cutoff; sampling moves the cutoff back 7 days, and skipping leaves it |
| Sampler.CutoffSteps | script.py:45-47 | the final cutoff is the starting cutoff minus one week per sample |
| Sampler.CutoffNeverIncreases | script.py:45-47 | the cutoff never increases along the walk and never exceeds its start |
| Sampler.SelectionIsSubsequence | script.py:42-61 | the samples are an order-preserving subsequence of the commits |
| Sampler.SubsequenceLength | script.py:42-61 | a subsequence is never longer than its source |
| Sampler.SelectionLength | script.py:42-61 | there are never more samples than commits |
| Sampler.SelectionBeforeWeeklyCutoffs | script.py:44-47 | the `k`-th sample lies strictly before the start moved back `k` weeks |
| Sampler.TwoSamplesInOneWeek | script.py:45-47 | two commits of the same calendar week, three weeks before the start, are both sampled |
| Sampler.WalkHistory | script.py:41-61 | the walk succeeds exactly when every selected commit's two searches succeed; the rows are then the selected commits with their results, in order, and the cutoff ends at `CutoffAfter`; otherwise it reports the error of the first failing selected commit |
| Sampler.WalkFails | script.py:45-57 | when the walk stops at a sampled commit, the samples so far are the first samples of the whole walk, with that commit next |
| Sampler.FirstFailure | script.py:53-57 | if all earlier samples succeed and the next fails, that failure is the first one in the selection |
| Sampler.Run | script.py:15-61 | the script's rows are the rows of the walk from the Monday midnight of the week of `now`, with the same success condition; an aborted run reports the error of the first failing selected commit |

## Left out

- The `grep -r` subprocess. Which lines match a pattern in a commit's tree is the `Grep` parameter. That includes grep's handling of binary files and its exit status.
- `decode("ascii")` and `splitlines()`. Lines are taken as already-decoded strings, so a non-ASCII byte raising `UnicodeDecodeError` is not modelled.
- GitPython: opening the repository, `iter_commits("develop")` (the history is the `commits` parameter, newest first), and the checkout with `head.reference` and `head.reset`. The tree searched is assumed to be the commit's tree.
- `datetime.now()` and `datetime.fromtimestamp`. Both are whole seconds on the local clock, given as integers. Time-zone and daylight-saving shifts between the two are not modelled, and neither are sub-second parts.
- `str(committed_date)`: a row keeps the commit time as an integer, not its text form.
- `print` of each row and the `json.dumps` write to `results.json`.
- `INITIAL_COMMIT`, `START_DATE` and `SYNAPSE_DIR`: the first two are never read, and the third only names the working directory.
- The order of the `by_module` entries. A `defaultdict` keeps its keys in the order their first line appeared, and `results.json` shows that order. `map<string, nat>` keeps no order, so the model keeps only which keys there are and their counts.
- A line holding the pattern several times counts once, as the script counts lines. The model does not separate this from grep's own matching.
