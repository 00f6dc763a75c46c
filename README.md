# certbot hook scheduling, modelled in Dafny

certbot runs user-supplied shell commands, its *hooks*, at four points of a
certificate run:

- `pre_hook` runs before certbot touches the web server.
- `post_hook` runs after it.
- `deploy_hook` and `renew_hook` run after a certificate is issued or renewed.

`certbot/hooks.py` decides which commands run, how often and in what order.
It keeps two pieces of process-wide state:

- `pre_hook.already`: the set of pre-hook commands that have run.
- `post_hook.eventually`: the list of post-hooks saved under the `renew`
  verb, to be run once at the end of the batch by `run_saved_post_hooks`.

This project models that layer and proves what it promises.

- `Hooks.HookState` is a class holding `already`, `eventually` and the
  process environment (`env`).
  - It also keeps an execution *trace*: running a hook appends
    `Run(kind, command, env)`.
  - It keeps the logged *notices* for the two kinds of skip the code
    reports: "already run" and "dry run".
  - Each hook function of `hooks.py` is a method of this class. Its
    postcondition states the whole new state.
- The modules `Seqs` and `Hooks` give reference definitions of what the
  loops compute.
  - `FreshInOrder(seen, s)` is the commands of `s` not in `seen`, repeats
    removed, first occurrence first.
  - `SkippedInOrder(seen, s)` is the rest, which get an "already run"
    notice.
  - `DeploySchedule` is what a `renew_hook` pass runs.
  - The methods are proved against these definitions, and lemmas prove the
    definitions' properties.
- `Validation` models `validate_hook` and `validate_hooks` as functions over
  an abstract `PathLookup`. That record stands in for `util.exe_exists`,
  `plug_util.path_surgery`, `os.path.exists` and `os.environ["PATH"]`.
- `Listing` models `list_hooks` over an abstract `FileSystem`: a listing
  function that may fail, and an `is_exe` predicate.
  - `Ordering` gives Python's string order and an insertion sort.
  - `Ordering.SortedUnique` proves that any sorted permutation is the same
    sequence. So `Sort` is Python's `sorted`, whatever algorithm computes it.
- `Text` models:
  - `str.split(None, 1)[0]`, with Python 3's `str.isspace` set of separators;
  - `os.path.basename` and `os.path.join` (POSIX);
  - `" ".join`.

Three modelling choices:

- **Config** is the settings record. An unset hook is the empty string,
  because the code tests every hook with `if cmd:`.
- **One loop per call.** `pre_hook` and `post_hook` run the listed
  directory hooks in a loop and then the configured hook. The model hands
  the listed hooks followed by the configured hook, if set, to one loop.
  The two are the same sequence of calls. `Hooks.PreHookOrder` and
  `Hooks.FirstPreHookPass` state the resulting order.
- **Listing failures.** A hook directory that cannot be listed makes
  `os.listdir` raise. The methods that list a directory return `ok == false`
  then, with nothing run and nothing saved. This matches the code, where
  `list_hooks` is evaluated before any hook of that pass runs.

Two facts about the code that the model keeps:

- `os.listdir` raises on a missing hook directory (`certbot/hooks.py:263`).
  So `Listing.ListHooks` gives `None` there, and the methods return
  `ok == false`.
- `run_saved_post_hooks` (`certbot/hooks.py:146-150`) does not clear
  `eventually`, and neither does `Hooks.HookState.RunSavedPostHooks`.

## Model

| member | source | states |
|---|---|---|
| Text.LStripSpec | certbot/hooks.py:48 | stripping removes a prefix made only of whitespace, and all of it: what is left is empty or starts with a non-space |
| Text.TakeTokenSpec | certbot/hooks.py:48 | the field taken is a prefix with no whitespace that ends at the end of the string or just before a whitespace character |
| Text.FirstTokenSpec | certbot/hooks.py:48 | `split(None, 1)[0]` has no value (the IndexError) exactly when the command is all whitespace; otherwise the first field is non-empty and holds no whitespace |
| Text.FirstTokenOf | certbot/hooks.py:48 | for leading whitespace, a token and a rest that starts with whitespace, the first field is exactly the token |
| Text.Basename | certbot/hooks.py:38 | the basename is the suffix after the last '/', holds no '/', and is preceded by a '/' when shorter than the path |
| Text.BasenameEmpty | certbot/hooks.py:38 | the basename is empty exactly when the path is empty or ends in '/', the case in which `_prog` returns a false value |
| Text.PathJoinInjective | certbot/hooks.py:263 | joining one directory with two different names without '/' gives two different paths |
| Text.SplitJoinSpace | certbot/hooks.py:218 | splitting RENEWED_DOMAINS on single spaces gives back the domain list when it is non-empty and no domain holds a space |
| Seqs.FreshInOrderSnoc | certbot/hooks.py:91-96 | one more command runs exactly when it was neither seen before nor met earlier in the list |
| Seqs.SkippedInOrderSnoc | certbot/hooks.py:91-92 | one more command is skipped exactly when it was seen before or met earlier in the list |
| Seqs.FreshInOrderElems | certbot/hooks.py:91-96 | the commands that run are exactly the listed commands not seen before |
| Seqs.NoDupSnoc | certbot/hooks.py:142-143 | appending a command that is absent keeps the list free of repeats |
| Seqs.FreshInOrderNoDup | certbot/hooks.py:91-96 | the commands that run hold no repeats and none of them had been seen before |
| Seqs.FreshInOrderAppend | certbot/hooks.py:71-77 | handling a list then another runs what the first runs, then what the second runs against everything before it |
| Seqs.SkippedInOrderAppend | certbot/hooks.py:71-77 | likewise for the skipped commands |
| Seqs.FreshInOrderAllSeen | certbot/hooks.py:91-92 | when every command was seen before, nothing runs and every command is skipped, in order |
| Seqs.FreshInOrderKeepsDistinct | certbot/hooks.py:72-73 | a list with no repeats and nothing seen before runs in full, in order, and skips nothing |
| Seqs.FreshInOrderPartition | certbot/hooks.py:91-96 | each command either runs or is skipped: together the two lists hold every input command exactly as often as it occurs |
| Seqs.FreshInOrderIsDedupFront | certbot/hooks.py:136-137 | the back-to-front definition of "first seen, once" agrees with the front-to-back one |
| Ordering.LessEqTotal | certbot/hooks.py:264 | Python's string order is total |
| Ordering.LessEqAntisymmetric | certbot/hooks.py:264 | two strings each at most the other are equal |
| Ordering.LessEqTransitive | certbot/hooks.py:264 | the string order is transitive |
| Ordering.InsertSorted | certbot/hooks.py:264 | inserting into a sorted sequence keeps it sorted |
| Ordering.InsertNoDup | certbot/hooks.py:264 | inserting an absent string into a sequence without repeats keeps it without repeats |
| Ordering.SortCorrect | certbot/hooks.py:264 | the sort result is sorted, is a permutation of its input, and has no repeats when the input has none |
| Ordering.SortedUnique | certbot/hooks.py:264 | two sorted permutations of the same strings are equal, so the result is the one `sorted` gives |
| Listing.ExecutablesMembers | certbot/hooks.py:264 | the filter keeps exactly the paths that pass `is_exe` |
| Listing.ExecutablesMultiset | certbot/hooks.py:264 | the filter keeps each path at most as often as it occurs |
| Listing.ExecutablesNoDup | certbot/hooks.py:264 | the filter keeps distinct paths distinct |
| Listing.ListHooks | certbot/hooks.py:254-264 | the listing fails exactly when listing the directory fails |
| Listing.ListHooksContents | certbot/hooks.py:263-264 | the listing is sorted, is a permutation of the executable joined entries, and holds exactly the joined entries that pass `is_exe` |
| Listing.ListHooksStrictlyAscending | certbot/hooks.py:263-264 | for a directory of distinct names without '/', the listing is strictly ascending: no hook path is listed twice |
| Validation.Prog | certbot/hooks.py:25-38 | `_prog` gives a value exactly when the command is executable before or after the PATH surgery, and the value is its basename |
| Validation.ValidateHookVerdict | certbot/hooks.py:41-56 | an unset hook passes; a whitespace-only command fails with the IndexError; otherwise the hook passes exactly when its first field is executable (before or after the surgery) with a non-empty basename, and the failure names the hook, the field, and "not executable" exactly when the field exists on disk, else the PATH in effect |
| Validation.ValidateHookIgnoresArguments | certbot/hooks.py:47-48 | leading whitespace and arguments after the program do not change the verdict |
| Validation.VerdictOfToken | certbot/hooks.py:47-56 | a command whose first field is a token gets that token's verdict |
| Validation.FirstFailureSpec | certbot/hooks.py:17-22 | the checks pass exactly when every one passes; otherwise the error raised is a failing check preceded only by passing ones |
| Validation.FirstFailureOfFour | certbot/hooks.py:19-22 | four checks made in turn raise the first failure |
| Validation.ValidateHooks | certbot/hooks.py:17-22 | `validate_hooks` raises the first failure among the pre, post, deploy and renew hooks, in that order |
| Hooks.PreIndexedOnce | certbot/hooks.py:91-96 | with the pre-hook record kept, `already` holds exactly the commands that ran as pre-hooks, and no two pre-hook runs share a command |
| Hooks.AppendOther | certbot/hooks.py:224-230 | a run at another hook point keeps the pre-hook record |
| Hooks.AppendPre | certbot/hooks.py:93-96 | running a pre-hook not run before and adding it to `already` keeps the record |
| Hooks.DeployEnvIdempotent | certbot/hooks.py:218-219 | setting RENEWED_DOMAINS and RENEWED_LINEAGE again to the same values changes nothing |
| Hooks.PreHookOrder | certbot/hooks.py:71-77 | `pre_hook` runs the listed hooks not run before, in listing order, then the configured pre-hook unless it is unset, ran before or is one of the listed hooks |
| Hooks.FirstPreHookPass | certbot/hooks.py:71-77 | in a process's first `pre_hook`, every listed hook runs in listing order, then the configured pre-hook unless it is listed |
| Hooks.SavedPostHooksHistory | certbot/hooks.py:133-143 | saving commands after earlier calls gives the same list as saving all requests at once: repeats removed, first request first |
| Hooks.DeployScheduleOnce | certbot/hooks.py:184-196 | a deploy pass over a listing without repeats runs no command twice, and runs exactly the listed hooks and the configured renew-hook |
| Hooks.HookState.constructor | certbot/hooks.py:79-130 | at process start nothing has run, `already` is empty and `eventually` is empty |
| Hooks.HookState.RunHook | certbot/hooks.py:224-230 | `_run_hook` executes the command once, seeing the current environment |
| Hooks.HookState.RunPreHookIfNecessary | certbot/hooks.py:82-96 | a command already in `already` runs nothing and logs a skip; otherwise it runs once and joins `already`; the pre-hook record is kept |
| Hooks.HookState.PreStep | certbot/hooks.py:91-96 | one more command in a pre-hook loop extends the runs by it exactly when it is new, and the skips by it otherwise |
| Hooks.HookState.RunPreStep | certbot/hooks.py:72-77 | one pass of the pre-hook loop takes the state after a prefix to the state after one more command |
| Hooks.HookState.RunPreHooksInOrder | certbot/hooks.py:71-77 | the commands handed over run in order, each once and only if not already run; `already` gains them all; the skips are logged in order |
| Hooks.HookState.PreHook | certbot/hooks.py:59-77 | `pre_hook` runs the directory hooks only under `renew` with directory hooks enabled, then the configured pre-hook, deduplicated against `already`; nothing runs when the listing fails |
| Hooks.HookState.RunEventually | certbot/hooks.py:133-143 | `_run_eventually` appends a command that is absent and otherwise changes nothing; the saved list keeps no repeats |
| Hooks.HookState.EventuallyStep | certbot/hooks.py:142-143 | saving one more command agrees with removing repeats from the requests so far |
| Hooks.HookState.RunEventuallyInOrder | certbot/hooks.py:119-124 | the saved list grows by the commands handed over that it lacks, repeats removed, first request first |
| Hooks.HookState.PostHook | certbot/hooks.py:99-128 | under `renew` nothing runs and the listed hooks, then the configured post-hook, are saved; otherwise the configured post-hook runs at once and nothing is saved |
| Hooks.HookState.RunSavedPostHooks | certbot/hooks.py:146-150 | every saved post-hook runs once, in the saved order, and the saved list holds no repeats |
| Hooks.HookState.RunDeployHook | certbot/hooks.py:199-221 | in a dry run nothing runs and a skip is logged; otherwise RENEWED_DOMAINS is the domains joined by single spaces, RENEWED_LINEAGE the lineage path, and the command runs once seeing them |
| Hooks.HookState.DeployHook | certbot/hooks.py:153-164 | `deploy_hook` passes the configured deploy-hook, if set, through the dry-run gate |
| Hooks.HookState.RunDeployHooksInOrder | certbot/hooks.py:184-188 | every listed deploy-hook goes through the dry-run gate in order, and the executed set is exactly the listed hooks |
| Hooks.HookState.RenewHook | certbot/hooks.py:167-196 | `renew_hook` runs the listed deploy-hooks in order, then the configured renew-hook only if it is set and not among them (logging a skip if it is); nothing runs in a dry run; nothing happens when the listing fails |

## Left out

- `execute` and `Popen` with `shell=True` (certbot/hooks.py:233-251) are subprocess I/O. Running a hook is one trace entry, and its output, error output and return code are not modelled.
- The `stderr` value that `_run_hook` returns is not modelled, because no caller in this layer uses it.
- Log messages are not modelled, except the two kinds of skip, which are notices. The "Running … command" lines and the wording of every message are out.
- `os.path.basename` of the command in `execute`'s log labels (certbot/hooks.py:243) is out with the logging.
- `plug_util.path_surgery` changes PATH for the rest of the process. The model gives each lookup its own answer through `PathLookup`, so it does not capture one `validate_hook` call's surgery affecting later calls.
- `util.exe_exists`, `util.is_exe`, `os.path.exists` and `os.listdir` are filesystem calls. They are inputs: `PathLookup` and `FileSystem`.
- The hook layer's callers decide when `run_saved_post_hooks` is called. They are not part of this model.
- Python's `str` can hold surrogate code points; Dafny's `char` cannot, so those strings are out.
- Hooks.HookState.RunHook: a hook command that is non-empty but all whitespace is not modelled faithfully. `execute` runs it, then raises IndexError at `shell_cmd.split(None, 1)[0]` (certbot/hooks.py:243). So in the source `_run_hook` raises after the command has run, and `_run_pre_hook_if_necessary` never adds the command to `pre_hook.already` (certbot/hooks.py:95-96). The rest of the pass is abandoned: later listed hooks, the configured hook, the remaining saved post-hooks (certbot/hooks.py:148-150) and the remaining deploy-hooks (certbot/hooks.py:186-196). The model records the run, carries on, and in `RunPreHookIfNecessary` adds the command to `already`. For such a command, `Hooks.PreIndexedOnce`'s "runs at most once as a pre-hook" holds in the model but not in the source. Such a command reaches execution only when hook validation is skipped, because `validate_hook` rejects it (`Validation.ValidateHookVerdict`).
- Text.IsSpace is Python 3's `str.isspace` set. Under Python 2, which hooks.py also supports, byte-string `split()` separates only on ' ' and '\t' to '\r'. The model follows Python 3's `str`.
