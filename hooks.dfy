/** The hook scheduler of certbot/hooks.py: which hook commands run, how
 *  often and in what order. Running a command is recorded as one more entry
 *  of an execution trace; the process-wide state (`pre_hook.already`,
 *  `post_hook.eventually`, `os.environ`) lives in one HookState object. */
module Hooks {
  import opened Wrappers
  import opened Seqs
  import opened Text
  import opened Listing
  import opened Configuration

  /** Which of the three hook points ran a command. */
  datatype Kind = Pre | Post | Deploy

  /** One execution of a shell command, with the environment it saw. */
  datatype Run = Run(kind: Kind, command: string, env: map<string, string>)

  /** The skips the code logs: a command already run, or a deploy hook left
   *  out because of a dry run. */
  datatype Notice = AlreadyRun(kind: Kind, command: string) | DryRunSkipped(command: string)

  const RenewedDomains: string := "RENEWED_DOMAINS"
  const RenewedLineage: string := "RENEWED_LINEAGE"

  /** Each command run once at hook point kind, in order, seeing env. */
  function Runs(kind: Kind, commands: seq<string>, env: map<string, string>): seq<Run> {
    seq(|commands|, i requires 0 <= i < |commands| => Run(kind, commands[i], env))
  }

  lemma RunsSnoc(kind: Kind, commands: seq<string>, c: string, env: map<string, string>)
    ensures Runs(kind, commands + [c], env) == Runs(kind, commands, env) + [Run(kind, c, env)]
  {
  }

  /** The i-th run of trace was a pre-hook. */
  ghost predicate PreAt(trace: seq<Run>, i: int) {
    0 <= i < |trace| && trace[i].kind == Pre
  }

  /** ranAt names a pre-hook run of command c. */
  ghost predicate RanAt(trace: seq<Run>, ranAt: map<string, int>, c: string) {
    c in ranAt && PreAt(trace, ranAt[c]) && trace[ranAt[c]].command == c
  }

  /** ranAt says where each command of already ran as a pre-hook, and every
   *  pre-hook run of trace is the one ranAt names for its command. */
  ghost predicate PreIndexed(trace: seq<Run>, already: set<string>, ranAt: map<string, int>) {
    && ranAt.Keys == already
    && (forall c {:trigger RanAt(trace, ranAt, c)} :: c in ranAt ==> RanAt(trace, ranAt, c))
    && (forall i {:trigger PreAt(trace, i)} :: PreAt(trace, i) ==>
          trace[i].command in ranAt && ranAt[trace[i].command] == i)
  }

  /** What PreIndexed means: the commands that ran as pre-hooks are exactly
   *  those of already, and none ran twice. */
  lemma PreIndexedOnce(trace: seq<Run>, already: set<string>, ranAt: map<string, int>)
    requires PreIndexed(trace, already, ranAt)
    ensures forall c :: c in already <==> exists i :: PreAt(trace, i) && trace[i].command == c
    ensures forall i, j {:trigger PreAt(trace, i), PreAt(trace, j)} ::
              i < j && PreAt(trace, i) && PreAt(trace, j) ==> trace[i].command != trace[j].command
  {
    forall c | c in already ensures exists i :: PreAt(trace, i) && trace[i].command == c {
      assert RanAt(trace, ranAt, c);
    }
  }

  /** A run at another hook point keeps the index. */
  lemma AppendOther(trace: seq<Run>, already: set<string>, ranAt: map<string, int>, r: Run)
    requires PreIndexed(trace, already, ranAt) && r.kind != Pre
    ensures PreIndexed(trace + [r], already, ranAt)
  {
    var t := trace + [r];
    forall c | c in ranAt ensures RanAt(t, ranAt, c) {
      assert RanAt(trace, ranAt, c);
    }
    forall i | PreAt(t, i) ensures t[i].command in ranAt && ranAt[t[i].command] == i {
      assert PreAt(trace, i);
    }
  }

  /** A pre-hook run of a command not run yet is indexed at its position. */
  lemma AppendPre(trace: seq<Run>, already: set<string>, ranAt: map<string, int>, c: string, env: map<string, string>)
    requires PreIndexed(trace, already, ranAt) && c !in already
    ensures PreIndexed(trace + [Run(Pre, c, env)], already + {c}, ranAt[c := |trace|])
  {
    var t, at := trace + [Run(Pre, c, env)], ranAt[c := |trace|];
    forall d | d in at ensures RanAt(t, at, d) {
      if d != c {
        assert RanAt(trace, ranAt, d);
      }
    }
    forall i | PreAt(t, i) ensures t[i].command in at && at[t[i].command] == i {
      if i < |trace| {
        assert PreAt(trace, i);
      }
    }
  }

  /** The notice for each command skipped as already run, in order. */
  function AlreadyRunNotices(kind: Kind, commands: seq<string>): seq<Notice> {
    seq(|commands|, i requires 0 <= i < |commands| => AlreadyRun(kind, commands[i]))
  }

  /** The notice for each command a dry run leaves out, in order; none
   *  outside a dry run. */
  function DryRunNotices(dryRun: bool, commands: seq<string>): seq<Notice> {
    if dryRun then seq(|commands|, i requires 0 <= i < |commands| => DryRunSkipped(commands[i])) else []
  }

  lemma NoticesSnoc(kind: Kind, commands: seq<string>, c: string)
    ensures AlreadyRunNotices(kind, commands + [c]) == AlreadyRunNotices(kind, commands) + [AlreadyRun(kind, c)]
  {
  }

  lemma DryRunNoticesSnoc(dryRun: bool, commands: seq<string>, c: string)
    ensures DryRunNotices(dryRun, commands + [c])
         == DryRunNotices(dryRun, commands) + if dryRun then [DryRunSkipped(c)] else []
  {
  }

  /** A configured hook as a list of zero or one commands. */
  function Configured(command: string): seq<string> {
    if command == [] then [] else [command]
  }

  /** The directory hooks a pass looks at: `list_hooks(dir)` where directory
   *  hooks are enabled, none otherwise; None where the listing raises. */
  function DirHooks(enabled: bool, fs: FileSystem, dir: string): Option<seq<string>> {
    if enabled then ListHooks(fs, dir) else Some([])
  }

  /** The directory hooks `pre_hook` runs: only for the renew verb. */
  function PreDirHooks(config: Config, fs: FileSystem): Option<seq<string>> {
    DirHooks(config.verb == "renew" && config.directoryHooks, fs, config.renewalPreHooksDir)
  }

  /** What `pre_hook` hands to `_run_pre_hook_if_necessary`: the directory
   *  hooks in listing order, then the configured pre-hook. */
  function PreHookCommands(config: Config, listing: seq<string>): seq<string> {
    listing + Configured(config.preHook)
  }

  /** What `post_hook` hands to `_run_eventually` under the renew verb. */
  function PostHookCommands(config: Config, listing: seq<string>): seq<string> {
    listing + Configured(config.postHook)
  }

  /** The commands `renew_hook` hands to `_run_deploy_hook`, in order: every
   *  listed directory hook, and then the configured renew-hook unless it
   *  is one of them. */
  function DeploySchedule(renewHook: string, listing: seq<string>): seq<string> {
    listing + (if renewHook == [] || renewHook in listing then [] else [renewHook])
  }

  /** The skips `renew_hook` logs. */
  function DeployNotices(dryRun: bool, renewHook: string, listing: seq<string>): seq<Notice> {
    DryRunNotices(dryRun, listing)
    + (if renewHook == [] then []
       else if renewHook in listing then [AlreadyRun(Deploy, renewHook)]
       else DryRunNotices(dryRun, [renewHook]))
  }

  /** os.environ as `_run_deploy_hook` leaves it. */
  function DeployEnv(env: map<string, string>, domains: seq<string>, lineagePath: string): map<string, string> {
    env[RenewedDomains := JoinSpace(domains)][RenewedLineage := lineagePath]
  }

  /** Setting the two variables again to the same values changes nothing:
   *  every deploy hook of one renewal sees the same environment. */
  lemma DeployEnvIdempotent(env: map<string, string>, domains: seq<string>, lineagePath: string)
    ensures DeployEnv(DeployEnv(env, domains, lineagePath), domains, lineagePath) == DeployEnv(env, domains, lineagePath)
  {
  }

  /** `pre_hook` runs the directory hooks not run before, in listing order,
   *  and then the configured pre-hook, unless it is unset, ran before or is
   *  one of the listed hooks. */
  lemma PreHookOrder(seen: set<string>, listing: seq<string>, preHook: string)
    ensures FreshInOrder(seen, listing + Configured(preHook))
         == FreshInOrder(seen, listing)
            + (if preHook == [] || preHook in seen || preHook in listing then [] else [preHook])
  {
    FreshInOrderAppend(seen, listing, Configured(preHook));
    if preHook != [] {
      FreshInOrderSnoc(seen + Elems(listing), [], preHook);
      assert [] + [preHook] == [preHook];
    }
  }

  /** In the first `pre_hook` of a process every listed directory hook runs,
   *  in listing order, and the configured pre-hook runs after them unless it
   *  is one of them. */
  lemma FirstPreHookPass(listing: seq<string>, preHook: string)
    requires NoDup(listing)
    ensures FreshInOrder({}, listing + Configured(preHook))
         == listing + (if preHook == [] || preHook in listing then [] else [preHook])
  {
    PreHookOrder({}, listing, preHook);
    FreshInOrderKeepsDistinct({}, listing);
  }

  /** Saving the commands of one call after those of earlier calls gives the
   *  same list as saving all of them at once: from an empty start, the saved
   *  post-hooks are every command requested so far with repeats removed,
   *  first request first. */
  lemma SavedPostHooksHistory(requested: seq<string>, commands: seq<string>)
    ensures var saved := FreshInOrder({}, requested);
      saved + FreshInOrder(Elems(saved), commands) == FreshInOrder({}, requested + commands)
  {
    FreshInOrderAppend({}, requested, commands);
    FreshInOrderElems({}, requested);
    assert {} + Elems(requested) == Elems(requested);
  }

  /** A deploy pass runs no command twice when the listing has no repeats,
   *  and it runs exactly the listed hooks and the configured renew-hook. */
  lemma DeployScheduleOnce(renewHook: string, listing: seq<string>)
    requires NoDup(listing)
    ensures NoDup(DeploySchedule(renewHook, listing))
    ensures Elems(DeploySchedule(renewHook, listing))
         == Elems(listing) + (if renewHook == [] then {} else {renewHook})
  {
    if renewHook != [] && renewHook !in listing {
      NoDupSnoc(listing, renewHook);
    } else {
      assert DeploySchedule(renewHook, listing) == listing;
    }
  }

  /** The process-wide state of certbot/hooks.py, and what it has run. */
  class HookState {
    /** `pre_hook.already`: the pre-hook commands run so far. */
    var already: set<string>
    /** `post_hook.eventually`: the post-hooks saved for the end of a renew batch. */
    var eventually: seq<string>
    /** `os.environ`. */
    var env: map<string, string>
    /** Every command executed so far, in order. */
    var trace: seq<Run>
    /** Every skip logged so far, in order. */
    var notices: seq<Notice>
    /** Where in trace each command of already ran. */
    ghost var ranAt: map<string, int>

    /** No post-hook is saved twice; no command ran twice as a pre-hook,
     *  and `already` holds exactly the pre-hooks that ran. */
    ghost predicate Valid()
      reads this
    {
      && NoDup(eventually)
      && PreIndexed(trace, already, ranAt)
    }

    /** The state at process start, under the given environment. */
    constructor (environ: map<string, string>)
      ensures Valid()
      ensures already == {} && eventually == [] && env == environ
      ensures trace == [] && notices == []
    {
      already, eventually, env := {}, [], environ;
      trace, notices, ranAt := [], [], map[];
    }

    /** `_run_hook(command)`: the command is executed once. */
    method RunHook(kind: Kind, command: string)
      modifies this`trace
      ensures trace == old(trace) + [Run(kind, command, env)]
    {
      trace := trace + [Run(kind, command, env)];
    }

    /** `_run_pre_hook_if_necessary(command)`. */
    method RunPreHookIfNecessary(command: string)
      requires Valid()
      modifies this`already, this`ranAt, this`trace, this`notices
      ensures Valid()
      ensures already == old(already) + {command}
      ensures trace == old(trace) + if command in old(already) then [] else [Run(Pre, command, env)]
      ensures notices == old(notices) + if command in old(already) then [AlreadyRun(Pre, command)] else []
    {
      if command in already {
        notices := notices + [AlreadyRun(Pre, command)];
      } else {
        AppendPre(trace, already, ranAt, command, env);
        ranAt := ranAt[command := |trace|];
        RunHook(Pre, command);
        already := already + {command};
      }
    }

    /** `pre_hook(config)`. ok is false where listing the pre-hook directory
     *  raises; nothing has run then. */
    method PreHook(config: Config, fs: FileSystem) returns (ok: bool)
      requires Valid()
      modifies this`already, this`ranAt, this`trace, this`notices
      ensures Valid()
      ensures ok <==> PreDirHooks(config, fs).Some?
      ensures !ok ==> already == old(already) && trace == old(trace) && notices == old(notices)
      ensures ok ==>
        var commands := PreHookCommands(config, PreDirHooks(config, fs).value);
        && trace == old(trace) + Runs(Pre, FreshInOrder(old(already), commands), env)
        && already == old(already) + Elems(commands)
        && notices == old(notices) + AlreadyRunNotices(Pre, SkippedInOrder(old(already), commands))
    {
      var hooks: seq<string> := [];
      if config.verb == "renew" && config.directoryHooks {
        var listed := ListHooks(fs, config.renewalPreHooksDir);
        if listed.None? {
          return false;
        }
        hooks := listed.value;
      }
      var commands := hooks + Configured(config.preHook);
      RunPreHooksInOrder(commands);
      assert PreDirHooks(config, fs) == Some(hooks);
      ok := true;
    }

    /** The loop of `pre_hook`: each of the directory hooks, and then the
     *  configured pre-hook, goes through `_run_pre_hook_if_necessary`, in
     *  order. */
    method RunPreHooksInOrder(hooks: seq<string>)
      requires Valid()
      modifies this`already, this`ranAt, this`trace, this`notices
      ensures Valid()
      ensures trace == old(trace) + Runs(Pre, FreshInOrder(old(already), hooks), env)
      ensures already == old(already) + Elems(hooks)
      ensures notices == old(notices) + AlreadyRunNotices(Pre, SkippedInOrder(old(already), hooks))
    {
      ghost var seen := already;
      for i := 0 to |hooks|
        invariant Valid()
        invariant trace == old(trace) + Runs(Pre, FreshInOrder(seen, hooks[..i]), env)
        invariant already == seen + Elems(hooks[..i])
        invariant notices == old(notices) + AlreadyRunNotices(Pre, SkippedInOrder(seen, hooks[..i]))
      {
        RunPreStep(old(trace), old(notices), seen, hooks[..i], hooks[i]);
        assert hooks[..i + 1] == hooks[..i] + [hooks[i]];
      }
      assert hooks[..|hooks|] == hooks;
    }

    /** The body of the pre-hook loop: the state after `done` becomes the
     *  state after `done + [c]`. */
    method RunPreStep(ghost trace0: seq<Run>, ghost notices0: seq<Notice>, ghost seen: set<string>, ghost done: seq<string>, c: string)
      requires Valid()
      requires trace == trace0 + Runs(Pre, FreshInOrder(seen, done), env)
      requires already == seen + Elems(done)
      requires notices == notices0 + AlreadyRunNotices(Pre, SkippedInOrder(seen, done))
      modifies this`already, this`ranAt, this`trace, this`notices
      ensures Valid()
      ensures trace == trace0 + Runs(Pre, FreshInOrder(seen, done + [c]), env)
      ensures already == seen + Elems(done + [c])
      ensures notices == notices0 + AlreadyRunNotices(Pre, SkippedInOrder(seen, done + [c]))
    {
      PreStep(seen, done, c, env);
      RunPreHookIfNecessary(c);
    }

    /** One step of a pre-hook loop, in terms of its specification. */
    static lemma PreStep(seen: set<string>, done: seq<string>, c: string, env: map<string, string>)
      ensures c in seen + Elems(done) <==> c in seen || c in done
      ensures Elems(done + [c]) == Elems(done) + {c}
      ensures Runs(Pre, FreshInOrder(seen, done + [c]), env)
        == Runs(Pre, FreshInOrder(seen, done), env) + (if c in seen || c in done then [] else [Run(Pre, c, env)])
      ensures AlreadyRunNotices(Pre, SkippedInOrder(seen, done + [c]))
        == AlreadyRunNotices(Pre, SkippedInOrder(seen, done)) + (if c in seen || c in done then [AlreadyRun(Pre, c)] else [])
    {
      FreshInOrderSnoc(seen, done, c);
      SkippedInOrderSnoc(seen, done, c);
      RunsSnoc(Pre, FreshInOrder(seen, done), c, env);
      NoticesSnoc(Pre, SkippedInOrder(seen, done), c);
    }

    /** `_run_eventually(command)`. */
    method RunEventually(command: string)
      requires Valid()
      modifies this`eventually
      ensures Valid()
      ensures eventually == if command in old(eventually) then old(eventually) else old(eventually) + [command]
    {
      if command !in eventually {
        NoDupSnoc(eventually, command);
        eventually := eventually + [command];
      }
    }

    /** `post_hook(config)`. Under the renew verb nothing runs: the directory
     *  hooks and then the configured post-hook are saved. Otherwise the
     *  configured post-hook runs at once. ok is false where listing the
     *  post-hook directory raises; nothing is saved then. */
    method PostHook(config: Config, fs: FileSystem) returns (ok: bool)
      requires Valid()
      modifies this`eventually, this`trace
      ensures Valid()
      ensures config.verb == "renew" ==>
        && trace == old(trace)
        && (ok <==> DirHooks(config.directoryHooks, fs, config.renewalPostHooksDir).Some?)
        && (!ok ==> eventually == old(eventually))
        && (ok ==>
              var commands := PostHookCommands(config, DirHooks(config.directoryHooks, fs, config.renewalPostHooksDir).value);
              && eventually == old(eventually) + FreshInOrder(Elems(old(eventually)), commands))
      ensures config.verb != "renew" ==>
        && ok
        && eventually == old(eventually)
        && trace == old(trace) + Runs(Post, Configured(config.postHook), env)
    {
      ok := true;
      if config.verb == "renew" {
        var hooks: seq<string> := [];
        if config.directoryHooks {
          var listed := ListHooks(fs, config.renewalPostHooksDir);
          if listed.None? {
            return false;
          }
          hooks := listed.value;
        }
        var commands := hooks + Configured(config.postHook);
        RunEventuallyInOrder(commands);
        assert DirHooks(config.directoryHooks, fs, config.renewalPostHooksDir) == Some(hooks);
      } else if config.postHook != [] {
        ghost var prior := trace;
        RunHook(Post, config.postHook);
        AppendOther(prior, already, ranAt, Run(Post, config.postHook, env));
      }
    }

    /** The loop of `post_hook` under the renew verb: each of the directory
     *  hooks, and then the configured post-hook, is handed to
     *  `_run_eventually`, in order. */
    method RunEventuallyInOrder(commands: seq<string>)
      requires Valid()
      modifies this`eventually
      ensures Valid()
      ensures eventually == old(eventually) + FreshInOrder(Elems(old(eventually)), commands)
    {
      for i := 0 to |commands|
        invariant Valid()
        invariant eventually == old(eventually) + FreshInOrder(Elems(old(eventually)), commands[..i])
      {
        EventuallyStep(old(eventually), commands[..i], commands[i]);
        RunEventually(commands[i]);
        assert commands[..i + 1] == commands[..i] + [commands[i]];
      }
      assert commands[..|commands|] == commands;
    }

    /** One step of saving post-hooks: `c` is saved unless it was saved
     *  before the loop or earlier in it. */
    static lemma EventuallyStep(saved: seq<string>, done: seq<string>, c: string)
      ensures var e := saved + FreshInOrder(Elems(saved), done);
        (if c in e then e else e + [c]) == saved + FreshInOrder(Elems(saved), done + [c])
    {
      var e := saved + FreshInOrder(Elems(saved), done);
      assert c in e <==> c in Elems(saved) || c in done by {
        FreshInOrderElems(Elems(saved), done);
        assert Elems(e) == Elems(saved) + Elems(FreshInOrder(Elems(saved), done));
      }
      FreshInOrderSnoc(Elems(saved), done, c);
    }

    /** `run_saved_post_hooks()`: every saved post-hook runs, in the order it
     *  was saved, each once. The saved list is kept as it is. */
    method RunSavedPostHooks()
      requires Valid()
      modifies this`trace
      ensures Valid()
      ensures trace == old(trace) + Runs(Post, eventually, env)
      ensures NoDup(eventually)
    {
      var i := 0;
      while i < |eventually|
        invariant 0 <= i <= |eventually|
        invariant trace == old(trace) + Runs(Post, eventually[..i], env)
        invariant PreIndexed(trace, already, ranAt)
      {
        ghost var prior := trace;
        RunHook(Post, eventually[i]);
        AppendOther(prior, already, ranAt, Run(Post, eventually[i], env));
        RunsSnoc(Post, eventually[..i], eventually[i], env);
        assert eventually[..i + 1] == eventually[..i] + [eventually[i]];
        i := i + 1;
      }
      assert eventually[..i] == eventually;
    }

    /** `_run_deploy_hook(command, domains, lineagePath, dryRun)`: nothing runs
     *  in a dry run; otherwise RENEWED_DOMAINS and RENEWED_LINEAGE are set and
     *  the command runs once, seeing them. */
    method RunDeployHook(command: string, domains: seq<string>, lineagePath: string, dryRun: bool)
      requires Valid()
      modifies this`env, this`trace, this`notices
      ensures Valid()
      ensures dryRun ==>
        env == old(env) && trace == old(trace) && notices == old(notices) + [DryRunSkipped(command)]
      ensures !dryRun ==>
        && env == DeployEnv(old(env), domains, lineagePath)
        && trace == old(trace) + [Run(Deploy, command, env)]
        && notices == old(notices)
    {
      if dryRun {
        notices := notices + [DryRunSkipped(command)];
        return;
      }
      env := env[RenewedDomains := JoinSpace(domains)];
      env := env[RenewedLineage := lineagePath];
      ghost var prior := trace;
      RunHook(Deploy, command);
      AppendOther(prior, already, ranAt, Run(Deploy, command, env));
    }

    /** `deploy_hook(config, domains, lineagePath)`: the configured deploy-hook,
     *  if any, through the dry-run gate. */
    method DeployHook(config: Config, domains: seq<string>, lineagePath: string)
      requires Valid()
      modifies this`env, this`trace, this`notices
      ensures Valid()
      ensures var ran := if config.dryRun then [] else Configured(config.deployHook);
        && trace == old(trace) + Runs(Deploy, ran, env)
        && env == (if ran == [] then old(env) else DeployEnv(old(env), domains, lineagePath))
        && notices == old(notices) + DryRunNotices(config.dryRun, Configured(config.deployHook))
    {
      if config.deployHook != [] {
        RunDeployHook(config.deployHook, domains, lineagePath, config.dryRun);
      }
    }

    /** `renew_hook(config, domains, lineagePath)`: the directory deploy-hooks
     *  (where enabled) and then the configured renew-hook, unless one of the
     *  directory hooks of this pass is that same command. ok is false where
     *  listing the deploy-hook directory raises; nothing has run then. */
    method RenewHook(config: Config, fs: FileSystem, domains: seq<string>, lineagePath: string) returns (ok: bool)
      requires Valid()
      modifies this`env, this`trace, this`notices
      ensures Valid()
      ensures ok <==> DirHooks(config.directoryHooks, fs, config.renewalDeployHooksDir).Some?
      ensures !ok ==> env == old(env) && trace == old(trace) && notices == old(notices)
      ensures ok ==>
        var listing := DirHooks(config.directoryHooks, fs, config.renewalDeployHooksDir).value;
        var schedule := DeploySchedule(config.renewHook, listing);
        && trace == old(trace) + (if config.dryRun then [] else Runs(Deploy, schedule, env))
        && env == (if config.dryRun || schedule == [] then old(env) else DeployEnv(old(env), domains, lineagePath))
        && notices == old(notices) + DeployNotices(config.dryRun, config.renewHook, listing)
    {
      var hooks: seq<string> := [];
      if config.directoryHooks {
        var listed := ListHooks(fs, config.renewalDeployHooksDir);
        if listed.None? {
          return false;
        }
        hooks := listed.value;
      }
      assert DirHooks(config.directoryHooks, fs, config.renewalDeployHooksDir) == Some(hooks);
      ghost var env0, trace0, notices0 := env, trace, notices;
      var executed := RunDeployHooksInOrder(hooks, domains, lineagePath, config.dryRun);
      assert config.renewHook in executed <==> config.renewHook in hooks;
      ghost var schedule := DeploySchedule(config.renewHook, hooks);
      ghost var dryNotices := DryRunNotices(config.dryRun, hooks);
      if config.renewHook == [] {
        assert schedule == hooks + [];
        assert DeployNotices(config.dryRun, config.renewHook, hooks) == dryNotices + [];
      } else if config.renewHook in executed {
        notices := notices + [AlreadyRun(Deploy, config.renewHook)];
        assert schedule == hooks + [];
        assert DeployNotices(config.dryRun, config.renewHook, hooks) == dryNotices + [AlreadyRun(Deploy, config.renewHook)];
      } else {
        ghost var mid, envLoop := notices, env;
        RunDeployHook(config.renewHook, domains, lineagePath, config.dryRun);
        assert schedule == hooks + [config.renewHook];
        assert notices == mid + DryRunNotices(config.dryRun, [config.renewHook]) by {
          DryRunNoticesSnoc(config.dryRun, [], config.renewHook);
          assert [] + [config.renewHook] == [config.renewHook];
        }
        if !config.dryRun {
          assert env == DeployEnv(env0, domains, lineagePath) by {
            DeployEnvIdempotent(env0, domains, lineagePath);
          }
          assert Runs(Deploy, hooks, envLoop) == Runs(Deploy, hooks, env) by {
            if hooks != [] {
              DeployEnvIdempotent(env0, domains, lineagePath);
            }
          }
          RunsSnoc(Deploy, hooks, config.renewHook, env);
        }
      }
      ok := true;
    }

    /** The loop of `renew_hook` over the directory deploy-hooks: each goes
     *  through `_run_deploy_hook`, in order; executed is the set of them. */
    method RunDeployHooksInOrder(hooks: seq<string>, domains: seq<string>, lineagePath: string, dryRun: bool)
      returns (executed: set<string>)
      requires Valid()
      modifies this`env, this`trace, this`notices
      ensures Valid()
      ensures executed == Elems(hooks)
      ensures trace == old(trace) + (if dryRun then [] else Runs(Deploy, hooks, env))
      ensures env == if dryRun || hooks == [] then old(env) else DeployEnv(old(env), domains, lineagePath)
      ensures notices == old(notices) + DryRunNotices(dryRun, hooks)
    {
      executed := {};
      ghost var newEnv := DeployEnv(env, domains, lineagePath);
      DeployEnvIdempotent(env, domains, lineagePath);
      for i := 0 to |hooks|
        invariant Valid()
        invariant executed == Elems(hooks[..i])
        invariant trace == old(trace) + (if dryRun then [] else Runs(Deploy, hooks[..i], env))
        invariant env == if dryRun || i == 0 then old(env) else newEnv
        invariant notices == old(notices) + DryRunNotices(dryRun, hooks[..i])
      {
        RunDeployHook(hooks[i], domains, lineagePath, dryRun);
        executed := executed + {hooks[i]};
        assert hooks[..i + 1] == hooks[..i] + [hooks[i]];
        DryRunNoticesSnoc(dryRun, hooks[..i], hooks[i]);
        if !dryRun {
          assert env == newEnv;
          RunsSnoc(Deploy, hooks[..i], hooks[i], env);
        }
      }
      assert hooks[..|hooks|] == hooks;
    }
  }
}
