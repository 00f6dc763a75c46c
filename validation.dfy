/** `validate_hooks` and `validate_hook`: the pre-flight check that a
 *  configured hook's program can be found, before any hook runs. */
module Validation {
  import opened Wrappers
  import opened Text
  import opened Configuration

  /** What the check asks of the environment about a program token:
   *  `util.exe_exists` before and after `plug_util.path_surgery` has extended
   *  PATH, `os.path.exists`, and `os.environ["PATH"]` before and after the
   *  surgery. */
  datatype PathLookup = PathLookup(
    exeExists: string -> bool,
    exeExistsAfterSurgery: string -> bool,
    pathExists: string -> bool,
    path: string,
    pathAfterSurgery: string)

  /** The two messages of HookCommandNotFound: the program exists but is not
   *  executable, or it is not on the PATH (whose value the message quotes). */
  datatype Reason = NotExecutable | NotInPath(path: string)

  datatype HookError =
    | HookCommandNotFound(hookName: string, command: string, reason: Reason)
      /** The IndexError of `split(None, 1)[0]` on a command of whitespace only. */
    | NoProgramToken

  datatype Outcome = Pass | Fail(error: HookError)

  /** `_prog(cmd)`: the basename of cmd, or None when cmd is not executable,
   *  not even once PATH has been extended. */
  function Prog(cmd: string, host: PathLookup): (r: Option<string>)
    ensures r.Some? <==> host.exeExists(cmd) || host.exeExistsAfterSurgery(cmd)
    ensures r.Some? ==> r.value == Basename(cmd)
  {
    if host.exeExists(cmd) then Some(Basename(cmd))
    else if host.exeExistsAfterSurgery(cmd) then Some(Basename(cmd))
    else None
  }

  /** The PATH value in effect after `_prog(cmd)`: the surgery ran only if
   *  the first lookup failed. */
  function PathAfterProg(cmd: string, host: PathLookup): string {
    if host.exeExists(cmd) then host.path else host.pathAfterSurgery
  }

  /** A program token passes when it is executable, before or after the PATH
   *  surgery, and its basename is not empty (Python treats "" as false). */
  predicate Runnable(token: string, host: PathLookup)
    requires token != []
  {
    (host.exeExists(token) || host.exeExistsAfterSurgery(token)) && token[|token| - 1] != '/'
  }

  /** What `validate_hook` decides about the program token cmd. */
  function CheckProgram(cmd: string, hookName: string, host: PathLookup): Outcome {
    var prog := Prog(cmd, host);
    if prog.Some? && prog.value != [] then Pass
    else
      var path := PathAfterProg(cmd, host);
      var msg := if host.pathExists(cmd) then NotExecutable else NotInPath(path);
      Fail(HookCommandNotFound(hookName, cmd, msg))
  }

  /** `validate_hook(shellCmd, hookName)`. */
  function ValidateHook(shellCmd: string, hookName: string, host: PathLookup): Outcome {
    if shellCmd == [] then Pass
    else
      match FirstToken(shellCmd)
      case None => Fail(NoProgramToken)
      case Some(cmd) => CheckProgram(cmd, hookName, host)
  }

  /** An unset hook passes; a command of whitespace only fails with the
   *  IndexError; otherwise the verdict is that of the first token alone, and
   *  a failure names the hook kind and the token, and says "not executable"
   *  exactly when the token exists on disk. */
  lemma ValidateHookVerdict(shellCmd: string, hookName: string, host: PathLookup)
    ensures shellCmd == [] ==> ValidateHook(shellCmd, hookName, host) == Pass
    ensures shellCmd != [] && AllSpace(shellCmd) ==> ValidateHook(shellCmd, hookName, host) == Fail(NoProgramToken)
    ensures shellCmd != [] && !AllSpace(shellCmd) ==>
      FirstToken(shellCmd).Some? && FirstToken(shellCmd).value != [] &&
      var token := FirstToken(shellCmd).value;
      var r := ValidateHook(shellCmd, hookName, host);
      (r.Pass? <==> Runnable(token, host)) &&
      (r.Fail? ==> r.error == HookCommandNotFound(hookName, token,
                     if host.pathExists(token) then NotExecutable else NotInPath(PathAfterProg(token, host))))
  {
    var r := ValidateHook(shellCmd, hookName, host);
    FirstTokenSpec(shellCmd);
    if shellCmd != [] && !AllSpace(shellCmd) {
      var token := FirstToken(shellCmd).value;
      BasenameEmpty(token);
      assert r == CheckProgram(token, hookName, host);
    }
  }

  /** Only the program token is checked: leading whitespace and the
   *  arguments after it do not change the verdict. */
  lemma ValidateHookIgnoresArguments(lead: string, token: string, rest: string, hookName: string, host: PathLookup)
    requires AllSpace(lead) && token != [] && NoSpace(token)
    requires rest == [] || IsSpace(rest[0])
    ensures ValidateHook(lead + token + rest, hookName, host) == ValidateHook(token, hookName, host)
  {
    FirstTokenOf(lead, token, rest);
    VerdictOfToken(lead + token + rest, token, hookName, host);
    FirstTokenOf([], token, []);
    assert [] + token + [] == token;
    VerdictOfToken(token, token, hookName, host);
  }

  /** A command whose first field is token gets the verdict on token. */
  lemma VerdictOfToken(shellCmd: string, token: string, hookName: string, host: PathLookup)
    requires FirstToken(shellCmd) == Some(token)
    ensures ValidateHook(shellCmd, hookName, host) == CheckProgram(token, hookName, host)
  {
    assert FirstToken([]).None?;
  }

  /** The first failure among outcomes, in order; Pass when every one passes. */
  function FirstFailure(outcomes: seq<Outcome>): Outcome
    decreases |outcomes|
  {
    if outcomes == [] then Pass
    else if outcomes[0].Fail? then outcomes[0]
    else FirstFailure(outcomes[1..])
  }

  /** FirstFailure passes exactly when every outcome passes, and otherwise
   *  is a failing outcome that only passing outcomes precede. */
  lemma {:induction false} FirstFailureSpec(outcomes: seq<Outcome>)
    ensures var r := FirstFailure(outcomes);
      (r.Pass? <==> forall k :: 0 <= k < |outcomes| ==> outcomes[k].Pass?) &&
      (r.Fail? ==> exists k :: 0 <= k < |outcomes| && r == outcomes[k]
                     && forall j :: 0 <= j < k ==> outcomes[j].Pass?)
    decreases |outcomes|
  {
    if outcomes != [] && outcomes[0].Pass? {
      FirstFailureSpec(outcomes[1..]);
      assert forall k :: 1 <= k < |outcomes| ==> outcomes[k] == outcomes[1..][k - 1];
      var r := FirstFailure(outcomes);
      if r.Fail? {
        var k :| 0 <= k < |outcomes[1..]| && r == outcomes[1..][k]
                 && forall j :: 0 <= j < k ==> outcomes[1..][j].Pass?;
        assert r == outcomes[k + 1];
        assert forall j :: 0 <= j < k + 1 ==> outcomes[j].Pass? by {
          forall j | 0 <= j < k + 1 ensures outcomes[j].Pass? {
            if j > 0 { assert outcomes[j] == outcomes[1..][j - 1]; }
          }
        }
      }
    }
  }

  /** Four checks made one after the other raise the first failure. */
  lemma FirstFailureOfFour(a: Outcome, b: Outcome, c: Outcome, d: Outcome)
    ensures FirstFailure([a, b, c, d])
         == if a.Fail? then a else if b.Fail? then b else if c.Fail? then c else d
  {
    assert [d][1..] == [];
    assert FirstFailure([d]) == d;
    assert [c, d][1..] == [d];
    assert FirstFailure([c, d]) == if c.Fail? then c else d;
    assert [b, c, d][1..] == [c, d];
    assert FirstFailure([b, c, d]) == if b.Fail? then b else FirstFailure([c, d]);
    assert [a, b, c, d][1..] == [b, c, d];
  }

  /** The outcome of checking each hook, in the order `validate_hooks`
   *  checks them. */
  function HookOutcomes(config: Config, host: PathLookup): seq<Outcome> {
    [ValidateHook(config.preHook, "pre", host), ValidateHook(config.postHook, "post", host),
     ValidateHook(config.deployHook, "deploy", host), ValidateHook(config.renewHook, "renew", host)]
  }

  /** `validate_hooks(config)`: the pre-, post-, deploy- and renew-hook are
   *  checked in that order and the first failure is raised. */
  function ValidateHooks(config: Config, host: PathLookup): (r: Outcome)
    ensures r == FirstFailure(HookOutcomes(config, host))
  {
    var pre := ValidateHook(config.preHook, "pre", host);
    var post := ValidateHook(config.postHook, "post", host);
    var deploy := ValidateHook(config.deployHook, "deploy", host);
    var renew := ValidateHook(config.renewHook, "renew", host);
    FirstFailureOfFour(pre, post, deploy, renew);
    if pre.Fail? then pre
    else if post.Fail? then post
    else if deploy.Fail? then deploy
    else renew
  }
}
