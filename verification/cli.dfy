/** The per-account dispatcher of cli/cli.go: building one request per
    account, the outcome logic of `executeCommand`, the rendering of a finished
    execution, and the collection of exactly one result per account in `Run`.
    What the outside world does for an account (role assumption, process start
    and exit, the bytes the child writes) is an input, one `StepResults` per
    launched account. */
module Cli {
  import opened Wrappers
  import Strings
  import Config
  import Lines
  import EnvList

  /** The eight terminal colours accounts are labelled with, in palette order. */
  datatype Color = FgHiYellow | FgHiCyan | FgHiMagenta | FgHiBlue | FgMagenta | FgYellow | FgBlue | FgCyan

  const OutputColors: seq<Color> := [FgHiYellow, FgHiCyan, FgHiMagenta, FgHiBlue, FgMagenta, FgYellow, FgBlue, FgCyan]

  /** Palette index of the account at position `i` of the account list. */
  function ColorIndex(i: nat): (k: nat)
    ensures k < |OutputColors|
    ensures (i - k) % |OutputColors| == 0
  {
    i % |OutputColors|
  }

  /** Colour of the account at position `i`: the first eight accounts take the
      palette in order, and it is always a palette colour. */
  function OutputColor(i: nat): (c: Color)
    ensures c in OutputColors
    ensures i < |OutputColors| ==> c == OutputColors[i]
  {
    OutputColors[ColorIndex(i)]
  }

  /** Two positions share a colour exactly when they are congruent modulo the
      palette size: the palette holds no colour twice. */
  lemma SameColorIffSameResidue(i: nat, j: nat)
    ensures OutputColor(i) == OutputColor(j) <==> i % |OutputColors| == j % |OutputColors|
  {
    assert forall a, b :: 0 <= a < b < |OutputColors| ==> OutputColors[a] != OutputColors[b];
  }

  /** Any eight consecutive accounts get eight different colours. */
  lemma WindowColorsDistinct(start: nat, i: nat, j: nat)
    requires start <= i < j < start + |OutputColors|
    ensures OutputColor(i) != OutputColor(j)
  {
    SameColorIffSameResidue(i, j);
  }

  const ArnPrefix := "arn:aws:iam::"
  const RoleMarker := ":role/"

  /** The role ARN assumed in an account: `arn:aws:iam::<account>:role/<role>`. */
  function RoleArn(accountID: string, roleName: string): (arn: string)
    ensures |arn| == |ArnPrefix| + |accountID| + |RoleMarker| + |roleName|
    ensures arn[..|ArnPrefix|] == ArnPrefix
    ensures arn[|ArnPrefix|..|ArnPrefix| + |accountID|] == accountID
    ensures arn[|ArnPrefix| + |accountID|..|arn| - |roleName|] == RoleMarker
    ensures arn[|arn| - |roleName|..] == roleName
  {
    ArnPrefix + accountID + RoleMarker + roleName
  }

  /** Reads the account id (up to the first `:` after the prefix) and role name
      back out of a role ARN. */
  function ParseRoleArn(arn: string): Option<(string, string)>
  {
    if |arn| < |ArnPrefix| || arn[..|ArnPrefix|] != ArnPrefix then None
    else ParseAccountAndRole(arn[|ArnPrefix|..])
  }

  /** Splits `<account>:role/<role>` at its first `:`. */
  function ParseAccountAndRole(rest: string): Option<(string, string)>
  {
    match Strings.IndexOf(rest, ':')
    case None => None
    case Some(i) =>
      var tail := rest[i..];
      if |tail| < |RoleMarker| || tail[..|RoleMarker|] != RoleMarker then None
      else Some((rest[..i], tail[|RoleMarker|..]))
  }

  /** The ARN determines account and role, for account ids without `:`. */
  lemma RoleArnRoundTrip(accountID: string, roleName: string)
    requires ':' !in accountID
    ensures ParseRoleArn(RoleArn(accountID, roleName)) == Some((accountID, roleName))
  {
    var rest := accountID + RoleMarker + roleName;
    var arn := RoleArn(accountID, roleName);
    assert arn == ArnPrefix + rest;
    assert arn[..|ArnPrefix|] == ArnPrefix && arn[|ArnPrefix|..] == rest;
    assert ParseRoleArn(arn) == ParseAccountAndRole(rest);
    AccountAndRoleRoundTrip(accountID, roleName);
  }

  lemma AccountAndRoleRoundTrip(accountID: string, roleName: string)
    requires ':' !in accountID
    ensures ParseAccountAndRole(accountID + RoleMarker + roleName) == Some((accountID, roleName))
  {
    var rest := accountID + RoleMarker + roleName;
    assert rest == accountID + [':'] + ("role/" + roleName);
    Strings.IndexOfAfterPrefix(accountID, ':', "role/" + roleName);
    assert rest[..|accountID|] == accountID;
    assert rest[|accountID|..] == RoleMarker + roleName;
  }

  /** Distinct accounts (ids without `:`) are never sent the same ARN. */
  lemma RoleArnInjective(a1: string, r1: string, a2: string, r2: string)
    requires ':' !in a1 && ':' !in a2
    requires RoleArn(a1, r1) == RoleArn(a2, r2)
    ensures a1 == a2 && r1 == r2
  {
    RoleArnRoundTrip(a1, r1);
    RoleArnRoundTrip(a2, r2);
  }

  /** An account id holding `:role/` can name another account's role: the ARN
      alone no longer tells the two requests apart. */
  lemma RoleArnAmbiguousWithColon()
    ensures RoleArn("1:role/x", "y") == RoleArn("1", "x:role/y")
    ensures "1:role/x" != "1"
  {
  }

  /** `CommandExecution`: the request (command arguments, account, role,
      colour) together with what running it produced. `err` is Go's nullable
      `Err`; buffer bytes are modelled one character per byte. */
  datatype Execution = Execution(
    command: seq<string>,
    accountID: string,
    roleName: string,
    color: Color,
    stdout: string,
    stderr: string,
    err: Option<Error>)

  /** The request `Run` builds for the account at position `i`: the command,
      account and role it is for, its position's colour, nothing run yet. */
  function NewExecution(args: seq<string>, accountID: string, roleName: string, i: nat): (e: Execution)
    ensures e.command == args && e.accountID == accountID && e.roleName == roleName
    ensures e.stdout == "" && e.stderr == "" && e.err.None?
    ensures e.color == OutputColors[i % |OutputColors|]
  {
    Execution(args, accountID, roleName, OutputColor(i), "", "", None)
  }

  /** `CommandExecution.String`: on failure the scanned stderr lines and then
      the error message, each line newline-terminated; otherwise the scanned
      stdout lines. Each line is a newline-separated piece of the buffer with
      one trailing carriage return dropped, so carriage-return-free output
      comes back exactly, with a final newline supplied if missing. */
  function Render(e: Execution): (out: string)
    ensures e.err.None? ==> out == Lines.Unlines(Lines.DropCRs(Lines.Pieces(e.stdout)))
    ensures e.err.Some? ==> out == Lines.Unlines(Lines.DropCRs(Lines.Pieces(e.stderr))) + e.err.value.message + "\n"
    ensures e.err.None? ==> (out == "" <==> e.stdout == "")
    ensures e.err.None? && '\r' !in e.stdout ==> out == Lines.Terminated(e.stdout)
    ensures e.err.Some? && '\r' !in e.stderr ==> out == Lines.Terminated(e.stderr) + e.err.value.message + "\n"
  {
    match e.err
    case Some(failure) =>
      Lines.ScanLinesPieces(e.stderr);
      assert '\r' !in e.stderr ==> Lines.Unlines(Lines.ScanLines(e.stderr)) == Lines.Terminated(e.stderr) by {
        if '\r' !in e.stderr { Lines.ScanLinesRoundTrip(e.stderr); }
      }
      Lines.Unlines(Lines.ScanLines(e.stderr)) + failure.message + "\n"
    case None =>
      Lines.ScanLinesPieces(e.stdout);
      assert '\r' !in e.stdout ==> Lines.Unlines(Lines.ScanLines(e.stdout)) == Lines.Terminated(e.stdout) by {
        if '\r' !in e.stdout { Lines.ScanLinesRoundTrip(e.stdout); }
      }
      assert Lines.ScanLines(e.stdout) != [] ==> Lines.Unlines(Lines.ScanLines(e.stdout)) != "";
      Lines.Unlines(Lines.ScanLines(e.stdout))
  }

  /** A failed execution's rendering never shows its stdout, and always ends
      with the error message. */
  lemma RenderFailureHidesStdout(e: Execution, other: string)
    requires e.err.Some?
    ensures Render(e.(stdout := other)) == Render(e)
    ensures var out := Render(e); var tail := e.err.value.message + "\n";
            |out| >= |tail| && out[|out| - |tail|..] == tail
  {
  }

  /** The external command every account runs. */
  const Program := "aws"

  /** One interaction with the outside world, in the order they happen. */
  datatype Step =
    | AssumeRole(roleArn: string)
    | Start(program: string, args: seq<string>, env: seq<string>)
    | Wait

  /** What the outside world answers for one account: the credentials or error
      role assumption returns, the order Go's map iteration visits the
      credential keys, the errors (if any) of starting and of waiting for the
      process, and what the child wrote to stdout and stderr. */
  datatype StepResults = StepResults(
    assumeRole: Result<map<string, string>, Error>,
    keyOrder: seq<string>,
    start: Option<Error>,
    wait: Option<Error>,
    stdout: string,
    stderr: string)

  /** Map iteration visits every credential key exactly once. */
  predicate WellFormed(w: StepResults)
  {
    w.assumeRole.Success? ==> EnvList.IsEnumeration(w.keyOrder, w.assumeRole.value.Keys)
  }

  /** The finished execution and the steps taken to produce it. */
  datatype Executed = Executed(execution: Execution, steps: seq<Step>)

  /** `executeCommand`: assume the account's role, start the command with the
      credentials as its entire environment, wait for it. The first failing
      step sets `Err` and ends the attempt; process failures also keep the
      captured stderr; only a clean exit keeps the captured stdout. */
  function ExecuteCommand(ce: Execution, w: StepResults): (r: Executed)
    requires WellFormed(w)
    ensures r.execution.command == ce.command && r.execution.accountID == ce.accountID
    ensures r.execution.roleName == ce.roleName && r.execution.color == ce.color
    ensures |r.steps| >= 1 && r.steps[0] == AssumeRole(RoleArn(ce.accountID, ce.roleName))
    ensures w.assumeRole.Failure? ==>
      && r.execution == ce.(err := Some(w.assumeRole.error))
      && |r.steps| == 1
    ensures w.assumeRole.Success? ==>
      && |r.steps| >= 2
      && r.steps[1].Start? && r.steps[1].program == Program && r.steps[1].args == ce.command
      && |r.steps[1].env| == |w.assumeRole.value|
      && ((forall k :: k in w.assumeRole.value ==> '=' !in k) ==>
            EnvList.ParseEnviron(r.steps[1].env) == w.assumeRole.value)
    ensures w.assumeRole.Success? && w.start.Some? ==>
      && r.execution == ce.(err := w.start, stderr := w.stderr)
      && |r.steps| == 2
    ensures w.assumeRole.Success? && w.start.None? && w.wait.Some? ==>
      && r.execution == ce.(err := w.wait, stderr := w.stderr)
      && |r.steps| == 3 && r.steps[2] == Wait
    ensures w.assumeRole.Success? && w.start.None? && w.wait.None? ==>
      && r.execution == ce.(stdout := w.stdout)
      && |r.steps| == 3 && r.steps[2] == Wait
  {
    var assumeStep := AssumeRole(RoleArn(ce.accountID, ce.roleName));
    match w.assumeRole
    case Failure(e) => Executed(ce.(err := Some(e)), [assumeStep])
    case Success(creds) =>
      var env := EnvList.ToEnvVarsList(creds, w.keyOrder);
      EnvList.ToEnvVarsListIsEnvironment(creds, w.keyOrder);
      var start := Start(Program, ce.command, env);
      if w.start.Some? then
        Executed(ce.(err := w.start, stderr := w.stderr), [assumeStep, start])
      else if w.wait.Some? then
        Executed(ce.(err := w.wait, stderr := w.stderr), [assumeStep, start, Wait])
      else
        Executed(ce.(stdout := w.stdout), [assumeStep, start, Wait])
  }

  /** The stage at which an attempt stops. */
  datatype Stage = Authentication | ProcessStart | ProcessRun

  /** The first step the outside world fails, if any. */
  function FailedStage(w: StepResults): Option<Stage>
  {
    if w.assumeRole.Failure? then Some(Authentication)
    else if w.start.Some? then Some(ProcessStart)
    else if w.wait.Some? then Some(ProcessRun)
    else None
  }

  /** For a fresh request, the execution fails exactly when some step fails;
      the steps stop at the failing one; stdout is kept only on success and
      stderr only after a process failure. */
  lemma ExecuteCommandOutcome(ce: Execution, w: StepResults)
    requires WellFormed(w)
    requires ce.stdout == "" && ce.stderr == "" && ce.err.None?
    ensures var r := ExecuteCommand(ce, w).execution; var n := |ExecuteCommand(ce, w).steps|;
      && (r.err.None? <==> FailedStage(w).None?)
      && (FailedStage(w) == Some(Authentication) ==> n == 1 && r.stdout == "" && r.stderr == "")
      && (FailedStage(w) == Some(ProcessStart) ==> n == 2 && r.stdout == "" && r.stderr == w.stderr)
      && (FailedStage(w) == Some(ProcessRun) ==> n == 3 && r.stdout == "" && r.stderr == w.stderr)
      && (FailedStage(w).None? ==> n == 3 && r.stdout == w.stdout && r.stderr == "")
  {
  }

  /** The accounts of a sequence of executions, in order. */
  function AccountIds(execs: seq<Execution>): (ids: seq<string>)
    ensures |ids| == |execs|
    ensures forall i :: 0 <= i < |execs| ==> ids[i] == execs[i].accountID
  {
    seq(|execs|, i requires 0 <= i < |execs| => execs[i].accountID)
  }

  /** The executions `Run` launches, in launch order: one per account, all with
      the same command and role name, each labelled by its position and run
      against its own outside world. */
  function Launch(accounts: seq<string>, roleName: string, args: seq<string>, world: nat -> StepResults): (execs: seq<Execution>)
    requires forall i :: 0 <= i < |accounts| ==> WellFormed(world(i))
    ensures |execs| == |accounts|
    ensures AccountIds(execs) == accounts
    ensures forall i :: 0 <= i < |execs| ==>
      && execs[i].command == args && execs[i].roleName == roleName
      && execs[i].color == OutputColor(i)
      && (execs[i].err.None? <==> FailedStage(world(i)).None?)
  {
    var execs := seq(|accounts|, i requires 0 <= i < |accounts| =>
      ExecuteCommand(NewExecution(args, accounts[i], roleName, i), world(i)).execution);
    forall i | 0 <= i < |accounts|
      ensures execs[i].err.None? <==> FailedStage(world(i)).None?
    {
      ExecuteCommandOutcome(NewExecution(args, accounts[i], roleName, i), world(i));
    }
    execs
  }

  /** One account's result depends on its own outside world only: a failure
      anywhere else never changes it. */
  lemma LaunchIsolation(accounts: seq<string>, roleName: string, args: seq<string>,
                        w1: nat -> StepResults, w2: nat -> StepResults, i: nat)
    requires forall k :: 0 <= k < |accounts| ==> WellFormed(w1(k)) && WellFormed(w2(k))
    requires i < |accounts| && w1(i) == w2(i)
    ensures Launch(accounts, roleName, args, w1)[i] == Launch(accounts, roleName, args, w2)[i]
  {
  }

  /** The fan-in of `Run`: the launched executions report back one at a time,
      any still-pending one next, and each is appended as it arrives. Every
      launched execution ends up in the results exactly once. */
  method Collect(launched: seq<Execution>) returns (results: seq<Execution>)
    ensures |results| == |launched|
    ensures multiset(results) == multiset(launched)
    ensures multiset(AccountIds(results)) == multiset(AccountIds(launched))
  {
    var pending := launched;
    results := [];
    while |pending| > 0
      invariant |results| + |pending| == |launched|
      invariant multiset(results) + multiset(pending) == multiset(launched)
      invariant multiset(AccountIds(results)) + multiset(AccountIds(pending)) == multiset(AccountIds(launched))
      decreases |pending|
    {
      var j :| 0 <= j < |pending|;
      var done := pending[j];
      var rest := pending[..j] + pending[j + 1..];
      assert pending == pending[..j] + [done] + pending[j + 1..];
      AccountIdsRemove(pending, j);
      AccountIdsAppend(results, done);
      results := results + [done];
      pending := rest;
    }
  }

  lemma AccountIdsAppend(s: seq<Execution>, e: Execution)
    ensures multiset(AccountIds(s + [e])) == multiset(AccountIds(s)) + multiset{e.accountID}
  {
    assert AccountIds(s + [e]) == AccountIds(s) + [e.accountID];
  }

  /** Taking one execution out of a sequence takes its account out of the ids. */
  lemma AccountIdsRemove(s: seq<Execution>, j: nat)
    requires j < |s|
    ensures multiset(AccountIds(s)) == multiset(AccountIds(s[..j] + s[j + 1..])) + multiset{s[j].accountID}
  {
    var ids := AccountIds(s);
    assert AccountIds(s[..j] + s[j + 1..]) == ids[..j] + ids[j + 1..];
    assert ids == ids[..j] + [ids[j]] + ids[j + 1..];
  }

  /** `Run`: configure, then launch one execution per account and collect the
      results in whatever order they finish. A configuration error is returned
      unchanged before anything is launched; after that `Run` succeeds whatever
      the accounts' own errors, and the results are exactly the launched
      executions, each once. */
  method Run(flags: Config.Flags, args: seq<string>, env: Config.Env, file: Result<Config.AwsConfig, Error>,
             world: nat -> StepResults)
    returns (err: Option<Error>, results: seq<Execution>)
    requires forall i: nat :: WellFormed(world(i))
    ensures Config.ConfigureApp(flags, args, env, file).Failure? ==>
      err == Some(Config.ConfigureApp(flags, args, env, file).error) && results == []
    ensures Config.ConfigureApp(flags, args, env, file).Success? ==>
      var cfg := Config.ConfigureApp(flags, args, env, file).value;
      && err.None?
      && |results| == |cfg.accounts|
      && multiset(results) == multiset(Launch(cfg.accounts, cfg.crossAccountRoleName, args, world))
      && multiset(AccountIds(results)) == multiset(cfg.accounts)
      && (forall r :: r in results ==> r.command == args && r.roleName == cfg.crossAccountRoleName)
  {
    var configured := Config.ConfigureApp(flags, args, env, file);
    if configured.Failure? {
      return Some(configured.error), [];
    }
    var cfg := configured.value;
    var launched := Launch(cfg.accounts, cfg.crossAccountRoleName, args, world);
    results := Collect(launched);
    forall r | r in results
      ensures r.command == args && r.roleName == cfg.crossAccountRoleName
    {
      assert r in multiset(launched);
    }
    err := None;
  }
}
