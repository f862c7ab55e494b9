/** Configuration acquisition (config/config.go): three layers applied by
    overwrite, file first, then the environment, then the command-line flags,
    followed by a check of the required settings. The process-global inputs
    (`flag.Args()`, `os.Getenv`) and the decoded configuration file are
    parameters. */
module Config {
  import opened Wrappers
  import Strings

  /** The `AWS` section of the configuration, the only field of Go's `Config`.
      Go's nil and empty account slices are both the empty sequence: the tool
      only ever asks for their length. */
  datatype AwsConfig = AwsConfig(
    profile: string,
    region: string,
    crossAccountRoleName: string,
    accounts: seq<string>)

  /** The zero `Config` that decoding and merging start from. */
  const EmptyConfig := AwsConfig("", "", "", [])

  /** The command-line flags; an unset flag holds its default, the empty string. */
  datatype Flags = Flags(
    profile: string,
    crossAccountRoleName: string,
    region: string,
    accounts: string,
    configPath: string)

  /** The process environment, as `os.Getenv` sees it. */
  type Env = map<string, string>

  const ProfileVar := "AWS_PROFILE"
  const RegionVar := "AWS_REGION"

  /** `os.Getenv`: an unset variable reads as the empty string, so a
      non-empty reading always comes from a set variable. */
  function Getenv(env: Env, key: string): (value: string)
    ensures key in env ==> value == env[key]
    ensures key !in env ==> value == ""
    ensures value != "" ==> key in env && env[key] == value
  {
    if key in env then env[key] else ""
  }

  /** The account list the `--accounts` flag yields: commas trimmed from both
      ends, then split on commas. */
  function ParseAccountsFlag(s: string): (accounts: seq<string>)
    ensures |accounts| >= 1
  {
    Strings.Split(Strings.Trim(s, ','), ',')
  }

  /** The accounts list has one element more than the trimmed flag has commas,
      joins back to the trimmed flag, and no id contains a comma. */
  lemma ParseAccountsFlagShape(s: string)
    ensures var accounts := ParseAccountsFlag(s);
      && |accounts| == Strings.Count(Strings.Trim(s, ','), ',') + 1
      && Strings.Join(accounts, ',') == Strings.Trim(s, ',')
      && forall i :: 0 <= i < |accounts| ==> ',' !in accounts[i]
  {
    Strings.JoinSplit(Strings.Trim(s, ','), ',');
  }

  /** A comma-joined list of comma-free ids parses back to itself exactly when
      it is a single id or its first and last ids are non-empty: trimming eats
      an empty id at either end, while empty ids inside the list survive. */
  lemma ParseAccountsFlagOfJoin(ids: seq<string>)
    requires |ids| >= 1
    requires forall i :: 0 <= i < |ids| ==> ',' !in ids[i]
    ensures ParseAccountsFlag(Strings.Join(ids, ',')) == ids
        <==> |ids| == 1 || (ids[0] != "" && ids[|ids| - 1] != "")
  {
    var s := Strings.Join(ids, ',');
    if |ids| == 1 || (ids[0] != "" && ids[|ids| - 1] != "") {
      JoinIsTrimmed(ids);
      Strings.SplitJoin(ids, ',');
    } else {
      JoinNotTrimmed(ids);
      ParseAccountsFlagShape(s);
    }
  }

  /** A join of two or more comma-free ids with an empty id at either end is
      changed by trimming. */
  lemma JoinNotTrimmed(ids: seq<string>)
    requires |ids| >= 2
    requires forall i :: 0 <= i < |ids| ==> ',' !in ids[i]
    requires ids[0] == "" || ids[|ids| - 1] == ""
    ensures Strings.Trim(Strings.Join(ids, ','), ',') != Strings.Join(ids, ',')
  {
    JoinFirst(ids);
    JoinLast(ids);
  }

  /** A join of comma-free ids whose end ids are non-empty (or that has one id)
      is its own trim. */
  lemma JoinIsTrimmed(ids: seq<string>)
    requires |ids| >= 1
    requires forall i :: 0 <= i < |ids| ==> ',' !in ids[i]
    requires |ids| == 1 || (ids[0] != "" && ids[|ids| - 1] != "")
    ensures Strings.Trim(Strings.Join(ids, ','), ',') == Strings.Join(ids, ',')
  {
    var s := Strings.Join(ids, ',');
    if |ids| == 1 {
      assert s == ids[0];
      assert ',' !in s;
    } else {
      JoinFirst(ids);
      JoinLast(ids);
    }
    Strings.TrimOfTrimmed(s, ',');
  }

  /** A join of two or more comma-free ids starts with a comma exactly when its first id is empty. */
  lemma JoinFirst(ids: seq<string>)
    requires |ids| >= 2
    requires forall i :: 0 <= i < |ids| ==> ',' !in ids[i]
    ensures var s := Strings.Join(ids, ','); |s| > 0 && (s[0] == ',' <==> ids[0] == "")
  {
    var s := Strings.Join(ids, ',');
    assert s == ids[0] + [','] + Strings.Join(ids[1..], ',');
    if ids[0] != "" {
      assert s[0] == ids[0][0];
      assert ',' !in ids[0];
    }
  }

  /** A join of two or more comma-free ids ends with a comma exactly when its last id is empty. */
  lemma {:induction false} JoinLast(ids: seq<string>)
    requires |ids| >= 2
    requires forall i :: 0 <= i < |ids| ==> ',' !in ids[i]
    ensures var s := Strings.Join(ids, ','); |s| > 0 && (s[|s| - 1] == ',' <==> ids[|ids| - 1] == "")
    decreases |ids|
  {
    var tail := Strings.Join(ids[1..], ',');
    var s := Strings.Join(ids, ',');
    assert s == ids[0] + [','] + tail;
    if |ids| == 2 {
      assert tail == ids[1];
      if ids[1] != "" {
        assert s[|s| - 1] == ids[1][|ids[1]| - 1];
        assert ',' !in ids[1];
      }
    } else {
      JoinLast(ids[1..]);
      assert s[|s| - 1] == tail[|tail| - 1];
    }
  }

  /** `fillConfigFromCLIFlags`: every non-empty flag overwrites its field, an
      empty one leaves it alone. The flags come back with `accounts` trimmed of
      commas, as the Go code rewrites them through its pointer. */
  function FillConfigFromCLIFlags(cfg: AwsConfig, flags: Flags): (r: (AwsConfig, Flags))
    ensures flags.profile != "" ==> r.0.profile == flags.profile
    ensures flags.profile == "" ==> r.0.profile == cfg.profile
    ensures flags.region != "" ==> r.0.region == flags.region
    ensures flags.region == "" ==> r.0.region == cfg.region
    ensures flags.crossAccountRoleName != "" ==> r.0.crossAccountRoleName == flags.crossAccountRoleName
    ensures flags.crossAccountRoleName == "" ==> r.0.crossAccountRoleName == cfg.crossAccountRoleName
    ensures flags.accounts != "" ==> r.0.accounts == ParseAccountsFlag(flags.accounts)
    ensures flags.accounts == "" ==> r.0.accounts == cfg.accounts
    ensures r.1 == flags.(accounts := Strings.Trim(flags.accounts, ','))
  {
    var profile := if flags.profile != "" then flags.profile else cfg.profile;
    var region := if flags.region != "" then flags.region else cfg.region;
    var roleName := if flags.crossAccountRoleName != "" then flags.crossAccountRoleName else cfg.crossAccountRoleName;
    if flags.accounts != "" then
      var trimmed := Strings.Trim(flags.accounts, ',');
      (AwsConfig(profile, region, roleName, Strings.Split(trimmed, ',')), flags.(accounts := trimmed))
    else
      assert Strings.Trim(flags.accounts, ',') == flags.accounts;
      (AwsConfig(profile, region, roleName, cfg.accounts), flags)
  }

  /** Applying the flag layer a second time changes nothing, whether with the
      original flags or with the trimmed flags the first application leaves behind. */
  lemma CLIFlagsIdempotent(cfg: AwsConfig, flags: Flags)
    ensures var once := FillConfigFromCLIFlags(cfg, flags);
            && FillConfigFromCLIFlags(once.0, flags).0 == once.0
            && FillConfigFromCLIFlags(once.0, once.1) == once
  {
    var once := FillConfigFromCLIFlags(cfg, flags);
    assert once.1 == flags.(accounts := Strings.Trim(flags.accounts, ','));
    Strings.TrimIdempotent(flags.accounts, ',');
    if flags.accounts != "" {
      ParseAccountsFlagOfTrimmed(flags.accounts);
      assert once.0.accounts == ParseAccountsFlag(flags.accounts);
    }
  }

  /** Re-parsing an already trimmed accounts flag gives the same list. */
  lemma ParseAccountsFlagOfTrimmed(s: string)
    ensures ParseAccountsFlag(Strings.Trim(s, ',')) == ParseAccountsFlag(s)
  {
    Strings.TrimIdempotent(s, ',');
  }

  /** `fillConfigFromEnvVars`: a non-empty `AWS_PROFILE` / `AWS_REGION`
      overrides the profile / region; nothing else is touched. */
  function FillConfigFromEnvVars(cfg: AwsConfig, env: Env): (r: AwsConfig)
    ensures Getenv(env, ProfileVar) != "" ==> r.profile == env[ProfileVar]
    ensures Getenv(env, ProfileVar) == "" ==> r.profile == cfg.profile
    ensures Getenv(env, RegionVar) != "" ==> r.region == env[RegionVar]
    ensures Getenv(env, RegionVar) == "" ==> r.region == cfg.region
    ensures r.crossAccountRoleName == cfg.crossAccountRoleName
    ensures r.accounts == cfg.accounts
  {
    var envProfile := Getenv(env, ProfileVar);
    var cfg1 := if envProfile != "" then cfg.(profile := envProfile) else cfg;
    var envRegion := Getenv(env, RegionVar);
    if envRegion != "" then cfg1.(region := envRegion) else cfg1
  }

  /** The names of the required settings, in the order they are reported. */
  const RequiredArgs: seq<string> := ["command", "accounts", "cross-account-role-name"]

  /** Position of a required setting's name in `RequiredArgs` (3 for any other name). */
  function RequiredRank(name: string): nat
  {
    if name == "command" then 0
    else if name == "accounts" then 1
    else if name == "cross-account-role-name" then 2
    else 3
  }

  /** The list `validateArgsAndFlags` builds: each required setting that is
      absent, reported once, in the order of `RequiredArgs`. Profile and region
      are never required. */
  function MissingArgs(cfg: AwsConfig, args: seq<string>): (missing: seq<string>)
    ensures "command" in missing <==> |args| == 0
    ensures "accounts" in missing <==> |cfg.accounts| == 0
    ensures "cross-account-role-name" in missing <==> cfg.crossAccountRoleName == ""
    ensures forall i :: 0 <= i < |missing| ==> missing[i] in RequiredArgs
    ensures forall i, j :: 0 <= i < j < |missing| ==> RequiredRank(missing[i]) < RequiredRank(missing[j])
  {
    (if |args| == 0 then ["command"] else [])
    + (if |cfg.accounts| == 0 then ["accounts"] else [])
    + (if cfg.crossAccountRoleName == "" then ["cross-account-role-name"] else [])
  }

  const MissingArgPrefix := "[error]: the following arguments are required: "

  /** `missingArgError`: the names as Go's `%v` prints a string slice, `[a b c]`. */
  function MissingArgError(names: seq<string>): (e: Error)
    ensures |e.message| == |MissingArgPrefix| + |Strings.Join(names, ' ')| + 2
    ensures e.message[..|MissingArgPrefix| + 1] == MissingArgPrefix + "["
    ensures e.message[|MissingArgPrefix| + 1..|e.message| - 1] == Strings.Join(names, ' ')
    ensures e.message[|e.message| - 1] == ']'
  {
    Error(MissingArgPrefix + "[" + Strings.Join(names, ' ') + "]")
  }

  /** The names listed in a missing-argument message, read back from its text. */
  function MissingArgNames(message: string): seq<string>
  {
    if |message| < |MissingArgPrefix| + 2 then []
    else Strings.Split(message[|MissingArgPrefix| + 1..|message| - 1], ' ')
  }

  /** A missing-argument message reads back as the names it was built from,
      provided none of them contains a space. */
  lemma MissingArgErrorRoundTrip(names: seq<string>)
    requires |names| > 0
    requires forall i :: 0 <= i < |names| ==> ' ' !in names[i]
    ensures MissingArgNames(MissingArgError(names).message) == names
  {
    var joined := Strings.Join(names, ' ');
    var m := MissingArgError(names).message;
    assert m == MissingArgPrefix + "[" + joined + "]";
    assert m[|MissingArgPrefix| + 1..|m| - 1] == joined;
    Strings.SplitJoin(names, ' ');
  }

  /** The message `validateArgsAndFlags` returns names exactly the missing settings, in order. */
  lemma MissingArgErrorNames(cfg: AwsConfig, args: seq<string>)
    requires |MissingArgs(cfg, args)| > 0
    ensures MissingArgNames(MissingArgError(MissingArgs(cfg, args)).message) == MissingArgs(cfg, args)
  {
    var names := MissingArgs(cfg, args);
    assert forall n :: n in RequiredArgs ==> ' ' !in n;
    MissingArgErrorRoundTrip(names);
  }

  /** `validateArgsAndFlags`: no error exactly when a command, at least one
      account and a role name are present; otherwise the error lists what is missing. */
  function ValidateArgsAndFlags(cfg: AwsConfig, args: seq<string>): (r: Option<Error>)
    ensures r.None? <==> |args| > 0 && |cfg.accounts| > 0 && cfg.crossAccountRoleName != ""
    ensures r.Some? ==> r.value == MissingArgError(MissingArgs(cfg, args))
  {
    var missing := MissingArgs(cfg, args);
    if |missing| != 0 then Some(MissingArgError(missing)) else None
  }

  /** Validation looks at neither the profile nor the region. */
  lemma ValidationIgnoresProfileAndRegion(cfg: AwsConfig, args: seq<string>, profile: string, region: string)
    ensures ValidateArgsAndFlags(cfg.(profile := profile, region := region), args)
         == ValidateArgsAndFlags(cfg, args)
  {
  }

  /** The three layers merged in precedence order over a base (file)
      configuration: the flags are applied last, so a set flag always has the
      last word. */
  function Merge(base: AwsConfig, env: Env, flags: Flags): (cfg: AwsConfig)
    ensures flags.profile != "" ==> cfg.profile == flags.profile
    ensures flags.region != "" ==> cfg.region == flags.region
    ensures flags.crossAccountRoleName != "" ==> cfg.crossAccountRoleName == flags.crossAccountRoleName
    ensures flags.accounts != "" ==> cfg.accounts == ParseAccountsFlag(flags.accounts)
  {
    FillConfigFromCLIFlags(FillConfigFromEnvVars(base, env), flags).0
  }

  /** The effective value of each setting: profile and region come from the flag
      if set, else the environment if set, else the file; role name and
      accounts come from the flag if set, else the file. */
  lemma MergePrecedence(base: AwsConfig, env: Env, flags: Flags)
    ensures Merge(base, env, flags).profile ==
      if flags.profile != "" then flags.profile
      else if Getenv(env, ProfileVar) != "" then Getenv(env, ProfileVar)
      else base.profile
    ensures Merge(base, env, flags).region ==
      if flags.region != "" then flags.region
      else if Getenv(env, RegionVar) != "" then Getenv(env, RegionVar)
      else base.region
    ensures Merge(base, env, flags).crossAccountRoleName ==
      if flags.crossAccountRoleName != "" then flags.crossAccountRoleName else base.crossAccountRoleName
    ensures Merge(base, env, flags).accounts ==
      if flags.accounts != "" then ParseAccountsFlag(flags.accounts) else base.accounts
  {
    var withEnv := FillConfigFromEnvVars(base, env);
    assert withEnv.profile == if Getenv(env, ProfileVar) != "" then Getenv(env, ProfileVar) else base.profile;
    assert withEnv.region == if Getenv(env, RegionVar) != "" then Getenv(env, RegionVar) else base.region;
    assert Merge(base, env, flags) == FillConfigFromCLIFlags(withEnv, flags).0;
  }

  /** A set `--accounts` flag always yields at least one account, so validation
      never reports `accounts` missing then, even for a flag of commas only. */
  lemma AccountsFlagNeverMissing(base: AwsConfig, env: Env, flags: Flags, args: seq<string>)
    requires flags.accounts != ""
    ensures "accounts" !in MissingArgs(Merge(base, env, flags), args)
  {
  }

  /** A flag yields the single empty account id exactly when it consists of
      commas only, as `,,,` does; that list passes validation. */
  lemma AllCommasYieldOneEmptyAccount(s: string)
    ensures ParseAccountsFlag(s) == [""] <==> forall i :: 0 <= i < |s| ==> s[i] == ','
    ensures ParseAccountsFlag(",,,") == [""]
  {
    var t := Strings.Trim(s, ',');
    Strings.TrimEmptyIff(s, ',');
    Strings.TrimEmptyIff(",,,", ',');
    Strings.JoinSplit(t, ',');
    assert ParseAccountsFlag(s) == [""] ==> Strings.Join([""], ',') == t;
  }

  /** `ConfigureApp` after flag parsing: the file layer (what reading and
      decoding the file at `--config` yields, consulted only when that flag is
      set), then the environment, then the flags, then validation. */
  function ConfigureApp(flags: Flags, args: seq<string>, env: Env, file: Result<AwsConfig, Error>): (r: Result<AwsConfig, Error>)
    ensures flags.configPath != "" && file.Failure? ==> r == Failure(file.error)
    ensures flags.configPath == "" || file.Success? ==>
      var merged := Merge(if flags.configPath != "" then file.value else EmptyConfig, env, flags);
      && (r.Success? <==> ValidateArgsAndFlags(merged, args).None?)
      && (r.Success? ==> r.value == merged)
      && (r.Failure? ==> r.error == MissingArgError(MissingArgs(merged, args)))
  {
    if flags.configPath != "" && file.Failure? then
      Failure(file.error)
    else
      var base := if flags.configPath != "" then file.value else EmptyConfig;
      var cfg := Merge(base, env, flags);
      match ValidateArgsAndFlags(cfg, args)
      case Some(e) => Failure(e)
      case None => Success(cfg)
  }

  /** Without `--config` the file plays no part. */
  lemma ConfigFileIgnoredWithoutPath(flags: Flags, args: seq<string>, env: Env, f1: Result<AwsConfig, Error>, f2: Result<AwsConfig, Error>)
    requires flags.configPath == ""
    ensures ConfigureApp(flags, args, env, f1) == ConfigureApp(flags, args, env, f2)
  {
  }

  /** A successful configuration has a command, at least one account and a role
      name, and its region is the `--region` flag whenever that is set. */
  lemma ConfigureAppSuccess(flags: Flags, args: seq<string>, env: Env, file: Result<AwsConfig, Error>)
    requires ConfigureApp(flags, args, env, file).Success?
    ensures var cfg := ConfigureApp(flags, args, env, file).value;
            && |args| > 0 && |cfg.accounts| > 0 && cfg.crossAccountRoleName != ""
            && (flags.region != "" ==> cfg.region == flags.region)
            && (flags.profile != "" ==> cfg.profile == flags.profile)
  {
  }
}
