# aws-bulk-cli: verified model of configuration and per-account dispatch

`aws-bulk-cli` runs one `aws` command in many AWS accounts. For each account it assumes a cross-account role and starts `aws` with the temporary credentials. It then prints each account's output. This project models the sequential logic around that fan-out:

- **Configuration** (`config/config.go`). The three layers are merged in order: the decoded configuration file, then `AWS_PROFILE` / `AWS_REGION`, then the command-line flags. The `--accounts` flag is trimmed of commas and split on commas. The merged settings are then checked for a command, at least one account and a role name.
- **Per-account execution** (`cli/cli.go`):
  - the role ARN;
  - the colour label taken from an 8-entry palette;
  - the `KEY=VALUE` list that becomes the child's entire environment;
  - the outcome logic of `executeCommand`, as a function of the three external step results (assume role, start, wait);
  - the rendering of a finished execution (`CommandExecution.String`);
  - the fan-in in `Run`, which collects exactly one result per account.

Files:

- `wrappers.dfy`: `Option`, `Result`, `Error`.
- `strings.dfy`: Go's `strings.Count`, `IndexByte`, `Split`, `Join`, `TrimLeft`, `TrimRight`, `Trim`, for a one-character separator or cutset.
- `config.dfy`: the configuration layers, validation and `ConfigureApp`.
- `lines.dfy`: `bufio.Scanner` line splitting and re-joining.
- `envlist.dfy`: `toEnvVarsList` and the environment a child reads back from it.
- `cli.dfy`: colours, role ARN, `CommandExecution`, `executeCommand`, `String`, the launch and `Run`.

Process-global inputs are explicit parameters:

- `flag.Args()` is `args`.
- The environment `os.Getenv` reads is `env`.
- The decoded configuration file is `file`, consulted only when `--config` is set.
- The outside world of the account launched at position `i` is `world(i)`, a `StepResults`. It holds the role-assumption result, the order Go's map iteration visits the credential keys, the start and wait errors, and the bytes the child wrote.

The goroutines and the buffered channel of `Run` are modelled by `Cli.Collect`. Each round, any still-pending execution may report next. The proof shows that the results are a permutation of the launched executions.

Three properties of the code are easy to miss:

- **The child's environment is only the credentials.** The code assigns `cmd.Env = toEnvVarsList(creds)` (cli/cli.go:123), so the four credential variables are the child's *whole* environment. `PATH`, `HOME`, and the `AWS_PROFILE` / `AWS_REGION` that `setAWSEnvVars` sets in the parent do not reach the child. `Cli.ExecuteCommand` and `EnvList.ChildEnvironmentIsVars` state this.
- **No failure stage is recorded.** A `CommandExecution` (cli/cli.go:32-40) records its outcome only in `Err`, `StdErr` and `StdOut`; there is no stage field. `Cli.FailedStage` derives the failing step from the step results, and `Cli.ExecuteCommandOutcome` relates it to the recorded fields.
- **`String()` is not byte-exact.** It goes through `bufio.Scanner` (cli/cli.go:47-62). One `\r` ending each line is dropped, including on an unterminated last line, and a missing final newline is supplied. A `\r` inside a line survives. So output comes back exactly when no line ends in `\r` and it is empty or newline-terminated. `Lines.ScanLinesPieces` states the scanned lines for every output, `Lines.ScanLinesRoundTrip` proves the exact round trip for `\r`-free output, and `Lines.CarriageReturnAlone`, `Lines.CarriageReturnEndingLine` and `Lines.CarriageReturnInsideLine` show the three `\r` cases on concrete output.

Two behaviours of the code are worth knowing:

- An `--accounts` flag made only of commas yields one empty account id. That passes validation (`Config.AllCommasYieldOneEmptyAccount`, `Config.AccountsFlagNeverMissing`). Empty ids inside the list (`1,,2`) survive parsing, while an empty id at either end is trimmed away (`Config.ParseAccountsFlagOfJoin`).
- The role ARN is proved unambiguous for account ids without `:` (`Cli.RoleArnRoundTrip`, `Cli.RoleArnInjective`). An account id containing `:role/` can collide with another account and role (`Cli.RoleArnAmbiguousWithColon`).

## Model

| member | source | states |
|---|---|---|
| `Strings.Split` | config/config.go:76 | Splitting yields one piece more than there are separators, and no piece contains the separator. |
| `Strings.JoinSplit` | config/config.go:75-77 | Joining the pieces of a split with the separator gives back the string that was split. |
| `Strings.SplitJoin` | config/config.go:76 | Splitting a join of separator-free pieces gives back those pieces. |
| `Strings.Trim` | config/config.go:75 | The trimmed string is no longer than the input and neither starts nor ends with the cutset character. |
| `Strings.TrimIsSlice` | config/config.go:75 | The trimmed string is a contiguous slice of the input, and only the cutset character lies outside that slice. |
| `Config.ParseAccountsFlag` | config/config.go:73-78 | A set accounts flag always yields at least one account, whatever its text. |
| `Config.ParseAccountsFlagShape` | config/config.go:73-78 | The accounts list has one element more than the trimmed flag has commas. Joining it with commas gives the trimmed flag, and no id contains a comma. |
| `Config.ParseAccountsFlagOfJoin` | config/config.go:73-78 | A comma-joined list of comma-free ids parses back to exactly that list iff it has one id or its first and last ids are non-empty. Empty ids inside the list survive. |
| `Config.AllCommasYieldOneEmptyAccount` | config/config.go:73-78 | A flag yields the one-element list holding the empty id iff it consists of commas only, as `,,,` does. |
| `Config.AccountsFlagNeverMissing` | config/config.go:73-78 | Whenever the accounts flag is non-empty, validation never reports `accounts` missing. |
| `Config.FillConfigFromCLIFlags` | config/config.go:60-79 | A non-empty flag overwrites its field and an empty flag leaves it unchanged. A set accounts flag replaces the list with its parse. The flags come back with only `accounts` changed, to its trimmed form. |
| `Config.CLIFlagsIdempotent` | config/config.go:60-79 | Applying the flag layer a second time changes nothing, with either the original or the trimmed flags. |
| `Config.Getenv` | config/config.go:82-87 | A set variable reads as its value and an unset one as the empty string, so a non-empty reading always comes from a set variable. |
| `Config.FillConfigFromEnvVars` | config/config.go:81-91 | A non-empty `AWS_PROFILE` / `AWS_REGION` overrides the profile / region, and an unset or empty one does not. The role name and accounts are never touched. |
| `Config.MissingArgs` | config/config.go:33-45 | Each required setting is listed exactly when it is absent: `command` when there are no args, `accounts` when the list is empty, `cross-account-role-name` when the role name is empty. Names appear in that fixed order, and only these names appear. |
| `Config.MissingArgError` | config/config.go:28-31 | The message is the fixed prefix, then `[`, then the names joined with single spaces, then `]`. |
| `Config.MissingArgErrorRoundTrip` | config/config.go:28-31 | The names can be read back from the message when none of them contains a space. |
| `Config.MissingArgErrorNames` | config/config.go:33-49 | The validation error names exactly the missing settings, in order. |
| `Config.ValidateArgsAndFlags` | config/config.go:33-52 | Validation succeeds iff there is a command, at least one account and a role name. Otherwise the error lists the missing names. |
| `Config.ValidationIgnoresProfileAndRegion` | config/config.go:33-52 | Profile and region never affect validation. |
| `Config.Merge` | config/config.go:121-129 | The flag layer is applied last: a set `--profile`, `--region` or `--cross-account-role-name` flag is the effective value, and a set `--accounts` flag's parse is the effective account list, whatever the file and environment say. |
| `Config.MergePrecedence` | config/config.go:117-129 | Profile and region come from the flag if set, else the environment if set, else the file. Role name and accounts come from the flag if set, else the file. |
| `Config.ConfigureApp` | config/config.go:108-138 | A file error is returned as is. Otherwise the result succeeds iff the merged settings validate. On success it is the merged settings, and on failure it is the missing-argument error. |
| `Config.ConfigFileIgnoredWithoutPath` | config/config.go:121-126 | Without `--config` the file plays no part in the outcome. |
| `Config.ConfigureAppSuccess` | config/config.go:128-137 | A successful configuration has a command, at least one account and a role name. A set `--region` / `--profile` flag is the effective value. |
| `Cli.ColorIndex` | cli/cli.go:159 | The palette index is within the 8-entry palette and congruent to the account's position modulo 8. |
| `Cli.OutputColor` | cli/cli.go:159 | Every account gets a palette colour, and the first eight accounts get the palette in order. |
| `Cli.SameColorIffSameResidue` | cli/cli.go:18-27 | Two positions share a colour iff they are congruent modulo 8. |
| `Cli.WindowColorsDistinct` | cli/cli.go:153-162 | Any eight consecutive accounts get eight different colours. |
| `Cli.RoleArn` | cli/cli.go:116 | The ARN is the prefix `arn:aws:iam::`, then the account id, then `:role/`, then the role name, each segment at its fixed position. |
| `Cli.RoleArnRoundTrip` | cli/cli.go:116 | For account ids without `:`, account and role can be read back from the ARN. |
| `Cli.RoleArnInjective` | cli/cli.go:116 | Different (account, role) pairs whose account ids have no `:` get different ARNs. |
| `Cli.RoleArnAmbiguousWithColon` | cli/cli.go:116 | An account id containing `:role/` can produce the same ARN as a different account and role. |
| `Cli.NewExecution` | cli/cli.go:156-161 | A launched request carries the given command args, account id and role name, and the palette colour of its position. It starts with empty buffers and no error. |
| `Lines.DropCR` | cli/cli.go:49-50 | A line is changed iff it ends in `\r`, and then exactly that one trailing `\r` is removed. |
| `Lines.ScanLines` | cli/cli.go:58-62 | Scanning yields no line for empty input and none of the lines contains a newline. |
| `Lines.ScanLinesPieces` | cli/cli.go:58-62 | For every output, the scanned lines are its newline-separated pieces, without the empty piece after a final newline, each with one trailing `\r` dropped. |
| `Lines.ScanLinesRoundTrip` | cli/cli.go:58-63 | For output without `\r`, re-joining the scanned lines with newlines gives the output back, blank lines included, with a final newline supplied if missing. |
| `Lines.ScanLinesCount` | cli/cli.go:58-62 | There is one line per newline, plus one for a non-empty unterminated tail. |
| `Lines.Unlines` | cli/cli.go:59-62 | Writing each line with `"%v\n"` gives the empty string iff there are no lines, and otherwise ends in a newline. |
| `Lines.UnlinesCount` | cli/cli.go:49-52 | Writing newline-free lines with `"%v\n"` produces exactly one newline per line. |
| `Lines.CarriageReturnAlone` | cli/cli.go:58-62 | The output `\r` renders as a single newline: the `\r` ending an unterminated last line is dropped. |
| `Lines.CarriageReturnEndingLine` | cli/cli.go:58-62 | The output `a\r\n` renders as `a\n`. |
| `Lines.CarriageReturnInsideLine` | cli/cli.go:58-62 | The output `a\rb\n` renders unchanged. |
| `Cli.Render` | cli/cli.go:42-64 | On success the rendering is the newline-separated pieces of stdout, each with one trailing `\r` dropped and followed by a newline. On failure it is the same rendering of stderr, followed by the error message and a newline. On success it is empty iff stdout is. For `\r`-free buffers it is the buffer, newline-terminated. |
| `Cli.RenderFailureHidesStdout` | cli/cli.go:46-56 | A failed execution's rendering never depends on stdout and always ends with the error message and a newline. |
| `EnvList.ToEnvVarsList` | cli/cli.go:68-74 | One `key=value` entry per visited key, in visiting order. |
| `EnvList.ToEnvVarsListLength` | cli/cli.go:68-74 | When every key is visited once, the list is exactly as long as the map. |
| `EnvList.ToEnvVarsListEntries` | cli/cli.go:68-74 | The set of entries is exactly the set of `k=v` renderings of the map's entries, whatever the visiting order. |
| `EnvList.EnvEntryRoundTrip` | cli/cli.go:71 | An entry splits at its first `=` back into its key and value when the key holds no `=`. |
| `EnvList.ParseToEnvVarsList` | cli/cli.go:68-74 | The environment read back from the list for any visiting prefix holds exactly the visited variables, with their values. |
| `EnvList.ToEnvVarsListIsEnvironment` | cli/cli.go:123 | The environment handed to the child has one entry per credential. When no key holds `=`, it reads back as exactly the credential map. |
| `EnvList.ChildEnvironmentIsVars` | cli/cli.go:123 | A child started with the list as its environment sees exactly the credential map and no other variable. |
| `EnvList.CredentialEnvironment` | aws_util/iam.go:36-42 | With the four-key credential shape, the list has four entries. The child sees exactly those variables, and its two token variables are equal. |
| `Cli.ExecuteCommand` | cli/cli.go:94-143 | The request fields are copied into the result, and the first step is assuming the account's role ARN. An assume-role failure sets `Err`, keeps both buffers and attempts nothing else. Otherwise `aws` is started with the command and an environment that is exactly the credentials. A start or wait failure sets `Err` and the captured stderr, and leaves stdout alone. A clean exit keeps the captured stdout and touches nothing else. |
| `Cli.ExecuteCommandOutcome` | cli/cli.go:117-140 | For a fresh request, `Err` is unset iff no step fails. The steps stop at the failing stage. Stdout is kept only on success, stderr only after a process failure. |
| `Cli.Launch` | cli/cli.go:152-163 | There is one execution per account, in account order, all carrying the same command and role name, each with its position's colour. Each succeeds iff its own outside world has no failing step. |
| `Cli.LaunchIsolation` | cli/cli.go:153-163 | An account's result depends only on its own outside world. A failure elsewhere never changes it. |
| `Cli.Collect` | cli/cli.go:165-169 | Whatever order executions arrive in, the results hold every launched execution exactly once, and their account ids are a permutation of the launched ones. |
| `Cli.Run` | cli/cli.go:145-177 | A configuration error is returned unchanged, with no results. Otherwise there is no error, whatever the accounts' errors. There are exactly as many results as accounts. They are a permutation of the launched executions, their ids a permutation of the accounts, and all carry the command args and role name. |

## Left out

- Goroutines and the buffered channel (cli/cli.go:152-169) are not modelled as concurrency. `Cli.Collect` models the fan-in as an arbitrary arrival order.
- Process spawning through `os/exec`, standard-input forwarding and buffer wiring (cli/cli.go:101-107, 125-132) are external. The start and wait errors and the captured bytes are inputs.
- `AssumeIAmRole` (aws_util/iam.go) calls the AWS SDK and STS. Its result is an input per account. Its session name depends on the clock. Its four-key credential shape is only a hypothesis of `EnvList.CredentialEnvironment`.
- `errors/errors.go`: stack-trace wrapping through a third-party library. Errors are modelled by their message only.
- Opening and JSON-decoding the configuration file (config/config.go:93-106) are replaced by the decoded result, passed in as `file`.
- `flag.Parse`, `flag.Usage` (which `missingArgError` calls for printing), and the global `flag.Args()` are left out. The arguments are the `args` parameter.
- `os.Getenv` becomes the `env` map. `setAWSEnvVars` (config/config.go:54-58) is left out. It writes `AWS_SDK_LOAD_CONFIG`, `AWS_PROFILE` and `AWS_REGION` into the parent's environment, which the child does not inherit. That is also the only place where the merged profile and region take effect: the SDK session of `AssumeIAmRole` reads them there. That effect is part of the assume-role result in `world(i)`, so the model does not connect the merged profile and region to it.
- `printCommandStatus`, the `Printf` progress lines and the per-result header that `Run` prints (cli/cli.go:171-174) are terminal output, so they are left out. `Cli.Render` models the rendered body.
- `main.go` exit handling through `os.Exit` is left out: 0 when `Run` returns no error, 1 otherwise.
- `bufio.Scanner`'s 64 KiB token limit is not modelled. A longer line stops the scan and truncates the rendering, and the model assumes no such line.
- Bytes are modelled as characters, one per byte. No encoding is involved, because the scanner only looks at `\n` and `\r`.
- Go's nil and empty account slices are both the empty sequence. The code only tests their length.
- `Cli.Run`: the order of the results is deliberately unspecified, because it is the order the goroutines finish in. Only permutation of the launched executions is stated.
- `Cli.ExecuteCommand`: the child's environment is stated to equal the credential map only when no credential key contains `=`. The four keys `AssumeIAmRole` produces satisfy this.
- `EnvList.ToEnvVarsList`: Go's map iteration order is a parameter, any enumeration of the keys, rather than a random choice.
