# raspiBackup REST gateway: credential loading and command rendering

This project models the two pieces of deterministic logic inside the
raspiBackup REST prototypes, written in Go on gin:

- **Credential loading** at startup. The listener reads the credential
  file, refuses to start when the file cannot be read, and in the RESTAPI
  listener also when group or others have any permission bit. Each line
  `userid:password` with exactly one `:` becomes an entry, trimmed of
  surrounding white space. A later entry for the same uid replaces an
  earlier one. The `passwordSet` flag alone decides whether the `v1` route
  group is wrapped in basic auth.
- **Argument rendering** in the four `BackupHandler` variants. The options
  are appended in the fixed order type (`-t `), keep (`-k `, decimal) and,
  in two variants, mode (`-P `). Nothing separates them. One space and the
  target follow. Three variants wrap the result in one pair of double quotes
  behind `sudo <executable> ` and hand it to `bash -c`. `RESTAPIServer.go`
  passes it as the only argument of the executable, with no shell, quotes
  or sudo.

The model follows the code as written. The fragments are glued without a
separator, so two different requests can render the same string
(`Command.OptionsAmbiguous`). The target is not escaped, so a `"` in it ends
the quoted shell word early (`Command.QuoteInTargetEscapes`). A trailing
backslash in the target escapes the closing quote
(`Command.TrailingBackslashEscapesQuote`). No request field is escaped, and
absent `type`/`keep` get no default value.

Layout: `gostrings.dfy` holds the Go library functions used
(`strings.Split`, `strings.TrimSpace`, `strconv.Itoa`). `credentials.dfy`
holds the specification of the loader. `command.dfy` holds the rendering
specification. `gin.dfy` holds the framework boundary. Then there is one
module per source file: `RestApiListener`, `Handler`, `Listener` and
`ApiServer`. The handlers and the loading loops are methods that build
their results step by step, as the Go code does. Each method is proved
equal to the specification functions, and the lemmas are stated about
those functions.

## Model

| member | source | states |
|---|---|---|
| RestApiListener.Start | RESTAPI/raspiBackupRESTListener.go:105-159 | absent file: empty map, flag false, unprotected `v1`; read error exits 42 before the mode is examined; open/stat error is fatal (exit 1); a mode with any bit of 077 exits 42 before parsing; otherwise the map, flag and warnings are those of the parsed lines and `v1` is BasicAuth(map) exactly when the flag is set |
| RestApiListener.LoadCredentials | RESTAPI/raspiBackupRESTListener.go:133-147 | the loop leaves the map of `CredentialMap`, a flag true iff some line is a credential, and warnings for exactly the malformed lines in order |
| RestApiListener.BackupHandler | RESTAPI/raspiBackupRESTListener.go:66-98 | bind failure: 400 keyed "Invalid payload received", no command; otherwise `bash -c` with `sudo /usr/local/bin/raspiBackup.sh "` + type/keep fragments + space + target + `"`, and the reply of `ExecResponse` |
| Handler.BackupHandler | RESTAPI/handler/backup.go:20-52 | same as the listener's handler with the configured executable: bind failure gives 400 keyed "Invalid payload received" and no command; else `bash -c` on `SudoCommand(executable, Args(type, keep, none, target))` |
| Listener.Start | raspiBackupRESTListener.go:85-119 | no permission check: an existing readable file is always parsed whatever its mode; only a read error exits 42; nothing is reported as skipped; `v1` is BasicAuth(map) exactly when the flag is set |
| Listener.LoadCredentials | raspiBackupRESTListener.go:97-107 | the loop leaves the map of `CredentialMap` and a flag true iff some line is a credential |
| Listener.BackupHandler | raspiBackupRESTListener.go:43-79 | bind failure: 400 keyed "error", no command; else `bash -c` on `sudo /usr/local/bin/raspiBackup.sh "` + type, keep, mode fragments + space + target + `"` |
| ApiServer.BackupHandler | RESTAPIServer.go:37-73 | bind failure: 400 keyed "error", no command; else the fixed executable is started directly with the rendered arguments as its single argument (no shell, no quoting, no sudo) |
| Gin.ExecResponse | RESTAPI/handler/backup.go:47-51 | a failed run answers 400 with exactly the keys `error` and `output`; a successful one writes no body |
| Command.RenderArgs | RESTAPIServer.go:49-63 | the step-by-step appends of the handlers (type, keep, mode when present, then a space and the target) produce exactly `Args`; the handlers of raspiBackupRESTListener.go:53-67, RESTAPI/raspiBackupRESTListener.go:76-86 and RESTAPI/handler/backup.go:30-40 use it, the last two without a mode |
| Command.ArgsEndWithTarget | RESTAPI/handler/backup.go:40 | the target is last, after exactly one space |
| Command.ArgsLeadType | RESTAPIServer.go:51-53 | with a type, the arguments start with `-t ` + type |
| Command.ArgsLeadKeep | RESTAPIServer.go:55-57 | without a type but with keep, the arguments start with `-k ` + the decimal keep |
| Command.ArgsLeadMode | RESTAPIServer.go:59-63 | with only a mode the arguments are `-P ` + mode + space + target; with no option they are a space and the target |
| Command.ArgsExample | raspiBackupRESTListener.go:53-67 | type "tar", keep 3, mode "x" renders `-t tar-k 3-P x /backup`; no separators between fragments |
| Command.TargetDetermined | RESTAPI/handler/backup.go:40 | for fixed options, equal renderings have equal targets |
| Command.OptionsAmbiguous | RESTAPI/handler/backup.go:32-38 | type "tar-k 3" without keep renders the same as type "tar" with keep 3 |
| Command.SudoCommandLayout | RESTAPI/handler/backup.go:42-44 | the shell line is `sudo ` + executable + ` "` (a prefix fixed by the executable alone), then the arguments unchanged, then one closing quote |
| Command.ArgsQuotes | RESTAPI/handler/backup.go:30-40 | the double quotes in the arguments are exactly those of type, mode and target; keep adds none and nothing is escaped |
| Command.SudoCommandQuotes | RESTAPI/handler/backup.go:42-44 | the shell line holds two quotes plus those of the executable and the arguments |
| Command.QuotedRegionIntact | RESTAPI/handler/backup.go:43 | with no `"` in type, mode or target, the only quotes on the line are the two delimiters |
| Command.QuoteInTargetEscapes | RESTAPI/handler/backup.go:43-45 | a `"` in the target puts more than two quotes on the shell line |
| Command.TrailingBackslashEscapesQuote | RESTAPI/handler/backup.go:40-44 | a target ending in `\` makes the shell line end in `\"`, so the closing quote is escaped even when the line holds only two quotes |
| Credentials.OwnerOnlyExamples | RESTAPI/raspiBackupRESTListener.go:128-131 | mode 0600 and 0700 pass the `mode&077` gate, 0644 and 0640 do not |
| Credentials.Classify | RESTAPI/raspiBackupRESTListener.go:136-146 | a line is a credential iff it holds exactly one `:` (splits into two fields); it is blank (silently skipped) iff it is empty |
| Credentials.CredentialFields | RESTAPI/raspiBackupRESTListener.go:136-139 | a credential's uid and password are the text before and after its `:`, trimmed of white space |
| Credentials.Skipped | RESTAPI/raspiBackupRESTListener.go:142-145 | the reported line indices are increasing and each names a malformed line |
| Credentials.SkippedComplete | RESTAPI/raspiBackupRESTListener.go:142-145 | a line is reported iff it is malformed (non-empty and not a credential) |
| Credentials.CredentialKeys | RESTAPI/raspiBackupRESTListener.go:135-139 | a uid is in the map iff some line is a credential for it |
| Credentials.LastCredentialWins | raspiBackupRESTListener.go:99-103 | the map holds the password from the last line defining the uid |
| Credentials.AnyCredentialIffNonEmpty | RESTAPI/raspiBackupRESTListener.go:139-141 | the flag is set iff the map is not empty |
| Credentials.Example | RESTAPI/raspiBackupRESTListener.go:133-147 | on five classified lines (two credentials for one uid, one for another, a blank and a malformed line) the repeated uid keeps its last password and only the malformed line is reported |
| GoStrings.Split | RESTAPI/raspiBackupRESTListener.go:133 | `strings.Split` gives one more field than there are separators, and no field holds the separator |
| GoStrings.JoinSplit | RESTAPI/raspiBackupRESTListener.go:133 | joining the fields of a split with the separator gives the input back |
| GoStrings.SplitJoin | RESTAPI/raspiBackupRESTListener.go:136 | splitting a join of separator-free fields gives the fields back |
| GoStrings.TrimSpace | RESTAPI/raspiBackupRESTListener.go:138 | the result neither starts nor ends with white space and is no longer than the input |
| GoStrings.TrimSpacePadded | RESTAPI/raspiBackupRESTListener.go:138 | any white space around a text whose ends are not white space is removed exactly |
| GoStrings.TrimSpaceIdempotent | RESTAPI/raspiBackupRESTListener.go:138 | trimming twice equals trimming once |
| GoStrings.Itoa | RESTAPIServer.go:55-57 | `strconv.Itoa` output is non-empty and starts with `-` iff the value is negative |
| GoStrings.ItoaChars | RESTAPIServer.go:55-57 | after the optional sign every character is a decimal digit, and a leading zero occurs only for the value 0 |
| GoStrings.ItoaRoundTrip | RESTAPIServer.go:55-57 | reading the decimal text back gives the number |
| GoStrings.ItoaInjective | RESTAPI/handler/backup.go:36-38 | distinct keep values render differently |

## Left out

- gin routing, `gin.BasicAuth` request checking, `c.BindJSON` decoding and `api.Run`: framework code. The bind outcome is an input (`Gin.Bind`). The auth decision is the `V1Group` value. Which routes each listener registers is not modelled. The RESTAPI listener registers the handler of `RESTAPI/handler/backup.go`, not its own `BackupHandler`, and both are modelled.
- `exec.Command(...).CombinedOutput()` and how bash interprets the line: process I/O. The command is returned as an `Invocation` value and its outcome is an input (`Gin.ExecResult`).
- `os.Stat`, `ioutil.ReadFile`, `os.Open`, `f.Stat`: file-system I/O. Their results are the `CredentialFile` input. `Printf`/log output is left out, except the "line skipped" warnings, which are returned as line indices.
- The configuration package providing `lib.Executable` and `lib.PasswordFile` is not part of this model. The executable is a parameter of `Handler.BackupHandler`, and the password file path does not matter once the file state is an input.
- Handler.BackupHandler, RestApiListener.BackupHandler, Listener.BackupHandler, ApiServer.BackupHandler: a `Bound` payload may carry an empty target. gin's `binding:"required"` would reject that, so those inputs cannot occur in the source.
- GoStrings.TrimSpace: strings are sequences of code points. The treatment of invalid UTF-8 by Go's byte-level functions is not modelled.
- Go's `int` width for `keep` is not modelled: `strconv.Itoa` is exact on every value of that width, and out-of-range numbers fail binding, which is an input.
- RESTAPI/handler/index.go (template rendering) and RESTAPI/handler/noroute.go (a constant 404 reply that is never registered).
- go/raspiBackup.go: it imports go/artefacts and go/commands, which this model does not cover, and it does not compile (`soureSystem`, go/raspiBackup.go:12).
- A dry-run mode, default values for type and keep, and a version endpoint: no file of the modelled code implements them.
- RESTAPI/raspiBackup_test.go: it posts a payload with target, type and keep set to `/v1/raspiBackup?test=1` and expects it echoed back. That `?test=1` echo and the test's `NewEngine` are defined in no modelled file.
- Bash's own handling of `\`, `$`, `` ` `` and `$(…)` inside double quotes is not modelled. Command substitution and variable expansion in a request field still happen inside the quotes. The quote lemmas count `"` characters only, and `Command.TrailingBackslashEscapesQuote` shows that a count of two does not make one intact word.
- RestApiListener.Start, Listener.Start: `gin.BasicAuth` panics during setup when an account has an empty uid, for example from a line `:x`. The model returns `Serve` with `BasicAuth` over that map instead. `Credentials.AnyCredentialIffNonEmpty` already excludes gin's other setup panic, on an empty account map.
