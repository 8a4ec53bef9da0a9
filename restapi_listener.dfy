/** RESTAPI/raspiBackupRESTListener.go: startup reads the credential file
    behind a permission gate and reports skipped lines; its BackupHandler
    renders type and keep and runs the quoted line through `sudo` in bash. */
module RestApiListener {
  import opened Optional
  import opened GoStrings
  import opened Credentials
  import opened Command
  import opened Gin

  /** The JSON payload: `target` is required, `type` and `keep` optional. */
  datatype Parameter = Parameter(target: string, typ: Option<string>, keep: Option<int>)

  /** The key of the error reply when the payload does not bind. */
  const InvalidPayloadKey := "Invalid payload received"

  method BackupHandler(bind: Bind<Parameter>, exec: ExecResult) returns (command: Option<Invocation>, response: Response)
    ensures bind.BindError? ==>
      command == None && response == Json(StatusBadRequest, map[InvalidPayloadKey := bind.message])
    ensures bind.Bound? ==>
      var p := bind.payload;
      && command == Some(Invocation(Shell, ["-c", SudoCommand(Executable, Args(p.typ, p.keep, None, p.target))]))
      && response == ExecResponse(exec)
  {
    match bind
    case BindError(msg) =>
      command := None;
      response := Json(StatusBadRequest, map[InvalidPayloadKey := msg]);
    case Bound(parm) =>
      var args := RenderArgs(parm.typ, parm.keep, None, parm.target);
      var cmd := "sudo " + Executable;
      args := "\"" + args + "\"";
      var combined := cmd + " " + args;
      assert combined == SudoCommand(Executable, Args(parm.typ, parm.keep, None, parm.target));
      command := Some(Invocation(Shell, ["-c", combined]));
      if exec.err.Some? {
        response := Json(StatusBadRequest, map["error" := exec.err.value, "output" := exec.output]);
      } else {
        response := NoBody;
      }
  }

  /** The loop over the lines of the file: fills the map, raises the flag
      and reports each non-empty line that is not a credential. */
  method LoadCredentials(text: string) returns (credentialMap: map<string, string>, passwordSet: bool, warnings: seq<nat>)
    ensures credentialMap == CredentialMap(Kinds(Lines(text)))
    ensures passwordSet <==> AnyCredential(Kinds(Lines(text)))
    ensures warnings == Skipped(Kinds(Lines(text)))
  {
    credentialMap, passwordSet, warnings := map[], false, [];
    var lines := Split(text, '\n');
    var i := 0;
    ghost var seen: seq<LineKind> := [];
    while i < |lines|
      invariant 0 <= i <= |lines|
      invariant seen == Kinds(lines[..i])
      invariant credentialMap == CredentialMap(seen)
      invariant passwordSet <==> AnyCredential(seen)
      invariant warnings == Skipped(seen)
    {
      var line := lines[i];
      KindsSnoc(lines, i);
      CredentialMapSnoc(seen, Classify(line));
      AnyCredentialSnoc(seen, Classify(line));
      SkippedSnoc(seen, Classify(line));
      var splitCredentials := Split(line, ':');
      if |splitCredentials| == 2 {
        var uid, pwd := TrimSpace(splitCredentials[0]), TrimSpace(splitCredentials[1]);
        credentialMap := credentialMap[uid := pwd];
        passwordSet := true;
      } else if |line| > 0 {
        warnings := warnings + [i];
      }
      seen := seen + [Classify(line)];
      i := i + 1;
    }
    assert lines[..i] == lines;
  }

  /** `main` up to the choice of the `v1` group: an absent file leaves the
      API open; an unreadable file exits 42 before the mode is looked at;
      a failed open or stat is fatal; a mode with any group or other bit
      exits 42 before parsing; otherwise the file is parsed and the group is
      wrapped in basic auth exactly when a credential was found. */
  method Start(file: CredentialFile) returns (boot: Boot)
    ensures file.Absent? ==> boot == Serve(map[], false, Unprotected, [])
    ensures file.Present? && file.contents.None? ==> boot == Exit(RefusedExit)
    ensures file.Present? && file.contents.Some? && file.mode.None? ==> boot == Exit(FatalExit)
    ensures file.Present? && file.contents.Some? && file.mode.Some? && !OwnerOnly(file.mode.value) ==>
      boot == Exit(RefusedExit)
    ensures file.Present? && file.contents.Some? && file.mode.Some? && OwnerOnly(file.mode.value) ==>
      var ks := Kinds(Lines(file.contents.value));
      && boot.Serve?
      && boot.credentials == CredentialMap(ks)
      && (boot.passwordSet <==> AnyCredential(ks))
      && boot.warnings == Skipped(ks)
    ensures boot.Serve? ==> boot.v1 == if boot.passwordSet then BasicAuth(boot.credentials) else Unprotected
  {
    var passwordSet := false;
    var credentialMap: map<string, string> := map[];
    var warnings: seq<nat> := [];
    if file.Present? {
      if file.contents.None? {
        return Exit(RefusedExit);
      }
      if file.mode.None? {
        return Exit(FatalExit);
      }
      if !OwnerOnly(file.mode.value) {
        return Exit(RefusedExit);
      }
      credentialMap, passwordSet, warnings := LoadCredentials(file.contents.value);
    }
    var v1 := if passwordSet then BasicAuth(credentialMap) else Unprotected;
    boot := Serve(credentialMap, passwordSet, v1, warnings);
  }
}
