/** raspiBackupRESTListener.go (the earlier listener at the top of the
    repository): startup parses the credential file without a permission
    check and without reporting skipped lines; its BackupHandler also
    renders a mode option and runs the quoted line through `sudo` in bash. */
module Listener {
  import opened Optional
  import opened GoStrings
  import opened Credentials
  import opened Command
  import opened Gin

  /** The JSON payload: `target` is required, `type`, `keep` and `mode`
      optional. */
  datatype Parameter = Parameter(target: string, typ: Option<string>, keep: Option<int>, mode: Option<string>)

  method BackupHandler(bind: Bind<Parameter>, exec: ExecResult) returns (command: Option<Invocation>, response: Response)
    ensures bind.BindError? ==>
      command == None && response == Json(StatusBadRequest, map["error" := bind.message])
    ensures bind.Bound? ==>
      var p := bind.payload;
      && command == Some(Invocation(Shell, ["-c", SudoCommand(Executable, Args(p.typ, p.keep, p.mode, p.target))]))
      && response == ExecResponse(exec)
  {
    match bind
    case BindError(msg) =>
      command := None;
      response := Json(StatusBadRequest, map["error" := msg]);
    case Bound(parm) =>
      var args := RenderArgs(parm.typ, parm.keep, parm.mode, parm.target);
      var cmd := "sudo " + Executable;
      args := "\"" + args + "\"";
      var combined := cmd + " " + args;
      assert combined == SudoCommand(Executable, Args(parm.typ, parm.keep, parm.mode, parm.target));
      command := Some(Invocation(Shell, ["-c", combined]));
      if exec.err.Some? {
        response := Json(StatusBadRequest, map["error" := exec.err.value, "output" := exec.output]);
      } else {
        response := NoBody;
      }
  }

  /** The loop over the lines of the file: fills the map and raises the
      flag; lines that are not credentials are passed over silently. */
  method LoadCredentials(text: string) returns (credentialMap: map<string, string>, passwordSet: bool)
    ensures credentialMap == CredentialMap(Kinds(Lines(text)))
    ensures passwordSet <==> AnyCredential(Kinds(Lines(text)))
  {
    passwordSet := false;
    credentialMap := map[];
    var lines := Split(text, '\n');
    var i := 0;
    ghost var seen: seq<LineKind> := [];
    while i < |lines|
      invariant 0 <= i <= |lines|
      invariant seen == Kinds(lines[..i])
      invariant credentialMap == CredentialMap(seen)
      invariant passwordSet <==> AnyCredential(seen)
    {
      var line := lines[i];
      KindsSnoc(lines, i);
      CredentialMapSnoc(seen, Classify(line));
      AnyCredentialSnoc(seen, Classify(line));
      var splitCredentials := Split(line, ':');
      if |splitCredentials| == 2 {
        var uid, pwd := TrimSpace(splitCredentials[0]), TrimSpace(splitCredentials[1]);
        credentialMap := credentialMap[uid := pwd];
        passwordSet := true;
      }
      seen := seen + [Classify(line)];
      i := i + 1;
    }
    assert lines[..i] == lines;
  }

  /** `main` up to the choice of the `v1` group: an absent file leaves the
      API open, an unreadable one exits 42, and a readable one is parsed
      whatever its mode; the group is wrapped in basic auth exactly when a
      credential was found. Nothing is ever reported as skipped. */
  method Start(file: CredentialFile) returns (boot: Boot)
    ensures file.Absent? ==> boot == Serve(map[], false, Unprotected, [])
    ensures file.Present? && file.contents.None? ==> boot == Exit(RefusedExit)
    ensures file.Present? && file.contents.Some? ==>
      var ks := Kinds(Lines(file.contents.value));
      && boot.Serve?
      && boot.credentials == CredentialMap(ks)
      && (boot.passwordSet <==> AnyCredential(ks))
      && boot.warnings == []
    ensures boot.Serve? ==> boot.v1 == if boot.passwordSet then BasicAuth(boot.credentials) else Unprotected
  {
    var passwordSet := false;
    var credentialMap: map<string, string> := map[];
    if file.Present? {
      if file.contents.None? {
        return Exit(RefusedExit);
      }
      credentialMap, passwordSet := LoadCredentials(file.contents.value);
    }
    var v1 := if passwordSet then BasicAuth(credentialMap) else Unprotected;
    boot := Serve(credentialMap, passwordSet, v1, []);
  }
}
