/** RESTAPI/handler/backup.go: the BackupHandler the RESTAPI listener
    registers. It renders type and keep and runs the quoted line through
    `sudo` in bash; the executable comes from the configuration package
    (`lib.Executable`), which is not part of this model and is therefore a
    parameter. */
module Handler {
  import opened Optional
  import opened Command
  import opened Gin

  /** The JSON payload: `target` is required, `type` and `keep` optional. */
  datatype Parameter = Parameter(target: string, typ: Option<string>, keep: Option<int>)

  /** The key of the error reply when the payload does not bind. */
  const InvalidPayloadKey := "Invalid payload received"

  method BackupHandler(executable: string, bind: Bind<Parameter>, exec: ExecResult)
    returns (command: Option<Invocation>, response: Response)
    ensures bind.BindError? ==>
      command == None && response == Json(StatusBadRequest, map[InvalidPayloadKey := bind.message])
    ensures bind.Bound? ==>
      var p := bind.payload;
      && command == Some(Invocation(Shell, ["-c", SudoCommand(executable, Args(p.typ, p.keep, None, p.target))]))
      && response == ExecResponse(exec)
  {
    match bind
    case BindError(msg) =>
      command := None;
      response := Json(StatusBadRequest, map[InvalidPayloadKey := msg]);
    case Bound(parm) =>
      var args := RenderArgs(parm.typ, parm.keep, None, parm.target);
      var cmd := "sudo " + executable;
      args := "\"" + args + "\"";
      var combined := cmd + " " + args;
      assert combined == SudoCommand(executable, Args(parm.typ, parm.keep, None, parm.target));
      command := Some(Invocation(Shell, ["-c", combined]));
      if exec.err.Some? {
        response := Json(StatusBadRequest, map["error" := exec.err.value, "output" := exec.output]);
      } else {
        response := NoBody;
      }
  }
}
