/** RESTAPIServer.go: the first prototype. Its BackupHandler renders type,
    keep and mode and starts the executable directly with the whole argument
    string as its single argument: no shell, no quotes, no `sudo`. */
module ApiServer {
  import opened Optional
  import opened Command
  import opened Gin

  /** The JSON payload: `target` is required, `type`, `keep` and `mode`
      optional. */
  datatype Parameter = Parameter(target: string, typ: Option<string>, keep: Option<int>, mode: Option<string>)

  method BackupHandler(bind: Bind<Parameter>, exec: ExecResult) returns (command: Option<Invocation>, response: Response)
    ensures bind.BindError? ==>
      command == None && response == Json(StatusBadRequest, map["error" := bind.message])
    ensures bind.Bound? ==>
      var p := bind.payload;
      && command == Some(Invocation(Executable, [Args(p.typ, p.keep, p.mode, p.target)]))
      && response == ExecResponse(exec)
  {
    match bind
    case BindError(msg) =>
      command := None;
      response := Json(StatusBadRequest, map["error" := msg]);
    case Bound(parm) =>
      var args := RenderArgs(parm.typ, parm.keep, parm.mode, parm.target);
      command := Some(Invocation(Executable, [args]));
      if exec.err.Some? {
        response := Json(StatusBadRequest, map["error" := exec.err.value, "output" := exec.output]);
      } else {
        response := NoBody;
      }
  }
}
