/** The boundary with gin and os/exec. Binding the JSON body and running the
    command happen outside the model: their outcomes are inputs. */
module Gin {
  import opened Optional

  /** The outcome of `c.BindJSON`: the decoded payload, or the text that
      `fmt.Sprintf("%+v", err)` gives for the binding error. */
  datatype Bind<P> = Bound(payload: P) | BindError(message: string)

  /** A process to start, `exec.Command(path, argv...)`. */
  datatype Invocation = Invocation(path: string, argv: seq<string>)

  /** What `cmd.CombinedOutput()` returned: the error text when `err != nil`,
      and the captured standard output and error. */
  datatype ExecResult = ExecResult(err: Option<string>, output: string)

  /** What a handler writes: nothing (gin then answers 200 with an empty
      body), or `c.JSON(status, body)`. */
  datatype Response = NoBody | Json(status: int, body: map<string, string>)

  /** `http.StatusBadRequest`. */
  const StatusBadRequest := 400

  /** The reply after the command ran, the same in every handler: a failed
      run answers 400 with the error and the captured output, a successful
      one writes nothing. */
  function ExecResponse(r: ExecResult): (resp: Response)
    ensures resp.NoBody? <==> r.err.None?
    ensures resp.Json? ==>
      && resp.status == StatusBadRequest && resp.body.Keys == {"error", "output"}
      && resp.body["error"] == r.err.value && resp.body["output"] == r.output
  {
    match r.err
    case None => NoBody
    case Some(msg) => Json(StatusBadRequest, map["error" := msg, "output" := r.output])
  }
}
