/** The application around the server: `Eva`, the example kernel, and the
    decision to start another server after one exits. */
module App {
  import opened Wrappers
  import opened Json
  import opened Lib
  import opened Messages
  import opened ShellSpec
  import opened ShellProperties

  /** `Eva::kernel_info`: the fixed metadata of the testing kernel. */
  const EVA_INFO: KernelInfo := KernelInfo(
    "testing",
    "0.0.0",
    "text/testing",
    ".testing",
    "Juker Test Jupyter Kernel",
    [HelpLink("Juker Documentation", "https://github.com/asaryche/juker")])

  const ERROR_VALUE := "An error occurred during code execution"

  /** The one value `Eva` produces for `code`. */
  function EvaValue(code: string): EvalValue {
    EvalValue(Object(map["text/plain" := Str("Executed code: " + code)]), EmptyObject)
  }

  /** `Eva::eval_code`: code starting with "err" fails with a fixed error;
      any other code succeeds with one value echoing it. */
  function EvaEval(code: string): (r: EvalResult)
    ensures r.Error? <==> "err" <= code
    ensures r.Error? ==> r.ename == Str("Error") && r.evalue == Str(ERROR_VALUE) && |r.traceback| == 2
    ensures r.Success? ==> r.results == [EvaValue(code)]
  {
    if "err" <= code then
      Error(Str("Error"), Str(ERROR_VALUE), [Str("Traceback (most recent call last):"), Str("  ...")])
    else
      Success([EvaValue(code)])
  }

  /** The `Eva` kernel. */
  const EVA: Kernel := Kernel(EVA_INFO, EvaEval)

  /** Served by `Eva`, `kernel_info_request` reports the testing language
      and exactly one help link. */
  lemma EvaKernelInfoReply(env: Env, s: ShellState, msg: Message)
    requires env.kernel == EVA && MsgType(msg) == Str(KERNEL_INFO_REQUEST)
    ensures |Dispatch(env, s, msg).state.shell| == |s.shell| + 1
    ensures Index(Index(Dispatch(env, s, msg).state.shell[|s.shell|].content, "language_info"), "name") == Str("testing")
    ensures Index(Index(Dispatch(env, s, msg).state.shell[|s.shell|].content, "language_info"), "version") == Str("0.0.0")
    ensures Index(Index(Dispatch(env, s, msg).state.shell[|s.shell|].content, "language_info"), "mimetype") == Str("text/testing")
    ensures Index(Index(Dispatch(env, s, msg).state.shell[|s.shell|].content, "language_info"), "file_extension") == Str(".testing")
    ensures Index(Dispatch(env, s, msg).state.shell[|s.shell|].content, "help_links").Array?
    ensures |Index(Dispatch(env, s, msg).state.shell[|s.shell|].content, "help_links").items| == 1
  {
    DispatchKernelInfo(env, s, msg);
    KernelInfoFields(EVA_INFO);
  }

  /** Served by `Eva`, code not starting with "err" is echoed, answered "ok"
      with the new count, and followed by exactly one `execute_result`
      carrying "Executed code: " and the code. */
  lemma EvaExecutes(env: Env, s: ShellState, msg: Message, code: string)
    requires env.kernel == EVA
    requires MsgType(msg) == Str(EXECUTE_REQUEST) && Index(msg.content, "code") == Str(code)
    requires !("err" <= code)
    ensures |Dispatch(env, s, msg).state.iopub| == |s.iopub| + 2
    ensures Dispatch(env, s, msg).state.iopub[|s.iopub| + 1].content ==
      ExecuteResultContent(EvaValue(code), s.executionCount + 1)
    ensures |Dispatch(env, s, msg).state.shell| == |s.shell| + 1
    ensures Dispatch(env, s, msg).state.shell[|s.shell|].content == ExecuteOkContent(s.executionCount + 1)
  {
    DispatchExecuteSuccess(env, s, msg, code, [EvaValue(code)]);
    var outputs := Dispatch(env, s, msg).state.iopub[|s.iopub| + 1..];
    assert Dispatch(env, s, msg).state.iopub[|s.iopub| + 1] == outputs[0];
    ResultShape(env, msg, s.issued + 2, EvaValue(code), s.executionCount + 1);
  }

  /** Served by `Eva`, code starting with "err" is answered with the fixed
      error and a two-line traceback, and the same error is published. */
  lemma EvaFails(env: Env, s: ShellState, msg: Message, code: string)
    requires env.kernel == EVA
    requires MsgType(msg) == Str(EXECUTE_REQUEST) && Index(msg.content, "code") == Str(code)
    requires "err" <= code
    ensures |Dispatch(env, s, msg).state.iopub| == |s.iopub| + 2
    ensures |Dispatch(env, s, msg).state.shell| == |s.shell| + 1
    ensures Index(Dispatch(env, s, msg).state.shell[|s.shell|].content, "status") == Str("error")
    ensures Index(Dispatch(env, s, msg).state.shell[|s.shell|].content, "ename") == Str("Error")
    ensures Index(Dispatch(env, s, msg).state.shell[|s.shell|].content, "execution_count") == Number(s.executionCount + 1)
    ensures Index(Dispatch(env, s, msg).state.iopub[|s.iopub| + 1].content, "evalue") == Str(ERROR_VALUE)
    ensures Index(Dispatch(env, s, msg).state.iopub[|s.iopub| + 1].content, "traceback").Array?
    ensures |Index(Dispatch(env, s, msg).state.iopub[|s.iopub| + 1].content, "traceback").items| == 2
  {
    var r := EvaEval(code);
    DispatchExecuteError(env, s, msg, code, r.ename, r.evalue, r.traceback);
    ExecuteContentFields(code, s.executionCount + 1, EvaValue(code), r.ename, r.evalue, r.traceback);
  }

  // ---------------------------------------------------------------------
  // Restarting
  // ---------------------------------------------------------------------

  /** What one server run returns: `Ok(true)` asks for a restart. */
  type ServerOutcome = Result<bool, JuError>

  /** The number of leading outcomes that ask for a restart. */
  function Restarts(outcomes: seq<ServerOutcome>): nat {
    if outcomes == [] || outcomes[0] != Ok(true) then 0 else 1 + Restarts(outcomes[1..])
  }

  /** `Restarts` counts exactly the restart requests before the first
      outcome that is not one. */
  lemma {:induction false} RestartsPrefix(outcomes: seq<ServerOutcome>)
    ensures Restarts(outcomes) <= |outcomes|
    ensures forall j | 0 <= j < Restarts(outcomes) :: outcomes[j] == Ok(true)
    ensures Restarts(outcomes) < |outcomes| ==> outcomes[Restarts(outcomes)] != Ok(true)
  {
    if outcomes != [] && outcomes[0] == Ok(true) {
      RestartsPrefix(outcomes[1..]);
      forall j | 0 <= j < Restarts(outcomes)
        ensures outcomes[j] == Ok(true)
      {
        if j > 0 {
          assert outcomes[j] == outcomes[1..][j - 1];
        }
      }
    }
  }

  /** And nothing else has that shape. */
  lemma {:induction false} RestartsUnique(outcomes: seq<ServerOutcome>, k: nat)
    requires k <= |outcomes|
    requires forall j | 0 <= j < k :: outcomes[j] == Ok(true)
    requires k < |outcomes| ==> outcomes[k] != Ok(true)
    ensures Restarts(outcomes) == k
  {
    if k > 0 {
      assert outcomes[0] == Ok(true);
      forall j | 0 <= j < k - 1
        ensures outcomes[1..][j] == Ok(true)
      {
        assert outcomes[1..][j] == outcomes[j + 1];
      }
      RestartsUnique(outcomes[1..], k - 1);
    }
  }

  /** `JupyterApplication::run`'s loop over the outcomes of the servers it
      starts, each with a fresh `Eva`: `Ok(true)` starts another server,
      `Ok(false)` or an error stops. When the outcomes run out, the last
      server started is still serving. Returns how many servers were started
      and whether the loop stopped. */
  method RestartLoop(outcomes: seq<ServerOutcome>) returns (starts: nat, stopped: bool)
    ensures starts == 1 + Restarts(outcomes)
    ensures stopped <==> Restarts(outcomes) < |outcomes|
  {
    starts := 0;
    var i := 0;
    while true
      invariant 0 <= i <= |outcomes| && starts == i
      invariant forall j | 0 <= j < i :: outcomes[j] == Ok(true)
      decreases |outcomes| - i
    {
      starts := starts + 1;
      if i == |outcomes| {
        RestartsUnique(outcomes, i);
        return starts, false;
      }
      var res := outcomes[i];
      if res == Ok(true) {
        i := i + 1;
        continue;
      }
      break;
    }
    RestartsUnique(outcomes, i);
    stopped := true;
  }
}
