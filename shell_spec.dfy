/** What the shell processor does, stated on values: the effect of one
    dispatched request, of one event of the main loop, and of a run over a
    sequence of events. The class in `ShellProcessors` is proved to have
    exactly these effects. */
module ShellSpec {
  import opened Wrappers
  import opened Octets
  import opened Json
  import opened Lib
  import opened Messages
  import opened ServerIds

  /** The pluggable kernel (`JuKernel`): its static metadata and its
      evaluation of code. */
  datatype Kernel = Kernel(info: KernelInfo, eval: string -> EvalResult)

  /** What the main loop can observe next: a multipart message on the shell
      socket, a failed receive, or the shutdown notification. */
  datatype Event =
    | Incoming(frames: seq<Bytes>)
    | RecvFailed(reason: string)
    | Shutdown

  /** What the processor holds and never changes: the server identity, the
      kernel, serde_json, and the source of fresh message ids and dates. */
  datatype Env = Env(sid: ServerId, kernel: Kernel, json: JsonCodec, clock: nat -> Stamp)

  /** What the processor changes: the execution counter, the number of headers
      stamped so far, and what was sent on the iopub and shell sockets. */
  datatype ShellState = ShellState(
    executionCount: nat,
    issued: nat,
    iopub: seq<Message>,
    shell: seq<Message>)

  const STATUS := "status"
  const EXECUTE_REQUEST := "execute_request"
  const KERNEL_INFO_REQUEST := "kernel_info_request"
  const IS_COMPLETE_REQUEST := "is_complete_request"
  const NO_CODE := "execute_request message missing 'code' field"

  /** The content of a status notification. */
  function ExecutionState(state: string): Value {
    Object(map["execution_state" := Str(state)])
  }

  /** A status notification not derived from any request. */
  function StatusMessage(env: Env, stamp: nat, state: string): Message {
    WithContent(NewMessage(env.sid, STATUS, env.clock(stamp)), ExecutionState(state))
  }

  /** The state right after construction: the "starting" status published. */
  function Started(env: Env): ShellState {
    ShellState(0, 1, [StatusMessage(env, 0, "starting")], [])
  }

  function HelpLinkValue(link: HelpLink): Value {
    Object(map["text" := Str(link.text), "url" := Str(link.url)])
  }

  /** The help links as JSON, in order. */
  function HelpLinkValues(links: seq<HelpLink>): seq<Value> {
    if links == [] then [] else [HelpLinkValue(links[0])] + HelpLinkValues(links[1..])
  }

  function KernelInfoContent(info: KernelInfo): Value {
    Object(map[
      "protocol_version" := Str(PROTOCOL_VERSION),
      "implementation" := Str("juker"),
      "implementation_version" := Str("0.1.0"),
      "language_info" := Object(map[
        "name" := Str(info.name),
        "version" := Str(info.version),
        "mimetype" := Str(info.mimetype),
        "file_extension" := Str(info.fileExtension)]),
      "banner" := Str(info.banner),
      "help_links" := Array(HelpLinkValues(info.helpLinks))])
  }

  const IS_COMPLETE_CONTENT: Value := Object(map["status" := Str("unknown")])

  function ExecuteInputContent(code: string, count: nat): Value {
    Object(map["code" := Str(code), "execution_count" := Number(count)])
  }

  function ExecuteOkContent(count: nat): Value {
    Object(map["status" := Str("ok"), "execution_count" := Number(count)])
  }

  function ExecuteResultContent(ev: EvalValue, count: nat): Value {
    Object(map["data" := ev.data, "metadata" := ev.metadata, "execution_count" := Number(count)])
  }

  function ExecuteErrorContent(ename: Value, evalue: Value, traceback: seq<Value>, count: nat): Value {
    Object(map[
      "status" := Str("error"),
      "ename" := ename,
      "evalue" := evalue,
      "traceback" := Array(traceback),
      "execution_count" := Number(count)])
  }

  function ErrorContent(ename: Value, evalue: Value, traceback: seq<Value>): Value {
    Object(map["ename" := ename, "evalue" := evalue, "traceback" := Array(traceback)])
  }

  /** The `execute_result` notification for one value, stamped `stamp`. */
  function ResultMessage(env: Env, trigger: Message, stamp: nat, ev: EvalValue, count: nat): Message {
    WithContent(NewDerivedMessage(env.sid, trigger, "execute_result", env.clock(stamp)),
                ExecuteResultContent(ev, count))
  }

  /** One `execute_result` per value, in order, stamped from `first` on. */
  function ResultMessages(env: Env, trigger: Message, first: nat, results: seq<EvalValue>, count: nat): seq<Message>
    decreases |results|
  {
    if results == [] then []
    else
      var n := |results| - 1;
      ResultMessages(env, trigger, first, results[..n], count) + [ResultMessage(env, trigger, first + n, results[n], count)]
  }

  /** The effect of `process_shell_msg`. */
  datatype Dispatched = Dispatched(state: ShellState, result: Result<(), JuError>)

  /** A reply on the shell socket carrying `content`, stamped with the next stamp. */
  function Replied(env: Env, s: ShellState, msg: Message, content: Value): ShellState {
    var reply := WithContent(NewReplyMessage(env.sid, msg, env.clock(s.issued)), content);
    s.(issued := s.issued + 1, shell := s.shell + [reply])
  }

  /** What `execute_request` does once the execution is counted and `code`
      is a string: echo the code, evaluate it, then send the reply and the
      results, or the error reply and the error notification. */
  function Evaluated(env: Env, s: ShellState, msg: Message, code: string): ShellState {
    var count := s.executionCount;
    var input := WithContent(NewDerivedMessage(env.sid, msg, "execute_input", env.clock(s.issued)),
                             ExecuteInputContent(code, count));
    match env.kernel.eval(code)
    case Success(results) =>
      var reply := WithContent(NewReplyMessage(env.sid, msg, env.clock(s.issued + 1)), ExecuteOkContent(count));
      var outputs := ResultMessages(env, msg, s.issued + 2, results, count);
      ShellState(count, s.issued + 2 + |results|, s.iopub + [input] + outputs, s.shell + [reply])
    case Error(ename, evalue, traceback) =>
      var reply := WithContent(NewReplyMessage(env.sid, msg, env.clock(s.issued + 1)),
                               ExecuteErrorContent(ename, evalue, traceback, count));
      var error := WithContent(NewDerivedMessage(env.sid, msg, "error", env.clock(s.issued + 2)),
                               ErrorContent(ename, evalue, traceback));
      ShellState(count, s.issued + 3, s.iopub + [input, error], s.shell + [reply])
  }

  /** The `execute_request` branch: the execution is counted first, then a
      missing or non-string `code` is refused. */
  function Execute(env: Env, s: ShellState, msg: Message): Dispatched {
    var counted := s.(executionCount := s.executionCount + 1);
    var code := Index(msg.content, "code");
    if !code.Str? then Dispatched(counted, Err(NoCode(NO_CODE)))
    else Dispatched(Evaluated(env, counted, msg, code.s), Ok(()))
  }

  /** `process_shell_msg`: answers `kernel_info_request` and
      `is_complete_request` with one reply, runs `execute_request`, and
      refuses any other type. */
  function Dispatch(env: Env, s: ShellState, msg: Message): Dispatched {
    var msgType := Index(msg.header, "msg_type");
    if msgType == Str(KERNEL_INFO_REQUEST) then
      Dispatched(Replied(env, s, msg, KernelInfoContent(env.kernel.info)), Ok(()))
    else if msgType == Str(IS_COMPLETE_REQUEST) then
      Dispatched(Replied(env, s, msg, IS_COMPLETE_CONTENT), Ok(()))
    else if msgType == Str(EXECUTE_REQUEST) then
      Execute(env, s, msg)
    else
      Dispatched(s, Err(UnsupportedMessageType(msgType)))
  }

  /** The effect of one pass of the main loop: the new state, `Some(r)` when
      `run` returns `r`, and the request that was handled, if any. */
  datatype Stepped = Stepped(state: ShellState, stop: Option<Result<(), JuError>>, request: Option<Message>)

  /** Before dispatch: a "busy" status derived from the request. */
  function Opened(env: Env, s: ShellState, msg: Message): ShellState {
    var busy := WithContent(NewDerivedMessage(env.sid, msg, STATUS, env.clock(s.issued)), ExecutionState("busy"));
    s.(issued := s.issued + 1, iopub := s.iopub + [busy])
  }

  /** After dispatch: a fresh "idle" status. */
  function Closed(env: Env, s: ShellState): ShellState {
    s.(issued := s.issued + 1, iopub := s.iopub + [StatusMessage(env, s.issued, "idle")])
  }

  /** A request bracketed by "busy" and "idle", whatever its dispatch gives. */
  function Bracket(env: Env, s: ShellState, msg: Message): ShellState {
    Closed(env, Dispatch(env, Opened(env, s, msg), msg).state)
  }

  /** One pass of `run`'s loop. Shutdown returns `Ok`; a failed receive or a
      message that does not decode returns that error; a request is
      bracketed and the loop goes on. */
  function Handle(env: Env, s: ShellState, e: Event): Stepped {
    match e
    case Shutdown => Stepped(s, Some(Ok(())), None)
    case RecvFailed(reason) => Stepped(s, Some(Err(ZmqError(reason))), None)
    case Incoming(frames) =>
      match Decode(env.json, frames)
      case Err(err) => Stepped(s, Some(Err(err)), None)
      case Ok(msg) => Stepped(Bracket(env, s, msg), None, Some(msg))
  }

  /** How a run over a finite prefix of events ends: `run` returned, or it is
      still waiting for the next event. */
  datatype RunOutcome = Returned(result: Result<(), JuError>) | Waiting

  datatype Ran = Ran(state: ShellState, outcome: RunOutcome, handled: seq<Message>)

  function Handled(request: Option<Message>): seq<Message> {
    match request
    case None => []
    case Some(m) => [m]
  }

  /** `run`'s loop over the events, in order, each pass made by `step`. */
  function Loop(step: (ShellState, Event) -> Stepped, s: ShellState, events: seq<Event>): Ran
    decreases |events|
  {
    if events == [] then Ran(s, Waiting, [])
    else
      var t := step(s, events[0]);
      if t.stop.Some? then Ran(t.state, Returned(t.stop.value), [])
      else
        var rest := Loop(step, t.state, events[1..]);
        Ran(rest.state, rest.outcome, Handled(t.request) + rest.handled)
  }

  /** The passes of the processor's own loop. */
  function HandleOf(env: Env): (ShellState, Event) -> Stepped {
    (s: ShellState, e: Event) => Handle(env, s, e)
  }

  /** The run `r` preceded by the requests `h`. */
  function After(h: seq<Message>, r: Ran): Ran {
    Ran(r.state, r.outcome, h + r.handled)
  }

  /** The loop's first event decides whether it goes on. */
  lemma LoopFirst(step: (ShellState, Event) -> Stepped, s: ShellState, events: seq<Event>, t: Stepped)
    requires events != [] && t == step(s, events[0])
    ensures t.stop.Some? ==> Loop(step, s, events) == Ran(t.state, Returned(t.stop.value), [])
    ensures t.stop.None? ==> Loop(step, s, events) == After(Handled(t.request), Loop(step, t.state, events[1..]))
  {
  }

  /** A request handled at the head of the loop moves to the requests
      already handled. */
  lemma LoopAdvance(step: (ShellState, Event) -> Stepped, s: ShellState, events: seq<Event>, t: Stepped, handled: seq<Message>)
    requires events != [] && t == step(s, events[0]) && t.stop.None?
    ensures After(handled, Loop(step, s, events)) == After(handled + Handled(t.request), Loop(step, t.state, events[1..]))
  {
    LoopFirst(step, s, events, t);
    var rest := Loop(step, t.state, events[1..]);
    assert handled + (Handled(t.request) + rest.handled) == (handled + Handled(t.request)) + rest.handled;
  }

  /** `run`: publish "idle", then loop. */
  function RunSpec(env: Env, s: ShellState, events: seq<Event>): Ran {
    Loop(HandleOf(env), Closed(env, s), events)
  }
}
