/** `JuShellProcessor`: the object that owns the execution counter and the
    iopub and shell sockets, modelled as append-only logs of what was sent. */
module ShellProcessors {
  import opened Wrappers
  import opened Json
  import opened Lib
  import opened Messages
  import opened ServerIds
  import opened ShellSpec

  class ShellProcessor {
    const env: Env
    var executionCount: nat
    /** How many headers have been stamped, i.e. which fresh id and date come next. */
    var issued: nat
    var iopub: seq<Message>
    var shell: seq<Message>

    ghost function State(): ShellState
      reads this
    {
      ShellState(executionCount, issued, iopub, shell)
    }

    /** `JuShellProcessor::new`: counter at zero, and a "starting" status
        published, derived from nothing. */
    constructor (sid: ServerId, kernel: Kernel, json: JsonCodec, clock: nat -> Stamp)
      ensures env == Env(sid, kernel, json, clock)
      ensures State() == Started(env)
    {
      env := Env(sid, kernel, json, clock);
      executionCount := 0;
      issued := 0;
      iopub := [];
      shell := [];
      new;
      var stamp := NextStamp();
      SendPub(WithContent(NewMessage(sid, STATUS, stamp), ExecutionState("starting")));
    }

    /** The fresh id and date of the next header. */
    method NextStamp() returns (stamp: Stamp)
      modifies this
      ensures stamp == env.clock(old(issued))
      ensures State() == old(State()).(issued := old(issued) + 1)
    {
      stamp := env.clock(issued);
      issued := issued + 1;
    }

    /** `send_pub`. */
    method SendPub(m: Message)
      modifies this
      ensures State() == old(State()).(iopub := old(iopub) + [m])
    {
      iopub := iopub + [m];
    }

    /** `send_shell`. */
    method SendShell(m: Message)
      modifies this
      ensures State() == old(State()).(shell := old(shell) + [m])
    {
      shell := shell + [m];
    }

    /** `process_shell_msg`. */
    method ProcessShellMsg(msg: Message) returns (r: Result<(), JuError>)
      modifies this
      ensures Dispatched(State(), r) == Dispatch(env, old(State()), msg)
    {
      var msgType := Index(msg.header, "msg_type");
      if msgType == Str(KERNEL_INFO_REQUEST) {
        SendReply(msg, KernelInfoContent(env.kernel.info));
        r := Ok(());
      } else if msgType == Str(IS_COMPLETE_REQUEST) {
        SendReply(msg, IS_COMPLETE_CONTENT);
        r := Ok(());
      } else if msgType == Str(EXECUTE_REQUEST) {
        r := ExecuteRequest(msg);
      } else {
        r := Err(UnsupportedMessageType(msgType));
      }
    }

    /** Sends a reply to `msg` on the shell socket. */
    method SendReply(msg: Message, content: Value)
      modifies this
      ensures State() == Replied(env, old(State()), msg, content)
    {
      var stamp := NextStamp();
      SendShell(WithContent(NewReplyMessage(env.sid, msg, stamp), content));
    }

    /** The `execute_request` arm of `process_shell_msg`. */
    method ExecuteRequest(msg: Message) returns (r: Result<(), JuError>)
      modifies this
      ensures Dispatched(State(), r) == Execute(env, old(State()), msg)
    {
      CountExecution();
      var code := Index(msg.content, "code");
      if !code.Str? {
        return Err(NoCode(NO_CODE));
      }
      Evaluate(msg, code.s);
      r := Ok(());
    }

    /** `self.execution_count += 1`. */
    method CountExecution()
      modifies this
      ensures State() == old(State()).(executionCount := old(executionCount) + 1)
    {
      executionCount := executionCount + 1;
    }

    /** Echoes `code`, evaluates it and reports the outcome. */
    method Evaluate(msg: Message, code: string)
      modifies this
      ensures State() == Evaluated(env, old(State()), msg, code)
    {
      var stamp := NextStamp();
      SendPub(WithContent(NewDerivedMessage(env.sid, msg, "execute_input", stamp),
                          ExecuteInputContent(code, executionCount)));
      var evalResult := env.kernel.eval(code);
      match evalResult {
        case Success(results) =>
          SendReply(msg, ExecuteOkContent(executionCount));
          PublishResults(msg, results);
        case Error(ename, evalue, traceback) =>
          SendReply(msg, ExecuteErrorContent(ename, evalue, traceback, executionCount));
          stamp := NextStamp();
          SendPub(WithContent(NewDerivedMessage(env.sid, msg, "error", stamp),
                              ErrorContent(ename, evalue, traceback)));
      }
    }

    /** The `for ev in results` loop: one `execute_result` per value, in order. */
    method PublishResults(msg: Message, results: seq<EvalValue>)
      modifies this
      ensures State() == old(State()).(
        issued := old(issued) + |results|,
        iopub := old(iopub) + ResultMessages(env, msg, old(issued), results, executionCount))
    {
      var i := 0;
      while i < |results|
        invariant 0 <= i <= |results|
        invariant executionCount == old(executionCount) && shell == old(shell)
        invariant issued == old(issued) + i
        invariant iopub == old(iopub) + ResultMessages(env, msg, old(issued), results[..i], executionCount)
      {
        PublishResult(msg, results[i]);
        ghost var done := results[..i + 1];
        assert done[..|done| - 1] == results[..i] && done[|done| - 1] == results[i];
        i := i + 1;
      }
      assert results[..i] == results;
    }

    /** The body of that loop: the `execute_result` of one value. */
    method PublishResult(msg: Message, ev: EvalValue)
      modifies this
      ensures State() == old(State()).(
        issued := old(issued) + 1,
        iopub := old(iopub) + [ResultMessage(env, msg, old(issued), ev, executionCount)])
    {
      var stamp := NextStamp();
      SendPub(WithContent(NewDerivedMessage(env.sid, msg, "execute_result", stamp),
                          ExecuteResultContent(ev, executionCount)));
    }

    /** One pass of `run`'s loop on the event `e`. */
    method Step(e: Event) returns (stop: Option<Result<(), JuError>>, request: Option<Message>)
      modifies this
      ensures Stepped(State(), stop, request) == Handle(env, old(State()), e)
    {
      match e {
        case Shutdown =>
          return Some(Ok(())), None;
        case RecvFailed(reason) =>
          return Some(Err(ZmqError(reason))), None;
        case Incoming(frames) =>
          var received := TryFrom(env.json, frames);
          if received.Err? {
            return Some(Err(received.error)), None;
          }
          var msg := received.value;
          Process(msg);
          return None, Some(msg);
      }
    }

    /** The request bracket of `run`: "busy", dispatch, "idle". A dispatch
        error is only logged. */
    method Process(msg: Message)
      modifies this
      ensures State() == Bracket(env, old(State()), msg)
    {
      Open(msg);
      var dispatched := ProcessShellMsg(msg);
      Close();
    }

    /** The "busy" status that opens the handling of `msg`. */
    method Open(msg: Message)
      modifies this
      ensures State() == Opened(env, old(State()), msg)
    {
      var stamp := NextStamp();
      SendPub(WithContent(NewDerivedMessage(env.sid, msg, STATUS, stamp), ExecutionState("busy")));
    }

    /** The fresh "idle" status. */
    method Close()
      modifies this
      ensures State() == Closed(env, old(State()))
    {
      var stamp := NextStamp();
      SendPub(WithContent(NewMessage(env.sid, STATUS, stamp), ExecutionState("idle")));
    }

    /** `run`: publish "idle", then handle events until one makes it return.
        `handled` lists the requests handled, in order; `Waiting` means the
        events ran out while the loop was still waiting for the next one. */
    method Run(events: seq<Event>) returns (outcome: RunOutcome, handled: seq<Message>)
      modifies this
      ensures Ran(State(), outcome, handled) == RunSpec(env, old(State()), events)
    {
      Close();
      outcome, handled := Serve(events);
    }

    /** The loop of `run`. */
    method Serve(events: seq<Event>) returns (outcome: RunOutcome, handled: seq<Message>)
      modifies this
      ensures Ran(State(), outcome, handled) == Loop(HandleOf(env), old(State()), events)
    {
      handled := [];
      var i := 0;
      while i < |events|
        invariant 0 <= i <= |events|
        invariant Loop(HandleOf(env), old(State()), events) == After(handled, Loop(HandleOf(env), State(), events[i..]))
      {
        ghost var before := State();
        assert events[i..][1..] == events[i + 1..];
        var stop, request := Step(events[i]);
        if stop.Some? {
          LoopFirst(HandleOf(env), before, events[i..], Stepped(State(), stop, request));
          return Returned(stop.value), handled;
        }
        LoopAdvance(HandleOf(env), before, events[i..], Stepped(State(), stop, request), handled);
        handled := handled + Handled(request);
        i := i + 1;
      }
      outcome := Waiting;
    }
  }
}
