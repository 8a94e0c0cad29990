/** What the shell processor's behaviour guarantees: the execution counter,
    the order and contents of what is sent for each request type, the
    busy/idle bracket around every request, and how `run` ends. */
module ShellProperties {
  import opened Wrappers
  import opened Json
  import opened Lib
  import opened Messages
  import opened ServerIds
  import opened ShellSpec

  /** The `msg_type` of a message's header. */
  function MsgType(m: Message): Value {
    Index(m.header, "msg_type")
  }

  predicate IsStatus(m: Message) {
    MsgType(m) == Str(STATUS)
  }

  /** A notification of its own, not derived from a request. */
  predicate IsFresh(m: Message) {
    m.zmqIds == [] && m.parentHeader == EmptyObject
  }

  /** No message of `ms` is a status notification. */
  predicate NoStatus(ms: seq<Message>) {
    forall i | 0 <= i < |ms| :: !IsStatus(ms[i])
  }

  /** `log` is `before` followed by messages none of which is a status
      notification. */
  predicate GrowsWithoutStatus(before: seq<Message>, log: seq<Message>) {
    |before| <= |log| && log[..|before|] == before && NoStatus(log[|before|..])
  }

  lemma NoStatusConcat(a: seq<Message>, b: seq<Message>)
    requires NoStatus(a) && NoStatus(b)
    ensures NoStatus(a + b)
  {
    assert forall i | 0 <= i < |a + b| :: (a + b)[i] == if i < |a| then a[i] else b[i - |a|];
  }

  lemma GrowsBy(before: seq<Message>, added: seq<Message>)
    requires NoStatus(added)
    ensures GrowsWithoutStatus(before, before + added)
  {
    assert (before + added)[|before|..] == added;
  }

  // ---------------------------------------------------------------------
  // Dispatch of one request
  // ---------------------------------------------------------------------

  /** `execute_request` is routed to its own arm. */
  lemma DispatchToExecute(env: Env, s: ShellState, msg: Message)
    requires MsgType(msg) == Str(EXECUTE_REQUEST)
    ensures Dispatch(env, s, msg) == Execute(env, s, msg)
  {
  }

  /** With string `code`, the arm counts the execution and evaluates. */
  lemma ExecuteEvaluates(env: Env, s: ShellState, msg: Message, code: string)
    requires Index(msg.content, "code") == Str(code)
    ensures Execute(env, s, msg).result == Ok(())
    ensures Execute(env, s, msg).state == Evaluated(env, s.(executionCount := s.executionCount + 1), msg, code)
  {
  }

  /** Every dispatch only appends to both logs, never a status notification,
      sends at most one reply, and uses one fresh stamp per message sent. */
  lemma DispatchAppends(env: Env, s: ShellState, msg: Message)
    ensures GrowsWithoutStatus(s.iopub, Dispatch(env, s, msg).state.iopub)
    ensures |s.shell| <= |Dispatch(env, s, msg).state.shell| <= |s.shell| + 1
    ensures Dispatch(env, s, msg).state.shell[..|s.shell|] == s.shell
    ensures Dispatch(env, s, msg).state.issued == s.issued
      + (|Dispatch(env, s, msg).state.iopub| - |s.iopub|) + (|Dispatch(env, s, msg).state.shell| - |s.shell|)
  {
    GrowsBy(s.iopub, []);
    assert s.iopub + [] == s.iopub;
    if MsgType(msg) == Str(EXECUTE_REQUEST) {
      DispatchToExecute(env, s, msg);
      var code := Index(msg.content, "code");
      if code.Str? {
        ExecuteEvaluates(env, s, msg, code.s);
        EvaluatedAppends(env, s.(executionCount := s.executionCount + 1), msg, code.s);
      }
    }
  }

  lemma EvaluatedAppends(env: Env, s: ShellState, msg: Message, code: string)
    ensures GrowsWithoutStatus(s.iopub, Evaluated(env, s, msg, code).iopub)
    ensures |Evaluated(env, s, msg, code).shell| == |s.shell| + 1
    ensures Evaluated(env, s, msg, code).shell[..|s.shell|] == s.shell
    ensures Evaluated(env, s, msg, code).issued == s.issued + (|Evaluated(env, s, msg, code).iopub| - |s.iopub|) + 1
  {
    EvaluatedShell(env, s, msg, code);
    match env.kernel.eval(code)
    case Success(results) => SucceededAppends(env, s, msg, code, results);
    case Error(ename, evalue, traceback) => FailedAppends(env, s, msg, code, ename, evalue, traceback);
  }

  /** Evaluation sends exactly one message on shell. */
  lemma EvaluatedShell(env: Env, s: ShellState, msg: Message, code: string)
    ensures |Evaluated(env, s, msg, code).shell| == |s.shell| + 1
    ensures Evaluated(env, s, msg, code).shell[..|s.shell|] == s.shell
  {
    var count := s.executionCount;
    var stamp := env.clock(s.issued + 1);
    match env.kernel.eval(code)
    case Success(_) =>
      var reply := WithContent(NewReplyMessage(env.sid, msg, stamp), ExecuteOkContent(count));
      assert Evaluated(env, s, msg, code).shell == s.shell + [reply];
    case Error(ename, evalue, traceback) =>
      var reply := WithContent(NewReplyMessage(env.sid, msg, stamp), ExecuteErrorContent(ename, evalue, traceback, count));
      assert Evaluated(env, s, msg, code).shell == s.shell + [reply];
  }

  lemma SucceededAppends(env: Env, s: ShellState, msg: Message, code: string, results: seq<EvalValue>)
    requires env.kernel.eval(code) == Success(results)
    ensures GrowsWithoutStatus(s.iopub, Evaluated(env, s, msg, code).iopub)
    ensures |Evaluated(env, s, msg, code).iopub| == |s.iopub| + 1 + |results|
    ensures Evaluated(env, s, msg, code).issued == s.issued + 2 + |results|
  {
    var count := s.executionCount;
    var input := WithContent(NewDerivedMessage(env.sid, msg, "execute_input", env.clock(s.issued)),
                             ExecuteInputContent(code, count));
    var outputs := ResultMessages(env, msg, s.issued + 2, results, count);
    assert Evaluated(env, s, msg, code).iopub == s.iopub + [input] + outputs;
    DerivedShape(env, msg, s.issued, ExecuteInputContent(code, count), "execute_input");
    ResultsNoStatus(env, msg, s.issued + 2, results, count);
    QuietAfter(s.iopub, input, outputs);
  }

  /** One message that is not a status, then messages none of which is. */
  lemma QuietAfter(before: seq<Message>, first: Message, rest: seq<Message>)
    requires !IsStatus(first) && NoStatus(rest)
    ensures GrowsWithoutStatus(before, before + [first] + rest)
    ensures |before + [first] + rest| == |before| + 1 + |rest|
  {
    assert NoStatus([first]);
    NoStatusConcat([first], rest);
    GrowsBy(before, [first] + rest);
    assert before + [first] + rest == before + ([first] + rest);
  }

  lemma FailedAppends(env: Env, s: ShellState, msg: Message, code: string,
                      ename: Value, evalue: Value, traceback: seq<Value>)
    requires env.kernel.eval(code) == Error(ename, evalue, traceback)
    ensures GrowsWithoutStatus(s.iopub, Evaluated(env, s, msg, code).iopub)
    ensures |Evaluated(env, s, msg, code).iopub| == |s.iopub| + 2
    ensures Evaluated(env, s, msg, code).issued == s.issued + 3
  {
    var count := s.executionCount;
    var input := WithContent(NewDerivedMessage(env.sid, msg, "execute_input", env.clock(s.issued)),
                             ExecuteInputContent(code, count));
    var error := WithContent(NewDerivedMessage(env.sid, msg, "error", env.clock(s.issued + 2)),
                             ErrorContent(ename, evalue, traceback));
    DerivedShape(env, msg, s.issued, ExecuteInputContent(code, count), "execute_input");
    DerivedShape(env, msg, s.issued + 2, ErrorContent(ename, evalue, traceback), "error");
    assert Evaluated(env, s, msg, code).iopub == s.iopub + [input] + [error];
    assert NoStatus([error]);
    QuietAfter(s.iopub, input, [error]);
  }

  /** The results are published one per value, in order, on consecutive
      stamps, all with the same count. */
  lemma {:induction false} ResultMessagesIndex(env: Env, msg: Message, first: nat, results: seq<EvalValue>, count: nat)
    ensures |ResultMessages(env, msg, first, results, count)| == |results|
    ensures forall j | 0 <= j < |results| ::
      ResultMessages(env, msg, first, results, count)[j] == ResultMessage(env, msg, first + j, results[j], count)
    decreases |results|
  {
    if results != [] {
      var n := |results| - 1;
      ResultMessagesIndex(env, msg, first, results[..n], count);
    }
  }

  lemma ResultsNoStatus(env: Env, msg: Message, first: nat, results: seq<EvalValue>, count: nat)
    ensures |ResultMessages(env, msg, first, results, count)| == |results|
    ensures NoStatus(ResultMessages(env, msg, first, results, count))
  {
    var outputs := ResultMessages(env, msg, first, results, count);
    ResultMessagesIndex(env, msg, first, results, count);
    forall i | 0 <= i < |outputs|
      ensures !IsStatus(outputs[i])
    {
      DerivedShape(env, msg, first + i, ExecuteResultContent(results[i], count), "execute_result");
    }
  }

  /** `execute_request` counts one execution whatever follows; no other
      request type touches the counter. */
  lemma DispatchCount(env: Env, s: ShellState, msg: Message)
    ensures Dispatch(env, s, msg).state.executionCount ==
      s.executionCount + (if MsgType(msg) == Str(EXECUTE_REQUEST) then 1 else 0)
  {
    var code := Index(msg.content, "code");
    if MsgType(msg) == Str(EXECUTE_REQUEST) && code.Str? {
      match env.kernel.eval(code.s)
      case Success(_) =>
      case Error(_, _, _) =>
    }
  }

  /** Dispatch fails exactly on an unknown type, or on `execute_request`
      without string `code`; in both cases nothing is sent. */
  lemma DispatchFails(env: Env, s: ShellState, msg: Message)
    ensures var t := MsgType(msg);
      var known := t in {Str(KERNEL_INFO_REQUEST), Str(IS_COMPLETE_REQUEST), Str(EXECUTE_REQUEST)};
      var noCode := t == Str(EXECUTE_REQUEST) && !Index(msg.content, "code").Str?;
      Dispatch(env, s, msg).result.Err? <==> !known || noCode
    ensures var d := Dispatch(env, s, msg);
      d.result.Err? ==> d.state.issued == s.issued && d.state.iopub == s.iopub && d.state.shell == s.shell
  {
  }

  /** An `execute_request` without string `code` fails with `NoCode`, after
      the count, and sends nothing: no echo, no reply, no result. */
  lemma DispatchNoCode(env: Env, s: ShellState, msg: Message)
    requires MsgType(msg) == Str(EXECUTE_REQUEST) && !Index(msg.content, "code").Str?
    ensures Dispatch(env, s, msg) ==
      Dispatched(s.(executionCount := s.executionCount + 1), Err(NoCode("execute_request message missing 'code' field")))
  {
  }

  /** Any other type fails with `UnsupportedMessageType` carrying it, and
      nothing changes. */
  lemma DispatchUnsupported(env: Env, s: ShellState, msg: Message)
    requires MsgType(msg) !in {Str(KERNEL_INFO_REQUEST), Str(IS_COMPLETE_REQUEST), Str(EXECUTE_REQUEST)}
    ensures Dispatch(env, s, msg) == Dispatched(s, Err(UnsupportedMessageType(MsgType(msg))))
  {
  }

  /** The reply to `msg`: routed back to its sender, derived from it, with
      the reply type of its type. */
  predicate RepliesTo(reply: Message, msg: Message, replyType: string) {
    reply.zmqIds == msg.zmqIds && reply.parentHeader == msg.header && MsgType(reply) == Str(replyType)
  }

  /** A notification derived from `msg`, of type `msgType`. */
  predicate DerivedFrom(m: Message, msg: Message, msgType: string) {
    m.zmqIds == [] && m.parentHeader == msg.header && MsgType(m) == Str(msgType)
  }

  /** A reply to `msg` whose type is what `new_reply_message` computes from
      the request's type, whatever that type is. */
  predicate Answers(reply: Message, msg: Message) {
    RepliesTo(reply, msg, ReplyType(StrOrEmpty(msg.header, "msg_type")))
  }

  lemma ReplyShape(env: Env, msg: Message, stamp: nat, content: Value, request: string, reply: string)
    requires MsgType(msg) == Str(request) && ReplyType(request) == reply
    ensures var m := WithContent(NewReplyMessage(env.sid, msg, env.clock(stamp)), content);
      RepliesTo(m, msg, reply) && m.content == content
  {
    ReplyMessageShape(env.sid, msg, env.clock(stamp));
  }

  lemma DerivedShape(env: Env, msg: Message, stamp: nat, content: Value, msgType: string)
    ensures var m := WithContent(NewDerivedMessage(env.sid, msg, msgType, env.clock(stamp)), content);
      DerivedFrom(m, msg, msgType) && m.content == content
  {
    DerivedMessageShape(env.sid, msg, msgType, env.clock(stamp));
  }

  /** `kernel_info_request`: one `kernel_info_reply` on the shell socket
      carrying the kernel's information; nothing on iopub. */
  lemma DispatchKernelInfo(env: Env, s: ShellState, msg: Message)
    requires MsgType(msg) == Str(KERNEL_INFO_REQUEST)
    ensures Dispatch(env, s, msg).result == Ok(())
    ensures Dispatch(env, s, msg).state.iopub == s.iopub
    ensures Dispatch(env, s, msg).state.executionCount == s.executionCount
    ensures |Dispatch(env, s, msg).state.shell| == |s.shell| + 1
    ensures Dispatch(env, s, msg).state.shell[..|s.shell|] == s.shell
    ensures RepliesTo(Dispatch(env, s, msg).state.shell[|s.shell|], msg, "kernel_info_reply")
    ensures Dispatch(env, s, msg).state.shell[|s.shell|].content == KernelInfoContent(env.kernel.info)
  {
    KernelInfoReply();
    var content := KernelInfoContent(env.kernel.info);
    ReplyShape(env, msg, s.issued, content, KERNEL_INFO_REQUEST, "kernel_info_reply");
    assert Dispatch(env, s, msg) == Dispatched(Replied(env, s, msg, content), Ok(()));
  }

  /** The `kernel_info_reply` content: protocol version 5.3, implementation
      "juker", the kernel's language and banner, and its help links in order. */
  lemma KernelInfoFields(info: KernelInfo)
    ensures Index(KernelInfoContent(info), "protocol_version") == Str("5.3")
    ensures Index(KernelInfoContent(info), "implementation") == Str("juker")
    ensures Index(KernelInfoContent(info), "implementation_version") == Str("0.1.0")
    ensures Index(Index(KernelInfoContent(info), "language_info"), "name") == Str(info.name)
    ensures Index(Index(KernelInfoContent(info), "language_info"), "version") == Str(info.version)
    ensures Index(Index(KernelInfoContent(info), "language_info"), "mimetype") == Str(info.mimetype)
    ensures Index(Index(KernelInfoContent(info), "language_info"), "file_extension") == Str(info.fileExtension)
    ensures Index(KernelInfoContent(info), "banner") == Str(info.banner)
    ensures Index(KernelInfoContent(info), "help_links").Array?
    ensures |Index(KernelInfoContent(info), "help_links").items| == |info.helpLinks|
    ensures forall i | 0 <= i < |info.helpLinks| ::
      && Index(Index(KernelInfoContent(info), "help_links").items[i], "text") == Str(info.helpLinks[i].text)
      && Index(Index(KernelInfoContent(info), "help_links").items[i], "url") == Str(info.helpLinks[i].url)
  {
    HelpLinkValuesIndex(info.helpLinks);
  }

  lemma {:induction false} HelpLinkValuesIndex(links: seq<HelpLink>)
    ensures |HelpLinkValues(links)| == |links|
    ensures forall i | 0 <= i < |links| :: HelpLinkValues(links)[i] == HelpLinkValue(links[i])
    decreases |links|
  {
    if links != [] {
      HelpLinkValuesIndex(links[1..]);
    }
  }

  /** `is_complete_request`: one `is_complete_reply` with status "unknown". */
  lemma DispatchIsComplete(env: Env, s: ShellState, msg: Message)
    requires MsgType(msg) == Str(IS_COMPLETE_REQUEST)
    ensures Dispatch(env, s, msg).result == Ok(())
    ensures Dispatch(env, s, msg).state.iopub == s.iopub
    ensures Dispatch(env, s, msg).state.executionCount == s.executionCount
    ensures |Dispatch(env, s, msg).state.shell| == |s.shell| + 1
    ensures Dispatch(env, s, msg).state.shell[..|s.shell|] == s.shell
    ensures RepliesTo(Dispatch(env, s, msg).state.shell[|s.shell|], msg, "is_complete_reply")
    ensures Dispatch(env, s, msg).state.shell[|s.shell|].content == IS_COMPLETE_CONTENT
    ensures Index(Dispatch(env, s, msg).state.shell[|s.shell|].content, "status") == Str("unknown")
  {
    IsCompleteReply();
    ReplyShape(env, msg, s.issued, IS_COMPLETE_CONTENT, IS_COMPLETE_REQUEST, "is_complete_reply");
  }

  /** An `execute_request` with string `code`, whatever the evaluation
      gives: counted, echoed first on iopub as `execute_input` with the code
      and the new count, and answered with exactly one `execute_reply`. */
  lemma DispatchExecuteEcho(env: Env, s: ShellState, msg: Message, code: string)
    requires MsgType(msg) == Str(EXECUTE_REQUEST) && Index(msg.content, "code") == Str(code)
    ensures Dispatch(env, s, msg).result == Ok(())
    ensures Dispatch(env, s, msg).state.executionCount == s.executionCount + 1
    ensures |Dispatch(env, s, msg).state.iopub| > |s.iopub|
    ensures Dispatch(env, s, msg).state.iopub[..|s.iopub|] == s.iopub
    ensures DerivedFrom(Dispatch(env, s, msg).state.iopub[|s.iopub|], msg, "execute_input")
    ensures Dispatch(env, s, msg).state.iopub[|s.iopub|].content == ExecuteInputContent(code, s.executionCount + 1)
    ensures |Dispatch(env, s, msg).state.shell| == |s.shell| + 1
    ensures Dispatch(env, s, msg).state.shell[..|s.shell|] == s.shell
    ensures RepliesTo(Dispatch(env, s, msg).state.shell[|s.shell|], msg, "execute_reply")
  {
    DispatchToExecute(env, s, msg);
    ExecuteEvaluates(env, s, msg, code);
    EvaluatedEcho(env, s.(executionCount := s.executionCount + 1), msg, code);
    EvaluatedReply(env, s.(executionCount := s.executionCount + 1), msg, code);
    AnswersExecute(Dispatch(env, s, msg).state.shell[|s.shell|], msg);
  }

  lemma EvaluatedEcho(env: Env, s: ShellState, msg: Message, code: string)
    ensures Evaluated(env, s, msg, code).executionCount == s.executionCount
    ensures |Evaluated(env, s, msg, code).iopub| > |s.iopub|
    ensures Evaluated(env, s, msg, code).iopub[..|s.iopub|] == s.iopub
    ensures DerivedFrom(Evaluated(env, s, msg, code).iopub[|s.iopub|], msg, "execute_input")
    ensures Evaluated(env, s, msg, code).iopub[|s.iopub|].content == ExecuteInputContent(code, s.executionCount)
  {
    DerivedShape(env, msg, s.issued, ExecuteInputContent(code, s.executionCount), "execute_input");
  }

  lemma AnswersShape(env: Env, msg: Message, stamp: nat, content: Value)
    ensures Answers(WithContent(NewReplyMessage(env.sid, msg, env.clock(stamp)), content), msg)
  {
    ReplyMessageShape(env.sid, msg, env.clock(stamp));
  }

  lemma EvaluatedReply(env: Env, s: ShellState, msg: Message, code: string)
    ensures |Evaluated(env, s, msg, code).shell| == |s.shell| + 1
    ensures Evaluated(env, s, msg, code).shell[..|s.shell|] == s.shell
    ensures Answers(Evaluated(env, s, msg, code).shell[|s.shell|], msg)
  {
    var count := s.executionCount;
    var stamp := env.clock(s.issued + 1);
    var content := match env.kernel.eval(code)
      case Success(_) => ExecuteOkContent(count)
      case Error(ename, evalue, traceback) => ExecuteErrorContent(ename, evalue, traceback, count);
    var reply := WithContent(NewReplyMessage(env.sid, msg, stamp), content);
    assert Evaluated(env, s, msg, code).shell == s.shell + [reply];
    AnswersShape(env, msg, s.issued + 1, content);
    AppendedLast(s.shell, reply);
  }

  lemma AppendedLast<T>(log: seq<T>, m: T)
    ensures |log + [m]| == |log| + 1 && (log + [m])[..|log|] == log && (log + [m])[|log|] == m
  {
    assert (log + [m])[..|log|] == log;
  }

  lemma AnswersExecute(reply: Message, msg: Message)
    requires Answers(reply, msg) && MsgType(msg) == Str(EXECUTE_REQUEST)
    ensures RepliesTo(reply, msg, "execute_reply")
  {
    ExecuteReply();
  }

  /** A successful evaluation: the reply says "ok" with the count, and the
      echo is followed by one `execute_result` per value, in order, each on
      its own fresh stamp and all with the same count. */
  lemma DispatchExecuteSuccess(env: Env, s: ShellState, msg: Message, code: string, results: seq<EvalValue>)
    requires MsgType(msg) == Str(EXECUTE_REQUEST) && Index(msg.content, "code") == Str(code)
    requires env.kernel.eval(code) == Success(results)
    ensures |Dispatch(env, s, msg).state.iopub| == |s.iopub| + 1 + |results|
    ensures Dispatch(env, s, msg).state.iopub[|s.iopub| + 1..] ==
      ResultMessages(env, msg, s.issued + 2, results, s.executionCount + 1)
    ensures |Dispatch(env, s, msg).state.shell| == |s.shell| + 1
    ensures Dispatch(env, s, msg).state.shell[|s.shell|].content == ExecuteOkContent(s.executionCount + 1)
  {
    DispatchToExecute(env, s, msg);
    ExecuteEvaluates(env, s, msg, code);
    EvaluatedSuccess(env, s, msg, code, results);
  }

  lemma EvaluatedSuccess(env: Env, s: ShellState, msg: Message, code: string, results: seq<EvalValue>)
    requires env.kernel.eval(code) == Success(results)
    ensures |Evaluated(env, s.(executionCount := s.executionCount + 1), msg, code).iopub| == |s.iopub| + 1 + |results|
    ensures Evaluated(env, s.(executionCount := s.executionCount + 1), msg, code).iopub[|s.iopub| + 1..] ==
      ResultMessages(env, msg, s.issued + 2, results, s.executionCount + 1)
  {
    ResultMessagesIndex(env, msg, s.issued + 2, results, s.executionCount + 1);
  }

  /** An `execute_result` is derived from the request and carries the
      value's data and metadata with the count. */
  lemma ResultShape(env: Env, msg: Message, stamp: nat, ev: EvalValue, count: nat)
    ensures DerivedFrom(ResultMessage(env, msg, stamp, ev, count), msg, "execute_result")
    ensures ResultMessage(env, msg, stamp, ev, count).content == ExecuteResultContent(ev, count)
  {
    DerivedShape(env, msg, stamp, ExecuteResultContent(ev, count), "execute_result");
  }

  /** A failed evaluation: the reply says "error" with the error and the
      count, and the echo is followed by exactly one `error` notification
      carrying the same error. */
  lemma DispatchExecuteError(env: Env, s: ShellState, msg: Message, code: string,
                             ename: Value, evalue: Value, traceback: seq<Value>)
    requires MsgType(msg) == Str(EXECUTE_REQUEST) && Index(msg.content, "code") == Str(code)
    requires env.kernel.eval(code) == Error(ename, evalue, traceback)
    ensures |Dispatch(env, s, msg).state.iopub| == |s.iopub| + 2
    ensures |Dispatch(env, s, msg).state.shell| == |s.shell| + 1
    ensures Dispatch(env, s, msg).state.shell[|s.shell|].content ==
      ExecuteErrorContent(ename, evalue, traceback, s.executionCount + 1)
    ensures DerivedFrom(Dispatch(env, s, msg).state.iopub[|s.iopub| + 1], msg, "error")
    ensures Dispatch(env, s, msg).state.iopub[|s.iopub| + 1].content == ErrorContent(ename, evalue, traceback)
  {
    DispatchToExecute(env, s, msg);
    ExecuteEvaluates(env, s, msg, code);
    var counted := s.(executionCount := s.executionCount + 1);
    DerivedShape(env, msg, s.issued + 2, ErrorContent(ename, evalue, traceback), "error");
  }

  /** The execute contents: the echoed code, the reply status, the values and
      the error, each with the count they were given. */
  lemma ExecuteContentFields(code: string, count: nat, ev: EvalValue, ename: Value, evalue: Value, traceback: seq<Value>)
    ensures Index(ExecuteInputContent(code, count), "code") == Str(code)
    ensures Index(ExecuteInputContent(code, count), "execution_count") == Number(count)
    ensures Index(ExecuteOkContent(count), "status") == Str("ok")
    ensures Index(ExecuteOkContent(count), "execution_count") == Number(count)
    ensures Index(ExecuteResultContent(ev, count), "data") == ev.data
    ensures Index(ExecuteResultContent(ev, count), "metadata") == ev.metadata
    ensures Index(ExecuteResultContent(ev, count), "execution_count") == Number(count)
    ensures Index(ExecuteErrorContent(ename, evalue, traceback, count), "status") == Str("error")
    ensures Index(ExecuteErrorContent(ename, evalue, traceback, count), "ename") == ename
    ensures Index(ExecuteErrorContent(ename, evalue, traceback, count), "evalue") == evalue
    ensures Index(ExecuteErrorContent(ename, evalue, traceback, count), "traceback") == Array(traceback)
    ensures Index(ExecuteErrorContent(ename, evalue, traceback, count), "execution_count") == Number(count)
    ensures Index(ErrorContent(ename, evalue, traceback), "ename") == ename
    ensures Index(ErrorContent(ename, evalue, traceback), "evalue") == evalue
    ensures Index(ErrorContent(ename, evalue, traceback), "traceback") == Array(traceback)
  {
  }

  // ---------------------------------------------------------------------
  // One event of the main loop
  // ---------------------------------------------------------------------

  /** The request an event delivers: `None` for a shutdown, a failed
      receive, or frames that do not decode. */
  function Decoded(env: Env, e: Event): Option<Message> {
    if e.Incoming? && Decode(env.json, e.frames).Ok? then Some(Decode(env.json, e.frames).value) else None
  }

  /** What `run` returns on an event that delivers no request. */
  function StopResult(env: Env, e: Event): Result<(), JuError>
    requires Decoded(env, e).None?
  {
    match e
    case Shutdown => Ok(())
    case RecvFailed(reason) => Err(ZmqError(reason))
    case Incoming(frames) => Err(Decode(env.json, frames).error)
  }

  /** An event ends `run` exactly when it delivers no request; it then
      publishes and sends nothing, and `run` returns `Ok` only on shutdown. */
  lemma HandleStops(env: Env, s: ShellState, e: Event)
    ensures Handle(env, s, e).stop.Some? <==> Decoded(env, e).None?
    ensures Decoded(env, e).None? ==> Handle(env, s, e) == Stepped(s, Some(StopResult(env, e)), None)
    ensures Decoded(env, e).Some? ==> Handle(env, s, e) == Stepped(Bracket(env, s, Decoded(env, e).value), None, Decoded(env, e))
    ensures Handle(env, s, e).stop == Some(Ok(())) <==> e == Shutdown
  {
  }

  /** Every request is bracketed: first a "busy" status derived from it,
      last a fresh "idle" status, and between them only what its dispatch
      sent, none of which is a status. */
  lemma BracketShape(env: Env, s: ShellState, msg: Message)
    ensures |Bracket(env, s, msg).iopub| >= |s.iopub| + 2
    ensures Bracket(env, s, msg).iopub[..|s.iopub|] == s.iopub
    ensures DerivedFrom(Bracket(env, s, msg).iopub[|s.iopub|], msg, STATUS)
    ensures Bracket(env, s, msg).iopub[|s.iopub|].content == ExecutionState("busy")
    ensures IsFresh(Bracket(env, s, msg).iopub[|Bracket(env, s, msg).iopub| - 1])
    ensures IsStatus(Bracket(env, s, msg).iopub[|Bracket(env, s, msg).iopub| - 1])
    ensures Bracket(env, s, msg).iopub[|Bracket(env, s, msg).iopub| - 1].content == ExecutionState("idle")
    ensures NoStatus(Bracket(env, s, msg).iopub[|s.iopub| + 1..|Bracket(env, s, msg).iopub| - 1])
  {
    var o := Opened(env, s, msg);
    var d := Dispatch(env, o, msg).state;
    OpenedShape(env, s, msg);
    DispatchAppends(env, o, msg);
    ClosedShape(env, d);
    BracketLog(s.iopub, o.iopub[|s.iopub|], d.iopub, Closed(env, d).iopub[|d.iopub|]);
  }

  lemma OpenedShape(env: Env, s: ShellState, msg: Message)
    ensures Opened(env, s, msg).iopub == s.iopub + [Opened(env, s, msg).iopub[|s.iopub|]]
    ensures DerivedFrom(Opened(env, s, msg).iopub[|s.iopub|], msg, STATUS)
    ensures Opened(env, s, msg).iopub[|s.iopub|].content == ExecutionState("busy")
    ensures Opened(env, s, msg).executionCount == s.executionCount && Opened(env, s, msg).shell == s.shell
  {
    DerivedShape(env, msg, s.issued, ExecutionState("busy"), STATUS);
  }

  lemma ClosedShape(env: Env, d: ShellState)
    ensures Closed(env, d).iopub == d.iopub + [Closed(env, d).iopub[|d.iopub|]]
    ensures IsFresh(Closed(env, d).iopub[|d.iopub|]) && IsStatus(Closed(env, d).iopub[|d.iopub|])
    ensures Closed(env, d).iopub[|d.iopub|].content == ExecutionState("idle")
    ensures Closed(env, d).executionCount == d.executionCount && Closed(env, d).shell == d.shell
  {
    NewMessageShape(env.sid, STATUS, env.clock(d.issued));
  }

  /** The log of a bracket: `before`, the opening message, what was added
      without a status, the closing message. */
  lemma BracketLog(before: seq<Message>, open: Message, log: seq<Message>, close: Message)
    requires GrowsWithoutStatus(before + [open], log)
    ensures |log + [close]| >= |before| + 2
    ensures (log + [close])[..|before|] == before
    ensures (log + [close])[|before|] == open
    ensures (log + [close])[|log + [close]| - 1] == close
    ensures (log + [close])[|before| + 1..|log + [close]| - 1] == log[|before| + 1..]
    ensures StatusStates(log + [close]) == StatusStates(before) + StatusStates([open]) + StatusStates([close])
  {
    var middle := log[|before| + 1..];
    assert log == before + [open] + middle by {
      assert log[..|before| + 1] == before + [open];
    }
    assert (log + [close])[..|before|] == before;
    StatusStatesNone(middle);
    StatusStatesAppend(before + [open] + middle, [close]);
    StatusStatesAppend(before + [open], middle);
    StatusStatesAppend(before, [open]);
    assert before + [open] + middle + [] == before + [open] + middle;
  }

  /** The bracket counts the request as its dispatch does and only appends. */
  lemma BracketCount(env: Env, s: ShellState, msg: Message)
    ensures Bracket(env, s, msg).executionCount ==
      s.executionCount + (if MsgType(msg) == Str(EXECUTE_REQUEST) then 1 else 0)
    ensures |s.shell| <= |Bracket(env, s, msg).shell| <= |s.shell| + 1
    ensures Bracket(env, s, msg).shell[..|s.shell|] == s.shell
  {
    var o := Opened(env, s, msg);
    OpenedShape(env, s, msg);
    DispatchCount(env, o, msg);
    DispatchAppends(env, o, msg);
    ClosedShape(env, Dispatch(env, o, msg).state);
  }

  // ---------------------------------------------------------------------
  // Status notifications over a whole run
  // ---------------------------------------------------------------------

  /** The `execution_state` of each status notification in `log`, in order. */
  function StatusStates(log: seq<Message>): seq<Value>
    decreases |log|
  {
    if log == [] then []
    else
      var last := log[|log| - 1];
      StatusStates(log[..|log| - 1]) + (if IsStatus(last) then [Index(last.content, "execution_state")] else [])
  }

  lemma StatusStatesSingle(m: Message)
    ensures StatusStates([m]) == if IsStatus(m) then [Index(m.content, "execution_state")] else []
  {
    assert [m][..0] == [];
  }

  /** "busy" then "idle", once per handled request. */
  function BusyIdle(n: nat): seq<Value> {
    if n == 0 then [] else BusyIdle(n - 1) + [Str("busy"), Str("idle")]
  }

  lemma {:induction false} StatusStatesAppend(a: seq<Message>, b: seq<Message>)
    ensures StatusStates(a + b) == StatusStates(a) + StatusStates(b)
    decreases |b|
  {
    if b == [] {
      assert a + b == a;
    } else {
      var b' := b[..|b| - 1];
      assert (a + b)[..|a + b| - 1] == a + b';
      StatusStatesAppend(a, b');
    }
  }

  lemma {:induction false} StatusStatesNone(ms: seq<Message>)
    requires NoStatus(ms)
    ensures StatusStates(ms) == []
    decreases |ms|
  {
    if ms != [] {
      StatusStatesNone(ms[..|ms| - 1]);
    }
  }

  /** Within the bracket of one request, the status notifications are exactly
      "busy" then "idle". */
  lemma BracketStatuses(env: Env, s: ShellState, msg: Message)
    ensures StatusStates(Bracket(env, s, msg).iopub) == StatusStates(s.iopub) + [Str("busy"), Str("idle")]
  {
    DispatchAppends(env, Opened(env, s, msg), msg);
    BetweenStatuses(env, s, msg, Dispatch(env, Opened(env, s, msg), msg).state);
  }

  /** Whatever is added between opening and closing without a status. */
  lemma BetweenStatuses(env: Env, s: ShellState, msg: Message, d: ShellState)
    requires GrowsWithoutStatus(Opened(env, s, msg).iopub, d.iopub)
    ensures StatusStates(Closed(env, d).iopub) == StatusStates(s.iopub) + [Str("busy"), Str("idle")]
  {
    var o := Opened(env, s, msg);
    OpenedShape(env, s, msg);
    ClosedShape(env, d);
    var open := o.iopub[|s.iopub|];
    var close := Closed(env, d).iopub[|d.iopub|];
    BracketLog(s.iopub, open, d.iopub, close);
    StatusStatesSingle(open);
    StatusStatesSingle(close);
    IdleBusyValues();
  }

  lemma IdleBusyValues()
    ensures Index(ExecutionState("busy"), "execution_state") == Str("busy")
    ensures Index(ExecutionState("idle"), "execution_state") == Str("idle")
    ensures Index(ExecutionState("starting"), "execution_state") == Str("starting")
  {
  }

  /** The number of `execute_request`s among `ms`. */
  function Executes(ms: seq<Message>): nat {
    if ms == [] then 0
    else (if MsgType(ms[0]) == Str(EXECUTE_REQUEST) then 1 else 0) + Executes(ms[1..])
  }

  /** A pass of `step` that makes `run` return handles no request. */
  ghost predicate StopsUnhandled(step: (ShellState, Event) -> Stepped) {
    forall t: ShellState, e: Event :: step(t, e).stop.Some? ==> step(t, e).request.None?
  }

  /** Each pass of `step` counts the request it handles when that is an
      `execute_request`. */
  ghost predicate CountsExecutes(step: (ShellState, Event) -> Stepped) {
    forall t: ShellState, e: Event :: step(t, e).state.executionCount == t.executionCount + Executes(Handled(step(t, e).request))
  }

  /** Each pass of `step` only appends to the shell log. */
  ghost predicate KeepsShell(step: (ShellState, Event) -> Stepped) {
    forall t: ShellState, e: Event :: |t.shell| <= |step(t, e).state.shell| && step(t, e).state.shell[..|t.shell|] == t.shell
  }

  /** Each pass of `step` adds one "busy", "idle" pair per request it handles. */
  ghost predicate PairsStatuses(step: (ShellState, Event) -> Stepped) {
    forall t: ShellState, e: Event :: StatusStates(step(t, e).state.iopub) == StatusStates(t.iopub) + BusyIdle(|Handled(step(t, e).request)|)
  }

  /** Each pass of `step` handles the request the event delivers, and stops,
      with `StopResult`, exactly when there is none. */
  ghost predicate Delivers(env: Env, step: (ShellState, Event) -> Stepped) {
    forall t: ShellState, e: Event ::
      && (step(t, e).stop.Some? <==> Decoded(env, e).None?)
      && (step(t, e).stop.None? ==> step(t, e).request == Decoded(env, e))
      && (step(t, e).stop.Some? ==> step(t, e).stop.value == StopResult(env, e))
  }

  /** A pass of the processor's loop counts the handled request when it is
      an `execute_request`. */
  lemma HandleCount(env: Env)
    ensures CountsExecutes(HandleOf(env))
  {
    forall t: ShellState, e: Event
      ensures Handle(env, t, e).state.executionCount == t.executionCount + Executes(Handled(Handle(env, t, e).request))
    {
      HandleStops(env, t, e);
      if Decoded(env, e).Some? {
        var msg := Decoded(env, e).value;
        BracketCount(env, t, msg);
        assert [msg][1..] == [];
      }
    }
  }

  /** A pass of the processor's loop only appends to the shell log. */
  lemma HandleShell(env: Env)
    ensures KeepsShell(HandleOf(env))
  {
    forall t: ShellState, e: Event
      ensures |t.shell| <= |Handle(env, t, e).state.shell| && Handle(env, t, e).state.shell[..|t.shell|] == t.shell
    {
      HandleStops(env, t, e);
      if Decoded(env, e).Some? {
        BracketCount(env, t, Decoded(env, e).value);
      } else {
        assert t.shell[..|t.shell|] == t.shell;
      }
    }
  }

  /** A pass of the processor's loop adds a "busy", "idle" pair per handled
      request. */
  lemma HandleStatuses(env: Env)
    ensures PairsStatuses(HandleOf(env))
  {
    forall t: ShellState, e: Event
      ensures StatusStates(Handle(env, t, e).state.iopub) == StatusStates(t.iopub) + BusyIdle(|Handled(Handle(env, t, e).request)|)
    {
      HandleStops(env, t, e);
      if Decoded(env, e).Some? {
        BracketStatuses(env, t, Decoded(env, e).value);
      }
    }
  }

  /** A pass of the processor's loop that makes `run` return handles no
      request. */
  lemma HandleStopsUnhandled(env: Env)
    ensures StopsUnhandled(HandleOf(env))
  {
    forall t: ShellState, e: Event
      ensures Handle(env, t, e).stop.Some? ==> Handle(env, t, e).request.None?
    {
      HandleStops(env, t, e);
    }
  }

  /** A pass of the processor's loop handles what the event delivers. */
  lemma HandleDelivers(env: Env)
    ensures Delivers(env, HandleOf(env))
  {
    forall t: ShellState, e: Event
      ensures && (Handle(env, t, e).stop.Some? <==> Decoded(env, e).None?)
              && (Handle(env, t, e).stop.None? ==> Handle(env, t, e).request == Decoded(env, e))
              && (Handle(env, t, e).stop.Some? ==> Handle(env, t, e).stop.value == StopResult(env, e))
    {
      HandleStops(env, t, e);
    }
  }

  lemma {:induction false} ExecutesAppend(a: seq<Message>, b: seq<Message>)
    ensures Executes(a + b) == Executes(a) + Executes(b)
    decreases |a|
  {
    if a == [] {
      assert a + b == b;
    } else {
      assert (a + b)[1..] == a[1..] + b;
      ExecutesAppend(a[1..], b);
    }
  }

  lemma {:induction false} BusyIdleAppend(m: nat, n: nat)
    ensures BusyIdle(m + n) == BusyIdle(m) + BusyIdle(n)
    decreases n
  {
    if n > 0 {
      BusyIdleAppend(m, n - 1);
    }
  }

  /** Over a loop, the counter grows by exactly the number of handled
      `execute_request`s. */
  lemma {:induction false} LoopCount(step: (ShellState, Event) -> Stepped, s: ShellState, events: seq<Event>)
    requires CountsExecutes(step) && StopsUnhandled(step)
    ensures Loop(step, s, events).state.executionCount == s.executionCount + Executes(Loop(step, s, events).handled)
    decreases |events|
  {
    if events != [] {
      var t := step(s, events[0]);
      LoopFirst(step, s, events, t);
      if t.stop.None? {
        LoopCount(step, t.state, events[1..]);
        ExecutesAppend(Handled(t.request), Loop(step, t.state, events[1..]).handled);
      }
    }
  }

  /** Over a loop, the shell log only grows. */
  lemma {:induction false} LoopShell(step: (ShellState, Event) -> Stepped, s: ShellState, events: seq<Event>)
    requires KeepsShell(step)
    ensures |s.shell| <= |Loop(step, s, events).state.shell|
    ensures Loop(step, s, events).state.shell[..|s.shell|] == s.shell
    decreases |events|
  {
    if events == [] {
      assert s.shell[..|s.shell|] == s.shell;
    } else {
      var t := step(s, events[0]);
      LoopFirst(step, s, events, t);
      if t.stop.None? {
        LoopShell(step, t.state, events[1..]);
        PrefixOfPrefix(s.shell, t.state.shell, Loop(step, t.state, events[1..]).state.shell);
      }
    }
  }

  lemma PrefixOfPrefix(a: seq<Message>, b: seq<Message>, c: seq<Message>)
    requires |a| <= |b| <= |c| && b[..|a|] == a && c[..|b|] == b
    ensures c[..|a|] == a
  {
    assert c[..|a|] == c[..|b|][..|a|];
  }

  /** Over a loop, the status notifications added are one "busy", "idle"
      pair per handled request. */
  lemma {:induction false} LoopStatuses(step: (ShellState, Event) -> Stepped, s: ShellState, events: seq<Event>)
    requires PairsStatuses(step) && StopsUnhandled(step)
    ensures StatusStates(Loop(step, s, events).state.iopub) ==
      StatusStates(s.iopub) + BusyIdle(|Loop(step, s, events).handled|)
    decreases |events|
  {
    if events == [] {
      assert StatusStates(s.iopub) + BusyIdle(0) == StatusStates(s.iopub);
    } else {
      var t := step(s, events[0]);
      LoopFirst(step, s, events, t);
      if t.stop.None? {
        var rest := Loop(step, t.state, events[1..]);
        LoopStatuses(step, t.state, events[1..]);
        ChainPairs(StatusStates(s.iopub), StatusStates(t.state.iopub), StatusStates(rest.state.iopub),
                   |Handled(t.request)|, |rest.handled|);
      } else {
        assert t.request.None?;
      }
    }
  }

  lemma ChainPairs(before: seq<Value>, middle: seq<Value>, after: seq<Value>, m: nat, n: nat)
    requires middle == before + BusyIdle(m) && after == middle + BusyIdle(n)
    ensures after == before + BusyIdle(m + n)
  {
    BusyIdleAppend(m, n);
  }

  /** The loop handles the events it reads in order, each one a decoded
      request. */
  lemma {:induction false} LoopHandled(env: Env, step: (ShellState, Event) -> Stepped, s: ShellState, events: seq<Event>)
    requires Delivers(env, step)
    ensures |Loop(step, s, events).handled| <= |events|
    ensures forall i | 0 <= i < |Loop(step, s, events).handled| ::
      Decoded(env, events[i]) == Some(Loop(step, s, events).handled[i])
    decreases |events|
  {
    if events != [] {
      var t := step(s, events[0]);
      LoopFirst(step, s, events, t);
      if t.stop.None? {
        LoopHandled(env, step, t.state, events[1..]);
        var rest := Loop(step, t.state, events[1..]);
        var r := Loop(step, s, events);
        assert r.handled == [t.request.value] + rest.handled;
        forall i | 0 <= i < |r.handled|
          ensures Decoded(env, events[i]) == Some(r.handled[i])
        {
          if i > 0 {
            assert r.handled[i] == rest.handled[i - 1];
            assert events[i] == events[1..][i - 1];
          }
        }
      }
    }
  }

  /** The loop stops at the first event that delivers no request and
      returns what that event gives; if there is none, it is still
      waiting. */
  lemma {:induction false} LoopStops(env: Env, step: (ShellState, Event) -> Stepped, s: ShellState, events: seq<Event>)
    requires Delivers(env, step)
    ensures Loop(step, s, events).outcome == Waiting <==> |Loop(step, s, events).handled| == |events|
    ensures Loop(step, s, events).outcome.Returned? ==>
      var k := |Loop(step, s, events).handled|;
      k < |events| && Decoded(env, events[k]).None? &&
      Loop(step, s, events).outcome.result == StopResult(env, events[k])
    decreases |events|
  {
    if events != [] {
      var t := step(s, events[0]);
      LoopFirst(step, s, events, t);
      if t.stop.None? {
        LoopStops(env, step, t.state, events[1..]);
        var rest := Loop(step, t.state, events[1..]);
        assert Loop(step, s, events).handled == Handled(t.request) + rest.handled;
        assert |Handled(t.request)| == 1;
        if rest.outcome.Returned? {
          assert events[1 + |rest.handled|] == events[1..][|rest.handled|];
        }
      }
    }
  }

  // ---------------------------------------------------------------------
  // A whole run
  // ---------------------------------------------------------------------

  /** Construction publishes one fresh "starting" status and nothing else. */
  lemma StartedShape(env: Env)
    ensures Started(env).executionCount == 0
    ensures |Started(env).iopub| == 1 && Started(env).shell == []
    ensures IsFresh(Started(env).iopub[0]) && IsStatus(Started(env).iopub[0])
    ensures Started(env).iopub[0].content == ExecutionState("starting")
  {
    NewMessageShape(env.sid, STATUS, env.clock(0));
  }

  /** `run` begins with "starting" then "idle" published. */
  lemma StartedStatuses(env: Env)
    ensures StatusStates(Closed(env, Started(env)).iopub) == [Str("starting"), Str("idle")]
  {
    var s := Started(env);
    StartedShape(env);
    ClosedShape(env, s);
    StatusStatesSingle(s.iopub[0]);
    StatusStatesSingle(Closed(env, s).iopub[1]);
    StatusStatesAppend(s.iopub, [Closed(env, s).iopub[1]]);
    IdleBusyValues();
    assert s.iopub == [s.iopub[0]];
  }

  /** From construction on, the status notifications are "starting", "idle"
      (when `run` begins), then one "busy", "idle" pair per handled request,
      and the counter equals the number of handled `execute_request`s. */
  lemma RunFromStart(env: Env, events: seq<Event>)
    ensures StatusStates(RunSpec(env, Started(env), events).state.iopub) ==
      [Str("starting"), Str("idle")] + BusyIdle(|RunSpec(env, Started(env), events).handled|)
    ensures RunSpec(env, Started(env), events).state.executionCount == Executes(RunSpec(env, Started(env), events).handled)
  {
    HandleCount(env);
    HandleStatuses(env);
    HandleStopsUnhandled(env);
    LoopCount(HandleOf(env), Closed(env, Started(env)), events);
    LoopStatuses(HandleOf(env), Closed(env, Started(env)), events);
    StartedStatuses(env);
  }

  /** `run` handles the decoded events in the order they arrive, only
      appends to the shell log, and returns at the first event that delivers
      no request, with what that event gives. */
  lemma RunHandles(env: Env, s: ShellState, events: seq<Event>)
    ensures |RunSpec(env, s, events).handled| <= |events|
    ensures forall i | 0 <= i < |RunSpec(env, s, events).handled| ::
      Decoded(env, events[i]) == Some(RunSpec(env, s, events).handled[i])
    ensures RunSpec(env, s, events).outcome == Waiting <==> |RunSpec(env, s, events).handled| == |events|
    ensures RunSpec(env, s, events).outcome.Returned? ==>
      var k := |RunSpec(env, s, events).handled|;
      k < |events| && Decoded(env, events[k]).None? &&
      RunSpec(env, s, events).outcome.result == StopResult(env, events[k])
    ensures |s.shell| <= |RunSpec(env, s, events).state.shell|
    ensures RunSpec(env, s, events).state.shell[..|s.shell|] == s.shell
  {
    HandleDelivers(env);
    HandleShell(env);
    LoopHandled(env, HandleOf(env), Closed(env, s), events);
    LoopStops(env, HandleOf(env), Closed(env, s), events);
    LoopShell(HandleOf(env), Closed(env, s), events);
  }
}
