/** The per-server identity (session id and digester) and the synthesis of
    headers, notifications and replies. */
module ServerIds {
  import opened Wrappers
  import opened Json
  import opened Lib
  import opened Digesters
  import opened Messages

  /** `JuServerId`: the session id (a UUID, as its text) and the digester. */
  datatype ServerId = ServerId(sessionId: string, digester: Digester)

  /** The two values of a header that are new for every header: `msg_id`
      (a fresh UUID) and `date` (the current time, RFC 3339). Supplied from
      outside, since UUID generation and the clock are not modelled. */
  datatype Stamp = Stamp(msgId: string, date: string)

  const USERNAME := "kernel"
  const PROTOCOL_VERSION := "5.3"
  const REQUEST_SUFFIX := "_request"
  const REPLY_SUFFIX := "_reply"

  /** `JuServerId::new`: fails exactly when the digester cannot be built. */
  function NewServerId(ci: ConnectionInfo, sessionId: string): (r: Result<ServerId, JuError>)
    ensures r.Ok? <==> NewDigester(ci).Ok?
    ensures r.Ok? ==> r.value.sessionId == sessionId && r.value.digester == NewDigester(ci).value
    ensures r.Err? ==> r.error == UnknownDigest(ci.signatureScheme)
  {
    var digester :- NewDigester(ci);
    Ok(ServerId(sessionId, digester))
  }

  /** `new_header`. */
  function NewHeader(sid: ServerId, msgType: string, stamp: Stamp): Value {
    Object(map[
      "msg_id" := Str(stamp.msgId),
      "username" := Str(USERNAME),
      "session" := Str(sid.sessionId),
      "msg_type" := Str(msgType),
      "version" := Str(PROTOCOL_VERSION),
      "date" := Str(stamp.date)])
  }

  /** `new_message`: an unsolicited notification. */
  function NewMessage(sid: ServerId, msgType: string, stamp: Stamp): Message {
    Message([], NewHeader(sid, msgType, stamp), EmptyObject, EmptyObject, EmptyObject)
  }

  /** `new_derived_message`: a notification caused by `trigger`. */
  function NewDerivedMessage(sid: ServerId, trigger: Message, msgType: string, stamp: Stamp): Message {
    Message([], NewHeader(sid, msgType, stamp), trigger.header, EmptyObject, EmptyObject)
  }

  /** `new_reply_message`: the reply to `trigger`, routed back with its ids. */
  function NewReplyMessage(sid: ServerId, trigger: Message, stamp: Stamp): Message {
    var msgType := ReplyType(StrOrEmpty(trigger.header, "msg_type"));
    Message(trigger.zmqIds, NewHeader(sid, msgType, stamp), trigger.header, EmptyObject, EmptyObject)
  }

  /** `str::replace(REQUEST_SUFFIX, REPLY_SUFFIX)`: every non-overlapping
      occurrence, found left to right, is replaced. */
  function ReplyType(s: string): string
    decreases |s|
  {
    if |s| < |REQUEST_SUFFIX| then s
    else if s[..|REQUEST_SUFFIX|] == REQUEST_SUFFIX then REPLY_SUFFIX + ReplyType(s[|REQUEST_SUFFIX|..])
    else [s[0]] + ReplyType(s[1..])
  }

  /** `pat` occurs in `s` starting at `i`. */
  predicate OccursAt(s: string, pat: string, i: nat) {
    i + |pat| <= |s| && s[i..i + |pat|] == pat
  }

  predicate Contains(s: string, pat: string) {
    exists i: nat | i <= |s| :: OccursAt(s, pat, i)
  }

  /** Replacing never lengthens, and shortens whenever there is an occurrence. */
  lemma {:induction false} ReplyTypeLength(s: string)
    ensures |ReplyType(s)| <= |s|
    ensures Contains(s, REQUEST_SUFFIX) ==> |ReplyType(s)| < |s|
    decreases |s|
  {
    var n := |REQUEST_SUFFIX|;
    if |s| < n {
      assert !Contains(s, REQUEST_SUFFIX);
    } else if s[..n] == REQUEST_SUFFIX {
      ReplyTypeLength(s[n..]);
    } else {
      ReplyTypeLength(s[1..]);
      if Contains(s, REQUEST_SUFFIX) {
        var i: nat :| OccursAt(s, REQUEST_SUFFIX, i);
        assert i != 0;
        OccursShift(s, i - 1);
      }
    }
  }

  /** An occurrence in the tail is an occurrence one place further in `s`. */
  lemma OccursShift(s: string, i: nat)
    requires s != []
    ensures OccursAt(s[1..], REQUEST_SUFFIX, i) <==> OccursAt(s, REQUEST_SUFFIX, i + 1)
  {
    if i + 1 + |REQUEST_SUFFIX| <= |s| {
      assert s[1..][i..i + |REQUEST_SUFFIX|] == s[i + 1..i + 1 + |REQUEST_SUFFIX|];
    }
  }

  /** A string free of `_request` has a tail free of it. */
  lemma NotContainsTail(s: string)
    requires s != [] && !Contains(s, REQUEST_SUFFIX)
    ensures !Contains(s[1..], REQUEST_SUFFIX)
  {
    if Contains(s[1..], REQUEST_SUFFIX) {
      var i: nat :| OccursAt(s[1..], REQUEST_SUFFIX, i);
      OccursShift(s, i);
    }
  }

  /** A type is left as it is exactly when `_request` does not occur in it. */
  lemma {:induction false} ReplyTypeUnchanged(s: string)
    ensures ReplyType(s) == s <==> !Contains(s, REQUEST_SUFFIX)
    decreases |s|
  {
    var n := |REQUEST_SUFFIX|;
    ReplyTypeLength(s);
    if !Contains(s, REQUEST_SUFFIX) && |s| >= n {
      assert !OccursAt(s, REQUEST_SUFFIX, 0);
      NotContainsTail(s);
      ReplyTypeUnchanged(s[1..]);
      assert [s[0]] + s[1..] == s;
    }
  }

  /** No occurrence of `_request` starts before the first `_` of an occurrence
      placed after a prefix free of it (the suffix has no border). */
  lemma NoEarlierMatch(a: string, b: string)
    requires !Contains(a, REQUEST_SUFFIX) && a != []
    ensures (a + REQUEST_SUFFIX + b)[..|REQUEST_SUFFIX|] != REQUEST_SUFFIX
  {
    var n := |REQUEST_SUFFIX|;
    var s := a + REQUEST_SUFFIX + b;
    if s[..n] == REQUEST_SUFFIX {
      if |a| >= n {
        assert a[..n] == s[..n];
        assert OccursAt(a, REQUEST_SUFFIX, 0);
      } else {
        assert s[|a|] == REQUEST_SUFFIX[0];
      }
    }
  }

  /** The first occurrence of `_request` becomes `_reply` and the scan resumes
      right after it: the replacement is left to right and complete. */
  lemma {:induction false} ReplyTypeFirstOccurrence(a: string, b: string)
    requires !Contains(a, REQUEST_SUFFIX)
    ensures ReplyType(a + REQUEST_SUFFIX + b) == a + REPLY_SUFFIX + ReplyType(b)
    decreases |a|
  {
    var n := |REQUEST_SUFFIX|;
    var s := a + REQUEST_SUFFIX + b;
    if a == [] {
      assert s[..n] == REQUEST_SUFFIX && s[n..] == b;
    } else {
      NoEarlierMatch(a, b);
      NotContainsTail(a);
      assert s[1..] == a[1..] + REQUEST_SUFFIX + b;
      ReplyTypeFirstOccurrence(a[1..], b);
      assert [a[0]] + a[1..] == a;
    }
  }

  /** The reply to a `<name>_request` is a `<name>_reply`. */
  lemma ReplyTypeOfRequest(name: string)
    requires !Contains(name, REQUEST_SUFFIX)
    ensures ReplyType(name + REQUEST_SUFFIX) == name + REPLY_SUFFIX
  {
    ReplyTypeFirstOccurrence(name, "");
    assert name + REQUEST_SUFFIX + "" == name + REQUEST_SUFFIX;
  }

  /** The reply types of the three requests the shell processor answers. */
  lemma ShellReplyTypes()
    ensures ReplyType("execute_request") == "execute_reply"
    ensures ReplyType("kernel_info_request") == "kernel_info_reply"
    ensures ReplyType("is_complete_request") == "is_complete_reply"
  {
    ExecuteReply();
    KernelInfoReply();
    IsCompleteReply();
  }

  lemma ExecuteReply()
    ensures ReplyType("execute_request") == "execute_reply"
  {
    ReplyTypeOfName("execute", "execute_request", "execute_reply");
  }

  lemma KernelInfoReply()
    ensures ReplyType("kernel_info_request") == "kernel_info_reply"
  {
    ReplyTypeOfName("kernel_info", "kernel_info_request", "kernel_info_reply");
  }

  lemma IsCompleteReply()
    ensures ReplyType("is_complete_request") == "is_complete_reply"
  {
    ReplyTypeOfName("is_complete", "is_complete_request", "is_complete_reply");
  }

  lemma ReplyTypeOfName(name: string, request: string, reply: string)
    requires forall i :: 0 <= i && i + |REQUEST_SUFFIX| <= |name| ==> !(name[i] == '_' && name[i + 1] == 'r')
    requires request == name + REQUEST_SUFFIX && reply == name + REPLY_SUFFIX
    ensures ReplyType(request) == reply
  {
    NotContainsWithout(name);
    ReplyTypeOfRequest(name);
  }

  /** A string in which `_` is never followed by `r` has no `_request`. */
  lemma NotContainsWithout(s: string)
    requires forall i :: 0 <= i && i + |REQUEST_SUFFIX| <= |s| ==> !(s[i] == '_' && s[i + 1] == 'r')
    ensures !Contains(s, REQUEST_SUFFIX)
  {
    if Contains(s, REQUEST_SUFFIX) {
      var i: nat :| OccursAt(s, REQUEST_SUFFIX, i);
      OccursHead(s, i);
    }
  }

  lemma OccursHead(s: string, i: nat)
    requires OccursAt(s, REQUEST_SUFFIX, i)
    ensures s[i] == '_' && s[i + 1] == 'r'
  {
    assert s[i..i + |REQUEST_SUFFIX|][0] == s[i] && s[i..i + |REQUEST_SUFFIX|][1] == s[i + 1];
  }

  /** A header carries the fixed username and protocol version, the server's
      session, the given type and the fresh id and date, and nothing else. */
  lemma HeaderFields(sid: ServerId, msgType: string, stamp: Stamp)
    ensures var h := NewHeader(sid, msgType, stamp);
      && h.Object?
      && h.fields.Keys == {"msg_id", "username", "session", "msg_type", "version", "date"}
      && Index(h, "msg_id") == Str(stamp.msgId)
      && Index(h, "username") == Str("kernel")
      && Index(h, "session") == Str(sid.sessionId)
      && Index(h, "msg_type") == Str(msgType)
      && Index(h, "version") == Str("5.3")
      && Index(h, "date") == Str(stamp.date)
  {
  }

  /** A fresh notification: no routing ids and empty parent header, metadata
      and content. */
  lemma NewMessageShape(sid: ServerId, msgType: string, stamp: Stamp)
    ensures var m := NewMessage(sid, msgType, stamp);
      && m.zmqIds == []
      && Index(m.header, "msg_type") == Str(msgType)
      && m.parentHeader == EmptyObject && m.metadata == EmptyObject && m.content == EmptyObject
  {
  }

  /** A derived notification: its parent header is the trigger's header, and
      the trigger's routing ids are not copied. */
  lemma DerivedMessageShape(sid: ServerId, trigger: Message, msgType: string, stamp: Stamp)
    ensures var m := NewDerivedMessage(sid, trigger, msgType, stamp);
      && m.zmqIds == []
      && m.parentHeader == trigger.header
      && Index(m.header, "msg_type") == Str(msgType)
      && m.metadata == EmptyObject && m.content == EmptyObject
  {
  }

  /** A reply routes back with the trigger's ids, names the trigger's header
      as its parent, and has the trigger's type with `_request` rewritten to
      `_reply`, or the empty type when the trigger has no string type. */
  lemma ReplyMessageShape(sid: ServerId, trigger: Message, stamp: Stamp)
    ensures var m := NewReplyMessage(sid, trigger, stamp);
      && m.zmqIds == trigger.zmqIds
      && m.parentHeader == trigger.header
      && m.metadata == EmptyObject && m.content == EmptyObject
      && (Index(trigger.header, "msg_type").Str? ==>
            Index(m.header, "msg_type") == Str(ReplyType(Index(trigger.header, "msg_type").s)))
      && (!Index(trigger.header, "msg_type").Str? ==> Index(m.header, "msg_type") == Str(""))
  {
  }

  /** The reply to an `execute_request` is an `execute_reply`. */
  lemma ExecuteReplyType(sid: ServerId, trigger: Message, stamp: Stamp)
    requires Index(trigger.header, "msg_type") == Str("execute_request")
    ensures Index(NewReplyMessage(sid, trigger, stamp).header, "msg_type") == Str("execute_reply")
  {
    ShellReplyTypes();
  }

  /** Every header a server builds, for any kind of message, carries that
      server's session id. */
  lemma SessionShared(sid: ServerId, trigger: Message, msgType: string, stamp: Stamp, stamp': Stamp)
    ensures Index(NewMessage(sid, msgType, stamp).header, "session") == Str(sid.sessionId)
    ensures Index(NewDerivedMessage(sid, trigger, msgType, stamp).header, "session") == Str(sid.sessionId)
    ensures Index(NewReplyMessage(sid, trigger, stamp').header, "session") == Str(sid.sessionId)
  {
  }
}
