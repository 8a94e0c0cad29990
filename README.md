# juker, modelled in Dafny

juker is a Jupyter kernel server written in Rust. It speaks the Jupyter
wire protocol (messaging protocol version 5.3) over ZeroMQ sockets. This
project models the sequential core of that server:

- **Wire codec** (`Messages`). A `JuMessage` becomes a multipart frame list:
  - the routing ids;
  - the `<IDS|MSG>` delimiter;
  - the signature;
  - the four serialized JSON documents (header, parent header, metadata,
    content).

  Decoding is the reverse. It scans for the first delimiter, then takes the
  signature and the four documents, and each missing frame has its own
  error.
- **Digester** (`Digesters`). Chooses the signature scheme from the
  connection descriptor: none, or HMAC-SHA256 keyed with the key's bytes.
  It produces either an empty signature or the lowercase hexadecimal MAC of
  the four buffers.
- **Header and message synthesis** (`ServerIds`). Builds:
  - headers;
  - fresh notifications;
  - notifications derived from a request;
  - replies, whose type is the request's type with `_request` rewritten to
    `_reply`.
- **Shell processor** (`ShellProcessors`, `ShellSpec`, `ShellProperties`).
  `JuShellProcessor` is a class. It holds the execution counter and two
  append-only logs, one per socket: what was published on iopub and what was
  sent on shell.
  - Construction publishes "starting".
  - `run` publishes "idle", then handles events one at a time. An event is a
    received multipart message, a failed receive, or the shutdown
    notification.
  - Each request is bracketed by a "busy" status derived from it and a fresh
    "idle" status, and is dispatched on its `msg_type`.

  Each method is proved to have exactly the effect of a function on values
  in `ShellSpec`. The properties of those functions are proved in
  `ShellProperties`. `Loop` takes one pass of the loop as a parameter, and `RunSpec` passes
  `Handle`. The loop lemmas hold for any pass with the per-pass properties
  they name (`CountsExecutes`, `PairsStatuses`, `Delivers`, ...), and the
  `Handle*` lemmas prove that `Handle` has each of them.
- **The application** (`App`).
  - `Eva` is the example kernel.
  - The restart loop starts a new server each time the previous one asks
    for a restart.

**External parts are parameters.** serde_json is a `JsonCodec` parameter
with an abstract `serialize` and `parse`. The round trip assumes
`parse(serialize(v)) == Some(v)` as a hypothesis (`Lawful`), not as an
axiom. HMAC-SHA256 is a `Mac` parameter that returns a 32-byte tag. Fresh
`msg_id`s and dates come from a `clock: nat -> Stamp` parameter: the n-th
header a processor stamps gets `clock(n)`. The session UUID is a parameter
of `NewServerId`.

**Behaviour of the code that the model keeps, where a reader might expect otherwise:**
- A shell message that does not decode ends `run` with the decode error
  (`res?` at `src/shell_processor.rs:73`). The service does not keep
  running.
- `execution_count` is incremented before `code` is checked, so an
  `execute_request` without a string `code` still uses up a count.
- `src/lib.rs:10-29` declares no `UnsupportedMessageType` variant, but
  `src/shell_processor.rs:212` raises one. The model's `JuError` has that
  variant.

## Model

| member | source | states |
|---|---|---|
| Octets.Hex | src/digester.rs:31 | `hex::encode` produces two lowercase hexadecimal digits per byte |
| Octets.UnhexHex | src/digester.rs:31 | the hexadecimal text decodes back to the bytes it encodes, so the encoding loses nothing |
| Octets.HexInjective | src/digester.rs:31 | two byte strings with the same hexadecimal text are equal |
| Octets.Utf8 | src/digester.rs:16 | the key's bytes as `str::as_bytes` gives them: each character becomes its 1 to 4 byte UTF-8 encoding, so the bytes are at least as many as the characters and at most four times as many |
| Digesters.NewDigester | src/digester.rs:12-20 | an empty scheme gives the no-signature digester, and only an empty scheme does; exactly "hmac-sha256" gives HMAC keyed with the key's UTF-8 bytes; any other name fails with `UnknownDigest` carrying that name unchanged |
| Digesters.Digest | src/digester.rs:22-36 | without a scheme the signature is empty; with HMAC it is 64 lowercase hexadecimal digits that decode to the MAC of d1, d2, d3, d4 fed in that order; it depends on the key and the buffers only |
| Messages.WithContent | src/message.rs:42-45 | the content is replaced and ids, header, parent header and metadata are unchanged |
| Messages.Encoded | src/message.rs:47-67 | the frames `to_zmq_message` builds, as a value: the routing ids in order, the delimiter, the signature over the four serialized documents, then header, parent header, metadata and content; `ToZmqMessage` and `RoundTrip` state its properties |
| Messages.ToZmqMessage | src/message.rs:47-67 | the in-place frame building yields \|ids\|+6 frames: the ids in their original order, the delimiter, the signature over the four serialized documents, then header, parent header, metadata and content |
| Messages.FirstDelimiter | src/message.rs:98-107 | the scan stops at the first frame equal to the delimiter; no earlier frame is one; `None` means no frame is one |
| Messages.TryFrom | src/message.rs:95-144 | the single-iterator decoder gives exactly the result of the decoding function `Decode` for every frame list |
| Messages.Decode | src/message.rs:95-144 | the decoding specification: no delimiter fails with "no delimiter found"; otherwise the frames before the first delimiter are the ids and the rest is decoded by `DecodeParts`; the `Decode*` lemmas state its properties |
| Messages.DecodeParts | src/message.rs:110-143 | after the delimiter: no frame fails with "no signature"; the signature frame is skipped unread; the next four frames are parsed as header, parent header, metadata and content in that order, each absent frame with its own error and the first parse error stopping decoding |
| Messages.NextDocument | src/message.rs:117-135 | the next frame is parsed as a document and the iterator advances; with no frame left it gives that part's `MalformedMessage` error |
| Messages.DecodeNoDelimiter | src/message.rs:98-108 | decoding fails with "no delimiter found" exactly when no frame is the delimiter |
| Messages.DecodeSucceeds | src/message.rs:98-143 | decoding succeeds exactly when at least five frames follow the first delimiter and the four document frames parse; the ids are then the frames before that delimiter, none of them a delimiter, and the documents are the parsed frames |
| Messages.DecodeMissingPart | src/message.rs:110-135 | when frames run out after the delimiter, the first absent part is named: no signature, no header, no parent header, no metadata, no content, in that order |
| Messages.DecodeBadDocument | src/message.rs:117-135 | the first document frame that is not JSON stops decoding with a JSON error |
| Messages.DecodeIgnoresSignature | src/message.rs:110-115 | the signature is never checked: any bytes in its place decode the same |
| Messages.DecodeIgnoresTrailing | src/message.rs:132-143 | frames after the content are ignored |
| Messages.RoundTrip | src/message.rs:47-66 | with a serde_json that parses what it serializes, decoding an encoded message gives it back exactly when none of its routing ids equals the delimiter |
| ServerIds.NewServerId | src/server_id.rs:13-20 | construction fails exactly when the digester cannot be built, with its error; otherwise it holds the session id and that digester |
| ServerIds.NewHeader | src/server_id.rs:22-31 | the header of a new message: a fresh msg_id and date from the stamp, username "kernel", the server's session, the given msg_type and version "5.3"; `HeaderFields` states it |
| ServerIds.NewMessage | src/server_id.rs:33-41 | an unsolicited notification: no routing ids, a new header, and `{}` parent header, metadata and content; `NewMessageShape` states it |
| ServerIds.NewDerivedMessage | src/server_id.rs:43-53 | a notification caused by a trigger: no routing ids, a new header, the trigger's header as parent, `{}` metadata and content; `DerivedMessageShape` states it |
| ServerIds.NewReplyMessage | src/server_id.rs:55-71 | the reply to a trigger: its routing ids, a new header whose type is the trigger's string type ("" if none) with `_request` replaced by `_reply`, its header as parent, `{}` metadata and content; `ReplyMessageShape` states it |
| ServerIds.ReplyType | src/server_id.rs:56-61 | `str::replace("_request", "_reply")`: scanning left to right, each occurrence becomes `_reply` and the scan resumes after it; the `ReplyType*` lemmas state its properties |
| ServerIds.HeaderFields | src/server_id.rs:22-31 | a header has exactly msg_id, username "kernel", the server's session, the given msg_type, version "5.3" and date |
| ServerIds.NewMessageShape | src/server_id.rs:33-41 | a fresh notification has no routing ids and `{}` parent header, metadata and content |
| ServerIds.DerivedMessageShape | src/server_id.rs:43-53 | a derived notification's parent header is the trigger's header, no routing ids are copied, and metadata and content are `{}` |
| ServerIds.ReplyMessageShape | src/server_id.rs:55-71 | a reply copies the trigger's routing ids, its parent is the trigger's header, its type is the trigger's type with `_request` replaced, and it is "" when the trigger has no string type |
| ServerIds.SessionShared | src/server_id.rs:17-26 | every notification, derived notification and reply of one server carries that server's session id |
| ServerIds.ReplyTypeUnchanged | src/server_id.rs:56-61 | the replacement leaves a type unchanged exactly when `_request` does not occur in it |
| ServerIds.ReplyTypeFirstOccurrence | src/server_id.rs:56-61 | the first occurrence becomes `_reply` and the replacement resumes right after it, so every non-overlapping occurrence is replaced from left to right |
| ServerIds.ReplyTypeLength | src/server_id.rs:56-61 | the replacement never lengthens a type, and it shortens the type whenever `_request` occurs in it |
| ServerIds.ReplyTypeOfRequest | src/server_id.rs:56-61 | the reply to `<name>_request` is `<name>_reply` when `_request` does not occur in the name |
| ServerIds.ShellReplyTypes | src/server_id.rs:56-61 | execute, kernel_info and is_complete requests get execute, kernel_info and is_complete replies |
| ServerIds.ExecuteReplyType | src/server_id.rs:55-62 | the reply to an `execute_request` is an `execute_reply` |
| ShellProcessors.ShellProcessor.constructor | src/shell_processor.rs:19-44 | the counter starts at zero and one fresh "starting" status is published |
| ShellProcessors.ShellProcessor.NextStamp | src/server_id.rs:24-29 | the fresh msg_id and date of each new header are the next ones the clock gives, and nothing else changes |
| ShellProcessors.ShellProcessor.SendPub | src/shell_processor.rs:46-49 | a send appends to the iopub log and changes nothing else |
| ShellProcessors.ShellProcessor.SendShell | src/shell_processor.rs:51-54 | a send appends to the shell log and changes nothing else |
| ShellProcessors.ShellProcessor.ProcessShellMsg | src/shell_processor.rs:107-218 | the new counter, logs and result are those of the dispatch specification `Dispatch` |
| ShellProcessors.ShellProcessor.SendReply | src/shell_processor.rs:129-132 | a reply to the request with the given content, on the next fresh stamp, is appended to the shell log, as `Replied` states |
| ShellProcessors.ShellProcessor.CountExecution | src/shell_processor.rs:134 | the counter grows by one and nothing else changes |
| ShellProcessors.ShellProcessor.ExecuteRequest | src/shell_processor.rs:133-208 | the `execute_request` arm has the effect of `Execute`: it counts first, then refuses non-string code or evaluates it |
| ShellProcessors.ShellProcessor.Evaluate | src/shell_processor.rs:145-207 | the echo, the evaluation and the report have the effect of `Evaluated` |
| ShellProcessors.ShellProcessor.PublishResults | src/shell_processor.rs:168-178 | the loop publishes one `execute_result` per value, in order, each on its own fresh stamp, all with the same count |
| ShellProcessors.ShellProcessor.PublishResult | src/shell_processor.rs:169-177 | one value is published as an `execute_result` on the next fresh stamp, and nothing else changes |
| ShellProcessors.ShellProcessor.Open | src/shell_processor.rs:78-85 | a "busy" status derived from the request is published on the next fresh stamp, as `Opened` states |
| ShellProcessors.ShellProcessor.Close | src/shell_processor.rs:94-101 | a fresh "idle" status is published on the next fresh stamp, as `Closed` states |
| ShellProcessors.ShellProcessor.Process | src/shell_processor.rs:78-101 | a request is bracketed: "busy", dispatch, then "idle", as `Bracket` states |
| ShellProcessors.ShellProcessor.Step | src/shell_processor.rs:67-102 | one pass of the loop has the effect of `Handle` |
| ShellProcessors.ShellProcessor.Serve | src/shell_processor.rs:66-104 | the loop over the events has exactly the effect of `Loop` with `Handle` as its pass: the final state, the outcome and the requests handled |
| ShellProcessors.ShellProcessor.Run | src/shell_processor.rs:56-105 | `run` publishes "idle", then loops over the events exactly as `RunSpec`: the final state, the outcome and the requests handled |
| ShellProperties.DispatchAppends | src/shell_processor.rs:107-218 | dispatch only appends: no status on iopub, at most one shell reply, and one fresh stamp per message sent |
| ShellSpec.Started | src/shell_processor.rs:19-44 | the state after construction: counter zero, one stamp used, one fresh "starting" status on iopub, nothing on shell; `StartedShape` states it |
| ShellSpec.Dispatch | src/shell_processor.rs:107-218 | `process_shell_msg` on states: a kernel-info or is-complete reply, the `execute_request` arm `Execute`, or `UnsupportedMessageType` with nothing changed; the `Dispatch*` lemmas state its properties |
| ShellSpec.Execute | src/shell_processor.rs:133-208 | the `execute_request` arm: count first, then fail with `NoCode` and send nothing when `code` is not a string, otherwise `Evaluated` |
| ShellSpec.Evaluated | src/shell_processor.rs:145-207 | echo the code as `execute_input`, evaluate it, reply "ok" and publish one `execute_result` per value, or reply "error" and publish one `error` notification; each message on the next fresh stamp |
| ShellSpec.Opened | src/shell_processor.rs:78-85 | the "busy" status derived from the request, on the next fresh stamp |
| ShellSpec.Closed | src/shell_processor.rs:94-101 | a fresh "idle" status, on the next fresh stamp |
| ShellSpec.Bracket | src/shell_processor.rs:78-101 | "busy", then `Dispatch`, whose result is dropped, then "idle"; the `Bracket*` lemmas state its properties |
| ShellSpec.Handle | src/shell_processor.rs:67-102 | one pass on an event: shutdown stops with `Ok`, a failed receive or an undecodable message stops with its error, a decoded request is bracketed and handled; the `Handle*` lemmas state its properties |
| ShellSpec.Loop | src/shell_processor.rs:66-104 | the loop: apply the pass to the events in order, collecting the handled requests, until a pass stops; when the events run out it is still waiting; the `Loop*` lemmas state its properties |
| ShellSpec.RunSpec | src/shell_processor.rs:56-105 | `run`: a fresh "idle" status, then `Loop` with `Handle` as its pass; `RunHandles` and `RunFromStart` state its properties |
| ShellProperties.DispatchCount | src/shell_processor.rs:133-134 | the counter grows by one exactly for `execute_request`, whether or not `code` is valid |
| ShellProperties.DispatchFails | src/shell_processor.rs:136-143 | dispatch fails exactly for an unsupported type or for an `execute_request` without string `code` |
| ShellProperties.DispatchNoCode | src/shell_processor.rs:134-143 | an `execute_request` without string `code` counts, fails with `NoCode`, and sends nothing |
| ShellProperties.DispatchUnsupported | src/shell_processor.rs:209-214 | any other type fails with `UnsupportedMessageType` carrying that type, changes nothing, and sends nothing |
| ShellProperties.DispatchKernelInfo | src/shell_processor.rs:108-127 | `kernel_info_request` sends exactly one `kernel_info_reply` to the request, carrying the kernel-info content, and publishes nothing |
| ShellProperties.KernelInfoFields | src/shell_processor.rs:111-126 | the kernel-info content has protocol_version "5.3", implementation "juker", the kernel's language fields and banner, and its help links in order |
| ShellProperties.DispatchIsComplete | src/shell_processor.rs:128-132 | `is_complete_request` sends exactly one `is_complete_reply` to the request, whose content is exactly `{"status": "unknown"}`, publishes nothing and leaves the counter unchanged |
| ShellProperties.DispatchExecuteEcho | src/shell_processor.rs:145-152 | for string `code`: the counter grows by one, the first thing published is an `execute_input` derived from the request and holding the code and the new count, and exactly one `execute_reply` is sent |
| ShellProperties.DispatchExecuteSuccess | src/shell_processor.rs:157-179 | on success the reply is `{status: "ok", execution_count}`, and the echo is followed by exactly one `execute_result` per value, in order, on consecutive stamps, all with the new count |
| ShellProperties.ResultShape | src/shell_processor.rs:169-176 | an `execute_result` is derived from the request and carries the value's data and metadata with the count |
| ShellProperties.DispatchExecuteError | src/shell_processor.rs:180-207 | on error the reply carries status "error", ename, evalue, traceback and the count, and the echo is followed by exactly one `error` notification derived from the request, carrying the same error |
| ShellProperties.ExecuteContentFields | src/shell_processor.rs:148-204 | the fields of the execute_input, reply, execute_result and error contents |
| ShellProperties.HandleStops | src/shell_processor.rs:66-104 | the loop stops exactly on an event that delivers no request: shutdown returns `Ok` and sends nothing further; a failed receive or an undecodable message returns its error; a decoded request is bracketed |
| ShellProperties.BracketShape | src/shell_processor.rs:78-101 | the bracket publishes a "busy" status derived from the request first and a fresh "idle" status last, whatever the dispatch result, with no status between them |
| ShellProperties.BracketCount | src/shell_processor.rs:78-101 | the bracket counts as its dispatch does and only appends to the shell log |
| ShellProperties.BracketStatuses | src/shell_processor.rs:78-101 | within one bracket, the status notifications are exactly "busy" then "idle" |
| ShellProperties.HandleCount | src/shell_processor.rs:66-104 | every pass adds one to the counter exactly when the request it handles is an `execute_request` |
| ShellProperties.HandleShell | src/shell_processor.rs:66-104 | every pass only appends to the shell log |
| ShellProperties.HandleStatuses | src/shell_processor.rs:66-104 | every pass adds one "busy", "idle" pair to the statuses per request it handles, and none otherwise |
| ShellProperties.HandleStopsUnhandled | src/shell_processor.rs:67-73 | a pass that makes `run` return handles no request |
| ShellProperties.HandleDelivers | src/shell_processor.rs:66-104 | every pass handles the request its event decodes to, and stops, with that event's result, exactly when there is none |
| ShellProperties.LoopCount | src/shell_processor.rs:66-104 | over any run of the loop, the counter grows by exactly the number of handled `execute_request`s |
| ShellProperties.LoopShell | src/shell_processor.rs:66-104 | over any run of the loop, the shell log only grows |
| ShellProperties.LoopStatuses | src/shell_processor.rs:66-104 | over any run of the loop, the status notifications grow by one "busy", "idle" pair per handled request |
| ShellProperties.LoopHandled | src/shell_processor.rs:66-104 | the requests handled are the decoded events, in the order they arrived |
| ShellProperties.LoopStops | src/shell_processor.rs:66-104 | the loop stops at the first event that delivers no request and returns what that event gives; when no event does, it is still waiting |
| ShellProperties.StartedShape | src/shell_processor.rs:35-42 | construction publishes one fresh "starting" status and sends nothing on shell |
| ShellProperties.StartedStatuses | src/shell_processor.rs:57-64 | when `run` begins, the statuses so far are "starting" then "idle" |
| ShellProperties.RunFromStart | src/shell_processor.rs:19-105 | from construction on, the statuses are "starting", "idle", then one "busy", "idle" pair per handled request, and the counter equals the number of handled `execute_request`s |
| ShellProperties.RunHandles | src/shell_processor.rs:56-105 | `run` handles the decoded events in the order they arrive, only appends to the shell log, and returns at the first event that delivers no request, with that event's result; when no event does, it is still waiting |
| App.EvaEval | src/main.rs:142-159 | code starting with "err" gives an `Error` with ename "Error", the fixed evalue and a two-line traceback, and only such code does; any other code gives exactly one value, `{"text/plain": "Executed code: " + code}` with `{}` metadata |
| App.EvaKernelInfoReply | src/main.rs:128-140 | served by `Eva`, whose metadata is the constant `EVA_INFO`, the kernel-info reply names language "testing" 0.0.0, mimetype "text/testing", extension ".testing", and exactly one help link |
| App.EvaExecutes | src/main.rs:149-158 | served by `Eva`, code not starting with "err" gets an "ok" reply with the new count, and exactly one `execute_result` echoing the code |
| App.EvaFails | src/main.rs:143-148 | served by `Eva`, code starting with "err" gets an error reply with ename "Error" and the new count, and an `error` notification with the fixed evalue and a two-line traceback |
| App.Restarts | src/main.rs:51-68 | the number of servers that asked for a restart before the first outcome that does not; `RestartsPrefix` and `RestartsUnique` characterise it |
| App.RestartsPrefix | src/main.rs:51-68 | the restart count covers exactly the leading `Ok(true)` outcomes |
| App.RestartsUnique | src/main.rs:51-68 | no other count has that shape |
| App.RestartLoop | src/main.rs:51-68 | the loop starts 1 + (number of leading `Ok(true)` outcomes) servers, and it stops exactly when some outcome is `Ok(false)` or an error |

## Left out

- Sockets and transport (`src/sockets.rs`). They are not part of this
  model. A send is an append to a per-socket log. A receive is an `Event`:
  a frame list, a failed receive, or shutdown.
- The relative order of sends across the two sockets. It is recorded only
  through the stamps, since each log holds one socket's messages.
- Send failures. They are not modelled: every `send_pub` and `send_shell`
  succeeds. In the code, a failed send aborts `process_shell_msg` or `run`
  through `?`.
- The wire encoding at send time. The logs hold messages, not the frames
  `ToZmqMessage` would produce for them.
- ShellProperties.DispatchCount: `execution_count` is a `u32` in the code.
  The model uses an unbounded counter and does not model overflow after
  2^32 - 1 requests.
- The text of `UnsupportedMessageType`: the model's error carries the `msg_type` JSON
  value itself, not serde_json's text rendering of it.
- The `select!` race between the shutdown notification and an incoming
  request (`src/shell_processor.rs:67-72`). Concurrency is not modelled:
  shutdown is one kind of event in the sequence.
- The `Debug` rendering of messages (`src/message.rs:70-90`). It is
  formatting used only for logs.
- `MsgSource` (`src/message.rs:24-31`). It is declared but never used.
- serde_json serialization and parsing. They are the abstract `JsonCodec`.
- Floating-point JSON numbers. `Json.Value` has integer numbers only, while
  a serde_json `Value` can also hold floats. The core never writes one, but
  a request's documents or a kernel's values could carry one.
- The kernel's own state between evaluations. `JuKernel::eval_code`
  (`src/api.rs:6`) takes `&mut self`, but the model's `Kernel.eval` is a
  function of the code alone. So the model fixes that evaluating the same
  code twice gives the same result, which a stateful kernel need not do.
  `Eva` keeps no state between evaluations (`src/main.rs:142-159`), so
  `App` models it exactly.
- HMAC-SHA256 internals. They are the abstract `Mac`.
- UUID generation and the clock. They are the `clock` and session-id
  parameters.
- Logging and the tracing subscriber.
- `JuServer::start`, called at `src/main.rs:53`. No file of the source
  defines it, so it is not part of this model; the outcomes it returns are
  the input of `RestartLoop`, and the shutdown and restart handling behind
  them is not modelled. `src/server.rs` holds an older `JuServer::new`
  and `run` with their own `select!` loop and a duplicate dispatch; they
  are not modelled either.
- Command-line parsing and loading the connection file in `src/main.rs`.
  This is I/O.
- App.RestartLoop: `JupyterApplication::run` returns `Ok(())` after the
  loop whatever the last server returned, since the error is only logged.
  The model returns whether the loop stopped, not that value.
- The UDP tracing writer (`tracing-udp`). It is logging.
