/** The protocol message and its multipart wire form: encoding with the
    signature, and decoding by scanning for the delimiter. */
module Messages {
  import opened Wrappers
  import opened Octets
  import opened Json
  import opened Lib
  import opened Digesters

  /** `JuMessage`: routing ids, then four JSON documents. */
  datatype Message = Message(
    zmqIds: seq<Bytes>,
    header: Value,
    parentHeader: Value,
    metadata: Value,
    content: Value)

  /** One value a kernel produced (`EvalValue`). */
  datatype EvalValue = EvalValue(data: Value, metadata: Value)

  /** What a kernel's evaluation of code gives back (`EvalResult`). */
  datatype EvalResult =
    | Success(results: seq<EvalValue>)
    | Error(ename: Value, evalue: Value, traceback: seq<Value>)

  /** `JuMessage::with_content`: the content is replaced, nothing else changes. */
  function WithContent(m: Message, content: Value): (r: Message)
    ensures r.content == content
    ensures r.zmqIds == m.zmqIds && r.header == m.header
    ensures r.parentHeader == m.parentHeader && r.metadata == m.metadata
  {
    m.(content := content)
  }

  /** The wire frames of `m`: the routing ids in order, the delimiter, the
      signature over the four serialized documents, then the documents. */
  function Encoded(json: JsonCodec, mac: Mac, d: Digester, m: Message): seq<Bytes> {
    var header := json.serialize(m.header);
    var parentHeader := json.serialize(m.parentHeader);
    var metadata := json.serialize(m.metadata);
    var content := json.serialize(m.content);
    m.zmqIds + [DELIMITER, Digest(d, mac, header, parentHeader, metadata, content),
                header, parentHeader, metadata, content]
  }

  /** `JuMessage::to_zmq_message`: start from the delimiter frame, push the ids
      to the front in reverse order, then push the signature and the four
      documents to the back. */
  method ToZmqMessage(json: JsonCodec, mac: Mac, d: Digester, m: Message) returns (frames: seq<Bytes>)
    ensures frames == Encoded(json, mac, d, m)
    ensures |frames| == |m.zmqIds| + 6 && frames[..|m.zmqIds|] == m.zmqIds
    ensures frames[|m.zmqIds|] == DELIMITER
    ensures frames[|m.zmqIds| + 2..] ==
      [json.serialize(m.header), json.serialize(m.parentHeader), json.serialize(m.metadata), json.serialize(m.content)]
    ensures var n := |m.zmqIds|;
      frames[n + 1] == Digest(d, mac, frames[n + 2], frames[n + 3], frames[n + 4], frames[n + 5])
  {
    frames := [DELIMITER];
    var i := |m.zmqIds|;
    while i > 0
      invariant 0 <= i <= |m.zmqIds|
      invariant frames == m.zmqIds[i..] + [DELIMITER]
    {
      i := i - 1;
      frames := [m.zmqIds[i]] + frames;
    }
    var header := json.serialize(m.header);
    var parentHeader := json.serialize(m.parentHeader);
    var metadata := json.serialize(m.metadata);
    var content := json.serialize(m.content);
    var hmac := Digest(d, mac, header, parentHeader, metadata, content);
    frames := frames + [hmac];
    frames := frames + [header];
    frames := frames + [parentHeader];
    frames := frames + [metadata];
    frames := frames + [content];
  }

  /** The position of the first frame equal to the delimiter, if any. */
  function FirstDelimiter(frames: seq<Bytes>): (k: Option<nat>)
    ensures k.Some? ==> k.value < |frames| && frames[k.value] == DELIMITER
    ensures k.Some? ==> forall j :: 0 <= j < k.value ==> frames[j] != DELIMITER
    ensures k.None? ==> forall j :: 0 <= j < |frames| ==> frames[j] != DELIMITER
  {
    if frames == [] then None
    else if frames[0] == DELIMITER then Some(0)
    else match FirstDelimiter(frames[1..])
      case None => None
      case Some(k) => Some(k + 1)
  }

  /** The document in `rest[i]`, parsed, or the error for its absence. */
  function Document(json: JsonCodec, rest: seq<Bytes>, i: nat, missing: string): Result<Value, JuError> {
    if |rest| <= i then Err(MalformedMessage(missing))
    else match json.parse(rest[i])
      case None => Err(JsonError)
      case Some(v) => Ok(v)
  }

  const NO_DELIMITER := "no delimiter found"
  const NO_SIGNATURE := "no signature"
  const NO_HEADER := "no header"
  const NO_PARENT_HEADER := "no parent header"
  const NO_METADATA := "no metadata"
  const NO_CONTENT := "no content"

  /** `TryFrom<ZmqMessage> for JuMessage`, as a specification: the frames
      before the first delimiter are the routing ids; after it come the
      signature (read, never checked) and the four documents, each absent frame
      with its own error, each document parsed in turn. Frames after the
      content are ignored. */
  function Decode(json: JsonCodec, frames: seq<Bytes>): Result<Message, JuError> {
    match FirstDelimiter(frames)
    case None => Err(MalformedMessage(NO_DELIMITER))
    case Some(k) => DecodeParts(json, frames[..k], frames[k + 1..])
  }

  /** The part of decoding after the delimiter, on the frames that follow it. */
  function DecodeParts(json: JsonCodec, ids: seq<Bytes>, rest: seq<Bytes>): Result<Message, JuError> {
    if rest == [] then Err(MalformedMessage(NO_SIGNATURE))
    else
      var header :- Document(json, rest, 1, NO_HEADER);
      var parentHeader :- Document(json, rest, 2, NO_PARENT_HEADER);
      var metadata :- Document(json, rest, 3, NO_METADATA);
      var content :- Document(json, rest, 4, NO_CONTENT);
      Ok(Message(ids, header, parentHeader, metadata, content))
  }

  /** Reads the next frame as a document, advancing the iterator position. */
  method NextDocument(json: JsonCodec, frames: seq<Bytes>, pos: nat, missing: string)
    returns (r: Result<Value, JuError>, next: nat)
    requires pos <= |frames|
    ensures next == if pos < |frames| then pos + 1 else pos
    ensures r == Document(json, frames[pos..], 0, missing)
  {
    if pos == |frames| {
      return Err(MalformedMessage(missing)), pos;
    }
    var parsed := json.parse(frames[pos]);
    next := pos + 1;
    if parsed.None? {
      r := Err(JsonError);
    } else {
      r := Ok(parsed.value);
    }
  }

  /** `JuMessage::try_from`: one iterator over the frames, first folded into
      the routing ids up to the delimiter, then advanced one frame per part. */
  method TryFrom(json: JsonCodec, frames: seq<Bytes>) returns (r: Result<Message, JuError>)
    ensures r == Decode(json, frames)
  {
    var ids: seq<Bytes> := [];
    var pos := 0;
    var found := false;
    while pos < |frames| && !found
      invariant 0 <= pos <= |frames|
      invariant !found ==> ids == frames[..pos] && forall j :: 0 <= j < pos ==> frames[j] != DELIMITER
      invariant found ==> 0 < pos && FirstDelimiter(frames) == Some(pos - 1) && ids == frames[..pos - 1]
    {
      if frames[pos] == DELIMITER {
        found := true;
        FirstDelimiterAt(frames, pos);
      } else {
        ids := ids + [frames[pos]];
      }
      pos := pos + 1;
    }
    if !found {
      return Err(MalformedMessage(NO_DELIMITER));
    }
    ghost var rest := frames[pos..];
    if pos == |frames| {
      return Err(MalformedMessage(NO_SIGNATURE));
    }
    var sig := frames[pos];
    pos := pos + 1;
    assert frames[pos..] == rest[1..];
    var header, parentHeader, metadata, content;
    header, pos := NextDocument(json, frames, pos, NO_HEADER);
    if header.Err? {
      return Err(header.error);
    }
    assert frames[pos..] == rest[2..];
    parentHeader, pos := NextDocument(json, frames, pos, NO_PARENT_HEADER);
    if parentHeader.Err? {
      return Err(parentHeader.error);
    }
    assert frames[pos..] == rest[3..];
    metadata, pos := NextDocument(json, frames, pos, NO_METADATA);
    if metadata.Err? {
      return Err(metadata.error);
    }
    assert frames[pos..] == rest[4..];
    content, pos := NextDocument(json, frames, pos, NO_CONTENT);
    if content.Err? {
      return Err(content.error);
    }
    r := Ok(Message(ids, header.value, parentHeader.value, metadata.value, content.value));
  }

  /** A frame equal to the delimiter with none before it is the first one. */
  lemma FirstDelimiterAt(frames: seq<Bytes>, k: nat)
    requires k < |frames| && frames[k] == DELIMITER
    requires forall j :: 0 <= j < k ==> frames[j] != DELIMITER
    ensures FirstDelimiter(frames) == Some(k)
  {
  }

  /** The error for each part that can be missing after the delimiter, in the
      order the decoder asks for them. */
  const MISSING_PARTS: seq<string> := [NO_SIGNATURE, NO_HEADER, NO_PARENT_HEADER, NO_METADATA, NO_CONTENT]

  /** Decoding fails for want of a delimiter exactly when no frame is one. */
  lemma DecodeNoDelimiter(json: JsonCodec, frames: seq<Bytes>)
    ensures Decode(json, frames) == Err(MalformedMessage(NO_DELIMITER))
        <==> forall j :: 0 <= j < |frames| ==> frames[j] != DELIMITER
  {
    var k := FirstDelimiter(frames);
    if k.Some? {
      assert frames[k.value] == DELIMITER;
      assert NO_DELIMITER != NO_SIGNATURE && NO_DELIMITER != NO_HEADER && NO_DELIMITER != NO_PARENT_HEADER;
      assert NO_DELIMITER != NO_METADATA && NO_DELIMITER != NO_CONTENT;
    }
  }

  /** Decoding succeeds exactly when a delimiter is followed by at least five
      frames whose last four parse; then the ids are the frames before the first
      delimiter, none of them a delimiter, and the documents are the parsed frames. */
  lemma DecodeSucceeds(json: JsonCodec, frames: seq<Bytes>, k: nat)
    requires FirstDelimiter(frames) == Some(k)
    ensures Decode(json, frames).Ok? <==>
      k + 6 <= |frames| && forall j :: k + 2 <= j < k + 6 ==> json.parse(frames[j]).Some?
    ensures Decode(json, frames).Ok? ==>
      var m := Decode(json, frames).value;
      && m.zmqIds == frames[..k]
      && (forall i :: 0 <= i < |m.zmqIds| ==> m.zmqIds[i] != DELIMITER)
      && json.parse(frames[k + 2]) == Some(m.header)
      && json.parse(frames[k + 3]) == Some(m.parentHeader)
      && json.parse(frames[k + 4]) == Some(m.metadata)
      && json.parse(frames[k + 5]) == Some(m.content)
  {
    var rest := frames[k + 1..];
    if k + 6 <= |frames| {
      assert rest[1] == frames[k + 2] && rest[2] == frames[k + 3];
      assert rest[3] == frames[k + 4] && rest[4] == frames[k + 5];
    }
  }

  /** When frames are missing after the delimiter and every document present
      parses, decoding names the first missing part. */
  lemma DecodeMissingPart(json: JsonCodec, frames: seq<Bytes>, k: nat)
    requires FirstDelimiter(frames) == Some(k)
    requires |frames| < k + 6
    requires forall j :: k + 2 <= j < |frames| ==> json.parse(frames[j]).Some?
    ensures Decode(json, frames) == Err(MalformedMessage(MISSING_PARTS[|frames| - (k + 1)]))
  {
    DecodeAt(json, frames, k);
    PartsMissing(json, frames, k);
  }

  /** Decoding after the first delimiter at `k`. */
  lemma DecodeAt(json: JsonCodec, frames: seq<Bytes>, k: nat)
    requires FirstDelimiter(frames) == Some(k)
    ensures Decode(json, frames) == DecodeParts(json, frames[..k], frames[k + 1..])
  {
  }

  lemma PartsMissing(json: JsonCodec, frames: seq<Bytes>, k: nat)
    requires k < |frames| < k + 6
    requires forall j :: k + 2 <= j < |frames| ==> json.parse(frames[j]).Some?
    ensures DecodeParts(json, frames[..k], frames[k + 1..]) == Err(MalformedMessage(MISSING_PARTS[|frames| - (k + 1)]))
  {
    var rest := frames[k + 1..];
    if |rest| >= 2 {
      assert Document(json, rest, 1, NO_HEADER) == Ok(json.parse(frames[k + 2]).value);
    }
    if |rest| >= 3 {
      assert Document(json, rest, 2, NO_PARENT_HEADER) == Ok(json.parse(frames[k + 3]).value);
    }
    if |rest| >= 4 {
      assert Document(json, rest, 3, NO_METADATA) == Ok(json.parse(frames[k + 4]).value);
    }
  }

  /** The first document frame that does not parse stops decoding with a JSON
      error, whatever follows it. */
  lemma DecodeBadDocument(json: JsonCodec, frames: seq<Bytes>, k: nat, j: nat)
    requires FirstDelimiter(frames) == Some(k)
    requires k + 2 <= j < |frames| && j < k + 6
    requires json.parse(frames[j]).None?
    requires forall i :: k + 2 <= i < j ==> json.parse(frames[i]).Some?
    ensures Decode(json, frames) == Err(JsonError)
  {
    DecodeAt(json, frames, k);
    PartsBadDocument(json, frames, k, j);
  }

  lemma PartsBadDocument(json: JsonCodec, frames: seq<Bytes>, k: nat, j: nat)
    requires k + 2 <= j < |frames| && j < k + 6
    requires json.parse(frames[j]).None?
    requires forall i :: k + 2 <= i < j ==> json.parse(frames[i]).Some?
    ensures DecodeParts(json, frames[..k], frames[k + 1..]) == Err(JsonError)
  {
    var rest := frames[k + 1..];
    assert rest[j - (k + 1)] == frames[j];
    if j >= k + 3 {
      assert Document(json, rest, 1, NO_HEADER) == Ok(json.parse(frames[k + 2]).value);
    }
    if j >= k + 4 {
      assert Document(json, rest, 2, NO_PARENT_HEADER) == Ok(json.parse(frames[k + 3]).value);
    }
    if j >= k + 5 {
      assert Document(json, rest, 3, NO_METADATA) == Ok(json.parse(frames[k + 4]).value);
    }
  }

  /** The signature is never checked: any bytes in its place decode the same. */
  lemma DecodeIgnoresSignature(json: JsonCodec, frames: seq<Bytes>, k: nat, sig: Bytes)
    requires FirstDelimiter(frames) == Some(k) && k + 1 < |frames|
    ensures Decode(json, frames[k + 1 := sig]) == Decode(json, frames)
  {
    var frames' := frames[k + 1 := sig];
    FirstDelimiterAt(frames', k);
    assert frames'[..k] == frames[..k];
    var rest, rest' := frames[k + 1..], frames'[k + 1..];
    assert |rest| == |rest'| && forall i :: 1 <= i < |rest| ==> rest[i] == rest'[i];
  }

  /** Frames after the content are ignored. */
  lemma DecodeIgnoresTrailing(json: JsonCodec, frames: seq<Bytes>, extra: seq<Bytes>)
    requires Decode(json, frames).Ok?
    ensures Decode(json, frames + extra) == Decode(json, frames)
  {
    var k := FirstDelimiter(frames).value;
    var frames' := frames + extra;
    FirstDelimiterAt(frames', k);
    DecodeSucceeds(json, frames, k);
    assert frames'[..k] == frames[..k];
    var rest, rest' := frames[k + 1..], frames'[k + 1..];
    assert forall i :: 0 <= i < 5 ==> rest[i] == rest'[i];
  }

  /** The wire round trip: with a serde_json that parses what it serializes,
      decoding the encoding of a message gives the message back exactly when
      no routing id is itself the delimiter. */
  lemma RoundTrip(json: JsonCodec, mac: Mac, d: Digester, m: Message)
    requires Lawful(json)
    ensures Decode(json, Encoded(json, mac, d, m)) == Ok(m)
        <==> forall i :: 0 <= i < |m.zmqIds| ==> m.zmqIds[i] != DELIMITER
  {
    var frames := Encoded(json, mac, d, m);
    var n := |m.zmqIds|;
    assert frames[n] == DELIMITER;
    if forall i :: 0 <= i < n ==> m.zmqIds[i] != DELIMITER {
      FirstDelimiterAt(frames, n);
      assert frames[..n] == m.zmqIds;
      var rest := frames[n + 1..];
      assert rest[1] == json.serialize(m.header);
      assert rest[2] == json.serialize(m.parentHeader);
      assert rest[3] == json.serialize(m.metadata);
      assert rest[4] == json.serialize(m.content);
    } else {
      var k := FirstDelimiter(frames).value;
      DecodeSucceeds(json, frames, k);
      assert k < n by {
        var i :| 0 <= i < n && m.zmqIds[i] == DELIMITER;
        assert frames[i] == DELIMITER;
      }
    }
  }
}
