/** The crate-level declarations: the error type, the wire delimiter, the
    connection descriptor and the kernel metadata records. */
module Lib {
  import opened Octets
  import Json

  /** `JuError`, with the `UnsupportedMessageType` variant that the shell
      processor raises. The payloads of the foreign errors (UTF-8, serde_json,
      ZeroMQ) are not modelled beyond a reason text for transport failures. */
  datatype JuError =
    | Utf8Error
    | JsonError
    | ZmqError(reason: string)
    | MalformedMessage(what: string)
    | UnknownDigest(scheme: string)
    | NoCode(what: string)
    | UnsupportedMessageType(msgType: Json.Value)

  /** `b"<IDS|MSG>"`, the frame that separates routing ids from the message. */
  const DELIMITER: Bytes := [0x3C, 0x49, 0x44, 0x53, 0x7C, 0x4D, 0x53, 0x47, 0x3E]

  /** A TCP port number, an unsigned 16-bit integer. */
  newtype Port = x: int | 0 <= x < 0x1_0000

  /** The connection file's content. */
  datatype ConnectionInfo = ConnectionInfo(
    kernelName: string,
    ip: string,
    controlPort: Port,
    shellPort: Port,
    stdinPort: Port,
    hbPort: Port,
    iopubPort: Port,
    key: string,
    transport: string,
    signatureScheme: string)

  datatype HelpLink = HelpLink(text: string, url: string)

  /** The static metadata a kernel reports (`JuKernelInfo`). */
  datatype KernelInfo = KernelInfo(
    name: string,
    version: string,
    mimetype: string,
    fileExtension: string,
    banner: string,
    helpLinks: seq<HelpLink>)
}
