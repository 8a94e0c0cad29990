/** Message signing: the signature scheme chosen from the connection
    descriptor, and the signature of the four serialized documents. */
module Digesters {
  import opened Wrappers
  import opened Octets
  import opened Lib

  /** An HMAC-SHA256 tag: 32 bytes. */
  type Tag = s: Bytes | |s| == 32 witness seq(32, _ => 0 as byte)

  /** HMAC-SHA256 (RFC 2104 over FIPS 180-4 SHA-256), keyed by its first
      argument. Its internals are not modelled. */
  type Mac = (Bytes, Bytes) -> Tag

  /** The scheme in force: the keyed MAC with its key bytes, or none. */
  datatype Digester = HmacSha256(key: Bytes) | NoDigest

  const HMAC_SHA256: string := "hmac-sha256"

  /** `Digester::new`: the empty scheme name signs nothing, "hmac-sha256"
      keys the MAC with the key's UTF-8 bytes, any other name is refused with
      that name. */
  function NewDigester(ci: ConnectionInfo): (r: Result<Digester, JuError>)
    ensures r == Ok(NoDigest) <==> ci.signatureScheme == ""
    ensures r.Ok? && r.value.HmacSha256? <==> ci.signatureScheme == HMAC_SHA256
    ensures r.Ok? && r.value.HmacSha256? ==> r.value.key == Utf8(ci.key)
    ensures r.Err? <==> ci.signatureScheme != "" && ci.signatureScheme != HMAC_SHA256
    ensures r.Err? ==> r.error == UnknownDigest(ci.signatureScheme)
  {
    if ci.signatureScheme == "" then Ok(NoDigest)
    else if ci.signatureScheme == HMAC_SHA256 then Ok(HmacSha256(Utf8(ci.key)))
    else Err(UnknownDigest(ci.signatureScheme))
  }

  /** `Digester::digest`: each call feeds a fresh copy of the keyed MAC, so the
      signature depends on the key and the four buffers only. Without a scheme
      it is empty; with HMAC-SHA256 it is 64 lowercase hexadecimal digits that
      decode to the tag of d1, d2, d3, d4 fed in that order. */
  function Digest(d: Digester, mac: Mac, d1: Bytes, d2: Bytes, d3: Bytes, d4: Bytes): (sig: Bytes)
    ensures d.NoDigest? ==> sig == []
    ensures d.HmacSha256? ==> |sig| == 64 && IsLowerHex(sig)
    ensures d.HmacSha256? ==> Unhex(sig) == Some(mac(d.key, d1 + d2 + d3 + d4))
  {
    match d
    case NoDigest => []
    case HmacSha256(key) =>
      var tag := mac(key, d1 + d2 + d3 + d4);
      UnhexHex(tag);
      Hex(tag)
  }
}
