/**
 * `create_metadata`: the signed header of every envelope.  The clock and the
 * 16 random bytes behind the nonce are parameters.
 */
module Metadata {
  import opened Json
  import opened Bytes

  datatype SecurityLevel = High | Medium

  function LevelName(l: SecurityLevel): (s: string)
    ensures s == "HIGH" <==> l == High
  {
    match l
    case High => "HIGH"
    case Medium => "MEDIUM"
  }

  datatype Metadata = Metadata(
    timestamp: int,
    ttl: int,
    nonce: string,
    senderId: string,
    contentType: string,
    securityLevel: SecurityLevel)

  /** Size of the random nonce, in bytes. */
  const RandomBytes: nat := 16

  function CreateMetadata(senderId: string, contentType: string, now: int, random: Bytes): (m: Metadata)
    requires |random| == RandomBytes
    ensures m.securityLevel == High <==> contentType == "password"
    ensures m.ttl == (if m.securityLevel == High then 30 else 300)
    ensures m.senderId == senderId && m.contentType == contentType
    ensures m.timestamp == now
    ensures m.nonce == Hex(random) && |m.nonce| == 2 * RandomBytes
  {
    var level := if contentType == "password" then High else Medium;
    Metadata(now, if level == High then 30 else 300, Hex(random), senderId, contentType, level)
  }

  /** The six keys of the metadata dict. */
  const Keys: set<string> := {"timestamp", "ttl", "nonce", "sender_id", "content_type", "security_level"}

  /** The metadata as the dict that is signed and sent. */
  function ToDict(m: Metadata): (d: map<string, Value>)
    ensures d.Keys == Keys
    ensures d["timestamp"] == Num(m.timestamp) && d["ttl"] == Num(m.ttl)
    ensures d["nonce"] == Str(m.nonce) && d["sender_id"] == Str(m.senderId)
    ensures d["content_type"] == Str(m.contentType) && d["security_level"] == Str(LevelName(m.securityLevel))
  {
    map["timestamp" := Num(m.timestamp), "ttl" := Num(m.ttl), "nonce" := Str(m.nonce),
        "sender_id" := Str(m.senderId), "content_type" := Str(m.contentType),
        "security_level" := Str(LevelName(m.securityLevel))]
  }
}
