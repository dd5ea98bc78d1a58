/**
 * The option bits of include/curlws/curlws.h and what the library reports to its user.
 */
module Events {
  import opened Bytes

  /** CWS_CONT, CWS_BINARY, CWS_TEXT, CWS_FIRST and CWS_LAST; `other` is any further bit. */
  datatype Flags = Flags(cont: bool, binary: bool, text: bool, first: bool, last: bool, other: bool)

  const NO_FLAGS := Flags(false, false, false, false, false, false)
  const CWS_CONT := NO_FLAGS.(cont := true)
  const CWS_BINARY := NO_FLAGS.(binary := true)
  const CWS_TEXT := NO_FLAGS.(text := true)

  /** What the receiver does towards its user, and the call to cws_close by which it shuts the
      connection. */
  datatype Event =
    | Fragment(info: Flags, data: seq<byte>)
    | Ping(data: seq<byte>)
    | Pong(data: seq<byte>)
    | Closing(status: nat, reason: seq<byte>)
    | Shut(code: nat, why: string)

  /** is_close_code_valid of src/ws.c. */
  predicate IsCloseCodeValid(code: int) {
    3000 <= code <= 4999 || 1000 <= code <= 1003 || 1007 <= code <= 1011
  }
}
