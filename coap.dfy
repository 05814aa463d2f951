/**
 * The message layer the handlers see: request method codes, response types and
 * codes (RFC 7252, sections 3 and 12.1), the abstract request and response, and
 * the bounded payload read that OpenThread's otMessageRead performs.
 */
module Coap {

  /** One octet of a message or of a C `char` buffer. */
  newtype byte = x: int | 0 <= x < 256

  datatype Option<T> = None | Some(value: T)

  /** Request method codes, class 0 (RFC 7252 section 12.1.1). */
  const GET: byte := 0x01
  const PUT: byte := 0x03
  const DELETE: byte := 0x04

  /** Message types (RFC 7252 section 3). */
  datatype MessageType = Confirmable | NonConfirmable | Acknowledgment | Reset

  /** The response codes the server uses: 2.02, 2.04 and 2.05 (RFC 7252 section 5.9.1). */
  datatype ResponseCode = Deleted | Changed | Content

  /** A request as a handler sees it: the method code and the payload bytes after the payload marker. */
  datatype Request = Request(code: byte, payload: seq<byte>)

  /** A response the transport sends back: its type, its code and its payload. */
  datatype Response = Response(kind: MessageType, code: ResponseCode, payload: seq<byte>)

  /** A piggybacked acknowledgment carrying `code`, the only kind of reply the server sends. */
  function Ack(code: ResponseCode, payload: seq<byte>): Response
  {
    Response(Acknowledgment, code, payload)
  }

  /**
   * otMessageRead: copies at most `count` payload bytes into the front of `buf`
   * and returns how many it copied; the rest of `buf` is left as it was.
   */
  method MessageRead(payload: seq<byte>, buf: array<byte>, count: nat) returns (length: nat)
    requires count <= buf.Length
    modifies buf
    ensures length == if |payload| < count then |payload| else count
    ensures buf[..length] == payload[..length]
    ensures forall k :: length <= k < buf.Length ==> buf[k] == old(buf[k])
  {
    length := if |payload| < count then |payload| else count;
    var i := 0;
    while i < length
      invariant 0 <= i <= length
      invariant forall k :: 0 <= k < i ==> buf[k] == payload[k]
      invariant forall k :: i <= k < buf.Length ==> buf[k] == old(buf[k])
    {
      buf[i] := payload[i];
      i := i + 1;
    }
  }
}
