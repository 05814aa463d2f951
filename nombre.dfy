/**
 * The "nombre" resource: the 20-byte name buffer nombre_value and the handler
 * that reads it (GET), overwrites it with a validated payload (PUT) and resets
 * it to "Sin nombre" (DELETE).
 *
 * NombreStep is the specification of one request on the buffer's bytes; the
 * method NombreResource.HandleNombreRequest does the same in place and is
 * proved equal to it. The lemmas state what the specification means.
 */
module Nombre {
  import opened Coap
  import opened LibC

  /** sizeof(nombre_value), which is also the size of the PUT handler's local payload buffer. */
  const NAME_SIZE: nat := 20

  /** The default name, set at start-up and by DELETE. */
  const DEFAULT_NAME: seq<byte> := Ascii("Sin nombre")

  /** The characters a stored name may hold: alphabetic or whitespace in the C locale. */
  predicate IsNameChar(c: byte)
  {
    IsAlpha(c) || IsSpace(c)
  }

  /** The bytes of nombre_value after static initialisation: the default name, then zeros. */
  function InitialValue(): seq<byte>
  {
    DEFAULT_NAME + seq(NAME_SIZE - |DEFAULT_NAME|, _ => 0)
  }

  /**
   * The invariant of the stored name: the buffer is 20 bytes, its last byte is
   * NUL, and every byte of the string before the first NUL is alphabetic or
   * whitespace.
   */
  ghost predicate NameInvariant(s: seq<byte>)
  {
    |s| == NAME_SIZE && s[NAME_SIZE - 1] == 0 &&
    forall i :: 0 <= i < CLen(s) ==> IsNameChar(s[i])
  }

  /** The bytes a PUT reads: otMessageRead into the 20-byte payload buffer copies at most 19 of them. */
  function PutRead(payload: seq<byte>): seq<byte>
  {
    if |payload| < NAME_SIZE - 1 then payload else payload[..NAME_SIZE - 1]
  }

  /** The PUT handler's verdict on the bytes it read: not too long, and only letters and whitespace. */
  predicate ValidName(read: seq<byte>)
  {
    |read| < NAME_SIZE && forall i :: 0 <= i < |read| ==> IsNameChar(read[i])
  }

  /** The state after a request and the response sent for it, if any. */
  datatype Step = Step(value: seq<byte>, response: Option<Response>)

  /**
   * One request on the "nombre" resource, given the buffer's bytes and whether
   * otCoapNewMessage returned a message (hasMessage).
   */
  function NombreStep(value: seq<byte>, req: Request, hasMessage: bool): (r: Step)
    requires |value| == NAME_SIZE
    ensures |r.value| == NAME_SIZE
    ensures r.response.Some? ==> hasMessage && r.response.value.kind == Acknowledgment
    ensures r.response.Some? && r.response.value.payload != [] ==> req.code == GET
    ensures r.value != value ==> req.code == PUT || req.code == DELETE
    ensures req.code == GET ==> (r.response.Some? <==> hasMessage)
    ensures req.code == DELETE ==> (r.response.Some? <==> hasMessage)
  {
    if req.code == GET then
      Step(value, if hasMessage then Some(Ack(Content, CStr(value))) else None)
    else if req.code == PUT then
      var read := PutRead(req.payload);
      if hasMessage && ValidName(read) then
        Step(StrncpyResult(value, read + [0], NAME_SIZE - 1)[NAME_SIZE - 1 := 0], Some(Ack(Changed, [])))
      else
        Step(value, None)
    else if req.code == DELETE then
      Step(StrncpyResult(value, DEFAULT_NAME + [0], |DEFAULT_NAME| + 1),
           if hasMessage then Some(Ack(Deleted, [])) else None)
    else
      Step(value, None)
  }

  /** A sequence of requests, each with its allocation outcome, applied in order. */
  function Run(value: seq<byte>, reqs: seq<(Request, bool)>): (r: seq<byte>)
    requires |value| == NAME_SIZE
    ensures |r| == NAME_SIZE
    decreases |reqs|
  {
    if reqs == [] then value
    else Run(NombreStep(value, reqs[0].0, reqs[0].1).value, reqs[1..])
  }

  /** "Sin nombre" is the ten bytes S, i, n, space, n, o, m, b, r, e, all letters or spaces. */
  lemma DefaultNameChars()
    ensures DEFAULT_NAME == [0x53, 0x69, 0x6E, 0x20, 0x6E, 0x6F, 0x6D, 0x62, 0x72, 0x65]
    ensures |DEFAULT_NAME| == 10
    ensures forall i :: 0 <= i < |DEFAULT_NAME| ==> IsNameChar(DEFAULT_NAME[i])
  {
  }

  /** The buffer a successful PUT leaves holds exactly the bytes read, NUL-terminated. */
  lemma PutResult(value: seq<byte>, read: seq<byte>)
    requires |value| == NAME_SIZE && ValidName(read) && |read| < NAME_SIZE
    ensures var r := StrncpyResult(value, read + [0], NAME_SIZE - 1)[NAME_SIZE - 1 := 0];
      r[NAME_SIZE - 1] == 0 && CLen(r) == |read| && CStr(r) == read
  {
    var src := read + [0];
    CLenAt(src, |read|);
    var r := StrncpyResult(value, src, NAME_SIZE - 1)[NAME_SIZE - 1 := 0];
    assert r[|read|] == 0;
    forall i | 0 <= i < |read| ensures r[i] == read[i] && r[i] != 0 {
      assert src[i] == read[i];
    }
    CLenAt(r, |read|);
  }

  /** The buffer a DELETE leaves holds "Sin nombre"; bytes past its terminator keep their old values. */
  lemma DeleteResult(value: seq<byte>)
    requires |value| == NAME_SIZE
    ensures var r := StrncpyResult(value, DEFAULT_NAME + [0], |DEFAULT_NAME| + 1);
      CLen(r) == |DEFAULT_NAME| && CStr(r) == DEFAULT_NAME &&
      r[|DEFAULT_NAME| + 1..] == value[|DEFAULT_NAME| + 1..]
  {
    DefaultNameChars();
    var src := DEFAULT_NAME + [0];
    CLenAt(src, |DEFAULT_NAME|);
    var r := StrncpyResult(value, src, |DEFAULT_NAME| + 1);
    forall i | 0 <= i < |DEFAULT_NAME| ensures r[i] == DEFAULT_NAME[i] && r[i] != 0 {
      assert src[i] == DEFAULT_NAME[i];
      assert IsNameChar(DEFAULT_NAME[i]);
    }
    CLenAt(r, |DEFAULT_NAME|);
  }

  /** The statically initialised buffer satisfies the invariant and holds "Sin nombre". */
  lemma InitialValueValid()
    ensures NameInvariant(InitialValue())
    ensures CStr(InitialValue()) == DEFAULT_NAME
  {
    DefaultNameChars();
    var s := InitialValue();
    forall i | 0 <= i < |DEFAULT_NAME| ensures s[i] != 0 {
      assert IsNameChar(DEFAULT_NAME[i]);
    }
    CLenAt(s, |DEFAULT_NAME|);
  }

  /** Every request keeps the invariant of the stored name. */
  lemma StepPreservesInvariant(value: seq<byte>, req: Request, hasMessage: bool)
    requires NameInvariant(value)
    ensures NameInvariant(NombreStep(value, req, hasMessage).value)
  {
    var r := NombreStep(value, req, hasMessage).value;
    if req.code == PUT && hasMessage && ValidName(PutRead(req.payload)) {
      var read := PutRead(req.payload);
      PutResult(value, read);
      forall i | 0 <= i < CLen(r) ensures IsNameChar(r[i]) {
        assert r[i] == CStr(r)[i] == read[i];
      }
    } else if req.code == DELETE {
      DeleteResult(value);
      DefaultNameChars();
      assert r[NAME_SIZE - 1] == r[|DEFAULT_NAME| + 1..][NAME_SIZE - 1 - (|DEFAULT_NAME| + 1)] == value[NAME_SIZE - 1];
      forall i | 0 <= i < CLen(r) ensures IsNameChar(r[i]) {
        assert r[i] == CStr(r)[i] == DEFAULT_NAME[i];
      }
    }
  }

  /** The invariant holds after any sequence of requests. */
  lemma {:induction false} RunPreservesInvariant(value: seq<byte>, reqs: seq<(Request, bool)>)
    requires NameInvariant(value)
    ensures NameInvariant(Run(value, reqs))
    decreases |reqs|
  {
    if reqs != [] {
      StepPreservesInvariant(value, reqs[0].0, reqs[0].1);
      RunPreservesInvariant(NombreStep(value, reqs[0].0, reqs[0].1).value, reqs[1..]);
    }
  }

  /** Every state reachable from start-up satisfies the invariant. */
  lemma ReachableValid(reqs: seq<(Request, bool)>)
    ensures NameInvariant(Run(InitialValue(), reqs))
  {
    InitialValueValid();
    RunPreservesInvariant(InitialValue(), reqs);
  }

  /**
   * The bound a stored name keeps: NUL-terminated within the buffer and at most
   * 19 bytes long, so GET's strlen stays inside it.
   */
  lemma InvariantBounds(value: seq<byte>)
    requires NameInvariant(value)
    ensures Terminated(value) && CLen(value) <= NAME_SIZE - 1
    ensures forall i :: 0 <= i < |CStr(value)| ==> IsNameChar(CStr(value)[i])
  {
  }

  /**
   * GET never changes the buffer; when a response message is allocated it answers
   * ACK/Content with the stored name's strlen bytes, which are at most 19
   * letters or whitespace.
   */
  lemma GetReadsName(value: seq<byte>, payload: seq<byte>, hasMessage: bool)
    requires NameInvariant(value)
    ensures var r := NombreStep(value, Request(GET, payload), hasMessage);
      r.value == value &&
      (r.response.Some? <==> hasMessage) &&
      (hasMessage ==>
        r.response == Some(Ack(Content, CStr(value))) &&
        |r.response.value.payload| <= NAME_SIZE - 1 &&
        forall i :: 0 <= i < |r.response.value.payload| ==> IsNameChar(r.response.value.payload[i]))
  {
    InvariantBounds(value);
  }

  /** The length check of the PUT handler can never fail: at most 19 bytes are read. */
  lemma PutLengthCheckDead(payload: seq<byte>)
    ensures |PutRead(payload)| <= NAME_SIZE - 1
    ensures |PutRead(payload)| == if |payload| < NAME_SIZE - 1 then |payload| else NAME_SIZE - 1
    ensures PutRead(payload) == payload[..|PutRead(payload)|]
    ensures ValidName(PutRead(payload)) <==>
      forall i :: 0 <= i < |payload| && i < NAME_SIZE - 1 ==> IsNameChar(payload[i])
  {
    var read := PutRead(payload);
    if ValidName(read) {
      forall i | 0 <= i < |payload| && i < NAME_SIZE - 1 ensures IsNameChar(payload[i]) {
        assert payload[i] == read[i];
      }
    }
  }

  /**
   * A PUT changes the buffer only when it is answered, and it is answered
   * (ACK/Changed) exactly when a response message is allocated and each of the first
   * min(len, 19) payload bytes is alphabetic or whitespace.
   */
  lemma PutValidity(value: seq<byte>, payload: seq<byte>, hasMessage: bool)
    requires |value| == NAME_SIZE
    ensures var r := NombreStep(value, Request(PUT, payload), hasMessage);
      (r.response.Some? <==>
        hasMessage && forall i :: 0 <= i < |payload| && i < NAME_SIZE - 1 ==> IsNameChar(payload[i])) &&
      (r.response.Some? ==> r.response == Some(Ack(Changed, []))) &&
      (r.response.None? ==> r.value == value)
  {
    PutLengthCheckDead(payload);
  }

  /** A NUL byte among the bytes read makes the PUT invalid: nothing changes and nothing is sent. */
  lemma PutRejectsNul(value: seq<byte>, payload: seq<byte>, hasMessage: bool, k: nat)
    requires |value| == NAME_SIZE
    requires k < |payload| && k < NAME_SIZE - 1 && payload[k] == 0
    ensures NombreStep(value, Request(PUT, payload), hasMessage) == Step(value, None)
  {
    PutLengthCheckDead(payload);
    assert !IsNameChar(payload[k]);
  }

  /**
   * PUT then GET: after an answered PUT, the stored name is exactly the bytes
   * read (the first 19 when the payload is longer) and a GET returns them.
   */
  lemma PutThenGet(value: seq<byte>, payload: seq<byte>, query: seq<byte>)
    requires NameInvariant(value)
    requires forall i :: 0 <= i < |payload| && i < NAME_SIZE - 1 ==> IsNameChar(payload[i])
    ensures var put := NombreStep(value, Request(PUT, payload), true);
      put.response == Some(Ack(Changed, [])) &&
      CStr(put.value) == PutRead(payload) &&
      NombreStep(put.value, Request(GET, query), true) == Step(put.value, Some(Ack(Content, PutRead(payload))))
  {
    PutLengthCheckDead(payload);
    PutResult(value, PutRead(payload));
  }

  /** DELETE resets the name to "Sin nombre" whether or not a message was allocated, and a GET then returns it. */
  lemma DeleteResets(value: seq<byte>, payload: seq<byte>, hasMessage: bool, query: seq<byte>)
    requires |value| == NAME_SIZE
    ensures var del := NombreStep(value, Request(DELETE, payload), hasMessage);
      CStr(del.value) == DEFAULT_NAME &&
      del.response == (if hasMessage then Some(Ack(Deleted, [])) else None) &&
      NombreStep(del.value, Request(GET, query), true).response == Some(Ack(Content, DEFAULT_NAME))
  {
    DeleteResult(value);
  }

  /** Two DELETEs leave the same buffer as one. */
  lemma DeleteIdempotent(value: seq<byte>, req1: Request, req2: Request, a1: bool, a2: bool)
    requires |value| == NAME_SIZE
    requires req1.code == DELETE && req2.code == DELETE
    ensures var once := NombreStep(value, req1, a1).value;
      NombreStep(once, req2, a2).value == once
  {
    var once := NombreStep(value, req1, a1).value;
    var twice := NombreStep(once, req2, a2).value;
    forall i | 0 <= i < NAME_SIZE ensures twice[i] == once[i] {
    }
  }

  /**
   * Method codes other than GET, PUT and DELETE change nothing and are not
   * answered; the three handled codes are distinct, so at most one branch runs.
   */
  lemma UnhandledIgnored(value: seq<byte>, req: Request, hasMessage: bool)
    requires |value| == NAME_SIZE
    requires req.code != GET && req.code != PUT && req.code != DELETE
    ensures NombreStep(value, req, hasMessage) == Step(value, None)
    ensures GET != PUT && PUT != DELETE && GET != DELETE
  {
  }

  /**
   * The bounded validation loop of the PUT handler: a payload buffer is valid
   * when the read length is below 20 and each byte read is alphabetic or
   * whitespace.
   */
  method ValidateName(payload: array<byte>, length: nat) returns (valid: bool)
    requires length <= payload.Length
    ensures valid <==> ValidName(payload[..length])
  {
    valid := true;
    if length >= NAME_SIZE {
      valid := false;
    }
    var i := 0;
    while i < length
      invariant 0 <= i <= length
      invariant valid <==> length < NAME_SIZE && forall k :: 0 <= k < i ==> IsNameChar(payload[k])
    {
      if !IsAlpha(payload[i]) && !IsSpace(payload[i]) {
        valid := false;
      }
      i := i + 1;
    }
  }

  /** The module-level buffer nombre_value and the handler that owns it. */
  class NombreResource {
    const nombreValue: array<byte>

    ghost predicate Valid()
      reads nombreValue
    {
      NameInvariant(nombreValue[..])
    }

    /** Static initialisation: "Sin nombre" followed by zero bytes. */
    constructor ()
      ensures Valid() && fresh(nombreValue)
      ensures nombreValue[..] == InitialValue()
    {
      DefaultNameChars();
      nombreValue := new byte[NAME_SIZE](i => if 0 <= i < |DEFAULT_NAME| then DEFAULT_NAME[i] else 0);
      new;
      assert nombreValue[..] == InitialValue();
      InitialValueValid();
    }

    /** handle_nombre_request: GET, PUT and DELETE on the stored name. */
    method HandleNombreRequest(req: Request, hasMessage: bool) returns (response: Option<Response>)
      requires Valid()
      modifies nombreValue
      ensures Valid()
      ensures nombreValue[..] == NombreStep(old(nombreValue[..]), req, hasMessage).value
      ensures response == NombreStep(old(nombreValue[..]), req, hasMessage).response
    {
      ghost var before := nombreValue[..];
      StepPreservesInvariant(before, req, hasMessage);
      response := None;

      if req.code == GET {
        if hasMessage {
          InvariantBounds(before);
          var n := Strlen(nombreValue);
          CLenAt(before, n);
          response := Some(Ack(Content, nombreValue[..n]));
        }
      }

      if req.code == PUT {
        var payload := new byte[NAME_SIZE];
        var length := MessageRead(req.payload, payload, NAME_SIZE - 1);
        payload[length] := 0;
        var valid := ValidateName(payload, length);
        if hasMessage && valid {
          ghost var read := PutRead(req.payload);
          assert payload[..length] == read;
          forall i | 0 <= i < length ensures payload[i] != 0 {
            assert IsNameChar(payload[..length][i]);
          }
          CLenAt(payload[..], length);
          CLenAt(read + [0], length);
          StrncpySameString(before, payload[..], read + [0], NAME_SIZE - 1);
          Strncpy(nombreValue, payload, NAME_SIZE - 1);
          nombreValue[NAME_SIZE - 1] := 0;
          response := Some(Ack(Changed, []));
        }
      }

      if req.code == DELETE {
        DefaultNameChars();
        var literal := new byte[|DEFAULT_NAME| + 1](i => if 0 <= i < |DEFAULT_NAME| then DEFAULT_NAME[i] else 0);
        assert literal[..] == DEFAULT_NAME + [0];
        Strncpy(nombreValue, literal, |DEFAULT_NAME| + 1);
        if hasMessage {
          response := Some(Ack(Deleted, []));
        }
      }
    }
  }
}
