# CoAP resource server: a verified model

This project models the request handling of a small CoAP server (CoAP is RFC 7252) running on
an OpenThread device. The server registers three resources:

- `led` maps the first payload byte to an LED effect: `'1'` turns it on, `'0'` turns it off.
  Every request is answered ACK/2.04 Changed.
- `sensor` answers GET with ACK/2.05 Content. The payload is the `%d` text of the integer reading.
- `nombre` holds a name in the 20-byte static buffer `nombre_value`, which starts as `"Sin nombre"`.
  - GET returns the name (ACK/2.05 Content).
  - PUT validates the payload and overwrites the buffer in place (ACK/2.04 Changed).
  - DELETE resets the name to `"Sin nombre"` (ACK/2.02 Deleted).

The transport is abstracted:

- A request is its method code and its payload bytes (`Coap.Request`).
- A response is an optional acknowledgment with a code and a payload (`Coap.Response`).
- Whether `otCoapNewMessage` returned a message is a boolean input, `hasMessage`.
- The LED driver is a list of effects the handler returns.
- The sensor reading is a 32-bit integer input.

The code is modelled in the form it has:

- `nombre_value` is an `array<byte>` field of the class `Nombre.NombreResource`.
- `HandleNombreRequest` changes that array in place. Its local payload buffer is filled by a
  bounded read, then NUL-terminated.
- The validation loop, `strlen` and `strncpy` are methods with loops.
- Each stateful method is proved equal to a specification function on the buffer's bytes,
  `Nombre.NombreStep`.
- The lemmas about `NombreStep` state what the source promises: the name invariant, the
  PUT→GET round trip, the DELETE reset and its idempotence, and the method-to-response mapping.

Files (one module each):

- `coap.dfy`: message types, codes, requests and responses, and `otMessageRead`.
- `libc.dfy`: `isalpha`, `isspace`, `strlen`, `strncpy` and `snprintf` in the C locale.
- `decimal.dfy`: the `%d` rendering.
- `nombre.dfy`: the name resource.
- `handlers.dfy`: the LED and sensor handlers.
- `server.dfy`: the path table and routing.

Where the code and its documented intent differ, the model follows the code:

- **PUT never rejects a long name.** The "too long" check (`length >= 20`) can never fire,
  because the read into the 20-byte payload buffer copies at most 19 bytes. A payload of 20 or
  more letters is therefore truncated to its first 19 bytes and accepted; it is not rejected.
  `Nombre.PutLengthCheckDead` and `Nombre.PutThenGet` state this behaviour.
- **PUT is all-or-nothing.** It is answered, and changes the name, exactly when every byte read
  is alphabetic or whitespace and a message was allocated. Otherwise nothing is sent and the
  name is unchanged.
- **DELETE leaves old bytes behind the terminator.** It copies only the 11 bytes of
  `"Sin nombre"` and its NUL, so bytes 11 to 19 of the buffer keep their old values. They are
  not visible through `strlen`, and the model keeps them exactly.
- **Bytes from PUT are unsigned.** On the target, plain `char` is unsigned. So bytes 128 to 255
  are neither alphabetic nor whitespace, and a PUT containing one is invalid.

## Model

| member | source | states |
|---|---|---|
| `Coap.MessageRead` | Coap_Server.c:27 | the bounded payload read copies exactly min(len, count) payload bytes to the front of the buffer and leaves the rest of the buffer untouched |
| `LibC.IsAlpha` | Coap_Server.c:124 | `isalpha` in the C locale: only ASCII letters count, so no NUL, no byte from 128 to 255 and no digit is alphabetic |
| `LibC.IsSpace` | Coap_Server.c:124 | `isspace` in the C locale: only space and tab through carriage return count; no whitespace byte is NUL, non-ASCII or a letter |
| `LibC.CLen` | Coap_Server.c:103 | the string length is the index of the first NUL byte: no NUL before it, a NUL at it unless it is the end of the buffer |
| `LibC.CLenAt` | Coap_Server.c:114 | a NUL written at index k with none before it makes the string exactly the first k bytes |
| `LibC.Strlen` | Coap_Server.c:103 | strlen returns an index inside the buffer that holds NUL, with no NUL before it |
| `LibC.StrncpyResult` | Coap_Server.c:136 | the buffer strncpy leaves: bytes from n on are unchanged; when the source string is shorter than n, the result holds exactly that string; otherwise the first n bytes are the source's and no terminator is written |
| `LibC.StrncpySameString` | Coap_Server.c:136 | the result of strncpy depends on the source only through the string it holds, not on the bytes after its terminator |
| `LibC.Strncpy` | Coap_Server.c:136-137 | the in-place copy leaves the destination as strncpy specifies: the source string, NUL padding up to n, and later bytes unchanged |
| `LibC.Snprintf` | Coap_Server.c:72 | the bounded formatted write stores as much of the text as fits, followed by a NUL, leaves the bytes after that NUL as they were, and reports the full text length |
| `Decimal.Digits` | Coap_Server.c:72 | the digits of a natural number are non-empty, all decimal digits, and have no leading zero unless the number is 0 |
| `Decimal.DecimalText` | Coap_Server.c:72 | the `%d` text is non-empty, starts with '-' exactly for negative readings, has only digits after the sign, and has no leading zero after a '-' |
| `Decimal.DigitsRoundTrip` | Coap_Server.c:72 | reading the digits back as a number gives the original number |
| `Decimal.DecimalRoundTrip` | Coap_Server.c:72 | the `%d` text parses back to the reading, starts with '-' exactly when the reading is negative, and contains no NUL (so the strlen at line 75 covers all of it) |
| `Decimal.DecimalTextInjective` | Coap_Server.c:72 | distinct readings give distinct payloads |
| `Decimal.DigitsLength` | Coap_Server.c:70-72 | a number below 10^k has at most k digits |
| `Decimal.Int32TextLength` | Coap_Server.c:70-72 | the text of any 32-bit int is 1 to 11 bytes, so the 50-byte buffer never truncates it |
| `Nombre.DefaultNameChars` | Coap_Server.c:22 | the default name is the ten bytes 0x53 0x69 0x6E 0x20 0x6E 0x6F 0x6D 0x62 0x72 0x65 ("Sin nombre"), all letters or spaces |
| `Nombre.InitialValueValid` | Coap_Server.c:22 | the statically initialised buffer satisfies the name invariant and holds "Sin nombre" |
| `Nombre.NombreStep` | Coap_Server.c:82-174 | one request on the name buffer: every response is an ACK and is sent only when a message was allocated; only GET carries a payload; only PUT or DELETE can change the buffer; GET and DELETE answer exactly when a message was allocated |
| `Nombre.PutResult` | Coap_Server.c:134-137 | after a successful PUT the buffer holds exactly the bytes read, is NUL-terminated, and its last byte is NUL |
| `Nombre.DeleteResult` | Coap_Server.c:157 | after DELETE the string is "Sin nombre", and the bytes after its terminator are the old ones |
| `Nombre.StepPreservesInvariant` | Coap_Server.c:82-174 | every request (GET, PUT, DELETE or other, answered or not) keeps the name invariant: the last byte is NUL, and every byte before the first NUL is alphabetic or whitespace |
| `Nombre.RunPreservesInvariant` | Coap_Server.c:82-174 | the name invariant holds after any sequence of requests |
| `Nombre.ReachableValid` | Coap_Server.c:22 | every state reachable from start-up satisfies the name invariant |
| `Nombre.InvariantBounds` | Coap_Server.c:103 | under the invariant the name is NUL-terminated inside the buffer and at most 19 bytes long, so GET's strlen stays in bounds |
| `Nombre.GetReadsName` | Coap_Server.c:86-107 | GET never changes the buffer; it answers exactly when a message was allocated, with one ACK/Content carrying the stored name's strlen bytes, at most 19 letters or whitespace |
| `Nombre.PutLengthCheckDead` | Coap_Server.c:113-121 | at most min(len, 19) bytes are read, so the length check never fails; the bytes read are valid exactly when each of them is alphabetic or whitespace |
| `Nombre.PutValidity` | Coap_Server.c:110-153 | PUT is answered, exactly once with ACK/Changed, if and only if a message was allocated and each of the first min(len, 19) payload bytes is alphabetic or whitespace; an unanswered PUT leaves the buffer unchanged |
| `Nombre.PutRejectsNul` | Coap_Server.c:123-128 | a NUL among the bytes read makes PUT invalid: no change and no response |
| `Nombre.PutThenGet` | Coap_Server.c:134-151 | after a valid, answered PUT the stored name is exactly the bytes read (the first 19 of a longer payload), and a following GET returns exactly those bytes |
| `Nombre.DeleteResets` | Coap_Server.c:155-172 | DELETE sets the name to "Sin nombre" even without a message, answers ACK/Deleted exactly when a message was allocated, and a following GET returns "Sin nombre" |
| `Nombre.DeleteIdempotent` | Coap_Server.c:155-172 | two DELETEs leave the same buffer as one |
| `Nombre.UnhandledIgnored` | Coap_Server.c:86-155 | a method other than GET, PUT or DELETE changes nothing and is not answered; the three handled codes are distinct, so at most one branch runs |
| `Nombre.ValidateName` | Coap_Server.c:117-128 | the validation loop returns true if and only if the read length is below 20 and every byte read is alphabetic or whitespace |
| `Nombre.NombreResource.constructor` | Coap_Server.c:22 | the buffer starts as "Sin nombre" followed by zero bytes, and satisfies the name invariant |
| `Nombre.NombreResource.HandleNombreRequest` | Coap_Server.c:82-174 | the in-place handler leaves the buffer and sends the response exactly as NombreStep prescribes, and keeps the name invariant |
| `Handlers.LedEffects` | Coap_Server.c:30-44 | a payload gives at most one LED effect: the on-effect exactly when its first byte is '1', the off-effect exactly when it is '0' |
| `Handlers.HandleLedRequest` | Coap_Server.c:24-50 | the bounded read, terminator and first-byte test give exactly the effects LedEffects prescribes: one on-effect for '1', one off-effect for '0', none otherwise (an empty payload leaves only the terminator at index 0); every request is answered ACK/Changed |
| `Handlers.HandleSensorRequest` | Coap_Server.c:52-80 | the sensor answers exactly GET requests with an allocated message, with ACK/Content carrying the `%d` text of the reading, which parses back to the reading |
| `Server.Resources` | Coap_Server.c:184-204 | three resources are registered, with pairwise distinct paths and distinct handlers |
| `Server.Lookup` | Coap_Server.c:188-204 | routing finds a handler exactly when some registered resource has the path, and the handler it finds is registered under that path |
| `Server.LookupUnique` | Coap_Server.c:188-204 | with unique paths, every resource is found under its own path, whatever the registration order |
| `Server.Routing` | Coap_Server.c:188-204 | "led", "sensor" and "nombre" route to their own handlers |
| `Server.CoapServer.constructor` | Coap_Server.c:176-205 | the server starts with the name buffer in its initial state |
| `Server.CoapServer.HandleRequest` | Coap_Server.c:176-205 | a routed request runs only its own handler: only "nombre" changes the name, as NombreStep prescribes; the "led" route gives exactly LedEffects of the payload and ACK/Changed; the "sensor" route answers exactly allocated GETs with the reading's `%d` text; a path that is not registered reaches no handler |

## Left out

- The test client `test_coap.py` is not part of this model. It is network I/O against a fixed board address and has no logic of its own.
- OpenThread calls (`otCoapNewMessage`, `otCoapMessageInitResponse`, `otCoapMessageSetPayloadMarker`, `otMessageAppend`, `otCoapSendResponse`) are foreign code.
  - The request and response datatypes and the `hasMessage` flag stand for them.
  - The payload marker is not modelled: a response's payload is the bytes appended after it.
  - Correlating the reply with the peer is not modelled.
- `Get_Temperature()` returns a `double`, and line 72 casts it to `int`. Floating point is out of scope. The reading is taken as a 32-bit integer, and only its decimal rendering is modelled.
- The sensor is sampled on every request, whatever its method. That driver call has no effect the model can observe, so it is not logged.
- Driver and hardware set-up (`LED_ON`, `LED_OFF`, `I2C2_InitPins`, `LED_INIT`, `Temp_Sensor_start`) is not modelled. LED calls are modelled only as effects.
- `otCliOutputFormat` diagnostic logging is not modelled. That includes the log line for each invalid character position; logging has no protocol effect.
- `isalpha` and `isspace` are fixed to the C locale. Whitespace is space, tab, newline, vertical tab, form feed and carriage return.
- Handlers.HandleLedRequest: models every request as answered ACK/Changed. The source never checks the result of `otCoapNewMessage` in this handler, so on an allocation failure it passes NULL to OpenThread. That behaviour belongs to the library and is not modelled.
- The response message that PUT allocates and then leaks when the payload is invalid is not modelled. It is a memory-management artefact with no observable protocol effect.
- Routing of unregistered paths (OpenThread answers those itself) is not modelled. In the model no handler runs for them.
- Uninitialised stack bytes are not modelled. Local payload buffers are zero-filled at allocation, and no handler reads past the terminator it writes.
