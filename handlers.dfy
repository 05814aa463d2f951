/**
 * The two stateless resources: "led", which maps the first payload byte to an
 * actuator effect, and "sensor", which answers GET with the decimal text of
 * the current reading.
 */
module Handlers {
  import opened Coap
  import opened LibC
  import opened Decimal

  /** A call into the LED driver. */
  datatype LedEffect = LedOn | LedOff

  /**
   * The LED effects of a request payload: exactly one on-effect for a first
   * byte '1', exactly one off-effect for '0', none for anything else or for
   * an empty payload.
   */
  function LedEffects(payload: seq<byte>): (effects: seq<LedEffect>)
    ensures |effects| <= 1
    ensures LedOn in effects <==> |payload| > 0 && payload[0] == '1' as byte
    ensures LedOff in effects <==> |payload| > 0 && payload[0] == '0' as byte
  {
    if |payload| > 0 && payload[0] == '1' as byte then [LedOn]
    else if |payload| > 0 && payload[0] == '0' as byte then [LedOff]
    else []
  }

  /** sizeof(payload) in the LED handler. */
  const LED_BUFFER: nat := 10

  /** sizeof(sensorData) in the sensor handler. */
  const SENSOR_BUFFER: nat := 50

  /**
   * handle_led_request: a first payload byte '1' turns the LED on once, '0'
   * turns it off once, anything else (an empty payload included) does neither;
   * every request, whatever its method, is answered ACK/Changed.
   */
  method HandleLedRequest(req: Request) returns (effects: seq<LedEffect>, response: Option<Response>)
    ensures effects == LedEffects(req.payload)
    ensures response == Some(Ack(Changed, []))
  {
    var payload := new byte[LED_BUFFER];
    var length := MessageRead(req.payload, payload, LED_BUFFER - 1);
    payload[length] := 0;

    effects := [];
    if payload[0] == '1' as byte {
      effects := effects + [LedOn];
    } else if payload[0] == '0' as byte {
      effects := effects + [LedOff];
    }

    response := Some(Ack(Changed, []));
  }

  /**
   * handle_sensor_request: a GET with an allocated message is answered
   * ACK/Content carrying the "%d" text of the reading; a GET without a message
   * and every other method get no answer.
   */
  method HandleSensorRequest(req: Request, hasMessage: bool, reading: Int32) returns (response: Option<Response>)
    ensures response.Some? <==> req.code == GET && hasMessage
    ensures response.Some? ==> response.value == Ack(Content, DecimalText(reading))
    ensures response.Some? ==> ParseDecimal(response.value.payload) == Some(reading as int)
  {
    response := None;
    if req.code == GET {
      if hasMessage {
        var sensorData := new byte[SENSOR_BUFFER];
        sensorData[0] := '0' as byte;
        var text := DecimalText(reading);
        Int32TextLength(reading);
        DecimalRoundTrip(reading);
        var full := Snprintf(sensorData, text);
        forall i | 0 <= i < |text| ensures sensorData[i] != 0 {
          assert sensorData[..|text|][i] == text[i];
        }
        CLenAt(sensorData[..], |text|);
        var n := Strlen(sensorData);
        assert sensorData[..n] == text;
        response := Some(Ack(Content, sensorData[..n]));
      }
    }
  }
}
