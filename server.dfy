/**
 * init_coap_server: the table that binds the URI paths "led", "sensor" and
 * "nombre" to their handlers, and a server that routes each request through it
 * to the handler, which owns the one piece of mutable state (nombre_value).
 */
module Server {
  import opened Coap
  import opened Decimal
  import opened Handlers
  import opened Nombre

  datatype Handler = HandleLed | HandleSensor | HandleNombre

  /** An otCoapResource: a URI path and its handler (the context pointer is always NULL). */
  datatype Resource = Resource(uriPath: string, handler: Handler)

  /** The resources init_coap_server registers, in registration order. */
  function Resources(): (r: seq<Resource>)
    ensures |r| == 3
    ensures forall i, j :: 0 <= i < j < |r| ==> r[i].uriPath != r[j].uriPath
    ensures forall i, j :: 0 <= i < j < |r| ==> r[i].handler != r[j].handler
  {
    [Resource("led", HandleLed), Resource("sensor", HandleSensor), Resource("nombre", HandleNombre)]
  }

  /** Routing by URI path: the handler of a registered resource with that path. */
  function Lookup(table: seq<Resource>, path: string): (h: Option<Handler>)
    ensures h.Some? <==> exists i :: 0 <= i < |table| && table[i].uriPath == path
    ensures h.Some? ==> exists i :: 0 <= i < |table| && table[i].uriPath == path && table[i].handler == h.value
  {
    if table == [] then None
    else if table[0].uriPath == path then Some(table[0].handler)
    else
      var h := Lookup(table[1..], path);
      assert h.Some? ==> exists i :: 0 <= i < |table| && table[i].uriPath == path && table[i].handler == h.value by {
        if h.Some? {
          var i :| 0 <= i < |table[1..]| && table[1..][i].uriPath == path && table[1..][i].handler == h.value;
          assert table[i + 1] == table[1..][i];
        }
      }
      assert (exists i :: 0 <= i < |table| && table[i].uriPath == path) ==> h.Some? by {
        if exists i :: 0 <= i < |table| && table[i].uriPath == path {
          var i :| 0 <= i < |table| && table[i].uriPath == path;
          assert i > 0 && table[1..][i - 1] == table[i];
        }
      }
      h
  }

  /** With unique paths every registered resource is found under its own path, whatever the registration order. */
  lemma LookupUnique(table: seq<Resource>, i: nat)
    requires i < |table|
    requires forall j, k :: 0 <= j < k < |table| ==> table[j].uriPath != table[k].uriPath
    ensures Lookup(table, table[i].uriPath) == Some(table[i].handler)
  {
    var j :| 0 <= j < |table| && table[j].uriPath == table[i].uriPath && table[j].handler == Lookup(table, table[i].uriPath).value;
    assert j == i;
  }

  /** The three paths the server answers, each to its own handler. */
  lemma Routing()
    ensures Lookup(Resources(), "led") == Some(HandleLed)
    ensures Lookup(Resources(), "sensor") == Some(HandleSensor)
    ensures Lookup(Resources(), "nombre") == Some(HandleNombre)
  {
    LookupUnique(Resources(), 0);
    LookupUnique(Resources(), 1);
    LookupUnique(Resources(), 2);
  }

  /** The server as a whole: its one stateful resource and the routing table. */
  class CoapServer {
    const nombre: NombreResource

    ghost predicate Valid()
      reads nombre, nombre.nombreValue
    {
      nombre.Valid()
    }

    /** init_coap_server, with nombre_value as statically initialised. */
    constructor ()
      ensures Valid() && fresh(nombre) && fresh(nombre.nombreValue)
      ensures nombre.nombreValue[..] == InitialValue()
    {
      nombre := new NombreResource();
    }

    /**
     * One request on `path`, with the allocation outcome of the handler's
     * otCoapNewMessage and the current sensor reading. Only "nombre" touches
     * the stored name; a path that is not registered reaches no handler.
     */
    method HandleRequest(path: string, req: Request, hasMessage: bool, reading: Int32)
      returns (effects: seq<LedEffect>, response: Option<Response>)
      requires Valid()
      modifies nombre.nombreValue
      ensures Valid()
      ensures Lookup(Resources(), path) == Some(HandleNombre) ==>
        nombre.nombreValue[..] == NombreStep(old(nombre.nombreValue[..]), req, hasMessage).value &&
        response == NombreStep(old(nombre.nombreValue[..]), req, hasMessage).response &&
        effects == []
      ensures Lookup(Resources(), path) != Some(HandleNombre) ==> unchanged(nombre.nombreValue)
      ensures Lookup(Resources(), path) == Some(HandleLed) ==>
        effects == LedEffects(req.payload) && response == Some(Ack(Changed, []))
      ensures Lookup(Resources(), path) == Some(HandleSensor) ==>
        effects == [] &&
        response == if req.code == GET && hasMessage then Some(Ack(Content, DecimalText(reading))) else None
      ensures Lookup(Resources(), path) == None ==> effects == [] && response == None
    {
      effects, response := [], None;
      var h := Lookup(Resources(), path);
      if h == Some(HandleLed) {
        effects, response := HandleLedRequest(req);
      } else if h == Some(HandleSensor) {
        response := HandleSensorRequest(req, hasMessage, reading);
      } else if h == Some(HandleNombre) {
        response := nombre.HandleNombreRequest(req, hasMessage);
      }
    }
  }
}
