/**
 * The part of ASP.NET Core the controllers and middleware touch: action results,
 * header dictionaries, and the per-request `HttpContext`.
 */
module Http {
  import opened Wrappers
  import opened Text
  import opened FluentRules

  /** What an action returns; the framework writes it as a status code and a JSON body. */
  datatype ActionResult<T> =
    | Ok(body: T)
    | Created(id: int, body: T)
    | NoContent
    | NotFound
    | BadRequest(message: string)
    | ValidationProblem(errors: Errors)
    | Conflict(message: string)
    | Unauthorized
  {
    function StatusCode(): (code: int)
      ensures 200 <= code < 500
      ensures code < 300 <==> this.Ok? || this.Created? || this.NoContent?
    {
      match this
      case Ok(_) => 200
      case Created(_, _) => 201
      case NoContent => 204
      case BadRequest(_) => 400
      case ValidationProblem(_) => 400
      case Unauthorized => 401
      case NotFound => 404
      case Conflict(_) => 409
    }
  }

  // ---- Header dictionaries ----

  /**
   * A header dictionary. Names compare ignoring case, so each entry is stored
   * under its upper-cased name; a value is the header's list of strings.
   */
  type Headers = map<string, seq<string>>

  function Fold(name: string): (k: string)
    ensures |k| == |name|
    ensures forall i :: 0 <= i < |name| ==> k[i] == ToUpperAscii(name[i])
  {
    seq(|name|, i requires 0 <= i < |name| => ToUpperAscii(name[i]))
  }

  /** Two names reach the same entry exactly when they are equal ignoring case. */
  lemma FoldIff(a: string, b: string)
    ensures Fold(a) == Fold(b) <==> EqualsIgnoreCase(a, b)
  {
    if EqualsIgnoreCase(a, b) {
      assert forall i :: 0 <= i < |a| ==> Fold(a)[i] == Fold(b)[i];
    }
  }

  predicate ContainsKey(h: Headers, name: string) {
    Fold(name) in h
  }

  /** `Headers.TryGetValue(name, out values)`. */
  function TryGetValue(h: Headers, name: string): (r: Option<seq<string>>)
    ensures r.Some? <==> ContainsKey(h, name)
  {
    if Fold(name) in h then Some(h[Fold(name)]) else None
  }

  /** `Headers[name]`: the values, or no value when the header is absent. */
  function ValuesOf(h: Headers, name: string): (r: seq<string>)
    ensures !ContainsKey(h, name) ==> r == []
  {
    if Fold(name) in h then h[Fold(name)] else []
  }

  /** `Headers[name] = value`. */
  function SetHeader(h: Headers, name: string, value: string): (r: Headers)
    ensures TryGetValue(r, name) == Some([value])
    ensures forall n :: Fold(n) != Fold(name) ==> TryGetValue(r, n) == TryGetValue(h, n)
  {
    h[Fold(name) := [value]]
  }

  /** `Headers.Remove(name)`. */
  function RemoveHeader(h: Headers, name: string): (r: Headers)
    ensures !ContainsKey(r, name)
    ensures forall n :: Fold(n) != Fold(name) ==> TryGetValue(r, n) == TryGetValue(h, n)
  {
    h - {Fold(name)}
  }

  /** `StringValues.FirstOrDefault()`. */
  function FirstOrDefault(values: seq<string>): (r: Option<string>)
    ensures r.Some? <==> |values| > 0
    ensures r.Some? ==> r.value == values[0]
  {
    if |values| == 0 then None else Some(values[0])
  }

  // ---- The request context ----

  /** A value of `HttpContext.Items`: a string or some other object. */
  datatype Item = StringItem(s: string) | OtherItem

  /** A callback given to `Response.OnStarting`: set a header if it is absent. */
  datatype Hook = SetIfAbsent(name: string, value: string)

  function ApplyHook(h: Headers, hook: Hook): Headers {
    if ContainsKey(h, hook.name) then h else SetHeader(h, hook.name, hook.value)
  }

  /** The callbacks run when the response starts, the last registered first. */
  function RunHooks(h: Headers, hooks: seq<Hook>): Headers
    decreases |hooks|
  {
    if hooks == [] then h else RunHooks(ApplyHook(h, hooks[|hooks| - 1]), hooks[..|hooks| - 1])
  }

  /** A hook never replaces a header: whatever was present stays as it was. */
  lemma {:induction false} RunHooksKeeps(h: Headers, hooks: seq<Hook>, name: string)
    requires ContainsKey(h, name)
    ensures TryGetValue(RunHooks(h, hooks), name) == TryGetValue(h, name)
    decreases |hooks|
  {
    if hooks != [] {
      var last := hooks[|hooks| - 1];
      var h' := ApplyHook(h, last);
      if !ContainsKey(h, last.name) {
        FoldIff(last.name, name);
        assert Fold(last.name) != Fold(name);
      }
      assert TryGetValue(h', name) == TryGetValue(h, name);
      RunHooksKeeps(h', hooks[..|hooks| - 1], name);
    }
  }

  /** After the hooks run, every header a hook names is present. */
  lemma {:induction false} RunHooksSets(h: Headers, hooks: seq<Hook>, k: nat)
    requires k < |hooks|
    ensures ContainsKey(RunHooks(h, hooks), hooks[k].name)
    decreases |hooks|
  {
    var last := hooks[|hooks| - 1];
    var h' := ApplyHook(h, last);
    var init := hooks[..|hooks| - 1];
    if k == |hooks| - 1 {
      assert ContainsKey(h', last.name);
      RunHooksKeeps(h', init, last.name);
    } else {
      assert init[k] == hooks[k];
      RunHooksSets(h', init, k);
    }
  }

  // ---- What the rest of the pipeline does ----

  /** The response as the pipeline sees it. */
  datatype Response = Response(status: int, headers: Headers, items: map<string, Item>, started: bool)

  /**
   * One effect of the code further down the pipeline. After the response has
   * started, status and header writes no longer change what is sent.
   */
  datatype Step =
    | SetResponseHeader(name: string, value: string)
    | RemoveResponseHeader(name: string)
    | SetItem(key: string, item: Item)
    | RemoveItem(key: string)
    | SetStatus(code: int)
    | StartResponse

  function Apply(r: Response, hooks: seq<Hook>, step: Step): Response {
    match step
    case SetResponseHeader(n, v) => if r.started then r else r.(headers := SetHeader(r.headers, n, v))
    case RemoveResponseHeader(n) => if r.started then r else r.(headers := RemoveHeader(r.headers, n))
    case SetItem(k, item) => r.(items := r.items[k := item])
    case RemoveItem(k) => r.(items := r.items - {k})
    case SetStatus(c) => if r.started then r else r.(status := c)
    case StartResponse => if r.started then r else r.(headers := RunHooks(r.headers, hooks), started := true)
  }

  /** The response after the steps, in order. */
  function Run(r: Response, hooks: seq<Hook>, steps: seq<Step>): Response
    decreases |steps|
  {
    if steps == [] then r else Run(Apply(r, hooks, steps[0]), hooks, steps[1..])
  }

  /** The parts of one request and its response that the middleware read and write. */
  class HttpContext {
    /** `Request.Path`. */
    const path: string
    /** `Request.Headers`. */
    const requestHeaders: Headers
    /** `Response.StatusCode`. */
    var statusCode: int
    /** `Response.Headers`. */
    var responseHeaders: Headers
    /** `Items`. */
    var items: map<string, Item>
    /** The callbacks given to `Response.OnStarting`, in registration order. */
    var onStarting: seq<Hook>
    /** `Response.HasStarted`. */
    var hasStarted: bool
    /** The `error` text of a JSON body written by a middleware, if one was. */
    var errorBody: Option<string>

    constructor (path: string, requestHeaders: Headers)
      ensures this.path == path && this.requestHeaders == requestHeaders
      ensures statusCode == 200 && responseHeaders == map[] && items == map[]
      ensures onStarting == [] && !hasStarted && errorBody == None
    {
      this.path := path;
      this.requestHeaders := requestHeaders;
      statusCode := 200;
      responseHeaders := map[];
      items := map[];
      onStarting := [];
      hasStarted := false;
      errorBody := None;
    }

    function Snapshot(): Response
      reads this
    {
      Response(statusCode, responseHeaders, items, hasStarted)
    }

    /** `await _next(ctx)`: the rest of the pipeline performs its steps. */
    method RunNext(steps: seq<Step>)
      modifies this`statusCode, this`responseHeaders, this`items, this`hasStarted
      ensures Snapshot() == Run(old(Snapshot()), onStarting, steps)
    {
      var i := 0;
      while i < |steps|
        invariant 0 <= i <= |steps|
        invariant Run(Snapshot(), onStarting, steps[i..]) == Run(old(Snapshot()), onStarting, steps)
        decreases |steps| - i
      {
        assert steps[i..][1..] == steps[i + 1..];
        var step := steps[i];
        i := i + 1;
        match step
        case SetResponseHeader(n, v) =>
          if !hasStarted {
            responseHeaders := SetHeader(responseHeaders, n, v);
          }
        case RemoveResponseHeader(n) =>
          if !hasStarted {
            responseHeaders := RemoveHeader(responseHeaders, n);
          }
        case SetItem(k, item) =>
          items := items[k := item];
        case RemoveItem(k) =>
          items := items - {k};
        case SetStatus(c) =>
          if !hasStarted {
            statusCode := c;
          }
        case StartResponse =>
          if !hasStarted {
            Start();
          }
      }
      assert steps[i..] == [];
    }

    /** Starting the response: the OnStarting callbacks run, the last registered first. */
    method Start()
      requires !hasStarted
      modifies this`responseHeaders, this`hasStarted
      ensures hasStarted
      ensures responseHeaders == RunHooks(old(responseHeaders), onStarting)
    {
      var i := |onStarting|;
      var h := responseHeaders;
      assert onStarting[..i] == onStarting;
      while i > 0
        invariant 0 <= i <= |onStarting|
        invariant RunHooks(h, onStarting[..i]) == RunHooks(responseHeaders, onStarting)
      {
        assert onStarting[..i][..i - 1] == onStarting[..i - 1];
        h := ApplyHook(h, onStarting[i - 1]);
        i := i - 1;
      }
      responseHeaders := h;
      hasStarted := true;
    }
  }
}
