/**
 * GUIDs in the hyphenated `D` form that `Guid.ToString()` writes: 32 lower-case
 * hexadecimal digits grouped 8-4-4-4-12.
 */
module Guids {
  import opened Wrappers
  import opened Text

  function Pow16(k: nat): (p: nat)
    ensures p >= 1
  {
    if k == 0 then 1 else 16 * Pow16(k - 1)
  }

  const DigitCount: nat := 32

  /** A GUID as the 128-bit number its 32 digits spell, in the order they are written. */
  type Guid = n: nat | n < Pow16(DigitCount)

  predicate IsHexDigit(c: char) {
    '0' <= c <= '9' || 'a' <= c <= 'f' || 'A' <= c <= 'F'
  }

  predicate AllHex(s: string) {
    forall i :: 0 <= i < |s| ==> IsHexDigit(s[i])
  }

  function HexValue(c: char): (d: nat)
    requires IsHexDigit(c)
    ensures d < 16
  {
    if c <= '9' then c as int - '0' as int
    else if c <= 'F' then c as int - 'A' as int + 10
    else c as int - 'a' as int + 10
  }

  /** The lower-case digit for `d`. */
  function HexChar(d: nat): (c: char)
    requires d < 16
    ensures IsHexDigit(c) && !('A' <= c <= 'F') && HexValue(c) == d
  {
    if d < 10 then ('0' as int + d) as char else ('a' as int + d - 10) as char
  }

  /** A digit written back from its value is the digit, up to case. */
  lemma HexCharOfValue(c: char)
    requires IsHexDigit(c)
    ensures ToUpperAscii(HexChar(HexValue(c))) == ToUpperAscii(c)
  {
  }

  /** The last `width` hexadecimal digits of `n`, lower case, padded with zeros. */
  function HexDigits(n: nat, width: nat): (s: string)
    ensures |s| == width
    ensures forall i :: 0 <= i < |s| ==> IsHexDigit(s[i]) && !('A' <= s[i] <= 'F')
  {
    if width == 0 then [] else HexDigits(n / 16, width - 1) + [HexChar(n % 16)]
  }

  /** The number a string of hexadecimal digits spells, most significant first. */
  function HexNumber(s: string): (n: nat)
    requires AllHex(s)
    ensures n < Pow16(|s|)
  {
    if s == [] then 0 else HexNumber(s[..|s| - 1]) * 16 + HexValue(s[|s| - 1])
  }

  /** Writing a number that fits and reading it back gives the number. */
  lemma {:induction false} NumberOfHexDigits(n: nat, width: nat)
    requires n < Pow16(width)
    ensures HexNumber(HexDigits(n, width)) == n
  {
    if width > 0 {
      var s := HexDigits(n, width);
      assert s[..|s| - 1] == HexDigits(n / 16, width - 1);
      NumberOfHexDigits(n / 16, width - 1);
    }
  }

  /** Reading digits and writing the number back gives the digits, up to case. */
  lemma {:induction false} HexDigitsOfNumber(s: string)
    requires AllHex(s)
    ensures EqualsIgnoreCase(HexDigits(HexNumber(s), |s|), s)
  {
    if s != [] {
      var init := s[..|s| - 1];
      var n := HexNumber(s);
      assert n / 16 == HexNumber(init) && n % 16 == HexValue(s[|s| - 1]);
      HexDigitsOfNumber(init);
      HexCharOfValue(s[|s| - 1]);
      var t := HexDigits(n, |s|);
      assert t == HexDigits(HexNumber(init), |init|) + [HexChar(HexValue(s[|s| - 1]))];
      forall i | 0 <= i < |s|
        ensures ToUpperAscii(t[i]) == ToUpperAscii(s[i])
      {
        if i < |init| {
          assert t[i] == HexDigits(HexNumber(init), |init|)[i];
          assert s[i] == init[i];
        }
      }
    }
  }

  /** The positions of the four hyphens. */
  predicate IsHyphenPosition(i: int) {
    i == 8 || i == 13 || i == 18 || i == 23
  }

  /** How many hyphens come before position `i` of the hyphenated form. */
  function HyphensBefore(i: int): int {
    if i < 9 then 0 else if i < 14 then 1 else if i < 19 then 2 else if i < 24 then 3 else 4
  }

  /** How many hyphens come before digit `k`. */
  function HyphensBeforeDigit(k: int): int {
    if k < 8 then 0 else if k < 12 then 1 else if k < 16 then 2 else if k < 20 then 3 else 4
  }

  /** Groups 32 digits as 8-4-4-4-12. */
  function Hyphenate(h: string): (s: string)
    requires |h| == DigitCount
    ensures |s| == 36
    ensures forall i :: 0 <= i < 36 ==>
              s[i] == if IsHyphenPosition(i) then '-' else h[i - HyphensBefore(i)]
  {
    h[..8] + "-" + h[8..12] + "-" + h[12..16] + "-" + h[16..20] + "-" + h[20..]
  }

  /** The digits of a 36-character string, its hyphen positions dropped. */
  function Ungroup(s: string): (h: string)
    requires |s| == 36
    ensures |h| == DigitCount
    ensures forall k :: 0 <= k < DigitCount ==> h[k] == s[k + HyphensBeforeDigit(k)]
  {
    s[..8] + s[9..13] + s[14..18] + s[19..23] + s[24..]
  }

  lemma UngroupHyphenate(h: string)
    requires |h| == DigitCount
    ensures Ungroup(Hyphenate(h)) == h
  {
  }

  /** `Guid.ToString()`. */
  function Format(g: Guid): (s: string)
    ensures |s| == 36
    ensures forall i :: 0 <= i < 36 ==>
              if IsHyphenPosition(i) then s[i] == '-' else IsHexDigit(s[i]) && !('A' <= s[i] <= 'F')
  {
    Hyphenate(HexDigits(g, DigitCount))
  }

  /** The hyphenated form, digits in either case. */
  predicate IsHyphenated(s: string) {
    && |s| == 36
    && forall i :: 0 <= i < 36 ==> if IsHyphenPosition(i) then s[i] == '-' else IsHexDigit(s[i])
  }

  /** Reading the hyphenated form, the one `Guid.ToString()` writes. */
  function ParseHyphenated(s: string): (r: Option<Guid>)
    ensures r.Some? <==> IsHyphenated(s)
  {
    if IsHyphenated(s) then
      var h := Ungroup(s);
      assert AllHex(h) by {
        forall k | 0 <= k < DigitCount
          ensures IsHexDigit(h[k])
        {
          assert !IsHyphenPosition(k + HyphensBeforeDigit(k));
        }
      }
      Some(HexNumber(h))
    else None
  }

  /** Reading back what `Format` writes gives the GUID. */
  lemma FormatParse(g: Guid)
    ensures ParseHyphenated(Format(g)) == Some(g)
  {
    var h := HexDigits(g, DigitCount);
    UngroupHyphenate(h);
    NumberOfHexDigits(g, DigitCount);
  }

  /** What is read back is what was read, save for the case of its letters. */
  lemma ParseFormat(s: string, g: Guid)
    requires ParseHyphenated(s) == Some(g)
    ensures EqualsIgnoreCase(Format(g), s)
  {
    var h := Ungroup(s);
    HexDigitsOfNumber(h);
    var f := Format(g);
    assert f == Hyphenate(HexDigits(HexNumber(h), |h|));
    forall i | 0 <= i < 36
      ensures ToUpperAscii(f[i]) == ToUpperAscii(s[i])
    {
      if !IsHyphenPosition(i) {
        var k := i - HyphensBefore(i);
        assert k + HyphensBeforeDigit(k) == i;
      }
    }
  }

  /** Distinct GUIDs are written differently. */
  lemma FormatInjective(a: Guid, b: Guid)
    requires Format(a) == Format(b)
    ensures a == b
  {
    FormatParse(a);
    FormatParse(b);
  }

  lemma FormatNotBlank(g: Guid)
    ensures !IsBlank(Format(g))
  {
    assert !IsWhiteSpace(Format(g)[8]);
  }
}

/**
 * `CorrelationIdMiddleware`: every request gets a correlation id, the one it
 * sent when that reads as a GUID and a new one otherwise. The id is kept in
 * `Items` and put on the response by an `OnStarting` callback, with a second
 * attempt from `Items` once the rest of the pipeline returns.
 */
module CorrelationId {
  import opened Wrappers
  import opened Text
  import opened Http
  import opened Guids

  const HeaderName := "X-Correlation-Id"

  /** `Guid.TryParse`, which also accepts forms other than the hyphenated one. */
  type GuidParser = string -> Option<Guid>

  /** The GUID the request's own header reads as, if it has one. */
  function IncomingGuid(headers: Headers, tryParse: GuidParser): Option<Guid> {
    match TryGetValue(headers, HeaderName)
    case None => None
    case Some(values) => tryParse(JoinValues(values))
  }

  /**
   * The id of the request: the incoming GUID rewritten in canonical form, or
   * `minted`, the `Guid.NewGuid()` of this request.
   */
  function ChooseId(headers: Headers, tryParse: GuidParser, minted: Guid): (cid: string)
    ensures !IsBlank(cid) && |cid| == 36
    ensures IncomingGuid(headers, tryParse).Some? ==> cid == Format(IncomingGuid(headers, tryParse).value)
    ensures IncomingGuid(headers, tryParse).None? ==> cid == Format(minted)
  {
    var g := match IncomingGuid(headers, tryParse) case Some(g) => g case None => minted;
    FormatNotBlank(g);
    Format(g)
  }

  /** A request carrying an id in canonical form gets that same id back. */
  lemma EchoesCanonicalId(headers: Headers, g: Guid, minted: Guid)
    requires TryGetValue(headers, HeaderName) == Some([Format(g)])
    ensures ChooseId(headers, ParseHyphenated, minted) == Format(g)
  {
    FormatParse(g);
  }

  /** A hyphenated id in any case comes back as itself up to the case of its letters. */
  lemma EchoesUpToCase(headers: Headers, incoming: string, minted: Guid)
    requires TryGetValue(headers, HeaderName) == Some([incoming])
    requires IsHyphenated(incoming)
    ensures EqualsIgnoreCase(ChooseId(headers, ParseHyphenated, minted), incoming)
  {
    ParseFormat(incoming, ParseHyphenated(incoming).value);
  }

  /** A header that does not read as a GUID is replaced by the minted one. */
  lemma MintsForMalformed(headers: Headers, tryParse: GuidParser, minted: Guid)
    requires TryGetValue(headers, HeaderName).Some?
    requires tryParse(JoinValues(TryGetValue(headers, HeaderName).value)).None?
    ensures ChooseId(headers, tryParse, minted) == Format(minted)
  {
  }

  /**
   * Several header lines are joined skipping the empty ones: an empty line
   * beside a canonical id still has that id echoed.
   */
  lemma EchoesIdBesideEmptyLine(headers: Headers, g: Guid, minted: Guid)
    requires TryGetValue(headers, HeaderName) == Some(["", Format(g)])
    ensures ChooseId(headers, ParseHyphenated, minted) == Format(g)
  {
    FormatNotBlank(g);
    NonBlankIsNonEmpty(Format(g));
    OneNonEmptyValue(["", Format(g)], 1);
    FormatParse(g);
  }

  /**
   * The check after `next`: the header is put back from `Items` if it went
   * missing. Like every header write, it does nothing once the response has
   * started; `StartedResponseHasHeader` shows the header is then present anyway.
   */
  function Restore(r: Response): (h: Headers)
    ensures ContainsKey(r.headers, HeaderName) || r.started ==> h == r.headers
    ensures && !r.started && !ContainsKey(r.headers, HeaderName) && HeaderName in r.items
            && r.items[HeaderName].StringItem? && !IsBlank(r.items[HeaderName].s)
            ==> TryGetValue(h, HeaderName) == Some([r.items[HeaderName].s])
  {
    if && !r.started
       && !ContainsKey(r.headers, HeaderName)
       && HeaderName in r.items
       && r.items[HeaderName].StringItem?
       && !IsBlank(r.items[HeaderName].s)
    then SetHeader(r.headers, HeaderName, r.items[HeaderName].s)
    else r.headers
  }

  /**
   * One request through the middleware: `next` are the steps of the rest of
   * the pipeline, `minted` the GUID `Guid.NewGuid()` returns.
   */
  method Invoke(ctx: HttpContext, tryParse: GuidParser, minted: Guid, next: seq<Step>) returns (cid: string)
    modifies ctx`items, ctx`onStarting, ctx`responseHeaders, ctx`hasStarted, ctx`statusCode
    ensures cid == ChooseId(ctx.requestHeaders, tryParse, minted)
    ensures ctx.onStarting == old(ctx.onStarting) + [SetIfAbsent(HeaderName, cid)]
    ensures var after := Run(old(ctx.Snapshot()).(items := old(ctx.items)[HeaderName := StringItem(cid)]), ctx.onStarting, next);
            && ctx.statusCode == after.status
            && ctx.items == after.items
            && ctx.hasStarted == after.started
            && ctx.responseHeaders == Restore(after)
    ensures !old(ctx.hasStarted) && ctx.hasStarted ==> ContainsKey(ctx.responseHeaders, HeaderName)
  {
    var incoming := None;
    var values := TryGetValue(ctx.requestHeaders, HeaderName);
    if values.Some? {
      var g := tryParse(JoinValues(values.value));
      if g.Some? {
        incoming := Some(Format(g.value));
      }
    }
    cid := if incoming.Some? then incoming.value else Format(minted);
    ctx.items := ctx.items[HeaderName := StringItem(cid)];
    ctx.onStarting := ctx.onStarting + [SetIfAbsent(HeaderName, cid)];
    ghost var before := ctx.Snapshot();
    if !before.started {
      StartedResponseHasHeader(before, ctx.onStarting, next, |ctx.onStarting| - 1);
    }
    ctx.RunNext(next);
    assert !before.started && ctx.hasStarted ==> ContainsKey(ctx.responseHeaders, HeaderName);
    var item := if HeaderName in ctx.items then Some(ctx.items[HeaderName]) else None;
    if && !ctx.hasStarted
       && !ContainsKey(ctx.responseHeaders, HeaderName)
       && item.Some? && item.value.StringItem? && !IsBlank(item.value.s)
    {
      ctx.responseHeaders := SetHeader(ctx.responseHeaders, HeaderName, item.value.s);
    }
  }

  /**
   * With the set-if-absent hook registered, a response that has started
   * carries the header: the hook wrote it at the start if nothing had. So the
   * fallback after `next` is never held back by the start.
   */
  lemma {:induction false} StartedResponseHasHeader(r: Response, hooks: seq<Hook>, steps: seq<Step>, k: nat)
    requires k < |hooks| && hooks[k].name == HeaderName
    requires r.started ==> ContainsKey(r.headers, HeaderName)
    ensures Run(r, hooks, steps).started ==> ContainsKey(Run(r, hooks, steps).headers, HeaderName)
    decreases |steps|
  {
    if steps != [] {
      if !r.started && steps[0].StartResponse? {
        RunHooksSets(r.headers, hooks, k);
      }
      StartedResponseHasHeader(Apply(r, hooks, steps[0]), hooks, steps[1..], k);
    }
  }

  // ---- The guarantee ----

  /** Every value of the response's correlation header is non-blank. */
  predicate NoBlankId(h: Headers) {
    forall v :: v in ValuesOf(h, HeaderName) ==> !IsBlank(v)
  }

  /** The response carries the header, and only non-blank values in it. */
  predicate CarriesId(h: Headers) {
    ContainsKey(h, HeaderName) && NoBlankId(h)
  }

  predicate SetsBlankId(step: Step) {
    step.SetResponseHeader? && Fold(step.name) == Fold(HeaderName) && IsBlank(step.value)
  }

  predicate NeverSetsBlankId(steps: seq<Step>) {
    forall i :: 0 <= i < |steps| ==> !SetsBlankId(steps[i])
  }

  predicate HookSetsBlankId(hook: Hook) {
    Fold(hook.name) == Fold(HeaderName) && IsBlank(hook.value)
  }

  predicate NoHookSetsBlankId(hooks: seq<Hook>) {
    forall i :: 0 <= i < |hooks| ==> !HookSetsBlankId(hooks[i])
  }

  lemma SetHeaderKeepsNoBlankId(h: Headers, name: string, value: string)
    requires NoBlankId(h)
    requires Fold(name) == Fold(HeaderName) ==> !IsBlank(value)
    ensures NoBlankId(SetHeader(h, name, value))
  {
    if Fold(name) != Fold(HeaderName) {
      assert TryGetValue(SetHeader(h, name, value), HeaderName) == TryGetValue(h, HeaderName);
    }
  }

  lemma RemoveHeaderKeepsNoBlankId(h: Headers, name: string)
    requires NoBlankId(h)
    ensures NoBlankId(RemoveHeader(h, name))
  {
    if Fold(name) != Fold(HeaderName) {
      assert TryGetValue(RemoveHeader(h, name), HeaderName) == TryGetValue(h, HeaderName);
    }
  }

  lemma {:induction false} RunHooksKeepsNoBlankId(h: Headers, hooks: seq<Hook>)
    requires NoBlankId(h) && NoHookSetsBlankId(hooks)
    ensures NoBlankId(RunHooks(h, hooks))
    decreases |hooks|
  {
    if hooks != [] {
      var last := hooks[|hooks| - 1];
      assert !HookSetsBlankId(last);
      if !ContainsKey(h, last.name) {
        SetHeaderKeepsNoBlankId(h, last.name, last.value);
      }
      var init := hooks[..|hooks| - 1];
      assert forall i :: 0 <= i < |init| ==> init[i] == hooks[i];
      RunHooksKeepsNoBlankId(ApplyHook(h, last), init);
    }
  }

  /**
   * The invariant the rest of the pipeline keeps: no blank id, and once the
   * response has started, an id, given that a hook for the header is registered.
   */
  predicate IdInvariant(r: Response) {
    NoBlankId(r.headers) && (r.started ==> ContainsKey(r.headers, HeaderName))
  }

  lemma {:induction false} RunKeepsIdInvariant(r: Response, hooks: seq<Hook>, steps: seq<Step>, k: nat)
    requires k < |hooks| && hooks[k].name == HeaderName
    requires NoHookSetsBlankId(hooks) && NeverSetsBlankId(steps)
    requires IdInvariant(r)
    ensures IdInvariant(Run(r, hooks, steps))
    decreases |steps|
  {
    if steps != [] {
      var r' := Apply(r, hooks, steps[0]);
      assert !SetsBlankId(steps[0]);
      if !r.started {
        match steps[0]
        case SetResponseHeader(n, v) =>
          SetHeaderKeepsNoBlankId(r.headers, n, v);
        case RemoveResponseHeader(n) =>
          RemoveHeaderKeepsNoBlankId(r.headers, n);
        case StartResponse =>
          RunHooksKeepsNoBlankId(r.headers, hooks);
          RunHooksSets(r.headers, hooks, k);
        case _ =>
      }
      assert IdInvariant(r');
      var rest := steps[1..];
      assert forall i :: 0 <= i < |rest| ==> rest[i] == steps[i + 1];
      RunKeepsIdInvariant(r', hooks, rest, k);
    }
  }

  /**
   * Whatever the rest of the pipeline does, short of writing a blank id
   * itself, the response goes out carrying a non-blank correlation id. `r` and
   * `hooks` are the response and callbacks before the middleware runs; the
   * response starts at the latest when the pipeline returns.
   */
  lemma EveryResponseCarriesId(r: Response, hooks: seq<Hook>, cid: string, next: seq<Step>)
    requires !r.started && NoBlankId(r.headers)
    requires !IsBlank(cid)
    requires NoHookSetsBlankId(hooks) && NeverSetsBlankId(next)
    ensures var all := hooks + [SetIfAbsent(HeaderName, cid)];
            var after := Run(r.(items := r.items[HeaderName := StringItem(cid)]), all, next);
            var restored := Restore(after);
            CarriesId(if after.started then restored else RunHooks(restored, all))
  {
    var all := hooks + [SetIfAbsent(HeaderName, cid)];
    assert forall i :: 0 <= i < |all| ==> all[i] == if i < |hooks| then hooks[i] else SetIfAbsent(HeaderName, cid);
    var r1 := r.(items := r.items[HeaderName := StringItem(cid)]);
    RunKeepsIdInvariant(r1, all, next, |hooks|);
    var after := Run(r1, all, next);
    var restored := Restore(after);
    if !ContainsKey(after.headers, HeaderName) && restored != after.headers {
      SetHeaderKeepsNoBlankId(after.headers, HeaderName, after.items[HeaderName].s);
    }
    if !after.started {
      RunHooksKeepsNoBlankId(restored, all);
      RunHooksSets(restored, all, |hooks|);
    }
  }

  /** Whether a step touches the correlation header or the id in `Items`. */
  predicate TouchesId(step: Step) {
    match step
    case SetResponseHeader(n, _) => Fold(n) == Fold(HeaderName)
    case RemoveResponseHeader(n) => Fold(n) == Fold(HeaderName)
    case SetItem(k, _) => k == HeaderName
    case RemoveItem(k) => k == HeaderName
    case _ => false
  }

  predicate LeavesIdAlone(steps: seq<Step>) {
    forall i :: 0 <= i < |steps| ==> !TouchesId(steps[i])
  }

  /** Before the response starts the header is absent; after, it holds the id. */
  predicate HoldsOnlyId(r: Response, cid: string) {
    && HeaderName in r.items && r.items[HeaderName] == StringItem(cid)
    && (!r.started ==> !ContainsKey(r.headers, HeaderName))
    && (r.started ==> TryGetValue(r.headers, HeaderName) == Some([cid]))
  }

  lemma {:induction false} RunKeepsOnlyId(r: Response, hooks: seq<Hook>, cid: string, steps: seq<Step>)
    requires |hooks| > 0 && hooks[|hooks| - 1] == SetIfAbsent(HeaderName, cid)
    requires LeavesIdAlone(steps) && HoldsOnlyId(r, cid)
    ensures HoldsOnlyId(Run(r, hooks, steps), cid)
    decreases |steps|
  {
    if steps != [] {
      var r' := Apply(r, hooks, steps[0]);
      assert !TouchesId(steps[0]);
      if !r.started {
        match steps[0]
        case SetResponseHeader(n, v) =>
          assert TryGetValue(r'.headers, HeaderName) == TryGetValue(r.headers, HeaderName);
        case RemoveResponseHeader(n) =>
          assert TryGetValue(r'.headers, HeaderName) == TryGetValue(r.headers, HeaderName);
        case StartResponse =>
          var h1 := ApplyHook(r.headers, hooks[|hooks| - 1]);
          assert TryGetValue(h1, HeaderName) == Some([cid]);
          RunHooksKeeps(h1, hooks[..|hooks| - 1], HeaderName);
        case _ =>
      }
      var rest := steps[1..];
      assert forall i :: 0 <= i < |rest| ==> rest[i] == steps[i + 1];
      RunKeepsOnlyId(r', hooks, cid, rest);
    }
  }

  /**
   * When nothing before or after the middleware writes the header or the id in
   * `Items`, the response carries exactly the chosen id. The middleware's
   * callback is registered last and so runs first.
   */
  lemma ResponseCarriesChosenId(r: Response, hooks: seq<Hook>, cid: string, next: seq<Step>)
    requires !r.started && !ContainsKey(r.headers, HeaderName)
    requires LeavesIdAlone(next)
    ensures var all := hooks + [SetIfAbsent(HeaderName, cid)];
            var after := Run(r.(items := r.items[HeaderName := StringItem(cid)]), all, next);
            var restored := Restore(after);
            TryGetValue(if after.started then restored else RunHooks(restored, all), HeaderName) == Some([cid])
  {
    var all := hooks + [SetIfAbsent(HeaderName, cid)];
    var r1 := r.(items := r.items[HeaderName := StringItem(cid)]);
    RunKeepsOnlyId(r1, all, cid, next);
    var after := Run(r1, all, next);
    if !after.started {
      var restored := Restore(after);
      if IsBlank(cid) {
        assert restored == after.headers;
        assert all[..|all| - 1] == hooks;
        var h1 := ApplyHook(restored, all[|all| - 1]);
        assert TryGetValue(h1, HeaderName) == Some([cid]);
        RunHooksKeeps(h1, hooks, HeaderName);
      } else {
        assert TryGetValue(restored, HeaderName) == Some([cid]);
        RunHooksKeeps(restored, all, HeaderName);
      }
    }
  }

  /**
   * The middleware followed by the server starting the response, if the
   * pipeline did not: the response that goes out carries a non-blank id.
   */
  method Handle(ctx: HttpContext, tryParse: GuidParser, minted: Guid, next: seq<Step>) returns (cid: string)
    requires !ctx.hasStarted && NoBlankId(ctx.responseHeaders)
    requires NoHookSetsBlankId(ctx.onStarting) && NeverSetsBlankId(next)
    modifies ctx`items, ctx`onStarting, ctx`responseHeaders, ctx`hasStarted, ctx`statusCode
    ensures cid == ChooseId(ctx.requestHeaders, tryParse, minted)
    ensures ctx.hasStarted && CarriesId(ctx.responseHeaders)
  {
    EveryResponseCarriesId(ctx.Snapshot(), ctx.onStarting, ChooseId(ctx.requestHeaders, tryParse, minted), next);
    cid := Invoke(ctx, tryParse, minted, next);
    if !ctx.hasStarted {
      ctx.Start();
    }
  }
}
