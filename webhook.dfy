/**
 * `POST /square/webhook`: every call is recorded in SquareEvents, marked
 * processed when its HMAC-SHA256 signature checks out; a bad signature is
 * answered 401, anything else 200.
 */
module SquareWebhook {
  import opened Wrappers
  import opened Http
  import opened Models
  import opened Data

  const SignatureHeader := "X-Square-HmacSHA256-Signature"
  const EventTypeHeader := "X-Square-Event-Type"
  const UnknownEventType := "unknown"
  /** Every event is filed under store 1; there is no mapping from Square's locations yet. */
  const MappedStoreId := 1

  newtype byte = b: int | 0 <= b < 256

  /** The primitives the controller calls: UTF-8 encoding, HMAC-SHA256 keyed by its first argument, Base64. */
  datatype Crypto = Crypto(
    utf8: string -> seq<byte>,
    hmacSha256: (seq<byte>, seq<byte>) -> seq<byte>,
    base64: seq<byte> -> string)

  /** `cfg["Square:WebhookSignatureKey"] ?? ""`. */
  function Secret(configured: Option<string>): (s: string)
    ensures configured.Some? ==> s == configured.value
    ensures configured.None? ==> s == ""
  {
    match configured case Some(k) => k case None => ""
  }

  /** The first value of a header, or `fallback` without one. */
  function FirstOr(headers: Headers, name: string, fallback: string): (v: string)
    ensures ContainsKey(headers, name) && |ValuesOf(headers, name)| > 0 ==> v == ValuesOf(headers, name)[0]
    ensures !ContainsKey(headers, name) || ValuesOf(headers, name) == [] ==> v == fallback
  {
    match FirstOrDefault(ValuesOf(headers, name)) case Some(v) => v case None => fallback
  }

  /** The signature Square would send for `body`: none is computed without a secret. */
  function Computed(secret: string, body: string, crypto: Crypto): (c: string)
    ensures secret != "" ==> c == crypto.base64(crypto.hmacSha256(crypto.utf8(secret), crypto.utf8(body)))
    ensures secret == "" ==> c == ""
  {
    if secret == "" then "" else crypto.base64(crypto.hmacSha256(crypto.utf8(secret), crypto.utf8(body)))
  }

  /** `sig == computed || string.IsNullOrEmpty(secret)`. */
  predicate SignatureValid(sig: string, secret: string, body: string, crypto: Crypto) {
    sig == Computed(secret, body, crypto) || secret == ""
  }

  /** Without a secret every call is valid; with one, exactly those whose signature is the HMAC of the body. */
  lemma SignatureValidIff(sig: string, secret: string, body: string, crypto: Crypto)
    ensures SignatureValid(sig, secret, body, crypto) <==>
              secret == "" || sig == crypto.base64(crypto.hmacSha256(crypto.utf8(secret), crypto.utf8(body)))
  {
  }

  /** The row recorded for a call, before the database gives it an id. */
  function AuditRecord(headers: Headers, body: string, valid: bool, receivedAt: DateTime): (ev: SquareEventRaw)
    ensures ev.storeId == MappedStoreId && ev.payload == body && ev.processed == valid && ev.receivedAt == receivedAt
    ensures ev.signature == FirstOr(headers, SignatureHeader, "")
    ensures ev.eventType == FirstOr(headers, EventTypeHeader, UnknownEventType)
  {
    SquareEventRaw(0, MappedStoreId, FirstOr(headers, EventTypeHeader, UnknownEventType),
                   FirstOr(headers, SignatureHeader, ""), body, receivedAt, valid)
  }

  /** The body of the 200 answer, `{ ok = true }`. */
  datatype Ack = Ack(ok: bool)

  /**
   * One webhook call. `body` is the request body read as UTF-8 text,
   * `configured` the configured signing key, `now` the `DateTime.UtcNow` of
   * the call. The call is stored whether or not its signature holds.
   */
  method Post(db: AppDb, headers: Headers, body: string, configured: Option<string>, crypto: Crypto, now: DateTime)
    returns (result: ActionResult<Ack>)
    requires db.Valid()
    modifies db`squareEvents, db`nextSquareEventId
    ensures db.Valid()
    ensures var valid := SignatureValid(FirstOr(headers, SignatureHeader, ""), Secret(configured), body, crypto);
            && db.squareEvents == old(db.squareEvents) + [AuditRecord(headers, body, valid, now).(id := old(db.nextSquareEventId))]
            && result == if valid then Ok(Ack(true)) else Unauthorized
  {
    var secret := Secret(configured);
    var sig := FirstOr(headers, SignatureHeader, "");
    var computed := "";
    if secret != "" {
      computed := crypto.base64(crypto.hmacSha256(crypto.utf8(secret), crypto.utf8(body)));
    }
    var valid := sig == computed || secret == "";
    var ev := SquareEventRaw(0, MappedStoreId, FirstOr(headers, EventTypeHeader, UnknownEventType), sig, body, now, valid);
    var _ := db.AppendSquareEvent(ev);
    if !valid {
      return Unauthorized;
    }
    return Ok(Ack(true));
  }

  /**
   * With a secret configured, a call without a signature header is accepted
   * only if the computed signature is itself empty.
   */
  lemma UnsignedCallNeedsEmptyDigest(headers: Headers, secret: string, body: string, crypto: Crypto)
    requires !ContainsKey(headers, SignatureHeader) && secret != ""
    ensures SignatureValid(FirstOr(headers, SignatureHeader, ""), secret, body, crypto) <==>
              crypto.base64(crypto.hmacSha256(crypto.utf8(secret), crypto.utf8(body))) == ""
  {
  }
}
