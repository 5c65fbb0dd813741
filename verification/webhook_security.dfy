/** The Mailgun webhook verifier of src/modules/webhooks/webhooks.security.ts:
    a freshness window on the signed timestamp, a one-time-token ledger with
    expiry, and an HMAC-SHA256 signature compared in constant time; plus the
    middleware that gathers the three signature fields from the request. */
module WebhookSecurity {
  import opened Common
  import Decimal
  import CryptoUtils

  /** The replay ledger: token -> instant (milliseconds) at which its entry
      `webhook:token:<token>` expires. */
  type Ledger = map<string, int>

  /** Largest accepted distance, in seconds, between the signed timestamp and
      the current time. */
  const WindowSeconds: int := 300

  /** Lifetime of a ledger entry, in seconds. */
  const TokenTtlSeconds: int := 600

  /** The ledger still holds `token` at `nowMs`. */
  predicate Seen(ledger: Ledger, token: string, nowMs: int) {
    token in ledger && nowMs < ledger[token]
  }

  function Abs(x: int): int {
    if x < 0 then -x else x
  }

  /** `Math.floor(Date.now() / 1000)`: Dafny's division by a positive divisor
      already rounds toward negative infinity. */
  function CurrentSeconds(nowMs: int): int {
    nowMs / 1000
  }

  /** The timestamp parses and lies within the window around the current time. */
  predicate Fresh(timestamp: string, nowMs: int) {
    var parsed := Decimal.ParseInt(timestamp);
    parsed.Some? && -WindowSeconds <= CurrentSeconds(nowMs) - parsed.value <= WindowSeconds
  }

  /** The signature is the hex HMAC-SHA256 of `timestamp ++ token` under a
      configured (non-empty) signing key. */
  predicate Authentic(hmac: CryptoUtils.HmacHex, signingKey: Option<string>,
                      timestamp: string, token: string, signature: string) {
    Truthy(signingKey) && signature == hmac(signingKey.value, timestamp + token)
  }

  datatype Verdict = Verdict(valid: bool, ledger: Ledger)

  /** `verifyMailgunSignature(timestamp, token, signature)`. The clock, the
      `MAILGUN_WEBHOOK_SIGNING_KEY` setting and the HMAC primitive are
      parameters. A missing key and a length mismatch in the comparison both
      throw inside the `try` and come back as `false`. */
  function VerifyMailgunSignature(ledger: Ledger, nowMs: int, signingKey: Option<string>,
                                  hmac: CryptoUtils.HmacHex,
                                  timestamp: string, token: string, signature: string): (v: Verdict)
    // accepted exactly when fresh, unseen and authentic
    ensures v.valid <==>
      Fresh(timestamp, nowMs) && !Seen(ledger, token, nowMs) && Authentic(hmac, signingKey, timestamp, token, signature)
    // the token is consumed exactly when it passes the window and the ledger,
    // before (and whatever the outcome of) the signature check
    ensures Fresh(timestamp, nowMs) && !Seen(ledger, token, nowMs) ==>
      v.ledger == ledger[token := nowMs + TokenTtlSeconds * 1000]
    ensures !(Fresh(timestamp, nowMs) && !Seen(ledger, token, nowMs)) ==> v.ledger == ledger
  {
    match Decimal.ParseInt(timestamp)
    case None => Verdict(false, ledger)
    case Some(messageTime) =>
      if Abs(CurrentSeconds(nowMs) - messageTime) > WindowSeconds then Verdict(false, ledger)
      else if Seen(ledger, token, nowMs) then Verdict(false, ledger)
      else
        var recorded := ledger[token := nowMs + TokenTtlSeconds * 1000];
        if !Truthy(signingKey) then Verdict(false, recorded)
        else
          var expected := hmac(signingKey.value, timestamp + token);
          Verdict(CryptoUtils.TimingSafeEqual(signature, expected), recorded)
  }

  /** A token accepted into the ledger makes every later use of it within
      its lifetime fail, whatever signature comes with it. */
  lemma ReplayRejected(ledger: Ledger, nowMs: int, laterMs: int, signingKey: Option<string>,
                       hmac: CryptoUtils.HmacHex, timestamp: string, token: string,
                       signature: string, timestamp2: string, signature2: string)
    requires nowMs <= laterMs < nowMs + TokenTtlSeconds * 1000
    requires VerifyMailgunSignature(ledger, nowMs, signingKey, hmac, timestamp, token, signature).valid
    ensures !VerifyMailgunSignature(
              VerifyMailgunSignature(ledger, nowMs, signingKey, hmac, timestamp, token, signature).ledger,
              laterMs, signingKey, hmac, timestamp2, token, signature2).valid
  {
  }

  /** A first attempt that fails only on its signature still burns the token:
      a retry within the lifetime fails even with the right signature. */
  lemma FailedSignatureConsumesToken(ledger: Ledger, nowMs: int, laterMs: int, signingKey: Option<string>,
                                     hmac: CryptoUtils.HmacHex, timestamp: string, token: string,
                                     badSignature: string)
    requires Fresh(timestamp, nowMs) && !Seen(ledger, token, nowMs)
    requires nowMs <= laterMs < nowMs + TokenTtlSeconds * 1000
    ensures !VerifyMailgunSignature(
              VerifyMailgunSignature(ledger, nowMs, signingKey, hmac, timestamp, token, badSignature).ledger,
              laterMs, signingKey, hmac, timestamp, token, hmac(OrEmpty(signingKey), timestamp + token)).valid
  {
  }

  /** The window is inclusive: 300 seconds either way passes, 301 does not. */
  lemma WindowBoundary(t: nat)
    requires t >= 301
    ensures Fresh(Decimal.ToDecimal(t), (t + 300) * 1000)
    ensures Fresh(Decimal.ToDecimal(t), (t - 300) * 1000)
    ensures !Fresh(Decimal.ToDecimal(t), (t + 301) * 1000)
    ensures !Fresh(Decimal.ToDecimal(t), (t - 301) * 1000)
  {
    Decimal.ParseToDecimal(t, "");
    assert Decimal.ToDecimal(t) + "" == Decimal.ToDecimal(t);
  }

  // --------------------------------------------------------------- middleware

  /** The three signature values as one place of the request carries them. */
  datatype SignatureFields = SignatureFields(timestamp: Option<string>, token: Option<string>, signature: Option<string>)

  datatype Response = Forbidden(error: string) | Next

  datatype Decision = Decision(response: Response, ledger: Ledger)

  /** Header value first, body field otherwise (`header || body`). */
  function Gather(headers: SignatureFields, body: SignatureFields): (f: SignatureFields)
    ensures Truthy(headers.timestamp) ==> f.timestamp == headers.timestamp
    ensures Truthy(headers.token) ==> f.token == headers.token
    ensures Truthy(headers.signature) ==> f.signature == headers.signature
    ensures !Truthy(headers.timestamp) ==> f.timestamp == body.timestamp
    ensures !Truthy(headers.token) ==> f.token == body.token
    ensures !Truthy(headers.signature) ==> f.signature == body.signature
  {
    SignatureFields(OrElse(headers.timestamp, body.timestamp),
                    OrElse(headers.token, body.token),
                    OrElse(headers.signature, body.signature))
  }

  predicate Complete(f: SignatureFields) {
    Truthy(f.timestamp) && Truthy(f.token) && Truthy(f.signature)
  }

  /** `verifyWebhookMiddleware`: 403 'Missing signature parameters' without
      consulting the verifier when a field is absent, 403 'Invalid signature'
      when the verifier says no, and `next()` only when it says yes. */
  function VerifyWebhookMiddleware(ledger: Ledger, nowMs: int, signingKey: Option<string>,
                                   hmac: CryptoUtils.HmacHex,
                                   headers: SignatureFields, body: SignatureFields): (d: Decision)
    ensures !Complete(Gather(headers, body)) ==>
      d == Decision(Forbidden("Missing signature parameters"), ledger)
    ensures Complete(Gather(headers, body)) ==>
      var f := Gather(headers, body);
      var v := VerifyMailgunSignature(ledger, nowMs, signingKey, hmac, f.timestamp.value, f.token.value, f.signature.value);
      && d.ledger == v.ledger
      && (d.response == Next <==> v.valid)
      && (!v.valid ==> d.response == Forbidden("Invalid signature"))
  {
    var f := Gather(headers, body);
    if !Complete(f) then Decision(Forbidden("Missing signature parameters"), ledger)
    else
      var v := VerifyMailgunSignature(ledger, nowMs, signingKey, hmac, f.timestamp.value, f.token.value, f.signature.value);
      if v.valid then Decision(Next, v.ledger) else Decision(Forbidden("Invalid signature"), v.ledger)
  }

  /** The middleware lets a request through only when it is fresh, its token
      unseen and its signature authentic. */
  lemma MiddlewarePassesOnlyAuthentic(ledger: Ledger, nowMs: int, signingKey: Option<string>,
                                      hmac: CryptoUtils.HmacHex,
                                      headers: SignatureFields, body: SignatureFields)
    requires VerifyWebhookMiddleware(ledger, nowMs, signingKey, hmac, headers, body).response == Next
    ensures var f := Gather(headers, body);
      && Complete(f)
      && Fresh(f.timestamp.value, nowMs)
      && !Seen(ledger, f.token.value, nowMs)
      && Authentic(hmac, signingKey, f.timestamp.value, f.token.value, f.signature.value)
  {
  }
}
