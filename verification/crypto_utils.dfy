/** The helpers of src/utils/crypto.utils.ts: the length-safe constant-time
    comparison, HMAC signature checking, and the per-user receiving address
    ("alias") `u-<userId>@<domain>` with its inverse. */
module CryptoUtils {
  import opened Common

  /** HMAC-SHA256 (RFC 2104 over FIPS 180-4 SHA-256) of a message under a key,
      rendered as lower-case hex: `(key, message) -> digest`. The primitive is
      a parameter of the model, never computed. */
  type HmacHex = (string, string) -> string

  /** The domain used when `MAILGUN_DOMAIN` is unset or empty. */
  const DefaultAliasDomain: string := "newsletters.coretent.app"

  // ---------------------------------------------------- constant-time equality

  /** Number of positions at which two equally long strings differ. Every
      position is visited: the count never stops at the first difference. */
  function Mismatches(a: string, b: string): nat
    requires |a| == |b|
  {
    if |a| == 0 then 0 else (if a[0] != b[0] then 1 else 0) + Mismatches(a[1..], b[1..])
  }

  lemma {:induction false} MismatchesZero(a: string, b: string)
    requires |a| == |b|
    ensures Mismatches(a, b) == 0 <==> a == b
    decreases |a|
  {
    if |a| > 0 {
      MismatchesZero(a[1..], b[1..]);
      assert a == [a[0]] + a[1..];
      assert b == [b[0]] + b[1..];
    }
  }

  /** `timingSafeEqual(a, b)`: the library comparison throws on a length
      mismatch, which the helper turns into `false`; otherwise it compares
      every byte. Encoding to UTF-8 is injective, so comparing the encodings
      is comparing the strings. */
  function TimingSafeEqual(a: string, b: string): (r: bool)
    ensures r <==> a == b
  {
    if |a| != |b| then false
    else
      MismatchesZero(a, b);
      Mismatches(a, b) == 0
  }

  /** `generateHmacSignature(data, secret)` */
  function HmacSignature(hmac: HmacHex, data: string, secret: string): string {
    hmac(secret, data)
  }

  /** `verifyHmacSignature(data, signature, secret)`: accepts exactly the
      signature the primitive computes for `data` under `secret`. */
  function VerifyHmacSignature(hmac: HmacHex, data: string, signature: string, secret: string): (r: bool)
    ensures r <==> signature == hmac(secret, data)
  {
    TimingSafeEqual(signature, HmacSignature(hmac, data, secret))
  }

  // ------------------------------------------------------------------ aliases

  /** A character of the class `[a-f0-9-]` under the case-insensitive flag. */
  predicate IsIdChar(c: char) {
    ('0' <= c <= '9') || ('a' <= c <= 'f') || ('A' <= c <= 'F') || c == '-'
  }

  /** A user id the alias pattern can carry: non-empty, hex digits and '-'. */
  predicate IsAliasId(id: string) {
    |id| > 0 && forall i :: 0 <= i < |id| ==> IsIdChar(id[i])
  }

  /** `alias` begins with `u-` (either case of `u`), then `id`, then '@'. */
  predicate AliasCarries(alias: string, id: string) {
    && IsAliasId(id)
    && |alias| >= |id| + 3
    && (alias[0] == 'u' || alias[0] == 'U')
    && alias[1] == '-'
    && alias[2..2 + |id|] == id
    && alias[2 + |id|] == '@'
  }

  /** Length of the longest prefix made of id characters. */
  function IdRun(s: string): (k: nat)
    ensures k <= |s|
    ensures forall i :: 0 <= i < k ==> IsIdChar(s[i])
    ensures k < |s| ==> !IsIdChar(s[k])
    decreases |s|
  {
    if |s| > 0 && IsIdChar(s[0]) then 1 + IdRun(s[1..]) else 0
  }

  /** A maximal run of id characters is the one `IdRun` measures. */
  lemma {:induction false} IdRunOf(s: string, m: nat)
    requires m <= |s|
    requires forall i :: 0 <= i < m ==> IsIdChar(s[i])
    requires m < |s| ==> !IsIdChar(s[m])
    ensures IdRun(s) == m
    decreases m
  {
    if m > 0 {
      IdRunOf(s[1..], m - 1);
    }
  }

  /** Only the maximal id run can be followed by '@'. */
  lemma CarriedIdIsRun(alias: string, id: string)
    requires AliasCarries(alias, id)
    ensures |id| == IdRun(alias[2..])
  {
    var s := alias[2..];
    assert forall i :: 0 <= i < |id| ==> s[i] == id[i];
    IdRunOf(s, |id|);
  }

  /** `extractUserIdFromEmailAlias(alias)`: the match of `^u-([a-f0-9-]+)@`
      with the `i` flag. The greedy run cannot end before a '@' that it could
      also have consumed, so the captured id is the whole run. */
  function ExtractUserId(alias: string): (r: Option<string>)
    ensures forall id :: AliasCarries(alias, id) <==> r == Some(id)
    ensures r.Some? ==> IsAliasId(r.value)
  {
    if |alias| >= 2 && (alias[0] == 'u' || alias[0] == 'U') && alias[1] == '-' then
      var k := IdRun(alias[2..]);
      if k > 0 && 2 + k < |alias| && alias[2 + k] == '@' then
        var id := alias[2..2 + k];
        assert AliasCarries(alias, id);
        assert forall other :: AliasCarries(alias, other) ==> other == id by {
          forall other | AliasCarries(alias, other) ensures other == id {
            CarriedIdIsRun(alias, other);
          }
        }
        Some(id)
      else
        assert forall other :: !AliasCarries(alias, other) by {
          forall other | AliasCarries(alias, other) ensures false {
            CarriedIdIsRun(alias, other);
          }
        }
        None
    else None
  }

  /** `process.env.MAILGUN_DOMAIN || 'newsletters.coretent.app'` */
  function AliasDomain(envDomain: Option<string>): (d: string)
    ensures d != ""
    ensures Truthy(envDomain) ==> d == envDomain.value
  {
    Or(OrEmpty(envDomain), DefaultAliasDomain)
  }

  /** `generateEmailAlias(userId)`: `u-<userId>@<domain>`. */
  function GenerateEmailAlias(userId: string, envDomain: Option<string>): (alias: string)
    ensures IsAliasId(userId) ==> AliasCarries(alias, userId)
    ensures |alias| == |userId| + 3 + |AliasDomain(envDomain)|
    ensures alias[..2] == "u-" && alias[2..2 + |userId|] == userId
    ensures alias[2 + |userId|..] == "@" + AliasDomain(envDomain)
  {
    var head := "u-" + userId;
    var tail := "@" + AliasDomain(envDomain);
    var alias := head + tail;
    assert alias[..|head|] == head && alias[|head|..] == tail;
    assert alias[2..2 + |userId|] == head[2..] == userId;
    alias
  }

  /** Decoding an alias built from a well-formed id recovers the id, for any
      configured domain. */
  lemma AliasRoundTrip(userId: string, envDomain: Option<string>)
    requires IsAliasId(userId)
    ensures ExtractUserId(GenerateEmailAlias(userId, envDomain)) == Some(userId)
  {
  }

}
