/**
 * The sign-in code endpoint (api/auth/send-code.mjs): it checks the address, refuses a second
 * request within a minute, stores a fresh six-digit code for five minutes and answers the same
 * way for every address it accepts. Mail delivery is outside the model.
 */
module SendCode {
  import opened Wrappers
  import opened Text
  import opened KvStore

  // ---------------------------------------------------------------- responses

  datatype Reply = NoContent | Failure(error: string) | CodeSent(message: string) | SignedIn(sessionToken: string)

  datatype Response = Response(status: int, reply: Reply)

  const MethodNotAllowed := "Method not allowed"
  const BadEmailMessage := "有効なメールアドレスを入力してください"
  const RetrySuffix := "秒後に再試行してください"
  const SentMessage := "認証コードを送信しました"

  /** The answer to the CORS preflight and to any method other than POST; None for POST. */
  function MethodGate(httpMethod: string): (r: Option<Response>)
    ensures r.None? <==> httpMethod == "POST"
    ensures httpMethod == "OPTIONS" ==> r == Some(Response(200, NoContent))
    ensures httpMethod != "OPTIONS" && httpMethod != "POST" ==> r == Some(Response(405, Failure(MethodNotAllowed)))
  {
    if httpMethod == "OPTIONS" then Some(Response(200, NoContent))
    else if httpMethod != "POST" then Some(Response(405, Failure(MethodNotAllowed)))
    else None
  }

  // ------------------------------------------------------------------ address

  predicate NoWhitespace(s: string)
  {
    forall i :: 0 <= i < |s| ==> !IsWhitespace(s[i])
  }

  /**
   * `/^[^\s@]+@[^\s@]+\.[^\s@]+$/.test(s)`, computed: no whitespace, one `@` after at least one
   * character, and a `.` in the part after it that is neither that part's first nor its last character.
   */
  predicate IsValidEmail(s: string)
  {
    var a := IndexOf(s, '@');
    a > 0 && NoWhitespace(s) && '@' !in s[a + 1..] && |s[a + 1..]| >= 3 && '.' in s[a + 2..|s| - 1]
  }

  /**
   * The pattern as written: `local@domain.top`, each of the three parts non-empty and free of
   * whitespace and `@`; the domain part may itself contain dots.
   */
  ghost predicate EmailPattern(s: string)
  {
    exists i, j :: 0 < i && i + 1 < j < |s| - 1 && s[i] == '@' && s[j] == '.'
      && NoWhitespace(s) && (forall k :: 0 <= k < |s| && s[k] == '@' ==> k == i)
  }

  /** The computed check accepts exactly the addresses the pattern matches. */
  lemma IsValidEmailMatchesPattern(s: string)
    ensures IsValidEmail(s) <==> EmailPattern(s)
  {
    if IsValidEmail(s) {
      var a := IndexOf(s, '@');
      var d := s[a + 2..|s| - 1];
      var p := IndexOf(d, '.');
      var j := a + 2 + p;
      assert s[j] == '.';
      forall k | 0 <= k < |s| && k != a
        ensures s[k] != '@'
      {
        if k > a {
          assert s[k] == s[a + 1..][k - a - 1];
        } else {
          assert s[k] == s[..a][k];
        }
      }
    }
    if EmailPattern(s) {
      var i, j :| 0 < i && i + 1 < j < |s| - 1 && s[i] == '@' && s[j] == '.'
        && NoWhitespace(s) && (forall k :: 0 <= k < |s| && s[k] == '@' ==> k == i);
      assert '@' !in s[..i];
      assert IndexOf(s, '@') == i;
      assert '@' !in s[i + 1..];
      assert s[i + 2..|s| - 1][j - i - 2] == '.';
    }
  }

  /** `email.toLowerCase().trim()`: the form every store key is built from. */
  function Normalize(email: string): (r: string)
    ensures NoWhitespace(email) ==> |r| == |email|
  {
    Trim(ToLowerAscii(email))
  }

  /** The normal form holds no ASCII capital and no surrounding whitespace. */
  lemma NormalizedIsClean(email: string)
    ensures var r := Normalize(email);
      (forall i :: 0 <= i < |r| ==> !('A' <= r[i] <= 'Z'))
      && (r != "" ==> !IsWhitespace(r[0]) && !IsWhitespace(r[|r| - 1]))
  {
    var lowered := ToLowerAscii(email);
    TrimChars(lowered);
  }

  /**
   * Addresses that differ only in ASCII case and in surrounding whitespace share one normal
   * form, so they share their cooldown, code and failure-counter keys.
   */
  lemma NormalizeIgnoresCaseAndPadding(p: string, a: string, q: string, b: string)
    requires IsBlank(p) && IsBlank(q) && ToLowerAscii(a) == ToLowerAscii(b)
    ensures Normalize(p + a + q) == Normalize(b)
    ensures RateKey(Normalize(p + a + q)) == RateKey(Normalize(b)) && CodeKey(Normalize(p + a + q)) == CodeKey(Normalize(b))
  {
    var lp, lq := ToLowerAscii(p), ToLowerAscii(q);
    assert ToLowerAscii(p + a + q) == lp + ToLowerAscii(a) + lq;
    assert lp == p && lq == q;
    TrimIgnoresPadding(p, ToLowerAscii(a), q);
  }

  function RateKey(e: string): string { "ratelimit:" + e }
  function CodeKey(e: string): string { "authcode:" + e }

  // ----------------------------------------------------------------- cooldown

  /** `Math.ceil((60000 - elapsed) / 1000)`: the whole seconds left of the one-minute window. */
  function RemainingSeconds(elapsed: int): (r: int)
    requires elapsed < 60000
    ensures (r - 1) * 1000 < 60000 - elapsed <= r * 1000
    ensures 0 <= elapsed ==> 1 <= r <= 60
  {
    (60000 - elapsed + 999) / 1000
  }

  /**
   * The seconds to wait when the last send for `e` is under a minute old: the stored send time
   * is read with `parseInt`; an absent or empty value, or one that is not a number, sets no limit.
   */
  function Cooldown(m: map<string, Entry>, e: string, now: int): (r: Option<int>)
    ensures Lookup(m, RateKey(e), now).None? ==> r.None?
    ensures r.Some? ==> r.value >= 1
  {
    match Lookup(m, RateKey(e), now)
    case None => None
    case Some(v) =>
      if v == "" then None
      else match ParseInt(v)
        case NaN => None
        case Num(sent) => if now - sent < 60000 then Some(RemainingSeconds(now - sent)) else None
  }

  // ------------------------------------------------------------------ handler

  /** A code `crypto.randomInt(100000, 999999)` can return: the upper bound is exclusive. */
  predicate IsCodeNumber(code: int)
  {
    100000 <= code <= 999998
  }

  /** The stored code's text is six decimal digits. */
  lemma CodeTextIsSixDigits(code: int)
    requires IsCodeNumber(code)
    ensures |NatToString(code)| == 6 && AllDigits(NatToString(code))
  {
    SixDigitRendering(code);
  }

  /**
   * What a POST with a valid address does, for the normalised address `e`: refuse while the
   * cooldown runs, otherwise store the code for 300 seconds and the send time for 60 seconds.
   */
  function SendFor(m: map<string, Entry>, e: string, now: int, code: int): (r: (Response, map<string, Entry>))
    requires IsCodeNumber(code)
    ensures r.1 != m ==> r.0 == Response(200, CodeSent(SentMessage))
    ensures r.0.status == 200 <==> Cooldown(m, e, now).None?
    ensures Cooldown(m, e, now).Some? ==>
              r == (Response(429, Failure(IntToString(Cooldown(m, e, now).value) + RetrySuffix)), m)
  {
    match Cooldown(m, e, now)
    case Some(wait) => (Response(429, Failure(IntToString(wait) + RetrySuffix)), m)
    case None =>
      var m1 := SetKey(m, CodeKey(e), NatToString(code), 300, now);
      (Response(200, CodeSent(SentMessage)), SetKey(m1, RateKey(e), IntToString(now), 60, now))
  }

  /**
   * What one request does, given the store before it and the code the generator picks: the
   * response, and the store after it.
   */
  function SendOutcome(m: map<string, Entry>, httpMethod: string, email: Option<string>, now: int, code: int)
    : (r: (Response, map<string, Entry>))
    requires IsCodeNumber(code)
    ensures r.1 != m ==> r.0 == Response(200, CodeSent(SentMessage))
    ensures httpMethod == "POST" && (email.None? || !IsValidEmail(email.value)) ==>
              r == (Response(400, Failure(BadEmailMessage)), m)
    ensures httpMethod == "POST" && email.Some? && IsValidEmail(email.value) ==>
              r == SendFor(m, Normalize(email.value), now, code)
  {
    match MethodGate(httpMethod)
    case Some(resp) => (resp, m)
    case None =>
      if email.None? || !IsValidEmail(email.value) then (Response(400, Failure(BadEmailMessage)), m)
      else SendFor(m, Normalize(email.value), now, code)
  }

  /** The handler: each store command is issued in the order the endpoint issues it. */
  method HandleSendCode(store: Store, httpMethod: string, email: Option<string>, now: int) returns (resp: Response)
    modifies store
    ensures exists code :: IsCodeNumber(code) && (resp, store.entries) == SendOutcome(old(store.entries), httpMethod, email, now, code)
  {
    var gate := MethodGate(httpMethod);
    if gate.Some? {
      resp := gate.value;
      assert (resp, store.entries) == SendOutcome(old(store.entries), httpMethod, email, now, 100000);
      return;
    }
    if email.None? || !IsValidEmail(email.value) {
      resp := Response(400, Failure(BadEmailMessage));
      assert (resp, store.entries) == SendOutcome(old(store.entries), httpMethod, email, now, 100000);
      return;
    }
    var e := Normalize(email.value);
    ghost var code;
    resp, code := SendForAddress(store, e, now);
    assert (resp, store.entries) == SendOutcome(old(store.entries), httpMethod, email, now, code);
  }

  /** The rest of the handler once the address is accepted: the cooldown check and the two writes. */
  method SendForAddress(store: Store, e: string, now: int) returns (resp: Response, ghost code: int)
    modifies store
    ensures IsCodeNumber(code) && (resp, store.entries) == SendFor(old(store.entries), e, now, code)
  {
    code := 100000;
    var lastSent := store.Get(RateKey(e), now);
    if lastSent.Some? && lastSent.value != "" {
      var sent := ParseInt(lastSent.value);
      if sent.Num? && now - sent.value < 60000 {
        var remaining := RemainingSeconds(now - sent.value);
        resp := Response(429, Failure(IntToString(remaining) + RetrySuffix));
        return;
      }
    }
    var picked :| 100000 <= picked < 999999;
    store.Set(CodeKey(e), NatToString(picked), 300, now);
    store.Set(RateKey(e), IntToString(now), 60, now);
    resp, code := Response(200, CodeSent(SentMessage)), picked;
  }

  // ------------------------------------------------------------------- lemmas

  lemma StoreKeysDistinct(e: string, f: string)
    ensures RateKey(e) != CodeKey(f)
  {
    assert RateKey(e)[0] != CodeKey(f)[0];
  }

  /**
   * An accepted send leaves the code readable for 300 seconds and the send time for 60
   * seconds; every other key is unchanged.
   */
  lemma SendStoresCode(m: map<string, Entry>, e: string, now: int, code: int)
    requires IsCodeNumber(code)
    requires SendFor(m, e, now, code).0.status == 200
    ensures var m1 := SendFor(m, e, now, code).1;
            m1[CodeKey(e)] == Entry(NatToString(code), Some(now + 300000))
            && m1[RateKey(e)] == Entry(IntToString(now), Some(now + 60000))
            && m1.Keys == m.Keys + {CodeKey(e), RateKey(e)}
            && forall k :: k in m && k != CodeKey(e) && k != RateKey(e) ==> m1[k] == m[k]
  {
    StoreKeysDistinct(e, e);
  }

  /**
   * After an accepted send at `t0`, another send for the same address waits exactly while
   * `t < t0 + 60000`, and is told the whole seconds left of the minute since `t0`; from `t0`
   * on, that is 1 to 60 seconds.
   */
  lemma SendStartsCooldown(m: map<string, Entry>, e: string, t0: int, code: int, t: int)
    requires IsCodeNumber(code)
    requires SendFor(m, e, t0, code).0.status == 200
    ensures var m1 := SendFor(m, e, t0, code).1;
            (Cooldown(m1, e, t).Some? <==> t < t0 + 60000)
            && (t < t0 + 60000 ==> Cooldown(m1, e, t) == Some(RemainingSeconds(t - t0)))
            && (t0 <= t < t0 + 60000 ==> 1 <= Cooldown(m1, e, t).value <= 60)
  {
    var m1 := SendFor(m, e, t0, code).1;
    SendStoresCode(m, e, t0, code);
    ParseIntOfIntToString(t0);
    assert Lookup(m1, RateKey(e), t) == if t < t0 + 60000 then Some(IntToString(t0)) else None;
  }

  /** The accepted response is the same for every address, so it does not reveal whether one is known. */
  lemma AcceptedResponseIsUniform(m: map<string, Entry>, a: string, b: string, now: int, c: int, d: int)
    requires IsCodeNumber(c) && IsCodeNumber(d)
    requires SendOutcome(m, "POST", Some(a), now, c).0.status == 200
    requires SendOutcome(m, "POST", Some(b), now, d).0.status == 200
    ensures SendOutcome(m, "POST", Some(a), now, c).0 == SendOutcome(m, "POST", Some(b), now, d).0
  {
  }
}
