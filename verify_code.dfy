/**
 * The sign-in code check (api/auth/verify-code.mjs): it validates the address and the code's
 * shape, refuses an address with five recorded failures, counts each wrong or missing code for
 * fifteen minutes, and on a match issues a session token and deletes the code and the counter.
 */
module VerifyCode {
  import opened Wrappers
  import opened Text
  import opened KvStore
  import opened SendCode

  const BadCodeMessage := "6桁の認証コードを入力してください"
  const LockedMessage := "ロック中です。15分後に再試行してください"
  const WrongCodeMessage := "認証コードが正しくありません"
  const VerifyFailedMessage := "認証に失敗しました"

  function AttemptsKey(e: string): string { "authcode_attempts:" + e }
  function SessionKey(token: string): string { "session:" + token }

  /** `/^\d{6}$/.test(code)`. */
  predicate IsSixDigits(code: string)
  {
    |code| == 6 && AllDigits(code)
  }

  /** The failure counter, read with `parseInt`, has reached 5. */
  predicate Locked(m: map<string, Entry>, e: string, now: int)
  {
    match Lookup(m, AttemptsKey(e), now)
    case None => false
    case Some(v) => v != "" && ParseInt(v).Num? && ParseInt(v).value >= 5
  }

  /** `storedCode && storedCode === code`: a stored, non-empty code equal to the one sent. */
  predicate Matches(stored: Option<string>, code: string)
  {
    stored.Some? && stored.value != "" && stored.value == code
  }

  /** How the counter reads after `k` counted failures: absent for none, else the count's text. */
  function CountValue(k: nat): Option<string>
  {
    if k == 0 then None else Some(IntToString(k))
  }

  /**
   * What a well-formed request does for the normalised address `e`: refuse when locked; on a
   * missing or different code count the failure and give the counter fifteen minutes; on a
   * match store the session for thirty days and delete the code and the counter.
   */
  function VerifyFor(m: map<string, Entry>, e: string, code: string, now: int, token: string)
    : (r: (Response, map<string, Entry>))
    ensures r.0.status == 200 <==> !Locked(m, e, now) && code != "" && Lookup(m, CodeKey(e), now) == Some(code)
    ensures r.0.status == 200 ==> r.0.reply == SignedIn(token)
    ensures Locked(m, e, now) ==> r == (Response(429, Failure(LockedMessage)), m)
  {
    if Locked(m, e, now) then (Response(429, Failure(LockedMessage)), m)
    else if !Matches(Lookup(m, CodeKey(e), now), code) then
      match IncrKey(m, AttemptsKey(e), now)
      case None => (Response(500, Failure(VerifyFailedMessage)), m)
      case Some(m1) => (Response(401, Failure(WrongCodeMessage)), ExpireKey(m1, AttemptsKey(e), 900, now))
    else
      var m1 := SetKey(m, SessionKey(token), e, 2592000, now);
      (Response(200, SignedIn(token)), DelKey(DelKey(m1, CodeKey(e)), AttemptsKey(e)))
  }

  /** What one request does; `token` is the fresh `crypto.randomUUID()` a success would use. */
  function VerifyOutcome(m: map<string, Entry>, httpMethod: string, email: Option<string>, code: Option<string>,
                         now: int, token: string): (r: (Response, map<string, Entry>))
    ensures httpMethod == "POST" && (email.None? || !IsValidEmail(email.value)) ==>
              r == (Response(400, Failure(BadEmailMessage)), m)
    ensures httpMethod == "POST" && email.Some? && IsValidEmail(email.value) && (code.None? || !IsSixDigits(code.value)) ==>
              r == (Response(400, Failure(BadCodeMessage)), m)
    ensures httpMethod == "POST" && email.Some? && IsValidEmail(email.value) && code.Some? && IsSixDigits(code.value) ==>
              r == VerifyFor(m, Normalize(email.value), code.value, now, token)
  {
    match MethodGate(httpMethod)
    case Some(resp) => (resp, m)
    case None =>
      if email.None? || !IsValidEmail(email.value) then (Response(400, Failure(BadEmailMessage)), m)
      else if code.None? || !IsSixDigits(code.value) then (Response(400, Failure(BadCodeMessage)), m)
      else VerifyFor(m, Normalize(email.value), code.value, now, token)
  }

  /** The handler: the store commands in the order the endpoint issues them. */
  method HandleVerifyCode(store: Store, httpMethod: string, email: Option<string>, code: Option<string>, now: int, token: string)
    returns (resp: Response)
    modifies store
    ensures (resp, store.entries) == VerifyOutcome(old(store.entries), httpMethod, email, code, now, token)
  {
    var gate := MethodGate(httpMethod);
    if gate.Some? {
      return gate.value;
    }
    if email.None? || !IsValidEmail(email.value) {
      return Response(400, Failure(BadEmailMessage));
    }
    if code.None? || !IsSixDigits(code.value) {
      return Response(400, Failure(BadCodeMessage));
    }
    resp := VerifyForAddress(store, Normalize(email.value), code.value, now, token);
  }

  /** The rest of the handler once the request is well formed. */
  method VerifyForAddress(store: Store, e: string, code: string, now: int, token: string) returns (resp: Response)
    modifies store
    ensures (resp, store.entries) == VerifyFor(old(store.entries), e, code, now, token)
  {
    var attempts := store.Get(AttemptsKey(e), now);
    if attempts.Some? && attempts.value != "" {
      var n := ParseInt(attempts.value);
      if n.Num? && n.value >= 5 {
        return Response(429, Failure(LockedMessage));
      }
    }
    var storedCode := store.Get(CodeKey(e), now);
    if !(storedCode.Some? && storedCode.value != "" && storedCode.value == code) {
      var ok := store.Incr(AttemptsKey(e), now);
      if !ok {
        return Response(500, Failure(VerifyFailedMessage));
      }
      store.Expire(AttemptsKey(e), 900, now);
      return Response(401, Failure(WrongCodeMessage));
    }
    store.Set(SessionKey(token), e, 2592000, now);
    store.Del(CodeKey(e));
    store.Del(AttemptsKey(e));
    resp := Response(200, SignedIn(token));
  }

  // ------------------------------------------------------------------- lemmas

  lemma VerifyKeysDistinct(e: string, f: string, token: string)
    ensures CodeKey(e) != AttemptsKey(f)
    ensures SessionKey(token) != CodeKey(e) && SessionKey(token) != AttemptsKey(f)
  {
    assert CodeKey(e)[8] != AttemptsKey(f)[8];
    assert SessionKey(token)[0] != CodeKey(e)[0];
    assert SessionKey(token)[0] != AttemptsKey(f)[0];
  }

  /**
   * A wrong or missing code below the limit is answered 401 and raises the counter by one,
   * to expire fifteen minutes later; nothing else in the store changes, the stored code included.
   */
  lemma FailedAttemptCounts(m: map<string, Entry>, e: string, code: string, now: int, token: string, k: nat)
    requires k < 5 && Lookup(m, AttemptsKey(e), now) == CountValue(k)
    requires Lookup(m, CodeKey(e), now) != Some(code)
    ensures VerifyFor(m, e, code, now, token)
            == (Response(401, Failure(WrongCodeMessage)), m[AttemptsKey(e) := Entry(IntToString(k + 1), Some(now + 900000))])
  {
    if k > 0 {
      ParseIntOfIntToString(k);
    }
    assert !Locked(m, e, now);
    CounterStep(m, AttemptsKey(e), now, k, 900);
  }

  /** The counter entry after `n` failures, the last of them at `t`. */
  function CountEntry(n: nat, t: int): Entry
  {
    Entry(IntToString(n), Some(t + 900000))
  }

  lemma OverwriteTwice<K, V>(m: map<K, V>, key: K, a: V, b: V)
    ensures m[key := a][key := b] == m[key := b]
  {
  }

  /**
   * Five failed requests in a row for `e`, each within fifteen minutes of the one before and
   * starting with no counter, are each answered 401 and leave the counter at their number.
   */
  lemma FailuresCount(states: seq<map<string, Entry>>, e: string, codes: seq<string>, times: seq<int>, token: string)
    requires |states| == 6 && |codes| == 5 && |times| == 5
    requires Lookup(states[0], AttemptsKey(e), times[0]).None?
    requires forall i :: 0 <= i < 4 ==> times[i + 1] < times[i] + 900000
    requires forall i :: 0 <= i < 5 ==> Lookup(states[0], CodeKey(e), times[i]) != Some(codes[i])
    requires forall i :: 0 <= i < 5 ==> states[i + 1] == VerifyFor(states[i], e, codes[i], times[i], token).1
    ensures forall i :: 0 <= i < 5 ==> VerifyFor(states[i], e, codes[i], times[i], token).0 == Response(401, Failure(WrongCodeMessage))
    ensures forall i :: 1 <= i <= 5 ==> states[i] == states[0][AttemptsKey(e) := CountEntry(i, times[i - 1])]
  {
    var n := 0;
    while n < 5
      invariant 0 <= n <= 5
      invariant forall j :: 1 <= j <= n ==> states[j] == states[0][AttemptsKey(e) := CountEntry(j, times[j - 1])]
      invariant forall j :: 0 <= j < n ==> VerifyFor(states[j], e, codes[j], times[j], token).0 == Response(401, Failure(WrongCodeMessage))
    {
      FailureStep(states[0], states[n], e, codes[n], times, token, n);
      if n > 0 {
        OverwriteTwice(states[0], AttemptsKey(e), CountEntry(n, times[n - 1]), CountEntry(n + 1, times[n]));
      }
      n := n + 1;
    }
  }

  /**
   * After those five failures the address is locked until fifteen minutes after the fifth:
   * until then every request is refused with 429, the right code included, and afterwards
   * the lock is gone.
   */
  lemma LockedAfterFiveFailures(states: seq<map<string, Entry>>, e: string, codes: seq<string>, times: seq<int>,
                                token: string, code: string, t: int)
    requires |states| == 6 && |codes| == 5 && |times| == 5
    requires Lookup(states[0], AttemptsKey(e), times[0]).None?
    requires forall i :: 0 <= i < 4 ==> times[i + 1] < times[i] + 900000
    requires forall i :: 0 <= i < 5 ==> Lookup(states[0], CodeKey(e), times[i]) != Some(codes[i])
    requires forall i :: 0 <= i < 5 ==> states[i + 1] == VerifyFor(states[i], e, codes[i], times[i], token).1
    ensures Locked(states[5], e, t) <==> t < times[4] + 900000
    ensures t < times[4] + 900000 ==> VerifyFor(states[5], e, code, t, token) == (Response(429, Failure(LockedMessage)), states[5])
  {
    FailuresCount(states, e, codes, times, token);
    LockedByCount(states[0], states[5], e, times[4], code, t, token);
  }

  /** With the counter at 5 since `last`, the address is locked exactly for fifteen minutes after it. */
  lemma LockedByCount(m0: map<string, Entry>, m: map<string, Entry>, e: string, last: int, code: string, t: int, token: string)
    requires m == m0[AttemptsKey(e) := CountEntry(5, last)]
    ensures Locked(m, e, t) <==> t < last + 900000
    ensures t < last + 900000 ==> VerifyFor(m, e, code, t, token) == (Response(429, Failure(LockedMessage)), m)
  {
    ParseIntOfIntToString(5);
  }

  /** One failure of the run: from the counter at `n`, the next request takes it to `n + 1`. */
  lemma FailureStep(m0: map<string, Entry>, m: map<string, Entry>, e: string, code: string, times: seq<int>, token: string, n: nat)
    requires n < 5 && |times| == 5
    requires n == 0 ==> m == m0 && Lookup(m0, AttemptsKey(e), times[0]).None?
    requires n > 0 ==> m == m0[AttemptsKey(e) := CountEntry(n, times[n - 1])] && times[n] < times[n - 1] + 900000
    requires Lookup(m0, CodeKey(e), times[n]) != Some(code)
    ensures VerifyFor(m, e, code, times[n], token)
            == (Response(401, Failure(WrongCodeMessage)), m[AttemptsKey(e) := CountEntry(n + 1, times[n])])
  {
    var t := times[n];
    if n > 0 {
      VerifyKeysDistinct(e, e, "");
      assert m[AttemptsKey(e)] == CountEntry(n, times[n - 1]);
      assert Lookup(m, CodeKey(e), t) == Lookup(m0, CodeKey(e), t);
    }
    assert Lookup(m, AttemptsKey(e), t) == CountValue(n);
    FailedAttemptCounts(m, e, code, t, token, n);
    assert CountEntry(n + 1, t) == Entry(IntToString(n + 1), Some(t + 900000));
  }

  /**
   * A code works once: after a successful check, the same code for the same address is
   * answered 401, since the code and the counter are gone.
   */
  lemma CodeIsSingleUse(m: map<string, Entry>, e: string, code: string, now: int, token: string, t: int, token2: string)
    requires VerifyFor(m, e, code, now, token).0.status == 200
    ensures VerifyFor(VerifyFor(m, e, code, now, token).1, e, code, t, token2).0 == Response(401, Failure(WrongCodeMessage))
  {
    var m1 := VerifyFor(m, e, code, now, token).1;
    assert AttemptsKey(e) !in m1 && CodeKey(e) !in m1;
    assert !Locked(m1, e, t);
  }

  /**
   * A successful check maps the token to the address for thirty days, and removes the code
   * and the counter.
   */
  lemma SignInStoresSession(m: map<string, Entry>, e: string, code: string, now: int, token: string, t: int)
    requires VerifyFor(m, e, code, now, token).0.status == 200
    ensures var m1 := VerifyFor(m, e, code, now, token).1;
            (Lookup(m1, SessionKey(token), t) == Some(e) <==> t < now + 2592000000)
            && Lookup(m1, CodeKey(e), t).None? && Lookup(m1, AttemptsKey(e), t).None?
  {
    VerifyKeysDistinct(e, e, token);
  }

  /** A send leaves the failure counter, and so the lock, as it was. */
  lemma SendKeepsLock(m: map<string, Entry>, e: string, t0: int, c: int, t: int)
    requires IsCodeNumber(c)
    requires SendFor(m, e, t0, c).0.status == 200
    ensures Locked(SendFor(m, e, t0, c).1, e, t) == Locked(m, e, t)
  {
    var m1 := SendFor(m, e, t0, c).1;
    SendStoresCode(m, e, t0, c);
    assert AttemptsKey(e) != RateKey(e) by {
      assert AttemptsKey(e)[0] != RateKey(e)[0];
    }
    VerifyKeysDistinct(e, e, "");
    assert Lookup(m1, AttemptsKey(e), t) == Lookup(m, AttemptsKey(e), t);
  }

  /** For the normalised address: the stored code is accepted within its five minutes unless locked. */
  lemma SentCodeVerifies(m: map<string, Entry>, e: string, t0: int, c: int, t: int, token: string)
    requires IsCodeNumber(c)
    requires SendFor(m, e, t0, c).0.status == 200
    requires t < t0 + 300000 && !Locked(m, e, t)
    ensures VerifyFor(SendFor(m, e, t0, c).1, e, NatToString(c), t, token).0 == Response(200, SignedIn(token))
  {
    var m1 := SendFor(m, e, t0, c).1;
    SendStoresCode(m, e, t0, c);
    SendKeepsLock(m, e, t0, c, t);
    CodeTextIsSixDigits(c);
    assert Lookup(m1, CodeKey(e), t) == Some(NatToString(c));
  }

  /**
   * The code a send stores is accepted for the same address, as typed back in, within its five
   * minutes, as long as the address is not locked.
   */
  lemma SentCodeSignsIn(m: map<string, Entry>, email: string, t0: int, c: int, t: int, token: string)
    requires IsCodeNumber(c) && IsValidEmail(email)
    requires SendOutcome(m, "POST", Some(email), t0, c).0.status == 200
    requires t < t0 + 300000 && !Locked(m, Normalize(email), t)
    ensures VerifyOutcome(SendOutcome(m, "POST", Some(email), t0, c).1, "POST", Some(email), Some(NatToString(c)), t, token).0
            == Response(200, SignedIn(token))
  {
    var e := Normalize(email);
    assert SendOutcome(m, "POST", Some(email), t0, c) == SendFor(m, e, t0, c);
    SentCodeVerifies(m, e, t0, c, t, token);
    CodeTextIsSixDigits(c);
    assert IsSixDigits(NatToString(c));
  }
}
