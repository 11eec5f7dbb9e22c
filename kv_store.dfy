/**
 * The key-value store the authentication endpoints talk to (a Redis server): string values,
 * each with an optional expiry time. Time is the clock reading in milliseconds, passed in.
 * An entry whose expiry time has come is treated as absent; it stays in the map until
 * overwritten or deleted, as expired keys do until the server reclaims them.
 */
module KvStore {
  import opened Wrappers
  import opened Text

  datatype Entry = Entry(value: string, expiresAt: Option<int>)

  predicate IsLive(e: Entry, now: int)
  {
    e.expiresAt.None? || now < e.expiresAt.value
  }

  /** `GET key`: the value of a live entry, absent otherwise. */
  function Lookup(m: map<string, Entry>, key: string, now: int): (r: Option<string>)
    ensures r.Some? <==> key in m && IsLive(m[key], now)
    ensures r.Some? ==> r.value == m[key].value
  {
    if key in m && IsLive(m[key], now) then Some(m[key].value) else None
  }

  /** `SET key value EX ttl`: the value replaces any old one and lives `ttl` seconds from `now`. */
  function SetKey(m: map<string, Entry>, key: string, value: string, ttl: nat, now: int): map<string, Entry>
  {
    m[key := Entry(value, Some(now + ttl * 1000))]
  }

  /** The integer a value stands for when the server counts with it: its canonical decimal text. */
  function StoredInteger(v: string): (r: Option<int>)
    ensures r.Some? ==> v == IntToString(r.value)
  {
    match ParseInt(v)
    case NaN => None
    case Num(i) => if IntToString(i) == v then Some(i) else None
  }

  lemma StoredIntegerOfIntToString(i: int)
    ensures StoredInteger(IntToString(i)) == Some(i)
  {
    ParseIntOfIntToString(i);
  }

  /**
   * `INCR key`: an absent key becomes "1" with no expiry; an integer value goes up by one and
   * keeps its expiry; any other value is an error (None) and nothing changes.
   */
  function IncrKey(m: map<string, Entry>, key: string, now: int): (r: Option<map<string, Entry>>)
    ensures Lookup(m, key, now).None? ==> r == Some(m[key := Entry("1", None)])
    ensures r.Some? ==> r.value.Keys == m.Keys + {key}
    ensures r.Some? ==> forall k :: k in m && k != key ==> r.value[k] == m[k]
  {
    match Lookup(m, key, now)
    case None => Some(m[key := Entry("1", None)])
    case Some(v) =>
      match StoredInteger(v)
      case None => None
      case Some(i) => Some(m[key := Entry(IntToString(i + 1), m[key].expiresAt)])
  }

  /** `EXPIRE key secs`: a live key now expires `secs` seconds from `now`; an absent key is left alone. */
  function ExpireKey(m: map<string, Entry>, key: string, secs: nat, now: int): (r: map<string, Entry>)
    ensures Lookup(m, key, now).None? ==> r == m
    ensures Lookup(m, key, now).Some? ==> r == m[key := Entry(m[key].value, Some(now + secs * 1000))]
  {
    if Lookup(m, key, now).Some? then m[key := m[key].(expiresAt := Some(now + secs * 1000))] else m
  }

  /** `DEL key`. */
  function DelKey(m: map<string, Entry>, key: string): map<string, Entry>
  {
    m - {key}
  }

  /** A counter advanced from absent by `INCR` then `EXPIRE` reads back as its count until it expires. */
  lemma CounterStep(m: map<string, Entry>, key: string, now: int, count: nat, secs: nat)
    requires Lookup(m, key, now) == if count == 0 then None else Some(IntToString(count))
    ensures IncrKey(m, key, now).Some?
    ensures ExpireKey(IncrKey(m, key, now).value, key, secs, now)
            == m[key := Entry(IntToString(count + 1), Some(now + secs * 1000))]
  {
    if count > 0 {
      StoredIntegerOfIntToString(count);
    }
  }

  /** The store as a mutable object: each command changes `entries` as the functions above say. */
  class Store {
    var entries: map<string, Entry>

    constructor()
      ensures entries == map[]
    {
      entries := map[];
    }

    function Get(key: string, now: int): Option<string>
      reads this
    {
      Lookup(entries, key, now)
    }

    method Set(key: string, value: string, ttl: nat, now: int)
      modifies this
      ensures entries == SetKey(old(entries), key, value, ttl, now)
    {
      entries := entries[key := Entry(value, Some(now + ttl * 1000))];
    }

    /** `ok` is false when the server answers with an error; the store is then unchanged. */
    method Incr(key: string, now: int) returns (ok: bool)
      modifies this
      ensures ok <==> IncrKey(old(entries), key, now).Some?
      ensures ok ==> entries == IncrKey(old(entries), key, now).value
      ensures !ok ==> entries == old(entries)
    {
      var current := Get(key, now);
      if current.None? {
        entries := entries[key := Entry("1", None)];
        return true;
      }
      var i := StoredInteger(current.value);
      if i.None? {
        return false;
      }
      entries := entries[key := Entry(IntToString(i.value + 1), entries[key].expiresAt)];
      return true;
    }

    method Expire(key: string, secs: nat, now: int)
      modifies this
      ensures entries == ExpireKey(old(entries), key, secs, now)
    {
      if Get(key, now).Some? {
        entries := entries[key := entries[key].(expiresAt := Some(now + secs * 1000))];
      }
    }

    method Del(key: string)
      modifies this
      ensures entries == DelKey(old(entries), key)
    {
      entries := entries - {key};
    }
  }
}
