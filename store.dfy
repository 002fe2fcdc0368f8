/** The ephemeral one-time store: the Redis client the service keeps in a
    global and the two functions set and get over it. */
module Ephemeral {
  import opened Base

  /** What Redis holds under a token: the payload and, when the entry was
      written with a positive TTL, the instant (in nanoseconds) it expires. */
  datatype Entry = Entry(payload: seq<byte>, expiresAt: Option<int>)

  /** The expiry go-redis attaches to a SET: a positive TTL expires the entry
      that long after `now`; zero or a negative TTL sets no expiry at all. */
  function ExpiryFor(now: int, ttl: int): (e: Option<int>)
    ensures e.Some? <==> ttl > 0
    ensures e.Some? ==> e.value - now == ttl
  {
    if ttl > 0 then Some(now + ttl) else None
  }

  /** An entry is visible until its expiry instant is reached. */
  predicate IsLive(e: Entry, now: int) {
    e.expiresAt.None? || now < e.expiresAt.value
  }

  /** What a Redis GET of `token` sees at time `now`: the payload of a live
      entry; nothing for a missing or an expired one. */
  function Lookup(entries: map<string, Entry>, now: int, token: string): (r: Option<seq<byte>>)
    ensures r.Some? <==> token in entries && IsLive(entries[token], now)
    ensures r.Some? ==> r.value == entries[token].payload
  {
    if token in entries && IsLive(entries[token], now) then Some(entries[token].payload) else None
  }

  /** Store then get: an entry written at `now` is found, with its payload, at
      any later time before its TTL elapses (at any later time when it has no
      TTL), whatever the store held before. */
  lemma SetThenLookup(entries: map<string, Entry>, now: int, later: int,
                      token: string, payload: seq<byte>, ttl: int)
    requires now <= later
    requires ttl > 0 ==> later < now + ttl
    ensures Lookup(entries[token := Entry(payload, ExpiryFor(now, ttl))], later, token) == Some(payload)
  {
  }

  /** Expiry: once the TTL has elapsed the entry is no longer found. */
  lemma SetThenExpire(entries: map<string, Entry>, now: int, later: int,
                      token: string, payload: seq<byte>, ttl: int)
    requires ttl > 0 && now + ttl <= later
    ensures Lookup(entries[token := Entry(payload, ExpiryFor(now, ttl))], later, token) == None
  {
  }

  /** Taking a token (get's Del) makes it unreadable and leaves every other
      token's lookup as it was. */
  lemma TakeIsOnce(entries: map<string, Entry>, now: int, token: string)
    ensures Lookup(entries - {token}, now, token) == None
    ensures forall t :: t != token ==> Lookup(entries - {token}, now, t) == Lookup(entries, now, t)
  {
  }

  /** The Redis server behind the global `client`, with the clock that drives
      its expiry and whether it can be reached. */
  class Store {
    /** The keys Redis holds, expired ones included; they are never visible
        again because the clock only advances. */
    var entries: map<string, Entry>
    /** The current time, in nanoseconds. */
    var now: int
    /** False while the server cannot be reached; every command then fails. */
    var reachable: bool

    constructor (start: int)
      ensures entries == map[] && now == start && reachable
    {
      entries := map[];
      now := start;
      reachable := true;
    }

    /** set: SET token payload with the TTL. Any failure of the command is
        reported as ErrWriteFailed and writes nothing. */
    method Set(token: string, payload: seq<byte>, ttl: int) returns (err: Option<Error>)
      modifies this`entries
      ensures err == (if reachable then None else Some(WriteFailed))
      ensures entries == if reachable then old(entries)[token := Entry(payload, ExpiryFor(now, ttl))]
                         else old(entries)
    {
      if !reachable {
        return Some(WriteFailed);
      }
      entries := entries[token := Entry(payload, ExpiryFor(now, ttl))];
      err := None;
    }

    /** get: GET token, then DEL token. A missing or expired token, or an
        unreachable server, gives "" and ErrWriteFailed before the Del, so the
        store is unchanged; otherwise the payload is returned and the token is
        gone. */
    method Get(token: string) returns (v: seq<byte>, err: Option<Error>)
      modifies this`entries
      ensures var found := if reachable then Lookup(old(entries), now, token) else None;
              if found.Some? then v == found.value && err == None && entries == old(entries) - {token}
              else v == [] && err == Some(WriteFailed) && entries == old(entries)
    {
      var found := if reachable then Lookup(entries, now, token) else None;
      if found.None? {
        return [], Some(WriteFailed);
      }
      v := found.value;
      entries := entries - {token};
      err := None;
    }

    /** The passage of time. */
    method Advance(d: nat)
      modifies this`now
      ensures now == old(now) + d
    {
      now := now + d;
    }

    /** The server going down or coming back. */
    method SetReachable(up: bool)
      modifies this`reachable
      ensures reachable == up
    {
      reachable := up;
    }
  }
}
