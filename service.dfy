/** The deposit and reveal logic of secretHandler, revealHandler and the
    GET branch of indexHandler, without the HTTP layer: form values come in as
    parameters, the rendered page comes out as a value. */
module Whisper {
  import opened Base
  import Hex
  import Crypto
  import Uuid
  import Paths
  import Ephemeral

  /** time.Minute, in nanoseconds (Go durations count nanoseconds). */
  const Minute: int := 60 * 1000 * 1000 * 1000
  /** The TTL used when the form's ttl value does not parse. */
  const DefaultTtl: int := 30 * Minute

  /** The TTL secretHandler passes to set: the parsed duration, or 30 minutes
      when time.ParseDuration rejected the form value. A parse failure is
      never an error. */
  function EffectiveTtl(parsed: Option<int>): (ttl: int)
    ensures parsed.None? ==> ttl == DefaultTtl
    ensures parsed.Some? ==> ttl == parsed.value
  {
    match parsed
    case None => DefaultTtl
    case Some(d) => d
  }

  /** What a GET request gets back: the empty index page, the index page
      showing a revealed secret (a Go string, so bytes), or a redirect to "/". */
  datatype Page = Form | Shown(secret: seq<byte>) | Redirect

  /** The values a deposit computes before it touches the store. */
  datatype Prepared = Prepared(token: string, key: seq<byte>, envelope: seq<byte>)

  /** The pure steps of a deposit, in the handler's order: a UUID for the
      storage token, then a key, then the envelope. The first step that fails
      ends the deposit. On success the token is the string form of the drawn
      UUID, the key is the drawn key and the envelope is encrypt's output. */
  function Prepare(secret: seq<byte>, uuidRandom: Option<seq<byte>>,
                   keyRandom: Option<seq<byte>>, nonceRandom: Option<seq<byte>>): (r: Result<Prepared>)
    ensures r.Ok? <==> Uuid.NewV4(uuidRandom).Ok? && Crypto.GenerateKey(keyRandom).Ok?
                       && Crypto.Encrypt(secret, Crypto.GenerateKey(keyRandom).value, nonceRandom).Ok?
    ensures r.Ok? ==> |r.value.token| == Uuid.StringLength && Paths.AllPathChars(r.value.token)
    ensures r.Ok? ==> |r.value.key| == Crypto.BlockSize
    ensures r.Ok? ==> Crypto.Decrypt(r.value.envelope, r.value.key) == Ok(secret)
    ensures r.Ok? ==> && r.value.token == Uuid.Format(Uuid.NewV4(uuidRandom).value)
                      && r.value.key == Crypto.GenerateKey(keyRandom).value
                      && r.value.envelope == Crypto.Encrypt(secret, r.value.key, nonceRandom).value
  {
    match Uuid.NewV4(uuidRandom)
    case Err(e) => Err(e)
    case Ok(u) =>
      var token := Uuid.Format(u);
      match Crypto.GenerateKey(keyRandom)
      case Err(e) => Err(e)
      case Ok(key) =>
        match Crypto.Encrypt(secret, key, nonceRandom)
        case Err(e) => Err(e)
        case Ok(envelope) =>
          Crypto.DecryptEncrypt(secret, key, nonceRandom);
          assert Paths.AllPathChars(token) by {
            forall i | 0 <= i < |token| ensures Paths.IsPathChar(token[i]) {
              assert Uuid.IsUuidChar(token[i]);
            }
          }
          Ok(Prepared(token, key, envelope))
  }

  /** The address a successful deposit renders. */
  function AddressFor(hostUrl: string, p: Prepared): string
  {
    Paths.Address(hostUrl, p.token, Hex.Encode(p.key))
  }

  /** Address round trip: the path of a deposited address matches validPath,
      its groups are the storage token and the hex key, and hex-decoding the
      second gives back the key. */
  lemma AddressRoundTrip(hostUrl: string, secret: seq<byte>, uuidRandom: Option<seq<byte>>,
                         keyRandom: Option<seq<byte>>, nonceRandom: Option<seq<byte>>)
    requires Prepare(secret, uuidRandom, keyRandom, nonceRandom).Ok?
    ensures var p := Prepare(secret, uuidRandom, keyRandom, nonceRandom).value;
            var keyHex := Hex.Encode(p.key);
            && AddressFor(hostUrl, p) == hostUrl + Paths.PathOf(p.token, keyHex)
            && Paths.MatchPath(Paths.PathOf(p.token, keyHex)) == Some((p.token, keyHex))
            && Hex.Decode(keyHex) == (p.key, true)
  {
    var p := Prepare(secret, uuidRandom, keyRandom, nonceRandom).value;
    var keyHex := Hex.Encode(p.key);
    Paths.AddressIsHostAndPath(hostUrl, p.token, keyHex);
    assert Paths.AllPathChars(keyHex) by {
      forall i | 0 <= i < |keyHex| ensures Paths.IsPathChar(keyHex[i]) {
        assert Hex.IsLowerHexDigit(keyHex[i]);
      }
    }
    Paths.MatchPathComplete(p.token, keyHex);
    Hex.DecodeEncode(p.key);
  }

  /** The key segment is not checked for being exactly the hex of a key: the
      hex of the key followed by a character that ends decoding still matches
      validPath, decodes to the key (the error is discarded) and reveals the
      secret. */
  lemma TrailingCharacterStillReveals(secret: seq<byte>, uuidRandom: Option<seq<byte>>,
                                      keyRandom: Option<seq<byte>>, nonceRandom: Option<seq<byte>>,
                                      junk: string)
    requires Prepare(secret, uuidRandom, keyRandom, nonceRandom).Ok?
    requires |junk| > 0 && Paths.AllPathChars(junk) && (|junk| == 1 || !Hex.IsHexDigit(junk[0]))
    ensures var p := Prepare(secret, uuidRandom, keyRandom, nonceRandom).value;
            var segment := Hex.Encode(p.key) + junk;
            && Paths.MatchPath(Paths.PathOf(p.token, segment)) == Some((p.token, segment))
            && Revealed(p.envelope, Hex.Decode(segment).0) == secret
  {
    var p := Prepare(secret, uuidRandom, keyRandom, nonceRandom).value;
    var keyHex := Hex.Encode(p.key);
    var segment := keyHex + junk;
    assert Paths.AllPathChars(segment) by {
      forall i | 0 <= i < |segment| ensures Paths.IsPathChar(segment[i]) {
        if i < |keyHex| {
          assert segment[i] == keyHex[i] && Hex.IsLowerHexDigit(keyHex[i]);
        } else {
          assert segment[i] == junk[i - |keyHex|];
        }
      }
    }
    Paths.MatchPathComplete(p.token, segment);
    Hex.DecodeEncodeWithSuffix(p.key, junk);
  }

  /** A key segment whose first character is not a hex digit decodes to no
      bytes, which AES rejects, so the page shows the empty string. */
  lemma NonHexKeyShowsNothing(envelope: seq<byte>, segment: string)
    requires |segment| > 0 && !Hex.IsHexDigit(segment[0])
    ensures Hex.Decode(segment).0 == []
    ensures Revealed(envelope, Hex.Decode(segment).0) == []
  {
  }

  /** secretHandler after method dispatch: the TTL with its fallback, then
      token, key, envelope and set, in that order. A failure at any step ends
      the deposit with no address and nothing written; on success the
      envelope is stored under the token and the address is
      HOST_URL/<token>/<hex key>. */
  method Deposit(store: Ephemeral.Store, hostUrl: string, secret: seq<byte>,
                 ttlText: string, parseDuration: string -> Option<int>,
                 uuidRandom: Option<seq<byte>>, keyRandom: Option<seq<byte>>,
                 nonceRandom: Option<seq<byte>>)
    returns (address: Option<string>)
    modifies store`entries
    ensures var p := Prepare(secret, uuidRandom, keyRandom, nonceRandom);
            if p.Ok? && store.reachable then
              && address == Some(AddressFor(hostUrl, p.value))
              && store.entries == old(store.entries)[p.value.token :=
                   Ephemeral.Entry(p.value.envelope,
                                   Ephemeral.ExpiryFor(store.now, EffectiveTtl(parseDuration(ttlText))))]
            else
              address == None && store.entries == old(store.entries)
  {
    var ttl := EffectiveTtl(parseDuration(ttlText));

    var u := Uuid.NewV4(uuidRandom);
    if u.Err? {
      return None;
    }
    var storageKey := Uuid.Format(u.value);
    var hashKey := Crypto.GenerateKey(keyRandom);
    if hashKey.Err? {
      return None;
    }
    var c := Crypto.Encrypt(secret, hashKey.value, nonceRandom);
    if c.Err? {
      return None;
    }
    var err := store.Set(storageKey, c.value, ttl);
    if err.Some? {
      return None;
    }
    address := Some(Paths.Join([hostUrl, storageKey, Hex.Encode(hashKey.value)], "/"));
  }

  /** The secret revealHandler renders for an envelope and the key from the
      path: the plaintext when decryption succeeds, and otherwise the empty
      string, since the handler discards decrypt's error and renders
      string(nil). */
  function Revealed(envelope: seq<byte>, key: seq<byte>): (text: seq<byte>)
    ensures Crypto.Decrypt(envelope, key).Ok? ==> text == Crypto.Decrypt(envelope, key).value
    ensures Crypto.Decrypt(envelope, key).Err? ==> text == []
  {
    match Crypto.Decrypt(envelope, key)
    case Ok(pw) => pw
    case Err(_) => []
  }

  /** revealHandler: hex-decode the key (its error is discarded: on bad hex the
      bytes decoded before the error are used), take the envelope from the store,
      decrypt. A failed take redirects and changes nothing; a successful one
      consumes the token whether or not decryption then succeeds. */
  method Reveal(store: Ephemeral.Store, token: string, key: string) returns (page: Page)
    modifies store`entries
    ensures var found := if store.reachable then Ephemeral.Lookup(old(store.entries), store.now, token) else None;
            if found.Some? then
              && page == Shown(Revealed(found.value, Hex.Decode(key).0))
              && store.entries == old(store.entries) - {token}
            else
              page == Redirect && store.entries == old(store.entries)
  {
    var k := Hex.Decode(key).0;
    var c, err := store.Get(token);
    if err.Some? {
      return Redirect;
    }
    var pw := Revealed(c, k);
    page := Shown(pw);
  }

  /** indexHandler for a request that is not a POST: a path validPath matches
      is revealed; any other path gets the empty form without touching the store. */
  method Visit(store: Ephemeral.Store, path: string) returns (page: Page)
    modifies store`entries
    ensures Paths.MatchPath(path).None? ==> page == Form && store.entries == old(store.entries)
    ensures Paths.MatchPath(path).Some? ==>
              var found := if store.reachable then Ephemeral.Lookup(old(store.entries), store.now, Paths.MatchPath(path).value.0) else None;
              if found.Some? then
                && page == Shown(Revealed(found.value, Hex.Decode(Paths.MatchPath(path).value.1).0))
                && store.entries == old(store.entries) - {Paths.MatchPath(path).value.0}
              else
                page == Redirect && store.entries == old(store.entries)
  {
    var d := Paths.MatchPath(path);
    if d.Some? {
      page := Reveal(store, d.value.0, d.value.1);
      return;
    }
    page := Form;
  }

  /** The lifecycle end to end: a deposit, then `wait` nanoseconds that stay
      within its TTL, then two visits to the path of its address: the first
      shows the secret, the second redirects, the token then being gone. */
  method DepositThenRevealTwice(store: Ephemeral.Store, hostUrl: string, secret: seq<byte>,
                                ttlText: string, parseDuration: string -> Option<int>,
                                uuidRandom: Option<seq<byte>>, keyRandom: Option<seq<byte>>,
                                nonceRandom: Option<seq<byte>>, wait: nat)
    returns (address: Option<string>, first: Page, second: Page)
    requires store.reachable
    requires Prepare(secret, uuidRandom, keyRandom, nonceRandom).Ok?
    requires EffectiveTtl(parseDuration(ttlText)) > 0 ==> wait < EffectiveTtl(parseDuration(ttlText))
    modifies store`entries, store`now
    ensures var p := Prepare(secret, uuidRandom, keyRandom, nonceRandom).value;
            && address == Some(AddressFor(hostUrl, p))
            && first == Shown(secret)
            && second == Redirect
            && store.entries == old(store.entries) - {p.token}
  {
    address := Deposit(store, hostUrl, secret, ttlText, parseDuration, uuidRandom, keyRandom, nonceRandom);
    var p := Prepare(secret, uuidRandom, keyRandom, nonceRandom).value;
    var ttl := EffectiveTtl(parseDuration(ttlText));
    ghost var written := old(store.entries)[p.token := Ephemeral.Entry(p.envelope, Ephemeral.ExpiryFor(store.now, ttl))];
    ghost var t0 := store.now;
    store.Advance(wait);
    AddressRoundTrip(hostUrl, secret, uuidRandom, keyRandom, nonceRandom);
    Ephemeral.SetThenLookup(old(store.entries), t0, store.now, p.token, p.envelope, ttl);
    var path := Paths.PathOf(p.token, Hex.Encode(p.key));
    first := Visit(store, path);
    second := Visit(store, path);
    Ephemeral.TakeIsOnce(written, store.now, p.token);
  }

  /** Expiry end to end: when the TTL of a deposit (the parsed form value, or
      the 30-minute fallback) is positive and has elapsed before the first
      visit, the visit redirects even though the secret was never revealed. */
  method DepositThenExpire(store: Ephemeral.Store, hostUrl: string, secret: seq<byte>,
                           ttlText: string, parseDuration: string -> Option<int>,
                           uuidRandom: Option<seq<byte>>, keyRandom: Option<seq<byte>>,
                           nonceRandom: Option<seq<byte>>, wait: nat)
    returns (page: Page)
    requires store.reachable
    requires Prepare(secret, uuidRandom, keyRandom, nonceRandom).Ok?
    requires 0 < EffectiveTtl(parseDuration(ttlText)) <= wait
    modifies store`entries, store`now
    ensures page == Redirect
  {
    var address := Deposit(store, hostUrl, secret, ttlText, parseDuration, uuidRandom, keyRandom, nonceRandom);
    var p := Prepare(secret, uuidRandom, keyRandom, nonceRandom).value;
    var ttl := EffectiveTtl(parseDuration(ttlText));
    ghost var t0 := store.now;
    store.Advance(wait);
    Ephemeral.SetThenExpire(old(store.entries), t0, store.now, p.token, p.envelope, ttl);
    AddressRoundTrip(hostUrl, secret, uuidRandom, keyRandom, nonceRandom);
    page := Visit(store, Paths.PathOf(p.token, Hex.Encode(p.key)));
  }
}
