# whisper: a verified model of the one-time secret lifecycle

whisper is a small Go web service for sharing a secret through a link that
works once. A sender posts a secret and an optional TTL. The service then
draws a random UUID as the storage token and a random 16-byte AES key. It
encrypts the secret with AES-GCM and stores the envelope (nonce followed by
sealed ciphertext) in Redis under the token, with the TTL. It answers with
the address `HOST_URL/<token>/<hex key>`. A visit to that path matches the
pattern `validPath`, hex-decodes the key and takes the envelope from Redis
(GET, then DEL). It decrypts the envelope and shows the secret. A second
visit, or a visit after the TTL, finds nothing and is redirected to `/`.

This project models that lifecycle in Dafny and proves its properties:

- `base.dfy` (module `Base`): bytes, Go-style `(value, error)` results, the
  service's error values, and reading from the entropy source.
- `hex.dfy` (`Hex`): `hex.EncodeToString` and `hex.DecodeString`, and their
  round trip.
- `crypto.dfy` (`Crypto`): `generateKey`, `encrypt` and `decrypt`, with the
  envelope framing and its round trip. `Seal`/`Open` stand in for AES-GCM.
- `uuid.dfy` (`Uuid`): `uuid.NewV4` and the RFC 4122 string form that becomes
  the storage token.
- `paths.dfy` (`Paths`): the `validPath` matcher, `strings.Join` and the
  address.
- `store.dfy` (`Ephemeral`): the Redis store as a class holding a map from
  token to (payload, expiry) and a clock, with `set` and `get` as methods.
- `service.dfy` (`Whisper`): the non-HTTP logic of `secretHandler`,
  `revealHandler` and the GET branch of `indexHandler`, plus two end-to-end
  scenarios.

Randomness, the clock and `time.ParseDuration` are inputs. Each of the three
random draws (UUID, key, nonce) is an `Option<seq<byte>>`: `None` means
crypto/rand failed, and a stream shorter than needed means `io.ReadFull`
failed. The clock is the store's `now` field, in nanoseconds like Go's
`time.Duration`. The store's own `SetReachable` and `Advance` methods change
its reachability and its clock. `time.ParseDuration` is a function-typed
parameter `string -> Option<int>`.

The service is meant to give a link that works exactly once and to reject a
malformed link before the store is touched. Where the code behaves otherwise,
the model follows the code:

- The key segment is only checked against `[a-zA-Z0-9-_]+`, and the
  hex-decoding error is discarded. A segment whose first character is not a
  hex digit decodes to no bytes. The visit then consumes the secret and shows
  an empty page (`Whisper.NonHexKeyShowsNothing`, `Whisper.Reveal`). A segment
  that is the right hex key followed by a non-digit or one extra character
  still decodes to the key, and the visit shows the secret
  (`Whisper.TrailingCharacterStillReveals`). So one key has several working
  address forms, upper-case hex among them.
- The code does GET then DEL rather than one atomic fetch-and-delete. The
  model treats `get` as one step (see "Left out").
- `time.ParseDuration` also accepts `0` and negative durations, and go-redis
  then sets no expiry. The model keeps this: `Ephemeral.ExpiryFor` gives `None`
  for `ttl <= 0`, so such a secret stays until it is read.

## Model

| member | source | states |
|---|---|---|
| `Base.ReadFull` | src/main.go:71-74 | reading n random bytes succeeds exactly when the source works and has at least n bytes; the result is those n bytes; otherwise the error is RandomnessUnavailable |
| `Hex.Encode` | src/main.go:150 | the hex form of the key has two characters per byte, all lower-case hex digits |
| `Hex.Decode` | src/main.go:155 | decoding succeeds exactly when the segment has even length and only hex digits (either case), and then gives half as many bytes; on failure fewer bytes come back |
| `Hex.DecodePrefix` | src/main.go:155 | byte i is the value of the i-th pair of digits, and a failed decode stops at the first pair that is incomplete or holds a non-digit, so the bytes returned are those decoded before the error |
| `Hex.DecodeEncodeWithSuffix` | src/main.go:155 | the hex of b followed by a non-digit, or by one extra character, decodes to b with the error flag set |
| `Hex.DecodeEncode` | src/main.go:150-155 | decoding the hex form of any byte string gives back those bytes with no error |
| `Hex.DecodeLowerIsEncode` | src/main.go:155 | a lower-case segment that decodes without error to b is exactly the hex form of b |
| `Crypto.GenerateKey` | src/main.go:51-57 | a key is exactly aes.BlockSize (16) bytes, a length AES accepts; when crypto/rand fails there is an error and no key |
| `Crypto.Seal` | src/main.go:76 | the sealed output is the plaintext length plus the 16-byte tag |
| `Crypto.Open` | src/main.go:96 | opening fails with an authentication error on input shorter than the tag; a successful open is 16 bytes shorter than its input |
| `Crypto.OpenSeal` | src/main.go:76-96 | Open with the same key and nonce undoes Seal |
| `Crypto.OpenWithExtendedKeyFails` | src/main.go:96 | a longer valid key that begins with the sealing key fails authentication |
| `Crypto.Encrypt` | src/main.go:60-77 | a key of a length AES rejects gives KeySize; otherwise encryption succeeds exactly when a 12-byte nonce can be drawn; the envelope is that nonce followed by exactly Seal(key, nonce, plaintext), 12 + n + 16 bytes long |
| `Crypto.Decrypt` | src/main.go:79-97 | a bad key length gives KeySize; input shorter than the nonce gives CipherTextTooShort; otherwise the result is Open of the suffix with exactly the 12-byte prefix as nonce; a plaintext is 28 bytes shorter than its envelope |
| `Crypto.DecryptEncrypt` | src/main.go:60-97 | decrypting an envelope from encrypt under the same key gives back the plaintext |
| `Uuid.NewV4` | src/main.go:129 | a UUID is 16 bytes carrying version 4 and the RFC 4122 variant; the low nibble of byte 6, the low six bits of byte 8 and all other bytes keep their random values; failure of crypto/rand gives an error and no UUID |
| `Uuid.Format` | src/main.go:134 | the storage token is 36 characters of lower-case hex and dashes, with dashes at positions 8, 13, 18 and 23 |
| `Uuid.FormatGroupsDecode` | src/main.go:134 | the five hex groups of the token decode back to the UUID's 16 bytes |
| `Paths.MatchPath` | src/main.go:23 | a match means the path is "/" + token + "/" + key with a 36-character token and a non-empty key, both in [a-zA-Z0-9-_] |
| `Paths.MatchPathComplete` | src/main.go:110-112 | every path of that shape matches, and the captured groups are its token and key |
| `Paths.Join` | src/main.go:150 | joining gives "" for no parts and otherwise starts with the first part |
| `Paths.AddressIsHostAndPath` | src/main.go:150 | the address is HOST_URL followed by "/" + token + "/" + hex key, the path validPath is matched against |
| `Ephemeral.ExpiryFor` | src/main.go:36 | a positive TTL expires the entry exactly TTL after the write; zero or negative means no expiry |
| `Ephemeral.Lookup` | src/main.go:43 | a GET finds a payload exactly when the token is present and not expired, and that payload is the stored one |
| `Ephemeral.SetThenLookup` | src/main.go:35-49 | after a set, a lookup of the token before the TTL elapses returns the payload |
| `Ephemeral.SetThenExpire` | src/main.go:35-43 | once the TTL has elapsed the token is no longer found |
| `Ephemeral.TakeIsOnce` | src/main.go:47 | after the Del the token is not found, and every other token's lookup is unchanged |
| `Ephemeral.Store.constructor` | src/main.go:30 | a new store is empty, reachable and at the given time |
| `Ephemeral.Store.Set` | src/main.go:35-40 | set writes the payload with its expiry under the token, or fails with ErrWriteFailed and writes nothing when the server is unreachable |
| `Ephemeral.Store.Get` | src/main.go:42-49 | a live token's payload is returned and the token removed; a missing or expired token, or an unreachable server, gives "" and ErrWriteFailed and leaves the store unchanged |
| `Whisper.EffectiveTtl` | src/main.go:124-127 | an unparsable TTL becomes exactly 30 minutes, and a parsed one is used as is |
| `Whisper.Prepare` | src/main.go:129-144 | deposit preparation succeeds exactly when UUID, key and encryption all succeed; the token is the string form of the drawn UUID (36 path characters), the key is the drawn 16-byte key, and the envelope is encrypt's output for the secret under that key, which decrypts under the key to the secret |
| `Whisper.AddressRoundTrip` | src/main.go:110-155 | the path of a deposited address matches validPath, its groups are the token and the hex key, and the hex key decodes back to the key |
| `Whisper.TrailingCharacterStillReveals` | src/main.go:110-161 | the hex key of a deposit followed by a non-digit or one extra character still matches validPath, decodes to the key and reveals the secret |
| `Whisper.NonHexKeyShowsNothing` | src/main.go:155-163 | a key segment starting with a non-digit decodes to no bytes and the page shows the empty string |
| `Whisper.Deposit` | src/main.go:118-152 | if any of UUID, key, encryption or set fails there is no address and the store is unchanged; otherwise the envelope is stored under the token with the effective TTL and the address is HOST_URL/token/hex(key) |
| `Whisper.Revealed` | src/main.go:161-163 | the page shows the plaintext when decryption succeeds and the empty string when it fails |
| `Whisper.Reveal` | src/main.go:154-164 | a token not found redirects and changes nothing; a token found is consumed and its decrypted secret, or "", is shown |
| `Whisper.Visit` | src/main.go:110-115 | a path validPath rejects gets the empty form without touching the store; a matching path is revealed with its two groups |
| `Whisper.DepositThenRevealTwice` | src/main.go:118-164 | after a successful deposit and a wait shorter than its positive TTL (any wait when the TTL sets no expiry), the first visit to its address shows the secret, the second is redirected, and only that token has left the store |
| `Whisper.DepositThenExpire` | src/main.go:124-160 | for the TTL from the form value (or its 30-minute fallback), when it is positive and has elapsed, a visit to the deposit's address is redirected even though the secret was never revealed |

## Left out

- AES and GCM internals: `Crypto.Seal` and `Crypto.Open` are a keyed stand-in with GCM's framing (12-byte nonce, 16-byte tag, authentication failure on a bad tag). Only their round trip, their lengths and the failure of a key extended beyond the sealing key are proved. Confidentiality is not modelled. The stand-in's tag does not make every wrong key or every tampered envelope fail, as real GCM does with overwhelming probability; so no claim is made that a wrong key or a tampered envelope never yields a wrong plaintext.
- crypto/rand and `uuid.NewV4`'s entropy are inputs, not random draws. Uniqueness of tokens is not modelled. A colliding token would overwrite an entry, as Redis SET does.
- `time.ParseDuration`: its grammar is not modelled. The parse result comes from a function-typed parameter.
- Ephemeral.Store.Get: GET and DEL are one sequential step, so the race between two concurrent reveals of the same token is not modelled. In the code, a DEL that fails after a successful GET is ignored and would leave the entry behind.
- Ephemeral.ExpiryFor: go-redis sends a TTL as whole milliseconds (PX) or seconds (EX). The model keeps the exact nanosecond TTL. It does not model Redis rejecting a positive TTL below one millisecond.
- Expiry uses "expired once now reaches the expiry instant". Redis's own rule at the exact millisecond is not modelled.
- Hex.Decode: follows the current documented behaviour of `hex.DecodeString`, which returns the bytes decoded before an error. Go releases before that behaviour returned no bytes on error.
- HTTP plumbing is not modelled: `renderTemplate`, templates, `http.Error`, `http.Redirect`, form parsing, the POST dispatch of `indexHandler`, and the response codes. `secretHandler`'s own non-POST check does not return, but only POST requests reach it.
- Extracting the path from a full URL is HTTP plumbing. The lemmas match the path `"/" + token + "/" + hex`. An address whose HOST_URL itself carries a path would not match `validPath`.
- Startup and health are not modelled: `main`, `init`, the environment variables, the TLS and HTTP listeners, `healthCheckHandler` and Redis `Ping`. They are process and network setup with no lifecycle logic.
- Redis persistence and replication are not modelled. Neither is memory eviction.
