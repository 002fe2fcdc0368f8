/** Values shared by every part of the service: bytes, Go-style errors and the
    randomness the service draws from crypto/rand. */
module Base {

  /** A byte of a Go []byte or of a Go string. */
  newtype byte = x: int | 0 <= x < 256

  /** A value that may be absent (a Go nil, a missing key, a failed parse). */
  datatype Option<T> = None | Some(value: T)

  /** The errors the service's functions return as Go's second result. */
  datatype Error =
    | WriteFailed            // ErrWriteFailed, returned by set and get
    | RandomnessUnavailable  // crypto/rand could not fill the requested buffer
    | KeySize(size: nat)     // aes.KeySizeError: the key is not 16, 24 or 32 bytes
    | CipherTextTooShort     // decrypt's input is shorter than the nonce
    | AuthenticationFailed   // GCM Open rejected the tag

  /** A Go (value, error) pair in which exactly one half is meaningful. */
  datatype Result<T> = Ok(value: T) | Err(error: Error)

  /** io.ReadFull over crypto/rand: `source` is what the entropy source can
      deliver (None when it errors); reading `n` bytes succeeds only when at
      least `n` are available, and then yields the first `n` of them. */
  function ReadFull(source: Option<seq<byte>>, n: nat): (r: Result<seq<byte>>)
    ensures r.Ok? <==> source.Some? && n <= |source.value|
    ensures r.Ok? ==> |r.value| == n && r.value == source.value[..n]
    ensures r.Err? ==> r.error == RandomnessUnavailable
  {
    if source.Some? && n <= |source.value| then Ok(source.value[..n])
    else Err(RandomnessUnavailable)
  }
}
