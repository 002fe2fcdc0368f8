/** The shareable address: how secretHandler joins it and how indexHandler's
    validPath pattern, ^/([a-zA-Z0-9-_]{36})/([a-zA-Z0-9-_]+)$, splits a
    request path back into a storage token and a key segment. */
module Paths {
  import opened Base

  /** The length validPath demands of the token segment. */
  const TokenLength: nat := 36

  /** The character class [a-zA-Z0-9-_] of both segments. */
  predicate IsPathChar(c: char) {
    'a' <= c <= 'z' || 'A' <= c <= 'Z' || '0' <= c <= '9' || c == '-' || c == '_'
  }

  predicate AllPathChars(s: string) {
    forall i :: 0 <= i < |s| ==> IsPathChar(s[i])
  }

  /** validPath.FindStringSubmatch(path): the two captured groups when the whole
      path is a slash, TokenLength class characters, a slash and one or more
      class characters; None when it does not match. The class has no slash, so
      the split is unique. */
  function MatchPath(path: string): (r: Option<(string, string)>)
    ensures r.Some? ==> path == "/" + r.value.0 + "/" + r.value.1
    ensures r.Some? ==> |r.value.0| == TokenLength && AllPathChars(r.value.0)
    ensures r.Some? ==> |r.value.1| > 0 && AllPathChars(r.value.1)
  {
    if |path| > TokenLength + 2 && path[0] == '/' && path[TokenLength + 1] == '/'
       && AllPathChars(path[1..TokenLength + 1]) && AllPathChars(path[TokenLength + 2..])
    then
      var token, key := path[1..TokenLength + 1], path[TokenLength + 2..];
      assert path == "/" + token + "/" + key;
      Some((token, key))
    else None
  }

  /** The converse of MatchPath's contract: every path of that shape matches,
      and the groups are its two segments. */
  lemma MatchPathComplete(token: string, key: string)
    requires |token| == TokenLength && AllPathChars(token)
    requires |key| > 0 && AllPathChars(key)
    ensures MatchPath("/" + token + "/" + key) == Some((token, key))
  {
    var path := "/" + token + "/" + key;
    assert path[1..TokenLength + 1] == token;
    assert path[TokenLength + 2..] == key;
  }

  /** strings.Join: the parts with `sep` between consecutive ones; the result
      starts with the first part. */
  function Join(parts: seq<string>, sep: string): (s: string)
    ensures |parts| == 0 ==> s == ""
    ensures |parts| > 0 ==> |parts[0]| <= |s| && s[..|parts[0]|] == parts[0]
  {
    if |parts| == 0 then ""
    else if |parts| == 1 then parts[0]
    else parts[0] + sep + Join(parts[1..], sep)
  }

  /** The address secretHandler renders: HOST_URL, token and key joined by "/". */
  function Address(hostUrl: string, token: string, keyHex: string): string
  {
    Join([hostUrl, token, keyHex], "/")
  }

  /** The request path a recipient's browser sends for an address. */
  function PathOf(token: string, keyHex: string): string
  {
    "/" + token + "/" + keyHex
  }

  /** An address is HOST_URL followed by the path validPath is matched against. */
  lemma {:induction false} AddressIsHostAndPath(hostUrl: string, token: string, keyHex: string)
    ensures Address(hostUrl, token, keyHex) == hostUrl + PathOf(token, keyHex)
  {
    var parts := [hostUrl, token, keyHex];
    assert parts[1..] == [token, keyHex] && parts[1..][1..] == [keyHex];
    assert Join(parts[1..][1..], "/") == keyHex;
    assert Join(parts[1..], "/") == token + "/" + keyHex;
    assert Join(parts, "/") == hostUrl + "/" + (token + "/" + keyHex);
  }
}
