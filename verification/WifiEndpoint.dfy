/** The URIs of the master and of a service (src/ros1/wifi.rs, `Endpoint::parse`). Whether a text is
    an IPv6 address is for a given predicate to say. */
module WifiEndpoint {
  import opened Base
  import opened WifiHttp
  import opened WifiLookup

  const MAX_URI := 2048
  const MAX_PORT := 0x1_0000
  const SLASH: Byte := 47
  const OPENING: Byte := 91
  const CLOSING: Byte := 93

  /** The parts of a URI: `authority` and `path` are as the URI spells them. */
  datatype Endpoint = Endpoint(host: Bytes, port: nat, authority: Bytes, path: Bytes)

  predicate UriByte(b: Byte) {
    32 < b < 127
  }

  predicate HostByte(b: Byte) {
    48 <= b <= 57 || 65 <= b <= 90 || 97 <= b <= 122 || b == 46 || b == 45 || b == 95
  }

  /** Bytes that would start a query or a fragment. */
  predicate Separates(b: Byte) {
    b == 63 || b == 35
  }

  /** Bytes an authority may not have: those, or the sign of a user name. */
  predicate Unwanted(b: Byte) {
    b == 64 || Separates(b)
  }

  /** What is before and after the last `b`. */
  function SplitLast(s: Bytes, b: Byte): (r: Option<(Bytes, Bytes)>)
    ensures r.Some? ==> r.value.0 + [b] + r.value.1 == s && b !in r.value.1
    ensures r.None? ==> b !in s
  {
    if s == [] then None
    else
      var last, n := s[|s| - 1], |s| - 1;
      if last == b then Some((s[..n], []))
      else match SplitLast(s[..n], b)
        case None => None
        case Some((before, after)) => Some((before, after + [last]))
  }

  /** The host and the text of the port. */
  function SplitAuthority(authority: Bytes, ipv6: Bytes -> bool): Option<(Bytes, Bytes)> {
    if authority != [] && authority[0] == OPENING then
      match SplitAt(authority[1..], CLOSING)
      case None => None
      case Some((host, tail)) =>
        if ipv6(host) && tail != [] && tail[0] == COLON then Some((host, tail[1..])) else None
    else
      match SplitLast(authority, COLON)
      case None => None
      case Some((host, port)) => if host != [] && forall b | b in host :: HostByte(b) then Some((host, port)) else None
  }

  /** The authority and the path, which is a slash if there is none. */
  function SplitPath(rest: Bytes): (Bytes, Bytes) {
    match SplitAt(rest, SLASH)
    case None => (rest, [SLASH])
    case Some((authority, path)) => (authority, [SLASH] + path)
  }

  predicate AllUriBytes(s: Bytes) {
    forall b | b in s :: UriByte(b)
  }

  /** No user name, query or fragment, and a path only if there may be one. */
  predicate PlainParts(authority: Bytes, path: Bytes, allowPath: bool) {
    && (forall b | b in authority :: !Unwanted(b))
    && (forall b | b in path :: !Separates(b))
    && (allowPath || path == [SLASH])
  }

  /** What follows the scheme. */
  function ParseRest(rest: Bytes, allowPath: bool, ipv6: Bytes -> bool): Option<Endpoint> {
    var (authority, path) := SplitPath(rest);
    if !PlainParts(authority, path, allowPath) then None
    else match SplitAuthority(authority, ipv6)
      case None => None
      case Some((host, text)) =>
        match ParseUnsigned(text, MAX_PORT)
        case None => None
        case Some(port) => if port == 0 then None else Some(Endpoint(host, port, authority, path))
  }

  function Parse(uri: Bytes, scheme: Bytes, allowPath: bool, ipv6: Bytes -> bool): Option<Endpoint> {
    if |uri| > MAX_URI || !AllUriBytes(uri) || !(scheme <= uri) then None
    else ParseRest(uri[|scheme|..], allowPath, ipv6)
  }

  /** `part` has the bytes of `whole`, and slashes. */
  ghost predicate Within(part: Bytes, whole: Bytes) {
    forall b | b in part :: b in whole || b == SLASH
  }

  lemma PathIsSplit(rest: Bytes)
    ensures var (authority, path) := SplitPath(rest);
            && SLASH !in authority && [SLASH] <= path
            && (rest == authority + path || (path == [SLASH] && rest == authority))
            && Within(authority, rest) && Within(path, rest)
  {
    match SplitAt(rest, SLASH)
    case None =>
    case Some((authority, path)) => assert rest == authority + ([SLASH] + path);
  }

  /** The authority is a host and the text of a port: an IPv6 address in brackets, or a name of
      letters, digits, dots, hyphens and underscores. */
  ghost predicate Names(authority: Bytes, host: Bytes, text: Bytes, ipv6: Bytes -> bool) {
    || (ipv6(host) && CLOSING !in host && authority == [OPENING] + host + [CLOSING] + [COLON] + text)
    || (host != [] && (forall b | b in host :: HostByte(b)) && authority == host + [COLON] + text)
  }

  lemma SplitNames(authority: Bytes, ipv6: Bytes -> bool)
    requires SplitAuthority(authority, ipv6).Some?
    ensures var (host, text) := SplitAuthority(authority, ipv6).value; Names(authority, host, text, ipv6)
  {
    hide Index, HostByte;
    var (host, text) := SplitAuthority(authority, ipv6).value;
    if authority[0] == OPENING {
      var inside, n := authority[1..], |host|;
      assert inside == host + [CLOSING] + inside[n + 1..] && inside[n + 1..] == [COLON] + text;
      assert authority == [OPENING] + inside;
    }
  }

  lemma PortIsSmall(text: Bytes)
    ensures var port := ParseUnsigned(text, MAX_PORT); port.Some? ==> port.value < MAX_PORT
  {
    hide DigitsValue;
  }

  lemma ParsedParts(rest: Bytes, allowPath: bool, ipv6: Bytes -> bool)
    requires ParseRest(rest, allowPath, ipv6).Some?
    ensures var e := ParseRest(rest, allowPath, ipv6).value;
            && (e.authority, e.path) == SplitPath(rest)
            && 1 <= e.port < MAX_PORT
            && PlainParts(e.authority, e.path, allowPath)
            && exists text :: Names(e.authority, e.host, text, ipv6) && ParseUnsigned(text, MAX_PORT) == Some(e.port)
  {
    hide SplitPath, SplitAuthority, ParseUnsigned, PlainParts, Names;
    SplitNames(SplitPath(rest).0, ipv6);
    PortIsSmall(SplitAuthority(SplitPath(rest).0, ipv6).value.1);
  }

  lemma PrintableIsWhole(part: Bytes, scheme: Bytes, rest: Bytes)
    requires Within(part, rest) && AllUriBytes(scheme + rest)
    ensures Whole(part)
  {
    forall b | b in part ensures b != CARRIAGE_RETURN {
      assert b in scheme + rest || b == SLASH;
    }
  }

  lemma Reassembled(scheme: Bytes, rest: Bytes, authority: Bytes, path: Bytes)
    requires rest == authority + path || (path == [SLASH] && rest == authority)
    ensures scheme + rest == scheme + authority + path || (path == [SLASH] && scheme + rest == scheme + authority)
  {
    assert scheme + (authority + path) == scheme + authority + path;
  }

  lemma NothingElse(authority: Bytes, path: Bytes, allowPath: bool)
    requires PlainParts(authority, path, allowPath)
    ensures 64 !in authority && 63 !in authority + path && 35 !in authority + path
    ensures !allowPath ==> path == [SLASH]
  {
  }

  /** What a parsed URI is made of: nothing is lost but a missing path, every byte is printable, there
      is no user name, query or fragment, and the authority is a host and a port. */
  lemma ParsedEndpoint(uri: Bytes, scheme: Bytes, allowPath: bool, ipv6: Bytes -> bool)
    requires Parse(uri, scheme, allowPath, ipv6).Some?
    ensures var e := Parse(uri, scheme, allowPath, ipv6).value;
            && (uri == scheme + e.authority + e.path || (e.path == [SLASH] && uri == scheme + e.authority))
            && 1 <= e.port < MAX_PORT
            && SLASH !in e.authority && [SLASH] <= e.path
            && Whole(e.authority) && Whole(e.path)
            && (!allowPath ==> e.path == [SLASH])
            && |uri| <= 2048 && (forall b | b in uri :: 32 < b < 127)
            && 64 !in e.authority && 63 !in e.authority + e.path && 35 !in e.authority + e.path
            && exists text :: Names(e.authority, e.host, text, ipv6) && ParseUnsigned(text, 0x1_0000) == Some(e.port)
  {
    assert |uri| <= 2048 && forall b | b in uri :: 32 < b < 127;
    hide ParseRest, SplitPath, Within, AllUriBytes, Whole, PlainParts, Names, ParseUnsigned, UriByte;
    var e := Parse(uri, scheme, allowPath, ipv6).value;
    var rest := uri[|scheme|..];
    ParsedParts(rest, allowPath, ipv6);
    NothingElse(e.authority, e.path, allowPath);
    assert uri == scheme + rest;
    PathIsSplit(rest);
    PrintableIsWhole(e.authority, scheme, rest);
    PrintableIsWhole(e.path, scheme, rest);
    Reassembled(scheme, rest, e.authority, e.path);
  }

  lemma {:induction false} SplitLastInvertsJoin(before: Bytes, b: Byte, after: Bytes)
    requires b !in after
    ensures SplitLast(before + [b] + after, b) == Some((before, after))
    decreases |after|
  {
    var s := before + [b] + after;
    if after == [] {
      assert s[..|s| - 1] == before;
    } else {
      var m := |after| - 1;
      assert s[..|s| - 1] == before + [b] + after[..m] && s[|s| - 1] == after[m];
      SplitLastInvertsJoin(before, b, after[..m]);
      assert after == after[..m] + [after[m]];
    }
  }

  // ----- Printing -----

  function AuthorityText(host: Bytes, port: nat, bracketed: bool): Bytes {
    (if bracketed then [OPENING] + host + [CLOSING] else host) + [COLON] + Digits(port)
  }

  /** A name or an IPv4 address, or an IPv6 address to stand in brackets. */
  ghost predicate ValidHost(host: Bytes, bracketed: bool, ipv6: Bytes -> bool) {
    if bracketed then
      ipv6(host) && forall b | b in host :: UriByte(b) && b != CLOSING && b != SLASH && !Unwanted(b)
    else
      host != [] && forall b | b in host :: HostByte(b)
  }

  lemma PortIsRead(port: nat)
    requires port < MAX_PORT
    ensures ParseUnsigned(Digits(port), MAX_PORT) == Some(port)
    ensures forall b | b in Digits(port) :: 48 <= b <= 57
  {
    DigitsAreRead(port);
    DigitsParse(port, MAX_PORT);
    hide Digits, DigitsValue, ParseUnsigned;
  }

  lemma BracketsAreSplit(host: Bytes, digits: Bytes, ipv6: Bytes -> bool)
    requires ipv6(host) && CLOSING !in host
    ensures SplitAuthority([OPENING] + host + [CLOSING] + [COLON] + digits, ipv6) == Some((host, digits))
  {
    SplitAtInvertsJoin(host, CLOSING, [COLON] + digits);
    var text := [OPENING] + host + [CLOSING] + [COLON] + digits;
    assert text[1..] == host + [CLOSING] + ([COLON] + digits);
    hide SplitAt, SplitLast;
  }

  lemma NameIsSplit(host: Bytes, digits: Bytes, ipv6: Bytes -> bool)
    requires host != [] && (forall b | b in host :: HostByte(b)) && COLON !in digits
    ensures SplitAuthority(host + [COLON] + digits, ipv6) == Some((host, digits))
  {
    assert (host + [COLON] + digits)[0] == host[0] && host[0] in host;
    SplitLastInvertsJoin(host, COLON, digits);
    hide SplitAt, SplitLast;
  }

  lemma AuthorityIsSplit(host: Bytes, port: nat, bracketed: bool, ipv6: Bytes -> bool)
    requires ValidHost(host, bracketed, ipv6) && port < MAX_PORT
    ensures SplitAuthority(AuthorityText(host, port, bracketed), ipv6) == Some((host, Digits(port)))
  {
    PortIsRead(port);
    hide Digits, SplitAuthority, ParseUnsigned;
    if bracketed {
      BracketsAreSplit(host, Digits(port), ipv6);
    } else {
      NameIsSplit(host, Digits(port), ipv6);
    }
  }

  lemma AuthorityBytes(host: Bytes, port: nat, bracketed: bool, ipv6: Bytes -> bool)
    requires ValidHost(host, bracketed, ipv6) && port < MAX_PORT
    ensures forall b | b in AuthorityText(host, port, bracketed) :: UriByte(b) && b != SLASH && !Unwanted(b)
  {
    PortIsRead(port);
    hide Digits;
  }

  lemma PathIsFound(authority: Bytes, path: Bytes)
    requires SLASH !in authority && [SLASH] <= path
    ensures SplitPath(authority + path) == (authority, path)
    ensures path == [SLASH] ==> SplitPath(authority) == (authority, path)
  {
    assert path == [SLASH] + path[1..];
    SplitAtInvertsJoin(authority, SLASH, path[1..]);
    assert authority + path == authority + [SLASH] + path[1..];
  }

  /** The path of a URI: it starts with a slash and has neither query nor fragment. */
  ghost predicate ValidPath(path: Bytes, allowPath: bool) {
    [SLASH] <= path && AllUriBytes(path) && (forall b | b in path :: !Separates(b)) && (allowPath || path == [SLASH])
  }

  lemma RestIsParsed(
      rest: Bytes, host: Bytes, port: nat, path: Bytes, allowPath: bool, bracketed: bool, ipv6: Bytes -> bool)
    requires ValidHost(host, bracketed, ipv6) && 1 <= port < MAX_PORT && ValidPath(path, allowPath)
    requires SplitPath(rest) == (AuthorityText(host, port, bracketed), path)
    ensures ParseRest(rest, allowPath, ipv6) == Some(Endpoint(host, port, AuthorityText(host, port, bracketed), path))
  {
    AuthorityBytes(host, port, bracketed, ipv6);
    hide ValidHost, SplitPath, Digits, Unwanted, Separates, SplitAuthority, ParseUnsigned, AuthorityText, AllUriBytes;
    AuthorityIsSplit(host, port, bracketed, ipv6);
    PortIsRead(port);
  }

  lemma UriBytesJoin(scheme: Bytes, authority: Bytes, path: Bytes)
    requires AllUriBytes(scheme) && AllUriBytes(path) && forall b | b in authority :: UriByte(b)
    ensures AllUriBytes(scheme + authority + path) && AllUriBytes(scheme + authority)
  {
    hide UriByte;
  }

  lemma ParseAfterScheme(scheme: Bytes, rest: Bytes, allowPath: bool, ipv6: Bytes -> bool)
    requires AllUriBytes(scheme + rest) && |scheme + rest| <= MAX_URI
    ensures Parse(scheme + rest, scheme, allowPath, ipv6) == ParseRest(rest, allowPath, ipv6)
  {
    hide ParseRest, AllUriBytes;
    assert (scheme + rest)[|scheme|..] == rest;
  }

  /** Any host, port and path that a URI can have are found again in it. */
  lemma ParseInvertsUri(
      scheme: Bytes, host: Bytes, port: nat, path: Bytes, allowPath: bool, bracketed: bool, ipv6: Bytes -> bool)
    requires ValidHost(host, bracketed, ipv6) && 1 <= port < MAX_PORT && ValidPath(path, allowPath)
    requires AllUriBytes(scheme)
    requires |scheme + AuthorityText(host, port, bracketed) + path| <= MAX_URI
    ensures var authority := AuthorityText(host, port, bracketed);
            var e := Endpoint(host, port, authority, path);
            && Parse(scheme + authority + path, scheme, allowPath, ipv6) == Some(e)
            && (path == [SLASH] ==> Parse(scheme + authority, scheme, allowPath, ipv6) == Some(e))
  {
    var authority := AuthorityText(host, port, bracketed);
    AuthorityBytes(host, port, bracketed, ipv6);
    UriBytesJoin(scheme, authority, path);
    PathIsFound(authority, path);
    hide AuthorityText, ValidHost, Parse, ParseRest, SplitPath, AllUriBytes, ValidPath;
    assert scheme + authority + path == scheme + (authority + path);
    RestIsParsed(authority + path, host, port, path, allowPath, bracketed, ipv6);
    ParseAfterScheme(scheme, authority + path, allowPath, ipv6);
    if path == [SLASH] {
      RestIsParsed(authority, host, port, path, allowPath, bracketed, ipv6);
      ParseAfterScheme(scheme, authority, allowPath, ipv6);
    }
  }
}
