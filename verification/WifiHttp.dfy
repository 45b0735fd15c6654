/** The reply to the lookup (src/ros1/wifi.rs): an HTTP/1.0 response (section 6 of RFC 1945) whose
    body is as long as its one Content-Length says (section 10.4). */
module WifiHttp {
  import opened Base
  import opened Wire
  import opened WifiHeader
  import opened WifiNetwork
  import Utf8

  const MAX_HTTP_HEADER := 16 * 1024
  const MAX_LOOKUP_BODY := 64 * 1024
  const BREAK: Bytes := [13, 10]
  const COLON: Byte := 58

  predicate Ascii(b: Bytes) {
    forall i | 0 <= i < |b| :: b[i] < 128
  }

  /** ASCII text as bytes. */
  function Text(s: string): (b: Bytes)
    requires forall i | 0 <= i < |s| :: s[i] < 128 as char
    ensures |b| == |s| && Ascii(b)
  {
    seq(|s|, i requires 0 <= i < |s| => s[i] as int)
  }

  // ----- Where the header ends -----

  predicate EndsHeader(h: Bytes) {
    |h| >= 4 && h[|h| - 4..] == BREAK + BREAK
  }

  /** `n` bytes of the stream are a header: they end in an empty line, no shorter start does, and
      they are within the limit. */
  ghost predicate IsHeader(stream: Bytes, n: nat) {
    && n <= |stream| && n <= MAX_HTTP_HEADER
    && EndsHeader(stream[..n])
    && forall k | 0 <= k < n :: !EndsHeader(stream[..k])
  }

  /** The length of the header, looking from `n` on. */
  function HeaderEnd(stream: Bytes, n: nat): (r: Result<nat, WifiError>)
    requires n <= |stream|
    ensures r.Success? ==> n <= r.value <= |stream|
    ensures r.Failure? ==> PeerError(r.error)
    decreases |stream| - n
  {
    if EndsHeader(stream[..n]) then Success(n)
    else if n >= MAX_HTTP_HEADER then Failure(Protocol(HttpHeaderOverLimit))
    else if n == |stream| then Failure(Transport)
    else HeaderEnd(stream, n + 1)
  }

  /** The search finds exactly the shortest header. */
  lemma {:induction false} HeaderEndFindsHeader(stream: Bytes, from: nat)
    requires from <= |stream| && from <= MAX_HTTP_HEADER
    requires forall k | 0 <= k < from :: !EndsHeader(stream[..k])
    ensures HeaderEnd(stream, from).Success? ==> IsHeader(stream, HeaderEnd(stream, from).value)
    ensures HeaderEnd(stream, from).Failure? ==> forall n :: !IsHeader(stream, n)
    decreases |stream| - from
  {
    hide EndsHeader;
    if !EndsHeader(stream[..from]) && from < MAX_HTTP_HEADER && from < |stream| {
      HeaderEndFindsHeader(stream, from + 1);
    }
  }

  /** No start of the stream shorter than `n` is a header. */
  ghost predicate NoneBefore(stream: Bytes, n: nat) {
    n <= |stream| && forall k | 0 <= k < n :: !EndsHeader(stream[..k])
  }

  lemma {:induction false} HeaderEndSkips(stream: Bytes, from: nat, n: nat)
    requires from <= n <= MAX_HTTP_HEADER && NoneBefore(stream, n)
    ensures HeaderEnd(stream, from) == HeaderEnd(stream, n)
    decreases n - from
  {
    hide EndsHeader;
    if from < n {
      HeaderEndSkips(stream, from + 1, n);
    }
  }

  /** The search looks no further than the header. */
  lemma HeaderEndIsLocal(header: Bytes, stream: Bytes)
    requires header <= stream && NoneBefore(header, |header|) && |header| <= MAX_HTTP_HEADER
    requires EndsHeader(header) || |header| == MAX_HTTP_HEADER
    ensures HeaderEnd(stream, 0)
            == if EndsHeader(header) then Success(|header|) else Failure(Protocol(HttpHeaderOverLimit))
  {
    hide EndsHeader;
    forall k | 0 <= k < |header| ensures !EndsHeader(stream[..k]) {
      assert stream[..k] == header[..k];
    }
    HeaderEndSkips(stream, 0, |header|);
    assert stream[..|header|] == header;
  }

  // ----- What the header says -----

  /** Text cut at every line break. */
  function Lines(text: Bytes, start: nat): (lines: seq<Bytes>)
    requires start <= |text|
    ensures lines != []
    decreases |text| - start
  {
    if start + 2 > |text| then [text]
    else if text[start..start + 2] == BREAK then [text[..start]] + Lines(text[start + 2..], 0)
    else Lines(text, start + 1)
  }

  /** One whitespace character in UTF-8. */
  predicate IsSpace(c: Bytes) {
    if |c| == 1 then 9 <= c[0] <= 13 || c[0] == 32
    else if |c| == 2 then c[0] == 0xC2 && (c[1] == 0x85 || c[1] == 0xA0)
    else if |c| == 3 then
      || c == [0xE1, 0x9A, 0x80]
      || (c[0] == 0xE2 && c[1] == 0x80 && (0x80 <= c[2] <= 0x8A || c[2] == 0xA8 || c[2] == 0xA9 || c[2] == 0xAF))
      || c == [0xE2, 0x81, 0x9F]
      || c == [0xE3, 0x80, 0x80]
    else false
  }

  function LeadingSpace(s: Bytes): (n: nat)
    ensures n <= |s|
  {
    if |s| >= 1 && IsSpace(s[..1]) then 1
    else if |s| >= 2 && IsSpace(s[..2]) then 2
    else if |s| >= 3 && IsSpace(s[..3]) then 3
    else 0
  }

  function TrailingSpace(s: Bytes): (n: nat)
    ensures n <= |s|
  {
    if |s| >= 1 && IsSpace(s[|s| - 1..]) then 1
    else if |s| >= 2 && IsSpace(s[|s| - 2..]) then 2
    else if |s| >= 3 && IsSpace(s[|s| - 3..]) then 3
    else 0
  }

  function TrimStart(s: Bytes): Bytes
    decreases |s|
  {
    if LeadingSpace(s) == 0 then s else TrimStart(s[LeadingSpace(s)..])
  }

  function TrimEnd(s: Bytes): Bytes
    decreases |s|
  {
    if TrailingSpace(s) == 0 then s else TrimEnd(s[..|s| - TrailingSpace(s)])
  }

  function WordEnd(s: Bytes, n: nat): (end: nat)
    requires n <= |s|
    ensures n <= end <= |s|
    decreases |s| - n
  {
    if n == |s| || LeadingSpace(s[n..]) > 0 then n else WordEnd(s, n + 1)
  }

  /** The first word and what follows it. */
  function TakeWord(s: Bytes): (Bytes, Bytes) {
    var t := TrimStart(s);
    (t[..WordEnd(t, 0)], t[WordEnd(t, 0)..])
  }

  predicate IsOkStatus(line: Bytes) {
    var (version, rest) := TakeWord(line);
    (version == Text("HTTP/1.0") || version == Text("HTTP/1.1")) && TakeWord(rest).0 == Text("200")
  }

  /** Printable ASCII without the space. */
  ghost predicate IsWord(s: Bytes) {
    s != [] && forall i | 0 <= i < |s| :: 32 < s[i] < 127
  }

  /** Nothing, or what follows a word. */
  ghost predicate StartsApart(s: Bytes) {
    s == [] || s[0] == 32
  }

  lemma {:induction false} WordEndsApart(word: Bytes, rest: Bytes, n: nat)
    requires IsWord(word) && StartsApart(rest) && n <= |word|
    ensures WordEnd(word + rest, n) == |word|
    decreases |word| - n
  {
    if n < |word| {
      assert (word + rest)[n..][0] == word[n];
      WordEndsApart(word, rest, n + 1);
    } else {
      assert (word + rest)[n..] == rest;
      if rest != [] {
        assert rest[..1][0] == 32;
      }
    }
  }

  lemma WordIsTaken(word: Bytes, rest: Bytes)
    requires IsWord(word) && StartsApart(rest)
    ensures TakeWord(word + rest) == (word, rest)
    ensures TakeWord([32] + (word + rest)) == (word, rest)
  {
    var s := word + rest;
    assert s[0] == word[0];
    assert LeadingSpace(s) == 0;
    assert ([32] + s)[..1] == [32] && ([32] + s)[1..] == s;
    assert TrimStart([32] + s) == TrimStart(s);
    WordEndsApart(word, rest, 0);
  }

  /** A status line is accepted exactly when its version is 1.0 or 1.1 and its code 200. */
  lemma StatusIsOk(version: Bytes, code: Bytes, rest: Bytes)
    requires IsWord(version) && IsWord(code) && StartsApart(rest)
    ensures IsOkStatus(version + ([32] + (code + rest)))
            <==> (version == Text("HTTP/1.0") || version == Text("HTTP/1.1")) && code == Text("200")
  {
    hide TakeWord, Text;
    WordIsTaken(version, [32] + (code + rest));
    WordIsTaken(code, rest);
  }

  function LowerByte(b: Byte): Byte {
    if 65 <= b <= 90 then b + 32 else b
  }

  predicate SameIgnoringCase(a: Bytes, b: Bytes) {
    |a| == |b| && forall i | 0 <= i < |a| :: LowerByte(a[i]) == LowerByte(b[i])
  }

  predicate IsTransferEncoding(name: Bytes) {
    SameIgnoringCase(name, Text("transfer-encoding"))
  }

  predicate IsContentLength(name: Bytes) {
    SameIgnoringCase(name, Text("content-length"))
  }

  function DigitsValue(s: Bytes): Option<nat> {
    if s == [] then Some(0)
    else
      var last := s[|s| - 1];
      match DigitsValue(s[..|s| - 1])
      case None => None
      case Some(n) => if 48 <= last <= 57 then Some(10 * n + (last - 48)) else None
  }

  /** A decimal number below `limit`, with an optional plus sign. */
  function ParseUnsigned(s: Bytes, limit: nat): Option<nat> {
    var digits := if s != [] && s[0] == 43 then s[1..] else s;
    if digits == [] then None
    else match DigitsValue(digits)
      case None => None
      case Some(n) => if n < limit then Some(n) else None
  }

  function LengthValue(value: Bytes): Option<nat> {
    ParseUnsigned(TrimEnd(TrimStart(value)), Power256(8))
  }

  /** One line of the header, given the length announced so far. */
  function ScanLine(line: Bytes, length: Option<nat>): Result<Option<nat>, WifiError> {
    if line == [] then Success(length)
    else match SplitAt(line, COLON)
      case None => Failure(Protocol(HttpField))
      case Some((name, value)) =>
        if IsTransferEncoding(name) then Failure(Protocol(HttpTransferEncoding))
        else if !IsContentLength(name) then Success(length)
        else if length.Some? then Failure(Protocol(HttpDuplicateLength))
        else if LengthValue(value).None? then Failure(Protocol(HttpBadLength))
        else Success(LengthValue(value))
  }

  /** `name` is this word of small letters and hyphens, in whatever case. */
  ghost predicate Spells(name: Bytes, word: string) {
    && |name| == |word|
    && (forall i | 0 <= i < |word| :: 'a' <= word[i] <= 'z' || word[i] == '-')
    && (forall i | 0 <= i < |word| ::
          name[i] == word[i] as int || (word[i] != '-' && name[i] == word[i] as int - 32))
  }

  lemma SpellingIgnoresCase(name: Bytes, word: string)
    requires forall i | 0 <= i < |word| :: 'a' <= word[i] <= 'z' || word[i] == '-'
    ensures SameIgnoringCase(name, Text(word)) <==> Spells(name, word)
  {
    if |name| == |word| {
      forall i | 0 <= i < |word|
        ensures LowerByte(name[i]) == LowerByte(Text(word)[i])
                <==> name[i] == word[i] as int || (word[i] != '-' && name[i] == word[i] as int - 32)
      {
        assert Text(word)[i] == word[i] as int;
      }
    }
  }

  /** What a field does to the scan: Transfer-Encoding is refused, the first Content-Length sets the
      length, a second one is refused, and every other field is passed over. */
  lemma FieldsThatMatter(name: Bytes, value: Bytes, before: Option<nat>)
    requires COLON !in name
    ensures Spells(name, "transfer-encoding") ==>
              ScanLine(name + [COLON] + value, before) == Failure(Protocol(HttpTransferEncoding))
    ensures Spells(name, "content-length") && before.Some? ==>
              ScanLine(name + [COLON] + value, before) == Failure(Protocol(HttpDuplicateLength))
    ensures Spells(name, "content-length") && before.None? ==>
              ScanLine(name + [COLON] + value, before)
              == if LengthValue(value).Some? then Success(LengthValue(value)) else Failure(Protocol(HttpBadLength))
    ensures !Spells(name, "transfer-encoding") && !Spells(name, "content-length") ==>
              ScanLine(name + [COLON] + value, before) == Success(before)
  {
    SplitAtInvertsJoin(name, COLON, value);
    SpellingIgnoresCase(name, "transfer-encoding");
    SpellingIgnoresCase(name, "content-length");
    hide SameIgnoringCase, LengthValue, SplitAt;
    assert |"transfer-encoding"| == 17 && |"content-length"| == 14;
  }

  function ScanLines(lines: seq<Bytes>, length: Option<nat>): (r: Result<Option<nat>, WifiError>)
    ensures r.Failure? ==> PeerError(r.error)
  {
    if lines == [] then Success(length)
    else
      var next :- ScanLine(lines[0], length);
      ScanLines(lines[1..], next)
  }

  /** The length of the body, according to the header. */
  function BodyLength(header: Bytes): (r: Result<nat, WifiError>)
    ensures r.Failure? ==> PeerError(r.error)
  {
    if !Utf8.Valid(header) then Failure(Protocol(HttpEncoding))
    else
      var lines := Lines(header, 0);
      if !IsOkStatus(lines[0]) then Failure(Protocol(HttpStatus))
      else
        var length :- ScanLines(lines[1..], None);
        if length.None? then Failure(Protocol(HttpNoLength))
        else if length.value > MAX_LOOKUP_BODY then Failure(Protocol(HttpBodyOverLimit))
        else Success(length.value)
  }

  /** What a field line announces about the length: nothing for other lines. */
  function Announced(line: Bytes): seq<Bytes> {
    match SplitAt(line, COLON)
    case None => []
    case Some((name, value)) => if IsContentLength(name) then [value] else []
  }

  function AllAnnounced(lines: seq<Bytes>): seq<Bytes> {
    if lines == [] then [] else Announced(lines[0]) + AllAnnounced(lines[1..])
  }

  /** An empty line or a field other than Transfer-Encoding. */
  predicate Acceptable(line: Bytes) {
    || line == []
    || (SplitAt(line, COLON).Some? && !IsTransferEncoding(SplitAt(line, COLON).value.0))
  }

  /** One line is accepted exactly when it is a field or empty, no Transfer-Encoding, and what it
      announces is a number, the first one announced. */
  lemma ScanLineAcceptsOneLength(line: Bytes, before: Option<nat>)
    ensures ScanLine(line, before).Success? <==>
              && Acceptable(line)
              && (forall value | value in Announced(line) :: LengthValue(value).Some?)
              && |Announced(line)| + (if before.Some? then 1 else 0) <= 1
    ensures ScanLine(line, before).Success? ==>
              ScanLine(line, before).value
              == if Announced(line) == [] then before else LengthValue(Announced(line)[0])
  {
    assert SplitAt([], COLON).None?;
    hide IsTransferEncoding, IsContentLength, LengthValue, Index;
  }

  /** The scan accepts exactly the headers in which every line is a field, none is a
      Transfer-Encoding and there is at most one Content-Length, a number. */
  lemma {:induction false} ScanAcceptsOneLength(lines: seq<Bytes>, before: Option<nat>)
    ensures ScanLines(lines, before).Success? <==>
              && (forall line | line in lines :: Acceptable(line))
              && (forall value | value in AllAnnounced(lines) :: LengthValue(value).Some?)
              && |AllAnnounced(lines)| + (if before.Some? then 1 else 0) <= 1
    ensures ScanLines(lines, before).Success? ==>
              ScanLines(lines, before).value
              == if AllAnnounced(lines) == [] then before else LengthValue(AllAnnounced(lines)[0])
  {
    hide Acceptable, Announced, ScanLine, LengthValue;
    if lines != [] {
      var line, rest := lines[0], lines[1..];
      assert lines == [line] + rest;
      assert AllAnnounced(lines) == Announced(line) + AllAnnounced(rest);
      ScanLineAcceptsOneLength(line, before);
      assert forall value | value in Announced(line) :: value in AllAnnounced(lines);
      if ScanLine(line, before).Success? {
        ScanAcceptsOneLength(rest, ScanLine(line, before).value);
      }
    }
  }

  /** Every line is a field or empty, none is a Transfer-Encoding, and exactly one is a
      Content-Length, of value `n`. */
  ghost predicate AnnouncesOnly(lines: seq<Bytes>, n: nat) {
    && (forall line | line in lines :: Acceptable(line))
    && |AllAnnounced(lines)| == 1
    && LengthValue(AllAnnounced(lines)[0]) == Some(n)
  }

  lemma ScanFindsTheOneAnnounced(lines: seq<Bytes>, n: nat)
    ensures ScanLines(lines, None) == Success(Some(n)) <==> AnnouncesOnly(lines, n)
  {
    hide Acceptable, LengthValue, ScanLines, AllAnnounced;
    ScanAcceptsOneLength(lines, None);
  }

  /** A header is accepted exactly when its status is 200 and it announces one length of at most
      64 KiB. */
  lemma BodyLengthIsTheOneAnnounced(header: Bytes, n: nat)
    ensures BodyLength(header) == Success(n) <==>
              && Utf8.Valid(header)
              && IsOkStatus(Lines(header, 0)[0])
              && AnnouncesOnly(Lines(header, 0)[1..], n)
              && n <= MAX_LOOKUP_BODY
  {
    hide IsOkStatus, Lines, Utf8.Valid, ScanLines, AnnouncesOnly;
    ScanFindsTheOneAnnounced(Lines(header, 0)[1..], n);
  }

  // ----- The whole reply -----

  /** Header and body at the start of a stream: the body and what follows. */
  function TakeReply(stream: Bytes): (r: Result<(Bytes, Bytes), WifiError>)
    ensures r.Failure? ==> PeerError(r.error)
  {
    var end :- HeaderEnd(stream, 0);
    var length :- BodyLength(stream[..end]);
    if end + length > |stream| then Failure(Transport)
    else Success((stream[end..end + length], stream[end + length..]))
  }

  /** `stream` starts with a header of `n` bytes and a body as long as that header says. */
  ghost predicate HasReply(stream: Bytes, n: nat, body: Bytes, rest: Bytes) {
    && IsHeader(stream, n)
    && BodyLength(stream[..n]) == Success(|body|)
    && stream[n..] == body + rest
  }

  lemma CutReply(stream: Bytes, n: nat, length: nat)
    requires n + length <= |stream|
    ensures stream[n..] == stream[n..n + length] + stream[n + length..]
  {
  }

  lemma ReplyIsThere(stream: Bytes, body: Bytes, rest: Bytes)
    requires TakeReply(stream) == Success((body, rest))
    ensures exists n: nat :: HasReply(stream, n, body, rest)
  {
    HeaderEndFindsHeader(stream, 0);
    hide EndsHeader, BodyLength, HeaderEnd, IsHeader;
    var n := HeaderEnd(stream, 0).value;
    CutReply(stream, n, |body|);
    assert HasReply(stream, n, body, rest);
  }

  lemma NoShorterHeader(stream: Bytes, m: nat, n: nat)
    requires IsHeader(stream, m) && IsHeader(stream, n)
    ensures n <= m
  {
    hide EndsHeader;
  }

  lemma BodyThenRest(stream: Bytes, n: nat, body: Bytes, rest: Bytes)
    requires n <= |stream| && stream[n..] == body + rest
    ensures |stream| == n + |body| + |rest|
    ensures stream[n..n + |body|] == body && stream[n + |body|..] == rest
  {
    assert stream[n..n + |body|] == stream[n..][..|body|];
    assert stream[n + |body|..] == stream[n..][|body|..];
  }

  lemma ReplyFollows(stream: Bytes, n: nat, body: Bytes, rest: Bytes)
    requires HasReply(stream, n, body, rest)
    ensures TakeReply(stream) == Success((body, rest))
  {
    HeaderEndFindsHeader(stream, 0);
    var end := HeaderEnd(stream, 0).value;
    NoShorterHeader(stream, n, end);
    NoShorterHeader(stream, end, n);
    BodyThenRest(stream, n, body, rest);
    hide EndsHeader, BodyLength, HeaderEnd, IsHeader;
  }

  /** An accepted reply is the shortest start that is a header, then as many bytes as it announces;
      everything else is refused. */
  lemma ReplyIsHeaderAndBody(stream: Bytes, body: Bytes, rest: Bytes)
    ensures TakeReply(stream) == Success((body, rest)) <==> exists n: nat :: HasReply(stream, n, body, rest)
  {
    hide HasReply, TakeReply;
    if TakeReply(stream) == Success((body, rest)) {
      ReplyIsThere(stream, body, rest);
    }
    forall n: nat | HasReply(stream, n, body, rest) ensures TakeReply(stream) == Success((body, rest)) {
      ReplyFollows(stream, n, body, rest);
    }
  }

  lemma ReplyWithoutHeader(stream: Bytes)
    ensures HeaderEnd(stream, 0).Failure? ==> TakeReply(stream) == Failure(HeaderEnd(stream, 0).error)
  {
  }

  lemma ReplyAfterHeader(header: Bytes, stream: Bytes)
    requires header <= stream && |header| <= MAX_HTTP_HEADER
    requires EndsHeader(header) && NoneBefore(header, |header|)
    ensures HeaderEnd(stream, 0).Success?
    ensures TakeReply(stream) ==
            match BodyLength(header)
            case Failure(e) => Failure(e)
            case Success(length) =>
              var end := |header|;
              if end + length > |stream| then Failure(Transport)
              else Success((stream[end..end + length], stream[end + length..]))
  {
    hide EndsHeader, BodyLength, HeaderEnd, NoneBefore;
    HeaderEndIsLocal(header, stream);
    assert stream[..|header|] == header;
  }

  lemma OneMoreByte(header: Bytes, byte: Bytes)
    requires |byte| == 1 && NoneBefore(header, |header|) && !EndsHeader(header)
    ensures NoneBefore(header + byte, |header + byte|)
  {
    hide EndsHeader;
    forall k | 0 <= k < |header + byte| ensures !EndsHeader((header + byte)[..k]) {
      assert (header + byte)[..k] == if k == |header| then header else header[..k];
    }
  }

  lemma StreamEndsEarly(stream: Bytes)
    requires NoneBefore(stream, |stream|) && !EndsHeader(stream) && |stream| < MAX_HTTP_HEADER
    ensures HeaderEnd(stream, 0) == Failure(Transport)
  {
    hide EndsHeader;
    HeaderEndSkips(stream, 0, |stream|);
    assert stream[..|stream|] == stream;
  }

  method ReadHeader(connection: Connection) returns (r: Result<Bytes, WifiError>)
    requires connection.Valid()
    modifies connection`taken, connection.clock
    ensures connection.Valid() && old(connection.taken) <= connection.taken
    ensures var received := connection.incoming[old(connection.taken)..connection.taken];
            if r.Success? then r.value == received && EndsHeader(received) && NoneBefore(received, |received|)
            else Faulted(r.error) || (HeaderEnd(received, 0) == Failure(r.error) && r.error.Protocol?)
    ensures r.Success? ==> |r.value| <= MAX_HTTP_HEADER
    ensures old(connection.clock.trouble) ==> connection.clock.trouble
    ensures connection.clock.trouble ==> old(connection.clock.trouble) || (r.Failure? && Faulted(r.error))
    ensures !connection.clock.trouble ==>
              match HeaderEnd(connection.incoming[old(connection.taken)..], 0)
              case Success(n) => r.Success?
              case Failure(e) => r == Failure(e)
  {
    hide EndsHeader, HeaderEnd;
    ghost var from := connection.taken;
    ghost var stream := connection.incoming[from..];
    var header: Bytes := [];
    while !EndsHeader(header)
      invariant connection.Valid() && from <= connection.taken
      invariant header == connection.incoming[from..connection.taken] && |header| <= MAX_HTTP_HEADER
      invariant NoneBefore(header, |header|)
      invariant connection.clock.trouble == old(connection.clock.trouble)
      decreases MAX_HTTP_HEADER - |header|
    {
      if |header| >= MAX_HTTP_HEADER {
        HeaderEndIsLocal(header, stream);
        HeaderEndIsLocal(header, header);
        return Failure(Protocol(HttpHeaderOverLimit));
      }
      var byte := connection.ReadExact(1);
      if byte.Failure? {
        assert connection.incoming[from..connection.taken] == header;
        StreamEndsEarly(header);
        if !connection.clock.trouble {
          assert header == stream;
        }
        return byte;
      }
      OneMoreByte(header, byte.value);
      header := header + byte.value;
    }
    HeaderEndIsLocal(header, stream);
    r := Success(header);
  }

  method ScanHeader(header: Bytes) returns (r: Result<nat, WifiError>)
    ensures r == BodyLength(header)
  {
    if !Utf8.Valid(header) {
      return Failure(Protocol(HttpEncoding));
    }
    var lines := Lines(header, 0);
    if !IsOkStatus(lines[0]) {
      return Failure(Protocol(HttpStatus));
    }
    var length: Option<nat> := None;
    hide IsOkStatus, Utf8.Valid, Lines, IsTransferEncoding, IsContentLength, LengthValue, SplitAt;
    for i := 1 to |lines|
      invariant ScanLines(lines[1..], None) == ScanLines(lines[i..], length)
    {
      assert lines[i..][1..] == lines[i + 1..];
      var line := lines[i];
      if line != [] {
        var field := SplitAt(line, COLON);
        if field.None? {
          return Failure(Protocol(HttpField));
        }
        var (name, value) := field.value;
        if IsTransferEncoding(name) {
          return Failure(Protocol(HttpTransferEncoding));
        }
        if IsContentLength(name) {
          if length.Some? {
            return Failure(Protocol(HttpDuplicateLength));
          }
          length := LengthValue(value);
          if length.None? {
            return Failure(Protocol(HttpBadLength));
          }
        }
      }
    }
    if length.None? {
      return Failure(Protocol(HttpNoLength));
    }
    if length.value > MAX_LOOKUP_BODY {
      return Failure(Protocol(HttpBodyOverLimit));
    }
    r := Success(length.value);
  }

  /** Reads one reply. The loops take one byte at a time until the header ends and look at one line
      at a time; unless the connection fails, the result is that of `TakeReply` on the bytes read,
      which are the header, the body and no more. */
  method ReadHttpBody(connection: Connection) returns (r: Result<Bytes, WifiError>)
    requires connection.Valid()
    modifies connection`taken, connection.clock
    ensures connection.Valid() && old(connection.taken) <= connection.taken
    ensures var received := connection.incoming[old(connection.taken)..connection.taken];
            if r.Success? then TakeReply(received) == Success((r.value, []))
            else Faulted(r.error) || TakeReply(received) == Failure(r.error)
    ensures old(connection.clock.trouble) ==> connection.clock.trouble
    ensures connection.clock.trouble ==> old(connection.clock.trouble) || (r.Failure? && Faulted(r.error))
    ensures !connection.clock.trouble ==>
              match TakeReply(connection.incoming[old(connection.taken)..])
              case Success((body, rest)) => r == Success(body)
              case Failure(e) => r == Failure(e)
  {
    hide TakeReply, HeaderEnd, EndsHeader, NoneBefore, BodyLength;
    ghost var from := connection.taken;
    ghost var stream := connection.incoming[from..];
    var header := ReadHeader(connection);
    if header.Failure? {
      ReplyWithoutHeader(stream);
      ReplyWithoutHeader(connection.incoming[from..connection.taken]);
      return header;
    }
    var end := connection.taken - from;
    assert header.value <= stream;
    ReplyAfterHeader(header.value, stream);
    var length := ScanHeader(header.value);
    if length.Failure? {
      ReplyAfterHeader(header.value, header.value);
      return Failure(length.error);
    }
    r := connection.ReadExact(length.value);
    ghost var received := connection.incoming[from..connection.taken];
    assert received[..end] == header.value;
    ReplyAfterHeader(header.value, received);
    if r.Success? {
      assert r.value == received[end..] == stream[end..end + length.value];
      assert received[end..end + length.value] == received[end..] && received[end + length.value..] == [];
    }
  }
}
