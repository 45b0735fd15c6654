/** The lookup request sent to the master (src/ros1/wifi.rs): a request line, four fields and a body
    whose length one of the fields announces. */
module WifiLookup {
  import opened Base
  import opened Wire
  import opened WifiHttp
  import opened Wifi

  const CARRIAGE_RETURN: Byte := 13
  const SPACE: Byte := 32

  /** `n` in decimal. */
  function Digits(n: nat): Bytes {
    if n < 10 then [48 + n] else Digits(n / 10) + [48 + n % 10]
  }

  ghost predicate AllDigits(s: Bytes) {
    s != [] && forall i | 0 <= i < |s| :: 48 <= s[i] <= 57
  }

  lemma {:induction false} DigitsAreRead(n: nat)
    ensures AllDigits(Digits(n)) && DigitsValue(Digits(n)) == Some(n)
  {
    if n >= 10 {
      DigitsAreRead(n / 10);
      assert Digits(n)[..|Digits(n)| - 1] == Digits(n / 10);
    } else {
      assert Digits(n)[..0] == [];
    }
  }

  lemma DigitsParse(n: nat, limit: nat)
    requires n < limit
    ensures ParseUnsigned(Digits(n), limit) == Some(n)
  {
    DigitsAreRead(n);
    hide Digits, DigitsValue;
  }

  lemma DigitIsNoSpace(c: Bytes)
    requires c != [] && 48 <= c[0] <= 57
    ensures !IsSpace(c)
  {
  }

  lemma NoSpaceAround(s: Bytes)
    requires AllDigits(s)
    ensures LeadingSpace(s) == 0 && TrailingSpace(s) == 0
  {
    hide IsSpace;
    forall i, j | 0 <= i < j <= |s| ensures !IsSpace(s[i..j]) {
      DigitIsNoSpace(s[i..j]);
    }
    forall n | 1 <= n <= |s| ensures s[..n] == s[0..n] && s[|s| - n..] == s[|s| - n..|s|] {
    }
  }

  /** Only digits are a number. */
  lemma {:induction false} NumbersAreDigits(s: Bytes)
    ensures DigitsValue(s).Some? <==> forall i | 0 <= i < |s| :: 48 <= s[i] <= 57
  {
    if s != [] {
      NumbersAreDigits(s[..|s| - 1]);
    }
  }

  /** Spaces, tabs and line ends. */
  ghost predicate Blank(s: Bytes) {
    forall i | 0 <= i < |s| :: s[i] == 32 || 9 <= s[i] <= 13
  }

  lemma {:induction false} TrimStartSkips(blank: Bytes, s: Bytes)
    requires Blank(blank) && LeadingSpace(s) == 0
    ensures TrimStart(blank + s) == s
  {
    if blank == [] {
      assert blank + s == s;
    } else {
      assert (blank + s)[..1] == [blank[0]] && (blank + s)[1..] == blank[1..] + s;
      TrimStartSkips(blank[1..], s);
    }
  }

  lemma {:induction false} TrimEndDrops(s: Bytes, blank: Bytes)
    requires Blank(blank) && TrailingSpace(s) == 0
    ensures TrimEnd(s + blank) == s
  {
    if blank == [] {
      assert s + blank == s;
    } else {
      var all, n := s + blank, |blank| - 1;
      assert all[|all| - 1..] == [blank[n]] && all[..|all| - 1] == s + blank[..n];
      TrimEndDrops(s, blank[..n]);
    }
  }

  lemma StartsUnblank(s: Bytes, after: Bytes)
    requires AllDigits(s)
    ensures LeadingSpace(s + after) == 0
  {
    hide IsSpace;
    var all := s + after;
    assert all[0] == s[0];
    if |all| >= 1 {
      DigitIsNoSpace(all[..1]);
    }
    if |all| >= 2 {
      DigitIsNoSpace(all[..2]);
    }
    if |all| >= 3 {
      DigitIsNoSpace(all[..3]);
    }
  }

  /** A decimal number is read as itself, whatever blanks surround it. */
  lemma LengthIsRead(before: Bytes, n: nat, after: Bytes)
    requires Blank(before) && Blank(after) && n < Power256(8)
    ensures LengthValue(before + (Digits(n) + after)) == Some(n)
  {
    hide Power256, TrimStart, TrimEnd, Digits, ParseUnsigned, LeadingSpace, TrailingSpace, AllDigits, Blank;
    DigitsAreRead(n);
    DigitsParse(n, Power256(8));
    StartsUnblank(Digits(n), after);
    NoSpaceAround(Digits(n));
    TrimStartSkips(before, Digits(n) + after);
    TrimEndDrops(Digits(n), after);
  }

  function Element(name: Bytes, content: Bytes): (e: Bytes)
    ensures |e| == 2 * |name| + 5 + |content|
  {
    Text("<") + name + Text(">") + content + Text("</") + name + Text(">")
  }

  function StringParameter(value: Bytes): Bytes {
    Element(Text("param"), Element(Text("value"), Element(Text("string"), value)))
  }

  function LookupBody(caller: Bytes): Bytes {
    Text("<?xml version=\"1.0\"?>")
    + Element(Text("methodCall"),
              Element(Text("methodName"), Text("lookupService"))
              + Element(Text("params"), StringParameter(caller) + StringParameter(SERVICE)))
  }

  lemma LookupBodyLength(caller: Bytes)
    ensures |LookupBody(caller)| == 224 + |caller|
  {
    hide Text, Element;
  }

  /** `part` lies in `whole` from `n` on. */
  ghost predicate LiesAt(whole: Bytes, n: nat, part: Bytes) {
    n + |part| <= |whole| && whole[n..n + |part|] == part
  }

  lemma LiesWithin(whole: Bytes, n: nat, middle: Bytes, m: nat, part: Bytes)
    requires LiesAt(whole, n, middle) && LiesAt(middle, m, part)
    ensures LiesAt(whole, n + m, part)
  {
    forall i | 0 <= i < |part| ensures whole[n + m + i] == part[i] {
      assert whole[n..n + |middle|][m + i] == middle[m..m + |part|][i];
    }
  }

  lemma ContentLies(name: Bytes, content: Bytes)
    ensures LiesAt(Element(name, content), |name| + 2, content)
  {
    hide Text;
  }

  lemma BothLie(a: Bytes, b: Bytes)
    ensures LiesAt(a + b, 0, a) && LiesAt(a + b, |a|, b)
  {
  }

  lemma ParameterLies(value: Bytes)
    ensures |StringParameter(value)| == 47 + |value| && LiesAt(StringParameter(value), 22, value)
  {
    hide Element, LiesAt, Text;
    var inner := Element(Text("string"), value);
    ContentLies(Text("string"), value);
    ContentLies(Text("value"), inner);
    LiesWithin(Element(Text("value"), inner), 7, inner, 8, value);
    ContentLies(Text("param"), Element(Text("value"), inner));
    LiesWithin(StringParameter(value), 7, Element(Text("value"), inner), 15, value);
  }

  lemma ParametersLie(whole: Bytes, params: Bytes, caller: Bytes)
    requires params == Element(Text("params"), StringParameter(caller) + StringParameter(SERVICE))
    requires LiesAt(whole, 71, params)
    ensures LiesAt(whole, 101, caller) && LiesAt(whole, 148 + |caller|, SERVICE)
  {
    hide Element, StringParameter, LiesAt, Text;
    var first, second := StringParameter(caller), StringParameter(SERVICE);
    ContentLies(Text("params"), first + second);
    BothLie(first, second);
    ParameterLies(caller);
    ParameterLies(SERVICE);
    LiesWithin(whole, 71, params, 8, first + second);
    LiesWithin(whole, 79, first + second, 0, first);
    LiesWithin(whole, 79, first, 22, caller);
    LiesWithin(whole, 79, first + second, 47 + |caller|, second);
    LiesWithin(whole, 126 + |caller|, second, 22, SERVICE);
  }

  /** The call asks for `lookupService`, and its parameters are the caller and then the service. */
  lemma LookupAsksForService(caller: Bytes)
    ensures var body := LookupBody(caller);
            && LiesAt(body, 45, Text("lookupService"))
            && LiesAt(body, 101, caller) && LiesAt(body, 148 + |caller|, SERVICE)
  {
    hide Element, StringParameter, LiesAt, Text;
    var start, name := Text("<?xml version=\"1.0\"?>"), Element(Text("methodName"), Text("lookupService"));
    var first, second := StringParameter(caller), StringParameter(SERVICE);
    var params := Element(Text("params"), first + second);
    var call := Element(Text("methodCall"), name + params);
    BothLie(start, call);
    ContentLies(Text("methodCall"), name + params);
    LiesWithin(start + call, 21, call, 12, name + params);
    BothLie(name, params);
    ContentLies(Text("methodName"), Text("lookupService"));
    LiesWithin(start + call, 33, name + params, 0, name);
    LiesWithin(start + call, 33, name, 12, Text("lookupService"));
    LiesWithin(start + call, 33, name + params, 38, params);
    ParametersLie(start + call, params, caller);
  }

  function FieldLine(name: Bytes, value: Bytes): Bytes {
    name + [COLON] + ([SPACE] + value)
  }

  function RequestLine(path: Bytes): Bytes {
    Text("POST ") + path + Text(" HTTP/1.0")
  }

  function LookupFields(authority: Bytes, length: nat): seq<Bytes> {
    [FieldLine(Text("Host"), authority),
     FieldLine(Text("Content-Type"), Text("text/xml")),
     FieldLine(Text("Content-Length"), Digits(length)),
     FieldLine(Text("Connection"), Text("close"))]
  }

  /** Lines, each with its break, and an empty one at the end. */
  function Joined(lines: seq<Bytes>): Bytes {
    if lines == [] then BREAK else lines[0] + BREAK + Joined(lines[1..])
  }

  function LookupHeader(path: Bytes, authority: Bytes, length: nat): Bytes {
    Joined([RequestLine(path)] + LookupFields(authority, length))
  }

  function LookupRequest(path: Bytes, authority: Bytes, caller: Bytes): Bytes {
    LookupHeader(path, authority, |LookupBody(caller)|) + LookupBody(caller)
  }

  lemma {:induction false} LinesSkip(text: Bytes, start: nat, n: nat)
    requires start <= n && n + 2 <= |text| && forall i | start <= i < n :: text[i] != CARRIAGE_RETURN
    ensures Lines(text, start) == Lines(text, n)
    decreases n - start
  {
    if start < n {
      assert text[start..start + 2][0] != BREAK[0];
      LinesSkip(text, start + 1, n);
    }
  }

  ghost predicate Whole(line: Bytes) {
    CARRIAGE_RETURN !in line
  }

  lemma FirstLine(line: Bytes, rest: Bytes)
    requires Whole(line)
    ensures Lines(line + BREAK + rest, 0) == [line] + Lines(rest, 0)
  {
    var text := line + BREAK + rest;
    assert forall i | 0 <= i < |line| :: text[i] == line[i];
    LinesSkip(text, 0, |line|);
    assert text[|line|..|line| + 2] == BREAK && text[..|line|] == line && text[|line| + 2..] == rest;
  }

  /** Lines are found again in what they make. */
  lemma {:induction false} LinesInvertsJoined(lines: seq<Bytes>)
    requires forall line | line in lines :: Whole(line)
    ensures Lines(Joined(lines), 0) == lines + [[], []]
  {
    if lines == [] {
      assert BREAK[0..2] == BREAK && BREAK[..0] == [] && BREAK[2..] == [];
      assert Lines([], 0) == [[]];
    } else {
      FirstLine(lines[0], Joined(lines[1..]));
      LinesInvertsJoined(lines[1..]);
      assert lines == [lines[0]] + lines[1..];
    }
  }

  lemma FieldIsRead(name: Bytes, value: Bytes)
    requires COLON !in name
    ensures SplitAt(FieldLine(name, value), COLON) == Some((name, [SPACE] + value))
    ensures !IsTransferEncoding(name) ==> Acceptable(FieldLine(name, value))
    ensures Announced(FieldLine(name, value)) == if IsContentLength(name) then [[SPACE] + value] else []
  {
    hide IsTransferEncoding, IsContentLength;
    SplitAtInvertsJoin(name, COLON, [SPACE] + value);
  }

  lemma NamesAreRead()
    ensures IsContentLength(Text("Content-Length"))
    ensures !IsContentLength(Text("Host")) && !IsTransferEncoding(Text("Host"))
    ensures !IsContentLength(Text("Content-Type")) && !IsTransferEncoding(Text("Content-Type"))
    ensures !IsContentLength(Text("Connection")) && !IsTransferEncoding(Text("Connection"))
    ensures !IsTransferEncoding(Text("Content-Length"))
  {
    var a, b := Text("Content-Length"), Text("content-length");
    assert forall i | 0 <= i < 14 :: LowerByte(a[i]) == b[i];
  }

  lemma TextIsWhole(s: string)
    requires forall i | 0 <= i < |s| :: s[i] < 128 as char && s[i] != '\r'
    ensures Whole(Text(s))
  {
  }

  lemma FieldIsWhole(name: Bytes, value: Bytes)
    requires Whole(name) && Whole(value)
    ensures Whole(FieldLine(name, value))
  {
  }

  lemma RequestLineIsWhole(path: Bytes)
    requires Whole(path)
    ensures Whole(RequestLine(path))
  {
    TextIsWhole("POST ");
    TextIsWhole(" HTTP/1.0");
    hide Text;
  }

  lemma RequestLinesAreWhole(path: Bytes, authority: Bytes, length: nat)
    requires Whole(path) && Whole(authority)
    ensures forall line | line in [RequestLine(path)] + LookupFields(authority, length) :: Whole(line)
  {
    RequestLineIsWhole(path);
    DigitsAreRead(length);
    assert Whole(Digits(length));
    hide Text, Whole, FieldLine, RequestLine, Digits;
    TextIsWhole("Host");
    TextIsWhole("Content-Type");
    TextIsWhole("text/xml");
    TextIsWhole("Content-Length");
    TextIsWhole("Connection");
    TextIsWhole("close");
    FieldIsWhole(Text("Host"), authority);
    FieldIsWhole(Text("Content-Type"), Text("text/xml"));
    FieldIsWhole(Text("Content-Length"), Digits(length));
    FieldIsWhole(Text("Connection"), Text("close"));
  }

  lemma LookupIsHeaderAndBody(path: Bytes, authority: Bytes, caller: Bytes)
    ensures LookupRequest(path, authority, caller)
            == LookupHeader(path, authority, |LookupBody(caller)|) + LookupBody(caller)
  {
    hide LookupHeader, LookupBody;
  }

  lemma LookupIsJoined(path: Bytes, authority: Bytes, n: nat)
    requires forall line | line in [RequestLine(path)] + LookupFields(authority, n) :: Whole(line)
    ensures Lines(LookupHeader(path, authority, n), 0) == [RequestLine(path)] + LookupFields(authority, n) + [[], []]
    ensures Lines(LookupHeader(path, authority, n), 0)[0] == RequestLine(path)
    ensures Lines(LookupHeader(path, authority, n), 0)[1..] == LookupFields(authority, n) + [[], []]
  {
    hide RequestLine, LookupFields, Joined, Lines;
    LinesInvertsJoined([RequestLine(path)] + LookupFields(authority, n));
  }

  lemma SevenLines(path: Bytes, authority: Bytes, n: nat)
    ensures [RequestLine(path)] + LookupFields(authority, n) + [[], []]
            == [Text("POST ") + path + Text(" HTTP/1.0"),
                FieldLine(Text("Host"), authority), FieldLine(Text("Content-Type"), Text("text/xml")),
                FieldLine(Text("Content-Length"), Digits(n)), FieldLine(Text("Connection"), Text("close")), [], []]
  {
    hide Text, FieldLine, Digits;
  }

  lemma EmptyLine()
    ensures Acceptable([]) && Announced([]) == []
  {
    assert SplitAt([], COLON).None?;
  }

  lemma SixLines(a: Bytes, b: Bytes, c: Bytes, d: Bytes, e: Bytes, f: Bytes)
    ensures AllAnnounced([a, b, c, d, e, f])
            == Announced(a) + Announced(b) + Announced(c) + Announced(d) + Announced(e) + Announced(f)
  {
    hide Announced;
    assert [a, b, c, d, e, f][1..] == [b, c, d, e, f] && [b, c, d, e, f][1..] == [c, d, e, f];
    assert [c, d, e, f][1..] == [d, e, f] && [d, e, f][1..] == [e, f] && [e, f][1..] == [f] && [f][1..] == [];
    assert AllAnnounced([f]) == Announced(f) + [] && AllAnnounced([e, f]) == Announced(e) + AllAnnounced([f]);
    assert AllAnnounced([d, e, f]) == Announced(d) + AllAnnounced([e, f]);
    assert AllAnnounced([c, d, e, f]) == Announced(c) + AllAnnounced([d, e, f]);
    assert AllAnnounced([b, c, d, e, f]) == Announced(b) + AllAnnounced([c, d, e, f]);
  }

  lemma ThirdAnnounces(a: Bytes, b: Bytes, c: Bytes, d: Bytes, value: Bytes, n: nat)
    requires Acceptable(a) && Acceptable(b) && Acceptable(c) && Acceptable(d)
    requires Announced(a) == Announced(b) == Announced(d) == [] && Announced(c) == [value]
    requires LengthValue(value) == Some(n)
    ensures AnnouncesOnly([a, b, c, d, [], []], n)
  {
    EmptyLine();
    SixLines(a, b, c, d, [], []);
    hide Acceptable, Announced, LengthValue, AllAnnounced;
    assert AllAnnounced([a, b, c, d, [], []]) == [value];
  }

  lemma NamesHaveNoColon()
    ensures COLON !in Text("Host") && COLON !in Text("Content-Type")
    ensures COLON !in Text("Content-Length") && COLON !in Text("Connection")
  {
  }

  lemma FieldsAnnounce(authority: Bytes, n: nat)
    requires LengthValue([SPACE] + Digits(n)) == Some(n)
    ensures AnnouncesOnly(LookupFields(authority, n) + [[], []], n)
  {
    NamesAreRead();
    NamesHaveNoColon();
    hide Digits, LengthValue, Text, IsContentLength, IsTransferEncoding;
    hide FieldLine, Acceptable, Announced, AnnouncesOnly;
    var host, kind := FieldLine(Text("Host"), authority), FieldLine(Text("Content-Type"), Text("text/xml"));
    var length, closing := FieldLine(Text("Content-Length"), Digits(n)), FieldLine(Text("Connection"), Text("close"));
    FieldIsRead(Text("Host"), authority);
    FieldIsRead(Text("Content-Type"), Text("text/xml"));
    FieldIsRead(Text("Content-Length"), Digits(n));
    FieldIsRead(Text("Connection"), Text("close"));
    ThirdAnnounces(host, kind, length, closing, [SPACE] + Digits(n), n);
    assert LookupFields(authority, n) + [[], []] == [host, kind, length, closing, [], []];
  }

  lemma BodyIsSmall(caller: Bytes)
    requires |caller| <= 257
    ensures |LookupBody(caller)| < Power256(8)
  {
    LookupBodyLength(caller);
    Powers();
    hide LookupBody, Power256;
  }

  lemma LengthFieldIsRead(n: nat)
    requires n < Power256(8)
    ensures LengthValue([SPACE] + Digits(n)) == Some(n)
  {
    LengthIsRead([SPACE], n, []);
    hide LengthValue, Digits, Power256;
    assert [SPACE] + (Digits(n) + []) == [SPACE] + Digits(n);
  }

  /** The request of any path, host and caller that an endpoint and a name can have announces, in
      its one Content-Length, exactly the length of its own body, and carries no Transfer-Encoding. */
  lemma RequestAnnouncesItsBody(path: Bytes, authority: Bytes, caller: Bytes)
    requires Whole(path) && Whole(authority) && |caller| <= 257
    ensures var body := LookupBody(caller);
            var header := LookupHeader(path, authority, |body|);
            && LookupRequest(path, authority, caller) == header + body
            && Lines(header, 0)
               == [Text("POST ") + path + Text(" HTTP/1.0"),
                   FieldLine(Text("Host"), authority), FieldLine(Text("Content-Type"), Text("text/xml")),
                   FieldLine(Text("Content-Length"), Digits(|body|)),
                   FieldLine(Text("Connection"), Text("close")), [], []]
            && AnnouncesOnly(Lines(header, 0)[1..], |body|)
  {
    hide *;
    var n := |LookupBody(caller)|;
    BodyIsSmall(caller);
    LengthFieldIsRead(n);
    RequestLinesAreWhole(path, authority, n);
    LookupIsJoined(path, authority, n);
    SevenLines(path, authority, n);
    FieldsAnnounce(authority, n);
    LookupIsHeaderAndBody(path, authority, caller);
  }
}
