// Parsing undoes printing, and printing a parsed request loses nothing.

module HttpRoundTrip {
  import opened Machine
  import opened CString
  import opened HeaderTable
  import opened HttpSpec
  import opened HttpHeaders

  // ---------- The requests whose text determines them ----------

  predicate WellFormedLine(r: RequestLine) {
    && r.verb == "GET"
    && r.protocol != "" && Free(r.protocol, ":/ ") && Clean(r.protocol)
    && r.host != "" && Free(r.host, ":/ ") && Clean(r.host)
    && (r.port.Some? ==> r.port.value != "" && Free(r.port.value, "/ ") && Clean(r.port.value))
    && "/" <= r.path && !("//" <= r.path) && Free(r.path, " ") && Clean(r.path)
    && "HTTP/" <= r.version && Clean(r.version)
  }

  // With plain keys, which hold no line end, the last condition always holds (PlainKeysSettle).
  ghost predicate WellFormed(r: Request) {
    && WellFormedLine(r.line)
    && (forall f | f in r.headers :: Readable(f))
    && UniqueKeys(r.headers)
    && Settled(r.headers)
  }

  lemma {:induction false} NulFree(s: string)
    requires NUL !in s
    ensures UpToNul(s) == s
  {
    if s != "" {
      assert forall i | 0 <= i < |s| - 1 :: s[1..][i] == s[i + 1];
      NulFree(s[1..]);
    }
  }

  // The text of a request with a port and a header, piece by piece.
  lemma PrintedForm(protocol: string, host: string, port: string, path: string, version: string, key: string,
                    value: string)
    ensures Print(Request(RequestLine("GET", protocol, host, Some(port), path, version), [Field(key, value)])) ==
            "GET " + protocol + "://" + host + ":" + port + path + " " + version + "\r\n" +
            key + ": " + value + "\r\n" + "\r\n"
  {
    var f, r := Field(key, value), RequestLine("GET", protocol, host, Some(port), path, version);
    assert [f][1..] == [] && PrintFields([]) == CRLF;
    assert PrintFields([f]) == PrintField(f) + CRLF;
    var address := protocol + "://" + host + ":" + port + path;
    assert Address(r) == address;
    assert "GET" + " " == "GET ";
    var line := "GET " + protocol + "://" + host + ":" + port + path + " " + version;
    assert PrintLine(r) == line by { LineOf(address, protocol, host, port, path, version); }
    LineAndField(line, key, value);
  }

  lemma LineOf(address: string, protocol: string, host: string, port: string, path: string, version: string)
    requires address == protocol + "://" + host + ":" + port + path
    ensures "GET " + address + " " + version ==
            "GET " + protocol + "://" + host + ":" + port + path + " " + version
  {
  }

  lemma LineAndField(line: string, key: string, value: string)
    ensures line + CRLF + (key + ": " + value + CRLF + CRLF) ==
            line + "\r\n" + key + ": " + value + "\r\n" + "\r\n"
  {
  }

  // ---------- The request line ----------

  lemma AddressRoundTrip(r: RequestLine)
    requires WellFormedLine(r)
    ensures ParseAddress(r.verb, Address(r), r.version) == Some(r)
  {
    hide NextToken, Clean, RemainderLength;
    var authority := r.host + PortText(r.port);
    var tail := r.path[1..];
    assert r.path == "/" + tail;
    assert Address(r) == r.protocol + ":" + ("//" + authority + r.path);
    TokenAtStart(r.protocol, ':', "//" + authority + r.path, ":/");
    assert "//" + authority + r.path == "//" + (authority + "/" + tail);
    SkipDelimiters("//", authority + "/" + tail, "/");
    TokenAtStart(authority, '/', tail, "/");
    assert RemainderLength(0, r.protocol, Address(r), r.version) == |authority| + |r.path| by {
      ShortPrefix(r.protocol, Address(r), r.version);
    }
    PathRoundTrip(r.path);
    AuthorityRoundTrip(r.host, r.port);
  }

  lemma ShortPrefix(protocol: string, addr: string, version: string)
    requires |protocol| + 3 <= |addr| && |version| >= 5
    ensures RemainderLength(0, protocol, addr, version) == |addr| - |protocol| - 3
  {
  }

  lemma PathRoundTrip(path: string)
    requires "/" <= path && !("//" <= path) && Free(path, " ")
    ensures ParsePath(path[1..]) == Some(path)
  {
    hide NextToken;
    var tail := path[1..];
    assert path == "/" + tail;
    if tail == "" {
      assert path == "/" && path[1..] == "";
      EmptyHasNoToken(" ");
    } else {
      assert forall c | c in tail :: c in path;
      TokenIsWhole(tail, " ");
      assert "/" <= tail ==> "//" <= path;
    }
  }

  lemma EmptyHasNoToken(delims: string)
    ensures NextToken("", delims).NoToken?
  {
  }

  lemma AuthorityRoundTrip(host: string, port: Option<string>)
    requires host != "" && Free(host, ":/ ")
    requires port.Some? ==> port.value != "" && Free(port.value, "/ ")
    ensures NextToken(host + PortText(port), ":").Token?
    ensures NextToken(host + PortText(port), ":").text == host
    ensures ParsePort(NextToken(host + PortText(port), ":").rest) == port
  {
    hide NextToken;
    EmptyHasNoToken("/");
    if port.Some? {
      assert host + PortText(port) == host + ":" + port.value;
      TokenAtStart(host, ':', port.value, ":");
      TokenIsWhole(port.value, "/");
    } else {
      assert host + PortText(port) == host;
      TokenIsWhole(host, ":");
    }
  }

  lemma LineRoundTrip(r: RequestLine)
    requires WellFormedLine(r)
    ensures VersionInLine(PrintLine(r)) && ParseLine(PrintLine(r)) == Some(r)
  {
    hide NextToken, Clean, ParseAddress, Address;
    assert PrintLine(r) == "GET" + " " + (Address(r) + " " + r.version);
    TokenAtStart("GET", ' ', Address(r) + " " + r.version, " ");
    AddressIsWord(r);
    TokenAtStart(Address(r), ' ', r.version, " ");
    AddressRoundTrip(r);
  }

  lemma AddressIsWord(r: RequestLine)
    requires WellFormedLine(r)
    ensures Address(r) != "" && Free(Address(r), " ") && Clean(Address(r))
  {
    hide Free;
    var authority := r.host + PortText(r.port);
    assert Clean(authority) && Free(authority, " ") by { AuthorityIsClean(r.host, r.port); }
    assert Address(r) == r.protocol + "://" + (authority + r.path);
    PathJoins(authority, r.path);
    CleanJoin(r.protocol, "://", authority + r.path);
    AddressIsFree(r.protocol, authority, r.path);
  }

  lemma AddressIsFree(protocol: string, authority: string, path: string)
    requires Free(protocol, ":/ ") && Free(authority, " ") && Free(path, " ")
    ensures Free(protocol + "://" + (authority + path), " ")
  {
  }

  lemma AuthorityIsClean(host: string, port: Option<string>)
    requires Free(host, ":/ ") && Clean(host)
    requires port.Some? ==> Free(port.value, "/ ") && Clean(port.value)
    ensures Clean(host + PortText(port)) && Free(host + PortText(port), " ")
  {
    if port.Some? {
      assert host + PortText(port) == host + ":" + port.value;
      CleanJoin(host, ":", port.value);
    } else {
      assert host + PortText(port) == host;
    }
  }

  lemma PathJoins(authority: string, path: string)
    requires Clean(authority) && "/" <= path && Clean(path)
    ensures Clean(authority + path)
  {
    CleanSlice(path, 1, |path|);
    CleanJoin(authority, "/", path[1..]);
    assert authority + path == authority + "/" + path[1..];
  }

  lemma CleanSlice(s: string, i: nat, j: nat)
    requires i <= j <= |s| && Clean(s)
    ensures Clean(s[i..j])
  {
    assert forall k | 0 <= k < j - i :: s[i..j][k] == s[i + k];
  }

  lemma CleanJoin(x: string, d: string, y: string)
    requires Clean(x) && d in {" ", ":", "/", "://"} && Clean(y)
    ensures Clean(x + d + y)
  {
    UnbrokenJoin(x, d, y);
  }

  // ---------- The whole request ----------

  lemma {:induction false} PrintedFieldsText(fields: seq<Field>)
    requires forall f | f in fields :: Readable(f)
    ensures NUL !in PrintFields(fields)
    ensures var s := CRLF + PrintFields(fields); |s| >= 4 && s[|s| - 4..] == CRLF + CRLF
  {
    hide Readable, PrintField;
    if fields != [] {
      var tail := PrintFields(fields[1..]);
      PrintedFieldsText(fields[1..]);
      assert Readable(fields[0]);
      PrintedFieldText(fields[0], tail);
      EndsAlike(PrintField(fields[0]), tail);
    }
  }

  lemma PrintedFieldText(f: Field, tail: string)
    requires Readable(f) && NUL !in tail
    ensures NUL !in PrintField(f) + tail
    ensures |PrintField(f)| >= 2 && PrintField(f)[|PrintField(f)| - 2..] == CRLF
  {
    hide Unbroken, Free;
    assert NUL !in CRLF && NUL !in ": ";
  }

  lemma EndsAlike(front: string, tail: string)
    requires |front| >= 2 && front[|front| - 2..] == CRLF
    requires |CRLF + tail| >= 4
    ensures var s, t := CRLF + (front + tail), CRLF + tail;
            |s| >= 4 && s[|s| - 4..] == t[|t| - 4..]
  {
    var n := |front| - 2;
    assert front == front[..n] + front[n..];
    assert CRLF + (front + tail) == (CRLF + front[..n]) + (CRLF + tail);
  }

  // The printed text is always read inside its bounds, and gives the request line and what the reader
  // makes of the headers.
  lemma PrintedParse(r: Request)
    requires WellFormedLine(r.line) && forall f | f in r.headers :: Readable(f)
    ensures InBounds(Print(r))
    ensures Parse(Print(r)) ==
            if |Print(r)| <= MAX_REQ_LEN then Some(r.(headers := Read([], r.headers))) else None
  {
    hide Find, ParseLine, VersionInLine, PrintLine, PrintFields, ParseFields, FieldsInText, WellFormedLine, Readable,
         Unbroken, Read;
    var line, fields := PrintLine(r.line), PrintFields(r.headers);
    var text := Print(r);
    LineIsClean(r.line);
    PrintedFieldsText(r.headers);
    NulFree(text);
    FindBreak(line, fields);
    assert text[..|line|] == line && text[|line| + 2..] == fields;
    BlankLineFound(line, fields);
    LineRoundTrip(r.line);
    PrintedRead(r.headers, []);
  }

  // Printing and parsing gives a request back exactly when it is well formed and its text is not too
  // long.
  lemma RoundTrip(r: Request)
    ensures WellFormed(r) ==> InBounds(Print(r))
    ensures InBounds(Print(r)) ==>
              (Parse(Print(r)) == Some(r) <==> WellFormed(r) && |Print(r)| <= 65535)
  {
    hide InBounds, Parse, Print, WellFormedLine, Readable, Settled, UniqueKeys, Read;
    if WellFormed(r) {
      PrintedParse(r);
      assert UniqueKeys([]) by { NoKeys(); }
      ReadSettled([], r.headers);
      assert Drop([], r.headers) + r.headers == r.headers;
    } else if InBounds(Print(r)) && Parse(Print(r)).Some? {
      ParsedIsWellFormed(Print(r));
    }
  }

  lemma NoKeys()
    ensures UniqueKeys([])
  {
  }

  lemma LineIsClean(r: RequestLine)
    requires WellFormedLine(r)
    ensures Clean(PrintLine(r))
  {
    hide Address, Free;
    AddressIsWord(r);
    CleanJoin(Address(r), " ", r.version);
    assert Clean("GET");
    CleanJoin("GET", " ", Address(r) + " " + r.version);
    assert PrintLine(r) == "GET" + " " + (Address(r) + " " + r.version);
  }

  lemma BlankLineFound(line: string, fields: string)
    requires var s := CRLF + fields; |s| >= 4 && s[|s| - 4..] == CRLF + CRLF
    ensures Find(line + CRLF + fields, CRLF + CRLF).Some?
  {
    hide Find;
    var s := CRLF + fields;
    assert line + CRLF + fields == line + s;
    EndOf(line, s, |s| - 4);
    EndFound(line + s, CRLF + CRLF, |line| + |s| - 4);
  }

  lemma EndOf(front: string, s: string, n: nat)
    requires n <= |s|
    ensures (front + s)[|front| + n..] == s[n..]
  {
  }

  lemma EndFound(s: string, pattern: string, n: nat)
    requires n <= |s| && s[n..] == pattern
    ensures Find(s, pattern).Some?
  {
    hide Find;
    assert pattern <= s[n..];
  }

  // ---------- Printing what was parsed ----------

  lemma TokenChars(s: string, delims: string)
    requires NextToken(s, delims).Token? && Clean(s)
    ensures var t := NextToken(s, delims);
            && (forall c | c in t.text :: c in s && c !in delims)
            && (forall c | c in t.rest :: c in s)
            && Clean(t.text) && Clean(t.rest)
  {
    hide NextToken, Clean;
    TokenShape(s, delims);
    var t := NextToken(s, delims);
    var n := t.start + |t.text|;
    CleanSlice(s, t.start, n);
    CleanSlice(s, |s| - |t.rest|, |s|);
    if t.cut {
      Parts(s[..t.start], t.text, [s[n]], t.rest);
    } else {
      Parts(s[..t.start], t.text, "", "");
      assert s == s[..t.start] + t.text + "" + "";
    }
  }

  lemma Parts(a: string, b: string, c: string, d: string)
    ensures var s := a + b + c + d;
            s[|a|..|a| + |b|] == b && s[|s| - |d|..|s|] == d
  {
  }

  lemma ParsedLineIsWellFormed(line: string)
    requires ParseLine(line).Some? && Clean(line)
    ensures WellFormedLine(ParseLine(line).value)
  {
    hide NextToken, Clean;
    TokenChars(line, " ");
    var afterVerb := NextToken(line, " ").rest;
    TokenChars(afterVerb, " ");
    var addr := NextToken(afterVerb, " ").text;
    TokenChars(addr, ":/");
    var afterProtocol := NextToken(addr, ":/").rest;
    TokenChars(afterProtocol, "/");
    var authority := NextToken(afterProtocol, "/").text;
    TokenChars(authority, ":");
    var afterHost := NextToken(authority, ":").rest;
    if NextToken(afterHost, "/").Token? {
      TokenChars(afterHost, "/");
    }
    ParsedPath(NextToken(afterProtocol, "/").rest);
  }

  lemma ParsedPath(s: string)
    requires ParsePath(s).Some? && Clean(s)
    ensures var path := ParsePath(s).value; "/" <= path && !("//" <= path) && Free(path, " ") && Clean(path)
  {
    hide NextToken;
    if NextToken(s, " ").Token? {
      TokenChars(s, " ");
      var p := NextToken(s, " ").text;
      assert ("/" + p)[1..] == p;
      CleanJoin("", "/", p);
      assert "" + "/" + p == "/" + p;
    }
  }

  // Whatever the parser accepts is well formed.
  lemma ParsedIsWellFormed(input: string)
    requires InBounds(input) && Parse(input).Some?
    ensures WellFormed(Parse(input).value)
  {
    hide ParseLine, Find, ParseFields, FieldsInText, Unbroken, WellFormedLine, Readable, Settled, UniqueKeys;
    var text := UpToNul(input);
    var i := Find(text, CRLF).value;
    UnbrokenBefore(text);
    ParsedLineIsWellFormed(text[..i]);
    NothingRead();
    ParsedIsSettled(text[i + 2..], []);
  }

  lemma NothingRead()
    ensures UniqueKeys([]) && Settled([]) && Running([])
  {
  }

  // Whatever the parser accepts, printing it and parsing again gives the same request, unless the text
  // has become too long.
  lemma ReparseIsStable(input: string)
    requires InBounds(input) && Parse(input).Some?
    ensures var text := Print(Parse(input).value);
            InBounds(text) && (Parse(text) == Parse(input) <==> |text| <= 65535)
  {
    hide Parse, InBounds, WellFormed;
    ParsedIsWellFormed(input);
    RoundTrip(Parse(input).value);
  }

  // ---------- The proxy's edit ----------

  const CLOSE := Field("Connection", "close")

  // What the proxy forwards for a request.
  function Forwarded(r: Request): Request {
    r.(headers := Set(Remove(r.headers, "Connection"), "Connection", "close"))
  }

  lemma ForwardedHeaders(r: Request)
    requires UniqueKeys(r.headers)
    ensures Forwarded(r).headers == Others(r.headers, "Connection") + [CLOSE]
    ensures Forwarded(r).headers == Drop(r.headers, [CLOSE]) + [CLOSE]
    ensures UniqueKeys(Forwarded(r).headers)
  {
    RemoveThenSet(r.headers, "Connection", "close");
    SetMovesToEnd(r.headers, "Connection", "close");
    DropOthers(r.headers, [CLOSE]);
    assert [CLOSE][1..] == [];
    DropNone(Others(r.headers, "Connection"));
  }

  lemma PlainUnfolds(f: Field)
    requires Unbroken(f.key)
    ensures !Stops(f.key) && Unfold(f) == [f]
  {
    hide Find, Unbroken;
    UnbrokenIff(f.key);
  }

  lemma NoReturn(s: string)
    requires '\r' !in s
    ensures Unbroken(s)
  {
  }

  lemma CloseUnfolds()
    ensures Readable(CLOSE) && !Stops(CLOSE.key) && Unfold(CLOSE) == [CLOSE] && Unbroken(CLOSE.key)
  {
    hide Unbroken, Stops, Unfold;
    NoReturn(CLOSE.key);
    NoReturn(CLOSE.value);
    PlainUnfolds(CLOSE);
    assert CLOSE.key[0] != CRLF[0];
  }

  lemma DropKeepsStops(fields: seq<Field>)
    requires !Running(fields)
    ensures !Running(Drop(fields, [CLOSE]) + [CLOSE])
  {
    hide Stops;
    var f :| f in fields && Stops(f.key);
    CloseUnfolds();
    assert !HasKey([CLOSE][1..], f.key);
    DropOther(fields, [CLOSE], f);
  }

  lemma {:induction false} DropOther(fields: seq<Field>, others: seq<Field>, f: Field)
    requires f in fields && !HasKey(others, f.key)
    ensures f in Drop(fields, others)
  {
    if fields[0] != f {
      DropOther(fields[1..], others, f);
    }
  }

  // Any other parser of this kind reads the forwarded text as the client's request with its other
  // headers in order and one "Connection: close" behind them, exactly when the text is not too long
  // and no key of the request has an empty line in it.
  lemma ProxyForwards(input: string)
    requires InBounds(input) && Parse(input).Some?
    ensures var r, text := Parse(input).value, Print(Forwarded(Parse(input).value));
            && InBounds(text)
            && (Parse(text) == Some(r.(headers := Others(r.headers, "Connection") + [CLOSE])) <==>
                |text| <= 65535 && forall f | f in r.headers :: Find(f.key, CRLF + CRLF).None?)
  {
    hide Parse, InBounds, Print, WellFormedLine, Readable, Settled, Stops, Find, Unfold, Drop, Others, UniqueKeys, Read,
         Forwarded, Unbroken;
    var r := Parse(input).value;
    var hs, e := r.headers, Forwarded(r);
    ParsedIsWellFormed(input);
    ForwardedHeaders(r);
    CloseUnfolds();
    DropSubset(hs, [CLOSE]);
    SameLine(r);
    assert forall f | f in e.headers :: Readable(f);
    PrintedParse(e);
    NoKeys();
    if Running(hs) {
      JoinSettled(hs, CLOSE);
      ReadSettled([], e.headers);
      assert Drop([], e.headers) + e.headers == e.headers by { DropEmpty(e.headers); }
    } else {
      DropKeepsStops(hs);
      ReadStops([], e.headers);
    }
    forall f | f in hs ensures Stops(f.key) <==> Find(f.key, CRLF + CRLF).Some? {
      StopsIff(f.key);
    }
  }

  // A header line without a colon in front of an empty line: the colon of the line behind it is taken.
  const HIDDEN := Field("foo" + CRLF + CRLF + "bar", "x")
  const HIDING := Request(RequestLine("GET", "http", "h", None, "/", "HTTP/1.0"), [HIDDEN])

  // A request with that header is accepted, and the proxy's edit has no effect on what is read.
  lemma EditLost()
    ensures var text := Print(HIDING); InBounds(text) && Parse(text) == Some(HIDING)
    ensures var text := Print(Forwarded(HIDING)); InBounds(text) && Parse(text) == Some(HIDING)
  {
    hide Parse, InBounds, Print, WellFormedLine, Readable, Stops, Unfold, Unbroken, Forwarded, Read, SetAll;
    var hs := HIDING.headers;
    assert WellFormedLine(HIDING.line) by { HidingLine(); }
    HiddenUnfolds();
    CloseUnfolds();
    ShortText();
    OneKey(HIDDEN);
    ForwardedHeaders(HIDING);
    SameLine(HIDING);
    assert Others(hs, "Connection") == hs by { OtherKey(); }
    assert Forwarded(HIDING).headers == [HIDDEN, CLOSE];
    ReadHidden([]);
    ReadHidden([CLOSE]);
    PrintedParse(HIDING);
    PrintedParse(Forwarded(HIDING));
  }

  lemma HidingLine()
    ensures WellFormedLine(HIDING.line)
  {
    hide Unbroken;
    NoReturn("http");
    NoReturn("h");
    NoReturn("/");
    NoReturn("HTTP/1.0");
  }

  lemma HiddenUnfolds()
    ensures Readable(HIDDEN) && Stops(HIDDEN.key) && Unfold(HIDDEN) == [HIDDEN]
  {
    hide Find, Unbroken;
    NoReturn("foo");
    NoReturn("x");
    var rest := CRLF + "bar";
    assert HIDDEN.key == "foo" + CRLF + rest;
    FindBreak("foo", rest);
    assert HIDDEN.key[5..] == rest;
    assert HIDDEN.key[0] != CRLF[0];
  }

  lemma OneKey(f: Field)
    ensures UniqueKeys([f])
  {
    assert [f][1..] == [];
  }

  lemma OtherKey()
    ensures Others([HIDDEN], "Connection") == [HIDDEN]
  {
    assert HIDDEN.key[0] != "Connection"[0];
    assert [HIDDEN][1..] == [];
  }

  lemma ReadHidden(more: seq<Field>)
    ensures Read([], [HIDDEN] + more) == [HIDDEN]
  {
    hide Stops, Unfold, SetAll;
    HiddenUnfolds();
    SetOne([], HIDDEN);
    assert Set([], HIDDEN.key, HIDDEN.value) == [HIDDEN];
  }

  lemma ShortText()
    ensures |Print(HIDING)| <= MAX_REQ_LEN && |Print(Forwarded(HIDING))| <= MAX_REQ_LEN
  {
    hide Forwarded;
    ForwardedHeaders(HIDING);
    SameLine(HIDING);
    OtherKey();
    assert |PrintLine(HIDING.line)| <= 100;
    ShortFields(HIDDEN, []);
    ShortFields(CLOSE, []);
    ShortFields(HIDDEN, [CLOSE]);
  }

  lemma ShortFields(f: Field, more: seq<Field>)
    ensures |PrintFields([f] + more)| == |f.key| + |f.value| + 4 + |PrintFields(more)|
    ensures PrintFields([]) == CRLF
  {
    assert ([f] + more)[1..] == more;
  }

  lemma SameLine(r: Request)
    ensures Forwarded(r).line == r.line && Forwarded(r) == r.(headers := Forwarded(r).headers)
  {
  }

  lemma DropEmpty(others: seq<Field>)
    ensures Drop([], others) + others == others
  {
  }

  // ---------- The missing-path test ----------

  // Nothing follows the authority. The parser means to reject such an address, but it compares
  // lengths at a fixed distance from the start: it does so exactly when the delimiters in front of
  // the protocol and behind it number three in all (as in "http://host"), or when three or more
  // lead the address and happen to outnumber the authority by three.
  lemma MissingPathDetected(verb: string, addr: string, version: string)
    requires |version| >= 5
    requires NextToken(addr, ":/").Token? && NextToken(NextToken(addr, ":/").rest, "/").Token?
    requires var u := NextToken(NextToken(addr, ":/").rest, "/"); !u.cut && NextToken(u.text, ":").Token?
    ensures var t := NextToken(addr, ":/");
            var u := NextToken(t.rest, "/");
            ParseAddress(verb, addr, version).None? <==>
            t.start + 1 + u.start == 3 || t.start == |u.text| + 3
  {
    hide NextToken;
    EmptyHasNoToken(" ");
  }

  lemma MissingPathAccepted()
    ensures ParseAddress("GET", "http:host", "HTTP/1.0") ==
            Some(RequestLine("GET", "http", "host", None, "/", "HTTP/1.0"))
  {
    hide NextToken;
    assert "http:host" == "http" + ":" + "host";
    TokenAtStart("http", ':', "host", ":/");
    TokenIsWhole("host", "/");
    TokenIsWhole("host", ":");
    EmptyHasNoToken(" ");
    EmptyHasNoToken("/");
  }

  // A path follows the authority. The same comparison still refuses the address, although nothing is
  // missing: exactly when the delimiters in front of the protocol, those behind it beyond the first,
  // and the path behind its slash come to a single character (as in "http:host/x"), or when three or
  // more lead the address and outnumber the authority by three.
  lemma PresentPathRefused(verb: string, addr: string, version: string)
    requires |version| >= 5
    requires NextToken(addr, ":/").Token? && NextToken(NextToken(addr, ":/").rest, "/").Token?
    requires var u := NextToken(NextToken(addr, ":/").rest, "/");
             u.cut && NextToken(u.text, ":").Token? && ParsePath(u.rest).Some?
    ensures var t := NextToken(addr, ":/");
            var u := NextToken(t.rest, "/");
            ParseAddress(verb, addr, version).None? <==>
            if t.start < 3 then t.start + u.start + |u.rest| == 1 else t.start == |u.text| + 3
  {
    hide NextToken;
  }

  lemma PathRefused()
    ensures ParseAddress("GET", "http:host/x", "HTTP/1.0") == None
  {
    hide NextToken;
    assert "http:host/x" == "http" + ":" + "host/x";
    assert "host/x" == "host" + "/" + "x";
    TokenAtStart("http", ':', "host/x", ":/");
    TokenAtStart("host", '/', "x", "/");
    TokenIsWhole("host", ":");
    TokenIsWhole("x", " ");
    PresentPathRefused("GET", "http:host/x", "HTTP/1.0");
  }
}
