// What proxy_parse.c prints for a request and what it reads back, as functions on strings.

module HttpSpec {
  import opened Machine
  import opened CString
  import opened HeaderTable

  datatype RequestLine = RequestLine(verb: string, protocol: string, host: string, port: Option<string>,
                                     path: string, version: string)

  datatype Request = Request(line: RequestLine, headers: seq<Field>)

  const MIN_REQ_LEN := 4
  const MAX_REQ_LEN := 65535

  // ---------- Printing ----------

  function PortText(port: Option<string>): string {
    if port.Some? then ":" + port.value else ""
  }

  function Address(r: RequestLine): string {
    r.protocol + "://" + r.host + PortText(r.port) + r.path
  }

  function PrintLine(r: RequestLine): string {
    r.verb + " " + Address(r) + " " + r.version
  }

  function PrintField(f: Field): string {
    f.key + ": " + f.value + CRLF
  }

  function PrintFields(fields: seq<Field>): string {
    if fields == [] then CRLF else PrintField(fields[0]) + PrintFields(fields[1..])
  }

  function Print(r: Request): string {
    PrintLine(r.line) + CRLF + PrintFields(r.headers)
  }

  // ---------- Reading the request line ----------

  // strlen(rem), where rem points strlen(protocol) + 3 bytes behind the start of the address while
  // the buffer still holds the cut address, a NUL and the version.
  function RemainderLength(start: nat, protocol: string, addr: string, version: string): nat
    requires start + |protocol| <= |addr| && |version| >= 5
  {
    var pos := |protocol| + 3;
    if start >= 3 then start - 3
    else if pos <= |addr| then |addr| - pos
    else |version| - (pos - |addr| - 1)
  }

  // The version is read behind the address; the read stays inside the line when a space follows.
  predicate VersionInLine(line: string) {
    match NextToken(line, " ")
    case NoToken => true
    case Token(_, verb, _, afterVerb) =>
      verb != "GET" ||
      match NextToken(afterVerb, " ")
      case NoToken => true
      case Token(_, _, cut, _) => cut
  }

  function ParseLine(line: string): Option<RequestLine> {
    match NextToken(line, " ")
    case NoToken => None
    case Token(_, verb, _, afterVerb) =>
      if verb != "GET" then None else
      match NextToken(afterVerb, " ")
      case NoToken => None
      case Token(_, addr, _, version) =>
        if !("HTTP/" <= version) then None else ParseAddress(verb, addr, version)
  }

  function ParseAddress(verb: string, addr: string, version: string): Option<RequestLine>
    requires |version| >= 5
  {
    match NextToken(addr, ":/")
    case NoToken => None
    case Token(start, protocol, _, afterProtocol) =>
      match NextToken(afterProtocol, "/")
      case NoToken => None
      case Token(_, authority, _, afterAuthority) =>
        if |authority| == RemainderLength(start, protocol, addr, version) then None else
        match ParsePath(afterAuthority)
        case None => None
        case Some(path) =>
          match NextToken(authority, ":")
          case NoToken => None
          case Token(_, host, _, afterHost) =>
            Some(RequestLine(verb, protocol, host, ParsePort(afterHost), path, version))
  }

  function ParsePath(s: string): Option<string> {
    match NextToken(s, " ")
    case NoToken => Some("/")
    case Token(_, path, _, _) => if "/" <= path then None else Some("/" + path)
  }

  function ParsePort(s: string): Option<string> {
    match NextToken(s, "/")
    case NoToken => None
    case Token(_, port, _, _) => Some(port)
  }

  // ---------- Reading the headers ----------

  // The header line reader looks for the colon in everything that is left, skips two characters
  // and stops at the next line end; the reads stay inside the text under this condition.
  predicate FieldInText(s: string) {
    match Find(s, ":")
    case None => true
    case Some(c) => c + 2 <= |s| && Find(s[c + 2..], CRLF).Some?
  }

  predicate FieldsInText(s: string)
    decreases |s|
  {
    s == "" || CRLF <= s ||
    (FieldInText(s) &&
     (Find(s, ":").Some? && Find(s, CRLF).Some? ==> FieldsInText(s[Find(s, CRLF).value + 2..])))
  }

  function ParseField(s: string): Field
    requires FieldInText(s) && Find(s, ":").Some?
  {
    var c := Find(s, ":").value;
    Field(s[..c], s[c + 2..][..Find(s[c + 2..], CRLF).value])
  }

  function ParseFields(s: string, fields: seq<Field>): Option<seq<Field>>
    requires FieldsInText(s)
    decreases |s|
  {
    if s == "" || CRLF <= s then Some(fields)
    else if Find(s, ":").None? then None
    else
      var f := ParseField(s);
      var next := Find(s, CRLF);
      if next.None? then Some(Set(fields, f.key, f.value))
      else ParseFields(s[next.value + 2..], Set(fields, f.key, f.value))
  }

  // ---------- The whole request ----------

  function UpToNul(s: string): (t: string)
    ensures t <= s && NUL !in t
  {
    if s == "" || s[0] == NUL then "" else [s[0]] + UpToNul(s[1..])
  }

  // Every read of the parser stays inside the buffer.
  predicate InBounds(input: string) {
    var text := UpToNul(input);
    Find(text, CRLF + CRLF).Some? ==>
      Find(text, CRLF).Some? &&
      var i := Find(text, CRLF).value;
      VersionInLine(text[..i]) && FieldsInText(text[i + 2..])
  }

  // Parsing into an object whose header table already holds some fields.
  function ParseInto(input: string, before: seq<Field>): Option<Request>
    requires InBounds(input)
  {
    var text := UpToNul(input);
    if |input| < MIN_REQ_LEN || |input| > MAX_REQ_LEN then None
    else if Find(text, CRLF + CRLF).None? then None
    else
      var i := Find(text, CRLF).value;
      match ParseLine(text[..i])
      case None => None
      case Some(line) =>
        match ParseFields(text[i + 2..], before)
        case None => None
        case Some(fields) => Some(Request(line, fields))
  }

  function Parse(input: string): Option<Request>
    requires InBounds(input)
  {
    ParseInto(input, [])
  }
}
