// struct ParsedRequest and its operations: the header table, printing into a caller's buffer, and
// the parser that cuts its own buffer in place.

module ProxyParse {
  import opened Machine
  import opened CString
  import opened HeaderTable
  import opened HttpSpec
  import opened HttpRoundTrip

  const DEFAULT_NHDRS := 8

  // ---------- Writing into a buffer ----------

  // The buffer with s written over it from offset at.
  function Splice(buf: seq<char>, at: nat, s: string): (r: seq<char>)
    requires at + |s| <= |buf|
    ensures |r| == |buf|
  {
    buf[..at] + s + buf[at + |s|..]
  }

  lemma SpliceNext(buf: seq<char>, at: nat, s: string, t: string)
    requires at + |s| + |t| <= |buf|
    ensures Splice(Splice(buf, at, s), at + |s|, t) == Splice(buf, at, s + t)
  {
  }

  method Memcpy(out: array<char>, at: nat, s: string)
    requires at + |s| <= out.Length
    modifies out
    ensures out[..] == Splice(old(out[..]), at, s)
  {
    var i := 0;
    while i < |s|
      invariant i <= |s|
      invariant forall j | 0 <= j < i :: out[at + j] == s[j]
      invariant forall k | 0 <= k < out.Length && !(at <= k < at + i) :: out[k] == old(out[k])
    {
      out[at + i] := s[i];
      i := i + 1;
    }
  }

  // memcpy of a C string, without its NUL; returns its length.
  method CopyString(out: array<char>, at: nat, src: array<char>, from: nat, ghost s: string) returns (n: nat)
    requires out != src && IsString(src[..], from, s) && at + |s| <= out.Length
    modifies out
    ensures n == |s| && out[..] == Splice(old(out[..]), at, s)
  {
    n := Strlen(src, from, s);
    assert src[from..from + n] == s;
    Memcpy(out, at, src[from..from + n]);
  }

  class ParsedRequest {
    var buf: array?<char>
    var verbAt: nat
    var protocolAt: nat
    var hostAt: nat
    var portAt: Option<nat>
    var path: string
    var versionAt: nat
    var headers: array<Slot>
    var headersUsed: nat
    var headersLen: nat

    // The request line held in buf after a successful parse.
    ghost var line: RequestLine

    // ---------- Invariants ----------

    ghost function Fields(): seq<Field>
      reads this, headers
      requires headersUsed <= headers.Length
    {
      Live(headers[..headersUsed])
    }

    ghost predicate TableValid()
      reads this, headers
    {
      headers.Length == headersLen && headersUsed < headersLen && UniqueKeys(Fields())
    }

    ghost predicate LineValid()
      reads this, buf
    {
      && buf != null
      && IsString(buf[..], verbAt, line.verb)
      && IsString(buf[..], protocolAt, line.protocol)
      && IsString(buf[..], hostAt, line.host)
      && IsString(buf[..], versionAt, line.version)
      && (portAt.Some? <==> line.port.Some?)
      && (portAt.Some? ==> IsString(buf[..], portAt.value, line.port.value))
      && path == line.path
    }

    // ParsedRequest_create leaves the port pointer as it finds it.
    constructor ()
      ensures TableValid() && Fields() == [] && buf == null && fresh(headers)
    {
      headers := new Slot[DEFAULT_NHDRS];
      headersLen := DEFAULT_NHDRS;
      headersUsed := 0;
      buf := null;
    }

    // ---------- Header table ----------

    method Get(key: string) returns (r: Option<nat>)
      requires TableValid()
      ensures r.Some? <==> Lookup(Fields(), key).Some?
      ensures r.Some? ==> r.value < headersUsed && headers[r.value].key == Some(key)
      ensures r.Some? ==> forall j | 0 <= j < r.value :: headers[j].key != Some(key)
      ensures r.Some? ==> Lookup(Fields(), key) == Some(headers[r.value].value)
      ensures r.None? ==> Remove(Fields(), key) == Fields()
    {
      var i := 0;
      while headersUsed > i
        invariant i <= headersUsed
        invariant forall j | 0 <= j < i :: headers[j].key != Some(key)
      {
        if headers[i].key == Some(key) {
          FirstSlot(headers[..headersUsed], i, key, "");
          return Some(i);
        }
        i := i + 1;
      }
      NoSlot(headers[..headersUsed], key);
      return None;
    }

    method RemoveHeader(key: string) returns (ok: bool)
      requires TableValid()
      modifies headers
      ensures TableValid()
      ensures ok <==> Lookup(old(Fields()), key).Some?
      ensures Fields() == Remove(old(Fields()), key)
    {
      var i := Get(key);
      RemoveKeepsOthers(Fields(), key);
      if i.None? {
        return false;
      }
      FirstSlot(headers[..headersUsed], i.value, key, headers[i.value].value);
      ghost var slots := headers[..headersUsed];
      headers[i.value] := Slot(None, headers[i.value].value);
      assert headers[..headersUsed] == slots[i.value := Slot(None, slots[i.value].value)];
      return true;
    }

    method SetHeader(key: string, value: string)
      requires TableValid()
      modifies this`headers, this`headersLen, this`headersUsed, headers
      ensures TableValid() && (headers == old(headers) || fresh(headers))
      ensures Fields() == Set(old(Fields()), key, value)
    {
      SetMovesToEnd(Fields(), key, value);
      var removed := RemoveHeader(key);
      if headersLen <= headersUsed + 1 {
        Grow();
      }
      ghost var slots := headers[..headersUsed];
      headers[headersUsed] := Slot(Some(key), value);
      headersUsed := headersUsed + 1;
      assert headers[..headersUsed] == slots + [Slot(Some(key), value)];
      LiveAppend(slots, Slot(Some(key), value));
    }

    // realloc of the array to twice its length; the new slots hold garbage.
    method Grow()
      requires headers.Length == headersLen && 0 < headersLen && headersUsed <= headersLen
      modifies this`headers, this`headersLen
      ensures fresh(headers) && headers.Length == headersLen && headersLen == 2 * old(headersLen)
      ensures headers[..headersUsed] == old(headers[..headersUsed])
    {
      headersLen := headersLen * 2;
      var bigger := new Slot[headersLen];
      var i := 0;
      while i < headersUsed
        invariant i <= headersUsed && headers == old(headers) && headersLen == bigger.Length
        invariant bigger[..i] == headers[..i]
      {
        bigger[i] := headers[i];
        i := i + 1;
      }
      headers := bigger;
    }

    // ---------- Lengths ----------

    // Printed text of 2^31 bytes or more would overflow the int accumulator of the source.
    ghost predicate FitsInt()
      reads this, headers
      requires headersUsed <= headers.Length
    {
      |PrintFields(Fields())| < 0x8000_0000
    }

    method HeadersLength() returns (len: nat)
      requires TableValid() && FitsInt()
      ensures len == if buf == null then 0 else |PrintFields(Fields())|
    {
      if buf == null {
        return 0;
      }
      var i := 0;
      len := 0;
      while headersUsed > i
        invariant i <= headersUsed
        invariant len == |SlotsText(headers[..i])|
      {
        AppendSlot(headers[..i], headers[i]);
        assert headers[..i + 1] == headers[..i] + [headers[i]];
        len := len + LineLength(headers[i]);
        i := i + 1;
      }
      PrintFieldsIsBody(Fields());
      len := len + 2;
    }

    method RequestLineLength() returns (len: nat)
      requires buf != null ==> LineValid()
      ensures len == if buf == null then 0 else |PrintLine(line) + CRLF|
    {
      if buf == null {
        return 0;
      }
      var verb := Strlen(buf, verbAt, line.verb);
      var protocol := Strlen(buf, protocolAt, line.protocol);
      var host := Strlen(buf, hostAt, line.host);
      var version := Strlen(buf, versionAt, line.version);
      len := verb + 1 + protocol + 3 + host + 1 + version + 2;
      if portAt.Some? {
        var port := Strlen(buf, portAt.value, line.port.value);
        len := len + (port + 1);
      }
      len := len + |path|;
    }

    ghost function Contents(): Request
      reads this, headers
      requires headersUsed <= headers.Length
    {
      Request(line, Fields())
    }

    method TotalLength() returns (len: nat)
      requires TableValid() && FitsInt() && (buf != null ==> LineValid())
      ensures len == if buf == null then 0 else |Print(Contents())|
    {
      if buf == null {
        return 0;
      }
      var first := RequestLineLength();
      var rest := HeadersLength();
      len := first + rest;
    }

    // ---------- Printing ----------

    // Writes into the len bytes of out from offset at.
    method PrintHeaders(out: array<char>, at: nat, len: nat) returns (ok: bool)
      requires TableValid() && FitsInt() && buf != null
      requires at + len <= out.Length
      modifies out
      ensures ok <==> |PrintFields(Fields())| <= len
      ensures ok ==> out[..] == Splice(old(out[..]), at, PrintFields(Fields()))
      ensures !ok ==> out[..] == old(out[..])
    {
      hide Splice, PrintFields, SlotsText, SlotText, LineLength, Live;
      var needed := HeadersLength();
      ghost var slots, before := headers[..headersUsed], out[..];
      SlotsTextIsFields(slots);
      if len < needed {
        return false;
      }
      assert out as object != headers as object && out as object != this;
      var current, i := at, 0;
      SlotsTextEmpty();
      EmptySplice(before, at);
      while headersUsed > i
        invariant i <= headersUsed && headers[..headersUsed] == slots
        invariant |SlotsText(slots[..i])| <= |SlotsText(slots)|
        invariant current == at + |SlotsText(slots[..i])|
        invariant out[..] == Splice(before, at, SlotsText(slots[..i]))
      {
        AppendSlot(slots[..i], slots[i]);
        assert slots[..i + 1] == slots[..i] + [slots[i]];
        BodyGrows(slots, i + 1);
        if headers[i].key.Some? {
          current := PrintOne(out, before, at, SlotsText(slots[..i]), current, headers[i]);
        } else {
          NoText(slots[i]);
          assert SlotsText(slots[..i]) + "" == SlotsText(slots[..i]);
        }
        i := i + 1;
      }
      assert slots[..i] == slots;
      SpliceNext(before, at, SlotsText(slots), CRLF);
      Memcpy(out, current, CRLF);
      return true;
    }

    // Writes the request line from the start of out.
    method PrintRequestLine(out: array<char>, len: nat) returns (ok: bool, written: nat)
      requires LineValid() && out != buf && len <= out.Length
      modifies out
      ensures ok <==> |PrintLine(line) + CRLF| <= len
      ensures ok ==> written == |PrintLine(line) + CRLF| && out[..] == Splice(old(out[..]), 0, PrintLine(line) + CRLF)
      ensures !ok ==> out[..] == old(out[..])
    {
      hide Splice, IsString, PrintLine, Address, PortText;
      var needed := RequestLineLength();
      if len < needed {
        return false, 0;
      }
      ghost var before, r, text := out[..], line, "";
      LineText(r);
      EmptySplice(before, 0);
      var current := EmitString(out, before, text, 0, buf, verbAt, r.verb);
      text := text + r.verb;
      current := Emit(out, before, text, current, " ");
      text := text + " ";
      current := EmitString(out, before, text, current, buf, protocolAt, r.protocol);
      text := text + r.protocol;
      current := Emit(out, before, text, current, "://");
      text := text + "://";
      current := EmitString(out, before, text, current, buf, hostAt, r.host);
      text := text + r.host;
      if portAt.Some? {
        current := Emit(out, before, text, current, ":");
        text := text + ":";
        current := EmitString(out, before, text, current, buf, portAt.value, r.port.value);
        text := text + r.port.value;
      }
      current := Emit(out, before, text, current, path);
      text := text + path;
      current := Emit(out, before, text, current, " ");
      text := text + " ";
      current := EmitString(out, before, text, current, buf, versionAt, r.version);
      text := text + r.version;
      current := Emit(out, before, text, current, CRLF);
      text := text + CRLF;
      LineText(r);
      return true, current;
    }

    // Succeeds exactly when the text fits, writes every byte of it and nothing else.
    method Unparse(out: array<char>, len: nat) returns (ok: bool)
      requires TableValid() && FitsInt() && (buf != null ==> LineValid() && out != buf)
      requires len <= out.Length
      modifies out
      ensures ok <==> buf != null && |Print(Contents())| <= len
      ensures ok ==> out[..] == Splice(old(out[..]), 0, Print(Contents()))
      ensures !ok ==> out[..] == old(out[..]) ||
                      (buf != null && |PrintLine(line) + CRLF| <= len &&
                       out[..] == Splice(old(out[..]), 0, PrintLine(line) + CRLF))
    {
      hide Splice, PrintFields, PrintLine, Live, IsString, UniqueKeys;
      if buf == null {
        return false;
      }
      assert out as object != headers as object && out as object != this;
      ghost var before, fields := out[..], Fields();
      var printed, written := PrintRequestLine(out, len);
      if !printed {
        return false;
      }
      ok := PrintHeaders(out, written, len - written);
      if ok {
        SpliceNext(before, 0, PrintLine(line) + CRLF, PrintFields(fields));
      }
    }

    // ---------- Parsing ----------

    // The request line: copied into a fresh buffer and cut there.
    method ParseRequestLine(text: string) returns (ok: bool)
      requires buf == null && NUL !in text && VersionInLine(text)
      modifies this`buf, this`verbAt, this`protocolAt, this`hostAt, this`portAt, this`path, this`versionAt, this`line
      ensures ok <==> ParseLine(text).Some?
      ensures ok ==> LineValid() && fresh(buf) && line == ParseLine(text).value
      ensures !ok ==> buf == null
    {
      hide ParseLine, IsString, VersionInLine, Splice;
      var b := new char[|text| + 1];
      MakeString(b, text);
      var verb, protocol, host, port, newPath, version;
      ok, verb, protocol, host, port, newPath, version := CutRequestLine(b, text);
      if ok {
        line := ParseLine(text).value;
        buf, verbAt, protocolAt, hostAt, versionAt := b, verb, protocol, host, version;
        portAt, path := port, newPath;
      }
    }

    // One header line: the key up to the colon, the value two characters further to the line end.
    method ParseHeader(s: string) returns (ok: bool)
      requires TableValid() && FieldInText(s)
      modifies this`headers, this`headersLen, this`headersUsed, headers
      ensures TableValid() && (headers == old(headers) || fresh(headers))
      ensures ok <==> Find(s, ":").Some?
      ensures Fields() == if ok then Set(old(Fields()), ParseField(s).key, ParseField(s).value) else old(Fields())
    {
      var index1 := Find(s, ":");
      if index1.None? {
        return false;
      }
      var key := s[..index1.value];
      var tail := s[index1.value + 2..];
      var index2 := Find(tail, CRLF);
      var value := tail[..index2.value];
      SetHeader(key, value);
      return true;
    }

    method ParseHeaderLines(text: string) returns (ok: bool)
      requires TableValid() && FieldsInText(text)
      modifies this`headers, this`headersLen, this`headersUsed, headers
      ensures TableValid() && (headers == old(headers) || fresh(headers))
      ensures ok <==> ParseFields(text, old(Fields())).Some?
      ensures ok ==> Fields() == ParseFields(text, old(Fields())).value
    {
      hide Find, ParseField, Set, FieldInText;
      var current := text;
      while current != "" && !(CRLF <= current)
        invariant TableValid() && (headers == old(headers) || fresh(headers))
        invariant FieldsInText(current)
        invariant ParseFields(text, old(Fields())) == ParseFields(current, Fields())
        decreases |current|
      {
        var parsed := ParseHeader(current);
        if !parsed {
          return false;
        }
        var next := Find(current, CRLF);
        if next.None? {
          return true;
        }
        current := current[next.value + 2..];
      }
      return true;
    }

    method ParseBuffer(input: string) returns (ok: bool)
      requires TableValid() && InBounds(input)
      modifies this, headers
      ensures TableValid() && (headers == old(headers) || fresh(headers))
      ensures old(buf) != null ==> !ok && buf == old(buf) && Fields() == old(Fields())
      ensures old(buf) == null ==> (ok <==> ParseInto(input, old(Fields())).Some?)
      ensures ok ==> LineValid() && fresh(buf) && Contents() == ParseInto(input, old(Fields())).value
    {
      hide Find, ParseLine, ParseFields, FieldsInText, VersionInLine, IsString, UniqueKeys;
      if buf != null {
        return false;
      }
      if |input| < MIN_REQ_LEN || |input| > MAX_REQ_LEN {
        return false;
      }
      var text := UpToNul(input);
      if Find(text, CRLF + CRLF).None? {
        return false;
      }
      var index := Find(text, CRLF).value;
      var lineOk := ParseRequestLine(text[..index]);
      if !lineOk {
        return false;
      }
      assert headers as object != buf as object;
      ok := ParseHeaderLines(text[index + 2..]);
    }
  }

  // The proxy's edit of a request: remove "Connection", then set it to "close".
  method CloseConnection(request: ParsedRequest)
    requires request.TableValid()
    modifies request`headers, request`headersLen, request`headersUsed, request.headers
    ensures request.TableValid()
    ensures request.Fields() == Others(old(request.Fields()), "Connection") + [Field("Connection", "close")]
  {
    RemoveThenSet(request.Fields(), "Connection", "close");
    var removed := request.RemoveHeader("Connection");
    request.SetHeader("Connection", "close");
  }

  // Printing a request into a buffer of exactly the computed length and parsing the result
  // succeeds, and gives the same fields and the same headers in the same order.
  method PrintAndParse(request: ParsedRequest) returns (copy: ParsedRequest)
    requires request.TableValid() && request.FitsInt() && request.LineValid()
    requires WellFormed(request.Contents()) && |Print(request.Contents())| <= MAX_REQ_LEN
    ensures fresh(copy) && copy.TableValid() && copy.LineValid()
    ensures copy.Contents() == request.Contents()
  {
    hide Print, WellFormed, IsString, InBounds, ParseInto, UniqueKeys;
    ghost var r := request.Contents();
    var len := request.TotalLength();
    var out := new char[len];
    assert request.LineValid() && request.TableValid() && request.Contents() == r;
    var printed := request.Unparse(out, len);
    assert out[..] == Print(r);
    RoundTrip(r);
    ParseIsInto(Print(r));
    copy := new ParsedRequest();
    var parsed := copy.ParseBuffer(out[..]);
  }

  lemma ParseIsInto(input: string)
    requires InBounds(input)
    ensures Parse(input) == ParseInto(input, [])
  {
  }

  lemma FreshString(buf: seq<char>, s: string)
    requires |buf| == |s| + 1 && buf[..|s|] == s && buf[|s|] == NUL && NUL !in s
    ensures IsString(buf, 0, s)
  {
  }

  lemma StringSlice(buf: seq<char>, at: nat, s: string)
    requires IsString(buf, at, s)
    ensures at + |s| < |buf| && buf[at..at + |s|] == s
  {
  }

  lemma AddressKeepsVerb(verb: string, addr: string, version: string)
    requires |version| >= 5 && ParseAddress(verb, addr, version).Some?
    ensures ParseAddress(verb, addr, version).value.verb == verb
    ensures ParseAddress(verb, addr, version).value.version == version
  {
    hide NextToken;
  }

  lemma LineText(r: RequestLine)
    ensures r.port.Some? ==>
              PrintLine(r) + CRLF == "" + r.verb + " " + r.protocol + "://" + r.host + ":" + r.port.value +
                  r.path + " " +
                                     r.version + CRLF
    ensures r.port.None? ==>
              PrintLine(r) + CRLF == "" + r.verb + " " + r.protocol + "://" + r.host + r.path + " " + r.version + CRLF
  {
  }

  method Emit(out: array<char>, ghost before: seq<char>, ghost text: string, current: nat, s: string)
    returns (next: nat)
    requires current == |text| && |text + s| <= |before| == out.Length && out[..] == Splice(before, 0, text)
    modifies out
    ensures next == |text + s| && out[..] == Splice(before, 0, text + s)
  {
    hide Splice;
    Memcpy(out, current, s);
    SpliceNext(before, 0, text, s);
    next := current + |s|;
  }

  method EmitString(out: array<char>, ghost before: seq<char>, ghost text: string, current: nat,
                    src: array<char>, from: nat, ghost s: string) returns (next: nat)
    requires out != src && IsString(src[..], from, s)
    requires current == |text| && |text + s| <= |before| == out.Length && out[..] == Splice(before, 0, text)
    modifies out
    ensures next == |text + s| && out[..] == Splice(before, 0, text + s)
  {
    hide Splice, IsString;
    var n := CopyString(out, current, src, from, s);
    SpliceNext(before, 0, text, s);
    next := current + n;
  }

  lemma NoText(s: Slot)
    ensures s.key.None? ==> SlotText(s) == "" && LineLength(s) == 0
  {
  }

  lemma SlotsTextIsFields(slots: seq<Slot>)
    ensures PrintFields(Live(slots)) == SlotsText(slots) + CRLF
  {
    PrintFieldsIsBody(Live(slots));
  }

  function PrintBody(fields: seq<Field>): string {
    if fields == [] then "" else PrintField(fields[0]) + PrintBody(fields[1..])
  }

  lemma {:induction false} PrintFieldsIsBody(fields: seq<Field>)
    ensures PrintFields(fields) == PrintBody(fields) + CRLF
  {
    if fields != [] {
      PrintFieldsIsBody(fields[1..]);
    }
  }

  function LineLength(s: Slot): nat {
    if s.key.Some? then |s.key.value| + |s.value| + 4 else 0
  }

  function SlotText(s: Slot): string {
    if s.key.Some? then PrintField(Field(s.key.value, s.value)) else ""
  }

  lemma {:induction false} BodyConcat(x: seq<Field>, y: seq<Field>)
    ensures PrintBody(x + y) == PrintBody(x) + PrintBody(y)
  {
    if x == [] {
      assert x + y == y;
    } else {
      assert (x + y)[1..] == x[1..] + y;
      BodyConcat(x[1..], y);
    }
  }

  // The text of the live slots, in slot order.
  function SlotsText(slots: seq<Slot>): string {
    PrintBody(Live(slots))
  }

  lemma SlotsTextEmpty()
    ensures SlotsText([]) == ""
  {
  }

  lemma AppendSlot(slots: seq<Slot>, s: Slot)
    ensures SlotsText(slots + [s]) == SlotsText(slots) + SlotText(s)
    ensures |SlotText(s)| == LineLength(s)
  {
    LiveAppend(slots, s);
    if s.key.Some? {
      var f := Field(s.key.value, s.value);
      BodyConcat(Live(slots), [f]);
      assert [f][1..] == [];
      assert PrintBody([f]) == PrintField(f) + "";
    } else {
      assert Live(slots) + [] == Live(slots);
    }
  }

  lemma BodyGrows(slots: seq<Slot>, i: nat)
    requires i <= |slots|
    ensures |SlotsText(slots[..i])| <= |SlotsText(slots)|
    decreases |slots| - i
  {
    if i < |slots| {
      AppendSlot(slots[..i], slots[i]);
      assert slots[..i + 1] == slots[..i] + [slots[i]];
      BodyGrows(slots, i + 1);
    } else {
      assert slots[..i] == slots;
    }
  }

  lemma EmptySplice(buf: seq<char>, at: nat)
    requires at <= |buf|
    ensures Splice(buf, at, "") == buf
  {
  }

  // One header line: key, ": ", value and the line end, written behind the text so far.
  method PrintOne(out: array<char>, ghost before: seq<char>, ghost at: nat, ghost text: string, current: nat, s: Slot)
    returns (next: nat)
    requires s.key.Some? && current == at + |text|
    requires at + |text + SlotText(s)| <= |before| == out.Length && out[..] == Splice(before, at, text)
    modifies out
    ensures next == current + LineLength(s)
    ensures out[..] == Splice(before, at, text + SlotText(s))
  {
    hide Splice;
    var key := s.key.value;
    Memcpy(out, current, key);
    SpliceNext(before, at, text, key);
    Memcpy(out, current + |key|, ": ");
    SpliceNext(before, at, text + key, ": ");
    Memcpy(out, current + |key| + 2, s.value);
    SpliceNext(before, at, text + key + ": ", s.value);
    Memcpy(out, current + |key| + 2 + |s.value|, CRLF);
    SpliceNext(before, at, text + key + ": " + s.value, CRLF);
    assert text + key + ": " + s.value + CRLF == text + SlotText(s);
    next := current + (|key| + |s.value| + 4);
  }

  // ---------- Cutting the request line in place ----------

  // The string strlen(protocol) + 3 bytes behind the start of the address, once the protocol is
  // cut: inside the cut part, inside the rest of the address, or inside the version.
  lemma RemainderString(buf: seq<char>, addrAt: nat, t: Split, addr: string, version: string)
    returns (rem: string)
    requires t.Token? && t == NextToken(addr, ":/") && |version| >= 5
    requires IsString(buf, addrAt, addr[..t.start + |t.text|])
    requires IsString(buf, addrAt + t.start + |t.text| + (if t.cut then 1 else 0), t.rest)
    requires IsString(buf, addrAt + |addr| + 1, version)
    ensures IsString(buf, addrAt + |t.text| + 3, rem)
    ensures |rem| == RemainderLength(t.start, t.text, addr, version)
  {
    hide NextToken, IsString;
    if t.start >= 3 {
      rem := SuffixString(buf, addrAt, addr[..t.start + |t.text|], addrAt + |t.text| + 3);
    } else if |t.text| + 3 <= |addr| {
      rem := SuffixString(buf, addrAt + t.start + |t.text| + 1, t.rest, addrAt + |t.text| + 3);
    } else {
      rem := SuffixString(buf, addrAt + |addr| + 1, version, addrAt + |t.text| + 3);
    }
  }

  lemma SuffixString(buf: seq<char>, at: nat, s: string, from: nat) returns (suffix: string)
    requires IsString(buf, at, s) && at <= from <= at + |s|
    ensures IsString(buf, from, suffix) && |suffix| == at + |s| - from
  {
    SpanStops(buf, at, s, from - at);
    suffix := s[from - at..];
  }

  // Protocol and authority: the first two tokens of the address, with the test for a missing path.
  method CutAuthority(b: array<char>, addrAt: nat, ghost addr: string, ghost version: string)
    returns (ok: bool, protocolAt: nat, authorityAt: nat, save: nat)
    requires IsString(b[..], addrAt, addr) && IsString(b[..], addrAt + |addr| + 1, version) && |version| >= 5
    modifies b
    ensures SameOutside(old(b[..]), b[..], addrAt, addrAt + |addr|)
    ensures var t := NextToken(addr, ":/");
            if t.NoToken? then !ok else
            var u := NextToken(t.rest, "/");
            if u.NoToken? then !ok else
            && (ok <==> |u.text| != RemainderLength(t.start, t.text, addr, version))
            && IsString(b[..], protocolAt, t.text) && IsString(b[..], authorityAt, u.text)
            && IsString(b[..], save, u.rest)
            && addrAt <= protocolAt && protocolAt + |t.text| < authorityAt
            && authorityAt + |u.text| <= save && save + |u.rest| == addrAt + |addr|
            && (u.rest != "" ==> authorityAt + |u.text| < save)
  {
    hide NextToken, IsString, RemainderLength;
    ghost var t, start := NextToken(addr, ":/"), b[..];
    protocolAt, authorityAt, save := 0, 0, 0;
    var protocol, afterProtocol := StrtokR(b, addrAt, ":/", addr);
    if protocol.None? {
      return false, 0, 0, 0;
    }
    TokenizedInside(start, b[..], addrAt, addr, ":/", protocol.value, afterProtocol);
    KeepString(start, b[..], addrAt, addrAt + |addr|, addrAt + |addr| + 1, version);
    var length := Strlen(b, protocol.value, t.text);
    ghost var rem := RemainderString(b[..], addrAt, t, addr, version);
    var uriLength := Strlen(b, addrAt + length + 3, rem);
    ghost var middle, u := b[..], NextToken(t.rest, "/");
    var authority, afterAuthority := StrtokR(b, afterProtocol, "/", t.rest);
    if authority.None? {
      return false, 0, 0, 0;
    }
    TokenizedInside(middle, b[..], afterProtocol, t.rest, "/", authority.value, afterAuthority);
    ProtocolEnds(t, addr);
    KeepString(middle, b[..], afterProtocol, afterProtocol + |t.rest|, protocol.value, t.text);
    var authorityLength := Strlen(b, authority.value, u.text);
    return authorityLength != uriLength, protocol.value, authority.value, afterAuthority;
  }

  lemma ProtocolEnds(t: Split, addr: string)
    requires t.Token? && t == NextToken(addr, ":/") && NextToken(t.rest, "/").Token?
    ensures t.cut
  {
  }

  // The path: what follows the authority, prefixed with the slash that was cut.
  method CutPath(b: array<char>, at: nat, ghost s: string) returns (path: Option<string>)
    requires IsString(b[..], at, s)
    modifies b
    ensures SameOutside(old(b[..]), b[..], at, at + |s|)
    ensures path == ParsePath(s)
  {
    hide NextToken, IsString, Tokenized;
    ghost var start, t := b[..], NextToken(s, " ");
    var tail, afterPath := StrtokR(b, at, " ", s);
    if tail.None? {
      return Some("/");
    }
    TokenizedInside(start, b[..], at, s, " ", tail.value, afterPath);
    assert IsString(b[..], tail.value, t.text) by { TokenizedStrings(start, b[..], at, t, tail.value, afterPath); }
    StringAt(b[..], tail.value, t.text);
    var n := Strlen(b, tail.value, t.text);
    if b[tail.value] == '/' {
      return None;
    }
    path := Some("/" + b[tail.value..tail.value + n]);
  }

  lemma TokenizedStrings(before: seq<char>, after: seq<char>, at: nat, t: Split, token: nat, save: nat)
    requires t.Token? && t.text != "" && Tokenized(before, after, at, t, token, save)
    ensures IsString(after, token, t.text) && IsString(after, save, t.rest)
  {
    hide IsString;
  }

  // Host and port: the tokens of the authority.
  method CutHost(b: array<char>, at: nat, ghost s: string) returns (ok: bool, hostAt: nat, portAt: Option<nat>)
    requires IsString(b[..], at, s)
    modifies b
    ensures SameOutside(old(b[..]), b[..], at, at + |s|)
    ensures var h := NextToken(s, ":");
            && (ok <==> h.Token?)
            && (ok ==> IsString(b[..], hostAt, h.text))
            && (ok ==> (portAt.Some? <==> ParsePort(h.rest).Some?))
            && (ok && portAt.Some? ==> IsString(b[..], portAt.value, ParsePort(h.rest).value))
  {
    hide NextToken, IsString;
    ghost var start, h := b[..], NextToken(s, ":");
    var host, afterHost := StrtokR(b, at, ":", s);
    if host.None? {
      return false, 0, None;
    }
    TokenizedInside(start, b[..], at, s, ":", host.value, afterHost);
    ghost var middle := b[..];
    var port, afterPort := StrtokR(b, afterHost, "/", h.rest);
    if port.Some? {
      TokenizedInside(middle, b[..], afterHost, h.rest, "/", port.value, afterPort);
      RestNonEmpty(h.rest, "/");
      KeepString(middle, b[..], afterHost, afterHost + |h.rest|, host.value, h.text);
    }
    return true, host.value, port;
  }

  lemma RestNonEmpty(s: string, delims: string)
    requires NextToken(s, delims).Token?
    ensures s != ""
  {
  }

  lemma StringAt(buf: seq<char>, at: nat, s: string)
    requires IsString(buf, at, s) && s != ""
    ensures at + |s| < |buf| && buf[at] == s[0] && buf[at..at + |s|] == s
  {
    assert buf[at] == buf[at..at + |s|][0];
  }

  // memcpy of the line and its closing NUL.
  method MakeString(b: array<char>, s: string)
    requires b.Length == |s| + 1 && NUL !in s
    modifies b
    ensures IsString(b[..], 0, s)
  {
    Memcpy(b, 0, s);
    b[|s|] := NUL;
    FreshString(b[..], s);
  }

  method CutRequestLine(b: array<char>, ghost line: string)
    returns (ok: bool, verbAt: nat, protocolAt: nat, hostAt: nat, portAt: Option<nat>, path: string, versionAt: nat)
    requires IsString(b[..], 0, line) && VersionInLine(line)
    modifies b
    ensures ok <==> ParseLine(line).Some?
    ensures ok ==> var r := ParseLine(line).value;
                   && IsString(b[..], verbAt, r.verb)
                   && IsString(b[..], protocolAt, r.protocol)
                   && IsString(b[..], hostAt, r.host)
                   && IsString(b[..], versionAt, r.version)
                   && path == r.path
                   && (portAt.Some? <==> r.port.Some?)
                   && (portAt.Some? ==> IsString(b[..], portAt.value, r.port.value))
  {
    hide NextToken, IsString, ParseAddress, VersionInLine;
    protocolAt, hostAt, portAt, path := 0, 0, None, "";
    var addrAt;
    ok, verbAt, addrAt, versionAt := CutLine(b, line);
    if !ok {
      return;
    }
    ghost var before, a := b[..], NextToken(NextToken(line, " ").rest, " ");
    ok, protocolAt, hostAt, portAt, path := CutAddress(b, addrAt, "GET", a.text, a.rest);
    KeepString(before, b[..], addrAt, addrAt + |a.text|, verbAt, "GET");
    KeepString(before, b[..], addrAt, addrAt + |a.text|, versionAt, a.rest);
    if ok {
      AddressKeepsVerb("GET", a.text, a.rest);
    }
  }

  // Method, address and version, with their tests.
  method CutLine(b: array<char>, ghost line: string) returns (ok: bool, verbAt: nat, addrAt: nat, versionAt: nat)
    requires IsString(b[..], 0, line) && VersionInLine(line)
    modifies b
    ensures var t := NextToken(line, " ");
            if t.NoToken? || t.text != "GET" then !ok else
            var a := NextToken(t.rest, " ");
            if a.NoToken? then !ok else
            && (ok <==> "HTTP/" <= a.rest)
            && IsString(b[..], verbAt, "GET") && IsString(b[..], addrAt, a.text)
            && versionAt == addrAt + |a.text| + 1 && IsString(b[..], versionAt, a.rest)
            && verbAt + 3 < addrAt
  {
    hide NextToken, IsString;
    ghost var start, t := b[..], NextToken(line, " ");
    var verb, afterVerb := StrtokR(b, 0, " ", line);
    if verb.None? {
      return false, 0, 0, 0;
    }
    TokenizedInside(start, b[..], 0, line, " ", verb.value, afterVerb);
    StringSlice(b[..], verb.value, t.text);
    var n := Strlen(b, verb.value, t.text);
    if b[verb.value..verb.value + n] != "GET" {
      return false, 0, 0, 0;
    }
    ghost var middle, a := b[..], NextToken(t.rest, " ");
    var addr, afterAddr := StrtokR(b, afterVerb, " ", t.rest);
    if addr.None? {
      return false, 0, 0, 0;
    }
    TokenizedInside(middle, b[..], afterVerb, t.rest, " ", addr.value, afterAddr);
    RestNonEmpty(t.rest, " ");
    KeepString(middle, b[..], afterVerb, afterVerb + |t.rest|, verb.value, t.text);
    var addrLength := Strlen(b, addr.value, a.text);
    var version := addr.value + addrLength + 1;
    var versionLength := Strlen(b, version, a.rest);
    StringSlice(b[..], version, a.rest);
    return "HTTP/" <= b[version..version + versionLength], verb.value, addr.value, version;
  }

  // Everything in front of the version: protocol, host, port and path.
  method CutAddress(b: array<char>, addrAt: nat, ghost verb: string, ghost addr: string, ghost version: string)
    returns (ok: bool, protocolAt: nat, hostAt: nat, portAt: Option<nat>, path: string)
    requires IsString(b[..], addrAt, addr) && IsString(b[..], addrAt + |addr| + 1, version) && |version| >= 5
    modifies b
    ensures SameOutside(old(b[..]), b[..], addrAt, addrAt + |addr|)
    ensures ok <==> ParseAddress(verb, addr, version).Some?
    ensures ok ==> var r := ParseAddress(verb, addr, version).value;
                   && IsString(b[..], protocolAt, r.protocol)
                   && IsString(b[..], hostAt, r.host)
                   && path == r.path
                   && (portAt.Some? <==> r.port.Some?)
                   && (portAt.Some? ==> IsString(b[..], portAt.value, r.port.value))
  {
    hide NextToken, IsString, RemainderLength, ParsePath, ParsePort;
    hostAt, portAt, path := 0, None, "";
    var authorityAt, save;
    ok, protocolAt, authorityAt, save := CutAuthority(b, addrAt, addr, version);
    if !ok {
      return;
    }
    ghost var t, before := NextToken(addr, ":/"), b[..];
    ghost var u := NextToken(t.rest, "/");
    var tail := CutPath(b, save, u.rest);
    if u.rest != "" {
      KeepString(before, b[..], save, save + |u.rest|, authorityAt, u.text);
      KeepString(before, b[..], save, save + |u.rest|, protocolAt, t.text);
    } else {
      SameAll(before, b[..], save);
    }
    if tail.None? {
      return false, 0, 0, None, "";
    }
    path := tail.value;
    ghost var middle := b[..];
    ok, hostAt, portAt := CutHost(b, authorityAt, u.text);
    KeepString(middle, b[..], authorityAt, authorityAt + |u.text|, protocolAt, t.text);
  }

  lemma SameAll(before: seq<char>, after: seq<char>, at: nat)
    requires SameOutside(before, after, at, at)
    ensures before == after
  {
  }
}
