// The C string functions proxy_parse.c relies on: strstr, index, and strtok_r, which cuts its
// buffer in place.

module CString {
  import opened Machine

  const NUL: char := '\0'
  const CRLF := "\r\n"

  // The buffer holds the NUL-terminated string s at offset at.
  predicate IsString(buf: seq<char>, at: nat, s: string) {
    at + |s| < |buf| && buf[at..at + |s|] == s && buf[at + |s|] == NUL && NUL !in s
  }

  // strstr, and index for a pattern of one character: offset of the first occurrence.
  function Find(s: string, pattern: string): (r: Option<nat>)
    ensures r.Some? ==> r.value + |pattern| <= |s| && s[r.value..r.value + |pattern|] == pattern
    ensures r.Some? ==> forall j | 0 <= j < r.value :: !(pattern <= s[j..])
    ensures r.None? ==> forall j | 0 <= j <= |s| :: !(pattern <= s[j..])
  {
    if pattern <= s then Some(0)
    else if s == "" then None
    else
      var r := Find(s[1..], pattern);
      assert forall j | 0 < j <= |s| :: s[j..] == s[1..][j - 1..];
      if r.None? then None else Some(r.value + 1)
  }

  lemma FindUnique(s: string, pattern: string, i: nat)
    requires i + |pattern| <= |s| && s[i..i + |pattern|] == pattern
    requires forall j | 0 <= j < i :: !(pattern <= s[j..])
    ensures Find(s, pattern) == Some(i)
  {
    hide Find;
    assert pattern <= s[i..];
    var r := Find(s, pattern);
    if r.Some? {
      assert pattern <= s[r.value..];
    }
  }

  // strspn and strcspn.
  function Span(s: string, delims: string): (n: nat)
    ensures n <= |s|
    ensures forall i | 0 <= i < n :: s[i] in delims
    ensures n < |s| ==> s[n] !in delims
  {
    if s == "" || s[0] !in delims then 0 else 1 + Span(s[1..], delims)
  }

  function Reach(s: string, delims: string): (n: nat)
    ensures n <= |s|
    ensures forall i | 0 <= i < n :: s[i] !in delims
    ensures n < |s| ==> s[n] in delims
  {
    if s == "" || s[0] in delims then 0 else 1 + Reach(s[1..], delims)
  }

  // What one call of strtok_r finds in a string: the token, where it starts, whether a delimiter
  // was overwritten behind it, and the string left for the next call.
  datatype Split = NoToken | Token(start: nat, text: string, cut: bool, rest: string)

  function NextToken(s: string, delims: string): (t: Split)
    ensures t.Token? && !t.cut ==> t.rest == ""
    ensures t.Token? ==> t.text != "" && t.start + |t.text| + (if t.cut then 1 else 0) + |t.rest| == |s|
  {
    var k := Span(s, delims);
    if k == |s| then NoToken
    else
      var n := Reach(s[k..], delims);
      if k + n == |s| then Token(k, s[k..], false, "")
      else Token(k, s[k..k + n], true, s[k + n + 1..])
  }

  // The token is a maximal run of non-delimiters, followed by the delimiter that was overwritten.
  lemma TokenShape(s: string, delims: string)
    requires NextToken(s, delims).Token?
    ensures var t := NextToken(s, delims);
            && (forall c | c in t.text :: c !in delims)
            && (forall c | c in s[..t.start] :: c in delims)
            && (if t.cut then s[t.start + |t.text|] in delims &&
                              s == s[..t.start] + t.text + [s[t.start + |t.text|]] + t.rest
                else s == s[..t.start] + t.text && t.rest == "")
  {
    hide Span, Reach;
    var k := Span(s, delims);
    var n := Reach(s[k..], delims);
    assert s == s[..k] + s[k..k + n] + s[k + n..];
    assert forall i | 0 <= i < n :: s[k..k + n][i] == s[k..][i];
    if k + n < |s| {
      assert s[k + n..] == [s[k + n]] + s[k + n + 1..];
    }
  }

  // A token that starts the string and is followed by a delimiter.
  lemma TokenAtStart(text: string, d: char, rest: string, delims: string)
    requires text != "" && d in delims && forall c | c in text :: c !in delims
    ensures NextToken(text + [d] + rest, delims) == Token(0, text, true, rest)
  {
    hide Span, Reach;
    var s := text + [d] + rest;
    assert s[0] == text[0] && text[0] in text;
    ReachOf(text, d, rest, delims);
    assert s[0..] == s;
  }

  lemma ReachOf(text: string, d: char, rest: string, delims: string)
    requires d in delims && forall c | c in text :: c !in delims
    ensures Reach(text + [d] + rest, delims) == |text|
  {
    hide Reach;
    var s := text + [d] + rest;
    assert forall i | 0 <= i < |text| :: s[i] == text[i] && text[i] in text;
    assert s[|text|] == d;
  }

  // A token that is the whole string.
  lemma TokenIsWhole(text: string, delims: string)
    requires text != "" && forall c | c in text :: c !in delims
    ensures NextToken(text, delims) == Token(0, text, false, "")
  {
    hide Span, Reach;
    assert text[0] in text && text[0] !in delims;
    assert Span(text, delims) == 0;
    assert text[0..] == text;
    assert forall i | 0 <= i < |text| :: text[i] in text && text[i] !in delims;
  }

  lemma SkipDelimiters(prefix: string, s: string, delims: string)
    requires forall c | c in prefix :: c in delims
    ensures NextToken(s, delims).NoToken? <==> NextToken(prefix + s, delims).NoToken?
    ensures NextToken(s, delims).Token? ==>
              NextToken(prefix + s, delims) ==
              NextToken(s, delims).(start := |prefix| + NextToken(s, delims).start)
  {
    hide Span, Reach;
    var k := Span(s, delims);
    SpanOf(prefix, s, delims);
    assert (prefix + s)[|prefix| + k..] == s[k..];
    if k < |s| {
      var n := Reach(s[k..], delims);
      assert (prefix + s)[|prefix| + k..|prefix| + k + n] == s[k..k + n];
      if k + n < |s| {
        assert (prefix + s)[|prefix| + k + n + 1..] == s[k + n + 1..];
      }
    }
  }

  lemma SpanOf(prefix: string, s: string, delims: string)
    requires forall c | c in prefix :: c in delims
    ensures Span(prefix + s, delims) == |prefix| + Span(s, delims)
  {
    hide Span;
    var k := Span(s, delims);
    assert forall i | 0 <= i < |prefix| :: (prefix + s)[i] == prefix[i] && prefix[i] in prefix;
    assert forall i | 0 <= i < |s| :: (prefix + s)[|prefix| + i] == s[i];
    if k < |s| {
      assert (prefix + s)[|prefix| + k] == s[k];
    }
  }

  // strtok_r on the string at offset at: a delimiter behind the token becomes a NUL, and save is
  // where the next call continues.
  method StrtokR(buf: array<char>, at: nat, delims: string, ghost s: string)
    returns (token: Option<nat>, save: nat)
    requires IsString(buf[..], at, s)
    modifies buf
    ensures token.None? <==> NextToken(s, delims).NoToken?
    ensures token.None? ==> buf[..] == old(buf[..]) && IsString(buf[..], save, "")
    ensures token.Some? ==> Tokenized(old(buf[..]), buf[..], at, NextToken(s, delims), token.value, save)
  {
    hide Span, Reach, IsString, NextToken;
    ghost var k := Span(s, delims);
    SpanStops(buf[..], at, s, k);
    TokenIs(s, delims);
    var p := SkipSpan(buf, at, delims, s);
    if buf[p] == NUL {
      return None, p;
    }
    ghost var n := Reach(s[k..], delims);
    SpanStops(buf[..], p, s[k..], n);
    var end := SkipReach(buf, p, delims, s[k..]);
    if buf[end] == NUL {
      return Some(p), end;
    }
    CutString(buf[..], p, s[k..], n);
    buf[end] := NUL;
    return Some(p), end + 1;
  }

  // The effect of strtok_r when it finds a token.
  ghost predicate Tokenized(before: seq<char>, after: seq<char>, at: nat, t: Split, token: nat, save: nat)
    requires t.Token?
  {
    var end := at + t.start + |t.text|;
    && token == at + t.start
    && save == (if t.cut then end + 1 else end)
    && end < |before|
    && after == (if t.cut then before[end := NUL] else before)
    && IsString(after, token, t.text)
    && IsString(after, save, t.rest)
  }

  lemma CutString(buf: seq<char>, at: nat, s: string, n: nat)
    requires IsString(buf, at, s) && n < |s|
    ensures at + n < |buf|
    ensures IsString(buf[at + n := NUL], at, s[..n])
    ensures IsString(buf[at + n := NUL], at + n + 1, s[n + 1..])
  {
    var b := buf[at + n := NUL];
    assert b[at..at + n] == buf[at..at + |s|][..n];
    assert b[at + n + 1..at + |s|] == buf[at..at + |s|][n + 1..];
  }

  lemma TokenIs(s: string, delims: string)
    ensures var k := Span(s, delims);
            NextToken(s, delims) ==
            if k == |s| then NoToken
            else
              var n := Reach(s[k..], delims);
              if k + n == |s| then Token(k, s[k..], false, "")
              else Token(k, s[k..][..n], true, s[k..][n + 1..])
  {
    hide Span, Reach;
    var k := Span(s, delims);
    if k < |s| {
      var n := Reach(s[k..], delims);
      assert s[k..][..n] == s[k..k + n];
      if k + n < |s| {
        assert s[k..][n + 1..] == s[k + n + 1..];
      }
    }
  }

  // Inside a NUL-terminated string a position holds NUL exactly at the end.
  lemma SpanStops(buf: seq<char>, at: nat, s: string, k: nat)
    requires IsString(buf, at, s) && k <= |s|
    ensures at + k < |buf| && (buf[at + k] == NUL <==> k == |s|)
    ensures k < |s| ==> buf[at + k] == s[k]
    ensures IsString(buf, at + k, s[k..])
  {
    if k < |s| {
      assert buf[at + k] == s[k];
    }
    assert buf[at + k..at + |s|] == s[k..];
  }

  method SkipSpan(buf: array<char>, at: nat, delims: string, ghost s: string) returns (p: nat)
    requires IsString(buf[..], at, s)
    ensures p == at + Span(s, delims) && p < buf.Length && (buf[p] == NUL <==> Span(s, delims) == |s|)
  {
    hide IsString, Span;
    p := at;
    ghost var k := Span(s, delims);
    SpanStops(buf[..], at, s, 0);
    SpanStops(buf[..], at, s, k);
    while buf[p] != NUL && buf[p] in delims
      invariant at <= p <= at + k < buf.Length
      decreases at + k - p
    {
      SpanStops(buf[..], at, s, p - at);
      p := p + 1;
    }
    SpanStops(buf[..], at, s, p - at);
  }

  method SkipReach(buf: array<char>, at: nat, delims: string, ghost s: string) returns (p: nat)
    requires IsString(buf[..], at, s)
    ensures p == at + Reach(s, delims) && p < buf.Length && (buf[p] == NUL <==> Reach(s, delims) == |s|)
  {
    hide IsString, Reach;
    p := at;
    ghost var k := Reach(s, delims);
    SpanStops(buf[..], at, s, 0);
    SpanStops(buf[..], at, s, k);
    while buf[p] != NUL && buf[p] !in delims
      invariant at <= p <= at + k < buf.Length
      decreases at + k - p
    {
      SpanStops(buf[..], at, s, p - at);
      p := p + 1;
    }
    SpanStops(buf[..], at, s, p - at);
  }

  method Strlen(buf: array<char>, at: nat, ghost s: string) returns (n: nat)
    requires IsString(buf[..], at, s)
    ensures n == |s|
  {
    n := 0;
    SpanStops(buf[..], at, s, 0);
    while buf[at + n] != NUL
      invariant n <= |s| && at + n < buf.Length
      decreases |s| - n
    {
      SpanStops(buf[..], at, s, n);
      n := n + 1;
    }
    SpanStops(buf[..], at, s, n);
  }

  // ---------- What tokenizing leaves alone ----------

  // The buffers agree outside the positions lo..hi.
  ghost predicate SameOutside(before: seq<char>, after: seq<char>, lo: nat, hi: nat) {
    |before| == |after| && forall i | 0 <= i < |before| && !(lo <= i < hi) :: after[i] == before[i]
  }

  lemma KeepString(before: seq<char>, after: seq<char>, lo: nat, hi: nat, at: nat, s: string)
    requires SameOutside(before, after, lo, hi) && IsString(before, at, s)
    requires at + |s| < lo || hi <= at
    ensures IsString(after, at, s)
  {
    assert after[at..at + |s|] == before[at..at + |s|];
  }

  // strtok_r writes inside the string it is given, never on its NUL; what it returns lies inside too.
  lemma TokenizedInside(before: seq<char>, after: seq<char>, at: nat, s: string, delims: string, token: nat, save: nat)
    requires NextToken(s, delims).Token? && IsString(before, at, s)
    requires Tokenized(before, after, at, NextToken(s, delims), token, save)
    ensures SameOutside(before, after, at, at + |s|)
    ensures var t := NextToken(s, delims);
            && at <= token && token + |t.text| <= save && save + |t.rest| == at + |s|
            && (t.rest != "" ==> token + |t.text| < save)
            && IsString(after, at, s[..t.start + |t.text|])
  {
    hide NextToken, IsString;
    var t := NextToken(s, delims);
    if t.cut {
      CutString(before, at, s, t.start + |t.text|);
    } else {
      assert s[..t.start + |t.text|] == s;
    }
  }
}
