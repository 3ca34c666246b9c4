// What the header reader makes of printed headers, for every key: it looks for a colon in all that is
// left but continues behind the next line end, so a key with line ends in it is read again from each
// of them.

module HttpHeaders {
  import opened Machine
  import opened CString
  import opened HeaderTable
  import opened HttpSpec

  // ---------- Line ends ----------

  predicate Free(s: string, chars: string) {
    forall c | c in s :: c !in chars
  }

  predicate Unbroken(s: string) {
    forall i | 0 <= i < |s| - 1 :: s[i] == '\r' ==> s[i + 1] != '\n'
  }

  // Neither a line end nor a NUL, which would end the C string.
  predicate Clean(s: string) {
    NUL !in s && Unbroken(s)
  }

  lemma UnbrokenIff(s: string)
    ensures Unbroken(s) <==> Find(s, CRLF).None?
  {
    hide Find;
    var r := Find(s, CRLF);
    if r.Some? {
      assert s[r.value..r.value + 2] == CRLF;
      assert s[r.value] == '\r' && s[r.value + 1] == '\n';
    } else {
      forall i | 0 <= i < |s| - 1 ensures s[i] == '\r' ==> s[i + 1] != '\n' {
        assert !(CRLF <= s[i..]);
      }
    }
  }

  // The text up to the first line end has none.
  lemma UnbrokenBefore(s: string)
    requires Find(s, CRLF).Some?
    ensures Unbroken(s[..Find(s, CRLF).value])
  {
    hide Find;
    var n := Find(s, CRLF).value;
    forall i: nat | i + 1 < n ensures s[i] == '\r' ==> s[i + 1] != '\n' {
      assert !(CRLF <= s[i..]);
    }
  }

  lemma FindBreak(line: string, rest: string)
    requires Unbroken(line)
    ensures Find(line + CRLF + rest, CRLF) == Some(|line|)
  {
    hide Find;
    var s := line + CRLF + rest;
    forall j | 0 <= j < |line| ensures !(CRLF <= s[j..]) {
      assert s[j..][0] == s[j] && s[j..][1] == s[j + 1];
      assert s[j + 1] == if j + 1 < |line| then line[j + 1] else '\r';
    }
    assert s[|line|..|line| + 2] == CRLF;
    FindUnique(s, CRLF, |line|);
  }

  lemma UnbrokenJoin(x: string, d: string, y: string)
    requires Unbroken(x) && Unbroken(d) && Unbroken(y)
    requires d != "" && d[0] != '\n' && d[|d| - 1] != '\r'
    ensures Unbroken(x + d + y)
  {
    var s := x + d + y;
    forall i | 0 <= i < |s| - 1 ensures s[i] == '\r' ==> s[i + 1] != '\n' {
      if i < |x| - 1 {
        assert s[i] == x[i] && s[i + 1] == x[i + 1];
      } else if i < |x| {
        assert s[i + 1] == d[0];
      } else if i < |x| + |d| - 1 {
        assert s[i] == d[i - |x|] && s[i + 1] == d[i + 1 - |x|];
      } else if i < |x| + |d| {
        assert s[i] == d[|d| - 1];
      } else {
        assert s[i] == y[i - |x| - |d|] && s[i + 1] == y[i + 1 - |x| - |d|];
      }
    }
  }

  // ---------- Keys with line ends ----------

  // What the reader can find in front of a colon, and behind it.
  predicate Readable(f: Field) {
    Free(f.key, ":") && NUL !in f.key && !(CRLF <= f.key) && Clean(f.value)
  }

  // The fields read from one printed field: the key, then what is behind its first line end, and so
  // on, up to an empty line.
  function Unfold(f: Field): (fs: seq<Field>)
    ensures fs != [] && fs[0] == f
    decreases |f.key|
  {
    match Find(f.key, CRLF)
    case None => [f]
    case Some(j) =>
      var key := f.key[j + 2..];
      [f] + if CRLF <= key then [] else Unfold(Field(key, f.value))
  }

  // The reader takes an empty line inside the key for the end of the headers.
  predicate Stops(key: string)
    decreases |key|
  {
    match Find(key, CRLF)
    case None => false
    case Some(j) => CRLF <= key[j + 2..] || Stops(key[j + 2..])
  }

  lemma {:induction false} StopsIff(key: string)
    ensures Stops(key) <==> Find(key, CRLF + CRLF).Some?
    decreases |key|
  {
    hide Find;
    var b, r := Find(key, CRLF), Find(key, CRLF + CRLF);
    if r.Some? {
      BlankStartsBreak(key, r.value);
    }
    if b.Some? {
      var rest := key[b.value + 2..];
      StopsIff(rest);
      if r.Some? {
        BlankBehind(key, b.value);
      } else if CRLF <= rest || Stops(rest) {
        BlankInFront(key, b.value);
      }
    }
  }

  lemma BlankStartsBreak(s: string, i: nat)
    requires i + 4 <= |s| && s[i..i + 4] == CRLF + CRLF
    ensures Find(s, CRLF).Some? && Find(s, CRLF).value <= i
  {
    hide Find;
    assert s[i..][..2] == s[i..i + 4][..2] == CRLF;
    assert CRLF <= s[i..];
  }

  // Behind the first line end an empty line starts at once or further on.
  lemma BlankBehind(s: string, j: nat)
    requires Find(s, CRLF) == Some(j) && Find(s, CRLF + CRLF).Some?
    ensures CRLF <= s[j + 2..] || Find(s[j + 2..], CRLF + CRLF).Some?
  {
    hide Find;
    var rest, i := s[j + 2..], Find(s, CRLF + CRLF).value;
    assert s[j..j + 2] == CRLF && s[j + 1] == '\n';
    BlankStartsBreak(s, i);
    assert s[i..i + 4][0] == s[i] == '\r';
    if i == j {
      assert rest[..2] == s[i..i + 4][2..];
    } else {
      assert rest[i - j - 2..][..4] == s[i..i + 4];
      assert CRLF + CRLF <= rest[i - j - 2..];
    }
  }

  lemma BlankInFront(s: string, j: nat)
    requires Find(s, CRLF) == Some(j)
    requires CRLF <= s[j + 2..] || Find(s[j + 2..], CRLF + CRLF).Some?
    ensures Find(s, CRLF + CRLF).Some?
  {
    hide Find;
    var rest := s[j + 2..];
    if CRLF <= rest {
      var here := s[j..];
      assert here[..2] == s[j..j + 2] == CRLF && here[2..] == rest && rest == CRLF + rest[2..];
      assert here == here[..2] + here[2..];
      assert here == (CRLF + CRLF) + rest[2..];
    } else {
      var i := Find(rest, CRLF + CRLF).value;
      assert s[i + j + 2..][..4] == rest[i..i + 4];
      assert CRLF + CRLF <= s[i + j + 2..];
    }
  }

  // ---------- One field of the text ----------

  function SetAll(fields: seq<Field>, more: seq<Field>): seq<Field>
    decreases |more|
  {
    if more == [] then fields else SetAll(Set(fields, more[0].key, more[0].value), more[1..])
  }

  // A field in the text: key, colon, any character, value, line end, tail.
  function FieldText(f: Field, x: char, tail: string): string {
    f.key + ":" + [x] + f.value + CRLF + tail
  }

  lemma ColonFound(f: Field, x: char, tail: string)
    requires Free(f.key, ":")
    ensures Find(FieldText(f, x, tail), ":") == Some(|f.key|)
  {
    hide Find;
    var s, n := FieldText(f, x, tail), |f.key|;
    forall j | 0 <= j < n ensures !(":" <= s[j..]) {
      assert s[j..][0] == f.key[j] && f.key[j] in f.key;
    }
    assert s[n..n + 1] == ":";
    FindUnique(s, ":", n);
  }

  lemma FieldTextParses(f: Field, x: char, tail: string)
    requires Readable(f)
    ensures var s := FieldText(f, x, tail);
            && s != "" && !(CRLF <= s) && FieldInText(s)
            && Find(s, ":") == Some(|f.key|) && ParseField(s) == f && Find(s, CRLF).Some?
  {
    hide Find, Clean, Free;
    var s, n := FieldText(f, x, tail), |f.key|;
    ColonFound(f, x, tail);
    assert s[n + 2..] == f.value + CRLF + tail;
    CleanIsUnbroken(f.value);
    FindBreak(f.value, tail);
    assert (f.value + CRLF + tail)[..|f.value|] == f.value;
    assert s[..n] == f.key;
    LaterBreak(s, n + 2);
    KeyStart(f.key, s);
  }

  lemma LaterBreak(s: string, i: nat)
    requires i <= |s| && Find(s[i..], CRLF).Some?
    ensures Find(s, CRLF).Some?
  {
    hide Find;
    var j := Find(s[i..], CRLF).value;
    assert s[i + j..][..2] == s[i..][j..j + 2];
    assert CRLF <= s[i + j..];
  }

  lemma CleanIsUnbroken(s: string)
    requires Clean(s)
    ensures Unbroken(s)
  {
  }

  lemma KeyStart(key: string, s: string)
    requires key + ":" <= s && !(CRLF <= key)
    ensures !(CRLF <= s)
  {
    assert s[|key|] == ':';
    assert |key| >= 2 ==> s[..2] == key[..2];
  }

  // Every text with a colon, not at the end of the headers, is of that form.
  lemma IsFieldText(s: string) returns (x: char, tail: string)
    requires NUL !in s && FieldInText(s) && Find(s, ":").Some? && !(CRLF <= s)
    ensures Readable(ParseField(s)) && s == FieldText(ParseField(s), x, tail)
  {
    hide Find, Readable;
    var f, c := ParseField(s), Find(s, ":").value;
    var rest := s[c + 2..];
    x, tail := s[c + 1], rest[|f.value| + 2..];
    assert rest[|f.value|..|f.value| + 2] == CRLF;
    assert rest == f.value + CRLF + tail;
    assert s[c..c + 1] == ":";
    assert s == s[..c] + ":" + [x] + rest;
    ParsedIsReadable(s);
  }

  lemma ParsedIsReadable(s: string)
    requires NUL !in s && FieldInText(s) && Find(s, ":").Some? && !(CRLF <= s)
    ensures Readable(ParseField(s))
  {
    hide Find, Unbroken;
    var f, c := ParseField(s), Find(s, ":").value;
    UnbrokenBefore(s[c + 2..]);
    forall j | 0 <= j < c ensures s[j] != ':' {
      assert !(":" <= s[j..]);
    }
    assert forall d | d in f.key || d in f.value :: d in s;
  }

  // The first line end of a field in the text is that of its key, or else its own if a blank follows
  // the colon.
  lemma BreakInKey(f: Field, x: char, tail: string)
    requires Find(f.key, CRLF).Some?
    ensures var s, j := FieldText(f, x, tail), Find(f.key, CRLF).value;
            Find(s, CRLF) == Some(j) && s[j + 2..] == FieldText(Field(f.key[j + 2..], f.value), x, tail)
  {
    hide Find;
    var s, j := FieldText(f, x, tail), Find(f.key, CRLF).value;
    var rest := FieldText(Field(f.key[j + 2..], f.value), x, tail);
    assert f.key[j..j + 2] == CRLF;
    assert s[j..j + 2] == CRLF && s[j + 2..] == rest && s[..j] == f.key[..j];
    assert s == f.key[..j] + CRLF + rest;
    UnbrokenBefore(f.key);
    FindBreak(f.key[..j], rest);
  }

  lemma BreakBehindValue(f: Field, tail: string)
    requires Unbroken(f.key) && Unbroken(f.value)
    ensures var s, n := FieldText(f, ' ', tail), |f.key| + |f.value| + 2;
            Find(s, CRLF) == Some(n) && s[n + 2..] == tail
  {
    hide Find;
    var line := f.key + ": " + f.value;
    UnbrokenJoin(f.key, ": ", f.value);
    assert FieldText(f, ' ', tail) == line + CRLF + tail;
    FindBreak(line, tail);
  }

  lemma RestIsReadable(f: Field)
    requires Readable(f) && Find(f.key, CRLF).Some?
    requires !(CRLF <= f.key[Find(f.key, CRLF).value + 2..])
    ensures Readable(Field(f.key[Find(f.key, CRLF).value + 2..], f.value))
  {
    hide Find, Clean;
  }

  // One round of the reader.
  lemma ReadOne(f: Field, x: char, tail: string, before: seq<Field>) returns (t: string)
    requires Readable(f)
    ensures var s := FieldText(f, x, tail);
            && Find(s, CRLF).Some? && t == s[Find(s, CRLF).value + 2..] && s[|s| - |t|..] == t && |t| < |s|
            && (FieldsInText(s) <==> FieldsInText(t))
            && (FieldsInText(s) ==> ParseFields(s, before) == ParseFields(t, Set(before, f.key, f.value)))
  {
    hide Find, Readable, FieldText, ParseField, FieldInText, Set;
    var s := FieldText(f, x, tail);
    FieldTextParses(f, x, tail);
    t := s[Find(s, CRLF).value + 2..];
  }

  lemma AtHeaderEnd(s: string, fields: seq<Field>)
    requires CRLF <= s
    ensures FieldsInText(s) && ParseFields(s, fields) == Some(fields)
  {
  }

  // Reading the text s from the field f on sets all the fields f unfolds to, and goes on with t, or
  // stops in f.
  predicate Walks(f: Field, s: string, t: string, before: seq<Field>) {
    && |t| < |s| && s[|s| - |t|..] == t
    && (FieldsInText(s) <==> Stops(f.key) || FieldsInText(t))
    && (FieldsInText(s) ==>
          ParseFields(s, before) ==
          if Stops(f.key) then Some(SetAll(before, Unfold(f)))
          else ParseFields(t, SetAll(before, Unfold(f))))
  }

  lemma {:induction false} Walk(f: Field, x: char, tail: string, before: seq<Field>) returns (t: string)
    requires Readable(f)
    ensures Walks(f, FieldText(f, x, tail), t, before)
    ensures x == ' ' && !Stops(f.key) ==> t == tail
    decreases |f.key|
  {
    hide Find, Readable, FieldText, ParseFields, FieldsInText, Set, SetAll, Walks;
    var s, first := FieldText(f, x, tail), Set(before, f.key, f.value);
    t := ReadOne(f, x, tail, before);
    if Find(f.key, CRLF).Some? {
      var g := Field(f.key[Find(f.key, CRLF).value + 2..], f.value);
      BreakInKey(f, x, tail);
      if CRLF <= g.key {
        TextStartsWithKey(g, x, tail);
        WalkOnce(f, s, t, before);
      } else {
        RestIsReadable(f);
        var r := t;
        t := Walk(g, x, tail, first);
        WalkOn(f, g, s, r, t, before);
      }
    } else {
      WalkOnce(f, s, t, before);
      if x == ' ' {
        PlainBreak(f, tail);
      }
    }
  }

  lemma WalkOnce(f: Field, s: string, t: string, before: seq<Field>)
    requires |t| < |s| && s[|s| - |t|..] == t && Unfold(f) == [f]
    requires FieldsInText(s) <==> FieldsInText(t)
    requires FieldsInText(s) ==> ParseFields(s, before) == ParseFields(t, Set(before, f.key, f.value))
    requires Stops(f.key) ==> CRLF <= t
    ensures Walks(f, s, t, before)
  {
    hide ParseFields, FieldsInText, Stops, Unfold, Set, SetAll;
    var first := Set(before, f.key, f.value);
    SetOne(before, f);
    if Stops(f.key) {
      AtHeaderEnd(t, first);
    }
  }

  lemma WalkOn(f: Field, g: Field, s: string, r: string, t: string, before: seq<Field>)
    requires |r| < |s| && s[|s| - |r|..] == r
    requires Unfold(f) == [f] + Unfold(g) && (Stops(f.key) <==> Stops(g.key))
    requires FieldsInText(s) <==> FieldsInText(r)
    requires FieldsInText(s) ==> ParseFields(s, before) == ParseFields(r, Set(before, f.key, f.value))
    requires Walks(g, r, t, Set(before, f.key, f.value))
    ensures Walks(f, s, t, before)
  {
    hide ParseFields, FieldsInText, Stops, Unfold, Set;
    assert s[|s| - |r|..][|r| - |t|..] == s[|s| - |t|..];
    assert Unfold(f)[1..] == Unfold(g);
  }

  lemma PlainBreak(f: Field, tail: string)
    requires Readable(f) && Find(f.key, CRLF).None?
    ensures var s := FieldText(f, ' ', tail);
            Find(s, CRLF).Some? && s[Find(s, CRLF).value + 2..] == tail
  {
    hide Find, FieldText;
    UnbrokenIff(f.key);
    BreakBehindValue(f, tail);
  }

  lemma TextStartsWithKey(f: Field, x: char, tail: string)
    ensures f.key <= FieldText(f, x, tail)
  {
  }

  lemma SetOne(fields: seq<Field>, f: Field)
    ensures SetAll(fields, [f]) == Set(fields, f.key, f.value)
  {
    hide Set;
    assert [f][1..] == [];
  }

  // ---------- The table behind the reader ----------

  // The fields whose keys are not among those of others.
  function Drop(fields: seq<Field>, others: seq<Field>): seq<Field> {
    if fields == [] then []
    else if HasKey(others, fields[0].key) then Drop(fields[1..], others)
    else [fields[0]] + Drop(fields[1..], others)
  }

  lemma {:induction false} DropConcat(x: seq<Field>, y: seq<Field>, others: seq<Field>)
    ensures Drop(x + y, others) == Drop(x, others) + Drop(y, others)
  {
    if x == [] {
      assert x + y == y;
    } else {
      assert (x + y)[1..] == x[1..] + y;
      DropConcat(x[1..], y, others);
    }
  }

  lemma {:induction false} DropNone(fields: seq<Field>)
    ensures Drop(fields, []) == fields
  {
    if fields != [] {
      DropNone(fields[1..]);
    }
  }

  lemma {:induction false} DropOthers(fields: seq<Field>, others: seq<Field>)
    requires others != []
    ensures Drop(Others(fields, others[0].key), others[1..]) == Drop(fields, others)
  {
    if fields != [] {
      DropOthers(fields[1..], others);
    }
  }

  lemma {:induction false} DropTwice(fields: seq<Field>, x: seq<Field>, y: seq<Field>, others: seq<Field>)
    requires forall key :: HasKey(others, key) <==> HasKey(x, key) || HasKey(y, key)
    ensures Drop(Drop(fields, x), y) == Drop(fields, others)
  {
    if fields != [] {
      DropTwice(fields[1..], x, y, others);
    }
  }

  lemma {:induction false} DropKeeps(fields: seq<Field>, others: seq<Field>, key: string)
    ensures HasKey(Drop(fields, others) + others, key) <==> HasKey(fields, key) || HasKey(others, key)
  {
    if fields == [] {
      assert [] + others == others;
    } else {
      DropKeeps(fields[1..], others, key);
      var f, rest := fields[0], Drop(fields[1..], others) + others;
      if !HasKey(others, f.key) {
        assert Drop(fields, others) + others == [f] + rest;
      }
    }
  }

  lemma {:induction false} DropSubset(fields: seq<Field>, others: seq<Field>)
    ensures forall f | f in Drop(fields, others) :: f in fields
  {
    if fields != [] {
      DropSubset(fields[1..], others);
    }
  }

  // Setting fields with different keys replaces what had those keys and puts them last, in order.
  lemma {:induction false} SetAllIs(fields: seq<Field>, more: seq<Field>)
    requires UniqueKeys(fields) && UniqueKeys(more)
    ensures SetAll(fields, more) == Drop(fields, more) + more && UniqueKeys(SetAll(fields, more))
    decreases |more|
  {
    hide Set;
    if more == [] {
      DropNone(fields);
    } else {
      var f, rest := more[0], more[1..];
      SetMovesToEnd(fields, f.key, f.value);
      SetAllIs(Set(fields, f.key, f.value), rest);
      DropConcat(Others(fields, f.key), [f], rest);
      DropOthers(fields, more);
      assert Drop([f], rest) == [f] by { DropNew(f, rest); }
      assert Drop(fields, more) + [f] + rest == Drop(fields, more) + more;
    }
  }

  lemma DropNew(f: Field, others: seq<Field>)
    requires !HasKey(others, f.key)
    ensures Drop([f], others) == [f]
  {
    assert [f][1..] == [];
  }

  lemma {:induction false} UnfoldUnique(f: Field)
    ensures UniqueKeys(Unfold(f))
    ensures forall key | HasKey(Unfold(f), key) :: |key| <= |f.key|
    decreases |f.key|
  {
    hide Find;
    if Find(f.key, CRLF).Some? && !(CRLF <= f.key[Find(f.key, CRLF).value + 2..]) {
      var g := Field(f.key[Find(f.key, CRLF).value + 2..], f.value);
      UnfoldUnique(g);
      assert Unfold(f)[1..] == Unfold(g);
    }
  }

  lemma {:induction false} UnfoldReadable(f: Field)
    requires Readable(f)
    ensures forall g | g in Unfold(f) :: Readable(g)
    decreases |f.key|
  {
    hide Find, Readable;
    if Find(f.key, CRLF).Some? && !(CRLF <= f.key[Find(f.key, CRLF).value + 2..]) {
      RestIsReadable(f);
      UnfoldReadable(Field(f.key[Find(f.key, CRLF).value + 2..], f.value));
    }
  }

  // ---------- Settled tables ----------

  ghost predicate Follows(x: seq<Field>, y: seq<Field>) {
    forall key | HasKey(x, key) :: HasKey(y, key)
  }

  // Whatever is read along with a field comes after it again; a field the reader stops in is followed
  // by exactly what is read with it.
  ghost predicate Settled(fields: seq<Field>) {
    fields == [] ||
    if Stops(fields[0].key) then fields == Unfold(fields[0])
    else Follows(Unfold(fields[0])[1..], fields[1..]) && Settled(fields[1..])
  }

  predicate Running(fields: seq<Field>) {
    forall f | f in fields :: !Stops(f.key)
  }

  lemma {:induction false} PlainKeysSettle(fields: seq<Field>)
    requires forall f | f in fields :: Unbroken(f.key)
    ensures Settled(fields) && Running(fields)
  {
    hide Find, Unbroken;
    if fields != [] {
      PlainKeysSettle(fields[1..]);
      UnbrokenIff(fields[0].key);
      assert Unfold(fields[0])[1..] == [];
    }
  }

  lemma {:induction false} UnfoldSettled(f: Field)
    ensures Settled(Unfold(f)) && (!Stops(f.key) ==> Running(Unfold(f)))
    decreases |f.key|
  {
    hide Find;
    if Find(f.key, CRLF).Some? && !(CRLF <= f.key[Find(f.key, CRLF).value + 2..]) {
      var g := Field(f.key[Find(f.key, CRLF).value + 2..], f.value);
      UnfoldSettled(g);
      assert Unfold(f)[1..] == Unfold(g);
    } else {
      assert Unfold(f)[1..] == [];
    }
  }

  lemma {:induction false} JoinSettled(fields: seq<Field>, f: Field)
    requires Settled(fields) && Running(fields)
    ensures Settled(Drop(fields, Unfold(f)) + Unfold(f))
    ensures !Stops(f.key) ==> Running(Drop(fields, Unfold(f)) + Unfold(f))
  {
    hide Unfold, Stops, HasKey;
    var more := Unfold(f);
    UnfoldSettled(f);
    DropSubset(fields, more);
    if fields == [] {
      assert Drop(fields, more) + more == more;
    } else {
      JoinSettled(fields[1..], f);
      var x, rest := fields[0], Drop(fields[1..], more) + more;
      if !HasKey(more, x.key) {
        assert Drop(fields, more) + more == [x] + rest;
        forall key | HasKey(Unfold(x)[1..], key) ensures HasKey(rest, key) {
          DropKeeps(fields[1..], more, key);
        }
      }
    }
  }

  // A table filled by the reader is settled.
  lemma {:induction false} ParsedIsSettled(s: string, before: seq<Field>)
    requires NUL !in s && FieldsInText(s) && ParseFields(s, before).Some?
    requires UniqueKeys(before) && Settled(before) && Running(before)
    requires forall f | f in before :: Readable(f)
    ensures var fields := ParseFields(s, before).value;
            UniqueKeys(fields) && Settled(fields) && forall f | f in fields :: Readable(f)
    decreases |s|
  {
    hide Find, Readable, FieldText, Settled, Running, Stops, Unfold, UniqueKeys, ParseField, Drop;
    if s != "" && !(CRLF <= s) {
      var f := ParseField(s);
      var x, tail := IsFieldText(s);
      var t := Walk(f, x, tail, before);
      JoinRead(before, f);
      if !Stops(f.key) {
        assert forall d | d in t :: d in s[|s| - |t|..];
        ParsedIsSettled(t, SetAll(before, Unfold(f)));
      }
    }
  }

  lemma JoinRead(before: seq<Field>, f: Field)
    requires UniqueKeys(before) && Settled(before) && Running(before) && Readable(f)
    requires forall g | g in before :: Readable(g)
    ensures var after := SetAll(before, Unfold(f));
            && UniqueKeys(after) && Settled(after) && (!Stops(f.key) ==> Running(after))
            && forall g | g in after :: Readable(g)
  {
    hide Readable, Settled, Running, Stops, Unfold, UniqueKeys, Drop, SetAll;
    UnfoldUnique(f);
    SetAllIs(before, Unfold(f));
    JoinSettled(before, f);
    UnfoldReadable(f);
    DropSubset(before, Unfold(f));
  }

  // ---------- Reading what was printed ----------

  function Read(before: seq<Field>, fields: seq<Field>): seq<Field>
    decreases |fields|
  {
    if fields == [] then before
    else
      var after := SetAll(before, Unfold(fields[0]));
      if Stops(fields[0].key) then after else Read(after, fields[1..])
  }

  lemma {:induction false} PrintedRead(fields: seq<Field>, before: seq<Field>)
    requires forall f | f in fields :: Readable(f)
    ensures FieldsInText(PrintFields(fields))
    ensures ParseFields(PrintFields(fields), before) == Some(Read(before, fields))
    decreases |fields|
  {
    hide Find, Readable, FieldText, Stops, Unfold, SetAll, ParseFields, FieldsInText;
    var s := PrintFields(fields);
    if fields == [] {
      AtHeaderEnd(s, before);
    } else {
      var f, tail := fields[0], PrintFields(fields[1..]);
      PrintedIsText(f, tail);
      var t := Walk(f, ' ', tail, before);
      PrintedRead(fields[1..], SetAll(before, Unfold(f)));
    }
  }

  lemma PrintedIsText(f: Field, tail: string)
    ensures PrintField(f) + tail == FieldText(f, ' ', tail)
  {
    assert ": " == ":" + [' '];
  }

  // A settled table comes back, behind what was there under other keys.
  lemma {:induction false} ReadSettled(before: seq<Field>, fields: seq<Field>)
    requires UniqueKeys(before) && UniqueKeys(fields) && Settled(fields)
    ensures Read(before, fields) == Drop(before, fields) + fields
    decreases |fields|
  {
    hide Unfold, Stops, Drop, SetAll;
    if fields == [] {
      DropNone(before);
    } else {
      var f, rest, more := fields[0], fields[1..], Unfold(fields[0]);
      UnfoldUnique(f);
      SetAllIs(before, more);
      if !Stops(f.key) {
        ReadSettled(SetAll(before, more), rest);
        DropConcat(Drop(before, more), more, rest);
        DropTwice(before, more, rest, fields);
        DropRead(f, more[1..], rest);
        assert more == [f] + more[1..];
        assert Drop(before, fields) + [f] + rest == Drop(before, fields) + fields;
      }
    }
  }

  lemma DropRead(f: Field, more: seq<Field>, rest: seq<Field>)
    requires !HasKey(rest, f.key) && Follows(more, rest)
    ensures Drop([f] + more, rest) == [f]
  {
    hide HasKey;
    DropFollowing(more, rest);
    assert ([f] + more)[1..] == more;
  }

  lemma {:induction false} DropFollowing(more: seq<Field>, rest: seq<Field>)
    requires Follows(more, rest)
    ensures Drop(more, rest) == []
  {
    if more != [] {
      assert forall key | HasKey(more[1..], key) :: HasKey(more, key);
      DropFollowing(more[1..], rest);
      assert HasKey(more, more[0].key);
    }
  }

  // Once the reader stops, the last field it has read has a line end in its key.
  lemma {:induction false} ReadStops(before: seq<Field>, fields: seq<Field>)
    requires UniqueKeys(before) && !Running(fields)
    ensures var r := Read(before, fields); r != [] && !Unbroken(r[|r| - 1].key)
    decreases |fields|
  {
    hide Unfold, Stops, Drop, SetAll, Unbroken, UniqueKeys;
    var f := fields[0];
    UnfoldUnique(f);
    SetAllIs(before, Unfold(f));
    if Stops(f.key) {
      LastIsBroken(f);
    } else {
      ReadStops(SetAll(before, Unfold(f)), fields[1..]);
    }
  }

  lemma {:induction false} LastIsBroken(f: Field)
    requires Stops(f.key)
    ensures var fs := Unfold(f); !Unbroken(fs[|fs| - 1].key)
    decreases |f.key|
  {
    hide Find, Unbroken;
    UnbrokenIff(f.key);
    var g := Field(f.key[Find(f.key, CRLF).value + 2..], f.value);
    if !(CRLF <= g.key) {
      LastIsBroken(g);
      LastOf(f, Unfold(g));
    }
  }

  lemma LastOf(f: Field, fs: seq<Field>)
    requires fs != []
    ensures ([f] + fs)[|[f] + fs| - 1] == fs[|fs| - 1]
  {
  }
}
