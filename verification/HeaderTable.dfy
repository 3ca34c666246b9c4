// The header table of proxy_parse.c: live slots and tombstones, and the ordered map they stand for.

module HeaderTable {
  import opened Machine

  datatype Field = Field(key: string, value: string)

  // A slot of the headers array; removing a header clears its key and leaves the slot in place.
  datatype Slot = Slot(key: Option<string>, value: string)

  // ---------- The ordered map ----------

  predicate HasKey(fields: seq<Field>, key: string) {
    fields != [] && (fields[0].key == key || HasKey(fields[1..], key))
  }

  predicate UniqueKeys(fields: seq<Field>) {
    fields == [] || (!HasKey(fields[1..], fields[0].key) && UniqueKeys(fields[1..]))
  }

  // The value of the first field with the key.
  function Lookup(fields: seq<Field>, key: string): Option<string> {
    if fields == [] then None
    else if fields[0].key == key then Some(fields[0].value)
    else Lookup(fields[1..], key)
  }

  // Drops the first field with the key.
  function Remove(fields: seq<Field>, key: string): seq<Field> {
    if fields == [] then []
    else if fields[0].key == key then fields[1..]
    else [fields[0]] + Remove(fields[1..], key)
  }

  // The fields with another key, in order.
  function Others(fields: seq<Field>, key: string): seq<Field> {
    if fields == [] then []
    else if fields[0].key == key then Others(fields[1..], key)
    else [fields[0]] + Others(fields[1..], key)
  }

  function Set(fields: seq<Field>, key: string, value: string): seq<Field> {
    Remove(fields, key) + [Field(key, value)]
  }

  lemma {:induction false} HasKeyIff(fields: seq<Field>, key: string)
    ensures HasKey(fields, key) <==> exists i | 0 <= i < |fields| :: fields[i].key == key
    ensures HasKey(fields, key) <==> Lookup(fields, key).Some?
  {
    if fields != [] {
      HasKeyIff(fields[1..], key);
      assert forall i | 0 < i < |fields| :: fields[i] == fields[1..][i - 1];
    }
  }

  lemma {:induction false} HasKeyConcat(x: seq<Field>, y: seq<Field>, key: string)
    ensures HasKey(x + y, key) <==> HasKey(x, key) || HasKey(y, key)
  {
    if x == [] {
      assert x + y == y;
    } else {
      assert (x + y)[1..] == x[1..] + y;
      HasKeyConcat(x[1..], y, key);
    }
  }

  lemma {:induction false} RemoveAbsent(fields: seq<Field>, key: string)
    requires !HasKey(fields, key)
    ensures Remove(fields, key) == fields == Others(fields, key)
  {
    if fields != [] {
      RemoveAbsent(fields[1..], key);
    }
  }

  // Removing takes out one position and shifts the rest up.
  lemma {:induction false} RemoveAt(fields: seq<Field>, i: nat)
    requires UniqueKeys(fields) && i < |fields|
    ensures Remove(fields, fields[i].key) == fields[..i] + fields[i + 1..]
  {
    if i > 0 {
      HasKeyIff(fields[1..], fields[0].key);
      assert fields[1..][i - 1] == fields[i];
      RemoveAt(fields[1..], i - 1);
    }
  }

  // Removing a key keeps the other fields and their order.
  lemma {:induction false} RemoveKeepsOthers(fields: seq<Field>, key: string)
    requires UniqueKeys(fields)
    ensures Remove(fields, key) == Others(fields, key)
    ensures UniqueKeys(Remove(fields, key)) && !HasKey(Remove(fields, key), key)
    ensures forall other | other != key :: HasKey(Remove(fields, key), other) <==> HasKey(fields, other)
  {
    if fields != [] {
      RemoveKeepsOthers(fields[1..], key);
      if fields[0].key == key {
        RemoveAbsent(fields[1..], key);
      } else {
        assert Remove(fields, key)[1..] == Remove(fields[1..], key);
      }
    }
  }

  lemma {:induction false} AppendKeepsUnique(fields: seq<Field>, f: Field)
    requires UniqueKeys(fields) && !HasKey(fields, f.key)
    ensures UniqueKeys(fields + [f])
  {
    if fields != [] {
      assert (fields + [f])[1..] == fields[1..] + [f];
      AppendKeepsUnique(fields[1..], f);
      HasKeyConcat(fields[1..], [f], fields[0].key);
      assert [f][1..] == [];
    }
  }

  // Setting a key keeps the keys unique and moves the key to the end.
  lemma SetMovesToEnd(fields: seq<Field>, key: string, value: string)
    requires UniqueKeys(fields)
    ensures UniqueKeys(Set(fields, key, value))
    ensures Set(fields, key, value) == Others(fields, key) + [Field(key, value)]
  {
    RemoveKeepsOthers(fields, key);
    AppendKeepsUnique(Remove(fields, key), Field(key, value));
  }

  // Set and get behave like an update of a finite map.
  lemma LookupAfterSet(fields: seq<Field>, key: string, value: string, other: string)
    requires UniqueKeys(fields)
    ensures Lookup(Set(fields, key, value), other) == if other == key then Some(value) else Lookup(fields, other)
  {
    RemoveKeepsOthers(fields, key);
    LookupAppend(Remove(fields, key), Field(key, value), other);
    HasKeyIff(Remove(fields, key), key);
    if other != key {
      LookupOthers(fields, key, other);
    }
  }

  lemma {:induction false} LookupAppend(fields: seq<Field>, f: Field, key: string)
    ensures Lookup(fields + [f], key) ==
            if Lookup(fields, key).Some? then Lookup(fields, key) else if f.key == key then Some(f.value) else None
  {
    if fields == [] {
      assert [] + [f] == [f] && [f][1..] == [];
    } else {
      assert (fields + [f])[1..] == fields[1..] + [f];
      LookupAppend(fields[1..], f, key);
    }
  }

  lemma {:induction false} LookupOthers(fields: seq<Field>, key: string, other: string)
    requires other != key
    ensures Lookup(Others(fields, key), other) == Lookup(fields, other)
  {
    if fields != [] {
      LookupOthers(fields[1..], key, other);
      if fields[0].key != key {
        assert Others(fields, key)[1..] == Others(fields[1..], key);
      }
    }
  }

  // Remove then set, as the proxy does for "Connection": one such field, and it is the last one.
  lemma RemoveThenSet(fields: seq<Field>, key: string, value: string)
    requires UniqueKeys(fields)
    ensures var r := Set(Remove(fields, key), key, value);
            && r == Set(fields, key, value)
            && r[|r| - 1] == Field(key, value)
            && r[..|r| - 1] == Others(fields, key) && !HasKey(r[..|r| - 1], key)
  {
    RemoveKeepsOthers(fields, key);
    RemoveAbsent(Remove(fields, key), key);
  }

  // ---------- Slots ----------

  function Live(slots: seq<Slot>): seq<Field> {
    if slots == [] then []
    else if slots[0].key.None? then Live(slots[1..])
    else [Field(slots[0].key.value, slots[0].value)] + Live(slots[1..])
  }

  lemma {:induction false} LiveAppend(slots: seq<Slot>, s: Slot)
    ensures Live(slots + [s]) == Live(slots) + if s.key.Some? then [Field(s.key.value, s.value)] else []
  {
    if slots == [] {
      assert [] + [s] == [s] && [s][1..] == [];
    } else {
      assert (slots + [s])[1..] == slots[1..] + [s];
      LiveAppend(slots[1..], s);
    }
  }

  // The first slot with the key holds the value of the map, and clearing it removes the key.
  lemma {:induction false} FirstSlot(slots: seq<Slot>, i: nat, key: string, junk: string)
    requires i < |slots| && slots[i].key == Some(key)
    requires forall j | 0 <= j < i :: slots[j].key != Some(key)
    ensures Lookup(Live(slots), key) == Some(slots[i].value)
    ensures Live(slots[i := Slot(None, junk)]) == Remove(Live(slots), key)
  {
    var cleared := slots[i := Slot(None, junk)];
    if slots[0].key.Some? {
      assert Live(slots)[1..] == Live(slots[1..]);
    }
    if i == 0 {
      assert cleared[1..] == slots[1..];
    } else {
      assert cleared[1..] == slots[1..][i - 1 := Slot(None, junk)];
      FirstSlot(slots[1..], i - 1, key, junk);
    }
  }

  // No slot with the key: the map does not have it.
  lemma {:induction false} NoSlot(slots: seq<Slot>, key: string)
    requires forall j | 0 <= j < |slots| :: slots[j].key != Some(key)
    ensures Lookup(Live(slots), key) == None && Remove(Live(slots), key) == Live(slots)
  {
    if slots != [] {
      NoSlot(slots[1..], key);
      if slots[0].key.Some? {
        assert Live(slots)[1..] == Live(slots[1..]);
      }
    }
  }
}
