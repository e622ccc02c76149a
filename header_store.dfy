/**
 * The header store that the response wraps: an ordered multi-map from header
 * names to values. Names compare ASCII case-insensitively, as HTTP header
 * names do. `Append`, `Replace`, `ReplaceAll` and `Remove` are the store's
 * add, set(name, value), set(name, values) and remove.
 */
module HeaderStore {
  import opened Wrappers

  /** One header line: a name and one of its values. */
  datatype Header = Header(name: string, value: string)

  function LowerChar(c: char): (r: char) {
    if 'A' <= c <= 'Z' then (c as int + 32) as char else c
  }

  function LowerAscii(s: string): (r: string)
    ensures |r| == |s|
  {
    seq(|s|, i requires 0 <= i < |s| => LowerChar(s[i]))
  }

  /** Header names are equal when they agree up to ASCII letter case. */
  predicate NameEquals(a: string, b: string) {
    LowerAscii(a) == LowerAscii(b)
  }

  /**
   * Whether some line of the store carries the given name: exactly when the
   * name, lower-cased, is among the store's lower-cased names.
   */
  predicate Contains(h: seq<Header>, name: string)
    ensures Contains(h, name) <==> LowerAscii(name) in (set i | 0 <= i < |h| :: LowerAscii(h[i].name))
  {
    exists i :: 0 <= i < |h| && NameEquals(h[i].name, name)
  }

  /**
   * All values stored under a name, in insertion order: one value for each
   * line carrying the name, which are exactly the lines `Remove` drops.
   */
  function GetAll(h: seq<Header>, name: string): (r: seq<string>)
    ensures |r| + |Remove(h, name)| == |h|
    decreases |h|
  {
    if h == [] then []
    else GetAll(h[..|h| - 1], name) + (if NameEquals(h[|h| - 1].name, name) then [h[|h| - 1].value] else [])
  }

  /** The first value stored under a name, if any. */
  function Get(h: seq<Header>, name: string): (r: Option<string>)
    ensures r.Some? <==> Contains(h, name)
    ensures r.Some? ==> GetAll(h, name) != [] && r.value == GetAll(h, name)[0]
  {
    ContainsIffValues(h, name);
    var values := GetAll(h, name);
    if values == [] then None else Some(values[0])
  }

  /** Every line whose name differs from `name`, in order. */
  function Remove(h: seq<Header>, name: string): (r: seq<Header>)
  {
    if h == [] then []
    else Remove(h[..|h| - 1], name) + (if NameEquals(h[|h| - 1].name, name) then [] else [h[|h| - 1]])
  }

  function Append(h: seq<Header>, name: string, value: string): (r: seq<Header>) {
    h + [Header(name, value)]
  }

  function Lines(name: string, values: seq<string>): (r: seq<Header>)
    ensures |r| == |values|
  {
    seq(|values|, i requires 0 <= i < |values| => Header(name, values[i]))
  }

  function Replace(h: seq<Header>, name: string, value: string): (r: seq<Header>) {
    Remove(h, name) + [Header(name, value)]
  }

  function ReplaceAll(h: seq<Header>, name: string, values: seq<string>): (r: seq<Header>) {
    Remove(h, name) + Lines(name, values)
  }

  // ---------------------------------------------------------------------------
  // What each store operation does to the values seen under every name.

  lemma {:induction false} ValuesOfConcat(a: seq<Header>, b: seq<Header>, name: string)
    ensures GetAll(a + b, name) == GetAll(a, name) + GetAll(b, name)
    decreases |b|
  {
    if b == [] {
      assert a + b == a;
    } else {
      var b' := b[..|b| - 1];
      assert (a + b)[..|a + b| - 1] == a + b';
      ValuesOfConcat(a, b', name);
    }
  }

  lemma {:induction false} ContainsIffValues(h: seq<Header>, name: string)
    ensures Contains(h, name) <==> GetAll(h, name) != []
    decreases |h|
  {
    if h != [] {
      var h' := h[..|h| - 1];
      ContainsIffValues(h', name);
      if Contains(h', name) {
        var i :| 0 <= i < |h'| && NameEquals(h'[i].name, name);
        assert h[i] == h'[i];
      }
      if Contains(h, name) && !NameEquals(h[|h| - 1].name, name) {
        var i :| 0 <= i < |h| && NameEquals(h[i].name, name);
        assert i < |h'| && h'[i] == h[i];
      }
    }
  }

  /** Removing a name drops exactly its values and keeps every other name's. */
  lemma {:induction false} ValuesAfterRemove(h: seq<Header>, name: string, other: string)
    ensures GetAll(Remove(h, name), other) == if NameEquals(name, other) then [] else GetAll(h, other)
    decreases |h|
  {
    if h != [] {
      var h' := h[..|h| - 1];
      var last := h[|h| - 1];
      ValuesAfterRemove(h', name, other);
      var kept := if NameEquals(last.name, name) then [] else [last];
      ValuesOfConcat(Remove(h', name), kept, other);
    }
  }

  lemma {:induction false} ValuesOfLines(name: string, values: seq<string>, other: string)
    ensures GetAll(Lines(name, values), other) == if NameEquals(name, other) then values else []
    decreases |values|
  {
    if values != [] {
      var v' := values[..|values| - 1];
      assert Lines(name, values)[..|values| - 1] == Lines(name, v');
      ValuesOfLines(name, v', other);
    }
  }

  /** add(name, value): the value joins the end of that name's values; other names are untouched. */
  lemma AppendAddsValue(h: seq<Header>, name: string, value: string, other: string)
    ensures GetAll(Append(h, name, value), other)
         == GetAll(h, other) + (if NameEquals(name, other) then [value] else [])
  {
    assert Append(h, name, value)[..|h|] == h;
  }

  /** set(name, value): the name's values become exactly `[value]`; other names are untouched. */
  lemma {:induction false} ReplaceSetsValue(h: seq<Header>, name: string, value: string, other: string)
    ensures GetAll(Replace(h, name, value), other) == if NameEquals(name, other) then [value] else GetAll(h, other)
  {
    ValuesOfConcat(Remove(h, name), [Header(name, value)], other);
    ValuesAfterRemove(h, name, other);
    assert [Header(name, value)][..0] == [];
  }

  /** set(name, values): the name's values become exactly `values`; other names are untouched. */
  lemma {:induction false} ReplaceAllSetsValues(h: seq<Header>, name: string, values: seq<string>, other: string)
    ensures GetAll(ReplaceAll(h, name, values), other) == if NameEquals(name, other) then values else GetAll(h, other)
  {
    ValuesOfConcat(Remove(h, name), Lines(name, values), other);
    ValuesAfterRemove(h, name, other);
    ValuesOfLines(name, values, other);
  }

  /** Presence of a name after each store operation, derived from the value lemmas. */
  lemma {:induction false} ContainsAfterOperations(h: seq<Header>, name: string, value: string,
                                                   values: seq<string>, copied: seq<Header>, other: string)
    ensures Contains(Append(h, name, value), other) <==> Contains(h, other) || NameEquals(name, other)
    ensures Contains(Replace(h, name, value), other) <==> Contains(h, other) || NameEquals(name, other)
    ensures Contains(ReplaceAll(h, name, values), other)
        <==> if NameEquals(name, other) then values != [] else Contains(h, other)
    ensures Contains(Remove(h, name), other) <==> Contains(h, other) && !NameEquals(name, other)
    ensures Contains(h + copied, other) <==> Contains(h, other) || Contains(copied, other)
  {
    ContainsIffValues(h, other);
    ContainsIffValues(copied, other);
    AppendAddsValue(h, name, value, other);
    ContainsIffValues(Append(h, name, value), other);
    ReplaceSetsValue(h, name, value, other);
    ContainsIffValues(Replace(h, name, value), other);
    ReplaceAllSetsValues(h, name, values, other);
    ContainsIffValues(ReplaceAll(h, name, values), other);
    ValuesAfterRemove(h, name, other);
    ContainsIffValues(Remove(h, name), other);
    ValuesOfConcat(h, copied, other);
    ContainsIffValues(h + copied, other);
  }
}
