/**
 * `Config#[]`: a dotted key is split on "." and folded over the merged values,
 * each step being `v[k] if v` (lib/razor/config.rb:29-31).
 */
module DottedLookup {
  import opened Values
  import opened Text

  /** One step of the fold: index a Hash, or stay `nil` once the value is falsy. */
  function Step(v: Value, k: string): (r: Value)
    requires MapOrFalsy(v)
    ensures v.Map? && k in v.entries ==> r == v.entries[k]
    ensures !Truthy(v) || (v.Map? && k !in v.entries) ==> r == Nil
  {
    if v.Map? then At(v.entries, k) else Nil
  }

  /**
   * The walk never indexes a truthy value that is not a Hash (on a String Ruby
   * would take a substring, on an Integer or Array it would raise).
   */
  predicate Walkable(v: Value, keys: seq<string>): (ok: bool)
    ensures !Truthy(v) ==> ok
    ensures ok && keys != [] ==> MapOrFalsy(v)
    decreases |keys|
  {
    keys == [] || (MapOrFalsy(v) && Walkable(Step(v, keys[0]), keys[1..]))
  }

  /** `keys.inject(v) { |v, k| v[k] if v }`. */
  function Walk(v: Value, keys: seq<string>): (r: Value)
    requires Walkable(v, keys)
    ensures keys == [] ==> r == v
    ensures keys != [] && !Truthy(v) ==> r == Nil
    decreases |keys|
  {
    if keys == [] then v else Walk(Step(v, keys[0]), keys[1..])
  }

  /** `self[key]` over the merged values. */
  function Lookup(values: map<string, Value>, key: string): (r: Value)
    requires Walkable(Map(values), Split(key, '.'))
    ensures Split(key, '.') == [] ==> r == Map(values)
  {
    Walk(Map(values), Split(key, '.'))
  }

  /** Walking a concatenation of key lists is walking the first, then the second from where it ended. */
  lemma {:induction false} WalkAppend(v: Value, ks: seq<string>, ls: seq<string>)
    ensures Walkable(v, ks + ls) <==> Walkable(v, ks) && Walkable(Walk(v, ks), ls)
    ensures Walkable(v, ks + ls) ==> Walk(v, ks + ls) == Walk(Walk(v, ks), ls)
    decreases |ks|
  {
    if ks == [] {
      assert ks + ls == ls;
    } else {
      assert (ks + ls)[0] == ks[0];
      assert (ks + ls)[1..] == ks[1..] + ls;
      if MapOrFalsy(v) {
        WalkAppend(Step(v, ks[0]), ks[1..], ls);
      }
    }
  }

  /** A non-empty key without a dot is a plain top-level Hash lookup. */
  lemma LookupPlainKey(values: map<string, Value>, key: string)
    requires key != "" && '.' !in key
    ensures Walkable(Map(values), Split(key, '.'))
    ensures Lookup(values, key) == At(values, key)
  {
    SplitWithoutSeparator(key, '.');
    assert Split(key, '.') == [key];
    assert Walk(Map(values), [key]) == Walk(At(values, key), [key][1..]);
    assert [key][1..] == [];
  }

  /**
   * `self["a.b"]` is `self["a"]["b"]`: for a top-level key `a` and a final key
   * `b`, neither holding a dot and `b` non-empty, the dotted lookup is one more
   * step from the lookup of `a`.
   */
  lemma DottedIsNested(values: map<string, Value>, a: string, b: string)
    requires a != "" && '.' !in a && b != "" && '.' !in b
    ensures Walkable(Map(values), Split(a, '.')) && Lookup(values, a) == At(values, a)
    ensures Walkable(Map(values), Split(a + "." + b, '.')) <==> MapOrFalsy(At(values, a))
    ensures MapOrFalsy(At(values, a)) ==>
              Lookup(values, a + "." + b) == Step(Lookup(values, a), b)
  {
    SplitWithoutSeparator(b, '.');
    SplitAround(a, b, '.');
    FieldsWithoutSeparator(a, '.');
    LookupPlainKey(values, a);
    var ks := Split(a + "." + b, '.');
    assert ks == [a, b];
    assert ks[1..] == [b] && [b][1..] == [];
    var x := At(values, a);
    assert Walkable(Map(values), ks) <==> Walkable(x, [b]);
    assert Walkable(x, [b]) <==> MapOrFalsy(x);
    if MapOrFalsy(x) {
      assert Walk(Map(values), ks) == Walk(x, [b]) == Walk(Step(x, b), []);
    }
  }

  /**
   * Lookup of `a` + "." + `rest` continues from the walk over every field of
   * `a` with the split of `rest`: the fold composes along the dotted key.
   */
  lemma LookupComposes(values: map<string, Value>, a: string, rest: string)
    requires Split(rest, '.') != []
    ensures Walkable(Map(values), Split(a + "." + rest, '.')) <==>
              Walkable(Map(values), Fields(a, '.')) &&
              Walkable(Walk(Map(values), Fields(a, '.')), Split(rest, '.'))
    ensures Walkable(Map(values), Split(a + "." + rest, '.')) ==>
              Lookup(values, a + "." + rest) ==
              Walk(Walk(Map(values), Fields(a, '.')), Split(rest, '.'))
  {
    SplitAround(a, rest, '.');
    WalkAppend(Map(values), Fields(a, '.'), Split(rest, '.'));
  }

  /** A top-level key that is absent, nil or false makes every dotted key below it read as nil. */
  lemma {:induction false} LookupBelowFalsy(values: map<string, Value>, a: string, rest: string)
    requires a != "" && '.' !in a && !Truthy(At(values, a))
    requires Split(rest, '.') != []
    ensures Walkable(Map(values), Split(a + "." + rest, '.'))
    ensures Lookup(values, a + "." + rest) == Nil
  {
    FieldsWithoutSeparator(a, '.');
    LookupComposes(values, a, rest);
    assert Walk(Map(values), [a]) == At(values, a) by {
      assert [a][1..] == [];
    }
  }

  /** The empty key splits into no segments, so `self[""]` is the whole merged Hash. */
  lemma LookupEmptyKey(values: map<string, Value>)
    ensures Walkable(Map(values), Split("", '.'))
    ensures Lookup(values, "") == Map(values)
  {
  }
}
