/**
 * The string operations the configuration code leans on: Ruby's `String#split`
 * with a one-character separator (which drops trailing empty fields),
 * `Array#join`, and a prefix test.
 */
module Text {

  /** Every field between occurrences of `sep`, empty ones included (split with limit -1). */
  function Fields(s: string, sep: char): (r: seq<string>)
    ensures |r| >= 1
    ensures forall i :: 0 <= i < |r| ==> sep !in r[i]
  {
    if s == [] then [""] else Push(s[0], Fields(s[1..], sep), sep)
  }

  /** The fields of a string after one more character is put in front of it. */
  function Push(c: char, fs: seq<string>, sep: char): (r: seq<string>)
    requires |fs| >= 1
    ensures |r| >= 1
    ensures (forall i :: 0 <= i < |fs| ==> sep !in fs[i]) ==> forall i :: 0 <= i < |r| ==> sep !in r[i]
  {
    if c == sep then [""] + fs else [[c] + fs[0]] + fs[1..]
  }

  /** The longest prefix of `xs` that does not end in an empty string. */
  function DropTrailingEmpty(xs: seq<string>): (r: seq<string>)
    ensures r <= xs
    ensures r == [] || r[|r| - 1] != ""
    ensures forall i :: |r| <= i < |xs| ==> xs[i] == ""
  {
    if xs == [] then []
    else if xs[|xs| - 1] == "" then DropTrailingEmpty(xs[..|xs| - 1])
    else xs
  }

  /** `s.split(sep)` for a one-character, non-space separator. */
  function Split(s: string, sep: char): (r: seq<string>)
    requires sep != ' '
    ensures r <= Fields(s, sep)
    ensures r == [] || r[|r| - 1] != ""
    ensures forall i :: |r| <= i < |Fields(s, sep)| ==> Fields(s, sep)[i] == ""
    ensures forall i :: 0 <= i < |r| ==> sep !in r[i]
  {
    DropTrailingEmpty(Fields(s, sep))
  }

  /** `xs.join(sep)`. */
  function Join(xs: seq<string>, sep: string): (r: string)
    ensures xs == [] ==> r == ""
    ensures |xs| == 1 ==> r == xs[0]
    ensures xs != [] ==> xs[0] <= r
  {
    if xs == [] then ""
    else if |xs| == 1 then xs[0]
    else xs[0] + sep + Join(xs[1..], sep)
  }

  /** `s.start_with?("/")`. */
  predicate StartsWithSlash(s: string): (ok: bool)
    ensures ok <==> "/" <= s
  {
    |s| > 0 && s[0] == '/'
  }

  /** Joining the fields with the separator gives back the string: nothing is lost by splitting. */
  lemma {:induction false} JoinFields(s: string, sep: char)
    ensures Join(Fields(s, sep), [sep]) == s
  {
    if s != [] {
      var rest := Fields(s[1..], sep);
      JoinFields(s[1..], sep);
      var r := Push(s[0], rest, sep);
      assert Fields(s, sep) == r;
      if s[0] == sep {
        assert r[1..] == rest;
      } else if |rest| > 1 {
        assert r[1..] == rest[1..];
        assert Join(rest, [sep]) == rest[0] + [sep] + Join(rest[1..], [sep]);
      }
    }
  }

  /** A string without the separator is a single field. */
  lemma {:induction false} FieldsWithoutSeparator(s: string, sep: char)
    requires sep !in s
    ensures Fields(s, sep) == [s]
  {
    if s != [] {
      assert sep !in s[1..] by {
        forall i | 0 <= i < |s[1..]| ensures s[1..][i] != sep {
          assert s[1..][i] == s[i + 1];
        }
      }
      FieldsWithoutSeparator(s[1..], sep);
      assert [s[0]] + s[1..] == s;
    }
  }

  /** Splitting at one separator concatenates the fields of both sides. */
  lemma {:induction false} FieldsAround(a: string, b: string, sep: char)
    ensures Fields(a + [sep] + b, sep) == Fields(a, sep) + Fields(b, sep)
    decreases |a|
  {
    var s := a + [sep] + b;
    if a == [] {
      assert s[0] == sep && s[1..] == b;
    } else {
      assert s[0] == a[0] && s[1..] == a[1..] + [sep] + b;
      FieldsAround(a[1..], b, sep);
      PushAppend(a[0], Fields(a[1..], sep), Fields(b, sep), sep);
    }
  }

  /** Putting a character in front only touches the first fields, never the ones appended after. */
  lemma PushAppend(c: char, xs: seq<string>, ys: seq<string>, sep: char)
    requires |xs| >= 1
    ensures Push(c, xs + ys, sep) == Push(c, xs, sep) + ys
  {
    if c != sep {
      assert (xs + ys)[0] == xs[0] && (xs + ys)[1..] == xs[1..] + ys;
    }
  }

  /** Appending one more element to a non-empty join adds the separator and that element. */
  lemma {:induction false} JoinSnoc(xs: seq<string>, y: string, sep: string)
    requires xs != []
    ensures Join(xs + [y], sep) == Join(xs, sep) + sep + y
  {
    if |xs| == 1 {
      assert (xs + [y])[1..] == [y];
    } else {
      assert (xs + [y])[1..] == xs[1..] + [y];
      JoinSnoc(xs[1..], y, sep);
    }
  }

  /** Trailing empties of a suffix that is not all empty never reach into the prefix. */
  lemma {:induction false} DropTrailingEmptyAppend(xs: seq<string>, ys: seq<string>)
    requires DropTrailingEmpty(ys) != []
    ensures DropTrailingEmpty(xs + ys) == xs + DropTrailingEmpty(ys)
  {
    var n := |ys|;
    assert (xs + ys)[|xs + ys| - 1] == ys[n - 1];
    if ys[n - 1] == "" {
      assert (xs + ys)[..|xs + ys| - 1] == xs + ys[..n - 1];
      DropTrailingEmptyAppend(xs, ys[..n - 1]);
    }
  }

  /**
   * Splitting `a` + separator + `b` yields every field of `a` followed by the
   * split of `b`, provided `b` contributes at least one field.
   */
  lemma SplitAround(a: string, b: string, sep: char)
    requires sep != ' ' && Split(b, sep) != []
    ensures Split(a + [sep] + b, sep) == Fields(a, sep) + Split(b, sep)
  {
    FieldsAround(a, b, sep);
    DropTrailingEmptyAppend(Fields(a, sep), Fields(b, sep));
  }

  /** A non-empty string without the separator splits into itself alone. */
  lemma SplitWithoutSeparator(s: string, sep: char)
    requires s != [] && sep !in s && sep != ' '
    ensures Split(s, sep) == [s]
  {
    FieldsWithoutSeparator(s, sep);
  }
}
