/**
 * The fact blacklist (lib/razor/config.rb:64-73): `facts.blacklist` is read as
 * a list of entries; an entry of the form `/.../` contributes its inner text
 * as a regular-expression fragment, any other entry contributes itself quoted,
 * and the fragments are joined into one anchored alternation.
 */
module Blacklist {
  import opened Wrappers
  import opened Values
  import opened Text
  import opened DottedLookup

  /** What the foreign regex engine says of a pattern source: it compiles, or it raises with a message. */
  datatype Compiled = Compiles | Rejected(message: string)

  // ---------------------------------------------------------------------------
  // Regexp.quote

  /** Characters `Regexp.quote` escapes as a backslash followed by the character itself. */
  predicate SelfEscaped(c: char) {
    c in "[]{}()|-*.\\?+^$# "
  }

  /** Control characters `Regexp.quote` writes as a backslash and a letter. */
  predicate ControlEscaped(c: char) {
    c in "\t\n\r\U{0C}\U{0B}"
  }

  /** The quoted form of one character. */
  function Escape(c: char): (r: string)
    ensures |r| == 1 <==> !SelfEscaped(c) && !ControlEscaped(c)
    ensures |r| == 1 ==> r == [c]
    ensures |r| == 1 || (|r| == 2 && r[0] == '\\' && Unescape(r[1]) == Some(c))
  {
    if SelfEscaped(c) then ['\\', c]
    else if c == '\t' then "\\t"
    else if c == '\n' then "\\n"
    else if c == '\r' then "\\r"
    else if c == '\U{0C}' then "\\f"
    else if c == '\U{0B}' then "\\v"
    else [c]
  }

  /** `Regexp.quote(s)`: every character that has a meaning in a pattern is escaped. */
  function Quote(s: string): (r: string)
    ensures |s| <= |r| <= 2 * |s|
  {
    if s == [] then [] else Escape(s[0]) + Quote(s[1..])
  }

  /** The character a backslash escape in quoted text stands for. */
  function Unescape(c: char): Option<char> {
    if SelfEscaped(c) then Some(c)
    else if c == 't' then Some('\t')
    else if c == 'n' then Some('\n')
    else if c == 'r' then Some('\r')
    else if c == 'f' then Some('\U{0C}')
    else if c == 'v' then Some('\U{0B}')
    else None
  }

  /** Reads quoted text back; fails on a bare metacharacter or an unknown escape. */
  function Unquote(q: string): Option<string>
    decreases |q|
  {
    if q == [] then Some([])
    else if q[0] == '\\' then
      if |q| < 2 then None
      else
        match (Unescape(q[1]), Unquote(q[2..]))
        case (Some(c), Some(rest)) => Some([c] + rest)
        case _ => None
    else if SelfEscaped(q[0]) || ControlEscaped(q[0]) then None
    else
      match Unquote(q[1..])
      case Some(rest) => Some([q[0]] + rest)
      case None => None
  }

  /** A backslash pair reads back as the character it escapes, followed by whatever the rest reads as. */
  lemma UnquotePair(x: char, c: char, q: string)
    requires Unescape(x) == Some(c)
    ensures Unquote(['\\', x] + q) == if Unquote(q).Some? then Some([c] + Unquote(q).value) else None
  {
    var p := ['\\', x] + q;
    assert p[0] == '\\' && p[1] == x && p[2..] == q;
  }

  /** A character without meaning in a pattern reads back as itself. */
  lemma UnquotePlain(c: char, q: string)
    requires !SelfEscaped(c) && !ControlEscaped(c)
    ensures Unquote([c] + q) == if Unquote(q).Some? then Some([c] + Unquote(q).value) else None
  {
    var p := [c] + q;
    assert p[0] == c && p[1..] == q;
  }

  /** The quoted form of one character reads back as that character, whatever follows it. */
  lemma EscapeReadsBack(c: char, q: string)
    ensures Unquote(Escape(c) + q) == if Unquote(q).Some? then Some([c] + Unquote(q).value) else None
  {
    var e := Escape(c);
    if |e| == 2 {
      assert e == ['\\', e[1]];
      UnquotePair(e[1], c, q);
    } else {
      UnquotePlain(c, q);
    }
  }

  /** Quoting loses nothing: the quoted text reads back as the original, so distinct literals quote differently. */
  lemma {:induction false} QuoteRoundTrip(s: string)
    ensures Unquote(Quote(s)) == Some(s)
  {
    if s != [] {
      QuoteRoundTrip(s[1..]);
      EscapeReadsBack(s[0], Quote(s[1..]));
      assert [s[0]] + s[1..] == s;
    }
  }

  // ---------------------------------------------------------------------------
  // Entries and fragments

  /** Drops one final newline: where Ruby's `\Z` may also match. */
  function ChompNewline(s: string): string {
    if |s| > 0 && s[|s| - 1] == '\n' then s[..|s| - 1] else s
  }

  /**
   * The capture of `s =~ %r{\A/(.*)/\Z}`: `.` does not cross a newline, and
   * `\Z` matches at the end or before one final newline.
   */
  function RegexBody(s: string): (r: Option<string>)
    ensures r.Some? ==> |r.value| + 2 <= |s| && s[0] == '/' && '\n' !in r.value
  {
    var t := ChompNewline(s);
    if |t| >= 2 && t[0] == '/' && t[|t| - 1] == '/' && '\n' !in t[1..|t| - 1]
    then Some(t[1..|t| - 1])
    else None
  }

  /**
   * An entry is a regex entry exactly when it is some newline-free text between
   * two slashes, optionally followed by one newline; the capture is that text.
   */
  lemma RegexBodyIff(s: string, x: string)
    ensures RegexBody(s) == Some(x) <==>
              '\n' !in x && (s == "/" + x + "/" || s == "/" + x + "/\n")
  {
    var w := "/" + x + "/";
    assert w[1..|w| - 1] == x;
    assert ChompNewline(w) == w;
    assert (w + "\n")[..|w + "\n"| - 1] == w;
    if RegexBody(s) == Some(x) {
      var t := ChompNewline(s);
      assert t == w by {
        assert t == [t[0]] + t[1..|t| - 1] + [t[|t| - 1]];
      }
      assert s == t || s == t + "\n";
    }
    if '\n' !in x && (s == w || s == w + "\n") {
      assert ChompNewline(s) == w;
    }
  }

  /**
   * The fragment an entry contributes: its inner text when it is `/.../`,
   * otherwise `Regexp.quote` of it, from which the entry can be read back.
   */
  function Fragment(e: string): (r: string)
    ensures RegexBody(e).Some? ==> r == RegexBody(e).value
    ensures RegexBody(e).None? ==> Unquote(r) == Some(e)
  {
    match RegexBody(e)
    case Some(x) => x
    case None => QuoteRoundTrip(e); Quote(e)
  }

  /** `entries.map { ... }`: one fragment per entry, in the entries' order. */
  function Fragments(es: seq<string>): (r: seq<string>)
    ensures |r| == |es|
    ensures forall i :: 0 <= i < |es| ==> r[i] == Fragment(es[i])
  {
    if es == [] then [] else [Fragment(es[0])] + Fragments(es[1..])
  }

  const SourcePrefix := "\\A(("
  const SourceSeparator := ")|("
  const SourceSuffix := "))\\Z"

  /** The source string handed to `Regexp.compile`. */
  function Source(es: seq<string>): (r: string)
    ensures |SourcePrefix| + |SourceSuffix| <= |r|
    ensures r[..|SourcePrefix|] == SourcePrefix && r[|r| - |SourceSuffix|..] == SourceSuffix
  {
    SourcePrefix + Join(Fragments(es), SourceSeparator) + SourceSuffix
  }

  /** An empty blacklist builds `\A(())\Z`, a pattern that matches the empty name. */
  lemma SourceOfNoEntries()
    ensures Source([]) == "\\A(())\\Z"
  {
  }

  /** Adding an entry at the end adds its fragment at the end. */
  lemma {:induction false} FragmentsSnoc(es: seq<string>, e: string)
    ensures Fragments(es + [e]) == Fragments(es) + [Fragment(e)]
  {
    if es == [] {
      assert es + [e] == [e];
    } else {
      assert (es + [e])[0] == es[0];
      assert (es + [e])[1..] == es[1..] + [e];
      FragmentsSnoc(es[1..], e);
    }
  }

  /** Adding an entry at the end adds one more alternative after the existing ones, in order. */
  lemma SourceSnoc(es: seq<string>, e: string)
    requires es != []
    ensures Source(es + [e]) ==
            SourcePrefix + (Join(Fragments(es), SourceSeparator) + SourceSeparator + Fragment(e)) + SourceSuffix
  {
    var fs, f := Fragments(es), Fragment(e);
    FragmentsSnoc(es, e);
    JoinSnoc(fs, f, SourceSeparator);
  }

  /** A one-entry blacklist is that entry's fragment wrapped in the anchors. */
  lemma SourceOfOneEntry(e: string)
    ensures Source([e]) == SourcePrefix + Fragment(e) + SourceSuffix
  {
  }

  /** The empty blacklist builds the same pattern as a blacklist holding only the empty name. */
  lemma NoEntriesLikeEmptyName()
    ensures Source([]) == Source([""])
  {
    assert RegexBody("").None?;
  }

  /** No `|` in `s` stands bare: each one follows a backslash. */
  predicate NoBarePipe(s: string) {
    forall i :: 0 <= i < |s| && s[i] == '|' ==> i > 0 && s[i - 1] == '\\'
  }

  /** Position `i` of `s` holds a `|` not preceded by a backslash. */
  predicate BarePipeAt(s: string, i: int) {
    0 <= i < |s| && s[i] == '|' && !(i > 0 && s[i - 1] == '\\')
  }

  /** Quoted text never holds an alternation bar. */
  lemma {:induction false} QuoteNoBarePipe(s: string)
    ensures NoBarePipe(Quote(s))
  {
    if s != [] {
      QuoteNoBarePipe(s[1..]);
      var e, q := Escape(s[0]), Quote(s[1..]);
      assert Quote(s) == e + q;
      forall i | 0 <= i < |e + q| && (e + q)[i] == '|'
        ensures i > 0 && (e + q)[i - 1] == '\\'
      {
        if i >= |e| {
          assert q[i - |e|] == '|';
        }
      }
    }
  }

  /**
   * In a join of bar-free pieces, the first alternation bar is the one right
   * after the first piece, and a single piece has none.
   */
  lemma JoinBarePipes(xs: seq<string>)
    requires |xs| >= 1 && forall k :: 0 <= k < |xs| ==> NoBarePipe(xs[k])
    ensures |xs| == 1 ==> forall i :: !BarePipeAt(Join(xs, SourceSeparator), i)
    ensures |xs| >= 2 ==> BarePipeAt(Join(xs, SourceSeparator), |xs[0]| + 1)
    ensures |xs| >= 2 ==> forall i :: 0 <= i <= |xs[0]| ==> !BarePipeAt(Join(xs, SourceSeparator), i)
  {
    if |xs| >= 2 {
      var j := Join(xs, SourceSeparator);
      assert j == xs[0] + SourceSeparator + Join(xs[1..], SourceSeparator);
      assert j[|xs[0]|] == ')' && j[|xs[0]| + 1] == '|';
      forall i | 0 <= i < |xs[0]| ensures !BarePipeAt(j, i) {
        assert j[i] == xs[0][i];
        if i > 0 {
          assert j[i - 1] == xs[0][i - 1];
        }
      }
    }
  }

  /** Joining bar-free pieces with `)|(` loses nothing: equal joins come from equal piece lists. */
  lemma {:induction false} JoinInjective(xs: seq<string>, ys: seq<string>)
    requires |xs| >= 1 && forall k :: 0 <= k < |xs| ==> NoBarePipe(xs[k])
    requires |ys| >= 1 && forall k :: 0 <= k < |ys| ==> NoBarePipe(ys[k])
    requires Join(xs, SourceSeparator) == Join(ys, SourceSeparator)
    ensures xs == ys
    decreases |xs|
  {
    JoinBarePipes(xs);
    JoinBarePipes(ys);
    var j := Join(xs, SourceSeparator);
    assert |xs| >= 2 <==> BarePipeAt(j, |xs[0]| + 1);
    assert |ys| >= 2 <==> BarePipeAt(j, |ys[0]| + 1);
    assert |xs| >= 2 <==> |ys| >= 2;
    if |xs| >= 2 {
      var p, q := |xs[0]| + 1, |ys[0]| + 1;
      assert p == q;
      var rx, ry := Join(xs[1..], SourceSeparator), Join(ys[1..], SourceSeparator);
      assert j == xs[0] + SourceSeparator + rx;
      assert j == ys[0] + SourceSeparator + ry;
      assert xs[0] == j[..p - 1] == ys[0];
      assert rx == j[p + 2..] == ry;
      JoinInjective(xs[1..], ys[1..]);
      assert xs == [xs[0]] + xs[1..] && ys == [ys[0]] + ys[1..];
    }
  }

  /**
   * A non-empty blacklist of literal names can be read back from its pattern
   * source: different lists build different patterns.
   */
  lemma LiteralSourceInjective(es1: seq<string>, es2: seq<string>)
    requires es1 != [] && forall i :: 0 <= i < |es1| ==> RegexBody(es1[i]).None?
    requires es2 != [] && forall i :: 0 <= i < |es2| ==> RegexBody(es2[i]).None?
    requires Source(es1) == Source(es2)
    ensures es1 == es2
  {
    var f1, f2 := Fragments(es1), Fragments(es2);
    var j1, j2 := Join(f1, SourceSeparator), Join(f2, SourceSeparator);
    assert j1 == Source(es1)[|SourcePrefix|..|Source(es1)| - |SourceSuffix|];
    assert j2 == Source(es2)[|SourcePrefix|..|Source(es2)| - |SourceSuffix|];
    forall k | 0 <= k < |f1| ensures NoBarePipe(f1[k]) {
      QuoteNoBarePipe(es1[k]);
    }
    forall k | 0 <= k < |f2| ensures NoBarePipe(f2[k]) {
      QuoteNoBarePipe(es2[k]);
    }
    JoinInjective(f1, f2);
    forall i | 0 <= i < |es1| ensures es1[i] == es2[i] {
    }
  }

  // ---------------------------------------------------------------------------
  // Reading the setting

  /** A `facts.blacklist` value `Array(...)` turns into a list of Strings. */
  predicate BlacklistShape(v: Value) {
    v.Nil? || v.Str? || (v.List? && forall i :: 0 <= i < |v.items| ==> v.items[i].Str?)
  }

  /** `Array(v)`: nil is no entry, a String is one entry, an Array is its elements. */
  function Entries(v: Value): (es: seq<string>)
    requires BlacklistShape(v)
    ensures v.Nil? ==> es == []
    ensures v.Str? ==> es == [v.s]
    ensures v.List? ==> |es| == |v.items| && forall i :: 0 <= i < |es| ==> v.items[i] == Str(es[i])
  {
    match v
    case Nil => []
    case Str(s) => [s]
    case List(items) => seq(|items|, i requires 0 <= i < |items| => items[i].s)
  }

  /** `self[a + "." + b]` for two plain keys: the `b` key of the `a` Hash, nil when `a` is unset. */
  function NestedSetting(values: map<string, Value>, a: string, b: string): (r: Value)
    requires a != "" && '.' !in a && b != "" && '.' !in b
    requires MapOrFalsy(At(values, a))
    ensures !Truthy(At(values, a)) ==> r == Nil
    ensures At(values, a).Map? ==> r == At(At(values, a).entries, b)
  {
    DottedIsNested(values, a, b);
    Lookup(values, a + "." + b)
  }

  /** `self["facts.blacklist"]`: the `blacklist` key of the `facts` Hash, nil when `facts` is unset. */
  function BlacklistSetting(values: map<string, Value>): (r: Value)
    requires MapOrFalsy(At(values, "facts"))
    ensures !Truthy(At(values, "facts")) ==> r == Nil
    ensures At(values, "facts").Map? ==> r == At(At(values, "facts").entries, "blacklist")
  {
    NestedSetting(values, "facts", "blacklist")
  }

  /** The settings the blacklist code can read without a Ruby type error. */
  predicate BlacklistReadable(values: map<string, Value>) {
    MapOrFalsy(At(values, "facts")) && BlacklistShape(BlacklistSetting(values))
  }

  /** The source string `facts_blacklist_rx` compiles for these settings. */
  function BlacklistSource(values: map<string, Value>): (r: string)
    requires BlacklistReadable(values)
    ensures BlacklistSetting(values) == Nil ==> r == "\\A(())\\Z"
  {
    SourceOfNoEntries();
    Source(Entries(BlacklistSetting(values)))
  }

  // ---------------------------------------------------------------------------
  // Regex fragments, the part validation checks

  /** `list.map { |s| s =~ %r{\A/(.*)/\Z} and $1 }.compact`: the inner texts of the regex entries, in order. */
  function RegexFragments(es: seq<string>): (r: seq<string>)
    ensures |r| <= |es|
  {
    if es == [] then []
    else
      (match RegexBody(es[0]) case Some(x) => [x] case None => [])
      + RegexFragments(es[1..])
  }

  /** Regex fragments of a concatenation are those of the parts, in order. */
  lemma {:induction false} RegexFragmentsAppend(a: seq<string>, b: seq<string>)
    ensures RegexFragments(a + b) == RegexFragments(a) + RegexFragments(b)
  {
    if a == [] {
      assert a + b == b;
    } else {
      assert (a + b)[0] == a[0];
      assert (a + b)[1..] == a[1..] + b;
      RegexFragmentsAppend(a[1..], b);
    }
  }

  /** A fragment is validated exactly when it is the capture of some entry. */
  lemma {:induction false} RegexFragmentsMembers(es: seq<string>, x: string)
    ensures x in RegexFragments(es) <==> exists i :: 0 <= i < |es| && RegexBody(es[i]) == Some(x)
  {
    if es != [] {
      RegexFragmentsMembers(es[1..], x);
      if exists i :: 1 <= i < |es| && RegexBody(es[i]) == Some(x) {
        var i :| 1 <= i < |es| && RegexBody(es[i]) == Some(x);
        assert RegexBody(es[1..][i - 1]) == Some(x);
      }
      if exists i :: 0 <= i < |es[1..]| && RegexBody(es[1..][i]) == Some(x) {
        var i :| 0 <= i < |es[1..]| && RegexBody(es[1..][i]) == Some(x);
        assert RegexBody(es[i + 1]) == Some(x);
      }
    }
  }

  /** A list of literal names has no fragment to validate. */
  lemma {:induction false} LiteralsHaveNoRegexFragments(es: seq<string>)
    requires forall i :: 0 <= i < |es| ==> RegexBody(es[i]).None?
    ensures RegexFragments(es) == []
  {
    if es != [] {
      LiteralsHaveNoRegexFragments(es[1..]);
    }
  }
}
