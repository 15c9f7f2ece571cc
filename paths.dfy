/**
 * `installer_paths` / `broker_paths` via `expand_paths` (lib/razor/config.rb:33-39, 50-62):
 * an explicit colon-separated `<what>_path` override, or one conventional
 * directory under the application root.
 */
module SearchPaths {
  import opened Values
  import opened Text
  import opened DottedLookup

  /** The two plugin kinds that have a search path. */
  datatype Category = Installer | Broker {

    /** The name `expand_paths` is called with. */
    function Name(): string {
      match this
      case Installer => "installer"
      case Broker => "broker"
    }

    /** `what.pluralize` for the two names in use. */
    function Plural(): (r: string)
      ensures r == Name() + "s"
    {
      match this
      case Installer => "installers"
      case Broker => "brokers"
    }

    /** `what + '_path'`: a plain top-level key, so `self[option_name]` is one Hash lookup. */
    function OptionName(): (r: string)
      ensures r != "" && '.' !in r
    {
      Name() + "_path"
    }
  }

  /** A `<what>_path` value `expand_paths` can handle: unset (nil or false) or a String to split. */
  predicate PathOption(v: Value) {
    !Truthy(v) || v.Str?
  }

  /** `File::join(root, part)` for a part that does not start with "/": exactly one separator between them. */
  function JoinPath(root: string, part: string): (r: string)
    requires !StartsWithSlash(part)
    ensures root <= r && |part| < |r| <= |root| + 1 + |part|
    ensures r[|r| - |part| - 1] == '/' && r[|r| - |part|..] == part
    ensures |root| > 0 && root[|root| - 1] == '/' ==> r == root + part
    ensures !(|root| > 0 && root[|root| - 1] == '/') ==> r == root + "/" + part
  {
    if |root| > 0 && root[|root| - 1] == '/' then root + part else root + "/" + part
  }

  /** One non-empty segment: kept verbatim when absolute, otherwise joined onto the root and expanded. */
  function Resolve(seg: string, root: string, expand: string -> string): (r: string)
    requires seg != ""
    ensures StartsWithSlash(seg) ==> r == seg
    ensures !StartsWithSlash(seg) ==> r == expand(JoinPath(root, seg))
    ensures (forall p :: StartsWithSlash(expand(p))) ==> StartsWithSlash(r)
  {
    if StartsWithSlash(seg) then seg else expand(JoinPath(root, seg))
  }

  /** The `map { ... next ... }.compact` over the split override: empty segments leave no entry. */
  function ExpandSegments(segs: seq<string>, root: string, expand: string -> string): (r: seq<string>)
    ensures |r| <= |segs|
    ensures (forall i :: 0 <= i < |segs| ==> segs[i] != "") ==>
              |r| == |segs| && forall i :: 0 <= i < |r| ==> r[i] == Resolve(segs[i], root, expand)
  {
    if segs == [] then []
    else
      (if segs[0] == "" then [] else [Resolve(segs[0], root, expand)])
      + ExpandSegments(segs[1..], root, expand)
  }

  /** `expand_paths(what)`, with `Razor.root` and `File::expand_path` passed in. */
  function ExpandPaths(values: map<string, Value>, what: Category, root: string, expand: string -> string): (r: seq<string>)
    requires PathOption(At(values, what.OptionName()))
    ensures var option := At(values, what.OptionName());
            !Truthy(option) ==> r == [expand(JoinPath(root, what.Plural()))]
    ensures var option := At(values, what.OptionName());
            option.Str? ==> |r| <= |Fields(option.s, ':')|
  {
    LookupPlainKey(values, what.OptionName());
    var option := Lookup(values, what.OptionName());
    if Truthy(option) then ExpandSegments(Split(option.s, ':'), root, expand)
    else [expand(JoinPath(root, what.Plural()))]
  }

  /** The expansion of concatenated segment lists is the concatenation: the split order is kept. */
  lemma {:induction false} ExpandSegmentsAppend(a: seq<string>, b: seq<string>, root: string, expand: string -> string)
    ensures ExpandSegments(a + b, root, expand) ==
            ExpandSegments(a, root, expand) + ExpandSegments(b, root, expand)
  {
    if a == [] {
      assert a + b == b;
    } else {
      assert (a + b)[0] == a[0];
      assert (a + b)[1..] == a[1..] + b;
      ExpandSegmentsAppend(a[1..], b, root, expand);
    }
  }

  /** The expansion is empty exactly when every segment is empty. */
  lemma {:induction false} ExpandSegmentsEmpty(segs: seq<string>, root: string, expand: string -> string)
    ensures ExpandSegments(segs, root, expand) == [] <==> forall i :: 0 <= i < |segs| ==> segs[i] == ""
  {
    if segs != [] {
      ExpandSegmentsEmpty(segs[1..], root, expand);
      assert forall i :: 1 <= i < |segs| ==> segs[i] == segs[1..][i - 1];
    }
  }

  /** Every entry is an absolute segment or an expanded path, so it is absolute when `expand` always yields one. */
  lemma {:induction false} ExpandSegmentsAbsolute(segs: seq<string>, root: string, expand: string -> string)
    requires forall p :: StartsWithSlash(expand(p))
    ensures forall i :: 0 <= i < |ExpandSegments(segs, root, expand)| ==>
              StartsWithSlash(ExpandSegments(segs, root, expand)[i])
  {
    if segs != [] {
      ExpandSegmentsAbsolute(segs[1..], root, expand);
    }
  }

  /**
   * The trailing empty fields Ruby's `split` drops would have left no entry
   * anyway: the override expands as if every `:`-separated field were kept.
   */
  lemma SplitDropsNothingExpanded(s: string, root: string, expand: string -> string)
    ensures ExpandSegments(Split(s, ':'), root, expand) == ExpandSegments(Fields(s, ':'), root, expand)
  {
    var fs := Fields(s, ':');
    var kept := Split(s, ':');
    assert fs == kept + fs[|kept|..];
    ExpandSegmentsAppend(kept, fs[|kept|..], root, expand);
    ExpandSegmentsEmpty(fs[|kept|..], root, expand);
  }

  /**
   * With `<what>_path` set, the result is the expansion of every
   * `:`-separated field in order; it has at most as many entries as fields.
   */
  lemma OverrideExpansion(values: map<string, Value>, what: Category, root: string, expand: string -> string)
    requires At(values, what.OptionName()).Str?
    ensures var r := ExpandPaths(values, what, root, expand);
            r == ExpandSegments(Fields(At(values, what.OptionName()).s, ':'), root, expand)
  {
    LookupPlainKey(values, what.OptionName());
    SplitDropsNothingExpanded(At(values, what.OptionName()).s, root, expand);
  }

  /** An empty override is set (a String is truthy), and yields no path at all rather than the default. */
  lemma EmptyOverride(values: map<string, Value>, what: Category, root: string, expand: string -> string)
    requires At(values, what.OptionName()) == Str("")
    ensures ExpandPaths(values, what, root, expand) == []
  {
    OverrideExpansion(values, what, root, expand);
    assert Fields("", ':') == [""];
  }

  /** Every search path is absolute whenever `expand` always returns an absolute path. */
  lemma PathsAbsolute(values: map<string, Value>, what: Category, root: string, expand: string -> string)
    requires PathOption(At(values, what.OptionName()))
    requires forall p :: StartsWithSlash(expand(p))
    ensures forall i :: 0 <= i < |ExpandPaths(values, what, root, expand)| ==>
              StartsWithSlash(ExpandPaths(values, what, root, expand)[i])
  {
    var option := At(values, what.OptionName());
    if option.Str? {
      OverrideExpansion(values, what, root, expand);
      ExpandSegmentsAbsolute(Fields(option.s, ':'), root, expand);
    }
  }

  /**
   * An override of "/a:b:" (e.g. `installer_path`) gives the absolute "/a"
   * verbatim, then root/b expanded; the empty tail is dropped.
   */
  lemma MixedOverride(values: map<string, Value>, what: Category, root: string, expand: string -> string)
    requires At(values, what.OptionName()) == Str("/a:b:")
    ensures ExpandPaths(values, what, root, expand) == ["/a", expand(JoinPath(root, "b"))]
  {
    OverrideExpansion(values, what, root, expand);
    MixedFields();
    TwoSegmentsAndEmptyTail("/a", "b", root, expand);
    assert StartsWithSlash("/a") && !StartsWithSlash("b");
  }

  /** Two nonempty segments and an empty tail expand to the two resolved segments. */
  lemma TwoSegmentsAndEmptyTail(x: string, y: string, root: string, expand: string -> string)
    requires x != "" && y != ""
    ensures ExpandSegments([x, y, ""], root, expand) == [Resolve(x, root, expand), Resolve(y, root, expand)]
  {
    assert [""][1..] == [];
    assert ExpandSegments([""], root, expand) == [];
    assert [y, ""][1..] == [""];
    assert ExpandSegments([y, ""], root, expand) == [Resolve(y, root, expand)];
    assert [x, y, ""][1..] == [y, ""];
  }

  /** The fields of "/a:b:" are "/a", "b" and a trailing empty one. */
  lemma MixedFields()
    ensures Fields("/a:b:", ':') == ["/a", "b", ""]
  {
    var a, b := "/a", "b";
    FieldsWithoutSeparator(a, ':');
    FieldsWithoutSeparator(b, ':');
    FieldsAround(b, "", ':');
    assert b + [':'] + "" == "b:";
    FieldsAround(a, "b:", ':');
    assert a + [':'] + "b:" == "/a:b:";
  }
}
