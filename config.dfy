/**
 * `Razor::Config` (lib/razor/config.rb:13-91): the merged settings of one
 * environment, with dotted lookup, plugin search paths, the memoised fact
 * blacklist and validation. The loaded document, the active environment
 * name (`Razor.env`), the application root (`Razor.root`), the regex engine
 * and `File::expand_path` are passed in.
 */
module RazorConfig {
  import opened Wrappers
  import opened Values
  import opened Text
  import opened DottedLookup
  import opened SearchPaths
  import opened Blacklist
  import opened Errors
  import opened Validation

  /** A loaded document the constructor can merge: it and both layers it reads are Hashes or nil/false. */
  predicate Document(doc: Value, env: string) {
    MapOrFalsy(doc) &&
    (doc.Map? ==> MapOrFalsy(At(doc.entries, "all")) && MapOrFalsy(At(doc.entries, env)))
  }

  /** `yaml[name] || {}` (with `yaml` itself defaulted to `{}`): a missing layer is an empty Hash. */
  function Layer(doc: Value, name: string): (m: map<string, Value>)
    requires MapOrFalsy(doc) && (doc.Map? ==> MapOrFalsy(At(doc.entries, name)))
    ensures !(doc.Map? && At(doc.entries, name).Map?) ==> m == map[]
    ensures doc.Map? && At(doc.entries, name).Map? ==> m == At(doc.entries, name).entries
  {
    if doc.Map? && At(doc.entries, name).Map? then At(doc.entries, name).entries else map[]
  }

  /**
   * The settings after construction: the `all` layer overlaid with the
   * environment layer. Every top-level key of either layer is present; the
   * environment layer's value wins, whole, on a clash.
   */
  function Merged(doc: Value, env: string): (m: map<string, Value>)
    requires Document(doc, env)
    ensures forall k :: k in m <==> k in Layer(doc, "all") || k in Layer(doc, env)
    ensures forall k :: k in Layer(doc, env) ==> m[k] == Layer(doc, env)[k]
    ensures forall k :: k in Layer(doc, "all") && k !in Layer(doc, env) ==> m[k] == Layer(doc, "all")[k]
  {
    Layer(doc, "all") + Layer(doc, env)
  }

  /**
   * Nested Hashes are replaced, not merged: an environment that sets only
   * `db.host` loses the `db.port` the `all` layer had.
   */
  lemma NestedSettingsReplaced(env: string)
    requires env != "all"
    ensures var all := Map(map["db" := Map(map["host" := Str("a"), "port" := Int(5432)])]);
            var over := Map(map["db" := Map(map["host" := Str("b")])]);
            var doc := Map(map["all" := all, env := over]);
            Document(doc, env) && Merged(doc, env)["db"] == over.entries["db"]
            && "port" !in Merged(doc, env)["db"].entries
  {
    var all := Map(map["db" := Map(map["host" := Str("a"), "port" := Int(5432)])]);
    var over := Map(map["db" := Map(map["host" := Str("b")])]);
    var doc := Map(map["all" := all, env := over]);
    assert At(doc.entries, "all") == all;
    assert At(doc.entries, env) == over;
    assert Layer(doc, env) == over.entries;
    assert "db" in Layer(doc, env);
  }

  class Config {
    /** `@values`: the merged settings. */
    var values: map<string, Value>
    /** `@facts_blacklist_rx`: the compiled blacklist pattern, held by its source, once built. */
    var blacklistRx: Option<string>

    /** A built pattern is always the one the current settings give. */
    ghost predicate Valid(): (ok: bool)
      reads this
      ensures blacklistRx.None? ==> ok
    {
      blacklistRx.Some? ==> BlacklistReadable(values) && blacklistRx.value == BlacklistSource(values)
    }

    /** `Config.new`: the `all` layer, then `merge!` of the environment layer into it. */
    constructor (doc: Value, env: string)
      requires Document(doc, env)
      ensures values == Merged(doc, env)
      ensures blacklistRx == None
      ensures Valid()
    {
      values := Layer(doc, "all");
      values := values + Layer(doc, env);
      blacklistRx := None;
    }

    /** `self[key]`; a key without dots is a plain Hash lookup. */
    function Get(key: string): (r: Value)
      reads this
      requires Walkable(Map(values), Split(key, '.'))
      ensures key != "" && '.' !in key ==> r == At(values, key)
    {
      if key != "" && '.' !in key then LookupPlainKey(values, key); Lookup(values, key)
      else Lookup(values, key)
    }

    /** `installer_paths`: the `installer_path` override, or `<root>/installers`. */
    function InstallerPaths(root: string, expand: string -> string): (r: seq<string>)
      reads this
      requires PathOption(At(values, Installer.OptionName()))
      ensures !Truthy(At(values, Installer.OptionName())) ==> r == [expand(JoinPath(root, "installers"))]
      ensures At(values, Installer.OptionName()).Str? ==> |r| <= |Fields(At(values, Installer.OptionName()).s, ':')|
    {
      ExpandPaths(values, Installer, root, expand)
    }

    /** `broker_paths`: the `broker_path` override, or `<root>/brokers`. */
    function BrokerPaths(root: string, expand: string -> string): (r: seq<string>)
      reads this
      requires PathOption(At(values, Broker.OptionName()))
      ensures !Truthy(At(values, Broker.OptionName())) ==> r == [expand(JoinPath(root, "brokers"))]
      ensures At(values, Broker.OptionName()).Str? ==> |r| <= |Fields(At(values, Broker.OptionName()).s, ':')|
    {
      ExpandPaths(values, Broker, root, expand)
    }

    /**
     * `fact_blacklisted?(name)`: builds and compiles the blacklist pattern on
     * first use and keeps it; later calls match against the kept pattern.
     * A pattern the engine rejects raises and is not kept.
     */
    method FactBlacklisted(name: string, compile: string -> Compiled, matches: (string, string) -> bool)
      returns (r: Result<bool, Error>)
      requires Valid() && BlacklistReadable(values)
      modifies this`blacklistRx
      ensures Valid()
      ensures old(blacklistRx).Some? ==>
                blacklistRx == old(blacklistRx) && r == Success(matches(BlacklistSource(values), name))
      ensures old(blacklistRx).None? && compile(BlacklistSource(values)).Compiles? ==>
                blacklistRx == Some(BlacklistSource(values)) && r == Success(matches(BlacklistSource(values), name))
      ensures old(blacklistRx).None? && compile(BlacklistSource(values)).Rejected? ==>
                blacklistRx == None && r == Failure(RegexpError(compile(BlacklistSource(values)).message))
    {
      if blacklistRx.None? {
        var src := BlacklistSource(values);
        match compile(src)
        case Rejected(err) =>
          return Failure(RegexpError(err));
        case Compiles =>
          blacklistRx := Some(src);
      }
      r := Success(matches(blacklistRx.value, name));
    }

    /**
     * `validate!`: compiles each `/.../` fragment of the blacklist on its own,
     * in list order, and raises for the first one that does not compile.
     */
    method Validate(compile: string -> Compiled) returns (o: Outcome<Error>)
      requires BlacklistReadable(values)
      ensures o == ValidationOutcome(RegexFragments(Entries(BlacklistSetting(values))), compile)
    {
      var list := Entries(BlacklistSetting(values));
      var frags := RegexFragments(list);
      var i := 0;
      while i < |frags|
        invariant 0 <= i <= |frags|
        invariant ValidationOutcome(frags[i..], compile) == ValidationOutcome(frags, compile)
      {
        match compile(frags[i])
        case Rejected(err) =>
          return Fail(RejectedFragment(frags[i], err));
        case Compiles =>
          assert frags[i..][1..] == frags[i + 1..];
          i := i + 1;
      }
      return Pass;
    }
  }

  /** Asking twice about the same name gives the same answer, and the second call leaves the pattern as the first left it. */
  method BlacklistedTwice(c: Config, name: string, compile: string -> Compiled, matches: (string, string) -> bool)
    returns (first: Result<bool, Error>, second: Result<bool, Error>)
    requires c.Valid() && BlacklistReadable(c.values)
    modifies c
    ensures first == second
    ensures c.values == old(c.values)
  {
    first := c.FactBlacklisted(name, compile, matches);
    ghost var kept := c.blacklistRx;
    second := c.FactBlacklisted(name, compile, matches);
    assert c.blacklistRx == kept;
  }
}
