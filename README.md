# Razor configuration, modelled in Dafny

This project models `Razor::Config` and `Razor::InvalidConfigurationError` from
razor-server (`lib/razor/config.rb`). That class turns a loaded YAML document into
the settings of one environment. It offers four things:

- **Layer merge** at construction. The `all` layer is overlaid with the
  active environment's layer. The environment wins on a clash, and the merge is
  shallow (`merge!`).
- **Dotted lookup** (`config["a.b"]`). The key is split on `.` and folded over
  the settings, one `v[k] if v` step at a time.
- **Plugin search paths** (`installer_paths`, `broker_paths`). They come either
  from a colon-separated `<what>_path` override or from one default directory
  under the application root.
- **The fact blacklist.** Literal names and `/regex/` entries are compiled into
  one anchored alternation, `\A((f1)|(f2)|...)\Z`. The pattern is built on first
  use and kept in a field. `validate!` compiles each `/regex/` fragment on its
  own and raises for the first one that does not compile.

Layout:

- `values.dfy`: the document's values and Ruby truthiness.
- `text.dfy`: Ruby's `String#split` and `Array#join`.
- `lookup.dfy`: the `#[]` fold.
- `paths.dfy`: `expand_paths`.
- `blacklist.dfy`: `Regexp.quote`, the entry classifier, the pattern source and
  how `facts.blacklist` is read.
- `errors.dfy`: the error type.
- `validation.dfy`: the meaning of `validate!`.
- `config.dfy`: the `Config` class. It holds the merged settings and the
  memoised pattern, and its methods change them in place.

The program's collaborators are passed in as parameters:

- the loaded document;
- the active environment name (`Razor.env`);
- the application root (`Razor.root`);
- the regex engine: a compile function returning `Compiles` or
  `Rejected(message)`, and a match function;
- `File::expand_path`, as a function on strings.

Behaviour of the code worth knowing:

- An empty or unset blacklist builds `\A(())\Z`, which matches the empty name
  (`SourceOfNoEntries`, `NoEntriesLikeEmptyName`, `BlacklistSource`).
- An empty segment in a dotted key looks up the key `""` in the current Hash.
  Ruby's `split` drops trailing empty fields, so `config["a."]` is
  `config["a"]`, and `config[""]` is the whole settings Hash (`LookupEmptyKey`).
- An empty `<what>_path` override is truthy and yields no paths, not the
  default directory (`EmptyOverride`).
- The constructor ignores its own `env` argument and reads `Razor.env`. The
  model's constructor takes that environment name directly.

## Model

| member | source | states |
|---|---|---|
| `Errors.InvalidConfigurationError` | lib/razor/config.rb:5-10 | the error keeps its key, and its message is `entry <key>: <msg>` |
| `RazorConfig.Layer` | lib/razor/config.rb:21-23 | a missing document, or a missing or nil layer, reads as an empty Hash |
| `RazorConfig.Merged` | lib/razor/config.rb:21-23 | a key is present iff either layer has it; the environment layer's value wins; otherwise the `all` value is kept |
| `RazorConfig.NestedSettingsReplaced` | lib/razor/config.rb:22-23 | nested Hashes are replaced whole, not deep-merged: a key only the `all` layer's nested Hash had is gone |
| `RazorConfig.Config.constructor` | lib/razor/config.rb:18-24 | the settings are the merge of the two layers, and no blacklist pattern is built yet |
| `RazorConfig.Config.Get` | lib/razor/config.rb:29-31 | `self[key]`; a non-empty key without dots is a plain Hash lookup, nil when absent |
| `Values.Truthy` | lib/razor/config.rb:30 | Ruby truthiness as `v[k] if v` and `if self[option_name]` use it: only nil and false are falsy, so `""`, `0`, `[]` and `{}` are truthy |
| `Values.At` | lib/razor/config.rb:30 | `Hash#[]`: a present key gives its value, an absent key gives nil |
| `Text.StartsWithSlash` | lib/razor/config.rb:56 | `start_with?('/')`: the string has `/` as a prefix |
| `Text.Fields` | lib/razor/config.rb:30 | splitting yields at least one field, and no field contains the separator |
| `Text.DropTrailingEmpty` | lib/razor/config.rb:30 | Ruby's `split` keeps a prefix of the fields that does not end in an empty field, and drops only empty ones |
| `Text.Split` | lib/razor/config.rb:30 | `String#split` on a one-character separator other than a space (the two used are `.` and `:`): a prefix of the fields that does not end in an empty field; every dropped field is empty; no part holds the separator |
| `Text.Join` | lib/razor/config.rb:72 | `Array#join`: `[]` joins to `""`, one element to itself, and a non-empty list's join starts with its first element; `JoinSnoc` gives each further element and `JoinFields` the round trip |
| `Text.JoinFields` | lib/razor/config.rb:54 | joining the fields (a split with limit -1, which keeps trailing empty fields) with the separator gives back the string |
| `Text.SplitAround` | lib/razor/config.rb:30 | when `b` keeps a field, splitting `a.b` yields the fields of `a` followed by the split of `b` |
| `DottedLookup.Step` | lib/razor/config.rb:30 | one `v[k] if v` step: a Hash's entry for `k`; nil when the Hash lacks `k` or the value is nil or false |
| `DottedLookup.Walkable` | lib/razor/config.rb:30 | the fold never indexes a truthy non-Hash; from nil or false every key list can be walked |
| `DottedLookup.Walk` | lib/razor/config.rb:30 | the `inject` fold: no keys leaves the value as it is; from nil or false any key gives nil |
| `DottedLookup.Lookup` | lib/razor/config.rb:29-31 | `self[key]`: a key that splits into no segments reads the whole settings Hash; `LookupPlainKey`, `DottedIsNested` and `LookupComposes` give the rest |
| `DottedLookup.WalkAppend` | lib/razor/config.rb:30 | the `inject` fold composes: walking `ks + ls` is walking `ks`, then `ls` from where it ended (both for walkability and the value) |
| `DottedLookup.LookupPlainKey` | lib/razor/config.rb:29-31 | a non-empty key without dots reads the top-level Hash entry |
| `DottedLookup.DottedIsNested` | lib/razor/config.rb:26-31 | `self["a.b"]` is `self["a"]["b"]`, and it can be evaluated exactly when `self["a"]` is a Hash, nil or false |
| `DottedLookup.LookupComposes` | lib/razor/config.rb:29-31 | the lookup of `a.rest` continues from the walk over the fields of `a` with the split of `rest` |
| `DottedLookup.LookupBelowFalsy` | lib/razor/config.rb:30 | every dotted key below an absent, nil or false top-level entry reads as nil |
| `DottedLookup.LookupEmptyKey` | lib/razor/config.rb:30 | the empty key has no segments, so `self[""]` is the whole settings Hash |
| `SearchPaths.Category.Plural` | lib/razor/config.rb:60 | `what.pluralize` for the two names in use adds an `s` |
| `SearchPaths.JoinPath` | lib/razor/config.rb:57-60 | `File::join(root, part)` starts with the root and ends with the part, with a `/` right before it: a root ending in `/` is followed directly by the part, any other root gets one `/` inserted |
| `SearchPaths.Resolve` | lib/razor/config.rb:56-57 | an absolute segment is kept verbatim, a relative one is joined to the root and expanded; any segment resolves to an absolute path when `expand` always yields one |
| `SearchPaths.Category.OptionName` | lib/razor/config.rb:51 | `<what>_path` is a non-empty key without dots: a plain top-level lookup |
| `SearchPaths.ExpandSegments` | lib/razor/config.rb:54-58 | at most one entry per segment; when no segment is empty, entry i is segment i resolved (verbatim if absolute, else root-joined and expanded) |
| `SearchPaths.ExpandPaths` | lib/razor/config.rb:50-62 | without an override, exactly one path, `<root>/<plural>` expanded; with one, no more paths than `:`-separated fields |
| `SearchPaths.ExpandSegmentsAppend` | lib/razor/config.rb:54-58 | expanding concatenated segment lists concatenates the results, so the split order is kept |
| `SearchPaths.ExpandSegmentsEmpty` | lib/razor/config.rb:55-58 | the expansion is empty iff every segment is empty |
| `SearchPaths.ExpandSegmentsAbsolute` | lib/razor/config.rb:56-57 | every entry is absolute when `expand` always yields an absolute path |
| `SearchPaths.SplitDropsNothingExpanded` | lib/razor/config.rb:54-58 | the trailing empty fields that `split` drops would have left no entry anyway |
| `SearchPaths.OverrideExpansion` | lib/razor/config.rb:53-58 | with the override set, the result is the in-order expansion of every `:`-separated field |
| `SearchPaths.EmptyOverride` | lib/razor/config.rb:53-58 | an override of `""` yields no paths, not the default |
| `SearchPaths.PathsAbsolute` | lib/razor/config.rb:50-62 | every search path is absolute when `expand` always returns an absolute path |
| `SearchPaths.MixedOverride` | lib/razor/config.rb:53-58 | `"/a:b:"` yields `["/a", expand(root/b)]`: the absolute segment verbatim, the relative one joined, the empty one dropped |
| `SearchPaths.MixedFields` | lib/razor/config.rb:54 | `"/a:b:"` splits into `/a`, `b` and a trailing empty field |
| `RazorConfig.Config.InstallerPaths` | lib/razor/config.rb:33-35 | without `installer_path`, exactly `[expand(root/installers)]`; with it, at most one path per field |
| `RazorConfig.Config.BrokerPaths` | lib/razor/config.rb:37-39 | without `broker_path`, exactly `[expand(root/brokers)]`; with it, at most one path per field |
| `Blacklist.Escape` | lib/razor/config.rb:70 | a character is left alone iff `Regexp.quote` gives it no meaning; otherwise it becomes a backslash and a character that `Unescape` reads back as it (the character itself for a metacharacter or space, a letter for `\t \n \r \f \v`) |
| `Blacklist.Quote` | lib/razor/config.rb:70 | `Regexp.quote(s)` is at least as long as `s` and at most twice as long; `QuoteRoundTrip` gives its content |
| `Blacklist.EscapeReadsBack` | lib/razor/config.rb:70 | the quoted form of any one character reads back as that character, whatever text follows it |
| `Blacklist.QuoteRoundTrip` | lib/razor/config.rb:70 | `Regexp.quote` loses nothing: the quoted text reads back as the original |
| `Blacklist.QuoteNoBarePipe` | lib/razor/config.rb:70 | every alternation bar in quoted text follows a backslash |
| `Blacklist.RegexBody` | lib/razor/config.rb:67-68 | the capture of `\A/(.*)/\Z`: it exists only for an entry starting with `/`, is at least two shorter, and holds no newline; `RegexBodyIff` characterises it exactly |
| `Blacklist.RegexBodyIff` | lib/razor/config.rb:67-68 | an entry matches `\A/(.*)/\Z` with capture x iff it is `/x/` or `/x/` plus a newline, and x has no newline |
| `Blacklist.Fragment` | lib/razor/config.rb:67-71 | a `/…/` entry contributes its capture; any other entry contributes text that reads back as the entry |
| `Blacklist.Fragments` | lib/razor/config.rb:66-72 | one fragment per entry, in order: the capture of a `/…/` entry, otherwise the quoted entry |
| `Blacklist.Source` | lib/razor/config.rb:66-72 | every source starts with `\A((` and ends with `))\Z`; `SourceOfNoEntries`, `SourceOfOneEntry` and `SourceSnoc` give what lies between |
| `Blacklist.SourceOfNoEntries` | lib/razor/config.rb:66-72 | an empty list builds `\A(())\Z` |
| `Blacklist.NoEntriesLikeEmptyName` | lib/razor/config.rb:66-72 | the empty list builds the same pattern as the list holding only the empty name |
| `Blacklist.FragmentsSnoc` | lib/razor/config.rb:66-71 | an entry added at the end adds its fragment at the end, the others keeping their order |
| `Blacklist.SourceSnoc` | lib/razor/config.rb:66-72 | an entry added at the end adds one alternative after the existing ones |
| `Blacklist.SourceOfOneEntry` | lib/razor/config.rb:66-72 | a one-entry list is that entry's fragment between `\A((` and `))\Z` |
| `Blacklist.JoinBarePipes` | lib/razor/config.rb:72 | in a join of bar-free pieces with the alternation separator, the first bar not preceded by a backslash follows the first piece, and a single piece has none |
| `Blacklist.JoinInjective` | lib/razor/config.rb:72 | equal joins of bar-free pieces with the alternation separator come from equal piece lists |
| `Blacklist.LiteralSourceInjective` | lib/razor/config.rb:64-73 | different non-empty lists of literal names build different pattern sources |
| `Blacklist.Entries` | lib/razor/config.rb:66 | `Array(...)`: nil gives no entries, a String gives one, an Array gives its elements in order |
| `Blacklist.NestedSetting` | lib/razor/config.rb:29-31 | `self["a.b"]` for plain keys: the `b` entry of Hash `a`, or nil when `a` is unset |
| `Blacklist.BlacklistSetting` | lib/razor/config.rb:66 | `self["facts.blacklist"]` is `facts`'s `blacklist` entry, or nil when `facts` is unset |
| `Blacklist.BlacklistSource` | lib/razor/config.rb:66-72 | the source for the current settings; an unset blacklist builds the same `\A(())\Z` as an empty list |
| `Blacklist.RegexFragments` | lib/razor/config.rb:82 | at most one fragment to validate per entry |
| `Blacklist.RegexFragmentsAppend` | lib/razor/config.rb:82 | the fragments to validate keep the entries' order |
| `Blacklist.RegexFragmentsMembers` | lib/razor/config.rb:82 | a fragment is validated iff it is the capture of some `/…/` entry |
| `Blacklist.LiteralsHaveNoRegexFragments` | lib/razor/config.rb:82 | a list of literal names has nothing to validate |
| `RazorConfig.Config.Valid` | lib/razor/config.rb:64-73 | in the model, a kept pattern is always the one the current settings build (see Left out on aliasing); a config with none kept is valid |
| `RazorConfig.Config.FactBlacklisted` | lib/razor/config.rb:64-73 | builds the pattern once and keeps it; later calls match against the kept pattern, and the settings are unchanged; a rejected pattern raises and is not kept |
| `RazorConfig.BlacklistedTwice` | lib/razor/config.rb:41-43 | asking twice about the same name gives the same answer |
| `Validation.RejectedFragment` | lib/razor/config.rb:86-87 | the error has key `facts.blacklist` and message `entry facts.blacklist: entry <frag> is not a valid regular expression: <err>` |
| `Validation.ValidationOutcome` | lib/razor/config.rb:82-89 | the `each`/`rescue` loop: any failure is an `InvalidConfigurationError` for `facts.blacklist`; `PassIffAllCompile` and `FailsOnFirstRejected` say when and for which fragment |
| `Validation.PassIffAllCompile` | lib/razor/config.rb:82-89 | validation returns normally iff every fragment compiles |
| `Validation.FailsOnFirstRejected` | lib/razor/config.rb:82-89 | a failure names the first rejected fragment in list order, with the engine's message |
| `Validation.EntriesPassIff` | lib/razor/config.rb:80-89 | validation passes iff every `/…/` entry's inner text compiles; literal entries are never compiled |
| `Validation.LiteralsAlwaysPass` | lib/razor/config.rb:80-89 | a blacklist of literal names validates whatever the engine says |
| `Validation.UnclosedGroupRaises` | lib/razor/config.rb:80-89 | `["/(unclosed/"]` raises for `facts.blacklist` when the engine rejects `(unclosed` |
| `Validation.PlainNamePasses` | lib/razor/config.rb:80-89 | `["plain_name"]` validates |
| `RazorConfig.Config.Validate` | lib/razor/config.rb:45-47 | the loop over fragments returns the outcome `ValidationOutcome` defines: pass, or raise for the first rejected fragment |

## Left out

- Loading the file is I/O and is not modelled. This covers the `RAZOR_CONFIG` default path and YAML parsing (lib/razor/config.rb:19-21). The constructor receives the parsed document. A nil or false document reads as an empty Hash.
- `Razor.env` and `Razor.root` are process-wide globals. They are parameters here.
- The regex engine (`Regexp.compile`, `Regexp#match`) is a foreign library. It is a pair of function parameters, and match semantics are not verified. This includes Ruby's `\Z`, which also matches before a final newline inside the built pattern. As a result, `fact_blacklisted?` is not shown to be an exact, anchored match on names. The `\A/(.*)/\Z` entry test is modelled exactly, since it decides which entries are regexes.
- `File::expand_path` is a function parameter. The model does not normalise paths itself.
- `File::join` is modelled only for a second part that does not start with `/`. That is the only way `expand_paths` calls it.
- `String#pluralize` is reduced to its two uses, `installer` → `installers` and `broker` → `brokers`.
- `Regexp.quote` follows Ruby's escape table for ASCII metacharacters and whitespace. Encoding concerns are not modelled.
- Lookup through a truthy non-Hash intermediate is excluded by a precondition (`Walkable`). In Ruby it does a substring lookup on a String and raises on an Integer or Array.
- RazorConfig.Config.Validate: a blacklist element that is not a String is excluded (`BlacklistShape`), for `validate!` as for `fact_blacklisted?`. In Ruby, `validate!` skips a nil element, since `nil =~ pattern` is nil and `.compact` drops it, so a YAML list with a blank item validates; before Ruby 3.2 it likewise skips Integer, boolean and pair elements. Only `fact_blacklisted?` raises on them, in `Regexp.quote`. The model promises nothing for such lists.
- Ruby type errors the code does not handle are excluded by preconditions (`PathOption`, `BlacklistShape`, `Document`). Examples: a `<what>_path` that is not a String, a blacklist element that is not a String, a blacklist given as a Hash (which `Array()` would turn into pairs), a layer that is not a Hash, or a document that is not a Hash (a YAML file holding only a String, on which `yaml["all"]` is a substring lookup).
- `TEMPLATE_PATHS` (lib/razor/config.rb:15-16) is plain data with no behaviour.
- Concurrency is not modelled. The memoised pattern is a plain field updated by one caller at a time.
- RazorConfig.Config.Valid: `self[key]` hands out the nested Hashes and Arrays of `@values`; a caller that mutates one (say, appends to `config["facts"]["blacklist"]`) changes the settings in place and leaves a kept pattern stale, while `validate!` reads the new list. The model's settings are values, so the kept pattern always matches them and this aliasing is not captured.
