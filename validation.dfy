/**
 * `validate!` / `validate_facts_blacklist_rx` (lib/razor/config.rb:45-47, 80-89):
 * every `/.../` fragment of the blacklist is compiled on its own, in list
 * order, and the first that does not compile raises an
 * `InvalidConfigurationError` for `facts.blacklist`.
 */
module Validation {
  import opened Wrappers
  import opened Errors
  import opened Blacklist

  /** The key the blacklist check reports. */
  const BlacklistKey := "facts.blacklist"

  /** The error raised for a fragment the regex engine rejected with message `err`. */
  function RejectedFragment(frag: string, err: string): (e: Error)
    ensures e.InvalidConfiguration? && e.key == BlacklistKey
    ensures e.message ==
            "entry " + BlacklistKey + ": " + "entry " + frag + " is not a valid regular expression: " + err
  {
    InvalidConfigurationError(BlacklistKey, "entry " + frag + " is not a valid regular expression: " + err)
  }

  /** What validating `frags` in order does: pass, or raise for the first one that does not compile. */
  function ValidationOutcome(frags: seq<string>, compile: string -> Compiled): (r: Outcome<Error>)
    ensures r.Fail? ==> r.error.InvalidConfiguration? && r.error.key == BlacklistKey
  {
    if frags == [] then Pass
    else
      match compile(frags[0])
      case Rejected(err) => Fail(RejectedFragment(frags[0], err))
      case Compiles => ValidationOutcome(frags[1..], compile)
  }

  /** Validation passes exactly when every fragment compiles. */
  lemma {:induction false} PassIffAllCompile(frags: seq<string>, compile: string -> Compiled)
    ensures ValidationOutcome(frags, compile) == Pass <==>
              forall i :: 0 <= i < |frags| ==> compile(frags[i]) == Compiles
  {
    if frags != [] {
      PassIffAllCompile(frags[1..], compile);
      assert forall i :: 1 <= i < |frags| ==> frags[i] == frags[1..][i - 1];
    }
  }

  /**
   * A failure names the first fragment that does not compile, under the
   * `facts.blacklist` key, with the engine's message.
   */
  lemma {:induction false} FailsOnFirstRejected(frags: seq<string>, compile: string -> Compiled)
    requires ValidationOutcome(frags, compile).Fail?
    ensures exists j :: 0 <= j < |frags| && compile(frags[j]).Rejected?
              && (forall i :: 0 <= i < j ==> compile(frags[i]) == Compiles)
              && ValidationOutcome(frags, compile).error == RejectedFragment(frags[j], compile(frags[j]).message)
  {
    if compile(frags[0]).Compiles? {
      FailsOnFirstRejected(frags[1..], compile);
      var j :| 0 <= j < |frags[1..]| && compile(frags[1..][j]).Rejected?
              && (forall i :: 0 <= i < j ==> compile(frags[1..][i]) == Compiles)
              && ValidationOutcome(frags[1..], compile).error == RejectedFragment(frags[1..][j], compile(frags[1..][j]).message);
      assert forall i :: 1 <= i < j + 1 ==> frags[i] == frags[1..][i - 1];
      assert frags[j + 1] == frags[1..][j];
    } else {
      assert compile(frags[0]).Rejected?;
    }
  }

  /**
   * Over the blacklist entries: validation passes exactly when every `/.../`
   * entry's inner text compiles; literal entries are never compiled.
   */
  lemma EntriesPassIff(es: seq<string>, compile: string -> Compiled)
    ensures ValidationOutcome(RegexFragments(es), compile) == Pass <==>
              forall i :: 0 <= i < |es| && RegexBody(es[i]).Some? ==> compile(RegexBody(es[i]).value) == Compiles
  {
    var frags := RegexFragments(es);
    PassIffAllCompile(frags, compile);
    if forall k :: 0 <= k < |frags| ==> compile(frags[k]) == Compiles {
      forall i | 0 <= i < |es| && RegexBody(es[i]).Some?
        ensures compile(RegexBody(es[i]).value) == Compiles
      {
        RegexFragmentsMembers(es, RegexBody(es[i]).value);
      }
    }
    if forall i :: 0 <= i < |es| && RegexBody(es[i]).Some? ==> compile(RegexBody(es[i]).value) == Compiles {
      forall k | 0 <= k < |frags| ensures compile(frags[k]) == Compiles {
        RegexFragmentsMembers(es, frags[k]);
        var i :| 0 <= i < |es| && RegexBody(es[i]) == Some(frags[k]);
      }
    }
  }

  /** A blacklist of literal names always validates, whatever the regex engine would say. */
  lemma LiteralsAlwaysPass(es: seq<string>, compile: string -> Compiled)
    requires forall i :: 0 <= i < |es| ==> RegexBody(es[i]).None?
    ensures ValidationOutcome(RegexFragments(es), compile) == Pass
  {
    LiteralsHaveNoRegexFragments(es);
  }

  /** `["/(unclosed/"]` raises for `facts.blacklist` once the engine rejects "(unclosed". */
  lemma UnclosedGroupRaises(compile: string -> Compiled)
    requires compile("(unclosed").Rejected?
    ensures var o := ValidationOutcome(RegexFragments(["/(unclosed/"]), compile);
            o.Fail? && o.error.key == BlacklistKey
  {
    RegexBodyIff("/(unclosed/", "(unclosed");
    assert RegexFragments(["/(unclosed/"]) == ["(unclosed"];
  }

  /** `["plain_name"]` validates without consulting the regex engine. */
  lemma PlainNamePasses(compile: string -> Compiled)
    ensures ValidationOutcome(RegexFragments(["plain_name"]), compile) == Pass
  {
    assert RegexBody("plain_name").None?;
    LiteralsAlwaysPass(["plain_name"], compile);
  }
}
