/**
  The argument handling the `research` and `full` commands of
  src/code_recap/generate_blog_post.py share: the topic (possibly read from
  standard input), the repository selection (client category, then the name
  filter), the slug that names the default output directory, the context
  appended to a system prompt, and the integer counters `full` adds up over
  its two stages. Standard input, the configuration, `fnmatch` and the
  repository discovery are parameters.
*/
module Commands {
  import opened Wrappers
  import opened Text

  /** Why a command gives up with exit code 1 before doing any work. */
  datatype CommandError =
    | NoTopic               // `-` given and standard input is blank
    | NoRepositories        // no repository under the root
    | NoClientRepositories  // the client's category is empty
    | NoFilterMatch         // no repository passes the name filter

  // ---------------------------------------------------------------------------
  // topic

  /** The topic: the argument itself, or standard input stripped when the argument is `-`. */
  function ReadTopic(arg: string, stdin: string): Result<string, CommandError>
  {
    if arg == "-" then
      var topic := Strip(stdin);
      if topic == "" then Err(NoTopic) else Ok(topic)
    else Ok(arg)
  }

  /**
    Any argument but `-` is the topic as given, even an empty one; with `-`
    the command fails exactly when standard input is all whitespace, and
    otherwise the topic is standard input without its leading and trailing
    whitespace.
  */
  lemma ReadTopicSpec(arg: string, stdin: string)
    ensures arg != "-" ==> ReadTopic(arg, stdin) == Ok(arg)
    ensures arg == "-" ==>
              (ReadTopic(arg, stdin) == Err(NoTopic) <==> forall k :: 0 <= k < |stdin| ==> IsSpace(stdin[k]))
    ensures arg == "-" && ReadTopic(arg, stdin).Ok? ==>
              var topic := ReadTopic(arg, stdin).value;
              |topic| > 0 && !IsSpace(topic[0]) && !IsSpace(topic[|topic| - 1])
              && exists i, j :: 0 <= i <= j <= |stdin| && topic == stdin[i..j]
                   && (forall k :: 0 <= k < i ==> IsSpace(stdin[k]))
                   && (forall k :: j <= k < |stdin| ==> IsSpace(stdin[k]))
  {
    StripIsTrim(stdin);
    if arg == "-" {
      var i, j :| 0 <= i <= j <= |stdin| && Strip(stdin) == stdin[i..j]
                  && (forall k :: 0 <= k < i ==> IsSpace(stdin[k]))
                  && (forall k :: j <= k < |stdin| ==> IsSpace(stdin[k]));
      if Strip(stdin) == "" {
        assert i == j;
        assert forall k :: 0 <= k < |stdin| ==> IsSpace(stdin[k]) by {
          forall k | 0 <= k < |stdin| ensures IsSpace(stdin[k]) {
            if k < i {} else {}
          }
        }
      } else {
        assert stdin[i] == Strip(stdin)[0];
      }
    }
  }

  // ---------------------------------------------------------------------------
  // repository filter

  /** One pattern selects a repository: it glob-matches, or occurs in, the lower-cased basename. */
  predicate PatternHits(repo: string, pattern: string, glob: (string, string) -> bool)
  {
    var name := Lower(Basename(repo));
    glob(name, Lower(pattern)) || Contains(name, Lower(pattern))
  }

  /** Some pattern selects the repository. */
  predicate AnyHits(repo: string, patterns: seq<string>, glob: (string, string) -> bool)
  {
    exists k :: 0 <= k < |patterns| && PatternHits(repo, patterns[k], glob)
  }

  /** The repositories some pattern selects, in their order. */
  function Filtered(repos: seq<string>, patterns: seq<string>, glob: (string, string) -> bool): seq<string>
  {
    if |repos| == 0 then []
    else
      var last := repos[|repos| - 1];
      Filtered(repos[..|repos| - 1], patterns, glob) + (if AnyHits(last, patterns, glob) then [last] else [])
  }

  /** The positions of the selected repositories. */
  function FilteredPositions(repos: seq<string>, patterns: seq<string>, glob: (string, string) -> bool): seq<nat>
  {
    if |repos| == 0 then []
    else
      var n := |repos| - 1;
      FilteredPositions(repos[..n], patterns, glob) + (if AnyHits(repos[n], patterns, glob) then [n] else [])
  }

  /**
    The filter loop of `cmd_research` and `cmd_full`: each repository is
    appended once, at the first pattern that selects it, and the pattern loop
    then stops.
  */
  method FilterRepos(repos: seq<string>, patterns: seq<string>, glob: (string, string) -> bool)
    returns (filtered: seq<string>)
    ensures filtered == Filtered(repos, patterns, glob)
  {
    filtered := [];
    for i := 0 to |repos|
      invariant filtered == Filtered(repos[..i], patterns, glob)
    {
      var repo := repos[i];
      var repoName := Basename(repo);
      ghost var before := filtered;
      var hit := false;
      for j := 0 to |patterns|
        invariant !hit && filtered == before
        invariant forall k :: 0 <= k < j ==> !PatternHits(repo, patterns[k], glob)
      {
        var pattern := patterns[j];
        if glob(Lower(repoName), Lower(pattern)) || Contains(Lower(repoName), Lower(pattern)) {
          assert PatternHits(repo, patterns[j], glob);
          filtered := filtered + [repo];
          hit := true;
          break;
        }
      }
      FilteredStep(repos, i, patterns, glob);
    }
    assert repos[..|repos|] == repos;
  }

  lemma FilteredStep(repos: seq<string>, i: nat, patterns: seq<string>, glob: (string, string) -> bool)
    requires i < |repos|
    ensures Filtered(repos[..i + 1], patterns, glob)
            == Filtered(repos[..i], patterns, glob) + (if AnyHits(repos[i], patterns, glob) then [repos[i]] else [])
  {
    assert repos[..i + 1][..i] == repos[..i];
  }

  /**
    The filter keeps exactly the selected repositories, in order: the kept
    repositories are those at strictly increasing positions, every one of
    those positions holds a selected repository, and every selected
    repository's position is among them (so a repository listed once is kept
    at most once).
  */
  lemma {:induction false} FilteredExactly(repos: seq<string>, patterns: seq<string>, glob: (string, string) -> bool)
    ensures var f := Filtered(repos, patterns, glob); var ps := FilteredPositions(repos, patterns, glob);
            |ps| == |f|
            && (forall k :: 0 <= k < |ps| ==> ps[k] < |repos| && f[k] == repos[ps[k]] && AnyHits(repos[ps[k]], patterns, glob))
            && (forall k, l :: 0 <= k < l < |ps| ==> ps[k] < ps[l])
            && (forall j :: 0 <= j < |repos| && AnyHits(repos[j], patterns, glob) ==> j in ps)
    decreases |repos|
  {
    if |repos| > 0 {
      var n := |repos| - 1;
      var init := repos[..n];
      FilteredExactly(init, patterns, glob);
      var f0 := Filtered(init, patterns, glob);
      var ps0 := FilteredPositions(init, patterns, glob);
      forall k | 0 <= k < |ps0|
        ensures f0[k] == repos[ps0[k]]
      {
        assert init[ps0[k]] == repos[ps0[k]];
      }
      forall j | 0 <= j < n && AnyHits(repos[j], patterns, glob)
        ensures j in ps0
      {
        assert init[j] == repos[j];
      }
    }
  }

  /** A repository is in the filtered list exactly when it is listed and some pattern selects it. */
  lemma {:induction false} FilteredMembers(repos: seq<string>, patterns: seq<string>, glob: (string, string) -> bool,
                                           x: string)
    ensures x in Filtered(repos, patterns, glob) <==> x in repos && AnyHits(x, patterns, glob)
    decreases |repos|
  {
    if |repos| > 0 {
      var n := |repos| - 1;
      FilteredMembers(repos[..n], patterns, glob, x);
      assert repos == repos[..n] + [repos[n]];
    }
  }

  // ---------------------------------------------------------------------------
  // repository selection

  /**
    The repositories a command works on: all top-level repositories, narrowed
    to the client's category when a client is named and a configuration is
    loaded, then narrowed by the name filter when patterns are given; each
    step that leaves nothing is an error.
  */
  function Selected(allRepos: seq<string>, client: string, hasConfig: bool,
                    categorize: seq<string> -> map<string, seq<string>>,
                    patterns: seq<string>, glob: (string, string) -> bool): Result<seq<string>, CommandError>
  {
    if |allRepos| == 0 then Err(NoRepositories)
    else
      var byClient := if client != "" && hasConfig then ClientRepos(categorize(allRepos), client) else allRepos;
      if client != "" && hasConfig && |byClient| == 0 then Err(NoClientRepositories)
      else if |patterns| == 0 then Ok(byClient)
      else if |Filtered(byClient, patterns, glob)| == 0 then Err(NoFilterMatch)
      else Ok(Filtered(byClient, patterns, glob))
  }

  /** `categorized.get(client, [])`. */
  function ClientRepos(categorized: map<string, seq<string>>, client: string): seq<string>
  {
    if client in categorized then categorized[client] else []
  }

  /** The selection steps of `cmd_research`, repeated verbatim in `cmd_full`. */
  method SelectRepos(allRepos: seq<string>, client: string, hasConfig: bool,
                     categorize: seq<string> -> map<string, seq<string>>,
                     patterns: seq<string>, glob: (string, string) -> bool)
    returns (r: Result<seq<string>, CommandError>)
    ensures r == Selected(allRepos, client, hasConfig, categorize, patterns, glob)
  {
    if |allRepos| == 0 {
      return Err(NoRepositories);
    }
    var repos := allRepos;
    if client != "" && hasConfig {
      var categorized := categorize(allRepos);
      repos := ClientRepos(categorized, client);
      if |repos| == 0 {
        return Err(NoClientRepositories);
      }
    }
    if |patterns| > 0 {
      repos := FilterRepos(repos, patterns, glob);
      if |repos| == 0 {
        return Err(NoFilterMatch);
      }
    }
    return Ok(repos);
  }

  /**
    A selection is never empty; each selected repository comes from the
    client's category (or from all repositories when no category applies)
    and, when patterns are given, is selected by one; the filter fails only
    when no candidate is selected by any pattern.
  */
  lemma SelectedSpec(allRepos: seq<string>, client: string, hasConfig: bool,
                     categorize: seq<string> -> map<string, seq<string>>,
                     patterns: seq<string>, glob: (string, string) -> bool)
    ensures var r := Selected(allRepos, client, hasConfig, categorize, patterns, glob);
            var base := if client != "" && hasConfig then ClientRepos(categorize(allRepos), client) else allRepos;
            (r == Err(NoRepositories) <==> |allRepos| == 0)
            && (r.Ok? ==> |r.value| > 0
                          && forall x :: x in r.value ==> x in base && (|patterns| > 0 ==> AnyHits(x, patterns, glob)))
            && (r == Err(NoFilterMatch) ==>
                  |patterns| > 0 && forall x :: x in base ==> !AnyHits(x, patterns, glob))
  {
    var base := if client != "" && hasConfig then ClientRepos(categorize(allRepos), client) else allRepos;
    forall x
      ensures x in Filtered(base, patterns, glob) <==> x in base && AnyHits(x, patterns, glob)
    {
      FilteredMembers(base, patterns, glob, x);
    }
  }

  // ---------------------------------------------------------------------------
  // slug

  /** ASCII `\w`. */
  predicate IsWordChar(ch: char)
  {
    'a' <= ch <= 'z' || 'A' <= ch <= 'Z' || '0' <= ch <= '9' || ch == '_'
  }

  /** The characters a slug is made of. */
  predicate IsSlugChar(ch: char)
  {
    'a' <= ch <= 'z' || '0' <= ch <= '9' || ch == '_' || ch == '-'
  }

  /** The longest slug. */
  const SlugLimit := 50

  /** One character of the lower-cased topic, with anything outside `[\w\-]` replaced by `-`. */
  function SlugChar(ch: char): char
  {
    if IsWordChar(ch) || ch == '-' then ch else '-'
  }

  /** The lower-cased topic with its non-word characters replaced, cut to 50 characters. */
  function Slug(topic: string): string
  {
    var replaced := seq(|topic|, i requires 0 <= i < |topic| => SlugChar(LowerChar(topic[i])));
    if |replaced| <= SlugLimit then replaced else replaced[..SlugLimit]
  }

  /**
    The slug has the topic's length up to 50, is made of `[a-z0-9_-]` only,
    keeps each topic character already in that alphabet, lower-cases the
    letters, and has `-` exactly where the topic has a non-word character.
  */
  lemma SlugShape(topic: string)
    ensures var s := Slug(topic);
            |s| == (if |topic| <= SlugLimit then |topic| else SlugLimit)
            && (forall i :: 0 <= i < |s| ==> IsSlugChar(s[i]))
            && (forall i :: 0 <= i < |s| ==> (s[i] == topic[i] <==> IsSlugChar(topic[i])))
            && (forall i :: 0 <= i < |s| ==> (s[i] == '-' <==> !IsWordChar(topic[i])))
            && (forall i :: 0 <= i < |s| && IsWordChar(topic[i]) ==> s[i] == LowerChar(topic[i]))
  {
  }

  /** A slug is its own slug. */
  lemma SlugIdempotent(topic: string)
    ensures Slug(Slug(topic)) == Slug(topic)
  {
    var s := Slug(topic);
    SlugShape(topic);
    assert forall i :: 0 <= i < |s| ==> SlugChar(LowerChar(s[i])) == s[i];
  }

  // ---------------------------------------------------------------------------
  // system-prompt context

  /** The rule that opens the context, and the two headings. */
  const ContextRule := "\n\n---\n\nContext:\n"
  const CompanyHeading := "\nCompany Background:\n"
  const ClientHeading := "\nClient Context:\n"

  /** A heading and its text with a closing newline, or nothing when the text is empty. */
  function Section(heading: string, text: string): string
  {
    if text != "" then heading + text + "\n" else ""
  }

  /** The text appended to a system prompt for the company and client contexts. */
  function ContextSuffix(globalContext: string, clientContext: string): string
  {
    if globalContext == "" && clientContext == "" then ""
    else ContextRule + Section(CompanyHeading, globalContext) + Section(ClientHeading, clientContext)
  }

  /**
    The system prompt of the research and write stages: the stage's fixed
    prompt, extended with `+=` when either context is non-empty.
  */
  method WithContext(base: string, globalContext: string, clientContext: string) returns (prompt: string)
    ensures prompt == base + ContextSuffix(globalContext, clientContext)
  {
    prompt := base;
    if globalContext != "" || clientContext != "" {
      prompt := prompt + ContextRule;
      if globalContext != "" {
        prompt := prompt + CompanyHeading + globalContext + "\n";
      }
      ghost var mid := prompt;
      if clientContext != "" {
        prompt := prompt + ClientHeading + clientContext + "\n";
      }
      Appended(base, ContextRule, Section(CompanyHeading, globalContext), Section(ClientHeading, clientContext),
               mid, prompt);
    }
  }

  /** Appending in three steps appends the three parts at once. */
  lemma Appended<T>(a: seq<T>, b: seq<T>, c: seq<T>, d: seq<T>, mid: seq<T>, p: seq<T>)
    requires mid == a + b + c && p == mid + d
    ensures p == a + (b + c + d)
  {
  }

  /** The four parts of a concatenation, read back at their offsets. */
  lemma Parts(a: string, b: string, c: string, d: string)
    ensures var p := a + (b + c + d);
            |p| == |a| + |b| + |c| + |d|
            && p[..|a|] == a && OccursAt(p, b, |a|) && OccursAt(p, c, |a| + |b|) && OccursAt(p, d, |a| + |b| + |c|)
  {
    var p := a + (b + c + d);
    assert p[|a|..|a| + |b|] == b;
    assert p[|a| + |b|..|a| + |b| + |c|] == c;
    assert p[|a| + |b| + |c|..|p|] == d;
  }

  /**
    The fixed prompt is kept as a prefix and is the whole prompt exactly when
    both contexts are empty; otherwise the rule follows it, the company
    context sits under its heading right after the rule, and the client
    context under its heading after that.
  */
  lemma ContextLayout(base: string, globalContext: string, clientContext: string)
    ensures var p := base + ContextSuffix(globalContext, clientContext);
            StartsWith(p, base)
            && (p == base <==> globalContext == "" && clientContext == "")
            && (globalContext != "" || clientContext != "" ==> OccursAt(p, ContextRule, |base|))
            && (globalContext != "" ==>
                  OccursAt(p, CompanyHeading + globalContext + "\n", |base| + |ContextRule|))
            && (clientContext != "" ==>
                  var at := |base| + |ContextRule| + (if globalContext != "" then |CompanyHeading| + |globalContext| + 1 else 0);
                  OccursAt(p, ClientHeading + clientContext + "\n", at))
  {
    var g := Section(CompanyHeading, globalContext);
    var c := Section(ClientHeading, clientContext);
    if globalContext != "" || clientContext != "" {
      Parts(base, ContextRule, g, c);
      assert |ContextRule| > 0;
      assert |g| == if globalContext != "" then |CompanyHeading| + |globalContext| + 1 else 0;
      assert base + ContextSuffix(globalContext, clientContext) == base + (ContextRule + g + c);
    } else {
      assert base + ContextSuffix(globalContext, clientContext) == base;
    }
  }

  // ---------------------------------------------------------------------------
  // cost counters

  /** The integer counters of one stage's cost tracker. */
  datatype Usage = Usage(inputTokens: nat, outputTokens: nat, calls: nat)

  /** Field-wise sum. */
  function Plus(a: Usage, b: Usage): Usage
  {
    Usage(a.inputTokens + b.inputTokens, a.outputTokens + b.outputTokens, a.calls + b.calls)
  }

  /** The running totals `cmd_full` keeps over its two stages. */
  class CostCounters {
    var inputTokens: nat
    var outputTokens: nat
    var calls: nat

    /** A fresh tracker counts nothing. */
    constructor ()
      ensures Totals() == Usage(0, 0, 0)
    {
      inputTokens, outputTokens, calls := 0, 0, 0;
    }

    function Totals(): Usage
      reads this
    {
      Usage(inputTokens, outputTokens, calls)
    }

    /** Adds one stage's counters into the totals, field by field, in place. */
    method Absorb(stage: Usage)
      modifies this
      ensures Totals() == Plus(old(Totals()), stage)
    {
      inputTokens := inputTokens + stage.inputTokens;
      outputTokens := outputTokens + stage.outputTokens;
      calls := calls + stage.calls;
    }
  }

  /** The totals `cmd_full` reports: a fresh tracker that absorbs the research stage, then the write stage. */
  method FullRunUsage(research: Usage, write: Usage) returns (total: Usage)
    ensures total.inputTokens == research.inputTokens + write.inputTokens
    ensures total.outputTokens == research.outputTokens + write.outputTokens
    ensures total.calls == research.calls + write.calls
  {
    var counters := new CostCounters();
    counters.Absorb(research);
    counters.Absorb(write);
    total := counters.Totals();
  }
}
