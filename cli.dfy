/**
  The `code-recap` command-line dispatcher: `main` in src/code_recap/cli.py.
  `main` looks only at its first argument and either prints the help text,
  prints the version, hands the remaining arguments to one of the sub-tools, or
  reports an unknown subcommand. The printing itself and the sub-tools are not
  modelled: the outcome says which of these happens, and `ExitCode` says what
  `main` returns.
*/
module Cli {
  import opened Wrappers

  /** The sub-tools whose own `main` receives the remaining arguments. */
  datatype Tool =
    | Summarize     // code_recap.summarize_activity
    | Daily         // code_recap.summarize_daily_activity
    | Review        // code_recap.git_activity_review
    | HtmlReport    // code_recap.generate_html_report
    | BlogPost      // code_recap.generate_blog_post
    | ListCommits   // code_recap.list_commits_by_date
    | Deploy        // code_recap.deploy_reports
    | GitUtils      // code_recap.git_utils

  /** What one call of `main` does. */
  datatype Outcome =
    | PrintHelp                             // help text on stdout, returns 0
    | PrintVersion                          // "code-recap <version>", returns 0
    | Run(tool: Tool, args: seq<string>)    // returns the sub-tool's exit code
    | UnknownSubcommand(name: string)       // message on stderr, returns 1

  /** `main`'s return value, given the code the sub-tool returns when one is run. */
  function ExitCode(o: Outcome, toolCode: int): int
  {
    match o
    case PrintHelp => 0
    case PrintVersion => 0
    case Run(_, _) => toolCode
    case UnknownSubcommand(_) => 1
  }

  /** Every subcommand name with the tool it selects, one entry per alias. */
  const Aliases: map<string, Tool> := map[
    "summarize" := Summarize, "summary" := Summarize, "report" := Summarize,
    "daily" := Daily, "today" := Daily,
    "stats" := Review, "review" := Review, "activity" := Review,
    "html" := HtmlReport, "html-report" := HtmlReport,
    "blog" := BlogPost, "blog-post" := BlogPost,
    "commits" := ListCommits, "list-commits" := ListCommits,
    "deploy" := Deploy,
    "git" := GitUtils, "repos" := GitUtils
  ]

  predicate IsHelpFlag(arg: string) { arg == "-h" || arg == "--help" }

  predicate IsVersionFlag(arg: string) { arg == "-v" || arg == "--version" }

  /** How many more nested calls `main` makes for `help <cmd>`: it is the measure that ends the recursion. */
  function HelpDepth(argv: seq<string>): nat
  {
    if |argv| >= 2 && argv[0] == "help" then (if argv[1] == "help" then 2 else 1) else 0
  }

  /** The if/elif chain of `main` that picks a sub-tool by subcommand name. */
  function ToolFor(subcommand: string): Option<Tool>
  {
    if subcommand == "summarize" || subcommand == "summary" || subcommand == "report" then Some(Summarize)
    else if subcommand == "daily" || subcommand == "today" then Some(Daily)
    else if subcommand == "stats" || subcommand == "review" || subcommand == "activity" then Some(Review)
    else if subcommand == "html" || subcommand == "html-report" then Some(HtmlReport)
    else if subcommand == "blog" || subcommand == "blog-post" then Some(BlogPost)
    else if subcommand == "commits" || subcommand == "list-commits" then Some(ListCommits)
    else if subcommand == "deploy" then Some(Deploy)
    else if subcommand == "git" || subcommand == "repos" then Some(GitUtils)
    else None
  }

  /** The if/elif chain and the alias table select the same tool for every name. */
  lemma AliasTableAgrees(name: string)
    ensures name in Aliases <==> ToolFor(name).Some?
    ensures name in Aliases ==> ToolFor(name) == Some(Aliases[name])
  {
  }

  /**
    `main(argv)`: the help check comes first, then the version check, then the
    subcommand routes, then `help`, and anything else is an unknown subcommand.
  */
  function Main(argv: seq<string>): (o: Outcome)
    ensures |argv| == 0 || IsHelpFlag(argv[0]) ==> o == PrintHelp
    ensures |argv| > 0 && IsVersionFlag(argv[0]) ==> o == PrintVersion
    ensures |argv| > 0 && !IsHelpFlag(argv[0]) && !IsVersionFlag(argv[0]) && argv[0] != "help" ==>
              o == match ToolFor(argv[0])
                   case Some(t) => Run(t, argv[1..])
                   case None => UnknownSubcommand(argv[0])
    ensures o.Run? ==> o.args == argv[1..] || o.args == ["--help"]
    decreases HelpDepth(argv)
  {
    if |argv| == 0 || IsHelpFlag(argv[0]) then PrintHelp
    else if IsVersionFlag(argv[0]) then PrintVersion
    else
      var subcommand := argv[0];
      var subArgv := argv[1..];
      match ToolFor(subcommand)
      case Some(t) => Run(t, subArgv)
      case None =>
        if subcommand == "help" then
          if |subArgv| > 0 then Main([subArgv[0], "--help"]) else PrintHelp
        else UnknownSubcommand(subcommand)
  }

  /** `help` alone prints the help text. */
  lemma HelpAlone()
    ensures Main(["help"]) == PrintHelp
  {
    assert ToolFor("help").None?;
  }

  /**
    `help X ...` returns exactly what `main([X, "--help"])` returns: the help
    text for `-h`, `--help` and `help`, the version for `-v` and `--version`,
    the sub-tool run with `["--help"]`, or the unknown-subcommand error for X.
  */
  lemma HelpCommand(x: string, rest: seq<string>)
    ensures Main(["help", x] + rest) == Main([x, "--help"])
    ensures Main([x, "--help"]) ==
      if IsHelpFlag(x) || x == "help" then PrintHelp
      else if IsVersionFlag(x) then PrintVersion
      else match ToolFor(x)
           case Some(t) => Run(t, ["--help"])
           case None => UnknownSubcommand(x)
  {
    var argv := ["help", x] + rest;
    assert argv[0] == "help" && argv[1..] == [x] + rest;
    if x == "help" {
      assert Main(["help", "--help"]) == Main(["--help", "--help"]);
    }
  }

  /**
    The `help` recursion is at most two calls deep: `help X ...` is answered by
    `main([X, "--help"])`, one level shallower, and only `help help ...` recurses
    twice, ending at `main(["--help", "--help"])`, which prints the help text.
  */
  lemma HelpRecursionBounded(argv: seq<string>)
    ensures HelpDepth(argv) <= 2
    ensures |argv| >= 2 && argv[0] == "help" ==>
              Main(argv) == Main([argv[1], "--help"]) && HelpDepth([argv[1], "--help"]) < HelpDepth(argv)
    ensures |argv| >= 2 && argv[0] == "help" && argv[1] == "help" ==>
              HelpDepth(argv) == 2 && Main(argv) == Main(["help", "--help"]) == Main(["--help", "--help"]) == PrintHelp
    ensures !(|argv| >= 2 && argv[0] == "help") ==> HelpDepth(argv) == 0
  {
    if |argv| >= 2 && argv[0] == "help" {
      HelpCommand(argv[1], argv[2..]);
      assert argv == ["help", argv[1]] + argv[2..];
      if argv[1] == "help" {
        HelpCommand("--help", []);
      }
    }
  }

  /** Routing depends only on the first argument; the rest is forwarded unchanged. */
  lemma RoutingByFirstArgument(argv: seq<string>, argv': seq<string>)
    requires |argv| > 0 && |argv'| > 0 && argv[0] == argv'[0] && argv[0] != "help"
    ensures Main(argv).Run? <==> Main(argv').Run?
    ensures Main(argv).Run? ==>
              Main(argv).tool == Main(argv').tool && Main(argv).args == argv[1..] && Main(argv').args == argv'[1..]
    ensures Main(argv) == PrintHelp <==> Main(argv') == PrintHelp
    ensures Main(argv) == PrintVersion <==> Main(argv') == PrintVersion
  {
  }

  /** Help and version exit with 0, an unknown subcommand with 1. */
  lemma ExitCodes(argv: seq<string>, toolCode: int)
    ensures Main(argv) == PrintHelp || Main(argv) == PrintVersion ==> ExitCode(Main(argv), toolCode) == 0
    ensures Main(argv).UnknownSubcommand? ==> ExitCode(Main(argv), toolCode) == 1
    ensures (|argv| > 0 && argv[0] != "help" && !IsHelpFlag(argv[0]) && !IsVersionFlag(argv[0])
             && argv[0] !in Aliases) ==> ExitCode(Main(argv), toolCode) == 1
  {
    if |argv| > 0 {
      AliasTableAgrees(argv[0]);
    }
  }
}
