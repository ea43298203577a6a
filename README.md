# code-recap blog-post generator and CLI dispatcher, in Dafny

This project models the deterministic core of `code-recap`. That means the
text and sequence handling of the blog-post generator
(`src/code_recap/generate_blog_post.py`) and the subcommand dispatcher of the
`code-recap` command (`src/code_recap/cli.py`). It proves the properties each
piece promises.

- **`Cli`** (cli.dfy): `main` is a function from `argv` to an outcome: print
  help, print the version, run a sub-tool with the rest of `argv`, or an
  unknown subcommand. The one recursive call, for `help <cmd>`, is included.
- **`GitShow`** (git_show.dfy): `get_commit_by_sha`. Two `git show` results
  are its inputs. The model covers the split on `\x00` and `\x1f`, the four
  verbatim fields, the stripped body, and the diff cut to `max_diff_lines`
  lines plus a "more lines" marker. It also has the record writer that
  `--format=%H%x1f%ad%x1f%an%x1f%s%x1f%b%x00` stands for, so that the parse
  can be proved its inverse.
- **`ShaRefs`** (sha_refs.dfy): `extract_commit_shas_from_research`, as
  `re.findall` runs its pattern. The scan goes left to right without
  overlaps. At each position the match takes the greedy hex run, then the
  optional `\s*(...)` group.
- **`Metadata`** (metadata.dfy):
  - the writer `format_research_metadata`;
  - the comment search of `parse_research_metadata` (`re.search` with
    `re.DOTALL`);
  - the post-processing of the loaded data. The YAML loader is a parameter.
- **`KeyedDedup`** (dedup.dfy): the first-occurrence de-duplication through
  a `seen` set, which both commit collectors use.
- **`Collect`** (collect.dfy): `gather_commits_for_period`,
  `find_repo_by_name` and `retrieve_referenced_commits`. Repository
  discovery, `git` and the directory test are function parameters.
- **`Prompt`** (prompt.dfy): `format_commits_for_prompt`. `sorted` is
  modelled as a stable insertion sort on `author_date`.
- **`Commands`** (commands.dfy): what `cmd_research` and `cmd_full` do
  before and around the two stages:
  - reading the topic;
  - the client and name filters on repositories;
  - the output slug;
  - the context added to a system prompt;
  - the integer counters summed over both stages.
- **`Text`** and **`Wrappers`**: Python's `split`, `join`, `strip`, `lower`,
  `in`, `os.path.basename`, `str(int)` and string ordering, on ASCII; plus
  `Option` and `Result`.

Loops that append to a list or a `seen` set are methods with loop
invariants. Each such method is proved equal to a specification function.
The properties the source promises are lemmas about those functions.

## Model

| member | source | states |
|---|---|---|
| Cli.Main | src/code_recap/cli.py:20-89 | No arguments, `-h` or `--help` prints help. `-v` or `--version` prints the version, and help is checked first. Any other first argument except `help` goes to its sub-tool or is unknown. A sub-tool gets `argv[1:]`, or `["--help"]` through `help X`. |
| Cli.AliasTableAgrees | src/code_recap/cli.py:39-77 | The `elif` chain routes exactly the names of the alias table, each to its own sub-tool. |
| Cli.HelpAlone | src/code_recap/cli.py:79-84 | `help` alone prints help. |
| Cli.HelpCommand | src/code_recap/cli.py:79-82 | `help X ...` gives exactly what `main([X, "--help"])` gives, worked out for every X. |
| Cli.HelpRecursionBounded | src/code_recap/cli.py:80-82 | `main`'s recursion depth is at most 2. `help X ...` is answered by `main([X, "--help"])`, one level shallower. Only `help help ...` recurses twice, and it ends in the help text. |
| Cli.RoutingByFirstArgument | src/code_recap/cli.py:36-77 | Two `argv` with the same first word (not `help`) reach the same outcome kind and tool, and each forwards its own `argv[1:]` unchanged. |
| Cli.ExitCodes | src/code_recap/cli.py:23-89 | Help and version return 0. An unknown subcommand returns 1, and so does any first word outside the alias table other than `help` and the flags. |
| GitShow.ParseHeader | src/code_recap/generate_blog_post.py:274-282 | Parsing fails exactly when the text before the first `\x00` has fewer than three `\x1f`. Otherwise sha, date, author and subject are the first four `\x1f` parts, whole and in order, and begin the output. The body is the fifth part stripped, or "" when there is none. |
| GitShow.HeaderFields | src/code_recap/generate_blog_post.py:274-281 | The first four `\x1f` parts, rejoined with `\x1f`, are a prefix of the record, and no part holds a `\x00`. |
| GitShow.ParseFormatRoundTrip | src/code_recap/generate_blog_post.py:265-282 | Parsing a record written in the `--format` layout, with fields free of `\x1f` and `\x00`, gives the header back with its body stripped, whatever follows the `\x00`. |
| GitShow.PyHead | src/code_recap/generate_blog_post.py:292 | `lines[:k]` is a prefix of length min(k, len) for k >= 0, and len+k (at least 0) for negative k. |
| GitShow.MarkerReadsBack | src/code_recap/generate_blog_post.py:293 | The marker is one line, and its digits read back as the number of dropped lines. |
| GitShow.TruncateDiffLines | src/code_recap/generate_blog_post.py:288-295 | A failed diff gives "". A diff of at most `max` lines is unchanged. Otherwise its lines are the first `max` lines plus one marker reporting `len - max` more lines, including the `max <= 0` cases. |
| GitShow.GetCommitBySha | src/code_recap/generate_blog_post.py:269-303 | A commit exists exactly when `git show` succeeded and the header parsed. Its fields are the parsed fields. |
| GitShow.GetCommitRoundTrip | src/code_recap/generate_blog_post.py:262-303 | For a record written in the `--format` layout, the commit is those fields, the body stripped, and the truncated diff. |
| ShaRefs.MatchAt | src/code_recap/generate_blog_post.py:199 | A match starts at its position and takes at least 9 characters. |
| ShaRefs.MatchAtShape | src/code_recap/generate_blog_post.py:199 | A match is found exactly at a backtick, then a maximal run of 7 or 8 `[a-f0-9]`, then a backtick. The SHA group is that run. When whitespace, `(`, non-empty text without `)` and a `)` follow the backtick, the repo group is that text and the match ends at the `)`. Otherwise the group is absent and the match ends at the backtick. |
| ShaRefs.ExtractCommitShas | src/code_recap/generate_blog_post.py:200-207 | The loop returns the references of all `findall` matches, in order. |
| ShaRefs.FindAllOrdered | src/code_recap/generate_blog_post.py:200 | Every reported match is a match at its own start, and the matches are in order without overlapping. |
| ShaRefs.FindAllComplete | src/code_recap/generate_blog_post.py:200 | Every position where the pattern matches is the start of a reported match or lies inside one. |
| ShaRefs.ExtractedRefsShape | src/code_recap/generate_blog_post.py:199-205 | Every result is a 7-8 character SHA of `[a-f0-9]`. Its repo is "" or stripped text without `)`. |
| ShaRefs.RefsAt | src/code_recap/generate_blog_post.py:203-205 | The k-th result is the k-th match's SHA and stripped repo. |
| ShaRefs.StrippedRepo | src/code_recap/generate_blog_post.py:204 | `repo.strip()` of a group without `)` has no `)` and no whitespace at either end. |
| Metadata.FormatResearchMetadata | src/code_recap/generate_blog_post.py:231-247 | The method's list, joined with newlines, is the written lines. |
| Metadata.MetadataLinesShape | src/code_recap/generate_blog_post.py:231-247 | The written lines are: the opening line first and `-->` last, then topic, period, client, author and root in order. A `commits:` line follows only when there are commits, then exactly two lines per commit, in input order. |
| Metadata.CommitLinesShape | src/code_recap/generate_blog_post.py:240-244 | There are two lines per commit: line 2k is its sha and line 2k+1 its repo. |
| Metadata.InnerLinesQuiet | src/code_recap/generate_blog_post.py:231-245 | When no argument holds a newline, no inner line is empty, starts with `-` or holds a newline. The first is the topic line. |
| Metadata.FormattedLines | src/code_recap/generate_blog_post.py:247 | With single-line arguments, splitting the written text on newlines gives the written lines back. |
| Metadata.LocateSkips | src/code_recap/generate_blog_post.py:151-152 | The search moves past characters that are not `<`. |
| Metadata.CommentAtBody | src/code_recap/generate_blog_post.py:151 | At an opening line that is followed by a body and `\n-->`, with no earlier `\n-->` in the body, the pattern captures exactly the body. |
| Metadata.CommentAtWritten | src/code_recap/generate_blog_post.py:151-152 | The written comment, wherever it sits, is matched at its start and captures its inner lines joined. |
| Metadata.LocateWritten | src/code_recap/generate_blog_post.py:151-152 | With single-line arguments, the reader locates the writer's comment and captures exactly its inner key lines. |
| Metadata.LocateAfter | src/code_recap/generate_blog_post.py:152 | A comment preceded by text without `<` is the one `re.search` finds. |
| Metadata.LocateInResearchFile | src/code_recap/generate_blog_post.py:569 | In the research file (title, blank line, metadata, research text), the reader finds the writer's inner lines when the topic has no `<`. |
| Metadata.ParseResearchMetadata | src/code_recap/generate_blog_post.py:150-183 | The method, with its commit-filter loop, computes the parser's specification. |
| Metadata.ParseNoneCases | src/code_recap/generate_blog_post.py:152-183 | Over the loaded values modelled (null, booleans, integers, strings, lists, mappings), `None` comes exactly from these cases: no comment; the loader fails; the data is empty or not a mapping; a truthy number or `True` under `commits`. |
| Metadata.KeptCommitsAppend | src/code_recap/generate_blog_post.py:167-171 | The commit filter keeps order: filtering a concatenation concatenates the filtered parts. |
| Metadata.KeptCommitsOne | src/code_recap/generate_blog_post.py:170-171 | One item is kept, as its `(sha, repo)` pair, exactly when it is a mapping with both keys. |
| Metadata.KeptAllEntries | src/code_recap/generate_blog_post.py:167-171 | Entries the writer writes are all kept, in order, as their pairs. |
| Metadata.FromIntendedData | src/code_recap/generate_blog_post.py:164-180 | Data holding every written value as a plain string yields the five fields and the commit pairs. |
| Metadata.ParseFormatRoundTrip | src/code_recap/generate_blog_post.py:151-180 | Parsing the written text with a loader that reads every written value back as a plain string gives back the fields and commits written. |
| KeyedDedup.DedupSnoc | src/code_recap/generate_blog_post.py:415-418 | One more candidate is appended exactly when its key is unseen, and the seen set grows by its key. |
| KeyedDedup.DedupIsFirstOccurrences | src/code_recap/generate_blog_post.py:408-429 | Kept candidates are exactly the first occurrences of their keys, at increasing positions. |
| KeyedDedup.DedupDistinct | src/code_recap/generate_blog_post.py:408-429 | No two kept candidates share a key, and every key is kept. |
| Collect.GatherCommitsForPeriod | src/code_recap/generate_blog_post.py:407-431 | The nested loops compute the first occurrences by full SHA of the candidates. The candidates are each repository's own commits, then its submodules' commits, in repository order. |
| Collect.AbsorbCommits | src/code_recap/generate_blog_post.py:415-418 | Walking one list keeps the `seen` set and the result equal to the de-duplication of everything walked. |
| Collect.AbsorbSubmodules | src/code_recap/generate_blog_post.py:421-429 | The same for the submodule loop. |
| Collect.GatherProperties | src/code_recap/generate_blog_post.py:407-431 | No two gathered commits share a SHA, every SHA seen is gathered, and each is the first candidate with its SHA, in candidate order. |
| Collect.FirstNamed | src/code_recap/generate_blog_post.py:323-329 | The path found has the name, ignoring case. None is found exactly when no path has it. |
| Collect.FirstNamedIsFirst | src/code_recap/generate_blog_post.py:323-329 | The path found is at a position before which no path has the name. |
| Collect.FindRepoByName | src/code_recap/generate_blog_post.py:318-331 | The two loops with early returns compute the lookup's specification. |
| Collect.FindRepoSpec | src/code_recap/generate_blog_post.py:318-331 | It returns `root/name` when that is a directory. Otherwise it returns the first repository or submodule in search order with the name (ignoring case), or `None` exactly when none has it. |
| Collect.RetrieveReferencedCommits | src/code_recap/generate_blog_post.py:349-384 | The loop resolves, in order, the first reference of each SHA prefix among the metadata references followed by the content references. |
| Collect.ResolveReference | src/code_recap/generate_blog_post.py:362-382 | A reference is tried in its named repository first. Otherwise, or when that fails, the search over all repositories runs. |
| Collect.SearchAllRepos | src/code_recap/generate_blog_post.py:372-382 | The search as written: a top-level hit ends it; a submodule hit ends only that repository's submodule loop. |
| Collect.SearchSubmodules | src/code_recap/generate_blog_post.py:378-382 | The submodule loop appends at most its first hit. |
| Collect.RetrieveTriesEachPrefixOnce | src/code_recap/generate_blog_post.py:350-360 | Each SHA prefix is attempted once, at its first reference, with metadata references before content references. |
| Collect.SearchIntended | src/code_recap/generate_blog_post.py:372-382 | The corrected search yields at most one commit. |
| Collect.SearchIntendedIsFirstHit | src/code_recap/generate_blog_post.py:372-382 | The corrected search yields exactly the first hit of the search as written. |
| Collect.ResolveIntended | src/code_recap/generate_blog_post.py:362-382 | The corrected resolution yields at most one commit per reference. |
| Collect.RetrieveIntendedAtMostOne | src/code_recap/generate_blog_post.py:349-384 | Corrected, retrieval yields at most one commit per distinct SHA prefix. |
| Collect.SharedSearch | src/code_recap/generate_blog_post.py:372-382 | Two repositories whose `lib` submodules both hold the commit: the search as written returns it twice. |
| Collect.SharedSubmoduleCounterexample | src/code_recap/generate_blog_post.py:372-382 | One reference without a repository name is resolved to two entries for the same commit as written, and to one when corrected. |
| Prompt.FormatCommitsForPrompt | src/code_recap/generate_blog_post.py:443-468 | The method gives the fixed "No commits found" text for no commits, and otherwise the prompt's lines joined. |
| Prompt.CollectLines | src/code_recap/generate_blog_post.py:451-466 | The loop appends every commit's section, in sorted order. |
| Prompt.AppendSection | src/code_recap/generate_blog_post.py:452-466 | One iteration appends exactly one commit's section. |
| Prompt.SortByDateSpec | src/code_recap/generate_blog_post.py:449 | The sort orders by `author_date` and is a permutation. It is stable: the commits with one date keep their input order. |
| Prompt.InsertSorted | src/code_recap/generate_blog_post.py:449 | Inserting into a sorted list keeps it sorted. |
| Prompt.InsertPerm | src/code_recap/generate_blog_post.py:449 | Insertion adds exactly the inserted commit. |
| Prompt.InsertWithDate | src/code_recap/generate_blog_post.py:449 | Insertion puts the commit before the others of its date. |
| Prompt.Sha8 | src/code_recap/generate_blog_post.py:452 | `sha[:8]` is the prefix of length min(8, len). |
| Prompt.SectionSize | src/code_recap/generate_blog_post.py:452-466 | A section has 8 lines, plus 1 with a body, plus 4 with a diff. |
| Prompt.SectionAt | src/code_recap/generate_blog_post.py:451-466 | The k-th commit's section follows those of the commits before it, and starts with its `## Commit:` heading. |
| Prompt.PromptHeader | src/code_recap/generate_blog_post.py:446 | The prompt begins with the count line, whose numeral reads back as the number of commits. |
| Prompt.PromptSections | src/code_recap/generate_blog_post.py:446-468 | After the two header lines, the sections follow one per commit, in date order. |
| Text.SplitShape | src/code_recap/generate_blog_post.py:274 | `split` gives one more part than separators, none holding the separator. |
| Text.SplitFirstIsPrefix | src/code_recap/generate_blog_post.py:274 | `split(c)[0]` is the text before the first `c`. |
| Text.JoinSplit | src/code_recap/generate_blog_post.py:290-295 | Joining the parts of a split gives the text back. |
| Text.SplitJoin | src/code_recap/generate_blog_post.py:247 | Splitting a join of separator-free parts gives the parts back. |
| Text.DecimalRoundTrip | src/code_recap/generate_blog_post.py:446 | `str(n)` is all digits, without a leading zero, and reads back as n. |
| Text.StripIsTrim | src/code_recap/generate_blog_post.py:282 | `strip` removes exactly a whitespace prefix and suffix, and leaves no whitespace at either end. |
| Text.ContainsAt | src/code_recap/generate_blog_post.py:821 | `p in s` holds exactly when `p` occurs at some offset. |
| Text.FindFromFirst | src/code_recap/generate_blog_post.py:151 | The lazy `.*?` stops at the first `\n-->`. |
| Text.BasenameShape | src/code_recap/generate_blog_post.py:324 | `basename` is the `/`-free suffix after the last `/`. |
| Text.LexLeTotal | src/code_recap/generate_blog_post.py:449 | String order is total. |
| Text.LexLeTrans | src/code_recap/generate_blog_post.py:449 | String order is transitive. |
| Text.LexLeAntisym | src/code_recap/generate_blog_post.py:449 | String order is antisymmetric. |
| Commands.ReadTopicSpec | src/code_recap/generate_blog_post.py:774-780 | Any argument but `-` is the topic. With `-`, an all-whitespace input is the error; otherwise the topic is the input without leading and trailing whitespace, and is non-empty. |
| Commands.FilterRepos | src/code_recap/generate_blog_post.py:815-825 | The nested loop with `break` computes the order-preserving filter. |
| Commands.FilteredExactly | src/code_recap/generate_blog_post.py:815-825 | The filter keeps exactly the repositories some pattern selects (glob match or substring of the lower-cased basename). It keeps them at increasing positions, each position once. |
| Commands.FilteredMembers | src/code_recap/generate_blog_post.py:815-825 | A repository is kept exactly when it is listed and selected. |
| Commands.SelectRepos | src/code_recap/generate_blog_post.py:796-828 | The method computes the selection's specification, early returns included. |
| Commands.SelectedSpec | src/code_recap/generate_blog_post.py:796-828 | No repository at all is the first error. A selection is never empty and comes from the client's category when one applies. The name filter fails only when no candidate is selected. |
| Commands.SlugShape | src/code_recap/generate_blog_post.py:868 | The slug has the topic's length capped at 50 and uses only `[a-z0-9_-]`. It has `-` exactly where the topic has a non-word character, and lower-cases the word characters. |
| Commands.SlugIdempotent | src/code_recap/generate_blog_post.py:1024 | A slug is its own slug. |
| Commands.WithContext | src/code_recap/generate_blog_post.py:537-543 | The `+=` steps append the context suffix to the fixed prompt. |
| Commands.ContextLayout | src/code_recap/generate_blog_post.py:646-651 | The prompt is unchanged exactly when both contexts are empty. Otherwise the rule, the company context under its heading, and then the client context under its heading sit at their offsets. |
| Commands.CostCounters.constructor | src/code_recap/generate_blog_post.py:1031 | A fresh tracker counts nothing. |
| Commands.CostCounters.Absorb | src/code_recap/generate_blog_post.py:1056-1059 | Absorbing a stage adds its three counters field by field. |
| Commands.FullRunUsage | src/code_recap/generate_blog_post.py:1031-1086 | The totals `cmd_full` reports are the field-wise sums of the research and write stages. |

## Left out

- The summariser that `summarize_activity` provides, `CostTracker`'s definition, and the LLM calls (`call_llm`, `litellm`, `cmd_list_models`) are not part of this model. The dry-run branches only print.
- `git`, the file system and repository discovery are not modelled (`run_git`, `get_commits_with_diffs`, `discover_top_level_repos`, `discover_all_submodules`, `fetch_repos_with_progress`, `os.path.isdir`). Their results are function parameters.
- `yaml.safe_load` is a parameter that returns the loaded value, or nothing when it raises or PyYAML is missing.
- `fnmatch.fnmatch` is an uninterpreted parameter of the filter.
- Configuration loading (`load_config`, `categorize_repos`, `get_client_context`) and the choice of contexts from it are parameters. So are standard input and the working directory's parent.
- Commands.FullRunUsage: `total_cost` and the remaining budget `max_cost - total_cost` are floating point and are left out. Only the three integer counters are summed.
- The output-directory choice of `cmd_full`, `os.makedirs`, file reads and writes, and `print` output are not modelled.
- argparse wiring (`add_common_args`, `add_research_args`, the parser in `main`) and `cmd_write`'s file check are not modelled.
- deploy_pypi.py is not part of this model. It runs `build` and `twine` as subprocesses.
- Text.StripIsTrim: `\s`, `strip` and `lower` are ASCII only. Python's Unicode whitespace and case mapping are not modelled.
- Commands.SlugShape: `\w` is ASCII only. A non-ASCII letter becomes `-` here, while Python keeps it.
- GitShow.GetCommitBySha: the `--date=iso-local` date is taken as the text `git` prints. Dates are compared as strings, as `sorted` does.
- Metadata.ParseFormatRoundTrip: the loader is assumed to read every value back as a plain string, which `yaml.safe_load` does not always do. An empty value loads as null, and the default run writes `client: ` with an empty client. An all-digit period or SHA loads as an integer. A topic holding `: ` or starting with a YAML indicator (`#`, `[`, `{`, `*`, `&`, `!`, `|`, `>`, `'`, `"`, `%`, `@`) fails to load, and the reader then returns `None`. No round trip is promised for those inputs.
- Metadata.ParseNoneCases: loaded values are modelled as null, booleans, integers, strings, lists and mappings. YAML floats, dates and other tagged values are not modelled.
- Cli.Main: printing the help and version text and running a sub-tool are outcomes, not effects. The sub-tool's exit code is a parameter of `ExitCode`.

## Findings

| source | as written | input that shows it | evidently intended | confidence | as-written member | corrected member |
|---|---|---|---|---|---|---|
| src/code_recap/generate_blog_post.py:378-382 | After a submodule hit, the `break` leaves only the submodule loop. The loop over top-level repositories goes on, so one SHA prefix can add several commits. | Reference `abc1234` with no repository. Top-level repositories `/r/a` and `/r/b` lack the commit; both have a `lib` submodule that holds it. | The search stops at the first hit, as it does for a top-level hit at :376, so each SHA prefix yields at most one commit. | medium; not executed | Collect.SharedSubmoduleCounterexample | Collect.RetrieveIntendedAtMostOne |
