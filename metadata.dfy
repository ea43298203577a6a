/**
  The research metadata block of src/code_recap/generate_blog_post.py: the
  writer `format_research_metadata`, which puts YAML-style `key: value` lines
  inside an HTML comment, and the reader `parse_research_metadata`, which finds
  that comment with `re.search` and post-processes what the YAML loader made of
  its inner lines. The loader itself (`yaml.safe_load`) is a parameter: it
  returns the loaded value, or `None` when it raises (or is not installed).
*/
module Metadata {
  import opened Wrappers
  import opened Text

  // ---------------------------------------------------------------------------
  // writer

  /** First and last line of the comment. */
  const OpenLine := "<!-- blog-research-meta"
  const CloseLine := "-->"

  /** The `topic` .. `root` lines, in the order they are written. */
  function FieldLines(topic: string, period: string, client: string, author: string, root: string): seq<string>
  {
    ["topic: " + topic, "period: " + period, "client: " + client, "author: " + author, "root: " + root]
  }

  /** Two lines per commit, in input order. */
  function CommitLines(commits: seq<(string, string)>): seq<string>
  {
    if |commits| == 0 then []
    else
      var last := commits[|commits| - 1];
      CommitLines(commits[..|commits| - 1]) + ["  - sha: " + last.0, "    repo: " + last.1]
  }

  /** The `commits:` block, present only when there are commits. */
  function CommitBlock(commits: seq<(string, string)>): seq<string>
  {
    if |commits| == 0 then [] else ["commits:"] + CommitLines(commits)
  }

  /** The lines between the comment's first and last line. */
  function InnerLines(topic: string, period: string, client: string, author: string, root: string,
                      commits: seq<(string, string)>): seq<string>
  {
    FieldLines(topic, period, client, author, root) + CommitBlock(commits)
  }

  /** Every line `format_research_metadata` writes. */
  function MetadataLines(topic: string, period: string, client: string, author: string, root: string,
                         commits: seq<(string, string)>): seq<string>
  {
    [OpenLine] + InnerLines(topic, period, client, author, root, commits) + [CloseLine]
  }

  /** `format_research_metadata`: builds the list of lines and joins it with newlines. */
  method FormatResearchMetadata(topic: string, period: string, client: string, author: string, root: string,
                                commits: seq<(string, string)>) returns (r: string)
    ensures r == Join(MetadataLines(topic, period, client, author, root, commits), "\n")
  {
    var lines := [OpenLine] + FieldLines(topic, period, client, author, root);
    ghost var base := lines;
    if |commits| > 0 {
      lines := lines + ["commits:"];
      for i := 0 to |commits|
        invariant lines == base + ["commits:"] + CommitLines(commits[..i])
      {
        ghost var prev := lines;
        lines := lines + ["  - sha: " + commits[i].0, "    repo: " + commits[i].1];
        CommitLinesStep(commits, i, base + ["commits:"], prev, lines);
      }
      assert commits[..|commits|] == commits;
      Regroup(base, ["commits:"], CommitLines(commits), []);
    } else {
      assert lines == base + [];
    }
    lines := lines + [CloseLine];
    LinesAssembled(topic, period, client, author, root, commits, lines);
    r := Join(lines, "\n");
  }

  /** One pass of the writer's loop: the two lines of commit `i` extend the lines of the commits before it. */
  lemma CommitLinesStep(commits: seq<(string, string)>, i: nat, pre: seq<string>, lines: seq<string>, lines': seq<string>)
    requires i < |commits|
    requires lines == pre + CommitLines(commits[..i])
    requires lines' == lines + ["  - sha: " + commits[i].0, "    repo: " + commits[i].1]
    ensures lines' == pre + CommitLines(commits[..i + 1])
  {
    assert commits[..i + 1][..i] == commits[..i];
  }

  /** The writer's list, assembled from its parts, is the written lines. */
  lemma LinesAssembled(topic: string, period: string, client: string, author: string, root: string,
                       commits: seq<(string, string)>, lines: seq<string>)
    requires lines == [OpenLine] + FieldLines(topic, period, client, author, root) + CommitBlock(commits) + [CloseLine]
    ensures lines == MetadataLines(topic, period, client, author, root, commits)
  {
    Regroup([OpenLine], FieldLines(topic, period, client, author, root), CommitBlock(commits), [CloseLine]);
  }

  lemma Regroup<T>(a: seq<T>, b: seq<T>, c: seq<T>, d: seq<T>)
    ensures a + b + c + d == a + (b + c) + d
  {
  }

  lemma {:induction false} CommitLinesShape(commits: seq<(string, string)>)
    ensures |CommitLines(commits)| == 2 * |commits|
    ensures forall k :: 0 <= k < |commits| ==>
              CommitLines(commits)[2 * k] == "  - sha: " + commits[k].0
              && CommitLines(commits)[2 * k + 1] == "    repo: " + commits[k].1
    decreases |commits|
  {
    if |commits| > 0 {
      var init := commits[..|commits| - 1];
      CommitLinesShape(init);
      forall k | 0 <= k < |commits| - 1
        ensures commits[k] == init[k]
      {
      }
    }
  }

  /**
    The written lines: the opening line first, `-->` last, then the five
    fields in order, and a `commits:` line followed by exactly two lines per
    commit, in input order, only when there are commits.
  */
  lemma MetadataLinesShape(topic: string, period: string, client: string, author: string, root: string,
                           commits: seq<(string, string)>)
    ensures var ls := MetadataLines(topic, period, client, author, root, commits);
            ls[0] == OpenLine && ls[|ls| - 1] == CloseLine
            && ls[1..6] == FieldLines(topic, period, client, author, root)
            && (|commits| == 0 ==> |ls| == 7)
            && (|commits| > 0 ==>
                  |ls| == 8 + 2 * |commits| && ls[6] == "commits:"
                  && forall k :: 0 <= k < |commits| ==>
                       ls[7 + 2 * k] == "  - sha: " + commits[k].0 && ls[8 + 2 * k] == "    repo: " + commits[k].1)
  {
    CommitLinesShape(commits);
    var ls := MetadataLines(topic, period, client, author, root, commits);
    if |commits| > 0 {
      forall k | 0 <= k < |commits|
        ensures ls[7 + 2 * k] == "  - sha: " + commits[k].0 && ls[8 + 2 * k] == "    repo: " + commits[k].1
      {
        assert ls[7 + 2 * k] == CommitLines(commits)[2 * k];
        assert ls[8 + 2 * k] == CommitLines(commits)[2 * k + 1];
      }
    }
  }

  /** No argument holds a line break. */
  predicate SingleLineArgs(topic: string, period: string, client: string, author: string, root: string,
                           commits: seq<(string, string)>)
  {
    '\n' !in topic && '\n' !in period && '\n' !in client && '\n' !in author && '\n' !in root
    && forall k :: 0 <= k < |commits| ==> '\n' !in commits[k].0 && '\n' !in commits[k].1
  }

  /** Lines that a newline in the text cannot be followed by `-` at: non-empty, not starting with `-`, single. */
  predicate QuietLines(lines: seq<string>)
  {
    forall k :: 0 <= k < |lines| ==> |lines[k]| > 0 && lines[k][0] != '-' && '\n' !in lines[k]
  }

  lemma InnerLinesQuiet(topic: string, period: string, client: string, author: string, root: string,
                        commits: seq<(string, string)>)
    requires SingleLineArgs(topic, period, client, author, root, commits)
    ensures QuietLines(InnerLines(topic, period, client, author, root, commits))
    ensures InnerLines(topic, period, client, author, root, commits)[0] == "topic: " + topic
  {
    var fields := FieldLines(topic, period, client, author, root);
    QuietFields(topic, period, client, author, root);
    QuietCommitLines(commits);
    if |commits| > 0 {
      QuietAppend(["commits:"], CommitLines(commits));
    }
    QuietAppend(fields, CommitBlock(commits));
  }

  /** The five field lines are quiet when no field holds a line break. */
  lemma QuietFields(topic: string, period: string, client: string, author: string, root: string)
    requires '\n' !in topic && '\n' !in period && '\n' !in client && '\n' !in author && '\n' !in root
    ensures QuietLines(FieldLines(topic, period, client, author, root))
  {
    QuietLine("topic: ", topic);
    QuietLine("period: ", period);
    QuietLine("client: ", client);
    QuietLine("author: ", author);
    QuietLine("root: ", root);
  }

  /** A tagged line is quiet when its tag is and its value holds no line break. */
  lemma QuietLine(tag: string, v: string)
    requires |tag| > 0 && tag[0] != '-' && '\n' !in tag && '\n' !in v
    ensures |tag + v| > 0 && (tag + v)[0] != '-' && '\n' !in tag + v
  {
    assert (tag + v)[0] == tag[0];
    assert forall c :: c in tag + v ==> c in tag || c in v;
  }

  /** Quiet lines stay quiet when put together. */
  lemma QuietAppend(a: seq<string>, b: seq<string>)
    requires QuietLines(a) && QuietLines(b)
    ensures QuietLines(a + b)
  {
    forall k | 0 <= k < |a + b|
      ensures |(a + b)[k]| > 0 && (a + b)[k][0] != '-' && '\n' !in (a + b)[k]
    {
      if k >= |a| {
        assert (a + b)[k] == b[k - |a|];
      }
    }
  }

  /** The commit lines are quiet when no sha or repository holds a line break. */
  lemma {:induction false} QuietCommitLines(commits: seq<(string, string)>)
    requires forall k :: 0 <= k < |commits| ==> '\n' !in commits[k].0 && '\n' !in commits[k].1
    ensures QuietLines(CommitLines(commits))
    decreases |commits|
  {
    if |commits| > 0 {
      var n := |commits| - 1;
      var init := commits[..n];
      assert forall k :: 0 <= k < n ==> init[k] == commits[k];
      QuietCommitLines(init);
      var two := ["  - sha: " + commits[n].0, "    repo: " + commits[n].1];
      assert '\n' !in two[0] by {
        assert forall c :: c in two[0] ==> c in "  - sha: " || c in commits[n].0;
      }
      assert '\n' !in two[1] by {
        assert forall c :: c in two[1] ==> c in "    repo: " || c in commits[n].1;
      }
      QuietAppend(CommitLines(init), two);
    }
  }

  /** With single-line arguments the written text splits back into the written lines. */
  lemma FormattedLines(topic: string, period: string, client: string, author: string, root: string,
                       commits: seq<(string, string)>)
    requires SingleLineArgs(topic, period, client, author, root, commits)
    ensures var ls := MetadataLines(topic, period, client, author, root, commits);
            Split(Join(ls, "\n"), '\n') == ls
  {
    InnerLinesQuiet(topic, period, client, author, root, commits);
    var ls := MetadataLines(topic, period, client, author, root, commits);
    forall k | 0 <= k < |ls|
      ensures '\n' !in ls[k]
    {
      if 0 < k < |ls| - 1 {
        assert ls[k] == InnerLines(topic, period, client, author, root, commits)[k - 1];
      }
    }
    SplitJoin(ls, '\n');
  }

  // ---------------------------------------------------------------------------
  // comment locator: re.search(r"<!--\s*blog-research-meta\s*\n(.*?)\n-->", content, re.DOTALL)

  const CommentStart := "<!--"
  const Marker := "blog-research-meta"
  const Terminator := "\n-->"

  /**
    `\s*\n(.*?)\n-->` with the whitespace run at `a` of length `t` still to
    give back: `\s*` first takes the whole run, and as a run ends in a
    character that is not a newline, the first candidate newline is its last
    character; for each candidate, from the last backwards, the lazy group
    stops at the first `\n-->` after it, and when there is none the engine
    backs off to the previous newline in the run.
  */
  function CaptureAfter(s: string, a: nat, t: nat): Option<string>
    requires a + t <= |s|
    decreases t
  {
    if t == 0 then None
    else
      var nl := a + t - 1;
      if s[nl] == '\n' then
        match FindFrom(s, Terminator, nl + 1)
        case Some(x) => Some(s[nl + 1..x])
        case None => CaptureAfter(s, a, t - 1)
      else CaptureAfter(s, a, t - 1)
  }

  /**
    The pattern tried at `p`: `<!--`, the whole whitespace run (any shorter
    one would leave a space where `b` must be), the marker, then the capture.
    Returns the text of group 1.
  */
  function CommentAt(s: string, p: nat): Option<string>
    requires p <= |s|
  {
    if OccursAt(s, CommentStart, p) then
      var q := p + 4 + SpaceRun(s, p + 4);
      if OccursAt(s, Marker, q) then
        var a := q + |Marker|;
        CaptureAfter(s, a, SpaceRun(s, a))
      else None
    else None
  }

  /** `re.search`: the match at the leftmost position where the pattern matches. */
  function LocateComment(s: string, p: nat): Option<string>
    requires p <= |s|
    decreases |s| - p
  {
    match CommentAt(s, p)
    case Some(inner) => Some(inner)
    case None => if p == |s| then None else LocateComment(s, p + 1)
  }

  /** Positions without a `<` cannot start a match, so the search moves past them. */
  lemma {:induction false} LocateSkips(s: string, p: nat, q: nat)
    requires p <= q <= |s|
    requires forall y :: p <= y < q ==> s[y] != '<'
    ensures LocateComment(s, p) == LocateComment(s, q)
    decreases q - p
  {
    if p < q {
      assert !OccursAt(s, CommentStart, p) by {
        assert s[p] != CommentStart[0];
      }
      LocateSkips(s, p + 1, q);
    }
  }

  /** The writer's text: the opening line, the inner lines and the terminator. */
  lemma {:induction false} WrittenText(inner: seq<string>)
    requires |inner| >= 1
    ensures Join([OpenLine] + inner + [CloseLine], "\n") == OpenLine + "\n" + Join(inner, "\n") + Terminator
  {
    JoinAppend([OpenLine], inner + [CloseLine], "\n");
    JoinSnoc(inner, CloseLine, "\n");
    assert ([OpenLine] + inner) + [CloseLine] == [OpenLine] + (inner + [CloseLine]);
  }

  /** The pattern's head at `b`: `<!--`, one space, the marker, one newline, and a non-space. */
  lemma {:induction false} CommentHead(s: string, b: nat)
    requires b + 25 <= |s| && s[b..b + 23] == OpenLine && s[b + 23] == '\n' && !IsSpace(s[b + 24])
    ensures OccursAt(s, CommentStart, b)
    ensures SpaceRun(s, b + 4) == 1
    ensures OccursAt(s, Marker, b + 5)
    ensures SpaceRun(s, b + 23) == 1
  {
    assert s[b..b + 4] == s[b..b + 23][..4];
    assert s[b + 4] == s[b..b + 23][4] == ' ';
    assert s[b + 5] == s[b..b + 23][5] == 'b';
    assert s[b + 5..b + 23] == s[b..b + 23][5..];
    assert SpaceRun(s, b + 5) == 0;
    assert SpaceRun(s, b + 24) == 0;
  }

  /** No `\n-->` starts inside a text whose newlines are never followed by `-`. */
  lemma {:induction false} NoTerminatorInside(s: string, c: nat, body: string)
    requires c + |body| <= |s| && s[c..c + |body|] == body
    requires forall y :: 0 <= y < |body| && body[y] == '\n' ==> y + 1 < |body| && body[y + 1] != '-'
    ensures forall y :: c <= y < c + |body| ==> !OccursAt(s, Terminator, y)
  {
    forall y | c <= y < c + |body|
      ensures !OccursAt(s, Terminator, y)
    {
      assert s[y] == body[y - c];
      if s[y] == '\n' && y + 4 <= |s| {
        assert s[y + 1] == body[y - c + 1];
        assert s[y..y + 4][1] == s[y + 1];
      }
    }
  }

  /** A slice of a window of `s` is the matching slice of `s`. */
  lemma SliceWithin<T>(s: seq<T>, b: nat, w: seq<T>, lo: nat, hi: nat)
    requires b + |w| <= |s| && s[b..b + |w|] == w && lo <= hi <= |w|
    ensures s[b + lo..b + hi] == w[lo..hi]
  {
    forall k | 0 <= k < hi - lo
      ensures s[b + lo..b + hi][k] == w[lo..hi][k]
    {
      assert s[b + lo + k] == s[b..b + |w|][lo + k];
    }
  }

  /** The writer's text at `b` starts with the opening line, a newline and the body's first character. */
  lemma WrittenHead(s: string, b: nat, body: string)
    requires b + 28 + |body| <= |s| && |body| > 0
    requires s[b..b + 28 + |body|] == OpenLine + "\n" + body + Terminator
    ensures s[b..b + 23] == OpenLine && s[b + 23] == '\n' && s[b + 24] == body[0]
  {
    var w := OpenLine + "\n" + body + Terminator;
    SliceWithin(s, b, w, 0, 23);
    assert w[..23] == OpenLine;
    assert s[b + 23] == s[b..b + |w|][23] == w[23] == '\n';
    assert s[b + 24] == s[b..b + |w|][24] == w[24] == body[0];
  }

  /** The pattern at `b` of a text holding the opening line, a body and the terminator captures the body. */
  lemma CommentAtBody(s: string, b: nat, body: string)
    requires b + 28 + |body| <= |s| && |body| > 0 && !IsSpace(body[0])
    requires s[b..b + 28 + |body|] == OpenLine + "\n" + body + Terminator
    requires forall y :: 0 <= y < |body| && body[y] == '\n' ==> y + 1 < |body| && body[y + 1] != '-'
    ensures CommentAt(s, b) == Some(body)
  {
    var w := OpenLine + "\n" + body + Terminator;
    WrittenHead(s, b, body);
    CommentHead(s, b);
    var x := b + 24 + |body|;
    SliceWithin(s, b, w, 24, 24 + |body|);
    assert w[24..24 + |body|] == body;
    SliceWithin(s, b, w, 24 + |body|, |w|);
    assert w[24 + |body|..] == Terminator;
    NoTerminatorInside(s, b + 24, body);
    FindFromFirst(s, Terminator, b + 24, x);
  }

  /**
    The writer's comment embedded at offset `|pre|` of any text: the pattern
    matches there and captures exactly the inner lines, joined.
  */
  lemma CommentAtWritten(pre: string, inner: seq<string>, post: string)
    requires |inner| >= 1 && QuietLines(inner) && |inner[0]| > 0 && !IsSpace(inner[0][0])
    ensures var s := pre + Join([OpenLine] + inner + [CloseLine], "\n") + post;
            CommentAt(s, |pre|) == Some(Join(inner, "\n"))
  {
    var body := Join(inner, "\n");
    WrittenText(inner);
    JoinHead(inner, "\n");
    assert body[0] == inner[0][0];
    forall y | 0 <= y < |body| && body[y] == '\n'
      ensures y + 1 < |body| && body[y + 1] != '-'
    {
      JoinNewlineFollowers(inner, y);
    }
    var s := pre + Join([OpenLine] + inner + [CloseLine], "\n") + post;
    assert s[|pre|..|pre| + 28 + |body|] == OpenLine + "\n" + body + Terminator;
    CommentAtBody(s, |pre|, body);
  }

  /** `format_research_metadata`'s text on its own: the reader captures exactly its inner lines. */
  lemma LocateWritten(topic: string, period: string, client: string, author: string, root: string,
                      commits: seq<(string, string)>)
    requires SingleLineArgs(topic, period, client, author, root, commits)
    ensures LocateComment(Join(MetadataLines(topic, period, client, author, root, commits), "\n"), 0)
            == Some(Join(InnerLines(topic, period, client, author, root, commits), "\n"))
  {
    var inner := InnerLines(topic, period, client, author, root, commits);
    InnerLinesQuiet(topic, period, client, author, root, commits);
    CommentAtWritten("", inner, "");
    var s := Join(MetadataLines(topic, period, client, author, root, commits), "\n");
    assert "" + s + "" == s;
  }

  /**
    The research file `run_research_stage` writes: a title line holding the
    topic, a blank line, the metadata comment, a blank line and the research
    text. When the topic holds no `<` and no argument a line break, the reader
    captures exactly the metadata's inner lines, whatever the research text.
  */
  lemma LocateInResearchFile(topic: string, period: string, client: string, author: string, root: string,
                             commits: seq<(string, string)>, research: string)
    requires SingleLineArgs(topic, period, client, author, root, commits) && '<' !in topic
    ensures var meta := Join(MetadataLines(topic, period, client, author, root, commits), "\n");
            LocateComment("# Research: " + topic + "\n\n" + meta + "\n\n" + research, 0)
            == Some(Join(InnerLines(topic, period, client, author, root, commits), "\n"))
  {
    var inner := InnerLines(topic, period, client, author, root, commits);
    InnerLinesQuiet(topic, period, client, author, root, commits);
    var pre := "# Research: " + topic + "\n\n";
    TitleHasNoTag(topic);
    LocateAfter(pre, inner, "\n\n" + research);
    var meta := Join(MetadataLines(topic, period, client, author, root, commits), "\n");
    assert pre + meta + ("\n\n" + research) == "# Research: " + topic + "\n\n" + meta + "\n\n" + research;
  }

  /** The title and blank line in front of the comment hold no `<` when the topic holds none. */
  lemma TitleHasNoTag(topic: string)
    requires '<' !in topic
    ensures '<' !in "# Research: " + topic + "\n\n"
  {
    var pre := "# Research: " + topic + "\n\n";
    forall y | 0 <= y < |pre|
      ensures pre[y] != '<'
    {
      if 12 <= y < 12 + |topic| {
        assert pre[y] == topic[y - 12];
      }
    }
  }

  /** After a text with no `<`, the search finds the writer's comment and captures its inner lines. */
  lemma LocateAfter(pre: string, inner: seq<string>, post: string)
    requires '<' !in pre
    requires |inner| >= 1 && QuietLines(inner) && |inner[0]| > 0 && !IsSpace(inner[0][0])
    ensures LocateComment(pre + Join([OpenLine] + inner + [CloseLine], "\n") + post, 0) == Some(Join(inner, "\n"))
  {
    var s := pre + Join([OpenLine] + inner + [CloseLine], "\n") + post;
    CommentAtWritten(pre, inner, post);
    forall y | 0 <= y < |pre|
      ensures s[y] != '<'
    {
      assert s[y] == pre[y];
    }
    LocateSkips(s, 0, |pre|);
  }

  // ---------------------------------------------------------------------------
  // reader

  /** What `yaml.safe_load` can return, restricted to the types the reader looks at. */
  datatype Yaml =
    | YNull
    | YBool(b: bool)
    | YInt(i: int)
    | YStr(s: string)
    | YList(items: seq<Yaml>)
    | YMap(entries: map<string, Yaml>)

  /** Python truthiness. */
  predicate Truthy(y: Yaml)
  {
    match y
    case YNull => false
    case YBool(b) => b
    case YInt(i) => i != 0
    case YStr(s) => s != ""
    case YList(items) => items != []
    case YMap(entries) => entries != map[]
  }

  /** What the reader returns; the fields hold whatever values the loader produced. */
  datatype ResearchMetadata = ResearchMetadata(
    topic: Yaml, period: Yaml, client: Yaml, author: Yaml, root: Yaml, commits: seq<(Yaml, Yaml)>)

  /** `data.get(key, "")`. */
  function GetOrEmpty(m: map<string, Yaml>, key: string): (r: Yaml)
    ensures key in m ==> r == m[key]
    ensures key !in m ==> r == YStr("")
  {
    if key in m then m[key] else YStr("")
  }

  /** A list item the reader keeps: a mapping with both a `sha` and a `repo` key. */
  predicate IsCommitEntry(c: Yaml)
  {
    c.YMap? && "sha" in c.entries && "repo" in c.entries
  }

  function EntryPair(c: Yaml): (Yaml, Yaml)
    requires IsCommitEntry(c)
  {
    (c.entries["sha"], c.entries["repo"])
  }

  /** The commit list filter over the items of a YAML list. */
  function KeptCommits(items: seq<Yaml>): seq<(Yaml, Yaml)>
  {
    if |items| == 0 then []
    else
      var last := items[|items| - 1];
      KeptCommits(items[..|items| - 1]) + (if IsCommitEntry(last) then [EntryPair(last)] else [])
  }

  /**
    `for c in data["commits"]` on a truthy value: a list is filtered; iterating
    a mapping yields its keys and a string its characters, none of which is a
    mapping, so both give no commits; iterating a number or `True` raises, and
    the reader returns `None`.
  */
  function CommitsOf(v: Yaml): Option<seq<(Yaml, Yaml)>>
  {
    match v
    case YList(items) => Some(KeptCommits(items))
    case YMap(_) => Some([])
    case YStr(_) => Some([])
    case _ => None
  }

  /**
    `parse_research_metadata` after the comment was found and loaded: empty
    data gives `None`; data that is not a mapping makes `"commits" in data` or
    `data.get` raise (or index a list or string with a string), which is
    caught and gives `None`.
  */
  function FromData(data: Yaml): Option<ResearchMetadata>
  {
    if !Truthy(data) || !data.YMap? then None
    else
      var m := data.entries;
      var commits := if "commits" in m && Truthy(m["commits"]) then CommitsOf(m["commits"]) else Some([]);
      match commits
      case None => None
      case Some(cs) =>
        Some(ResearchMetadata(GetOrEmpty(m, "topic"), GetOrEmpty(m, "period"), GetOrEmpty(m, "client"),
                              GetOrEmpty(m, "author"), GetOrEmpty(m, "root"), cs))
  }

  /** `parse_research_metadata` as a whole, with the YAML loader `load`. */
  function ParsedMetadata(content: string, load: string -> Option<Yaml>): Option<ResearchMetadata>
  {
    match LocateComment(content, 0)
    case None => None
    case Some(inner) =>
      match load(inner)
      case None => None
      case Some(data) => FromData(data)
  }

  /** `parse_research_metadata`, with the commit filter as the source's loop. */
  method ParseResearchMetadata(content: string, load: string -> Option<Yaml>) returns (r: Option<ResearchMetadata>)
    ensures r == ParsedMetadata(content, load)
  {
    var found := LocateComment(content, 0);
    if found.None? {
      return None;
    }
    var loaded := load(found.value);
    if loaded.None? {
      return None;
    }
    var data := loaded.value;
    if !Truthy(data) || !data.YMap? {
      return None;
    }
    var m := data.entries;
    var commits: seq<(Yaml, Yaml)> := [];
    if "commits" in m && Truthy(m["commits"]) {
      var v := m["commits"];
      if v.YList? {
        var items := v.items;
        for i := 0 to |items|
          invariant commits == KeptCommits(items[..i])
        {
          assert items[..i + 1][..i] == items[..i];
          var c := items[i];
          if IsCommitEntry(c) {
            commits := commits + [(c.entries["sha"], c.entries["repo"])];
          }
        }
        assert items[..|items|] == items;
      } else if !v.YMap? && !v.YStr? {
        return None;
      }
    }
    r := Some(ResearchMetadata(GetOrEmpty(m, "topic"), GetOrEmpty(m, "period"), GetOrEmpty(m, "client"),
                               GetOrEmpty(m, "author"), GetOrEmpty(m, "root"), commits));
  }

  /**
    The reader gives `None` exactly when the comment is missing, the loader
    fails, the data is empty or not a mapping, or its `commits` value is a
    truthy number or `True`.
  */
  lemma ParseNoneCases(content: string, load: string -> Option<Yaml>)
    ensures ParsedMetadata(content, load).None? <==>
              LocateComment(content, 0).None?
              || load(LocateComment(content, 0).value).None?
              || (var data := load(LocateComment(content, 0).value).value;
                  !Truthy(data) || !data.YMap?
                  || ("commits" in data.entries && Truthy(data.entries["commits"])
                      && (data.entries["commits"].YInt? || data.entries["commits"].YBool?)))
  {
  }

  /** The filter keeps order: filtering a concatenation concatenates the filtered parts. */
  lemma {:induction false} KeptCommitsAppend(xs: seq<Yaml>, ys: seq<Yaml>)
    ensures KeptCommits(xs + ys) == KeptCommits(xs) + KeptCommits(ys)
    decreases |ys|
  {
    if |ys| > 0 {
      var init := ys[..|ys| - 1];
      assert (xs + ys)[..|xs + ys| - 1] == xs + init;
      assert (xs + ys)[|xs + ys| - 1] == ys[|ys| - 1];
      KeptCommitsAppend(xs, init);
    } else {
      assert xs + ys == xs;
    }
  }

  /** One item is kept, as its `(sha, repo)` pair, exactly when it is a mapping with both keys. */
  lemma KeptCommitsOne(c: Yaml)
    ensures KeptCommits([c]) == if IsCommitEntry(c) then [EntryPair(c)] else []
  {
    assert [c][..0] == [];
  }

  /** What the writer writes for a commit, as the loader reads it back. */
  function CommitEntry(c: (string, string)): Yaml
  {
    YMap(map["sha" := YStr(c.0), "repo" := YStr(c.1)])
  }

  function CommitEntries(commits: seq<(string, string)>): (r: seq<Yaml>)
    ensures |r| == |commits| && forall k :: 0 <= k < |commits| ==> r[k] == CommitEntry(commits[k])
  {
    seq(|commits|, k requires 0 <= k < |commits| => CommitEntry(commits[k]))
  }

  function AsYaml(commits: seq<(string, string)>): (r: seq<(Yaml, Yaml)>)
    ensures |r| == |commits| && forall k :: 0 <= k < |commits| ==> r[k] == (YStr(commits[k].0), YStr(commits[k].1))
  {
    seq(|commits|, k requires 0 <= k < |commits| => (YStr(commits[k].0), YStr(commits[k].1)))
  }

  /** The mapping the writer's inner lines denote. */
  function IntendedData(topic: string, period: string, client: string, author: string, root: string,
                        commits: seq<(string, string)>): Yaml
  {
    var fields := map["topic" := YStr(topic), "period" := YStr(period), "client" := YStr(client),
                      "author" := YStr(author), "root" := YStr(root)];
    YMap(if |commits| == 0 then fields else fields["commits" := YList(CommitEntries(commits))])
  }

  lemma {:induction false} KeptAllEntries(commits: seq<(string, string)>)
    ensures KeptCommits(CommitEntries(commits)) == AsYaml(commits)
    decreases |commits|
  {
    if |commits| > 0 {
      var init := commits[..|commits| - 1];
      KeptAllEntries(init);
      assert CommitEntries(commits)[..|commits| - 1] == CommitEntries(init);
    }
  }

  /**
    Writer and reader agree: if the loader reads the inner lines of a written
    block as the mapping they denote, the reader returns every field and every
    commit as written, in order.
  */
  lemma ParseFormatRoundTrip(topic: string, period: string, client: string, author: string, root: string,
                             commits: seq<(string, string)>, load: string -> Option<Yaml>)
    requires SingleLineArgs(topic, period, client, author, root, commits)
    requires load(Join(InnerLines(topic, period, client, author, root, commits), "\n"))
             == Some(IntendedData(topic, period, client, author, root, commits))
    ensures ParsedMetadata(Join(MetadataLines(topic, period, client, author, root, commits), "\n"), load)
            == Some(ResearchMetadata(YStr(topic), YStr(period), YStr(client), YStr(author), YStr(root),
                                     AsYaml(commits)))
  {
    LocateWritten(topic, period, client, author, root, commits);
    FromIntendedData(topic, period, client, author, root, commits);
  }

  /** The post-processing returns the denoted mapping's fields and commits unchanged. */
  lemma FromIntendedData(topic: string, period: string, client: string, author: string, root: string,
                         commits: seq<(string, string)>)
    ensures FromData(IntendedData(topic, period, client, author, root, commits))
            == Some(ResearchMetadata(YStr(topic), YStr(period), YStr(client), YStr(author), YStr(root),
                                     AsYaml(commits)))
  {
    IntendedFields(topic, period, client, author, root, commits);
    IntendedCommits(topic, period, client, author, root, commits);
  }

  /** The denoted mapping holds the five fields under their own keys. */
  lemma IntendedFields(topic: string, period: string, client: string, author: string, root: string,
                       commits: seq<(string, string)>)
    ensures var m := IntendedData(topic, period, client, author, root, commits).entries;
            GetOrEmpty(m, "topic") == YStr(topic) && GetOrEmpty(m, "period") == YStr(period)
            && GetOrEmpty(m, "client") == YStr(client) && GetOrEmpty(m, "author") == YStr(author)
            && GetOrEmpty(m, "root") == YStr(root)
  {
  }

  /** The denoted mapping's `commits` value, when present, is filtered back to the commit pairs. */
  lemma IntendedCommits(topic: string, period: string, client: string, author: string, root: string,
                        commits: seq<(string, string)>)
    ensures var m := IntendedData(topic, period, client, author, root, commits).entries;
            "topic" in m
            && (if "commits" in m && Truthy(m["commits"]) then CommitsOf(m["commits"]) else Some([]))
               == Some(AsYaml(commits))
  {
    var m := IntendedData(topic, period, client, author, root, commits).entries;
    KeptAllEntries(commits);
    if |commits| == 0 {
      assert "commits" !in m;
      assert AsYaml(commits) == [];
    } else {
      assert m["commits"] == YList(CommitEntries(commits));
      assert CommitEntries(commits)[0] == CommitEntry(commits[0]);
    }
  }
}
