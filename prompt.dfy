/**
  `format_commits_for_prompt` in src/code_recap/generate_blog_post.py: the
  commits, ordered by author date with `sorted` (a stable sort on the date
  string), written as one markdown section each under a header that states
  how many there are.
*/
module Prompt {
  import opened Text
  import opened GitShow
  import opened Collect

  // ---------------------------------------------------------------------------
  // sorted(commits, key=lambda x: x[1].author_date)

  function Date(e: Entry): string { e.1.authorDate }

  /** Ordered by author date, compared as Python compares strings. */
  predicate SortedByDate(es: seq<Entry>)
  {
    forall i, j :: 0 <= i < j < |es| ==> LexLe(Date(es[i]), Date(es[j]))
  }

  /** The entries with author date `d`, in their order. */
  function WithDate(es: seq<Entry>, d: string): seq<Entry>
  {
    if |es| == 0 then [] else (if Date(es[0]) == d then [es[0]] else []) + WithDate(es[1..], d)
  }

  /** `x` goes before the first entry whose date is not earlier than its own. */
  function Insert(x: Entry, ys: seq<Entry>): (r: seq<Entry>)
    ensures |r| == |ys| + 1
  {
    if |ys| == 0 then [x]
    else if LexLe(Date(x), Date(ys[0])) then [x] + ys
    else [ys[0]] + Insert(x, ys[1..])
  }

  /** A stable sort by author date: every entry is inserted before the later-listed entries with its date. */
  function SortByDate(es: seq<Entry>): seq<Entry>
  {
    if |es| == 0 then [] else Insert(es[0], SortByDate(es[1..]))
  }

  /** Every entry is dated `d` or later. */
  predicate NotBefore(d: string, ys: seq<Entry>)
  {
    forall k :: 0 <= k < |ys| ==> LexLe(d, Date(ys[k]))
  }

  lemma {:induction false} InsertNotBefore(d: string, x: Entry, ys: seq<Entry>)
    requires LexLe(d, Date(x)) && NotBefore(d, ys)
    ensures NotBefore(d, Insert(x, ys))
    decreases |ys|
  {
    if |ys| > 0 && !LexLe(Date(x), Date(ys[0])) {
      InsertNotBefore(d, x, ys[1..]);
      var rest := Insert(x, ys[1..]);
      assert forall k :: 0 < k < |rest| + 1 ==> ([ys[0]] + rest)[k] == rest[k - 1];
    }
  }

  lemma {:induction false} InsertSorted(x: Entry, ys: seq<Entry>)
    requires SortedByDate(ys)
    ensures SortedByDate(Insert(x, ys))
    decreases |ys|
  {
    if |ys| > 0 {
      if LexLe(Date(x), Date(ys[0])) {
        forall j | 0 < j < |ys| ensures LexLe(Date(x), Date(ys[j])) {
          LexLeTrans(Date(x), Date(ys[0]), Date(ys[j]));
        }
        assert forall j :: 0 < j < |ys| + 1 ==> ([x] + ys)[j] == ys[j - 1];
      } else {
        var rest := Insert(x, ys[1..]);
        InsertSorted(x, ys[1..]);
        LexLeTotal(Date(x), Date(ys[0]));
        assert NotBefore(Date(ys[0]), ys[1..]);
        InsertNotBefore(Date(ys[0]), x, ys[1..]);
        var r := [ys[0]] + rest;
        forall i, j | 0 <= i < j < |r| ensures LexLe(Date(r[i]), Date(r[j])) {
          assert r[j] == rest[j - 1];
          if i > 0 {
            assert r[i] == rest[i - 1];
          }
        }
      }
    }
  }

  lemma {:induction false} InsertPerm(x: Entry, ys: seq<Entry>)
    ensures multiset(Insert(x, ys)) == multiset([x] + ys)
    decreases |ys|
  {
    if |ys| > 0 && !LexLe(Date(x), Date(ys[0])) {
      InsertPerm(x, ys[1..]);
      assert ys == [ys[0]] + ys[1..];
    }
  }

  /** Inserting `x` adds it in front of the entries that share its date. */
  lemma {:induction false} InsertWithDate(x: Entry, ys: seq<Entry>, d: string)
    ensures WithDate(Insert(x, ys), d) == (if Date(x) == d then [x] else []) + WithDate(ys, d)
    decreases |ys|
  {
    if |ys| == 0 {
      assert WithDate([x], d) == (if Date(x) == d then [x] else []) + WithDate([], d);
    } else if LexLe(Date(x), Date(ys[0])) {
      assert ([x] + ys)[1..] == ys;
    } else {
      InsertWithDate(x, ys[1..], d);
      assert ([ys[0]] + Insert(x, ys[1..]))[1..] == Insert(x, ys[1..]);
      LexLeTotal(Date(x), Date(x));
    }
  }

  /**
    The sort `format_commits_for_prompt` applies: the result is ordered by
    date, holds exactly the given entries, and keeps entries with the same
    date in their given order.
  */
  lemma {:induction false} SortByDateSpec(es: seq<Entry>)
    ensures SortedByDate(SortByDate(es))
    ensures multiset(SortByDate(es)) == multiset(es)
    ensures |SortByDate(es)| == |es|
    ensures forall d :: WithDate(SortByDate(es), d) == WithDate(es, d)
    decreases |es|
  {
    SortLength(es);
    if |es| > 0 {
      SortByDateSpec(es[1..]);
      InsertSorted(es[0], SortByDate(es[1..]));
      InsertPerm(es[0], SortByDate(es[1..]));
      assert es == [es[0]] + es[1..];
      forall d ensures WithDate(SortByDate(es), d) == WithDate(es, d) {
        InsertWithDate(es[0], SortByDate(es[1..]), d);
      }
    }
  }

  lemma {:induction false} SortLength(es: seq<Entry>)
    ensures |SortByDate(es)| == |es|
    decreases |es|
  {
    if |es| > 0 {
      SortLength(es[1..]);
    }
  }

  // ---------------------------------------------------------------------------
  // the prompt lines

  const NoCommitsText := "No commits found in the specified period."

  /** `sha[:8]`. */
  function Sha8(sha: string): (r: string)
    ensures |r| == if |sha| < 8 then |sha| else 8
    ensures r == sha[..|r|]
  {
    if |sha| <= 8 then sha else sha[..8]
  }

  /** The header line stating how many commits follow. */
  function CountLine(n: nat): string
  {
    "# Git Commits (" + Decimal(n) + " total)"
  }

  /** The heading of one commit's section. */
  function Heading(e: Entry): string
  {
    "## Commit: " + Sha8(e.1.sha) + " (" + e.0 + ")"
  }

  /** The lines one commit adds: the body only when there is one, the diff block only when there is a diff. */
  function SectionLines(e: Entry): seq<string>
  {
    var c := e.1;
    [Heading(e), "**Date**: " + c.authorDate, "**Author**: " + c.authorName, "**Subject**: " + c.subject]
    + (if c.body != "" then ["**Body**:\n" + c.body] else [])
    + [""]
    + (if c.diff != "" then ["**Diff**:", "```diff", c.diff, "```"] else [])
    + ["", "---", ""]
  }

  /** The lines of each element, one element after another. */
  function ConcatMap<T>(es: seq<T>, f: T -> seq<string>): seq<string>
  {
    if |es| == 0 then [] else ConcatMap(es[..|es| - 1], f) + f(es[|es| - 1])
  }

  /** The sections of the entries, one after another. */
  function Sections(es: seq<Entry>): seq<string>
  {
    ConcatMap(es, SectionLines)
  }

  /** All lines of a non-empty prompt: the count, a blank line, then the sections in date order. */
  function PromptLines(commits: seq<Entry>): seq<string>
  {
    [CountLine(|commits|), ""] + Sections(SortByDate(commits))
  }

  /** What `format_commits_for_prompt` returns. */
  function PromptText(commits: seq<Entry>): string
  {
    if |commits| == 0 then NoCommitsText else Join(PromptLines(commits), "\n")
  }

  /** `format_commits_for_prompt`: the fixed text for no commits, else the joined lines. */
  method FormatCommitsForPrompt(commits: seq<Entry>) returns (r: string)
    ensures r == PromptText(commits)
    ensures |commits| == 0 ==> r == NoCommitsText
  {
    if |commits| == 0 {
      return NoCommitsText;
    }
    var sorted := SortByDate(commits);
    var lines := CollectLines([CountLine(|commits|), ""], sorted);
    r := Join(lines, "\n");
  }

  /** The loop of `format_commits_for_prompt`: after the header, each commit's lines in turn. */
  method CollectLines(header: seq<string>, sorted: seq<Entry>) returns (lines: seq<string>)
    ensures lines == header + Sections(sorted)
  {
    lines := header;
    for k := 0 to |sorted|
      invariant lines == header + Sections(sorted[..k])
    {
      ghost var prev := lines;
      lines := AppendSection(lines, sorted[k]);
      CollectStep(header, sorted, k, prev, lines);
    }
    assert sorted[..|sorted|] == sorted;
  }

  lemma CollectStep(header: seq<string>, sorted: seq<Entry>, k: nat, lines: seq<string>, lines': seq<string>)
    requires k < |sorted|
    requires lines == header + Sections(sorted[..k]) && lines' == lines + SectionLines(sorted[k])
    ensures lines' == header + Sections(sorted[..k + 1])
  {
    ConcatMapStep(header, sorted, k, SectionLines, lines, lines');
  }

  lemma ConcatMapStep<T>(header: seq<string>, es: seq<T>, k: nat, f: T -> seq<string>,
                         lines: seq<string>, lines': seq<string>)
    requires k < |es|
    requires lines == header + ConcatMap(es[..k], f) && lines' == lines + f(es[k])
    ensures lines' == header + ConcatMap(es[..k + 1], f)
  {
    ConcatMapSnoc(es, k, f);
  }

  /** The body of the loop of `format_commits_for_prompt`: one commit's lines appended. */
  method AppendSection(lines: seq<string>, e: Entry) returns (lines': seq<string>)
    ensures lines' == lines + SectionLines(e)
  {
    var c := e.1;
    lines' := lines + ["## Commit: " + Sha8(c.sha) + " (" + e.0 + ")"];
    lines' := lines' + ["**Date**: " + c.authorDate];
    lines' := lines' + ["**Author**: " + c.authorName];
    lines' := lines' + ["**Subject**: " + c.subject];
    ghost var head := lines';
    if c.body != "" {
      lines' := lines' + ["**Body**:\n" + c.body];
    }
    lines' := lines' + [""];
    ghost var mid := lines';
    if c.diff != "" {
      lines' := lines' + ["**Diff**:"];
      lines' := lines' + ["```diff"];
      lines' := lines' + [c.diff];
      lines' := lines' + ["```"];
    }
    lines' := lines' + [""];
    lines' := lines' + ["---"];
    lines' := lines' + [""];
    assert head == lines + [Heading(e), "**Date**: " + c.authorDate, "**Author**: " + c.authorName, "**Subject**: " + c.subject];
    assert mid == head + (if c.body != "" then ["**Body**:\n" + c.body] else []) + [""];
    assert lines' == mid + (if c.diff != "" then ["**Diff**:", "```diff", c.diff, "```"] else []) + ["", "---", ""];
  }

  // ---------------------------------------------------------------------------
  // what the prompt says

  lemma ConcatMapSnoc<T>(es: seq<T>, k: nat, f: T -> seq<string>)
    requires k < |es|
    ensures ConcatMap(es[..k + 1], f) == ConcatMap(es[..k], f) + f(es[k])
  {
    assert es[..k + 1][..k] == es[..k];
  }

  lemma {:induction false} ConcatMapAppend<T>(a: seq<T>, b: seq<T>, f: T -> seq<string>)
    ensures ConcatMap(a + b, f) == ConcatMap(a, f) + ConcatMap(b, f)
    decreases |b|
  {
    if |b| == 0 {
      assert a + b == a;
    } else {
      var init := b[..|b| - 1];
      assert (a + b)[..|a + b| - 1] == a + init;
      ConcatMapAppend(a, init, f);
    }
  }

  /** Element `k`'s lines sit right after those of the elements before it. */
  lemma ConcatMapAt<T>(es: seq<T>, k: nat, f: T -> seq<string>)
    requires k < |es|
    ensures var o := |ConcatMap(es[..k], f)|;
            o + |f(es[k])| <= |ConcatMap(es, f)| && ConcatMap(es, f)[o..o + |f(es[k])|] == f(es[k])
  {
    assert es == es[..k] + [es[k]] + es[k + 1..];
    ConcatMapAppend(es[..k] + [es[k]], es[k + 1..], f);
    ConcatMapAppend(es[..k], [es[k]], f);
    assert [es[k]][..0] == [];
  }

  /**
    Entry `k` owns one section, at the position after the sections of the
    entries before it, and the section opens with its heading.
  */
  lemma SectionAt(es: seq<Entry>, k: nat)
    requires k < |es|
    ensures var o := |Sections(es[..k])|;
            o + |SectionLines(es[k])| <= |Sections(es)|
            && Sections(es)[o..o + |SectionLines(es[k])|] == SectionLines(es[k])
            && Sections(es)[o] == Heading(es[k])
  {
    ConcatMapAt(es, k, SectionLines);
    var o := |Sections(es[..k])|;
    assert Sections(es)[o] == Sections(es)[o..o + |SectionLines(es[k])|][0];
  }

  /** Each section is eight lines, one more with a body and four more with a diff. */
  lemma SectionSize(e: Entry)
    ensures |SectionLines(e)| == 8 + (if e.1.body != "" then 1 else 0) + (if e.1.diff != "" then 4 else 0)
  {
  }

  /** A non-empty prompt starts with the header line, whose numeral reads back as the number of commits. */
  lemma PromptHeader(commits: seq<Entry>)
    requires |commits| > 0
    ensures var text := PromptText(commits);
            |text| >= |CountLine(|commits|)| && text[..|CountLine(|commits|)|] == CountLine(|commits|)
    ensures (forall i :: 0 <= i < |Decimal(|commits|)| ==> IsDigit(Decimal(|commits|)[i]))
            && DecimalValue(Decimal(|commits|)) == |commits|
  {
    JoinHead(PromptLines(commits), "\n");
    DecimalRoundTrip(|commits|);
  }

  /** `lines` holds the section of `e` from position `o`, opening with its heading. */
  predicate SectionAtOffset(lines: seq<string>, o: nat, e: Entry)
  {
    o + |SectionLines(e)| <= |lines| && lines[o..o + |SectionLines(e)|] == SectionLines(e) && lines[o] == Heading(e)
  }

  /** Behind a header of fixed lines, each entry's section sits after the sections of the entries before it. */
  lemma SectionsBehindHeader(pre: seq<string>, s: seq<Entry>)
    ensures forall k :: 0 <= k < |s| ==> SectionAtOffset(pre + Sections(s), |pre| + |Sections(s[..k])|, s[k])
  {
    forall k | 0 <= k < |s|
      ensures SectionAtOffset(pre + Sections(s), |pre| + |Sections(s[..k])|, s[k])
    {
      PrefixedAt(pre, s, k, SectionLines);
      var sec := SectionLines(s[k]);
      assert sec[0] == Heading(s[k]);
    }
  }

  /**
    After the header and a blank line, each commit has its own section, in
    the stable date order, opening with its heading (repository name and SHA
    cut to at most 8 characters).
  */
  lemma PromptSections(commits: seq<Entry>)
    ensures var s := SortByDate(commits);
            forall k :: 0 <= k < |s| ==> SectionAtOffset(PromptLines(commits), 2 + |Sections(s[..k])|, s[k])
  {
    var s := SortByDate(commits);
    SectionsBehindHeader([CountLine(|commits|), ""], s);
  }

  /** `ConcatMapAt` behind a prefix of fixed lines. */
  lemma PrefixedAt<T>(pre: seq<string>, es: seq<T>, k: nat, f: T -> seq<string>)
    requires k < |es|
    ensures var o := |pre| + |ConcatMap(es[..k], f)|;
            var all := pre + ConcatMap(es, f);
            o + |f(es[k])| <= |all| && all[o..o + |f(es[k])|] == f(es[k])
            && (|f(es[k])| > 0 ==> all[o] == f(es[k])[0])
  {
    ConcatMapAt(es, k, f);
    var o := |ConcatMap(es[..k], f)|;
    var n := |f(es[k])|;
    var all := pre + ConcatMap(es, f);
    assert all[|pre| + o..|pre| + o + n] == ConcatMap(es, f)[o..o + n];
    if n > 0 {
      assert all[|pre| + o] == ConcatMap(es, f)[o..o + n][0];
    }
  }
}
