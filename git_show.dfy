/**
  Fetching one commit by SHA: `get_commit_by_sha` in
  src/code_recap/generate_blog_post.py. The two `git show` runs become their
  outputs (`GitOutput`); what is modelled is how the header record is cut into
  fields and how the diff is cut down to `max_diff_lines` lines.
*/
module GitShow {
  import opened Wrappers
  import opened Text

  /** The commit record the blog-post generator works with (`CommitInfo`). */
  datatype CommitInfo = CommitInfo(
    sha: string,
    authorDate: string,
    authorName: string,
    subject: string,
    body: string,
    diff: string)

  /** What one `run_git` call gives back: the exit code and standard output. */
  datatype GitOutput = GitOutput(code: int, out: string)

  /** `%x1f`, the field separator of the header record. */
  const FieldSep: char := '\U{1F}'

  /** `%x00`, the record terminator. */
  const RecordEnd: char := '\U{0}'

  /** The arguments of the header query. */
  function ShowArgs(sha: string): seq<string>
  {
    ["show", "--no-color", "--format=%H%x1f%ad%x1f%an%x1f%s%x1f%b%x00", "--date=iso-local", sha]
  }

  /** The arguments of the diff query. */
  function DiffArgs(sha: string): seq<string>
  {
    ["show", "--no-color", "--format=", "--stat", "--patch", sha]
  }

  /** The header fields of one commit: SHA, date, author, subject and body. */
  datatype Header = Header(sha: string, authorDate: string, authorName: string, subject: string, body: string)

  /** The header record exactly as the `--format` string asks git to write it. */
  function FormatRecord(h: Header): string
  {
    h.sha + [FieldSep] + h.authorDate + [FieldSep] + h.authorName + [FieldSep] + h.subject
    + [FieldSep] + h.body + [RecordEnd]
  }

  /** A field that git could have written without breaking the record apart. */
  predicate CleanField(f: string)
  {
    FieldSep !in f && RecordEnd !in f
  }

  /**
    The header parse: only the text before the first `\x00` counts; it is
    split on `\x1f`, fewer than four fields is no commit, the first four are
    taken as they are, and the body is the fifth field stripped, or "".
  */
  function ParseHeader(out: string): (r: Option<Header>)
    ensures r.None? <==> Count(Split(out, RecordEnd)[0], FieldSep) < 3
    ensures r.Some? ==> CleanField(r.value.sha) && CleanField(r.value.authorDate)
                        && CleanField(r.value.authorName) && CleanField(r.value.subject)
                        && RecordEnd !in r.value.body
    ensures r.Some? ==> StartsWith(out, r.value.sha + [FieldSep] + r.value.authorDate + [FieldSep]
                                        + r.value.authorName + [FieldSep] + r.value.subject)
    ensures r.Some? ==> var parts := Split(Split(out, RecordEnd)[0], FieldSep);
              |parts| >= 4 && r.value.sha == parts[0] && r.value.authorDate == parts[1]
              && r.value.authorName == parts[2] && r.value.subject == parts[3]
              && r.value.body == (if |parts| > 4 then Strip(parts[4]) else "")
  {
    var record := Split(out, RecordEnd)[0];
    var parts := Split(record, FieldSep);
    SplitShape(out, RecordEnd);
    SplitShape(record, FieldSep);
    SplitFirstIsPrefix(out, RecordEnd);
    if |parts| < 4 then None
    else
      var body := if |parts| > 4 then Strip(parts[4]) else "";
      HeaderFields(record, parts);
      assert RecordEnd !in body by {
        if |parts| > 4 {
          StripIsTrim(parts[4]);
        }
      }
      Some(Header(parts[0], parts[1], parts[2], parts[3], body))
  }

  /** The pieces of a header record: none holds `\x00`, and the first four, rejoined, start the record. */
  lemma HeaderFields(record: string, parts: seq<string>)
    requires parts == Split(record, FieldSep) && |parts| >= 4
    ensures StartsWith(record, parts[0] + [FieldSep] + parts[1] + [FieldSep] + parts[2] + [FieldSep] + parts[3])
    ensures RecordEnd !in record ==> forall k :: 0 <= k < |parts| ==> RecordEnd !in parts[k]
  {
    JoinSplit(record, FieldSep);
    var sep := [FieldSep];
    var four := parts[..4];
    assert Join(four, sep) == parts[0] + sep + parts[1] + sep + parts[2] + sep + parts[3] by {
      assert Join(four[3..], sep) == parts[3];
      assert Join(four[2..], sep) == parts[2] + sep + Join(four[3..], sep);
      assert Join(four[1..], sep) == parts[1] + sep + Join(four[2..], sep);
    }
    if |parts| > 4 {
      assert parts == four + parts[4..];
      JoinAppend(four, parts[4..], sep);
    } else {
      assert parts == four;
    }
    forall k | 0 <= k < |parts| && RecordEnd !in record ensures RecordEnd !in parts[k] {
      JoinHoldsParts(parts, sep, k);
    }
  }

  /** Every character of a part is a character of the join. */
  lemma {:induction false} JoinHoldsParts(parts: seq<string>, sep: string, k: nat)
    requires k < |parts|
    ensures forall ch :: ch in parts[k] ==> ch in Join(parts, sep)
    decreases |parts|
  {
    if k > 0 {
      JoinHoldsParts(parts[1..], sep, k - 1);
      assert parts[1..][k - 1] == parts[k];
    }
  }

  /**
    A record git wrote for a commit with clean fields parses back to it, with
    the body stripped (git's `%b` usually ends in a newline).
  */
  lemma {:induction false} ParseFormatRoundTrip(h: Header, tail: string)
    requires CleanField(h.sha) && CleanField(h.authorDate) && CleanField(h.authorName)
    requires CleanField(h.subject) && CleanField(h.body)
    ensures ParseHeader(FormatRecord(h) + tail) == Some(h.(body := Strip(h.body)))
  {
    var fields := h.sha + [FieldSep] + h.authorDate + [FieldSep] + h.authorName + [FieldSep] + h.subject
                  + [FieldSep] + h.body;
    assert RecordEnd !in fields;
    assert FormatRecord(h) + tail == fields + [RecordEnd] + tail;
    SplitAtSep(fields, tail, RecordEnd);
    var s4 := h.body;
    var s3 := h.subject + [FieldSep] + s4;
    var s2 := h.authorName + [FieldSep] + s3;
    var s1 := h.authorDate + [FieldSep] + s2;
    assert fields == h.sha + [FieldSep] + s1;
    SplitNoSep(s4, FieldSep);
    SplitAtSep(h.subject, s4, FieldSep);
    SplitAtSep(h.authorName, s3, FieldSep);
    SplitAtSep(h.authorDate, s2, FieldSep);
    SplitAtSep(h.sha, s1, FieldSep);
  }

  // ---------------------------------------------------------------------------
  // diff truncation

  /** Python's `xs[:k]`, including a negative `k`. */
  function PyHead<T>(xs: seq<T>, k: int): (r: seq<T>)
    ensures |r| <= |xs| && r == xs[..|r|]
    ensures 0 <= k ==> |r| == if k < |xs| then k else |xs|
    ensures k < 0 ==> |r| == if |xs| + k > 0 then |xs| + k else 0
  {
    if k >= 0 then (if k < |xs| then xs[..k] else xs)
    else if |xs| + k > 0 then xs[..|xs| + k] else []
  }

  /** The last line of a cut diff, reporting how many lines were dropped. */
  function TruncationMarker(dropped: nat): string
  {
    "... (truncated, " + Decimal(dropped) + " more lines)"
  }

  /** The marker is one line, and the dropped-line count reads back from it. */
  lemma MarkerReadsBack(dropped: nat)
    ensures '\n' !in TruncationMarker(dropped)
    ensures var m := TruncationMarker(dropped);
            |m| > 28 && m[16..|m| - 12] == Decimal(dropped)
            && (forall i :: 16 <= i < |m| - 12 ==> IsDigit(m[i]))
            && DecimalValue(m[16..|m| - 12]) == dropped
  {
    DecimalRoundTrip(dropped);
    var m := TruncationMarker(dropped);
    assert m[16..|m| - 12] == Decimal(dropped);
    forall i | 0 <= i < |m| ensures m[i] != '\n' {
      if 16 <= i < |m| - 12 {
        assert m[i] == Decimal(dropped)[i - 16];
      }
    }
  }

  /**
    The diff kept for the prompt: "" when the diff query failed, the output
    itself when it has at most `maxLines` lines, and otherwise the first lines
    (Python's `lines[:maxLines]`) followed by the marker line.
  */
  function TruncateDiff(diff: GitOutput, maxLines: int): string
  {
    if diff.code != 0 then ""
    else
      var lines := Split(diff.out, '\n');
      if |lines| > maxLines then
        Join(PyHead(lines, maxLines), "\n") + "\n" + TruncationMarker(|lines| - maxLines)
      else diff.out
  }

  /**
    What the cut diff looks like. A failed query gives "". A diff of at most
    `maxLines` lines is returned unchanged. A longer one, read back line by
    line, is its first `maxLines` lines and then one marker line that reports
    exactly the number of lines dropped; with nothing kept (a limit of 0 or
    less than minus the line count) it is an empty line and the marker.
  */
  lemma TruncateDiffLines(diff: GitOutput, maxLines: int)
    ensures diff.code != 0 ==> TruncateDiff(diff, maxLines) == ""
    ensures diff.code == 0 && |Split(diff.out, '\n')| <= maxLines ==> TruncateDiff(diff, maxLines) == diff.out
    ensures diff.code == 0 && 1 <= maxLines < |Split(diff.out, '\n')| ==>
              var lines := Split(diff.out, '\n');
              Split(TruncateDiff(diff, maxLines), '\n') == lines[..maxLines] + [TruncationMarker(|lines| - maxLines)]
    ensures diff.code == 0 && |Split(diff.out, '\n')| > maxLines ==>
              var lines := Split(diff.out, '\n');
              var kept := PyHead(lines, maxLines);
              (|kept| >= 1 ==> Split(TruncateDiff(diff, maxLines), '\n') == kept + [TruncationMarker(|lines| - maxLines)])
              && (|kept| == 0 ==> TruncateDiff(diff, maxLines) == "\n" + TruncationMarker(|lines| - maxLines))
  {
    var lines := Split(diff.out, '\n');
    if diff.code == 0 && |lines| > maxLines {
      var dropped := |lines| - maxLines;
      var kept := PyHead(lines, maxLines);
      var marker := TruncationMarker(dropped);
      MarkerReadsBack(dropped);
      SplitShape(diff.out, '\n');
      if |kept| >= 1 {
        JoinSnoc(kept, marker, "\n");
        forall k | 0 <= k < |kept + [marker]| ensures '\n' !in (kept + [marker])[k] {
          if k < |kept| { assert (kept + [marker])[k] == lines[k]; }
        }
        SplitJoin(kept + [marker], '\n');
      }
    }
  }

  /**
    `get_commit_by_sha` given the outputs of its two `git show` runs: no commit
    when the header query fails or its record has fewer than four fields,
    otherwise the header fields with the cut diff.
  */
  function GetCommitBySha(show: GitOutput, diff: GitOutput, maxDiffLines: int): (r: Option<CommitInfo>)
    ensures r.Some? <==> show.code == 0 && ParseHeader(show.out).Some?
    ensures r.Some? ==> var h := ParseHeader(show.out).value;
              r.value.sha == h.sha && r.value.authorDate == h.authorDate && r.value.authorName == h.authorName
              && r.value.subject == h.subject && r.value.body == h.body
  {
    if show.code != 0 then None
    else match ParseHeader(show.out)
      case None => None
      case Some(h) => Some(CommitInfo(h.sha, h.authorDate, h.authorName, h.subject, h.body,
                                      TruncateDiff(diff, maxDiffLines)))
  }

  /** `get_commit_by_sha(repo_path, sha, max_diff_lines)` with `run_git` given as a function. */
  function ShowCommit(runGit: (string, seq<string>) -> GitOutput, repoPath: string, sha: string,
                      maxDiffLines: int): Option<CommitInfo>
  {
    GetCommitBySha(runGit(repoPath, ShowArgs(sha)), runGit(repoPath, DiffArgs(sha)), maxDiffLines)
  }

  /** A successful header query that git wrote for a commit yields that commit's fields, the body stripped. */
  lemma GetCommitRoundTrip(h: Header, tail: string, diff: GitOutput, maxDiffLines: int)
    requires CleanField(h.sha) && CleanField(h.authorDate) && CleanField(h.authorName)
    requires CleanField(h.subject) && CleanField(h.body)
    ensures GetCommitBySha(GitOutput(0, FormatRecord(h) + tail), diff, maxDiffLines)
            == Some(CommitInfo(h.sha, h.authorDate, h.authorName, h.subject, Strip(h.body),
                               TruncateDiff(diff, maxDiffLines)))
  {
    ParseFormatRoundTrip(h, tail);
  }
}
