/**
  Commit references in research text: `extract_commit_shas_from_research` in
  src/code_recap/generate_blog_post.py. It runs `re.findall` with the pattern
      `([a-f0-9]{7,8})`(?:\s*\(([^)]+)\))?
  and strips the second group. `MatchAt` is that pattern tried at one
  position, with the regex engine's backtracking worked out; `FindAll` is
  `findall`'s left-to-right, non-overlapping scan.
*/
module ShaRefs {
  import opened Wrappers
  import opened Text

  /** A character of the class `[a-f0-9]`. */
  predicate IsShaChar(ch: char) { '0' <= ch <= '9' || 'a' <= ch <= 'f' }

  /** The number of `[a-f0-9]` characters starting at `i`. */
  function ShaRun(s: string, i: nat): (n: nat)
    requires i <= |s|
    ensures i + n <= |s|
    ensures i + n < |s| ==> !IsShaChar(s[i + n])
    decreases |s| - i
  {
    if i < |s| && IsShaChar(s[i]) then 1 + ShaRun(s, i + 1) else 0
  }

  /** The run is all `[a-f0-9]`. */
  lemma {:induction false} ShaRunShape(s: string, i: nat)
    requires i <= |s|
    ensures forall k :: i <= k < i + ShaRun(s, i) ==> IsShaChar(s[k])
    decreases |s| - i
  {
    if i < |s| && IsShaChar(s[i]) {
      ShaRunShape(s, i + 1);
    }
  }

  /** The first `)` at or after `i`, or `|s|` when there is none. */
  function CloseParen(s: string, i: nat): (k: nat)
    requires i <= |s|
    ensures i <= k <= |s|
    ensures k < |s| ==> s[k] == ')'
    decreases |s| - i
  {
    if i < |s| && s[i] != ')' then CloseParen(s, i + 1) else i
  }

  /** No `)` comes before it. */
  lemma {:induction false} CloseParenShape(s: string, i: nat)
    requires i <= |s|
    ensures forall j :: i <= j < CloseParen(s, i) ==> s[j] != ')'
    decreases |s| - i
  {
    if i < |s| && s[i] != ')' {
      CloseParenShape(s, i + 1);
    }
  }

  /** One match: where it starts and ends, the SHA group, and the raw repository group ("" when unmatched). */
  datatype ShaMatch = ShaMatch(start: nat, end: nat, sha: string, repo: string)

  /**
    The pattern tried at position `i`. A backtick, then `{7,8}` hex characters
    and a backtick: the greedy count can only succeed when the run of hex
    characters is exactly 7 or 8 long and a backtick follows it. Then the
    optional group: the longest run of whitespace, `(`, the longest run of
    characters other than `)` (at least one), and `)`; if any part of that is
    missing the group is skipped and the match ends after the backtick.
  */
  function MatchAt(s: string, i: nat): (r: Option<ShaMatch>)
    requires i <= |s|
    ensures r.Some? ==> r.value.start == i && i + 9 <= r.value.end <= |s|
  {
    if i < |s| && s[i] == '`' then
      var n := ShaRun(s, i + 1);
      if (n == 7 || n == 8) && i + 1 + n < |s| && s[i + 1 + n] == '`' then
        var sha := s[i + 1..i + 1 + n];
        var afterSha := i + 2 + n;
        var open := afterSha + SpaceRun(s, afterSha);
        if open < |s| && s[open] == '(' then
          var close := CloseParen(s, open + 1);
          if close < |s| && close > open + 1 then
            Some(ShaMatch(i, close + 1, sha, s[open + 1..close]))
          else Some(ShaMatch(i, afterSha, sha, ""))
        else Some(ShaMatch(i, afterSha, sha, ""))
      else None
    else None
  }

  /**
    The pattern matches at `i` exactly when a backtick is followed by a run of
    7 or 8 hex characters and a backtick; the match then holds that run, and
    its repository group is either absent (the match ends after the backtick)
    or the text, free of `)`, between `(` and `)` after optional whitespace.
  */
  lemma MatchAtShape(s: string, i: nat)
    requires i <= |s|
    ensures MatchAt(s, i).Some? <==>
              (i < |s| && s[i] == '`' && (ShaRun(s, i + 1) == 7 || ShaRun(s, i + 1) == 8)
               && i + 1 + ShaRun(s, i + 1) < |s| && s[i + 1 + ShaRun(s, i + 1)] == '`')
    ensures MatchAt(s, i).Some? ==> ShaGroup(s, i, MatchAt(s, i).value) && RepoGroup(s, i, MatchAt(s, i).value)
  {
    if MatchAt(s, i).Some? {
      MatchAtSha(s, i);
      MatchAtRepo(s, i);
    }
  }

  /** The match starts at `i` and its SHA is the 7 or 8 hex characters between the backticks. */
  predicate ShaGroup(s: string, i: nat, m: ShaMatch)
  {
    m.start == i && i + 9 <= m.end <= |s|
    && (|m.sha| == 7 || |m.sha| == 8)
    && i + 1 + |m.sha| < |s|
    && m.sha == s[i + 1..i + 1 + |m.sha|]
    && (forall k :: 0 <= k < |m.sha| ==> IsShaChar(m.sha[k]))
    && s[i + 1 + |m.sha|] == '`'
  }

  /**
    The repository group: absent, and the match ends after the closing
    backtick; or whitespace, `(`, text free of `)`, and `)` that ends the match.
    It is absent only when no such group follows the backtick.
  */
  ghost predicate RepoGroup(s: string, i: nat, m: ShaMatch)
  {
    RepoSpan(s, i, m) && (m.repo == "" ==> !GroupFollows(s, i + 2 + |m.sha|))
  }

  /** Where the repository group sits when present, and that it is absent exactly when the match ends early. */
  predicate RepoSpan(s: string, i: nat, m: ShaMatch)
  {
    i + 2 + |m.sha| <= m.end <= |s|
    && ')' !in m.repo
    && (m.repo == "" <==> m.end == i + 2 + |m.sha|)
    && (m.repo != "" ==>
          m.end >= i + 4 + |m.sha| + |m.repo|
          && (forall k :: i + 2 + |m.sha| <= k < m.end - 2 - |m.repo| ==> IsSpace(s[k]))
          && s[m.end - 2 - |m.repo|] == '('
          && m.repo == s[m.end - 1 - |m.repo|..m.end - 1]
          && s[m.end - 1] == ')')
  }

  /**
    `\s*\(([^)]+)\)` can match at `a`: whitespace up to a `(` at `o`, then at
    least one character other than `)`, then a `)` at `c`.
  */
  ghost predicate GroupFollows(s: string, a: nat)
  {
    exists o, c :: GroupAt(s, a, o, c)
  }

  predicate GroupAt(s: string, a: nat, o: nat, c: nat)
  {
    a <= o && o + 1 < c < |s|
    && (forall k :: a <= k < o ==> IsSpace(s[k]))
    && s[o] == '(' && s[c] == ')'
    && (forall k :: o < k < c ==> s[k] != ')')
  }

  lemma MatchAtSha(s: string, i: nat)
    requires i <= |s| && MatchAt(s, i).Some?
    ensures ShaGroup(s, i, MatchAt(s, i).value)
  {
    ShaRunShape(s, i + 1);
  }

  lemma MatchAtRepo(s: string, i: nat)
    requires i <= |s| && MatchAt(s, i).Some?
    ensures RepoGroup(s, i, MatchAt(s, i).value)
  {
    MatchAtSpan(s, i);
    MatchAtNoGroup(s, i);
  }

  lemma MatchAtSpan(s: string, i: nat)
    requires i <= |s| && MatchAt(s, i).Some?
    ensures RepoSpan(s, i, MatchAt(s, i).value)
  {
    var n := ShaRun(s, i + 1);
    var sha := s[i + 1..i + 1 + n];
    var afterSha := i + 2 + n;
    var open := afterSha + SpaceRun(s, afterSha);
    if open < |s| && s[open] == '(' && CloseParen(s, open + 1) < |s| && CloseParen(s, open + 1) > open + 1 {
      var close := CloseParen(s, open + 1);
      assert MatchAt(s, i) == Some(ShaMatch(i, close + 1, sha, s[open + 1..close]));
      SpaceRunShape(s, afterSha);
      CloseParenShape(s, open + 1);
      RepoSpanPresent(s, i, sha, open, close);
    } else {
      assert MatchAt(s, i) == Some(ShaMatch(i, afterSha, sha, ""));
    }
  }

  /** Whitespace, `(` at `open`, `)`-free text and `)` at `close` after the SHA make a present repository group. */
  lemma RepoSpanPresent(s: string, i: nat, sha: string, open: nat, close: nat)
    requires i + 2 + |sha| <= open && open + 1 < close < |s|
    requires forall k :: i + 2 + |sha| <= k < open ==> IsSpace(s[k])
    requires s[open] == '(' && s[close] == ')'
    requires forall k :: open < k < close ==> s[k] != ')'
    ensures RepoSpan(s, i, ShaMatch(i, close + 1, sha, s[open + 1..close]))
  {
    var repo := s[open + 1..close];
    forall k | 0 <= k < |repo| ensures repo[k] != ')' {
      assert repo[k] == s[open + 1 + k];
    }
  }

  /** The group is skipped only when it cannot match. */
  lemma MatchAtNoGroup(s: string, i: nat)
    requires i <= |s| && MatchAt(s, i).Some?
    ensures MatchAt(s, i).value.repo == "" ==> !GroupFollows(s, i + 2 + |MatchAt(s, i).value.sha|)
  {
    var afterSha := i + 2 + ShaRun(s, i + 1);
    if GroupFollows(s, afterSha) {
      var o: nat, c: nat :| GroupAt(s, afterSha, o, c);
      SpaceRunTo(s, afterSha, o);
      CloseParenTo(s, o + 1, c);
    }
  }

  /** A whitespace run ends at the first character that is not whitespace. */
  lemma {:induction false} SpaceRunTo(s: string, a: nat, o: nat)
    requires a <= o < |s| && !IsSpace(s[o])
    requires forall k :: a <= k < o ==> IsSpace(s[k])
    ensures SpaceRun(s, a) == o - a
    decreases o - a
  {
    if a < o {
      SpaceRunTo(s, a + 1, o);
    }
  }

  /** `CloseParen` finds the first `)`. */
  lemma {:induction false} CloseParenTo(s: string, i: nat, c: nat)
    requires i <= c < |s| && s[c] == ')'
    requires forall k :: i <= k < c ==> s[k] != ')'
    ensures CloseParen(s, i) == c
    decreases c - i
  {
    if i < c {
      CloseParenTo(s, i + 1, c);
    }
  }

  /** `re.findall` from position `i`: try the pattern at each position, and after a match go on from its end. */
  function FindAll(s: string, i: nat): seq<ShaMatch>
    requires i <= |s|
    decreases |s| - i
  {
    if i == |s| then []
    else match MatchAt(s, i)
      case Some(m) => [m] + FindAll(s, m.end)
      case None => FindAll(s, i + 1)
  }

  /** The `(sha, repo_name)` pair the source appends for one match. */
  function ToRef(m: ShaMatch): (string, string)
  {
    (m.sha, Strip(m.repo))
  }

  /** `ToRef` of each match, in order. */
  function Refs(ms: seq<ShaMatch>): (r: seq<(string, string)>)
    ensures |r| == |ms|
  {
    if ms == [] then [] else [ToRef(ms[0])] + Refs(ms[1..])
  }

  lemma {:induction false} RefsAt(ms: seq<ShaMatch>)
    ensures forall k :: 0 <= k < |ms| ==> Refs(ms)[k] == ToRef(ms[k])
  {
    if ms != [] {
      RefsAt(ms[1..]);
      forall k | 0 < k < |ms| ensures Refs(ms)[k] == ToRef(ms[k]) {
        assert Refs(ms)[k] == Refs(ms[1..])[k - 1];
      }
    }
  }

  /** One step of the scan. */
  lemma FindAllStep(s: string, i: nat)
    requires i < |s|
    ensures MatchAt(s, i).Some? ==> FindAll(s, i) == [MatchAt(s, i).value] + FindAll(s, MatchAt(s, i).value.end)
    ensures MatchAt(s, i).None? ==> FindAll(s, i) == FindAll(s, i + 1)
  {
  }

  lemma RefsCons(m: ShaMatch, ms: seq<ShaMatch>)
    ensures Refs([m] + ms) == [ToRef(m)] + Refs(ms)
  {
    assert ([m] + ms)[1..] == ms;
  }

  /**
    `extract_commit_shas_from_research`: the matches of the pattern, in order,
    as `(sha, repo)` with the repository text stripped.
  */
  method ExtractCommitShas(content: string) returns (results: seq<(string, string)>)
    ensures results == Refs(FindAll(content, 0))
  {
    results := [];
    var i := 0;
    while i < |content|
      invariant 0 <= i <= |content|
      invariant results + Refs(FindAll(content, i)) == Refs(FindAll(content, 0))
      decreases |content| - i
    {
      var found := MatchAt(content, i);
      ExtractStep(content, i, results);
      if found.Some? {
        var m := found.value;
        results := results + [ToRef(m)];
        i := m.end;
      } else {
        i := i + 1;
      }
    }
  }

  /** One step of the extraction loop: a match adds its reference and the scan resumes at its end. */
  lemma ExtractStep(s: string, i: nat, results: seq<(string, string)>)
    requires i < |s|
    ensures MatchAt(s, i).Some? ==>
              results + Refs(FindAll(s, i))
              == (results + [ToRef(MatchAt(s, i).value)]) + Refs(FindAll(s, MatchAt(s, i).value.end))
    ensures MatchAt(s, i).None? ==> Refs(FindAll(s, i)) == Refs(FindAll(s, i + 1))
  {
    FindAllStep(s, i);
    if MatchAt(s, i).Some? {
      var m := MatchAt(s, i).value;
      RefsCons(m, FindAll(s, m.end));
    }
  }

  /** Every entry is a match of the pattern at its own start, at or after `i` and inside `s`. */
  predicate MatchesFrom(s: string, i: nat, r: seq<ShaMatch>)
  {
    forall k :: 0 <= k < |r| ==>
      i <= r[k].start < r[k].end <= |s| && MatchAt(s, r[k].start) == Some(r[k])
  }

  /** The entries run left to right without overlapping. */
  predicate InOrder(r: seq<ShaMatch>)
  {
    forall k :: 0 <= k < |r| - 1 ==> r[k].end <= r[k + 1].start
  }

  /** What `findall` returns: matches of the pattern, from `i` on, in order and without overlap. */
  lemma {:induction false} FindAllOrdered(s: string, i: nat)
    requires i <= |s|
    ensures MatchesFrom(s, i, FindAll(s, i)) && InOrder(FindAll(s, i))
    decreases |s| - i
  {
    if i < |s| {
      FindAllStep(s, i);
      var found := MatchAt(s, i);
      if found.Some? {
        FindAllOrdered(s, found.value.end);
        ConsOrdered(s, i, found.value, FindAll(s, found.value.end));
      } else {
        FindAllOrdered(s, i + 1);
      }
    }
  }

  /** A match at `i` followed by ordered matches from its end is ordered from `i`. */
  lemma ConsOrdered(s: string, i: nat, m: ShaMatch, rest: seq<ShaMatch>)
    requires i <= |s| && MatchAt(s, i) == Some(m)
    requires MatchesFrom(s, m.end, rest) && InOrder(rest)
    ensures MatchesFrom(s, i, [m] + rest) && InOrder([m] + rest)
  {
    var r := [m] + rest;
    assert forall k :: 0 < k < |r| ==> r[k] == rest[k - 1];
  }

  /**
    Nothing is missed: at every position from `i` on where the pattern
    matches, either that match is in the result or the position lies inside
    an earlier match, which `findall` skips over.
  */
  lemma {:induction false} FindAllComplete(s: string, i: nat, p: nat)
    requires i <= p < |s| && MatchAt(s, p).Some?
    ensures exists k :: CoveredAt(FindAll(s, i), k, p)
    decreases |s| - i, 1
  {
    FindAllStep(s, i);
    if MatchAt(s, i).Some? {
      FindAllCompleteAtMatch(s, i, p);
    } else {
      assert p != i;
      FindAllComplete(s, i + 1, p);
    }
  }

  /** The case where the scan finds a match at `i`. */
  lemma {:induction false} FindAllCompleteAtMatch(s: string, i: nat, p: nat)
    requires i <= p < |s| && MatchAt(s, p).Some? && MatchAt(s, i).Some?
    ensures exists k :: CoveredAt(FindAll(s, i), k, p)
    decreases |s| - i, 0
  {
    FindAllStep(s, i);
    var m := MatchAt(s, i).value;
    if m.end <= p {
      FindAllComplete(s, m.end, p);
    }
    CoveredCons(m, FindAll(s, m.end), p);
  }

  /** A position spanned by `m`, or by an entry of `rest`, is spanned by an entry of `[m] + rest`. */
  lemma CoveredCons(m: ShaMatch, rest: seq<ShaMatch>, p: nat)
    requires (m.start <= p < m.end) || exists k :: CoveredAt(rest, k, p)
    ensures exists k :: CoveredAt([m] + rest, k, p)
  {
    if !(m.start <= p < m.end) {
      var k :| CoveredAt(rest, k, p);
      assert ([m] + rest)[k + 1] == rest[k];
      assert CoveredAt([m] + rest, k + 1, p);
    } else {
      assert CoveredAt([m] + rest, 0, p);
    }
  }

  /** Entry `k` of `r` spans position `p`. */
  predicate CoveredAt(r: seq<ShaMatch>, k: int, p: nat)
  {
    0 <= k < |r| && r[k].start <= p < r[k].end
  }

  /**
    Every extracted reference is 7 or 8 characters of `[a-f0-9]`, and its
    repository is the stripped text between the parentheses (so it neither
    starts nor ends with whitespace, and holds no `)`), or "".
  */
  lemma ExtractedRefsShape(content: string)
    ensures var refs := Refs(FindAll(content, 0));
            forall k :: 0 <= k < |refs| ==> RefShape(refs[k])
  {
    var ms := FindAll(content, 0);
    FindAllOrdered(content, 0);
    RefsAt(ms);
    forall k | 0 <= k < |ms|
      ensures RefShape(ToRef(ms[k]))
    {
      MatchRefShape(content, ms[k]);
    }
  }

  /** A reference as the scanner reports it: a 7- or 8-character SHA, and a stripped repository free of `)`. */
  predicate RefShape(ref: (string, string))
  {
    (|ref.0| == 7 || |ref.0| == 8)
    && (forall j :: 0 <= j < |ref.0| ==> IsShaChar(ref.0[j]))
    && ')' !in ref.1
    && (|ref.1| > 0 ==> !IsSpace(ref.1[0]) && !IsSpace(ref.1[|ref.1| - 1]))
  }

  lemma MatchRefShape(s: string, m: ShaMatch)
    requires m.start <= |s| && MatchAt(s, m.start) == Some(m)
    ensures RefShape(ToRef(m))
  {
    MatchAtShape(s, m.start);
    StrippedRepo(m.repo);
  }

  /** Stripping text free of `)` leaves text free of `)` with no whitespace at either end. */
  lemma StrippedRepo(raw: string)
    requires ')' !in raw
    ensures ')' !in Strip(raw)
    ensures |Strip(raw)| > 0 ==> !IsSpace(Strip(raw)[0]) && !IsSpace(Strip(raw)[|Strip(raw)| - 1])
  {
    StripIsTrim(raw);
    var a, b :| 0 <= a <= b <= |raw| && Strip(raw) == raw[a..b];
    assert forall x :: 0 <= x < |Strip(raw)| ==> Strip(raw)[x] == raw[a + x];
  }
}
