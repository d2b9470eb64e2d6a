/** `SearchService.search_keyword` (services/search_service.py, lines 12-79): every
    case-insensitive occurrence of the keyword in every Markdown file, classified as
    a whole-word or a partial match, with a snippet of context around it. */
module Search {
  import opened PyStr
  import Seqs

  /** 'complete' or 'partial' (lines 39-47). */
  datatype MatchType = Complete | Partial

  /** One entry of `snippets` (lines 62-68). */
  datatype Snippet = Snippet(lineNumber: nat, before: string, matched: string, after: string, matchType: MatchType)

  /** `result[filename]` (lines 72-75). */
  datatype FileHits = FileHits(count: nat, snippets: seq<Snippet>)

  /** Characters of context kept on each side of a match (lines 49-50). */
  const CONTEXT: nat := 50

  /** Snippets kept per file (line 74). */
  const MAX_SNIPPETS: nat := 10

  // ---------------------------------------------------------------------------
  // Matching (line 22 and line 33)

  /** The escaped keyword under `re.IGNORECASE` matches at `p`: the characters agree
      after case folding, one for one. `fold` is the case folding of the regular
      expression engine. */
  predicate MatchesAt(line: string, kw: string, fold: char -> char, p: nat)
  {
    p + |kw| <= |line| && forall j :: 0 <= j < |kw| ==> fold(line[p + j]) == fold(kw[j])
  }

  /** `pattern.finditer(line)` from position `p`: the start of each match, scanning
      left to right and resuming after each match. */
  function FindFrom(line: string, kw: string, fold: char -> char, p: nat): seq<nat>
    requires |kw| > 0
    decreases |line| - p
  {
    if p + |kw| > |line| then []
    else if MatchesAt(line, kw, fold, p) then [p] + FindFrom(line, kw, fold, p + |kw|)
    else FindFrom(line, kw, fold, p + 1)
  }

  /** Every start in `r` is a match at or after `p`. */
  predicate AllMatchFrom(line: string, kw: string, fold: char -> char, p: nat, r: seq<nat>)
  {
    forall k :: 0 <= k < |r| ==> p <= r[k] && MatchesAt(line, kw, fold, r[k])
  }

  /** Each start in `r` is at least `w` after the one before. */
  predicate Spaced(r: seq<nat>, w: nat)
  {
    forall k :: 0 <= k < |r| - 1 ==> r[k] + w <= r[k + 1]
  }

  /** Every reported start is a match at or after `p`, and each match begins no
      earlier than the end of the one before: left to right, no overlap. */
  lemma {:induction false} FindFromSound(line: string, kw: string, fold: char -> char, p: nat)
    requires |kw| > 0
    ensures AllMatchFrom(line, kw, fold, p, FindFrom(line, kw, fold, p))
    ensures Spaced(FindFrom(line, kw, fold, p), |kw|)
    decreases |line| - p
  {
    if p + |kw| <= |line| {
      if MatchesAt(line, kw, fold, p) {
        var q := p + |kw|;
        FindFromSound(line, kw, fold, q);
        ConsSound(line, kw, fold, p, FindFrom(line, kw, fold, q));
      } else {
        FindFromSound(line, kw, fold, p + 1);
        FromLater(line, kw, fold, p, FindFrom(line, kw, fold, p + 1));
      }
    }
  }

  lemma ConsSound(line: string, kw: string, fold: char -> char, p: nat, rest: seq<nat>)
    requires MatchesAt(line, kw, fold, p)
    requires AllMatchFrom(line, kw, fold, p + |kw|, rest) && Spaced(rest, |kw|)
    ensures AllMatchFrom(line, kw, fold, p, [p] + rest) && Spaced([p] + rest, |kw|)
  {
    var r := [p] + rest;
    forall k | 0 < k < |r|
      ensures r[k] == rest[k - 1]
    {
    }
  }

  lemma FromLater(line: string, kw: string, fold: char -> char, p: nat, r: seq<nat>)
    requires AllMatchFrom(line, kw, fold, p + 1, r)
    ensures AllMatchFrom(line, kw, fold, p, r)
  {
  }

  /** `r` covers position `q`: some start in `r` is at most `q` and its match
      reaches past `q`. */
  ghost predicate Covers(r: seq<nat>, w: nat, q: nat)
  {
    exists k :: 0 <= k < |r| && r[k] <= q < r[k] + w
  }

  /** No match is missed: every position from `p` on where the keyword matches is
      either reported or inside a reported match that began before it. */
  lemma {:induction false} FindFromComplete(line: string, kw: string, fold: char -> char, p: nat, q: nat)
    requires |kw| > 0 && p <= q && MatchesAt(line, kw, fold, q)
    ensures Covers(FindFrom(line, kw, fold, p), |kw|, q)
    decreases |line| - p
  {
    if MatchesAt(line, kw, fold, p) {
      var next := p + |kw|;
      var rest := FindFrom(line, kw, fold, next);
      FindFromHit(line, kw, fold, p);
      if q < next {
        CoversHead(p, rest, |kw|, q);
      } else {
        FindFromComplete(line, kw, fold, next, q);
        CoversCons(p, rest, |kw|, q);
      }
    } else {
      FindFromMiss(line, kw, fold, p, q);
      FindFromComplete(line, kw, fold, p + 1, q);
    }
  }

  lemma FindFromHit(line: string, kw: string, fold: char -> char, p: nat)
    requires |kw| > 0 && MatchesAt(line, kw, fold, p)
    ensures FindFrom(line, kw, fold, p) == [p] + FindFrom(line, kw, fold, p + |kw|)
  {
  }

  lemma FindFromMiss(line: string, kw: string, fold: char -> char, p: nat, q: nat)
    requires |kw| > 0 && p <= q && MatchesAt(line, kw, fold, q) && !MatchesAt(line, kw, fold, p)
    ensures p < q && FindFrom(line, kw, fold, p) == FindFrom(line, kw, fold, p + 1)
  {
  }

  lemma CoversHead(p: nat, rest: seq<nat>, w: nat, q: nat)
    requires p <= q < p + w
    ensures Covers([p] + rest, w, q)
  {
    assert ([p] + rest)[0] == p;
  }

  lemma CoversCons(p: nat, rest: seq<nat>, w: nat, q: nat)
    requires Covers(rest, w, q)
    ensures Covers([p] + rest, w, q)
  {
    var k :| 0 <= k < |rest| && rest[k] <= q < rest[k] + w;
    assert ([p] + rest)[k + 1] == rest[k];
  }

  // ---------------------------------------------------------------------------
  // One snippet (lines 35-68)

  /** Lines 39-47: whole word exactly when the match starts the line or follows a
      non-alphanumeric character, and ends the line or precedes one. `isAlnum` is
      `str.isalnum` on one character. */
  function Classify(line: string, start: nat, end: nat, isAlnum: char -> bool): MatchType
    requires start <= end <= |line|
  {
    var prefixBoundary := start == 0 || !isAlnum(line[start - 1]);
    var suffixBoundary := end == |line| || !isAlnum(line[end]);
    if prefixBoundary && suffixBoundary then Complete else Partial
  }

  /** `max(0, start - 50)`. */
  function ContextStart(start: nat): (cs: nat)
    ensures cs <= start && start - cs == if start < CONTEXT then start else CONTEXT
  {
    if start < CONTEXT then 0 else start - CONTEXT
  }

  /** `min(len(line), end + 50)`. */
  function ContextEnd(end: nat, len: nat): (ce: nat)
    requires end <= len
    ensures end <= ce <= len && ce - end == if len - end < CONTEXT then len - end else CONTEXT
  {
    if end + CONTEXT <= len then end + CONTEXT else len
  }

  /** `lines[i-1] + '\n' if i > 0 else ""`. */
  function PrevLine(lines: seq<string>, i: nat): string
    requires i < |lines|
  {
    if i > 0 then lines[i - 1] + "\n" else ""
  }

  /** `'\n' + lines[i+1] if i < len(lines)-1 else ""`. */
  function NextLine(lines: seq<string>, i: nat): string
    requires i < |lines|
  {
    if i < |lines| - 1 then "\n" + lines[i + 1] else ""
  }

  /** The snippet of the match of `kw` starting at `start` in line `i`. */
  function MakeSnippet(lines: seq<string>, i: nat, start: nat, kw: string, isAlnum: char -> bool): Snippet
    requires i < |lines| && start + |kw| <= |lines[i]|
  {
    var line := lines[i];
    var end := start + |kw|;
    Snippet(i + 1,
            PrevLine(lines, i) + line[ContextStart(start)..start],
            line[start..end],
            line[end..ContextEnd(end, |line|)] + NextLine(lines, i),
            Classify(line, start, end, isAlnum))
  }

  // ---------------------------------------------------------------------------
  // One file (lines 27-69)

  predicate Fits(line: string, kw: string, starts: seq<nat>)
  {
    forall k :: 0 <= k < |starts| ==> starts[k] + |kw| <= |line|
  }

  /** The snippets of the matches `starts` in line `i`, in order. */
  function LineSnippets(lines: seq<string>, i: nat, starts: seq<nat>, kw: string, isAlnum: char -> bool): seq<Snippet>
    requires i < |lines| && Fits(lines[i], kw, starts)
    decreases |starts|
  {
    if starts == [] then []
    else
      var init := starts[..|starts| - 1];
      assert Fits(lines[i], kw, init) by {
        forall k | 0 <= k < |init|
          ensures init[k] + |kw| <= |lines[i]|
        {
          assert init[k] == starts[k];
        }
      }
      LineSnippets(lines, i, init, kw, isAlnum) + [MakeSnippet(lines, i, starts[|starts| - 1], kw, isAlnum)]
  }

  /** The matches of line `i`. */
  function LineMatches(lines: seq<string>, i: nat, kw: string, fold: char -> char): (starts: seq<nat>)
    requires i < |lines| && |kw| > 0
    ensures Fits(lines[i], kw, starts)
  {
    FindFromSound(lines[i], kw, fold, 0);
    FindFrom(lines[i], kw, fold, 0)
  }

  /** The snippets of the first `n` lines, in discovery order. */
  function SnippetsUpTo(lines: seq<string>, n: nat, kw: string, fold: char -> char, isAlnum: char -> bool): seq<Snippet>
    requires n <= |lines| && |kw| > 0
    decreases n
  {
    if n == 0 then []
    else SnippetsUpTo(lines, n - 1, kw, fold, isAlnum) + LineSnippets(lines, n - 1, LineMatches(lines, n - 1, kw, fold), kw, isAlnum)
  }

  /** Every snippet of a file, for the file's `content.split('\n')`. */
  function FileSnippets(content: string, kw: string, fold: char -> char, isAlnum: char -> bool): seq<Snippet>
    requires |kw| > 0
  {
    var lines := Split(content, '\n');
    SnippetsUpTo(lines, |lines|, kw, fold, isAlnum)
  }

  lemma LineSnippetsExtend(lines: seq<string>, i: nat, starts: seq<nat>, m: nat, kw: string, isAlnum: char -> bool)
    requires i < |lines| && Fits(lines[i], kw, starts) && m < |starts|
    ensures Fits(lines[i], kw, starts[..m]) && Fits(lines[i], kw, starts[..m + 1])
    ensures LineSnippets(lines, i, starts[..m + 1], kw, isAlnum) ==
      LineSnippets(lines, i, starts[..m], kw, isAlnum) + [MakeSnippet(lines, i, starts[m], kw, isAlnum)]
  {
    Seqs.PrefixInit(starts, m);
    assert forall k :: 0 <= k < m + 1 ==> starts[..m + 1][k] == starts[k];
  }

  /** Lines 27-69 for one file: `count` and the full `snippets` list. */
  method SearchFile(content: string, kw: string, fold: char -> char, isAlnum: char -> bool)
    returns (count: nat, snippets: seq<Snippet>)
    requires |kw| > 0
    ensures snippets == FileSnippets(content, kw, fold, isAlnum)
    ensures count == |snippets|
  {
    var lines := Split(content, '\n');
    count, snippets := SearchLines(lines, kw, fold, isAlnum);
  }

  /** Lines 30-69: every line of the file in order. */
  method SearchLines(lines: seq<string>, kw: string, fold: char -> char, isAlnum: char -> bool)
    returns (count: nat, snippets: seq<Snippet>)
    requires |kw| > 0
    ensures snippets == SnippetsUpTo(lines, |lines|, kw, fold, isAlnum)
    ensures count == |snippets|
  {
    snippets, count := [], 0;
    for i := 0 to |lines|
      invariant snippets == SnippetsUpTo(lines, i, kw, fold, isAlnum)
      invariant count == |snippets|
    {
      ghost var before, k := snippets, i;
      snippets, count := SearchLine(lines, i, kw, fold, isAlnum, snippets, count);
      SnippetsUpToNext(lines, k, i + 1, kw, fold, isAlnum, before, snippets);
    }
  }

  lemma SnippetsUpToNext(lines: seq<string>, i: nat, j: nat, kw: string, fold: char -> char, isAlnum: char -> bool,
                         before: seq<Snippet>, after: seq<Snippet>)
    requires i < |lines| && j == i + 1 && |kw| > 0
    requires before == SnippetsUpTo(lines, i, kw, fold, isAlnum)
    requires after == before + LineSnippets(lines, i, LineMatches(lines, i, kw, fold), kw, isAlnum)
    ensures after == SnippetsUpTo(lines, j, kw, fold, isAlnum)
  {
  }

  /** Lines 30-68 for line `i`: one snippet per match appended to `snippets`, and
      `count` raised by one for each. */
  method SearchLine(lines: seq<string>, i: nat, kw: string, fold: char -> char, isAlnum: char -> bool,
                    snippets0: seq<Snippet>, count0: nat)
    returns (snippets: seq<Snippet>, count: nat)
    requires i < |lines| && |kw| > 0 && count0 == |snippets0|
    ensures snippets == snippets0 + LineSnippets(lines, i, LineMatches(lines, i, kw, fold), kw, isAlnum)
    ensures count == |snippets|
  {
    snippets, count := snippets0, count0;
    var starts := LineMatches(lines, i, kw, fold);
    for m := 0 to |starts|
      invariant Fits(lines[i], kw, starts[..m])
      invariant snippets == snippets0 + LineSnippets(lines, i, starts[..m], kw, isAlnum)
      invariant count == |snippets|
    {
      count := count + 1;
      var snippet := MakeSnippet(lines, i, starts[m], kw, isAlnum);
      LineSnippetsExtend(lines, i, starts, m, kw, isAlnum);
      Seqs.SnocAssoc(snippets, snippets0, LineSnippets(lines, i, starts[..m], kw, isAlnum), snippet);
      snippets := snippets + [snippet];
    }
    Seqs.WholePrefix(starts);
  }

  // ---------------------------------------------------------------------------
  // All files (lines 12-79)

  function Min(a: nat, b: nat): nat
  {
    if a <= b then a else b
  }

  /** Lines 72-75: the total count and the first ten snippets. */
  function Hits(all: seq<Snippet>): FileHits
  {
    FileHits(|all|, all[..Min(MAX_SNIPPETS, |all|)])
  }

  /** A file is reported when it could be read and has a match. A file whose read
      raises is absent from `contents` (the exception is caught at line 76). */
  predicate Reported(f: string, contents: map<string, string>, kw: string, fold: char -> char, isAlnum: char -> bool)
    requires |kw| > 0
  {
    f in contents && |FileSnippets(contents[f], kw, fold, isAlnum)| > 0
  }

  /** `result` after the first `n` files. */
  function SearchUpTo(files: seq<string>, n: nat, contents: map<string, string>, kw: string,
                      fold: char -> char, isAlnum: char -> bool): map<string, FileHits>
    requires n <= |files| && |kw| > 0
    decreases n
  {
    if n == 0 then map[]
    else
      var acc := SearchUpTo(files, n - 1, contents, kw, fold, isAlnum);
      var f := files[n - 1];
      if Reported(f, contents, kw, fold, isAlnum) then acc[f := Hits(FileSnippets(contents[f], kw, fold, isAlnum))]
      else acc
  }

  /** What `search_keyword` returns for the Markdown files `files`. */
  function SearchResult(files: seq<string>, contents: map<string, string>, keyword: string,
                        fold: char -> char, isAlnum: char -> bool): map<string, FileHits>
  {
    if Strip(keyword) == [] then map[]
    else SearchUpTo(files, |files|, contents, keyword, fold, isAlnum)
  }

  method SearchKeyword(files: seq<string>, contents: map<string, string>, keyword: string,
                       fold: char -> char, isAlnum: char -> bool) returns (result: map<string, FileHits>)
    ensures result == SearchResult(files, contents, keyword, fold, isAlnum)
  {
    result := map[];
    if Strip(keyword) == [] {
      return;
    }
    for k := 0 to |files|
      invariant result == SearchUpTo(files, k, contents, keyword, fold, isAlnum)
    {
      var filename := files[k];
      if filename in contents {
        var count, snippets := SearchFile(contents[filename], keyword, fold, isAlnum);
        if count > 0 {
          result := result[filename := FileHits(count, snippets[..Min(MAX_SNIPPETS, count)])];
        }
      }
    }
  }

  // ---------------------------------------------------------------------------
  // Properties

  /** A keyword that is empty after stripping finds nothing. */
  lemma BlankKeywordFindsNothing(files: seq<string>, contents: map<string, string>, keyword: string,
                                 fold: char -> char, isAlnum: char -> bool)
    requires forall k :: 0 <= k < |keyword| ==> IsSpace(keyword[k])
    ensures SearchResult(files, contents, keyword, fold, isAlnum) == map[]
  {
  }

  /** A file is in the result exactly when it is listed and reported, and then it
      holds the total number of matches and the first ten snippets. */
  lemma {:induction false} SearchUpToKeys(files: seq<string>, n: nat, contents: map<string, string>, kw: string,
                                          fold: char -> char, isAlnum: char -> bool, f: string)
    requires n <= |files| && |kw| > 0
    ensures f in SearchUpTo(files, n, contents, kw, fold, isAlnum) <==>
      f in files[..n] && Reported(f, contents, kw, fold, isAlnum)
    ensures f in SearchUpTo(files, n, contents, kw, fold, isAlnum) ==>
      SearchUpTo(files, n, contents, kw, fold, isAlnum)[f] == Hits(FileSnippets(contents[f], kw, fold, isAlnum))
    decreases n
  {
    if n > 0 {
      SearchUpToKeys(files, n - 1, contents, kw, fold, isAlnum, f);
      assert files[..n] == files[..n - 1] + [files[n - 1]];
    }
  }

  lemma SearchResultKeys(files: seq<string>, contents: map<string, string>, keyword: string,
                         fold: char -> char, isAlnum: char -> bool, f: string)
    requires Strip(keyword) != []
    ensures |keyword| > 0
    ensures f in SearchResult(files, contents, keyword, fold, isAlnum) <==>
      f in files && Reported(f, contents, keyword, fold, isAlnum)
    ensures f in SearchResult(files, contents, keyword, fold, isAlnum) ==>
      var r := SearchResult(files, contents, keyword, fold, isAlnum)[f];
      var all := FileSnippets(contents[f], keyword, fold, isAlnum);
      r.count == |all| && |r.snippets| == Min(MAX_SNIPPETS, |all|) && r.snippets == all[..|r.snippets|]
  {
    SearchUpToKeys(files, |files|, contents, keyword, fold, isAlnum, f);
    assert files[..|files|] == files;
  }

  /** The fields of one snippet: `line_number` is 1-based, `matched` is the text of
      the match, and the context is at most 50 characters from the line itself next
      to the match, plus the neighbouring line. */
  lemma SnippetFields(lines: seq<string>, i: nat, start: nat, kw: string, isAlnum: char -> bool)
    requires i < |lines| && start + |kw| <= |lines[i]|
    ensures var s := MakeSnippet(lines, i, start, kw, isAlnum);
      var line, end := lines[i], start + |kw|;
      var n := if start < CONTEXT then start else CONTEXT;
      var m := if |line| - end < CONTEXT then |line| - end else CONTEXT;
      s.lineNumber == i + 1
      && s.matched == line[start..end]
      && s.before == (if i > 0 then lines[i - 1] + "\n" else "") + line[start - n..start]
      && s.after == line[end..end + m] + (if i + 1 < |lines| then "\n" + lines[i + 1] else "")
  {
  }

  /** The type is 'complete' exactly at word boundaries on both sides. */
  lemma SnippetType(lines: seq<string>, i: nat, start: nat, kw: string, isAlnum: char -> bool)
    requires i < |lines| && start + |kw| <= |lines[i]|
    ensures var s := MakeSnippet(lines, i, start, kw, isAlnum);
      var line, end := lines[i], start + |kw|;
      s.matchType == Complete <==>
        (start == 0 || !isAlnum(line[start - 1])) && (end == |line| || !isAlnum(line[end]))
  {
  }

  /** Every snippet of a file is one of the matches reported on the line it names. */
  lemma FileSnippetsMatch(content: string, kw: string, fold: char -> char, isAlnum: char -> bool)
    requires |kw| > 0
    ensures AllMatchSnippets(Split(content, '\n'), FileSnippets(content, kw, fold, isAlnum), kw, fold)
  {
    var lines := Split(content, '\n');
    SnippetsUpToMatch(lines, |lines|, kw, fold, isAlnum);
  }

  /** `s` names a line (1-based) and its `matched` text is one of the matches
      `finditer` reports on that line. */
  ghost predicate IsMatchSnippet(lines: seq<string>, s: Snippet, kw: string, fold: char -> char)
    requires |kw| > 0
  {
    1 <= s.lineNumber <= |lines|
    && var line := lines[s.lineNumber - 1];
    var starts := LineMatches(lines, s.lineNumber - 1, kw, fold);
    exists k :: 0 <= k < |starts| && MatchesAt(line, kw, fold, starts[k])
      && s.matched == line[starts[k]..starts[k] + |kw|]
  }

  /** Every snippet in `ss` is a match snippet. */
  ghost predicate AllMatchSnippets(lines: seq<string>, ss: seq<Snippet>, kw: string, fold: char -> char)
    requires |kw| > 0
  {
    forall s :: s in ss ==> IsMatchSnippet(lines, s, kw, fold)
  }

  lemma AllMatchAppend(lines: seq<string>, a: seq<Snippet>, b: seq<Snippet>, kw: string, fold: char -> char)
    requires |kw| > 0 && AllMatchSnippets(lines, a, kw, fold) && AllMatchSnippets(lines, b, kw, fold)
    ensures AllMatchSnippets(lines, a + b, kw, fold)
  {
  }

  lemma {:induction false} SnippetsUpToMatch(lines: seq<string>, n: nat, kw: string, fold: char -> char, isAlnum: char -> bool)
    requires n <= |lines| && |kw| > 0
    ensures AllMatchSnippets(lines, SnippetsUpTo(lines, n, kw, fold, isAlnum), kw, fold)
    decreases n
  {
    if n > 0 {
      SnippetsUpToMatch(lines, n - 1, kw, fold, isAlnum);
      var starts := LineMatches(lines, n - 1, kw, fold);
      LineSnippetsMatch(lines, n - 1, kw, fold, isAlnum);
      AllMatchAppend(lines, SnippetsUpTo(lines, n - 1, kw, fold, isAlnum),
                     LineSnippets(lines, n - 1, starts, kw, isAlnum), kw, fold);
    }
  }

  /** Every snippet of line `i` is a match snippet. */
  lemma LineSnippetsMatch(lines: seq<string>, i: nat, kw: string, fold: char -> char, isAlnum: char -> bool)
    requires i < |lines| && |kw| > 0
    ensures AllMatchSnippets(lines, LineSnippets(lines, i, LineMatches(lines, i, kw, fold), kw, isAlnum), kw, fold)
  {
    var starts := LineMatches(lines, i, kw, fold);
    var ss := LineSnippets(lines, i, starts, kw, isAlnum);
    LineSnippetsAt(lines, i, starts, kw, isAlnum);
    forall s | s in ss
      ensures IsMatchSnippet(lines, s, kw, fold)
    {
      var j :| 0 <= j < |ss| && ss[j] == s;
      MatchSnippetAt(lines, i, kw, fold, isAlnum, j);
    }
  }

  /** One snippet per match, in the order of the matches. */
  lemma {:induction false} LineSnippetsAt(lines: seq<string>, i: nat, starts: seq<nat>, kw: string, isAlnum: char -> bool)
    requires i < |lines| && Fits(lines[i], kw, starts)
    ensures |LineSnippets(lines, i, starts, kw, isAlnum)| == |starts|
    ensures forall j :: 0 <= j < |starts| ==>
      LineSnippets(lines, i, starts, kw, isAlnum)[j] == MakeSnippet(lines, i, starts[j], kw, isAlnum)
    decreases |starts|
  {
    if starts != [] {
      var m := |starts| - 1;
      var init := starts[..m];
      LineSnippetsAt(lines, i, init, kw, isAlnum);
      var whole := LineSnippets(lines, i, starts, kw, isAlnum);
      var before := LineSnippets(lines, i, init, kw, isAlnum);
      var last := MakeSnippet(lines, i, starts[m], kw, isAlnum);
      assert whole == before + [last];
      assert |whole| == |starts|;
      forall j | 0 <= j < |starts|
        ensures whole[j] == MakeSnippet(lines, i, starts[j], kw, isAlnum)
      {
        Seqs.SnocAt(whole, before, last, j);
        if j < m {
          assert init[j] == starts[j];
        }
      }
    }
  }

  /** The snippet of the `k`-th match of line `i` is a match snippet. */
  lemma MatchSnippetAt(lines: seq<string>, i: nat, kw: string, fold: char -> char, isAlnum: char -> bool, k: nat)
    requires i < |lines| && |kw| > 0
    requires k < |LineMatches(lines, i, kw, fold)|
    ensures var starts := LineMatches(lines, i, kw, fold);
      IsMatchSnippet(lines, MakeSnippet(lines, i, starts[k], kw, isAlnum), kw, fold)
  {
    FindFromSound(lines[i], kw, fold, 0);
  }
}
