/** `convert_tables` (services/hwp_converter_service.py, lines 61-96): maximal runs
    of tabular lines become pipe tables, every other line is copied as it is. */
module HwpTables {
  import opened PyStr
  import Seqs

  /** `re.search(r' {2,}', line)`: two spaces in a row somewhere in the line. */
  predicate HasSpaceRun(l: string)
  {
    exists k :: 0 <= k < |l| - 1 && l[k] == ' ' && l[k + 1] == ' '
  }

  /** Line 69 (and 72): a table line holds a tab or a run of two or more spaces. */
  predicate IsTabular(l: string)
  {
    '\t' in l || HasSpaceRun(l)
  }

  predicate StartsRun(s: string)
  {
    |s| >= 2 && s[0] == ' ' && s[1] == ' '
  }

  /** The text after the leading spaces. */
  function DropSpaces(s: string): (r: string)
    ensures |r| <= |s| && r == s[|s| - |r|..]
    ensures r == [] || r[0] != ' '
    ensures forall k :: 0 <= k < |s| - |r| ==> s[k] == ' '
    decreases |s|
  {
    if s != [] && s[0] == ' ' then DropSpaces(s[1..]) else s
  }

  /** `re.split(r' {2,}', s)`: cut at every maximal run of two or more spaces;
      a run at either end leaves an empty first or last piece. */
  function SplitSpaceRuns(s: string): (parts: seq<string>)
    ensures |parts| >= 1
    ensures StartsRun(s) ==> parts[0] == ""
    ensures s != [] && !StartsRun(s) ==> parts[0] != [] && parts[0][0] == s[0]
    decreases |s|
  {
    if |s| == 0 then [""]
    else if StartsRun(s) then [""] + SplitSpaceRuns(DropSpaces(s))
    else
      var rest := SplitSpaceRuns(s[1..]);
      [[s[0]] + rest[0]] + rest[1..]
  }

  /** No piece holds two spaces in a row. */
  lemma {:induction false} SplitSpaceRunsRunFree(s: string)
    ensures AllRunFree(SplitSpaceRuns(s))
    decreases |s|
  {
    if |s| > 0 {
      if StartsRun(s) {
        SplitSpaceRunsRunFree(DropSpaces(s));
        AllRunFreeCons("", SplitSpaceRuns(DropSpaces(s)));
      } else {
        SplitSpaceRunsRunFree(s[1..]);
        var rest := SplitSpaceRuns(s[1..]);
        assert RunFree(rest[0]);
        assert rest[0] == [] || s[0] != ' ' || rest[0][0] != ' ' by {
          if s[0] == ' ' && rest[0] != [] {
            assert !StartsRun(s[1..]);
          }
        }
        RunFreeCons(s[0], rest[0]);
        AllRunFreeCons([s[0]] + rest[0], rest[1..]);
      }
    }
  }

  predicate AllRunFree(parts: seq<string>)
  {
    forall k :: 0 <= k < |parts| ==> RunFree(parts[k])
  }

  lemma AllRunFreeCons(p: string, rest: seq<string>)
    requires RunFree(p) && AllRunFree(rest)
    ensures AllRunFree([p] + rest)
  {
    var parts := [p] + rest;
    forall k | 0 <= k < |parts|
      ensures RunFree(parts[k])
    {
      if k > 0 {
        assert parts[k] == rest[k - 1];
      }
    }
  }

  lemma RunFreeCons(c: char, q: string)
    requires RunFree(q) && (q == [] || c != ' ' || q[0] != ' ')
    ensures RunFree([c] + q)
  {
    var p := [c] + q;
    forall k | 0 <= k < |p| - 1
      ensures !(p[k] == ' ' && p[k + 1] == ' ')
    {
      if k > 0 {
        assert p[k] == q[k - 1] && p[k + 1] == q[k];
      }
    }
  }

  /** A piece the splitter may produce next to a run: no inner run, and no space
      at the side that touches the run. */
  predicate RunFree(p: string)
  {
    !HasSpaceRun(p)
  }

  /** A column gap: two or more spaces. */
  predicate IsGap(sp: string)
  {
    |sp| >= 2 && forall k :: 0 <= k < |sp| ==> sp[k] == ' '
  }

  /** Dropping the leading spaces of `sp + t` leaves `t` when `t` starts with no space. */
  lemma {:induction false} DropGap(sp: string, t: string)
    requires forall k :: 0 <= k < |sp| ==> sp[k] == ' '
    requires t == [] || t[0] != ' '
    ensures DropSpaces(sp + t) == t
    decreases |sp|
  {
    if sp == [] {
      assert sp + t == t;
    } else {
      assert (sp + t)[1..] == sp[1..] + t;
      DropGap(sp[1..], t);
    }
  }

  /** One piece, a gap of any width, then the rest: the piece comes out first and
      the whole gap is consumed. */
  lemma {:induction false} SplitSpaceRunsAfterPiece(p: string, sp: string, t: string)
    requires RunFree(p) && (p == [] || p[|p| - 1] != ' ')
    requires IsGap(sp)
    requires t == [] || t[0] != ' '
    ensures SplitSpaceRuns(p + sp + t) == [p] + SplitSpaceRuns(t)
    decreases |p|
  {
    var s := p + sp + t;
    if p == [] {
      assert s == sp + t;
      assert StartsRun(s);
      DropGap(sp, t);
    } else {
      var q := p[1..];
      assert RunFree(q) by {
        forall k | 0 <= k < |q| - 1
          ensures !(q[k] == ' ' && q[k + 1] == ' ')
        {
          assert q[k] == p[k + 1] && q[k + 1] == p[k + 2];
        }
      }
      assert q == [] || q[|q| - 1] == p[|p| - 1];
      assert !StartsRun(s) by {
        if |p| >= 2 {
          assert s[0] == p[0] && s[1] == p[1];
          assert !(p[0] == ' ' && p[1] == ' ');
        } else {
          assert s[0] == p[|p| - 1];
        }
      }
      assert s[1..] == q + sp + t;
      SplitSpaceRunsAfterPiece(q, sp, t);
      assert [p[0]] + q == p;
    }
  }

  /** Pieces that gaps keep apart: inner pieces are non-empty, and no piece has a
      space where it meets a gap. */
  predicate Separable(parts: seq<string>)
  {
    (forall k :: 0 <= k < |parts| ==> RunFree(parts[k]))
    && (forall k :: 0 < k < |parts| ==> parts[k] == [] || parts[k][0] != ' ')
    && (forall k :: 0 <= k < |parts| - 1 ==> parts[k] != [] && parts[k][|parts[k]| - 1] != ' ')
  }

  /** The pieces laid out with the gap `gaps[k]` between piece `k` and piece `k + 1`. */
  function JoinGaps(parts: seq<string>, gaps: seq<string>): (s: string)
    requires |parts| >= 1 && |gaps| == |parts| - 1
    ensures |parts| == 1 ==> s == parts[0]
    ensures |parts[0]| <= |s| && s[..|parts[0]|] == parts[0]
    decreases |parts|
  {
    if |parts| == 1 then parts[0] else parts[0] + gaps[0] + JoinGaps(parts[1..], gaps[1..])
  }

  /** Splitting undoes laying the pieces out with gaps of any widths of two or
      more spaces: `re.split(r' {2,}')` recovers the columns whatever the gaps. */
  lemma {:induction false} SplitSpaceRunsOfJoin(parts: seq<string>, gaps: seq<string>)
    requires |parts| >= 1 && |gaps| == |parts| - 1 && Separable(parts)
    requires forall k :: 0 <= k < |gaps| ==> IsGap(gaps[k])
    ensures SplitSpaceRuns(JoinGaps(parts, gaps)) == parts
    decreases |parts|
  {
    if |parts| == 1 {
      SplitOfRunFree(parts[0]);
    } else {
      var tail, gtail := parts[1..], gaps[1..];
      assert forall k :: 0 <= k < |tail| ==> tail[k] == parts[k + 1];
      assert forall k :: 0 <= k < |gtail| ==> gtail[k] == gaps[k + 1];
      assert Separable(tail);
      SplitSpaceRunsOfJoin(tail, gtail);
      var t := JoinGaps(tail, gtail);
      assert t == [] || t[0] != ' ' by {
        if tail[0] != [] {
          assert t[..|tail[0]|] == tail[0];
          assert t[0] == tail[0][0];
        } else {
          assert |tail| == 1;
        }
      }
      SplitSpaceRunsAfterPiece(parts[0], gaps[0], t);
      assert [parts[0]] + tail == parts;
    }
  }

  /** A piece without a run is not split. */
  lemma {:induction false} SplitOfRunFree(p: string)
    requires RunFree(p)
    ensures SplitSpaceRuns(p) == [p]
    decreases |p|
  {
    if p != [] {
      var q := p[1..];
      assert RunFree(q) by {
        forall k | 0 <= k < |q| - 1
          ensures !(q[k] == ' ' && q[k + 1] == ' ')
        {
          assert q[k] == p[k + 1] && q[k + 1] == p[k + 2];
        }
      }
      SplitOfRunFree(q);
      assert !StartsRun(p);
      assert [p[0]] + q == p;
    }
  }

  /** Each piece stripped: `[c.strip() for c in ...]`. */
  function StripEach(ps: seq<string>): (r: seq<string>)
    ensures |r| == |ps|
    ensures forall k :: 0 <= k < |ps| ==> r[k] == Strip(ps[k])
  {
    seq(|ps|, k requires 0 <= k < |ps| => Strip(ps[k]))
  }

  /** Lines 74-77: the cells of one table line, split at tabs if it has any,
      otherwise at runs of spaces. */
  function Cells(l: string): (cells: seq<string>)
    ensures |cells| >= 1
  {
    if '\t' in l then StripEach(Split(l, '\t')) else StripEach(SplitSpaceRuns(l))
  }

  /** Every cell has no whitespace at either end. */
  lemma CellsTrimmed(l: string)
    ensures forall k :: 0 <= k < |Cells(l)| ==> Trimmed(Cells(l)[k])
  {
    var parts := if '\t' in l then Split(l, '\t') else SplitSpaceRuns(l);
    var cells := Cells(l);
    assert cells == StripEach(parts);
    forall k | 0 <= k < |cells|
      ensures Trimmed(cells[k])
    {
      assert cells[k] == Strip(parts[k]);
    }
  }

  /** No whitespace at either end. */
  predicate Trimmed(c: string)
  {
    c == [] || (!IsSpace(c[0]) && !IsSpace(c[|c| - 1]))
  }

  /** No cell holds a tab: tabs separate the cells or were never there. */
  lemma CellsNoTab(l: string)
    ensures forall k :: 0 <= k < |Cells(l)| ==> '\t' !in Cells(l)[k]
  {
    if '\t' !in l {
      var parts := SplitSpaceRuns(l);
      SplitSpaceRunsChars(l);
      forall k | 0 <= k < |parts|
        ensures '\t' !in Strip(parts[k])
      {
        assert '\t' !in parts[k];
      }
    }
  }

  /** The splitter only removes characters. */
  lemma {:induction false} SplitSpaceRunsChars(s: string)
    ensures forall k, c :: 0 <= k < |SplitSpaceRuns(s)| && c in SplitSpaceRuns(s)[k] ==> c in s
    decreases |s|
  {
    if |s| > 0 {
      if StartsRun(s) {
        var d := DropSpaces(s);
        SplitSpaceRunsChars(d);
        assert forall c :: c in d ==> c in s;
      } else {
        SplitSpaceRunsChars(s[1..]);
        assert forall c :: c in s[1..] ==> c in s;
      }
    }
  }

  /** Line 81: `max(len(row) for row in block)`. */
  function MaxCols(block: seq<seq<string>>): (m: nat)
    requires |block| > 0
    ensures forall k :: 0 <= k < |block| ==> |block[k]| <= m
    ensures exists k :: 0 <= k < |block| && |block[k]| == m
    decreases |block|
  {
    if |block| == 1 then |block[0]|
    else
      var m := MaxCols(block[1..]);
      assert forall k :: 1 <= k < |block| ==> block[k] == block[1..][k - 1];
      if |block[0]| >= m then |block[0]| else m
  }

  /** `[x] * n`. */
  function Repeat(x: string, n: nat): (r: seq<string>)
    ensures |r| == n
    ensures forall k :: 0 <= k < n ==> r[k] == x
  {
    seq(n, k => x)
  }

  /** Line 84: `row += [''] * (max_cols - len(row))`. */
  function PadRow(row: seq<string>, m: nat): (p: seq<string>)
    requires |row| <= m
    ensures |p| == m
    ensures p[..|row|] == row
    ensures forall j :: |row| <= j < m ==> p[j] == ""
  {
    row + Repeat("", m - |row|)
  }

  /** `'| ' + ' | '.join(row) + ' |'`: a pipe-table row. */
  function RenderRow(cells: seq<string>): string
  {
    "| " + Join(" | ", cells) + " |"
  }

  /** A rendered row opens with `"| "` and closes with `" |"`, around the cells
      joined by `" | "`. */
  lemma RenderRowFramed(cells: seq<string>)
    ensures var r := RenderRow(cells);
      |r| >= 4 && r[..2] == "| " && r[|r| - 2..] == " |" && r[2..|r| - 2] == Join(" | ", cells)
  {
  }

  /** Line 89: the separator row of `max_cols` `---` cells. */
  function Separator(m: nat): string
  {
    RenderRow(Repeat("---", m))
  }

  /** The `block` list: one list of cells per table line, in order. */
  function BlockCells(rows: seq<string>): (block: seq<seq<string>>)
    ensures |block| == |rows|
    decreases |rows|
  {
    if rows == [] then [] else BlockCells(rows[..|rows| - 1]) + [Cells(rows[|rows| - 1])]
  }

  lemma {:induction false} BlockCellsAt(rows: seq<string>, k: nat)
    requires k < |rows|
    ensures BlockCells(rows)[k] == Cells(rows[k])
    decreases |rows|
  {
    if k < |rows| - 1 {
      BlockCellsAt(rows[..|rows| - 1], k);
    }
  }

  function PadBlock(block: seq<seq<string>>, m: nat): (padded: seq<seq<string>>)
    requires forall k :: 0 <= k < |block| ==> |block[k]| <= m
    ensures |padded| == |block|
    ensures forall k :: 0 <= k < |block| ==> padded[k] == PadRow(block[k], m)
  {
    seq(|block|, k requires 0 <= k < |block| => PadRow(block[k], m))
  }

  function RenderRows(rows: seq<seq<string>>): (r: seq<string>)
    ensures |r| == |rows|
    ensures forall k :: 0 <= k < |rows| ==> r[k] == RenderRow(rows[k])
  {
    seq(|rows|, k requires 0 <= k < |rows| => RenderRow(rows[k]))
  }

  /** Lines 81-92: pad, then header row, separator, body rows and one empty line. */
  function RenderTable(block: seq<seq<string>>): seq<string>
    requires |block| > 0
  {
    var m := MaxCols(block);
    var padded := PadBlock(block, m);
    [RenderRow(padded[0]), Separator(m)] + RenderRows(padded[1..]) + [""]
  }

  /** A table of n rows is n + 2 lines: the header, a separator of `max_cols`
      cells, the n - 1 body rows and an empty line. Each row is first padded to
      `max_cols` cells (`PadRow`). */
  lemma TableShape(block: seq<seq<string>>)
    requires |block| > 0
    ensures var t := RenderTable(block);
      var m := MaxCols(block);
      |t| == |block| + 2
      && t[0] == RenderRow(PadRow(block[0], m))
      && t[1] == Separator(m)
      && (forall k :: 1 <= k < |block| ==> t[k + 1] == RenderRow(PadRow(block[k], m)))
      && t[|t| - 1] == ""
  {
    TableEnds(block);
    forall k | 1 <= k < |block|
      ensures RenderTable(block)[k + 1] == RenderRow(PadRow(block[k], MaxCols(block)))
    {
      TableRowAt(block, k);
    }
  }

  lemma TableEnds(block: seq<seq<string>>)
    requires |block| > 0
    ensures var t := RenderTable(block);
      var m := MaxCols(block);
      |t| == |block| + 2
      && t[0] == RenderRow(PadRow(block[0], m))
      && t[1] == Separator(m)
      && t[|t| - 1] == ""
  {
    var m := MaxCols(block);
    var padded := PadBlock(block, m);
    Seqs.Framed(RenderRow(padded[0]), Separator(m), RenderRows(padded[1..]), "");
  }

  lemma TableRowAt(block: seq<seq<string>>, k: nat)
    requires 1 <= k < |block|
    ensures RenderTable(block)[k + 1] == RenderRow(PadRow(block[k], MaxCols(block)))
  {
    TableBodyAt(block, k);
    RenderRowsAt(block, k);
  }

  /** Body row `k` of the rendered rows is the rendering of row `k` padded. */
  lemma RenderRowsAt(block: seq<seq<string>>, k: nat)
    requires 1 <= k < |block|
    ensures var m := MaxCols(block);
      RenderRows(PadBlock(block, m)[1..])[k - 1] == RenderRow(PadRow(block[k], m))
  {
    var padded := PadBlock(block, MaxCols(block));
    assert padded[1..][k - 1] == padded[k];
  }

  /** After the header and the separator, line k + 1 of a table is rendered
      body row k - 1. */
  lemma TableBodyAt(block: seq<seq<string>>, k: nat)
    requires 1 <= k < |block|
    ensures var padded := PadBlock(block, MaxCols(block));
      RenderTable(block)[k + 1] == RenderRows(padded[1..])[k - 1]
  {
    var m := MaxCols(block);
    var padded := PadBlock(block, m);
    Seqs.Framed(RenderRow(padded[0]), Separator(m), RenderRows(padded[1..]), "");
  }

  /** A plain line, or a maximal run of table lines (`first` then `more`). */
  datatype Unit = Plain(line: string) | Table(first: string, more: seq<string>)

  /** The index of the first line at or after `i` that is not tabular. */
  function RunEnd(lines: seq<string>, i: nat): (j: nat)
    requires i <= |lines|
    ensures i <= j <= |lines|
    ensures i < |lines| && IsTabular(lines[i]) ==> i < j
    decreases |lines| - i
  {
    if i < |lines| && IsTabular(lines[i]) then RunEnd(lines, i + 1) else i
  }

  /** The run is made of tabular lines and is maximal. */
  lemma {:induction false} RunEndMaximal(lines: seq<string>, i: nat)
    requires i <= |lines|
    ensures forall k :: i <= k < RunEnd(lines, i) ==> IsTabular(lines[k])
    ensures RunEnd(lines, i) < |lines| ==> !IsTabular(lines[RunEnd(lines, i)])
    decreases |lines| - i
  {
    if i < |lines| && IsTabular(lines[i]) {
      RunEndMaximal(lines, i + 1);
    }
  }

  /** Lines 67-95 as a grouping of `lines[i..]`. */
  function GroupFrom(lines: seq<string>, i: nat): seq<Unit>
    requires i <= |lines|
    decreases |lines| - i
  {
    if i == |lines| then []
    else if !IsTabular(lines[i]) then [Plain(lines[i])] + GroupFrom(lines, i + 1)
    else
      var j := RunEnd(lines, i);
      [Table(lines[i], lines[i + 1..j])] + GroupFrom(lines, j)
  }

  function SourceLines(u: Unit): seq<string>
  {
    match u
    case Plain(l) => [l]
    case Table(first, more) => [first] + more
  }

  function Flatten(us: seq<Unit>): seq<string>
    decreases |us|
  {
    if us == [] then [] else SourceLines(us[0]) + Flatten(us[1..])
  }

  function RenderUnit(u: Unit): seq<string>
  {
    match u
    case Plain(l) => [l]
    case Table(first, more) => RenderTable(BlockCells([first] + more))
  }

  function RenderUnits(us: seq<Unit>): seq<string>
    decreases |us|
  {
    if us == [] then [] else RenderUnit(us[0]) + RenderUnits(us[1..])
  }

  /** What `convert_tables(md)` returns. */
  function ConvertTablesSpec(md: string): (r: string)
    ensures |r| >= 1 && r[|r| - 1] == '\n'
  {
    Join("\n", RenderUnits(GroupFrom(SplitLines(md), 0))) + "\n"
  }

  /** The grouping loses no line and reorders nothing. */
  lemma {:induction false} GroupsCoverLines(lines: seq<string>, i: nat)
    requires i <= |lines|
    ensures Flatten(GroupFrom(lines, i)) == lines[i..]
    decreases |lines| - i
  {
    if i < |lines| {
      if !IsTabular(lines[i]) {
        GroupsCoverLines(lines, i + 1);
        Seqs.ConsSuffix(lines, i);
      } else {
        var j := RunEnd(lines, i);
        GroupsCoverLines(lines, j);
        Seqs.ConsSlice(lines, i, j);
        Seqs.SliceThenSuffix(lines, i, j);
      }
    }
  }

  /** Plain units hold non-tabular lines, tables hold tabular lines only, and a
      table is maximal: the unit after it, if any, is a plain line. */
  predicate WellGrouped(us: seq<Unit>)
  {
    (forall k :: 0 <= k < |us| && us[k].Plain? ==> !IsTabular(us[k].line))
    && (forall k :: 0 <= k < |us| && us[k].Table? ==>
          IsTabular(us[k].first) && forall l :: l in us[k].more ==> IsTabular(l))
    && (forall k :: 0 <= k < |us| - 1 && us[k].Table? ==> us[k + 1].Plain?)
  }

  lemma {:induction false} GroupsWellFormed(lines: seq<string>, i: nat)
    requires i <= |lines|
    ensures WellGrouped(GroupFrom(lines, i))
    ensures var g := GroupFrom(lines, i); g != [] ==> (g[0].Plain? <==> !IsTabular(lines[i]))
    decreases |lines| - i
  {
    if i < |lines| {
      var next := if !IsTabular(lines[i]) then i + 1 else RunEnd(lines, i);
      GroupsWellFormed(lines, next);
      var rest := GroupFrom(lines, next);
      RunEndMaximal(lines, i);
      var u := if !IsTabular(lines[i]) then Plain(lines[i]) else Table(lines[i], lines[i + 1..next]);
      var g := [u] + rest;
      assert GroupFrom(lines, i) == g;
      assert forall k :: 1 <= k < |g| ==> g[k] == rest[k - 1];
      if u.Table? {
        assert forall l :: l in u.more ==> IsTabular(l);
      }
    }
  }

  /** With no tabular line, the lines come out unchanged. */
  lemma {:induction false} NoTableUnchanged(lines: seq<string>, i: nat)
    requires i <= |lines|
    requires forall k :: i <= k < |lines| ==> !IsTabular(lines[k])
    ensures RenderUnits(GroupFrom(lines, i)) == lines[i..]
    decreases |lines| - i
  {
    if i < |lines| {
      NoTableUnchanged(lines, i + 1);
      Seqs.ConsSuffix(lines, i);
    }
  }

  /** Lines 71-79: collect the cells of the run of table lines starting at `start`. */
  method CollectBlock(lines: seq<string>, start: nat) returns (block: seq<seq<string>>, i: nat)
    requires start < |lines| && IsTabular(lines[start])
    ensures i == RunEnd(lines, start)
    ensures block == BlockCells(lines[start..i])
  {
    block := [];
    i := start;
    while i < |lines| && IsTabular(lines[i])
      invariant start <= i <= |lines|
      invariant RunEnd(lines, i) == RunEnd(lines, start)
      invariant block == BlockCells(lines[start..i])
      decreases |lines| - i
    {
      var cells := Cells(lines[i]);
      ghost var before, k := block, i;
      block := block + [cells];
      i := i + 1;
      CollectStep(lines, start, k, i, before, block);
    }
  }

  /** One iteration of the collection loop keeps its invariant. */
  lemma CollectStep(lines: seq<string>, start: nat, i: nat, j: nat,
                    before: seq<seq<string>>, after: seq<seq<string>>)
    requires start <= i < |lines| && IsTabular(lines[i]) && j == i + 1
    requires RunEnd(lines, i) == RunEnd(lines, start)
    requires before == BlockCells(lines[start..i])
    requires after == before + [Cells(lines[i])]
    ensures RunEnd(lines, j) == RunEnd(lines, start)
    ensures after == BlockCells(lines[start..j])
  {
    BlockCellsExtend(lines, start, i);
    Seqs.SnocCongr(before, BlockCells(lines[start..i]), Cells(lines[i]), Cells(lines[i]));
  }

  lemma BlockCellsExtend(lines: seq<string>, start: nat, i: nat)
    requires start <= i < |lines|
    ensures BlockCells(lines[start..i + 1]) == BlockCells(lines[start..i]) + [Cells(lines[i])]
  {
    Seqs.SliceInit(lines, start, i + 1);
  }

  /** Line 84: each row is padded in place. */
  method PadRows(block: seq<seq<string>>, maxCols: nat) returns (padded: seq<seq<string>>)
    requires forall k :: 0 <= k < |block| ==> |block[k]| <= maxCols
    ensures padded == PadBlock(block, maxCols)
  {
    padded := block;
    for k := 0 to |padded|
      invariant |padded| == |block|
      invariant forall j :: 0 <= j < k ==> padded[j] == PadRow(block[j], maxCols)
      invariant forall j :: k <= j < |padded| ==> padded[j] == block[j]
    {
      padded := padded[k := padded[k] + Repeat("", maxCols - |padded[k]|)];
    }
  }

  /** Lines 81-92: pad the block, then append its header row, separator, body rows
      and an empty line. */
  method AppendTable(outLines: seq<string>, block: seq<seq<string>>) returns (out: seq<string>)
    requires |block| > 0
    ensures out == outLines + RenderTable(block)
  {
    var maxCols := MaxCols(block);
    var padded := PadRows(block, maxCols);
    var head := [RenderRow(padded[0]), Separator(maxCols)];
    out := outLines + head;
    for k := 1 to |padded|
      invariant out == outLines + (head + RenderRows(padded[1..k]))
    {
      RenderRowsExtend(padded, k);
      Seqs.SnocAssoc(out, outLines, head + RenderRows(padded[1..k]), RenderRow(padded[k]));
      Seqs.AppendAssoc(head, RenderRows(padded[1..k]), [RenderRow(padded[k])]);
      out := out + [RenderRow(padded[k])];
    }
    Seqs.SliceToEnd(padded, 1);
    Seqs.SnocAssoc(out, outLines, head + RenderRows(padded[1..]), "");
    out := out + [""];
  }

  lemma RenderRowsExtend(rows: seq<seq<string>>, k: nat)
    requires 1 <= k < |rows|
    ensures RenderRows(rows[1..k + 1]) == RenderRows(rows[1..k]) + [RenderRow(rows[k])]
  {
    var a := RenderRows(rows[1..k + 1]);
    var b := RenderRows(rows[1..k]) + [RenderRow(rows[k])];
    assert |a| == |b|;
    forall j | 0 <= j < |a|
      ensures a[j] == b[j]
    {
      assert rows[1..k + 1][j] == rows[j + 1];
      if j < k - 1 {
        assert rows[1..k][j] == rows[j + 1];
      }
    }
  }

  lemma TableStep(lines: seq<string>, i: nat)
    requires i < |lines| && IsTabular(lines[i])
    ensures RenderUnits(GroupFrom(lines, i)) ==
      RenderTable(BlockCells(lines[i..RunEnd(lines, i)])) + RenderUnits(GroupFrom(lines, RunEnd(lines, i)))
  {
    var j := RunEnd(lines, i);
    var u := Table(lines[i], lines[i + 1..j]);
    GroupTable(lines, i);
    RenderUnitsCons(u, GroupFrom(lines, j));
    Seqs.ConsSlice(lines, i, j);
  }

  lemma GroupTable(lines: seq<string>, i: nat)
    requires i < |lines| && IsTabular(lines[i])
    ensures GroupFrom(lines, i) == [Table(lines[i], lines[i + 1..RunEnd(lines, i)])] + GroupFrom(lines, RunEnd(lines, i))
  {
  }

  lemma RenderUnitsCons(u: Unit, us: seq<Unit>)
    ensures RenderUnits([u] + us) == RenderUnit(u) + RenderUnits(us)
  {
    assert ([u] + us)[1..] == us;
  }

  lemma PlainStep(lines: seq<string>, i: nat)
    requires i < |lines| && !IsTabular(lines[i])
    ensures RenderUnits(GroupFrom(lines, i)) == [lines[i]] + RenderUnits(GroupFrom(lines, i + 1))
  {
    var g := GroupFrom(lines, i);
    assert g[1..] == GroupFrom(lines, i + 1);
  }

  /** Lines 64-96. */
  method ConvertTables(md: string) returns (result: string)
    ensures result == ConvertTablesSpec(md)
  {
    var lines := SplitLines(md);
    var outLines: seq<string> := [];
    var i := 0;
    while i < |lines|
      invariant 0 <= i <= |lines|
      invariant outLines + RenderUnits(GroupFrom(lines, i)) == RenderUnits(GroupFrom(lines, 0))
      decreases |lines| - i
    {
      ghost var before := outLines;
      if IsTabular(lines[i]) {
        ghost var start := i;
        var block;
        block, i := CollectBlock(lines, i);
        outLines := AppendTable(outLines, block);
        TableStep(lines, start);
        Seqs.Advance(outLines, before, RenderTable(block), RenderUnits(GroupFrom(lines, i)),
          RenderUnits(GroupFrom(lines, start)), RenderUnits(GroupFrom(lines, 0)));
      } else {
        PlainStep(lines, i);
        Seqs.Advance(outLines + [lines[i]], before, [lines[i]], RenderUnits(GroupFrom(lines, i + 1)),
          RenderUnits(GroupFrom(lines, i)), RenderUnits(GroupFrom(lines, 0)));
        outLines := outLines + [lines[i]];
        i := i + 1;
      }
    }
    assert RenderUnits(GroupFrom(lines, i)) == [];
    Seqs.AppendNil(outLines);
    result := Join("\n", outLines) + "\n";
  }
}
