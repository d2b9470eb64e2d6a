/** Blank-line collapse and assembly of the Markdown text
    (services/hwp_converter_service.py, lines 47-57). */
module HwpNormalize {
  import opened PyStr
  import HwpText
  import Seqs

  /** `not line.strip()`: the line is empty or all whitespace. */
  predicate IsBlank(l: string)
  {
    forall k :: 0 <= k < |l| ==> IsSpace(l[k])
  }

  lemma IsBlankIsStripEmpty(l: string)
    ensures IsBlank(l) <==> Strip(l) == []
  {
  }

  /** The collapse loop from the point where the flag `prev_blank` is `prevBlank`. */
  function CollapseFrom(lines: seq<string>, prevBlank: bool): seq<string>
    decreases |lines|
  {
    if lines == [] then []
    else if IsBlank(lines[0]) then
      (if prevBlank then [] else [""]) + CollapseFrom(lines[1..], true)
    else [lines[0]] + CollapseFrom(lines[1..], false)
  }

  function Collapse(lines: seq<string>): seq<string>
  {
    CollapseFrom(lines, false)
  }

  /** Lines 48-56: the `cleaned` list and the `prev_blank` flag. */
  method CollapseBlankLines(mdLines: seq<string>) returns (cleaned: seq<string>)
    ensures cleaned == Collapse(mdLines)
  {
    cleaned := [];
    var prevBlank := false;
    for k := 0 to |mdLines|
      invariant cleaned + CollapseFrom(mdLines[k..], prevBlank) == Collapse(mdLines)
    {
      var line := mdLines[k];
      CollapseUnfold(mdLines, k, prevBlank);
      ghost var before, restOld := cleaned, CollapseFrom(mdLines[k..], prevBlank);
      if IsBlank(line) {
        ghost var rest := CollapseFrom(mdLines[k + 1..], true);
        if !prevBlank {
          cleaned := cleaned + [""];
          Seqs.Advance(cleaned, before, [""], rest, restOld, Collapse(mdLines));
        } else {
          Seqs.AppendNil(before);
          Seqs.Advance(cleaned, before, [], rest, restOld, Collapse(mdLines));
        }
        prevBlank := true;
      } else {
        ghost var rest := CollapseFrom(mdLines[k + 1..], false);
        cleaned := cleaned + [line];
        Seqs.Advance(cleaned, before, [line], rest, restOld, Collapse(mdLines));
        prevBlank := false;
      }
    }
    assert mdLines[|mdLines|..] == [];
    assert cleaned + [] == cleaned;
  }

  lemma CollapseUnfold(lines: seq<string>, k: nat, prevBlank: bool)
    requires k < |lines|
    ensures CollapseFrom(lines[k..], prevBlank) ==
      if IsBlank(lines[k]) then (if prevBlank then [] else [""]) + CollapseFrom(lines[k + 1..], true)
      else [lines[k]] + CollapseFrom(lines[k + 1..], false)
  {
    assert lines[k..][1..] == lines[k + 1..];
  }

  /** No two consecutive entries are blank. */
  predicate NoAdjacentBlanks(r: seq<string>)
  {
    forall k :: 0 <= k < |r| - 1 ==> !(IsBlank(r[k]) && IsBlank(r[k + 1]))
  }

  /** Every blank entry is the empty string. */
  predicate BlanksEmpty(r: seq<string>)
  {
    forall k :: 0 <= k < |r| ==> IsBlank(r[k]) ==> r[k] == ""
  }

  /** The non-blank lines, in order. */
  function NonBlank(lines: seq<string>): (r: seq<string>)
    ensures forall l :: l in r ==> l in lines && !IsBlank(l)
    decreases |lines|
  {
    if lines == [] then []
    else if IsBlank(lines[0]) then NonBlank(lines[1..])
    else [lines[0]] + NonBlank(lines[1..])
  }

  /** The collapsed list has no two consecutive blanks, and after a blank line
      (flag set) it does not start with a blank. */
  lemma {:induction false} CollapseNoAdjacentBlanks(lines: seq<string>, prevBlank: bool)
    ensures var r := CollapseFrom(lines, prevBlank);
      NoAdjacentBlanks(r) && (prevBlank && r != [] ==> !IsBlank(r[0]))
    decreases |lines|
  {
    if lines != [] {
      var b := IsBlank(lines[0]);
      CollapseNoAdjacentBlanks(lines[1..], b);
      var rest := CollapseFrom(lines[1..], b);
      if b && !prevBlank {
        ConsNoAdjacentBlanks("", rest);
      } else if !b {
        ConsNoAdjacentBlanks(lines[0], rest);
      }
    }
  }

  lemma ConsNoAdjacentBlanks(l: string, rest: seq<string>)
    requires NoAdjacentBlanks(rest)
    requires IsBlank(l) && rest != [] ==> !IsBlank(rest[0])
    ensures NoAdjacentBlanks([l] + rest)
  {
    var r := [l] + rest;
    assert forall k :: 1 <= k < |r| ==> r[k] == rest[k - 1];
  }

  /** The only blank entry the collapse writes is `""`. */
  lemma {:induction false} CollapseBlanksEmpty(lines: seq<string>, prevBlank: bool)
    ensures BlanksEmpty(CollapseFrom(lines, prevBlank))
    decreases |lines|
  {
    if lines != [] {
      var b := IsBlank(lines[0]);
      CollapseBlanksEmpty(lines[1..], b);
      var rest := CollapseFrom(lines[1..], b);
      if b && !prevBlank {
        var r := [""] + rest;
        assert forall k :: 1 <= k < |r| ==> r[k] == rest[k - 1];
      } else if !b {
        var r := [lines[0]] + rest;
        assert forall k :: 1 <= k < |r| ==> r[k] == rest[k - 1];
      }
    }
  }

  /** The collapse keeps exactly the non-blank lines, in their order. */
  lemma {:induction false} CollapseKeepsNonBlank(lines: seq<string>, prevBlank: bool)
    ensures NonBlank(CollapseFrom(lines, prevBlank)) == NonBlank(lines)
    decreases |lines|
  {
    if lines != [] {
      var b := IsBlank(lines[0]);
      CollapseKeepsNonBlank(lines[1..], b);
      var rest := CollapseFrom(lines[1..], b);
      if b && !prevBlank {
        assert IsBlank("");
        assert CollapseFrom(lines, prevBlank) == [""] + rest;
        assert ([""] + rest)[1..] == rest;
      } else if b {
        assert CollapseFrom(lines, prevBlank) == rest;
      } else {
        assert CollapseFrom(lines, prevBlank) == [lines[0]] + rest;
        assert ([lines[0]] + rest)[1..] == rest;
        assert NonBlank([lines[0]] + rest) == [lines[0]] + NonBlank(rest);
      }
    }
  }

  /** Each entry of the collapsed list is `""` or a line of the input. */
  lemma {:induction false} CollapseEntries(lines: seq<string>, prevBlank: bool)
    ensures forall l :: l in CollapseFrom(lines, prevBlank) ==> l == "" || l in lines
    decreases |lines|
  {
    if lines != [] {
      var b := IsBlank(lines[0]);
      CollapseEntries(lines[1..], b);
      assert forall l :: l in lines[1..] ==> l in lines;
    }
  }

  /** A list already in collapsed shape is a fixed point. */
  lemma {:induction false} CollapseFixed(r: seq<string>, prevBlank: bool)
    requires NoAdjacentBlanks(r) && BlanksEmpty(r)
    requires prevBlank && r != [] ==> !IsBlank(r[0])
    ensures CollapseFrom(r, prevBlank) == r
    decreases |r|
  {
    if r != [] {
      var b := IsBlank(r[0]);
      var tail := r[1..];
      assert forall k :: 0 <= k < |tail| ==> tail[k] == r[k + 1];
      assert NoAdjacentBlanks(tail);
      assert BlanksEmpty(tail);
      if b && |tail| > 0 {
        assert !IsBlank(tail[0]);
      }
      CollapseFixed(tail, b);
      if b {
        assert r[0] == "";
        assert [""] + tail == r;
      } else {
        assert [r[0]] + tail == r;
      }
    }
  }

  /** Collapsing twice is collapsing once. */
  lemma CollapseIdempotent(lines: seq<string>)
    ensures Collapse(Collapse(lines)) == Collapse(lines)
  {
    CollapseNoAdjacentBlanks(lines, false);
    CollapseBlanksEmpty(lines, false);
    CollapseFixed(Collapse(lines), false);
  }

  /** A run of one or more blank lines leaves exactly one `""` (none right after
      another blank), and the flag is set for what follows. */
  lemma {:induction false} CollapseBlankRun(bs: seq<string>, rest: seq<string>, prevBlank: bool)
    requires |bs| >= 1 && forall k :: 0 <= k < |bs| ==> IsBlank(bs[k])
    ensures CollapseFrom(bs + rest, prevBlank) == (if prevBlank then [] else [""]) + CollapseFrom(rest, true)
    decreases |bs|
  {
    var s := bs + rest;
    assert s[0] == bs[0];
    assert s[1..] == bs[1..] + rest;
    if |bs| > 1 {
      CollapseBlankRun(bs[1..], rest, true);
    } else {
      assert bs[1..] + rest == rest;
    }
  }

  /** A non-blank line is kept as it is and clears the flag. */
  lemma CollapseNonBlankLine(x: string, rest: seq<string>, prevBlank: bool)
    requires !IsBlank(x)
    ensures CollapseFrom([x] + rest, prevBlank) == [x] + CollapseFrom(rest, false)
  {
    assert ([x] + rest)[1..] == rest;
  }

  /** Three blank lines between two paragraphs become one. */
  lemma CollapseExample()
    ensures Collapse(["a", "", "", "", "b"]) == ["a", "", "b"]
  {
    assert "a"[0] == 'a' && !IsSpace('a') && "b"[0] == 'b' && !IsSpace('b');
    assert ["a", "", "", "", "b"] == ["a"] + (["", "", ""] + ["b"]);
    CollapseNonBlankLine("a", ["", "", ""] + ["b"], false);
    CollapseBlankRun(["", "", ""], ["b"], false);
    CollapseNonBlankLine("b", [], true);
    assert ["b"] == ["b"] + [];
  }

  /** Line 57: `'\n'.join(cleaned).strip() + '\n'`. The text is one `'\n'` after a
      body that is the joined lines with the whitespace cut off at both ends: a
      slice of the join, only whitespace outside it, none at its ends. */
  function Assemble(cleaned: seq<string>): (md: string)
    ensures |md| >= 1 && md[|md| - 1] == '\n'
    ensures var body := md[..|md| - 1];
      md == body + "\n" && IsStripOf(body, Join("\n", cleaned))
  {
    var body := Strip(Join("\n", cleaned));
    StripIsStrip(Join("\n", cleaned));
    assert (body + "\n")[..|body|] == body;
    body + "\n"
  }

  /** The text ends in exactly one `'\n'`: the one before it, if any, is not whitespace. */
  lemma AssembleOneNewline(cleaned: seq<string>)
    ensures var md := Assemble(cleaned);
      |md| == 1 || (|md| >= 2 && md[|md| - 2] != '\n')
  {
    var md := Assemble(cleaned);
    if |md| >= 2 {
      assert md[|md| - 2] == md[..|md| - 1][|md| - 2];
      assert IsSpace('\n');
    }
  }

  /** Extracted record lines hold no code point below 0x20, so the assembled text
      holds no tab: its only control characters are the joining `'\n'`s. */
  lemma AssembledNoTab(mdLines: seq<string>)
    requires forall l :: l in mdLines ==> HwpText.IsCleanLine(l)
    ensures '\t' !in Assemble(Collapse(mdLines))
  {
    var cleaned := Collapse(mdLines);
    CollapseEntries(mdLines, false);
    var joined := Join("\n", cleaned);
    assert HwpText.IsControl('\t');
    assert forall p :: p in cleaned ==> '\t' !in p by {
      forall p | p in cleaned
        ensures '\t' !in p
      {
        if p != "" {
          assert p in mdLines;
        }
      }
    }
    if '\t' in joined {
      JoinChars("\n", cleaned, '\t');
      assert false;
    }
    StripChars(joined);
    assert '\t' in Assemble(cleaned) ==> '\t' in Strip(joined);
  }
}
