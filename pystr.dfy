/** The Python `str` operations that the converter, the search and the file
    handler call: whitespace, stripping, splitting, joining, prefix tests and
    the decimal conversions of `int()` and `str()`. */
module PyStr {
  import opened Results
  import Seqs

  /** `c.isspace()`: the characters Python treats as whitespace. */
  predicate IsSpace(c: char)
  {
    var n := c as int;
    (0x09 <= n <= 0x0D) || (0x1C <= n <= 0x20) || n == 0x85 || n == 0xA0 || n == 0x1680
    || (0x2000 <= n <= 0x200A) || n == 0x2028 || n == 0x2029 || n == 0x202F || n == 0x205F
    || n == 0x3000
  }

  /** The characters at which `str.splitlines()` ends a line. */
  predicate IsLineBoundary(c: char)
  {
    var n := c as int;
    (0x0A <= n <= 0x0D) || (0x1C <= n <= 0x1E) || n == 0x85 || n == 0x2028 || n == 0x2029
  }

  /** `s.rstrip()`: the longest prefix that does not end in whitespace. */
  function RStrip(s: string): (r: string)
    ensures |r| <= |s| && r == s[..|r|]
    ensures r == [] || !IsSpace(r[|r| - 1])
    ensures forall k :: |r| <= k < |s| ==> IsSpace(s[k])
    decreases |s|
  {
    if s != [] && IsSpace(s[|s| - 1]) then RStrip(s[..|s| - 1]) else s
  }

  /** `s.lstrip()`: the longest suffix that does not start with whitespace. */
  function LStrip(s: string): (r: string)
    ensures |r| <= |s| && r == s[|s| - |r|..]
    ensures r == [] || !IsSpace(r[0])
    ensures forall k :: 0 <= k < |s| - |r| ==> IsSpace(s[k])
    decreases |s|
  {
    if s != [] && IsSpace(s[0]) then LStrip(s[1..]) else s
  }

  predicate AllSpace(t: string)
  {
    forall k :: 0 <= k < |t| ==> IsSpace(t[k])
  }

  /** `r` sits in `s` at `i` with only whitespace before and after it. */
  predicate StripAt(r: string, s: string, i: int)
  {
    0 <= i <= |s| - |r| && r == s[i..i + |r|] && AllSpace(s[..i]) && AllSpace(s[i + |r|..])
  }

  /** `r` is `s` with its leading and trailing whitespace cut off: a slice of `s`
      in place, only whitespace outside it, and no whitespace at its ends. */
  predicate IsStripOf(r: string, s: string)
  {
    (r == [] || (!IsSpace(r[0]) && !IsSpace(r[|r| - 1])))
    && exists i :: 0 <= i <= |s| && StripAt(r, s, i)
  }

  /** `s.strip()`. */
  function Strip(s: string): (r: string)
    ensures r == [] <==> forall k :: 0 <= k < |s| ==> IsSpace(s[k])
    ensures r != [] ==> !IsSpace(r[0]) && !IsSpace(r[|r| - 1])
  {
    var t := RStrip(s);
    var r := LStrip(t);
    assert r != [] ==> r[|r| - 1] == t[|t| - 1];
    r
  }

  /** `s.strip()` is `s` with the whitespace cut off at both ends: a slice of `s`
      in place, with only whitespace before and after it. */
  lemma StripIsStrip(s: string)
    ensures IsStripOf(Strip(s), s)
  {
    var t := RStrip(s);
    var r := LStrip(t);
    StripAtParts(s, t, r);
  }

  /** `r`, a suffix of the prefix `t` of `s`, sits in `s` between whitespace when
      whitespace is all `t` holds before `r` and all `s` holds after `t`. */
  lemma StripAtParts(s: string, t: string, r: string)
    requires |t| <= |s| && t == s[..|t|]
    requires |r| <= |t| && r == t[|t| - |r|..]
    requires forall k :: 0 <= k < |t| - |r| ==> IsSpace(t[k])
    requires forall k :: |t| <= k < |s| ==> IsSpace(s[k])
    ensures StripAt(r, s, |t| - |r|)
  {
    var i := |t| - |r|;
    assert t[i..] == s[i..|t|];
    assert s[..i] == t[..i];
    assert forall k :: 0 <= k < |s| - |t| ==> s[|t|..][k] == s[|t| + k];
  }

  /** Strip is determined by `IsStripOf`: any two strings cut that way from `s` are equal. */
  lemma StripOfUnique(r1: string, r2: string, s: string)
    requires IsStripOf(r1, s) && IsStripOf(r2, s)
    ensures r1 == r2
  {
    var i1 :| 0 <= i1 <= |s| && StripAt(r1, s, i1);
    var i2 :| 0 <= i2 <= |s| && StripAt(r2, s, i2);
    StripBounds(r1, r2, s, i1, i2);
    StripBounds(r2, r1, s, i2, i1);
    assert r1 == s[i1..i1 + |r1|];
  }

  /** The strip `r2` at `i2` starts no later and ends no earlier than the strip `r1` at `i1`. */
  lemma StripBounds(r1: string, r2: string, s: string, i1: int, i2: int)
    requires IsStripOf(r1, s) && StripAt(r1, s, i1) && StripAt(r2, s, i2)
    ensures r1 != [] ==> r2 != [] && i2 <= i1 && i1 + |r1| <= i2 + |r2|
  {
    if r1 != [] {
      assert r1[0] == s[i1] && r1[|r1| - 1] == s[i1 + |r1| - 1];
      OutsideIsSpace(r2, s, i2, i1);
      OutsideIsSpace(r2, s, i2, i1 + |r1| - 1);
    }
  }

  /** Every character of `s` outside a strip at `i` is whitespace. */
  lemma OutsideIsSpace(r: string, s: string, i: int, k: int)
    ensures StripAt(r, s, i) && 0 <= k < |s| && (k < i || i + |r| <= k) ==> IsSpace(s[k])
  {
    if StripAt(r, s, i) && 0 <= k < |s| {
      if k < i {
        assert s[..i][k] == s[k];
      } else if i + |r| <= k {
        assert s[i + |r|..][k - i - |r|] == s[k];
      }
    }
  }

  /** Any string cut from `s` as `IsStripOf` describes is `s.strip()`. */
  lemma StripIsStripOf(r: string, s: string)
    requires IsStripOf(r, s)
    ensures r == Strip(s)
  {
    StripIsStrip(s);
    StripOfUnique(r, Strip(s), s);
  }

  /** Stripping only removes characters. */
  lemma StripChars(s: string)
    ensures forall c :: c in Strip(s) ==> c in s
  {
    var t := RStrip(s);
    assert forall c :: c in LStrip(t) ==> c in t;
  }

  lemma RStripIdempotent(s: string)
    ensures RStrip(RStrip(s)) == RStrip(s)
  {
  }

  /** Index of the first line boundary in `s`, or `|s|`. */
  function FirstBoundary(s: string): (k: nat)
    ensures k <= |s|
    ensures forall j :: 0 <= j < k ==> !IsLineBoundary(s[j])
    ensures k < |s| ==> IsLineBoundary(s[k])
    decreases |s|
  {
    if s == [] then 0
    else if IsLineBoundary(s[0]) then 0
    else 1 + FirstBoundary(s[1..])
  }

  /** `s.splitlines()`: "\r\n" is one boundary, and no empty line follows a final boundary. */
  function SplitLines(s: string): (lines: seq<string>)
    decreases |s|
  {
    if s == [] then []
    else
      var k := FirstBoundary(s);
      if k == |s| then [s]
      else [s[..k]] + SplitLines(s[NextLine(s, k)..])
  }

  /** Where the next line starts after the boundary at `k`: "\r\n" counts as one. */
  function NextLine(s: string, k: nat): (j: nat)
    requires k < |s|
    ensures k < j <= |s|
  {
    if s[k] == '\r' && k + 1 < |s| && s[k + 1] == '\n' then k + 2 else k + 1
  }

  /** `l` holds only characters of `s`, and no line boundary. */
  predicate LineOf(l: string, s: string)
  {
    forall c :: c in l ==> c in s && !IsLineBoundary(c)
  }

  /** Every line of `s.splitlines()` is a line of `s`. */
  lemma {:induction false} SplitLinesChars(s: string)
    ensures forall l :: l in SplitLines(s) ==> LineOf(l, s)
    decreases |s|
  {
    if s != [] {
      var k := FirstBoundary(s);
      if k < |s| {
        var t := s[NextLine(s, k)..];
        SplitLinesChars(t);
        var rest := SplitLines(t);
        assert SplitLines(s) == [s[..k]] + rest;
        forall l | l in SplitLines(s)
          ensures LineOf(l, s)
        {
          if l in rest {
            assert LineOf(l, t);
            forall c | c in l
              ensures c in s && !IsLineBoundary(c)
            {
              assert c in t;
            }
          } else {
            assert l == s[..k];
            forall c | c in l
              ensures c in s && !IsLineBoundary(c)
            {
              var j :| 0 <= j < k && l[j] == c;
              assert s[j] == c;
            }
          }
        }
      } else {
        assert SplitLines(s) == [s];
      }
    }
  }

  /** `l` occurs in `s` as a contiguous slice. */
  predicate IsSlice(l: string, s: string)
  {
    exists a, e :: 0 <= a <= e <= |s| && s[a..e] == l
  }

  /** Every line of `s.splitlines()` is a contiguous slice of `s`: its characters
      appear in `s` together and in the same order. */
  lemma {:induction false} SplitLinesSlices(s: string)
    ensures forall l :: l in SplitLines(s) ==> IsSlice(l, s)
    decreases |s|
  {
    if s != [] {
      var k := FirstBoundary(s);
      if k < |s| {
        var j := NextLine(s, k);
        var t := s[j..];
        SplitLinesSlices(t);
        var rest := SplitLines(t);
        assert SplitLines(s) == [s[..k]] + rest;
        forall l | l in SplitLines(s)
          ensures IsSlice(l, s)
        {
          if l in rest {
            SliceOfSuffix(l, s, j);
          } else {
            assert s[0..k] == l;
          }
        }
      } else {
        assert SplitLines(s) == [s];
        assert s[0..|s|] == s;
      }
    }
  }

  /** A slice of a suffix of `s` is a slice of `s`. */
  lemma SliceOfSuffix(l: string, s: string, j: int)
    requires 0 <= j <= |s| && IsSlice(l, s[j..])
    ensures IsSlice(l, s)
  {
    var a, e :| 0 <= a <= e <= |s| - j && s[j..][a..e] == l;
    assert s[j + a..j + e] == l;
  }

  /** A line with no boundary, then a boundary: the first boundary is right after the line. */
  lemma {:induction false} FirstBoundaryAfter(l: string, r: string)
    requires forall c :: c in l ==> !IsLineBoundary(c)
    requires r != [] && IsLineBoundary(r[0])
    ensures FirstBoundary(l + r) == |l|
    decreases |l|
  {
    if l != [] {
      assert (l + r)[1..] == l[1..] + r;
      assert l[0] in l;
      FirstBoundaryAfter(l[1..], r);
    }
  }

  /** One line without a boundary, then `'\n'`: it is the first line. */
  lemma SplitLinesStep(l: string, rest: string)
    requires forall c :: c in l ==> !IsLineBoundary(c)
    ensures SplitLines(l + "\n" + rest) == [l] + SplitLines(rest)
  {
    var s := l + "\n" + rest;
    assert s == l + ("\n" + rest);
    FirstBoundaryAfter(l, "\n" + rest);
    assert s[..|l|] == l;
    assert s[|l|] == '\n';
    assert NextLine(s, |l|) == |l| + 1;
    assert s[|l| + 1..] == rest;
  }

  /** `splitlines()` undoes joining lines by `'\n'` and ending with one `'\n'`. */
  lemma {:induction false} SplitLinesOfJoin(ls: seq<string>)
    requires |ls| >= 1
    requires forall k, c :: 0 <= k < |ls| && c in ls[k] ==> !IsLineBoundary(c)
    ensures SplitLines(Join("\n", ls) + "\n") == ls
    decreases |ls|
  {
    var l := ls[0];
    if |ls| == 1 {
      SplitLinesStep(l, "");
      assert Join("\n", ls) + "\n" == l + "\n" + "";
    } else {
      var tail := ls[1..];
      var j := Join("\n", tail);
      assert Join("\n", ls) + "\n" == l + "\n" + (j + "\n");
      SplitLinesStep(l, j + "\n");
      assert forall k, c :: 0 <= k < |tail| && c in tail[k] ==> !IsLineBoundary(c) by {
        forall k, c | 0 <= k < |tail| && c in tail[k]
          ensures !IsLineBoundary(c)
        {
          assert tail[k] == ls[k + 1];
        }
      }
      SplitLinesOfJoin(tail);
      assert [l] + tail == ls;
    }
  }

  /** `''.join(ls)`. */
  function Concat(ls: seq<string>): string
    decreases |ls|
  {
    if ls == [] then "" else ls[0] + Concat(ls[1..])
  }

  /** `s` with every line-boundary character removed. */
  function DropBoundaries(s: string): string
    decreases |s|
  {
    if s == [] then []
    else (if IsLineBoundary(s[0]) then [] else [s[0]]) + DropBoundaries(s[1..])
  }

  lemma {:induction false} DropBoundariesAppend(a: string, b: string)
    ensures DropBoundaries(a + b) == DropBoundaries(a) + DropBoundaries(b)
    decreases |a|
  {
    if a == [] {
      assert a + b == b;
    } else {
      assert (a + b)[0] == a[0] && (a + b)[1..] == a[1..] + b;
      DropBoundariesAppend(a[1..], b);
    }
  }

  lemma {:induction false} DropBoundariesNone(s: string)
    requires forall j :: 0 <= j < |s| ==> !IsLineBoundary(s[j])
    ensures DropBoundaries(s) == s
    decreases |s|
  {
    if s != [] {
      DropBoundariesNone(s[1..]);
      assert [s[0]] + s[1..] == s;
    }
  }

  lemma {:induction false} DropBoundariesAll(s: string)
    requires forall j :: 0 <= j < |s| ==> IsLineBoundary(s[j])
    ensures DropBoundaries(s) == []
    decreases |s|
  {
    if s != [] {
      DropBoundariesAll(s[1..]);
    }
  }

  /** `splitlines()` loses nothing but the boundaries: its pieces, put back
      together, are the string with its line-boundary characters removed. */
  lemma {:induction false} SplitLinesKeepsText(s: string)
    ensures Concat(SplitLines(s)) == DropBoundaries(s)
    decreases |s|
  {
    if s != [] {
      var k := FirstBoundary(s);
      if k == |s| {
        DropBoundariesNone(s);
        ConcatOne(s);
      } else {
        var j := NextLine(s, k);
        SplitLinesKeepsText(s[j..]);
        DropAtBoundary(s, k);
        ConcatCons(s[..k], SplitLines(s[j..]));
      }
    }
  }

  lemma ConcatOne(s: string)
    ensures Concat([s]) == s
  {
    assert [s][1..] == [];
  }

  lemma ConcatCons(h: string, r: seq<string>)
    ensures Concat([h] + r) == h + Concat(r)
  {
    assert ([h] + r)[1..] == r;
  }

  /** Dropping boundaries around the first one: the line before it, then the
      rest after the boundary (one or two characters). */
  lemma DropAtBoundary(s: string, k: nat)
    requires k == FirstBoundary(s) && k < |s|
    ensures DropBoundaries(s) == s[..k] + DropBoundaries(s[NextLine(s, k)..])
  {
    var j := NextLine(s, k);
    BeforeBoundary(s, k);
    AtBoundary(s, k);
    DropThree(s, k, j);
    Seqs.AppendNil(s[..k]);
  }

  lemma BeforeBoundary(s: string, k: nat)
    requires k == FirstBoundary(s)
    ensures DropBoundaries(s[..k]) == s[..k]
  {
    var h := s[..k];
    assert forall i :: 0 <= i < |h| ==> h[i] == s[i];
    DropBoundariesNone(h);
  }

  lemma AtBoundary(s: string, k: nat)
    requires k == FirstBoundary(s) && k < |s|
    ensures DropBoundaries(s[k..NextLine(s, k)]) == []
  {
    var g := s[k..NextLine(s, k)];
    if |g| == 1 {
      assert g == [s[k]];
    } else {
      assert g == [s[k], s[k + 1]] && s[k + 1] == '\n';
    }
    DropBoundariesAll(g);
  }

  lemma DropThree(s: string, k: nat, j: nat)
    requires k <= j <= |s|
    ensures DropBoundaries(s) == DropBoundaries(s[..k]) + DropBoundaries(s[k..j]) + DropBoundaries(s[j..])
  {
    DropSplit(s, j);
    DropSplit(s[..j], k);
    assert s[..j][..k] == s[..k] && s[..j][k..] == s[k..j];
  }

  lemma DropSplit(s: string, k: nat)
    requires k <= |s|
    ensures DropBoundaries(s) == DropBoundaries(s[..k]) + DropBoundaries(s[k..])
  {
    Seqs.SplitAt(s, k);
    DropBoundariesAppend(s[..k], s[k..]);
  }

  /** A non-empty string without line boundaries is one line. */
  lemma SplitLinesOne(s: string)
    requires s != [] && forall j :: 0 <= j < |s| ==> !IsLineBoundary(s[j])
    ensures SplitLines(s) == [s]
  {
  }

  /** `sep.join(parts)`. */
  function Join(sep: string, parts: seq<string>): string
    decreases |parts|
  {
    if |parts| == 0 then ""
    else if |parts| == 1 then parts[0]
    else parts[0] + sep + Join(sep, parts[1..])
  }

  lemma {:induction false} JoinChars(sep: string, parts: seq<string>, c: char)
    requires c in Join(sep, parts)
    ensures c in sep || exists p :: p in parts && c in p
    decreases |parts|
  {
    if |parts| > 1 {
      var tail := Join(sep, parts[1..]);
      if c in tail {
        JoinChars(sep, parts[1..], c);
        if c !in sep {
          var p :| p in parts[1..] && c in p;
          assert p in parts;
        }
      } else {
        assert c in parts[0] || c in sep;
      }
    }
  }

  /** `s.split(sep)` for a one-character separator. */
  function Split(s: string, sep: char): (parts: seq<string>)
    ensures |parts| >= 1
    ensures forall k :: 0 <= k < |parts| ==> sep !in parts[k]
    decreases |s|
  {
    if |s| == 0 then [""]
    else if s[0] == sep then [""] + Split(s[1..], sep)
    else
      var rest := Split(s[1..], sep);
      [[s[0]] + rest[0]] + rest[1..]
  }

  /** Joining the parts with the separator gives the string back. */
  lemma {:induction false} JoinSplit(s: string, sep: char)
    ensures Join([sep], Split(s, sep)) == s
    decreases |s|
  {
    if |s| > 0 {
      JoinSplit(s[1..], sep);
      var rest := Split(s[1..], sep);
      if s[0] == sep {
        assert Split(s, sep) == [""] + rest;
        if |rest| == 1 {
          assert Join([sep], Split(s, sep)) == "" + [sep] + rest[0];
        } else {
          assert ([""] + rest)[1..] == rest;
        }
      } else {
        var parts := Split(s, sep);
        assert parts == [[s[0]] + rest[0]] + rest[1..];
        if |rest| == 1 {
          assert parts == [[s[0]] + rest[0]];
        } else {
          assert parts[1..] == rest[1..];
          assert Join([sep], rest) == rest[0] + [sep] + Join([sep], rest[1..]);
        }
        assert s == [s[0]] + s[1..];
      }
    }
  }

  function StartsWith(s: string, prefix: string): bool
  {
    |prefix| <= |s| && s[..|prefix|] == prefix
  }

  function EndsWith(s: string, suffix: string): bool
  {
    |suffix| <= |s| && s[|s| - |suffix|..] == suffix
  }

  /** `s.rfind(c)`: the index of the last `c`, or -1 when there is none. */
  function RFind(s: string, c: char): (k: int)
    ensures -1 <= k < |s|
    ensures k == -1 <==> c !in s
    ensures k >= 0 ==> s[k] == c
    decreases |s|
  {
    if s == [] then -1
    else if s[|s| - 1] == c then |s| - 1
    else RFind(s[..|s| - 1], c)
  }

  /** No `c` follows the one `RFind` reports. */
  lemma {:induction false} RFindLast(s: string, c: char, j: nat)
    requires RFind(s, c) < j < |s|
    ensures s[j] != c
    decreases |s|
  {
    if s[|s| - 1] != c && j < |s| - 1 {
      RFindLast(s[..|s| - 1], c, j);
    }
  }

  /** The last `c` of `p + [c] + e`, when `e` has none, is the one after `p`. */
  lemma RFindAfter(p: string, c: char, e: string)
    requires c !in e
    ensures RFind(p + [c] + e, c) == |p|
  {
    var s := p + [c] + e;
    var k := RFind(s, c);
    assert s[|p|] == c;
    if k < |p| {
      RFindLast(s, c, |p|);
    }
  }

  /** `c.lower()` restricted to ASCII letters. */
  function LowerChar(c: char): char
  {
    if 'A' <= c <= 'Z' then (c as int + 32) as char else c
  }

  function Lower(s: string): (r: string)
    ensures |r| == |s|
    ensures forall k :: 0 <= k < |s| ==> r[k] == LowerChar(s[k])
  {
    seq(|s|, k requires 0 <= k < |s| => LowerChar(s[k]))
  }

  predicate IsDigit(c: char)
  {
    '0' <= c <= '9'
  }

  predicate AllDigits(s: string)
  {
    forall k :: 0 <= k < |s| ==> IsDigit(s[k])
  }

  function DigitChar(d: nat): (c: char)
    requires d < 10
    ensures IsDigit(c) && c as int - '0' as int == d
  {
    ('0' as int + d) as char
  }

  /** Value of a run of ASCII decimal digits. */
  function DigitsValue(s: string): nat
    requires forall k :: 0 <= k < |s| ==> IsDigit(s[k])
    decreases |s|
  {
    if s == [] then 0
    else
      assert IsDigit(s[|s| - 1]);
      DigitsValue(s[..|s| - 1]) * 10 + (s[|s| - 1] as int - '0' as int)
  }

  /** `str(n)` for a natural number. */
  function NatToString(n: nat): (s: string)
    ensures |s| > 0
    ensures forall k :: 0 <= k < |s| ==> IsDigit(s[k])
    decreases n
  {
    if n < 10 then [DigitChar(n)] else NatToString(n / 10) + [DigitChar(n % 10)]
  }

  /** `str(i)`. */
  function IntToString(i: int): string
  {
    if i < 0 then "-" + NatToString(-i) else NatToString(i)
  }

  /** `int(s)` for decimal text: surrounding whitespace, an optional sign, ASCII digits.
      `None` stands for the `ValueError` Python raises. */
  function ParseInt(s: string): Option<int>
  {
    ParseSigned(Strip(s))
  }

  /** An optional sign, then digits. */
  function ParseSigned(t: string): Option<int>
  {
    if |t| > 0 && (t[0] == '-' || t[0] == '+') then
      match ParseDigits(t[1..])
      case None => None
      case Some(v) => Some(if t[0] == '-' then -v else v)
    else ParseDigits(t)
  }

  /** A non-empty run of ASCII digits. */
  function ParseDigits(d: string): Option<int>
  {
    if |d| > 0 && AllDigits(d) then Some(DigitsValue(d)) else None
  }

  /** A successful parse needs at least one digit in the text. */
  lemma ParseIntNeedsDigit(s: string)
    requires ParseInt(s).Some?
    ensures exists k :: 0 <= k < |s| && IsDigit(s[k])
  {
    var t := Strip(s);
    StripChars(s);
    var digits := if |t| > 0 && (t[0] == '-' || t[0] == '+') then t[1..] else t;
    assert digits[0] in t;
  }

  lemma {:induction false} DigitsValueOfNat(n: nat)
    ensures DigitsValue(NatToString(n)) == n
    decreases n
  {
    var s := NatToString(n);
    if n >= 10 {
      DigitsValueOfNat(n / 10);
      assert s[..|s| - 1] == NatToString(n / 10);
    }
  }

  /** `int(str(i)) == i`: the section number survives the trip through its stream name. */
  lemma ParseIntOfString(i: int)
    ensures ParseInt(IntToString(i)) == Some(i)
  {
    var n: nat := if i < 0 then -i else i;
    var d := NatToString(n);
    DigitsValueOfNat(n);
    assert ParseDigits(d) == Some(n);
    if i < 0 {
      NegativeText(d);
    } else {
      DigitText(d);
    }
  }

  /** Digits alone: no whitespace to strip, and no sign. */
  lemma DigitText(d: string)
    requires ParseDigits(d).Some?
    ensures ParseInt(d) == ParseDigits(d)
  {
    assert IsDigit(d[0]);
    NoSpaceStrip(d);
  }

  /** "-" followed by digits: no whitespace to strip, and the sign is read. */
  lemma NegativeText(d: string)
    requires ParseDigits(d).Some?
    ensures ParseInt("-" + d) == Some(-ParseDigits(d).value)
  {
    var s := "-" + d;
    assert s[1..] == d;
    forall k | 0 <= k < |s|
      ensures !IsSpace(s[k])
    {
      if k > 0 { assert s[k] == d[k - 1]; }
    }
    NoSpaceStrip(s);
  }

  lemma NoSpaceStrip(s: string)
    requires forall k :: 0 <= k < |s| ==> !IsSpace(s[k])
    ensures Strip(s) == s
  {
    assert RStrip(s) == s;
    assert LStrip(s) == s;
  }
}
