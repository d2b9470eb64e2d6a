/** The text of one paragraph-text record (services/hwp_converter_service.py,
    lines 36-44): decode the payload, drop control characters, split into lines
    and right-strip each line. */
module HwpText {
  import opened Results
  import opened PyStr
  import Utf16

  type byte = Utf16.byte

  /** The code points 0x00-0x1F that the regular expression `[\x00-\x1F]+` removes. */
  predicate IsControl(c: char)
  {
    c as int <= 0x1F
  }

  /** `bytes.decode('utf-16-le')`, falling back to `bytes.decode('utf-16', errors='ignore')`,
      which is given as the parameter `lenient` (byte-order-mark detection and
      ignored errors are not modelled). */
  function DecodeText(payload: seq<byte>, lenient: seq<byte> -> string): (t: string)
    ensures Utf16.DecodeLE(payload).Some? ==> t == Utf16.DecodeLE(payload).value
    ensures Utf16.DecodeLE(payload).None? ==> t == lenient(payload)
  {
    match Utf16.DecodeLE(payload)
    case Some(t) => t
    case None => lenient(payload)
  }

  /** `re.sub(r"[\x00-\x1F]+", '', text)`: deleting every run of control
      characters deletes each control character. */
  function RemoveControls(s: string): (r: string)
    ensures |r| <= |s|
    ensures forall c :: c in r ==> c in s && !IsControl(c)
    ensures forall c :: c in s && !IsControl(c) ==> c in r
    decreases |s|
  {
    if s == [] then []
    else
      var rest := RemoveControls(s[1..]);
      assert forall c :: c in s ==> c == s[0] || c in s[1..];
      if IsControl(s[0]) then rest else [s[0]] + rest
  }

  /** Removal is a filter: it commutes with concatenation, so every surviving
      character keeps its place relative to the others. */
  lemma {:induction false} RemoveControlsAppend(a: string, b: string)
    ensures RemoveControls(a + b) == RemoveControls(a) + RemoveControls(b)
    decreases |a|
  {
    if a != [] {
      assert (a + b)[1..] == a[1..] + b;
      RemoveControlsAppend(a[1..], b);
    } else {
      assert a + b == b;
    }
  }

  /** Text with no control character is left as it is. */
  lemma {:induction false} RemoveControlsKeepsClean(s: string)
    requires forall k :: 0 <= k < |s| ==> !IsControl(s[k])
    ensures RemoveControls(s) == s
    decreases |s|
  {
    if s != [] {
      RemoveControlsKeepsClean(s[1..]);
    }
  }

  /** A line as the extractor appends it: no control character, no line boundary,
      no trailing whitespace. */
  predicate IsCleanLine(l: string)
  {
    (forall c :: c in l ==> !IsControl(c) && !IsLineBoundary(c)) && RStrip(l) == l
  }

  function RStripAll(pieces: seq<string>): (r: seq<string>)
    ensures |r| == |pieces|
    ensures forall k :: 0 <= k < |pieces| ==> r[k] == RStrip(pieces[k])
  {
    seq(|pieces|, k requires 0 <= k < |pieces| => RStrip(pieces[k]))
  }

  /** The lines one paragraph-text record contributes, in order. */
  function RecordLines(payload: seq<byte>, lenient: seq<byte> -> string): seq<string>
  {
    RStripAll(SplitLines(RemoveControls(DecodeText(payload, lenient))))
  }

  /** Every line a record contributes is clean: the decoded text may hold anything,
      the appended lines hold no code point below 0x20 (so no tab) and equal their
      own right-strip. */
  lemma RecordLinesClean(payload: seq<byte>, lenient: seq<byte> -> string)
    ensures forall l :: l in RecordLines(payload, lenient) ==> IsCleanLine(l)
  {
    var text := RemoveControls(DecodeText(payload, lenient));
    var pieces := SplitLines(text);
    SplitLinesChars(text);
    forall l | l in RecordLines(payload, lenient)
      ensures IsCleanLine(l)
    {
      var k :| 0 <= k < |pieces| && l == RStrip(pieces[k]);
      assert pieces[k] in pieces;
      assert forall c :: c in l ==> c in pieces[k];
      RStripIdempotent(pieces[k]);
    }
  }

  /** The lines a record contributes are, in order, the right-stripped pieces of its
      cleaned text, and each piece is a contiguous slice of that text: the
      surviving characters of a line keep their order. */
  lemma RecordLinesSlices(payload: seq<byte>, lenient: seq<byte> -> string)
    ensures var text := RemoveControls(DecodeText(payload, lenient));
      var pieces := SplitLines(text);
      var lines := RecordLines(payload, lenient);
      |lines| == |pieces|
      && forall k :: 0 <= k < |lines| ==> lines[k] == RStrip(pieces[k]) && IsSlice(pieces[k], text)
  {
    var text := RemoveControls(DecodeText(payload, lenient));
    SplitLinesSlices(text);
  }

  /** No character of a record's cleaned text is lost except line boundaries: the
      pieces its lines are right-stripped from, put back together, are that text
      with its boundaries removed. */
  lemma RecordLinesKeepText(payload: seq<byte>, lenient: seq<byte> -> string)
    ensures var text := RemoveControls(DecodeText(payload, lenient));
      var pieces := SplitLines(text);
      Concat(pieces) == DropBoundaries(text)
      && |RecordLines(payload, lenient)| == |pieces|
      && forall k :: 0 <= k < |pieces| ==> RecordLines(payload, lenient)[k] == RStrip(pieces[k])
  {
    SplitLinesKeepsText(RemoveControls(DecodeText(payload, lenient)));
  }

  /** A record whose cleaned text is non-empty and has no line boundary (none of
      U+0085, U+2028, U+2029 survives the control removal) contributes exactly one
      line: that text, right-stripped. */
  lemma RecordLinesOne(payload: seq<byte>, lenient: seq<byte> -> string)
    requires var text := RemoveControls(DecodeText(payload, lenient));
      text != [] && forall j :: 0 <= j < |text| ==> !IsLineBoundary(text[j])
    ensures RecordLines(payload, lenient) == [RStrip(RemoveControls(DecodeText(payload, lenient)))]
  {
    SplitLinesOne(RemoveControls(DecodeText(payload, lenient)));
  }
}
