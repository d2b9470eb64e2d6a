/** The record stream of one body-text section (services/hwp_converter_service.py,
    lines 30-45): records framed by the 4-byte data-record header of the HWP 5.0
    binary format, of which only paragraph-text records yield text. */
module HwpRecords {
  import opened Results
  import opened PyStr
  import opened HwpText
  import Utf16

  type byte = Utf16.byte

  /** HWPTAG_PARA_TEXT. */
  const PARA_TEXT: nat := 67

  /** `struct.unpack_from('<I', data, i)[0]`: the little-endian 32-bit word at `i`. */
  function HeaderWord(data: seq<byte>, i: nat): (h: nat)
    requires i + 4 <= |data|
    ensures h < 0x1_0000_0000
  {
    data[i] as int + 0x100 * (data[i + 1] as int) + 0x1_0000 * (data[i + 2] as int) + 0x100_0000 * (data[i + 3] as int)
  }

  /** `header & 0x3ff`: bits 0-9. */
  function TagOf(h: nat): (t: nat)
    ensures t < 0x400
  {
    h % 0x400
  }

  /** `(header >> 20) & 0xfff`: bits 20-31. */
  function SizeOf(h: nat): (n: nat)
    ensures n < 0x1000
  {
    (h / 0x10_0000) % 0x1000
  }

  /** A header word is three fields; the tag is the low one, the size the high one,
      and the middle field (bits 10-19, the record level) reaches neither. */
  lemma HeaderFields(lo: nat, mid: nat, hi: nat)
    requires lo < 0x400 && mid < 0x400 && hi < 0x1000
    ensures TagOf(lo + 0x400 * mid + 0x10_0000 * hi) == lo
    ensures SizeOf(lo + 0x400 * mid + 0x10_0000 * hi) == hi
  {
    var h := lo + 0x400 * mid + 0x10_0000 * hi;
    assert h == lo + 0x400 * (mid + 0x400 * hi);
    assert h == (lo + 0x400 * mid) + 0x10_0000 * hi;
    assert lo + 0x400 * mid < 0x10_0000;
  }

  /** The same fields read off the four header bytes. */
  lemma HeaderFieldsOfBytes(data: seq<byte>, i: nat)
    requires i + 4 <= |data|
    ensures TagOf(HeaderWord(data, i)) == data[i] as int + 0x100 * (data[i + 1] as int % 4)
    ensures SizeOf(HeaderWord(data, i)) == data[i + 2] as int / 0x10 + 0x10 * (data[i + 3] as int)
  {
    var b0: int, b1: int, b2: int, b3: int := data[i], data[i + 1], data[i + 2], data[i + 3];
    var lo := b0 + 0x100 * (b1 % 4);
    var mid := b1 / 4 + 0x40 * (b2 % 0x10);
    var hi := b2 / 0x10 + 0x10 * b3;
    assert b1 == 4 * (b1 / 4) + b1 % 4;
    assert b2 == 0x10 * (b2 / 0x10) + b2 % 0x10;
    assert HeaderWord(data, i) == lo + 0x400 * mid + 0x10_0000 * hi;
    HeaderFields(lo, mid, hi);
  }

  /** `data[i+4:i+4+rec_len]`: a Python slice, cut short at the end of the buffer. */
  function Payload(data: seq<byte>, i: nat, size: nat): (p: seq<byte>)
    requires i + 4 <= |data|
    ensures |p| <= size
    ensures i + 4 + size <= |data| ==> p == data[i + 4..i + 4 + size]
    ensures i + 4 + size > |data| ==> p == data[i + 4..]
  {
    data[i + 4..if i + 4 + size <= |data| then i + 4 + size else |data|]
  }

  /** The lines the record loop appends from cursor `i` on. `Err(o)` is the
      `struct.error` raised when a header would start at `o` with fewer than four
      bytes left. */
  function WalkFrom(data: seq<byte>, i: nat, lenient: seq<byte> -> string): Result<seq<string>, nat>
    decreases |data| - i
  {
    if i >= |data| then Ok([])
    else if i + 4 > |data| then Err(i)
    else
      Prefixed(RecordAt(data, i, lenient), WalkFrom(data, i + 4 + SizeOf(HeaderWord(data, i)), lenient))
  }

  /** The lines one record at cursor `i` contributes. */
  function RecordAt(data: seq<byte>, i: nat, lenient: seq<byte> -> string): seq<string>
    requires i + 4 <= |data|
  {
    var h := HeaderWord(data, i);
    if TagOf(h) == PARA_TEXT then RecordLines(Payload(data, i, SizeOf(h)), lenient) else []
  }

  lemma WalkAdvance(data: seq<byte>, i: nat, lenient: seq<byte> -> string, lines: seq<string>, head: seq<string>, j: nat)
    requires i + 4 <= |data|
    requires head == RecordAt(data, i, lenient) && j == i + 4 + SizeOf(HeaderWord(data, i))
    requires Prefixed(lines, WalkFrom(data, i, lenient)) == WalkFrom(data, 0, lenient)
    ensures Prefixed(lines + head, WalkFrom(data, j, lenient)) == WalkFrom(data, 0, lenient)
  {
    WalkStepTo(data, i, lenient, j);
    PrefixedAssoc(lines, head, WalkFrom(data, j, lenient));
  }

  /** Lines 36-44: decode one paragraph-text payload and append its lines. */
  method AppendText(lines: seq<string>, recData: seq<byte>, lenient: seq<byte> -> string)
    returns (out: seq<string>)
    ensures out == lines + RecordLines(recData, lenient)
  {
    var text := RemoveControls(DecodeText(recData, lenient));
    var pieces := SplitLines(text);
    out := lines;
    for k := 0 to |pieces|
      invariant out == lines + RStripAll(pieces[..k])
    {
      assert RStripAll(pieces[..k + 1]) == RStripAll(pieces[..k]) + [RStrip(pieces[k])];
      out := out + [RStrip(pieces[k])];
    }
    assert pieces[..|pieces|] == pieces;
  }

  /** The `while i < size` loop over one section's buffer. The cursor moves by
      exactly 4 + length per record, so it strictly increases and the loop ends. */
  method ReadRecords(data: seq<byte>, lenient: seq<byte> -> string) returns (r: Result<seq<string>, nat>)
    ensures r == WalkFrom(data, 0, lenient)
  {
    var lines: seq<string> := [];
    var i, size := 0, |data|;
    PrefixedNil(WalkFrom(data, 0, lenient));
    while i < size
      invariant Prefixed(lines, WalkFrom(data, i, lenient)) == WalkFrom(data, 0, lenient)
      decreases size - i
    {
      if size - i < 4 {
        return Err(i);
      }
      var header := HeaderWord(data, i);
      var recType := TagOf(header);
      var recLen := SizeOf(header);
      ghost var before, head := lines, RecordAt(data, i, lenient);
      if recType == PARA_TEXT {
        lines := AppendText(lines, Payload(data, i, recLen), lenient);
        assert head == RecordLines(Payload(data, i, recLen), lenient);
      } else {
        assert head == [];
        assert lines == before + head;
      }
      WalkAdvance(data, i, lenient, before, head, i + 4 + recLen);
      i := i + 4 + recLen;
    }
    assert lines + [] == lines;
    return Ok(lines);
  }

  /** A declared length running past the end of the buffer raises nothing: the
      payload is what remains, and the walk stops after that record. */
  lemma TruncatedPayloadEndsWalk(data: seq<byte>, i: nat, lenient: seq<byte> -> string)
    requires i + 4 <= |data|
    requires i + 4 + SizeOf(HeaderWord(data, i)) >= |data|
    ensures WalkFrom(data, i, lenient) ==
      Ok(if TagOf(HeaderWord(data, i)) == PARA_TEXT then RecordLines(data[i + 4..], lenient) else [])
  {
    var h := HeaderWord(data, i);
    WalkStepTo(data, i, lenient, i + 4 + SizeOf(h));
    assert WalkFrom(data, i + 4 + SizeOf(h), lenient) == Ok([]);
    var head := RecordAt(data, i, lenient);
    assert head + [] == head;
    assert Payload(data, i, SizeOf(h)) == data[i + 4..];
  }

  /** The only failure is a header begun with one to three bytes left. */
  lemma {:induction false} WalkFailsOnlyAtShortHeader(data: seq<byte>, i: nat, lenient: seq<byte> -> string)
    ensures WalkFrom(data, i, lenient).Err? ==>
      var o := WalkFrom(data, i, lenient).error; i <= o && o < |data| < o + 4
    decreases |data| - i
  {
    if i < |data| && i + 4 <= |data| {
      WalkFailsOnlyAtShortHeader(data, i + 4 + SizeOf(HeaderWord(data, i)), lenient);
    }
  }

  /** Every line of a section that parses is clean. */
  lemma {:induction false} WalkLinesClean(data: seq<byte>, i: nat, lenient: seq<byte> -> string)
    ensures WalkFrom(data, i, lenient).Ok? ==>
      forall l :: l in WalkFrom(data, i, lenient).value ==> IsCleanLine(l)
    decreases |data| - i
  {
    if i < |data| && i + 4 <= |data| {
      var j := i + 4 + SizeOf(HeaderWord(data, i));
      WalkLinesClean(data, j, lenient);
      RecordAtClean(data, i, lenient);
      WalkStepTo(data, i, lenient, j);
      var next := WalkFrom(data, j, lenient);
      if next.Ok? {
        var head := RecordAt(data, i, lenient);
        assert forall l :: l in head + next.value ==> l in head || l in next.value;
      }
    }
  }

  lemma RecordAtClean(data: seq<byte>, i: nat, lenient: seq<byte> -> string)
    requires i + 4 <= |data|
    ensures forall l :: l in RecordAt(data, i, lenient) ==> IsCleanLine(l)
  {
    RecordLinesClean(Payload(data, i, SizeOf(HeaderWord(data, i))), lenient);
  }

  /** One iteration of the loop: the record's own lines, then the walk from the
      next cursor `j`, whatever the record's tag. */
  lemma WalkStepTo(data: seq<byte>, i: nat, lenient: seq<byte> -> string, j: nat)
    requires i + 4 <= |data| && j == i + 4 + SizeOf(HeaderWord(data, i))
    ensures WalkFrom(data, i, lenient) == Prefixed(RecordAt(data, i, lenient), WalkFrom(data, j, lenient))
  {
    assert i < |data| && !(i + 4 > |data|);
  }

  /** A record as it is written: its tag, its level (the bits the header keeps
      between tag and size) and its payload. */
  datatype Record = Record(tag: nat, level: nat, payload: seq<byte>)

  predicate Encodable(r: Record)
  {
    r.tag < 0x400 && r.level < 0x400 && |r.payload| < 0x1000
  }

  function HeaderBytes(h: nat): (b: seq<byte>)
    requires h < 0x1_0000_0000
    ensures |b| == 4
  {
    [h % 0x100, (h / 0x100) % 0x100, (h / 0x1_0000) % 0x100, h / 0x100_0000]
  }

  lemma HeaderWordOfBytes(h: nat, data: seq<byte>, i: nat)
    requires h < 0x1_0000_0000
    requires i + 4 <= |data| && data[i..i + 4] == HeaderBytes(h)
    ensures HeaderWord(data, i) == h
  {
    var b := HeaderBytes(h);
    assert data[i] == b[0] && data[i + 1] == b[1] && data[i + 2] == b[2] && data[i + 3] == b[3];
    var q1 := h / 0x100;
    var q2 := q1 / 0x100;
    assert h == b[0] + 0x100 * q1;
    assert q1 == b[1] + 0x100 * q2;
    assert q2 == h / 0x1_0000;
    assert q2 == b[2] + 0x100 * (q2 / 0x100);
    assert q2 / 0x100 == h / 0x100_0000;
  }

  function EncodeRecord(r: Record): (b: seq<byte>)
    requires Encodable(r)
  {
    HeaderBytes(HeaderValue(r)) + r.payload
  }

  function EncodeRecords(rs: seq<Record>): seq<byte>
    requires forall k :: 0 <= k < |rs| ==> Encodable(rs[k])
    decreases |rs|
  {
    if rs == [] then [] else EncodeRecord(rs[0]) + EncodeRecords(rs[1..])
  }

  /** What the extractor should read from a sequence of records: the lines of the
      paragraph-text records, in record order. Levels play no part. */
  function TextOf(rs: seq<Record>, lenient: seq<byte> -> string): seq<string>
    decreases |rs|
  {
    if rs == [] then []
    else OwnLines(rs[0], lenient) + TextOf(rs[1..], lenient)
  }

  lemma EncodedSlices(r: Record, rest: seq<byte>, data: seq<byte>, i: nat)
    requires Encodable(r)
    requires i <= |data| && data[i..] == EncodeRecord(r) + rest
    ensures i + 4 + |r.payload| <= |data|
    ensures data[i..i + 4] == HeaderBytes(HeaderValue(r))
    ensures data[i + 4..i + 4 + |r.payload|] == r.payload
    ensures data[i + 4 + |r.payload|..] == rest
  {
    var n := |r.payload|;
    var tail := data[i..];
    var hb := HeaderBytes(HeaderValue(r));
    assert tail == hb + (r.payload + rest);
    assert tail[..4] == hb;
    assert data[i..i + 4] == tail[..4];
    assert tail[4..4 + n] == r.payload;
    assert data[i + 4..i + 4 + n] == tail[4..4 + n];
    assert tail[4 + n..] == rest;
  }

  function HeaderValue(r: Record): (h: nat)
    requires Encodable(r)
    ensures h < 0x1_0000_0000
  {
    r.tag + 0x400 * r.level + 0x10_0000 * |r.payload|
  }

  /** `data` holds the records `rs` from offset `i` to its end. */
  ghost predicate FramedAt(data: seq<byte>, i: nat, rs: seq<Record>)
    decreases |rs|
  {
    if rs == [] then i == |data|
    else
      Encodable(rs[0]) && i + 4 + |rs[0].payload| <= |data|
      && HeaderWord(data, i) == HeaderValue(rs[0])
      && data[i + 4..i + 4 + |rs[0].payload|] == rs[0].payload
      && FramedAt(data, i + 4 + |rs[0].payload|, rs[1..])
  }

  lemma {:induction false} EncodedIsFramed(rs: seq<Record>, data: seq<byte>, i: nat)
    requires forall k :: 0 <= k < |rs| ==> Encodable(rs[k])
    requires i <= |data| && data[i..] == EncodeRecords(rs)
    ensures FramedAt(data, i, rs)
    decreases |rs|
  {
    if rs == [] {
      assert |data[i..]| == 0;
    } else {
      var rest := EncodeRecords(rs[1..]);
      assert data[i..] == EncodeRecord(rs[0]) + rest;
      EncodedSlices(rs[0], rest, data, i);
      HeaderWordOfBytes(HeaderValue(rs[0]), data, i);
      EncodedIsFramed(rs[1..], data, i + 4 + |rs[0].payload|);
    }
  }

  /** The lines a record itself contributes: those of a paragraph-text record, none otherwise. */
  function OwnLines(r: Record, lenient: seq<byte> -> string): seq<string>
  {
    if r.tag == PARA_TEXT then RecordLines(r.payload, lenient) else []
  }

  lemma FieldsOfValue(r: Record)
    requires Encodable(r)
    ensures TagOf(HeaderValue(r)) == r.tag
    ensures SizeOf(HeaderValue(r)) == |r.payload|
  {
    HeaderFields(r.tag, r.level, |r.payload|);
  }

  /** One record in front of a walk that succeeds with `tail`. */
  lemma WalkFramedStep(data: seq<byte>, i: nat, lenient: seq<byte> -> string, head: seq<string>, j: nat, tail: seq<string>)
    requires i + 4 <= |data|
    requires RecordAt(data, i, lenient) == head
    requires j == i + 4 + SizeOf(HeaderWord(data, i)) && WalkFrom(data, j, lenient) == Ok(tail)
    ensures WalkFrom(data, i, lenient) == Ok(head + tail)
  {
  }

  lemma RecordAtFields(data: seq<byte>, i: nat, lenient: seq<byte> -> string, r: Record)
    requires i + 4 + |r.payload| <= |data|
    requires TagOf(HeaderWord(data, i)) == r.tag && SizeOf(HeaderWord(data, i)) == |r.payload|
    requires data[i + 4..i + 4 + |r.payload|] == r.payload
    ensures RecordAt(data, i, lenient) == OwnLines(r, lenient)
  {
    assert Payload(data, i, |r.payload|) == r.payload;
  }

  /** What the first framed record tells the walk: its lines and where the next header starts. */
  lemma FramedHead(data: seq<byte>, i: nat, rs: seq<Record>, lenient: seq<byte> -> string)
    requires rs != [] && FramedAt(data, i, rs)
    ensures i + 4 + |rs[0].payload| <= |data|
    ensures RecordAt(data, i, lenient) == OwnLines(rs[0], lenient)
    ensures SizeOf(HeaderWord(data, i)) == |rs[0].payload|
    ensures FramedAt(data, i + 4 + |rs[0].payload|, rs[1..])
  {
    FieldsOfValue(rs[0]);
    RecordAtFields(data, i, lenient, rs[0]);
  }

  lemma {:induction false} WalkFramed(rs: seq<Record>, data: seq<byte>, i: nat, lenient: seq<byte> -> string)
    requires FramedAt(data, i, rs)
    ensures WalkFrom(data, i, lenient) == Ok(TextOf(rs, lenient))
    decreases |rs|
  {
    if rs == [] {
      assert WalkFrom(data, i, lenient) == Ok([]);
    } else {
      FramedHead(data, i, rs, lenient);
      var j := i + 4 + |rs[0].payload|;
      WalkFramed(rs[1..], data, j, lenient);
      WalkFramedStep(data, i, lenient, OwnLines(rs[0], lenient), j, TextOf(rs[1..], lenient));
    }
  }

  /** Walking a well-framed buffer yields exactly the text of its paragraph-text
      records; other records and the level bits contribute nothing. */
  lemma WalkEncoded(rs: seq<Record>, lenient: seq<byte> -> string)
    requires forall k :: 0 <= k < |rs| ==> Encodable(rs[k])
    ensures WalkFrom(EncodeRecords(rs), 0, lenient) == Ok(TextOf(rs, lenient))
  {
    var data := EncodeRecords(rs);
    assert data[0..] == data;
    EncodedIsFramed(rs, data, 0);
    WalkFramed(rs, data, 0, lenient);
  }
}
