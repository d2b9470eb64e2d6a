/** Strict UTF-16LE (RFC 2781, section 2.2, read little-endian): the decoder behind
    `bytes.decode('utf-16-le')`, and the encoder it inverts. */
module Utf16 {
  import opened Results

  type byte = b: int | 0 <= b < 256

  predicate IsHighSurrogate(u: int)
  {
    0xD800 <= u <= 0xDBFF
  }

  predicate IsLowSurrogate(u: int)
  {
    0xDC00 <= u <= 0xDFFF
  }

  /** The 16-bit code unit held little-endian in two bytes. */
  function Unit(lo: byte, hi: byte): (u: nat)
    ensures u < 0x1_0000
  {
    lo + 0x100 * hi
  }

  /** The character a surrogate pair stands for. */
  function PairChar(u: int, u2: int): (c: char)
    requires IsHighSurrogate(u) && IsLowSurrogate(u2)
    ensures 0x1_0000 <= c as int
  {
    var cp := 0x1_0000 + (u - 0xD800) * 0x400 + (u2 - 0xDC00);
    assert cp < 0x11_0000;
    cp as char
  }

  /** A code unit that is no surrogate stands for itself. */
  function UnitChar(u: nat): (c: char)
    requires u < 0x1_0000 && !IsHighSurrogate(u) && !IsLowSurrogate(u)
    ensures c as int == u
  {
    u as char
  }

  /** Strict decoding. `None` is Python's `UnicodeDecodeError`: an odd byte count,
      a low surrogate first, or a high surrogate not followed by a low one. */
  function DecodeLE(b: seq<byte>): (r: Option<string>)
    ensures |b| % 2 == 1 ==> r.None?
    ensures r.Some? ==> |r.value| <= |b| / 2
    decreases |b|
  {
    if |b| == 0 then Some([])
    else if |b| == 1 then None
    else
      var u := Unit(b[0], b[1]);
      if !IsHighSurrogate(u) && !IsLowSurrogate(u) then
        match DecodeLE(b[2..])
        case None => None
        case Some(rest) => Some([UnitChar(u)] + rest)
      else if IsLowSurrogate(u) || |b| < 4 then None
      else
        var u2 := Unit(b[2], b[3]);
        if !IsLowSurrogate(u2) then None
        else
          match DecodeLE(b[4..])
          case None => None
          case Some(rest) => Some([PairChar(u, u2)] + rest)
  }

  /** The bytes of one character: one code unit below U+10000, a surrogate pair above. */
  function EncodeChar(c: char): (b: seq<byte>)
    ensures |b| == 2 || |b| == 4
  {
    var cp := c as int;
    if cp < 0x1_0000 then [cp % 0x100, cp / 0x100]
    else
      var v := cp - 0x1_0000;
      var hi := 0xD800 + v / 0x400;
      var lo := 0xDC00 + v % 0x400;
      [hi % 0x100, hi / 0x100, lo % 0x100, lo / 0x100]
  }

  function EncodeLE(s: string): (b: seq<byte>)
    ensures |b| % 2 == 0
    decreases |s|
  {
    if s == [] then [] else EncodeChar(s[0]) + EncodeLE(s[1..])
  }

  lemma DecodeEncodeChar(c: char, rest: seq<byte>)
    ensures DecodeLE(EncodeChar(c) + rest) ==
      match DecodeLE(rest)
      case None => None
      case Some(t) => Some([c] + t)
  {
    var b := EncodeChar(c) + rest;
    var cp := c as int;
    if cp < 0x1_0000 {
      assert Unit(b[0], b[1]) == cp;
      assert b[2..] == rest;
    } else {
      var v := cp - 0x1_0000;
      var hi := 0xD800 + v / 0x400;
      var lo := 0xDC00 + v % 0x400;
      assert v < 0x10_0000;
      assert Unit(b[0], b[1]) == hi;
      assert Unit(b[2], b[3]) == lo;
      assert PairChar(hi, lo) as int == cp;
      assert b[4..] == rest;
    }
  }

  /** Decoding inverts encoding for every string. */
  lemma {:induction false} DecodeEncode(s: string)
    ensures DecodeLE(EncodeLE(s)) == Some(s)
    decreases |s|
  {
    if s != [] {
      DecodeEncode(s[1..]);
      DecodeEncodeChar(s[0], EncodeLE(s[1..]));
      assert [s[0]] + s[1..] == s;
    }
  }

  /** The two bytes of a code unit are read back from it. */
  lemma UnitBytes(lo: byte, hi: byte)
    ensures Unit(lo, hi) % 0x100 == lo && Unit(lo, hi) / 0x100 == hi
  {
  }

  /** A surrogate pair's character splits back into the two code units. */
  lemma PairSplit(u: int, u2: int)
    requires IsHighSurrogate(u) && IsLowSurrogate(u2)
    ensures var v := PairChar(u, u2) as int - 0x1_0000;
      0xD800 + v / 0x400 == u && 0xDC00 + v % 0x400 == u2
  {
    var v := PairChar(u, u2) as int - 0x1_0000;
    assert v == (u - 0xD800) * 0x400 + (u2 - 0xDC00);
  }

  /** Encoding inverts decoding: a buffer the strict decoder accepts is exactly the
      encoding of its text. With `DecodeEncode`, the decoder succeeds exactly on the
      encodings of strings, so every odd length, lone low surrogate or unpaired high
      surrogate fails and sends the caller to its fallback. */
  lemma {:induction false} EncodeDecode(b: seq<byte>)
    ensures DecodeLE(b).Some? ==> EncodeLE(DecodeLE(b).value) == b
    decreases |b|
  {
    if |b| >= 2 && DecodeLE(b).Some? {
      var u := Unit(b[0], b[1]);
      UnitBytes(b[0], b[1]);
      if !IsHighSurrogate(u) && !IsLowSurrogate(u) {
        var rest := DecodeLE(b[2..]).value;
        EncodeDecode(b[2..]);
        var t := [UnitChar(u)] + rest;
        assert DecodeLE(b).value == t;
        assert t[0] == UnitChar(u) && t[1..] == rest;
        assert EncodeChar(UnitChar(u)) == b[..2];
        assert b == b[..2] + b[2..];
      } else {
        var u2 := Unit(b[2], b[3]);
        UnitBytes(b[2], b[3]);
        var rest := DecodeLE(b[4..]).value;
        EncodeDecode(b[4..]);
        var c := PairChar(u, u2);
        PairSplit(u, u2);
        var t := [c] + rest;
        assert DecodeLE(b).value == t;
        assert t[0] == c && t[1..] == rest;
        assert EncodeChar(c) == b[..4];
        assert b == b[..4] + b[4..];
      }
    }
  }

  /** The strict decoder accepts a buffer exactly when it is the encoding of some string. */
  lemma DecodeIffEncoded(b: seq<byte>)
    ensures DecodeLE(b).Some? <==> exists s :: EncodeLE(s) == b
  {
    if DecodeLE(b).Some? {
      EncodeDecode(b);
      assert EncodeLE(DecodeLE(b).value) == b;
    } else if exists s :: EncodeLE(s) == b {
      var s :| EncodeLE(s) == b;
      DecodeEncode(s);
    }
  }

  /** A low surrogate with no high surrogate before it raises. */
  lemma LoneLowSurrogateFails(lo: byte, hi: byte, rest: seq<byte>)
    requires IsLowSurrogate(Unit(lo, hi))
    ensures DecodeLE([lo, hi] + rest) == None
  {
    var b := [lo, hi] + rest;
    assert b[0] == lo && b[1] == hi;
  }

  /** A high surrogate that ends the buffer, or is followed by anything but a low
      surrogate, raises. */
  lemma UnpairedHighSurrogateFails(lo: byte, hi: byte, rest: seq<byte>)
    requires IsHighSurrogate(Unit(lo, hi))
    requires |rest| < 2 || !IsLowSurrogate(Unit(rest[0], rest[1]))
    ensures DecodeLE([lo, hi] + rest) == None
  {
    var b := [lo, hi] + rest;
    assert b[0] == lo && b[1] == hi;
    if |rest| >= 2 {
      assert b[2] == rest[0] && b[3] == rest[1];
    }
  }
}
