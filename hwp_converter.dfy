/** `get_hwp_text` (services/hwp_converter_service.py, lines 10-59): check the two
    streams every HWP file has, read the compression flag, collect and order the
    body-text sections, walk each section's records, collapse blank lines and hand
    the text to `convert_tables`. */
module HwpConverter {
  import opened Results
  import opened PyStr
  import opened HwpText
  import opened HwpRecords
  import HwpNormalize
  import HwpTables
  import Seqs

  /** The compound file as the extractor sees it: the `listdir()` entries, each a
      path of names, and the streams keyed by their '/'-joined path. */
  datatype Container = Container(entries: seq<seq<string>>, streams: map<string, seq<byte>>)

  const FILE_HEADER: string := "FileHeader"
  const SUMMARY_INFO: string := "\U{5}HwpSummaryInformation"
  const BODY_TEXT: string := "BodyText"
  const SECTION: string := "Section"

  /** The exceptions `get_hwp_text` lets escape. */
  datatype HwpError =
    | NotHwpFile                               // ValueError, line 14
    | FileHeaderTooShort                       // IndexError at `header[36]`, line 17
    | EntryTooShort(entry: seq<string>)        // IndexError at `entry[0]` or `entry[1]`, line 21
    | BadSectionNumber(name: string)           // ValueError from `int(...)`, line 22
    | StreamMissing(path: string)              // `openstream` of an absent stream, line 28
    | InflateFailed(path: string)              // zlib.error, line 29
    | TruncatedHeader(path: string, offset: nat) // struct.error, line 32

  /** Raw inflate (`zlib.decompress(raw, -15)`); `None` is a zlib error. */
  type Inflate = seq<byte> -> Option<seq<byte>>

  /** Lenient UTF-16 decode used when strict UTF-16LE fails (line 40). */
  type Lenient = seq<byte> -> string

  /** One `(idx, path)` pair of the `sections` list. */
  datatype Section = Section(index: int, path: string)

  /** Line 23: `f"BodyText/Section{idx}"`. */
  function SectionPath(idx: int): string
  {
    BODY_TEXT + "/" + SECTION + IntToString(idx)
  }

  /** Line 17: `(header[36] & 1) == 1`. */
  predicate Compressed(header: seq<byte>)
    requires |header| > 36
  {
    header[36] % 2 == 1
  }

  // ---------------------------------------------------------------------------
  // Lines 19-23: the section entries

  /** What one `listdir()` entry adds to `sections`; `Ok(None)` for an entry that
      is not a section. `entry[1]` is only read when `entry[0]` is "BodyText". */
  function SectionOf(entry: seq<string>): Result<Option<Section>, HwpError>
  {
    if |entry| == 0 then Err(EntryTooShort(entry))
    else if entry[0] != BODY_TEXT then Ok(None)
    else if |entry| < 2 then Err(EntryTooShort(entry))
    else if !StartsWith(entry[1], SECTION) then Ok(None)
    else
      match ParseInt(entry[1][|SECTION|..])
      case None => Err(BadSectionNumber(entry[1]))
      case Some(idx) => Ok(Some(Section(idx, SectionPath(idx))))
  }

  function Found(s: Option<Section>): seq<Section>
  {
    if s.Some? then [s.value] else []
  }

  /** The `sections` list before sorting, in listing order, or the first exception. */
  function CollectSections(entries: seq<seq<string>>): Result<seq<Section>, HwpError>
    decreases |entries|
  {
    if entries == [] then Ok([])
    else
      var s :- SectionOf(entries[0]);
      Prefixed(Found(s), CollectSections(entries[1..]))
  }

  lemma CollectUnfold(entries: seq<seq<string>>, k: nat)
    requires k < |entries|
    ensures CollectSections(entries[k..]) ==
      match SectionOf(entries[k])
      case Err(e) => Err(e)
      case Ok(s) => Prefixed(Found(s), CollectSections(entries[k + 1..]))
  {
    Seqs.TailOfSuffix(entries, k);
  }

  /** The listing loop, lines 19-23. */
  method ListSections(entries: seq<seq<string>>) returns (r: Result<seq<Section>, HwpError>)
    ensures r == CollectSections(entries)
  {
    var sections: seq<Section> := [];
    PrefixedNil(CollectSections(entries));
    for k := 0 to |entries|
      invariant Prefixed(sections, CollectSections(entries[k..])) == CollectSections(entries)
    {
      var entry := entries[k];
      CollectUnfold(entries, k);
      if |entry| == 0 {
        return Err(EntryTooShort(entry));
      }
      ghost var before := sections;
      if entry[0] == BODY_TEXT {
        if |entry| < 2 {
          return Err(EntryTooShort(entry));
        }
        if StartsWith(entry[1], SECTION) {
          var idx := ParseInt(entry[1][|SECTION|..]);
          if idx.None? {
            return Err(BadSectionNumber(entry[1]));
          }
          sections := sections + [Section(idx.value, SectionPath(idx.value))];
        }
      }
      ghost var here := Found(SectionOf(entry).value);
      assert sections == before + here by {
        if here == [] {
          Seqs.AppendNil(before);
        }
      }
      PrefixedAssoc(before, here, CollectSections(entries[k + 1..]));
    }
    Seqs.AppendNil(sections);
    Seqs.SliceToEnd(entries, |entries|);
    return Ok(sections);
  }

  /** An entry yields a section exactly when it is `('BodyText', 'Section<k>', ...)`
      with an integer `k`, and the section's path is rebuilt from that integer. */
  lemma SectionOfIff(entry: seq<string>, s: Section)
    ensures SectionOf(entry) == Ok(Some(s)) <==>
      |entry| >= 2 && entry[0] == BODY_TEXT && StartsWith(entry[1], SECTION)
      && ParseInt(entry[1][|SECTION|..]) == Some(s.index) && s.path == SectionPath(s.index)
  {
  }

  /** Every other entry of one or more names is ignored. */
  lemma OtherEntriesIgnored(entry: seq<string>)
    requires |entry| >= 1 && entry[0] != BODY_TEXT
    ensures SectionOf(entry) == Ok(None)
  {
  }

  /** The stream of section `k` is listed as `('BodyText', 'Section<k>')`, and that
      entry gives back section `k` with the same path. */
  lemma SectionEntryRoundTrip(idx: int)
    ensures SectionOf([BODY_TEXT, SECTION + IntToString(idx)]) == Ok(Some(Section(idx, SectionPath(idx))))
  {
    var name := SECTION + IntToString(idx);
    assert name[..|SECTION|] == SECTION;
    assert name[|SECTION|..] == IntToString(idx);
    ParseIntOfString(idx);
  }

  /** Each collected section comes from an entry, and its path is the one rebuilt
      from its number. */
  predicate WellFormed(ss: seq<Section>)
  {
    forall k :: 0 <= k < |ss| ==> ss[k].path == SectionPath(ss[k].index)
  }

  lemma {:induction false} CollectedWellFormed(entries: seq<seq<string>>)
    ensures CollectSections(entries).Ok? ==> WellFormed(CollectSections(entries).value)
    decreases |entries|
  {
    if entries != [] && CollectSections(entries).Ok? {
      CollectedWellFormed(entries[1..]);
      var here := Found(SectionOf(entries[0]).value);
      var rest := CollectSections(entries[1..]).value;
      var ss := here + rest;
      forall k | 0 <= k < |ss|
        ensures ss[k].path == SectionPath(ss[k].index)
      {
        if k >= |here| {
          assert ss[k] == rest[k - |here|];
        }
      }
    }
  }

  lemma {:induction false} CollectedFromEntries(entries: seq<seq<string>>)
    ensures CollectSections(entries).Ok? ==>
      forall s :: s in CollectSections(entries).value ==>
        exists k :: 0 <= k < |entries| && SectionOf(entries[k]) == Ok(Some(s))
    decreases |entries|
  {
    if entries != [] && CollectSections(entries).Ok? {
      CollectedFromEntries(entries[1..]);
      var here := Found(SectionOf(entries[0]).value);
      var rest := CollectSections(entries[1..]).value;
      forall t | t in here + rest
        ensures exists k :: 0 <= k < |entries| && SectionOf(entries[k]) == Ok(Some(t))
      {
        if t in rest {
          var k :| 0 <= k < |entries[1..]| && SectionOf(entries[1..][k]) == Ok(Some(t));
          assert entries[1..][k] == entries[k + 1];
        } else {
          assert SectionOf(entries[0]) == Ok(Some(t));
        }
      }
    }
  }

  /** Every `('BodyText', 'Section<k>')` entry of the listing is collected. */
  lemma {:induction false} CollectedAllSections(entries: seq<seq<string>>)
    ensures CollectSections(entries).Ok? ==>
      forall k, s :: 0 <= k < |entries| && SectionOf(entries[k]) == Ok(Some(s)) ==>
        s in CollectSections(entries).value
    decreases |entries|
  {
    if entries != [] && CollectSections(entries).Ok? {
      CollectedAllSections(entries[1..]);
      var here := Found(SectionOf(entries[0]).value);
      var rest := CollectSections(entries[1..]).value;
      forall k, s | 0 <= k < |entries| && SectionOf(entries[k]) == Ok(Some(s))
        ensures s in here + rest
      {
        if k == 0 {
          assert here == [s];
        } else {
          assert entries[1..][k - 1] == entries[k];
        }
      }
    }
  }

  /** The listing raises exactly when some entry raises, and then with the
      exception of the first such entry. */
  lemma {:induction false} CollectFailsAtFirstBadEntry(entries: seq<seq<string>>)
    ensures CollectSections(entries).Err? <==> exists k :: 0 <= k < |entries| && SectionOf(entries[k]).Err?
    ensures CollectSections(entries).Err? ==>
      exists k :: 0 <= k < |entries| && SectionOf(entries[k]) == Err(CollectSections(entries).error)
        && forall j :: 0 <= j < k ==> SectionOf(entries[j]).Ok?
    decreases |entries|
  {
    if entries != [] {
      CollectFailsAtFirstBadEntry(entries[1..]);
      var tail := entries[1..];
      assert forall j :: 0 <= j < |tail| ==> tail[j] == entries[j + 1];
      if SectionOf(entries[0]).Err? {
        assert SectionOf(entries[0]) == Err(CollectSections(entries).error);
      } else if CollectSections(tail).Err? {
        var k :| 0 <= k < |tail| && SectionOf(tail[k]) == Err(CollectSections(tail).error)
          && forall j :: 0 <= j < k ==> SectionOf(tail[j]).Ok?;
        assert SectionOf(entries[k + 1]) == Err(CollectSections(entries).error);
        assert forall j :: 0 <= j < k + 1 ==> SectionOf(entries[j]).Ok? by {
          forall j | 0 <= j < k + 1
            ensures SectionOf(entries[j]).Ok?
          {
            if j > 0 {
              assert entries[j] == tail[j - 1];
            }
          }
        }
      } else {
        forall k | 0 <= k < |entries|
          ensures SectionOf(entries[k]).Ok?
        {
          if k > 0 {
            assert entries[k] == tail[k - 1];
          }
        }
      }
    }
  }

  // ---------------------------------------------------------------------------
  // Line 24: `sections.sort()`

  /** Insertion into a list sorted by number, after the entries with the same number. */
  function Insert(x: Section, r: seq<Section>): seq<Section>
    decreases |r|
  {
    if r == [] then [x]
    else if x.index < r[0].index then [x] + r
    else [r[0]] + Insert(x, r[1..])
  }

  /** The sorted `sections` list. Python compares `(idx, path)` pairs; the path of a
      collected section is a function of its number (`WellFormed`), so ordering by
      number alone gives the same list (`SortedUnique`). */
  function SortSections(s: seq<Section>): seq<Section>
    decreases |s|
  {
    if s == [] then [] else Insert(s[0], SortSections(s[1..]))
  }

  predicate SortedByIndex(r: seq<Section>)
  {
    forall a, b :: 0 <= a < b < |r| ==> r[a].index <= r[b].index
  }

  lemma {:induction false} InsertPerm(x: Section, r: seq<Section>)
    ensures multiset(Insert(x, r)) == multiset(r) + multiset{x}
    decreases |r|
  {
    if r != [] {
      assert r == [r[0]] + r[1..];
      if x.index >= r[0].index {
        InsertPerm(x, r[1..]);
      }
    }
  }

  lemma {:induction false} InsertSorted(x: Section, r: seq<Section>)
    requires SortedByIndex(r)
    ensures SortedByIndex(Insert(x, r))
    decreases |r|
  {
    if r != [] {
      var tail := r[1..];
      SortedTail(r);
      if x.index >= r[0].index {
        InsertSorted(x, tail);
        var ins := Insert(x, tail);
        InsertPerm(x, tail);
        forall y: Section | y in multiset(ins)
          ensures r[0].index <= y.index
        {
          if y != x {
            assert y in tail;
            Seqs.InTail(r, y);
            FirstIsLeast(r, y);
          }
        }
        ConsSorted(r[0], ins);
      } else {
        forall y: Section | y in multiset(r)
          ensures x.index <= y.index
        {
          assert y in r;
          FirstIsLeast(r, y);
        }
        ConsSorted(x, r);
      }
    }
  }

  lemma SortedTail(r: seq<Section>)
    requires r != [] && SortedByIndex(r)
    ensures SortedByIndex(r[1..])
  {
    var tail := r[1..];
    forall a, b | 0 <= a < b < |tail|
      ensures tail[a].index <= tail[b].index
    {
      assert tail[a] == r[a + 1] && tail[b] == r[b + 1];
    }
  }

  lemma WellFormedTail(r: seq<Section>)
    requires r != [] && WellFormed(r)
    ensures WellFormed(r[1..])
  {
    var tail := r[1..];
    forall k | 0 <= k < |tail|
      ensures tail[k].path == SectionPath(tail[k].index)
    {
      assert tail[k] == r[k + 1];
    }
  }

  /** The head of an ordered list has the least number. */
  lemma FirstIsLeast(r: seq<Section>, y: Section)
    requires SortedByIndex(r) && y in r
    ensures r[0].index <= y.index
  {
    var j :| 0 <= j < |r| && r[j] == y;
  }

  lemma ConsSorted(x: Section, r: seq<Section>)
    requires SortedByIndex(r)
    requires forall y :: y in multiset(r) ==> x.index <= y.index
    ensures SortedByIndex([x] + r)
  {
    var t := [x] + r;
    forall a, b | 0 <= a < b < |t|
      ensures t[a].index <= t[b].index
    {
      assert t[b] == r[b - 1];
      assert r[b - 1] in multiset(r);
      if a > 0 {
        assert t[a] == r[a - 1];
      }
    }
  }

  /** The sort orders by number and is a permutation. */
  lemma {:induction false} SortSectionsSorted(s: seq<Section>)
    ensures SortedByIndex(SortSections(s))
    ensures multiset(SortSections(s)) == multiset(s)
    decreases |s|
  {
    if s != [] {
      SortSectionsSorted(s[1..]);
      InsertSorted(s[0], SortSections(s[1..]));
      InsertPerm(s[0], SortSections(s[1..]));
      assert s == [s[0]] + s[1..];
    }
  }

  /** Two lists of well-formed sections, both ordered by number and holding the
      same sections, are the same list: ordering by number alone agrees with
      Python's ordering of `(idx, path)` pairs. */
  lemma {:induction false} SortedUnique(a: seq<Section>, b: seq<Section>)
    requires WellFormed(a) && WellFormed(b)
    requires SortedByIndex(a) && SortedByIndex(b)
    requires multiset(a) == multiset(b)
    ensures a == b
    decreases |a|
  {
    if a != [] {
      assert |b| == |multiset(b)| == |a|;
      SameHead(a, b);
      SortedTail(a);
      SortedTail(b);
      WellFormedTail(a);
      WellFormedTail(b);
      TailMultiset(a);
      TailMultiset(b);
      SortedUnique(a[1..], b[1..]);
      Seqs.ConsSuffix(a, 0);
      Seqs.ConsSuffix(b, 0);
    }
  }

  lemma TailMultiset(a: seq<Section>)
    requires a != []
    ensures multiset(a[1..]) == multiset(a) - multiset{a[0]}
  {
    assert a == [a[0]] + a[1..];
  }

  lemma SameHead(a: seq<Section>, b: seq<Section>)
    requires a != [] && b != []
    requires WellFormed(a) && WellFormed(b)
    requires SortedByIndex(a) && SortedByIndex(b)
    requires multiset(a) == multiset(b)
    ensures a[0] == b[0]
  {
    assert a[0] in multiset(b) && a[0] in b;
    assert b[0] in multiset(a) && b[0] in a;
    FirstIsLeast(b, a[0]);
    FirstIsLeast(a, b[0]);
  }

  // ---------------------------------------------------------------------------
  // Lines 27-45: the sections' records

  /** Line 29: the buffer the record loop walks. */
  function Inflated(raw: seq<byte>, path: string, compressed: bool, inflate: Inflate): Result<seq<byte>, HwpError>
  {
    if !compressed then Ok(raw)
    else
      match inflate(raw)
      case None => Err(InflateFailed(path))
      case Some(d) => Ok(d)
  }

  /** The lines one section contributes (lines 28-45). */
  function SectionLines(c: Container, path: string, compressed: bool, inflate: Inflate, lenient: Lenient)
    : Result<seq<string>, HwpError>
  {
    if path !in c.streams then Err(StreamMissing(path))
    else
      var data :- Inflated(c.streams[path], path, compressed, inflate);
      match WalkFrom(data, 0, lenient)
      case Ok(lines) => Ok(lines)
      case Err(o) => Err(TruncatedHeader(path, o))
  }

  /** `md_lines` after the sections loop: the sections' lines in order, or the
      first exception. */
  function SectionsText(c: Container, secs: seq<Section>, compressed: bool, inflate: Inflate, lenient: Lenient)
    : Result<seq<string>, HwpError>
    decreases |secs|
  {
    if secs == [] then Ok([])
    else
      var lines :- SectionLines(c, secs[0].path, compressed, inflate, lenient);
      Prefixed(lines, SectionsText(c, secs[1..], compressed, inflate, lenient))
  }

  lemma SectionsUnfold(c: Container, secs: seq<Section>, k: nat, compressed: bool, inflate: Inflate, lenient: Lenient)
    requires k < |secs|
    ensures SectionsText(c, secs[k..], compressed, inflate, lenient) ==
      match SectionLines(c, secs[k].path, compressed, inflate, lenient)
      case Err(e) => Err(e)
      case Ok(lines) => Prefixed(lines, SectionsText(c, secs[k + 1..], compressed, inflate, lenient))
  {
    Seqs.TailOfSuffix(secs, k);
  }

  /** Lines 28-45 for one stream. */
  method ReadSection(c: Container, path: string, compressed: bool, inflate: Inflate, lenient: Lenient)
    returns (r: Result<seq<string>, HwpError>)
    ensures r == SectionLines(c, path, compressed, inflate, lenient)
  {
    if path !in c.streams {
      return Err(StreamMissing(path));
    }
    var raw := c.streams[path];
    var data := raw;
    if compressed {
      var inflated := inflate(raw);
      if inflated.None? {
        return Err(InflateFailed(path));
      }
      data := inflated.value;
    }
    var lines := ReadRecords(data, lenient);
    if lines.Err? {
      return Err(TruncatedHeader(path, lines.error));
    }
    return Ok(lines.value);
  }

  // ---------------------------------------------------------------------------
  // The whole function

  /** The text handed to `convert_tables` (line 57), or the exception raised
      before it. */
  function Markdown(c: Container, inflate: Inflate, lenient: Lenient): Result<string, HwpError>
  {
    if FILE_HEADER !in c.streams || SUMMARY_INFO !in c.streams then Err(NotHwpFile)
    else
      var header := c.streams[FILE_HEADER];
      if |header| <= 36 then Err(FileHeaderTooShort)
      else
        var sections :- CollectSections(c.entries);
        var lines :- SectionsText(c, SortSections(sections), Compressed(header), inflate, lenient);
        Ok(HwpNormalize.Assemble(HwpNormalize.Collapse(lines)))
  }

  /** What `get_hwp_text` returns, or the exception it raises. */
  function Extracted(c: Container, inflate: Inflate, lenient: Lenient): Result<string, HwpError>
  {
    var md :- Markdown(c, inflate, lenient);
    Ok(HwpTables.ConvertTablesSpec(md))
  }

  method GetHwpText(c: Container, inflate: Inflate, lenient: Lenient) returns (r: Result<string, HwpError>)
    ensures r == Extracted(c, inflate, lenient)
  {
    if FILE_HEADER !in c.streams || SUMMARY_INFO !in c.streams {
      return Err(NotHwpFile);
    }
    var header := c.streams[FILE_HEADER];
    if |header| <= 36 {
      return Err(FileHeaderTooShort);
    }
    var isCompressed := header[36] % 2 == 1;
    var listed := ListSections(c.entries);
    if listed.Err? {
      return Err(listed.error);
    }
    var sections := SortSections(listed.value);
    ghost var total := SectionsText(c, sections, isCompressed, inflate, lenient);
    var mdLines: seq<string> := [];
    PrefixedNil(total);
    for k := 0 to |sections|
      invariant Prefixed(mdLines, SectionsText(c, sections[k..], isCompressed, inflate, lenient)) == total
    {
      var lines := ReadSection(c, sections[k].path, isCompressed, inflate, lenient);
      SectionsUnfold(c, sections, k, isCompressed, inflate, lenient);
      if lines.Err? {
        return Err(lines.error);
      }
      ghost var before := mdLines;
      mdLines := mdLines + lines.value;
      PrefixedAssoc(before, lines.value, SectionsText(c, sections[k + 1..], isCompressed, inflate, lenient));
    }
    Seqs.AppendNil(mdLines);
    Seqs.SliceToEnd(sections, |sections|);
    var cleaned := HwpNormalize.CollapseBlankLines(mdLines);
    var markdown := HwpNormalize.Assemble(cleaned);
    var out := HwpTables.ConvertTables(markdown);
    return Ok(out);
  }

  // ---------------------------------------------------------------------------
  // Properties

  /** Without `FileHeader` or `\x05HwpSummaryInformation` the file is rejected,
      whatever else it holds. */
  lemma MissingStreamRejected(c: Container, inflate: Inflate, lenient: Lenient)
    requires FILE_HEADER !in c.streams || SUMMARY_INFO !in c.streams
    ensures Extracted(c, inflate, lenient) == Err(NotHwpFile)
  {
  }

  /** No section path is the path of the file header. */
  lemma SectionPathNotHeader(idx: int)
    ensures SectionPath(idx) != FILE_HEADER
  {
    assert SectionPath(idx)[0] == 'B';
  }

  /** The sections' text does not depend on the `FileHeader` stream. */
  lemma {:induction false} SectionsIgnoreHeader(c: Container, h: seq<byte>, secs: seq<Section>,
                                                compressed: bool, inflate: Inflate, lenient: Lenient)
    requires WellFormed(secs)
    ensures SectionsText(c, secs, compressed, inflate, lenient) ==
      SectionsText(Container(c.entries, c.streams[FILE_HEADER := h]), secs, compressed, inflate, lenient)
    decreases |secs|
  {
    if secs != [] {
      SectionPathNotHeader(secs[0].index);
      var tail := secs[1..];
      assert WellFormed(tail) by {
        forall k | 0 <= k < |tail|
          ensures tail[k].path == SectionPath(tail[k].index)
        {
          assert tail[k] == secs[k + 1];
        }
      }
      SectionsIgnoreHeader(c, h, tail, compressed, inflate, lenient);
    }
  }

  /** Of the `FileHeader` stream only bit 0 of byte 36 matters (once the stream is
      long enough to have a byte 36). */
  lemma HeaderOnlyBit0(c: Container, h: seq<byte>, inflate: Inflate, lenient: Lenient)
    requires FILE_HEADER in c.streams && |c.streams[FILE_HEADER]| > 36
    requires |h| > 36 && h[36] % 2 == c.streams[FILE_HEADER][36] % 2
    ensures Extracted(c, inflate, lenient) == Extracted(Container(c.entries, c.streams[FILE_HEADER := h]), inflate, lenient)
  {
    var c2 := Container(c.entries, c.streams[FILE_HEADER := h]);
    assert SUMMARY_INFO != FILE_HEADER;
    var found := CollectSections(c.entries);
    if found.Ok? {
      CollectedWellFormed(c.entries);
      var sorted := SortSections(found.value);
      SortSectionsSorted(found.value);
      assert WellFormed(sorted) by {
        forall k | 0 <= k < |sorted|
          ensures sorted[k].path == SectionPath(sorted[k].index)
        {
          assert sorted[k] in multiset(found.value);
          var j :| 0 <= j < |found.value| && found.value[j] == sorted[k];
        }
      }
      SectionsIgnoreHeader(c, h, sorted, Compressed(c.streams[FILE_HEADER]), inflate, lenient);
      assert Compressed(c.streams[FILE_HEADER]) == Compressed(c2.streams[FILE_HEADER]);
    }
  }

  /** Every line the sections contribute is clean. */
  lemma {:induction false} SectionsTextClean(c: Container, secs: seq<Section>, compressed: bool, inflate: Inflate, lenient: Lenient)
    ensures SectionsText(c, secs, compressed, inflate, lenient).Ok? ==>
      forall l :: l in SectionsText(c, secs, compressed, inflate, lenient).value ==> IsCleanLine(l)
    decreases |secs|
  {
    if secs != [] {
      SectionsTextClean(c, secs[1..], compressed, inflate, lenient);
      var path := secs[0].path;
      if path in c.streams {
        var data := Inflated(c.streams[path], path, compressed, inflate);
        if data.Ok? {
          WalkLinesClean(data.value, 0, lenient);
        }
      }
      var head := SectionLines(c, path, compressed, inflate, lenient);
      var rest := SectionsText(c, secs[1..], compressed, inflate, lenient);
      if head.Ok? && rest.Ok? {
        assert forall l :: l in head.value + rest.value ==> l in head.value || l in rest.value;
      }
    }
  }

  /** The text `get_hwp_text` hands to `convert_tables` never holds a tab, so its
      tables are only ever found through runs of spaces. */
  lemma MarkdownNoTab(c: Container, inflate: Inflate, lenient: Lenient)
    ensures Markdown(c, inflate, lenient).Ok? ==> '\t' !in Markdown(c, inflate, lenient).value
  {
    if Markdown(c, inflate, lenient).Ok? {
      var header := c.streams[FILE_HEADER];
      var sections := CollectSections(c.entries).value;
      var secs := SortSections(sections);
      SectionsTextClean(c, secs, Compressed(header), inflate, lenient);
      HwpNormalize.AssembledNoTab(SectionsText(c, secs, Compressed(header), inflate, lenient).value);
    }
  }
}
