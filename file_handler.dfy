/** `FileHandler` (models/file_handler.py): which uploads are accepted, how an
    uploaded name is made safe for the file system, which files the two folders
    list, and where a converted document is saved. The folder listings are
    parameters: `os.listdir` is not part of this model. */
module FileHandling {
  import opened PyStr
  import opened Results
  import Seqs

  /** The characters `safe_filename` replaces (line 33). */
  const UNSAFE_CHARS: seq<char> := ['/', '\\', ':', '*', '?', '"', '<', '>', '|']

  /** What replaces them. */
  const REPLACEMENT: char := '_'

  // ---------------------------------------------------------------------------
  // Sanitising (lines 29-37)

  /** `s.replace(from, to)` for one character. */
  function Replace(s: string, from: char, to: char): (r: string)
    ensures |r| == |s|
    decreases |s|
  {
    if s == [] then []
    else [if s[0] == from then to else s[0]] + Replace(s[1..], from, to)
  }

  lemma {:induction false} ReplaceAt(s: string, from: char, to: char, i: nat)
    requires i < |s|
    ensures Replace(s, from, to)[i] == if s[i] == from then to else s[i]
    decreases |s|
  {
    if i > 0 {
      ReplaceAt(s[1..], from, to, i - 1);
    }
  }

  /** `s` after the replacements of the loop at lines 35-36 for `chars`, in order. */
  function ReplaceEach(s: string, chars: seq<char>): (r: string)
    ensures |r| == |s|
    decreases |chars|
  {
    if chars == [] then s
    else Replace(ReplaceEach(s, chars[..|chars| - 1]), chars[|chars| - 1], REPLACEMENT)
  }

  /** What `safe_filename` returns. */
  function SafeName(s: string): (r: string)
    ensures |r| == |s|
  {
    ReplaceEach(s, UNSAFE_CHARS)
  }

  /** The replacements act one character at a time: a character in `chars`
      becomes `_`, any other stays where it is. */
  lemma {:induction false} ReplaceEachAt(s: string, chars: seq<char>, i: nat)
    requires REPLACEMENT !in chars && i < |s|
    ensures ReplaceEach(s, chars)[i] == if s[i] in chars then REPLACEMENT else s[i]
    decreases |chars|
  {
    if chars != [] {
      var init := chars[..|chars| - 1];
      Seqs.InitIn(chars, REPLACEMENT);
      ReplaceEachAt(s, init, i);
      ReplaceAt(ReplaceEach(s, init), chars[|chars| - 1], REPLACEMENT, i);
      Seqs.InSnoc(chars, s[i]);
    }
  }

  /** Each unsafe character becomes `_`; every other character is unchanged in place. */
  lemma SafeNameAt(s: string, i: nat)
    requires i < |s|
    ensures SafeName(s)[i] == if s[i] in UNSAFE_CHARS then REPLACEMENT else s[i]
  {
    ReplaceEachAt(s, UNSAFE_CHARS, i);
  }

  /** No unsafe character is left. */
  lemma SafeNameClean(s: string)
    ensures forall i :: 0 <= i < |s| ==> SafeName(s)[i] !in UNSAFE_CHARS
  {
    forall i | 0 <= i < |s|
      ensures SafeName(s)[i] !in UNSAFE_CHARS
    {
      SafeNameAt(s, i);
    }
  }

  /** Sanitising a sanitised name changes nothing. */
  lemma SafeNameIdempotent(s: string)
    ensures SafeName(SafeName(s)) == SafeName(s)
  {
    var r := SafeName(s);
    forall i | 0 <= i < |r|
      ensures SafeName(r)[i] == r[i]
    {
      SafeNameAt(s, i);
      SafeNameAt(r, i);
    }
  }

  // ---------------------------------------------------------------------------
  // Listings (lines 39-53)

  /** The elements of `xs` that `keep` accepts, in order: a loop appending to a list. */
  function Filter<T>(xs: seq<T>, keep: T -> bool): seq<T>
    decreases |xs|
  {
    if xs == [] then []
    else Filter(xs[..|xs| - 1], keep) + (if keep(xs[|xs| - 1]) then [xs[|xs| - 1]] else [])
  }

  /** An element is kept exactly when it is listed and accepted. */
  lemma {:induction false} FilterIn<T>(xs: seq<T>, keep: T -> bool, x: T)
    ensures x in Filter(xs, keep) <==> x in xs && keep(x)
    decreases |xs|
  {
    if xs != [] {
      var init := xs[..|xs| - 1];
      FilterIn(init, keep, x);
      Seqs.InSnoc(xs, x);
    }
  }

  /** Filtering a listing in two parts filters each in turn: the order is kept. */
  lemma {:induction false} FilterAppend<T>(a: seq<T>, b: seq<T>, keep: T -> bool)
    ensures Filter(a + b, keep) == Filter(a, keep) + Filter(b, keep)
    decreases |b|
  {
    if b != [] {
      var last := b[|b| - 1];
      var init := b[..|b| - 1];
      assert (a + b)[..|a + b| - 1] == a + init;
      FilterAppend(a, init, keep);
      var tail := if keep(last) then [last] else [];
      Seqs.AppendAssoc(Filter(a, keep), Filter(init, keep), tail);
    } else {
      assert a + b == a;
    }
  }

  /** `name.endswith('.md')` (line 51). */
  predicate IsMarkdown(name: string)
  {
    EndsWith(name, ".md")
  }

  /** What `get_output_files` returns for the listing of the output folder. */
  function OutputFiles(listing: seq<string>): seq<string>
  {
    Filter(listing, IsMarkdown)
  }

  /** Lines 50-53. */
  method GetOutputFiles(listing: seq<string>) returns (files: seq<string>)
    ensures files == OutputFiles(listing)
  {
    files := [];
    for k := 0 to |listing|
      invariant files == Filter(listing[..k], IsMarkdown)
    {
      Seqs.PrefixInit(listing, k);
      if IsMarkdown(listing[k]) {
        files := files + [listing[k]];
      }
    }
    Seqs.WholePrefix(listing);
  }

  /** The output listing holds exactly the listed names that end in `.md`. */
  lemma OutputFilesIn(listing: seq<string>, name: string)
    ensures name in OutputFiles(listing) <==> name in listing && EndsWith(name, ".md")
  {
    FilterIn(listing, IsMarkdown, name);
  }

  /** The output listing keeps the order of the folder listing. */
  lemma OutputFilesOrder(a: seq<string>, b: seq<string>)
    ensures OutputFiles(a + b) == OutputFiles(a) + OutputFiles(b)
  {
    FilterAppend(a, b, IsMarkdown);
  }

  // ---------------------------------------------------------------------------
  // Paths (lines 71-73), for POSIX paths

  /** `os.path.basename(p)`: the text after the last `/`. */
  function Basename(p: string): (b: string)
    ensures '/' !in b
  {
    var k := RFind(p, '/');
    var b := p[k + 1..];
    assert '/' !in b by {
      forall j | 0 <= j < |b|
        ensures b[j] != '/'
      {
        RFindLast(p, '/', k + 1 + j);
      }
    }
    b
  }

  /** Some character of `p[from..to]` is not a dot. */
  predicate HasNonDot(p: string, from: nat, to: nat)
    requires from <= to <= |p|
  {
    exists i :: from <= i < to && p[i] != '.'
  }

  /** `os.path.splitext(p)`: the extension starts at the last dot after the last
      `/`, unless only dots precede it in the last component (a leading dot, as in
      `.bashrc`, starts no extension). */
  function SplitExt(p: string): (string, string)
  {
    var sep, dot := RFind(p, '/'), RFind(p, '.');
    if dot > sep && HasNonDot(p, sep + 1, dot) then (p[..dot], p[dot..]) else (p, "")
  }

  /** The name `save_markdown_content` gives the converted file (lines 71-72): a
      plain file name, with no folder in it, ending in `.md`. */
  function OutputName(originalFilename: string): (name: string)
    ensures '/' !in name && EndsWith(name, ".md")
  {
    var b := Basename(originalFilename);
    SplitExtParts(b);
    var root := SplitExt(b).0;
    assert root == b[..|root|];
    assert (root + ".md")[|root|..] == ".md";
    root + ".md"
  }

  /** `os.path.join(a, b)`: the path ends with `b`; a relative `b` is placed
      under `a`, an absolute one replaces it. */
  function PathJoin(a: string, b: string): (p: string)
    ensures EndsWith(p, b)
    ensures StartsWith(b, "/") ==> p == b
    ensures !StartsWith(b, "/") ==> StartsWith(p, a) && (a == [] || EndsWith(a, "/") || (|p| > |a| && p[|a|] == '/'))
  {
    if StartsWith(b, "/") then b
    else if a == [] || EndsWith(a, "/") then
      assert (a + b)[..|a|] == a && (a + b)[|a|..] == b;
      a + b
    else
      assert (a + "/" + b)[..|a|] == a && (a + "/" + b)[|a| + 1..] == b;
      a + "/" + b
  }

  /** The two parts of `splitext` make up the path again, and a non-empty
      extension is a dot followed by no further dot or `/`. */
  lemma SplitExtParts(p: string)
    ensures SplitExt(p).0 + SplitExt(p).1 == p
    ensures var e := SplitExt(p).1;
      e == [] || (e[0] == '.' && forall j :: 0 < j < |e| ==> e[j] != '.' && e[j] != '/')
  {
    var sep, dot := RFind(p, '/'), RFind(p, '.');
    if dot > sep && HasNonDot(p, sep + 1, dot) {
      var e := p[dot..];
      forall j | 0 < j < |e|
        ensures e[j] != '.' && e[j] != '/'
      {
        RFindLast(p, '.', dot + j);
        RFindLast(p, '/', dot + j);
      }
    }
  }

  /** A file `stem.ext` in any folder, whose stem is not only dots, is saved as
      `stem.md`. */
  lemma OutputNameOfFile(dir: string, stem: string, ext: string, k: nat)
    requires '/' !in stem && '/' !in ext && '.' !in ext
    requires k < |stem| && stem[k] != '.'
    ensures OutputName(dir + "/" + stem + "." + ext) == stem + ".md"
  {
    var p := dir + "/" + stem + "." + ext;
    assert p == (dir + "/" + stem) + ['.'] + ext;
    RFindAfter(dir + "/" + stem, '.', ext);
    assert p == dir + ['/'] + (stem + "." + ext);
    assert '/' !in stem + "." + ext;
    RFindAfter(dir, '/', stem + "." + ext);
    var b := Basename(p);
    assert b == stem + "." + ext;
    assert b == stem + ['.'] + ext;
    RFindAfter(stem, '.', ext);
    assert b[k] == stem[k];
    assert HasNonDot(b, 0, |stem|);
    assert b[..|stem|] == stem;
  }

  /** A name with no dot after its first character — `README` or `.bashrc` — has
      no extension: `.md` is appended to the whole name. */
  lemma OutputNameNoExt(name: string)
    requires '/' !in name
    requires forall j :: 0 < j < |name| ==> name[j] != '.'
    ensures OutputName(name) == name + ".md"
  {
    assert Basename(name) == name;
  }

  // ---------------------------------------------------------------------------
  // The handler

  /** What `save_markdown_content` writes: the file and the text. */
  datatype Write = Write(path: string, content: string)

  /** The returned path, and the file written, if any. */
  datatype Saved = Saved(path: string, written: Option<Write>)

  /** A `FileHandler`: its two folders and the allowed extensions (lines 8-11). */
  datatype FileHandler = FileHandler(inputFolder: string, outputFolder: string, allowedExtensions: set<string>)
  {
    /** Lines 17-27: the name has a dot, and the text after the last dot, in lower
        case, is an allowed extension. */
    predicate AllowedFile(filename: string)
    {
      if '.' !in filename then false
      else Lower(filename[RFind(filename, '.') + 1..]) in allowedExtensions
    }

    /** What `get_input_files` returns for the listing of the input folder. */
    function InputFiles(listing: seq<string>): seq<string>
    {
      Filter(listing, AllowedFile)
    }

    /** Lines 29-37. */
    method SafeFilename(filename: string) returns (safeName: string)
      ensures safeName == SafeName(filename)
    {
      safeName := filename;
      for k := 0 to |UNSAFE_CHARS|
        invariant safeName == ReplaceEach(filename, UNSAFE_CHARS[..k])
      {
        Seqs.PrefixInit(UNSAFE_CHARS, k);
        safeName := Replace(safeName, UNSAFE_CHARS[k], REPLACEMENT);
      }
      Seqs.WholePrefix(UNSAFE_CHARS);
    }

    /** Lines 41-45. */
    method GetInputFiles(listing: seq<string>) returns (files: seq<string>)
      ensures files == InputFiles(listing)
    {
      files := [];
      for k := 0 to |listing|
        invariant files == Filter(listing[..k], AllowedFile)
      {
        Seqs.PrefixInit(listing, k);
        if AllowedFile(listing[k]) {
          files := files + [listing[k]];
        }
      }
      Seqs.WholePrefix(listing);
    }

    /** Lines 69-91. Empty content writes nothing and returns "". Otherwise the
        text goes to the output folder under `OutputName`. The path is returned
        when the write succeeds (`writeOk`) and "" when it raises. */
    function SaveMarkdownContent(originalFilename: string, markdownContent: string, writeOk: bool): (r: Saved)
      ensures markdownContent == [] ==> r == Saved("", None)
      ensures markdownContent != [] && writeOk ==>
        r.written == Some(Write(r.path, markdownContent)) && r.path == PathJoin(outputFolder, OutputName(originalFilename))
      ensures markdownContent != [] && !writeOk ==> r == Saved("", None)
    {
      var outputPath := PathJoin(outputFolder, OutputName(originalFilename));
      if markdownContent == [] then Saved("", None)
      else if writeOk then Saved(outputPath, Some(Write(outputPath, markdownContent)))
      else Saved("", None)
    }
  }

  /** A name without a dot is rejected. */
  lemma NoDotRejected(h: FileHandler, filename: string)
    requires '.' !in filename
    ensures !h.AllowedFile(filename)
  {
  }

  /** A name `base.ext` whose `ext` has no dot is accepted exactly when `ext` in
      lower case is allowed; `base` may hold further dots. */
  lemma AllowedByLastExtension(h: FileHandler, base: string, ext: string)
    requires '.' !in ext
    ensures h.AllowedFile(base + "." + ext) <==> Lower(ext) in h.allowedExtensions
  {
    var name := base + "." + ext;
    assert name == base + ['.'] + ext;
    RFindAfter(base, '.', ext);
    assert name[|base|] == '.';
    assert name[|base| + 1..] == ext;
  }

  /** The input listing holds exactly the listed names that are allowed. */
  lemma InputFilesIn(h: FileHandler, listing: seq<string>, name: string)
    ensures name in h.InputFiles(listing) <==> name in listing && h.AllowedFile(name)
  {
    FilterIn(listing, h.AllowedFile, name);
  }

  /** The input listing keeps the order of the folder listing. */
  lemma InputFilesOrder(h: FileHandler, a: seq<string>, b: seq<string>)
    ensures h.InputFiles(a + b) == h.InputFiles(a) + h.InputFiles(b)
  {
    FilterAppend(a, b, h.AllowedFile);
  }
}
