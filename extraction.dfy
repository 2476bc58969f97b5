// Choosing a document format from the uploaded file name, and turning what
// the document libraries return into one text. The libraries themselves
// (UTF-8 decoding, the Word and PDF readers) are inputs here: each reading
// is either the library's output or the message of the error it raised.

module Extraction {
  import opened Wrappers
  import opened Text

  /** The error the HTTP layer reports: a status code and a detail message. */
  datatype HttpError = HttpError(status: nat, detail: string)

  /** The extensions `analyze_contract` accepts, in the order it lists them. */
  const AllowedExtensions: seq<string> := [".txt", ".docx", ".pdf"]

  /** The pieces of `s` between occurrences of `sep`, never empty, with
      empty pieces kept. `Path(...)` splits a file name at '/' this way
      before it drops the empty parts. */
  function SplitOn(s: string, sep: char): (parts: seq<string>)
    ensures |parts| > 0
  {
    if s == [] then [""]
    else
      var rest := SplitOn(s[1..], sep);
      if s[0] == sep then [""] + rest
      else [[s[0]] + rest[0]] + rest[1..]
  }

  /** The named components of a POSIX path: pathlib drops empty components
      (from repeated or trailing slashes) and "." components. */
  function Components(parts: seq<string>): (cs: seq<string>)
    ensures forall i :: 0 <= i < |cs| ==> cs[i] != "" && cs[i] != "."
  {
    if parts == [] then []
    else
      var rest := Components(parts[1..]);
      if parts[0] == "" || parts[0] == "." then rest else [parts[0]] + rest
  }

  /** `PurePosixPath(path).name`: the last named component, or "" when there
      is none. */
  function FileName(path: string): (name: string)
  {
    var cs := Components(SplitOn(path, '/'));
    if cs == [] then "" else cs[|cs| - 1]
  }

  /** `str.rfind(c)`: the index of the last `c` in `s`, or -1. */
  function RFind(s: string, c: char): (i: int)
    ensures -1 <= i < |s|
    ensures i >= 0 ==> s[i] == c && forall j :: i < j < |s| ==> s[j] != c
    ensures i == -1 ==> forall j :: 0 <= j < |s| ==> s[j] != c
  {
    if s == [] then -1
    else if s[|s| - 1] == c then |s| - 1
    else RFind(s[..|s| - 1], c)
  }

  /** `PurePath.suffix` for a file name: from the last dot on, provided that
      dot is neither the first nor the last character of the name. */
  function Suffix(name: string): (r: string)
    ensures r == "" || (
      && 2 <= |r| < |name|
      && r == name[|name| - |r|..]
      && r[0] == '.'
      && forall j :: 1 <= j < |r| ==> r[j] != '.')
  {
    var i := RFind(name, '.');
    if 0 < i < |name| - 1 then name[i..] else ""
  }

  /** The extension `analyze_contract` checks: the lower-cased suffix of
      the uploaded file name. */
  function Extension(filename: string): string
  {
    Lower(Suffix(FileName(filename)))
  }

  /** `sep.join(xs)`. */
  function JoinWith(sep: string, xs: seq<string>): string
  {
    if xs == [] then ""
    else if |xs| == 1 then xs[0]
    else xs[0] + sep + JoinWith(sep, xs[1..])
  }

  /** The detail of the 400 response for a file name outside the allow-list. */
  function UnsupportedFormatDetail(): (d: string)
    ensures d == "Unsupported file format. Allowed: .txt, .docx, .pdf"
  {
    "Unsupported file format. Allowed: " + JoinWith(", ", AllowedExtensions)
  }

  /** A suffix made of a dot and at least one more dot-free character comes
      back from a name that ends with it. */
  lemma {:induction false} SuffixOfStem(stem: string, ext: string)
    requires |stem| > 0 && |ext| >= 2 && ext[0] == '.'
    requires forall j :: 1 <= j < |ext| ==> ext[j] != '.'
    ensures Suffix(stem + ext) == ext
  {
    var name := stem + ext;
    RFindLast(stem, ext[1..], '.');
    assert name == (stem + ['.']) + ext[1..];
  }

  /** The last `c` of `a + [c] + b`, when `b` has none, is the one before `b`. */
  lemma {:induction false} RFindLast(a: string, b: string, c: char)
    requires forall j :: 0 <= j < |b| ==> b[j] != c
    ensures RFind(a + [c] + b, c) == |a|
    decreases |b|
  {
    if b != [] {
      var s := a + [c] + b;
      assert s[..|s| - 1] == a + [c] + b[..|b| - 1];
      RFindLast(a, b[..|b| - 1], c);
    }
  }

  /** Splitting a concatenation at a separator splits each side. */
  lemma {:induction false} SplitOnAround(a: string, b: string, sep: char)
    ensures SplitOn(a + [sep] + b, sep) == SplitOn(a, sep) + SplitOn(b, sep)
  {
    if a == [] {
      assert a + [sep] + b == [sep] + b;
      assert ([sep] + b)[1..] == b;
    } else {
      var s := a + [sep] + b;
      assert s[1..] == a[1..] + [sep] + b;
      SplitOnAround(a[1..], b, sep);
    }
  }

  /** A string without the separator is a single piece. */
  lemma {:induction false} SplitOnNone(s: string, sep: char)
    requires forall j :: 0 <= j < |s| ==> s[j] != sep
    ensures SplitOn(s, sep) == [s]
  {
    if s != [] {
      SplitOnNone(s[1..], sep);
      assert [s[0]] + s[1..] == s;
    }
  }

  lemma {:induction false} ComponentsAppend(a: seq<string>, b: seq<string>)
    ensures Components(a + b) == Components(a) + Components(b)
  {
    if a == [] {
      assert a + b == b;
    } else {
      assert (a + b)[1..] == a[1..] + b;
      ComponentsAppend(a[1..], b);
    }
  }

  /** The file an upload is saved as, `<dir>/<id><ext>`, has the name
      `<id><ext>`, whatever the directory is. */
  lemma SavedFileName(dir: string, id: string, ext: string)
    requires id + ext != "" && id + ext != "."
    requires forall j :: 0 <= j < |id + ext| ==> (id + ext)[j] != '/'
    ensures FileName(dir + "/" + (id + ext)) == id + ext
  {
    var b := id + ext;
    SplitOnAround(dir, b, '/');
    SplitOnNone(b, '/');
    ComponentsAppend(SplitOn(dir, '/'), [b]);
    assert dir + "/" + b == dir + ['/'] + b;
  }

  /** An upload whose extension passed the allow-list is saved under a
      name with that same extension, so extraction never meets an
      unsupported format. */
  lemma SavedPathExtension(dir: string, id: string, ext: string)
    requires ext in AllowedExtensions
    requires |id| > 0 && forall j :: 0 <= j < |id| ==> id[j] != '/' && id[j] != '.'
    ensures Extension(dir + "/" + (id + ext)) == ext
  {
    var b := id + ext;
    forall j | 0 <= j < |b| ensures b[j] != '/' {
      if j >= |id| { assert b[j] == ext[j - |id|]; }
    }
    assert b != "." by { assert b[0] == id[0]; }
    SavedFileName(dir, id, ext);
    AllowedExtensionsShape(ext);
    SuffixOfStem(id, ext);
    LowerFixedExtensions(ext);
  }

  lemma LowerFixedExtensions(ext: string)
    requires ext in AllowedExtensions
    ensures Lower(ext) == ext
  {
  }

  /** Each allowed extension is a dot followed by dot-free characters. */
  lemma AllowedExtensionsShape(ext: string)
    requires ext in AllowedExtensions
    ensures |ext| >= 2 && ext[0] == '.' && forall j :: 1 <= j < |ext| ==> ext[j] != '.'
  {
  }

  // ---------------------------------------------------------------------
  // Text mode: universal newlines.

  /** Reading a file in text mode turns "\r\n" and a lone "\r" into "\n". */
  function UniversalNewlines(s: string): (r: string)
    ensures |r| <= |s|
  {
    if s == [] then []
    else if s[0] == '\r' then
      "\n" + UniversalNewlines(if |s| > 1 && s[1] == '\n' then s[2..] else s[1..])
    else [s[0]] + UniversalNewlines(s[1..])
  }

  /** No carriage return survives the translation. */
  lemma {:induction false} UniversalNewlinesNoCR(s: string)
    ensures forall j :: 0 <= j < |UniversalNewlines(s)| ==> UniversalNewlines(s)[j] != '\r'
  {
    if s != [] {
      if s[0] == '\r' {
        UniversalNewlinesNoCR(if |s| > 1 && s[1] == '\n' then s[2..] else s[1..]);
      } else {
        UniversalNewlinesNoCR(s[1..]);
      }
    }
  }

  /** Text without carriage returns is read back unchanged. */
  lemma {:induction false} UniversalNewlinesIdentity(s: string)
    requires forall j :: 0 <= j < |s| ==> s[j] != '\r'
    ensures UniversalNewlines(s) == s
  {
    if s != [] {
      UniversalNewlinesIdentity(s[1..]);
      assert [s[0]] + s[1..] == s;
    }
  }

  // ---------------------------------------------------------------------
  // Word documents: paragraphs joined by "\n".

  /** `'\n'.join(paragraphs)`. */
  function JoinParagraphs(paragraphs: seq<string>): string
  {
    JoinWith("\n", paragraphs)
  }

  /** Splitting the joined text at "\n" gives every string back its pieces. */
  lemma {:induction false} JoinSplitLines(s: string)
    ensures JoinParagraphs(SplitOn(s, '\n')) == s
  {
    if s != [] {
      JoinSplitLines(s[1..]);
      var rest := SplitOn(s[1..], '\n');
      if s[0] == '\n' {
        assert [s[0]] + s[1..] == s;
      } else {
        var ps := SplitOn(s, '\n');
        JoinConsHead(s[0], rest);
        assert ps == [[s[0]] + rest[0]] + rest[1..];
        assert [s[0]] + s[1..] == s;
      }
    }
  }

  /** Putting a character in front of the first paragraph puts it in front
      of the join. */
  lemma JoinConsHead(c: char, ps: seq<string>)
    requires ps != []
    ensures JoinParagraphs([[c] + ps[0]] + ps[1..]) == [c] + JoinParagraphs(ps)
  {
    var qs := [[c] + ps[0]] + ps[1..];
    assert qs[1..] == ps[1..];
  }

  /** Paragraphs without a line break of their own come back from the
      joined text one by one. */
  lemma {:induction false} SplitJoinedParagraphs(paragraphs: seq<string>)
    requires paragraphs != []
    requires forall i, j :: 0 <= i < |paragraphs| && 0 <= j < |paragraphs[i]| ==> paragraphs[i][j] != '\n'
    ensures SplitOn(JoinParagraphs(paragraphs), '\n') == paragraphs
  {
    var p := paragraphs[0];
    assert forall j :: 0 <= j < |p| ==> p[j] != '\n' by {
      forall j | 0 <= j < |p| ensures p[j] != '\n' {
        assert paragraphs[0][j] == p[j];
      }
    }
    SplitOnNone(p, '\n');
    if |paragraphs| > 1 {
      var rest := paragraphs[1..];
      assert forall i, j :: 0 <= i < |rest| && 0 <= j < |rest[i]| ==> rest[i][j] != '\n' by {
        forall i, j | 0 <= i < |rest| && 0 <= j < |rest[i]| ensures rest[i][j] != '\n' {
          assert rest[i] == paragraphs[i + 1];
        }
      }
      SplitJoinedParagraphs(rest);
      SplitOnAround(p, JoinParagraphs(rest), '\n');
      assert p + "\n" + JoinParagraphs(rest) == p + ['\n'] + JoinParagraphs(rest);
      assert [p] + rest == paragraphs;
    }
  }

  // ---------------------------------------------------------------------
  // PDF documents: page texts concatenated with no separator.

  /** A phrase split across a page boundary is found in the extracted text. */
  lemma PhraseAcrossPages(pages: seq<string>, i: nat, x: string, y: string)
    requires i + 1 < |pages| && |x| <= |pages[i]| && |y| <= |pages[i + 1]|
    requires pages[i][|pages[i]| - |x|..] == x && pages[i + 1][..|y|] == y
    ensures Contains(Concat(pages), x + y)
  {
    var head, tail := pages[..i + 2], pages[i + 2..];
    assert pages == head + tail;
    ConcatAppend(head, tail);
    assert head[..i + 1][..i] == pages[..i] && head[..i + 1] == pages[..i + 1];
    var pre := Concat(pages[..i]);
    assert Concat(head) == pre + pages[i] + pages[i + 1];
    var s := Concat(pages);
    var start := |pre| + |pages[i]| - |x|;
    assert s[start..start + |x + y|] == x + y;
    assert MatchesAt(s, x + y, start);
  }

  /** The PDF branch: `text += page.extract_text()` for each page in turn. */
  method ExtractPdfText(pages: seq<string>) returns (text: string)
    ensures text == Concat(pages)
  {
    text := "";
    for i := 0 to |pages|
      invariant text == Concat(pages[..i])
    {
      ConcatStep(pages, i);
      text := text + pages[i];
    }
    assert pages[..|pages|] == pages;
  }

  // ---------------------------------------------------------------------
  // `extract_text_from_file`.

  /** What the libraries hand back for the saved file: the decoded UTF-8
      text, the paragraph texts of a Word document, the text of each PDF
      page, each or the message of the error raised. */
  datatype Readings = Readings(
    utf8: Result<string, string>,
    paragraphs: Result<seq<string>, string>,
    pages: Result<seq<string>, string>)

  /** Every failure inside extraction, the library's or the unknown
      format's, becomes a 400 with the message appended. */
  function ExtractionFailed(message: string): (e: HttpError)
    ensures e.status == 400
  {
    HttpError(400, "Failed to extract text: " + message)
  }

  /** The text of the saved file, chosen by its lower-cased extension. */
  function ExtractText(ext: string, readings: Readings): (r: Result<string, HttpError>)
    ensures r.Err? ==> r.error.status == 400
    ensures ext !in AllowedExtensions ==> r == Err(ExtractionFailed("Unsupported file format: " + ext))
  {
    if ext == ".txt" then
      match readings.utf8
      case Ok(s) => Ok(UniversalNewlines(s))
      case Err(m) => Err(ExtractionFailed(m))
    else if ext == ".docx" then
      match readings.paragraphs
      case Ok(ps) => Ok(JoinParagraphs(ps))
      case Err(m) => Err(ExtractionFailed(m))
    else if ext == ".pdf" then
      match readings.pages
      case Ok(ps) => Ok(Concat(ps))
      case Err(m) => Err(ExtractionFailed(m))
    else Err(ExtractionFailed("Unsupported file format: " + ext))
  }

  /** `extract_text_from_file`, with the PDF pages gathered by the loop. */
  method ExtractTextFromFile(ext: string, readings: Readings) returns (r: Result<string, HttpError>)
    ensures r == ExtractText(ext, readings)
  {
    if ext == ".txt" {
      match readings.utf8
      case Ok(s) => r := Ok(UniversalNewlines(s));
      case Err(m) => r := Err(ExtractionFailed(m));
    } else if ext == ".docx" {
      match readings.paragraphs
      case Ok(ps) => r := Ok(JoinParagraphs(ps));
      case Err(m) => r := Err(ExtractionFailed(m));
    } else if ext == ".pdf" {
      match readings.pages
      case Ok(ps) =>
        var text := ExtractPdfText(ps);
        r := Ok(text);
      case Err(m) => r := Err(ExtractionFailed(m));
    } else {
      r := Err(ExtractionFailed("Unsupported file format: " + ext));
    }
  }

  /** Only the reading for the file's own format matters. */
  lemma ExtractionUsesOwnReading(ext: string, r1: Readings, r2: Readings)
    requires ext == ".txt" ==> r1.utf8 == r2.utf8
    requires ext == ".docx" ==> r1.paragraphs == r2.paragraphs
    requires ext == ".pdf" ==> r1.pages == r2.pages
    ensures ExtractText(ext, r1) == ExtractText(ext, r2)
  {
  }
}
