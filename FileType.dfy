/**
  The format classifier of src/utils/fileType.ts: a file name's extension
  (case-insensitive) selects one of four formats, and each format has three
  capability flags.
*/
module FileType {
  import opened JsString

  datatype FileType = Markdown | Rtf | Pdf | Word

  /**
    `filename.toLowerCase().split('.').pop() || ''`: the lower-cased text after
    the last '.', or the whole lower-cased name when it has no '.'.
  */
  function Extension(filename: string): (ext: string)
    ensures '.' !in ext
    ensures EndsWith(ToLower(filename), ext)
    ensures |ext| < |filename| ==> ToLower(filename)[|filename| - |ext| - 1] == '.'
  {
    var lower := ToLower(filename);
    var pieces := Split(lower, '.');
    SplitLastPiece(lower, '.');
    SplitPiecesLackSeparator(lower, '.');
    var last := pieces[|pieces| - 1];
    assert '.' !in last;
    assert |lower| == |filename|;
    last
  }

  /** `detectFileType`: unknown extensions, and names with an empty extension, are Markdown. */
  function DetectFileType(filename: string): (t: FileType)
    ensures t == Pdf <==> Extension(filename) == "pdf"
    ensures t == Word <==> Extension(filename) in {"doc", "docx"}
    ensures t == Rtf <==> Extension(filename) == "rtf"
    ensures t == Markdown <==> Extension(filename) !in {"pdf", "doc", "docx", "rtf"}
  {
    var ext := Extension(filename);
    if ext == "md" || ext == "markdown" then Markdown
    else if ext == "pdf" then Pdf
    else if ext == "doc" || ext == "docx" then Word
    else if ext == "rtf" then Rtf
    else Markdown
  }

  /** `isEditable`: every format but the two binary ones. */
  predicate IsEditable(t: FileType)
    ensures IsEditable(t) <==> t != Pdf && t != Word
  {
    t == Markdown || t == Rtf
  }

  /** `hasPreview`: the same formats as `isEditable`. */
  function HasPreview(t: FileType): (b: bool)
    ensures b == IsEditable(t)
  {
    t == Markdown || t == Rtf
  }

  /** `isBinary`: exactly the formats that are not editable. */
  function IsBinary(t: FileType): (b: bool)
    ensures b == !IsEditable(t)
    ensures b <==> t == Pdf || t == Word
  {
    t == Pdf || t == Word
  }

  /** The format depends on the lower-cased name only: "x.MD" and "x.md" are both Markdown. */
  lemma DetectIgnoresCase(filename: string)
    ensures DetectFileType(ToLower(filename)) == DetectFileType(filename)
  {
    ExtensionIgnoresCase(filename);
  }

  /** The extension is read from the lower-cased name, which lower-casing again leaves alone. */
  lemma ExtensionIgnoresCase(filename: string)
    ensures Extension(ToLower(filename)) == Extension(filename)
  {
    var lower := ToLower(filename);
    ToLowerIdempotent(filename);
    assert ToLower(lower) == lower;
  }

  /** A name without a '.' is its own extension, so "pdf" is a PDF. */
  lemma NoDotIsWholeName(filename: string)
    requires '.' !in filename
    ensures Extension(filename) == ToLower(filename)
  {
    ToLowerKeepsDots(filename);
    SplitWithoutSeparator(ToLower(filename), '.');
  }

  /** A name ending in '.' has the empty extension and so is Markdown. */
  lemma TrailingDotIsMarkdown(stem: string)
    ensures Extension(stem + ".") == ""
    ensures DetectFileType(stem + ".") == Markdown
  {
    var name := stem + ".";
    assert ToLower(name)[|name| - 1] == '.';
  }

  /** A dot-free suffix that follows a dot (or is everything) of `p + "." + q`, with `q` dot-free, is `q`. */
  lemma UniqueDotFreeSuffix(p: string, q: string, e: string)
    requires '.' !in q && '.' !in e
    requires EndsWith(p + "." + q, e)
    requires |e| < |p + "." + q| ==> (p + "." + q)[|p + "." + q| - |e| - 1] == '.'
    ensures e == q
  {
    var s := p + "." + q;
    if |e| < |q| {
      assert false;
    } else if |e| > |q| {
      SuffixHolds(s, e, |s| - |q| - 1);
      assert false;
    }
    assert s[|s| - |q|..] == q;
  }

  /** A character in the part of a string that a suffix covers is a character of the suffix. */
  lemma SuffixHolds(s: string, suffix: string, k: int)
    requires EndsWith(s, suffix) && |s| - |suffix| <= k < |s|
    ensures s[k] in suffix
  {
    assert s[k] == suffix[k - (|s| - |suffix|)];
  }

  /** The extension is what follows the last dot: "Report.Final.DOCX" is Word. */
  lemma ExtensionAfterLastDot(stem: string, ext: string)
    requires '.' !in ext
    ensures Extension(stem + "." + ext) == ToLower(ext)
  {
    var name := stem + "." + ext;
    var p, q, e := ToLower(stem), ToLower(ext), Extension(name);
    ToLowerKeepsDots(ext);
    ToLowerConcat(stem, ".");
    ToLowerConcat(stem + ".", ext);
    assert ToLower(".") == ".";
    var lower := ToLower(name);
    assert lower == p + "." + q;
    assert EndsWith(lower, e) && '.' !in e && '.' !in q;
    assert |e| < |lower| ==> lower[|lower| - |e| - 1] == '.';
    UniqueDotFreeSuffix(p, q, e);
  }

  /** A dot-free `e` that the lower-cased name ends with, right after a dot, is the extension. */
  lemma LowerSuffixIsExtension(name: string, e: string)
    requires '.' !in e
    requires EndsWith(ToLower(name), ['.'] + e)
    ensures Extension(name) == e
  {
    var lower := ToLower(name);
    var n, m := |name|, |e|;
    var stem, ext := name[..n - m - 1], name[n - m..];
    assert lower[n - m - 1..] == ['.'] + e;
    assert lower[n - m - 1] == '.';
    assert name == stem + "." + ext by {
      assert name == name[..n - m - 1] + [name[n - m - 1]] + name[n - m..];
    }
    assert ToLower(ext) == e by {
      assert lower[n - m..] == e;
    }
    assert '.' !in ext by {
      forall k | 0 <= k < m
        ensures ext[k] != '.'
      {
        assert ToLower(ext)[k] == e[k];
      }
    }
    ExtensionAfterLastDot(stem, ext);
  }

  /** A name ending in ".md", such as the welcome document's "Welcome.md", is Markdown. */
  lemma MdSuffixIsMarkdown(name: string)
    requires EndsWith(name, ".md")
    ensures Extension(name) == "md" && DetectFileType(name) == Markdown
  {
    var stem := name[..|name| - 3];
    assert name[|name| - 3..] == ".md";
    assert name == stem + "." + "md" by {
      assert name == stem + name[|name| - 3..];
      assert ".md" == "." + "md";
    }
    ExtensionAfterLastDot(stem, "md");
    assert ToLower("md") == "md" by {
      assert ToLower("md")[0] == 'm' && ToLower("md")[1] == 'd';
    }
  }
}
