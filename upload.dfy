/** `allowed_file`: the extension whitelist applied to uploaded file names. */
module Upload {
  import opened Text

  /** The extensions accepted, in lower case, in the order the source lists them. */
  const AllowedExtensions: seq<string> := ["wav", "mp3", "m4a", "flac", "mp4", "wma", "aac"]

  /** `allowed_file(filename)`: the name contains a dot, and the text after its
      last dot, lowered, is one of the allowed extensions. */
  function AllowedFile(filename: string): (ok: bool)
    ensures ok ==> '.' in filename
  {
    '.' in filename && Lower(RSplitOnce(filename, '.')[1]) in AllowedExtensions
  }

  /** Only the text after the last dot decides, and it decides alone. */
  lemma {:induction false} AllowedFileByExtension(stem: string, ext: string)
    requires '.' !in ext
    ensures AllowedFile(stem + "." + ext) <==> Lower(ext) in AllowedExtensions
  {
    RSplitOnceUnique(stem, '.', ext);
  }

  /** A name without a dot is refused. */
  lemma NoDotRefused(filename: string)
    requires '.' !in filename
    ensures !AllowedFile(filename)
  {
  }

  /** A name ending in a dot has an empty extension and is refused. */
  lemma {:induction false} TrailingDotRefused(stem: string)
    ensures !AllowedFile(stem + ".")
  {
    assert stem + "." == stem + "." + "";
    AllowedFileByExtension(stem, "");
  }

  /** Two names that differ only in letter case are treated alike. */
  lemma AllowedFileIgnoresCase(f: string, g: string)
    requires Lower(f) == Lower(g)
    ensures AllowedFile(f) == AllowedFile(g)
  {
    if '.' in f {
      IgnoresCaseAtDot(f, g, LastIndexOf(f, '.'));
    } else {
      NoDotIgnoresCase(f, g);
    }
  }

  /** With the last dot of `f` at `k`, the extensions of `f` and `g` lower alike. */
  lemma IgnoresCaseAtDot(f: string, g: string, k: int)
    requires Lower(f) == Lower(g)
    requires 0 <= k < |f| && f[k] == '.' && '.' !in f[k + 1..]
    ensures AllowedFile(f) == AllowedFile(g)
  {
    SameDots(f, g, k);
    LowerSlice(f, k + 1);
    LowerSlice(g, k + 1);
    AllowedAtLastDot(f, k);
    AllowedAtLastDot(g, k);
  }

  /** `AllowedFileByExtension` for a name split at its last dot. */
  lemma AllowedAtLastDot(f: string, k: int)
    requires 0 <= k < |f| && f[k] == '.' && '.' !in f[k + 1..]
    ensures AllowedFile(f) <==> Lower(f[k + 1..]) in AllowedExtensions
  {
    assert f == f[..k] + "." + f[k + 1..];
    AllowedFileByExtension(f[..k], f[k + 1..]);
  }

  /** Lowering neither adds nor removes dots. */
  lemma NoDotIgnoresCase(f: string, g: string)
    requires Lower(f) == Lower(g) && '.' !in f
    ensures '.' !in g
  {
    if '.' in g {
      var j :| 0 <= j < |g| && g[j] == '.';
      LowerKeepsDots(f, j);
      LowerKeepsDots(g, j);
    }
  }

  /** When `f` and `g` lower to the same text, the last dot of `f` is the last dot of `g`. */
  lemma SameDots(f: string, g: string, k: int)
    requires Lower(f) == Lower(g)
    requires 0 <= k < |f| && f[k] == '.' && '.' !in f[k + 1..]
    ensures g[k] == '.' && '.' !in g[k + 1..]
  {
    LowerKeepsDots(f, k);
    LowerKeepsDots(g, k);
    forall j | k + 1 <= j < |g|
      ensures g[j] != '.'
    {
      LowerKeepsDots(f, j);
      LowerKeepsDots(g, j);
      assert f[k + 1..][j - k - 1] == f[j];
    }
  }

  /** `AllowedFileByExtension` for a name given whole, with its extension lowered. */
  lemma AllowedFileSplitAt(f: string, stem: string, ext: string, lowered: string)
    requires f == stem + "." + ext && '.' !in ext && Lower(ext) == lowered
    ensures AllowedFile(f) <==> lowered in AllowedExtensions
  {
    AllowedFileByExtension(stem, ext);
  }

  /** Every allowed extension starts with `w`, `m`, `f` or `a`. */
  lemma RefusedByFirstLetter(ext: string)
    requires |ext| >= 1 && ext[0] !in "wmfa"
    ensures ext !in AllowedExtensions
  {
  }

  /** The source's tests: an audio file name is accepted ... */
  lemma WavAccepted(f: string)
    requires f == "/path/to/file.wav"
    ensures AllowedFile(f)
  {
    AllowedFileSplitAt(f, "/path/to/file", "wav", "wav");
  }

  /** ... and a document name is refused. */
  lemma PdfRefused(f: string)
    requires f == "/path/to/file.pdf"
    ensures !AllowedFile(f)
  {
    AllowedFileSplitAt(f, "/path/to/file", "pdf", "pdf");
    RefusedByFirstLetter("pdf");
  }

  /** Only the last dot counts, and case does not. */
  lemma UpperCaseLastExtensionAccepted(f: string)
    requires f == "a.pdf.WAV"
    ensures AllowedFile(f)
  {
    AllowedFileSplitAt(f, "a.pdf", "WAV", "wav");
  }

  lemma InnerExtensionIgnored(f: string)
    requires f == "a.wav.pdf"
    ensures !AllowedFile(f)
  {
    AllowedFileSplitAt(f, "a.wav", "pdf", "pdf");
    RefusedByFirstLetter("pdf");
  }

  /** A dot in a directory name does not make an extension. */
  lemma DottedDirectoryRefused(f: string)
    requires f == "/path.d/file"
    ensures !AllowedFile(f)
  {
    AllowedFileSplitAt(f, "/path", "d/file", "d/file");
    RefusedByFirstLetter("d/file");
  }
}
