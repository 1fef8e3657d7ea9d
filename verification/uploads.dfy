/** The photo filename check of the admission server (app.py): a file is
    accepted when the text after its last dot, lower-cased, is one of the
    image extensions. */
module Uploads {
  import opened Wrappers
  import opened Text

  /** ALLOWED_EXTENSIONS. */
  const AllowedExtensions: set<string> := {"png", "jpg", "jpeg", "gif"}

  /** The position of the last `c` in `s`, if there is one. */
  function LastIndexOf(s: string, c: char): (r: Option<nat>)
    ensures r.None? <==> c !in s
    ensures r.Some? ==> r.value < |s| && s[r.value] == c && c !in s[r.value + 1..]
  {
    if s == [] then None
    else if s[|s| - 1] == c then Some(|s| - 1)
    else
      assert s == s[..|s| - 1] + [s[|s| - 1]];
      LastIndexOf(s[..|s| - 1], c)
  }

  /** `filename.rsplit('.', 1)[1]`: the text after the last dot. */
  function Extension(filename: string): string
    requires '.' in filename
  {
    filename[LastIndexOf(filename, '.').value + 1..]
  }

  /** `allowed_file`. */
  predicate AllowedFile(filename: string) {
    '.' in filename && ToLower(Extension(filename)) in AllowedExtensions
  }

  // ---------------------------------------------------------------------
  // Lemmas
  // ---------------------------------------------------------------------

  /** A name of the form `stem.ext` where `ext` has no dot is split at that
      dot, whatever dots `stem` holds. */
  lemma ExtensionOfSplit(stem: string, ext: string)
    requires '.' !in ext
    ensures '.' in stem + "." + ext
    ensures Extension(stem + "." + ext) == ext
  {
    var f := stem + "." + ext;
    assert f[|stem|] == '.';
    assert f[|stem| + 1..] == ext;
  }

  /** The check looks only at the text after the last dot, ignoring case. */
  lemma AllowedFileByExtension(stem: string, ext: string)
    requires '.' !in ext
    ensures AllowedFile(stem + "." + ext) <==> ToLower(ext) in AllowedExtensions
  {
    ExtensionOfSplit(stem, ext);
  }

  /** Conversely, every accepted name is some stem, a dot, and an allowed
      extension without a dot. */
  lemma AllowedFileHasExtension(filename: string)
    requires AllowedFile(filename)
    ensures exists stem, ext :: filename == stem + "." + ext && '.' !in ext &&
                                ToLower(ext) in AllowedExtensions
  {
    var i := LastIndexOf(filename, '.').value;
    var stem, ext := filename[..i], filename[i + 1..];
    assert filename == stem + "." + ext;
  }

  /** A name without a dot is refused. */
  lemma NoDotRefused(filename: string)
    requires '.' !in filename
    ensures !AllowedFile(filename)
  {
  }

  /** A name ending in a dot has an empty extension and is refused. */
  lemma EmptyExtensionRefused(stem: string)
    ensures !AllowedFile(stem + ".")
  {
    assert stem + "." == stem + "." + "";
    AllowedFileByExtension(stem, "");
  }

  /** Only the last extension counts, and its case does not matter. */
  lemma DoubleExtensionAccepted()
    ensures AllowedFile("a.tar.PNG")
  {
    assert "a.tar.PNG" == "a.tar" + "." + "PNG";
    AllowedFileByExtension("a.tar", "PNG");
    assert ToLower("PNG") == "png";
  }

  /** An allowed word before the last dot does not make the name allowed. */
  lemma ExtensionBeforeLastDotRefused()
    ensures !AllowedFile("png.exe")
  {
    assert "png.exe" == "png" + "." + "exe";
    AllowedFileByExtension("png", "exe");
    assert ToLower("exe") == "exe";
  }
}
