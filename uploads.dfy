/**
 * Image uploads on the server: the extension allow-list (`allowed_file`) and the
 * `image_path` a post stores for an uploaded file.
 */
module Uploads {
  import opened Common
  import opened Text

  /** `ALLOWED_EXTENSIONS`. */
  const AllowedExtensions: set<string> := {"png", "jpg", "jpeg", "gif"}

  /** Position of the last occurrence of `c` in `s`, if any. */
  function LastIndexOf(s: string, c: char): (r: Option<nat>)
    ensures r.None? <==> c !in s
    ensures r.Some? ==> r.value < |s| && s[r.value] == c && c !in s[r.value + 1..]
  {
    if s == [] then None
    else if s[|s| - 1] == c then Some(|s| - 1)
    else
      var r := LastIndexOf(s[..|s| - 1], c);
      assert s == s[..|s| - 1] + [s[|s| - 1]];
      r
  }

  /** `filename.rsplit('.', 1)[1]`: the text after the last dot, when there is a dot. */
  function Extension(filename: string): Option<string> {
    match LastIndexOf(filename, '.')
    case None => None
    case Some(i) => Some(filename[i + 1..])
  }

  /**
   * `allowed_file`: the name has a dot and the text after its LAST dot, lower-cased,
   * is one of the allowed extensions.
   */
  predicate AllowedFile(filename: string)
  {
    '.' in filename && AsciiLower(Extension(filename).value) in AllowedExtensions
  }

  /** A dot with no dot after it is the last dot, so the extension is what follows it. */
  lemma ExtensionAt(filename: string, i: nat)
    requires i < |filename| && filename[i] == '.' && '.' !in filename[i + 1..]
    ensures Extension(filename) == Some(filename[i + 1..])
  {
  }

  /** The same rule, stated over positions in the name rather than by computing. */
  lemma AllowedFileMeaning(filename: string)
    ensures AllowedFile(filename) <==>
      exists i :: 0 <= i < |filename| && filename[i] == '.' && '.' !in filename[i + 1..]
                  && AsciiLower(filename[i + 1..]) in AllowedExtensions
  {
    forall i | 0 <= i < |filename| && filename[i] == '.' && '.' !in filename[i + 1..]
      ensures Extension(filename) == Some(filename[i + 1..])
    {
      ExtensionAt(filename, i);
    }
  }

  /** An upper-case extension passes. */
  lemma AllowedFileAcceptsUpperCase()
    ensures AllowedFile("x.PNG")
  {
    ExtensionAt("x.PNG", 1);
    assert AsciiLower("PNG") == "png";
  }

  /** A name without a dot does not pass, even when it is an extension. */
  lemma AllowedFileRefusesBareExtension()
    ensures !AllowedFile("png")
  {
    assert "png"[0] != '.' && "png"[1] != '.' && "png"[2] != '.';
  }

  /** A trailing dot leaves an empty extension, which does not pass. */
  lemma AllowedFileRefusesTrailingDot()
    ensures !AllowedFile("a.")
  {
    ExtensionAt("a.", 1);
  }

  /** Only the text after the last dot counts: an allowed extension before it does not help. */
  lemma AllowedFileRefusesInnerExtension()
    ensures !AllowedFile("pic.png.exe")
  {
    ExtensionAt("pic.png.exe", 7);
    assert AsciiLower("exe") == "exe";
  }

  /**
   * The `image_path` recorded for an upload: `upload` is the filename of the form's
   * `image` part (None when the part is absent; an empty name when no file was chosen).
   * Only an allowed file is kept, saved as `uploads/` + the clock stamp + the
   * sanitised name.
   */
  function StoredImagePath(upload: Option<string>, stamp: string, sanitize: string -> string): (r: Option<string>)
    ensures r.Some? <==> upload.Some? && AllowedFile(upload.value)
    ensures r.Some? ==> r.value == "uploads/" + stamp + sanitize(upload.value)
  {
    if upload.Some? && upload.value != "" && AllowedFile(upload.value)
    then Some("uploads/" + stamp + sanitize(upload.value))
    else None
  }

  /**
   * The `image_path` an edit stores: a newly uploaded allowed file replaces the
   * existing path; otherwise the existing path, or its absence, is kept.
   */
  function EditedImagePath(existing: Option<string>, upload: Option<string>, stamp: string,
                           sanitize: string -> string): (r: Option<string>)
    ensures !(upload.Some? && AllowedFile(upload.value)) ==> r == existing
    ensures upload.Some? && AllowedFile(upload.value) ==> r == Some("uploads/" + stamp + sanitize(upload.value))
  {
    match StoredImagePath(upload, stamp, sanitize)
    case Some(path) => Some(path)
    case None => existing
  }
}
