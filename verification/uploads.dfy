/** Upload validation: which uploaded file names the board accepts as images. */
module Uploads {
  import opened Opt
  import opened Text

  /** The image extensions the board accepts, lower case. */
  const AllowedExtensions: set<string> := {"png", "jpg", "jpeg", "gif"}

  /** `filename.rsplit('.', 1)[1]`: the text after the last dot, when there
      is a dot. Splitting and joining back with the dot gives the name again. */
  function Extension(filename: string): (ext: Option<string>)
    ensures ext.None? <==> '.' !in filename
    ensures ext.Some? ==>
      && '.' !in ext.value
      && |ext.value| < |filename|
      && filename == filename[..|filename| - |ext.value| - 1] + "." + ext.value
  {
    match LastIndexOf(filename, '.')
    case None => None
    case Some(i) =>
      assert filename == filename[..i] + "." + filename[i + 1..];
      Some(filename[i + 1..])
  }

  /** `allowed_file`: the name has a dot and its extension, lower-cased, is
      one of the allowed ones. */
  predicate AllowedFile(filename: string): (ok: bool)
    ensures ok ==> '.' in filename && |filename| >= 4
  {
    match Extension(filename)
    case None => false
    case Some(ext) => Lower(ext) in AllowedExtensions
  }

  /** An upload is kept when its name is non-empty and allowed. */
  predicate Kept(filename: string): (kept: bool)
    ensures kept <==> AllowedFile(filename)
  {
    filename != "" && AllowedFile(filename)
  }

  lemma LowerIsDot(s: string, i: nat)
    requires i < |s|
    ensures |Lower(s)| == |s| && (Lower(s)[i] == '.' <==> s[i] == '.')
  {
  }

  lemma LowerSlice(s: string, i: nat)
    requires i <= |s|
    ensures Lower(s)[i..] == Lower(s[i..])
  {
  }

  lemma LowerIdempotent(s: string)
    ensures Lower(Lower(s)) == Lower(s)
  {
  }

  /** `allowed_file(f)` holds exactly when some dot of `f` is its last dot and
      the text after it, lower-cased, is an allowed extension. */
  lemma AllowedFileIff(f: string)
    ensures AllowedFile(f) <==>
      exists i :: 0 <= i < |f| && f[i] == '.' && '.' !in f[i + 1..] && Lower(f[i + 1..]) in AllowedExtensions
  {
    var li := LastIndexOf(f, '.');
    if li.Some? {
      assert f[li.value + 1..] == f[|f| - (|f| - li.value - 1)..];
      forall i | 0 <= i < |f| && f[i] == '.' && '.' !in f[i + 1..]
        ensures i == li.value
      {
        if i < li.value {
          assert false;
        } else if i > li.value {
          assert false;
        }
      }
    }
  }

  lemma {:induction false} LastDotOfLower(s: string)
    ensures LastIndexOf(Lower(s), '.') == LastIndexOf(s, '.')
  {
    if s != [] {
      var n := |s| - 1;
      assert Lower(s)[..n] == Lower(s[..n]);
      LastDotOfLower(s[..n]);
    }
  }

  /** The check ignores case: a name and its lower-cased form are accepted
      or rejected together. */
  lemma AllowedFileIgnoresCase(f: string)
    ensures AllowedFile(Lower(f)) == AllowedFile(f)
  {
    LastDotOfLower(f);
    match LastIndexOf(f, '.')
    case None =>
    case Some(i) =>
      LowerSlice(f, i + 1);
      LowerIdempotent(f[i + 1..]);
  }

  /** Any stem followed by a dot and an allowed extension, in any case, is
      accepted, whatever dots the stem holds. */
  lemma AllowedFileWithExtension(stem: string, ext: string)
    requires Lower(ext) in AllowedExtensions
    ensures AllowedFile(stem + "." + ext)
  {
    var f := stem + "." + ext;
    assert '.' !in ext by {
      forall j | 0 <= j < |ext| ensures ext[j] != '.' {
        LowerIsDot(ext, j);
      }
    }
    assert f[|stem|] == '.';
    assert f[|stem| + 1..] == ext;
    AllowedFileIff(f);
  }

  lemma LowerOfLiteral(s: string, t: string)
    requires |s| == |t| == 3
    requires LowerChar(s[0]) == t[0] && LowerChar(s[1]) == t[1] && LowerChar(s[2]) == t[2]
    ensures Lower(s) == t
  {
  }

  /** An upper-case extension is accepted. */
  lemma AcceptsUpperCase()
    ensures AllowedFile("x.PNG")
  {
    LowerOfLiteral("PNG", "png");
    AllowedFileWithExtension("x", "PNG");
  }

  /** A name without a dot is rejected, even when it spells an extension. */
  lemma RejectsNoDot()
    ensures !AllowedFile("png")
  {
    assert LastIndexOf("png", '.') == None;
  }

  /** A name ending in a dot has an empty extension and is rejected. */
  lemma RejectsEmptyExtension()
    ensures !AllowedFile("x.")
  {
    assert LastIndexOf("x.", '.') == Some(1);
  }

  /** An allowed extension that is not the last one does not count. */
  lemma RejectsInnerExtension()
    ensures !AllowedFile("image.png.exe")
  {
    assert LastIndexOf("image.png.exe", '.') == Some(9);
    assert "image.png.exe"[10..] == "exe";
    LowerOfLiteral("exe", "exe");
  }
}
