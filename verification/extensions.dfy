/**
 The upload allow-list of the face-comparison web service: a filename is
 accepted when the text after its last '.', lower-cased, is one of the
 image extensions png, jpg, jpeg or gif.
 */
module Extensions {
  import opened Strings

  /** The fixed allow-set of lower-case extensions. */
  const AllowedExtensions: set<string> := {"png", "jpg", "jpeg", "gif"}

  /** `allowed_file`: the name holds a '.', and the lower-cased text after
      the last '.' is an allowed extension. A name without '.' is rejected
      before any split happens, and every accepted name is at least as long
      as ".png". */
  function AllowedFile(filename: string): (ok: bool)
    ensures ok ==> '.' in filename
    ensures ok ==> |filename| >= 4
  {
    '.' in filename && Lower(RSplitOnce(filename, '.')[1]) in AllowedExtensions
  }

  /** Reference reading of the allow-list, free of any split: some '.' of
      the name is followed by dot-free text whose lower-case form is an
      allowed extension. */
  ghost predicate EndsInAllowedExtension(filename: string) {
    exists i :: 0 <= i < |filename| && filename[i] == '.'
      && '.' !in filename[i + 1..] && Lower(filename[i + 1..]) in AllowedExtensions
  }

  /** AllowedFile and the reference reading agree on every name. */
  lemma {:induction false} AllowedFileMeansAllowedExtension(filename: string)
    ensures AllowedFile(filename) <==> EndsInAllowedExtension(filename)
  {
    if AllowedFile(filename) {
      var i := LastIndexOf(filename, '.').value;
      assert RSplitOnce(filename, '.')[1] == filename[i + 1..];
      assert filename[i] == '.';
    }
    if EndsInAllowedExtension(filename) {
      var i :| 0 <= i < |filename| && filename[i] == '.'
        && '.' !in filename[i + 1..] && Lower(filename[i + 1..]) in AllowedExtensions;
      LastIndexOfUnique(filename, '.', i);
    }
  }

  /** The extension is exactly the text after the last '.': for a dot-free
      `ext`, the name `head + "." + ext` is accepted precisely when `ext`
      lower-cases into the allow-set, whatever `head` holds (dots included,
      or nothing at all). */
  lemma {:induction false} ExtensionIsTextAfterLastDot(head: string, ext: string)
    requires '.' !in ext
    ensures AllowedFile(head + "." + ext) <==> Lower(ext) in AllowedExtensions
  {
    RSplitOnceOfJoin(head, '.', ext);
  }

  /** Once the last '.' is known, the verdict is about the text after it. */
  lemma AllowedFileAtLastDot(filename: string, i: nat)
    requires LastIndexOf(filename, '.') == Some(i)
    ensures AllowedFile(filename) <==> Lower(filename[i + 1..]) in AllowedExtensions
  {
    assert RSplitOnce(filename, '.') == [filename[..i], filename[i + 1..]];
  }

  /** Names with the same lower-case form have their last '.' at the same place. */
  lemma SameLowerSameLastDot(a: string, b: string)
    requires Lower(a) == Lower(b)
    ensures LastIndexOf(a, '.') == LastIndexOf(b, '.')
  {
    LastDotIgnoresCase(a);
    LastDotIgnoresCase(b);
  }

  /** Names with the same lower-case form have suffixes with the same lower-case form. */
  lemma SameLowerSameSuffix(a: string, b: string, k: nat)
    requires Lower(a) == Lower(b) && k <= |a|
    ensures Lower(a[k..]) == Lower(b[k..])
  {
    LowerSuffix(a, k);
    LowerSuffix(b, k);
  }

  /** The verdict depends only on the lower-case form of the name. */
  lemma AllowedFileIgnoresCase(a: string, b: string)
    requires Lower(a) == Lower(b)
    ensures AllowedFile(a) <==> AllowedFile(b)
  {
    SameLowerSameLastDot(a, b);
    match LastIndexOf(a, '.')
    case None =>
    case Some(i) =>
      SameLowerSameSuffix(a, b, i + 1);
      AllowedFileAtLastDot(a, i);
      AllowedFileAtLastDot(b, i);
  }

  /** The allow-set, entry by entry: it holds these four and nothing else. */
  lemma AllowedExtensionsListed(e: string)
    ensures e in AllowedExtensions <==> e == "png" || e == "jpg" || e == "jpeg" || e == "gif"
  {
  }

  /** Each allow-set entry is its own lower-case form and holds no '.' */
  lemma AllowedExtensionIsLowerCase(e: string)
    requires e in AllowedExtensions
    ensures Lower(e) == e && '.' !in e
  {
    AllowedExtensionsListed(e);
    LowerSamples();
    assert '.' !in "png" && '.' !in "jpg" && '.' !in "jpeg" && '.' !in "gif";
  }

  /** Every entry of the allow-set can be matched: whatever the stem,
      `stem + "." + e` is accepted. */
  lemma AllowedExtensionReachable(stem: string, e: string)
    requires e in AllowedExtensions
    ensures AllowedFile(stem + "." + e)
  {
    AllowedExtensionIsLowerCase(e);
    ExtensionIsTextAfterLastDot(stem, e);
  }

  /** Lower-case forms of a few extensions. */
  lemma LowerSamples()
    ensures Lower("png") == "png" && Lower("jpg") == "jpg" && Lower("JPG") == "jpg"
    ensures Lower("jpeg") == "jpeg" && Lower("gif") == "gif"
    ensures Lower("txt") == "txt" && Lower("bmp") == "bmp"
  {
  }

  /** Three extensions outside the allow-set. */
  lemma DisallowedSamples()
    ensures "txt" !in AllowedExtensions && "bmp" !in AllowedExtensions && "" !in AllowedExtensions
  {
    assert "txt"[0] == 't' && "bmp"[0] == 'b';
  }

  // The worked cases write each name as stem, ".", and extension, the
  // extension kept as a literal of its own, so that ExtensionIsTextAfterLastDot
  // applies to it directly.

  /** Worked cases over any stem, dots included or empty: "a.tar.png" and
      ".png" are accepted, and so is "A.JPG" since capitals are ignored. */
  lemma ImageSuffixesAccepted(stem: string)
    ensures AllowedFile(stem + "." + "png")
    ensures AllowedFile(stem + "." + "jpg")
    ensures AllowedFile(stem + "." + "JPG")
  {
    LowerSamples();
    ExtensionIsTextAfterLastDot(stem, "png");
    ExtensionIsTextAfterLastDot(stem, "jpg");
    ExtensionIsTextAfterLastDot(stem, "JPG");
  }

  /** Worked cases over any stem: an allowed extension followed by another
      one does not count ("x.png.txt"), an empty suffix is rejected
      ("photo.png."), and so is a bitmap. */
  lemma OtherSuffixesRejected(stem: string)
    ensures !AllowedFile(stem + "." + "txt")
    ensures !AllowedFile(stem + "." + "")
    ensures !AllowedFile(stem + "." + "bmp")
  {
    LowerSamples();
    DisallowedSamples();
    ExtensionIsTextAfterLastDot(stem, "txt");
    ExtensionIsTextAfterLastDot(stem, "");
    ExtensionIsTextAfterLastDot(stem, "bmp");
  }
}
