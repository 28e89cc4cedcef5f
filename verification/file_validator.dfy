/** The image upload rule shared by both services: an extension allow-list. */
module FileValidator {
  import opened Wrappers
  import opened Errors
  import opened Ascii

  /** The accepted image extensions, lower case. */
  const ImageExtensions: seq<string> := ["jpg", "jpeg", "png"]

  /** The default of the size argument, which the check never reads. */
  const DefaultMaxSizeMB: int := 20

  predicate NoDot(s: string) { forall k :: 0 <= k < |s| ==> s[k] != '.' }

  predicate EndsWith(s: string, suffix: string) {
    |suffix| <= |s| && s[|s| - |suffix|..] == suffix
  }

  /** A lower-cased name that is `e` itself, or ends in a dot followed by `e`. */
  predicate NamedWithExtension(low: string, e: string) {
    low == e || EndsWith(low, "." + e)
  }

  /** `filename.toLowerCase().split('.').pop()`: the lower-cased text after the last dot, or the
      whole lower-cased name when it has no dot. */
  function LastSegment(filename: string): (ext: string)
    ensures NoDot(ext)
    ensures NamedWithExtension(ToLower(filename), ext)
  {
    var low := ToLower(filename);
    var p := LastIndexOf(low, '.');
    AfterDotIsNamed(low, p);
    low[p + 1..]
  }

  /** What follows a dot at `p` (or the whole text, for `p == -1`) is what the text is named
      with. */
  lemma AfterDotIsNamed(low: string, p: int)
    requires -1 <= p < |low|
    requires p >= 0 ==> low[p] == '.'
    ensures NamedWithExtension(low, low[p + 1..])
  {
    var ext := low[p + 1..];
    if p >= 0 {
      assert low[|low| - |"." + ext|..] == [low[p]] + low[p + 1..];
    }
  }

  /** `validateImageFile(filename, maxSizeMB)`: passes when the last segment is an allowed
      extension, and fails with the invalid-type error otherwise (an empty segment included). */
  function ValidateImageFile(filename: string, maxSizeMB: int := DefaultMaxSizeMB): Outcome<Error> {
    var ext := LastSegment(filename);
    if |ext| == 0 || ext !in ImageExtensions then Fail(InvalidImageType) else Pass
  }

  /** The reference reading of the rule: the lower-cased name is `jpg`, `jpeg` or `png`, or ends
      in `.jpg`, `.jpeg` or `.png`. */
  predicate HasImageExtension(filename: string) {
    var low := ToLower(filename);
    NamedWithExtension(low, "jpg") || NamedWithExtension(low, "jpeg") || NamedWithExtension(low, "png")
  }

  /** When the name ends in a dot-free extension `e` (or is `e`), `e` is its last segment. */
  lemma LastSegmentOfNamed(filename: string, e: string)
    requires NoDot(e)
    requires NamedWithExtension(ToLower(filename), e)
    ensures LastSegment(filename) == e
  {
    NamedIsAfterLastDot(ToLower(filename), e);
  }

  /** A dot-free `e` that a text is, or ends with after a dot, is what follows its last dot. */
  lemma NamedIsAfterLastDot(low: string, e: string)
    requires NoDot(e)
    requires NamedWithExtension(low, e)
    ensures low[LastIndexOf(low, '.') + 1..] == e
  {
    if low == e {
      LastIndexOfIsLastOccurrence(low, '.', -1);
    } else {
      var q := |low| - |e| - 1;
      assert low[q..] == "." + e;
      assert low[q] == '.';
      forall k | q < k < |low|
        ensures low[k] != '.'
      {
        assert low[k] == low[q..][k - q] == e[k - q - 1];
      }
      LastIndexOfIsLastOccurrence(low, '.', q);
      assert low[q + 1..] == low[q..][1..];
    }
  }

  /** The check accepts exactly the names the reference reading accepts, whatever size limit is
      passed. */
  lemma ValidateImageFileSpec(filename: string, maxSizeMB: int)
    ensures ValidateImageFile(filename, maxSizeMB).Pass? <==> HasImageExtension(filename)
    ensures ValidateImageFile(filename, maxSizeMB).Fail? ==> ValidateImageFile(filename, maxSizeMB).error == InvalidImageType
  {
    if ValidateImageFile(filename, maxSizeMB).Pass? {
      AcceptedHasImageExtension(filename);
    }
    if HasImageExtension(filename) {
      ImageExtensionAccepted(filename);
    }
  }

  /** A name the check accepts has an image extension. */
  lemma AcceptedHasImageExtension(filename: string)
    requires ValidateImageFile(filename).Pass?
    ensures HasImageExtension(filename)
  {
    var ext := LastSegment(filename);
    assert ext == "jpg" || ext == "jpeg" || ext == "png";
  }

  /** A name with an image extension is accepted. */
  lemma ImageExtensionAccepted(filename: string)
    requires HasImageExtension(filename)
    ensures ValidateImageFile(filename).Pass?
  {
    var low := ToLower(filename);
    assert NoDot("jpg") && NoDot("jpeg") && NoDot("png");
    if NamedWithExtension(low, "jpg") {
      LastSegmentOfNamed(filename, "jpg");
    } else if NamedWithExtension(low, "jpeg") {
      LastSegmentOfNamed(filename, "jpeg");
    } else {
      LastSegmentOfNamed(filename, "png");
    }
  }

  /** The size argument has no effect on the outcome. */
  lemma MaxSizeIgnored(filename: string, m1: int, m2: int)
    ensures ValidateImageFile(filename, m1) == ValidateImageFile(filename, m2)
  {
  }

  /** The last segment of a name given with its lower-cased form `low`, which is `e` or ends in a
      dot followed by `e`. */
  lemma SegmentOfLiteral(name: string, low: string, e: string)
    requires |name| == |low| && forall k :: 0 <= k < |name| ==> LowerChar(name[k]) == low[k]
    requires NoDot(e) && NamedWithExtension(low, e)
    ensures LastSegment(name) == e
  {
    assert ToLower(name) == low;
    LastSegmentOfNamed(name, e);
  }

  /** Case does not matter: upper- and mixed-case extensions are accepted. */
  lemma UpperCaseAccepted()
    ensures ValidateImageFile("A.PNG").Pass?
  {
    SegmentOfLiteral("A.PNG", "a.png", "png");
  }

  lemma MixedCaseAccepted()
    ensures ValidateImageFile("b.JpEg").Pass?
  {
    SegmentOfLiteral("b.JpEg", "b.jpeg", "jpeg");
  }

  /** Only the last extension counts. */
  lemma InnerImageExtensionRejected()
    ensures ValidateImageFile("x.png.exe").Fail?
  {
    SegmentOfLiteral("x.png.exe", "x.png.exe", "exe");
  }

  lemma LastImageExtensionAccepted()
    ensures ValidateImageFile("x.exe.jpg").Pass?
  {
    SegmentOfLiteral("x.exe.jpg", "x.exe.jpg", "jpg");
  }

  /** A trailing dot leaves an empty extension, which is rejected. */
  lemma TrailingDotRejected()
    ensures ValidateImageFile("x.").Fail?
  {
    SegmentOfLiteral("x.", "x.", "");
  }

  /** A name without a dot is judged as a whole. */
  lemma BareExtensionAccepted()
    ensures ValidateImageFile("png").Pass?
  {
    SegmentOfLiteral("png", "png", "png");
  }

  lemma BareNameRejected()
    ensures ValidateImageFile("photo").Fail?
  {
    SegmentOfLiteral("photo", "photo", "photo");
    assert "photo" !in ImageExtensions by {
      assert |"photo"| == 5;
    }
  }
}
