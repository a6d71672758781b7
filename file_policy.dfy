/**
 * The upload allow-list: each role category admits a fixed set of file
 * extensions, and a separate check tells video files apart for display.
 */
module FilePolicy {

  import opened Text

  const PLANNER := "プランナー"
  const DESIGNER := "デザイナー"
  const PROGRAMMER := "プログラマー"

  const PLANNER_EXTENSIONS: set<string> := {"pdf", "txt", "doc", "docx"}
  const VIDEO_EXTENSIONS: set<string> := {"mp4", "webm", "mov"}
  /** The image extensions, to which the video set is added in place at start-up. */
  const DESIGNER_EXTENSIONS: set<string> := {"png", "jpg", "jpeg", "gif"} + VIDEO_EXTENSIONS
  /** A copy of the video set. */
  const PROGRAMMER_EXTENSIONS: set<string> := VIDEO_EXTENSIONS

  /** The three role names are different strings. */
  lemma CategoriesDistinct()
    ensures PLANNER != DESIGNER && PLANNER != PROGRAMMER && DESIGNER != PROGRAMMER
  {
    assert PLANNER[0] != DESIGNER[0];
    assert PLANNER[1] != PROGRAMMER[1];
    assert DESIGNER[0] != PROGRAMMER[0];
  }

  /** The extension set registered for a category; any other string gets none. */
  function AllowedExtensions(category: string): (r: set<string>)
    ensures category != PLANNER && category != DESIGNER && category != PROGRAMMER ==> r == {}
  {
    if category == PLANNER then PLANNER_EXTENSIONS
    else if category == DESIGNER then DESIGNER_EXTENSIONS
    else if category == PROGRAMMER then PROGRAMMER_EXTENSIONS
    else {}
  }

  /**
   * The text after the last '.' of a name that has one: the second half of
   * `rsplit('.', 1)`.
   */
  function LastDotSuffix(s: string): (r: string)
    requires '.' in s
    ensures |r| < |s|
    ensures r == s[|s| - |r|..]
    ensures s[|s| - |r| - 1] == '.'
    ensures '.' !in r
  {
    if s[|s| - 1] == '.' then [] else LastDotSuffix(s[..|s| - 1]) + [s[|s| - 1]]
  }

  /** Whatever comes before the last dot, the suffix is the text after it. */
  lemma {:induction false} LastDotSuffixOfSplit(p: string, r: string)
    requires '.' !in r
    ensures '.' in p + "." + r
    ensures LastDotSuffix(p + "." + r) == r
  {
    var s := p + "." + r;
    assert s[|p|] == '.';
    var q := LastDotSuffix(s);
    assert q == s[|s| - |r|..] == r;
  }

  /** The extension as compared against the allow-lists. */
  function Extension(filename: string): string
    requires '.' in filename
  {
    ToLowerAscii(LastDotSuffix(filename))
  }

  /** `allowed_file`: the name has a dot and its lower-cased last suffix is allow-listed. */
  predicate AllowedFile(filename: string, category: string)
  {
    '.' in filename && Extension(filename) in AllowedExtensions(category)
  }

  /** `is_video_file`: the same test against the video set, whatever the category. */
  predicate IsVideoFile(filename: string)
  {
    '.' in filename && Extension(filename) in VIDEO_EXTENSIONS
  }

  /** The acceptance rule, stated on the split at the last dot. */
  lemma AllowedFileIff(p: string, r: string, category: string)
    requires '.' !in r
    ensures AllowedFile(p + "." + r, category) <==> ToLowerAscii(r) in AllowedExtensions(category)
    ensures IsVideoFile(p + "." + r) <==> ToLowerAscii(r) in VIDEO_EXTENSIONS
  {
    LastDotSuffixOfSplit(p, r);
  }

  /** Only the text after the LAST dot matters: whatever precedes it, the verdict is the same. */
  lemma OnlyLastSuffixCounts(p: string, q: string, r: string, category: string)
    requires '.' !in r
    ensures AllowedFile(p + "." + r, category) <==> AllowedFile(q + "." + r, category)
  {
    AllowedFileIff(p, r, category);
    AllowedFileIff(q, r, category);
  }

  /** A name without a dot is refused for every category, and is never a video. */
  lemma NoDotRejected(filename: string, category: string)
    requires '.' !in filename
    ensures !AllowedFile(filename, category) && !IsVideoFile(filename)
  {
  }

  /** A name ending in '.' has an empty extension, which no allow-list holds. */
  lemma TrailingDotRejected(p: string, category: string)
    ensures !AllowedFile(p + ".", category) && !IsVideoFile(p + ".")
  {
    assert p + "." == p + "." + "";
    AllowedFileIff(p, "", category);
  }

  /** A category outside the three roles refuses every file. */
  lemma UnknownCategoryRejectsAll(filename: string, category: string)
    requires category != PLANNER && category != DESIGNER && category != PROGRAMMER
    ensures !AllowedFile(filename, category)
  {
  }

  /** The allow-lists, written out member by member. */
  lemma AllowListsExact()
    ensures AllowedExtensions(PLANNER) == {"pdf", "txt", "doc", "docx"}
    ensures AllowedExtensions(DESIGNER) == {"png", "jpg", "jpeg", "gif", "mp4", "webm", "mov"}
    ensures AllowedExtensions(PROGRAMMER) == {"mp4", "webm", "mov"}
  {
  }

  /** A video is accepted for designers and for programmers. */
  lemma VideoAllowedForDesignerAndProgrammer(filename: string)
    requires IsVideoFile(filename)
    ensures AllowedFile(filename, DESIGNER) && AllowedFile(filename, PROGRAMMER)
  {
  }

  /** For programmers the allow-list is exactly the video test. */
  lemma ProgrammerAllowsExactlyVideo(filename: string)
    ensures AllowedFile(filename, PROGRAMMER) <==> IsVideoFile(filename)
  {
  }

  /** No file a planner may upload is a video. */
  lemma PlannerFilesAreNotVideo(filename: string)
    requires AllowedFile(filename, PLANNER)
    ensures !IsVideoFile(filename)
  {
  }

  /** Upper-case extensions are compared lower-cased: "art.PNG" is an image. */
  lemma CaseInsensitiveExtension(p: string, r: string, category: string)
    requires '.' !in r
    ensures AllowedFile(p + "." + r, category) <==> AllowedFile(p + "." + ToLowerAscii(r), category)
  {
    AllowedFileIff(p, r, category);
    assert '.' !in ToLowerAscii(r) by {
      forall i | 0 <= i < |r| ensures ToLowerAscii(r)[i] != '.' {}
    }
    AllowedFileIff(p, ToLowerAscii(r), category);
    ToLowerAsciiIdempotent(r);
  }

  /** A designer may attach an image, which is not shown as a video. */
  lemma DesignerAcceptsImage(stem: string)
    ensures AllowedFile(stem + ".png", DESIGNER) && !IsVideoFile(stem + ".png")
  {
    assert '.' in stem + ".png" && Extension(stem + ".png") == "png" by {
      ExtensionOf(stem, "png");
      assert "." + "png" == ".png";
    }
    assert AllowedExtensions(DESIGNER) == DESIGNER_EXTENSIONS by { CategoriesDistinct(); }
  }

  /** A designer may attach a video, which is shown as one. */
  lemma DesignerAcceptsVideo(stem: string)
    ensures AllowedFile(stem + ".mp4", DESIGNER) && IsVideoFile(stem + ".mp4")
  {
    assert '.' in stem + ".mp4" && Extension(stem + ".mp4") == "mp4" by {
      ExtensionOf(stem, "mp4");
      assert "." + "mp4" == ".mp4";
    }
    assert AllowedExtensions(DESIGNER) == DESIGNER_EXTENSIONS by { CategoriesDistinct(); }
  }

  /** A document is accepted for a planner only. */
  lemma DocumentIsPlannerOnly(stem: string)
    ensures AllowedFile(stem + ".pdf", PLANNER)
    ensures !AllowedFile(stem + ".pdf", DESIGNER) && !AllowedFile(stem + ".pdf", PROGRAMMER)
  {
    assert '.' in stem + ".pdf" && Extension(stem + ".pdf") == "pdf" by {
      ExtensionOf(stem, "pdf");
      assert "." + "pdf" == ".pdf";
    }
    CategoriesDistinct();
    assert AllowedExtensions(DESIGNER) == DESIGNER_EXTENSIONS;
    assert AllowedExtensions(PROGRAMMER) == PROGRAMMER_EXTENSIONS;
  }

  /** The extension of `stem` + "." + `r`, for an `r` already in lower case. */
  lemma ExtensionOf(stem: string, r: string)
    requires '.' !in r && NoUpperAscii(r)
    ensures '.' in stem + ("." + r) && Extension(stem + ("." + r)) == r
  {
    assert stem + ("." + r) == stem + "." + r;
    LastDotSuffixOfSplit(stem, r);
    LowerOfLowerIsIdentity(r);
  }
}
