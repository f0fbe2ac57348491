/**
 * `middleware/upload.js`: the multer configuration for company photos. The
 * file filter accepts a file when both its lower-cased extension and its
 * mimetype match `/jpeg|jpg|png|webp/`; accepted files are stored as the
 * upload time followed by the original extension; files above 10 MB are
 * refused. `path.extname` is modelled for POSIX paths.
 */
module Upload {
  import opened Wrappers
  import opened Strings

  /** `limits.fileSize`: 10 MB. */
  const MaxFileSize: nat := 10 * 1024 * 1024

  const OnlyImages := "Only image files are allowed"

  /** The message multer gives a file over the size limit. */
  const FileTooLarge := "File too large"

  /** The alternatives of `/jpeg|jpg|png|webp/`. */
  const AllowedTypes: seq<string> := ["jpeg", "jpg", "png", "webp"]

  /** `/jpeg|jpg|png|webp/.test(s)`: the pattern has no anchors and no flags,
      so it holds when some alternative occurs anywhere in `s`, in that case. */
  predicate MatchesAllowedTypes(s: string) {
    Contains(s, "jpeg") || Contains(s, "jpg") || Contains(s, "png") || Contains(s, "webp")
  }

  /** The test is unanchored: whatever surrounds an alternative, it passes. */
  lemma AlternativeAnywhereMatches(pre: string, t: string, post: string)
    requires t in AllowedTypes
    ensures MatchesAllowedTypes(pre + t + post)
  {
    ContainsEmbedded(pre, t, post);
  }

  /** The test is case-sensitive: a string without lower-case ASCII letters
      (such as `IMAGE/JPEG`) never passes. */
  lemma NoLowerCaseNeverMatches(s: string)
    requires forall i :: 0 <= i < |s| ==> !('a' <= s[i] <= 'z')
    ensures !MatchesAllowedTypes(s)
  {
    NotContainsWithoutFirstChar(s, "jpeg");
    NotContainsWithoutFirstChar(s, "jpg");
    NotContainsWithoutFirstChar(s, "png");
    NotContainsWithoutFirstChar(s, "webp");
  }

  /** The path without its trailing slashes. */
  function StripTrailingSlashes(p: string): (r: string)
    ensures |r| <= |p| && r == p[..|r|]
    ensures r == [] || r[|r| - 1] != '/'
  {
    if p != [] && p[|p| - 1] == '/' then StripTrailingSlashes(p[..|p| - 1]) else p
  }

  /** What follows the last slash. */
  function LastSegment(p: string): (r: string)
    ensures |r| <= |p| && r == p[|p| - |r|..]
    ensures '/' !in r
  {
    if p == [] || p[|p| - 1] == '/' then [] else LastSegment(p[..|p| - 1]) + [p[|p| - 1]]
  }

  /** The index of the last occurrence of `c` in `s`. */
  function LastIndexOf(s: string, c: char): (r: Option<nat>)
    ensures r.Some? ==> r.value < |s| && s[r.value] == c && forall j :: r.value < j < |s| ==> s[j] != c
    ensures r.None? ==> c !in s
  {
    if s == [] then None
    else if s[|s| - 1] == c then Some(|s| - 1)
    else LastIndexOf(s[..|s| - 1], c)
  }

  /** The extension of one path segment: from its last dot to its end, or
      nothing when it has no dot after its first character (`photo`, `.png`)
      or is `..`. */
  function SegmentExt(base: string): (r: string)
    ensures r == [] || (r[0] == '.' && '.' !in r[1..])
    ensures r != [] ==> |r| < |base| && r == base[|base| - |r|..]
    ensures r == [] <==> base == ".." || forall i :: 0 < i < |base| ==> base[i] != '.'
  {
    match LastIndexOf(base, '.')
    case None => ""
    case Some(i) =>
      if i == 0 || base == ".." then ""
      else
        assert base[i..][1..] == base[i + 1..];
        assert base[i] == '.';
        base[i..]
  }

  /** `path.extname`: the extension of the last path segment, trailing slashes aside. */
  function ExtName(p: string): (r: string)
    ensures r == [] || (r[0] == '.' && '.' !in r[1..] && '/' !in r)
  {
    var base := LastSegment(StripTrailingSlashes(p));
    var r := SegmentExt(base);
    assert forall c :: c in r ==> c in base;
    r
  }

  /** The extension is the tail of the last path segment, trailing slashes
      aside; it is empty exactly when that segment is `..` or has no dot after
      its first character. */
  lemma ExtNameOfPath(p: string)
    ensures var base := LastSegment(StripTrailingSlashes(p));
            ExtName(p) != [] ==> |ExtName(p)| < |base| && ExtName(p) == base[|base| - |ExtName(p)|..]
    ensures var base := LastSegment(StripTrailingSlashes(p));
            ExtName(p) == [] <==> base == ".." || forall i :: 0 < i < |base| ==> base[i] != '.'
  {
    var base := LastSegment(StripTrailingSlashes(p));
    assert ExtName(p) == SegmentExt(base);
  }

  /** A plain file name `stem.ext` has the extension `.ext`. */
  lemma ExtNameOfFileName(stem: string, ext: string)
    requires stem != [] && ext != []
    requires '/' !in stem && '/' !in ext && '.' !in ext
    ensures ExtName(stem + "." + ext) == "." + ext
  {
    var p := stem + "." + ext;
    NoSlashInFileName(stem, ext);
    assert StripTrailingSlashes(p) == p by {
      assert p[|p| - 1] == ext[|ext| - 1];
    }
    LastSegmentWithoutSlash(p);
    assert ExtName(p) == SegmentExt(p);
    LastIndexOfBeforeSuffix(stem, '.', ext);
    assert |p| >= 3 && p != "..";
    assert SegmentExt(p) == p[|stem|..];
    assert p[|stem|..] == "." + ext;
  }

  lemma NoSlashInFileName(stem: string, ext: string)
    requires '/' !in stem && '/' !in ext
    ensures '/' !in stem + "." + ext
  {
    var p := stem + "." + ext;
    forall i | 0 <= i < |p|
      ensures p[i] != '/'
    {
      if i < |stem| {
        assert p[i] == stem[i];
      } else if i > |stem| {
        assert p[i] == ext[i - |stem| - 1];
      }
    }
  }

  /** The last `c` of `s + [c] + t` is the one before `t` when `t` has none. */
  lemma {:induction false} LastIndexOfBeforeSuffix(s: string, c: char, t: string)
    requires c !in t
    ensures LastIndexOf(s + [c] + t, c) == Some(|s|)
    decreases |t|
  {
    var p := s + [c] + t;
    if t == [] {
      assert p[|p| - 1] == c;
    } else {
      var t' := t[..|t| - 1];
      assert p[|p| - 1] == t[|t| - 1] != c;
      assert p[..|p| - 1] == s + [c] + t';
      assert c !in t';
      LastIndexOfBeforeSuffix(s, c, t');
    }
  }

  lemma {:induction false} LastSegmentWithoutSlash(p: string)
    requires '/' !in p
    ensures LastSegment(p) == p
  {
    if p != [] {
      assert '/' !in p[..|p| - 1];
      LastSegmentWithoutSlash(p[..|p| - 1]);
    }
  }

  /** What multer's `fileFilter` callback receives: an error, and whether to keep the file. */
  datatype FilterVerdict = FilterVerdict(error: Option<string>, accept: bool)

  /** `fileFilter`: both the lower-cased extension and the mimetype must pass the test. */
  function FileFilter(originalname: string, mimetype: string): (v: FilterVerdict)
    ensures v.accept <==> MatchesAllowedTypes(ToLowerAscii(ExtName(originalname))) && MatchesAllowedTypes(mimetype)
    ensures v.accept ==> v.error == None
    ensures !v.accept ==> v.error == Some(OnlyImages)
  {
    var ext := MatchesAllowedTypes(ToLowerAscii(ExtName(originalname)));
    var mime := MatchesAllowedTypes(mimetype);
    if ext && mime then FilterVerdict(None, true) else FilterVerdict(Some(OnlyImages), false)
  }

  /** The extension is lower-cased before the test: a file named `stem.EXT`
      passes whenever `EXT` is an allowed type in any mix of cases and the
      mimetype passes. */
  lemma ExtensionTestIgnoresCase(stem: string, ext: string, mimetype: string)
    requires stem != [] && ext != []
    requires '/' !in stem && '/' !in ext && '.' !in ext
    requires ToLowerAscii(ext) in AllowedTypes
    requires MatchesAllowedTypes(mimetype)
    ensures FileFilter(stem + "." + ext, mimetype) == FilterVerdict(None, true)
  {
    ExtNameOfFileName(stem, ext);
    assert ToLowerAscii("." + ext) == "." + ToLowerAscii(ext);
    AlternativeAnywhereMatches(".", ToLowerAscii(ext), "");
    assert "." + ToLowerAscii(ext) + "" == "." + ToLowerAscii(ext);
  }

  /** The mimetype is tested as sent: one without lower-case letters, such as
      `IMAGE/PNG`, is refused whatever the file name. */
  lemma UpperCaseMimetypeRejected(originalname: string, mimetype: string)
    requires forall i :: 0 <= i < |mimetype| ==> !('a' <= mimetype[i] <= 'z')
    ensures FileFilter(originalname, mimetype) == FilterVerdict(Some(OnlyImages), false)
  {
    NoLowerCaseNeverMatches(mimetype);
  }

  /** `filename`: `Date.now()` in decimal followed by the original extension. */
  function StoredFileName(now: nat, originalname: string): string {
    NatToString(now) + ExtName(originalname)
  }

  /** Reads a stored file name back into its timestamp and its extension. */
  function ParseStoredFileName(f: string): (nat, string) {
    var digits := LeadingDigits(f);
    (DigitsValue(digits), f[|digits|..])
  }

  /** The stored name keeps both the upload time and the original extension. */
  lemma StoredFileNameRoundTrip(now: nat, originalname: string)
    ensures ParseStoredFileName(StoredFileName(now, originalname)) == (now, ExtName(originalname))
  {
    var digits, ext := NatToString(now), ExtName(originalname);
    LeadingDigitsOfConcat(digits, ext);
    assert (digits + ext)[|digits|..] == ext;
  }

  /** What happens to an uploaded file: stored under a name, or refused with a message. */
  datatype UploadOutcome = Stored(filename: string) | Rejected(message: string)

  /** The filter runs first; a file it accepts is then refused if it is larger
      than the limit, and stored otherwise. */
  function UploadFile(originalname: string, mimetype: string, size: nat, now: nat): (r: UploadOutcome)
    ensures r.Stored? <==> FileFilter(originalname, mimetype).accept && size <= MaxFileSize
    ensures r.Stored? ==> r.filename == StoredFileName(now, originalname)
    ensures r == Rejected(OnlyImages) <==> !FileFilter(originalname, mimetype).accept
    ensures FileFilter(originalname, mimetype).accept && size > MaxFileSize ==> r == Rejected(FileTooLarge)
  {
    var verdict := FileFilter(originalname, mimetype);
    if !verdict.accept then Rejected(verdict.error.value)
    else if size > MaxFileSize then Rejected(FileTooLarge)
    else Stored(StoredFileName(now, originalname))
  }
}
