/** File-type classification by name. The two application versions differ:
    the Beta version looks the lower-cased `os.path.splitext` extension up in
    eight sets, the root version tests `endswith` on the whole lower-cased
    name against five suffix groups. */
module FileType {
  import opened Text

  datatype Category = Video | Audio | Document | Image | Archive | Code | Ebook | Font | Other
  {
    /** The string stored in a record's "type" field (used as a sort key). */
    function Name(): string {
      match this
      case Video => "video"
      case Audio => "audio"
      case Document => "document"
      case Image => "image"
      case Archive => "archive"
      case Code => "code"
      case Ebook => "ebook"
      case Font => "font"
      case Other => "other"
    }
  }

  /** `s.rfind(c)`: the last index of `c` in `s`, or -1. */
  function LastIndexOf(s: string, c: char): (r: int)
    ensures -1 <= r < |s|
    ensures r >= 0 ==> s[r] == c
    ensures forall j :: r < j < |s| ==> s[j] != c
  {
    if s == [] then -1
    else if s[|s| - 1] == c then |s| - 1
    else LastIndexOf(s[..|s| - 1], c)
  }

  /** `posixpath.splitext(p)`: the extension runs from the last dot of the
      last path component, unless every character before that dot in the
      component is itself a dot (".bashrc", "..x" have no extension). */
  function SplitExt(p: string): (r: (string, string))
    ensures r.0 + r.1 == p
    ensures r.1 == [] || (r.1[0] == '.' && '.' !in r.1[1..] && '/' !in r.1)
  {
    var dot := LastIndexOf(p, '.');
    var sep := LastIndexOf(p, '/');
    if dot > sep && exists i :: sep + 1 <= i < dot && p[i] != '.' then
      assert p[dot..][1..] == p[dot + 1..];
      (p[..dot], p[dot..])
    else
      (p, [])
  }

  /** Some character other than a dot comes before a dot in the last path
      component. */
  predicate HasExtension(p: string) {
    exists i, j :: 0 <= i < j < |p| && p[i] != '.' && p[j] == '.' && forall k :: i <= k < |p| ==> p[k] != '/'
  }

  /** `splitext` finds an extension exactly when a dot follows a non-dot
      character in the last component; it then runs from the last dot. */
  lemma SplitExtDecided(p: string)
    ensures SplitExt(p).1 != [] <==> HasExtension(p)
    ensures SplitExt(p).1 != [] ==> SplitExt(p).1 == p[LastIndexOf(p, '.')..]
  {
    var dot := LastIndexOf(p, '.');
    var sep := LastIndexOf(p, '/');
    if HasExtension(p) {
      var i, j :| 0 <= i < j < |p| && p[i] != '.' && p[j] == '.' && forall k :: i <= k < |p| ==> p[k] != '/';
      assert sep < i;
      assert j <= dot;
      assert sep + 1 <= i < dot && p[i] != '.';
    }
    if dot > sep && exists i :: sep + 1 <= i < dot && p[i] != '.' {
      var i :| sep + 1 <= i < dot && p[i] != '.';
      assert forall k :: i <= k < |p| ==> p[k] != '/';
    }
  }

  const VideoExts: set<string> := {".mp4", ".mov", ".avi", ".mkv", ".webm", ".3gp", ".wmv",
                                    ".flv", ".m4v", ".divx", ".mpg", ".mpeg"}
  const AudioExts: set<string> := {".mp3", ".wav", ".ogg", ".flac", ".aac", ".m4a", ".wma", ".aiff"}
  const DocumentExts: set<string> := {".pdf", ".doc", ".docx", ".txt", ".rtf", ".odt", ".pages",
                                       ".xlsx", ".xls", ".ods", ".csv", ".ppt", ".pptx", ".odp",
                                       ".json"}
  const ImageExts: set<string> := {".png", ".jpg", ".jpeg", ".gif", ".bmp", ".webp", ".tiff",
                                    ".tif", ".svg"}
  const ArchiveExts: set<string> := {".zip", ".rar", ".tar", ".gz", ".bz2", ".7z"}
  const CodeExts: set<string> := {".py", ".java", ".c", ".cpp", ".js", ".html", ".css", ".php",
                                   ".rb", ".swift", ".kt", ".go", ".rs", ".ts", ".xml", ".sh",
                                   ".sql"}
  const EbookExts: set<string> := {".mobi", ".epub", ".azw", ".azw3"}
  const FontExts: set<string> := {".ttf", ".otf", ".woff", ".woff2"}

  /** The category the Beta version gives a lower-cased extension: the
      first of the eight sets that holds it. */
  function ExtCategory(ext: string): (r: Category)
    ensures r == Other <==>
      ext !in VideoExts && ext !in AudioExts && ext !in DocumentExts && ext !in ImageExts
      && ext !in ArchiveExts && ext !in CodeExts && ext !in EbookExts && ext !in FontExts
  {
    if ext in VideoExts then Video
    else if ext in AudioExts then Audio
    else if ext in DocumentExts then Document
    else if ext in ImageExts then Image
    else if ext in ArchiveExts then Archive
    else if ext in CodeExts then Code
    else if ext in EbookExts then Ebook
    else if ext in FontExts then Font
    else Other
  }

  /** The Beta version's `get_file_type`. */
  function BetaFileType(fileName: string): Category {
    ExtCategory(Lower(SplitExt(fileName).1))
  }

  const RootVideo: seq<string> := [".mp4", ".mov", ".avi", ".mkv", ".webm", ".3gp", ".wmv", ".m4v", ".divx"]
  const RootAudio: seq<string> := [".mp3", ".wav", ".ogg", ".flac", ".m4a"]
  const RootDocument: seq<string> := [".pdf", ".doc", ".docx", ".txt", ".rtf", ".xlsx", ".xls", ".json"]
  const RootImage: seq<string> := [".png", ".jpg", ".jpeg", ".gif", ".bmp", ".webp"]
  const RootEbook: seq<string> := [".mobi", ".epub"]

  predicate EndsWith(s: string, suffix: string) {
    |suffix| <= |s| && s[|s| - |suffix|..] == suffix
  }

  /** `s.endswith(tuple)`: the suffix that matches, if any. */
  predicate EndsWithAny(s: string, suffixes: seq<string>) {
    exists k :: 0 <= k < |suffixes| && EndsWith(s, suffixes[k])
  }

  /** The root version's `get_file_type`. */
  function RootFileType(fileName: string): (r: Category)
    ensures r in {Video, Audio, Document, Image, Ebook, Other}
    ensures r == Video <==> EndsWithAny(Lower(fileName), RootVideo)
    ensures r == Other <==>
      && !EndsWithAny(Lower(fileName), RootVideo) && !EndsWithAny(Lower(fileName), RootAudio)
      && !EndsWithAny(Lower(fileName), RootDocument) && !EndsWithAny(Lower(fileName), RootImage)
      && !EndsWithAny(Lower(fileName), RootEbook)
  {
    var name := Lower(fileName);
    if EndsWithAny(name, RootVideo) then Video
    else if EndsWithAny(name, RootAudio) then Audio
    else if EndsWithAny(name, RootDocument) then Document
    else if EndsWithAny(name, RootImage) then Image
    else if EndsWithAny(name, RootEbook) then Ebook
    else Other
  }

  lemma LowerCharFixes(c: char, d: char)
    requires d == '.' || d == '/'
    ensures LowerChar(c) == d <==> c == d
  {
  }

  lemma LastIndexOfLower(s: string, c: char)
    requires c == '.' || c == '/'
    ensures LastIndexOf(Lower(s), c) == LastIndexOf(s, c)
  {
    if s != [] {
      LowerCharFixes(s[|s| - 1], c);
      assert Lower(s)[..|s| - 1] == Lower(s[..|s| - 1]);
      LastIndexOfLower(s[..|s| - 1], c);
    }
  }

  /** Lowercasing leaves a non-dot a non-dot. */
  lemma NonDotLower(p: string, lo: int, hi: int)
    requires 0 <= lo && hi <= |p|
    ensures (exists i :: lo <= i < hi && Lower(p)[i] != '.') <==> (exists i :: lo <= i < hi && p[i] != '.')
  {
    forall i | lo <= i < hi
      ensures (Lower(p)[i] != '.') == (p[i] != '.')
    {
      LowerCharFixes(p[i], '.');
    }
  }

  lemma LowerSplit(p: string, k: nat)
    requires k <= |p|
    ensures Lower(p)[..k] == Lower(p[..k]) && Lower(p)[k..] == Lower(p[k..])
  {
  }

  lemma SplitExtLower(p: string)
    ensures SplitExt(Lower(p)) == (Lower(SplitExt(p).0), Lower(SplitExt(p).1))
  {
    LastIndexOfLower(p, '.');
    LastIndexOfLower(p, '/');
    var dot := LastIndexOf(p, '.');
    var sep := LastIndexOf(p, '/');
    if dot > sep {
      NonDotLower(p, sep + 1, dot);
      LowerSplit(p, dot);
    }
  }

  /** The Beta classification ignores case in the whole name. */
  lemma BetaFileTypeCaseInsensitive(fileName: string)
    ensures BetaFileType(Lower(fileName)) == BetaFileType(fileName)
  {
    SplitExtLower(fileName);
    LowerIdempotent(SplitExt(fileName).1);
  }

  /** The root classification ignores case in the whole name. */
  lemma RootFileTypeCaseInsensitive(fileName: string)
    ensures RootFileType(Lower(fileName)) == RootFileType(fileName)
  {
    LowerIdempotent(fileName);
  }

  /** A well-formed extension suffix: a dot followed by no dot or slash. */
  predicate PlainSuffix(x: string) {
    |x| >= 2 && x[0] == '.' && forall j :: 1 <= j < |x| ==> x[j] != '.' && x[j] != '/'
  }

  /** When a lower-cased name ends with a plain suffix and the name has an
      extension at all, that extension (lower-cased) is the suffix. */
  lemma ExtensionIsSuffix(fileName: string, x: string)
    requires PlainSuffix(x) && EndsWith(Lower(fileName), x)
    requires SplitExt(fileName).1 != []
    ensures Lower(SplitExt(fileName).1) == x
  {
    var l := Lower(fileName);
    var n := |fileName|;
    var d := n - |x|;
    LowerCharFixes(fileName[d], '.');
    assert l[d] == x[0];
    forall j | d < j < n ensures fileName[j] != '.' {
      LowerCharFixes(fileName[j], '.');
      assert l[j] == x[j - d];
    }
    var dot := LastIndexOf(fileName, '.');
    assert dot == d;
    assert SplitExt(fileName).1 == fileName[d..];
    assert Lower(fileName[d..]) == l[d..];
  }

  /** One suffix group of the root version against one Beta category: when
      every suffix of the group is a plain extension of that category, a name
      the group matches has that category in the Beta version too. */
  lemma GroupRefined(fileName: string, group: seq<string>, cat: Category)
    requires forall k :: 0 <= k < |group| ==> PlainSuffix(group[k]) && ExtCategory(group[k]) == cat
    requires EndsWithAny(Lower(fileName), group)
    requires SplitExt(fileName).1 != []
    ensures BetaFileType(fileName) == cat
  {
    var k :| 0 <= k < |group| && EndsWith(Lower(fileName), group[k]);
    ExtensionIsSuffix(fileName, group[k]);
  }

  lemma RootVideoAgrees()
    ensures forall k :: 0 <= k < |RootVideo| ==> PlainSuffix(RootVideo[k]) && ExtCategory(RootVideo[k]) == Video
  {
    assert ExtCategory(".mp4") == Video && ExtCategory(".mov") == Video && ExtCategory(".avi") == Video;
    assert ExtCategory(".mkv") == Video && ExtCategory(".webm") == Video && ExtCategory(".3gp") == Video;
    assert ExtCategory(".wmv") == Video && ExtCategory(".m4v") == Video && ExtCategory(".divx") == Video;
  }

  lemma RootAudioAgrees()
    ensures forall k :: 0 <= k < |RootAudio| ==> PlainSuffix(RootAudio[k]) && ExtCategory(RootAudio[k]) == Audio
  {
    assert ExtCategory(".mp3") == Audio && ExtCategory(".wav") == Audio && ExtCategory(".ogg") == Audio;
    assert ExtCategory(".flac") == Audio && ExtCategory(".m4a") == Audio;
  }

  lemma RootDocumentAgrees()
    ensures forall k :: 0 <= k < |RootDocument| ==> PlainSuffix(RootDocument[k]) && ExtCategory(RootDocument[k]) == Document
  {
    assert ExtCategory(".pdf") == Document && ExtCategory(".doc") == Document && ExtCategory(".docx") == Document;
    assert ExtCategory(".txt") == Document && ExtCategory(".rtf") == Document && ExtCategory(".xlsx") == Document;
    assert ExtCategory(".xls") == Document && ExtCategory(".json") == Document;
  }

  lemma RootImageAgrees()
    ensures forall k :: 0 <= k < |RootImage| ==> PlainSuffix(RootImage[k]) && ExtCategory(RootImage[k]) == Image
  {
    assert ExtCategory(".png") == Image && ExtCategory(".jpg") == Image && ExtCategory(".jpeg") == Image;
    assert ExtCategory(".gif") == Image && ExtCategory(".bmp") == Image && ExtCategory(".webp") == Image;
  }

  lemma RootEbookAgrees()
    ensures forall k :: 0 <= k < |RootEbook| ==> PlainSuffix(RootEbook[k]) && ExtCategory(RootEbook[k]) == Ebook
  {
    assert ExtCategory(".mobi") == Ebook && ExtCategory(".epub") == Ebook;
  }

  /** On every name that has an extension, the root classification never
      contradicts the Beta one: whatever the root version recognises, the
      Beta version puts in the same category. */
  lemma RootRefinedByBeta(fileName: string)
    requires SplitExt(fileName).1 != []
    ensures RootFileType(fileName) != Other ==> BetaFileType(fileName) == RootFileType(fileName)
  {
    var l := Lower(fileName);
    if EndsWithAny(l, RootVideo) {
      RootVideoAgrees();
      GroupRefined(fileName, RootVideo, Video);
    } else if EndsWithAny(l, RootAudio) {
      RootAudioAgrees();
      GroupRefined(fileName, RootAudio, Audio);
    } else if EndsWithAny(l, RootDocument) {
      RootDocumentAgrees();
      GroupRefined(fileName, RootDocument, Document);
    } else if EndsWithAny(l, RootImage) {
      RootImageAgrees();
      GroupRefined(fileName, RootImage, Image);
    } else if EndsWithAny(l, RootEbook) {
      RootEbookAgrees();
      GroupRefined(fileName, RootEbook, Ebook);
    }
  }

  /** Where the two versions disagree: a dot-file named like an extension
      has no extension for splitext but matches endswith. */
  lemma DotFileDiffers()
    ensures RootFileType(".mp4") == Video && BetaFileType(".mp4") == Other
  {
    assert EndsWith(Lower(".mp4"), RootVideo[0]);
    var a := ".mp4";
    assert a[0] == '.' && a[1] != '.' && a[2] != '.' && a[3] != '.';
    assert LastIndexOf(a, '.') == 0;
    assert SplitExt(a).1 == [];
    var e: string := [];
    assert Lower(e) == e;
    assert e !in VideoExts && e !in AudioExts && e !in DocumentExts && e !in ImageExts;
    assert e !in ArchiveExts && e !in CodeExts && e !in EbookExts && e !in FontExts;
    assert ExtCategory(e) == Other;
  }

  /** Where the two versions disagree: ".mpg" is only in the Beta tables. */
  lemma MpgDiffers()
    ensures BetaFileType("clip.mpg") == Video
    ensures RootFileType("clip.mpg") == Other
  {
    MpgIsBetaVideo();
    MpgMissesRootGroups();
  }

  lemma MpgIsBetaVideo()
    ensures BetaFileType("clip.mpg") == Video
  {
    var b := "clip.mpg";
    assert b[4] == '.' && b[5] != '.' && b[6] != '.' && b[7] != '.' && b[0] != '.';
    assert LastIndexOf(b, '.') == 4;
    assert LastIndexOf(b, '/') == -1;
    assert SplitExt(b).1 == ".mpg";
    assert Lower(".mpg") == ".mpg";
  }

  /** No root suffix ends in "mpg", so none matches. */
  lemma MpgMissesRootGroups()
    ensures RootFileType("clip.mpg") == Other
  {
    assert Lower("clip.mpg") == "clip.mpg";
    MpgMisses(RootVideo);
    MpgMisses(RootAudio);
    MpgMisses(RootDocument);
    MpgMisses(RootImage);
    MpgMisses(RootEbook);
  }

  /** Whether `x` ends in "mpg". */
  predicate EndsInMpg(x: string) {
    |x| >= 3 && x[|x| - 3] == 'm' && x[|x| - 2] == 'p' && x[|x| - 1] == 'g'
  }

  /** A name ending in "mpg" matches no suffix of `group` when none of
      them ends in "mpg". */
  lemma MpgMisses(group: seq<string>)
    requires forall k :: 0 <= k < |group| ==> |group[k]| >= 3 && !EndsInMpg(group[k])
    ensures !EndsWithAny("clip.mpg", group)
  {
  }
}
