/**
 The upload filter shared by the hero and category routes (`checkFileType`):
 a file passes when the lower-cased extension of its original name AND its
 MIME type both contain one of jpg, jpeg, png, webp or svg. The test is the
 unanchored regular expression `/jpg|jpeg|png|webp|svg/`, so a substring
 match is enough.
 */
module FileFilter {
  import opened Wrappers
  import opened Strings

  /** Position of the last `c` in `s`. */
  function LastIndexOfChar(s: string, c: char): (k: Option<nat>)
    ensures k.None? <==> c !in s
    ensures k.Some? ==> k.value < |s| && s[k.value] == c && c !in s[k.value + 1..]
  {
    if |s| == 0 then None
    else if s[|s| - 1] == c then Some(|s| - 1)
    else
      var k := LastIndexOfChar(s[..|s| - 1], c);
      assert s == s[..|s| - 1] + [s[|s| - 1]];
      if k.Some? then
        assert s[k.value + 1..] == s[..|s| - 1][k.value + 1..] + [s[|s| - 1]];
        k
      else k
  }

  /** The last '/'-separated component of a path. */
  function BaseName(path: string): (b: string)
    ensures '/' !in b
    ensures |b| <= |path| && path[|path| - |b|..] == b
  {
    match LastIndexOfChar(path, '/')
    case None => path
    case Some(k) => path[k + 1..]
  }

  /**
   `path.extname` for a name without a trailing '/': from the last '.' of the
   base name to its end, except that a base name with no '.', one whose only
   '.' leads it (".png"), and ".." have no extension.
   */
  function ExtName(name: string): (e: string)
    ensures e == "" || (e[0] == '.' && '.' !in e[1..] && '/' !in e)
    ensures |e| <= |name| && name[|name| - |e|..] == e
  {
    var b := BaseName(name);
    var k := LastIndexOfChar(b, '.');
    if k.None? || k.value == 0 || b == ".." then ""
    else
      ExtensionOfBase(name, b, k.value);
      b[k.value..]
  }

  /** The text from the last '.' of a base name on is a well-formed extension and a suffix of the name. */
  lemma ExtensionOfBase(name: string, b: string, d: nat)
    requires |b| <= |name| && name[|name| - |b|..] == b
    requires d < |b| && b[d] == '.' && '.' !in b[d + 1..] && '/' !in b
    ensures var e := b[d..]; e[0] == '.' && '.' !in e[1..] && '/' !in e
    ensures |b[d..]| <= |name| && name[|name| - |b[d..]|..] == b[d..]
  {
    var e := b[d..];
    assert e[1..] == b[d + 1..];
    forall j | 0 <= j < |e|
      ensures e[j] != '/'
    {
      assert e[j] == b[d + j];
    }
    SuffixOfSuffix(name, b, e);
  }

  lemma SuffixOfSuffix(s: string, t: string, u: string)
    requires |t| <= |s| && s[|s| - |t|..] == t
    requires |u| <= |t| && t[|t| - |u|..] == u
    ensures |u| <= |s| && s[|s| - |u|..] == u
  {
    assert s[|s| - |u|..] == s[|s| - |t|..][|t| - |u|..];
  }

  /** A name has no extension exactly when its base name has no '.', only a leading one, or is "..". */
  lemma ExtNameEmptyIff(name: string)
    ensures var b := BaseName(name);
            ExtName(name) == "" <==> ('.' !in b || (b[0] == '.' && '.' !in b[1..]) || b == "..")
  {
    var b := BaseName(name);
    var k := LastIndexOfChar(b, '.');
    if k.Some? && k.value > 0 {
      assert b[1..][k.value - 1] == '.';
    }
    if k.Some? && k.value == 0 {
      assert b[1..] == b[k.value + 1..];
    }
  }

  /** A plain "stem.ext" name has extension ".ext". */
  lemma ExtNameOf(stem: string, ext: string)
    requires |stem| > 0 && stem[0] != '.'
    requires '/' !in stem && '/' !in ext && '.' !in ext
    ensures ExtName(stem + "." + ext) == "." + ext
  {
    var name := stem + "." + ext;
    assert '/' !in name;
    assert BaseName(name) == name;
    var k := LastIndexOfChar(name, '.');
    assert name[|stem|] == '.';
    assert name[0] != '.';
    assert name[|stem|..] == "." + ext;
  }

  const ImageTypes: seq<string> := ["jpg", "jpeg", "png", "webp", "svg"]

  /** `/jpg|jpeg|png|webp|svg/.test(s)`. */
  predicate MatchesImageType(s: string) {
    Includes(s, "jpg") || Includes(s, "jpeg") || Includes(s, "png") || Includes(s, "webp") || Includes(s, "svg")
  }

  datatype Verdict = Accepted | Rejected(message: string)

  const ImagesOnly: string := "Images only!"

  function CheckFileType(originalName: string, mimetype: string): (v: Verdict)
    ensures v.Accepted? <==>
              (exists t, i :: t in ImageTypes && OccursAt(ToLower(ExtName(originalName)), t, i))
              && (exists t, i :: t in ImageTypes && OccursAt(mimetype, t, i))
    ensures v.Rejected? ==> v.message == ImagesOnly
  {
    var ext := ToLower(ExtName(originalName));
    MatchesImageTypeIff(ext);
    MatchesImageTypeIff(mimetype);
    if MatchesImageType(ext) && MatchesImageType(mimetype) then Accepted else Rejected(ImagesOnly)
  }

  lemma MatchesImageTypeIff(s: string)
    ensures MatchesImageType(s) <==> exists t, i :: t in ImageTypes && OccursAt(s, t, i)
  {
    IncludesIff(s, "jpg");
    IncludesIff(s, "jpeg");
    IncludesIff(s, "png");
    IncludesIff(s, "webp");
    IncludesIff(s, "svg");
    if exists t, i :: t in ImageTypes && OccursAt(s, t, i) {
      var t, i :| t in ImageTypes && OccursAt(s, t, i);
      assert t == "jpg" || t == "jpeg" || t == "png" || t == "webp" || t == "svg";
    }
  }

  /** A string without the first letter of `p` cannot contain `p`. */
  lemma FirstLetterAbsent(s: string, p: string)
    requires |p| > 0 && p[0] !in s
    ensures !Includes(s, p)
  {
    IncludesIff(s, p);
    forall i | OccursAt(s, p, i)
      ensures false
    {
    }
  }

  /** None of the five image types starts with a letter of `s`. */
  lemma NoImageLetters(s: string)
    requires 'j' !in s && 'p' !in s && 'w' !in s && 's' !in s
    ensures !MatchesImageType(s)
  {
    FirstLetterAbsent(s, "jpg");
    FirstLetterAbsent(s, "jpeg");
    FirstLetterAbsent(s, "png");
    FirstLetterAbsent(s, "webp");
    FirstLetterAbsent(s, "svg");
  }

  /** ".JPG" lower-cases to a match, and so does the MIME type image/jpeg. */
  lemma JpegMatches()
    ensures MatchesImageType(ToLower(".JPG")) && MatchesImageType("image/jpeg")
  {
    var lower := ToLower(".JPG");
    assert lower[0] == '.' && lower[1] == 'j' && lower[2] == 'p' && lower[3] == 'g';
    assert OccursAt(lower, "jpg", 1);
    IncludesIff(lower, "jpg");
    assert OccursAt("image/jpeg", "jpeg", 6);
    IncludesIff("image/jpeg", "jpeg");
  }

  /** Upper-case extensions pass: any "<stem>.JPG" uploaded as image/jpeg is accepted. */
  lemma UpperCaseExtensionAccepted(stem: string)
    requires |stem| > 0 && stem[0] != '.' && '/' !in stem
    ensures CheckFileType(stem + ".JPG", "image/jpeg") == Accepted
  {
    assert stem + ".JPG" == stem + "." + "JPG";
    ExtNameOf(stem, "JPG");
    JpegMatches();
  }

  /** The extension must match even when the MIME type does: "<stem>.txt" is refused. */
  lemma TextFileRejected(stem: string, mimetype: string)
    requires |stem| > 0 && stem[0] != '.' && '/' !in stem
    ensures CheckFileType(stem + ".txt", mimetype) == Rejected(ImagesOnly)
  {
    assert stem + ".txt" == stem + "." + "txt";
    ExtNameOf(stem, "txt");
    LowerTxt();
  }

  lemma LowerTxt()
    ensures !MatchesImageType(ToLower(".txt"))
  {
    var lower := ToLower(".txt");
    assert lower[0] == '.' && lower[1] == 't' && lower[2] == 'x' && lower[3] == 't';
    assert lower == ".txt";
    NoImageLetters(".txt");
  }

  /** The MIME type must match even when the extension does. */
  lemma MislabelledTypeRejected(name: string)
    ensures CheckFileType(name, "text/html") == Rejected(ImagesOnly)
  {
    NoImageLetters("text/html");
  }

  /** A dot-file such as ".png" has no extension, so it is refused whatever its MIME type. */
  lemma DotFileRejected(mimetype: string)
    ensures CheckFileType(".png", mimetype) == Rejected(ImagesOnly)
  {
    assert ExtName(".png") == "" by {
      var b := ".png";
      assert BaseName(b) == b;
      assert b[0] == '.' && b[1..] == "png";
      ExtNameEmptyIff(b);
    }
    assert !MatchesImageType(ToLower("")) by {
      NoImageLetters(ToLower(""));
    }
  }

  /** The two fields of an uploaded file the filter and the storage look at. */
  datatype UploadedFile = UploadedFile(originalName: string, mimetype: string)

  /** What `upload.single('image')` hands on: no file, a refused file, or one that passed the filter. */
  datatype Upload = NoFile | RefusedFile | Received(file: UploadedFile)

  function Receive(file: Option<UploadedFile>): (u: Upload)
    ensures u.NoFile? <==> file.None?
    ensures u.RefusedFile? <==> file.Some? && CheckFileType(file.value.originalName, file.value.mimetype).Rejected?
    ensures u.Received? ==> file == Some(u.file)
  {
    match file
    case None => NoFile
    case Some(f) => if CheckFileType(f.originalName, f.mimetype).Accepted? then Received(f) else RefusedFile
  }

  /** A name keeps its extension when a '.'-free, '/'-free stem is put in front of the extension. */
  lemma ExtNameKept(stem: string, name: string)
    requires |stem| > 0 && stem[0] != '.' && '/' !in stem && '.' !in stem
    ensures ExtName(stem + ExtName(name)) == ExtName(name)
  {
    var e := ExtName(name);
    if e == "" {
      assert stem + e == stem;
      NoDotNoExt(stem);
    } else {
      StemBeforeExt(stem, e);
    }
  }

  lemma StemBeforeExt(stem: string, e: string)
    requires |stem| > 0 && stem[0] != '.' && '/' !in stem && '.' !in stem
    requires |e| > 0 && e[0] == '.' && '.' !in e[1..] && '/' !in e
    ensures ExtName(stem + e) == e
  {
    var x := e[1..];
    assert '/' !in x by {
      assert forall i :: 0 <= i < |x| ==> x[i] == e[i + 1];
    }
    var n := stem + "." + x;
    assert stem + e == n by {
      assert e == "." + x;
    }
    ExtNameOf(stem, x);
  }

  lemma NoDotNoExt(s: string)
    requires '/' !in s && '.' !in s
    ensures ExtName(s) == ""
  {
    assert BaseName(s) == s;
  }
}
