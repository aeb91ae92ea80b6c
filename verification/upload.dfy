/** The pure part of `HasUpload::base`: normalising the storage directories
    and the URL prefix, deriving and vetting the file extension, and naming the
    stored file. The clock, the random number, the uploaded file's metadata
    and the image probe are inputs. */
module Upload {
  import opened Numerals
  import opened Values
  import opened Text

  /** What the overridable getters return: the storage root, the directory
      under it, the public URL prefix, and the accepted extensions. */
  datatype Settings = Settings(baseDir: string, relativeDir: string, urlPrefix: string, accept: seq<string>)

  /** The uploaded file as the request reports it. */
  datatype UploadedFile = UploadedFile(valid: bool, extension: string, mimeType: string, name: string, size: int)

  /** What `getimagesize` reports for a stored image. */
  datatype ImageInfo = ImageInfo(width: int, height: int, mime: string)

  /** The array `base` returns, field by field. */
  datatype Stored = Stored(
    url: string, name: string, realpath: string, size: int,
    mimeType: string, imageWidth: int, imageHeight: int, ext: string)

  const Forbidden: seq<string> := ["php", "php3", "php5", "css", "js", "html", "htm", "asp", "jsp"]

  /** `getAcceptUploadExtension()` unless overridden. */
  const DefaultAccept: seq<string> := ["jpg", "jpeg", "gif", "png"]

  const NoFile := Business("未找到上传文件", 400)
  const ForbiddenFormat := Business("不支持该格式的文件上传", 400)
  const UnacceptedExtension := Business("不支持该扩展名的文件上传", 400)

  /** The getters' defaults, given `base_path()` and `date('Ymd')`. */
  function DefaultSettings(basePath: string, day: string): (s: Settings)
    ensures s.accept == DefaultAccept
  {
    Settings(basePath + "/plugin/admin/public/", "/upload/files/" + day, "/app/admin/", DefaultAccept)
  }

  /** The default storage root is `base_path()` followed by the public
      directory, with its one trailing slash kept. */
  lemma DefaultBaseDirKept(basePath: string, day: string)
    ensures BaseDir(DefaultSettings(basePath, day).baseDir) == basePath + "/plugin/admin/public/"
  {
    var t := basePath + "/plugin/admin/public";
    assert basePath + "/plugin/admin/public/" == t + "/";
    assert t[|t| - 1] == 'c';
    TrimRightOne(t, '/');
  }

  /** The default relative directory loses its leading slash: the files go
      under `upload/files/` and the day. */
  lemma DefaultRelativeDirTrimmed(basePath: string, day: string)
    requires |day| > 0 && day[|day| - 1] != '/'
    ensures Trim(DefaultSettings(basePath, day).relativeDir, '/') == "upload/files/" + day
  {
    var x := "upload/files/" + day;
    assert "/upload/files/" + day == "/" + x;
    assert x[0] == 'u' && x[|x| - 1] == day[|day| - 1];
    TrimWrapped(x, '/');
  }

  /** The default URL prefix is kept as it is. */
  lemma DefaultUrlPrefixKept(basePath: string, day: string)
    ensures UrlPrefix(DefaultSettings(basePath, day).urlPrefix) == "/app/admin/"
  {
    var x := "app/admin";
    assert "/app/admin/" == "/" + x + "/";
    TrimWrapped(x, '/');
    assert Truthy(Str(x));
  }

  /** The storage directory with its trailing slashes cut and one slash put
      back: it ends in exactly one slash. */
  function BaseDir(d: string): (r: string)
    ensures |r| >= 1 && r[|r| - 1] == '/'
    ensures |r| == 1 || r[|r| - 2] != '/'
    ensures r[..|r| - 1] <= d
    ensures forall i :: |r| - 1 <= i < |d| ==> d[i] == '/'
  {
    var t := TrimRight(d, '/');
    assert (t + "/")[..|t|] == t;
    t + "/"
  }

  /** The URL prefix with its slashes trimmed on both sides, put back between
      single slashes; a lone slash when the trimmed prefix is empty (or the
      falsy `"0"`). */
  function UrlPrefix(p: string): (r: string)
    ensures var t := Trim(p, '/');
      && (r == "/" <==> t == "" || t == "0")
      && (r != "/" ==> r == "/" + t + "/")
    ensures |r| >= 1 && r[0] == '/' && r[|r| - 1] == '/'
    ensures |r| == 1 || (r[1] != '/' && r[|r| - 2] != '/')
  {
    var t := Trim(p, '/');
    if Truthy(Str(t)) then "/" + t + "/" else "/"
  }

  /** The second piece when the MIME type is split at its slashes: the text
      after the first slash, up to a second slash or the end; `null` (read as
      `""`) when there is no slash. */
  function MimeSubtype(m: string): (r: string)
    ensures '/' !in m ==> r == ""
    ensures '/' in m ==> '/' !in r && r <= m[FirstIndex(m, '/') + 1..]
    ensures '/' in m && '/' !in m[FirstIndex(m, '/') + 1..] ==> r == m[FirstIndex(m, '/') + 1..]
    ensures '/' in m ==> |r| == |m| - FirstIndex(m, '/') - 1 || m[FirstIndex(m, '/') + 1 + |r|] == '/'
  {
    var parts := Split(m, '/');
    if |parts| >= 2 then
      var i := FirstIndex(m, '/');
      assert parts == [m[..i]] + Split(m[i + 1..], '/');
      FirstPieceEnds(m[i + 1..], '/');
      parts[1]
    else ""
  }

  /** The extension `base` vets: the reported one when it is truthy; else,
      for a file named `blob`, the MIME subtype; else empty. Always lowercased. */
  function Extension(f: UploadedFile): (r: string)
    ensures forall i :: 0 <= i < |r| ==> !IsUpper(r[i])
    ensures Truthy(Str(f.extension)) ==> r == Lower(f.extension)
    ensures !Truthy(Str(f.extension)) && f.name != "blob" ==> r == ""
    ensures !Truthy(Str(f.extension)) && f.name == "blob" ==> r == Lower(MimeSubtype(f.mimeType))
  {
    if Truthy(Str(f.extension)) then Lower(f.extension)
    else if f.name == "blob" then Lower(MimeSubtype(f.mimeType))
    else ""
  }

  /** The denylist, then the allowlist (ignored when empty). */
  function Vet(ext: string, accept: seq<string>): (r: Result<string>)
    ensures r.Ok? <==> ext !in Forbidden && (|accept| == 0 || ext in accept)
    ensures r.Ok? ==> r.value == ext
    ensures ext in Forbidden ==> r == Err(ForbiddenFormat)
    ensures ext !in Forbidden && r.Err? ==> r == Err(UnacceptedExtension)
  {
    if ext in Forbidden then Err(ForbiddenFormat)
    else if |accept| > 0 && ext !in accept then Err(UnacceptedExtension)
    else Ok(ext)
  }

  /** The stored file name: the low 32 bits of the time and the low 16 bits
      of the random number, packed big-endian and written as 12 lowercase hex
      digits, then a dot and the extension. */
  function StoredName(time: nat, rand: nat, ext: string): (r: string)
    ensures |r| == 13 + |ext|
    ensures forall i :: 0 <= i < 12 ==> IsLowerHex(r[i])
    ensures r[12] == '.' && r[13..] == ext
  {
    Bin2Hex(BigEndian(time % 0x1_0000_0000, 4) + BigEndian(rand % 0x1_0000, 2)) + "." + ext
  }

  /** The 12 hex digits decode back to the time (modulo 2^32) and the random
      number. */
  lemma StoredNameDecodes(time: nat, rand: nat, ext: string)
    requires 1 <= rand <= 65535
    ensures var r := StoredName(time, rand, ext);
      && HexValue(r[..8]) == time % 0x1_0000_0000
      && HexValue(r[8..12]) == rand
  {
    var a := BigEndian(time % 0x1_0000_0000, 4);
    var b := BigEndian(rand % 0x1_0000, 2);
    var r := StoredName(time, rand, ext);
    Bin2HexConcat(a, b);
    assert r[..8] == Bin2Hex(a);
    assert r[8..12] == Bin2Hex(b);
    HexValueOfBin2Hex(a);
    HexValueOfBin2Hex(b);
    assert Pow256(2) == 0x1_0000;
    assert Pow256(4) == 0x1_0000_0000;
    BigEndianValue(time % 0x1_0000_0000, 4);
    BigEndianValue(rand % 0x1_0000, 2);
  }

  /** `base($request)` without the I/O: `file` is the first uploaded file (if
      any), `time` and `rand` the clock and `random_int(1, 65535)`, and `image`
      what `getimagesize` reports for the stored file. */
  function Base(s: Settings, file: Option<UploadedFile>, time: nat, rand: nat, image: Option<ImageInfo>): (r: Result<Stored>)
    ensures file.None? || !file.value.valid ==> r == Err(NoFile)
    ensures file.Some? && file.value.valid ==>
      (r.Ok? <==> Vet(Extension(file.value), s.accept).Ok?)
    ensures r.Err? ==> r.error in {NoFile, ForbiddenFormat, UnacceptedExtension}
    ensures r.Ok? ==> file.Some? && r.value.name == file.value.name && r.value.size == file.value.size
    ensures r.Ok? ==> r.value.ext == Extension(file.value) && r.value.ext !in Forbidden
    ensures r.Ok? && |s.accept| > 0 ==> r.value.ext in s.accept
    ensures r.Ok? && image.Some? ==> (r.value.mimeType == image.value.mime &&
      r.value.imageWidth == image.value.width && r.value.imageHeight == image.value.height)
    ensures r.Ok? && image.None? ==> (r.value.mimeType == file.value.mimeType &&
      r.value.imageWidth == 0 && r.value.imageHeight == 0)
  {
    var prefix := UrlPrefix(s.urlPrefix);
    var base := BaseDir(s.baseDir);
    var rel := Trim(s.relativeDir, '/');
    if file.None? || !file.value.valid then Err(NoFile)
    else
      var f := file.value;
      match Vet(Extension(f), s.accept)
      case Err(e) => Err(e)
      case Ok(ext) =>
        var relativePath := rel + "/" + StoredName(time, rand, ext);
        var mime := if image.Some? then image.value.mime else f.mimeType;
        var width := if image.Some? then image.value.width else 0;
        var height := if image.Some? then image.value.height else 0;
        Ok(Stored(prefix + relativePath, f.name, base + relativePath, f.size, mime, width, height, ext))
  }

  /** The URL is the prefix, the trimmed relative directory, a slash and the
      stored name; the real path is the same relative path under the base
      directory. */
  lemma BaseNamesFile(s: Settings, f: UploadedFile, time: nat, rand: nat, image: Option<ImageInfo>)
    requires Base(s, Some(f), time, rand, image).Ok?
    ensures var r := Base(s, Some(f), time, rand, image).value;
      var relativePath := Trim(s.relativeDir, '/') + "/" + StoredName(time, rand, Extension(f));
      && r.url == UrlPrefix(s.urlPrefix) + relativePath
      && r.realpath == BaseDir(s.baseDir) + relativePath
  {
    var ext := Extension(f);
    var relativePath := Trim(s.relativeDir, '/') + "/" + StoredName(time, rand, ext);
    var r := Base(s, Some(f), time, rand, image).value;
    assert Vet(ext, s.accept) == Ok(ext);
    assert r.url == UrlPrefix(s.urlPrefix) + relativePath;
    assert r.realpath == BaseDir(s.baseDir) + relativePath;
  }

  /** The URL and the real path end in the same relative path, which ends in
      the stored name: 12 hex digits, a dot and the extension. */
  lemma UrlMatchesRealpath(s: Settings, f: UploadedFile, time: nat, rand: nat, image: Option<ImageInfo>, r: Stored)
    requires Base(s, Some(f), time, rand, image) == Ok(r)
    ensures UrlPrefix(s.urlPrefix) <= r.url && BaseDir(s.baseDir) <= r.realpath
    ensures r.url[|UrlPrefix(s.urlPrefix)|..] == r.realpath[|BaseDir(s.baseDir)|..]
    ensures |r.url| >= |UrlPrefix(s.urlPrefix)| + 14 + |r.ext|
    ensures EndsWith(r.url, "." + r.ext)
  {
    var name := StoredName(time, rand, r.ext);
    BaseNamesFile(s, f, time, rand, image);
    assert r.ext == Extension(f);
    Layout(UrlPrefix(s.urlPrefix), BaseDir(s.baseDir), Trim(s.relativeDir, '/'), name, r.ext, r.url, r.realpath);
  }

  /** A URL and a real path built from one relative path ending in a stored
      name. */
  lemma Layout(prefix: string, base: string, rel: string, name: string, ext: string, url: string, realpath: string)
    requires |name| == 13 + |ext| && name[12] == '.' && name[13..] == ext
    requires url == prefix + (rel + "/" + name) && realpath == base + (rel + "/" + name)
    ensures prefix <= url && base <= realpath
    ensures url[|prefix|..] == realpath[|base|..]
    ensures |url| >= |prefix| + 14 + |ext|
    ensures EndsWith(url, "." + ext)
  {
    var path := rel + "/" + name;
    assert url[|prefix|..] == path;
    assert realpath[|base|..] == path;
    assert name[12..] == "." + ext;
    assert url[|url| - |ext| - 1..] == name[12..];
  }

  /** A denylisted extension is refused whatever the allowlist says, even if
      the allowlist names it. */
  lemma ForbiddenAlwaysRejected(s: Settings, f: UploadedFile, time: nat, rand: nat, image: Option<ImageInfo>)
    requires f.valid && Extension(f) in Forbidden
    ensures Base(s, Some(f), time, rand, image) == Err(ForbiddenFormat)
  {
  }

  /** Under the default allowlist only jpg, jpeg, gif and png get through. */
  lemma DefaultAcceptsOnlyImages(basePath: string, day: string, f: UploadedFile, time: nat, rand: nat, image: Option<ImageInfo>)
    requires Base(DefaultSettings(basePath, day), Some(f), time, rand, image).Ok?
    ensures Extension(f) in {"jpg", "jpeg", "gif", "png"}
  {
    var s := DefaultSettings(basePath, day);
    var r := Base(s, Some(f), time, rand, image).value;
    assert r.ext == Extension(f) && r.ext in s.accept;
    InDefaultAccept(r.ext);
  }

  lemma InDefaultAccept(x: string)
    requires x in DefaultAccept
    ensures x in {"jpg", "jpeg", "gif", "png"}
  {
  }

  /** An empty allowlist lets every extension off the denylist through. */
  lemma EmptyAllowlistAcceptsRest(s: Settings, f: UploadedFile, time: nat, rand: nat, image: Option<ImageInfo>)
    requires |s.accept| == 0 && f.valid && Extension(f) !in Forbidden
    ensures Base(s, Some(f), time, rand, image).Ok?
  {
  }

  /** Lowercasing comes first: `PHP` is caught by the denylist, and `JPG` is
      accepted under the default allowlist. */
  lemma ExtensionCaseFolded(f: UploadedFile)
    ensures f.extension == "PHP" ==> Extension(f) == "php" && Vet(Extension(f), DefaultAccept) == Err(ForbiddenFormat)
    ensures f.extension == "JPG" ==> Extension(f) == "jpg" && Vet(Extension(f), DefaultAccept) == Ok("jpg")
  {
    if f.extension == "PHP" {
      assert Lower("PHP") == "php";
    }
    if f.extension == "JPG" {
      assert Lower("JPG") == "jpg";
    }
  }

  /** A `blob` upload without an extension takes its MIME subtype. */
  lemma BlobTakesMimeSubtype(f: UploadedFile)
    requires f.name == "blob" && f.extension == "" && f.mimeType == "image/png"
    ensures Extension(f) == "png"
  {
    assert !Truthy(Str(f.extension));
    assert Extension(f) == Lower(MimeSubtype(f.mimeType));
    PngSubtype();
  }

  lemma PngSubtype()
    ensures Lower(MimeSubtype("image/png")) == "png"
  {
    SlashJoined("image", "png");
    assert "image" + "/" + "png" == "image/png";
    assert Lower("png") == "png";
  }

  /** The subtype of `a/b` is `b` when neither holds a slash. */
  lemma SlashJoined(a: string, b: string)
    requires '/' !in a && '/' !in b
    ensures MimeSubtype(a + "/" + b) == b
  {
    var m := a + "/" + b;
    assert m[..|a|] == a && m[|a| + 1..] == b;
    OneSlash(m, |a|);
  }

  /** With exactly one slash, the subtype is everything after it. */
  lemma OneSlash(m: string, i: nat)
    requires i < |m| && m[i] == '/' && '/' !in m[..i] && '/' !in m[i + 1..]
    ensures MimeSubtype(m) == m[i + 1..]
  {
    var j := FirstIndex(m, '/');
    assert m[..j + 1][j] == '/' && m[..i + 1][i] == '/';
  }
}
