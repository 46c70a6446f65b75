/** The file-type helpers of `backend/src/services/image.ts`: Node's
    `path.extname` (POSIX flavour), the MIME table and the supported-format
    test, plus the zero case of `formatFileSize`. */
module Image {
  import opened Wrappers
  import opened Text

  /** `path` with its trailing `/` characters removed. */
  function TrimTrailingSlashes(path: string): (r: string)
    ensures r <= path
    ensures r == [] || r[|r| - 1] != '/'
    ensures forall i :: |r| <= i < |path| ==> path[i] == '/'
  {
    if path != [] && path[|path| - 1] == '/' then
      var r := TrimTrailingSlashes(path[..|path| - 1]);
      r
    else path
  }

  /** The final path segment: the text after the last `/` once trailing
      slashes are dropped. */
  function LastSegment(path: string): (seg: string)
    ensures '/' !in seg
  {
    var trimmed := TrimTrailingSlashes(path);
    var slash := LastIndexOf(trimmed, '/');
    trimmed[slash + 1..]
  }

  /** `path.extname(path)`: from the last `.` of the final segment to its end,
      or "" when the segment has no dot, when its only dot leads it
      (`.bashrc`), or when the segment is `..`. */
  function ExtName(path: string): (ext: string)
    ensures ext == [] || (ext[0] == '.' && '.' !in ext[1..] && '/' !in ext)
    ensures ext != [] ==> |ext| < |LastSegment(path)| && ext == LastSegment(path)[|LastSegment(path)| - |ext|..]
    ensures ext != [] <==> LastIndexOf(LastSegment(path), '.') > 0 && LastSegment(path) != ".."
    ensures ext != [] ==> ext == LastSegment(path)[LastIndexOf(LastSegment(path), '.')..]
  {
    var seg := LastSegment(path);
    var dot := LastIndexOf(seg, '.');
    if dot <= 0 || seg == ".." then "" else seg[dot..]
  }

  /** The MIME type for a lower-cased extension, if the table has one. */
  function MimeTableEntry(ext: string): Option<string> {
    if ext == ".jpg" || ext == ".jpeg" then Some("image/jpeg")
    else if ext == ".png" then Some("image/png")
    else if ext == ".webp" then Some("image/webp")
    else if ext == ".heic" then Some("image/heic")
    else if ext == ".gif" then Some("image/gif")
    else None
  }

  /** The values of the MIME table. */
  const ImageMimeTypes: set<string> := {"image/jpeg", "image/png", "image/webp", "image/heic", "image/gif"}

  /** Every value of the table is an `image/` type. */
  lemma ImageMimeTypesAreImages(mime: string)
    requires mime in ImageMimeTypes
    ensures "image/" <= mime && mime != OctetStream
  {
  }

  lemma TableValues(ext: string)
    ensures MimeTableEntry(ext).Some? ==> MimeTableEntry(ext).value in ImageMimeTypes
  {
  }

  const OctetStream: string := "application/octet-stream"

  /** The extensions `isSupportedImage` accepts. */
  const SupportedExtensions: seq<string> := [".jpg", ".jpeg", ".png", ".webp", ".heic", ".gif"]

  /** `getMimeTypeFromExtension(filePath)`: `mimeTypes[ext] || 'application/octet-stream'`. */
  /** Every result is an image type from the table or the fallback, and a
      path without an extension always gets the fallback. */
  function MimeTypeFromExtension(filePath: string): (mime: string)
    ensures mime == OctetStream || mime in ImageMimeTypes
    ensures ExtName(filePath) == "" ==> mime == OctetStream
  {
    var ext := Lower(ExtName(filePath));
    TableValues(ext);
    MimeTableEntry(ext).GetOr(OctetStream)
  }

  /** `isSupportedImage(filePath)`. The supported list and the MIME table
      name the same extensions, so a file is supported exactly when it gets
      an image MIME type. */
  function IsSupportedImage(filePath: string): (ok: bool)
    ensures ok <==> MimeTypeFromExtension(filePath) != OctetStream
    ensures ok ==> ExtName(filePath) != ""
  {
    var ext := Lower(ExtName(filePath));
    TableMatchesList(ext);
    ext in SupportedExtensions
  }

  /** The MIME table has an entry exactly for the supported extensions, and
      none of its entries is the fallback type. */
  lemma TableMatchesList(ext: string)
    ensures ext in SupportedExtensions <==> MimeTableEntry(ext).Some?
    ensures MimeTableEntry(ext).Some? ==> MimeTableEntry(ext).value != OctetStream
  {
  }

  /** A path whose final segment has no dot, or only a leading one, has no
      extension and is not supported. */
  lemma NoExtensionUnsupported(filePath: string)
    requires LastIndexOf(LastSegment(filePath), '.') <= 0
    ensures ExtName(filePath) == ""
    ensures !IsSupportedImage(filePath)
    ensures MimeTypeFromExtension(filePath) == OctetStream
  {
    assert Lower("") == "";
  }

  /** A plain `stem.ext` name is typed by its lower-cased extension alone. */
  lemma MimeOfName(stem: string, ext: string)
    requires stem != [] && '.' !in stem && '/' !in stem
    requires |ext| > 1 && ext[0] == '.' && '.' !in ext[1..] && '/' !in ext
    ensures MimeTypeFromExtension(stem + ext) == MimeTableEntry(Lower(ext)).GetOr(OctetStream)
    ensures IsSupportedImage(stem + ext) <==> Lower(ext) in SupportedExtensions
  {
    ExtNameOfName(stem, ext);
  }

  /** Upper-case `.JPG` is JPEG: the extension is lower-cased first. */
  lemma UpperCaseJpegIsJpeg(stem: string)
    requires stem != [] && '.' !in stem && '/' !in stem
    ensures MimeTypeFromExtension(stem + ".JPG") == "image/jpeg"
  {
    assert Lower(".JPG") == ".jpg";
    MimeOfName(stem, ".JPG");
  }

  /** Any extension outside the list, `.bmp` or `.svg` say, falls back to
      the octet stream and is unsupported. */
  lemma UnlistedExtensionIsOctetStream(filePath: string)
    requires Lower(ExtName(filePath)) !in SupportedExtensions
    ensures MimeTypeFromExtension(filePath) == OctetStream
    ensures !IsSupportedImage(filePath)
  {
    TableMatchesList(Lower(ExtName(filePath)));
  }

  /** A plain `stem.ext` name has extension `.ext`. */
  lemma ExtNameOfName(stem: string, ext: string)
    requires stem != [] && '.' !in stem && '/' !in stem
    requires |ext| > 1 && ext[0] == '.' && '.' !in ext[1..] && '/' !in ext
    ensures ExtName(stem + ext) == ext
  {
    var name := stem + ext;
    assert '/' !in name by {
      assert forall i :: 0 <= i < |name| ==> name[i] == if i < |stem| then stem[i] else ext[i - |stem|];
    }
    assert TrimTrailingSlashes(name) == name;
    assert LastIndexOf(name, '/') == -1;
    assert LastSegment(name) == name;
    assert name[|stem|] == '.';
    assert name[|stem| + 1..] == ext[1..];
    LastIndexOfUnique(name, '.', |stem|);
    assert name[|stem|..] == ext;
  }

  /** A file under a directory, `dir/stem.ext`, has extension `.ext`: the
      directory part plays no role. */
  lemma ExtNameInDirectory(dir: string, stem: string, ext: string)
    requires stem != [] && '.' !in stem && '/' !in stem
    requires |ext| > 1 && ext[0] == '.' && '.' !in ext[1..] && '/' !in ext
    ensures ExtName(dir + "/" + stem + ext) == ext
  {
    var name := stem + ext;
    assert dir + "/" + stem + ext == dir + "/" + name;
    assert '/' !in name by {
      assert forall i :: 0 <= i < |name| ==> name[i] == if i < |stem| then stem[i] else ext[i - |stem|];
    }
    SegmentAfterDirectory(dir, name);
    SlashFreeSegment(name);
    ExtNameOfName(stem, ext);
  }

  /** A slash-free name is its own final segment. */
  lemma SlashFreeSegment(name: string)
    requires name != [] && '/' !in name
    ensures LastSegment(name) == name
  {
    assert TrimTrailingSlashes(name) == name;
  }

  /** The final segment of `dir/name` is `name` when `name` has no slash. */
  lemma SegmentAfterDirectory(dir: string, name: string)
    requires name != [] && '/' !in name
    ensures LastSegment(dir + "/" + name) == name
  {
    var path := dir + "/" + name;
    assert path[|path| - 1] == name[|name| - 1];
    assert TrimTrailingSlashes(path) == path;
    assert path[|dir|] == '/' && path[|dir| + 1..] == name;
    LastIndexOfUnique(path, '/', |dir|);
  }

  /** `formatFileSize(0)` is "0 Bytes"; other sizes go through `Math.log`
      and float rounding and are not modelled (`None`). */
  function FormatFileSize(bytes: int): (r: Option<string>)
    ensures r.Some? <==> bytes == 0
    ensures bytes == 0 ==> r == Some("0 Bytes")
  {
    if bytes == 0 then Some("0 Bytes") else None
  }
}
