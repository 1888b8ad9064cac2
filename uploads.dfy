/**
 * The string handling of the ring editor's server (app/main.py): the
 * upload file-type check, the stored name and URL of an uploaded element,
 * and the stripping of the `data:image` prefix from an exported image.
 */
module Uploads {
  import opened Wrappers

  /** The file extensions an upload may have (`ALLOWED_EXTENSIONS`). */
  const AllowedExtensions: set<string> := {"png", "jpg", "jpeg", "gif"}

  /** Where uploaded elements are served from. */
  const ElementsUrlPrefix: string := "/static/images/elements/"

  /** The prefix that marks an exported image as a data URL. */
  const DataImagePrefix: string := "data:image"

  // ---------------------------------------------------------------------
  // String helpers with Python's meaning

  /** ASCII lower-casing of one character. */
  function LowerChar(c: char): char
  {
    if 'A' <= c <= 'Z' then (c as int + 32) as char else c
  }

  /** `s.lower()`, on ASCII letters. */
  function Lower(s: string): (r: string)
    ensures |r| == |s|
    ensures forall i :: 0 <= i < |s| && 'A' <= s[i] <= 'Z' ==> r[i] as int == s[i] as int + 32
    ensures forall i :: 0 <= i < |s| && !('A' <= s[i] <= 'Z') ==> r[i] == s[i]
    ensures forall i :: 0 <= i < |r| ==> !('A' <= r[i] <= 'Z')
  {
    seq(|s|, i requires 0 <= i < |s| => LowerChar(s[i]))
  }

  /** Lower-casing twice is lower-casing once. */
  lemma LowerIdempotent(s: string)
    ensures Lower(Lower(s)) == Lower(s)
  {
  }

  predicate StartsWith(s: string, prefix: string)
  {
    |prefix| <= |s| && s[..|prefix|] == prefix
  }

  /** `s.rfind(c)`: the index of the last occurrence of `c`, if any. */
  function LastIndexOf(s: string, c: char): (r: Option<nat>)
    ensures r.None? ==> forall k :: 0 <= k < |s| ==> s[k] != c
    ensures r.Some? ==> r.value < |s| && s[r.value] == c && forall k :: r.value < k < |s| ==> s[k] != c
  {
    if |s| == 0 then None
    else if s[|s| - 1] == c then Some(|s| - 1)
    else LastIndexOf(s[..|s| - 1], c)
  }

  /** `rfind` finds nothing exactly when `c` does not occur. */
  lemma LastIndexOfNone(s: string, c: char)
    ensures LastIndexOf(s, c).None? <==> c !in s
  {
    if LastIndexOf(s, c).Some? {
      assert s[LastIndexOf(s, c).value] == c;
    }
  }

  /** An occurrence of `c` with none after it is the one `rfind` finds. */
  lemma LastIndexOfAt(s: string, c: char, i: nat)
    requires i < |s| && s[i] == c
    requires forall k :: i < k < |s| ==> s[k] != c
    ensures LastIndexOf(s, c) == Some(i)
  {
  }

  /** Appending text without `c` does not move the last occurrence of `c`. */
  lemma LastIndexOfAppend(s: string, t: string, c: char)
    requires c !in t
    ensures LastIndexOf(s + t, c) == LastIndexOf(s, c)
  {
    match LastIndexOf(s, c)
    case None =>
      assert forall k :: 0 <= k < |s + t| ==> (s + t)[k] != c by {
        assert forall k :: |s| <= k < |s + t| ==> (s + t)[k] == t[k - |s|];
      }
    case Some(i) =>
      assert forall k :: |s| <= k < |s + t| ==> (s + t)[k] == t[k - |s|];
      LastIndexOfAt(s + t, c, i);
  }

  // ---------------------------------------------------------------------
  // allowed_file

  /**
   * `allowed_file`: the name has a '.', and the text after the last '.',
   * lower-cased, is one of the allowed extensions.
   */
  function AllowedFile(filename: string): (ok: bool)
    ensures ok ==> '.' in filename
  {
    match LastIndexOf(filename, '.')
    case None => false
    case Some(i) => Lower(filename[i + 1..]) in AllowedExtensions
  }

  /** `filename` is `stem`, a '.', then `ext`, and `ext` has no '.' of its own. */
  predicate ExtensionSplit(filename: string, stem: string, ext: string)
  {
    filename == stem + "." + ext && '.' !in ext
  }

  /** Only the text after the last '.' decides, whatever the stem holds. */
  lemma AllowedFileLooksAtLastExtension(stem: string, ext: string)
    requires '.' !in ext
    ensures AllowedFile(stem + "." + ext) <==> Lower(ext) in AllowedExtensions
  {
    var f := stem + "." + ext;
    assert forall k :: |stem| < k < |f| ==> f[k] == ext[k - |stem| - 1];
    LastIndexOfAt(f, '.', |stem|);
    assert f[|stem| + 1..] == ext;
  }

  /**
   * The file check holds exactly when the name splits at its last '.' into
   * a stem and an extension whose lower-cased form is allowed.
   */
  lemma AllowedFileIff(filename: string)
    ensures AllowedFile(filename) <==>
      exists stem, ext :: ExtensionSplit(filename, stem, ext) && Lower(ext) in AllowedExtensions
  {
    if AllowedFile(filename) {
      var i := LastIndexOf(filename, '.').value;
      var stem, ext := filename[..i], filename[i + 1..];
      assert filename == stem + "." + ext;
      assert '.' !in ext by {
        assert forall k :: 0 <= k < |ext| ==> ext[k] == filename[i + 1 + k];
      }
      assert ExtensionSplit(filename, stem, ext);
    }
    if exists stem, ext :: ExtensionSplit(filename, stem, ext) && Lower(ext) in AllowedExtensions {
      var stem, ext :| ExtensionSplit(filename, stem, ext) && Lower(ext) in AllowedExtensions;
      AllowedFileLooksAtLastExtension(stem, ext);
    }
  }

  /** A double extension counts by its last part, in any case: "a.tar.PNG" is accepted. */
  lemma AcceptsLastExtensionInAnyCase()
    ensures AllowedFile("a.tar.PNG")
  {
    AllowedFileLooksAtLastExtension("a.tar", "PNG");
    assert "a.tar" + "." + "PNG" == "a.tar.PNG";
    assert Lower("PNG") == "png";
  }

  /** An allowed extension followed by another one does not pass: "x.png.exe" is rejected. */
  lemma RejectsHiddenExtension()
    ensures !AllowedFile("x.png.exe")
  {
    AllowedFileLooksAtLastExtension("x.png", "exe");
    assert "x.png" + "." + "exe" == "x.png.exe";
    assert Lower("exe") == "exe";
  }

  /** A trailing '.' gives the empty extension: "file." is rejected. */
  lemma RejectsTrailingDot()
    ensures !AllowedFile("file.")
  {
    AllowedFileLooksAtLastExtension("file", "");
    assert "file" + "." + "" == "file.";
    assert Lower("") == "";
  }

  // ---------------------------------------------------------------------
  // upload_element

  /** Some character of `p` in [lo, hi) is not a '.'. */
  predicate HasNonDot(p: string, lo: int, hi: int)
    requires 0 <= lo && hi <= |p|
  {
    exists k :: lo <= k < hi && p[k] != '.'
  }

  /** The index of the last '/' of `p`, or -1 when there is none. */
  function LastSep(p: string): (r: int)
    ensures -1 <= r < |p|
    ensures r >= 0 ==> p[r] == '/'
    ensures forall k :: r < k < |p| ==> p[k] != '/'
  {
    match LastIndexOf(p, '/')
    case None => -1
    case Some(j) => j
  }

  /**
   * Where `os.path.splitext` on a POSIX path starts the extension: at the
   * last '.' of the last path component, unless that component holds only
   * dots before it (as in ".bashrc"); `None` when there is no extension.
   */
  function ExtStart(p: string): Option<nat>
  {
    var sep := LastSep(p);
    match LastIndexOf(p, '.')
    case None => None
    case Some(dot) =>
      if dot > sep && HasNonDot(p, sep + 1, dot) then Some(dot) else None
  }

  /** Text free of '.' and '/'. */
  predicate IsPlain(s: string)
  {
    forall k :: 0 <= k < |s| ==> s[k] != '.' && s[k] != '/'
  }

  /** `os.path.splitext`: the path cut into its root and its extension. */
  function SplitExt(p: string): (r: (string, string))
    ensures r.0 + r.1 == p
    ensures r.1 == "" || (r.1[0] == '.' && IsPlain(r.1[1..]))
  {
    match ExtStart(p)
    case None => (p, "")
    case Some(dot) =>
      assert p[..dot] + p[dot..] == p;
      var after := p[dot + 1..];
      assert IsPlain(after) by {
        forall j | 0 <= j < |after|
          ensures after[j] != '.' && after[j] != '/'
        {
          assert after[j] == p[dot + 1 + j];
        }
      }
      (p[..dot], p[dot..])
  }

  /**
   * `splitext` of a root, a '.' and text free of '.' and '/': the extension
   * is found exactly when the last path component of the root holds a
   * character other than '.', and it is then the '.' with the text after it.
   */
  lemma SplitExtAtLastDot(root: string, e: string)
    requires IsPlain(e)
    ensures HasNonDot(root, LastSep(root) + 1, |root|) ==> SplitExt(root + "." + e) == (root, "." + e)
    ensures !HasNonDot(root, LastSep(root) + 1, |root|) ==> SplitExt(root + "." + e) == (root + "." + e, "")
  {
    var ext := "." + e;
    var p := root + ext;
    assert root + "." + e == p;
    assert forall k :: |root| < k < |p| ==> p[k] == e[k - |root| - 1];
    LastIndexOfAt(p, '.', |root|);
    assert '/' !in ext by {
      assert forall k :: 1 <= k < |ext| ==> ext[k] == e[k - 1];
    }
    LastIndexOfAppend(root, ext, '/');
    assert LastSep(p) == LastSep(root);
    assert forall k :: 0 <= k < |root| ==> p[k] == root[k];
    assert HasNonDot(p, LastSep(p) + 1, |root|) == HasNonDot(root, LastSep(root) + 1, |root|);
    if HasNonDot(root, LastSep(root) + 1, |root|) {
      assert ExtStart(p) == Some(|root|);
      assert p[..|root|] == root && p[|root|..] == ext;
    }
  }

  /** "photo.png" splits into "photo" and ".png". */
  lemma SplitExtOfPhoto()
    ensures SplitExt("photo.png") == ("photo", ".png")
  {
    assert IsPlain("png");
    assert LastSep("photo") == -1 by {
      LastIndexOfNone("photo", '/');
    }
    assert "photo"[0] != '.';
    SplitExtAtLastDot("photo", "png");
    assert "photo" + "." + "png" == "photo.png";
  }

  /** A leading '.' does not start an extension: ".bashrc" has none. */
  lemma SplitExtOfHiddenFile()
    ensures SplitExt(".bashrc") == (".bashrc", "")
  {
    assert IsPlain("bashrc");
    assert LastSep("") == -1;
    assert !HasNonDot("", LastSep("") + 1, 0);
    SplitExtAtLastDot("", "bashrc");
    assert "" + "." + "bashrc" == ".bashrc";
  }

  /** An upload named "ring.PNG" is stored as "ring", '_', the timestamp and ".PNG". */
  lemma StoredFilenameOfRing(timestamp: string)
    requires IsTimestamp(timestamp)
    ensures StoredFilename("ring.PNG", timestamp) == "ring_" + timestamp + ".PNG"
  {
    assert IsPlain("PNG");
    assert LastSep("ring") == -1 by {
      LastIndexOfNone("ring", '/');
    }
    assert "ring"[0] != '.';
    SplitExtAtLastDot("ring", "PNG");
    assert "ring" + "." + "PNG" == "ring.PNG";
  }

  /** A timestamp of the form `%Y%m%d_%H%M%S`: digits and underscores only. */
  predicate IsTimestamp(ts: string)
  {
    forall k :: 0 <= k < |ts| ==> '0' <= ts[k] <= '9' || ts[k] == '_'
  }

  /** The stored name of an upload: its stem, '_', the timestamp, then its extension. */
  function StoredFilename(secured: string, timestamp: string): (r: string)
    ensures |r| == |secured| + 1 + |timestamp|
    ensures StartsWith(r, SplitExt(secured).0 + "_" + timestamp)
    ensures var ext := r[|SplitExt(secured).0| + 1 + |timestamp|..];
      ext == SplitExt(secured).1 && (ext == "" || ext[0] == '.')
  {
    var (name, ext) := SplitExt(secured);
    name + "_" + timestamp + ext
  }

  /**
   * Splitting the stored name again gives back the upload's extension and,
   * as stem, the upload's stem with the timestamp attached.
   */
  lemma StoredFilenameKeepsExtension(secured: string, timestamp: string)
    requires IsTimestamp(timestamp)
    ensures SplitExt(StoredFilename(secured, timestamp)) ==
      (SplitExt(secured).0 + "_" + timestamp, SplitExt(secured).1)
  {
    var suffix := "_" + timestamp;
    assert IsPlain(suffix) by {
      assert forall k :: 1 <= k < |suffix| ==> suffix[k] == timestamp[k - 1];
    }
    var (name, ext) := SplitExt(secured);
    assert name + "_" + timestamp + ext == name + suffix + ext;
    match ExtStart(secured)
    case None =>
      assert name == secured && ext == "";
      NoExtensionStaysNone(secured, suffix);
      assert StoredFilename(secured, timestamp) == secured + suffix;
      assert SplitExt(secured + suffix) == (secured + suffix, "");
      assert secured + suffix == secured + "_" + timestamp;
    case Some(dot) =>
      assert ext == secured[dot..] && ext != "";
      ExtensionAfterSuffix(name, ext, suffix);
  }

  /** A name without extension keeps none when plain text is appended. */
  lemma NoExtensionStaysNone(p: string, suffix: string)
    requires ExtStart(p).None? && IsPlain(suffix)
    ensures ExtStart(p + suffix).None?
  {
    var q := p + suffix;
    assert forall k :: |p| <= k < |q| ==> q[k] == suffix[k - |p|];
    assert '/' !in suffix && '.' !in suffix;
    LastIndexOfAppend(p, suffix, '/');
    LastIndexOfAppend(p, suffix, '.');
    var sep := LastSep(p);
    match LastIndexOf(p, '.')
    case None =>
    case Some(dot) =>
      if dot > sep {
        assert forall k :: sep + 1 <= k < dot ==> q[k] == p[k];
        assert HasNonDot(q, sep + 1, dot) == HasNonDot(p, sep + 1, dot);
      }
  }

  /**
   * Plain text led by '_' inserted in front of an extension joins the stem,
   * and the extension stays as it was.
   */
  lemma ExtensionAfterSuffix(name: string, ext: string, suffix: string)
    requires ext != "" && ext[0] == '.' && IsPlain(ext[1..])
    requires suffix != [] && suffix[0] == '_' && IsPlain(suffix)
    ensures SplitExt(name + suffix + ext) == (name + suffix, ext)
  {
    var q := name + suffix + ext;
    var dot := |name| + |suffix|;
    assert forall k :: dot < k < |q| ==> q[k] == ext[1..][k - dot - 1];
    assert forall k :: |name| <= k < dot ==> q[k] == suffix[k - |name|];
    LastIndexOfAt(q, '.', dot);
    assert forall k :: |name| <= k < |q| ==> q[k] != '/';
    assert LastSep(q) < |name|;
    assert q[|name|] == '_';
    assert HasNonDot(q, LastSep(q) + 1, dot);
    assert ExtStart(q) == Some(dot);
    assert q[..dot] == name + suffix;
    assert q[dot..] == ext;
  }

  datatype UploadError = NoFileProvided | NoFileSelected | InvalidFileType
  {
    /** The message of the HTTP 400 reply. */
    function Message(): string
    {
      match this
      case NoFileProvided => "No file provided"
      case NoFileSelected => "No file selected"
      case InvalidFileType => "Invalid file type"
    }
  }

  /** Where an accepted upload is stored and the URL it is served at. */
  datatype StoredUpload = StoredUpload(filename: string, url: string)

  /**
   * `upload_element`: `file` is the name of the uploaded file (`None` when
   * the request has no file part), `secureFilename` stands for werkzeug's
   * name sanitiser and `timestamp` for the formatted current time.
   */
  function UploadElement(file: Option<string>, secureFilename: string -> string, timestamp: string)
    : (r: Result<StoredUpload, UploadError>)
    ensures file.None? ==> r == Failure(NoFileProvided)
    ensures file == Some("") ==> r == Failure(NoFileSelected)
    ensures file.Some? && file.value != "" && !AllowedFile(file.value) ==> r == Failure(InvalidFileType)
    ensures r.Success? <==> file.Some? && AllowedFile(file.value)
    ensures r.Success? ==> r.value.filename == StoredFilename(secureFilename(file.value), timestamp)
    ensures r.Success? ==> StartsWith(r.value.url, ElementsUrlPrefix)
    ensures r.Success? ==> r.value.url[|ElementsUrlPrefix|..] == r.value.filename
  {
    match file
    case None => Failure(NoFileProvided)
    case Some(name) =>
      if name == "" then Failure(NoFileSelected)
      else if AllowedFile(name) then
        var filename := StoredFilename(secureFilename(name), timestamp);
        var url := ElementsUrlPrefix + filename;
        assert url[..|ElementsUrlPrefix|] == ElementsUrlPrefix;
        Success(StoredUpload(filename, url))
      else Failure(InvalidFileType)
  }

  // ---------------------------------------------------------------------
  // export_image

  /** The fields joined back together with `sep` between them. */
  function Join(fields: seq<string>, sep: char): string
  {
    if fields == [] then ""
    else if |fields| == 1 then fields[0]
    else fields[0] + [sep] + Join(fields[1..], sep)
  }

  /** `s.split(sep)`: the pieces between the occurrences of `sep`. */
  function Split(s: string, sep: char): (fields: seq<string>)
    ensures fields != []
  {
    if s == [] then [""]
    else
      var rest := Split(s[1..], sep);
      if s[0] == sep then [""] + rest
      else [[s[0]] + rest[0]] + rest[1..]
  }

  /** Joining the fields of a split gives back the text. */
  lemma {:induction false} SplitJoin(s: string, sep: char)
    ensures Join(Split(s, sep), sep) == s
    decreases |s|
  {
    if s != [] {
      var rest := Split(s[1..], sep);
      SplitJoin(s[1..], sep);
      assert [s[0]] + s[1..] == s;
      if s[0] != sep {
        var fields := Split(s, sep);
        assert fields[1..] == rest[1..];
        if |rest| > 1 {
          assert Join(rest, sep) == rest[0] + [sep] + Join(rest[1..], sep);
        }
      }
    }
  }

  /** No field of a split holds the separator. */
  lemma {:induction false} SplitFieldsLackSep(s: string, sep: char)
    ensures forall i :: 0 <= i < |Split(s, sep)| ==> sep !in Split(s, sep)[i]
    decreases |s|
  {
    if s != [] {
      var rest := Split(s[1..], sep);
      SplitFieldsLackSep(s[1..], sep);
      if s[0] != sep {
        var fields := Split(s, sep);
        assert forall i :: 1 <= i < |fields| ==> fields[i] == rest[i];
        assert sep !in [s[0]] + rest[0];
      }
    }
  }

  /** A split has a second field exactly when the separator occurs. */
  lemma {:induction false} SplitHasSecondField(s: string, sep: char)
    ensures |Split(s, sep)| >= 2 <==> sep in s
    decreases |s|
  {
    if s != [] {
      SplitHasSecondField(s[1..], sep);
      assert s == [s[0]] + s[1..];
    }
  }

  /** A field free of `sep` followed by `sep` splits off as the first field. */
  lemma {:induction false} SplitAfterField(field: string, rest: string, sep: char)
    requires sep !in field
    ensures Split(field + [sep] + rest, sep) == [field] + Split(rest, sep)
    decreases |field|
  {
    var s := field + [sep] + rest;
    if field == [] {
      assert s[1..] == rest;
    } else {
      assert s[1..] == field[1..] + [sep] + rest;
      assert sep !in field[1..] by {
        assert forall k :: 0 <= k < |field[1..]| ==> field[1..][k] == field[k + 1];
      }
      SplitAfterField(field[1..], rest, sep);
      assert [field[0]] + field[1..] == field;
    }
  }

  /** Text without `sep` splits into itself alone. */
  lemma {:induction false} SplitWhole(field: string, sep: char)
    requires sep !in field
    ensures Split(field, sep) == [field]
  {
    SplitHasSecondField(field, sep);
    SplitJoin(field, sep);
  }

  datatype ExportError = NoImageData | MissingPayload
  {
    /** HTTP status of the reply: 400 for no data, 500 for the failed index. */
    function Status(): int
    {
      match this
      case NoImageData => 400
      case MissingPayload => 500
    }

    function Message(): string
    {
      match this
      case NoImageData => "No image data provided"
      case MissingPayload => "list index out of range"
    }
  }

  /**
   * The data-URL handling of `export_image`: `imageData` is the request's
   * `image_data` (`None` when absent). Data-URL input keeps its second
   * ','-separated field, which fails when there is no ','; other input
   * passes through.
   */
  function StripDataUrlPrefix(imageData: Option<string>): (r: Result<string, ExportError>)
    ensures imageData.None? || imageData == Some("") ==> r == Failure(NoImageData)
    ensures imageData.Some? && imageData.value != "" && !StartsWith(imageData.value, DataImagePrefix) ==>
      r == Success(imageData.value)
    ensures imageData.Some? && StartsWith(imageData.value, DataImagePrefix) ==>
      (r == Failure(MissingPayload) <==> ',' !in imageData.value)
    ensures r.Success? && StartsWith(imageData.value, DataImagePrefix) ==> ',' !in r.value
  {
    match imageData
    case None => Failure(NoImageData)
    case Some(data) =>
      if data == "" then Failure(NoImageData)
      else if StartsWith(data, DataImagePrefix) then
        var fields := Split(data, ',');
        SplitHasSecondField(data, ',');
        SplitFieldsLackSep(data, ',');
        if |fields| < 2 then Failure(MissingPayload) else Success(fields[1])
      else Success(data)
  }

  /**
   * For a data URL `header,payload` followed by nothing or by a further
   * ','-led part, the text kept is exactly `payload`.
   */
  lemma StripDataUrlKeepsPayload(header: string, payload: string, tail: string)
    requires StartsWith(header, DataImagePrefix) && ',' !in header && ',' !in payload
    requires tail == "" || tail[0] == ','
    ensures StripDataUrlPrefix(Some(header + "," + payload + tail)) == Success(payload)
  {
    var data := header + "," + payload + tail;
    assert data[..|DataImagePrefix|] == header[..|DataImagePrefix|];
    assert data == header + [','] + (payload + tail);
    SplitAfterField(header, payload + tail, ',');
    if tail == "" {
      assert payload + tail == payload;
      SplitWhole(payload, ',');
    } else {
      assert payload + tail == payload + [','] + tail[1..];
      SplitAfterField(payload, tail[1..], ',');
    }
  }
}
