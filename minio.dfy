/** The object-store helpers: the image check used before an upload, the
    presigned-URL helper and the upload itself, against an abstract client
    holding one configured bucket. */
module Minio {
  import opened Outcomes
  import opened Text

  type Byte = bv8

  /** Seven days in seconds: the validity window of every URL handed out. */
  const SevenDays: int := 604800

  const ValidExtensions: seq<string> := [".jpg", ".jpeg", ".png"]

  /** Text of the error raised when presigning fails in the store. */
  const PresignFailedMessage: string := "Error generating presigned URL"

  /** Text of the client library's error for an expiry outside 1 s .. 7 days. */
  const ExpiryRangeMessage: string := "expires must be between 1 second to 7 days"

  const EmptyFileMessage: string := "File is empty"

  // ---------------------------------------------------------------------------
  // Extension extraction (`os.path.splitext` on POSIX paths)

  /** Some character of `s` at an index in lo .. hi-1 is not a dot. */
  predicate NonDotBetween(s: string, lo: int, hi: int)
  {
    exists i :: lo <= i < hi && 0 <= i < |s| && s[i] != '.'
  }

  /** The last path component of `p` holds a character other than a dot. */
  predicate NamedComponent(p: string)
  {
    NonDotBetween(p, RFind(p, '/') + 1, |p|)
  }

  /** A non-empty extension: a dot followed by characters that are neither a
      dot nor a path separator. */
  predicate IsExtension(e: string)
  {
    |e| >= 1 && e[0] == '.' && forall i :: 1 <= i < |e| ==> e[i] != '.' && e[i] != '/'
  }

  /** Where the extension of `p` starts: at the last dot, when that dot lies
      in the last path component and something other than a dot precedes it
      there; at |p| (no extension) otherwise, which covers hidden files such
      as `.png`. */
  function ExtStart(p: string): (k: nat)
    ensures k <= |p|
  {
    var sep := RFind(p, '/');
    var dot := RFind(p, '.');
    if dot > sep && NonDotBetween(p, sep + 1, dot) then dot else |p|
  }

  /** Root and extension, as `os.path.splitext` returns them. */
  function SplitExt(p: string): (string, string)
  {
    var k := ExtStart(p);
    (p[..k], p[k..])
  }

  /** The dot at `k` begins an extension of `p`. */
  predicate ExtensionAt(p: string, k: int)
  {
    && 0 <= k < |p| && p[k] == '.'
    && (forall i :: k < i < |p| ==> p[i] != '.' && p[i] != '/')
    && NonDotBetween(p, LastIndexBelow(p, '/', k) + 1, k)
  }

  /** ExtStart finds an extension exactly when there is one, and there is
      at most one place an extension can start. */
  lemma ExtStartCharacterised(p: string, k: int)
    ensures ExtStart(p) < |p| ==> ExtensionAt(p, ExtStart(p))
    ensures ExtensionAt(p, k) ==> ExtStart(p) == k
  {
    var sep := RFind(p, '/');
    var dot := RFind(p, '.');
    if dot > sep {
      LastIndexBelowUnique(p, '/', dot, sep);
    }
    if ExtensionAt(p, k) {
      var q := LastIndexBelow(p, '/', k);
      LastIndexBelowUnique(p, '.', |p|, k);
      LastIndexBelowUnique(p, '/', |p|, q);
    }
  }

  /** The root and the extension join back to the name; a non-empty
      extension is a dot followed by neither dots nor separators, and the
      root's last component is not all dots. */
  lemma SplitExtParts(p: string)
    ensures SplitExt(p).0 + SplitExt(p).1 == p
    ensures SplitExt(p).1 == [] || (IsExtension(SplitExt(p).1) && NamedComponent(SplitExt(p).0))
  {
    var k := ExtStart(p);
    var (stem, ext) := (p[..k], p[k..]);
    assert stem + ext == p;
    if k < |p| {
      ExtStartCharacterised(p, k);
      forall i | 1 <= i < |ext|
        ensures ext[i] != '.' && ext[i] != '/'
      {
        assert ext[i] == p[k + i];
      }
      LastIndexBelowAgree(stem, p, '/', k);
      var j :| LastIndexBelow(p, '/', k) + 1 <= j < k && 0 <= j < |p| && p[j] != '.';
      assert stem[j] != '.';
    }
  }

  /** Splitting a root joined with an extension gives both back, provided
      the root's last component is not all dots. */
  lemma SplitExtJoin(stem: string, ext: string)
    requires IsExtension(ext) && NamedComponent(stem)
    ensures SplitExt(stem + ext) == (stem, ext)
  {
    var p := stem + ext;
    var n := |stem|;
    LastIndexBelowAgree(stem, p, '/', n);
    var j :| RFind(stem, '/') + 1 <= j < n && 0 <= j < n && stem[j] != '.';
    assert p[j] != '.';
    forall i | n < i < |p|
      ensures p[i] != '.' && p[i] != '/'
    {
      assert p[i] == ext[i - n];
    }
    assert p[n] == ext[0];
    ExtStartCharacterised(p, n);
    assert p[..n] == stem && p[n..] == ext;
  }

  // ---------------------------------------------------------------------------
  // Image check

  /** An upload counts as an image when the lower-cased extension of its
      name is .jpg, .jpeg or .png and its content type starts with image/. */
  predicate IsImage(filename: string, contentType: string)
  {
    Lower(SplitExt(filename).1) in ValidExtensions && StartsWith(contentType, "image/")
  }

  lemma LowerKeepsSeparators(s: string, i: int)
    requires 0 <= i < |s|
    ensures Lower(s)[i] == '.' <==> s[i] == '.'
    ensures Lower(s)[i] == '/' <==> s[i] == '/'
  {
  }

  /** Every accepted extension, in any letter case, is an extension in the
      sense of SplitExt. */
  lemma ValidExtensionShape(ext: string)
    requires Lower(ext) in ValidExtensions
    ensures IsExtension(ext)
  {
    forall i | 0 <= i < |ext|
      ensures (i == 0) == (ext[i] == '.') && ext[i] != '/'
    {
      LowerKeepsSeparators(ext, i);
    }
  }

  /** Any root whose last component is not all dots, followed by an
      accepted extension in any letter case, with an image/ content type,
      passes the check. */
  lemma ImageNamesAccepted(stem: string, ext: string, contentType: string)
    requires NamedComponent(stem) && Lower(ext) in ValidExtensions
    requires StartsWith(contentType, "image/")
    ensures IsImage(stem + ext, contentType)
  {
    ValidExtensionShape(ext);
    SplitExtJoin(stem, ext);
  }

  /** Conversely, a name that passes is such a root followed by such an
      extension. */
  lemma ImageNamesDecompose(filename: string, contentType: string)
    requires IsImage(filename, contentType)
    ensures StartsWith(contentType, "image/")
    ensures var (stem, ext) := SplitExt(filename);
            filename == stem + ext && Lower(ext) in ValidExtensions && NamedComponent(stem)
  {
    SplitExtParts(filename);
  }

  /** Letter case in the name never changes the verdict. */
  lemma IsImageIgnoresCase(f: string, g: string, contentType: string)
    requires Lower(f) == Lower(g)
    ensures IsImage(f, contentType) == IsImage(g, contentType)
  {
    ExtStartIgnoresCase(f, g);
    var k := ExtStart(f);
    assert Lower(f[k..]) == Lower(g[k..]) by {
      forall i | 0 <= i < |f| - k
        ensures Lower(f[k..])[i] == Lower(g[k..])[i]
      {
        assert Lower(f[k..])[i] == Lower(f)[k + i];
        assert Lower(g[k..])[i] == Lower(g)[k + i];
      }
    }
  }

  lemma ExtStartIgnoresCase(f: string, g: string)
    requires Lower(f) == Lower(g)
    ensures |f| == |g| && ExtStart(f) == ExtStart(g)
  {
    assert |f| == |Lower(f)| == |g|;
    forall i | 0 <= i < |f|
      ensures (f[i] == '.') == (g[i] == '.') && (f[i] == '/') == (g[i] == '/')
    {
      LowerKeepsSeparators(f, i);
      LowerKeepsSeparators(g, i);
    }
    LastIndexBelowAgree(f, g, '/', |f|);
    LastIndexBelowAgree(f, g, '.', |f|);
    var sep, dot := RFind(f, '/'), RFind(f, '.');
    if NonDotBetween(f, sep + 1, dot) {
      var i :| sep + 1 <= i < dot && 0 <= i < |f| && f[i] != '.';
      assert g[i] != '.';
    }
    if NonDotBetween(g, sep + 1, dot) {
      var i :| sep + 1 <= i < dot && 0 <= i < |g| && g[i] != '.';
      assert f[i] != '.';
    }
  }

  /** A name without an extension is never an image, whatever the content
      type. */
  lemma NoExtensionNeverImage(filename: string, contentType: string)
    requires SplitExt(filename).1 == []
    ensures !IsImage(filename, contentType)
  {
    assert Lower(SplitExt(filename).1) == [];
  }

  /** Names without an extension include every name without a dot, and
      every name whose last dot is in a directory part (`a.d/photo`). */
  lemma NoDotInLastComponentMeansNoExtension(filename: string)
    requires forall i :: RFind(filename, '/') < i < |filename| ==> filename[i] != '.'
    ensures SplitExt(filename).1 == []
  {
  }

  /** A hidden file named only by an accepted extension (`.png`,
      `photos/.jpg`) has no extension either. */
  lemma HiddenFileNeverImage(dir: string, ext: string, contentType: string)
    requires Lower(ext) in ValidExtensions
    ensures !IsImage(ext, contentType)
    ensures !IsImage(dir + "/" + ext, contentType)
  {
    ValidExtensionShape(ext);
    LastIndexBelowUnique(ext, '.', |ext|, 0);
    LastIndexBelowUnique(ext, '/', |ext|, -1);
    var p := dir + "/" + ext;
    var n := |dir| + 1;
    forall i | n < i < |p|
      ensures p[i] != '.' && p[i] != '/'
    {
      assert p[i] == ext[i - n];
    }
    assert p[n] == ext[0] && p[n - 1] == '/';
    LastIndexBelowUnique(p, '.', |p|, n);
    LastIndexBelowUnique(p, '/', |p|, n - 1);
  }

  /** An upper-case extension is accepted: `X.PNG` with `image/png`. */
  lemma UpperCaseExtensionAccepted(stem: string)
    requires NamedComponent(stem)
    ensures IsImage(stem + ".PNG", "image/png")
  {
    var ext := ".PNG";
    assert Lower(ext) == ".png" by {
      assert |Lower(ext)| == 4;
      assert Lower(ext)[0] == '.' && Lower(ext)[1] == 'p';
      assert Lower(ext)[2] == 'n' && Lower(ext)[3] == 'g';
    }
    assert Lower(ext) in ValidExtensions by { assert ValidExtensions[2] == ".png"; }
    assert StartsWith("image/png", "image/");
    ImageNamesAccepted(stem, ext, "image/png");
  }

  // ---------------------------------------------------------------------------
  // The object store

  /** A presigned retrieval URL, represented by what it grants: read access
      to one object until an absolute time. */
  datatype Url = PresignedGet(bucket: string, objectName: string, expiresAt: int)

  /** The dictionary a successful upload returns. */
  datatype UrlInfo = UrlInfo(imgUrl: Url, urlExpire: int)

  /** An uploaded file as the web framework hands it over: a name and a
      content type when the client sent them, the size it reported, and the
      bytes a read returns. */
  datatype UploadedFile = UploadedFile(
    filename: Option<string>,
    contentType: Option<string>,
    size: Option<int>,
    content: seq<Byte>)

  /** The step at which the store or the file read raises, if any, with
      the text of what it raises. Presigning fails in two ways: a store
      error, which the helper replaces by its fixed message, and any other
      error, which passes through the helper with its own text. */
  datatype Fault =
    | NoFault
    | BucketFault(message: string)
    | ReadFault(message: string)
    | PutFault(message: string)
    | PresignFault
    | PresignError(message: string)

  /** The size used for the emptiness check: the reported size unless it is
      missing or zero, otherwise the length of the content read. */
  function FileSize(file: UploadedFile): int
  {
    if file.size.Some? && file.size.value != 0 then file.size.value else |file.content|
  }

  /** Whether the upload gets as far as writing the object: the bucket
      check and the read succeed, the file is not empty, the write succeeds. */
  predicate ReachesStore(file: UploadedFile, fault: Fault)
  {
    !fault.BucketFault? && !fault.ReadFault? && FileSize(file) > 0 && !fault.PutFault?
  }

  /** The pair an upload returns: an error message and an empty dictionary
      on failure, no message and the URL dictionary on success. The first
      failing step decides the message. */
  function UploadResult(bucket: string, file: UploadedFile, objectName: string, now: int, fault: Fault)
    : (r: (Option<string>, Option<UrlInfo>))
    ensures r.0.None? <==> r.1.Some?
    ensures r.0.None? <==> ReachesStore(file, fault) && fault.NoFault?
    ensures fault.BucketFault? || fault.ReadFault? ==> r.0 == Some(fault.message)
    ensures !fault.BucketFault? && !fault.ReadFault? && FileSize(file) <= 0 ==> r.0 == Some(EmptyFileMessage)
    ensures FileSize(file) > 0 && fault.PutFault? ==> r.0 == Some(fault.message)
    ensures ReachesStore(file, fault) && fault.PresignFault? ==> r.0 == Some(PresignFailedMessage)
    ensures ReachesStore(file, fault) && fault.PresignError? ==> r.0 == Some(fault.message)
    ensures r.1.Some? ==> r.1.value.urlExpire == now + SevenDays
                          && r.1.value.imgUrl == PresignedGet(bucket, objectName, r.1.value.urlExpire)
  {
    if fault.BucketFault? || fault.ReadFault? then (Some(fault.message), None)
    else if FileSize(file) <= 0 then (Some(EmptyFileMessage), None)
    else if fault.PutFault? then (Some(fault.message), None)
    else if fault.PresignFault? then (Some(PresignFailedMessage), None)
    else if fault.PresignError? then (Some(fault.message), None)
    else (None, Some(UrlInfo(PresignedGet(bucket, objectName, now + SevenDays), now + SevenDays)))
  }

  /** The store client, configured with one bucket name. */
  class MinioClient {
    const bucket: string
    var bucketExists: bool
    var objects: map<string, seq<Byte>>

    constructor (bucket: string, bucketExists: bool, objects: map<string, seq<Byte>>)
      ensures this.bucket == bucket && this.bucketExists == bucketExists && this.objects == objects
    {
      this.bucket := bucket;
      this.bucketExists := bucketExists;
      this.objects := objects;
    }

    /** A presigned GET URL for `objectName`, valid for `duration` seconds
        (seven days unless given). A store failure is reported with a fixed
        message; a duration outside 1 s .. 7 days is refused by the client
        library before the store is asked. */
    function GeneratePresignedUrl(objectName: string, now: int, fault: bool, duration: int := SevenDays)
      : (r: Result<Url, string>)
      ensures r.Ok? <==> 1 <= duration <= SevenDays && !fault
      ensures r.Ok? ==> r.value == PresignedGet(bucket, objectName, now + duration)
      ensures !(1 <= duration <= SevenDays) ==> r == Err(ExpiryRangeMessage)
      ensures 1 <= duration <= SevenDays && fault ==> r == Err(PresignFailedMessage)
    {
      if !(1 <= duration <= SevenDays) then Err(ExpiryRangeMessage)
      else if fault then Err(PresignFailedMessage)
      else Ok(PresignedGet(bucket, objectName, now + duration))
    }

    /** Uploads `file` under `objectName`. Every failure comes back as an
        error message with no URL; nothing is raised. The bucket is created
        first when missing, so it exists afterwards even when a later step
        fails; an object that was written stays written when presigning
        then fails. */
    method UploadFile(file: UploadedFile, objectName: string, now: int, fault: Fault)
      returns (error: Option<string>, info: Option<UrlInfo>)
      modifies this
      ensures (error, info) == UploadResult(bucket, file, objectName, now, fault)
      ensures bucketExists == (old(bucketExists) || !fault.BucketFault?)
      ensures objects == if ReachesStore(file, fault) then old(objects)[objectName := file.content]
                         else old(objects)
    {
      if fault.BucketFault? {
        return Some(fault.message), None;
      }
      if !bucketExists {
        bucketExists := true;
      }
      if fault.ReadFault? {
        return Some(fault.message), None;
      }
      var content := file.content;
      var size := FileSize(file);
      if size <= 0 {
        return Some(EmptyFileMessage), None;
      }
      if fault.PutFault? {
        return Some(fault.message), None;
      }
      objects := objects[objectName := content];
      if fault.PresignError? {
        return Some(fault.message), None;
      }
      var url := GeneratePresignedUrl(objectName, now, fault.PresignFault?, duration := SevenDays);
      if url.Err? {
        return Some(url.error), None;
      }
      return None, Some(UrlInfo(url.value, now + SevenDays));
    }
  }

  /** The helper's default validity is seven days. */
  lemma PresignDefaultsToSevenDays(client: MinioClient, objectName: string, now: int)
    ensures client.GeneratePresignedUrl(objectName, now, false)
            == Ok(PresignedGet(client.bucket, objectName, now + 604800))
  {
  }
}
