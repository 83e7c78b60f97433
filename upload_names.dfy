/**
 * What the two upload scripts (server/load_image_service.py and
 * service/load_image_service.py) compute before and after talking to S3:
 * the image check, the object name an image is stored under, the key of
 * its analysis and its public URL. Both scripts carry identical copies of
 * `is_valid_image` and `sanitize_filename`, so they are defined once here.
 *
 * The file system is an input: whether the path is a file and its size
 * in bytes; so is the `datetime.now()` timestamp.
 */
module UploadNames {
  import opened PyStr
  import opened S3Layout

  /** `ALLOWED_IMAGE_EXTENSIONS`. */
  const AllowedExtensions: set<string> := {"png", "jpg", "jpeg"}

  /** `MAX_IMAGE_SIZE_MB`. */
  const MaxImageSizeMb: nat := 10

  /** `1024 * 1024`, the divisor that turns bytes into megabytes. */
  const BytesPerMb: nat := 1024 * 1024

  /** `os.path.splitext(file_path)[1][1:].lower()`: the extension without
      its dot, lower-cased; "" when the path has none. */
  function FileExtension(path: string): (ext: string)
    ensures '.' !in ext && '/' !in ext
    ensures |ext| == if SplitExt(path).1 == "" then 0 else |SplitExt(path).1| - 1
  {
    var e := SplitExt(path).1;
    if e == "" then ""
    else
      LoweredExtension(e);
      Lower(e[1..])
  }

  /** An extension without its dot and lower-cased holds no '.' and no '/'. */
  lemma LoweredExtension(e: string)
    requires IsExtension(e) && e != ""
    ensures '.' !in Lower(e[1..]) && '/' !in Lower(e[1..])
  {
    var tail := e[1..];
    assert forall k | 0 <= k < |tail| :: tail[k] == e[k + 1];
    var r := Lower(tail);
    assert forall k | 0 <= k < |r| :: r[k] == LowerChar(tail[k]);
  }

  /** A file name "stem.ext" of one path segment, whose stem is not only
      dots and whose extension holds neither '.' nor '/', has that
      extension, lower-cased. */
  lemma FileExtensionOfName(stem: string, ext: string)
    requires !AllDots(stem) && '/' !in stem
    requires '.' !in ext && '/' !in ext
    ensures FileExtension(stem + "." + ext) == Lower(ext)
  {
    SplitExtOfName(stem, ext);
    assert ("." + ext)[1..] == ext;
  }

  /** The checked extension of a path is that of its last segment: the
      folders in front of it play no part. */
  lemma FileExtensionInFolder(folder: string, name: string)
    requires folder != [] && folder[|folder| - 1] == '/' && '/' !in name
    ensures FileExtension(folder + name) == FileExtension(name)
  {
    SplitExtInFolder(folder, name);
  }

  /** A path such as "./img/cat.png": a folder part, then "stem.ext". */
  lemma FileExtensionOfPath(folder: string, stem: string, ext: string)
    requires folder != [] && folder[|folder| - 1] == '/'
    requires !AllDots(stem) && '/' !in stem
    requires '.' !in ext && '/' !in ext
    ensures FileExtension(folder + (stem + "." + ext)) == Lower(ext)
  {
    FileExtensionInFolder(folder, stem + "." + ext);
    FileExtensionOfName(stem, ext);
  }

  /** A path without any '.' has the empty extension, which is refused. */
  lemma FileExtensionWithoutDot(path: string)
    requires '.' !in path
    ensures FileExtension(path) == ""
  {
    assert RFind(path, '.') == -1;
  }

  /** `os.path.getsize(file_path) / (1024 * 1024)`: Python's true division,
      taken on reals. The double Python computes is this quotient exactly
      for sizes below 2^53 bytes and its correct rounding beyond; the
      comparison with 10 comes out the same either way, because rounding
      is monotone and 10.0 is exact. */
  function SizeInMb(size: nat): real {
    size as real / BytesPerMb as real
  }

  /** The megabyte ceiling is a byte ceiling: a size is over 10 MB exactly
      when it is more than 10485760 bytes, so 10485760 itself passes. */
  lemma SizeCeiling(size: nat)
    ensures SizeInMb(size) > MaxImageSizeMb as real <==> size > MaxImageSizeMb * BytesPerMb
  {
  }

  /** The outcome of `is_valid_image`, naming the check that refused. */
  datatype ImageCheck = NotAFile | TypeNotAllowed(ext: string) | TooLarge(sizeMb: real) | ValidImage

  /** `is_valid_image`: existence first, then the extension, then the size. */
  function CheckImage(path: string, isFile: bool, size: nat): (c: ImageCheck)
    ensures c == NotAFile <==> !isFile
    ensures c.TypeNotAllowed? <==> isFile && FileExtension(path) !in AllowedExtensions
    ensures c.TypeNotAllowed? ==> c.ext == FileExtension(path)
    ensures c.TooLarge? <==> isFile && FileExtension(path) in AllowedExtensions && size > MaxImageSizeMb * BytesPerMb
    ensures c == ValidImage <==> isFile && FileExtension(path) in AllowedExtensions && size <= MaxImageSizeMb * BytesPerMb
  {
    SizeCeiling(size);
    if !isFile then NotAFile
    else
      var ext := FileExtension(path);
      if ext !in AllowedExtensions then TypeNotAllowed(ext)
      else if SizeInMb(size) > MaxImageSizeMb as real then TooLarge(SizeInMb(size))
      else ValidImage
  }

  /** `is_valid_image(file_path)`. */
  predicate IsValidImage(path: string, isFile: bool, size: nat) {
    CheckImage(path, isFile, size) == ValidImage
  }

  /** `base_name.lower().replace(" ", "_")`. */
  function SanitizedBase(base: string): (r: string)
    ensures |r| == |base|
    ensures forall k | 0 <= k < |base| :: r[k] == if LowerChar(base[k]) == ' ' then '_' else LowerChar(base[k])
    ensures ' ' !in r
  {
    var lowered := Lower(base);
    ReplaceCharAt(lowered, ' ', '_');
    Replace(lowered, " ", "_")
  }

  /** `sanitize_filename(original_filename)` with the timestamp
      `datetime.now().strftime("%Y%m%d_%H%M%S")` as input: the stem
      lower-cased with spaces turned into underscores, then "_", the
      timestamp, and the original extension with its case kept. */
  function SanitizeFilename(name: string, timestamp: string): (r: string)
    ensures |r| == |name| + 1 + |timestamp|
    ensures EndsWith(r, "_" + timestamp + SplitExt(name).1)
    ensures var base := SplitExt(name).0;
      forall k | 0 <= k < |base| :: r[k] == if LowerChar(name[k]) == ' ' then '_' else LowerChar(name[k])
  {
    var (base, ext) := SplitExt(name);
    Concat(base, ext);
    var s := SanitizedBase(base);
    var tail := "_" + timestamp + ext;
    Concat(s, tail);
    s + tail
  }

  /** Lower-casing and underscoring keep every character that is neither a
      letter nor a space; in particular they never make a '/' or a '.'. */
  lemma SanitizedBaseKeeps(base: string, c: char)
    requires c == '/' || c == '.'
    ensures forall k | 0 <= k < |base| :: SanitizedBase(base)[k] == c <==> base[k] == c
  {
  }

  /** A name that has no '/' and a timestamp that has neither '/' nor '.'
      give a sanitized name without '/'. */
  lemma SanitizedHasNoSlash(name: string, timestamp: string)
    requires '/' !in name && '/' !in timestamp
    ensures '/' !in SanitizeFilename(name, timestamp)
  {
    var (base, ext) := SplitExt(name);
    NotInParts(base, ext, '/');
    var s := SanitizedBase(base);
    assert '/' !in s by {
      SanitizedBaseKeeps(base, '/');
      assert forall k | 0 <= k < |s| :: s[k] != '/';
    }
    var tail := "_" + timestamp + ext;
    assert SanitizeFilename(name, timestamp) == s + tail;
  }

  /** A character missing from a concatenation is missing from both parts. */
  lemma NotInParts(a: string, b: string, c: char)
    requires c !in a + b
    ensures c !in a && c !in b
  {
    assert forall k | 0 <= k < |a| :: (a + b)[k] == a[k];
    assert forall k | 0 <= k < |b| :: (a + b)[|a| + k] == b[k];
  }

  /** Sanitizing keeps the extension: for a name without '/' and a
      timestamp without '/' or '.', `os.path.splitext` cuts the sanitized
      name into the sanitized stem + "_" + timestamp and the original
      extension. */
  lemma SanitizedKeepsExtension(name: string, timestamp: string)
    requires '/' !in name && '/' !in timestamp && '.' !in timestamp
    ensures SplitExt(SanitizeFilename(name, timestamp)) ==
      (SanitizedBase(SplitExt(name).0) + "_" + timestamp, SplitExt(name).1)
  {
    var (base, ext) := SplitExt(name);
    var stamped := SanitizedBase(base) + "_" + timestamp;
    var r := SanitizeFilename(name, timestamp);
    assert r == stamped + ext;
    assert name == base + ext;
    SanitizedHasNoSlash(name, timestamp);
    NoSlashRFind(r);
    NoSlashRFind(name);
    if ext != [] {
      assert stamped[|stamped| - 1] != '.' by {
        assert '.' !in timestamp;
        if timestamp == [] {
          assert stamped[|SanitizedBase(base)|] == '_';
        } else {
          assert stamped[|stamped| - 1] == timestamp[|timestamp| - 1];
        }
      }
      assert '/' !in stamped;
      SplitExtAfterStem(stamped, ext);
    } else {
      StampedDots(name, timestamp);
    }
  }

  /** A '/'-free stem that does not end in '.', followed by an extension,
      is cut by `os.path.splitext` right before that extension. */
  lemma SplitExtAfterStem(stem: string, ext: string)
    requires '/' !in stem && '/' !in ext
    requires stem != [] && stem[|stem| - 1] != '.'
    requires IsExtension(ext) && ext != []
    ensures SplitExt(stem + ext) == (stem, ext)
  {
    var r := stem + ext;
    assert RFind(r, '/') == -1 by {
      assert '/' !in r;
      NoSlashRFind(r);
    }
    assert RFind(r, '.') == |stem| by {
      ExtensionDot(ext);
      RFindRightPart(stem, ext, '.');
    }
    assert !AllDots(r[0..|stem|]) by {
      assert r[0..|stem|] == stem;
    }
    assert r[..|stem|] == stem && r[|stem|..] == ext;
  }

  /** A name that `os.path.splitext` leaves whole stays whole once sanitized. */
  lemma StampedDots(name: string, timestamp: string)
    requires '/' !in name && '/' !in timestamp && '.' !in timestamp
    requires SplitExt(name).1 == []
    ensures SplitExt(SanitizedBase(name) + "_" + timestamp) == (SanitizedBase(name) + "_" + timestamp, "")
  {
    var s := SanitizedBase(name);
    var tail := "_" + timestamp;
    var r := s + tail;
    assert s + "_" + timestamp == r;
    assert '/' !in r by {
      SanitizedBaseKeeps(name, '/');
      assert forall k | 0 <= k < |s| :: s[k] != '/';
    }
    var d := RFind(name, '.');
    assert RFind(r, '.') == d by {
      SanitizedBaseKeeps(name, '.');
      RFindLeftPart(s, tail, '.');
      RFindSamePlaces(s, name, '.');
    }
    SplitExtOfPlain(name);
    SplitExtOfPlain(r);
    if d >= 0 {
      assert AllDots(r[0..d]) <==> AllDots(name[0..d]) by {
        SanitizedBaseKeeps(name, '.');
        Concat(s, tail);
        AllDotsSamePlaces(r, name, d);
      }
    }
  }

  /** `f"{S3_ANALYSIS_PREFIX}{os.path.splitext(sanitized_filename)[0]}.json"`,
      the key `get_analysis_json` reads. */
  function AnalysisKey(sanitized: string): (key: string)
    ensures StartsWith(key, AnalysisPrefix) && EndsWith(key, JsonSuffix)
    ensures |key| == |AnalysisPrefix| + |SplitExt(sanitized).0| + |JsonSuffix|
    ensures key[|AnalysisPrefix|..|key| - |JsonSuffix|] == SplitExt(sanitized).0
  {
    Affixes(AnalysisPrefix, SplitExt(sanitized).0, JsonSuffix);
    AnalysisPrefix + SplitExt(sanitized).0 + JsonSuffix
  }

  /** The scheme, host and folder of every uploaded image's URL. */
  const UrlPrefix: string := "https://" + BucketName + ".s3.amazonaws.com/"

  /** `f"https://{S3_BUCKET_NAME}.s3.amazonaws.com/{sanitized_filename}"`. */
  function ObjectUrl(sanitized: string): (url: string)
    ensures StartsWith(url, UrlPrefix) && url[|UrlPrefix|..] == sanitized
  {
    Affixes(UrlPrefix, sanitized, []);
    assert UrlPrefix + sanitized + [] == UrlPrefix + sanitized;
    UrlPrefix + sanitized
  }

  /** The object of a URL is the sanitized name itself: its basename is
      the name, because the name holds no '/'. */
  lemma ObjectUrlNamesObject(sanitized: string)
    requires '/' !in sanitized
    ensures Basename(ObjectUrl(sanitized)) == sanitized
  {
    RFindLeftPart(UrlPrefix, sanitized, '/');
    assert UrlPrefix[|UrlPrefix| - 1] == '/';
    assert RFind(UrlPrefix, '/') == |UrlPrefix| - 1;
  }
}
