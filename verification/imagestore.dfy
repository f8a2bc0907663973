/** `save_image_from_base64`: checks an inline `data:` URL image, writes the
    decoded bytes into the faces directory, copies them into the photos
    directory, and returns both paths relative to the public root. The file
    system is a map from path to contents; what the file system answers is
    fixed in advance by a `Disk` record, and base64 decoding is a parameter. */
module ImageStore {
  import opened Wrappers
  import opened Php

  type Bytes = seq<bv8>

  /** Every file on disk, by absolute path. */
  type Files = map<string, Bytes>

  /** The media types the `data:` URL check accepts, as the regular
      expression's alternatives `jpeg|jpg|png`. */
  datatype Format = Jpeg | Jpg | Png

  function FormatName(f: Format): string
  {
    match f
    case Jpeg => "jpeg"
    case Jpg => "jpg"
    case Png => "png"
  }

  /** The header `^data:image/(jpeg|jpg|png);base64,` matches for one format
      (section 3 of RFC 2397, with the `;base64` marker). */
  function DataUrlPrefix(f: Format): string
  {
    "data:image/" + FormatName(f) + ";base64,"
  }

  /** No payload starts with two different headers, so the match is unambiguous. */
  lemma DataUrlPrefixesExclusive(s: string)
    ensures forall f, g :: DataUrlPrefix(f) <= s && DataUrlPrefix(g) <= s ==> f == g
  {
    forall f, g | DataUrlPrefix(f) <= s && DataUrlPrefix(g) <= s
      ensures f == g
    {
      assert DataUrlPrefix(f)[11] == s[11] == DataUrlPrefix(g)[11];
      assert DataUrlPrefix(f)[13] == s[13] == DataUrlPrefix(g)[13];
    }
  }

  /** The format whose header the payload starts with, if any. */
  function ParseDataUrl(s: string): (r: Option<Format>)
    ensures forall f :: r == Some(f) <==> DataUrlPrefix(f) <= s
  {
    DataUrlPrefixesExclusive(s);
    if DataUrlPrefix(Jpeg) <= s then Some(Jpeg)
    else if DataUrlPrefix(Jpg) <= s then Some(Jpg)
    else if DataUrlPrefix(Png) <= s then Some(Png)
    else None
  }

  /** The file extension written for a format: both JPEG spellings become "jpg". */
  function Extension(f: Format): (e: string)
    ensures e == "jpg" || e == "png"
    ensures e == "png" <==> f == Png
  {
    if f == Jpeg then "jpg" else FormatName(f)
  }

  /** The file name a save chooses: the prefix, the seed with every '.'
      made '_', an underscore, the write time in seconds, and the extension. */
  function ImageName(prefix: string, seed: string, now: nat, f: Format): (r: string)
    ensures prefix <= r
    ensures var e := Extension(f); |prefix| + 1 + |e| < |r| && r[|r| - |e| - 1..] == "." + e
    // after the prefix, the only '.' is the one before the extension
    ensures '.' !in r[|prefix|..|r| - |Extension(f)| - 1]
  {
    var stem := ReplaceDots(seed) + "_" + NatToString(now);
    assert '.' !in stem by {
      var d := NatToString(now);
      forall i | 0 <= i < |stem| ensures stem[i] != '.' {
        if i > |seed| { assert IsDigit(d[i - |seed| - 1]); }
      }
    }
    var r := prefix + stem + "." + Extension(f);
    assert r[|prefix|..|r| - |Extension(f)| - 1] == stem;
    assert r[|r| - |Extension(f)| - 1..] == "." + Extension(f);
    r
  }

  /** The parts a file name is read back into. */
  datatype NameParts = NameParts(stem: string, stamp: nat, ext: string)

  /** Reads a file name back: the extension after the last '.', then the
      decimal timestamp after the last '_' before it. */
  function ParseImageName(name: string): Option<NameParts>
  {
    match SplitLast(name, '.')
    case None => None
    case Some((stem, ext)) =>
      match SplitLast(stem, '_')
      case None => None
      case Some((head, digits)) =>
        if 0 < |digits| && AllDigits(digits) then Some(NameParts(head, DigitsValue(digits), ext))
        else None
  }

  /** A chosen name reads back into its sanitized stem, its timestamp and its extension. */
  lemma ImageNameRoundTrip(prefix: string, seed: string, now: nat, f: Format)
    ensures ParseImageName(ImageName(prefix, seed, now, f))
         == Some(NameParts(prefix + ReplaceDots(seed), now, Extension(f)))
  {
    var head := prefix + ReplaceDots(seed);
    var digits := NatToString(now);
    var stem := head + "_" + digits;
    var ext := Extension(f);
    assert ImageName(prefix, seed, now, f) == stem + ['.'] + ext;
    SplitLastAt(stem, '.', ext);
    assert stem == head + ['_'] + digits;
    assert '_' !in digits by {
      forall i | 0 <= i < |digits| ensures digits[i] != '_' {
        assert IsDigit(digits[i]);
      }
    }
    SplitLastAt(head, '_', digits);
    DigitsValueOfNatToString(now);
  }

  /** Two saves choose the same name only with the same timestamp, the same
      extension and the same sanitized stem: names written in different
      seconds never collide. */
  lemma ImageNameInjective(p1: string, s1: string, t1: nat, f1: Format,
                           p2: string, s2: string, t2: nat, f2: Format)
    requires ImageName(p1, s1, t1, f1) == ImageName(p2, s2, t2, f2)
    ensures t1 == t2 && Extension(f1) == Extension(f2)
    ensures p1 + ReplaceDots(s1) == p2 + ReplaceDots(s2)
  {
    ImageNameRoundTrip(p1, s1, t1, f1);
    ImageNameRoundTrip(p2, s2, t2, f2);
  }

  /** With a slash-free prefix and seed the name is a single path segment. */
  lemma ImageNameIsSegment(prefix: string, seed: string, now: nat, f: Format)
    requires '/' !in prefix && '/' !in seed
    ensures 0 < |ImageName(prefix, seed, now, f)| && '/' !in ImageName(prefix, seed, now, f)
  {
    var d := NatToString(now);
    assert '/' !in ReplaceDots(seed) by {
      forall i | 0 <= i < |seed| ensures ReplaceDots(seed)[i] != '/' {
        assert seed[i] != '/' by { assert seed[i] in seed; }
      }
    }
    assert '/' !in d by {
      forall i | 0 <= i < |d| ensures d[i] != '/' {
        assert IsDigit(d[i]);
      }
    }
  }

  /** What the file system answers to the calls one save makes: `is_writable`
      on each directory, `file_put_contents` and `copy` succeeding, and
      `file_exists` on each written file afterwards. */
  datatype Disk = Disk(
    facesWritable: bool,
    photosWritable: bool,
    writeOk: bool,
    facesExist: bool,
    copyOk: bool,
    photosExist: bool)

  /** Why a save returned `null`, one reason per early return. */
  datatype ImageError =
    | EmptyInput
    | UnsupportedFormat
    | FacesNotWritable
    | PhotosNotWritable
    | DecodeFailed
    | WriteFailed
    | FacesMissing
    | CopyFailed
    | PhotosMissing

  /** The `faces_path` and `photos_path` a successful save returns. */
  datatype ImagePaths = ImagePaths(facesPath: string, photosPath: string)

  /** The value a save returns together with the file system it leaves. */
  datatype Saved = Saved(paths: Result<ImagePaths, ImageError>, files: Files)

  const FacesRoot := "uploads/faces/"
  const PhotosRoot := "uploads/photos/"

  /** `rtrim($dir, '/') . '/' . $name` */
  function DirFile(dir: string, name: string): (r: string)
    // a non-empty, slash-free name is the last segment of the joined path
    ensures 0 < |name| && '/' !in name ==> Basename(r) == name
    // and what precedes it is the directory without its trailing slashes
    ensures |name| < |r| && r[|r| - |name| - 1] == '/' && r[..|r| - |name| - 1] == RTrimSlash(dir)
  {
    var r := RTrimSlash(dir) + "/" + name;
    assert r[..|r| - |name| - 1] == RTrimSlash(dir);
    if 0 < |name| && '/' !in name then BasenameOfPath(RTrimSlash(dir), name); r else r
  }

  /** Whatever the name, the joined path ends in it. */
  lemma DirFileTail(dir: string, name: string)
    ensures var r := DirFile(dir, name); r[|r| - |name|..] == name
  {
  }

  /** The name a save of `pic` writes under, once the payload passes the
      emptiness and format checks. */
  function TargetName(pic: Option<string>, prefix: string, seed: string, now: nat): Option<string>
  {
    if Empty(pic) then None
    else match ParseDataUrl(pic.value)
      case None => None
      case Some(f) => Some(ImageName(prefix, seed, now, f))
  }

  /** `files` keeps some of the entries of `before`, unchanged, and adds none. */
  predicate SubMap(files: Files, before: Files)
  {
    forall p :: p in files ==> p in before && files[p] == before[p]
  }

  /** `save_image_from_base64($pic, $facesDir, $photosDir, $prefix, $seed)`
      at time `now`. */
  function Save(pic: Option<string>, facesDir: string, photosDir: string, prefix: string,
                seed: string, now: nat, decode: string -> Option<Bytes>, disk: Disk,
                files: Files): (r: Saved)
    // an empty payload or one without a supported header is refused untouched
    ensures Empty(pic) ==> r == Saved(Failure(EmptyInput), files)
    ensures TargetName(pic, prefix, seed, now).None? ==> r.paths.Failure? && r.files == files
    // success needs every check and every file operation to pass
    ensures r.paths.Success? <==>
              && TargetName(pic, prefix, seed, now).Some?
              && disk.facesWritable && disk.photosWritable
              && decode(ExplodeSecond(pic.value)).Some?
              && disk.writeOk && disk.facesExist && disk.copyOk && disk.photosExist
    // on success both copies hold the decoded bytes under one shared name
    ensures r.paths.Success? ==>
              var n := TargetName(pic, prefix, seed, now).value;
              var b := decode(ExplodeSecond(pic.value)).value;
              && r.paths.value == ImagePaths(FacesRoot + n, PhotosRoot + n)
              && r.files == files[DirFile(facesDir, n) := b][DirFile(photosDir, n) := b]
    // on failure no file is created or changed, and only the two targets may vanish
    ensures r.paths.Failure? ==> SubMap(r.files, files)
    ensures r.paths.Failure? ==>
              forall p :: p in files && p !in r.files ==>
                && TargetName(pic, prefix, seed, now).Some?
                && (p == DirFile(facesDir, TargetName(pic, prefix, seed, now).value) ||
                    p == DirFile(photosDir, TargetName(pic, prefix, seed, now).value))
  {
    if Empty(pic) then Saved(Failure(EmptyInput), files)
    else match ParseDataUrl(pic.value)
    case None => Saved(Failure(UnsupportedFormat), files)
    case Some(f) =>
      if !disk.facesWritable then Saved(Failure(FacesNotWritable), files)
      else if !disk.photosWritable then Saved(Failure(PhotosNotWritable), files)
      else match decode(ExplodeSecond(pic.value))
      case None => Saved(Failure(DecodeFailed), files)
      case Some(b) =>
        var name := ImageName(prefix, seed, now, f);
        var facesFile := DirFile(facesDir, name);
        var photosFile := DirFile(photosDir, name);
        if !disk.writeOk then Saved(Failure(WriteFailed), files)
        else if !disk.facesExist then Saved(Failure(FacesMissing), files - {facesFile})
        else if !disk.copyOk then Saved(Failure(CopyFailed), files[facesFile := b] - {facesFile})
        else if !disk.photosExist then
          Saved(Failure(PhotosMissing), files[facesFile := b][photosFile := b] - {facesFile, photosFile})
        else Saved(Success(ImagePaths(FacesRoot + name, PhotosRoot + name)),
                   files[facesFile := b][photosFile := b])
  }

  /** Both or neither: when the two target files did not exist before, a
      save leaves both of them (and succeeds) or neither of them (and fails). */
  lemma BothOrNeither(pic: Option<string>, facesDir: string, photosDir: string, prefix: string,
                      seed: string, now: nat, decode: string -> Option<Bytes>, disk: Disk,
                      files: Files, n: string)
    requires TargetName(pic, prefix, seed, now) == Some(n)
    requires DirFile(facesDir, n) !in files && DirFile(photosDir, n) !in files
    ensures var r := Save(pic, facesDir, photosDir, prefix, seed, now, decode, disk, files);
            && (DirFile(facesDir, n) in r.files <==> r.paths.Success?)
            && (DirFile(photosDir, n) in r.files <==> r.paths.Success?)
  {
  }

  /** The two returned paths end in the same file name, and that name is
      the one the files were written under. */
  lemma SavedPathsShareName(pic: Option<string>, facesDir: string, photosDir: string,
                            prefix: string, seed: string, now: nat,
                            decode: string -> Option<Bytes>, disk: Disk, files: Files)
    requires '/' !in prefix && '/' !in seed
    requires Save(pic, facesDir, photosDir, prefix, seed, now, decode, disk, files).paths.Success?
    ensures var p := Save(pic, facesDir, photosDir, prefix, seed, now, decode, disk, files).paths.value;
            var n := Basename(p.facesPath);
            && n == Basename(p.photosPath)
            && DirFile(facesDir, n) in Save(pic, facesDir, photosDir, prefix, seed, now, decode, disk, files).files
            && DirFile(photosDir, n) in Save(pic, facesDir, photosDir, prefix, seed, now, decode, disk, files).files
  {
    var r := Save(pic, facesDir, photosDir, prefix, seed, now, decode, disk, files);
    var f := ParseDataUrl(pic.value).value;
    var n := ImageName(prefix, seed, now, f);
    assert TargetName(pic, prefix, seed, now) == Some(n);
    assert r.paths.value == ImagePaths(FacesRoot + n, PhotosRoot + n);
    assert DirFile(facesDir, n) in r.files && DirFile(photosDir, n) in r.files;
    ImageNameIsSegment(prefix, seed, now, f);
    RootsBasename(n);
  }

  /** A single segment under either upload root is that path's basename. */
  lemma RootsBasename(n: string)
    requires 0 < |n| && '/' !in n
    ensures Basename(FacesRoot + n) == n && Basename(PhotosRoot + n) == n
  {
    assert FacesRoot + n == "uploads/faces" + "/" + n;
    assert PhotosRoot + n == "uploads/photos" + "/" + n;
    BasenameOfPath("uploads/faces", n);
    BasenameOfPath("uploads/photos", n);
  }

  /** For a well-formed data URL `header + body`, the stored bytes are the
      decoding of the body. */
  lemma StoresDecodedBody(f: Format, body: string, facesDir: string, photosDir: string,
                          prefix: string, seed: string, now: nat,
                          decode: string -> Option<Bytes>, disk: Disk, files: Files)
    requires ',' !in body
    requires Save(Some(DataUrlPrefix(f) + body), facesDir, photosDir, prefix, seed, now,
                  decode, disk, files).paths.Success?
    ensures var n := ImageName(prefix, seed, now, f);
            var r := Save(Some(DataUrlPrefix(f) + body), facesDir, photosDir, prefix, seed, now,
                          decode, disk, files);
            && decode(body).Some?
            && r.files[DirFile(facesDir, n)] == decode(body).value
            && r.files[DirFile(photosDir, n)] == decode(body).value
  {
    DataUrlBody(f, body);
  }

  /** A header followed by a comma-free body is recognized as its format,
      and the body is what gets decoded. */
  lemma DataUrlBody(f: Format, body: string)
    requires ',' !in body
    ensures ParseDataUrl(DataUrlPrefix(f) + body) == Some(f)
    ensures ExplodeSecond(DataUrlPrefix(f) + body) == body
  {
    var header := "data:image/" + FormatName(f) + ";base64";
    assert ',' !in header by {
      assert ',' !in FormatName(f);
    }
    assert DataUrlPrefix(f) + body == header + "," + body;
    ExplodeSecondAt(header, body);
  }
}
