/**
 * src/sd_recovery/utils/validation.py: the JPEG validator's result shaping,
 * the suspicion heuristic and the device-path check. The image library's
 * decoding is replaced by an abstract `Decoded` outcome and the filesystem's
 * `exists`/`stat` by parameters.
 */
module Validation {
  import opened Wrappers
  import opened Text

  /** EXIF tags the validator copies: DateTime, Make and Model. */
  const TagDateTime: int := 0x0132
  const TagMake: int := 0x010F
  const TagModel: int := 0x0110

  /** The metadata dictionary `validate_jpeg` returns on success. */
  datatype Metadata = Metadata(
    width: nat,
    height: nat,
    format: string,
    mode: string,
    sizeBytes: nat,
    hasExif: bool,
    datetime: Option<string>,
    cameraMake: Option<string>,
    cameraModel: Option<string>)

  /** What `img.getexif()` gives: a tag map (values already passed through `str`), or an exception. */
  datatype ExifRead = ExifUnreadable | ExifTags(tags: map<int, string>)

  /** What opening a file with the image library gives, abstractly. */
  datatype Decoded =
    | OpenFailed
    | Opened(format: string, width: nat, height: nat, mode: string, exif: ExifRead, verifies: bool)

  predicate IsJpegFormat(format: string) {
    format == "JPEG" || format == "JPG"
  }

  function Tag(exif: ExifRead, tag: int): Option<string> {
    if exif.ExifTags? && tag in exif.tags then Some(exif.tags[tag]) else None
  }

  /**
   * `validate_jpeg`: never raises. `size` is the result of `stat().st_size`
   * (None when `stat` raised). The image is valid exactly when it opened, its
   * format is JPEG, its size could be read and `verify()` passed; the metadata
   * is present exactly then.
   */
  function ValidateJpeg(decoded: Decoded, size: Option<nat>): (r: (bool, Option<Metadata>))
    ensures r.0 <==> r.1.Some?
    ensures r.0 <==> decoded.Opened? && IsJpegFormat(decoded.format) && size.Some? && decoded.verifies
    ensures r.1.Some? ==>
      && r.1.value.width == decoded.width
      && r.1.value.height == decoded.height
      && r.1.value.format == decoded.format
      && r.1.value.sizeBytes == size.value
    ensures r.1.Some? ==>
      (r.1.value.hasExif <==> decoded.exif.ExifTags? && |decoded.exif.tags| > 0)
    ensures r.1.Some? ==>
      && (r.1.value.datetime.Some? <==> r.1.value.hasExif && TagDateTime in decoded.exif.tags)
      && (r.1.value.cameraMake.Some? <==> r.1.value.hasExif && TagMake in decoded.exif.tags)
      && (r.1.value.cameraModel.Some? <==> r.1.value.hasExif && TagModel in decoded.exif.tags)
    ensures r.1.Some? && r.1.value.cameraMake.Some? ==> r.1.value.cameraMake.value == decoded.exif.tags[TagMake]
    ensures r.1.Some? && r.1.value.cameraModel.Some? ==> r.1.value.cameraModel.value == decoded.exif.tags[TagModel]
    ensures r.1.Some? && r.1.value.datetime.Some? ==> r.1.value.datetime.value == decoded.exif.tags[TagDateTime]
  {
    match decoded
    case OpenFailed => (false, None)
    case Opened(format, width, height, mode, exif, verifies) =>
      if !IsJpegFormat(format) then (false, None)
      else if size.None? then (false, None)
      else
        var hasExif := exif.ExifTags? && |exif.tags| > 0;
        var metadata := Metadata(
          width, height, format, mode, size.value, hasExif,
          if hasExif then Tag(exif, TagDateTime) else None,
          if hasExif then Tag(exif, TagMake) else None,
          if hasExif then Tag(exif, TagModel) else None);
        if !verifies then (false, None) else (true, Some(metadata))
  }

  function Max(a: nat, b: nat): nat { if a >= b then a else b }
  function Min(a: nat, b: nat): nat { if a <= b then a else b }

  /** `max(width, height) / min(width, height)` under Python's true division. */
  function AspectRatio(width: nat, height: nat): real
    requires width > 0 && height > 0
  {
    (Max(width, height) as real) / (Min(width, height) as real)
  }

  /** With a positive denominator, a quotient exceeds 10 exactly when the numerator exceeds ten denominators. */
  lemma RatioAboveTen(a: real, b: real)
    requires b > 0.0
    ensures a / b > 10.0 <==> a > 10.0 * b
  {
    var q := a / b;
    assert a == q * b;
    if q > 10.0 {
      assert (q - 10.0) * b > 0.0;
    } else {
      assert (10.0 - q) * b >= 0.0;
    }
  }

  /**
   * `is_suspicious_jpeg`: absent metadata, a side under 10 pixels, fewer
   * than 1024 bytes, or an aspect ratio above 10:1. Exactly 10:1 passes.
   */
  function IsSuspicious(m: Option<Metadata>): (r: bool)
    ensures m.None? ==> r
    ensures m.Some? && (m.value.width < 10 || m.value.height < 10) ==> r
    ensures m.Some? && m.value.sizeBytes < 1024 ==> r
    ensures m.Some? && m.value.width >= 10 && m.value.height >= 10 && m.value.sizeBytes >= 1024 ==>
      (r <==> m.value.width > 10 * m.value.height || m.value.height > 10 * m.value.width)
  {
    if m.None? then true
    else if m.value.width < 10 || m.value.height < 10 then true
    else if m.value.sizeBytes < 1024 then true
    else
      var w, h := m.value.width, m.value.height;
      RatioAboveTen(Max(w, h) as real, Min(w, h) as real);
      AspectRatio(w, h) > 10.0
  }

  /** The last path component, `PurePath.name` (no normalisation of repeated or trailing slashes). */
  function BaseName(path: string): (name: string)
    ensures '/' !in name
    ensures HasSuffix(path, name)
  {
    var i := LastIndexOf(path, '/');
    path[i + 1..]
  }

  /** `PurePath.suffix`: from the last dot of the name, unless that dot is its first or last character. */
  function Suffix(path: string): string {
    var name := BaseName(path);
    var i := LastIndexOf(name, '.');
    if 0 < i < |name| - 1 then name[i..] else ""
  }

  /** The suffixes the code treats as disk images. */
  predicate IsImageTarget(path: string) {
    Suffix(path) in {".img", ".dmg", ".iso"}
  }

  /** A three-letter extension `e` is the suffix exactly when the name is longer than `e` and ends with it. */
  lemma SuffixIsExtension(path: string, ext: string)
    requires |ext| == 4 && ext[0] == '.' && '.' !in ext[1..]
    ensures Suffix(path) == ext <==> |BaseName(path)| > 4 && HasSuffix(BaseName(path), ext)
  {
    var name := BaseName(path);
    var i := LastIndexOf(name, '.');
    if |name| >= 4 && HasSuffix(name, ext) {
      assert name[|name| - 4] == ext[0];
      forall k | |name| - 4 < k < |name|
        ensures name[k] != '.'
      {
        assert name[k] == ext[1..][k - (|name| - 3)];
      }
      assert i == |name| - 4;
    }
    if Suffix(path) == ext {
      assert 0 < i < |name| - 1 && name[i..] == ext;
    }
  }

  /** Image targets are exactly the names longer than four characters ending in .img, .dmg or .iso. */
  lemma {:induction false} ImageTargetByName(path: string)
    ensures IsImageTarget(path) <==>
      |BaseName(path)| > 4 &&
      (HasSuffix(BaseName(path), ".img") || HasSuffix(BaseName(path), ".dmg") || HasSuffix(BaseName(path), ".iso"))
  {
    SuffixIsExtension(path, ".img");
    SuffixIsExtension(path, ".dmg");
    SuffixIsExtension(path, ".iso");
  }

  datatype PathError =
    | NotADevicePath      // "Not a valid device path"
    | DiskImageNotFound   // "Disk image not found"
    | DeviceNotFound      // "Device not found"

  /**
   * `validate_device_path`, with `present` standing for `Path.exists()`. The
   * "/dev/" prefix is checked before anything else, so an image file outside
   * /dev is refused whether or not it exists; under /dev the path is returned
   * exactly when it exists, and a missing image gets its own message.
   */
  function ValidateDevicePath(path: string, present: bool): (r: Result<string, PathError>)
    ensures r.Success? <==> "/dev/" <= path && present
    ensures r.Success? ==> r.value == path
    ensures !("/dev/" <= path) ==> r == Failure(NotADevicePath)
    ensures "/dev/" <= path && !present ==>
      r == Failure(if IsImageTarget(path) then DiskImageNotFound else DeviceNotFound)
  {
    if !("/dev/" <= path) then Failure(NotADevicePath)
    else if IsImageTarget(path) then
      if !present then Failure(DiskImageNotFound) else Success(path)
    else if !present then Failure(DeviceNotFound)
    else Success(path)
  }

  /** An image file named without the /dev/ prefix is refused even when it exists. */
  lemma ImageOutsideDevRefused(name: string)
    requires '/' !in name
    ensures ValidateDevicePath(name + ".img", true) == Failure(NotADevicePath)
  {
    var p := name + ".img";
    if |name| > 0 {
      assert p[0] == name[0];
    }
    assert p[0] != '/';
  }
}
