/** The per-file part of `traverse_directory` (lines 126-142): the JPEG name
    filter, the GPS tag requirement, the DMS conversion and the hemisphere
    sign correction. */
module Gps {
  import opened Options
  import opened Strings
  import opened Values
  import opened Dms

  /** What `exif_read_data(path, "GPS")` yields for a file that has a GPS
      section. A tag that is not set (or null) is `None`. */
  datatype GpsTags = GpsTags(
    latitude: Option<seq<string>>,
    latitudeRef: Option<string>,
    longitude: Option<seq<string>>,
    longitudeRef: Option<string>)

  /** One located image: the full path and its signed decimal coordinates. */
  datatype Located = Located(path: string, latitude: Value, longitude: Value)

  /** The EXIF reader, an external library: the tags of the file at a path,
      or `None` when the read fails or finds no GPS section. */
  type ExifReader = string -> Option<GpsTags>

  predicate HasJpegExtension(s: string) {
    EndsWithIgnoringCase(s, ".jpg") || EndsWithIgnoringCase(s, ".jpeg")
  }

  /** `preg_match('/\.jpe?g$/i', name)`: without the D modifier `$` also
      matches just before a newline that ends the subject. */
  predicate IsJpegName(name: string) {
    HasJpegExtension(name)
    || (|name| > 0 && name[|name| - 1] == '\n' && HasJpegExtension(name[..|name| - 1]))
  }

  /** Lines 136-137: the value is negated when the reference tag is exactly
      `negative` ("S" for latitude, "W" for longitude). A missing tag reads
      as null, which equals no letter. */
  function Hemisphere(v: Value, ref: Option<string>, negative: string): Value {
    if ref == Some(negative) then Negate(v) else v
  }

  /** Reference definition of the decimal-degree convention: the
      magnitude, negated for the negative hemisphere letter. */
  function Signed(x: real, ref: Option<string>, negative: string): real {
    if ref == Some(negative) then -x else x
  }

  function Abs(x: real): real {
    if x < 0.0 then -x else x
  }

  /** Sign correction keeps the magnitude; it flips the sign of a non-zero
      value exactly when the reference is the negative hemisphere letter,
      compared case-sensitively, so a missing or other reference changes
      nothing. */
  lemma HemisphereSign(x: real, ref: Option<string>, negative: string)
    ensures Hemisphere(Num(x), ref, negative).Num?
    ensures Abs(Hemisphere(Num(x), ref, negative).v) == Abs(x)
    ensures x > 0.0 ==> (Hemisphere(Num(x), ref, negative).v < 0.0 <==> ref == Some(negative))
    ensures x != 0.0 ==> (Hemisphere(Num(x), ref, negative).v == x <==> ref != Some(negative))
  {
  }

  /** Lines 127-142 for one directory entry that is not a directory: the
      record the script appends, if any. */
  function Accept(filepath: string, filename: string, exif: ExifReader): (r: Option<Located>)
    ensures r.Some? <==>
              && IsJpegName(filename)
              && exif(filepath).Some?
              && exif(filepath).value.latitude.Some?
              && exif(filepath).value.longitude.Some?
    ensures r.Some? ==> r.value.path == filepath
  {
    if !IsJpegName(filename) then None
    else
      match exif(filepath)
      case None => None
      case Some(tags) =>
        if tags.latitude.Some? && tags.longitude.Some? then
          Some(Located(
            filepath,
            Hemisphere(ConvertDms(tags.latitude.value), tags.latitudeRef, "S"),
            Hemisphere(ConvertDms(tags.longitude.value), tags.longitudeRef, "W")))
        else None
  }

  /** For numeric tags, an accepted file carries the weighted DMS sums,
      latitude negated exactly for "S" and longitude exactly for "W". A
      coordinate is a number unless its tag has one component and no sign
      correction applies, in which case it is the passed-through string,
      which still stands for the sum. */
  lemma {:induction false} AcceptedCoordinates(filepath: string, filename: string, exif: ExifReader)
    requires Accept(filepath, filename, exif).Some?
    requires Numeric(exif(filepath).value.latitude.value)
    requires Numeric(exif(filepath).value.longitude.value)
    ensures var tags, r := exif(filepath).value, Accept(filepath, filename, exif).value;
            AsNumber(r.latitude) == Some(Signed(DmsSum(tags.latitude.value), tags.latitudeRef, "S"))
    ensures var tags, r := exif(filepath).value, Accept(filepath, filename, exif).value;
            AsNumber(r.longitude) == Some(Signed(DmsSum(tags.longitude.value), tags.longitudeRef, "W"))
    ensures var tags, r := exif(filepath).value, Accept(filepath, filename, exif).value;
            |tags.latitude.value| != 1 ==> r.latitude.Num?
    ensures var tags, r := exif(filepath).value, Accept(filepath, filename, exif).value;
            |tags.longitude.value| != 1 ==> r.longitude.Num?
  {
    var tags := exif(filepath).value;
    AcceptedRecord(filepath, filename, exif);
    CorrectedCoordinate(tags.latitude.value, tags.latitudeRef, "S");
    CorrectedCoordinate(tags.longitude.value, tags.longitudeRef, "W");
  }

  /** The record of an accepted file: the corrected conversions of its
      two tags. */
  lemma AcceptedRecord(filepath: string, filename: string, exif: ExifReader)
    requires Accept(filepath, filename, exif).Some?
    ensures var tags := exif(filepath).value;
            Accept(filepath, filename, exif).value == Located(
              filepath,
              Hemisphere(ConvertDms(tags.latitude.value), tags.latitudeRef, "S"),
              Hemisphere(ConvertDms(tags.longitude.value), tags.longitudeRef, "W"))
  {
  }

  /** One coordinate: the DMS sum, negated exactly for the negative letter. */
  lemma {:induction false} CorrectedCoordinate(coord: seq<string>, ref: Option<string>, negative: string)
    requires Numeric(coord)
    ensures AsNumber(Hemisphere(ConvertDms(coord), ref, negative))
            == Some(Signed(DmsSum(coord), ref, negative))
    ensures |coord| != 1 ==> Hemisphere(ConvertDms(coord), ref, negative).Num?
  {
    ConvertDmsIsWeightedSum(coord);
  }

  /** Names the filter lets through, whatever the case of the extension,
      and with a final newline. */
  lemma JpegNamesAccepted()
    ensures IsJpegName("a.jpg") && IsJpegName("a.JPG") && IsJpegName("a.Jpeg")
    ensures IsJpegName(".jpg") && IsJpegName("a.jpg\n")
  {
    JpgSuffix("a.jpg");
    JpgSuffix("a.JPG");
    JpegSuffix("a.Jpeg");
    JpgSuffix(".jpg");
    var n := "a.jpg\n";
    assert n[..|n| - 1] == "a.jpg";
  }

  /** A name whose last four characters spell `.jpg` in any case passes
      the filter. */
  lemma JpgSuffix(name: string)
    requires |name| >= 4
    requires LowerAscii(name[|name| - 4]) == '.' && LowerAscii(name[|name| - 3]) == 'j'
    requires LowerAscii(name[|name| - 2]) == 'p' && LowerAscii(name[|name| - 1]) == 'g'
    ensures IsJpegName(name)
  {
    assert EndsWithIgnoringCase(name, ".jpg");
  }

  /** A name whose last five characters spell `.jpeg` in any case passes
      the filter. */
  lemma JpegSuffix(name: string)
    requires |name| >= 5
    requires LowerAscii(name[|name| - 5]) == '.' && LowerAscii(name[|name| - 4]) == 'j'
    requires LowerAscii(name[|name| - 3]) == 'p' && LowerAscii(name[|name| - 2]) == 'e'
    requires LowerAscii(name[|name| - 1]) == 'g'
    ensures IsJpegName(name)
  {
    assert EndsWithIgnoringCase(name, ".jpeg");
  }

  /** Names the filter rejects: another extension, text after the
      extension, a truncated extension, no dot. */
  lemma JpegNamesRejected()
    ensures !IsJpegName("photo.png") && !IsJpegName("a.jpgx") && !IsJpegName("a.jpe")
    ensures !IsJpegName("ajpg")
  {
    var png := "photo.png";
    assert LowerAscii(png[|png| - 4 + 1]) != ".jpg"[1];
    assert LowerAscii(png[|png| - 5 + 3]) != ".jpeg"[3];
    var x := "a.jpgx";
    assert LowerAscii(x[|x| - 4 + 3]) != ".jpg"[3];
    assert LowerAscii(x[|x| - 5 + 4]) != ".jpeg"[4];
    var e := "a.jpe";
    assert LowerAscii(e[|e| - 4 + 3]) != ".jpg"[3];
    assert LowerAscii(e[|e| - 5 + 4]) != ".jpeg"[4];
    var a := "ajpg";
    assert LowerAscii(a[|a| - 4 + 0]) != ".jpg"[0];
  }

}
