/** The output stage (lines 155-176): one placemark per located image, in
    record order, and the default name of the KML file. The static style
    template is an opaque prefix of the document and is not modelled. */
module Kml {
  import opened Options
  import opened Strings
  import opened Values
  import opened Gps
  import opened Traversal

  datatype Placemark = Placemark(name: string, description: string, styleUrl: string, coordinates: string)

  /** The document handed to `asXML`: the file it is written to and the
      placemarks appended after the style template. */
  datatype KmlFile = KmlFile(fileName: string, placemarks: seq<Placemark>)

  /** The shared icon style of every placemark (line 170). */
  const PhotoIcon: string := "#photo-icon"

  /** Lines 163-164: every occurrence of the root path is removed, then every
      '\' becomes a space. */
  function Title(root: string, file: string): string {
    ReplaceAll(ReplaceAll(file, root, ""), "\\", " ")
  }

  /** For a file below the root whose relative part does not contain the
      root string again, the title is a space followed by the relative path
      with each '\' turned into a space. */
  lemma TitleOfRelative(root: string, rel: string)
    requires |root| > 0 && !Occurs("\\" + rel, root)
    ensures |Title(root, root + "\\" + rel)| == |rel| + 1
    ensures Title(root, root + "\\" + rel)[0] == ' '
    ensures forall i :: 0 <= i < |rel| ==>
              Title(root, root + "\\" + rel)[i + 1] == (if rel[i] == '\\' then ' ' else rel[i])
  {
    var tail := "\\" + rel;
    assert root + "\\" + rel == root + tail;
    ReplaceAllLeading(root, tail, "");
    ReplaceAllAbsent(tail, root, "");
    assert ReplaceAll(root + tail, root, "") == tail;
    ReplaceCharPointwise(tail, '\\', ' ');
    forall i | 0 <= i < |rel|
      ensures Title(root, root + "\\" + rel)[i + 1] == (if rel[i] == '\\' then ' ' else rel[i])
    {
      assert tail[i + 1] == rel[i];
    }
  }

  /** An empty root removes nothing (PHP's `str_replace` with an empty
      search string returns the subject). */
  lemma TitleEmptyRoot(file: string)
    ensures |Title("", file)| == |file|
    ensures forall i :: 0 <= i < |file| ==>
              Title("", file)[i] == (if file[i] == '\\' then ' ' else file[i])
  {
    ReplaceCharPointwise(file, '\\', ' ');
  }

  /** `.JPG` starts at index `j`. */
  predicate UpperJpgAt(s: string, j: int) {
    0 <= j && j + 4 <= |s| && s[j] == '.' && s[j + 1] == 'J' && s[j + 2] == 'P' && s[j + 3] == 'G'
  }

  /** Index `i` lies inside an occurrence of `.JPG`. Occurrences never
      overlap, since '.' is not one of J, P, G. */
  predicate InUpperJpg(s: string, i: int) {
    UpperJpgAt(s, i) || UpperJpgAt(s, i - 1) || UpperJpgAt(s, i - 2) || UpperJpgAt(s, i - 3)
  }

  /** The path as written into the description (line 168). */
  function LowerJpg(path: string): string {
    ReplaceAll(path, ".JPG", ".jpg")
  }

  /** Dropping the first `d` characters shifts the occurrences. */
  lemma UpperJpgShift(s: string, d: nat, j: int)
    requires d <= |s|
    ensures j >= d ==> (UpperJpgAt(s, j) <==> UpperJpgAt(s[d..], j - d))
    ensures j < d ==> !UpperJpgAt(s[d..], j - d)
  {
  }

  lemma StartsWithUpperJpg(s: string)
    ensures StartsWith(s, ".JPG") <==> UpperJpgAt(s, 0)
  {
    if UpperJpgAt(s, 0) {
      assert s[..4] == ".JPG";
    }
  }

  /** Reference description of the rewrite, character by character: inside
      an occurrence of `.JPG` the letters are lowered, everything else is
      kept; the length does not change. */
  lemma {:induction false} LowerJpgPointwise(s: string)
    ensures |LowerJpg(s)| == |s|
    ensures forall i :: 0 <= i < |s| ==>
              LowerJpg(s)[i] == (if InUpperJpg(s, i) then LowerAscii(s[i]) else s[i])
    decreases |s|
  {
    if |s| > 0 {
      StartsWithUpperJpg(s);
      var r := LowerJpg(s);
      if UpperJpgAt(s, 0) {
        var t := s[4..];
        LowerJpgPointwise(t);
        assert r == ".jpg" + LowerJpg(t);
        forall i | 0 <= i < |s|
          ensures r[i] == (if InUpperJpg(s, i) then LowerAscii(s[i]) else s[i])
        {
          if i < 4 {
            assert UpperJpgAt(s, i - i);
          } else {
            assert r[i] == LowerJpg(t)[i - 4];
            assert t[i - 4] == s[i];
            assert !UpperJpgAt(s, 1) && !UpperJpgAt(s, 2) && !UpperJpgAt(s, 3);
            UpperJpgShift(s, 4, i);
            UpperJpgShift(s, 4, i - 1);
            UpperJpgShift(s, 4, i - 2);
            UpperJpgShift(s, 4, i - 3);
            assert InUpperJpg(s, i) <==> InUpperJpg(t, i - 4);
          }
        }
      } else {
        var t := s[1..];
        LowerJpgPointwise(t);
        assert r == [s[0]] + LowerJpg(t);
        forall i | 0 <= i < |s|
          ensures r[i] == (if InUpperJpg(s, i) then LowerAscii(s[i]) else s[i])
        {
          if i > 0 {
            assert r[i] == LowerJpg(t)[i - 1];
            assert t[i - 1] == s[i];
            UpperJpgShift(s, 1, i);
            UpperJpgShift(s, 1, i - 1);
            UpperJpgShift(s, 1, i - 2);
            UpperJpgShift(s, 1, i - 3);
            assert InUpperJpg(s, i) <==> InUpperJpg(t, i - 1);
          }
        }
      }
    }
  }

  /** After the rewrite no `.JPG` is left anywhere in the path. */
  lemma LowerJpgComplete(s: string)
    ensures !Occurs(LowerJpg(s), ".JPG")
  {
    var r := LowerJpg(s);
    LowerJpgPointwise(s);
    forall j: nat | j <= |r|
      ensures !OccursAt(r, ".JPG", j)
    {
      if j + 4 <= |r| {
        var w := r[j..j + 4];
        assert r[j] == w[0] && r[j + 1] == w[1] && r[j + 2] == w[2] && r[j + 3] == w[3];
        assert w == ".JPG" ==> !InUpperJpg(s, j + 1) && UpperJpgAt(s, j);
      }
    }
  }

  /** Other spellings of the extension (`.Jpg`, `.JPEG`) are left as they
      are: a path without `.JPG` is unchanged. */
  lemma LowerJpgOnlyUpperJpg(s: string)
    requires !Occurs(s, ".JPG")
    ensures LowerJpg(s) == s
  {
    ReplaceAllAbsent(s, ".JPG", ".jpg");
  }

  const DescriptionHead: string := "<img src=\"file:///"
  const DescriptionTail: string := "\" width=\"640\" />"

  /** Line 168: the CDATA text of the description element. */
  function Description(file: string): string {
    DescriptionHead + LowerJpg(file) + DescriptionTail
  }

  /** The description is the fixed markup around the path, in which
      exactly the letters of each `.JPG` are lowered. */
  lemma DescriptionParts(file: string)
    ensures var d := Description(file);
            && |d| == |DescriptionHead| + |file| + |DescriptionTail|
            && d[..|DescriptionHead|] == DescriptionHead
            && d[|d| - |DescriptionTail|..] == DescriptionTail
            && forall i :: 0 <= i < |file| ==>
                 d[|DescriptionHead| + i] == (if InUpperJpg(file, i) then LowerAscii(file[i]) else file[i])
  {
    LowerJpgPointwise(file);
    var d := Description(file);
    forall i | 0 <= i < |file|
      ensures d[|DescriptionHead| + i] == LowerJpg(file)[i]
    {
    }
  }

  /** PHP's string conversion for concatenation: a string is used as it
      is; a number is formatted by `show`, which stands for PHP's float
      formatting (and for whatever the unspecified value prints as). */
  function Render(v: Value, show: Value -> string): string {
    if v.Text? then v.s else show(v)
  }

  /** Line 171: longitude first, then latitude, then a zero altitude. */
  function Coordinates(longitude: Value, latitude: Value, show: Value -> string): string {
    Render(longitude, show) + "," + Render(latitude, show) + ",0"
  }

  /** Round trip: when the rendered values contain no comma, splitting the
      coordinate text on ',' gives back longitude, latitude and "0". */
  lemma CoordinatesRoundTrip(longitude: Value, latitude: Value, show: Value -> string)
    requires ',' !in Render(longitude, show) && ',' !in Render(latitude, show)
    ensures Split(Coordinates(longitude, latitude, show), ',')
            == [Render(longitude, show), Render(latitude, show), "0"]
  {
    var lon, lat := Render(longitude, show), Render(latitude, show);
    assert Coordinates(longitude, latitude, show) == lon + [','] + (lat + [','] + "0");
    SplitPiece(lon, ',', lat + [','] + "0");
    SplitPiece(lat, ',', "0");
    SplitWhole("0", ',');
  }

  /** Lines 160-171 for one image. */
  function MakePlacemark(root: string, image: Located, show: Value -> string): Placemark {
    Placemark(
      Title(root, image.path),
      Description(image.path),
      PhotoIcon,
      Coordinates(image.longitude, image.latitude, show))
  }

  /** The title of `root\sub\a.JPG` under the root `root`.
      The strings are parameters fixed by `requires` so that the verifier
      works on a variable rather than unfolding the literal in every term. */
  lemma TitleExample(root: string, rel: string)
    requires root == "root" && rel == "sub\\a.JPG"
    ensures Title(root, root + "\\" + rel) == " sub a.JPG"
  {
    var file := root + "\\" + rel;
    assert root[0] !in "\\" + rel;
    AbsentFirstChar("\\" + rel, root);
    TitleOfRelative(root, rel);
    var t := Title(root, file);
    var want := " sub a.JPG";
    assert |t| == |want|;
    forall i | 0 <= i < |want|
      ensures t[i] == want[i]
    {
      if i > 0 {
        assert t[i] == (if rel[i - 1] == '\\' then ' ' else rel[i - 1]);
      }
    }
  }

  /** The description of `root\sub\a.JPG` links the lower-case extension.
      The string is a parameter fixed by `requires` so that the verifier
      works on a variable rather than unfolding the literal in every term. */
  lemma DescriptionExample(file: string)
    requires file == "root\\sub\\a.JPG"
    ensures Description(file) == DescriptionHead + "root\\sub\\a.jpg" + DescriptionTail
  {
    LowerJpgPointwise(file);
    var r := LowerJpg(file);
    var want := "root\\sub\\a.jpg";
    assert UpperJpgAt(file, 10);
    forall i | 0 <= i < |want|
      ensures r[i] == want[i]
    {
      if i < 10 {
        assert !InUpperJpg(file, i);
      }
    }
    assert r == want;
  }

  /** A photo `a.JPG` in the subdirectory `sub` of the root `root`, at
      latitude 10 and longitude 20 with references "N" and "W": its title is
      " sub a.JPG", its description links `root\sub\a.jpg` and, when the
      numbers are rendered as "-20" and "10", its coordinates are
      "-20,10,0".
      The string is a parameter fixed by `requires` so that the verifier
      works on a variable rather than unfolding the literal in every term. */
  lemma PlacemarkExample(file: string, show: Value -> string)
    requires file == "root\\sub\\a.JPG"
    requires show(Num(-20.0)) == "-20" && show(Num(10.0)) == "10"
    ensures var image := Located(file,
                                 Hemisphere(Num(10.0), Some("N"), "S"),
                                 Hemisphere(Num(20.0), Some("W"), "W"));
            MakePlacemark("root", image, show)
            == Placemark(" sub a.JPG",
                         DescriptionHead + "root\\sub\\a.jpg" + DescriptionTail,
                         "#photo-icon",
                         "-20,10,0")
  {
    var image := Located(file,
                         Hemisphere(Num(10.0), Some("N"), "S"),
                         Hemisphere(Num(20.0), Some("W"), "W"));
    assert image.latitude == Num(10.0);
    assert image.longitude == Num(-20.0);
    var lon, lat := show(image.longitude), show(image.latitude);
    assert lon + "," + lat + ",0" == "-20,10,0";
    var root, rel := "root", "sub\\a.JPG";
    TitleExample(root, rel);
    assert file == root + "\\" + rel;
    DescriptionExample(file);
  }

  /** Path separators of PHP's `basename` on Windows, the platform the
      script's '\' paths are written for. */
  predicate IsSeparator(c: char) {
    c == '/' || c == '\\'
  }

  function StripTrailingSeparators(p: string): (r: string)
    ensures |r| <= |p| && r == p[..|r|]
    ensures |r| == 0 || !IsSeparator(r[|r| - 1])
    ensures forall i :: |r| <= i < |p| ==> IsSeparator(p[i])
  {
    if |p| > 0 && IsSeparator(p[|p| - 1]) then StripTrailingSeparators(p[..|p| - 1]) else p
  }

  /** The characters after the last separator. */
  function LastComponent(p: string): (r: string)
    ensures forall i :: 0 <= i < |r| ==> !IsSeparator(r[i])
    ensures |r| <= |p| && r == p[|p| - |r|..]
  {
    if |p| == 0 || IsSeparator(p[|p| - 1]) then []
    else LastComponent(p[..|p| - 1]) + [p[|p| - 1]]
  }

  /** PHP `basename`: trailing separators are dropped, then the last
      component is kept. */
  function Basename(p: string): string {
    LastComponent(StripTrailingSeparators(p))
  }

  lemma {:induction false} LastComponentOfJoin(dir: string, name: string)
    requires forall i :: 0 <= i < |name| ==> !IsSeparator(name[i])
    ensures LastComponent(dir + "\\" + name) == name
    decreases |name|
  {
    var p := dir + "\\" + name;
    if |name| == 0 {
      assert p[|p| - 1] == '\\';
    } else {
      var front := name[..|name| - 1];
      assert p[..|p| - 1] == dir + "\\" + front;
      assert p[|p| - 1] == name[|name| - 1];
      LastComponentOfJoin(dir, front);
      assert front + [name[|name| - 1]] == name;
    }
  }

  /** The base name of `dir\name` is `name`, with or without trailing
      separators. */
  lemma BasenameOfJoin(dir: string, name: string, trailing: string)
    requires |name| > 0
    requires forall i :: 0 <= i < |name| ==> !IsSeparator(name[i])
    requires forall i :: 0 <= i < |trailing| ==> IsSeparator(trailing[i])
    ensures Basename(dir + "\\" + name + trailing) == name
  {
    var p := dir + "\\" + name;
    StripTrailingIs(p, trailing);
    LastComponentOfJoin(dir, name);
  }

  lemma {:induction false} StripTrailingIs(p: string, trailing: string)
    requires |p| > 0 && !IsSeparator(p[|p| - 1])
    requires forall i :: 0 <= i < |trailing| ==> IsSeparator(trailing[i])
    ensures StripTrailingSeparators(p + trailing) == p
    decreases |trailing|
  {
    if |trailing| == 0 {
      assert p + trailing == p;
    } else {
      var q := p + trailing;
      assert q[..|q| - 1] == p + trailing[..|trailing| - 1];
      StripTrailingIs(p, trailing[..|trailing| - 1]);
    }
  }

  /** Line 175: the configured output file, or the root's base name with a
      `.kml` extension. */
  function OutputName(outputFile: Option<string>, root: string): string {
    match outputFile
    case Some(f) => f
    case None => Basename(root) + ".kml"
  }

  /** With no configured output file, a root `dir\name` is written to
      `name.kml`. */
  lemma DefaultOutputName(dir: string, name: string)
    requires |name| > 0
    requires forall i :: 0 <= i < |name| ==> !IsSeparator(name[i])
    ensures OutputName(None, dir + "\\" + name) == name + ".kml"
  {
    BasenameOfJoin(dir, name, "");
    assert dir + "\\" + name + "" == dir + "\\" + name;
  }

  /** Lines 156-176: nothing is built or written for zero records; otherwise
      one placemark per record, in record order. */
  method WriteKml(images: seq<Located>, root: string, outputFile: Option<string>, show: Value -> string)
    returns (doc: Option<KmlFile>)
    ensures doc.None? <==> |images| == 0
    ensures doc.Some? ==> doc.value.fileName == OutputName(outputFile, root)
    ensures doc.Some? ==> |doc.value.placemarks| == |images|
    ensures doc.Some? ==> forall i :: 0 <= i < |images| ==>
              doc.value.placemarks[i] == MakePlacemark(root, images[i], show)
  {
    if |images| == 0 {
      return None;
    }
    var placemarks: seq<Placemark> := [];
    var i := 0;
    while i < |images|
      invariant 0 <= i <= |images|
      invariant |placemarks| == i
      invariant forall j :: 0 <= j < i ==> placemarks[j] == MakePlacemark(root, images[j], show)
    {
      placemarks := placemarks + [MakePlacemark(root, images[i], show)];
      i := i + 1;
    }
    doc := Some(KmlFile(OutputName(outputFile, root), placemarks));
  }

  /** The whole script: traverse the root, then write the placemarks; the
      count is the number printed at the end (line 178). */
  method Geolocate(root: string, tree: Node, exif: ExifReader, outputFile: Option<string>, show: Value -> string)
    returns (count: nat, doc: Option<KmlFile>)
    ensures count == |ExtractAll(Candidates(root, tree), exif)|
    ensures doc.None? <==> count == 0
    ensures doc.Some? ==> doc.value.fileName == OutputName(outputFile, root)
    ensures doc.Some? ==> |doc.value.placemarks| == count
    ensures doc.Some? ==> forall i :: 0 <= i < count ==>
              doc.value.placemarks[i] == MakePlacemark(root, ExtractAll(Candidates(root, tree), exif)[i], show)
  {
    var images := TraverseDirectory(root, tree, exif);
    doc := WriteKml(images, root, outputFile, show);
    count := |images|;
  }

}
