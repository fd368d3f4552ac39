/** An end-to-end scenario for the walk and the per-file check (lines
    111-151): a small directory tree with one tagged photo, followed from
    the listing to the record. */
module Scenario {
  import opened Options
  import opened Strings
  import opened Values
  import opened Dms
  import opened Gps
  import opened Traversal

  /** A root `root` listing ".", "..", a text file and the directory `sub`,
      which holds `a.JPG`. */
  function ExampleTree(): Node {
    Dir(true, [
      Entry(".", Dir(true, [])),
      Entry("..", Dir(false, [])),
      Entry("notes.txt", File),
      Entry("sub", Dir(true, [Entry("a.JPG", File)]))])
  }

  /** The tags of the example photo: 10 0 0 "N" and 20 0 0 "W". */
  function ExampleTags(): GpsTags {
    GpsTags(
      Some([RationalToken(10, 1), RationalToken(0, 1), RationalToken(0, 1)]), Some("N"),
      Some([RationalToken(20, 1), RationalToken(0, 1), RationalToken(0, 1)]), Some("W"))
  }

  /** The walker finds the text file and the photo, in listing order. */
  lemma ExampleCandidates()
    ensures Candidates("root", ExampleTree())
            == [Candidate("root", "notes.txt"), Candidate("root\\sub", "a.JPG")]
  {
    var l := ExampleTree().listing;
    var c := Candidate("root\\sub", "a.JPG");
    assert l[..3][..2][..1][..0] == [];
    assert EntryCandidates("root", l[0]) == [];
    assert EntryCandidates("root", l[1]) == [];
    assert ListingCandidates("root", l[..3][..2][..1]) == [];
    assert l[..3][..2][1] == l[1];
    assert ListingCandidates("root", l[..3][..2]) == [];
    assert l[..3][2] == l[2];
    assert ListingCandidates("root", l[..3]) == [Candidate("root", "notes.txt")];
    var inner := l[3].node.listing;
    assert inner[..0] == [];
    assert Join("root", "sub") == "root\\sub";
    assert ListingCandidates("root\\sub", inner) == [c];
    assert EntryCandidates("root", l[3]) == [c];
  }

  /** The text file is not a JPEG name; the photo is. */
  lemma ExampleNames()
    ensures !IsJpegName("notes.txt")
    ensures IsJpegName("a.JPG")
  {
    var n := "notes.txt";
    assert LowerAscii(n[|n| - 4 + 1]) != ".jpg"[1];
    assert LowerAscii(n[|n| - 5 + 1]) != ".jpeg"[1];
  }

  /** The photo is accepted with its hemisphere-corrected coordinates. */
  lemma ExampleAccepted(exif: ExifReader, path: string)
    requires exif(path) == Some(ExampleTags())
    ensures Accept(path, "a.JPG", exif) == Some(Located(path, Num(10.0), Num(-20.0)))
  {
    ExampleNames();
    WholeDegrees(10);
    WholeDegrees(20);
    var tags := ExampleTags();
    assert Hemisphere(ConvertDms(tags.latitude.value), tags.latitudeRef, "S") == Num(10.0);
    assert Hemisphere(ConvertDms(tags.longitude.value), tags.longitudeRef, "W") == Num(-20.0);
  }

  /** End to end on the example tree: the only record is the photo in `sub`,
      at latitude 10 and longitude -20. */
  lemma TraversalExample(exif: ExifReader)
    requires exif("root\\sub\\a.JPG") == Some(ExampleTags())
    ensures ExtractAll(Candidates("root", ExampleTree()), exif)
            == [Located("root\\sub\\a.JPG", Num(10.0), Num(-20.0))]
  {
    ExampleCandidates();
    ExampleNames();
    var t := Candidate("root", "notes.txt");
    var c := Candidate("root\\sub", "a.JPG");
    assert c.Path() == "root\\sub\\a.JPG";
    ExampleAccepted(exif, c.Path());
    assert Found(t, exif) == [];
    assert Found(c, exif) == [Located("root\\sub\\a.JPG", Num(10.0), Num(-20.0))];
    assert [t, c][1..] == [c];
  }
}
