/** `traverse_directory` (lines 111-151): a depth-first walk of the
    directory tree in listing order. The filesystem is an in-memory tree in
    which a directory that `opendir` cannot open is marked unreadable. The
    walk is specified in two parts: the walker enumerates the candidate
    files, and the extractor keeps those that yield a record. The script
    interleaves the two in one loop; `TraverseDirectory` is that loop,
    proved equal to the composition. */
module Traversal {
  import opened Options
  import opened Strings
  import opened Gps

  /** What `is_dir` and `opendir` report for a path. */
  datatype Node = File | Dir(readable: bool, listing: seq<Entry>)

  /** One name returned by `readdir`. */
  datatype Entry = Entry(name: string, node: Node)

  /** Line 118: `"$path\\$filename"`. */
  function Join(dir: string, name: string): string {
    dir + "\\" + name
  }

  /** Line 117: the self and parent pseudo-entries. */
  predicate IsDotEntry(name: string) {
    name == "." || name == ".."
  }

  /** A non-directory entry reached by the walk, with the directory it was
      listed in. */
  datatype Candidate = Candidate(dir: string, name: string) {
    function Path(): string {
      Join(dir, name)
    }
  }

  /** The walker: every non-directory entry under `path`, depth first, in
      listing order. A path that is not an openable directory lists
      nothing. */
  function Candidates(path: string, node: Node): seq<Candidate>
    decreases node
  {
    match node
    case File => []
    case Dir(readable, listing) =>
      if readable then ListingCandidates(path, listing) else []
  }

  function ListingCandidates(path: string, listing: seq<Entry>): seq<Candidate>
    decreases listing
  {
    if |listing| == 0 then []
    else ListingCandidates(path, listing[..|listing| - 1]) + EntryCandidates(path, listing[|listing| - 1])
  }

  function EntryCandidates(path: string, e: Entry): seq<Candidate>
    decreases e
  {
    if IsDotEntry(e.name) then []
    else
      match e.node
      case File => [Candidate(path, e.name)]
      case Dir(_, _) => Candidates(Join(path, e.name), e.node)
  }

  /** The extractor applied to one candidate. */
  function Found(c: Candidate, exif: ExifReader): seq<Located> {
    match Accept(c.Path(), c.name, exif)
    case None => []
    case Some(r) => [r]
  }

  /** The extractor applied to the candidates in order. */
  function ExtractAll(cs: seq<Candidate>, exif: ExifReader): seq<Located> {
    if |cs| == 0 then [] else Found(cs[0], exif) + ExtractAll(cs[1..], exif)
  }

  lemma {:induction false} ExtractAllAppend(a: seq<Candidate>, b: seq<Candidate>, exif: ExifReader)
    ensures ExtractAll(a + b, exif) == ExtractAll(a, exif) + ExtractAll(b, exif)
    decreases |a|
  {
    if |a| == 0 {
      assert a + b == b;
    } else {
      assert (a + b)[0] == a[0];
      assert (a + b)[1..] == a[1..] + b;
      ExtractAllAppend(a[1..], b, exif);
    }
  }

  /** A record is produced exactly for the candidates the extractor accepts,
      and never more records than candidates. */
  lemma {:induction false} ExtractAllMembership(cs: seq<Candidate>, exif: ExifReader, r: Located)
    ensures |ExtractAll(cs, exif)| <= |cs|
    ensures r in ExtractAll(cs, exif) <==>
              exists i :: 0 <= i < |cs| && Accept(cs[i].Path(), cs[i].name, exif) == Some(r)
    decreases |cs|
  {
    if |cs| > 0 {
      ExtractAllMembership(cs[1..], exif, r);
      if r in ExtractAll(cs[1..], exif) {
        var i :| 0 <= i < |cs[1..]| && Accept(cs[1..][i].Path(), cs[1..][i].name, exif) == Some(r);
        assert cs[i + 1] == cs[1..][i];
      }
      if exists i :: 0 <= i < |cs| && Accept(cs[i].Path(), cs[i].name, exif) == Some(r) {
        var i :| 0 <= i < |cs| && Accept(cs[i].Path(), cs[i].name, exif) == Some(r);
        if i > 0 {
          assert cs[1..][i - 1] == cs[i];
        }
      }
    }
  }

  /** Splicing: the candidates of a concatenated listing are those of its
      parts, in order. */
  lemma {:induction false} ListingAppend(path: string, a: seq<Entry>, b: seq<Entry>)
    ensures ListingCandidates(path, a + b) == ListingCandidates(path, a) + ListingCandidates(path, b)
    decreases |b|
  {
    if |b| == 0 {
      assert a + b == a;
    } else {
      var ab := a + b;
      assert ab[..|ab| - 1] == a + b[..|b| - 1];
      assert ab[|ab| - 1] == b[|b| - 1];
      ListingAppend(path, a, b[..|b| - 1]);
    }
  }

  /** A subdirectory's records appear exactly where the subdirectory is
      listed, between the records of the entries before and after it. */
  lemma SubdirectorySplice(path: string, before: seq<Entry>, name: string, sub: Node,
                           after: seq<Entry>, exif: ExifReader)
    requires !IsDotEntry(name) && sub.Dir?
    ensures ExtractAll(ListingCandidates(path, before + [Entry(name, sub)] + after), exif)
            == ExtractAll(ListingCandidates(path, before), exif)
               + ExtractAll(Candidates(Join(path, name), sub), exif)
               + ExtractAll(ListingCandidates(path, after), exif)
  {
    var e := Entry(name, sub);
    ListingAppend(path, before + [e], after);
    ListingAppend(path, before, [e]);
    assert [e][..0] == [];
    assert ListingCandidates(path, [e]) == Candidates(Join(path, name), sub);
    ExtractAllAppend(ListingCandidates(path, before) + Candidates(Join(path, name), sub),
                     ListingCandidates(path, after), exif);
    ExtractAllAppend(ListingCandidates(path, before), Candidates(Join(path, name), sub), exif);
  }

  /** The "." and ".." entries contribute nothing, whatever they point at. */
  lemma DotEntriesSkipped(path: string, before: seq<Entry>, e: Entry, after: seq<Entry>)
    requires IsDotEntry(e.name)
    ensures ListingCandidates(path, before + [e] + after) == ListingCandidates(path, before + after)
  {
    ListingAppend(path, before + [e], after);
    ListingAppend(path, before, [e]);
    ListingAppend(path, before, after);
    assert [e][..0] == [];
  }

  /** `dir` is `root` or a directory below it. */
  predicate Within(dir: string, root: string) {
    dir == root || StartsWith(dir, root + "\\")
  }

  lemma WithinJoin(dir: string, path: string, name: string)
    requires Within(dir, Join(path, name))
    ensures Within(dir, path)
  {
    var p := path + "\\";
    if dir == Join(path, name) {
      assert dir[..|p|] == p;
    } else {
      assert dir[..|Join(path, name) + "\\"|] == Join(path, name) + "\\";
      assert dir[..|p|] == (Join(path, name) + "\\")[..|p|];
    }
  }

  /** Every candidate was listed in `path` or below it, and is never a
      pseudo-entry. */
  lemma {:induction false} CandidatesWithin(path: string, node: Node)
    ensures forall c :: c in Candidates(path, node) ==> Within(c.dir, path) && !IsDotEntry(c.name)
    decreases node
  {
    if node.Dir? && node.readable {
      ListingCandidatesWithin(path, node.listing);
    }
  }

  lemma {:induction false} ListingCandidatesWithin(path: string, listing: seq<Entry>)
    ensures forall c :: c in ListingCandidates(path, listing) ==> Within(c.dir, path) && !IsDotEntry(c.name)
    decreases listing
  {
    if |listing| > 0 {
      ListingCandidatesWithin(path, listing[..|listing| - 1]);
      var e := listing[|listing| - 1];
      if !IsDotEntry(e.name) && e.node.Dir? {
        CandidatesWithin(Join(path, e.name), e.node);
        forall c | c in Candidates(Join(path, e.name), e.node)
          ensures Within(c.dir, path)
        {
          WithinJoin(c.dir, path, e.name);
        }
      }
    }
  }

  /** Every record's path is a directory at or below the root, a '\', and
      the entry name: it starts with the root followed by '\'. */
  lemma RecordsUnderRoot(root: string, tree: Node, exif: ExifReader)
    ensures forall r :: r in ExtractAll(Candidates(root, tree), exif) ==> StartsWith(r.path, root + "\\")
  {
    var cs := Candidates(root, tree);
    CandidatesWithin(root, tree);
    forall r | r in ExtractAll(cs, exif)
      ensures StartsWith(r.path, root + "\\")
    {
      ExtractAllMembership(cs, exif, r);
      var i :| 0 <= i < |cs| && Accept(cs[i].Path(), cs[i].name, exif) == Some(r);
      var c := cs[i];
      assert c in cs;
      var p := root + "\\";
      if c.dir == root {
        assert c.Path()[..|p|] == p;
      } else {
        assert c.dir[..|p|] == p;
        assert c.Path()[..|p|] == c.dir[..|p|];
      }
    }
  }

  /** Lines 111-151 as the script runs them: one pass over each listing,
      recursing into subdirectories and appending their records. */
  method TraverseDirectory(path: string, node: Node, exif: ExifReader) returns (images: seq<Located>)
    ensures images == ExtractAll(Candidates(path, node), exif)
    decreases node
  {
    images := [];
    if node.Dir? && node.readable {
      var listing := node.listing;
      var i := 0;
      while i < |listing|
        invariant 0 <= i <= |listing|
        invariant images == ExtractAll(ListingCandidates(path, listing[..i]), exif)
      {
        var entry := listing[i];
        assert listing[..i + 1][..i] == listing[..i];
        ExtractAllAppend(ListingCandidates(path, listing[..i]), EntryCandidates(path, entry), exif);
        if !IsDotEntry(entry.name) {
          var filepath := Join(path, entry.name);
          if entry.node.Dir? {
            var found := TraverseDirectory(filepath, entry.node, exif);
            images := images + found;
          } else {
            var r := Accept(filepath, entry.name, exif);
            if r.Some? {
              images := images + [r.value];
            }
          }
        }
        i := i + 1;
      }
      assert listing[..|listing|] == listing;
    }
  }

}
