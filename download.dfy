/**
 * The file fetcher (`download_file`) up to the point where bytes are
 * written: derive the file name from the URL path, skip it when the
 * restriction filter says so, and otherwise choose a destination inside the
 * output directory that does not exist yet, by inserting `_1`, `_2`, ...
 * before the extension. The filesystem is a `FileSystem` object whose
 * `entries` are the paths that exist; the URL parser's path component is the
 * function `urlPath`, and how the file's HTTP transfer ends is the
 * parameter `transfer`.
 */
module Download {
  import opened PosixPath
  import opened Decimal
  import opened Restriction
  import opened SetFacts

  /** The name used when the URL path has no last segment. */
  const FallbackName: string := "downloaded_file"

  /** The file name of a URL path: its last segment, or the fallback when
      that segment is empty. */
  function Filename(path: string): (name: string)
    ensures name != [] && Sep !in name
    ensures (path == [] || path[|path| - 1] == Sep) ==> name == FallbackName
    ensures !(path == [] || path[|path| - 1] == Sep) ==>
            |name| <= |path| && path[|path| - |name|..] == name &&
            (|name| == |path| || path[|path| - |name| - 1] == Sep)
  {
    var last := Basename(path);
    if last == [] then FallbackName else last
  }

  /** The k-th name the collision loop tries: the joined path itself for
      k == 0, then base_k + ext. */
  function Candidate(base: string, ext: string, k: nat): (name: string)
    ensures |base| + |ext| <= |name| && name[..|base|] == base && name[|name| - |ext|..] == ext
    ensures k == 0 <==> |name| == |base| + |ext|
    ensures k > 0 ==> name[|base|] == '_' && name[|base| + 1..|name| - |ext|] == ToDecimal(k)
  {
    if k == 0 then base + ext else base + "_" + ToDecimal(k) + ext
  }

  /** Different attempts try different names. */
  lemma CandidateInjective(base: string, ext: string, j: nat, k: nat)
    requires Candidate(base, ext, j) == Candidate(base, ext, k)
    ensures j == k
  {
    var cj, ck := Candidate(base, ext, j), Candidate(base, ext, k);
    if j != 0 && k != 0 {
      assert cj[|base| + 1..|cj| - |ext|] == ToDecimal(j);
      assert ck[|base| + 1..|ck| - |ext|] == ToDecimal(k);
      ToDecimalInjective(j, k);
    } else {
      assert |cj| == |ck|;
    }
  }

  /** Attempt k tries a name no earlier attempt tried. */
  lemma CandidateNotEarlier(base: string, ext: string, k: nat)
    ensures forall j :: 0 <= j < k ==> Candidate(base, ext, j) != Candidate(base, ext, k)
  {
    forall j | 0 <= j < k
      ensures Candidate(base, ext, j) != Candidate(base, ext, k)
    {
      if Candidate(base, ext, j) == Candidate(base, ext, k) {
        CandidateInjective(base, ext, j, k);
      }
    }
  }

  /** Attempt k is free and every earlier attempt is taken. */
  predicate IsLeastFree(existing: set<string>, base: string, ext: string, k: nat) {
    Candidate(base, ext, k) !in existing &&
    forall j :: 0 <= j < k ==> Candidate(base, ext, j) in existing
  }

  /** dest is the least free name the collision loop can reach from first. */
  ghost predicate LeastFreeFrom(existing: set<string>, first: string, dest: string) {
    var parts := SplitExt(first);
    exists k: nat :: dest == Candidate(parts.base, parts.ext, k) && IsLeastFree(existing, parts.base, parts.ext, k)
  }

  /** At most one attempt is the least free one. */
  lemma LeastFreeUnique(existing: set<string>, base: string, ext: string, j: nat, k: nat)
    requires IsLeastFree(existing, base, ext, j) && IsLeastFree(existing, base, ext, k)
    ensures j == k
  {
  }

  /** If the first k attempts all collided, there are at least k existing
      paths. */
  lemma TakenBound(existing: set<string>, base: string, ext: string, k: nat)
    requires forall j :: 0 <= j < k ==> Candidate(base, ext, j) in existing
    ensures k <= |existing|
  {
    var tried := CandidatesBelow(base, ext, k);
    assert tried <= existing;
    SubsetCardinality(tried, existing);
  }

  /** The least free attempt is found after at most |existing| collisions. */
  lemma LeastFreeBound(existing: set<string>, base: string, ext: string, k: nat)
    requires IsLeastFree(existing, base, ext, k)
    ensures k <= |existing|
  {
    TakenBound(existing, base, ext, k);
  }

  /** The names of the first k attempts; there are k of them. */
  function CandidatesBelow(base: string, ext: string, k: nat): (names: set<string>)
    ensures |names| == k
    ensures forall p :: p in names <==> exists j :: 0 <= j < k && p == Candidate(base, ext, j)
  {
    if k == 0 then {}
    else
      var earlier := CandidatesBelow(base, ext, k - 1);
      CandidateNotEarlier(base, ext, k - 1);
      earlier + {Candidate(base, ext, k - 1)}
  }

  /** The collision-avoidance loop of `download_file`: start from
      `join(outputDir, filename)` and try base_1 + ext, base_2 + ext, ...
      until a name is free. */
  method ChooseDestination(existing: set<string>, outputDir: string, filename: string) returns (dest: string)
    ensures dest !in existing
    ensures LeastFreeFrom(existing, Join(outputDir, filename), dest)
    ensures Join(outputDir, filename) !in existing ==> dest == Join(outputDir, filename)
  {
    dest := Join(outputDir, filename);
    var parts := SplitExt(dest);
    var base, ext := parts.base, parts.ext;
    var counter := 1;
    while dest in existing
      invariant counter >= 1
      invariant dest == Candidate(base, ext, counter - 1)
      invariant forall j :: 0 <= j < counter - 1 ==> Candidate(base, ext, j) in existing
      decreases |existing| - (counter - 1)
    {
      TakenBound(existing, base, ext, counter);
      dest := base + "_" + ToDecimal(counter) + ext;
      counter := counter + 1;
    }
    assert IsLeastFree(existing, base, ext, counter - 1);
  }

  /** The last segment of "/_media/course/notes.pdf" is "notes.pdf". */
  lemma MediaPathFilename()
    ensures Filename("/_media/course/notes.pdf") == "notes.pdf"
  {
    var path := "/_media/course/notes.pdf";
    assert path[14] == Sep;
    assert RFind(path, Sep) == 14;
  }

  /** A path that ends with a separator falls back to "downloaded_file". */
  lemma DirectoryPathFilename()
    ensures Filename("/_media/course/") == FallbackName
  {
  }

  /** How "downloads" joined with "notes.pdf" splits. */
  lemma NotesSplit()
    ensures SplitExt(Join("downloads", "notes.pdf")) == Parts("downloads/notes", ".pdf")
  {
    var p := "downloads/notes.pdf";
    assert Join("downloads", "notes.pdf") == p;
    assert p[9] == Sep && forall j :: 9 < j < |p| ==> p[j] != Sep;
    assert RFind(p, Sep) == 9;
    assert p[15] == ExtSep && forall j :: 15 < j < |p| ==> p[j] != ExtSep;
    assert RFind(p, ExtSep) == 15;
    assert p[10] != ExtSep;
    assert p[..15] == "downloads/notes" && p[15..] == ".pdf";
  }

  /** The first three names tried for "downloads/notes.pdf". */
  lemma NotesCandidates()
    ensures Candidate("downloads/notes", ".pdf", 0) == "downloads/notes.pdf"
    ensures Candidate("downloads/notes", ".pdf", 1) == "downloads/notes_1.pdf"
    ensures Candidate("downloads/notes", ".pdf", 2) == "downloads/notes_2.pdf"
  {
    assert ToDecimal(1) == "1" && ToDecimal(2) == "2";
  }

  /** When the joined path is taken, the loop settles on the first
      renaming, whatever the names are. */
  lemma OneCollision(base: string, ext: string, k: nat)
    requires IsLeastFree({Candidate(base, ext, 0)}, base, ext, k)
    ensures k == 1
  {
    var existing := {Candidate(base, ext, 0)};
    assert Candidate(base, ext, 1) != Candidate(base, ext, 0);
    assert IsLeastFree(existing, base, ext, 1);
    LeastFreeUnique(existing, base, ext, k, 1);
  }

  /** With "notes.pdf" already in the output directory, a new "notes.pdf"
      lands on "notes_1.pdf". */
  lemma FirstCollision(dest: string)
    requires LeastFreeFrom({"downloads/notes.pdf"}, Join("downloads", "notes.pdf"), dest)
    ensures dest == "downloads/notes_1.pdf"
  {
    var base, ext := "downloads/notes", ".pdf";
    NotesSplit();
    NotesCandidates();
    var existing := {Candidate(base, ext, 0)};
    var k: nat :| dest == Candidate(base, ext, k) && IsLeastFree(existing, base, ext, k);
    OneCollision(base, ext, k);
  }

  /** When the joined path and its first renaming are both taken, the loop
      settles on the second renaming, whatever the names are. */
  lemma TwoCollisions(base: string, ext: string, k: nat)
    requires IsLeastFree({Candidate(base, ext, 0), Candidate(base, ext, 1)}, base, ext, k)
    ensures k == 2
  {
    var existing := {Candidate(base, ext, 0), Candidate(base, ext, 1)};
    forall j | 0 <= j < 2
      ensures Candidate(base, ext, 2) != Candidate(base, ext, j)
    {
      if Candidate(base, ext, 2) == Candidate(base, ext, j) {
        CandidateInjective(base, ext, 2, j);
      }
    }
    assert IsLeastFree(existing, base, ext, 2);
    LeastFreeUnique(existing, base, ext, k, 2);
  }

  /** With "notes.pdf" and "notes_1.pdf" both present, the next "notes.pdf"
      lands on "notes_2.pdf". */
  lemma SecondCollision(dest: string)
    requires LeastFreeFrom({"downloads/notes.pdf", "downloads/notes_1.pdf"}, Join("downloads", "notes.pdf"), dest)
    ensures dest == "downloads/notes_2.pdf"
  {
    var base, ext := "downloads/notes", ".pdf";
    NotesSplit();
    NotesCandidates();
    var existing := {Candidate(base, ext, 0), Candidate(base, ext, 1)};
    var k: nat :| dest == Candidate(base, ext, k) && IsLeastFree(existing, base, ext, k);
    TwoCollisions(base, ext, k);
  }

  /** How the transfer of one file ends: the request or its status check
      fails before the destination is opened; reading the body or writing
      it fails after the destination was opened; or it completes. */
  datatype Transfer = RequestFailed | Interrupted | Completed

  /** What happened to one link. A `Partial` file is left behind when the
      transfer breaks off after the destination was opened. */
  datatype Outcome =
    | Skipped(filename: string)
    | FetchFailed(url: string)
    | Partial(path: string)
    | Saved(path: string)

  /** The paths that exist on disk. */
  class FileSystem {
    var entries: set<string>

    constructor (existing: set<string>)
      ensures entries == existing
    {
      entries := existing;
    }

    /** Opening a path for writing: afterwards it exists (an existing file
        would be truncated). */
    method Create(path: string)
      modifies this
      ensures entries == old(entries) + {path}
    {
      entries := entries + {path};
    }
  }

  /** `download_file`: a restricted name is skipped before anything else; a
      request that fails leaves the directory as it was; otherwise exactly
      one new path, the least free one, comes into existence, holding the
      whole file or, when the transfer breaks off, part of it. */
  method DownloadFile<P>(fs: FileSystem, fileUrl: string, outputDir: string,
                         patterns: seq<P>, matches: (P, string) -> bool,
                         urlPath: string -> string, transfer: Transfer) returns (outcome: Outcome)
    modifies fs
    ensures var name := Filename(urlPath(fileUrl));
      if Restricted(patterns, matches, name) then
        outcome == Skipped(name) && fs.entries == old(fs.entries)
      else if transfer == RequestFailed then
        outcome == FetchFailed(fileUrl) && fs.entries == old(fs.entries)
      else
        (if transfer == Interrupted then outcome.Partial? else outcome.Saved?) &&
        outcome.path !in old(fs.entries) &&
        LeastFreeFrom(old(fs.entries), Join(outputDir, name), outcome.path) &&
        fs.entries == old(fs.entries) + {outcome.path}
  {
    var filename := Filename(urlPath(fileUrl));
    var restricted := IsRestricted(filename, patterns, matches);
    if restricted {
      return Skipped(filename);
    }
    var dest := ChooseDestination(fs.entries, outputDir, filename);
    if transfer == RequestFailed {
      return FetchFailed(fileUrl);
    }
    fs.Create(dest);
    if transfer == Interrupted {
      return Partial(dest);
    }
    return Saved(dest);
  }
}
