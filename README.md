# pdf_bs4_scrapper: the filtering and naming pipeline, in Dafny

`math_pdf_scrapper.py` fetches one web page, keeps the anchors whose href
the inclusion pattern finds a match in, resolves them against the page URL,
and downloads each resulting file into an output directory. A file is
skipped when one of the exclusion patterns matches its name, and a file is
never written over an existing path: `name.ext` becomes `name_1.ext`,
`name_2.ext`, ... until the name is free.

This project models the decisions in that pipeline and proves what they
promise:

- `Restriction`: `is_restricted` as a linear search with early return. It is
  proved equal to "some pattern matches". The answer does not depend on the
  order of the patterns, and an empty list restricts nothing, so the early
  return only saves work.
- `LiteralMatch`: a concrete exclusion pattern, a word searched for anywhere
  in the name regardless of ASCII case. This is what the default words
  `plenum`, `lf-plenum` and `oving` do as case-insensitive regular
  expressions, since they contain no metacharacters.
- `LinkSelection`: the loop of `find_matching_links` that builds the link
  set. It is proved to produce exactly the resolved URLs of the matching
  hrefs. Non-matching and repeated hrefs add nothing, and there are at most
  as many links as anchors.
- `PosixPath`: `os.path.basename`, two-argument `os.path.join` and
  `os.path.splitext` with POSIX semantics. The split is a round trip. The
  extension is empty, or it is one dot and what follows it within the last
  component. Leading dots of a name do not start an extension.
- `Decimal`: the decimal spelling `f"{counter}"`, proved injective.
- `Download`: the file name derived from the URL path, the
  collision-avoidance loop, and `download_file` over a `FileSystem` object
  whose `entries` are the paths that exist. The loop terminates for every
  finite set of existing paths. Its result is free, and it is the least free
  name in the order the loop tries names. A restricted name leaves the
  filesystem untouched, and so does a request that fails. Otherwise exactly
  one new path appears, and no existing path is overwritten. The new file
  is complete, or it is partial when reading or writing the body breaks off
  after the file was opened.

Pattern matching, URL resolution and the URL parser's path component are
parameters of the operations: `matches: (P, string) -> bool` for an
exclusion pattern, `target: string -> bool` for the inclusion pattern,
`join: (string, string) -> string` for `urljoin`, and
`urlPath: string -> string` for `urlparse(...).path`. The exclusion patterns
are an explicit argument instead of the module-level `RESTRICTED_PATTERNS`.
How the HTTP transfer of a file ends is the parameter `transfer`. It can fail
before the file is opened, break off after the file was opened, or
complete.

Behaviour of the code worth knowing, which the model keeps:

- The fallback name `downloaded_file` is used whenever the last path segment
  is empty. So it applies to a path that ends in `/` as well as to an
  empty path.
- The extension is split off the joined destination, not off the file name.
  For `archive.tar.gz` the renamed file is `archive.tar_1.gz`. For `.bashrc`
  it is `.bashrc_1`.
- The inclusion pattern is searched in the raw href text before resolution.
  Two different hrefs that resolve to the same URL give one link.

## Model

| member | source | states |
|---|---|---|
| `Restriction.IsRestricted` | math_pdf_scrapper.py:16-21 | the search returns true exactly when some pattern of the list matches the file name; an empty list gives false |
| `Restriction.RestrictedIgnoresOrder` | math_pdf_scrapper.py:18-20 | two pattern lists with the same members (in any order, with any repetitions) restrict the same names |
| `Restriction.RestrictedAppend` | math_pdf_scrapper.py:18-20 | a concatenated pattern list restricts a name exactly when one of its two parts does |
| `LiteralMatch.Lower` | math_pdf_scrapper.py:113 | upper-case ASCII letters map to their lower-case letters and every other character is kept |
| `LiteralMatch.ContainsAt` | math_pdf_scrapper.py:113 | the word search succeeds exactly when the word occurs, ignoring case, at some position of the name |
| `LiteralMatch.ContainedWordRestricts` | math_pdf_scrapper.py:16-21 | a name that contains one of the words, in any case, is restricted |
| `LiteralMatch.NoWordNoRestriction` | math_pdf_scrapper.py:16-21 | a name that contains none of the words is not restricted |
| `LiteralMatch.PlenumHandoutIsRestricted` | math_pdf_scrapper.py:98 | the default words restrict `lf-plenum-2024.pdf` |
| `LiteralMatch.UpperCaseIsRestricted` | math_pdf_scrapper.py:113 | `plenum` restricts `PLENUM.pdf`: matching ignores case |
| `LiteralMatch.NotesIsNotRestricted` | math_pdf_scrapper.py:16-21 | `plenum` does not restrict `notes.pdf` |
| `LinkSelection.FindMatchingLinks` | math_pdf_scrapper.py:31-37 | the set built is exactly the resolved URLs of the matching hrefs: each matching href's URL is in it, and each member comes from a matching href |
| `LinkSelection.NonMatchingContributesNothing` | math_pdf_scrapper.py:35 | an anchor whose href does not match leaves the link set unchanged |
| `LinkSelection.RepeatedHrefAddsNothing` | math_pdf_scrapper.py:31-37 | an href that occurs again on the page adds no second link |
| `LinkSelection.SelectedSize` | math_pdf_scrapper.py:31-37 | the link set has at most as many members as there are anchors |
| `PosixPath.Basename` | math_pdf_scrapper.py:46 | the base name is the longest suffix of the path that contains no `/` |
| `PosixPath.Join` | math_pdf_scrapper.py:53 | an absolute second argument is the result; otherwise the result is the first argument, then exactly one `/` unless the first is empty or already ends with `/`, then the second |
| `PosixPath.JoinBasename` | math_pdf_scrapper.py:53 | joining a directory with a non-empty name without `/` gives a path whose last component is that name |
| `PosixPath.SplitExt` | math_pdf_scrapper.py:56 | `base + ext` is the path; `ext` is empty or starts with its only `.` and has no `/` |
| `PosixPath.SplitExtFindsExtension` | math_pdf_scrapper.py:56 | `ext` is non-empty exactly when the last component has a `.` after some character that is not a `.` |
| `Decimal.ToDecimal` | math_pdf_scrapper.py:59 | the counter's spelling is non-empty, all digits, without a leading zero unless the counter is 0 |
| `Decimal.ValueOfToDecimal` | math_pdf_scrapper.py:59 | reading the spelling back as a decimal number gives the counter |
| `Decimal.ToDecimalInjective` | math_pdf_scrapper.py:59 | different counters have different spellings |
| `Download.Filename` | math_pdf_scrapper.py:46 | the file name is non-empty and has no `/`; it is `downloaded_file` when the URL path is empty or ends with `/`, and otherwise exactly the last segment of the path |
| `Download.MediaPathFilename` | math_pdf_scrapper.py:45-46 | the path `/_media/course/notes.pdf` gives `notes.pdf` |
| `Download.DirectoryPathFilename` | math_pdf_scrapper.py:46 | a path ending in `/` gives `downloaded_file` |
| `Download.Candidate` | math_pdf_scrapper.py:53-59 | attempt 0 is `base + ext`, the joined path; attempt k > 0 is `base`, then `_`, then the decimal spelling of k, then `ext` |
| `Download.CandidateInjective` | math_pdf_scrapper.py:57-60 | the collision loop never tries the same name twice |
| `Download.CandidateNotEarlier` | math_pdf_scrapper.py:57-60 | each attempt tries a name that no earlier attempt tried |
| `Download.CandidatesBelow` | math_pdf_scrapper.py:57-60 | the first k names the loop tries are k distinct names |
| `Download.LeastFreeUnique` | math_pdf_scrapper.py:57-60 | only one attempt can be the first free one |
| `Download.TakenBound` | math_pdf_scrapper.py:57-60 | if the first k names tried all exist, there are at least k existing paths |
| `Download.LeastFreeBound` | math_pdf_scrapper.py:57-60 | the first free name is found after at most as many collisions as there are existing paths |
| `Download.ChooseDestination` | math_pdf_scrapper.py:53-60 | the loop terminates; the destination does not exist; it is the joined path if that is free, and otherwise `base_k + ext` for the least k whose name is free |
| `Download.NotesSplit` | math_pdf_scrapper.py:56 | `downloads` joined with `notes.pdf` splits into `downloads/notes` and `.pdf` |
| `Download.NotesCandidates` | math_pdf_scrapper.py:59 | the names tried for `downloads/notes.pdf` are `notes.pdf`, `notes_1.pdf`, `notes_2.pdf`, ... |
| `Download.OneCollision` | math_pdf_scrapper.py:57-60 | with only the joined path taken, the loop settles on the first renaming, whatever the names are |
| `Download.FirstCollision` | math_pdf_scrapper.py:57-60 | with `notes.pdf` present, the new file is `notes_1.pdf` |
| `Download.TwoCollisions` | math_pdf_scrapper.py:57-60 | with the joined path and its first renaming both taken, the loop settles on the second renaming |
| `Download.SecondCollision` | math_pdf_scrapper.py:57-60 | with `notes.pdf` and `notes_1.pdf` present, the new file is `notes_2.pdf` |
| `Download.FileSystem.Create` | math_pdf_scrapper.py:67 | opening a path for writing makes it exist and changes nothing else |
| `Download.DownloadFile` | math_pdf_scrapper.py:43-72 | a restricted name returns `Skipped` and creates nothing; a request that fails before the file is opened creates nothing; otherwise one new path, not existing before, the least free one, is created, and it is `Partial` when the body transfer or the write breaks off after the open |

## Left out

- HTTP (`requests.get`, `raise_for_status`, streaming with `iter_content`): network I/O. Its only effect on the model is the `transfer` parameter. The bytes written, and the chunking into 8192-byte pieces, are not modelled.
- Download.DownloadFile: does not model a failure of `open` itself (permission denied, for example). In the source that raises without creating the file. The model's `Interrupted` case covers only failures after the file exists.
- HTML parsing with BeautifulSoup: a foreign library. Its output is the sequence of hrefs handed to `FindMatchingLinks`.
- The internals of `urljoin` and `urlparse` (RFC 3986 resolution): the parameters `join` and `urlPath` stand for them.
- The regular-expression engine, `re.compile` and its errors: the parameters `matches` and `target` stand for the compiled patterns. Only the literal-word instance is given concretely.
- LiteralMatch.Lower: folds ASCII letters only. Python's `re.IGNORECASE` on `str` also folds non-ASCII letters (so `K`, the Kelvin sign U+212A, matches `k`), and that is not modelled.
- `os.makedirs` and its failures: an error creating the output directory is not modelled. The directory itself is not added to `entries`.
- Paths are compared as strings. Two spellings of one file (`a//b` and `a/b`, symbolic links) are different entries in `FileSystem`.
- `main`: argument parsing, the module-level variables, `sys.exit`, logging, and the broad `except Exception` handlers. Also not modelled is the driver loop that calls `download_file` once per link.
