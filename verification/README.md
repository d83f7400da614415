# pdforganizer, modelled in Dafny

pdforganizer files PDF documents into a `year/year_author_title.pdf`
layout. It is made of three programs, and this project models the
deterministic core of each one as pure Dafny functions:

- **The organizer** (`src/pdforg_base.py`):
  - The metadata extractor takes authors, title, year and DOI from a
    document. Each field comes from an ordered fallback chain over:
    - the document's native property map;
    - its whitespace-normalised text;
    - its file name.
    Any failure gives the placeholder record.
  - The destination of a document is `output/year/year_author_title.pdf`,
    built from names cleaned by the slug cleaner.
  - The batch fold works like this:
    - it collects the non-hidden `.pdf` files and sorts them as Python
      strings;
    - it skips a file whose suppression key (the file stem without its
      trailing `-digits`) belongs to a file already filed;
    - it counts successes and failures.
- **The YAML generator** (`src/yaml_generator.py`) settles on one record
  per organized PDF. It tries three sources in order:
  1. the PDF's own Title/Author properties;
  2. three online services, in order, fed with a text sample of the first
     pages (an exception from any service abandons the probe);
  3. the `year-author-title` file-name convention, using Python slice
     semantics.

  It writes the record beside the PDF as YAML, with a fixed key order.
- **The metadata updater** (`src/pdf_metadata_updater.py`) does four
  things for each YAML file:
  - it finds the PDF beside the file;
  - it builds the PDF info dictionary, dropping the entries whose value is
    empty;
  - it writes the dictionary into the PDF;
  - it counts successes and failures. A YAML file without its PDF counts
    as neither.

Module layout:

| module | role |
|---|---|
| `Base` | Shared vocabulary: `Option`, first-match search, counting. |
| `Text` | ASCII character classes, `strip`, `split`/`join`, run collapsing, Python slices. |
| `Paths` | `posixpath` `basename`, `dirname`, `join` and `splitext`. |
| `Ordering` | Python string order and `sorted`. |
| `Publications` | The `Publication` record and the loaded YAML `Record`. A field of the loaded record can be missing, null or present. |
| `Extractor`, `Organizer` | The organizer. |
| `YamlGenerator` | The YAML generator. |
| `MetadataUpdater` | The metadata updater. |
| `RoundTrips` | Properties that span the programs. |

The properties that span the programs:

- The updater joins authors with `"; "`, and the extractor's `;` split
  gives them back.
- The updater writes a CreationDate of `D:<year>0101000000`. The
  extractor's `D:(\d{4})` search reads back exactly that year.
- The `.pdf`→`.yaml` path rule (the last `.` onwards replaced) and the
  `.yaml`→`.pdf` rule (the last five characters replaced) invert each
  other on their own extensions. In particular, every file the organizer
  writes is found again from its YAML file.
- The YAML generator's file-name fallback does not fully recover what the
  organizer encoded:
  - The organizer names a file `year_author_title.pdf`, with underscores.
  - The fallback expects `year-author-title` and splits on the first
    hyphen.
  - It recovers the year, and its middle part is `author_title`.
  - When neither slug contains a hyphen, it reports the author as
    "Unknown".

  `RoundTrips.FallbackOnOrganizedFile` and
  `RoundTrips.FallbackMissesOrganizedAuthor` state this.
- The author and year round trips through the PDF properties hold for a
  property map keyed `/Author`, `/Title`, `/CreationDate`, which is the
  spelling the extractor looks up. The extractor gets its map from
  pdfminer's `doc.info[0]`, whose keys have no leading `/`. As written,
  the extractor therefore never sees the fields the updater writes (see
  "## Findings"). `RoundTrips.CorrectedAuthorsRoundTrip` and
  `RoundTrips.CorrectedYearRoundTrip` state the round trips through a
  reader that puts the `/` back.

### Details of the code the model keeps

- The range check [1900, 2024] applies only to years found in the text.
  A year read from the native CreationDate is accepted as any four
  digits. `Extractor.ExtractYear` and `RoundTrips.YearRoundTrip` state
  that.
- The suppression key is the file stem with one trailing `-digits` group
  removed (`re.sub(r'-\d+$', '', stem)`). Python's `$` also matches just
  before a final newline, and the model keeps that.
- The updater skips a loaded document only when it is empty or null. A
  mapping whose keys are all unknown is not empty: the update goes ahead
  and writes Keywords and CreationDate only.

## Model

| member | source | states |
|---|---|---|
| Extractor.CleanFilename | src/pdforg_base.py:268-273 | A cleaned name is at most 100 characters. It contains only lower-case ASCII letters, digits, `_` and `-`, with no whitespace and no doubled `-`. |
| Extractor.CleanFixedPoint | src/pdforg_base.py:268-273 | A name of at most 100 slug characters with no doubled `-` is left unchanged by cleaning. With `CleanFilename`, these are exactly the names cleaning can produce. |
| Extractor.CleanFilenameIdempotent | src/pdforg_base.py:268-273 | Cleaning a cleaned name changes nothing. |
| Extractor.NormalizeText | src/pdforg_base.py:94 | The normalised text is stripped. Its only whitespace is a single space, and no two spaces are adjacent. |
| Extractor.NormFixedPoint | src/pdforg_base.py:94 | Stripped text whose only whitespace is single spaces is left unchanged by normalisation. With `NormalizeText`, these are exactly the texts normalisation can produce. |
| Extractor.NormalizeTextIdempotent | src/pdforg_base.py:94 | Normalising normalised text changes nothing. |
| Extractor.SplitAuthors | src/pdforg_base.py:116 | Splitting on `;` gives at least one name. Each name is stripped and free of `;`. |
| Extractor.ExtractAuthors | src/pdforg_base.py:110-128 | If the native Author split has a non-empty first name, that split is the result. Otherwise the result is the split of the first pattern match whose first name is non-empty. Otherwise it is `["unknown"]`. The first name is never empty. |
| Extractor.DropYearParens | src/pdforg_base.py:142 | Removes whole `(dddd)` groups only, six characters each. The text is unchanged when it has none. |
| Extractor.DropYearParensAppend | src/pdforg_base.py:142 | No group spans the point before a `(`: the result for `a + t`, where `t` is empty or starts with `(`, is the result for `a` followed by the result for `t`. |
| Extractor.DropYearParensGroup | src/pdforg_base.py:142 | A `(dddd)` group is removed wherever it stands. The text before it and the text after it are cleaned independently. |
| Extractor.DropNumberPrefix | src/pdforg_base.py:143 | A leading `digits-` or `digits_` prefix is removed. Text without one is unchanged. |
| Extractor.FallbackTitle | src/pdforg_base.py:137-144 | The title taken from the file name is stripped. |
| Extractor.ExtractTitle | src/pdforg_base.py:130-144 | The stripped native Title wins when it is longer than three characters. Otherwise the title comes from the file name. |
| Extractor.CreationYearFrom | src/pdforg_base.py:150-152 | The result is the four digits after the first `D:dddd` at or after the start position. It is none exactly when there is no such occurrence. |
| Extractor.CreationYear | src/pdforg_base.py:150 | A year read from a CreationDate is four digits. |
| Extractor.ExtractYear | src/pdforg_base.py:146-162 | The native CreationDate year wins, with no range check. Otherwise the first pattern whose match lies in [1900, 2024] supplies the year. Otherwise the result is "Unknown", and it is "Unknown" exactly when no pattern supplies a year. |
| Extractor.ExtractDoi | src/pdforg_base.py:164-170 | The result is the first pattern's match. It is none exactly when no pattern matches. |
| Extractor.PdfminerInfo | src/pdforg_base.py:105 | pdfminer's spelling of an info dictionary: each `/`-named entry appears under its name without the `/`, with its value, and nothing else appears. |
| Extractor.SlashKeyed | src/pdforg_base.py:115-152 | The corrected reader: every key gets a leading `/`, with its value unchanged, and nothing else appears. |
| Extractor.SlashKeyedRestores | src/pdforg_base.py:105 | Putting the `/` back restores any `/`-named dictionary from pdfminer's spelling. |
| Extractor.PdfminerKeysUnslashed | src/pdforg_base.py:105 | Names with a single leading `/` leave no `/`-prefixed key in pdfminer's spelling. |
| Extractor.NoNativeFields | src/pdforg_base.py:110-162 | A property map without `/`-prefixed keys is the same as an empty one to the author, title and year extraction. With no author pattern, the authors are `["unknown"]`. |
| Extractor.FailedExtraction | src/pdforg_base.py:86-88 | The failure placeholder has title and year "Unknown" and no authors. |
| Extractor.ExtractMetadata | src/pdforg_base.py:53-88 | A failure gives the placeholder. Otherwise the record has a non-empty first author, a stripped title, a year that is "Unknown" or four digits, and the content hash. It has a publisher exactly when the native map has one. |
| Organizer.FileName | src/pdforg_base.py:255 | The name is `year_`, then `author_title`, then `.pdf`. It has no slash when its parts have none. |
| Organizer.DestinationName | src/pdforg_base.py:252-255 | The file name starts with the year and `_`, is followed by the cleaned author and title joined by `_`, and ends with `.pdf`. |
| Organizer.Destination | src/pdforg_base.py:249-256 | The file is named by `DestinationName`. It sits in a directory named after the year, whatever the output directory. That directory sits directly in the output directory when the latter is non-empty and has no trailing slash. |
| Organizer.ExtractedYearIsDirectory | src/pdforg_base.py:249 | Every year the extractor produces is one non-empty directory level without a slash. |
| Organizer.OrganizePdf | src/pdforg_base.py:241-266 | Organizing succeeds exactly when the copy succeeds. It then returns the extracted record and a destination whose file and directory names are `DestinationName` and the year. |
| Organizer.CandidatesExactly | src/pdforg_base.py:210-217 | A path is a candidate exactly when it joins a listed directory and name, and the name ends in `.pdf` (any case) and does not start with `.`. |
| Organizer.DropDashDigits | src/pdforg_base.py:224 | A trailing `-digits` group is cut off. A name without one is unchanged. |
| Organizer.DropsOneGroup | src/pdforg_base.py:223-224 | Exactly one trailing `-digits` group is removed, whatever comes before it (`paper-2-3` gives `paper-2`). Before a final newline, the group is removed and the newline stays. |
| Organizer.VariantKeys | src/pdforg_base.py:223-224 | A stem with no trailing `-digits` group and no final newline is its own key. Adding `-digits` to it keeps the key, so `paper` and `paper-2` collide. |
| Organizer.Step | src/pdforg_base.py:222-236 | A file with an already-filed key is skipped. A successful file is filed and claims its key, and a failed file does not claim it. The file adds one to the counter of its verdict and leaves the other two alone. |
| Organizer.Process | src/pdforg_base.py:222-236 | Every file gets a verdict. The success count is the number of filed files. The success, failure and skip counts are the numbers of `Organized`, `Failed` and `Skipped` verdicts, and they add up to the number of files. |
| Organizer.SeenKeys | src/pdforg_base.py:234 | The key set is exactly the keys of the files that were filed. |
| Organizer.SkipRule | src/pdforg_base.py:226-236 | A file is skipped exactly when an earlier file with the same key was filed. Otherwise it is filed exactly when organizing it succeeds. |
| Organizer.StepKeysUnique | src/pdforg_base.py:226-234 | One file's step keeps the filed keys pairwise distinct and equal to the key set. |
| Organizer.FiledKeysDistinct | src/pdforg_base.py:226-234 | No two filed files share a key, and the filed keys are exactly the key set. |
| Organizer.FiledOutcomes | src/pdforg_base.py:230-233 | Each filed triple is an input path together with the record and destination that organizing it produced. |
| Organizer.ProcessDirectory | src/pdforg_base.py:203-239 | The counts cover every candidate, one verdict each. The failure and skip counts are the numbers of `Failed` and `Skipped` verdicts. Filed sources are candidates, each filed copy sits in its year's directory, and no two filed files share a suppression key. |
| Organizer.WalkOrderIrrelevant | src/pdforg_base.py:210-219 | Two walks that find the same candidate files in any order give the same batch result. |
| Ordering.Sort | src/pdforg_base.py:219 | The result is sorted under Python string order and is a permutation of the input. |
| Ordering.SortDeterministic | src/pdforg_base.py:219 | Any two orderings of the same paths sort to the same sequence. |
| Paths.NestedJoin | src/pdforg_base.py:249-256 | A path joined from a root, a directory and a file name yields those same file and directory names back. Above them is the root itself when it is non-empty and has no trailing slash. |
| YamlGenerator.KeptTexts | src/yaml_generator.py:38-45 | No more texts are kept than there are pages, and every kept text is non-blank. |
| YamlGenerator.KeptTextsEmpty | src/yaml_generator.py:38-47 | Nothing is kept exactly when no page has text. |
| YamlGenerator.KeptTextsMembers | src/yaml_generator.py:38-45 | A text is kept exactly when some page yields it and it is non-blank. |
| YamlGenerator.ConsultedCount | src/yaml_generator.py:38 | The number of pages consulted is the smaller of the page count and the cap, and never negative. |
| YamlGenerator.TextSample | src/yaml_generator.py:32-49 | An unreadable document gives "". Otherwise the sample is "" exactly when no page within the cap has text. |
| YamlGenerator.KeptTextsAppend | src/yaml_generator.py:38-46 | The kept texts of two page runs are the two lists of kept texts concatenated, so page order is preserved. |
| YamlGenerator.RaisedPageLikeBlank | src/yaml_generator.py:39-45 | A page whose extraction raised contributes exactly what a blank page does. |
| YamlGenerator.PagesPastCapIgnored | src/yaml_generator.py:38 | Pages past the cap never change the sample. |
| YamlGenerator.AllPagesKept | src/yaml_generator.py:41-46 | When every page has text, all the texts are kept, in order. |
| YamlGenerator.NativeShortcut | src/yaml_generator.py:56-70 | The shortcut applies exactly when the properties are readable and both Title and Author are non-empty. It returns that title, the unsplit Author as the only author, and the parent directory name as the year. |
| YamlGenerator.Probe | src/yaml_generator.py:76-85 | A record is returned exactly when some service matches and only misses come before it. The first such match wins, and an exception before any match gives nothing. |
| YamlGenerator.ProbeOfThree | src/yaml_generator.py:76-85 | With three services, the probe succeeds exactly when the match is preceded by plain misses only. |
| YamlGenerator.Lookup | src/yaml_generator.py:73-85 | The services are tried in the order Crossref, Semantic Scholar, Google Books. The first match wins unless an earlier service raised. |
| YamlGenerator.FallbackMiddle | src/yaml_generator.py:88-90 | The file name between `year` plus one character and the last four characters, or "" when that range is empty. |
| YamlGenerator.Undash | src/yaml_generator.py:101-102 | The result has no `-` and is stripped. It leaves stripped text without a `-` unchanged. |
| YamlGenerator.UndashJoin | src/yaml_generator.py:101-102 | The `-` between two non-empty, stripped, dash-free parts becomes a space, and nothing else changes. |
| YamlGenerator.AuthorAndTitle | src/yaml_generator.py:93-98 | The author never contains a `-`. |
| YamlGenerator.SplitsAtFirstDash | src/yaml_generator.py:93-96 | For `a-b` with a dash-free `a`, the author is `a` and the title is `b`, hyphens included. |
| YamlGenerator.NoDashMeansUnknownAuthor | src/yaml_generator.py:97-98 | Without a `-`, the author is "Unknown" and the title is the whole middle part. |
| YamlGenerator.FilenameFallback | src/yaml_generator.py:87-104 | The fallback gives one author, and the year is the directory name. The title and author are stripped and free of `-`, and every optional field is empty. With no `-` in the middle part, the author is "Unknown". |
| YamlGenerator.GetMetadata | src/yaml_generator.py:51-104 | The sources are tried in order: native shortcut, then service lookup on the default three-page sample, then the file-name fallback. Unless a service supplied the record, the year is the directory name. |
| YamlGenerator.YamlPath | src/yaml_generator.py:111 | The YAML path ends in `.yaml` and replaces everything from the last `.`. Without a `.`, it is the path plus `.yaml`. |
| YamlGenerator.YamlPathOfPdf | src/yaml_generator.py:111 | For a `.pdf` path, the YAML path swaps the extension. |
| YamlGenerator.YamlEntries | src/yaml_generator.py:114-122 | The seven keys are written in the order title, authors, year, doi, isbn, publisher, abstract. |
| RoundTrips.FieldOf | src/yaml_generator.py:118-121 | An absent optional value is written as null, and only an absent one is. |
| RoundTrips.ReadWritten | src/yaml_generator.py:113-122 | Loading the written mapping gives back every field of the record. Each absent optional field comes back as null. |
| YamlGenerator.GenerateYaml | src/yaml_generator.py:106-132 | Generation succeeds exactly when writing succeeds. The file is the YAML path of the PDF, and its keys are in the fixed order. |
| MetadataUpdater.LookupEntry | src/pdf_metadata_updater.py:34 | A key is missing from a loaded mapping exactly when no entry has it. |
| MetadataUpdater.LookupLastEntry | src/pdf_metadata_updater.py:34 | A key reads the value of its last entry. A null value reads as null. |
| MetadataUpdater.ReadEmptyMapping | src/pdf_metadata_updater.py:104 | A readable loaded mapping counts as empty exactly when it has no entries at all. An unknown key alone makes it non-empty. |
| MetadataUpdater.GetText | src/pdf_metadata_updater.py:52-57 | Reading a field with default `''` gives "" for a missing key, Python `None` for null, and the value otherwise. |
| MetadataUpdater.RawInfo | src/pdf_metadata_updater.py:51-58 | The dictionary has the six info keys. Building it fails exactly when `authors` is null. |
| MetadataUpdater.DropEmpty | src/pdf_metadata_updater.py:60-61 | Exactly the entries with a non-empty string value are kept, unchanged. |
| MetadataUpdater.InfoDict | src/pdf_metadata_updater.py:51-61 | Keywords and CreationDate are always written. Title, Subject and Producer are written exactly when the field is present and non-empty. Author is written exactly when the list is non-empty and not `[""]`, and its value is the `"; "` join. Building fails exactly when `authors` is null. |
| MetadataUpdater.UpdatePdf | src/pdf_metadata_updater.py:39-84 | The update succeeds exactly when the PDF is rewritten and the dictionary can be built. |
| MetadataUpdater.YamlFiles | src/pdf_metadata_updater.py:93-96 | A listed file is processed exactly when its name ends in `.yaml` (any case). Hidden files are included. |
| MetadataUpdater.PdfPathFor | src/pdf_metadata_updater.py:97 | The PDF path is the YAML path minus its last five characters, plus `.pdf`. |
| MetadataUpdater.VerdictOf | src/pdf_metadata_updater.py:97-107 | A file counts as neither success nor failure exactly when its PDF is missing. It succeeds exactly when the PDF exists, the mapping loads non-empty (any key, known or not) and the update succeeds. |
| MetadataUpdater.OtherKeysOnlyUpdates | src/pdf_metadata_updater.py:51-64 | A mapping with only unknown keys still updates the PDF, with Keywords and CreationDate as the only properties written. |
| MetadataUpdater.VerdictsPartition | src/pdf_metadata_updater.py:99-107 | Every YAML file gets exactly one of the three verdicts. |
| MetadataUpdater.TallyUpdates | src/pdf_metadata_updater.py:103-107 | The counters are the numbers of updated files and of failed files. |
| MetadataUpdater.ProcessDirectory | src/pdf_metadata_updater.py:86-109 | Successes plus failures plus missing PDFs equals the number of YAML files. |
| MetadataUpdater.WalkOrderIrrelevant | src/pdf_metadata_updater.py:93-109 | Two walks that find the same YAML files in any order give the same counters. |
| RoundTrips.SplitJoined | src/pdforg_base.py:116 | Splitting on `;` and stripping inverts a `"; "` join of stripped, `;`-free names. |
| RoundTrips.AuthorsRoundTrip | src/pdf_metadata_updater.py:53 | The extractor's author split inverts the updater's author join. |
| RoundTrips.NativeAuthorsRoundTrip | src/pdforg_base.py:115-118 | Authors the updater writes into a PDF are exactly the authors the extractor reads back, whatever the text and patterns, when the properties reach the extractor `/`-keyed. pdfminer does not key them that way (see Findings). |
| RoundTrips.CreationDateRoundTrip | src/pdforg_base.py:150 | The CreationDate written for a year reads back as that year. |
| RoundTrips.YearRoundTrip | src/pdf_metadata_updater.py:57 | A four-digit year the updater writes is the year the extractor reports, whatever the text and patterns, when the properties reach the extractor `/`-keyed. pdfminer does not key them that way (see Findings). |
| RoundTrips.InfoKeysArePdfNames | src/pdf_metadata_updater.py:51-61 | Every key the updater writes is a PDF name: one `/`, then a non-`/` character. |
| RoundTrips.PdfminerHidesNativeFields | src/pdforg_base.py:105-162 | Read back through pdfminer's spelling, the Author, Title and CreationDate the updater writes change nothing in the extraction. With no author pattern, any written authors come back as `["unknown"]`. |
| RoundTrips.CorrectedAuthorsRoundTrip | src/pdforg_base.py:115-118 | Through the corrected reader, the authors the updater writes are the authors extracted. |
| RoundTrips.CorrectedYearRoundTrip | src/pdforg_base.py:149-152 | Through the corrected reader, the four-digit year the updater writes is the year extracted. |
| RoundTrips.PublisherNotReadBack | src/pdf_metadata_updater.py:56 | The publisher is written as `/Producer`, and no `/Publisher` entry is written for the extractor to read. |
| RoundTrips.PdfPathRoundTrip | src/pdf_metadata_updater.py:97 | The PDF path of the YAML path of a `.pdf` file is that file. |
| RoundTrips.YamlPathRoundTrip | src/yaml_generator.py:111 | The YAML path of the PDF path of a `.yaml` file is that file. |
| RoundTrips.OrganizedFileRoundTrip | src/pdforg_base.py:255-256 | Every organized file is found again from the YAML file written beside it. |
| RoundTrips.GeneratedKeywords | src/pdf_metadata_updater.py:55 | An absent DOI or ISBN goes through YAML as null and reaches the PDF keywords as the text "None". |
| RoundTrips.FallbackOnOrganizedFile | src/yaml_generator.py:88-90 | On an organized file, the fallback reads the organizer's year, and its middle part is `author_title`. |
| RoundTrips.FallbackMissesOrganizedAuthor | src/yaml_generator.py:93-98 | On an organized file whose author and title slugs contain no `-`, the fallback reports the author "Unknown". |

## Left out

- Text is ASCII-only. Whitespace is Python's `isspace` over ASCII, `\w` is `[A-Za-z0-9_]`, and `lower` maps only `A`–`Z`. Non-ASCII characters are never word characters or spaces.
- The author, year and DOI regular-expression families are not modelled. Each is a matcher function that gives the first match's first group.
- Every year pattern captures `\d{4}`, so a year matcher is typed to return four digits.
- The small expressions are modelled exactly: the slug classes, `\s+`, `\(\d{4}\)`, `^\d+[-_]`, `D:(\d{4})` and `-\d+$`.
- PDF parsing, page text extraction and native property reading are inputs, not computations.
  - The extractor's operations take the native map keyed the way the code looks it up (`/Author`, `/Title`, …). `Extractor.PdfminerInfo` models pdfminer's own key spelling, which differs (see "## Findings").
  - Native values are modelled as text. pdfminer returns bytes and PDF objects; their decoding is not modelled.
- The SHA-256 content hash is an input string.
- The file system is an input:
  - A walk is a listing of (directory, name) pairs.
  - Directory creation and copying give one success flag per path.
  - PDF existence, YAML loading and PDF rewriting are functions of the path.
- The updater's temporary file and its clean-up are left out. They do not affect the result.
- The online services are functions from the text sample to match, no match or exception.
  - Their HTTP requests, rate limiting and the asyncio scheduling are left out.
- YAML serialisation is modelled as the ordered list of (key, value) entries dumped.
  - Loading is modelled as last-entry-wins lookup.
  - Scalars other than strings, string lists and null are left out, and so are non-mapping documents.
- Logging, argument parsing, the `main` functions and the YAML generator's own directory loop are left out. They are wiring around the modelled operations.
- Organizer.ProcessDirectory: the output directory is assumed to be created. `os.makedirs(self.output_dir, exist_ok=True)` runs once before the loop, outside any `try` (src/pdforg_base.py:208). When it raises, `process_directory` raises and returns no counts, and the model has no result for that case.
- MetadataUpdater.ReadRecord: a known key whose value has another shape (for example `authors` as one string, or a number as `title`) gives no record, which counts as a failed load. Python goes on with the value as it is; a string of authors, for instance, is joined character by character.
- Extractor.ExtractMetadata: the contract states the properties every record has. Which fallback chain supplied each field is stated separately, by `ExtractAuthors`, `ExtractTitle`, `ExtractYear` and `ExtractDoi`.
- YamlGenerator.GenerateYaml: the contract states the path and the key order of what is written. The written values are stated by `YamlEntries` and `ReadWritten`.

## Findings

| source | as written | input that shows it | evidently intended | confidence | as-written member | corrected member |
|---|---|---|---|---|---|---|
| src/pdforg_base.py:105 | The native properties come from pdfminer's `doc.info[0]`, whose keys are PDF names without the `/`. The lookups at lines 115, 133 and 149 use `/Author`, `/Title` and `/CreationDate`, so they never match. | Any PDF the updater has written, for example with authors `["Ada"]` and year `1999`. With no author pattern matching the text, the organizer extracts `["unknown"]`, and the year comes from the text instead. | The native properties are read under the `/`-prefixed names, so that what the updater writes is what the organizer reads. | not executed | RoundTrips.PdfminerHidesNativeFields | RoundTrips.CorrectedAuthorsRoundTrip |
