/**
  The YAML generator (`YAMLGenerator` in src/yaml_generator.py): for each
  organized PDF it settles on one `Publication` by trying, in order, the
  PDF's own Title/Author properties, three online services fed with a text
  sample of the first pages, and finally the `year/year-author-title.pdf`
  file-name convention; it then writes the record next to the PDF as YAML
  with a fixed key order.

  Page text extraction, the online services and the YAML writer are
  outside the model: pages are given as per-page results, each service as
  a function from the text sample to its outcome, and the dump as the
  ordered list of (key, value) entries it is given.
 */
module YamlGenerator {
  import opened Base
  import opened Text
  import opened Paths
  import opened Publications

  /** `max_pages`'s default. */
  const DefaultMaxPages: int := 3

  // ----------------------------------------------------- text sample

  /** What extracting the text of one page gave: its text, or an exception. */
  datatype PageResult = PageText(text: string) | PageRaised

  /** A page whose text is non-blank after stripping. */
  predicate HasText(page: PageResult) {
    page.PageText? && Strip(page.text) != ""
  }

  /** The raw texts of the pages that have text, in page order. */
  function KeptTexts(pages: seq<PageResult>): (r: seq<string>)
    ensures |r| <= |pages|
    ensures forall i :: 0 <= i < |r| ==> Strip(r[i]) != ""
  {
    if |pages| == 0 then []
    else
      var rest := KeptTexts(pages[1..]);
      if HasText(pages[0]) then [pages[0].text] + rest else rest
  }

  /** Nothing is kept exactly when no page has text. */
  lemma {:induction false} KeptTextsEmpty(pages: seq<PageResult>)
    ensures |KeptTexts(pages)| == 0 <==> forall i :: 0 <= i < |pages| ==> !HasText(pages[i])
  {
    if |pages| > 0 {
      KeptTextsEmpty(pages[1..]);
      assert forall i :: 1 <= i < |pages| ==> pages[1..][i - 1] == pages[i];
    }
  }

  /** A text is kept exactly when some page with text carries it. */
  lemma {:induction false} KeptTextsMembers(pages: seq<PageResult>, t: string)
    ensures t in KeptTexts(pages) <==> exists i :: 0 <= i < |pages| && HasText(pages[i]) && pages[i].text == t
  {
    if |pages| > 0 {
      var rest := pages[1..];
      KeptTextsMembers(rest, t);
      if t in KeptTexts(rest) {
        var i :| 0 <= i < |rest| && HasText(rest[i]) && rest[i].text == t;
        assert pages[i + 1] == rest[i];
      }
      if exists i :: 0 <= i < |pages| && HasText(pages[i]) && pages[i].text == t {
        var i :| 0 <= i < |pages| && HasText(pages[i]) && pages[i].text == t;
        if i > 0 {
          assert rest[i - 1] == pages[i];
        }
      }
    }
  }

  /** `range(min(len(pdf.pages), max_pages))`: how many pages are consulted. */
  function ConsultedCount(pageCount: nat, maxPages: int): (n: nat)
    ensures n <= pageCount
    ensures 0 <= maxPages ==> n == if maxPages < pageCount then maxPages else pageCount
    ensures maxPages <= 0 ==> n == 0
  {
    if maxPages <= 0 then 0 else if maxPages < pageCount then maxPages else pageCount
  }

  /**
    `extract_text_sample`: the texts of the non-blank pages among the first
    `maxPages`, joined with single spaces; "" when the document cannot be
    opened (`None`) or no consulted page has text.
   */
  function TextSample(doc: Option<seq<PageResult>>, maxPages: int): (r: string)
    ensures doc.None? ==> r == ""
    ensures doc.Some? ==>
      (r == "" <==> forall i :: 0 <= i < |doc.value| && i < maxPages ==> !HasText(doc.value[i]))
  {
    match doc
    case None => ""
    case Some(pages) =>
      var consulted := pages[..ConsultedCount(|pages|, maxPages)];
      var kept := KeptTexts(consulted);
      KeptTextsEmpty(consulted);
      assert forall i :: 0 <= i < |consulted| ==> consulted[i] == pages[i];
      if |kept| > 0 then
        assert kept[0] != "" by { assert Strip(kept[0]) != ""; }
        JoinNonEmpty(kept, " ");
        Join(kept, " ")
      else ""
  }

  /** A join whose first part is non-empty is non-empty. */
  lemma JoinNonEmpty(parts: seq<string>, d: string)
    requires |parts| > 0 && parts[0] != ""
    ensures Join(parts, d) != ""
  {
    if |parts| > 1 {
      assert Join(parts, d) == parts[0] + d + Join(parts[1..], d);
      assert |Join(parts, d)| >= |parts[0]|;
    }
  }

  /** Kept texts of concatenated page runs are the concatenation, so page order is preserved. */
  lemma {:induction false} KeptTextsAppend(a: seq<PageResult>, b: seq<PageResult>)
    ensures KeptTexts(a + b) == KeptTexts(a) + KeptTexts(b)
    decreases |a|
  {
    if |a| == 0 {
      assert a + b == b;
    } else {
      var ab := a + b;
      assert ab[1..] == a[1..] + b;
      KeptTextsAppend(a[1..], b);
    }
  }

  /** A page that raised is treated exactly like a page with blank text. */
  lemma {:induction false} RaisedPageLikeBlank(pages: seq<PageResult>, i: nat, blank: string)
    requires i < |pages| && Strip(blank) == ""
    ensures KeptTexts(pages[i := PageRaised]) == KeptTexts(pages[i := PageText(blank)])
  {
    if i > 0 {
      RaisedPageLikeBlank(pages[1..], i - 1, blank);
      assert pages[i := PageRaised][1..] == pages[1..][i - 1 := PageRaised];
      assert pages[i := PageText(blank)][1..] == pages[1..][i - 1 := PageText(blank)];
    }
  }

  /** Pages past the cap never influence the sample. */
  lemma PagesPastCapIgnored(pages: seq<PageResult>, later: seq<PageResult>, maxPages: int)
    requires 0 <= maxPages <= |pages|
    ensures TextSample(Some(pages + later), maxPages) == TextSample(Some(pages), maxPages)
  {
    assert (pages + later)[..maxPages] == pages[..maxPages];
  }

  /** When every consulted page has text, every text is kept, in page order. */
  lemma {:induction false} AllPagesKept(pages: seq<PageResult>)
    requires forall i :: 0 <= i < |pages| ==> HasText(pages[i])
    ensures |KeptTexts(pages)| == |pages|
    ensures forall i :: 0 <= i < |pages| ==> PageText(KeptTexts(pages)[i]) == pages[i]
  {
    if |pages| > 0 {
      var rest := pages[1..];
      AllPagesKept(rest);
      var r := KeptTexts(pages);
      assert r == [pages[0].text] + KeptTexts(rest);
      forall i | 0 < i < |pages|
        ensures PageText(r[i]) == pages[i]
      {
        assert rest[i - 1] == pages[i];
      }
    }
  }

  // ------------------------------------------------ native shortcut

  /** `info.get(key, '')`. */
  function Get(info: map<string, string>, key: string): (v: string)
    ensures key !in info ==> v == ""
  {
    if key in info then info[key] else ""
  }

  /** `os.path.basename(os.path.dirname(path))`: the name of the directory holding the file. */
  function ParentName(path: string): (r: string)
    ensures '/' !in r
  {
    Basename(Dirname(path))
  }

  /**
    The native shortcut: when the PDF's properties could be read (`None`
    otherwise) and both Title and Author are non-empty, the record is that
    title, the whole Author string as the only author (not split on `;`),
    and the parent directory name as the year.
   */
  function NativeShortcut(info: Option<map<string, string>>, path: string): (r: Option<Publication>)
    ensures r.Some? <==> info.Some? && Get(info.value, "/Title") != "" && Get(info.value, "/Author") != ""
    ensures r.Some? ==> r.value.title == info.value["/Title"] && r.value.authors == [info.value["/Author"]]
    ensures r.Some? ==> r.value.year == ParentName(path)
  {
    match info
    case None => None
    case Some(m) =>
      var title := Get(m, "/Title");
      var author := Get(m, "/Author");
      if |m| > 0 && title != "" && author != "" then Some(Basic(title, [author], ParentName(path))) else None
  }

  // ------------------------------------------------- online services

  /** What one service call gave: a publication, no match (`None`), or an exception. */
  datatype ServiceResult = Found(pub: Publication) | NoMatch | Raised

  /** The three lookups, in the order they are tried. */
  datatype Services = Services(
    crossref: string -> ServiceResult,
    semanticScholar: string -> ServiceResult,
    googleBooks: string -> ServiceResult)

  function ServiceOrder(s: Services): seq<string -> ServiceResult> {
    [s.crossref, s.semanticScholar, s.googleBooks]
  }

  /** A result that ends the probing: a match returns it, an exception abandons the rest. */
  predicate EndsProbe(r: ServiceResult) { !r.NoMatch? }

  /** Probing stops at the first result that is not a plain miss; only a match yields a record. */
  function Probe(results: seq<ServiceResult>): (r: Option<Publication>)
    ensures r.Some? <==>
      exists i :: 0 <= i < |results| && results[i].Found? && forall j :: 0 <= j < i ==> results[j].NoMatch?
    ensures forall i ::
              (0 <= i < |results| && results[i].Found? && (forall j :: 0 <= j < i ==> results[j].NoMatch?))
              ==> r == Some(results[i].pub)
    ensures forall i ::
              (0 <= i < |results| && results[i].Raised? && (forall j :: 0 <= j < i ==> results[j].NoMatch?))
              ==> r.None?
  {
    FirstWhereIsFirst(results, EndsProbe);
    match FirstWhere(results, EndsProbe)
    case None => None
    case Some(i) => if results[i].Found? then Some(results[i].pub) else None
  }

  /** With three services, a match is returned exactly when it is preceded by plain misses only. */
  lemma ProbeOfThree(results: seq<ServiceResult>)
    requires |results| == 3
    ensures Probe(results).Some? <==>
      results[0].Found? || (results[0].NoMatch? && results[1].Found?)
      || (results[0].NoMatch? && results[1].NoMatch? && results[2].Found?)
  {
    if Probe(results).Some? {
      var i :| 0 <= i < 3 && results[i].Found? && forall j :: 0 <= j < i ==> results[j].NoMatch?;
      if i == 1 {
        assert results[0].NoMatch?;
      } else if i == 2 {
        assert results[0].NoMatch? && results[1].NoMatch?;
      }
    }
    assert results[0].NoMatch? ==> forall j :: 0 <= j < 1 ==> results[j].NoMatch?;
    assert results[0].NoMatch? && results[1].NoMatch? ==> forall j :: 0 <= j < 2 ==> results[j].NoMatch?;
  }

  /**
    The online lookup over the three services with one text sample: the
    first match in service order, unless a service before it raised.
   */
  function Lookup(services: Services, sample: string): (r: Option<Publication>)
    ensures var c, s, g := services.crossref(sample), services.semanticScholar(sample), services.googleBooks(sample);
      && (r.Some? <==> c.Found? || (c.NoMatch? && s.Found?) || (c.NoMatch? && s.NoMatch? && g.Found?))
      && (c.Found? ==> r == Some(c.pub))
      && (c.NoMatch? && s.Found? ==> r == Some(s.pub))
      && (c.NoMatch? && s.NoMatch? && g.Found? ==> r == Some(g.pub))
  {
    var results := ApplyAll(ServiceOrder(services), sample);
    assert results == [services.crossref(sample), services.semanticScholar(sample), services.googleBooks(sample)];
    ProbeOfThree(results);
    Probe(results)
  }

  // ------------------------------------------------- filename fallback

  /** `name[k+1:-4]`: what lies between a `k`-character prefix plus one separator and the last four characters. */
  function Middle(name: string, k: nat): (r: string)
    ensures k + 1 <= |name| - 4 ==> r == name[k + 1..|name| - 4]
    ensures k + 1 >= |name| - 4 ==> r == ""
  {
    var r := PySlice(name, k + 1, -4);
    assert k + 1 <= |name| - 4 ==> r == name[k + 1..|name| - 4];
    r
  }

  /** `filename[len(year)+1:-4]` with the file name and the year of `path`. */
  function FallbackMiddle(path: string): (r: string)
    ensures |ParentName(path)| + 1 <= |Basename(path)| - 4 ==>
      r == Basename(path)[|ParentName(path)| + 1..|Basename(path)| - 4]
    ensures |ParentName(path)| + 1 >= |Basename(path)| - 4 ==> r == ""
  {
    Middle(Basename(path), |ParentName(path)|)
  }

  /** `s.replace('-', ' ').strip()`. */
  function Undash(s: string): (r: string)
    ensures '-' !in r && IsStripped(r)
    ensures '-' !in s && IsStripped(s) ==> r == s
  {
    var t := ReplaceChar(s, '-', ' ');
    if '-' !in s then
      assert t == s;
      Strip(t)
    else
      Strip(t)
  }
  /** The dash between two dash-free, stripped parts becomes the space between them. */
  lemma UndashJoin(a: string, b: string)
    requires a != "" && IsStripped(a) && '-' !in a
    requires b != "" && IsStripped(b) && '-' !in b
    ensures Undash(a + "-" + b) == a + " " + b
  {
    var s, u := a + "-" + b, a + " " + b;
    assert ReplaceChar(s, '-', ' ') == u by {
      forall i | 0 <= i < |s| ensures ReplaceChar(s, '-', ' ')[i] == u[i] {
        if i < |a| {
          assert s[i] == a[i];
        } else if i > |a| {
          assert s[i] == b[i - |a| - 1];
        }
      }
    }
    assert u[0] == a[0] && u[|u| - 1] == b[|b| - 1];
  }


  /**
    The middle part read as `author-title`: cut at its first `-`, the title
    keeping the rest (hyphens included); without a `-` the author is
    "Unknown" and the whole part is the title.
   */
  function AuthorAndTitle(middle: string): (r: (string, string))
    ensures '-' !in r.0
  {
    var parts := Split(middle, '-');
    if |parts| > 1 then (parts[0], Join(parts[1..], "-")) else (Unknown, middle)
  }

  /** With a `-`, the author is what precedes the first one and the title all that follows it. */
  lemma SplitsAtFirstDash(a: string, b: string)
    requires '-' !in a
    ensures AuthorAndTitle(a + "-" + b) == (a, b)
  {
    SplitAtFirst(a, '-', b);
    var parts := Split(a + "-" + b, '-');
    assert parts == [a] + Split(b, '-');
    assert parts[1..] == Split(b, '-');
    JoinSplit(b, '-');
  }

  /** Without a `-`, the author is "Unknown" and the title the whole part. */
  lemma NoDashMeansUnknownAuthor(middle: string)
    requires '-' !in middle
    ensures AuthorAndTitle(middle) == (Unknown, middle)
  {
    SplitNoSeparator(middle, '-');
  }

  /**
    The file-name fallback: the text between `year-` and `.pdf` split into
    author and title, both with hyphens turned into spaces and stripped;
    the year is the directory name.
   */
  function FilenameFallback(path: string): (p: Publication)
    ensures |p.authors| == 1 && p.year == ParentName(path)
    ensures '-' !in p.title && '-' !in p.authors[0]
    ensures IsStripped(p.title) && IsStripped(p.authors[0])
    ensures p.doi.None? && p.isbn.None? && p.publisher.None? && p.abstractText.None?
    ensures '-' !in FallbackMiddle(path) ==> p.authors == [Unknown] && p.title == Undash(FallbackMiddle(path))
  {
    var middle := FallbackMiddle(path);
    if '-' !in middle then
      NoDashMeansUnknownAuthor(middle);
      assert '-' !in Unknown && IsStripped(Unknown);
      Basic(Undash(middle), [Undash(Unknown)], ParentName(path))
    else
      var (author, title) := AuthorAndTitle(middle);
      Basic(Undash(title), [Undash(author)], ParentName(path))
  }

  // ------------------------------------------------------ get_metadata

  /** Everything `get_metadata` consults for one PDF. */
  datatype Sources = Sources(
    info: Option<map<string, string>>,
    pages: Option<seq<PageResult>>,
    services: Services)

  /**
    `get_metadata`: the native shortcut, else the first service match on the
    default text sample, else the file-name fallback. Whenever no service
    supplied the record, the year is the name of the PDF's directory.
   */
  function GetMetadata(path: string, src: Sources): (p: Publication)
    ensures NativeShortcut(src.info, path).Some? ==> p == NativeShortcut(src.info, path).value
    ensures NativeShortcut(src.info, path).None? ==>
      p == Lookup(src.services, TextSample(src.pages, DefaultMaxPages)).GetOr(FilenameFallback(path))
    ensures NativeShortcut(src.info, path).Some? || Lookup(src.services, TextSample(src.pages, DefaultMaxPages)).None?
      ==> p.year == ParentName(path)
  {
    match NativeShortcut(src.info, path)
    case Some(p) => p
    case None =>
      match Lookup(src.services, TextSample(src.pages, DefaultMaxPages))
      case Some(p) => p
      case None => FilenameFallback(path)
  }

  // ------------------------------------------------------------- YAML

  /** `pdf_path.rsplit('.', 1)[0] + '.yaml'`: everything before the last dot, then `.yaml`. */
  function YamlPath(pdfPath: string): (r: string)
    ensures EndsWith(r, ".yaml")
    ensures '.' !in pdfPath ==> r == pdfPath + ".yaml"
    ensures '.' in pdfPath ==>
      |r| - 5 < |pdfPath| && r[..|r| - 5] == pdfPath[..|r| - 5]
      && pdfPath[|r| - 5] == '.' && '.' !in pdfPath[|r| - 4..]
  {
    match LastIndexOf(pdfPath, '.')
    case None => pdfPath + ".yaml"
    case Some(i) =>
      var r := pdfPath[..i] + ".yaml";
      assert r[..|r| - 5] == pdfPath[..i];
      r
  }

  /** For a `.pdf` path, the YAML path swaps the extension. */
  lemma YamlPathOfPdf(pdfPath: string)
    requires EndsWith(pdfPath, ".pdf")
    ensures YamlPath(pdfPath) == pdfPath[..|pdfPath| - 4] + ".yaml"
  {
    var n := |pdfPath|;
    assert pdfPath[n - 4..] == ".pdf";
    assert pdfPath[n - 4] == '.';
    assert pdfPath[n - 3..] == "pdf";
    var i := LastIndexOf(pdfPath, '.').value;
    assert i == n - 4;
  }

  function OptionalValue(o: Option<string>): YamlValue {
    match o
    case Some(s) => Str(s)
    case None => Nothing
  }

  /** The mapping `generate_yaml` dumps, as (key, value) entries in dump order. */
  function YamlEntries(p: Publication): (r: seq<(string, YamlValue)>)
    ensures |r| == |RecordKeys|
    ensures forall i :: 0 <= i < |r| ==> r[i].0 == RecordKeys[i]
  {
    [("title", Str(p.title)), ("authors", StrList(p.authors)), ("year", Str(p.year)),
     ("doi", OptionalValue(p.doi)), ("isbn", OptionalValue(p.isbn)),
     ("publisher", OptionalValue(p.publisher)), ("abstract", OptionalValue(p.abstractText))]
  }

  /**
    `generate_yaml`: the YAML file goes next to the PDF; the outcome is
    a success exactly when writing the file succeeded.
   */
  function GenerateYaml(pdfPath: string, src: Sources, written: bool): (r: Option<(string, seq<(string, YamlValue)>)>)
    ensures r.Some? <==> written
    ensures r.Some? ==> r.value.0 == YamlPath(pdfPath) && EndsWith(r.value.0, ".yaml")
    ensures r.Some? ==> |r.value.1| == |RecordKeys| && forall i :: 0 <= i < |RecordKeys| ==> r.value.1[i].0 == RecordKeys[i]
  {
    var p := GetMetadata(pdfPath, src);
    if written then Some((YamlPath(pdfPath), YamlEntries(p))) else None
  }
}
