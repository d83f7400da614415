/**
  Properties that span the three programs: what the metadata updater
  writes into a PDF is what the organizer's extractor reads back (authors
  through the `; ` join and `;` split, the year through the CreationDate),
  the YAML and PDF path rules invert each other, and the YAML generator's
  file-name fallback applied to a file the organizer produced.
 */
module RoundTrips {
  import opened Base
  import opened Text
  import opened Paths
  import opened Publications
  import opened Extractor
  import opened Organizer
  import opened YamlGenerator
  import opened MetadataUpdater

  /** Author names that survive a join and split: free of `;` and of surrounding whitespace. */
  predicate SplittableAuthors(xs: seq<string>) {
    |xs| >= 1 && forall i :: 0 <= i < |xs| ==> IsStripped(xs[i]) && ';' !in xs[i]
  }

  /** `lead + "x; rest"` is `lead + x`, the separator, then a space and the rest. */
  lemma JoinedHead(lead: string, xs: seq<string>)
    requires |xs| > 1
    ensures lead + Join(xs, "; ") == (lead + xs[0]) + [';'] + (" " + Join(xs[1..], "; "))
  {
    assert Join(xs, "; ") == xs[0] + "; " + Join(xs[1..], "; ");
  }

  /** Stripping `lead + x` for a stripped `x` and a lead of at most one space gives `x`. */
  lemma StripLead(lead: string, x: string)
    requires lead == "" || lead == " "
    requires IsStripped(x)
    ensures Strip(lead + x) == x
  {
    if lead == " " {
      StripSpaceBefore(x);
    } else {
      assert lead + x == x;
    }
  }

  /** Splitting a `; `-joined list of several names cuts off the first name. */
  lemma SplitJoinedHead(lead: string, xs: seq<string>)
    requires lead == "" || lead == " "
    requires |xs| > 1 && ';' !in xs[0]
    ensures Split(lead + Join(xs, "; "), ';') == [lead + xs[0]] + Split(" " + Join(xs[1..], "; "), ';')
  {
    JoinedHead(lead, xs);
    assert ';' !in lead + xs[0];
    SplitAtFirst(lead + xs[0], ';', " " + Join(xs[1..], "; "));
  }

  /** A single name, possibly after the separator's space, splits and strips back to itself. */
  lemma SplitSingle(lead: string, x: string)
    requires lead == "" || lead == " "
    requires IsStripped(x) && ';' !in x
    ensures StripAll(Split(lead + Join([x], "; "), ';')) == [x]
  {
    StripLead(lead, x);
    assert ';' !in lead + x;
    SplitNoSeparator(lead + x, ';');
    StripAllCons(lead + x, []);
  }

  lemma StripAllHead(h: string, parts: seq<string>, x: string, rest: seq<string>)
    requires Strip(h) == x && StripAll(parts) == rest
    ensures StripAll([h] + parts) == [x] + rest
  {
    StripAllCons(h, parts);
  }

  /** One step of the round trip: if the tail comes back, so does the whole list. */
  lemma SplitJoinedStep(lead: string, xs: seq<string>)
    requires lead == "" || lead == " "
    requires |xs| > 1 && IsStripped(xs[0]) && ';' !in xs[0]
    requires StripAll(Split(" " + Join(xs[1..], "; "), ';')) == xs[1..]
    ensures StripAll(Split(lead + Join(xs, "; "), ';')) == xs
  {
    SplitJoinedHead(lead, xs);
    StripLead(lead, xs[0]);
    StripAllHead(lead + xs[0], Split(" " + Join(xs[1..], "; "), ';'), xs[0], xs[1..]);
    assert [xs[0]] + xs[1..] == xs;
  }

  /** Splitting a `; `-joined list (possibly after the separator's space) gives the list back. */
  lemma {:induction false} SplitJoined(lead: string, xs: seq<string>)
    requires lead == "" || lead == " "
    requires SplittableAuthors(xs)
    ensures StripAll(Split(lead + Join(xs, "; "), ';')) == xs
    decreases |xs|
  {
    if |xs| == 1 {
      SplitSingle(lead, xs[0]);
      assert [xs[0]] == xs;
    } else {
      assert SplittableAuthors(xs[1..]);
      SplitJoined(" ", xs[1..]);
      SplitJoinedStep(lead, xs);
    }
  }

  /** The organizer's author split inverts the updater's `; ` join. */
  lemma AuthorsRoundTrip(xs: seq<string>)
    requires SplittableAuthors(xs)
    ensures SplitAuthors(Join(xs, "; ")) == xs
  {
    SplitJoined("", xs);
    assert "" + Join(xs, "; ") == Join(xs, "; ");
  }

  /**
    Authors written into a PDF by the updater are exactly the authors the
    organizer's extractor reads from its properties, whatever the patterns
    and the text, when the properties reach the extractor keyed with the
    `/` its lookups use. pdfminer's own spelling drops that `/`: see
    `PdfminerHidesNativeFields` and `CorrectedAuthorsRoundTrip`.
   */
  lemma NativeAuthorsRoundTrip(r: Record, text: string, patterns: seq<Matcher>)
    requires r.authors.Present? && SplittableAuthors(r.authors.value) && r.authors.value[0] != ""
    ensures InfoDict(r).Some?
    ensures ExtractAuthors(text, InfoDict(r).value, patterns) == r.authors.value
  {
    var xs := r.authors.value;
    AuthorsRoundTrip(xs);
    assert xs != [""] by { assert xs[0] != ""; }
    var info := InfoDict(r).value;
    assert "/Author" in info && info["/Author"] == Join(xs, "; ");
    assert NativeAuthorsUsable(info);
  }

  /** The CreationDate the updater writes carries its year where the extractor looks for it. */
  lemma CreationDateRoundTrip(y: string)
    requires IsYear4(y)
    ensures CreationYear("D:" + y + "0101000000") == Some(y)
  {
    var s := "D:" + y + "0101000000";
    assert s[2..6] == y;
    assert DateYearAt(s, 0);
  }

  /**
    A 4-digit year written by the updater is the year the extractor reports,
    with no range check, when the properties reach the extractor keyed with
    the `/` its lookups use (see `CorrectedYearRoundTrip` for pdfminer's
    spelling).
   */
  lemma YearRoundTrip(r: Record, text: string, patterns: seq<YearMatcher>)
    requires r.year.Present? && IsYear4(r.year.value) && !r.authors.Null?
    ensures InfoDict(r).Some?
    ensures ExtractYear(text, InfoDict(r).value, patterns) == r.year.value
  {
    var info := InfoDict(r).value;
    assert info["/CreationDate"] == "D:" + r.year.value + "0101000000";
    CreationDateRoundTrip(r.year.value);
  }

  /** Every name the updater writes is a PDF name: one leading `/`, then a letter. */
  lemma InfoKeysArePdfNames(r: Record)
    requires !r.authors.Null?
    ensures InfoDict(r).Some?
    ensures forall k :: k in InfoDict(r).value ==> IsSlashName(k) && |k| > 1 && k[1] != '/'
  {
    assert forall k :: k in InfoKeys ==> IsSlashName(k) && |k| > 1 && k[1] != '/';
  }

  /**
    As written, the extractor reads pdfminer's spelling of the info
    dictionary, whose keys lack the `/` of its lookups: the Author, Title
    and CreationDate the updater writes have no effect on what is
    extracted, and with no text pattern the authors come back as
    `unknown`.
   */
  lemma PdfminerHidesNativeFields(
    r: Record, text: string, authorPatterns: seq<Matcher>, yearPatterns: seq<YearMatcher>)
    requires !r.authors.Null?
    ensures InfoDict(r).Some?
    ensures ExtractAuthors(text, PdfminerInfo(InfoDict(r).value), authorPatterns)
            == ExtractAuthors(text, map[], authorPatterns)
    ensures ExtractYear(text, PdfminerInfo(InfoDict(r).value), yearPatterns)
            == ExtractYear(text, map[], yearPatterns)
    ensures NativeTitle(PdfminerInfo(InfoDict(r).value)) == ""
    ensures ExtractAuthors(text, PdfminerInfo(InfoDict(r).value), []) == ["unknown"]
  {
    var info := InfoDict(r).value;
    InfoKeysArePdfNames(r);
    PdfminerKeysUnslashed(info);
    NoNativeFields(PdfminerInfo(info), text, authorPatterns, yearPatterns);
  }

  /** With the corrected reader, the authors the updater writes are the authors extracted. */
  lemma CorrectedAuthorsRoundTrip(r: Record, text: string, patterns: seq<Matcher>)
    requires r.authors.Present? && SplittableAuthors(r.authors.value) && r.authors.value[0] != ""
    ensures InfoDict(r).Some?
    ensures ExtractAuthors(text, SlashKeyed(PdfminerInfo(InfoDict(r).value)), patterns) == r.authors.value
  {
    InfoKeysArePdfNames(r);
    SlashKeyedRestores(InfoDict(r).value);
    NativeAuthorsRoundTrip(r, text, patterns);
  }

  /** With the corrected reader, the four-digit year the updater writes is the year extracted. */
  lemma CorrectedYearRoundTrip(r: Record, text: string, patterns: seq<YearMatcher>)
    requires r.year.Present? && IsYear4(r.year.value) && !r.authors.Null?
    ensures InfoDict(r).Some?
    ensures ExtractYear(text, SlashKeyed(PdfminerInfo(InfoDict(r).value)), patterns) == r.year.value
  {
    InfoKeysArePdfNames(r);
    SlashKeyedRestores(InfoDict(r).value);
    YearRoundTrip(r, text, patterns);
  }

  /** The publisher goes into `/Producer`, which the extractor never reads: it does not come back. */
  lemma PublisherNotReadBack(r: Record)
    requires !r.authors.Null?
    ensures InfoDict(r).Some?
    ensures "/Publisher" !in InfoDict(r).value
  {
  }

  /** The YAML path of a PDF leads back to the PDF. */
  lemma PdfPathRoundTrip(pdfPath: string)
    requires EndsWith(pdfPath, ".pdf")
    ensures PdfPathFor(YamlPath(pdfPath)) == pdfPath
  {
    YamlPathOfPdf(pdfPath);
    var y := YamlPath(pdfPath);
    assert y[..|y| - 5] == pdfPath[..|pdfPath| - 4];
    assert pdfPath == pdfPath[..|pdfPath| - 4] + ".pdf";
  }

  /** The PDF path of a YAML file leads back to the YAML file. */
  lemma YamlPathRoundTrip(yamlPath: string)
    requires EndsWith(yamlPath, ".yaml")
    ensures YamlPath(PdfPathFor(yamlPath)) == yamlPath
  {
    var p := PdfPathFor(yamlPath);
    YamlPathOfPdf(p);
    assert p[..|p| - 4] == yamlPath[..|yamlPath| - 5];
    assert yamlPath == yamlPath[..|yamlPath| - 5] + ".yaml";
  }

  /** A suffix of a suffix is a suffix. */
  lemma EndsWithTrans(s: string, t: string, u: string)
    requires EndsWith(s, t) && EndsWith(t, u)
    ensures EndsWith(s, u)
  {
    assert s[|s| - |u|..] == s[|s| - |t|..][|t| - |u|..];
  }

  /** Every file the organizer writes gets its YAML file beside it and is found again from there. */
  lemma OrganizedFileRoundTrip(outputDir: string, p: Publication)
    ensures PdfPathFor(YamlPath(Destination(outputDir, p))) == Destination(outputDir, p)
  {
    EndsWithTrans(Destination(outputDir, p), DestinationName(p), ".pdf");
    PdfPathRoundTrip(Destination(outputDir, p));
  }

  /** The field an optional value becomes once written and read back: `None` is a YAML null. */
  function FieldOf(o: Option<string>): (f: Field<string>)
    ensures f.Null? <==> o.None?
    ensures o.Some? ==> f == Present(o.value)
  {
    match o
    case Some(s) => Present(s)
    case None => Null
  }

  /** Each written key reads back the value written for it. */
  lemma ReadEachKey(p: Publication, i: nat)
    requires i < |RecordKeys|
    ensures LookupEntry(YamlEntries(p), RecordKeys[i])
            == if YamlEntries(p)[i].1.Nothing? then Null else Present(YamlEntries(p)[i].1)
  {
    RecordKeysDistinct();
    LookupLastEntry(YamlEntries(p), i, RecordKeys[i]);
  }

  /** Reading back what was written gives every field of the publication, null for each absent one. */
  lemma ReadWritten(p: Publication)
    ensures ReadRecord(YamlEntries(p)) == Some(Record(
      Present(p.title), Present(p.authors), Present(p.year),
      FieldOf(p.doi), FieldOf(p.isbn), FieldOf(p.publisher), FieldOf(p.abstractText), false))
  {
    ReadEachKey(p, 0);
    ReadEachKey(p, 1);
    ReadEachKey(p, 2);
    ReadEachKey(p, 3);
    ReadEachKey(p, 4);
    ReadEachKey(p, 5);
    ReadEachKey(p, 6);
  }

  /**
    An absent DOI or ISBN is written to YAML as null and comes back into
    the PDF keywords as the text "None".
   */
  lemma GeneratedKeywords(p: Publication)
    ensures ReadRecord(YamlEntries(p)).Some?
    ensures Keywords(ReadRecord(YamlEntries(p)).value)
            == "doi:" + p.doi.GetOr("None") + " isbn:" + p.isbn.GetOr("None")
  {
    ReadWritten(p);
  }

  /**
    The file-name fallback on a file the organizer produced: the year is
    the organizer's, and the middle part is `author_title`, joined with an
    underscore where the fallback expects a hyphen.
   */
  lemma FallbackOnOrganizedFile(outputDir: string, p: Publication)
    requires IsYearDirectory(p.year)
    ensures ParentName(Destination(outputDir, p)) == p.year
    ensures FallbackMiddle(Destination(outputDir, p)) == AuthorPart(p) + "_" + CleanFilename(p.title)
  {
    var dest := Destination(outputDir, p);
    assert Basename(dest) == DestinationName(p) && ParentName(dest) == p.year;
  }

  /**
    So when neither the author slug nor the title slug contains a hyphen,
    the fallback does not recover the author: it reports "Unknown" and
    takes `author_title` as the title.
   */
  lemma FallbackMissesOrganizedAuthor(outputDir: string, p: Publication)
    requires IsYearDirectory(p.year)
    ensures '-' !in AuthorPart(p) && '-' !in CleanFilename(p.title) ==>
              FilenameFallback(Destination(outputDir, p)).authors == [Unknown]
  {
    var dest := Destination(outputDir, p);
    FallbackOnOrganizedFile(outputDir, p);
    var a, t := AuthorPart(p), CleanFilename(p.title);
    if '-' !in a && '-' !in t {
      assert '-' !in a + "_" + t by {
        forall i | 0 <= i < |a + "_" + t| ensures (a + "_" + t)[i] != '-' {
          if i < |a| {
            assert (a + "_" + t)[i] == a[i];
          } else if i > |a| {
            assert (a + "_" + t)[i] == t[i - |a| - 1];
          }
        }
      }
      assert FallbackMiddle(dest) == a + "_" + t;
    }
  }
}
