/**
  The metadata updater (`PDFMetadataUpdater` in src/pdf_metadata_updater.py):
  for every YAML file under a directory it finds the PDF beside it, builds
  a PDF info dictionary from the loaded record, drops the entries with
  empty values, writes the dictionary into the PDF, and counts successes
  and failures.

  Reading and writing PDFs and loading YAML are outside the model: whether
  the PDF exists, what loading the YAML file gave (`None` when it could not
  be read or parsed) and whether rewriting the PDF succeeded are inputs
  per path.
 */
module MetadataUpdater {
  import opened Base
  import opened Text
  import opened Paths
  import opened Publications

  // ------------------------------------------------------ info dictionary

  /** `metadata.get(key, '')` for a text field: "" when the key is missing, Python `None` when null. */
  function GetText(f: Field<string>): (v: Option<string>)
    ensures v.None? <==> f.Null?
    ensures f.Missing? ==> v == Some("")
    ensures f.Present? ==> v == Some(f.value)
  {
    match f
    case Missing => Some("")
    case Null => None
    case Present(s) => Some(s)
  }

  /** How an f-string renders such a value: `None` becomes "None". */
  function Render(v: Option<string>): string {
    match v
    case Some(s) => s
    case None => "None"
  }

  /** The keys the updater writes. */
  const InfoKeys: set<string> := {"/Title", "/Author", "/Subject", "/Keywords", "/Producer", "/CreationDate"}

  /** `f"doi:{doi} isbn:{isbn}"`. */
  function Keywords(r: Record): string {
    "doi:" + Render(GetText(r.doi)) + " isbn:" + Render(GetText(r.isbn))
  }

  /** `f"D:{year}0101000000"`: January 1st, midnight, of the record's year. */
  function CreationDate(r: Record): string {
    "D:" + Render(GetText(r.year)) + "0101000000"
  }

  /**
    The info dictionary before filtering, with Python `None` values kept as
    `None`; building it raises (`None` here) when `authors` is null, since
    joining a null list fails.
   */
  function RawInfo(r: Record): (m: Option<map<string, Option<string>>>)
    ensures m.None? <==> r.authors.Null?
    ensures m.Some? ==> m.value.Keys == InfoKeys
  {
    if r.authors.Null? then None
    else
      var authors := if r.authors.Present? then r.authors.value else [];
      Some(map[
        "/Title" := GetText(r.title),
        "/Author" := Some(Join(authors, "; ")),
        "/Subject" := GetText(r.abstractText),
        "/Keywords" := Some(Keywords(r)),
        "/Producer" := GetText(r.publisher),
        "/CreationDate" := Some(CreationDate(r))])
  }

  /** `{k: v for k, v in d.items() if v}`: keeps exactly the entries whose value is a non-empty string, unchanged. */
  function DropEmpty(m: map<string, Option<string>>): (r: map<string, string>)
    ensures forall k :: k in r <==> k in m && m[k].Some? && m[k].value != ""
    ensures forall k :: k in r ==> r[k] == m[k].value
  {
    map k | k in m && m[k].Some? && m[k].value != "" :: m[k].value
  }

  /** A text field that survives the filter: present and non-empty. */
  predicate Filled(f: Field<string>) {
    f.Present? && f.value != ""
  }

  /**
    The dictionary written into the PDF. Keywords and CreationDate are
    always there; Title, Subject and Producer exactly when the record's
    title, abstract and publisher are non-empty; Author exactly when the
    joined list is non-empty. Every value is the record's own.
   */
  function InfoDict(r: Record): (info: Option<map<string, string>>)
    ensures info.None? <==> r.authors.Null?
    ensures info.Some? ==> info.value.Keys <= InfoKeys
    ensures info.Some? ==> "/Keywords" in info.value && info.value["/Keywords"] == Keywords(r)
    ensures info.Some? ==> "/CreationDate" in info.value && info.value["/CreationDate"] == CreationDate(r)
    ensures info.Some? ==> ("/Title" in info.value <==> Filled(r.title))
    ensures info.Some? ==> ("/Subject" in info.value <==> Filled(r.abstractText))
    ensures info.Some? ==> ("/Producer" in info.value <==> Filled(r.publisher))
    ensures info.Some? && Filled(r.title) ==> info.value["/Title"] == r.title.value
    ensures info.Some? && Filled(r.abstractText) ==> info.value["/Subject"] == r.abstractText.value
    ensures info.Some? && Filled(r.publisher) ==> info.value["/Producer"] == r.publisher.value
    ensures info.Some? ==>
      ("/Author" in info.value <==> r.authors.Present? && |r.authors.value| > 0 && r.authors.value != [""])
    ensures info.Some? && "/Author" in info.value ==> info.value["/Author"] == Join(r.authors.value, "; ")
  {
    match RawInfo(r)
    case None => None
    case Some(m) =>
      var authors := if r.authors.Present? then r.authors.value else [];
      JoinEmpty(authors, "; ");
      assert Keywords(r)[..3] == "doi";
      assert CreationDate(r)[..2] == "D:";
      Some(DropEmpty(m))
  }

  /**
    `update_pdf_metadata`: the dictionary written when the PDF could be
    read and rewritten (`rewritten`) and the dictionary could be built.
   */
  function UpdatePdf(metadata: Record, rewritten: bool): (r: Option<map<string, string>>)
    ensures r.Some? <==> rewritten && !metadata.authors.Null?
    ensures r.Some? ==> r == InfoDict(metadata)
  {
    if rewritten then InfoDict(metadata) else None
  }

  // ------------------------------------------------------------ batch

  /** `file.lower().endswith('.yaml')`; hidden files are not excluded. */
  predicate IsYamlName(name: string) {
    |name| >= 5 && Lower(name[|name| - 5..]) == ".yaml"
  }

  /** The joined paths of the YAML files of a walk listing, in listing order. */
  function YamlFiles(listing: seq<(string, string)>): (r: seq<string>)
    ensures |r| <= |listing|
    ensures forall i :: 0 <= i < |listing| && IsYamlName(listing[i].1)
              ==> PathJoin(listing[i].0, listing[i].1) in r
    ensures forall q :: q in r ==>
              exists i :: 0 <= i < |listing| && IsYamlName(listing[i].1)
                          && q == PathJoin(listing[i].0, listing[i].1)
  {
    if |listing| == 0 then []
    else
      var rest := YamlFiles(listing[1..]);
      assert forall i :: 1 <= i < |listing| ==> listing[1..][i - 1] == listing[i];
      var (root, name) := listing[0];
      if IsYamlName(name) then [PathJoin(root, name)] + rest else rest
  }

  /** `yaml_path[:-5] + '.pdf'`: the last five characters replaced by `.pdf`. */
  function PdfPathFor(yamlPath: string): (r: string)
    ensures EndsWith(r, ".pdf")
    ensures |yamlPath| >= 5 ==> r == yamlPath[..|yamlPath| - 5] + ".pdf"
    ensures |yamlPath| < 5 ==> r == ".pdf"
  {
    var r := PySlice(yamlPath, 0, -5) + ".pdf";
    assert r[|r| - 4..] == ".pdf";
    r
  }

  /** What loading the mapping gives for `key`: the value of its last entry, or missing. */
  function LookupEntry(entries: seq<(string, YamlValue)>, key: string): (f: Field<YamlValue>)
    ensures f.Missing? <==> forall i :: 0 <= i < |entries| ==> entries[i].0 != key
  {
    if |entries| == 0 then Missing
    else
      var last := entries[|entries| - 1];
      if last.0 == key then (if last.1.Nothing? then Null else Present(last.1))
      else
        var f := LookupEntry(entries[..|entries| - 1], key);
        assert forall i :: 0 <= i < |entries| - 1 ==> entries[..|entries| - 1][i] == entries[i];
        f
  }

  /** A key is read from its last entry: a later duplicate overrides an earlier one. */
  lemma {:induction false} LookupLastEntry(entries: seq<(string, YamlValue)>, i: nat, key: string)
    requires i < |entries| && entries[i].0 == key
    requires forall j :: i < j < |entries| ==> entries[j].0 != key
    ensures LookupEntry(entries, key) == if entries[i].1.Nothing? then Null else Present(entries[i].1)
    decreases |entries|
  {
    if i < |entries| - 1 {
      var front := entries[..|entries| - 1];
      assert forall j :: i < j < |front| ==> front[j] == entries[j];
      LookupLastEntry(front, i, key);
    }
  }

  /** A looked-up value read as a string field; `None` when it has another shape. */
  function AsText(f: Field<YamlValue>): Option<Field<string>> {
    match f
    case Missing => Some(Missing)
    case Null => Some(Null)
    case Present(v) => if v.Str? then Some(Present(v.text)) else None
  }

  /** A looked-up value read as a list-of-strings field; `None` when it has another shape. */
  function AsList(f: Field<YamlValue>): Option<Field<seq<string>>> {
    match f
    case Missing => Some(Missing)
    case Null => Some(Null)
    case Present(v) => if v.StrList? then Some(Present(v.items)) else None
  }

  /**
    The record the metadata updater reads from a loaded mapping, when every
    key it reads holds a value of the shape the generator writes.
   */
  function ReadRecord(entries: seq<(string, YamlValue)>): Option<Record> {
    var title := AsText(LookupEntry(entries, "title"));
    var authors := AsList(LookupEntry(entries, "authors"));
    var year := AsText(LookupEntry(entries, "year"));
    var doi := AsText(LookupEntry(entries, "doi"));
    var isbn := AsText(LookupEntry(entries, "isbn"));
    var publisher := AsText(LookupEntry(entries, "publisher"));
    var abstractText := AsText(LookupEntry(entries, "abstract"));
    if title.Some? && authors.Some? && year.Some? && doi.Some? && isbn.Some? && publisher.Some? && abstractText.Some?
    then Some(Record(title.value, authors.value, year.value, doi.value, isbn.value, publisher.value, abstractText.value,
                     exists i :: 0 <= i < |entries| && entries[i].0 !in RecordKeys))
    else None
  }

  /** A loaded mapping is empty, and so false to Python, exactly when the file held no entries. */
  lemma ReadEmptyMapping(entries: seq<(string, YamlValue)>)
    requires ReadRecord(entries).Some?
    ensures IsEmptyMapping(ReadRecord(entries).value) <==> |entries| == 0
  {
    if |entries| > 0 {
      var r := ReadRecord(entries).value;
      var k := entries[0].0;
      if k in RecordKeys {
        assert !LookupEntry(entries, k).Missing?;
        assert !IsEmptyMapping(r);
      } else {
        assert r.hasOtherKeys;
      }
    }
  }

  /** What the updater can see of one YAML file and its PDF. */
  datatype Env = Env(
    pdfExists: string -> bool,
    load: string -> Option<Record>,
    rewritten: string -> bool)

  datatype UpdateVerdict = Updated | UpdateFailed | NoPdf

  /**
    The fate of one YAML file: no PDF beside it is neither a success nor a
    failure; an unreadable or empty mapping, or a failed update, is a
    failure.
   */
  function VerdictOf(yamlPath: string, env: Env): (v: UpdateVerdict)
    ensures v == NoPdf <==> !env.pdfExists(PdfPathFor(yamlPath))
    ensures v == Updated <==>
      && env.pdfExists(PdfPathFor(yamlPath))
      && env.load(yamlPath).Some? && !IsEmptyMapping(env.load(yamlPath).value)
      && UpdatePdf(env.load(yamlPath).value, env.rewritten(PdfPathFor(yamlPath))).Some?
  {
    var pdfPath := PdfPathFor(yamlPath);
    if !env.pdfExists(pdfPath) then NoPdf
    else match env.load(yamlPath)
      case None => UpdateFailed
      case Some(metadata) =>
        if !IsEmptyMapping(metadata) && UpdatePdf(metadata, env.rewritten(pdfPath)).Some? then Updated
        else UpdateFailed
  }

  /**
    A mapping holding none of the record keys but some other key is still
    true to Python, so the PDF is updated with just Keywords and
    CreationDate.
   */
  lemma OtherKeysOnlyUpdates(yamlPath: string, env: Env)
    requires env.pdfExists(PdfPathFor(yamlPath)) && env.rewritten(PdfPathFor(yamlPath))
    requires env.load(yamlPath) == Some(Record(Missing, Missing, Missing, Missing, Missing, Missing, Missing, true))
    ensures VerdictOf(yamlPath, env) == Updated
    ensures InfoDict(env.load(yamlPath).value).Some?
    ensures InfoDict(env.load(yamlPath).value).value.Keys == {"/Keywords", "/CreationDate"}
  {
  }

  /** How many of `paths` get verdict `v`. */
  function CountVerdict(paths: seq<string>, verdictOf: string -> UpdateVerdict, v: UpdateVerdict): (n: nat)
    ensures n <= |paths|
  {
    CountWhere(paths, (p: string) => verdictOf(p) == v)
  }

  /** Every path gets exactly one of the three verdicts. */
  lemma {:induction false} VerdictsPartition(paths: seq<string>, verdictOf: string -> UpdateVerdict)
    ensures CountVerdict(paths, verdictOf, Updated) + CountVerdict(paths, verdictOf, UpdateFailed)
            + CountVerdict(paths, verdictOf, NoPdf) == |paths|
  {
    if |paths| > 0 {
      VerdictsPartition(paths[..|paths| - 1], verdictOf);
    }
  }

  /** The two counters of the loop. */
  datatype Tally = Tally(successful: nat, failed: nat)

  /** The loop of `process_directory` over the YAML files, in visiting order. */
  function TallyUpdates(paths: seq<string>, verdictOf: string -> UpdateVerdict): (t: Tally)
    ensures t.successful == CountVerdict(paths, verdictOf, Updated)
    ensures t.failed == CountVerdict(paths, verdictOf, UpdateFailed)
  {
    if |paths| == 0 then Tally(0, 0)
    else
      var n := |paths| - 1;
      var prev := TallyUpdates(paths[..n], verdictOf);
      match verdictOf(paths[n])
      case Updated => Tally(prev.successful + 1, prev.failed)
      case UpdateFailed => Tally(prev.successful, prev.failed + 1)
      case NoPdf => prev
  }

  /**
    `process_directory`: the two counters. A YAML file without its PDF is
    in neither, so together they never exceed the number of YAML files.
   */
  function ProcessDirectory(listing: seq<(string, string)>, env: Env): (r: (nat, nat))
    ensures var verdictOf := (p: string) => VerdictOf(p, env);
      && r.0 == CountVerdict(YamlFiles(listing), verdictOf, Updated)
      && r.1 == CountVerdict(YamlFiles(listing), verdictOf, UpdateFailed)
      && r.0 + r.1 + CountVerdict(YamlFiles(listing), verdictOf, NoPdf) == |YamlFiles(listing)|
    ensures r.0 + r.1 <= |YamlFiles(listing)|
  {
    var verdictOf := (p: string) => VerdictOf(p, env);
    var t := TallyUpdates(YamlFiles(listing), verdictOf);
    VerdictsPartition(YamlFiles(listing), verdictOf);
    (t.successful, t.failed)
  }

  /** Two walks that find the same YAML files in different orders give the same counters. */
  lemma WalkOrderIrrelevant(l1: seq<(string, string)>, l2: seq<(string, string)>, env: Env)
    requires multiset(YamlFiles(l1)) == multiset(YamlFiles(l2))
    ensures ProcessDirectory(l1, env) == ProcessDirectory(l2, env)
  {
    var verdictOf := (p: string) => VerdictOf(p, env);
    CountWherePermutation(YamlFiles(l1), YamlFiles(l2), (p: string) => verdictOf(p) == Updated);
    CountWherePermutation(YamlFiles(l1), YamlFiles(l2), (p: string) => verdictOf(p) == UpdateFailed);
  }
}
