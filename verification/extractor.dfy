/**
  The metadata extractor of the organizer (`EnhancedMetadataExtractor` in
  src/pdforg_base.py): whitespace normalisation of the sampled text, the
  ordered fallbacks that pick authors, title, year and DOI from the native
  property map, the text and the file name, the failure placeholder, and
  the slug cleaner the organizer uses to build destination names.

  The author, year and DOI regular expressions are not modelled as regular
  expressions: each is a `Matcher`, a function from the text to the first
  match's first group (or `None`). Only the fallback logic around them is
  modelled. The small regular expressions (`D:(\d{4})`, `\(\d{4}\)`,
  `^\d+[-_]`, `\s+` and the character classes of the slug cleaner) are
  modelled concretely over ASCII.
 */
module Extractor {
  import opened Base
  import opened Text
  import opened Paths
  import opened Publications

  /** The first group of the first match of one regular expression, if any. */
  type Matcher = string -> Option<string>

  predicate IsYear4(s: string) { |s| == 4 && IsDigits(s) }

  /** Every year pattern captures exactly `\d{4}`. */
  type Year4 = s: string | IsYear4(s) witness "0000"

  type YearMatcher = string -> Option<Year4>

  /** The three ordered pattern families, in the order they are tried. */
  datatype Patterns = Patterns(authors: seq<Matcher>, years: seq<YearMatcher>, dois: seq<Matcher>)

  const MaxNameLength: nat := 100
  const MinYear: nat := 1900
  const MaxYear: nat := 2024

  // ------------------------------------------------------- slug cleaning

  /** The class `[-\s]`. */
  predicate IsDashOrSpace(c: char) { c == '-' || IsSpace(c) }

  /** The class `[\w\s-]`: what survives the first substitution. */
  predicate IsNameChar(c: char) { IsWord(c) || IsSpace(c) || c == '-' }

  /** What a cleaned name is made of: lower-case ASCII word characters and `-`. */
  predicate IsSlugChar(c: char) { 'a' <= c <= 'z' || IsDigit(c) || c == '_' || c == '-' }

  predicate IsSlugOrSpace(c: char) { IsSlugChar(c) || IsSpace(c) }

  /**
    `_clean_filename`: lower-case and strip, drop every character outside
    `[\w\s-]`, turn each run of `[-\s]` into one `-`, keep the first 100
    characters.
   */
  function CleanFilename(text: string): (r: string)
    ensures |r| <= MaxNameLength
    ensures forall i :: 0 <= i < |r| ==> IsSlugChar(r[i])
    ensures forall i :: 0 <= i < |r| ==> !IsSpace(r[i]) && !IsUpper(r[i])
    ensures NoDoubled(r, '-')
  {
    var lowered := Strip(Lower(text));
    var kept := Filter(lowered, IsNameChar);
    LoweredNameChars(text, kept);
    var dashed := Collapse(kept, IsDashOrSpace, '-', false);
    CollapseKeeps(kept, IsDashOrSpace, '-', false, IsSlugOrSpace);
    var r := Take(dashed, MaxNameLength);
    CleanedPrefix(dashed, r);
    r
  }

  /** Name characters taken from lower-cased text are slug characters or spaces. */
  lemma LoweredNameChars(text: string, kept: string)
    requires forall c :: c in kept ==> c in Lower(text)
    requires forall i :: 0 <= i < |kept| ==> IsNameChar(kept[i])
    ensures forall i :: 0 <= i < |kept| ==> IsSlugOrSpace(kept[i])
  {
    forall i | 0 <= i < |kept| ensures IsSlugOrSpace(kept[i]) {
      var c := kept[i];
      assert c in Lower(text);
      var j :| 0 <= j < |text| && Lower(text)[j] == c;
      assert !IsUpper(c);
    }
  }

  /** A prefix of a dash-collapsed run of slug characters and spaces is a clean name. */
  lemma CleanedPrefix(dashed: string, r: string)
    requires |r| <= |dashed| && r == dashed[..|r|]
    requires forall i :: 0 <= i < |dashed| ==> IsSlugOrSpace(dashed[i])
    requires forall i :: 0 <= i < |dashed| ==> dashed[i] == '-' || !IsDashOrSpace(dashed[i])
    requires NoDoubled(dashed, '-')
    ensures forall i :: 0 <= i < |r| ==> IsSlugChar(r[i])
    ensures forall i :: 0 <= i < |r| ==> !IsSpace(r[i]) && !IsUpper(r[i])
    ensures NoDoubled(r, '-')
  {
    SliceKeepsRuns(dashed, r, 0, IsDashOrSpace, '-');
  }

  /**
    The names cleaning leaves alone are exactly the clean ones: at most 100
    slug characters with no two dashes in a row.
   */
  lemma CleanFixedPoint(s: string)
    requires |s| <= MaxNameLength
    requires forall i :: 0 <= i < |s| ==> IsSlugChar(s[i])
    requires NoDoubled(s, '-')
    ensures CleanFilename(s) == s
  {
    LowerFixed(s);
    assert IsStripped(s);
    assert Filter(s, IsNameChar) == s;
    CollapseFixed(s, IsDashOrSpace, '-', false);
  }

  /** Cleaning a cleaned name changes nothing. */
  lemma CleanFilenameIdempotent(text: string)
    ensures CleanFilename(CleanFilename(text)) == CleanFilename(text)
  {
    CleanFixedPoint(CleanFilename(text));
  }

  // ------------------------------------------------- text normalisation

  /** `re.sub(r'\s+', ' ', text).strip()`, applied to the extracted text. */
  function NormalizeText(raw: string): (r: string)
    ensures IsStripped(r)
    ensures forall i :: 0 <= i < |r| ==> r[i] == ' ' || !IsSpace(r[i])
    ensures NoDoubled(r, ' ')
  {
    var spaced := Collapse(raw, IsSpace, ' ', false);
    var r := Strip(spaced);
    StripSlice(spaced);
    SliceKeepsRuns(spaced, r, LeadingSpaces(spaced), IsSpace, ' ');
    r
  }

  /**
    The texts normalisation leaves alone are exactly the normal ones:
    stripped, with single spaces as their only whitespace.
   */
  lemma NormFixedPoint(s: string)
    requires IsStripped(s)
    requires forall i :: 0 <= i < |s| ==> s[i] == ' ' || !IsSpace(s[i])
    requires NoDoubled(s, ' ')
    ensures NormalizeText(s) == s
  {
    CollapseFixed(s, IsSpace, ' ', false);
  }

  /** Normalising normalised text changes nothing. */
  lemma NormalizeTextIdempotent(raw: string)
    ensures NormalizeText(NormalizeText(raw)) == NormalizeText(raw)
  {
    NormFixedPoint(NormalizeText(raw));
  }

  // ------------------------------------------------------------- authors

  /** `[a.strip() for a in s.split(';')]`. */
  function SplitAuthors(s: string): (r: seq<string>)
    ensures |r| >= 1
    ensures forall i :: 0 <= i < |r| ==> IsStripped(r[i]) && ';' !in r[i]
  {
    StripAll(Split(s, ';'))
  }

  /** A split whose first author is not empty is accepted. */
  predicate UsableAuthors(m: Option<string>) {
    m.Some? && SplitAuthors(m.value)[0] != ""
  }

  predicate NativeAuthorsUsable(meta: map<string, string>) {
    "/Author" in meta && SplitAuthors(meta["/Author"])[0] != ""
  }

  /**
    `_extract_authors`: the native Author split on `;` if its first part is
    non-empty, else the split of the first pattern match whose first part
    is non-empty, else `["unknown"]`.
   */
  function ExtractAuthors(text: string, meta: map<string, string>, patterns: seq<Matcher>): (r: seq<string>)
    ensures |r| >= 1 && r[0] != ""
    ensures forall i :: 0 <= i < |r| ==> IsStripped(r[i]) && ';' !in r[i]
    ensures NativeAuthorsUsable(meta) ==> r == SplitAuthors(meta["/Author"])
    ensures !NativeAuthorsUsable(meta) ==>
      forall i :: (0 <= i < |patterns| && UsableAuthors(patterns[i](text))
        && (forall j :: 0 <= j < i ==> !UsableAuthors(patterns[j](text))))
        ==> r == SplitAuthors(patterns[i](text).value)
    ensures !NativeAuthorsUsable(meta) && (forall i :: 0 <= i < |patterns| ==> !UsableAuthors(patterns[i](text)))
      ==> r == ["unknown"]
  {
    if NativeAuthorsUsable(meta) then SplitAuthors(meta["/Author"])
    else
      var found := ApplyAll(patterns, text);
      FirstWhereIsFirst(found, UsableAuthors);
      match FirstWhere(found, UsableAuthors)
      case Some(i) => SplitAuthors(found[i].value)
      case None => ["unknown"]
  }

  // --------------------------------------------------------------- title

  /** Four digits start at index `i`. */
  predicate FourDigitsAt(s: string, i: int) {
    0 <= i && i + 4 <= |s| && IsDigit(s[i]) && IsDigit(s[i + 1]) && IsDigit(s[i + 2]) && IsDigit(s[i + 3])
  }

  lemma FourDigitsYear(s: string, i: int)
    requires FourDigitsAt(s, i)
    ensures IsYear4(s[i..i + 4])
  {
  }

  /** A `(dddd)` group starts at index `i`. */
  predicate YearParenAt(s: string, i: int) {
    0 <= i && i + 6 <= |s| && s[i] == '(' && FourDigitsAt(s, i + 1) && s[i + 5] == ')'
  }

  /** `re.sub(r'\(\d{4}\)', '', s)`: one left-to-right pass removing every `(dddd)`. */
  function DropYearParens(s: string): (r: string)
    ensures |r| <= |s|
    ensures (|s| - |r|) % 6 == 0
    ensures (forall i :: !YearParenAt(s, i)) ==> r == s
    decreases |s|
  {
    if YearParenAt(s, 0) then DropYearParens(s[6..])
    else if |s| == 0 then ""
    else
      assert forall i :: YearParenAt(s[1..], i) ==> YearParenAt(s, i + 1) by {
        forall i | YearParenAt(s[1..], i)
          ensures YearParenAt(s, i + 1)
        {
        }
      }
      assert [s[0]] + s[1..] == s;
      [s[0]] + DropYearParens(s[1..])
  }

  /** Without a group at its front, the pass keeps the first character and goes on with the rest. */
  lemma DropKeepsFirst(s: string)
    requires |s| > 0 && !YearParenAt(s, 0)
    ensures DropYearParens(s) == [s[0]] + DropYearParens(s[1..])
  {
  }

  /** A group at the front of `a` is still at the front of `a + t`. */
  lemma GroupExtends(a: string, t: string)
    requires YearParenAt(a, 0)
    ensures YearParenAt(a + t, 0) && (a + t)[6..] == a[6..] + t
  {
  }

  /** No group can start in `a` and run into the `(` that opens `t`. */
  lemma NoGroupAcrossParen(a: string, t: string)
    requires |a| > 0 && !YearParenAt(a, 0)
    requires |t| == 0 || t[0] == '('
    ensures !YearParenAt(a + t, 0)
    ensures (a + t)[0] == a[0] && (a + t)[1..] == a[1..] + t
  {
    var s := a + t;
    if |a| >= 6 {
      assert s[..6] == a[..6];
    } else if |t| == 0 {
      assert s == a;
    } else {
      assert s[|a|] == '(';
    }
  }

  /** A group at the front of `s` is dropped and the pass goes on after it. */
  lemma DropSkipsGroup(s: string)
    requires YearParenAt(s, 0)
    ensures DropYearParens(s) == DropYearParens(s[6..])
  {
  }

  /** One step of the append proof, for `a` that opens with a group. */
  lemma GroupStep(a: string, t: string)
    requires YearParenAt(a, 0)
    requires DropYearParens(a[6..] + t) == DropYearParens(a[6..]) + DropYearParens(t)
    ensures DropYearParens(a + t) == DropYearParens(a) + DropYearParens(t)
  {
    GroupExtends(a, t);
    DropSkipsGroup(a);
    DropSkipsGroup(a + t);
  }

  /** The pass over `a + t` keeps the first character of `a` when no group can open there. */
  lemma PlainUnfold(a: string, t: string)
    requires |a| > 0 && !YearParenAt(a, 0)
    requires |t| == 0 || t[0] == '('
    ensures DropYearParens(a + t) == [a[0]] + DropYearParens(a[1..] + t)
  {
    NoGroupAcrossParen(a, t);
    DropKeepsFirst(a + t);
  }

  /** One step of the append proof, for `a` that does not open with a group. */
  lemma PlainStep(a: string, t: string)
    requires |a| > 0 && !YearParenAt(a, 0)
    requires |t| == 0 || t[0] == '('
    requires DropYearParens(a[1..] + t) == DropYearParens(a[1..]) + DropYearParens(t)
    ensures DropYearParens(a + t) == DropYearParens(a) + DropYearParens(t)
  {
    PlainUnfold(a, t);
    DropKeepsFirst(a);
    ConsAppend(a[0], DropYearParens(a[1..]), DropYearParens(t));
  }

  /** Putting `c` in front of `x + y` is putting it in front of `x`, then appending `y`. */
  lemma ConsAppend(c: char, x: string, y: string)
    ensures [c] + (x + y) == ([c] + x) + y
  {
  }

  /** The pass over `a + t` is the pass over `a`, then over `t`, when `t` starts with `(`. */
  lemma {:induction false} DropYearParensAppend(a: string, t: string)
    requires |t| == 0 || t[0] == '('
    ensures DropYearParens(a + t) == DropYearParens(a) + DropYearParens(t)
    decreases |a|
  {
    if |a| == 0 {
      assert a + t == t;
    } else if YearParenAt(a, 0) {
      DropYearParensAppend(a[6..], t);
      GroupStep(a, t);
    } else {
      DropYearParensAppend(a[1..], t);
      PlainStep(a, t);
    }
  }

  /** Every `(dddd)` group is removed, wherever it stands, and the text around it is treated on its own. */
  lemma DropYearParensGroup(a: string, y: string, b: string)
    requires |y| == 4 && IsDigits(y)
    ensures DropYearParens(a + "(" + y + ")" + b) == DropYearParens(a) + DropYearParens(b)
  {
    var t := "(" + y + ")" + b;
    assert a + "(" + y + ")" + b == a + t;
    assert YearParenAt(t, 0) && t[6..] == b;
    DropYearParensAppend(a, t);
  }

  function LeadingDigits(s: string): (n: nat)
    ensures n <= |s| && IsDigits(s[..n])
    ensures n < |s| ==> !IsDigit(s[n])
  {
    if |s| > 0 && IsDigit(s[0]) then
      var n := 1 + LeadingDigits(s[1..]);
      assert s[..n] == [s[0]] + s[1..][..n - 1];
      n
    else 0
  }

  /** `s` starts with `k` digits followed by `-` or `_`. */
  predicate NumberPrefixAt(s: string, k: int) {
    1 <= k < |s| && IsDigits(s[..k]) && (s[k] == '-' || s[k] == '_')
  }

  /** `re.sub(r'^\d+[-_]', '', s)`: removes one leading `digits[-_]`, if there is one. */
  function DropNumberPrefix(s: string): (r: string)
    ensures forall k :: NumberPrefixAt(s, k) ==> r == s[k + 1..]
    ensures (forall k :: !NumberPrefixAt(s, k)) ==> r == s
  {
    var n := LeadingDigits(s);
    assert forall k :: NumberPrefixAt(s, k) ==> k == n;
    assert 1 <= n < |s| && (s[n] == '-' || s[n] == '_') ==> NumberPrefixAt(s, n);
    if 1 <= n < |s| && (s[n] == '-' || s[n] == '_') then s[n + 1..] else s
  }

  /** `pdf_metadata.get('/Title', '').strip()`. */
  function NativeTitle(meta: map<string, string>): string {
    Strip(if "/Title" in meta then meta["/Title"] else "")
  }

  /** The file-name title: stem, `(dddd)` groups removed, one `digits[-_]` prefix removed, stripped. */
  function FallbackTitle(path: string): (r: string)
    ensures IsStripped(r)
  {
    Strip(DropNumberPrefix(DropYearParens(Stem(Basename(path)))))
  }

  /**
    `_extract_title`: the stripped native Title if it is longer than three
    characters, otherwise the title derived from the file name. The text
    sample is not consulted.
   */
  function ExtractTitle(text: string, meta: map<string, string>, path: string): (r: string)
    ensures IsStripped(r)
    ensures |NativeTitle(meta)| > 3 ==> r == NativeTitle(meta)
    ensures |NativeTitle(meta)| <= 3 ==> r == FallbackTitle(path)
  {
    var title := NativeTitle(meta);
    if title != "" && |title| > 3 then title else FallbackTitle(path)
  }

  // ---------------------------------------------------------------- year

  /** `D:dddd` starts at index `i`. */
  predicate DateYearAt(s: string, i: int) {
    0 <= i && i + 6 <= |s| && s[i] == 'D' && s[i + 1] == ':' && FourDigitsAt(s, i + 2)
  }

  /** `re.search(r'D:(\d{4})', s[i:])`, group 1. */
  function CreationYearFrom(s: string, i: nat): (r: Option<string>)
    requires i <= |s|
    ensures r.Some? ==> IsYear4(r.value)
    ensures r.None? <==> forall k :: i <= k ==> !DateYearAt(s, k)
    ensures forall k ::
              (i <= k && DateYearAt(s, k) && (forall j :: i <= j < k ==> !DateYearAt(s, j)))
              ==> r == Some(s[k + 2..k + 6])
    decreases |s| - i
  {
    if DateYearAt(s, i) then
      FourDigitsYear(s, i + 2);
      Some(s[i + 2..i + 6])
    else if i + 6 > |s| then None
    else CreationYearFrom(s, i + 1)
  }

  /** The year a PDF `CreationDate` such as `D:20200101000000` carries, without a range check. */
  function CreationYear(date: string): (r: Option<string>)
    ensures r.Some? ==> IsYear4(r.value)
  {
    CreationYearFrom(date, 0)
  }

  /** The year taken from the native CreationDate, if it is non-empty and matches. */
  function NativeYear(meta: map<string, string>): Option<string> {
    if "/CreationDate" in meta && meta["/CreationDate"] != "" then CreationYear(meta["/CreationDate"]) else None
  }

  predicate InYearRange(y: Year4) {
    MinYear <= NatValue(y) <= MaxYear
  }

  predicate AcceptedYear(m: Option<Year4>) {
    m.Some? && InYearRange(m.value)
  }

  /**
    `_extract_year`: the native CreationDate year if there is one; else,
    for each year pattern in order, its first match if that lies in
    [1900, 2024] (an out-of-range first match moves on to the next
    pattern, not the next match); else "Unknown".
   */
  function ExtractYear(text: string, meta: map<string, string>, patterns: seq<YearMatcher>): (r: string)
    ensures r == Unknown || IsYear4(r)
    ensures NativeYear(meta).Some? ==> r == NativeYear(meta).value
    ensures NativeYear(meta).None? ==>
      (r == Unknown <==> forall i :: 0 <= i < |patterns| ==> !AcceptedYear(patterns[i](text)))
    ensures NativeYear(meta).None? ==>
      forall i :: (0 <= i < |patterns| && AcceptedYear(patterns[i](text))
        && (forall j :: 0 <= j < i ==> !AcceptedYear(patterns[j](text))))
        ==> r == patterns[i](text).value
    ensures NativeYear(meta).None? && r != Unknown ==> MinYear <= NatValue(r) <= MaxYear
  {
    match NativeYear(meta)
    case Some(y) => y
    case None =>
      var found := ApplyAll(patterns, text);
      FirstWhereIsFirst(found, AcceptedYear);
      match FirstWhere(found, AcceptedYear)
      case Some(i) => found[i].value
      case None => Unknown
  }

  // ----------------------------------------------------------------- DOI

  predicate IsMatch(m: Option<string>) { m.Some? }

  /** `_extract_doi`: the first pattern that matches anywhere in the text wins. */
  function ExtractDoi(text: string, patterns: seq<Matcher>): (r: Option<string>)
    ensures r.None? <==> forall i :: 0 <= i < |patterns| ==> patterns[i](text).None?
    ensures forall i ::
              (0 <= i < |patterns| && patterns[i](text).Some?
               && (forall j :: 0 <= j < i ==> patterns[j](text).None?))
              ==> r == patterns[i](text)
  {
    var found := ApplyAll(patterns, text);
    FirstWhereIsFirst(found, IsMatch);
    match FirstWhere(found, IsMatch)
    case Some(i) => found[i]
    case None => None
  }

  // ------------------------------------------------------------ assembly

  /**
    What the extractor can see of one document: the raw text of its first
    pages (`None` when text extraction raised, which the extractor turns
    into ""), its native property map (empty when it could not be read) and
    the content hash (computed outside the model; "" when unreadable).
    `Raising` stands for an exception escaping the extraction as a whole.
   */
  datatype DocSource =
    | Readable(rawText: Option<string>, info: map<string, string>, hash: string)
    | Raising

  /** A PDF name as written in the document, `/` included. */
  predicate IsSlashName(k: string) {
    |k| > 0 && k[0] == '/'
  }

  /**
    The info dictionary as pdfminer's `doc.info[0]` spells it: every PDF
    name without its leading `/`. The native lookups of this module use the
    `/`-prefixed spelling, so they never find these keys.
   */
  function PdfminerInfo(m: map<string, string>): (r: map<string, string>)
    ensures forall k :: k in m && IsSlashName(k) ==> k[1..] in r && r[k[1..]] == m[k]
    ensures forall k :: k in r ==> "/" + k in m && m["/" + k] == r[k]
  {
    assert forall k :: IsSlashName(k) ==> "/" + k[1..] == k;
    var r := map k | k in m && IsSlashName(k) :: k[1..] := m[k];
    forall j | j in r ensures "/" + j in m && m["/" + j] == r[j] {
      var k :| k in m && IsSlashName(k) && k[1..] == j;
      assert "/" + j == k;
    }
    r
  }

  /**
    The corrected reader: pdfminer's keys with their `/` put back, which is
    the spelling the native lookups expect.
   */
  function SlashKeyed(m: map<string, string>): (r: map<string, string>)
    ensures forall k :: k in m ==> "/" + k in r && r["/" + k] == m[k]
    ensures forall k :: k in r ==> IsSlashName(k) && k[1..] in m && m[k[1..]] == r[k]
  {
    assert forall k: string :: ("/" + k)[1..] == k;
    var r := map k | k in m :: "/" + k := m[k];
    r
  }

  /** Putting the `/` back recovers every `/`-named info dictionary from pdfminer's spelling. */
  lemma SlashKeyedRestores(m: map<string, string>)
    requires forall k :: k in m ==> IsSlashName(k)
    ensures SlashKeyed(PdfminerInfo(m)) == m
  {
    var r := SlashKeyed(PdfminerInfo(m));
    forall k | k in m ensures k in r && r[k] == m[k] {
      assert "/" + k[1..] == k;
    }
    assert r.Keys == m.Keys;
  }

  /** Dropping the one leading `/` of names that have only one leaves no `/`-prefixed key. */
  lemma PdfminerKeysUnslashed(m: map<string, string>)
    requires forall k :: k in m ==> |k| > 1 && k[1] != '/'
    ensures forall k :: k in PdfminerInfo(m) ==> !IsSlashName(k)
  {
    forall k | k in PdfminerInfo(m) ensures !IsSlashName(k) {
      assert ("/" + k)[1..] == k;
    }
  }

  /** A map with no `/`-prefixed key extracts exactly as an empty one does. */
  lemma NoNativeFields(m: map<string, string>, text: string, authorPatterns: seq<Matcher>, yearPatterns: seq<YearMatcher>)
    requires forall k :: k in m ==> !IsSlashName(k)
    ensures ExtractAuthors(text, m, authorPatterns) == ExtractAuthors(text, map[], authorPatterns)
    ensures ExtractYear(text, m, yearPatterns) == ExtractYear(text, map[], yearPatterns)
    ensures NativeTitle(m) == ""
    ensures ExtractAuthors(text, m, []) == ["unknown"]
  {
    assert IsSlashName("/Author") && IsSlashName("/Title") && IsSlashName("/CreationDate");
    assert Strip("") == "";
  }

  /** The publication `extract_metadata` returns when extraction raised. */
  function FailedExtraction(): (p: Publication)
    ensures p.title == Unknown && p.authors == [] && p.year == Unknown
  {
    Basic(Unknown, [], Unknown)
  }

  /** `extract_metadata`: every field from its own fallback chain; any failure gives the placeholder. */
  function ExtractMetadata(src: DocSource, path: string, patterns: Patterns): (p: Publication)
    ensures src.Raising? ==> p == FailedExtraction()
    ensures src.Readable? ==>
      && |p.authors| >= 1 && p.authors[0] != ""
      && IsStripped(p.title)
      && (p.year == Unknown || IsYear4(p.year))
      && p.contentHash == Some(src.hash)
      && p.isbn.None? && p.abstractText.None?
      && (p.publisher.Some? <==> "/Publisher" in src.info)
  {
    match src
    case Raising => FailedExtraction()
    case Readable(raw, info, hash) =>
      var text := NormalizeText(raw.GetOr(""));
      Publication(
        ExtractTitle(text, info, path),
        ExtractAuthors(text, info, patterns.authors),
        ExtractYear(text, info, patterns.years),
        ExtractDoi(text, patterns.dois),
        None,
        if "/Publisher" in info then Some(info["/Publisher"]) else None,
        None,
        Some(hash))
  }
}
