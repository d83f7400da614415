/**
  The filing side of the organizer (`BasePdfOrganizer` in
  src/pdforg_base.py): the destination path of one document, the choice of
  candidate files, the duplicate-variant suppression key, and the batch
  fold that files the candidates in sorted order, skipping a file whose key
  was already filed successfully.

  Directory walking, directory creation and copying are outside the model:
  the walk is a listing of (directory, file name) pairs in whatever order
  the walk produced them, and whether creating the year directory and
  copying succeeded is an input per path.
 */
module Organizer {
  import opened Base
  import opened Text
  import opened Paths
  import opened Ordering
  import opened Publications
  import opened Extractor

  // ------------------------------------------------------ destination

  /** `metadata.authors[0] if metadata.authors else "unknown"`, cleaned. */
  function AuthorPart(p: Publication): string {
    CleanFilename(if |p.authors| > 0 then p.authors[0] else "unknown")
  }

  /** A cleaned name never contains a slash. */
  lemma CleanedHasNoSlash(text: string)
    ensures '/' !in CleanFilename(text)
  {
    var r := CleanFilename(text);
    forall i | 0 <= i < |r| ensures r[i] != '/' {
      assert IsSlugChar(r[i]);
    }
  }

  /** `year_author_title.pdf` from its three parts. */
  function FileName(year: string, author: string, title: string): (r: string)
    ensures EndsWith(r, ".pdf")
    ensures |r| > |year| && r[..|year|] == year && r[|year|] == '_'
    ensures |year| + 1 <= |r| - 4 && r[|year| + 1..|r| - 4] == author + "_" + title
    ensures '/' !in year && '/' !in author && '/' !in title ==> '/' !in r
  {
    var r := year + "_" + author + "_" + title + ".pdf";
    assert r[..|year|] == year;
    assert r[|year| + 1..|r| - 4] == author + "_" + title;
    assert r[|r| - 4..] == ".pdf";
    r
  }

  /** `f"{year}_{author_part}_{clean_title}.pdf"`. */
  function DestinationName(p: Publication): (r: string)
    ensures EndsWith(r, ".pdf")
    ensures |r| > |p.year| && r[..|p.year|] == p.year && r[|p.year|] == '_'
    ensures |p.year| + 1 <= |r| - 4 && r[|p.year| + 1..|r| - 4] == AuthorPart(p) + "_" + CleanFilename(p.title)
    ensures '/' !in p.year ==> '/' !in r
  {
    CleanedHasNoSlash(if |p.authors| > 0 then p.authors[0] else "unknown");
    CleanedHasNoSlash(p.title);
    FileName(p.year, AuthorPart(p), CleanFilename(p.title))
  }

  /** A year usable as one directory level: non-empty and without a slash. */
  predicate IsYearDirectory(y: string) {
    y != "" && '/' !in y
  }

  /**
    `os.path.join(os.path.join(output_dir, year), new_filename)`: the file
    is named by `DestinationName` and sits in a directory named after the
    year, whatever the output directory looks like; that directory sits
    directly in the output directory when it is written without a
    trailing slash.
   */
  function Destination(outputDir: string, p: Publication): (r: string)
    ensures IsYearDirectory(p.year) ==> Basename(r) == DestinationName(p)
    ensures IsYearDirectory(p.year) ==> Basename(Dirname(r)) == p.year
    ensures IsYearDirectory(p.year) && outputDir != "" && outputDir[|outputDir| - 1] != '/' ==> Dirname(Dirname(r)) == outputDir
  {
    var name := DestinationName(p);
    if IsYearDirectory(p.year) then
      NestedJoin(outputDir, p.year, name);
      PathJoin(PathJoin(outputDir, p.year), name)
    else
      PathJoin(PathJoin(outputDir, p.year), name)
  }

  /** Every year the extractor produces, the placeholder included, is one directory level. */
  lemma ExtractedYearIsDirectory(src: DocSource, path: string, patterns: Patterns)
    ensures IsYearDirectory(ExtractMetadata(src, path, patterns).year)
  {
    YearIsDirectory(ExtractMetadata(src, path, patterns).year);
  }

  lemma YearIsDirectory(y: string)
    requires y == Unknown || IsYear4(y)
    ensures IsYearDirectory(y)
  {
    if y != Unknown {
      assert forall i :: 0 <= i < |y| ==> y[i] != '/' by {
        forall i | 0 <= i < |y| ensures y[i] != '/' {
          assert IsDigit(y[i]);
        }
      }
    }
  }

  /** A filed copy sits in a directory named after its record's year. */
  predicate InYearDirectory(outcome: (Publication, string)) {
    Basename(Dirname(outcome.1)) == outcome.0.year
  }

  /**
    `organize_pdf`: the extraction never fails (it degrades to a
    placeholder), so the outcome is a success exactly when the year
    directory and the copy could be made; the copy lands in the year
    directory under the cleaned name.
   */
  function OrganizePdf(outputDir: string, path: string, src: DocSource, copied: bool, patterns: Patterns)
    : (r: Option<(Publication, string)>)
    ensures r.Some? <==> copied
    ensures r.Some? ==> r.value.0 == ExtractMetadata(src, path, patterns)
    ensures r.Some? ==> Basename(r.value.1) == DestinationName(r.value.0)
    ensures r.Some? ==> InYearDirectory(r.value)
    ensures r.Some? ==> r.value.0.year == Unknown || IsYear4(r.value.0.year)
  {
    var p := ExtractMetadata(src, path, patterns);
    ExtractedYearIsDirectory(src, path, patterns);
    if copied then Some((p, Destination(outputDir, p))) else None
  }

  // ------------------------------------------------------ candidates

  /** `name.lower().endswith('.pdf')`. */
  predicate IsPdfName(name: string) {
    |name| >= 4 && Lower(name[|name| - 4..]) == ".pdf"
  }

  /** A PDF name that is not hidden (`.` or `._` prefix). */
  predicate IsCandidateName(name: string) {
    IsPdfName(name) && !(|name| > 0 && name[0] == '.')
  }

  /** The joined paths of the candidate files of a walk listing, in listing order. */
  function Candidates(listing: seq<(string, string)>): (r: seq<string>)
    ensures |r| <= |listing|
  {
    if |listing| == 0 then []
    else
      var (root, name) := listing[0];
      var rest := Candidates(listing[1..]);
      if IsCandidateName(name) then [PathJoin(root, name)] + rest else rest
  }

  /** A path is a candidate exactly when it joins a listed entry whose name qualifies. */
  predicate ListedCandidate(listing: seq<(string, string)>, q: string) {
    exists i :: 0 <= i < |listing| && IsCandidateName(listing[i].1) && q == PathJoin(listing[i].0, listing[i].1)
  }

  lemma {:induction false} CandidatesExactly(listing: seq<(string, string)>, q: string)
    ensures q in Candidates(listing) <==> ListedCandidate(listing, q)
    decreases |listing|
  {
    if |listing| > 0 {
      var tail := listing[1..];
      CandidatesExactly(tail, q);
      var (root, name) := listing[0];
      if q in Candidates(tail) {
        var i :| 0 <= i < |tail| && IsCandidateName(tail[i].1) && q == PathJoin(tail[i].0, tail[i].1);
        assert tail[i] == listing[i + 1];
      }
      if ListedCandidate(listing, q) {
        var i :| 0 <= i < |listing| && IsCandidateName(listing[i].1) && q == PathJoin(listing[i].0, listing[i].1);
        if i > 0 {
          assert tail[i - 1] == listing[i];
          assert ListedCandidate(tail, q);
        }
      }
      if IsCandidateName(name) && q == PathJoin(root, name) {
        assert listing[0].1 == name && listing[0].0 == root;
      }
    }
  }

  // ------------------------------------------------- suppression key

  function TrailingDigits(t: string): (n: nat)
    ensures n <= |t| && IsDigits(t[|t| - n..])
    ensures n < |t| ==> !IsDigit(t[|t| - n - 1])
  {
    if |t| > 0 && IsDigit(t[|t| - 1]) then
      var n := 1 + TrailingDigits(t[..|t| - 1]);
      assert t[|t| - n..] == t[..|t| - 1][|t| - n..] + [t[|t| - 1]];
      n
    else 0
  }

  /** `t` ends with `-` at index `k` followed by one or more digits. */
  predicate DashDigitsAt(t: string, k: int) {
    0 <= k && k + 1 < |t| && t[k] == '-' && IsDigits(t[k + 1..])
  }

  /** A digit run ending the string is no longer than the maximal one. */
  lemma {:induction false} TrailingDigitsAtLeast(t: string, m: nat)
    requires m <= |t| && IsDigits(t[m..])
    ensures TrailingDigits(t) >= |t| - m
    decreases |t|
  {
    if m < |t| {
      var front := t[..|t| - 1];
      assert t[|t| - 1] == t[m..][|t| - 1 - m];
      assert front[m..] == t[m..|t| - 1];
      TrailingDigitsAtLeast(front, m);
    }
  }

  /** The maximal digit run ending the string stops after any non-digit. */
  lemma {:induction false} TrailingDigitsAtMost(t: string, j: nat)
    requires j < |t| && !IsDigit(t[j])
    ensures TrailingDigits(t) <= |t| - j - 1
    decreases |t|
  {
    if j < |t| - 1 && IsDigit(t[|t| - 1]) {
      TrailingDigitsAtMost(t[..|t| - 1], j);
    }
  }

  /** The dash of a trailing `-digits` group sits just before the maximal run of trailing digits. */
  lemma DashBeforeTrailingDigits(t: string, j: int)
    requires DashDigitsAt(t, j)
    ensures j == |t| - TrailingDigits(t) - 1
  {
    TrailingDigitsAtLeast(t, j + 1);
    TrailingDigitsAtMost(t, j);
  }

  /** Removes the trailing `-digits` group of `t`, if it has one. */
  function DropDashDigits(t: string): (r: string)
    ensures forall k :: DashDigitsAt(t, k) ==> r == t[..k]
    ensures (forall k :: !DashDigitsAt(t, k)) ==> r == t
  {
    var n := TrailingDigits(t);
    var k := |t| - n - 1;
    forall j | DashDigitsAt(t, j) ensures j == k {
      DashBeforeTrailingDigits(t, j);
    }
    if n >= 1 && n < |t| && t[k] == '-' then
      assert DashDigitsAt(t, k);
      t[..k]
    else t
  }

  /**
    `re.sub(r'-\d+$', '', stem)`. Python's `$` also matches just before a
    final newline, so a stem ending in "\n" loses the group before it.
   */
  function DropVariantSuffix(stem: string): string {
    if |stem| > 0 && stem[|stem| - 1] == '\n' then DropDashDigits(stem[..|stem| - 1]) + "\n"
    else DropDashDigits(stem)
  }

  /** The duplicate-suppression key: the file stem without its trailing `-digits`. */
  function SuppressionKey(path: string): string {
    DropVariantSuffix(Stem(Basename(path)))
  }

  /**
    Exactly one trailing group is removed, whatever precedes it (`paper-2-3`
    becomes `paper-2`), and a final newline survives the removal.
   */
  lemma DropsOneGroup(t: string, d: string)
    requires |d| >= 1 && IsDigits(d)
    ensures DropVariantSuffix(t + "-" + d) == t
    ensures DropVariantSuffix(t + "-" + d + "\n") == t + "\n"
  {
    var s := t + "-" + d;
    assert s[|t| + 1..] == d && s[..|t|] == t;
    assert DashDigitsAt(s, |t|);
    assert s[|s| - 1] == d[|d| - 1];
    assert (s + "\n")[..|s|] == s;
  }

  /** A stem with no trailing group is its own key, so `paper` and `paper-2` collide. */
  lemma VariantKeys(t: string, d: string)
    requires |d| >= 1 && IsDigits(d)
    requires |t| == 0 || t[|t| - 1] != '\n'
    requires forall k :: !DashDigitsAt(t, k)
    ensures DropVariantSuffix(t) == t
    ensures DropVariantSuffix(t + "-" + d) == DropVariantSuffix(t)
  {
    DropsOneGroup(t, d);
  }

  // ------------------------------------------------------ batch fold

  /** What happened to one candidate (the source logs it; the model records it). */
  datatype Verdict = Organized | Failed | Skipped

  predicate IsOrganized(v: Verdict) { v == Organized }
  predicate IsFailed(v: Verdict) { v == Failed }
  predicate IsSkipped(v: Verdict) { v == Skipped }

  datatype Filed = Filed(source: string, pub: Publication, dest: string)

  /** The outcome of organizing one file: the record and the destination, or a failure. */
  type Outcome = Option<(Publication, string)>

  /**
    The fold state: the two counters the source returns, the filed triples,
    the set of keys filed so far, and (model only) the skip count and the
    verdict of every candidate seen.
   */
  datatype Batch = Batch(
    successful: nat,
    failed: nat,
    skipped: nat,
    filed: seq<Filed>,
    seen: set<string>,
    verdicts: seq<Verdict>)

  const EmptyBatch := Batch(0, 0, 0, [], {}, [])

  /** The verdict for a file with key `key` given the keys filed so far. */
  function VerdictFor(seen: set<string>, key: string, outcome: Outcome): Verdict {
    if key in seen then Skipped else if outcome.Some? then Organized else Failed
  }

  /** One iteration of the `process_directory` loop; `key` is the file's suppression key. */
  function Step(b: Batch, path: string, key: string, outcome: Outcome): (r: Batch)
    ensures r.verdicts == b.verdicts + [VerdictFor(b.seen, key, outcome)]
    ensures r.seen == if key in b.seen || outcome.None? then b.seen else b.seen + {key}
    ensures r.filed == if key in b.seen || outcome.None? then b.filed
                       else b.filed + [Filed(path, outcome.value.0, outcome.value.1)]
    ensures r.successful == b.successful + (if VerdictFor(b.seen, key, outcome) == Organized then 1 else 0)
    ensures r.failed == b.failed + (if VerdictFor(b.seen, key, outcome) == Failed then 1 else 0)
    ensures r.skipped == b.skipped + (if VerdictFor(b.seen, key, outcome) == Skipped then 1 else 0)
    ensures r.successful - |r.filed| == b.successful - |b.filed|
  {
    if key in b.seen then
      b.(skipped := b.skipped + 1, verdicts := b.verdicts + [Skipped])
    else
      match outcome
      case Some((pub, dest)) =>
        b.(successful := b.successful + 1,
           filed := b.filed + [Filed(path, pub, dest)],
           seen := b.seen + {key},
           verdicts := b.verdicts + [Organized])
      case None =>
        b.(failed := b.failed + 1, verdicts := b.verdicts + [Failed])
  }

  /** The loop over `paths`, in the given order, from an empty state. */
  function Process(paths: seq<string>, keyOf: string -> string, organize: string -> Outcome): (b: Batch)
    ensures |b.verdicts| == |paths|
    ensures b.successful == |b.filed|
    ensures b.successful + b.failed + b.skipped == |paths|
    ensures b.successful == CountWhere(b.verdicts, IsOrganized)
    ensures b.failed == CountWhere(b.verdicts, IsFailed)
    ensures b.skipped == CountWhere(b.verdicts, IsSkipped)
  {
    if |paths| == 0 then EmptyBatch
    else
      var n := |paths| - 1;
      var prev := Process(paths[..n], keyOf, organize);
      var r := Step(prev, paths[n], keyOf(paths[n]), organize(paths[n]));
      assert r.verdicts[..n] == prev.verdicts;
      r
  }

  /** Some file before position `i` with the same key as `paths[i]` was filed. */
  ghost predicate FiledBefore(paths: seq<string>, keyOf: string -> string, verdicts: seq<Verdict>, i: int)
    requires 0 <= i < |paths| && |verdicts| >= i
  {
    exists j :: 0 <= j < i && verdicts[j] == Organized && keyOf(paths[j]) == keyOf(paths[i])
  }

  /** The key set holds exactly the keys of the files judged `Organized`. */
  ghost predicate SeenIsOrganizedKeys(paths: seq<string>, keyOf: string -> string, b: Batch)
    requires |b.verdicts| == |paths|
  {
    forall k :: k in b.seen <==>
      exists j :: 0 <= j < |paths| && b.verdicts[j] == Organized && keyOf(paths[j]) == k
  }

  /**
    A candidate is skipped exactly when an earlier candidate with the same
    key was filed; otherwise it is filed exactly when organizing it succeeds.
   */
  ghost predicate FollowsSkipRule(paths: seq<string>, keyOf: string -> string, organize: string -> Outcome, b: Batch)
    requires |b.verdicts| == |paths|
  {
    forall i :: 0 <= i < |paths| ==>
      && (b.verdicts[i] == Skipped <==> FiledBefore(paths, keyOf, b.verdicts, i))
      && (b.verdicts[i] == Organized <==> !FiledBefore(paths, keyOf, b.verdicts, i) && organize(paths[i]).Some?)
  }

  /** The filed keys are pairwise distinct and are exactly the key set. */
  ghost predicate FiledKeysUnique(keyOf: string -> string, b: Batch) {
    && (forall k :: k in b.seen <==> exists a :: 0 <= a < |b.filed| && keyOf(b.filed[a].source) == k)
    && (forall a, c :: 0 <= a < c < |b.filed| ==> keyOf(b.filed[a].source) != keyOf(b.filed[c].source))
  }

  /** Every filed triple is an input path together with its organize outcome. */
  ghost predicate FiledFromInput(paths: seq<string>, organize: string -> Outcome, b: Batch) {
    forall a :: 0 <= a < |b.filed| ==>
      b.filed[a].source in paths && organize(b.filed[a].source) == Some((b.filed[a].pub, b.filed[a].dest))
  }

  /** The key set of a fold gains the last file's key exactly when that file is judged `Organized`. */
  lemma ProcessSeen(paths: seq<string>, keyOf: string -> string, organize: string -> Outcome)
    requires |paths| > 0
    ensures Process(paths, keyOf, organize).seen
            == if Process(paths, keyOf, organize).verdicts[|paths| - 1] == Organized
               then Process(paths[..|paths| - 1], keyOf, organize).seen + {keyOf(paths[|paths| - 1])}
               else Process(paths[..|paths| - 1], keyOf, organize).seen
  {
  }

  /** One more verdict keeps the key set equal to the keys of the `Organized` files. */
  lemma SeenExtend(paths: seq<string>, keyOf: string -> string, prev: Batch, b: Batch)
    requires |paths| > 0 && |prev.verdicts| == |paths| - 1 && |b.verdicts| == |paths|
    requires b.verdicts[..|paths| - 1] == prev.verdicts
    requires SeenIsOrganizedKeys(paths[..|paths| - 1], keyOf, prev)
    requires b.seen == if b.verdicts[|paths| - 1] == Organized then prev.seen + {keyOf(paths[|paths| - 1])} else prev.seen
    ensures SeenIsOrganizedKeys(paths, keyOf, b)
  {
    var n := |paths| - 1;
    var prefix := paths[..n];
    forall k
      ensures k in b.seen <==> exists j :: 0 <= j < |paths| && b.verdicts[j] == Organized && keyOf(paths[j]) == k
    {
      if k in prev.seen {
        var j :| 0 <= j < n && prev.verdicts[j] == Organized && keyOf(prefix[j]) == k;
        assert b.verdicts[j] == prev.verdicts[j] && paths[j] == prefix[j];
      }
      if exists j :: 0 <= j < |paths| && b.verdicts[j] == Organized && keyOf(paths[j]) == k {
        var j :| 0 <= j < |paths| && b.verdicts[j] == Organized && keyOf(paths[j]) == k;
        if j < n {
          assert b.verdicts[j] == prev.verdicts[j] && paths[j] == prefix[j];
        }
      }
    }
  }

  lemma {:induction false} SeenKeys(paths: seq<string>, keyOf: string -> string, organize: string -> Outcome)
    ensures SeenIsOrganizedKeys(paths, keyOf, Process(paths, keyOf, organize))
    decreases |paths|
  {
    if |paths| > 0 {
      var n := |paths| - 1;
      SeenKeys(paths[..n], keyOf, organize);
      var b := Process(paths, keyOf, organize);
      ProcessVerdicts(paths, keyOf, organize);
      ProcessSeen(paths, keyOf, organize);
      assert b.verdicts[..n] == Process(paths[..n], keyOf, organize).verdicts;
      SeenExtend(paths, keyOf, Process(paths[..n], keyOf, organize), b);
    }
  }

  /** Appending a verdict does not change whether an earlier position was preceded by a filing. */
  lemma FiledBeforeExtend(paths: seq<string>, keyOf: string -> string, v: seq<Verdict>, w: seq<Verdict>, i: nat)
    requires |paths| > 0 && |v| == |paths| - 1 && |w| == |paths| && w[..|v|] == v && i < |v|
    ensures FiledBefore(paths, keyOf, w, i) <==> FiledBefore(paths[..|v|], keyOf, v, i)
  {
    var prefix := paths[..|v|];
    if FiledBefore(paths, keyOf, w, i) {
      var j :| 0 <= j < i && w[j] == Organized && keyOf(paths[j]) == keyOf(paths[i]);
      assert v[j] == w[j] && prefix[j] == paths[j] && prefix[i] == paths[i];
    }
    if FiledBefore(prefix, keyOf, v, i) {
      var j :| 0 <= j < i && v[j] == Organized && keyOf(prefix[j]) == keyOf(prefix[i]);
      assert v[j] == w[j] && prefix[j] == paths[j] && prefix[i] == paths[i];
    }
  }

  /** The last file was preceded by a filing of its key exactly when the key set holds it. */
  lemma FiledBeforeLast(paths: seq<string>, keyOf: string -> string, prev: Batch, w: seq<Verdict>)
    requires |paths| > 0 && |prev.verdicts| == |paths| - 1 && |w| == |paths| && w[..|prev.verdicts|] == prev.verdicts
    requires SeenIsOrganizedKeys(paths[..|paths| - 1], keyOf, prev)
    ensures keyOf(paths[|paths| - 1]) in prev.seen <==> FiledBefore(paths, keyOf, w, |paths| - 1)
  {
    var n := |paths| - 1;
    var prefix := paths[..n];
    var key := keyOf(paths[n]);
    if key in prev.seen {
      var j :| 0 <= j < n && prev.verdicts[j] == Organized && keyOf(prefix[j]) == key;
      assert w[j] == prev.verdicts[j] && paths[j] == prefix[j];
    }
    if FiledBefore(paths, keyOf, w, n) {
      var j :| 0 <= j < n && w[j] == Organized && keyOf(paths[j]) == key;
      assert w[j] == prev.verdicts[j] && paths[j] == prefix[j];
    }
  }

  /** The verdicts of a fold are those of the fold over all but the last file, plus the last file's. */
  lemma ProcessVerdicts(paths: seq<string>, keyOf: string -> string, organize: string -> Outcome)
    requires |paths| > 0
    ensures Process(paths, keyOf, organize).verdicts
            == Process(paths[..|paths| - 1], keyOf, organize).verdicts
               + [VerdictFor(Process(paths[..|paths| - 1], keyOf, organize).seen, keyOf(paths[|paths| - 1]), organize(paths[|paths| - 1]))]
  {
  }

  /** Both verdict rules at the last position. */
  lemma SkipRuleLast(paths: seq<string>, keyOf: string -> string, organize: string -> Outcome)
    requires |paths| > 0
    ensures Process(paths, keyOf, organize).verdicts[|paths| - 1] == Skipped
            <==> FiledBefore(paths, keyOf, Process(paths, keyOf, organize).verdicts, |paths| - 1)
    ensures Process(paths, keyOf, organize).verdicts[|paths| - 1] == Organized
            <==> !FiledBefore(paths, keyOf, Process(paths, keyOf, organize).verdicts, |paths| - 1)
                 && organize(paths[|paths| - 1]).Some?
  {
    var n := |paths| - 1;
    var prev := Process(paths[..n], keyOf, organize);
    var w := Process(paths, keyOf, organize).verdicts;
    ProcessVerdicts(paths, keyOf, organize);
    assert w[..n] == prev.verdicts;
    SeenKeys(paths[..n], keyOf, organize);
    FiledBeforeLast(paths, keyOf, prev, w);
  }

  /** Both verdict rules at one position, by induction on the files after it. */
  lemma {:induction false} SkipRuleAt(paths: seq<string>, keyOf: string -> string, organize: string -> Outcome, i: nat)
    requires i < |paths|
    ensures Process(paths, keyOf, organize).verdicts[i] == Skipped
            <==> FiledBefore(paths, keyOf, Process(paths, keyOf, organize).verdicts, i)
    ensures Process(paths, keyOf, organize).verdicts[i] == Organized
            <==> !FiledBefore(paths, keyOf, Process(paths, keyOf, organize).verdicts, i) && organize(paths[i]).Some?
    decreases |paths|
  {
    var n := |paths| - 1;
    if i < n {
      var prefix := paths[..n];
      var v := Process(prefix, keyOf, organize).verdicts;
      var w := Process(paths, keyOf, organize).verdicts;
      ProcessVerdicts(paths, keyOf, organize);
      assert w[..n] == v && w[i] == v[i] && prefix[i] == paths[i];
      SkipRuleAt(prefix, keyOf, organize, i);
      FiledBeforeExtend(paths, keyOf, v, w, i);
    } else {
      SkipRuleLast(paths, keyOf, organize);
    }
  }

  /** The skip rule holds for the whole fold; a failed file does not claim its key. */
  lemma SkipRule(paths: seq<string>, keyOf: string -> string, organize: string -> Outcome)
    ensures FollowsSkipRule(paths, keyOf, organize, Process(paths, keyOf, organize))
  {
    forall i | 0 <= i < |paths| {
      SkipRuleAt(paths, keyOf, organize, i);
    }
  }

  /** One step of the fold keeps the filed keys distinct and equal to the key set. */
  lemma StepKeysUnique(keyOf: string -> string, prev: Batch, path: string, outcome: Outcome)
    requires FiledKeysUnique(keyOf, prev)
    ensures FiledKeysUnique(keyOf, Step(prev, path, keyOf(path), outcome))
  {
    var key := keyOf(path);
    var b := Step(prev, path, key, outcome);
    if key !in prev.seen && outcome.Some? {
      var m := |prev.filed|;
      assert b.seen == prev.seen + {key};
      assert forall a :: 0 <= a < m ==> b.filed[a] == prev.filed[a];
      assert b.filed[m].source == path;
      forall a, c | 0 <= a < c < |b.filed|
        ensures keyOf(b.filed[a].source) != keyOf(b.filed[c].source)
      {
        if c == m {
          assert keyOf(prev.filed[a].source) in prev.seen;
        }
      }
      forall k
        ensures k in b.seen <==> exists a :: 0 <= a < |b.filed| && keyOf(b.filed[a].source) == k
      {
        if k in prev.seen {
          var a :| 0 <= a < m && keyOf(prev.filed[a].source) == k;
          assert keyOf(b.filed[a].source) == k;
        }
        if k == key {
          assert keyOf(b.filed[m].source) == k;
        }
      }
    } else {
      assert b.filed == prev.filed && b.seen == prev.seen;
    }
  }

  /** No two filed documents share a key. */
  lemma {:induction false} FiledKeysDistinct(paths: seq<string>, keyOf: string -> string, organize: string -> Outcome)
    ensures FiledKeysUnique(keyOf, Process(paths, keyOf, organize))
    decreases |paths|
  {
    if |paths| > 0 {
      var n := |paths| - 1;
      var prefix := paths[..n];
      FiledKeysDistinct(prefix, keyOf, organize);
      StepKeysUnique(keyOf, Process(prefix, keyOf, organize), paths[n], organize(paths[n]));
    }
  }

  /** Each filed triple is one of the input paths with the outcome organizing it produced. */
  lemma {:induction false} FiledOutcomes(paths: seq<string>, keyOf: string -> string, organize: string -> Outcome)
    ensures FiledFromInput(paths, organize, Process(paths, keyOf, organize))
    decreases |paths|
  {
    if |paths| > 0 {
      var n := |paths| - 1;
      var prefix := paths[..n];
      FiledOutcomes(prefix, keyOf, organize);
      var prev := Process(prefix, keyOf, organize);
      var b := Process(paths, keyOf, organize);
      assert b == Step(prev, paths[n], keyOf(paths[n]), organize(paths[n]));
      assert forall q :: q in prefix ==> q in paths;
      assert forall a :: 0 <= a < |prev.filed| ==> b.filed[a] == prev.filed[a];
    }
  }

  /** `organize_pdf` for every path, with its document and copy outcome. */
  function OrganizeEach(outputDir: string, patterns: Patterns, docs: string -> DocSource, copies: string -> bool)
    : (organize: string -> Outcome)
    ensures forall path :: organize(path).Some? ==> InYearDirectory(organize(path).value)
  {
    var organize := (path: string) => OrganizePdf(outputDir, path, docs(path), copies(path), patterns);
    assert forall path :: organize(path) == OrganizePdf(outputDir, path, docs(path), copies(path), patterns);
    organize
  }

  /** Filed sources come from the input, and each lands where organizing it put it. */
  lemma FiledPlacement(paths: seq<string>, keyOf: string -> string, organize: string -> Outcome)
    requires forall path :: organize(path).Some? ==> InYearDirectory(organize(path).value)
    ensures forall a :: 0 <= a < |Process(paths, keyOf, organize).filed| ==>
              && Process(paths, keyOf, organize).filed[a].source in paths
              && InYearDirectory((Process(paths, keyOf, organize).filed[a].pub, Process(paths, keyOf, organize).filed[a].dest))
  {
    FiledOutcomes(paths, keyOf, organize);
  }

  /**
    `process_directory`: the candidates of the walk listing, sorted as
    strings, folded with the skip rule under the suppression key;
    `organize_pdf` is applied with the per-path document and copy outcome.
   */
  function ProcessDirectory(
    listing: seq<(string, string)>, outputDir: string, patterns: Patterns,
    docs: string -> DocSource, copies: string -> bool): (b: Batch)
    ensures b.successful == |b.filed|
    ensures b.successful + b.failed + b.skipped == |Candidates(listing)|
    ensures |b.verdicts| == |Candidates(listing)|
    ensures b.failed == CountWhere(b.verdicts, IsFailed)
    ensures b.skipped == CountWhere(b.verdicts, IsSkipped)
    ensures forall a :: 0 <= a < |b.filed| ==> b.filed[a].source in Candidates(listing)
    ensures forall a :: 0 <= a < |b.filed| ==> Basename(Dirname(b.filed[a].dest)) == b.filed[a].pub.year
    ensures forall a, c :: 0 <= a < c < |b.filed| ==>
              SuppressionKey(b.filed[a].source) != SuppressionKey(b.filed[c].source)
  {
    var organize := OrganizeEach(outputDir, patterns, docs, copies);
    var b := Process(Sort(Candidates(listing)), SuppressionKey, organize);
    SortedBatch(Candidates(listing), organize, b);
    SortedBatchKeys(Candidates(listing), organize, b);
    b
  }

  /** A batch over the sorted candidates files only candidates, each in its year directory. */
  lemma SortedBatch(cands: seq<string>, organize: string -> Outcome, b: Batch)
    requires forall path :: organize(path).Some? ==> InYearDirectory(organize(path).value)
    ensures b == Process(Sort(cands), SuppressionKey, organize) ==>
              forall a :: 0 <= a < |b.filed| ==>
                b.filed[a].source in cands && Basename(Dirname(b.filed[a].dest)) == b.filed[a].pub.year
  {
    var paths := Sort(cands);
    if b == Process(paths, SuppressionKey, organize) {
      FiledPlacement(paths, SuppressionKey, organize);
      forall a | 0 <= a < |b.filed|
        ensures b.filed[a].source in cands
        ensures Basename(Dirname(b.filed[a].dest)) == b.filed[a].pub.year
      {
        assert InYearDirectory((b.filed[a].pub, b.filed[a].dest));
        assert b.filed[a].source in multiset(paths);
      }
    }
  }

  /** No two files of a batch over the sorted candidates share a suppression key. */
  lemma SortedBatchKeys(cands: seq<string>, organize: string -> Outcome, b: Batch)
    ensures b == Process(Sort(cands), SuppressionKey, organize) ==>
              forall a, c :: 0 <= a < c < |b.filed| ==>
                SuppressionKey(b.filed[a].source) != SuppressionKey(b.filed[c].source)
  {
    FiledKeysDistinct(Sort(cands), SuppressionKey, organize);
  }

  /**
    The batch result depends on the candidate files only, not on the order
    the directory walk listed them in.
   */
  lemma WalkOrderIrrelevant(
    l1: seq<(string, string)>, l2: seq<(string, string)>, outputDir: string, patterns: Patterns,
    docs: string -> DocSource, copies: string -> bool)
    requires multiset(Candidates(l1)) == multiset(Candidates(l2))
    ensures ProcessDirectory(l1, outputDir, patterns, docs, copies) == ProcessDirectory(l2, outputDir, patterns, docs, copies)
  {
    SortDeterministic(Candidates(l1), Candidates(l2));
  }
}
