/**
  Python string primitives used by the organizer, restricted to ASCII:
  character classes (`\s`, `\d`, `\w`), `str.lower`, `str.strip`,
  `str.split(c)`, `sep.join`, `str.replace(a, b)` on one character,
  the run collapse performed by `re.sub(r'[...]+', rep, s)`, character
  filtering by `re.sub(r'[^...]', '', s)`, and slicing with Python's
  clamping of out-of-range and negative bounds.
 */
module Text {

  /** `str.isspace()` / regex `\s` on ASCII: tab, newline, vertical tab,
      form feed, carriage return, the four separators 0x1C-0x1F, and space. */
  predicate IsSpace(c: char) {
    var n := c as int;
    n == 32 || 9 <= n <= 13 || 28 <= n <= 31
  }

  predicate IsDigit(c: char) { '0' <= c <= '9' }

  predicate IsUpper(c: char) { 'A' <= c <= 'Z' }

  /** Regex `\w` on ASCII. */
  predicate IsWord(c: char) {
    IsDigit(c) || 'a' <= c <= 'z' || IsUpper(c) || c == '_'
  }

  predicate IsDigits(s: string) {
    forall i :: 0 <= i < |s| ==> IsDigit(s[i])
  }

  /** Decimal value of a digit string, as Python's `int(s)`. */
  function NatValue(s: string): (n: nat)
    requires IsDigits(s)
  {
    if |s| == 0 then 0
    else NatValue(s[..|s| - 1]) * 10 + (s[|s| - 1] as int - '0' as int)
  }

  function ToLower(c: char): (d: char)
    ensures !IsUpper(d)
    ensures !IsUpper(c) ==> d == c
  {
    if IsUpper(c) then (c as int + 32) as char else c
  }

  /** `str.lower()` on ASCII. */
  function Lower(s: string): (r: string)
    ensures |r| == |s|
    ensures forall i :: 0 <= i < |s| ==> r[i] == ToLower(s[i])
  {
    seq(|s|, i requires 0 <= i < |s| => ToLower(s[i]))
  }

  lemma LowerFixed(s: string)
    requires forall i :: 0 <= i < |s| ==> !IsUpper(s[i])
    ensures Lower(s) == s
  {
  }

  // ---------------------------------------------------------------- strip

  /** No whitespace at either end: what `str.strip()` leaves behind. */
  predicate IsStripped(s: string) {
    |s| == 0 || (!IsSpace(s[0]) && !IsSpace(s[|s| - 1]))
  }

  function LeadingSpaces(s: string): (n: nat)
    ensures n <= |s|
    ensures forall i :: 0 <= i < n ==> IsSpace(s[i])
    ensures n < |s| ==> !IsSpace(s[n])
  {
    if |s| > 0 && IsSpace(s[0]) then 1 + LeadingSpaces(s[1..]) else 0
  }

  function TrailingSpaces(s: string): (n: nat)
    ensures n <= |s|
    ensures forall i :: |s| - n <= i < |s| ==> IsSpace(s[i])
    ensures n < |s| ==> !IsSpace(s[|s| - n - 1])
  {
    if |s| > 0 && IsSpace(s[|s| - 1]) then 1 + TrailingSpaces(s[..|s| - 1]) else 0
  }

  /** `str.strip()`: drops the leading and trailing whitespace and keeps the middle. */
  function Strip(s: string): (r: string)
    ensures IsStripped(r)
    ensures IsStripped(s) ==> r == s
    ensures |r| <= |s|
    ensures forall c :: c in r ==> c in s
  {
    var t := s[LeadingSpaces(s)..];
    assert forall c :: c in t ==> c in s;
    t[..|t| - TrailingSpaces(t)]
  }

  /** The strip of `s` is the slice of `s` that starts after its leading spaces. */
  lemma StripSlice(s: string)
    ensures LeadingSpaces(s) + |Strip(s)| <= |s|
    ensures forall i :: 0 <= i < |Strip(s)| ==> Strip(s)[i] == s[LeadingSpaces(s) + i]
  {
  }

  /** A slice keeps the character classes and the absence of doubled separators. */
  lemma SliceKeepsRuns(s: string, r: string, k: nat, sep: char -> bool, rep: char)
    requires k + |r| <= |s|
    requires forall i :: 0 <= i < |r| ==> r[i] == s[k + i]
    requires forall i :: 0 <= i < |s| ==> s[i] == rep || !sep(s[i])
    requires NoDoubled(s, rep)
    ensures forall i :: 0 <= i < |r| ==> r[i] == rep || !sep(r[i])
    ensures NoDoubled(r, rep)
  {
    forall i | 0 <= i < |r| - 1 ensures r[i] != rep || r[i + 1] != rep {
      assert r[i] == s[k + i] && r[i + 1] == s[k + i + 1];
    }
  }

  /** One leading space more does not change the strip of a stripped string. */
  lemma StripSpaceBefore(x: string)
    requires IsStripped(x)
    ensures Strip(" " + x) == x
  {
    var s := " " + x;
    assert s[1..] == x;
    assert LeadingSpaces(s) == 1;
  }

  function StripAll(xs: seq<string>): (r: seq<string>)
    ensures |r| == |xs|
    ensures forall i :: 0 <= i < |xs| ==> r[i] == Strip(xs[i])
  {
    if |xs| == 0 then [] else [Strip(xs[0])] + StripAll(xs[1..])
  }

  lemma StripAllCons(x: string, xs: seq<string>)
    ensures StripAll([x] + xs) == [Strip(x)] + StripAll(xs)
  {
    assert ([x] + xs)[1..] == xs;
  }

  // ---------------------------------------------------------- split / join

  /** `s.split(sep)` for a one-character separator: always at least one part. */
  function Split(s: string, sep: char): (parts: seq<string>)
    ensures |parts| >= 1
    ensures forall i :: 0 <= i < |parts| ==> sep !in parts[i]
    decreases |s|
  {
    if |s| == 0 then [""]
    else
      var rest := Split(s[1..], sep);
      if s[0] == sep then [""] + rest
      else [[s[0]] + rest[0]] + rest[1..]
  }

  /** `d.join(parts)`. */
  function Join(parts: seq<string>, d: string): string {
    if |parts| == 0 then ""
    else if |parts| == 1 then parts[0]
    else parts[0] + d + Join(parts[1..], d)
  }

  lemma {:induction false} SplitNoSeparator(s: string, sep: char)
    requires sep !in s
    ensures Split(s, sep) == [s]
    decreases |s|
  {
    if |s| > 0 {
      SplitNoSeparator(s[1..], sep);
      assert [s[0]] + s[1..] == s;
    }
  }

  /** Splitting at the first separator: the text before it is the first part. */
  lemma {:induction false} SplitAtFirst(a: string, sep: char, b: string)
    requires sep !in a
    ensures Split(a + [sep] + b, sep) == [a] + Split(b, sep)
    decreases |a|
  {
    var s := a + [sep] + b;
    if |a| == 0 {
      assert s[1..] == b;
    } else {
      assert s[1..] == a[1..] + [sep] + b;
      SplitAtFirst(a[1..], sep, b);
      assert [a[0]] + a[1..] == a;
    }
  }

  /** Joining the parts of a split with the separator gives back the string. */
  lemma {:induction false} JoinSplit(s: string, sep: char)
    ensures Join(Split(s, sep), [sep]) == s
    decreases |s|
  {
    if |s| > 0 {
      JoinSplit(s[1..], sep);
      var rest := Split(s[1..], sep);
      if s[0] == sep {
        assert Split(s, sep) == [""] + rest;
        assert ([""] + rest)[1..] == rest;
        assert [sep] + s[1..] == s;
      } else {
        var parts := Split(s, sep);
        assert parts == [[s[0]] + rest[0]] + rest[1..];
        if |rest| == 1 {
          assert Join(rest, [sep]) == rest[0];
        } else {
          assert parts[1..] == rest[1..];
          assert Join(rest, [sep]) == rest[0] + [sep] + Join(rest[1..], [sep]);
        }
        assert [s[0]] + s[1..] == s;
      }
    }
  }

  /** Joining an empty list, or a single empty string, is the only way to get "". */
  lemma JoinEmpty(parts: seq<string>, d: string)
    requires d != ""
    ensures Join(parts, d) == "" <==> |parts| == 0 || (|parts| == 1 && parts[0] == "")
  {
  }

  /** `s.replace(a, b)` for single characters. */
  function ReplaceChar(s: string, a: char, b: char): (r: string)
    ensures |r| == |s|
    ensures forall i :: 0 <= i < |s| ==> r[i] == (if s[i] == a then b else s[i])
  {
    seq(|s|, i requires 0 <= i < |s| => if s[i] == a then b else s[i])
  }

  // ------------------------------------------------------ regex rewriting

  /** `re.sub(r'[^...]', '', s)`: keeps, in order, the characters `keep` accepts. */
  function Filter(s: string, keep: char -> bool): (r: string)
    ensures |r| <= |s|
    ensures forall i :: 0 <= i < |r| ==> keep(r[i])
    ensures forall c :: c in r ==> c in s
    ensures (forall i :: 0 <= i < |s| ==> keep(s[i])) ==> r == s
  {
    if |s| == 0 then ""
    else
      var rest := Filter(s[1..], keep);
      assert forall c :: c in rest ==> c in s;
      if keep(s[0]) then
        assert [s[0]] + s[1..] == s;
        [s[0]] + rest
      else rest
  }

  /** No two neighbouring copies of `rep`. */
  predicate NoDoubled(s: string, rep: char) {
    forall i :: 0 <= i < |s| - 1 ==> s[i] != rep || s[i + 1] != rep
  }

  /**
    `re.sub(r'[S]+', rep, s)`: every maximal run of characters in the class
    `sep` becomes one `rep`. `inRun` says whether the text just before `s`
    was already such a run (the scan starts with `false`).
   */
  function Collapse(s: string, sep: char -> bool, rep: char, inRun: bool): (r: string)
    requires sep(rep)
    ensures |r| <= |s|
    ensures forall i :: 0 <= i < |r| ==> r[i] == rep || !sep(r[i])
    ensures NoDoubled(r, rep)
    ensures inRun && |r| > 0 ==> r[0] != rep
    decreases |s|
  {
    if |s| == 0 then ""
    else if sep(s[0]) then
      if inRun then Collapse(s[1..], sep, rep, true)
      else [rep] + Collapse(s[1..], sep, rep, true)
    else [s[0]] + Collapse(s[1..], sep, rep, false)
  }

  /** Collapsing only emits `rep` and characters taken from the input. */
  lemma {:induction false} CollapseKeeps(s: string, sep: char -> bool, rep: char, inRun: bool, ok: char -> bool)
    requires sep(rep) && ok(rep)
    requires forall i :: 0 <= i < |s| ==> ok(s[i])
    ensures forall i :: 0 <= i < |Collapse(s, sep, rep, inRun)| ==> ok(Collapse(s, sep, rep, inRun)[i])
    decreases |s|
  {
    if |s| > 0 {
      CollapseKeeps(s[1..], sep, rep, false, ok);
      CollapseKeeps(s[1..], sep, rep, true, ok);
    }
  }

  /** A string that is already collapsed is left unchanged. */
  lemma {:induction false} CollapseFixed(s: string, sep: char -> bool, rep: char, inRun: bool)
    requires sep(rep)
    requires forall i :: 0 <= i < |s| ==> s[i] == rep || !sep(s[i])
    requires NoDoubled(s, rep)
    requires inRun && |s| > 0 ==> s[0] != rep
    ensures Collapse(s, sep, rep, inRun) == s
    decreases |s|
  {
    if |s| > 0 {
      assert NoDoubled(s[1..], rep);
      if sep(s[0]) {
        CollapseFixed(s[1..], sep, rep, true);
      } else {
        CollapseFixed(s[1..], sep, rep, false);
      }
      assert [s[0]] + s[1..] == s;
    }
  }

  // ------------------------------------------------------------- slicing

  /** `s[:n]`. */
  function Take(s: string, n: nat): (r: string)
    ensures |r| <= n && |r| <= |s|
    ensures r == s[..|r|]
    ensures |s| <= n ==> r == s
  {
    if |s| <= n then s else s[..n]
  }

  /** A Python slice bound: negative counts from the end, then clamped into [0, n]. */
  function ClampIndex(i: int, n: nat): (k: nat)
    ensures k <= n
    ensures 0 <= i <= n ==> k == i
    ensures i < 0 && 0 <= n + i ==> k == n + i
  {
    if i < 0 then (if i + n < 0 then 0 else i + n)
    else if i > n then n
    else i
  }

  /** `s[start:stop]` with Python's clamping: never fails, possibly empty. */
  function PySlice(s: string, start: int, stop: int): (r: string)
    ensures |r| <= |s|
    ensures 0 <= start <= stop <= |s| ==> r == s[start..stop]
    ensures 0 <= start && stop < 0 && start <= |s| + stop ==> r == s[start..|s| + stop]
    ensures 0 <= start && stop < 0 && start >= |s| + stop ==> r == ""
  {
    var a := ClampIndex(start, |s|);
    var b := ClampIndex(stop, |s|);
    if a < b then s[a..b] else ""
  }

  predicate EndsWith(s: string, suffix: string) {
    |suffix| <= |s| && s[|s| - |suffix|..] == suffix
  }
}
