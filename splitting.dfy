/**
 * The two ways `String.prototype.split` is used on credentials:
 *
 *  - with a string separator (`s.split('&&')`), which cuts at the first
 *    occurrence of the separator, then at the first occurrence after that, and
 *    so on, leaving empty pieces where separators are adjacent; and
 *
 *  - with the regular expression `\s*d\s*` for a delimiter character d
 *    (`;` and `=`), which behaves as the splitter loop of section 22.2.6.14 of
 *    ECMA-262 (`RegExp.prototype[@@split]`): it tries a sticky match at each
 *    position q after the end p of the last match, and cuts out s[p..q] when
 *    one is found.
 *
 * The main result, RegexSplitIsTrimmedSplit, says that the regular-expression
 * split is the plain split on d in which every field loses the whitespace on
 * the sides where a delimiter stood.
 */
module Splitting {
  import opened Wrappers
  import opened JsText

  // ---------------------------------------------------------------------------
  // Splitting on a string separator
  // ---------------------------------------------------------------------------

  predicate OccursAt(s: string, sep: string, j: nat) {
    j + |sep| <= |s| && s[j..j + |sep|] == sep
  }

  /** `s.indexOf(sep, from)`: the first occurrence of `sep` at or after `from`. */
  function IndexOf(s: string, sep: string, from: nat): (r: Option<nat>)
    requires from <= |s|
    decreases |s| - from
    ensures r.Some? ==> from <= r.value && OccursAt(s, sep, r.value)
    ensures r.Some? ==> forall j :: from <= j < r.value ==> !OccursAt(s, sep, j)
    ensures r.None? ==> forall j :: from <= j ==> !OccursAt(s, sep, j)
  {
    if from + |sep| > |s| then None
    else if s[from..from + |sep|] == sep then Some(from)
    else IndexOf(s, sep, from + 1)
  }

  /** The pieces of `s.split(sep)` from position `i` on. */
  function SplitOnFrom(s: string, sep: string, i: nat): (parts: seq<string>)
    requires sep != "" && i <= |s|
    decreases |s| - i
    ensures |parts| >= 1
  {
    match IndexOf(s, sep, i)
    case None => [s[i..]]
    case Some(j) => [s[i..j]] + SplitOnFrom(s, sep, j + |sep|)
  }

  /** `s.split(sep)` for a non-empty string separator; `"".split(sep)` is `[""]`. */
  function SplitOn(s: string, sep: string): (parts: seq<string>)
    requires sep != ""
  {
    SplitOnFrom(s, sep, 0)
  }

  lemma {:induction false} SplitOnFromJoin(s: string, sep: string, i: nat)
    requires sep != "" && i <= |s|
    ensures Join(SplitOnFrom(s, sep, i), sep) == s[i..]
    decreases |s| - i
  {
    match IndexOf(s, sep, i)
    case None =>
    case Some(j) =>
      var rest := SplitOnFrom(s, sep, j + |sep|);
      SplitOnFromJoin(s, sep, j + |sep|);
      assert [s[i..j]] + rest == SplitOnFrom(s, sep, i);
      assert (([s[i..j]] + rest)[1..]) == rest;
      calc {
        Join(SplitOnFrom(s, sep, i), sep);
        s[i..j] + sep + Join(rest, sep);
        s[i..j] + s[j..j + |sep|] + s[j + |sep|..];
        s[i..];
      }
  }

  /** Joining the pieces of a split with the separator gives back the string. */
  lemma SplitOnJoin(s: string, sep: string)
    requires sep != ""
    ensures Join(SplitOn(s, sep), sep) == s
  {
    SplitOnFromJoin(s, sep, 0);
  }

  /** An occurrence inside a slice is an occurrence in the whole string. */
  lemma OccursInSlice(s: string, sep: string, a: nat, b: nat, m: nat)
    requires a <= b <= |s| && OccursAt(s[a..b], sep, m)
    ensures OccursAt(s, sep, a + m)
  {
    var u := s[a..b][m..m + |sep|];
    var v := s[a + m..a + m + |sep|];
    assert forall x :: 0 <= x < |u| ==> u[x] == v[x];
    assert u == v;
  }

  lemma {:induction false} SplitOnFromPiecesFree(s: string, sep: string, i: nat, k: nat, m: nat)
    requires sep != "" && i <= |s| && k < |SplitOnFrom(s, sep, i)|
    ensures !OccursAt(SplitOnFrom(s, sep, i)[k], sep, m)
    decreases |s| - i
  {
    var parts := SplitOnFrom(s, sep, i);
    match IndexOf(s, sep, i)
    case None =>
      assert parts[k] == s[i..|s|];
      if OccursAt(s[i..|s|], sep, m) {
        OccursInSlice(s, sep, i, |s|, m);
      }
    case Some(j) =>
      if k == 0 {
        assert parts[k] == s[i..j];
        if OccursAt(s[i..j], sep, m) {
          OccursInSlice(s, sep, i, j, m);
        }
      } else {
        SplitOnFromPiecesFree(s, sep, j + |sep|, k - 1, m);
      }
  }

  /** No piece of a split contains the separator. */
  lemma SplitOnPiecesFree(s: string, sep: string, k: nat, m: nat)
    requires sep != "" && k < |SplitOn(s, sep)|
    ensures !OccursAt(SplitOn(s, sep)[k], sep, m)
  {
    SplitOnFromPiecesFree(s, sep, 0, k, m);
  }

  /** The last piece of a split starts at the beginning or right after a separator. */
  lemma {:induction false} SplitOnFromLast(s: string, sep: string, i: nat) returns (k: nat)
    requires sep != "" && i <= |s|
    ensures i <= k <= |s|
    ensures SplitOnFrom(s, sep, i)[|SplitOnFrom(s, sep, i)| - 1] == s[k..]
    ensures k == i || (|sep| <= k && s[k - |sep|..k] == sep)
    ensures forall j :: k <= j ==> !OccursAt(s, sep, j)
    decreases |s| - i
  {
    match IndexOf(s, sep, i)
    case None =>
      k := i;
    case Some(j) =>
      k := SplitOnFromLast(s, sep, j + |sep|);
      if k == j + |sep| {
        assert s[k - |sep|..k] == sep;
      }
  }

  lemma OccursAtSingle(s: string, c: char, j: nat)
    requires j < |s|
    ensures OccursAt(s, [c], j) <==> s[j] == c
  {
    if s[j] == c {
      assert s[j..j + 1] == [c];
    }
    if OccursAt(s, [c], j) {
      assert s[j..j + 1][0] == s[j];
    }
  }

  /** The next occurrence of a separator is at `k` when its first character does not occur before `k`. */
  lemma IndexOfByFirstChar(s: string, sep: string, i: nat, k: nat)
    requires sep != "" && i <= k && OccursAt(s, sep, k) && sep[0] !in s[i..k]
    ensures IndexOf(s, sep, i) == Some(k)
  {
    var r := IndexOf(s, sep, i);
    assert r.Some? && r.value <= k;
    assert s[r.value..r.value + |sep|][0] == s[r.value];
    assert r.value == k;
  }

  /** A separator whose first character does not occur in `s[i..]` does not occur there. */
  lemma IndexOfAbsent(s: string, sep: string, i: nat)
    requires sep != "" && i <= |s| && sep[0] !in s[i..]
    ensures IndexOf(s, sep, i).None?
  {
  }

  /** Splitting on a character cuts at its next occurrence. */
  lemma SplitOnFromChar(s: string, c: char, i: nat, k: nat)
    requires i <= k < |s| && s[k] == c && c !in s[i..k]
    ensures SplitOnFrom(s, [c], i) == [s[i..k]] + SplitOnFrom(s, [c], k + 1)
  {
    OccursAtSingle(s, c, k);
    var r := IndexOf(s, [c], i);
    assert r.Some? && r.value <= k;
    OccursAtSingle(s, c, r.value);
    assert r.value == k;
  }

  /** Without a further occurrence of the character, the rest is one piece. */
  lemma SplitOnFromNoChar(s: string, c: char, i: nat)
    requires i <= |s| && c !in s[i..]
    ensures SplitOnFrom(s, [c], i) == [s[i..]]
  {
    forall j | i <= j < |s| ensures !OccursAt(s, [c], j) {
      OccursAtSingle(s, c, j);
      assert s[j] == s[i..][j - i];
    }
  }

  // ---------------------------------------------------------------------------
  // Splitting on /\s*d\s*/
  // ---------------------------------------------------------------------------

  /** The delimiters the regular expressions use: characters `\s` does not match. */
  type Delimiter = c: char | !IsWhiteSpace(c) witness ';'

  /** The end of the longest run of `\s` characters starting at `q`. */
  function SkipWhiteSpace(s: string, q: nat): (r: nat)
    requires q <= |s|
    decreases |s| - q
    ensures q <= r <= |s|
    ensures forall i :: q <= i < r ==> IsWhiteSpace(s[i])
    ensures r < |s| ==> !IsWhiteSpace(s[r])
  {
    if q < |s| && IsWhiteSpace(s[q]) then SkipWhiteSpace(s, q + 1) else q
  }

  /**
   * The end of a sticky match of `\s*d\s*` attempted at `q`, if there is one.
   * The greedy `\s*` takes the longest run of whitespace; since `d` is not
   * whitespace, giving back part of the run would put whitespace before
   * the `d`, so `d` matches right after the run or nowhere. The trailing
   * `\s*` takes its longest run, and nothing after it can fail.
   */
  function MatchAt(s: string, d: Delimiter, q: nat): (e: Option<nat>)
    requires q <= |s|
    ensures e.Some? ==> q < e.value <= |s| && (e.value < |s| ==> !IsWhiteSpace(s[e.value]))
  {
    var w := SkipWhiteSpace(s, q);
    if w < |s| && s[w] == d then Some(SkipWhiteSpace(s, w + 1)) else None
  }

  /**
   * MatchAt is the sticky match of `\s*d\s*`: there is one at `q` exactly
   * when `d` follows a run of whitespace there, and the text it spans is
   * whitespace, a single `d`, and whitespace as far as it goes.
   */
  lemma MatchAtIsStickyMatch(s: string, d: Delimiter, q: nat)
    requires q <= |s|
    ensures MatchAt(s, d, q).Some? <==>
              exists w :: q <= w < |s| && s[w] == d && forall i :: q <= i < w ==> IsWhiteSpace(s[i])
    ensures MatchAt(s, d, q).Some? ==>
              var e := MatchAt(s, d, q).value;
              exists w :: q <= w < e && s[w] == d && forall i :: q <= i < e && i != w ==> IsWhiteSpace(s[i])
  {
  }

  /** The splitter loop: `p` is where the current piece starts, `q` the next attempt. */
  function SplitFrom(s: string, d: Delimiter, p: nat, q: nat): (pieces: seq<string>)
    requires p <= q <= |s|
    decreases |s| - q
    ensures |pieces| >= 1
  {
    if q == |s| then [s[p..]]
    else match MatchAt(s, d, q)
      case None => SplitFrom(s, d, p, q + 1)
      case Some(e) => [s[p..q]] + SplitFrom(s, d, e, e)
  }

  /** `s.split` on the regular expression `\s*d\s*`; for the empty string there is no match and the result is `[""]`. */
  function RegexSplit(s: string, d: Delimiter): (pieces: seq<string>) {
    SplitFrom(s, d, 0, 0)
  }

  // ----- The reference: a plain split whose fields are trimmed next to delimiters -----

  function TrimStart(t: string): string
    decreases |t|
  {
    if |t| > 0 && IsWhiteSpace(t[0]) then TrimStart(t[1..]) else t
  }

  function TrimEnd(t: string): string
    decreases |t|
  {
    if |t| > 0 && IsWhiteSpace(t[|t| - 1]) then TrimEnd(t[..|t| - 1]) else t
  }

  /** `t` without its leading whitespace if `left`, and without its trailing whitespace if `right`. */
  function Trim(t: string, left: bool, right: bool): string {
    var u := if left then TrimStart(t) else t;
    if right then TrimEnd(u) else u
  }

  /** A text that neither starts nor ends with whitespace is its own trim. */
  lemma TrimUnchanged(t: string, left: bool, right: bool)
    requires |t| > 0 ==> !IsWhiteSpace(t[0]) && !IsWhiteSpace(t[|t| - 1])
    ensures Trim(t, left, right) == t
  {
  }

  /**
   * Each field loses the whitespace on its sides that touch a delimiter:
   * every field but the last has one after it, every field but the first
   * has one before it (`left` says whether the first one does).
   */
  function TrimFields(fields: seq<string>, left: bool): (r: seq<string>)
    decreases |fields|
    ensures |r| == |fields|
    ensures forall i :: 0 <= i < |fields| ==> r[i] == Trim(fields[i], left || i > 0, i < |fields| - 1)
  {
    if |fields| == 0 then []
    else if |fields| == 1 then [Trim(fields[0], left, false)]
    else [Trim(fields[0], left, true)] + TrimFields(fields[1..], true)
  }

  /** The start of the longest run of whitespace that ends at `k` and does not begin before `p`. */
  function BackWhiteSpace(s: string, p: nat, k: nat): (w: nat)
    requires p <= k <= |s|
    decreases k - p
    ensures p <= w <= k
    ensures forall i :: w <= i < k ==> IsWhiteSpace(s[i])
    ensures w > p ==> !IsWhiteSpace(s[w - 1])
  {
    if k > p && IsWhiteSpace(s[k - 1]) then BackWhiteSpace(s, p, k - 1) else k
  }

  lemma {:induction false} TrimStartSlice(s: string, p: nat, k: nat)
    requires p <= k <= |s| && SkipWhiteSpace(s, p) <= k
    ensures TrimStart(s[p..k]) == s[SkipWhiteSpace(s, p)..k]
    decreases k - p
  {
    if p < k && IsWhiteSpace(s[p]) {
      assert s[p..k][1..] == s[p + 1..k];
      TrimStartSlice(s, p + 1, k);
    }
  }

  lemma {:induction false} TrimEndSlice(s: string, p: nat, k: nat)
    requires p <= k <= |s|
    ensures TrimEnd(s[p..k]) == s[p..BackWhiteSpace(s, p, k)]
    decreases k - p
  {
    if k > p && IsWhiteSpace(s[k - 1]) {
      assert s[p..k][..k - p - 1] == s[p..k - 1];
      TrimEndSlice(s, p, k - 1);
    }
  }

  /** Failed match attempts only move the scan position on. */
  lemma {:induction false} ScanPastFailures(s: string, d: Delimiter, p: nat, q: nat, w: nat)
    requires p <= q <= w <= |s|
    requires forall q' :: q <= q' < w ==> MatchAt(s, d, q').None?
    ensures SplitFrom(s, d, p, q) == SplitFrom(s, d, p, w)
    decreases w - q
  {
    if q < w {
      ScanPastFailures(s, d, p, q + 1, w);
    }
  }

  lemma NoDelimiterBetween(s: string, d: char, p: nat, k: nat)
    requires p <= k <= |s|
    requires forall j :: p <= j < k ==> !OccursAt(s, [d], j)
    ensures forall i :: p <= i < k ==> s[i] != d
  {
    forall i | p <= i < k ensures s[i] != d {
      OccursAtSingle(s, d, i);
    }
  }

  /** Without a delimiter ahead, no match attempt succeeds. */
  lemma NoMatchWithoutDelimiter(s: string, d: Delimiter, p: nat, start: nat)
    requires p <= start <= |s|
    requires forall i :: p <= i < |s| ==> s[i] != d
    ensures forall q' :: start <= q' < |s| ==> MatchAt(s, d, q').None?
  {
    forall q' | start <= q' < |s| ensures MatchAt(s, d, q').None? {
      var r := SkipWhiteSpace(s, q');
      assert r < |s| ==> s[r] != d;
    }
  }

  /** Before the whitespace run that precedes the next delimiter, no match attempt succeeds. */
  lemma NoMatchBeforeRun(s: string, d: Delimiter, start: nat, k: nat)
    requires start <= k < |s|
    requires forall i :: start <= i < k ==> s[i] != d
    ensures forall q' :: start <= q' < BackWhiteSpace(s, start, k) ==> MatchAt(s, d, q').None?
  {
    var w := BackWhiteSpace(s, start, k);
    forall q' | start <= q' < w ensures MatchAt(s, d, q').None? {
      var r := SkipWhiteSpace(s, q');
      assert r <= w - 1;
      assert s[r] != d;
    }
  }

  /** The attempt at the start of the whitespace run before a delimiter matches up to the next non-whitespace. */
  lemma MatchAtRun(s: string, d: Delimiter, start: nat, k: nat)
    requires start <= k < |s| && s[k] == d
    ensures MatchAt(s, d, BackWhiteSpace(s, start, k)) == Some(SkipWhiteSpace(s, k + 1))
  {
    var w := BackWhiteSpace(s, start, k);
    assert !IsWhiteSpace(s[k]);
    var r := SkipWhiteSpace(s, w);
    assert r == k;
  }

  /** The last field: no delimiter lies ahead. */
  lemma LastFieldPiece(s: string, d: Delimiter, p: nat, left: bool)
    requires p <= |s|
    requires IndexOf(s, [d], p).None?
    ensures var start := if left then SkipWhiteSpace(s, p) else p;
      SplitFrom(s, d, start, start) == TrimFields(SplitOnFrom(s, [d], p), left)
  {
    var start := if left then SkipWhiteSpace(s, p) else p;
    NoDelimiterBetween(s, d, p, |s|);
    NoMatchWithoutDelimiter(s, d, p, start);
    ScanPastFailures(s, d, start, start, |s|);
    assert SplitFrom(s, d, start, |s|) == [s[start..]];
    assert SplitOnFrom(s, [d], p) == [s[p..]];
    assert TrimFields([s[p..]], left) == [Trim(s[p..], left, false)];
    if left {
      TrimStartSlice(s, p, |s|);
      assert s[p..|s|] == s[p..] && s[start..|s|] == s[start..];
    }
  }

  /**
   * A field followed by a delimiter at `k`: the loop cuts out the trimmed
   * field and restarts after the match, so if the rest of the fields come out
   * right (`rest`), all of them do.
   */
  lemma InnerFieldPiece(s: string, d: Delimiter, p: nat, left: bool, k: nat)
    requires p <= k < |s|
    requires IndexOf(s, [d], p) == Some(k)
    requires SplitFrom(s, d, SkipWhiteSpace(s, k + 1), SkipWhiteSpace(s, k + 1))
             == TrimFields(SplitOnFrom(s, [d], k + 1), true)
    ensures var start := if left then SkipWhiteSpace(s, p) else p;
      SplitFrom(s, d, start, start) == TrimFields(SplitOnFrom(s, [d], p), left)
  {
    var start := if left then SkipWhiteSpace(s, p) else p;
    OccursAtSingle(s, d, k);
    NoDelimiterBetween(s, d, p, k);
    assert !IsWhiteSpace(s[k]);
    assert start <= k;
    var w := BackWhiteSpace(s, start, k);
    var e := SkipWhiteSpace(s, k + 1);
    var rest := SplitOnFrom(s, [d], k + 1);
    NoMatchBeforeRun(s, d, start, k);
    ScanPastFailures(s, d, start, start, w);
    MatchAtRun(s, d, start, k);
    assert SplitFrom(s, d, start, start) == [s[start..w]] + TrimFields(rest, true);
    if left {
      TrimStartSlice(s, p, k);
    }
    TrimEndSlice(s, start, k);
    assert Trim(s[p..k], left, true) == s[start..w];
    assert SplitOnFrom(s, [d], p) == [s[p..k]] + rest;
    TrimFieldsCons(s[p..k], rest, left);
  }

  /**
   * From a piece start `p` (moved past whitespace first when `left`, which is
   * what the end of the previous match does), the splitter loop produces the
   * trimmed fields of the plain split of `s[p..]`.
   */
  lemma {:induction false} SplitFromFields(s: string, d: Delimiter, p: nat, left: bool)
    requires p <= |s|
    ensures var start := if left then SkipWhiteSpace(s, p) else p;
      SplitFrom(s, d, start, start) == TrimFields(SplitOnFrom(s, [d], p), left)
    decreases |s| - p
  {
    match IndexOf(s, [d], p)
    case None =>
      LastFieldPiece(s, d, p, left);
    case Some(k) =>
      SplitFromFields(s, d, k + 1, true);
      InnerFieldPiece(s, d, p, left, k);
  }

  lemma TrimFieldsCons(field: string, rest: seq<string>, left: bool)
    requires |rest| >= 1
    ensures TrimFields([field] + rest, left) == [Trim(field, left, true)] + TrimFields(rest, true)
  {
    assert ([field] + rest)[1..] == rest;
  }

  /**
   * Splitting on the regular expression `\s*d\s*` is `s.split(d)` with the whitespace next to every
   * delimiter removed from the fields on both sides of it; whitespace at the
   * very start and end of `s` stays.
   */
  lemma RegexSplitIsTrimmedSplit(s: string, d: Delimiter)
    ensures RegexSplit(s, d) == TrimFields(SplitOn(s, [d]), false)
  {
    SplitFromFields(s, d, 0, false);
  }

  lemma {:induction false} SplitFromCharsOccur(s: string, d: Delimiter, p: nat, q: nat, k: nat, c: char)
    requires p <= q <= |s| && k < |SplitFrom(s, d, p, q)| && c in SplitFrom(s, d, p, q)[k]
    ensures c in s
    decreases |s| - q
  {
    if q == |s| {
      assert c in s[p..];
    } else {
      match MatchAt(s, d, q)
      case None =>
        SplitFromCharsOccur(s, d, p, q + 1, k, c);
      case Some(e) =>
        if k == 0 {
          assert c in s[p..q];
        } else {
          SplitFromCharsOccur(s, d, e, e, k - 1, c);
        }
    }
  }

  /** Every character of every piece occurs in the string that was split. */
  lemma RegexSplitCharsOccur(s: string, d: Delimiter, k: nat, c: char)
    requires k < |RegexSplit(s, d)| && c in RegexSplit(s, d)[k]
    ensures c in s
  {
    SplitFromCharsOccur(s, d, 0, 0, k, c);
  }

  /** A string that ends with the delimiter splits into pieces the last of which is empty. */
  lemma RegexSplitTrailingDelimiter(s: string, d: Delimiter)
    requires |s| > 0 && s[|s| - 1] == d
    ensures var pieces := RegexSplit(s, d); pieces[|pieces| - 1] == ""
  {
    var fields := SplitOn(s, [d]);
    LastFieldEmpty(s, d);
    RegexSplitIsTrimmedSplit(s, d);
    TrimFieldsLastEmpty(fields, false);
  }

  lemma LastFieldEmpty(s: string, d: char)
    requires |s| > 0 && s[|s| - 1] == d
    ensures var fields := SplitOn(s, [d]); fields[|fields| - 1] == ""
  {
    var k := SplitOnFromLast(s, [d], 0);
    OccursAtSingle(s, d, |s| - 1);
  }

  lemma TrimFieldsLastEmpty(fields: seq<string>, left: bool)
    requires |fields| >= 1 && fields[|fields| - 1] == ""
    ensures var r := TrimFields(fields, left); r[|r| - 1] == ""
  {
    var r := TrimFields(fields, left);
    assert r[|fields| - 1] == Trim("", left || |fields| > 1, false);
  }
}
