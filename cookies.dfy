/**
 * The credential bundle: one string holding every account's cookies, the
 * accounts separated by `&&`, each account a list of `name=value` pairs
 * separated by `;` with any whitespace around the `;`.
 *
 * CheckCookies is the validator that runs before anything else; RawCookieToJson
 * turns one account's string into the cookie records the browser is given.
 */
module Cookies {
  import opened Wrappers
  import opened JsText
  import opened Splitting

  const ACCOUNT_SEPARATOR := "&&"
  const PAIR_DELIMITER: Delimiter := ';'
  const NAME_DELIMITER: Delimiter := '='
  const COOKIE_DOMAIN := "glados.rocks"

  /** Every `;`-part of one account's cookie string contains `=`. */
  predicate PairsWellFormed(cookie: string) {
    var pairs := RegexSplit(cookie, PAIR_DELIMITER);
    forall j :: 0 <= j < |pairs| ==> '=' in pairs[j]
  }

  /** Every account of the bundle has only parts that contain `=`. */
  predicate BundleWellFormed(bundle: string) {
    var cookies := SplitOn(bundle, ACCOUNT_SEPARATOR);
    forall i :: 0 <= i < |cookies| ==> PairsWellFormed(cookies[i])
  }

  /**
   * The outcome of the validator. It returns `true` for Accepted and `false`
   * otherwise, logging one message when the bundle is missing and another
   * when an account is malformed.
   */
  datatype Verdict = Accepted | MissingCookies | MalformedCookie

  /**
   * Validates the raw bundle, `None` standing for an unset variable. A missing
   * bundle gives no accounts; otherwise each account must contain `=` and so
   * must each of its `;`-parts, and the first one that does not ends the check.
   */
  method CheckCookies(bundle: Option<string>) returns (verdict: Verdict)
    ensures verdict == MissingCookies <==> bundle.None?
    ensures verdict == Accepted <==> bundle.Some? && BundleWellFormed(bundle.value)
  {
    var cookies := match bundle
      case None => []
      case Some(s) => SplitOn(s, ACCOUNT_SEPARATOR);
    if |cookies| == 0 {
      return MissingCookies;
    }
    for i := 0 to |cookies|
      invariant forall i' :: 0 <= i' < i ==> PairsWellFormed(cookies[i'])
    {
      var cookie := cookies[i];
      if '=' !in cookie {
        if PairsWellFormed(cookie) {
          EqualsOccursInWellFormed(cookie);
        }
        return MalformedCookie;
      }
      var pairs := RegexSplit(cookie, PAIR_DELIMITER);
      for j := 0 to |pairs|
        invariant forall j' :: 0 <= j' < j ==> '=' in pairs[j']
      {
        if '=' !in pairs[j] {
          return MalformedCookie;
        }
      }
    }
    return Accepted;
  }

  /**
   * The whole-cookie test comes first in the validator but adds nothing: an
   * account whose every part contains `=` contains `=` itself.
   */
  lemma EqualsOccursInWellFormed(cookie: string)
    requires PairsWellFormed(cookie)
    ensures '=' in cookie
  {
    RegexSplitCharsOccur(cookie, PAIR_DELIMITER, 0, '=');
  }

  /** A bundle whose last character is `;` is rejected: its last part is empty. */
  lemma TrailingSemicolonRejected(bundle: string)
    requires |bundle| > 0 && bundle[|bundle| - 1] == ';'
    ensures !BundleWellFormed(bundle)
  {
    var cookies := SplitOn(bundle, ACCOUNT_SEPARATOR);
    var k := SplitOnFromLast(bundle, ACCOUNT_SEPARATOR, 0);
    assert k < |bundle|;
    var last := bundle[k..];
    assert last[|last| - 1] == ';';
    RegexSplitTrailingDelimiter(last, PAIR_DELIMITER);
    var pairs := RegexSplit(last, PAIR_DELIMITER);
    assert '=' !in pairs[|pairs| - 1];
    assert !PairsWellFormed(cookies[|cookies| - 1]);
  }

  /** The empty bundle is present but malformed: it splits into one empty account. */
  lemma EmptyBundleRejected()
    ensures !BundleWellFormed("")
  {
    assert IndexOf("", ACCOUNT_SEPARATOR, 0).None?;
    assert SplitOn("", ACCOUNT_SEPARATOR)[0] == "";
    assert RegexSplit("", PAIR_DELIMITER)[0] == "";
    assert !PairsWellFormed("");
  }

  // ---------------------------------------------------------------------------
  // rawCookie2JSON
  // ---------------------------------------------------------------------------

  datatype CookieEntry = CookieEntry(name: string, value: string, domain: string)

  /**
   * The record for one `name=value` part, split on `=` with the whitespace
   * around it: the first piece is the name, the remaining pieces joined with
   * `=` are the value.
   */
  function ToEntry(part: string): CookieEntry {
    var pair := RegexSplit(part, NAME_DELIMITER);
    CookieEntry(pair[0], Join(pair[1..], "="), COOKIE_DOMAIN)
  }

  /** The `reduce` over the parts: each step appends the record of one part to `pre`. */
  function AppendEntries(pre: seq<CookieEntry>, parts: seq<string>): seq<CookieEntry>
    decreases |parts|
  {
    if |parts| == 0 then pre else AppendEntries(pre + [ToEntry(parts[0])], parts[1..])
  }

  lemma {:induction false} AppendEntriesShape(pre: seq<CookieEntry>, parts: seq<string>)
    ensures |AppendEntries(pre, parts)| == |pre| + |parts|
    ensures AppendEntries(pre, parts)[..|pre|] == pre
    ensures forall i :: 0 <= i < |parts| ==> AppendEntries(pre, parts)[|pre| + i] == ToEntry(parts[i])
    decreases |parts|
  {
    if |parts| > 0 {
      var pre' := pre + [ToEntry(parts[0])];
      AppendEntriesShape(pre', parts[1..]);
      var r := AppendEntries(pre, parts);
      assert r == AppendEntries(pre', parts[1..]);
      assert r[..|pre'|] == pre';
      assert r[..|pre|] == r[..|pre'|][..|pre|];
      forall i | 0 <= i < |parts| ensures r[|pre| + i] == ToEntry(parts[i]) {
        if i == 0 {
          assert r[|pre|] == r[..|pre'|][|pre|];
        } else {
          assert r[|pre| + i] == r[|pre'| + (i - 1)];
          assert parts[i] == parts[1..][i - 1];
        }
      }
    }
  }

  /**
   * One account's cookie string as the list of cookie records: one per
   * `;`-part, in order, all for the service's domain.
   */
  function RawCookieToJson(cookie: string): (entries: seq<CookieEntry>)
    ensures |entries| == |RegexSplit(cookie, PAIR_DELIMITER)|
    ensures forall i :: 0 <= i < |entries| ==> entries[i] == ToEntry(RegexSplit(cookie, PAIR_DELIMITER)[i])
    ensures forall i :: 0 <= i < |entries| ==> entries[i].domain == COOKIE_DOMAIN
  {
    var parts := RegexSplit(cookie, PAIR_DELIMITER);
    AppendEntriesShape([], parts);
    AppendEntries([], parts)
  }

  /** A part without `=` becomes a cookie whose name is the whole part and whose value is empty. */
  lemma EntryWithoutEquals(part: string)
    requires '=' !in part
    ensures ToEntry(part).name == part && ToEntry(part).value == ""
  {
    forall j | 0 <= j < |part| ensures !OccursAt(part, "=", j) {
      OccursAtSingle(part, '=', j);
    }
    assert SplitOn(part, "=") == [part];
    RegexSplitIsTrimmedSplit(part, NAME_DELIMITER);
  }

  lemma FirstEquals(part: string, k: nat)
    requires k < |part| && part[k] == '=' && '=' !in part[..k]
    ensures SplitOn(part, "=") == [part[..k]] + SplitOnFrom(part, "=", k + 1)
  {
    SplitOnFromChar(part, '=', 0, k);
  }

  /**
   * With its first `=` at `k`, a part is named by the text before it, without
   * the whitespace in front of the `=`; the value is the remaining `=`-fields,
   * each without the whitespace next to an `=`, joined with `=`.
   */
  lemma EntryAtFirstEquals(part: string, k: nat)
    requires k < |part| && part[k] == '=' && '=' !in part[..k]
    ensures var fields := SplitOn(part, "=");
      && |fields| >= 2 && fields[0] == part[..k]
      && ToEntry(part).name == TrimEnd(part[..k])
      && ToEntry(part).value == Join(TrimFields(fields[1..], true), "=")
  {
    FirstEquals(part, k);
    var fields := SplitOn(part, "=");
    var rest := SplitOnFrom(part, "=", k + 1);
    assert fields[1..] == rest;
    RegexSplitIsTrimmedSplit(part, NAME_DELIMITER);
    TrimFieldsCons(part[..k], rest, false);
  }

  /**
   * The usual case, a single `=`: the name is the text before it and the value
   * the text after it, with the whitespace next to the `=` dropped.
   */
  lemma EntryAtOnlyEquals(part: string, k: nat)
    requires k < |part| && part[k] == '=' && '=' !in part[..k] && '=' !in part[k + 1..]
    ensures ToEntry(part).name == TrimEnd(part[..k])
    ensures ToEntry(part).value == TrimStart(part[k + 1..])
  {
    EntryAtFirstEquals(part, k);
    SplitOnFromNoChar(part, '=', k + 1);
    FirstEquals(part, k);
    assert SplitOn(part, "=")[1..] == [part[k + 1..]];
  }
}

module CookieExamples {
  import opened Wrappers
  import opened JsText
  import opened Splitting
  import opened Cookies

  // Some helpers below take the example string as a parameter `p` with
  // `requires p == "..."` rather than as a literal. Applied to a literal, the
  // recursive split functions are unfolded all the way by the verifier,
  // which is far more costly than the few steps the proof actually needs.

  /** Two accounts separated by `&&`. */
  lemma TwoAccountsSplit()
    ensures SplitOn("a=1&&c=2;d=3", ACCOUNT_SEPARATOR) == ["a=1", "c=2;d=3"]
  {
    var s := "a=1&&c=2;d=3";
    assert s[3..5] == ACCOUNT_SEPARATOR;
    IndexOfByFirstChar(s, ACCOUNT_SEPARATOR, 0, 3);
    IndexOfAbsent(s, ACCOUNT_SEPARATOR, 5);
    assert SplitOn(s, ACCOUNT_SEPARATOR) == [s[..3], s[5..]];
    assert s[..3] == "a=1" && s[5..] == "c=2;d=3";
  }

  /** Two accounts, the second with two pairs, every pair with its `=`. */
  lemma TwoAccountsAccepted()
    ensures BundleWellFormed("a=1&&c=2;d=3")
  {
    TwoAccountsSplit();
    FirstAccountWellFormed();
    SecondAccountWellFormed();
    WellFormedFromAccounts("a=1&&c=2;d=3", ["a=1", "c=2;d=3"]);
  }

  lemma FirstAccountWellFormed()
    ensures PairsWellFormed("a=1")
  {
    OnePair("a=1");
  }

  lemma SecondAccountWellFormed()
    ensures PairsWellFormed("c=2;d=3")
  {
    var c2 := "c=2;d=3";
    TwoPairs(c2, 3);
    assert c2[..3] == "c=2" && c2[4..] == "d=3";
  }

  lemma WellFormedFromAccounts(s: string, cookies: seq<string>)
    requires SplitOn(s, ACCOUNT_SEPARATOR) == cookies
    requires forall i :: 0 <= i < |cookies| ==> PairsWellFormed(cookies[i])
    ensures BundleWellFormed(s)
  {
  }

  lemma OnePair(c: string)
    requires ';' !in c && |c| > 0 && !IsWhiteSpace(c[0]) && !IsWhiteSpace(c[|c| - 1])
    ensures RegexSplit(c, PAIR_DELIMITER) == [c]
  {
    SplitOnFromNoChar(c, ';', 0);
    RegexSplitIsTrimmedSplit(c, PAIR_DELIMITER);
    TrimUnchanged(c, false, false);
  }

  lemma TwoPairs(c: string, k: nat)
    requires 0 < k < |c| - 1 && c[k] == ';' && ';' !in c[..k] && ';' !in c[k + 1..]
    requires !IsWhiteSpace(c[0]) && !IsWhiteSpace(c[k - 1])
    requires !IsWhiteSpace(c[k + 1]) && !IsWhiteSpace(c[|c| - 1])
    ensures RegexSplit(c, PAIR_DELIMITER) == [c[..k], c[k + 1..]]
  {
    SplitOnFromChar(c, ';', 0, k);
    SplitOnFromNoChar(c, ';', k + 1);
    RegexSplitIsTrimmedSplit(c, PAIR_DELIMITER);
    TrimUnchanged(c[..k], false, true);
    TrimUnchanged(c[k + 1..], true, false);
  }

  /** A pair without `=` after the first `;`. */
  lemma PairWithoutEqualsRejected()
    ensures !BundleWellFormed("a=1;b")
  {
    var b := "a=1;b";
    IndexOfAbsent(b, ACCOUNT_SEPARATOR, 0);
    assert SplitOn(b, ACCOUNT_SEPARATOR) == [b];
    TwoPairs(b, 3);
    assert b[4..] == "b";
    assert '=' !in RegexSplit(b, PAIR_DELIMITER)[1];
    assert !PairsWellFormed(SplitOn(b, ACCOUNT_SEPARATOR)[0]);
  }

  /** The value keeps every `=` after the first. */
  lemma ValueKeepsLaterEquals()
    ensures ToEntry("a=b=c") == CookieEntry("a", "b=c", COOKIE_DOMAIN)
  {
    EntryOfThreeFields("a=b=c");
  }

  lemma EntryOfThreeFields(p: string)
    requires p == "a=b=c"
    ensures ToEntry(p) == CookieEntry("a", "b=c", COOKIE_DOMAIN)
  {
    ThreeFieldsSplit(p);
    ThreeFieldsUnchanged(p, ["a", "b", "c"]);
    assert Join(["b", "c"], "=") == "b=c";
  }

  lemma ThreeFieldsSplit(p: string)
    requires p == "a=b=c"
    ensures SplitOn(p, "=") == ["a", "b", "c"]
  {
    SplitOnFromChar(p, '=', 0, 1);
    SplitOnFromChar(p, '=', 2, 3);
    SplitOnFromNoChar(p, '=', 4);
    assert p[..1] == "a" && p[2..3] == "b" && p[4..] == "c";
  }

  lemma ThreeFieldsUnchanged(p: string, fields: seq<string>)
    requires SplitOn(p, "=") == fields && |fields| == 3
    requires forall i :: 0 <= i < 3 ==> |fields[i]| == 1 && !IsWhiteSpace(fields[i][0])
    ensures RegexSplit(p, NAME_DELIMITER) == fields
  {
    RegexSplitIsTrimmedSplit(p, NAME_DELIMITER);
    TrimUnchanged(fields[0], false, true);
    TrimUnchanged(fields[1], true, true);
    TrimUnchanged(fields[2], true, false);
  }

  /** Whitespace around `=` is dropped. */
  lemma SpacesAroundEqualsDropped()
    ensures ToEntry("a = b") == CookieEntry("a", "b", COOKIE_DOMAIN)
  {
    var q := "a = b";
    EntryAtOnlyEquals(q, 2);
    assert q[..2] == "a " && TrimEnd("a ") == TrimEnd("a");
    assert q[3..] == " b" && TrimStart(" b") == TrimStart("b");
  }
}
