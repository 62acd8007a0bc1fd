/**
 * The three redaction rules, each one `String.prototype.replace` with an
 * anchored regular expression of three groups and a callback that keeps the
 * first and third group and turns every character of the second into `*`:
 *
 *   email   ^(.)(.*)(.@.*)$
 *   phone   ^(.)(.*)(.)$
 *   token   ^(.{1,4})(.*)(.{4,})$
 *
 * None of them has the `s` or `m` flag, so `.` matches any character but a
 * line terminator and `^`/`$` are the ends of the whole string. Group
 * boundaries are described by the predicates EmailGroups, PhoneGroups and
 * TokenGroups; the backtracking order of the greedy quantifiers picks the
 * boundaries that are largest, the first group before the second. Each
 * closed-form Mask function is proved to produce exactly that replacement.
 */
module Masking {
  import opened JsText

  /** `.` matches every character of `s`. */
  predicate AllDots(s: string) {
    forall i :: 0 <= i < |s| ==> !IsLineTerminator(s[i])
  }

  /** Printable ASCII text has no line terminator. */
  lemma PrintableAreDots(s: string)
    requires forall i :: 0 <= i < |s| ==> ' ' <= s[i] <= '~'
    ensures AllDots(s)
  {
  }

  /** `b.replace(/./g, '*')`: every character `.` matches becomes `*`. */
  function StarDots(b: string): (r: string)
    decreases |b|
    ensures |r| == |b|
    ensures forall k :: 0 <= k < |b| ==> r[k] == if IsLineTerminator(b[k]) then b[k] else '*'
  {
    if |b| == 0 then "" else [if IsLineTerminator(b[0]) then b[0] else '*'] + StarDots(b[1..])
  }

  /** The callback `(_, a, b, c) => a + b.replace(/./g, '*') + c` for groups s[..i], s[i..j], s[j..]. */
  function Splice(s: string, i: nat, j: nat): (r: string)
    requires i <= j <= |s|
    ensures |r| == |s|
    ensures forall k :: 0 <= k < |s| ==> r[k] == if i <= k < j && !IsLineTerminator(s[k]) then '*' else s[k]
  {
    s[..i] + StarDots(s[i..j]) + s[j..]
  }

  lemma SpliceEmpty(s: string, i: nat)
    requires i <= |s|
    ensures Splice(s, i, i) == s
  {
    assert s[..i] + s[i..] == s;
  }

  // ---------------------------------------------------------------------------
  // Email: ^(.)(.*)(.@.*)$
  // ---------------------------------------------------------------------------

  /** The groups s[..1], s[1..j], s[j..] match: the third is one character, `@`, and the rest. */
  predicate EmailGroups(s: string, j: nat) {
    AllDots(s) && 1 <= j && j + 1 < |s| && s[j + 1] == '@'
  }

  /** The last position before `k` that holds `@`, or -1. */
  function LastAt(s: string, k: nat): (r: int)
    requires k <= |s|
    ensures -1 <= r < k
    ensures r >= 0 ==> s[r] == '@'
    ensures forall i :: r < i < k ==> s[i] != '@'
  {
    if k == 0 then -1 else if s[k - 1] == '@' then k - 1 else LastAt(s, k - 1)
  }

  /**
   * The displayed form of an email: when the last `@` stands at index 2 or
   * later, everything between the first character and the character just
   * before that `@` becomes `*`; otherwise the email is shown as it is.
   */
  function MaskEmail(email: string): (masked: string)
    ensures |masked| == |email|
    ensures forall i :: 0 <= i < |email| ==> masked[i] == email[i] || masked[i] == '*'
  {
    var at := LastAt(email, |email|);
    if AllDots(email) && at >= 2 then Splice(email, 1, at - 1) else email
  }

  /** The replacement is the one for the largest second group that lets the rest match. */
  lemma MaskEmailIsGreedyMatch(s: string, j: nat)
    requires EmailGroups(s, j)
    requires forall j': nat :: EmailGroups(s, j') ==> j' <= j
    ensures MaskEmail(s) == Splice(s, 1, j)
  {
    var at := LastAt(s, |s|);
    assert at >= j + 1;
    assert EmailGroups(s, at - 1);
  }

  /** Without any way to match, the email is left as it is. */
  lemma MaskEmailWithoutMatch(s: string)
    requires forall j :: !EmailGroups(s, j)
    ensures MaskEmail(s) == s
  {
    var at := LastAt(s, |s|);
    if AllDots(s) && at >= 2 {
      assert EmailGroups(s, at - 1);
    }
  }

  /**
   * With its last `@` at `k >= 2`, the email keeps its first character and
   * everything from index `k - 1` on, and stars what lies between.
   */
  lemma MaskEmailKeeps(s: string, k: nat)
    requires AllDots(s) && 2 <= k < |s| && s[k] == '@'
    requires forall i :: k < i < |s| ==> s[i] != '@'
    ensures MaskEmail(s)[0] == s[0]
    ensures forall i :: 1 <= i < k - 1 ==> MaskEmail(s)[i] == '*'
    ensures MaskEmail(s)[k - 1..] == s[k - 1..]
  {
    assert LastAt(s, |s|) == k;
  }

  /** An email with a line terminator, or without an `@` at index 2 or later, is shown as it is. */
  lemma MaskEmailUnchanged(s: string)
    requires !AllDots(s) || forall k :: 2 <= k < |s| ==> s[k] != '@'
    ensures MaskEmail(s) == s
  {
  }

  // ---------------------------------------------------------------------------
  // Phone: ^(.)(.*)(.)$
  // ---------------------------------------------------------------------------

  /** The groups s[..1], s[1..j], s[j..] match: the first and third are one character each. */
  predicate PhoneGroups(s: string, j: nat) {
    AllDots(s) && 1 <= j && j + 1 == |s|
  }

  /** The displayed form of a phone number: first and last character kept, the rest starred. */
  function MaskPhone(phone: string): (masked: string)
    ensures |masked| == |phone|
    ensures forall i :: 0 <= i < |phone| ==> masked[i] == phone[i] || masked[i] == '*'
  {
    if AllDots(phone) && |phone| >= 2 then Splice(phone, 1, |phone| - 1) else phone
  }

  /** There is at most one way to match, and the replacement is the one for it. */
  lemma MaskPhoneIsMatch(s: string, j: nat)
    requires PhoneGroups(s, j)
    ensures forall j' :: PhoneGroups(s, j') ==> j' == j
    ensures MaskPhone(s) == Splice(s, 1, j)
  {
  }

  /** Without a match (a line terminator, or fewer than two characters) the number is left as it is. */
  lemma MaskPhoneWithoutMatch(s: string)
    requires forall j :: !PhoneGroups(s, j)
    ensures MaskPhone(s) == s
  {
    if AllDots(s) && |s| >= 2 {
      assert PhoneGroups(s, |s| - 1);
    }
  }

  /** A number of two or more characters keeps its first and last and stars the rest. */
  lemma MaskPhoneKeeps(s: string)
    requires AllDots(s) && |s| >= 2
    ensures MaskPhone(s)[0] == s[0] && MaskPhone(s)[|s| - 1] == s[|s| - 1]
    ensures forall i :: 1 <= i < |s| - 1 ==> MaskPhone(s)[i] == '*'
  {
  }

  // ---------------------------------------------------------------------------
  // Token: ^(.{1,4})(.*)(.{4,})$
  // ---------------------------------------------------------------------------

  /** The groups s[..i], s[i..j], s[j..] match: one to four characters, any, at least four. */
  predicate TokenGroups(s: string, i: nat, j: nat) {
    AllDots(s) && 1 <= i <= 4 && i <= j && j + 4 <= |s|
  }

  /**
   * The token as it appears in the log: longer than eight characters, it
   * keeps its first four and last four and stars the rest; otherwise it is
   * shown whole.
   */
  function MaskToken(token: string): (masked: string)
    ensures |masked| == |token|
    ensures |token| <= 8 ==> masked == token
  {
    if AllDots(token) && |token| > 8 then Splice(token, 4, |token| - 4) else token
  }

  /**
   * The replacement is the one for the largest first group, and then the
   * largest second group, that let the rest match.
   */
  lemma MaskTokenIsGreedyMatch(s: string, i: nat, j: nat)
    requires TokenGroups(s, i, j)
    requires forall i': nat, j': nat :: TokenGroups(s, i', j') ==> i' < i || (i' == i && j' <= j)
    ensures MaskToken(s) == Splice(s, i, j)
  {
    if |s| >= 8 {
      assert TokenGroups(s, 4, |s| - 4);
      if |s| == 8 {
        SpliceEmpty(s, 4);
      }
    } else {
      assert TokenGroups(s, |s| - 4, |s| - 4);
      SpliceEmpty(s, i);
    }
  }

  /** Without a match (a line terminator, or fewer than five characters) the token is left as it is. */
  lemma MaskTokenWithoutMatch(s: string)
    requires forall i, j :: !TokenGroups(s, i, j)
    ensures MaskToken(s) == s
  {
    if AllDots(s) && |s| > 8 {
      assert TokenGroups(s, 4, |s| - 4);
    }
  }

  /** A token longer than eight characters keeps its first and last four and stars the rest. */
  lemma MaskTokenKeeps(s: string)
    requires AllDots(s) && |s| > 8
    ensures MaskToken(s)[..4] == s[..4]
    ensures MaskToken(s)[|s| - 4..] == s[|s| - 4..]
    ensures forall i :: 4 <= i < |s| - 4 ==> MaskToken(s)[i] == '*'
  {
  }
}

module MaskingExamples {
  import opened JsText
  import opened Masking

  lemma LongLocalPartMasked()
    ensures MaskEmail("abcd@x.com") == "a**d@x.com"
  {
    var e := "abcd@x.com";
    PrintableAreDots(e);
    MaskEmailKeeps(e, 4);
    var m := MaskEmail(e);
    assert m[3..] == e[3..];
    assert m == [m[0], m[1], m[2]] + m[3..];
  }

  /** The character before the last `@` is kept: a two-character local part is shown whole. */
  lemma ShortLocalPartShown()
    ensures MaskEmail("ab@example.com") == "ab@example.com"
  {
    var f := "ab@example.com";
    PrintableAreDots(f);
    MaskEmailKeeps(f, 2);
    var n := MaskEmail(f);
    assert n == [n[0]] + n[1..];
  }

  lemma PhoneExample()
    ensures MaskPhone("12345678901") == "1*********1"
  {
    var p := "12345678901";
    PrintableAreDots(p);
    MaskPhoneKeeps(p);
  }

  lemma TokenExamples()
    ensures MaskToken("0123456789") == "0123**6789"
    ensures MaskToken("01234567") == "01234567"
  {
    var t := "0123456789";
    PrintableAreDots(t);
    MaskTokenKeeps(t);
    var m := MaskToken(t);
    assert m == m[..4] + m[4..6] + m[6..];
  }
}
