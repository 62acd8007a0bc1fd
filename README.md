# GLaDOS daily check-in: verified model of the core

The script takes a bundle of cookie strings, one per account and joined by `&&`, and checks it.
For each account it then logs in to the GLaDOS site in a headless browser.
There it calls the check-in and status endpoints and records the outcome in a small per-account report.
Email addresses, phone numbers and the push-service token are masked before they are shown or logged.

This project models the parts of `globalfree.js` that compute something:

- the bundle validator `checkCOOKIES`;
- the cookie-string decomposer `rawCookie2JSON`;
- the report builder that runs inside the page, with its three regular-expression masks;
- the push-service payload and its logged, masked copy.

Modules:

- `JsText`: the character classes `\s` and `.`, `Array.prototype.join`, and the decimal text of a number.
- `Splitting`:
  - `String.prototype.split` with a string separator, written as the ECMAScript algorithm.
  - `split(/\s*d\s*/)` for a single non-space delimiter, written as the splitter loop of `RegExp.prototype[Symbol.split]`.
  - The main result: the regex split equals a plain split on `d`, with the whitespace next to each `d` trimmed from the pieces.
- `Cookies`: `checkCOOKIES` as an imperative method with its two nested loops and early returns, and `rawCookie2JSON` as the `reduce` it is.
- `Masking`:
  - The email, phone and token masks as closed forms.
  - Each mask is proved equal to the replacement that the anchored, greedy regular expression performs, or to the identity when it does not match.
- `Extract`: the report builder as a method that sets one key after another, plus the account label and the failure reason it uses.
- `PushPlus`: the request record and the record that is logged.
- `CookieExamples` and `MaskingExamples`: concrete inputs worked through to their results.

The two HTTP requests are parameters of `Extract.ExtractReport`, given as their outcomes.
An outcome is either a network failure, which the script's `catch` turns into `{ reason: '网络错误' }`, or a response with a status code and the parsed body.
`res.ok` is derived from the status, in the range 200 to 299, as the Fetch standard defines it.
A Dafny `char` stands for one UTF-16 code unit of a JavaScript string.

Three behaviours of the code are easy to misread. The model follows the code in each:

- The email mask keeps the character just before the last `@`. So `ab@example.com` is shown unchanged, and `abcd@x.com` becomes `a**d@x.com`.
- The report always has two keys or four, never one or three. One comes from the check-in request and one or three from the status request.
- A push token of eight characters or fewer appears in the log unmasked.

## Model

| member | source | states |
|---|---|---|
| Cookies.CheckCookies | globalfree.js:16-40 | The result is MissingCookies exactly when the variable is unset. It is Accepted exactly when every `&&`-account has only `;`-parts that contain `=`. Any other bundle is MalformedCookie. |
| Cookies.EqualsOccursInWellFormed | globalfree.js:25-35 | The whole-account `=` test adds nothing: an account whose every part contains `=` contains `=`. |
| Cookies.EmptyBundleRejected | globalfree.js:17-28 | An empty but present bundle is one empty account, so it is rejected. |
| Cookies.TrailingSemicolonRejected | globalfree.js:30-35 | A bundle ending in `;` is rejected, because its last part is empty. |
| Splitting.SplitOn | globalfree.js:17 | `split('&&')` as the ECMAScript algorithm: the split loop started at 0. The `split('&&')` at line 175 is the same call. |
| Splitting.SplitOnFrom | globalfree.js:17 | The split loop from a position: the text up to the next separator, then the rest of the split after it. |
| Splitting.IndexOf | globalfree.js:17 | The result is the first occurrence of the separator at or after the start, or none if there is no occurrence. |
| Splitting.SplitOnJoin | globalfree.js:17 | Joining the `&&`-pieces with `&&` gives back the original string. |
| Splitting.SplitOnPiecesFree | globalfree.js:17 | No piece of the split contains the separator. |
| Splitting.SplitOnFromLast | globalfree.js:17 | The last piece is a suffix of the string, and either it starts the string or a separator comes just before it. |
| JsText.IsWhiteSpace | globalfree.js:30-44 | `\s`: ECMAScript WhiteSpace, that is TAB, VT, FF, SP, NBSP, ZWNBSP (U+FEFF) and the other Zs space separators, plus LineTerminator. |
| JsText.IsLineTerminator | globalfree.js:121-127 | The characters `.` does not match without the `s` flag: LF, CR, U+2028 and U+2029. The same holds at line 151. |
| Splitting.SkipWhiteSpace | globalfree.js:30 | The result is the end of the `\s` run that starts at the given position. |
| Splitting.MatchAt | globalfree.js:30 | A match of `\s*d\s*` at a position ends past that position. It ends where the trailing whitespace ends, so the next character is not `\s`. |
| Splitting.MatchAtIsStickyMatch | globalfree.js:30 | There is a match at a position exactly when `d` follows the whitespace run there. The matched text is whitespace, one `d`, then whitespace. |
| Splitting.SplitFrom | globalfree.js:30 | The splitter loop of `RegExp.prototype[Symbol.split]`: `p` starts the current piece and `q` is the next match attempt. A failed attempt moves `q` on by one. A match closes the piece and restarts both at the match end. Always at least one piece. |
| Splitting.RegexSplit | globalfree.js:30 | `split(/\s*;\s*/)` at lines 30 and 43, and `split(/\s*=\s*/)` at line 44: the splitter loop started at 0. |
| Splitting.RegexSplitIsTrimmedSplit | globalfree.js:30 | `split(/\s*d\s*/)` equals a plain split on `d`, with trailing whitespace trimmed from every piece but the last and leading whitespace from every piece but the first. |
| Splitting.TrimFields | globalfree.js:30 | Trims each piece on the sides next to a delimiter and on no other side. |
| Splitting.RegexSplitCharsOccur | globalfree.js:30 | Every character of a piece occurs in the split string. |
| Splitting.RegexSplitTrailingDelimiter | globalfree.js:30 | A string ending in the delimiter has an empty last piece. |
| Cookies.ToEntry | globalfree.js:44-46 | The `reduce` callback's record: `pair[0]` as the name, `pair.splice(1).join('=')` as the value, domain `glados.rocks`. |
| Cookies.AppendEntries | globalfree.js:43-55 | The `reduce` with `[...pre, record]`, started from `[]`. |
| JsText.Join | globalfree.js:46 | `join('=')`: an empty array gives `""`, one element gives itself, otherwise the elements with the separator between them. |
| Cookies.AppendEntriesShape | globalfree.js:43-55 | The `reduce` keeps the records it started with, followed by one record per part, in order. |
| Cookies.RawCookieToJson | globalfree.js:42-56 | Gives one record per `;`-part, in order, each built from its part, all for domain `glados.rocks`. |
| Cookies.EntryWithoutEquals | globalfree.js:44-46 | A part without `=` gives a cookie named by the whole part, with an empty value. |
| Cookies.EntryAtFirstEquals | globalfree.js:44-46 | The name is the text before the first `=`, with trailing whitespace removed. The value is the later `=`-fields, with the whitespace next to each `=` trimmed, rejoined with `=`. |
| Cookies.EntryAtOnlyEquals | globalfree.js:44-46 | With a single `=`, the name and the value are the text on either side of it, with the whitespace next to the `=` removed. |
| CookieExamples.TwoAccountsSplit | globalfree.js:17 | `a=1&&c=2;d=3` splits into the accounts `a=1` and `c=2;d=3`. |
| CookieExamples.TwoAccountsAccepted | globalfree.js:16-40 | The bundle `a=1&&c=2;d=3` is well formed. |
| CookieExamples.PairWithoutEqualsRejected | globalfree.js:30-35 | The bundle `a=1;b` is malformed. |
| CookieExamples.ValueKeepsLaterEquals | globalfree.js:44-46 | The part `a=b=c` gives the name `a` and the value `b=c`. |
| CookieExamples.SpacesAroundEqualsDropped | globalfree.js:44-46 | The part `a = b` gives the name `a` and the value `b`. |
| Masking.AllDots | globalfree.js:121-127 | No line terminator anywhere, so an anchored `^…$` pattern built from `.` can span the whole string. The same holds at line 151. |
| Masking.StarDots | globalfree.js:122 | Same length as the input; every character `.` matches becomes `*`, and line terminators stay. |
| Masking.Splice | globalfree.js:121-127 | The match callback keeps everything outside the second group and stars that group. |
| Masking.EmailGroups | globalfree.js:121 | The group boundaries with which `^(.)(.*)(.@.*)$` matches: no line terminator, one character, then a second group ending just before some character that is followed by `@`. |
| Masking.MaskEmail | globalfree.js:121-123 | The length is kept, and every character is either the original or `*`. |
| Masking.MaskEmailIsGreedyMatch | globalfree.js:121-123 | The result is the replacement for the longest second group that lets `(.@.*)` match. |
| Masking.MaskEmailWithoutMatch | globalfree.js:121-123 | With no match, the email is unchanged. |
| Masking.MaskEmailKeeps | globalfree.js:121-123 | When the last `@` is at index k ≥ 2, the first character and everything from index k-1 on are kept, and everything between is starred. |
| Masking.MaskEmailUnchanged | globalfree.js:121-123 | An email with a line terminator, or with no `@` at index 2 or later, is unchanged. |
| Masking.PhoneGroups | globalfree.js:125 | The group boundaries with which `^(.)(.*)(.)$` matches: no line terminator, and a second group from index 1 up to the last character. |
| Masking.MaskPhone | globalfree.js:125-127 | The length is kept, and every character is either the original or `*`. |
| Masking.MaskPhoneIsMatch | globalfree.js:125-127 | The match is unique, and the result is its replacement. |
| Masking.MaskPhoneWithoutMatch | globalfree.js:125-127 | With no match, the number is unchanged. |
| Masking.MaskPhoneKeeps | globalfree.js:125-127 | The first and last characters are kept, and everything between is starred. |
| Masking.TokenGroups | globalfree.js:151 | The group boundaries with which `^(.{1,4})(.*)(.{4,})$` matches: no line terminator, a first group of 1 to 4 characters, and at least 4 characters after the second group. |
| Masking.MaskToken | globalfree.js:151 | The length is kept, and a token of eight characters or fewer is unchanged. |
| Masking.MaskTokenIsGreedyMatch | globalfree.js:151 | The result is the replacement for the lexicographically largest pair of group boundaries that matches. |
| Masking.MaskTokenWithoutMatch | globalfree.js:151 | With no match, the token is unchanged. |
| Masking.MaskTokenKeeps | globalfree.js:151 | A token longer than eight characters keeps its first four and last four characters, and everything between is starred. |
| MaskingExamples.LongLocalPartMasked | globalfree.js:121-123 | `abcd@x.com` is shown as `a**d@x.com`. |
| MaskingExamples.ShortLocalPartShown | globalfree.js:121-123 | `ab@example.com` is shown unchanged. |
| MaskingExamples.PhoneExample | globalfree.js:125-127 | `12345678901` becomes `1*********1`. |
| MaskingExamples.TokenExamples | globalfree.js:151 | A 10-character token shows its four-character ends, and an 8-character token is shown whole. |
| Extract.InfoDistinct | globalfree.js:7-14 | The six INFO labels are pairwise distinct. |
| Extract.Ok | globalfree.js:101-112 | `res.ok`: a response with status 200 to 299. The object substituted for a network failure has no `ok`, so it never counts as ok. |
| Extract.FailureReason | globalfree.js:101-115 | A network failure gives `网络错误`. A response gives `状态码：` followed by one or more digits, with no leading zero, that read back as its status. |
| Extract.FailureReasonIsDecimal | globalfree.js:101-115 | Any text that meets `FailureReason`'s contract for a response is exactly `状态码：` followed by the decimal text of the status, so that contract fixes the template literal's output. |
| Extract.FailureReasonIdentifiesOutcome | globalfree.js:101-115 | Equal reasons mean the same kind of failure and the same status code. |
| Extract.DataOrEmpty | globalfree.js:118 | The `= {}` default: a body without `data` reads every property as undefined. |
| Extract.Truthy | globalfree.js:120-124 | `if (email)` and `if (phone)`: the property is present and not the empty string. |
| Extract.AccountLabel | globalfree.js:119-128 | A non-empty email gives its masked form. Otherwise a non-empty phone number gives its masked form. Otherwise the label is `未知账号`. A masked form has the identity's length and shows each character or `*`. |
| Extract.EmailWinsOverPhone | globalfree.js:120-128 | The email takes precedence, and an empty email falls through to the phone number. |
| Extract.MissingDataIsUnknown | globalfree.js:118-130 | A body without `data` gives `未知账号`, and both figures are computed from undefined. |
| Extract.MessageValue | globalfree.js:107-108 | The stored message is the body's `message`, or undefined if it has none. |
| Extract.ExtractReport | globalfree.js:98-134 | The check-in failure key is present exactly when check-in was not ok, and the message key exactly when it was. The status failure key is present exactly when status was not ok, and the account, days and traffic keys exactly when it was. The values are the reason, the message, the account label and the raw figures. There are 2 keys, or 4 when status was ok. |
| JsText.Decimal | globalfree.js:101-115 | The template-literal text of a status is one or more digits, with no leading zero. |
| JsText.DecimalRoundTrip | globalfree.js:101-115 | Reading the decimal text back gives the number. |
| JsText.DecimalCanonical | globalfree.js:101-115 | A non-empty digit string with no leading zero is the decimal text of the number it reads as. |
| JsText.DecimalInjective | globalfree.js:101-115 | Distinct statuses have distinct texts. |
| PushPlus.PushPayload | globalfree.js:143-148 | The record carries the given token and content, title `GLaDOS签到` and template `json`. |
| PushPlus.LoggedPushData | globalfree.js:149-152 | The logged copy differs from the record only in its token. That token has the same length, and is unchanged when it is short. |
| PushPlus.LoggedTokenRedacted | globalfree.js:143-152 | The record sent keeps the whole token. The log shows only its first and last four characters. |

## Left out

- Launching the browser, setting cookies on the page, navigating and closing (globalfree.js:59-76, 137): browser I/O. `RawCookieToJson` produces the records that are passed to it.
- The two `fetch` requests and `res.json()`: network I/O. Their outcomes are parameters of `Extract.ExtractReport`. A rejected `json()` promise and a body that is not an object are not modelled.
- The type errors the code would throw, for example when `data` is `null` or when `email` is a truthy non-string. Every property is modelled as an optional string.
- `parseInt(leftDays)` and the traffic figure `(parseInt(traffic)/1024/1024/1024).toFixed(2) + " GB"`: floating point. They are kept as `ParsedInt` and `Gigabytes` values that carry the raw property.
- `Extract.ExtractReport`: it records `undefined` for a missing `message` as a stored `Undefined` value. How `JSON.stringify` later drops such keys is not modelled.
- `Extract.ExtractReport`: the report is a `map`, so the key order of the JavaScript object is not modelled. That order is check-in key first, then the status keys in the order set. Only the log and `JSON.stringify` would show it.
- `JSON.stringify(infos)` for the push content: the content is an opaque string in `PushPlus.PushPayload`.
- The `axios` POST to the push service and its error classification (globalfree.js:154-169): network I/O.
- `GLaDOSCheckIn`: reading `process.env`, the concurrent `Promise.all` over the accounts, the logging, and the commented-out push (globalfree.js:172-195). These are orchestration and I/O.
- All `console` output: the verdicts of `Cookies.CheckCookies` stand for the two error messages.
- Characters outside the Basic Multilingual Plane: JavaScript counts them as two code units, so `.` and the masks treat them differently than a Dafny `char`.
