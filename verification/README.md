# Admin conversation viewer and admin guard, in Dafny

This project models the logic at the core of a small web application. The
application shows an operator the SMS, iMessage and email threads an AI
assistant has handled.

- **Admin viewer** (`admin-app/app.js`):
  - groups the message rows into conversations and sorts them newest first;
  - works out each thread's type;
  - reads the sender and subject out of an email thread's first row;
  - decides each message bubble's side and the text it shows, escaped for HTML;
  - labels dates relative to the current time;
  - handles the "AI replying" checkbox, which has an anti-spam cooldown;
  - guards the send-reply action.
- **Admin guard** (`netlify/functions/admin-guard.ts`): a serverless handler
  that puts a password login in front of the viewer. It covers the cookie
  parser, the url-encoded form parser, the session token and the `Set-Cookie`
  header it builds.
- **Phone field formatter** (`script.js`) of the landing page.

Everything is modelled as pure functions over immutable datatypes. Strings
are `seq<char>`. The effects the source performs become parameters:

- the current time is a parameter;
- the backend's replies are events;
- `encodeURIComponent`, `decodeURIComponent`, base64 and `JSON.parse` are an
  abstract record `Primitives.Foreign`.

The predicate `Primitives.Sound` states the few facts the proofs rely on:

- decoding undoes encoding;
- the encoder emits only URI-unreserved characters and `%`;
- text without `%` decodes to itself;
- `{}` parses to an object without a password.

Modules, leaf first:

- `Wrappers`: the option type.
- `Text`: the JavaScript string operations the code uses: `split`, `join`, `trim`, `startsWith`, `includes`, `indexOf`, `replace` and ASCII `toLowerCase`. `Split`, `IndexOf`, `IndexOfSub`, `TrimStart`, `TrimEnd` and `Trim` carry contracts that pin their results down. `Join`, `StartsWith`, `Contains`, `ReplaceFirst` and `AsciiLower` are short direct definitions, with lemmas for the properties the rest of the model uses.
- `Sorting`: the stable `Array.prototype.sort` with a numeric comparator, specified as a sorted, stable permutation.
- `Rows`: the row datatype, the per-thread filter, the `row_num` ordering and the thread-type rule.
- `Grouping`: `displayConversations`' `Map` and the list ordering.
- `Threads`: email header scan, bubbles, the thread view, list entries and `sendMessage`'s guard.
- `HtmlEscape`, `RelativeTime` and `AiToggle`: the remaining viewer functions.
- `Primitives` and `Records`: the `forEach`-into-an-object pattern both request parsers share.
- `Cookies`, `Forms`, `CookieHeader` and `AdminGuard`: the guard.
- `Phone`: the phone field formatter.

Two behaviours of the code that are easy to misread. The model follows the
code in both:

- **Email header.** The `forEach` in `admin-app/app.js:104-110` assigns on
  every matching line, so when a body has several `Email subject:` or
  `From address:` lines, the **last** one wins (`Threads.ScanHeaderField`).
- **Speaker prefixes.** A bubble other than the first shows its body
  unchanged, prefix included. A `Client: Hi` row therefore shows
  `Client: Hi`, not `Hi` (`Threads.SmsExample`).

## Model

| member | source | states |
|---|---|---|
| Text.Split | admin-app/app.js:100 | `split` on one character: at least one piece, no piece contains the separator, and joining the pieces with the separator gives the input back |
| Text.SplitJoin | admin-app/app.js:215-219 | splitting the join of separator-free pieces returns exactly those pieces (the inverse direction of `Split`) |
| Text.IndexOf | netlify/functions/admin-guard.ts:96 | `indexOf` of a character: -1 exactly when the character is absent, otherwise a position holding it with no earlier occurrence |
| Text.TrimStart | netlify/functions/admin-guard.ts:95 | the `\s*` after `;` is skipped: the result is a suffix, does not start with whitespace, and everything dropped is whitespace |
| Text.Trim | admin-app/app.js:288 | `trim()`: the input is the result with a whitespace run before it (exactly the run `TrimStart` drops) and a whitespace run after it, and the result neither starts nor ends with whitespace, so nothing inside it is touched |
| Text.TrimStartGap | netlify/functions/admin-guard.ts:95 | a whitespace run put in front of text that does not start with whitespace is exactly what `TrimStart` drops |
| Text.TrimIdempotent | admin-app/app.js:288 | trimming twice is trimming once |
| Text.AsciiLower | netlify/functions/admin-guard.ts:19 | `toLowerCase()` on ASCII: same length, upper-case letters map to lower case, every other character is kept |
| Text.IndexOfSub | admin-app/app.js:106 | `indexOf` of a string pattern: the first position where the pattern occurs, and -1 exactly when it occurs nowhere |
| Text.ReplaceLeadingPrefix | admin-app/app.js:106 | replacing a prefix the line starts with by the empty string leaves exactly the rest of the line |
| Sorting.Sort | admin-app/app.js:81 | the sort result is ordered by key, is a permutation of the input, and keeps the relative order of equal keys (stable) |
| Sorting.SortedStableUnique | admin-app/app.js:85 | two key-ordered sequences with the same elements per key, in the same order, are equal: a stable sort's output is fully determined |
| Sorting.SortedHeadIsMin | admin-app/app.js:257-258 | after sorting, the first element is one of the input and has the smallest key |
| Rows.WithIdExactly | admin-app/app.js:143 | the id filter keeps each row with the id as many times as it occurs and no row with another id |
| Rows.WithIdEmpty | admin-app/app.js:143-145 | the filter is empty exactly when no row has the id |
| Rows.WithIdNonEmpty | admin-app/app.js:254-255 | the filter on the id of an existing row is non-empty |
| Rows.WithIdMember | admin-app/app.js:143 | a row is in the filter exactly when it is a row of the input with the id |
| Rows.WithIdHasId | admin-app/app.js:143 | every filtered row has the id |
| Rows.ByRowNum | admin-app/app.js:148 | rows in ascending `row_num`, a permutation of the thread's rows |
| Rows.ByRowNumEnds | admin-app/app.js:85-87 | after sorting, the first row has the smallest and the last row the largest `row_num`, both rows of the thread |
| Rows.AnyOfType | admin-app/app.js:95 | `some(m => m.theType === t)` holds exactly when some row has that type |
| Rows.KindOf | admin-app/app.js:151-152 | a thread is email exactly when some row is email, iMessage exactly when none is email and some is iMessage, and SMS otherwise |
| Rows.KindOfPermutation | admin-app/app.js:121-123 | the thread type depends only on which rows there are, not their order |
| Grouping.GroupRows | admin-app/app.js:56-65 | the map the `forEach` builds: its keys are the ids that occur, each once, in order of first occurrence; each group holds exactly the rows of its id in arrival order; group sizes add up to the row count |
| Grouping.AddRowKeeps | admin-app/app.js:59-65 | one step of the `forEach` extends that partition from a prefix of the rows to one more row |
| Grouping.AddRowOrder | admin-app/app.js:61-62 | a new id is appended after all existing keys, so keys stay in order of first occurrence |
| Grouping.LatestTs | admin-app/app.js:74-79 | `Math.max` over the timestamps with unparseable ones as 0: an upper bound that some row attains |
| Grouping.Entries | admin-app/app.js:70-80 | one entry per map key, in key order, carrying the key, its rows and their latest timestamp |
| Grouping.ConversationListOrdered | admin-app/app.js:81 | the conversation list is ordered by latest timestamp, newest first |
| Grouping.ConversationListContents | admin-app/app.js:56-80 | each listed conversation holds exactly the rows of its id, at least one, and the latest timestamp among them |
| Grouping.ConversationListDistinct | admin-app/app.js:56-70 | no id is listed twice |
| Grouping.ConversationListCovers | admin-app/app.js:59-70 | every row's id is listed |
| Grouping.ConversationListSize | admin-app/app.js:59-81 | the conversations' sizes add up to the number of rows, so no row is lost or duplicated |
| Threads.PrefixesExclusive | admin-app/app.js:105-108 | no line starts with both header prefixes, so the `else if` never hides a field |
| Threads.ScanHeaderField | admin-app/app.js:100-110 | a header field is its placeholder when no line carries it and otherwise the trimmed rest of the last line that does |
| Threads.BodyLinesExactly | admin-app/app.js:215-219 | the line filter removes every header line and keeps every other line as often as it occurs; it keeps their order, since filtering a body cut in two anywhere is filtering the two parts |
| Threads.BodyLinesConcat | admin-app/app.js:215-219 | filtering a concatenation of lines is concatenating the filtered parts |
| Threads.BodyLinesPlain | admin-app/app.js:215-219 | a body without header lines is kept line for line |
| Threads.EmailContentPlain | admin-app/app.js:213-220 | the content of an email body without header lines is the trimmed body |
| Threads.RoleOf | admin-app/app.js:185-202 | a bubble is on the AI side exactly when it is not the first row and its body starts with `Jordan: ` or `Baba: ` |
| Threads.TagsExclusive | admin-app/app.js:185-187 | a body starting with `Client: ` starts with neither AI tag |
| Threads.ShowConversationExists | admin-app/app.js:143-145 | the thread view exists exactly when some row has the id |
| Threads.OpenThread | admin-app/app.js:141-169 | opening a thread records its id even when it has no rows; its type is recorded only when it has rows and is then the view's type, otherwise the previous type is kept |
| Threads.OpenThenSend | admin-app/app.js:141-307 | after a thread with rows is opened, a non-blank reply goes to that thread with the trimmed text and the thread's type, whatever was open before |
| Threads.OpenThenRefresh | admin-app/app.js:24-27 | refreshing an opened thread keeps it open and shows it built from the reloaded rows |
| Threads.CloseThenSend | admin-app/app.js:287-335 | after `showHomepage` clears both globals, no reply is sent |
| Threads.ShowConversationThread | admin-app/app.js:147-175 | the view has one bubble per row of the thread, in ascending row number; its type is the precedence rule on the thread's rows; the checkbox reflects the first row's `processed` |
| Threads.ShowConversationBubbles | admin-app/app.js:181-224 | a bubble of the smallest row number is on the user side and shows, escaped, the body without header lines, trimmed, in an email thread, and nothing in any other thread; a later row's bubble is on the AI side exactly for the `Jordan: ` and `Baba: ` tags and shows the escaped body; the `baba` tag appears exactly for `Baba: ` bodies |
| Threads.TwoRowSmsView | admin-app/app.js:141-171 | the view of a two-row SMS thread is titled with the id and lists both rows in row order |
| Threads.EmailExample | admin-app/app.js:152-224 | a one-row email thread whose body is a subject line, a sender line and the message is titled `sender — Subject: subject` and shows one bubble, on the user side, with the escaped message |
| Threads.EmailLines | admin-app/app.js:100-110 | such a body yields that sender and subject as its header and the message as its content |
| Threads.SmsExample | admin-app/app.js:185-224 | a buffer row and a `Client: Hi` row: SMS view titled with the id, a blank first bubble and a second bubble showing `Client: Hi`, both on the user side |
| Threads.ListItemsOfRows | admin-app/app.js:83-137 | the home page built from the rows has one entry per listed conversation, in list order; an entry is an email entry exactly when some row with its id is an email, and then shows the sender and subject of the thread's first row; otherwise it shows the id and the iMessage-over-SMS badge of the rows with that id; its date is the label of the thread's latest row |
| Threads.ListItemKind | admin-app/app.js:94-133 | an entry is an email entry exactly when some row is email; otherwise it shows the id and the iMessage-over-SMS badge |
| Threads.ListItemDate | admin-app/app.js:85-89 | an entry's date is empty exactly when the row with the largest row number has no valid timestamp |
| Threads.DateLabelCorrection | admin-app/app.js:85-89 | the list as written and the corrected list differ only in the date of a thread whose latest row is 360 to 364 days old, shown as `0y ago` as written and `12mo ago` corrected |
| Threads.SendGuard | admin-app/app.js:287-307 | a reply is sent exactly when the trimmed input is non-empty and a thread is open; it carries the thread id and the trimmed text; its type is `null` exactly when no type is set, and is `email`, `iMessage` or `sms` for the three thread types (`imessage` is sent as `iMessage`) |
| HtmlEscape.Escape | admin-app/app.js:339-348 | the output contains none of `<`, `>`, the double quote or the single quote, and every `&` in it begins one of the five references |
| HtmlEscape.UnescapeEscape | admin-app/app.js:339-348 | decoding the five references inverts the escape: no information is lost |
| HtmlEscape.EscapePlain | admin-app/app.js:339-348 | text without special characters is shown unchanged |
| HtmlEscape.EscapeConcat | admin-app/app.js:347 | the global replace works character by character: escaping distributes over concatenation |
| RelativeTime.Floors | admin-app/app.js:355-368 | the source's successive floor divisions equal single divisions by the unit lengths |
| RelativeTime.ClassifyAsWritten | admin-app/app.js:351-370 | the function as written agrees with the intended bucketing except for 360 to 364 days, where it gives 0 years |
| RelativeTime.ZeroYearsAsWritten | admin-app/app.js:366-369 | the as-written function gives 0 years exactly for differences from 360 up to 365 days |
| RelativeTime.ZeroYearsExample | admin-app/app.js:366-369 | a difference of exactly 360 days renders as `0y ago` |
| RelativeTime.FormatRelativeTime | admin-app/app.js:351-370 | the label as written is the intended label, except for 360 to 364 days, where it is `0y ago` |
| RelativeTime.FormatRelativeTimeCorrected | admin-app/app.js:351-370 | the corrected label is the rendering of the reference bucketing |
| RelativeTime.CorrectionAt | admin-app/app.js:364-369 | the two labels differ exactly for 360 to 364 days, where they read `0y ago` and `12mo ago` |
| RelativeTime.LabelOf | admin-app/app.js:88 | a date label is empty exactly when the row has no timestamp |
| RelativeTime.LabelCorrection | admin-app/app.js:88 | for a stamped row, the two date labels differ exactly when it is 360 to 364 days old |
| RelativeTime.Classify | admin-app/app.js:351-370 | the corrected step-by-step computation equals the reference bucketing |
| RelativeTime.Bucket | admin-app/app.js:354-369 | `just now` exactly below 5 seconds; otherwise the amount is the whole number of units elapsed, at least 1 |
| RelativeTime.NatToString | admin-app/app.js:357 | the decimal numeral of a template string: non-empty, digits only, and no leading zero unless the number is 0 |
| RelativeTime.NatToStringValue | admin-app/app.js:357 | the numeral's digits read back as the number, so together with `NatToString` it is the number's one decimal form without leading zeros |
| RelativeTime.ParseRender | admin-app/app.js:354-369 | the rendered label can be read back to the label it came from |
| RelativeTime.RenderInjective | admin-app/app.js:354-369 | different labels never render to the same text |
| AiToggle.HandleChange | admin-app/app.js:245-270 | a locked checkbox is left alone; otherwise it is locked, and an update is produced exactly when the open thread has rows; it targets that thread's smallest row number and carries `true` when ticked and `null` when not |
| AiToggle.OpenThenToggle | admin-app/app.js:141-258 | after a thread with rows is opened, a change of the unlocked checkbox sends an update for the thread's row with the smallest row number |
| AiToggle.FirstRow | admin-app/app.js:254-258 | the first row after sorting is a row of the thread with the smallest row number |
| AiToggle.HandleReply | admin-app/app.js:272-283 | a successful reply keeps the checkbox and any other outcome flips it back; the lock is untouched |
| AiToggle.Step | admin-app/app.js:245-284 | a click on an unlocked checkbox flips and locks it; only the cooldown timer unlocks it; updates are sent only on such clicks |
| AiToggle.AtMostOnePerCooldown | admin-app/app.js:246-252 | over any run of events, updates sent are at most the cooldown firings plus one, or plus none when the run starts locked |
| AiToggle.NoCooldownOneUpdate | admin-app/app.js:246-252 | without a cooldown firing, a run sends at most one update |
| AiToggle.ClickThenReply | admin-app/app.js:260-283 | after a click and the reply, the checkbox is back to its old state exactly when the update did not succeed; the update carries the clicked value |
| Records.FillThrows | netlify/functions/admin-guard.ts:94-99 | the `forEach` fails exactly when one piece throws |
| Records.FillKeys | netlify/functions/admin-guard.ts:94-99 | on success a key is present exactly when some piece assigns it |
| Records.FillLast | netlify/functions/admin-guard.ts:94-99 | the value of a key is the one the last piece assigning it gave |
| Cookies.CookieSegments | netlify/functions/admin-guard.ts:95 | `split(/;\s*/)`: the header is the segments joined by separators, each separator a `;` followed by a whitespace run; no segment holds `;`, and each run is as long as it can be, since the segment after it does not start with whitespace |
| Cookies.CookieSegmentsUnique | netlify/functions/admin-guard.ts:95 | that cut is unique: any segments and whitespace runs that make up the header this way are the ones `CookieSegments` gives |
| Cookies.CookiePair | netlify/functions/admin-guard.ts:96-97 | a segment is used exactly when it has an `=` after position 0; then it is the name, `=`, and the value, with no `=` in the name |
| Cookies.PairOfNameValue | netlify/functions/admin-guard.ts:96-97 | `name=value` with a non-empty `=`-free name splits back into that name and value |
| Cookies.CookiesFails | netlify/functions/admin-guard.ts:93-100 | parsing fails exactly when a used segment's value does not decode |
| Cookies.CookiesKeys | netlify/functions/admin-guard.ts:93-100 | a cookie name is present exactly when some used segment names it |
| Cookies.CookiesLast | netlify/functions/admin-guard.ts:93-100 | a cookie's value is the decoded value of the last segment naming it |
| CookieHeader.AttributesPlain | netlify/functions/admin-guard.ts:121-125 | the attributes hold no `;`, are non-empty and do not start with whitespace |
| CookieHeader.EncodedHasNoSeparator | netlify/functions/admin-guard.ts:120 | an encoded value never contains `;` |
| CookieHeader.EncodedPair | netlify/functions/admin-guard.ts:120 | the first attribute is parsed back as the name assigned the original value |
| CookieHeader.SinglePairRoundTrip | netlify/functions/admin-guard.ts:93-100 | a Cookie header with the single pair the browser sends back parses to exactly that name and value |
| CookieHeader.SegmentsOfJoin | netlify/functions/admin-guard.ts:127 | splitting a `; `-join of plain parts returns the parts |
| CookieHeader.HeaderSegments | netlify/functions/admin-guard.ts:117-128 | the built header splits into the name-value pair followed by the five attributes |
| CookieHeader.HeaderAssignments | netlify/functions/admin-guard.ts:117-128 | parsing the built header assigns the cookie, `Path`, `SameSite` and `Max-Age` and skips the two flags |
| CookieHeader.CookieRoundTrip | netlify/functions/admin-guard.ts:117-128 | parsing the built `Set-Cookie` header gives the cookie's value under its name, along with the attributes that have a value |
| CookieHeader.SessionCookieReturns | netlify/functions/admin-guard.ts:117-128 | the pair the browser sends back is the first attribute, and it parses to the cookie's value |
| CookieHeader.PathPiece | netlify/functions/admin-guard.ts:121 | the `Path=/admin` attribute is read as a `Path` assignment |
| CookieHeader.SameSitePiece | netlify/functions/admin-guard.ts:124 | the `SameSite=Strict` attribute is read as a `SameSite` assignment |
| CookieHeader.MaxAgePiece | netlify/functions/admin-guard.ts:125 | the `Max-Age=86400` attribute is read as a `Max-Age` assignment |
| CookieHeader.FlagPieces | netlify/functions/admin-guard.ts:122-123 | `HttpOnly` and `Secure` have no `=` and are skipped |
| Forms.KeyValue | netlify/functions/admin-guard.ts:106 | `const [k, v] = pair.split('=')`: without `=` the whole pair and an empty value; with `=` the text before the first `=` and the text up to the next `=` |
| Forms.KeyValueDropsRest | netlify/functions/admin-guard.ts:106 | text after a second `=` is dropped |
| Forms.FieldKeyValue | netlify/functions/admin-guard.ts:106 | `k=v` with no other `=` splits into `k` and `v` |
| Forms.PairAssignment | netlify/functions/admin-guard.ts:105-107 | exactly the empty pairs are skipped |
| Forms.FormFails | netlify/functions/admin-guard.ts:102-110 | parsing fails exactly when some non-empty pair's key or value does not decode |
| Forms.FormKeys | netlify/functions/admin-guard.ts:102-110 | a key is present exactly when some non-empty pair decodes to it |
| Forms.FormLast | netlify/functions/admin-guard.ts:102-110 | a key's value comes from the last pair with that key |
| Forms.ParseForm | netlify/functions/admin-guard.ts:102-110 | the corrected parser is the parser as written run on the body with every `+` read as a space, as form submissions encode spaces |
| Forms.FormPlus | netlify/functions/admin-guard.ts:104-107 | decoding each key and value with `+` as a space gives the same form as mapping `+` in the whole body first |
| Forms.SplitPlus | netlify/functions/admin-guard.ts:104-106 | splitting on `&` or `=` commutes with reading `+` as a space |
| Forms.SingleField | netlify/functions/admin-guard.ts:102-110 | a single `key=value` body gives the one-entry form of the decoded key and value, or fails when either fails to decode |
| Forms.FormRoundTrip | netlify/functions/admin-guard.ts:102-110 | a plain name and an encoded value parse back to that name and value, with or without `+` decoding |
| AdminGuard.OrDefault | netlify/functions/admin-guard.ts:14 | `x or the default`: the default exactly for a missing or empty value, otherwise the value itself |
| AdminGuard.Submitted | netlify/functions/admin-guard.ts:19-26 | a url-encoded request throws when its form does not decode, and otherwise submits the form's `password` field, or the empty text when the field is missing; a request that is neither url-encoded nor JSON submits the empty password |
| AdminGuard.JsonSubmitted | netlify/functions/admin-guard.ts:23-26 | for JSON: a syntax error submits the empty password, a `null` document throws, and any other document submits its password text |
| AdminGuard.FormSubmitted | netlify/functions/admin-guard.ts:21-26 | for a url-encoded body whose form holds just the password field, the submitted text is that field |
| AdminGuard.LoginRedirect | netlify/functions/admin-guard.ts:28-36 | a 302 to `/admin` with an empty body and exactly the `Location` and `Set-Cookie` headers |
| AdminGuard.Login | netlify/functions/admin-guard.ts:26-39 | a login redirects exactly when the submitted text equals the password; it fails with 500 exactly when computing the submission throws; otherwise it shows the login page with the error notice |
| AdminGuard.HandleWith | netlify/functions/admin-guard.ts:6-54 | the handler answers 200, 302, 405 or 500; every 200 is an HTML page with the no-store headers; every 302 is the login redirect with the configured password's token |
| AdminGuard.NotConfiguredRefuses | netlify/functions/admin-guard.ts:8-11 | without a configured password every request gets 500 `Admin not configured` |
| AdminGuard.OtherMethodsRefused | netlify/functions/admin-guard.ts:50 | methods other than GET and POST get 405 with `Allow: GET, POST` (or 500 when the cookies fail to decode) |
| AdminGuard.AppNeedsSession | netlify/functions/admin-guard.ts:13-48 | the app page is served exactly to a GET carrying the valid session cookie while a password is configured |
| AdminGuard.LoginNeedsPassword | netlify/functions/admin-guard.ts:17-37 | a session cookie is issued exactly to a POST whose submitted password is the configured one; it is never issued for an empty submission, and it carries that password's token |
| AdminGuard.PostIgnoresSession | netlify/functions/admin-guard.ts:17-40 | a POST's outcome does not depend on which decodable Cookie header it carries |
| AdminGuard.PostOutcome | netlify/functions/admin-guard.ts:26-39 | a POST is 500 when the submission throws, a redirect when it matches and the error login page otherwise |
| AdminGuard.SessionCookieName | netlify/functions/admin-guard.ts:4 | the session cookie's name is non-empty and free of `=` and `;` |
| AdminGuard.RedirectCookieReturns | netlify/functions/admin-guard.ts:31-34 | the cookie the redirect sets comes back as the session cookie holding the token |
| AdminGuard.LoginThenGet | netlify/functions/admin-guard.ts:26-45 | after a successful login, a GET carrying the cookie the redirect set is served the app |
| AdminGuard.GetWithoutCookie | netlify/functions/admin-guard.ts:43-47 | a GET without cookies gets the login page without the notice |
| AdminGuard.NoCookies | netlify/functions/admin-guard.ts:14 | a missing Cookie header parses to no cookies |
| AdminGuard.FormLogin | netlify/functions/admin-guard.ts:21-22 | a url-encoded `password=` field carrying the encoded password logs in |
| AdminGuard.JsonLogin | netlify/functions/admin-guard.ts:23-24 | a JSON body whose password is the configured one logs in |
| AdminGuard.JsonEdgeCases | netlify/functions/admin-guard.ts:24-26 | a JSON login without a body is refused with the notice; a `null` document gives 500 |
| AdminGuard.SpacedForms | netlify/functions/admin-guard.ts:106-107 | a browser-encoded password `a b` parses to `a+b` as written and to `a b` when `+` is read as a space |
| AdminGuard.SpacedPasswordAsWritten | netlify/functions/admin-guard.ts:102-110 | the as-written handler refuses the correct spaced password submitted from the login form; the corrected handler accepts it |
| Phone.DigitsCount | script.js:73 | `replace(/\D/g, '')`: every digit of the value occurs in the result as often as in the value, and no other character occurs |
| Phone.DigitsConcat | script.js:73 | the global replace works character by character, so the digits keep their order: the digits of a concatenation are the digits of its parts |
| Phone.DigitsOfDigits | script.js:73 | a value of digits only is unchanged |
| Phone.DigitsOfNoDigits | script.js:73 | a value without digits becomes empty |
| Phone.FirstMatchFrom | script.js:75 | the first position at which ten digits start, or -1 exactly when there is none |
| Phone.MatchAtStart | script.js:75 | when ten digits open the text, only those ten are rewritten |
| Phone.FormatPhone | script.js:72-77 | below ten digits the value is unchanged; otherwise it is the first ten digits as `(ddd) ddd-dddd` followed by the remaining digits |
| Phone.DigitsOfPattern | script.js:75 | the formatted ten digits contain exactly those digits |
| Phone.FormatKeepsDigits | script.js:72-77 | formatting keeps the digits, in order, and with ten or more digits adds exactly four characters |
| Phone.FormatIdempotent | script.js:72-77 | formatting an already formatted value changes nothing |

## Left out

- DOM work is not modelled: element creation, CSS classes other than the bubble side and `baba` tag, scrolling, view switching and `alert`. It is presentation with no logic of its own.
- `loadAllData` and the webhook `fetch` calls are left out because they are network I/O. The refresh button's reload is the parameter `reloaded` of `Threads.Refresh`. The backend's answer to an update is an event (`AiToggle.Reply`). The send request is modelled only up to the payload `sendMessage` posts, and the button's "Sending…"/"Success"/"Failure" texts are left out.
- Timers are left out. The 4000 ms cooldown is modelled as an event that unlocks the checkbox, and the send button's one-second reset is not modelled.
- Date parsing is left out. A row's timestamp is given already parsed, `None` when invalid, and the current time is a parameter of the date label.
- The bubble timestamp, rendered with `toLocaleString` in the America/Denver time zone, is left out (locale and time-zone data).
- The HTML of the login page and the app page (`renderLogin`, `ADMIN_APP_HTML`) is left out. Those pages are constant text and are represented by the `AdminGuard.Body` constructors.
- `encodeURIComponent`, `decodeURIComponent`, base64 and `JSON.parse` are left out because they are foreign code. They are abstract, and only the facts in `Primitives.Sound` are assumed.
- Text.AsciiLower: `toLowerCase` is modelled for ASCII letters only. The content types compared against are ASCII, but a non-ASCII header is lowered differently by the source.
- Form and cookie keys named `__proto__` are not modelled. Assigning one to a plain JavaScript object changes the prototype instead of adding a key.
- `row_num` values are modelled as integers, while the source compares whatever the backend sends. Non-numeric values would make its comparator return `NaN`.
- The `try`/`catch` around the whole handler is modelled only for the exceptions the modelled code can raise, namely a failed URI decode and `.password` on `null`.

## Findings

| source | as written | input that shows it | evidently intended | confidence | as-written member | corrected member |
|---|---|---|---|---|---|---|
| admin-app/app.js:366-369 | months are shown while `days / 30 < 12`, then years as `days / 365` | a date 360 days ago is labelled `0y ago` (every difference of 360 to 364 days gives 0 years) | months until a full year has passed, so a year label never shows 0 | high; not executed | RelativeTime.ZeroYearsExample | RelativeTime.Classify |
| netlify/functions/admin-guard.ts:102-110 | form values are decoded with `decodeURIComponent` only, so `+` stays `+` | the configured password `a b`, typed into the login form, is submitted by the browser as `password=a+b`; it parses to `a+b` and the login is refused | `+` in an `application/x-www-form-urlencoded` body decodes to a space, so the correct password logs in | high; not executed | AdminGuard.SpacedPasswordAsWritten | Forms.ParseForm |
