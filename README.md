# Hash router and helpers of a single-page invoicing app, in Dafny

This project models the client-side core of a small Persian invoicing web app:

- **The hash router** (`routes.js`):
  - the table from path patterns to pages;
  - `matchRoute`, which resolves a path against the table in declaration order, binding `:name` segments;
  - `getCurrentRoute`;
  - `handleRoute` and `navigateTo`, which apply the sign-in policy and hand the page to the page loader;
  - the exported `isAuthenticated` / `setAuthenticated` pair with its persisted copy.
- **Helpers** (`utils.js`):
  - `toPersianNumber` / `toEnglishNumber`, the digit transliterators;
  - `gregorianToJalali`, the calendar conversion;
  - the validators `validateEmail` and `validatePhone`.

Modules:

- **`Wrappers`** (`wrappers.dfy`): `Option`.
- **`Routes`** (`routes.dfy`):
  - `Split` and `Join`, which are `String.prototype.split` / `Array.prototype.join` on one separator;
  - the route table;
  - the matcher, as a specification function (`MatchIn`) and as the source's loop (`MatchRoute`, `MatchParts`);
  - facts about the table.
- **`Navigation`** (`navigation.dfy`):
  - the policy (`Decide`) and the outcome of handling a fragment (`Settle`);
  - the class `Router`, which holds the module state (`currentPage`, the authentication flag, its stored copy, the fragment and the list of page loads) and the methods that change it.
- **`Numerals`** (`numerals.dfy`): the digit maps.
- **`Jalali`** (`jalali.dfy`): `gregorianToJalali`, with `Quot`/`Rem` for JavaScript's truncating `parseInt(a / b)` and sign-of-dividend `%`.
- **`Validators`** (`validators.dfy`): the two regular expressions, written as string predicates.

Each route stores its pattern as a list of segments, and `Pattern` joins them with '/'. `MatchRoute` splits the pattern string at run time, as the source does. `PatternSplits` proves that this split gives back the stored segments.

Matching has one edge case. The path `/invoices/:id` is equal to the detail pattern, so the literal comparison accepts it before any segment is compared, and `id` is not bound. Any other `/invoices/X`, where X is not `new` and X contains no '/', binds `id` to X.

## Model

| member | source | states |
|---|---|---|
| Routes.Table | routes.js:6-23 | the sixteen entries in declaration order, each pattern kept as its '/'-separated segments; `AllTableEntriesWellFormed`, `TablePatternsDistinct` and `TableDepth` state its properties |
| Routes.NotFound | routes.js:64 | the fallback `{ page: 'home', params: {} }`; no contract of its own, and `NoneAcceptingFallsBack` and `DeepPathFallsBack` state when it is returned |
| Routes.Split | routes.js:42-43 | `split('/')`: never an empty list; `SplitPieces`, `JoinSplit` and `SplitJoin` state the rest |
| Routes.Join | routes.js:6-23 | rebuilds each table key from its stored segments, through `Pattern`; no contract of its own, and `JoinSplit` and `SplitJoin` prove it the inverse of `Split` |
| Routes.SplitPieces | routes.js:42-43 | `split('/')` yields one piece more than there are separators, and no piece contains the separator |
| Routes.JoinSplit | routes.js:42-43 | joining the pieces of a split with the separator gives back the original string |
| Routes.SplitJoin | routes.js:42-43 | splitting a join of separator-free pieces gives back the pieces |
| Routes.PatternSplits | routes.js:6-23 | splitting a route's pattern string on '/' gives that route's segment list |
| Routes.AllTableEntriesWellFormed | routes.js:6-23 | every pattern of the table has at least one segment, and no segment contains '/' |
| Routes.IsParam | routes.js:50 | `startsWith(':')` on a pattern segment; no contract of its own, and `BindingsNames` and `RejectedBySegment` state what the two kinds of segment do |
| Routes.Pattern | routes.js:7-22 | the key string of an entry, its segments joined with '/'; no contract of its own, and `PatternSplits`, `InvoiceNewPattern` and `InvoiceDetailPattern` state what it yields |
| Routes.Bindings | routes.js:46-51 | the `params` object the inner loop builds; no contract of its own, and `BindingsNames` and `BindingsWithoutParams` state what it holds |
| Routes.BindingsNames | routes.js:49-56 | every `:name` segment becomes a key of `params`, and every key is bound to the path segment at the position of a `:name` segment with that name |
| Routes.BindingsWithoutParams | routes.js:49-56 | a pattern without `:name` segments binds nothing |
| Routes.Try | routes.js:37-61 | one pass of the outer loop: the literal comparison first, then the count and segment comparison; no contract of its own, and `RejectedByCount`, `RejectedBySegment` and `DetailPatternBinds` state when it accepts |
| Routes.MatchIn | routes.js:35-65 | `matchRoute` as a function; no contract of its own, and `FirstAcceptingWins` and `NoneAcceptingFallsBack` characterize it, while `MatchRoute` is proved equal to it |
| Routes.FirstAcceptingWins | routes.js:36-61 | the first entry, in declaration order, that accepts the path decides the page and params |
| Routes.NoneAcceptingFallsBack | routes.js:64 | when no entry accepts the path, the result is `home` with no params |
| Routes.MatchParts | routes.js:45-56 | the inner loop reports a match exactly when every literal segment equals the path's, and the `params` it builds are the bindings |
| Routes.MatchRoute | routes.js:35-65 | the loop, with its early returns, computes the first-accepting-entry match over any well-formed table |
| Routes.TablePatternsDistinct | routes.js:6-23 | two table patterns differ in segment count, or the earlier one has a literal segment where the later one differs, so the earlier entry rejects the later entry's pattern string (the reverse need not hold: `/invoices/:id` accepts `/invoices/new`) |
| Routes.RejectedByCount | routes.js:45 | an entry whose segment count differs from the path's rejects it |
| Routes.RejectedBySegment | routes.js:52-55 | a literal segment that differs from the path's rejects the path |
| Routes.PatternResolvesToOwnPage | routes.js:35-65 | each table pattern, used as the path, resolves to its own page with empty params |
| Routes.DetailPatternBinds | routes.js:45-56 | the `/invoices/:id` pattern accepts `/invoices/X` for X other than `:id`, binding `id` to X |
| Routes.InvoiceNewPattern | routes.js:13 | the seventh entry's pattern is `/invoices/new` |
| Routes.InvoiceDetailPattern | routes.js:14 | the eighth entry's pattern is `/invoices/:id` |
| Routes.DeclarationOrderWins | routes.js:13-14 | `/invoices/:id` would accept `/invoices/new` with `id` = "new", but the earlier `/invoices/new` entry wins, with empty params |
| Routes.EntriesBeforeDetailReject | routes.js:7-13 | all entries before the detail pattern reject `/invoices/X` when X is not `new` |
| Routes.InvoiceIdBinds | routes.js:35-65 | `/invoices/X`, with X free of '/' and not `new` or `:id`, resolves to the invoice detail page with `id` bound to X verbatim |
| Routes.DetailPatternAsPath | routes.js:37-39 | the path `/invoices/:id` resolves to the detail page with no params |
| Routes.InvoicePathSplits | routes.js:43 | `/invoices/X` splits into `""`, `invoices` and X |
| Routes.DetailPathBinds | routes.js:35-65 | a path that splits into `""`, `invoices` and X (not `new` or `:id`) resolves to the detail page with `id` = X |
| Routes.TableDepth | routes.js:6-23 | no pattern has more than three segments |
| Routes.DeepPathFallsBack | routes.js:45-64 | a path with more than three segments resolves to `home` |
| Navigation.RouteOf | routes.js:30-31 | the route is never empty: an empty fragment becomes `/`, and a non-empty fragment is used as it stands |
| Navigation.Protected | routes.js:79 | the seven protected pages; no contract of its own, and `Decide` and `ProtectedPageRedirectsToLogin` state what it causes |
| Navigation.LoginPath | routes.js:81 | the redirect target `/login`; no contract of its own, and `LoginPageResolves` and `TargetCommits` state where it leads |
| Navigation.DashboardPath | routes.js:87 | the redirect target `/dashboard`; no contract of its own, and `DashboardPageResolves` and `TargetCommits` state where it leads |
| Navigation.StepAt | routes.js:75-89 | one resolve-and-decide pass of `handleRoute` on a fragment; no contract of its own, and `RedirectLandsDirectly` and `SettleFollowsRedirect` state how passes chain |
| Navigation.Decide | routes.js:78-93 | a match is committed exactly when the policy permits its page; otherwise an anonymous user is sent to `/login` and a signed-in user to `/dashboard` |
| Navigation.LoginPageResolves | routes.js:8 | `/login`, the anonymous redirect target, resolves to the login page with no params |
| Navigation.DashboardPageResolves | routes.js:11 | `/dashboard`, the signed-in redirect target, resolves to the dashboard page with no params |
| Navigation.TargetCommits | routes.js:80-89 | `/login` for an anonymous user and `/dashboard` for a signed-in one are committed, not redirected |
| Navigation.RedirectLandsDirectly | routes.js:78-93 | a redirect target is committed on the next run, so at most one redirect happens |
| Navigation.Settle | routes.js:68-94 | the page a run commits is always permitted by the policy |
| Navigation.SettleFollowsRedirect | routes.js:80-89 | a run that redirects ends where a run started at the target ends |
| Navigation.ProtectedPageRedirectsToLogin | routes.js:79-83 | an anonymous user on a protected page ends on `/login` with the login page, and the protected page is never loaded |
| Navigation.AuthPageRedirectsToDashboard | routes.js:85-89 | a signed-in user on login or signup ends on `/dashboard` with the dashboard page |
| Navigation.PermittedPageCommitsInPlace | routes.js:91-93 | a permitted page is committed at the current fragment with its matched params |
| Navigation.SettleIsIdempotent | routes.js:68-94 | handling the fragment a run ended on once more ends on the same fragment and page |
| Navigation.EmptyFragmentIsHome | routes.js:30 | an empty fragment is the route `/`, the home page, for either flag value |
| Navigation.InvoiceDetailIsOpen | routes.js:79-80 | `/invoices/X` loads the invoice detail page without signing in |
| Navigation.ReadFlag | routes.js:26 | the flag is the stored entry compared with `'true'`; no contract of its own, and `StoredForm` states that it reads back what was stored |
| Navigation.StoredForm | routes.js:129 | the string stored for a boolean reads back as that boolean |
| Navigation.Router.constructor | routes.js:25-26 | the page starts at home, and the flag is read from the stored entry, true only for the string "true" |
| Navigation.Router.GetCurrentRoute | routes.js:29-32 | returns the fragment, or `/` when it is empty |
| Navigation.Router.IsAuthenticated | routes.js:126 | the exported accessor reads the flag; no contract of its own, and `SetAuthenticated` states what it reads after an update |
| Navigation.Router.SetAuthenticated | routes.js:126-130 | sets the flag and its stored copy, which reads back as the same flag; the page, fragment and loads are unchanged |
| Navigation.Router.NavigateTo | routes.js:68-71 | after setting the fragment and handling it, the fragment, page and one new page load are those `Settle` gives; the flag is unchanged |
| Navigation.Router.HandleRoute | routes.js:74-94 | resolves, redirects or commits as `Settle` describes; exactly one page load is appended, with the committed page and params |
| Numerals.PersianDigits | utils.js:7 | `persianNumbers`; no contract of its own, and `DigitTables` states its code points |
| Numerals.EnglishDigits | utils.js:8 | `englishNumbers`; no contract of its own, and `DigitTables` states its code points |
| Numerals.IsAsciiDigit | utils.js:12 | the class `\d`, '0'..'9'; no contract of its own, and `PersianOf` and `NoAsciiDigitAfterPersian` state how it is replaced |
| Numerals.IsPersianDigit | utils.js:16 | the class `[۰-۹]`, U+06F0..U+06F9; no contract of its own, and `EnglishOf` and `NoPersianDigitAfterEnglish` state how it is replaced |
| Numerals.DigitTables | utils.js:7-8 | both digit tables list their ten digits at consecutive code points, in digit order |
| Numerals.IndexOf | utils.js:16 | `indexOf` is -1 exactly when the character is absent; otherwise it gives the first position holding it |
| Numerals.PersianDigitIndexed | utils.js:16 | each character of the class `[۰-۹]` sits in `persianNumbers` at its offset from U+06F0 |
| Numerals.PersianOf | utils.js:12 | an ASCII digit becomes the Persian digit of the same value; other characters are unchanged |
| Numerals.EnglishOf | utils.js:16 | a Persian digit becomes the ASCII digit of the same value; other characters are unchanged |
| Numerals.ToPersianNumber | utils.js:10-13 | the length is preserved, and each character is replaced as `PersianOf` says |
| Numerals.ToEnglishNumber | utils.js:15-17 | the length is preserved, and each character is replaced as `EnglishOf` says |
| Numerals.NoAsciiDigitAfterPersian | utils.js:12 | no ASCII digit is left after `toPersianNumber` |
| Numerals.NoPersianDigitAfterEnglish | utils.js:16 | no Persian digit is left after `toEnglishNumber` |
| Numerals.EnglishUndoesPersian | utils.js:10-17 | `toEnglishNumber(toPersianNumber(s)) == s` when s has no Persian digits |
| Numerals.PersianUndoesEnglish | utils.js:10-17 | `toPersianNumber(toEnglishNumber(s)) == s` when s has no ASCII digits |
| Numerals.EnglishKeepsPlain | utils.js:15-17 | a string without Persian digits is unchanged by `toEnglishNumber` |
| Jalali.Quot | utils.js:47-54 | `parseInt(a / b)` truncates toward zero: the remainder is in 0..b-1 for a ≥ 0 and in -(b-1)..0 for a < 0 |
| Jalali.Rem | utils.js:49-55 | `%` keeps the sign of the dividend, with magnitude below the divisor, and differs from the dividend by a multiple of the divisor |
| Jalali.QuotRemOfNatural | utils.js:47-55 | on non-negative operands the truncating operators agree with Euclidean `/` and `%` |
| Jalali.MonthStart | utils.js:43 | `g_d_m`, the days before each month of a common year; no contract of its own, and `Nowruz1403` uses its March entry on a known date |
| Jalali.EpochYear | utils.js:44 | the starting Jalali year, 0 or 979; no contract of its own, and `Nowruz1403` pins it on a known date |
| Jalali.DayCount | utils.js:45-47 | the day count from the shifted Gregorian year; no contract of its own, and `Nowruz1403` gives its value on a known date |
| Jalali.Reduce | utils.js:48-51 | after the 33-year and 4-year cycle reductions a non-negative day count lies in 0..1460 |
| Jalali.ReduceKeepsDays | utils.js:48-51 | the reductions lose no day: the years are 33 per 12053-day cycle plus 4 per 1461-day cycle, at most eight such, and the rest is the remaining count; the 33-year step takes every whole cycle, so the decomposition is unique |
| Jalali.YearsIn | utils.js:52 | the years the remaining days add; no contract of its own, and `YearsInMatchesGuardedStep` states its value on every reduced count |
| Jalali.DayOfYear | utils.js:53 | a reduced count in 0..1460 becomes a day of the year in 0..365 |
| Jalali.MonthOf | utils.js:54 | the month of a day of the year; no contract of its own, and `SplitIsValid` and `SplitOfIndex` state its range and the round trip |
| Jalali.DayOf | utils.js:55 | the day of the month; no contract of its own, and `SplitIsValid` and `SplitOfIndex` state its range and the round trip |
| Jalali.GregorianToJalali | utils.js:42-57 | a result exists exactly for months 1..12 |
| Jalali.SplitIsValid | utils.js:54-55 | a day of the year in 0..365 gives a month in 1..12 and a day within that month's length (31 for months 1-6, 30 after); the pair names the same day of the year |
| Jalali.SplitOfIndex | utils.js:54-55 | every fitting month and day is recovered from its day of the year |
| Jalali.ResultInRange | utils.js:47-55 | with a non-negative day count, the month is in 1..12, the day in 1..31, and months 7..12 never reach day 31 |
| Jalali.YearsInMatchesGuardedStep | utils.js:52-53 | the unconditional `parseInt((days - 1) / 365)` equals the increment guarded by `days > 365` on a reduced count; at `days == 0` this relies on truncation, since Euclidean division gives -1 |
| Jalali.Nowruz1403 | utils.js:42-57 | 20 March 2024 reduces to a day count of exactly 0 and converts to 1403/1/1 |
| Validators.IsJsWhitespace | utils.js:117 | the characters `\s` matches; no contract of its own, and `ValidateEmailIsShape` states that no accepted address holds one |
| Validators.Word | utils.js:117 | a run of `[^\s@]+`; no contract of its own, and `MatchCoversString` states what a run excludes |
| Validators.ValidateEmail | utils.js:116-119 | `validateEmail` as the regular expression's three runs around an '@' and a '.'; no contract of its own, and `ValidateEmailIsShape` and `MatchCoversString` state what it accepts |
| Validators.ValidateEmailIsShape | utils.js:116-119 | `^[^\s@]+@[^\s@]+\.[^\s@]+$` accepts exactly: no whitespace, exactly one '@' with something before it, and a '.' after it with a character on each side |
| Validators.MatchCoversString | utils.js:117 | in a match, every character is in one of the three runs or is the '@' or the '.', so none is whitespace and the '@' is the only one |
| Validators.MobileNumber | utils.js:123 | `9\d{9}`: a '9' and nine ASCII digits; no contract of its own, and `PrefixesAreInterchangeable` and `PhoneEndsInMobileNumber` state where it sits in an accepted phone |
| Validators.PhonePattern | utils.js:123 | `^(\+98\|0)?9\d{9}$` as a predicate; no contract of its own, and `PrefixesAreInterchangeable` and `PhoneEndsInMobileNumber` state what it accepts |
| Validators.ValidatePhone | utils.js:121-125 | `validatePhone`: the pattern applied after `toEnglishNumber`; no contract of its own, and `PersianDigitsValidateAlike` states its effect |
| Validators.PrefixesAreInterchangeable | utils.js:123 | a mobile number written bare, after `0`, or after `+98` is accepted alike |
| Validators.PhoneEndsInMobileNumber | utils.js:123 | an accepted phone is 10, 11 or 13 characters long and ends in `9` followed by nine digits |
| Validators.PersianDigitsValidateAlike | utils.js:122-125 | a number typed in Persian digits validates exactly as the same number typed in ASCII digits |

## Left out

- DOM work is not modelled:
  - `updateActiveNav` (routes.js:97-113);
  - the body of the page loader, which is modelled only as a recorded call in `loads`.
- Event wiring is not modelled: `initRouting`, the `hashchange`/`DOMContentLoaded` listeners (routes.js:116-119, 133-138), and the online/offline listeners of utils.js.
- Asynchronous re-entry is not modelled. In a browser, setting `location.hash` inside `navigateTo` fires `hashchange` later, which runs `handleRoute` again and loads the same page a second time. The model runs `handleRoute` once, synchronously. `SettleIsIdempotent` shows that the re-entry lands on the same page.
- The browser's handling of the fragment is not modelled: the leading '#' and percent-encoding. `hash` holds the fragment text without '#'.
- `localStorage` becomes the `stored` field. Storage exceptions and other tabs writing the entry are not modelled.
- Navigation.Router.SetAuthenticated takes a boolean only. A non-boolean argument, which the source would store through `String(value)`, is not modelled.
- The exported `window.router.currentPage` is a copy of `'home'` taken at load time and never updated. The model keeps the live `currentPage` only.
- Numerals.ToPersianNumber takes a string. The `String(num)` coercion of numbers is not modelled.
- Jalali.GregorianToJalali works on unbounded integers. Not modelled:
  - non-integer arguments;
  - loss of precision in double arithmetic beyond 2^53;
  - `parseInt` reading exponent notation for huge quotients.
- Jalali.GregorianToJalali gives None for a month outside 1..12, where the source returns NaN components.
- JavaScript strings are UTF-16 code units, and the model's `char` is a Unicode scalar value. Every character the digit maps and validators test for is in the Basic Multilingual Plane, and no half of a surrogate pair is whitespace, '@', '.' or a digit, so the predicates agree.
- The other helpers of utils.js are not part of this model:
  - `formatCurrency`, `formatJalaliDate` and `getCurrentJalaliDate`, which need `Intl` and `Date`;
  - `formatFileSize`, which needs floating point;
  - `showToast`, `showLoading`/`hideLoading`, `debounce`, `generateId`, the form helpers and the offline indicator.
