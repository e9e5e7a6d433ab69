# K9 Aliases: alias generator and route guard

This project models two pieces of the K9 Aliases web application, a manager
for disposable e-mail aliases.

- **The alias generator** (`src/lib/utils.ts`) builds an alias from the user's
  primary e-mail and a description. It has the form
  `dotted-username+SanitizedDescription<separator><random>@domain`:
  - `generateRandomString` fills a string from the alphabet the case style
    selects.
  - `sanitizeDescription` turns free text into one CamelCase word.
  - `addDotsToUsername` puts dots between the characters of the local part.
  - `generateAlias` splits the e-mail on '@' and puts the pieces together. An
    address that does not split into exactly two parts gets an
    `invalid.email.?????@error.com` alias instead.
- **The route guard** (`middleware.ts`) decides, from the request path and the
  `session_token` cookie, whether a request passes. A logged-in visitor of
  `/login` or `/signup` is sent to `/`. A logged-out visitor of any other page
  that is not an API route or a static file is sent to `/login`.

Randomness is taken out of the generator. Every `Math.random()` result becomes
a value the caller supplies:
- `picks`: the alphabet index of each drawn character;
- `coins`: for each gap between two username characters, whether a dot goes in;
- `forcedPos`: the fallback dot position in [1, n-1].

Every property is proved for all such values.

Modules:
- `Optional` (`optional.dfy`): the `Option` type, for optional arguments and a
  missing cookie.
- `JsString` (`jsstring.dfy`): the JavaScript string operations the core uses:
  `startsWith`, `split` on one character, and ASCII case mapping. It also
  has `Join` on one character. The core itself only calls `join('')`, which
  `Utils.ConcatCapitalized` models. `Join` is there as the inverse that
  `JoinSplit` proves about `Split`.
- `Utils` (`utils.dfy`): the alias generator.
- `Middleware` (`middleware.dfy`): the route guard.

The imperative helpers are methods with loops:
- `Utils.GenerateRandomString` appends one character per iteration.
- `Utils.AddDotsToUsername` appends dots and characters, then rebuilds the
  result with one dot when no dot was added.

Each method is proved equal to a function (`RandomString`, `AddDots`).
`GenerateAlias` and the lemmas use those functions. `sanitizeDescription`,
`generateAlias` and `middleware` are expression chains in the source, so they
are functions here.

Notes on following the code exactly:
- **The static-file test.** `/\.(.*)$/` is true when some '.' is followed,
  up to the end of the path, only by characters other than line terminators.
  JavaScript's `.` does not match `\n`, `\r`, U+2028 or U+2029. So the test is
  not quite "the path contains a dot". `DotSuffixIsAnyDot` proves the two agree
  for paths without line terminators. `DotBeforeLineBreakNotStatic` shows a path
  where they differ. Such a path does not reach the guard from a real request:
  the path is `request.nextUrl.pathname` of a parsed URL, and the WHATWG URL
  Standard removes tab, LF and CR while parsing and percent-encodes non-ASCII
  characters such as U+2028 and U+2029 in the path. For every request that
  can occur, the test is therefore "the path contains a dot". The difference
  shows only when the regular expression is applied to an arbitrary string.
- **Whitespace in `sanitizeDescription`.** The cleaning keeps every `\s`
  character, but the split is on ' ' only. So tabs, newlines and other
  non-space whitespace stay inside the word (`SanitizeKeepsTab`).
- **Empty input only.** The "Alias" fallback applies only to the empty
  description. A non-empty description with nothing worth keeping gives the
  empty word.
- **Case mapping.** Only ASCII letters are case-mapped. After cleaning, only
  ASCII letters, digits and whitespace remain, and on those this is exactly
  what `toUpperCase`/`toLowerCase` do.

## Model

| member | source | states |
|---|---|---|
| `Utils.Alphabet` | src/lib/utils.ts:16-31 | The `switch` on the case style: 'lowercase' selects the lowercase literal, 'uppercase' the uppercase literal, and 'mixed' or any other value their concatenation. |
| `Utils.AlphabetClasses` | src/lib/utils.ts:16-31 | Each character of the chosen alphabet belongs to that style's class. 'lowercase' gives a–z and 0–9, 'uppercase' gives A–Z and 0–9, and 'mixed' or any other value gives both cases and digits. |
| `Utils.RandomString` | src/lib/utils.ts:15-37 | The random string has exactly `length` characters, or none for a negative length. Each character comes from the alphabet the case style selects. |
| `Utils.RandomStringClasses` | src/lib/utils.ts:15-37 | Every character of a random string is in the class its case style names, for every oracle choice. |
| `Utils.GenerateRandomString` | src/lib/utils.ts:33-37 | The loop returns one character per iteration, `length` in all. Character i is the alphabet character at the i-th drawn index. The result equals `RandomString`. |
| `Utils.StripSpecial` | src/lib/utils.ts:50 | `replace(/[^a-zA-Z0-9\s]/g, '')`: the input with every character removed that is not an ASCII letter, a digit or an ECMAScript `\s` character, the rest kept in order. |
| `Utils.StripSpecialKeeps` | src/lib/utils.ts:50 | A character occurs in the cleaned text exactly when it occurs in the input and is an ASCII letter, a digit or a `\s` character. Text that is already clean is returned unchanged. |
| `Utils.StripSpecialConcat` | src/lib/utils.ts:50 | The global replace works character by character: cleaning `a + b` gives the cleaned `a` followed by the cleaned `b`. |
| `Utils.StripSpecialSplice` | src/lib/utils.ts:50 | Any one character of the input stays in place in the output when it is an ASCII letter, a digit or `\s`, and disappears otherwise; the text before and after it is cleaned independently. |
| `Utils.CamelCaseShape` | src/lib/utils.ts:51-54 | The one-pass CamelCase reading drops exactly the spaces. Case mapping keeps every kept character kept. |
| `Utils.CamelCaseWords` | src/lib/utils.ts:51-54 | The one-pass reading equals split on ' ', drop empty pieces, capitalise each piece and join with no separator. Each word contributes its first character upper-cased and the rest lower-cased, in order. |
| `Utils.SanitizeDescription` | src/lib/utils.ts:45-55 | The empty description gives "Alias". Any other description is cleaned, split on ' ', stripped of empty pieces, capitalised piece by piece and joined with no separator. |
| `Utils.SanitizeIsCamelCase` | src/lib/utils.ts:45-55 | A non-empty description sanitises to the one-pass CamelCase of its cleaned text. |
| `Utils.SanitizeCharacters` | src/lib/utils.ts:45-55 | The result has no space, and only ASCII letters, digits and other `\s` characters. For non-empty input its length is the number of kept non-space characters. |
| `Utils.SanitizeFallback` | src/lib/utils.ts:46-54 | The empty description gives "Alias". A non-empty one made only of spaces and stripped characters gives "". |
| `Utils.SanitizeKeepsTab` | src/lib/utils.ts:50-54 | "a\tb" sanitises to "A\tb". The regex keeps the tab and the split on ' ' does not remove it. |
| `Utils.CountTrueBounds` | src/lib/utils.ts:69-82 | At most one dot is counted per gap. The counter is zero exactly when no coin came up, which is the case the fallback handles. |
| `Utils.InterleaveShape` | src/lib/utils.ts:67-79 | The loop's result has n characters plus one dot per marked gap. It starts and ends with the username's own characters and holds nothing but those characters and dots. |
| `Utils.InterleaveSnoc` | src/lib/utils.ts:72-79 | One loop iteration appends an optional dot and the next character to the interleaving built so far. |
| `Utils.InterleaveForced` | src/lib/utils.ts:82-85 | `slice(0, p) + '.' + slice(p)` is the interleaving with a dot in gap p-1 only. |
| `Utils.UndotInterleave` | src/lib/utils.ts:67-79 | Removing the dots the gaps say were inserted gives back the username, even one that already contains dots. |
| `Utils.RemoveDotsInterleave` | src/lib/utils.ts:67-79 | The dotted username and the username are equal once all dots are removed. |
| `Utils.AddDotsShape` | src/lib/utils.ts:62-88 | For n ≥ 2 the result has the input's first and last characters, so no inserted dot is first or last. It has between n+1 and 2n-1 characters, so 1 to n-1 dots with at most one per gap. Removing the inserted dots gives the input back; removing all dots does the same for a dot-free input. |
| `Utils.AddDots` | src/lib/utils.ts:62-88 | A username of length ≤ 1 unchanged. Otherwise the username with a dot in each gap whose coin came up, or, when none did, with one dot before position `forcedPos`. |
| `Utils.AddDotsToUsername` | src/lib/utils.ts:62-88 | A username of length ≤ 1 is returned unchanged. Otherwise the loop and the forced-dot fallback give exactly `AddDots`, whose shape `AddDotsShape` states. |
| `Utils.GenerateAlias` | src/lib/utils.ts:95-121 | Split the primary e-mail on '@'. Unless that gives exactly two parts, the result is "invalid.email." + 5 random lowercase characters + "@error.com". Otherwise it is dotted username + '+' + sanitised description + separator + random string + '@' + domain, with absent options taking 12, '-' and 'mixed'. |
| `Utils.GenerateAliasInvalidEmail` | src/lib/utils.ts:108-111 | A primary email without exactly one '@' gives "invalid.email.", then 5 characters from a–z0–9, then "@error.com" (29 characters in all). |
| `Utils.GenerateAliasParts` | src/lib/utils.ts:108-120 | For `username@domain` (no '@' on either side) the split gives `[username, domain]`, and the alias is the dotted username, '+', the sanitised description, the separator, the random string, '@', and the domain unchanged. |
| `Utils.GenerateAliasDefaults` | src/lib/utils.ts:98-100 | An absent length is 12, an absent separator is '-', and an absent case style selects the mixed alphabet. Leaving an option out gives the same alias as passing its default. |
| `Utils.GenerateAliasSingleAt` | src/lib/utils.ts:108-120 | The alias contains exactly one '@' when the separator has none, whatever the primary email is. |
| `JsString.Split` | src/lib/utils.ts:108 | `split` on one character, as used on the e-mail here and on ' ' at line 51: the pieces between separators, empty pieces included. Proved: one more piece than there are separators. |
| `JsString.JoinSplit` | src/lib/utils.ts:108 | Joining the parts of `split(sep)` with `sep` gives the string back. |
| `JsString.SplitOnce` | src/lib/utils.ts:108-113 | A string with exactly one '@' splits into two parts, the text before and after the '@', neither containing '@'. |
| `JsString.SplitAround` | src/lib/utils.ts:108-113 | `(before + "@" + after).split('@')` is `[before, after]` when neither side contains '@'. |
| `Middleware.Guard` | middleware.ts:8-27 | The two `if` guards in source order: a truthy cookie on a public route redirects to "/"; no truthy cookie on a route that is not public, API or static redirects to "/login"; else Next. |
| `Middleware.PublicRoutePrefixes` | middleware.ts:6-12 | A path is public exactly when it starts with "/login" or "/signup". |
| `Middleware.GuardDecisions` | middleware.ts:12-26 | The full decision table in both directions. A session plus a public path redirects to "/". No session on a path that is not public, API or static redirects to "/login". Every other case passes. |
| `Middleware.GuardTargets` | middleware.ts:17-24 | With a session the guard never redirects to "/login". Without one it never redirects to "/". The only targets are "/" and "/login". |
| `Middleware.GuardNoLoop` | middleware.ts:6-26 | Following a redirect with the same cookie passes ("/" with a session, "/login" without one), so there is no redirect loop. |
| `Middleware.EmptyCookieIsNoCookie` | middleware.ts:10-22 | An empty cookie value gives the same decision as no cookie, on every path. |
| `Middleware.StaticAndApiPass` | middleware.ts:13-24 | Paths that contain a dot (and no line terminators), start with "/_next" or start with "/api" are never sent to "/login". |
| `Middleware.DotSuffixIsAnyDot` | middleware.ts:14 | For a path without line terminators, the static-file pattern holds exactly when the path contains a '.'. |
| `Middleware.DotBeforeLineBreakNotStatic` | middleware.ts:14 | "/a.b\nc" is not static: the regex's `.` does not match the line break after the dot. |
| `Middleware.PrefixMatchIsLoose` | middleware.ts:6-19 | "/login-help" and "/signupX" count as public. A session on "/login-help" redirects to "/", and "/signupX" passes without one. |

## Left out

- `cn` (src/lib/utils.ts:5-7): a wrapper over the clsx and tailwind-merge libraries, which are not part of this model.
- `Math.random` and `Math.floor`: floating point. They are replaced by oracle values: in-range indices, one boolean per gap and a fallback position in [1, n-1].
- The order of draws: the source draws all random numbers from one stream, but each helper here gets its own oracle values. Only the order of the draws is lost, since every choice is covered.
- Utils.GenerateRandomString: lengths are integers. A fractional length (2.5 draws 3 characters), `NaN` and infinities are not modelled. The alias-creation page passes 12 or 16.
- Utils.AddDotsToUsername: characters are Unicode scalar values. JavaScript's `split('')` works on UTF-16 code units, so a username with characters outside the Basic Multilingual Plane could get a dot between the two halves of one character. That is not modelled.
- Utils.AlphabetClasses: proves only that alphabet characters are in the style's class, not the converse. The alphabets themselves are the source's literal strings.
- Non-string `primaryEmail` or `description` values (`null`, `undefined`): the source's types exclude them.
- `config.matcher` (middleware.ts:29-40): the framework applies this routing pattern before the guard runs.
- `NextRequest`, `NextResponse` and URL construction: requests are a path and an optional cookie value, and a redirect is its target path.
- Everything outside `src/lib/utils.ts` and `middleware.ts` is not part of this model: server actions, database access, session hashing, quotas, the alias lifecycle and the UI components.
