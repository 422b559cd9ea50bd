# TEAMFINDER page script — verified model

The repository is one page script, `js/script.js`, for a site where players
look for teammates. It has three pieces of logic, and this project models
them in Dafny and proves what they promise:

* **Cookie lookup** (`getCookie`). The cookie string is split on `;`. Leading
  spaces are dropped from each entry. The answer is the text after `name=` in
  the first entry that starts with it, or `null`. The model reads an explicit
  cookie string instead of `document.cookie`.
  * `Cookie.GetCookie` keeps the source's two loops.
  * `Cookie.LookupCookie` is the function that specifies it.
* **Teammate search** (the filter inside `searchTeammates`). The loaded
  directory is filtered by three conditions, and all three must hold:
  * a lower-cased free-text query that must occur in the lower-cased
    description or name;
  * an exact game;
  * an exact skill.

  An empty value means "any". `TeammateSearch.Search` is a pure function over
  the directory, built on `Sequences.Keep`, the model of `Array.prototype.filter`.
* **Registration** (the `registrationForm` submit handler and
  `validateEmail`). Five rules are checked in order, and the first one that
  fails decides the message:
  * the username is not empty;
  * the email has the shape `a@b.c`;
  * the password has at least 8 characters, with a letter and a digit;
  * the confirmation equals the password;
  * the email is not stored yet.

  On success the user is appended to the stored list.
  `Registration.UserStore` holds the local-storage entry `users` as a field.
  Its `Submit` method follows the handler's early returns.
  `Registration.Validate` is the pure outcome.

Files:
* `wrappers.dfy`: `Option`.
* `sequences.dfy`: `some` and `filter`, plus stable selection.
* `strings.dfy`: JavaScript's `\s`, `toLowerCase`, `includes`, `split`/join,
  and leading-space trimming.
* `cookie.dfy`, `teammate_search.dfy`, `registration.dfy`.

A cookie entry is not fully trimmed. The code (lines 27-28) removes only
leading space characters: it removes no tabs and nothing at the end.
`Cookie.LookupUnreachableName` shows one consequence: a name that starts with
a space is never found.

## Model

| member | source | states |
|---|---|---|
| Sequences.Any | js/script.js:142 | `some` holds exactly when some element satisfies the predicate |
| Sequences.Keep | js/script.js:79-85 | `filter` keeps only elements of the input that satisfy the predicate, keeps every such element, and never grows the list |
| Sequences.KeepIsStableSelection | js/script.js:79-85 | the filtered list is the input restricted to increasing positions, and those positions are exactly the ones whose element satisfies the predicate |
| Sequences.StableSelectionIsKeep | js/script.js:79-85 | any list selected that way equals the filter result, so the stable selection fully determines `filter` |
| Strings.LowerChar | js/script.js:70 | a lower-cased character is never upper case and is the same letter as the input (a capital becomes its own small form); characters that are not upper case are unchanged |
| Strings.LowerCharIgnoresCase | js/script.js:81 | the capital and small form of a letter lower-case to the same character |
| Strings.ToLowerIgnoresCase | js/script.js:81 | strings that differ only in the case of their letters lower-case to the same string |
| Strings.ToLowerIsLower | js/script.js:81 | the model's `ToLower` keeps the length and leaves no letter that `IsUpper` covers |
| Strings.ToLowerIdempotent | js/script.js:70 | lower-casing twice equals lower-casing once |
| Strings.Includes | js/script.js:81 | `s.includes(q)` holds exactly when `q` occurs in `s` at some position; the empty query occurs everywhere |
| Strings.Split | js/script.js:24 | `split(';')` always yields at least one piece |
| Strings.SplitPiecesLackSeparator | js/script.js:24 | no piece of the split contains `;` |
| Strings.JoinSplit | js/script.js:24 | joining the pieces with `;` gives back the cookie string |
| Strings.SplitJoin | js/script.js:24 | splitting `;`-free pieces joined by `;` gives back the pieces |
| Strings.SplitAppend | js/script.js:24 | the pieces of `a;b` are the pieces of `a` followed by the pieces of `b` |
| Strings.TrimLeadingSpacesRemovesSpaces | js/script.js:27 | the space-stripping loop leaves a suffix of the entry; everything it removed is a space; the result does not start with a space |
| Strings.TrimLeadingSpacesAfter | js/script.js:27 | stripping a run of spaces in front of text that does not start with a space yields exactly that text |
| Cookie.GetCookie | js/script.js:22-31 | the scan with its two loops returns exactly the lookup result |
| Cookie.FirstWithPrefixNone | js/script.js:25-30 | `null` is returned exactly when no stripped entry starts with `name=` |
| Cookie.FirstWithPrefixSome | js/script.js:25-29 | a returned value comes from an entry that, once its leading spaces are dropped, equals `name=` followed by the value; no earlier entry starts with `name=` |
| Cookie.FirstWithPrefixAppend | js/script.js:25-29 | a match in earlier entries is never overridden by later ones; without one, the later entries decide |
| Cookie.LookupConcat | js/script.js:23-30 | for a cookie string `a;b`: the answer from `a` if it has one, else the answer from `b` |
| Cookie.LookupSingleEntry | js/script.js:23-28 | a cookie string of spaces then `name=value` yields `value` when neither part contains `;` and the name does not start with a space |
| Cookie.LookupUnreachableName | js/script.js:23-28 | a name that contains `;` or starts with a space is never found |
| TeammateSearch.Search | js/script.js:69-85 | every shown record is from the directory and meets the text, game and skill conditions together; every directory record meeting them is shown; the result is never longer than the directory |
| TeammateSearch.SearchKeepsOrder | js/script.js:79-85 | the result is the directory at increasing positions, and those positions are exactly the records meeting all three conditions (subsequence, original order, completeness) |
| TeammateSearch.SearchWithoutCriteria | js/script.js:81-83 | with empty text, game and skill the result is the whole directory in order |
| TeammateSearch.SearchIdempotent | js/script.js:79-85 | searching the result again with the same inputs returns it unchanged |
| TeammateSearch.SearchIgnoresQueryCase | js/script.js:70-81 | two search texts that differ only in the case of their letters give the same result |
| TeammateSearch.TextMatchIgnoresRecordCase | js/script.js:81 | the text condition ignores the case of the record's name and description (`sniper` finds `Sniper`) |
| TeammateSearch.SearchConditionsInAnyOrder | js/script.js:80-84 | filtering by text, game and skill one after another, in any of the six orders, gives the search result |
| TeammateSearch.SearchByGameExample | js/script.js:79-85 | directory A (cs) and B (dota) with only game `cs` selected shows `[A]` |
| Registration.EmailParts | js/script.js:155-158 | an accepted email is `a@b.c` with `a`, `b`, `c` non-empty and free of white space and `@` |
| Registration.EmailFromParts | js/script.js:155-158 | every such `a@b.c` is accepted |
| Registration.ValidateEmailMeansShape | js/script.js:155-158 | `validateEmail` holds exactly for strings of the form `a@b.c` above |
| Registration.AcceptedEmailHasOneAt | js/script.js:156 | an accepted email contains exactly one `@` |
| Registration.AcceptedEmailHasNoWhitespace | js/script.js:156 | an accepted email contains no white-space character |
| Registration.PasswordAcceptable | js/script.js:130 | the password rule passes exactly when the length is at least 8 and the password has an ASCII letter and an ASCII digit |
| Registration.EmailRegistered | js/script.js:141-142 | the duplicate test holds exactly when a stored user has the same email (exact, case-sensitive) |
| Registration.ValidateReportsFirstFailure | js/script.js:120-145 | the outcome is the first failing rule, in the order username, email, password, confirmation, duplicate; success means all five rules hold |
| Registration.DuplicateEmailRejected | js/script.js:140-145 | an email already stored is never registered; when the first four rules pass, the outcome is the duplicate message |
| Registration.PasswordExamples | js/script.js:130-138 | password `abc` is refused by the password rule; `abcdefg1`, confirmed, with a valid unused email, registers |
| Registration.RegisterKeepsEmailsDistinct | js/script.js:140-148 | a successful registration keeps stored emails pairwise distinct |
| Registration.RegisterKeepsUsersWellFormed | js/script.js:120-148 | if every stored user passed the rules, they all still do after a successful registration |
| Strings.IsWhitespace | js/script.js:156 | the character class `\s`: JavaScript's white space and line terminators, listed in full (used by `ValidateEmailMeansShape`) |
| Strings.ToLower | js/script.js:70 | `toLowerCase`, character by character: each capital becomes its own small form (`LowerChar`), so case differences vanish (`ToLowerIgnoresCase`); keeps the length (`ToLowerIsLower`), idempotent (`ToLowerIdempotent`) |
| Strings.TrimLeadingSpaces | js/script.js:27 | the loop that drops leading spaces; it removes exactly the leading run of spaces (`TrimLeadingSpacesRemovesSpaces`) |
| Cookie.FirstWithPrefix | js/script.js:25-30 | the scan over the entries with its early return; `null` exactly when no entry matches (`FirstWithPrefixNone`), otherwise the first match (`FirstWithPrefixSome`, `FirstWithPrefixAppend`) |
| Cookie.LookupCookie | js/script.js:22-31 | `getCookie` as a function of the cookie string; computed by `GetCookie` and characterised through `LookupConcat`, `LookupSingleEntry`, `LookupUnreachableName` |
| TeammateSearch.TextMatches | js/script.js:81 | the text condition: empty query, or the query occurs in the lower-cased description or name (occurrence as characterised by `Includes`) |
| TeammateSearch.GameMatches | js/script.js:82 | the game condition: no game selected, or exact case-sensitive equality |
| TeammateSearch.SkillMatches | js/script.js:83 | the skill condition: no skill selected, or exact case-sensitive equality |
| TeammateSearch.Criterion | js/script.js:80-84 | the predicate passed to `filter`: the three conditions together; `Search` keeps exactly the records it accepts (`SearchKeepsOrder`) |
| Registration.IsEmailPart | js/script.js:156 | `[^\s@]+`: non-empty, no white space, no `@` |
| Registration.ValidateEmail | js/script.js:155-158 | `validateEmail`: accepts exactly the `a@b.c` language of the regular expression (`ValidateEmailMeansShape`, `EmailParts`, `EmailFromParts`) |
| Registration.IsAsciiLetter | js/script.js:130 | the class `[a-zA-Z]` |
| Registration.IsAsciiDigit | js/script.js:130 | the class `[0-9]` |
| Registration.Validate | js/script.js:120-145 | the rule chain with early returns: the first failing rule decides the outcome (`ValidateReportsFirstFailure`, `DuplicateEmailRejected`) |
| Registration.UserStore.Users | js/script.js:141 | `JSON.parse(localStorage.getItem('users')) \|\| []`: the stored list, or the empty list when the entry is absent (used by `Submit`) |
| Registration.UserStore.Submit | js/script.js:110-152 | the handler returns the validation outcome; on success the stored list becomes the old list (empty if absent) with `{username, email, password}` appended; on any failure storage is unchanged; distinct emails stay distinct |

## Left out

- `loadScriptAsync` and the `fetch` polyfill check (lines 2-11, 34-37): they inject a script tag and wait for browser events.
- `setCookie` (lines 14-19): it computes a date and writes through the browser's cookie jar. The visited check in `window.onload` (lines 40-45) depends on the same jar.
- `loadTeammates` (lines 58-67): a network fetch plus JSON parsing. The directory is a parameter of `Search`. Any load failure yields the empty list, and `Search` of the empty list is empty.
- Rendering and wiring: the loading placeholder, the "not found" message, the result cards, and the event listeners (lines 47-54, 73-75, 87-108).
- The race between overlapping `searchTeammates` calls: it comes from the `await` at line 77.
- The `localStorage` JSON encoding (lines 141, 149), the exception on a malformed stored value, `preventDefault` and `this.reset()` (lines 111, 151). The stored entry is an `Option<seq<User>>`. The message texts are represented by the `Outcome` value they belong to.
- Strings.LowerChar: covers ASCII and the basic Cyrillic block (U+0400-U+042F) only. `toLowerCase` covers all of Unicode and can change the length of a string (U+0130 becomes two characters); the model's `ToLower` never does.
- Registration.PasswordAcceptable: counts Unicode scalar values, where `password.length` counts UTF-16 code units. The two differ only for characters outside the Basic Multilingual Plane. The same holds for the positions `getCookie` uses.
